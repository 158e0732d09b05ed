/** What readers see once a topology handler has committed, and what they go on seeing as before. */
module TopologyEffects {
  import opened Common
  import opened TemporalStore
  import opened TopologyIds
  import opened TopologyHistory

  // ---------------------------------------------------------------- one commit, as readers see it

  /** The two tables answer alike for every id but this one. */
  ghost predicate SameButFor<K(!new), V>(a: seq<Row<K, V>>, b: seq<Row<K, V>>, id: K) {
    forall other, ts: nat | other != id :: AsOf(a, other, ts) == AsOf(b, other, ts)
  }

  /** The two tables answer alike for every instant before this one. */
  ghost predicate SameUntil<K(!new), V>(a: seq<Row<K, V>>, b: seq<Row<K, V>>, commit: nat) {
    forall id, ts: nat | ts < commit :: AsOf(a, id, ts) == AsOf(b, id, ts)
  }

  lemma CommitSameUntil<K(!new), V>(rows: seq<Row<K, V>>, s: Stamped<K, V>)
    ensures SameUntil(Commit(rows, s), rows, s.commit)
  {
    forall id, ts: nat | ts < s.commit {
      CommitPast(rows, s, id, ts);
    }
  }

  lemma {:induction false} NoneKept<K, V>(vs: seq<V>, id: K, sel: (K, V) -> bool)
    requires forall v :: sel(id, v)
    ensures Kept(vs, id, sel) == []
  {
    if vs != [] {
      NoneKept(vs[1..], id, sel);
    }
  }

  /** A write replaces what readers see of its id from the commit on, if it decides to write at all. */
  lemma WriteShows<K(!new), V>(rows: seq<Row<K, V>>, now: int, s: Stamped<K, V>)
    requires Timed(rows, now) && now < s.commit && s.tx.Write?
    ensures SameButFor(Commit(rows, s), rows, s.tx.id) && SameUntil(Commit(rows, s), rows, s.commit)
    ensures forall ts: nat | s.commit <= ts ::
              AsOf(Commit(rows, s), s.tx.id, ts) ==
              match s.tx.decide(First(Active(rows, s.tx.id))) { case Some(v) => [v] case None => Active(rows, s.tx.id) }
  {
    CommitSameUntil(rows, s);
    var o := s.tx.decide(First(Active(rows, s.tx.id)));
    if o.Some? {
      var sel := (k: K, _: V) => k == s.tx.id;
      forall id, ts: nat | s.commit <= ts
        ensures AsOf(Commit(rows, s), id, ts) == if id == s.tx.id then [o.value] else AsOf(rows, id, ts)
      {
        AsOfAppend(CloseRows(rows, sel, s.commit), Row(s.tx.id, o.value, s.commit, None), id, ts);
        CloseFuture(rows, sel, now, s.commit, id, ts);
        if id == s.tx.id {
          NoneKept(AsOf(rows, id, ts), id, sel);
        } else {
          KeptAll(AsOf(rows, id, ts), id, sel);
        }
      }
    } else {
      forall ts: nat | s.commit <= ts {
        ActiveIsLatest(rows, now, s.tx.id, ts);
      }
    }
  }

  // ---------------------------------------------------------------- deletion

  /** Timed tables with at most one open row per id. */
  ghost predicate Orderly(t: Tables) {
    && Timed(t.routers, t.next - 1) && Timed(t.interfaces, t.next - 1)
    && (forall id :: |Active(t.routers, id)| <= 1) && (forall id :: |Active(t.interfaces, id)| <= 1)
  }

  lemma RunFacts(events: seq<Event>)
    ensures Orderly(RunOf(events))
  {
    EveryRunClosed(events);
    var t := RunOf(events);
    ProducedTimed(t.routers, t.next);
    ProducedTimed(t.interfaces, t.next);
    forall id: string ensures |Active(t.routers, id)| <= 1 && |Active(t.interfaces, id)| <= 1 {
      ProducedReadLegal(t.routers, t.next, id);
      ProducedReadLegal(t.interfaces, t.next, id);
    }
  }

  lemma RunOfMore(events: seq<Event>, e: Event)
    ensures RunOf(events + [e]) == Handle(RunOf(events), e)
  {
    assert (events + [e])[..|events|] == events;
  }

  /** From the commit on no reader sees the router; all else is as before. */
  ghost predicate RouterGone(after: seq<Row<string, Router>>, before: seq<Row<string, Router>>, id: string, commit: nat) {
    && SameUntil(after, before, commit)
    && SameButFor(after, before, id)
    && forall ts: nat | commit <= ts :: AsOf(after, id, ts) == []
  }

  /** From the commit on no row of the router's interfaces is in force; all else is as before. */
  ghost predicate InterfacesGone(after: seq<Row<string, Interface>>, before: seq<Row<string, Interface>>, id: string, commit: nat) {
    && SameUntil(after, before, commit)
    && (forall i, ts: nat | 0 <= i < |after| && commit <= ts && after[i].value.routerId == id :: !after[i].Covers(ts))
    && forall iface, ts: nat | commit <= ts :: AsOf(after, iface, ts) == NotOf(AsOf(before, iface, ts), id)
  }

  ghost function NotOf(was: seq<Interface>, id: string): seq<Interface> {
    if was != [] && was[0].routerId == id then [] else was
  }

  lemma RouterIsGone(rows: seq<Row<string, Router>>, now: int, id: string, commit: nat)
    requires Timed(rows, now) && now < commit
    ensures RouterGone(Commit(rows, At(commit, CloseRouter(id))), rows, id, commit)
  {
    var s := At(commit, CloseRouter(id));
    CommitSameUntil(rows, s);
    forall other, ts: nat | commit <= ts
      ensures AsOf(Commit(rows, s), other, ts) == if other == id then [] else AsOf(rows, other, ts)
    {
      CloseFuture(rows, s.tx.sel, now, commit, other, ts);
      if other == id {
        NoneKept(AsOf(rows, other, ts), other, s.tx.sel);
      } else {
        KeptAll(AsOf(rows, other, ts), other, s.tx.sel);
      }
    }
  }

  lemma InterfacesAreGone(rows: seq<Row<string, Interface>>, now: int, id: string, commit: nat)
    requires Timed(rows, now) && now < commit && forall iface :: |Active(rows, iface)| <= 1
    ensures InterfacesGone(Commit(rows, At(commit, CloseInterfacesOf(id))), rows, id, commit)
  {
    var s := At(commit, CloseInterfacesOf(id));
    var after := Commit(rows, s);
    CommitSameUntil(rows, s);
    forall i, ts: nat | 0 <= i < |after| && commit <= ts && after[i].value.routerId == id ensures !after[i].Covers(ts) {
      CommitAt(rows, s, i);
      assert RowTimed(rows[i], now);
    }
    forall iface, ts: nat | commit <= ts ensures AsOf(after, iface, ts) == NotOf(AsOf(rows, iface, ts), id) {
      CloseFuture(rows, s.tx.sel, now, commit, iface, ts);
      ActiveIsLatest(rows, now, iface, ts);
      var was := AsOf(rows, iface, ts);
      assert was == [] || was == [was[0]];
      if was != [] {
        KeptSingle(Some(was[0]), iface, s.tx.sel);
      }
    }
  }

  ghost predicate RouterDeleted(t: Tables, after: Tables, id: string, commit: nat) {
    RouterGone(after.routers, t.routers, id, commit) && InterfacesGone(after.interfaces, t.interfaces, id, commit)
  }

  /** After every run, a committed deletion of a router takes it and its interfaces out of every view
      from the commit on; every other router and interface, and every earlier view, is as before. */
  lemma DeletionShows(events: seq<Event>, id: string, delay: nat)
    ensures RouterDeleted(RunOf(events), RunOf(events + [DeleteRouter(id, Committed(delay))]), id, RunOf(events).next + delay)
  {
    RunFacts(events);
    RunOfMore(events, DeleteRouter(id, Committed(delay)));
    DeleteStepShows(RunOf(events), RunOf(events + [DeleteRouter(id, Committed(delay))]), id, delay);
  }

  lemma DeleteStepShows(t: Tables, after: Tables, id: string, delay: nat)
    requires Orderly(t) && after == Handle(t, DeleteRouter(id, Committed(delay)))
    ensures RouterDeleted(t, after, id, t.next + delay)
  {
    RouterIsGone(t.routers, t.next - 1, id, t.next + delay);
    InterfacesAreGone(t.interfaces, t.next - 1, id, t.next + delay);
  }

  // ---------------------------------------------------------------- until the next sync

  /** A deleted router stays gone from its commit on, whatever follows but a sync of that router. */
  lemma {:induction false} StaysGone(events: seq<Event>, id: string, delay: nat, more: seq<Event>, ts: nat)
    requires RunOf(events).next + delay <= ts
    requires forall e | e in more && e.SyncRouter? :: RouterId(e.name) != id
    ensures AsOf(RunOf(events + [DeleteRouter(id, Committed(delay))] + more).routers, id, ts) == []
  {
    var deleted := events + [DeleteRouter(id, Committed(delay))];
    if more == [] {
      assert deleted + more == deleted;
      DeletionShows(events, id, delay);
    } else {
      var front, e := more[..|more| - 1], more[|more| - 1];
      StaysGone(events, id, delay, front, ts);
      assert deleted + more == deleted + front + [e];
      RunOfMore(deleted + front, e);
      RunFacts(deleted + front);
      StillGone(RunOf(deleted + front), e, id, ts);
    }
  }

  lemma StillGone(t: Tables, e: Event, id: string, ts: nat)
    requires Timed(t.routers, t.next - 1) && AsOf(t.routers, id, ts) == []
    requires e.SyncRouter? ==> RouterId(e.name) != id
    ensures AsOf(Handle(t, e).routers, id, ts) == []
  {
    if e.SyncRouter? && e.outcome.Committed? {
      WriteShows(t.routers, t.next - 1, At(t.CommitTime(e.outcome), RouterTx(e.name, e.want)));
      LoopMovesOn(UpsertRouterStep(t, e.name, e.want, e.outcome), RouterId(e.name), e.interfaces);
    } else if e.DeleteRouter? && e.outcome.Committed? {
      RouterIsGone(t.routers, t.next - 1, e.routerId, t.CommitTime(e.outcome));
    }
  }

  // ---------------------------------------------------------------- syncs

  /** One interface transaction: from the commit on readers see the columns asked for, the status
      lower-cased; an active row that has them already stays. */
  lemma InterfaceSyncShows(rows: seq<Row<string, Interface>>, now: int, commit: nat, routerId: string, name: string, want: InterfaceColumns)
    requires Timed(rows, now) && now < commit && |Active(rows, InterfaceId(routerId, name))| <= 1
    ensures var id := InterfaceId(routerId, name);
            var after := Commit(rows, At(commit, InterfaceTx(routerId, name, want)));
            && SameButFor(after, rows, id) && SameUntil(after, rows, commit)
            && forall ts: nat | commit <= ts ::
                 if exists v :: Active(rows, id) == [v] && InterfaceCols(v) == want
                 then AsOf(after, id, ts) == Active(rows, id)
                 else AsOf(after, id, ts) == [Interface(routerId, name, want.speed, want.media, want.ip, want.mac, Lower(want.status))]
  {
    var id := InterfaceId(routerId, name);
    WriteShows(rows, now, At(commit, InterfaceTx(routerId, name, want)));
    assert Active(rows, id) == [] || Active(rows, id) == [Active(rows, id)[0]];
  }

  /** The router transaction: from the commit on readers see the config and the lower-cased status. */
  lemma RouterSyncShows(rows: seq<Row<string, Router>>, now: int, commit: nat, name: string, want: Router)
    requires Timed(rows, now) && now < commit && |Active(rows, RouterId(name))| <= 1
    ensures var after := Commit(rows, At(commit, RouterTx(name, want)));
            && SameButFor(after, rows, RouterId(name)) && SameUntil(after, rows, commit)
            && forall ts: nat | commit <= ts ::
                 exists v: Router :: AsOf(after, RouterId(name), ts) == [v] && v.config == want.config && v.status == Lower(want.status)
                                     && (v.other == want.other || Active(rows, RouterId(name)) == [v])
  {
    var id := RouterId(name);
    WriteShows(rows, now, At(commit, RouterTx(name, want)));
    assert Active(rows, id) == [] || Active(rows, id) == [Active(rows, id)[0]];
    var stored := want.(status := Lower(want.status));
    forall ts: nat | commit <= ts
      ensures exists v: Router :: AsOf(Commit(rows, At(commit, RouterTx(name, want))), id, ts) == [v] && v.config == want.config
                                  && v.status == Lower(want.status) && (v.other == want.other || Active(rows, id) == [v])
    {
      var v := if Active(rows, id) != [] && RouterCols(Active(rows, id)[0]) == RouterCols(stored) then Active(rows, id)[0] else stored;
      assert AsOf(Commit(rows, At(commit, RouterTx(name, want))), id, ts) == [v];
    }
  }

  /** The speed transaction: an interface that is active gets the bandwidth for its speed and keeps
      the rest, but for the router id and the name, which are what splitting its id yields; one that
      is not active, or has that speed already, is left alone. */
  lemma SpeedSyncShows(rows: seq<Row<string, Interface>>, now: int, commit: nat, id: string, routerId: string, name: string, bandwidth: string)
    requires Timed(rows, now) && now < commit && |Active(rows, id)| <= 1
    ensures var after := Commit(rows, At(commit, SpeedTx(id, routerId, name, bandwidth)));
            && SameButFor(after, rows, id) && SameUntil(after, rows, commit)
            && (Active(rows, id) == [] ==> forall ts: nat | commit <= ts :: AsOf(after, id, ts) == [])
            && forall v, ts: nat | Active(rows, id) == [v] && commit <= ts ::
                 AsOf(after, id, ts) ==
                 if v.speed == bandwidth then [v] else [Interface(routerId, name, bandwidth, v.media, v.ip, v.mac, v.status)]
  {
    WriteShows(rows, now, At(commit, SpeedTx(id, routerId, name, bandwidth)));
  }

  /** Over every run, a speed sync that commits, for an id that splits in two and a known bandwidth,
      shows exactly what its transaction does; every other one changes nothing. */
  lemma SpeedShows(events: seq<Event>, id: string, bandwidth: string, outcome: Outcome, v: Interface, ts: nat)
    requires Active(RunOf(events).interfaces, id) == [v]
    requires outcome.Committed? ==> RunOf(events).next + outcome.delay <= ts
    ensures var t, after := RunOf(events), RunOf(events + [SyncSpeed(id, bandwidth, outcome)]);
            && after.routers == t.routers && SameButFor(after.interfaces, t.interfaces, id)
            && (bandwidth in {"", "unknown", v.speed} || |Split(id)| != 2 || outcome.Aborted? ==> after.interfaces == t.interfaces)
            && (bandwidth !in {"", "unknown", v.speed} && |Split(id)| == 2 && outcome.Committed? ==>
                  AsOf(after.interfaces, id, ts) == [Interface(Split(id)[0], Split(id)[1], bandwidth, v.media, v.ip, v.mac, v.status)])
  {
    RunFacts(events);
    RunOfMore(events, SyncSpeed(id, bandwidth, outcome));
    if outcome.Committed? && |Split(id)| == 2 {
      var t := RunOf(events);
      SpeedSyncShows(t.interfaces, t.next - 1, t.CommitTime(outcome), id, Split(id)[0], Split(id)[1], bandwidth);
    }
  }

  // ---------------------------------------------------------------- a whole router sync

  /** Readers see the interface as asked for, its status as given or lower-cased. */
  ghost predicate ShownAs(rows: seq<Row<string, Interface>>, id: string, ts: nat, want: InterfaceColumns) {
    exists v :: AsOf(rows, id, ts) == [v] && v.speed == want.speed && v.media == want.media && v.ip == want.ip && v.mac == want.mac
                && (v.status == want.status || v.status == Lower(want.status))
  }

  /** Readers see the router as asked for, its status lower-cased. */
  ghost predicate RouterShownAs(rows: seq<Row<string, Router>>, id: string, ts: nat, want: Router) {
    exists v :: AsOf(rows, id, ts) == [v] && v.config == want.config && v.status == Lower(want.status)
  }

  ghost predicate LastOfItsName(interfaces: seq<InterfaceSync>, k: nat)
    requires k < |interfaces|
  {
    forall l | k < l < |interfaces| :: interfaces[l].name != interfaces[k].name
  }

  lemma InterfaceIdsDiffer(routerId: string, a: string, b: string)
    requires a != b
    ensures InterfaceId(routerId, a) != InterfaceId(routerId, b)
  {
    var prefix := routerId + SEPARATOR;
    assert InterfaceId(routerId, a)[|prefix|..] == a && InterfaceId(routerId, b)[|prefix|..] == b;
  }

  /** One interface transaction on tables that a run left behind. */
  lemma StepShows(t: Tables, routerId: string, i: InterfaceSync, ts: nat)
    requires Produced(t.interfaces, t.next) && UpsertInterfaceStep(t, routerId, i).next <= ts
    ensures var after := UpsertInterfaceStep(t, routerId, i);
            && SameButFor(after.interfaces, t.interfaces, InterfaceId(routerId, i.name)) && t.next <= after.next
            && (i.outcome.Committed? ==> ShownAs(after.interfaces, InterfaceId(routerId, i.name), ts, i.want))
  {
    ProducedTimed(t.interfaces, t.next);
    ProducedReadLegal(t.interfaces, t.next, InterfaceId(routerId, i.name));
    if i.outcome.Committed? {
      InterfaceSyncShows(t.interfaces, t.next - 1, t.CommitTime(i.outcome), routerId, i.name, i.want);
    }
  }

  /** After the loop over the interfaces, each one whose transaction committed is seen as asked for,
      unless a later one has its name. */
  lemma {:induction false} LoopShows(t: Tables, name: string, interfaces: seq<InterfaceSync>, k: nat, ts: nat)
    requires t.Inv() && ColonFree(name) && Active(t.routers, RouterId(name)) != []
    requires k < |interfaces| && interfaces[k].outcome.Committed? && LastOfItsName(interfaces, k)
    requires UpsertInterfaces(t, RouterId(name), interfaces).next <= ts
    ensures ShownAs(UpsertInterfaces(t, RouterId(name), interfaces).interfaces, InterfaceId(RouterId(name), interfaces[k].name), ts,
                    interfaces[k].want)
  {
    var n := |interfaces| - 1;
    var before := UpsertInterfaces(t, RouterId(name), interfaces[..n]);
    InterfaceLoopKeepsInv(t, name, interfaces[..n]);
    StepShows(before, RouterId(name), interfaces[n], ts);
    if k < n {
      InterfaceIdsDiffer(RouterId(name), interfaces[k].name, interfaces[n].name);
      LoopShows(t, name, interfaces[..n], k, ts);
    }
  }

  /** The loop leaves every other interface alone. */
  lemma {:induction false} LoopLeavesOthers(t: Tables, name: string, interfaces: seq<InterfaceSync>, id: string, ts: nat)
    requires t.Inv() && ColonFree(name) && Active(t.routers, RouterId(name)) != []
    requires forall i | i in interfaces :: InterfaceId(RouterId(name), i.name) != id
    ensures AsOf(UpsertInterfaces(t, RouterId(name), interfaces).interfaces, id, ts) == AsOf(t.interfaces, id, ts)
  {
    if interfaces != [] {
      var n := |interfaces| - 1;
      var before := UpsertInterfaces(t, RouterId(name), interfaces[..n]);
      InterfaceLoopKeepsInv(t, name, interfaces[..n]);
      StepShows(before, RouterId(name), interfaces[n], UpsertInterfaceStep(before, RouterId(name), interfaces[n]).next);
      LoopLeavesOthers(t, name, interfaces[..n], id, ts);
    }
  }

  /** After every run, a router sync whose router transaction committed shows the router as asked for,
      and every interface whose transaction committed; other routers and interfaces are as before. */
  lemma SyncShows(events: seq<Event>, name: ObjectName, want: Router, delay: nat, interfaces: seq<InterfaceSync>, ts: nat)
    requires RunOf(events + [SyncRouter(name, want, Committed(delay), interfaces)]).next <= ts
    ensures var t, after := RunOf(events), RunOf(events + [SyncRouter(name, want, Committed(delay), interfaces)]);
            && RouterShownAs(after.routers, RouterId(name), ts, want)
            && SameButFor(after.routers, t.routers, RouterId(name))
            && (forall k: nat | k < |interfaces| && interfaces[k].outcome.Committed? && LastOfItsName(interfaces, k) ::
                  ShownAs(after.interfaces, InterfaceId(RouterId(name), interfaces[k].name), ts, interfaces[k].want))
            && forall id, at: nat | (forall i | i in interfaces :: InterfaceId(RouterId(name), i.name) != id) ::
                 AsOf(after.interfaces, id, at) == AsOf(t.interfaces, id, at)
  {
    EveryRunClosed(events);
    RunOfMore(events, SyncRouter(name, want, Committed(delay), interfaces));
    SyncStepShows(RunOf(events), name, want, delay, interfaces, ts);
    var t, outcome := RunOf(events), Committed(delay);
    var first := UpsertRouterStep(t, name, want, outcome);
    RouterUpsertKeepsInv(t, name, want, outcome);
    forall k: nat | k < |interfaces| && interfaces[k].outcome.Committed? && LastOfItsName(interfaces, k)
      ensures ShownAs(UpsertInterfaces(first, RouterId(name), interfaces).interfaces, InterfaceId(RouterId(name), interfaces[k].name), ts,
                      interfaces[k].want)
    {
      LoopShows(first, name, interfaces, k, ts);
    }
    forall id, at: nat | forall i | i in interfaces :: InterfaceId(RouterId(name), i.name) != id
      ensures AsOf(UpsertInterfaces(first, RouterId(name), interfaces).interfaces, id, at) == AsOf(t.interfaces, id, at)
    {
      LoopLeavesOthers(first, name, interfaces, id, at);
    }
  }

  lemma SyncStepShows(t: Tables, name: string, want: Router, delay: nat, interfaces: seq<InterfaceSync>, ts: nat)
    requires Produced(t.routers, t.next)
    requires UpsertInterfaces(UpsertRouterStep(t, name, want, Committed(delay)), RouterId(name), interfaces).next <= ts
    ensures var after := UpsertInterfaces(UpsertRouterStep(t, name, want, Committed(delay)), RouterId(name), interfaces);
            RouterShownAs(after.routers, RouterId(name), ts, want) && SameButFor(after.routers, t.routers, RouterId(name))
  {
    ProducedTimed(t.routers, t.next);
    ProducedReadLegal(t.routers, t.next, RouterId(name));
    RouterSyncShows(t.routers, t.next - 1, t.next + delay, name, want);
    LoopMovesOn(UpsertRouterStep(t, name, want, Committed(delay)), RouterId(name), interfaces);
  }

  lemma {:induction false} LoopMovesOn(t: Tables, routerId: string, interfaces: seq<InterfaceSync>)
    ensures UpsertInterfaces(t, routerId, interfaces).routers == t.routers && t.next <= UpsertInterfaces(t, routerId, interfaces).next
  {
    if interfaces != [] {
      LoopMovesOn(t, routerId, interfaces[..|interfaces| - 1]);
    }
  }

  // ---------------------------------------------------------------- what a sync asks for

  /** The stored form of a status: capital letters are replaced by the small ones, nothing else is. */
  lemma LowerIs(s: string, k: nat)
    requires k < |s|
    ensures |Lower(s)| == |s|
    ensures if 'A' <= s[k] <= 'Z' then 'a' <= Lower(s)[k] <= 'z' && Lower(s)[k] as int - 'a' as int == s[k] as int - 'A' as int
            else Lower(s)[k] == s[k]
  {
    assert Lower(s)[k] == LowerChar(s[k]);
  }

  /** The address up to the slash, if it has one. */
  ghost predicate UpToSlash(address: string, ip: string) {
    ip <= address && '/' !in ip && (|ip| < |address| ==> address[|ip|] == '/')
  }

  lemma {:induction false} BeforeSlashIs(address: string)
    ensures UpToSlash(address, BeforeSlash(address))
  {
    if address != "" && address[0] != '/' {
      BeforeSlashIs(address[1..]);
      var rest := BeforeSlash(address[1..]);
      assert address == [address[0]] + address[1..];
    }
  }

  /** s is what is first reported for the name. */
  ghost predicate ReportedAs(reports: seq<(string, string)>, name: string, s: string) {
    exists i :: 0 <= i < |reports| && reports[i] == (name, s) && forall k | 0 <= k < i :: reports[k].0 != name
  }

  lemma {:induction false} ReportedIs(reports: seq<(string, string)>, name: string)
    ensures ReportedAs(reports, name, Reported(reports, name)) || (Reported(reports, name) == "Unknown" && forall i | 0 <= i < |reports| :: reports[i].0 != name)
  {
    if reports != [] {
      ReportedIs(reports[1..], name);
      if reports[0].0 != name && ReportedAs(reports[1..], name, Reported(reports, name)) {
        var i :| 0 <= i < |reports[1..]| && reports[1..][i] == (name, Reported(reports, name)) && forall k | 0 <= k < i :: reports[1..][k].0 != name;
        assert reports[i + 1] == (name, Reported(reports, name));
        assert forall k | 0 < k < i + 1 :: reports[k].0 == reports[1..][k - 1].0;
      } else if reports[0].0 == name {
        assert reports[0] == (name, Reported(reports, name));
      } else {
        assert forall k | 0 < k < |reports| :: reports[k] == reports[1..][k - 1];
      }
    }
  }

  /** What a sync asks for, column by column. A reported status other than "Unknown" goes before an
      inferred one, and a link's bandwidth, unless unknown, before the configured speed. */
  lemma WantedIs(spec: InterfaceSpec, bandwidth: Option<string>, reports: seq<(string, string)>, routerStatus: string)
    ensures var want := Wanted(spec, bandwidth, reports, routerStatus);
            && UpToSlash(spec.address, want.ip) && want.mac == spec.mac
            && (spec.name == "lo" ==> want.speed == "N/A" && want.media == "loopback")
            && (spec.name != "lo" ==> want.media == spec.media
                                      && want.speed == if bandwidth in {None, Some(""), Some("unknown")} then spec.speed else bandwidth.value)
            && (if exists s :: s != "Unknown" && ReportedAs(reports, spec.name, s) then ReportedAs(reports, spec.name, want.status) && want.status != "Unknown"
                else want.status == if !spec.enabled then "ADMIN_DOWN" else if routerStatus in {"Running", "Ready"} then "UP" else "DOWN")
  {
    BeforeSlashIs(spec.address);
    ReportedIs(reports, spec.name);
    forall s, t | ReportedAs(reports, spec.name, s) && ReportedAs(reports, spec.name, t) ensures s == t {
      ReportedOnce(reports, spec.name, s, t);
    }
  }

  lemma ReportedOnce(reports: seq<(string, string)>, name: string, s: string, t: string)
    requires ReportedAs(reports, name, s) && ReportedAs(reports, name, t)
    ensures s == t
  {
    var i :| 0 <= i < |reports| && reports[i] == (name, s) && forall k | 0 <= k < i :: reports[k].0 != name;
    var j :| 0 <= j < |reports| && reports[j] == (name, t) && forall k | 0 <= k < j :: reports[k].0 != name;
    assert i == j;
  }
}
