/** Identifiers of routers and interfaces, and Python's split on the interface separator. */
module TopologyIds {

  const SEPARATOR := ":interface:"

  function RouterId(name: string): string {
    "router:" + name
  }

  function InterfaceId(routerId: string, name: string): string {
    routerId + SEPARATOR + name
  }

  /** Kubernetes object names contain no colon. */
  predicate ColonFree(name: string) {
    ':' !in name
  }

  predicate SeparatorAt(s: string, i: nat) {
    i + |SEPARATOR| <= |s| && s[i..i + |SEPARATOR|] == SEPARATOR
  }

  /** s.split(":interface:"): leftmost, non-overlapping separators, scanning from i. */
  function SplitFrom(s: string, i: nat): (parts: seq<string>)
    requires i <= |s|
    ensures |parts| >= 1
    decreases |s|, |s| - i
  {
    if SeparatorAt(s, i) then [s[..i]] + SplitFrom(s[i + |SEPARATOR|..], 0)
    else if i == |s| then [s]
    else SplitFrom(s, i + 1)
  }

  function Split(s: string): (parts: seq<string>)
    ensures |parts| >= 1
  {
    SplitFrom(s, 0)
  }

  lemma {:induction false} SplitSkips(s: string, i: nat, j: nat)
    requires i <= j <= |s|
    requires forall k :: i <= k < j ==> !SeparatorAt(s, k)
    ensures SplitFrom(s, i) == SplitFrom(s, j)
    decreases j - i
  {
    if i < j {
      assert !SeparatorAt(s, i);
      SplitSkips(s, i + 1, j);
    }
  }

  lemma {:induction false} SplitSingle(s: string, i: nat)
    requires i <= |s| && |SplitFrom(s, i)| == 1
    ensures SplitFrom(s, i) == [s]
    decreases |s| - i
  {
    if !SeparatorAt(s, i) && i < |s| {
      SplitSingle(s, i + 1);
    }
  }

  /** The separator starts and ends with a colon and has none in between. */
  lemma SeparatorColons(s: string, k: nat)
    requires SeparatorAt(s, k)
    ensures s[k] == ':' && s[k + 10] == ':'
    ensures forall j :: k < j < k + 10 ==> s[j] != ':'
  {
    var w := s[k..k + |SEPARATOR|];
    assert w[0] == ':' && w[10] == ':';
    forall j | k < j < k + 10 ensures s[j] != ':' {
      assert s[j] == w[j - k] == SEPARATOR[j - k];
    }
  }

  lemma EarlySeparator(name: string, iface: string, k: nat)
    requires ColonFree(name) && k < 7 + |name|
    requires SeparatorAt(InterfaceId(RouterId(name), iface), k)
    ensures k == 6 && name == "interface"
  {
    var id, n := InterfaceId(RouterId(name), iface), 7 + |name|;
    assert id == "router:" + name + SEPARATOR + iface;
    SeparatorColons(id, k);
    assert id[n] == ':';
    forall j | 7 <= j < n ensures id[j] != ':' {
      assert id[j] == name[j - 7];
    }
    assert k == 6 && n == 16;
    assert name == id[7..16] == id[6..17][1..10] == SEPARATOR[1..10];
  }

  /** A router id is never an interface id. */
  lemma RouterIsNoInterface(router: string, name: string, iface: string)
    requires ColonFree(router) && ColonFree(name)
    ensures RouterId(router) != InterfaceId(RouterId(name), iface)
  {
    var a, b, n := RouterId(router), InterfaceId(RouterId(name), iface), 7 + |name|;
    assert b[n] == SEPARATOR[0];
    if n < |a| {
      assert a[n] == router[n - 7];
    }
  }

  lemma OwnerReaches(a: string, b: string, x: string, y: string)
    requires ColonFree(b) && InterfaceId(RouterId(a), x) == InterfaceId(RouterId(b), y)
    ensures |b| <= |a|
  {
    var id := InterfaceId(RouterId(a), x);
    assert id[7 + |a|] == SEPARATOR[0];
    forall j | 7 <= j < 7 + |b| ensures id[j] != ':' {
      assert id[j] == b[j - 7];
    }
  }

  /** An interface id names one router. */
  lemma OwnerIsUnique(a: string, b: string, x: string, y: string)
    requires ColonFree(a) && ColonFree(b) && InterfaceId(RouterId(a), x) == InterfaceId(RouterId(b), y)
    ensures a == b
  {
    OwnerReaches(a, b, x, y);
    OwnerReaches(b, a, y, x);
    var id := InterfaceId(RouterId(a), x);
    assert a == id[7..7 + |a|] == b;
  }

  /** The first separator in an interface id sits right after the router id, unless the router
      is called "interface": then "router:" + "interface:" already contains one. */
  lemma FirstSeparator(name: string, iface: string)
    requires ColonFree(name)
    ensures var id := InterfaceId(RouterId(name), iface);
            if name == "interface" then SeparatorAt(id, 6) && forall k :: 0 <= k < 6 ==> !SeparatorAt(id, k)
            else SeparatorAt(id, 7 + |name|) && forall k :: 0 <= k < 7 + |name| ==> !SeparatorAt(id, k)
  {
    var id, n := InterfaceId(RouterId(name), iface), 7 + |name|;
    forall k | 0 <= k < n && SeparatorAt(id, k) ensures k == 6 && name == "interface" {
      EarlySeparator(name, iface, k);
    }
    assert id[n..n + |SEPARATOR|] == SEPARATOR;
    if name == "interface" {
      assert id == "router" + SEPARATOR + "interface:" + iface;
    }
  }

  /** Port eth0 of a router called "interface": the split stops after "router". */
  lemma SplitOfRouterInterface()
    ensures var parts := Split(InterfaceId(RouterId("interface"), "eth0"));
            |parts| == 2 && |parts[0]| == 6
  {
    var id := InterfaceId(RouterId("interface"), "eth0");
    FirstSeparator("interface", "eth0");
    SplitSkips(id, 0, 6);
    var rest := id[17..];
    forall k | 0 <= k < 9 ensures rest[k] != ':' {
      assert rest[k] == id[17 + k] == SEPARATOR[k + 1];
    }
    forall k | 0 <= k < |rest| ensures !SeparatorAt(rest, k) {
      if SeparatorAt(rest, k) {
        SeparatorColons(rest, k);
      }
    }
    SplitSkips(rest, 0, |rest|);
  }

  /** Splitting an interface id in two always recovers the router if and only if the router is
      not called "interface". */
  lemma SplitRecoversRouterIff(name: string)
    requires ColonFree(name)
    ensures (forall iface :: |Split(InterfaceId(RouterId(name), iface))| == 2 ==>
               Split(InterfaceId(RouterId(name), iface)) == [RouterId(name), iface]) <==> name != "interface"
  {
    if name == "interface" {
      SplitOfRouterInterface();
      assert |RouterId(name)| > 6;
    } else {
      forall iface | |Split(InterfaceId(RouterId(name), iface))| == 2
        ensures Split(InterfaceId(RouterId(name), iface)) == [RouterId(name), iface]
      {
        SplitParts(name, iface);
      }
    }
  }

  lemma SplitParts(name: string, iface: string)
    requires ColonFree(name) && name != "interface"
    ensures Split(InterfaceId(RouterId(name), iface)) == [RouterId(name)] + Split(iface)
    ensures |Split(iface)| == 1 ==> Split(iface) == [iface]
  {
    var id, n := InterfaceId(RouterId(name), iface), 7 + |name|;
    FirstSeparator(name, iface);
    SplitSkips(id, 0, n);
    assert id[..n] == RouterId(name) && id[n + |SEPARATOR|..] == iface;
    if |Split(iface)| == 1 {
      SplitSingle(iface, 0);
    }
  }
}

/** Routers and their interfaces over time: at every instant, a visible interface belongs to
    a visible router. */
module TopologyHistory {
  import opened Common
  import opened TemporalStore
  import opened TopologyIds

  /** `config` stands for the sanitised resource body; `other` for the columns that no sync compares. */
  datatype Router = Router(config: string, status: string, other: string)
  datatype RouterColumns = RouterColumns(config: string, status: string)
  datatype Interface = Interface(routerId: string, name: string, speed: string, media: string,
                                 ip: string, mac: string, status: string)
  datatype InterfaceColumns = InterfaceColumns(speed: string, media: string, ip: string, mac: string, status: string)

  /** A transaction either fails and leaves no trace or commits later than everything before it. */
  datatype Outcome = Aborted | Committed(delay: nat)

  function LowerChar(c: char): char {
    if 'A' <= c <= 'Z' then (c as int + 32) as char else c
  }

  /** str.lower() on ASCII text. */
  function Lower(s: string): (r: string)
    ensures |r| == |s|
  {
    seq(|s|, i requires 0 <= i < |s| => LowerChar(s[i]))
  }

  lemma LowerIdempotent(s: string)
    ensures Lower(Lower(s)) == Lower(s)
  {
    assert forall i :: 0 <= i < |s| ==> Lower(Lower(s))[i] == Lower(s)[i];
  }

  function RouterCols(r: Router): RouterColumns {
    RouterColumns(r.config, r.status)
  }

  function InterfaceCols(i: Interface): InterfaceColumns {
    InterfaceColumns(i.speed, i.media, i.ip, i.mac, i.status)
  }

  /** What storing does to the compared interface columns: the status is lower-cased. */
  function StoredCols(c: InterfaceColumns): InterfaceColumns {
    c.(status := Lower(c.status))
  }

  function StoredInterface(routerId: string, name: string, want: InterfaceColumns): Interface {
    Interface(routerId, name, want.speed, want.media, want.ip, want.mac, Lower(want.status))
  }

  function RouterTx(name: string, want: Router): Tx<string, Router> {
    var stored := want.(status := Lower(want.status));
    UpsertTx(RouterId(name), RouterCols(stored), stored, RouterCols)
  }

  function InterfaceTx(routerId: string, name: string, want: InterfaceColumns): Tx<string, Interface> {
    UpsertTx(InterfaceId(routerId, name), want, StoredInterface(routerId, name, want), InterfaceCols)
  }

  /** Re-inserts an existing interface with the link's bandwidth, under the router id that
      splitting the interface id yields. */
  function SpeedTx(id: string, routerId: string, name: string, bandwidth: string): Tx<string, Interface> {
    Write(id, (o: Option<Interface>) =>
      if o.None? || o.value.speed == bandwidth then None
      else Some(o.value.(routerId := routerId, name := name, speed := bandwidth)))
  }

  // ---------------------------------------------------------------- closure at every instant

  ghost predicate Visible<K, V>(rows: seq<Row<K, V>>, id: K, ts: nat) {
    AsOf(rows, id, ts) != []
  }

  /** Interface ids the speed sync misreads: those of routers called "interface" that split in two. */
  ghost predicate Exempt(id: string) {
    |Split(id)| == 2 && exists iface: string :: id == InterfaceId(RouterId("interface"), iface)
  }

  /** The row was synced by a router called `name` and, unless its id is misread, still carries that
      router's id. */
  ghost predicate OwnedBy(r: Row<string, Interface>, name: string, iface: string) {
    && ColonFree(name)
    && r.id == InterfaceId(RouterId(name), iface)
    && (!Exempt(r.id) ==> r.value.routerId == RouterId(name))
  }

  ghost predicate Owned(r: Row<string, Interface>) {
    exists name: string, iface: string :: OwnedBy(r, name, iface)
  }

  ghost predicate AllOwned(interfaces: seq<Row<string, Interface>>) {
    forall i {:trigger Owned(interfaces[i])} :: 0 <= i < |interfaces| ==> Owned(interfaces[i])
  }

  /** At every instant, past or future: a visible interface has a visible router. */
  ghost predicate Closed(routers: seq<Row<string, Router>>, interfaces: seq<Row<string, Interface>>) {
    forall i, ts: nat {:trigger interfaces[i].Covers(ts)} :: 0 <= i < |interfaces| && !Exempt(interfaces[i].id) && interfaces[i].Covers(ts)
      ==> Visible(routers, interfaces[i].value.routerId, ts)
  }

  lemma {:induction false} KeptAll<K, V>(vs: seq<V>, id: K, sel: (K, V) -> bool)
    requires forall v :: !sel(id, v)
    ensures Kept(vs, id, sel) == vs
  {
    if vs != [] {
      KeptAll(vs[1..], id, sel);
    }
  }

  /** A write never makes any id invisible at any instant, and its own id is visible from the commit on. */
  lemma WriteKeepsVisible<K(!new), V>(rows: seq<Row<K, V>>, now: int, s: Stamped<K, V>, id: K, ts: nat)
    requires Timed(rows, now) && now < s.commit && s.tx.Write?
    ensures Visible(rows, id, ts) ==> Visible(Commit(rows, s), id, ts)
    ensures s.tx.decide(First(Active(rows, s.tx.id))).Some? && id == s.tx.id && s.commit <= ts ==>
              Visible(Commit(rows, s), id, ts)
  {
    if ts < s.commit {
      CommitPast(rows, s, id, ts);
    } else {
      match s.tx.decide(First(Active(rows, s.tx.id))) {
        case None =>
        case Some(v) =>
          var sel := (k: K, _: V) => k == s.tx.id;
          AsOfAppend(CloseRows(rows, sel, s.commit), Row(s.tx.id, v, s.commit, None), id, ts);
          CloseFuture(rows, sel, now, s.commit, id, ts);
          if id != s.tx.id {
            KeptAll(AsOf(rows, id, ts), id, sel);
          }
      }
    }
  }

  lemma {:induction false} ActiveHasRow<K, V>(rows: seq<Row<K, V>>, id: K, v: V) returns (i: nat)
    requires v in Active(rows, id)
    ensures i < |rows| && rows[i].Open() && rows[i].id == id && rows[i].value == v
  {
    if rows[0].id == id && rows[0].Open() && rows[0].value == v {
      i := 0;
    } else {
      i := ActiveHasRow(rows[1..], id, v);
      i := i + 1;
    }
  }

  lemma RouterWriteKeepsClosed(routers: seq<Row<string, Router>>, interfaces: seq<Row<string, Interface>>,
                               now: int, s: Stamped<string, Router>)
    requires Timed(routers, now) && now < s.commit && s.tx.Write? && Closed(routers, interfaces)
    ensures Closed(Commit(routers, s), interfaces)
  {
    forall i, ts: nat | 0 <= i < |interfaces| && !Exempt(interfaces[i].id) && interfaces[i].Covers(ts)
      ensures Visible(Commit(routers, s), interfaces[i].value.routerId, ts)
    {
      WriteKeepsVisible(routers, now, s, interfaces[i].value.routerId, ts);
    }
  }

  /** Writing interface rows keeps closure when every row written names a router that is
      visible from the commit on. */
  lemma InterfaceWriteKeepsClosed(routers: seq<Row<string, Router>>, interfaces: seq<Row<string, Interface>>,
                                  s: Stamped<string, Interface>)
    requires s.tx.Write? && Closed(routers, interfaces)
    requires var o := s.tx.decide(First(Active(interfaces, s.tx.id)));
             o.Some? && !Exempt(s.tx.id) ==>
               forall ts: nat :: s.commit <= ts ==> Visible(routers, o.value.routerId, ts)
    ensures Closed(routers, Commit(interfaces, s))
  {
    var after := Commit(interfaces, s);
    forall i, ts: nat | 0 <= i < |after| && !Exempt(after[i].id) && after[i].Covers(ts)
      ensures Visible(routers, after[i].value.routerId, ts)
    {
      if i < |interfaces| {
        CommitAt(interfaces, s, i);
        assert interfaces[i].Covers(ts);
      }
    }
  }

  /** Closing a router together with its interfaces keeps closure. */
  lemma DeleteKeepsClosed(routers: seq<Row<string, Router>>, interfaces: seq<Row<string, Interface>>,
                          now: int, routerId: string, commit: nat)
    requires Timed(routers, now) && Timed(interfaces, now) && now < commit && Closed(routers, interfaces)
    ensures Closed(Commit(routers, At(commit, CloseRouter(routerId))), Commit(interfaces, At(commit, CloseInterfacesOf(routerId))))
  {
    var routers', interfaces' := Commit(routers, At(commit, CloseRouter(routerId))),
                                 Commit(interfaces, At(commit, CloseInterfacesOf(routerId)));
    forall i, ts: nat | 0 <= i < |interfaces'| && !Exempt(interfaces'[i].id) && interfaces'[i].Covers(ts)
      ensures Visible(routers', interfaces'[i].value.routerId, ts)
    {
      CommitAt(interfaces, At(commit, CloseInterfacesOf(routerId)), i);
      assert RowTimed(interfaces[i], now);
      assert interfaces[i].Covers(ts);
      var r := interfaces[i].value.routerId;
      if ts < commit {
        CommitPast(routers, At(commit, CloseRouter(routerId)), r, ts);
      } else {
        var sel := (k: string, _: Router) => k == routerId;
        CloseFuture(routers, sel, now, commit, r, ts);
        KeptAll(AsOf(routers, r, ts), r, sel);
      }
    }
  }

  function CloseRouter(routerId: string): Tx<string, Router> {
    Close((k: string, _: Router) => k == routerId)
  }

  function CloseInterfacesOf(routerId: string): Tx<string, Interface> {
    Close((_: string, i: Interface) => i.routerId == routerId)
  }

  // ---------------------------------------------------------------- what a router sync asks for

  datatype InterfaceSpec = InterfaceSpec(name: string, address: string, media: string, mac: string,
                                         enabled: bool, speed: string)

  /** ip_address.split('/')[0]. */
  function BeforeSlash(s: string): string {
    if s == "" || s[0] == '/' then "" else [s[0]] + BeforeSlash(s[1..])
  }

  /** First reported status of the interface, "Unknown" when there is none. */
  function Reported(reports: seq<(string, string)>, name: string): string {
    if reports == [] then "Unknown"
    else if reports[0].0 == name then reports[0].1
    else Reported(reports[1..], name)
  }

  function InterfaceStatus(spec: InterfaceSpec, reports: seq<(string, string)>, routerStatus: string): string {
    var s := Reported(reports, spec.name);
    if s != "Unknown" then s
    else if !spec.enabled then "ADMIN_DOWN"
    else if routerStatus == "Running" || routerStatus == "Ready" then "UP"
    else "DOWN"
  }

  function Wanted(spec: InterfaceSpec, bandwidth: Option<string>, reports: seq<(string, string)>, routerStatus: string): InterfaceColumns {
    var loopback := spec.name == "lo";
    var linked := bandwidth.Some? && bandwidth.value != "" && bandwidth.value != "unknown";
    InterfaceColumns(
      if loopback then "N/A" else if linked then bandwidth.value else spec.speed,
      if loopback then "loopback" else spec.media,
      BeforeSlash(spec.address), spec.mac, InterfaceStatus(spec, reports, routerStatus))
  }

  /** Resyncing an interface writes nothing if and only if its status is lower-case already. */
  lemma InterfaceResyncSilentIff(rows: seq<Row<string, Interface>>, now: int, routerId: string, name: string,
                                 want: InterfaceColumns, first: nat, again: nat)
    requires Timed(rows, now) && now < first < again
    requires var id := InterfaceId(routerId, name);
             |Active(rows, id)| <= 1 && forall v :: v in Active(rows, id) ==> Lower(v.status) == v.status
    ensures var once := Commit(rows, At(first, InterfaceTx(routerId, name, want)));
            Commit(once, At(again, InterfaceTx(routerId, name, want))) == once <==> Lower(want.status) == want.status
  {
    StoredColsIdempotent();
    RepeatIsSilentIff(rows, now, InterfaceId(routerId, name), want, StoredInterface(routerId, name, want),
                      InterfaceCols, StoredCols, first, again);
  }

  lemma StoredColsIdempotent()
    ensures Idempotent(StoredCols)
  {
    forall c: InterfaceColumns ensures StoredCols(StoredCols(c)) == StoredCols(c) {
      LowerIdempotent(c.status);
    }
  }

  /** A status the router does not report is never lower-case, so every resync of such an
      interface closes its row and inserts an identical one. */
  lemma UnreportedStatusAlwaysRewrites(spec: InterfaceSpec, reports: seq<(string, string)>, routerStatus: string)
    requires Reported(reports, spec.name) == "Unknown"
    ensures Lower(InterfaceStatus(spec, reports, routerStatus)) != InterfaceStatus(spec, reports, routerStatus)
  {
    var s := InterfaceStatus(spec, reports, routerStatus);
    assert Lower(s)[0] == LowerChar(s[0]);
  }

  /** Resyncing a router is always silent: its status is compared in the form it is stored in. */
  lemma RouterResyncSilent(rows: seq<Row<string, Router>>, now: int, name: string, want: Router, first: nat, again: nat)
    requires Timed(rows, now) && now < first < again
    requires |Active(rows, RouterId(name))| <= 1
    ensures var once := Commit(rows, At(first, RouterTx(name, want)));
            Commit(once, At(again, RouterTx(name, want))) == once
  {
    var stored := want.(status := Lower(want.status));
    RepeatIsSilentIff(rows, now, RouterId(name), RouterCols(stored), stored, RouterCols, c => c, first, again);
  }

  // ---------------------------------------------------------------- runs of handlers

  type ObjectName = name: string | ColonFree(name)

  datatype InterfaceSync = InterfaceSync(name: string, want: InterfaceColumns, outcome: Outcome)

  /** One handler invocation, with what the database answered to each of its transactions. */
  datatype Event =
    | SyncRouter(name: ObjectName, want: Router, outcome: Outcome, interfaces: seq<InterfaceSync>)
    | SyncSpeed(interfaceId: string, bandwidth: string, outcome: Outcome)
    | DeleteRouter(routerId: string, outcome: Outcome)

  datatype Tables = Tables(routers: seq<Row<string, Router>>, interfaces: seq<Row<string, Interface>>, next: nat) {
    ghost predicate Inv() {
      && Produced(routers, next)
      && Produced(interfaces, next)
      && AllOwned(interfaces)
      && Closed(routers, interfaces)
    }

    function CommitTime(outcome: Outcome): nat
      requires outcome.Committed?
    {
      next + outcome.delay
    }
  }

  /** The rows are what transactions stamped in increasing order, before `next`, left behind. */
  ghost predicate Produced<K(!new), V(!new)>(rows: seq<Row<K, V>>, next: nat) {
    exists run: seq<Stamped<K, V>> :: LeftBy(rows, run, next)
  }

  ghost predicate LeftBy<K, V>(rows: seq<Row<K, V>>, run: seq<Stamped<K, V>>, next: nat) {
    Increasing(run) && Now(run) < next && rows == Rows(run)
  }

  lemma ProducedTimed<K(!new), V(!new)>(rows: seq<Row<K, V>>, next: nat)
    requires Produced(rows, next)
    ensures Timed(rows, next - 1)
  {
    var run :| LeftBy(rows, run, next);
    RowsTimed(run);
    forall i | 0 <= i < |rows| ensures RowTimed(rows[i], next - 1) {
      assert RowTimed(rows[i], Now(run));
    }
  }

  /** `one_or_none` is legal on a table that committed transactions produced. */
  lemma ProducedReadLegal<K(!new), V(!new)>(rows: seq<Row<K, V>>, next: nat, id: K)
    requires Produced(rows, next)
    ensures |Active(rows, id)| <= 1
  {
    var run :| LeftBy(rows, run, next);
    OneActive(run, id);
  }

  lemma ProducedCommit<K(!new), V(!new)>(rows: seq<Row<K, V>>, next: nat, s: Stamped<K, V>)
    requires Produced(rows, next) && next <= s.commit
    ensures Produced(Commit(rows, s), s.commit + 1)
  {
    var run :| LeftBy(rows, run, next);
    assert (run + [s])[..|run|] == run;
    assert LeftBy(Commit(rows, s), run + [s], s.commit + 1);
  }

  lemma ProducedLater<K(!new), V(!new)>(rows: seq<Row<K, V>>, next: nat, later: nat)
    requires Produced(rows, next) && next <= later
    ensures Produced(rows, later)
  {
    var run :| LeftBy(rows, run, next);
    assert LeftBy(rows, run, later);
  }

  function UpsertRouterStep(t: Tables, name: string, want: Router, outcome: Outcome): Tables {
    if outcome.Aborted? then t
    else t.(routers := Commit(t.routers, At(t.CommitTime(outcome), RouterTx(name, want))), next := t.CommitTime(outcome) + 1)
  }

  function UpsertInterfaceStep(t: Tables, routerId: string, i: InterfaceSync): Tables {
    if i.outcome.Aborted? then t
    else t.(interfaces := Commit(t.interfaces, At(t.CommitTime(i.outcome), InterfaceTx(routerId, i.name, i.want))),
            next := t.CommitTime(i.outcome) + 1)
  }

  /** One transaction per declared interface, in order; an aborted one is skipped. */
  function UpsertInterfaces(t: Tables, routerId: string, interfaces: seq<InterfaceSync>): Tables {
    if interfaces == [] then t
    else
      var n := |interfaces| - 1;
      UpsertInterfaceStep(UpsertInterfaces(t, routerId, interfaces[..n]), routerId, interfaces[n])
  }

  function SpeedStep(t: Tables, id: string, bandwidth: string, outcome: Outcome): Tables {
    var parts := Split(id);
    if bandwidth == "" || bandwidth == "unknown" || |parts| != 2 || outcome.Aborted? then t
    else t.(interfaces := Commit(t.interfaces, At(t.CommitTime(outcome), SpeedTx(id, parts[0], parts[1], bandwidth))),
            next := t.CommitTime(outcome) + 1)
  }

  function DeleteStep(t: Tables, id: string, outcome: Outcome): Tables {
    if outcome.Aborted? then t
    else Tables(Commit(t.routers, At(t.CommitTime(outcome), CloseRouter(id))),
                Commit(t.interfaces, At(t.CommitTime(outcome), CloseInterfacesOf(id))), t.CommitTime(outcome) + 1)
  }

  function Handle(t: Tables, e: Event): Tables {
    match e
    case SyncRouter(name, want, outcome, interfaces) =>
      if outcome.Aborted? then t
      else UpsertInterfaces(UpsertRouterStep(t, name, want, outcome), RouterId(name), interfaces)
    case SyncSpeed(id, bandwidth, outcome) => SpeedStep(t, id, bandwidth, outcome)
    case DeleteRouter(id, outcome) => DeleteStep(t, id, outcome)
  }

  function RunOf(events: seq<Event>): Tables {
    if events == [] then Tables([], [], 0) else Handle(RunOf(events[..|events| - 1]), events[|events| - 1])
  }

  lemma RouterUpsertKeepsInv(t: Tables, name: string, want: Router, outcome: Outcome)
    requires t.Inv() && outcome.Committed?
    ensures UpsertRouterStep(t, name, want, outcome).Inv()
    ensures Active(UpsertRouterStep(t, name, want, outcome).routers, RouterId(name)) != []
  {
    var s := At(t.CommitTime(outcome), RouterTx(name, want));
    ProducedTimed(t.routers, t.next);
    ProducedCommit(t.routers, t.next, s);
    ProducedLater(t.interfaces, t.next, s.commit + 1);
    RouterWriteKeepsClosed(t.routers, t.interfaces, t.next - 1, s);
    RouterWriteActivates(t.routers, t.next - 1, s, name, want);
  }

  lemma RouterWriteActivates(routers: seq<Row<string, Router>>, now: int, s: Stamped<string, Router>, name: string, want: Router)
    requires Timed(routers, now) && now < s.commit && s.tx == RouterTx(name, want)
    ensures Active(Commit(routers, s), RouterId(name)) != []
  {
    CommitKeepsTimed(routers, now, s);
    WriteKeepsVisible(routers, now, s, RouterId(name), s.commit);
    ActiveIsLatest(Commit(routers, s), s.commit, RouterId(name), s.commit);
    ActiveIsLatest(routers, now, RouterId(name), s.commit);
  }

  lemma InterfaceUpsertKeepsInv(t: Tables, name: string, i: InterfaceSync)
    requires t.Inv() && ColonFree(name) && Active(t.routers, RouterId(name)) != []
    ensures UpsertInterfaceStep(t, RouterId(name), i).Inv()
  {
    if i.outcome.Committed? {
      InterfaceTxKeepsInv(t.routers, t.interfaces, t.next, t.CommitTime(i.outcome), name, i);
    }
  }

  lemma InterfaceTxKeepsInv(routers: seq<Row<string, Router>>, interfaces: seq<Row<string, Interface>>, next: nat,
                            commit: nat, name: string, i: InterfaceSync)
    requires Tables(routers, interfaces, next).Inv() && next <= commit
    requires ColonFree(name) && Active(routers, RouterId(name)) != []
    ensures Tables(routers, Commit(interfaces, At(commit, InterfaceTx(RouterId(name), i.name, i.want))), commit + 1).Inv()
  {
    var s := At(commit, InterfaceTx(RouterId(name), i.name, i.want));
    ProducedTimed(routers, next);
    ProducedCommit(interfaces, next, s);
    ProducedLater(routers, next, commit + 1);
    InterfaceWriteKeeps(routers, interfaces, next - 1, s, name, i);
  }

  lemma InterfaceWriteKeeps(routers: seq<Row<string, Router>>, interfaces: seq<Row<string, Interface>>, now: int,
                            s: Stamped<string, Interface>, name: string, i: InterfaceSync)
    requires AllOwned(interfaces) && Closed(routers, interfaces) && Timed(routers, now) && now < s.commit
    requires ColonFree(name) && Active(routers, RouterId(name)) != []
    requires s.tx == InterfaceTx(RouterId(name), i.name, i.want)
    ensures AllOwned(Commit(interfaces, s)) && Closed(routers, Commit(interfaces, s))
  {
    assert OwnedBy(Row(s.tx.id, StoredInterface(RouterId(name), i.name, i.want), s.commit, None), name, i.name);
    forall ts: nat | s.commit <= ts ensures Visible(routers, RouterId(name), ts) {
      ActiveIsLatest(routers, now, RouterId(name), ts);
    }
    InterfaceWriteKeepsClosed(routers, interfaces, s);
    WriteKeepsOwned(interfaces, s);
  }

  lemma SpeedSyncKeepsInv(t: Tables, id: string, bandwidth: string, outcome: Outcome)
    requires t.Inv()
    ensures SpeedStep(t, id, bandwidth, outcome).Inv()
  {
    if SpeedStep(t, id, bandwidth, outcome) != t {
      var s := At(t.CommitTime(outcome), SpeedTx(id, Split(id)[0], Split(id)[1], bandwidth));
      ProducedTimed(t.interfaces, t.next);
      ProducedCommit(t.interfaces, t.next, s);
      ProducedLater(t.routers, t.next, s.commit + 1);
      SpeedWriteKeeps(t.routers, t.interfaces, t.next - 1, s, id, bandwidth);
    }
  }

  lemma SpeedWriteKeeps(routers: seq<Row<string, Router>>, interfaces: seq<Row<string, Interface>>, now: int,
                        s: Stamped<string, Interface>, id: string, bandwidth: string)
    requires AllOwned(interfaces) && Closed(routers, interfaces) && Timed(interfaces, now) && now < s.commit
    requires |Split(id)| == 2 && s.tx == SpeedTx(id, Split(id)[0], Split(id)[1], bandwidth)
    ensures AllOwned(Commit(interfaces, s)) && Closed(routers, Commit(interfaces, s))
  {
    var o := s.tx.decide(First(Active(interfaces, id)));
    if o.Some? {
      SplitKeepsOwner(routers, interfaces, now, id, o.value, s.commit);
    }
    InterfaceWriteKeepsClosed(routers, interfaces, s);
    WriteKeepsOwned(interfaces, s);
  }

  lemma DeleteKeepsInv(t: Tables, routerId: string, outcome: Outcome)
    requires t.Inv()
    ensures DeleteStep(t, routerId, outcome).Inv()
  {
    if outcome.Committed? {
      var commit := t.CommitTime(outcome);
      ProducedTimed(t.routers, t.next);
      ProducedTimed(t.interfaces, t.next);
      ProducedCommit(t.routers, t.next, At(commit, CloseRouter(routerId)));
      ProducedCommit(t.interfaces, t.next, At(commit, CloseInterfacesOf(routerId)));
      DeleteKeepsClosed(t.routers, t.interfaces, t.next - 1, routerId, commit);
      CloseKeepsOwned(t.interfaces, At(commit, CloseInterfacesOf(routerId)));
    }
  }

  lemma CloseKeepsOwned(rows: seq<Row<string, Interface>>, s: Stamped<string, Interface>)
    requires s.tx.Close? && AllOwned(rows)
    ensures AllOwned(Commit(rows, s))
  {
    forall i | 0 <= i < |rows| ensures Owned(Commit(rows, s)[i]) {
      CommitAt(rows, s, i);
      OwnedDespiteClosing(rows[i], Commit(rows, s)[i]);
    }
  }

  lemma OwnedDespiteClosing(before: Row<string, Interface>, after: Row<string, Interface>)
    requires Owned(before) && after.id == before.id && after.value == before.value
    ensures Owned(after)
  {
    var name: string, iface: string :| OwnedBy(before, name, iface);
    assert OwnedBy(after, name, iface);
  }

  lemma WriteKeepsOwned(rows: seq<Row<string, Interface>>, s: Stamped<string, Interface>)
    requires s.tx.Write? && AllOwned(rows)
    requires var o := s.tx.decide(First(Active(rows, s.tx.id)));
             o.Some? ==> Owned(Row(s.tx.id, o.value, s.commit, None))
    ensures AllOwned(Commit(rows, s))
  {
    var after := Commit(rows, s);
    forall i | 0 <= i < |after| ensures Owned(after[i]) {
      if i < |rows| {
        CommitAt(rows, s, i);
        OwnedDespiteClosing(rows[i], after[i]);
      }
    }
  }

  /** The speed sync re-inserts an owned interface under the router it already had, so that
      router is visible from the commit on. */
  lemma SplitKeepsOwner(routers: seq<Row<string, Router>>, rows: seq<Row<string, Interface>>, now: int, id: string,
                        v: Interface, commit: nat)
    requires AllOwned(rows) && Closed(routers, rows) && Timed(rows, now) && now < commit
    requires First(Active(rows, id)).Some? && |Split(id)| == 2
    requires v.routerId == Split(id)[0]
    ensures Owned(Row(id, v, commit, None))
    ensures !Exempt(id) ==> v.routerId == First(Active(rows, id)).value.routerId
    ensures !Exempt(id) ==> forall ts: nat :: commit <= ts ==> Visible(routers, v.routerId, ts)
  {
    var i := ActiveHasRow(rows, id, Active(rows, id)[0]);
    assert Owned(rows[i]) && RowTimed(rows[i], now);
    var name: string, iface: string :| OwnedBy(rows[i], name, iface);
    if name != "interface" {
      SplitParts(name, iface);
      forall ts: nat | commit <= ts && !Exempt(id) ensures Visible(routers, v.routerId, ts) {
        assert rows[i].Covers(ts);
      }
    }
    assert OwnedBy(Row(id, v, commit, None), name, iface);
  }

  lemma {:induction false} InterfaceLoopKeepsInv(t: Tables, name: string, interfaces: seq<InterfaceSync>)
    requires t.Inv() && ColonFree(name) && Active(t.routers, RouterId(name)) != []
    ensures UpsertInterfaces(t, RouterId(name), interfaces).Inv()
    ensures UpsertInterfaces(t, RouterId(name), interfaces).routers == t.routers
  {
    if interfaces != [] {
      var n := |interfaces| - 1;
      InterfaceLoopKeepsInv(t, name, interfaces[..n]);
      InterfaceUpsertKeepsInv(UpsertInterfaces(t, RouterId(name), interfaces[..n]), name, interfaces[n]);
    }
  }

  lemma HandleKeepsInv(t: Tables, e: Event)
    requires t.Inv()
    ensures Handle(t, e).Inv()
  {
    match e
    case SyncRouter(name, want, outcome, interfaces) =>
      if outcome.Committed? {
        RouterUpsertKeepsInv(t, name, want, outcome);
        InterfaceLoopKeepsInv(UpsertRouterStep(t, name, want, outcome), name, interfaces);
      }
    case SyncSpeed(id, bandwidth, outcome) => SpeedSyncKeepsInv(t, id, bandwidth, outcome);
    case DeleteRouter(id, outcome) => DeleteKeepsInv(t, id, outcome);
  }

  /** After every run of router syncs, speed syncs and router deletions, with any transactions
      failing: rows are stamped in commit order, and at every instant a visible interface has
      its router visible, but for interfaces whose id the speed sync misreads. */
  lemma {:induction false} EveryRunClosed(events: seq<Event>)
    ensures RunOf(events).Inv()
  {
    if events == [] {
      assert LeftBy<string, Router>([], [], 0) && LeftBy<string, Interface>([], [], 0);
    } else {
      EveryRunClosed(events[..|events| - 1]);
      HandleKeepsInv(RunOf(events[..|events| - 1]), events[|events| - 1]);
    }
  }

  /** Closure as the snapshot reader meets it: the router of any interface row that covers ts
      is returned by the router query at ts. */
  lemma VisibleInterfaceHasRouter(events: seq<Event>, i: nat, ts: nat)
    requires i < |RunOf(events).interfaces|
    requires RunOf(events).interfaces[i].Covers(ts)
    requires !Exempt(RunOf(events).interfaces[i].id)
    ensures AsOf(RunOf(events).routers, RunOf(events).interfaces[i].value.routerId, ts) != []
  {
    EveryRunClosed(events);
  }

  // ---------------------------------------------------------------- the handlers

  class Topology {
    var routers: seq<Row<string, Router>>
    var interfaces: seq<Row<string, Interface>>
    var next: nat

    ghost function State(): Tables
      reads this
    {
      Tables(routers, interfaces, next)
    }

    ghost predicate Valid()
      reads this
    {
      State().Inv()
    }

    constructor ()
      ensures Valid() && State() == RunOf([])
    {
      EveryRunClosed([]);
      routers, interfaces, next := [], [], 0;
    }

    /** The router sync handler: the router first, and its interfaces only if that committed.
        Every state between two transactions is valid as well. */
    method SyncPhysicalRouter(name: ObjectName, want: Router, specs: seq<InterfaceSpec>, bandwidths: map<string, string>,
                              reports: seq<(string, string)>, outcome: Outcome, outcomes: seq<Outcome>)
      requires Valid() && |outcomes| == |specs|
      modifies this
      ensures Valid()
      ensures State() == Handle(old(State()),
                                SyncRouter(name, want, outcome, Syncs(specs, bandwidths, reports, want.status, outcomes)))
    {
      if outcome.Aborted? {
        return;
      }
      UpsertRouter(name, want, outcome);
      ghost var first := State();
      ghost var syncs := Syncs(specs, bandwidths, reports, want.status, outcomes);
      for i := 0 to |specs|
        invariant Valid() && Active(routers, RouterId(name)) != []
        invariant State() == UpsertInterfaces(first, RouterId(name), syncs[..i])
      {
        NextSync(first, RouterId(name), syncs, i);
        var columns := Wanted(specs[i], Get(bandwidths, specs[i].name), reports, want.status);
        UpsertInterface(name, InterfaceSync(specs[i].name, columns, outcomes[i]));
      }
      assert syncs[..|specs|] == syncs;
    }

    /** The router transaction. */
    method UpsertRouter(name: ObjectName, want: Router, outcome: Outcome)
      requires Valid() && outcome.Committed?
      modifies this
      ensures Valid() && State() == UpsertRouterStep(old(State()), name, want, outcome)
      ensures Active(routers, RouterId(name)) != []
    {
      RouterUpsertKeepsInv(State(), name, want, outcome);
      ProducedReadLegal(routers, next, RouterId(name));
      var stored := want.(status := Lower(want.status));
      routers := UpsertRows(routers, RouterId(name), RouterCols(stored), stored, RouterCols, next + outcome.delay);
      next := next + outcome.delay + 1;
    }

    /** One interface transaction of a router sync. */
    method UpsertInterface(name: ObjectName, i: InterfaceSync)
      requires Valid() && Active(routers, RouterId(name)) != []
      modifies this
      ensures Valid() && State() == UpsertInterfaceStep(old(State()), RouterId(name), i)
    {
      InterfaceUpsertKeepsInv(State(), name, i);
      if i.outcome.Committed? {
        var id := InterfaceId(RouterId(name), i.name);
        ProducedReadLegal(interfaces, next, id);
        interfaces := UpsertRows(interfaces, id, i.want, StoredInterface(RouterId(name), i.name, i.want),
                                 InterfaceCols, next + i.outcome.delay);
        next := next + i.outcome.delay + 1;
      }
    }

    /** Propagates a link's bandwidth to an interface that is already known. */
    method SyncSpeedFromBandwidth(interfaceId: string, bandwidth: string, outcome: Outcome)
      requires Valid()
      modifies this
      ensures Valid() && State() == Handle(old(State()), SyncSpeed(interfaceId, bandwidth, outcome))
    {
      SpeedSyncKeepsInv(State(), interfaceId, bandwidth, outcome);
      if bandwidth == "" || bandwidth == "unknown" {
        return;
      }
      var parts := Split(interfaceId);
      if |parts| != 2 || outcome.Aborted? {
        return;
      }
      ProducedReadLegal(interfaces, next, interfaceId);
      interfaces := ReviseSpeed(interfaces, interfaceId, parts[0], parts[1], bandwidth, next + outcome.delay);
      next := next + outcome.delay + 1;
    }

    /** Router deletion: one transaction closes the router and every interface under its id. */
    method DeletePhysicalRouter(routerId: string, outcome: Outcome)
      requires Valid()
      modifies this
      ensures Valid() && State() == Handle(old(State()), DeleteRouter(routerId, outcome))
    {
      DeleteKeepsInv(State(), routerId, outcome);
      if outcome.Committed? {
        routers, interfaces := CloseRouterRows(routers, interfaces, routerId, next + outcome.delay);
        next := next + outcome.delay + 1;
      }
    }
  }

  /** The two UPDATE statements of a router deletion. */
  method CloseRouterRows(routers: seq<Row<string, Router>>, interfaces: seq<Row<string, Interface>>, routerId: string, commit: nat)
    returns (routers': seq<Row<string, Router>>, interfaces': seq<Row<string, Interface>>)
    ensures routers' == Commit(routers, At(commit, CloseRouter(routerId)))
    ensures interfaces' == Commit(interfaces, At(commit, CloseInterfacesOf(routerId)))
  {
    routers' := CloseWhere(routers, CloseRouter(routerId).sel, commit);
    interfaces' := CloseWhere(interfaces, CloseInterfacesOf(routerId).sel, commit);
  }

  /** The speed transaction: absent or up to date means nothing to do. */
  method ReviseSpeed(rows: seq<Row<string, Interface>>, id: string, routerId: string, name: string, bandwidth: string, commit: nat)
    returns (out: seq<Row<string, Interface>>)
    requires |Active(rows, id)| <= 1
    ensures out == Commit(rows, At(commit, SpeedTx(id, routerId, name, bandwidth)))
  {
    out := rows;
    var row := ReadActive(rows, id);
    assert First(Active(rows, id)) == row;
    if row.Some? && row.value.speed != bandwidth {
      out := ReplaceRow(rows, id, row.value.(routerId := routerId, name := name, speed := bandwidth),
                        SpeedTx(id, routerId, name, bandwidth).decide, commit);
    }
  }

  lemma NextSync(t: Tables, routerId: string, syncs: seq<InterfaceSync>, i: nat)
    requires i < |syncs|
    ensures UpsertInterfaces(t, routerId, syncs[..i + 1]) == UpsertInterfaceStep(UpsertInterfaces(t, routerId, syncs[..i]), routerId, syncs[i])
  {
    assert syncs[..i + 1][..i] == syncs[..i];
  }

  function Syncs(specs: seq<InterfaceSpec>, bandwidths: map<string, string>, reports: seq<(string, string)>,
                 routerStatus: string, outcomes: seq<Outcome>): (syncs: seq<InterfaceSync>)
    requires |outcomes| == |specs|
    ensures |syncs| == |specs|
    ensures forall i {:trigger syncs[i]} :: 0 <= i < |specs| ==>
              (syncs[i] == InterfaceSync(specs[i].name, Wanted(specs[i], Get(bandwidths, specs[i].name), reports, routerStatus), outcomes[i]))
  {
    seq(|specs|, i requires 0 <= i < |specs| =>
      InterfaceSync(specs[i].name, Wanted(specs[i], Get(bandwidths, specs[i].name), reports, routerStatus), outcomes[i]))
  }

  lemma RowsOfAppended<K, V>(run: seq<Stamped<K, V>>, s: Stamped<K, V>)
    requires Increasing(run) && Now(run) < s.commit
    ensures Increasing(run + [s]) && Now(run + [s]) == s.commit
    ensures Rows(run + [s]) == Commit(Rows(run), s)
  {
    assert (run + [s])[..|run|] == run;
  }

  lemma FirstInsert<K, V>(id: K, decide: Option<V> -> Option<V>, v: V, commit: nat)
    requires decide(None) == Some(v)
    ensures Rows([At(commit, Write(id, decide))]) == [Row(id, v, commit, None)]
    ensures Active([Row(id, v, commit, None)], id) == [v]
  {
    RowsOfAppended([], At(commit, Write(id, decide)));
    assert [] + [At(commit, Write(id, decide))] == [At(commit, Write(id, decide))];
    AsOfAppend([], Row(id, v, commit, None), id, commit);
    assert [] + [Row(id, v, commit, None)] == [Row(id, v, commit, None)];
    ActiveIsLatest([Row(id, v, commit, None)], commit, id, commit);
  }

  lemma ThenReplace<K, V>(row: Row<K, V>, decide: Option<V> -> Option<V>, v: V, commit: nat)
    requires row.Open() && Active([row], row.id) == [row.value] && decide(Some(row.value)) == Some(v)
    ensures Commit([row], At(commit, Write(row.id, decide))) == [row.(end := Some(commit)), Row(row.id, v, commit, None)]
  {
    assert First(Active([row], row.id)) == Some(row.value);
  }

  /** An interface of router `name`, visible at ts, whose router is not. */
  ghost predicate Stray(t: Tables, name: string, i: nat, ts: nat) {
    && i < |t.interfaces|
    && (exists iface: string :: t.interfaces[i].id == InterfaceId(RouterId(name), iface))
    && t.interfaces[i].Covers(ts)
    && !Visible(t.routers, t.interfaces[i].value.routerId, ts)
  }

  /** Over every run the interfaces of a router have their router visible, if and only if the
      router is not called "interface". */
  lemma ClosedForIff(name: ObjectName)
    ensures (forall events: seq<Event>, i: nat, ts: nat :: !Stray(RunOf(events), name, i, ts)) <==> name != "interface"
  {
    if name == "interface" {
      var events := StrayRun(Router("", "", ""), InterfaceColumns("", "", "", "", ""), "1gbit");
      RouterNamedInterfaceBreaksClosure(Router("", "", ""), InterfaceColumns("", "", "", "", ""), "1gbit");
      IsStray(events, name, 1, 2);
    } else {
      forall events: seq<Event>, i: nat, ts: nat ensures !Stray(RunOf(events), name, i, ts) {
        if Stray(RunOf(events), name, i, ts) {
          var iface: string :| RunOf(events).interfaces[i].id == InterfaceId(RouterId(name), iface);
          NotExempt(name, iface);
          VisibleInterfaceHasRouter(events, i, ts);
        }
      }
    }
  }

  lemma IsStray(events: seq<Event>, name: string, i: nat, ts: nat)
    requires Stray(RunOf(events), name, i, ts)
    ensures exists run: seq<Event>, k: nat, t: nat :: Stray(RunOf(run), name, k, t)
  {
  }

  lemma NotExempt(name: ObjectName, iface: string)
    requires name != "interface"
    ensures !Exempt(InterfaceId(RouterId(name), iface))
  {
    if other: string :| InterfaceId(RouterId(name), iface) == InterfaceId(RouterId("interface"), other) {
      OwnerIsUnique(name, "interface", iface, other);
    }
  }

  /** A run that goes wrong: a router called "interface" is synced with port eth0, and then the
      bandwidth of the port's link. */
  function StrayRun(want: Router, columns: InterfaceColumns, bandwidth: string): seq<Event> {
    [SyncRouter("interface", want, Committed(0), [InterfaceSync("eth0", columns, Committed(0))]),
     SyncSpeed(InterfaceId(RouterId("interface"), "eth0"), bandwidth, Committed(0))]
  }

  /** After that run the port is visible under a router id that does not exist, for every bandwidth
      that the speed sync does not skip. */
  lemma RouterNamedInterfaceBreaksClosure(want: Router, columns: InterfaceColumns, bandwidth: string)
    requires bandwidth !in {"", "unknown", columns.speed}
    ensures Stray(RunOf(StrayRun(want, columns, bandwidth)), "interface", 1, 2)
  {
    SplitOfRouterInterface();
    MisreadStrays("interface", "eth0", InterfaceId(RouterId("interface"), "eth0"), want, columns, bandwidth);
  }

  lemma MisreadStrays(name: ObjectName, iface: string, id: string, want: Router, columns: InterfaceColumns, bandwidth: string)
    requires bandwidth !in {"", "unknown", columns.speed} && id == InterfaceId(RouterId(name), iface)
    requires |Split(id)| == 2 && Split(id)[0] != RouterId(name)
    ensures Stray(RunOf([SyncRouter(name, want, Committed(0), [InterfaceSync(iface, columns, Committed(0))]),
                         SyncSpeed(id, bandwidth, Committed(0))]), name, 1, 2)
  {
    var parts := Split(id);
    SyncThenSpeed(name, iface, id, want, columns, bandwidth);
    SpeedAfterSync(id, RouterId(name), iface, columns, parts[0], parts[1], bandwidth);
    NotVisible(name, want, parts[0]);
  }

  lemma RunOfTwo(a: Event, b: Event)
    ensures RunOf([a, b]) == Handle(Handle(Tables([], [], 0), a), b)
  {
    assert [a, b][..1] == [a] && [a][..0] == [];
    assert RunOf([]) == Tables([], [], 0);
    assert RunOf([a]) == Handle(RunOf([]), a);
  }

  lemma SyncOfOne(t: Tables, name: ObjectName, want: Router, sync: InterfaceSync)
    ensures Handle(t, SyncRouter(name, want, Committed(0), [sync])) ==
            UpsertInterfaceStep(UpsertRouterStep(t, name, want, Committed(0)), RouterId(name), sync)
  {
    var upserted := UpsertRouterStep(t, name, want, Committed(0));
    assert [sync][..0] == [];
    assert UpsertInterfaces(upserted, RouterId(name), []) == upserted;
    assert UpsertInterfaces(upserted, RouterId(name), [sync]) == UpsertInterfaceStep(upserted, RouterId(name), sync);
  }

  /** The first sync of a router with one interface. */
  lemma FirstSync(name: ObjectName, iface: string, want: Router, columns: InterfaceColumns)
    ensures Handle(Tables([], [], 0), SyncRouter(name, want, Committed(0), [InterfaceSync(iface, columns, Committed(0))])) ==
            Tables(Rows([At(0, RouterTx(name, want))]), Commit([], At(1, InterfaceTx(RouterId(name), iface, columns))), 2)
  {
    SyncOfOne(Tables([], [], 0), name, want, InterfaceSync(iface, columns, Committed(0)));
    RowsOfOne(At(0, RouterTx(name, want)));
  }

  lemma SyncThenSpeed(name: ObjectName, iface: string, id: string, want: Router, columns: InterfaceColumns, bandwidth: string)
    requires bandwidth !in {"", "unknown"} && id == InterfaceId(RouterId(name), iface) && |Split(id)| == 2
    ensures RunOf([SyncRouter(name, want, Committed(0), [InterfaceSync(iface, columns, Committed(0))]),
                   SyncSpeed(id, bandwidth, Committed(0))]) ==
            Tables(Rows([At(0, RouterTx(name, want))]),
                   Rows([At(1, InterfaceTx(RouterId(name), iface, columns)), At(2, SpeedTx(id, Split(id)[0], Split(id)[1], bandwidth))]), 3)
  {
    RunOfTwo(SyncRouter(name, want, Committed(0), [InterfaceSync(iface, columns, Committed(0))]), SyncSpeed(id, bandwidth, Committed(0)));
    FirstSync(name, iface, want, columns);
    RowsOfTwo(At(1, InterfaceTx(RouterId(name), iface, columns)), At(2, SpeedTx(id, Split(id)[0], Split(id)[1], bandwidth)));
  }

  lemma RowsOfOne<K, V>(s: Stamped<K, V>)
    ensures Rows([s]) == Commit([], s)
  {
    assert [s][..0] == [];
  }

  lemma RowsOfTwo<K, V>(s: Stamped<K, V>, t: Stamped<K, V>)
    ensures Rows([s, t]) == Commit(Commit([], s), t)
  {
    assert [s, t][..1] == [s];
    RowsOfOne(s);
  }

  lemma SpeedAfterSync(id: string, routerId: string, name: string, columns: InterfaceColumns,
                       routerId': string, name': string, bandwidth: string)
    requires id == InterfaceId(routerId, name) && bandwidth != columns.speed
    ensures var stored := StoredInterface(routerId, name, columns);
            Rows([At(1, InterfaceTx(routerId, name, columns)), At(2, SpeedTx(id, routerId', name', bandwidth))])
            == [Row(id, stored, 1, Some(2)), Row(id, stored.(routerId := routerId', name := name', speed := bandwidth), 2, None)]
  {
    var stored := StoredInterface(routerId, name, columns);
    var first, second := At(1, InterfaceTx(routerId, name, columns)), At(2, SpeedTx(id, routerId', name', bandwidth));
    FirstInsert(id, first.tx.decide, stored, 1);
    RowsOfAppended([first], second);
    assert [first] + [second] == [first, second];
    ThenReplace(Row(id, stored, 1, None), second.tx.decide,
                stored.(routerId := routerId', name := name', speed := bandwidth), 2);
  }

  lemma NotVisible(name: string, want: Router, id: string)
    requires id != RouterId(name)
    ensures !Visible(Rows([At(0, RouterTx(name, want))]), id, 2)
  {
    var row := Row(RouterId(name), want.(status := Lower(want.status)), 0, None);
    FirstInsert(RouterId(name), RouterTx(name, want).decide, row.value, 0);
    AsOfAppend([], row, id, 2);
    assert [] + [row] == [row];
  }
}
