/** Any run of creations, retries and deletions of VPNs that share a router, with any patch
    failing: the router is always the base plus what the applied VPNs ask for. */
module VpnRuns {
  import opened Common
  import opened Json
  import opened VpnConfig
  import opened VpnHandlers

  /** One handler holding the lock: a creation of which the first `patches` patches succeed
      (none at all when 0), or a deletion whose single patch may fail. */
  datatype Event = Create(vpn: nat, patches: nat) | Delete(vpn: nat, accepted: bool)

  function Step(router: Json, specs: seq<VpnRouter>, e: Event): Json
    requires e.vpn < |specs|
  {
    match e
    case Create(v, patches) => CreateOn(router, specs[v], patches)
    case Delete(v, accepted) => if accepted then DeleteOn(router, specs[v]) else router
  }

  predicate Known(specs: seq<VpnRouter>, events: seq<Event>) {
    forall i | 0 <= i < |events| :: events[i].vpn < |specs|
  }

  function RunOn(router: Json, specs: seq<VpnRouter>, events: seq<Event>): Json
    requires Known(specs, events)
  {
    if events == [] then router else Step(RunOn(router, specs, events[..|events| - 1]), specs, events[|events| - 1])
  }

  // ---------------------------------------------------------------- the abstract state

  /** The applied VPNs, in the order of their latest creation, and the VRF of each assigned interface. */
  datatype Plan = Plan(applied: seq<nat>, vrfOf: map<string, string>)

  function Others(applied: seq<nat>, v: nat): (others: seq<nat>)
    ensures v !in others && forall u :: u in others <==> u in applied && u != v
  {
    if applied == [] then []
    else (if applied[0] == v then [] else [applied[0]]) + Others(applied[1..], v)
  }

  function AssignMap(vrfs: seq<VpnVrf>): map<string, string> {
    if vrfs == [] then map[]
    else (map n | n in vrfs[0].interfaces :: vrfs[0].entry.name) + AssignMap(vrfs[1..])
  }

  function Advance(plan: Plan, specs: seq<VpnRouter>, e: Event): Plan
    requires e.vpn < |specs|
  {
    match e
    case Create(v, patches) =>
      if patches == 0 then plan
      else
        Plan(Others(plan.applied, v) + [v], plan.vrfOf + AssignMap(Processed(specs[v], patches)))
    case Delete(v, accepted) =>
      if !accepted then plan
      else Plan(Others(plan.applied, v), plan.vrfOf - specs[v].Listed())
  }

  function PlanOf(specs: seq<VpnRouter>, events: seq<Event>): Plan
    requires Known(specs, events)
  {
    if events == [] then Plan([], map[])
    else Advance(PlanOf(specs, events[..|events| - 1]), specs, events[|events| - 1])
  }

  /** Concatenation of the applied VPNs' lists. */
  function All(lists: seq<seq<Json>>, applied: seq<nat>): seq<Json>
    decreases |applied|
  {
    if applied == [] then [] else ListAt(lists, applied[0]) + All(lists, applied[1..])
  }

  function ListAt(lists: seq<seq<Json>>, v: nat): seq<Json> {
    if v < |lists| then lists[v] else []
  }

  function VrfLists(specs: seq<VpnRouter>): (lists: seq<seq<Json>>)
    ensures |lists| == |specs|
  {
    seq(|specs|, v requires 0 <= v < |specs| => specs[v].VrfEntries())
  }

  function BgpLists(specs: seq<VpnRouter>): (lists: seq<seq<Json>>)
    ensures |lists| == |specs|
  {
    seq(|specs|, v requires 0 <= v < |specs| => specs[v].BgpEntries())
  }

  function Placed(ifaces: seq<Json>, vrfOf: map<string, string>): (out: seq<Json>)
    ensures |out| == |ifaces|
  {
    seq(|ifaces|, i requires 0 <= i < |ifaces| =>
      if First(ifaces, i) && NameOf(ifaces[i]).value in vrfOf then SetVrf(ifaces[i], vrfOf[NameOf(ifaces[i]).value])
      else ifaces[i])
  }

  function Expected(base: Router, specs: seq<VpnRouter>, plan: Plan): Router
  {
    Router(base.vrfs + All(VrfLists(specs), plan.applied), base.bgp + All(BgpLists(specs), plan.applied),
           Placed(base.interfaces, plan.vrfOf))
  }

  /** The VPNs' VRF names are fresh on the router and pairwise disjoint, their BGP entries belong
      to their own VRFs, and the interfaces they list had no VRF. */
  ghost predicate Compatible(base: Router, specs: seq<VpnRouter>) {
    && (forall v | 0 <= v < |specs| ::
          FreshOn(specs[v], base) && specs[v].BgpNames() <= specs[v].VrfNames() && NoVrfOnListed(specs[v], base))
    && (forall u, v | 0 <= u < |specs| && 0 <= v < |specs| && u != v :: specs[u].VrfNames() !! specs[v].VrfNames())
  }

  // ---------------------------------------------------------------- filtering what was applied

  lemma {:induction false} AllAppend(lists: seq<seq<Json>>, applied: seq<nat>, v: nat)
    ensures All(lists, applied + [v]) == All(lists, applied) + ListAt(lists, v)
    decreases |applied|
  {
    if applied == [] {
      assert [] + [v] == [v];
      assert All(lists, [v]) == ListAt(lists, v) + All(lists, [v][1..]);
    } else {
      assert (applied + [v])[1..] == applied[1..] + [v];
      AllAppend(lists, applied[1..], v);
    }
  }

  ghost predicate AllNamed(entries: seq<Json>, names: set<string>) {
    forall i :: 0 <= i < |entries| ==> NameIn(entries[i], names)
  }

  ghost predicate NoneNamed(entries: seq<Json>, names: set<string>) {
    forall i :: 0 <= i < |entries| ==> !NameIn(entries[i], names)
  }

  /** Every entry of v, and no entry of any other VPN, carries one of the names. */
  ghost predicate Owns(lists: seq<seq<Json>>, v: nat, names: set<string>) {
    AllNamed(ListAt(lists, v), names) && forall u: nat :: u != v ==> NoneNamed(ListAt(lists, u), names)
  }

  /** Filtering by the names v owns removes v and nothing else. */
  lemma {:induction false} WithoutOwn(lists: seq<seq<Json>>, applied: seq<nat>, v: nat, names: set<string>)
    requires Owns(lists, v, names)
    ensures Without(All(lists, applied), names) == All(lists, Others(applied, v))
    decreases |applied|
  {
    if applied != [] {
      var u := applied[0];
      WithoutAppend(ListAt(lists, u), All(lists, applied[1..]), names);
      WithoutOwn(lists, applied[1..], v, names);
      if u == v {
        WithoutNone(ListAt(lists, v), names);
        assert Others(applied, v) == Others(applied[1..], v);
      } else {
        WithoutAllIff(ListAt(lists, u), names);
        assert Others(applied, v)[1..] == Others(applied[1..], v);
      }
    }
  }

  lemma OwnsEntries(base: Router, specs: seq<VpnRouter>, v: nat)
    requires Compatible(base, specs) && v < |specs|
    ensures Owns(VrfLists(specs), v, specs[v].VrfNames())
    ensures Owns(BgpLists(specs), v, specs[v].BgpNames()) && Owns(BgpLists(specs), v, specs[v].VrfNames())
  {
    OwnEntries(specs[v], specs[v].VrfNames());
    OwnEntries(specs[v], specs[v].BgpNames());
    forall u: nat | u != v ensures NoneNamed(ListAt(VrfLists(specs), u), specs[v].VrfNames()) {
      if u < |specs| {
        NotOwned(specs, u, specs[v].VrfNames());
      }
    }
    forall u: nat | u != v
      ensures NoneNamed(ListAt(BgpLists(specs), u), specs[v].VrfNames())
      ensures NoneNamed(ListAt(BgpLists(specs), u), specs[v].BgpNames())
    {
      if u < |specs| {
        NotOwned(specs, u, specs[v].VrfNames());
        NotOwned(specs, u, specs[v].BgpNames());
      }
    }
  }

  lemma NotOwned(specs: seq<VpnRouter>, u: nat, names: set<string>)
    requires u < |specs| && specs[u].BgpNames() <= specs[u].VrfNames() && specs[u].VrfNames() !! names
    ensures NoneNamed(specs[u].VrfEntries(), names) && NoneNamed(specs[u].BgpEntries(), names)
  {
    forall i | 0 <= i < |specs[u].vrfs| ensures !NameIn(specs[u].VrfEntries()[i], names) {
      NameOfNamed(specs[u].vrfs[i].entry);
      assert specs[u].vrfs[i].entry.name in specs[u].VrfNames();
    }
    forall i | 0 <= i < |specs[u].bgp| ensures !NameIn(specs[u].BgpEntries()[i], names) {
      NameOfNamed(specs[u].bgp[i]);
      assert specs[u].bgp[i].name in specs[u].BgpNames();
    }
  }

  lemma FilterPlan(base: seq<Json>, lists: seq<seq<Json>>, applied: seq<nat>, v: nat, names: set<string>)
    requires Owns(lists, v, names) && NoneNamed(base, names)
    ensures Without(base + All(lists, applied), names) == base + All(lists, Others(applied, v))
    ensures Without(base + All(lists, applied), names) + ListAt(lists, v) == base + All(lists, Others(applied, v) + [v])
  {
    var all, rest := All(lists, applied), All(lists, Others(applied, v));
    WithoutAppend(base, all, names);
    WithoutAllIff(base, names);
    WithoutOwn(lists, applied, v, names);
    AllAppend(lists, Others(applied, v), v);
    Associates(base, rest, ListAt(lists, v));
  }

  lemma Associates(a: seq<Json>, b: seq<Json>, c: seq<Json>)
    ensures (a + b) + c == a + (b + c)
  {
  }

  // ---------------------------------------------------------------- interfaces follow the plan

  lemma {:induction false} AssignMapIsLast(vrfs: seq<VpnVrf>, name: string)
    ensures Get(AssignMap(vrfs), name) == LastVrf(vrfs, name)
  {
    if vrfs != [] {
      AssignMapIsLast(vrfs[1..], name);
    }
  }

  lemma PlacedNames(ifaces: seq<Json>, vrfOf: map<string, string>, i: nat)
    requires i < |ifaces|
    ensures NameOf(Placed(ifaces, vrfOf)[i]) == NameOf(ifaces[i])
    ensures First(Placed(ifaces, vrfOf), i) == First(ifaces, i)
  {
    forall k | 0 <= k < |ifaces| ensures NameOf(Placed(ifaces, vrfOf)[k]) == NameOf(ifaces[k]) {
      if First(ifaces, k) && NameOf(ifaces[k]).value in vrfOf {
        NameOfSetVrf(ifaces[k], vrfOf[NameOf(ifaces[k]).value]);
      }
    }
  }

  lemma AssignPlaced(ifaces: seq<Json>, vrfOf: map<string, string>, vrfs: seq<VpnVrf>)
    ensures AssignAll(Placed(ifaces, vrfOf), vrfs) == Placed(ifaces, vrfOf + AssignMap(vrfs))
  {
    forall i | 0 <= i < |ifaces|
      ensures AssignAll(Placed(ifaces, vrfOf), vrfs)[i] == Placed(ifaces, vrfOf + AssignMap(vrfs))[i]
    {
      AssignAllAt(Placed(ifaces, vrfOf), vrfs, i);
      PlacedNames(ifaces, vrfOf, i);
      SetVrfTwice(ifaces[i]);
      if First(ifaces, i) {
        AssignMapIsLast(vrfs, NameOf(ifaces[i]).value);
      }
    }
  }

  lemma UnassignPlaced(base: Router, vpn: VpnRouter, vrfOf: map<string, string>)
    requires NoVrfOnListed(vpn, base)
    ensures Unassigned(Placed(base.interfaces, vrfOf), vpn.Listed()) == Placed(base.interfaces, vrfOf - vpn.Listed())
  {
    var ifaces := base.interfaces;
    forall i | 0 <= i < |ifaces|
      ensures Unassigned(Placed(ifaces, vrfOf), vpn.Listed())[i] == Placed(ifaces, vrfOf - vpn.Listed())[i]
    {
      PlacedNames(ifaces, vrfOf, i);
      SetVrfTwice(ifaces[i]);
      if NameIn(ifaces[i], vpn.Listed()) {
        assert ifaces[i].Obj? && ifaces[i].fields - {Vrf} == ifaces[i].fields;
      }
    }
  }

  // ---------------------------------------------------------------- every run follows the plan

  lemma ExpectedStep(base: Router, specs: seq<VpnRouter>, plan: Plan, e: Event)
    requires Compatible(base, specs) && e.vpn < |specs|
    ensures e.Create? ==> Created(Expected(base, specs, plan), specs[e.vpn], e.patches) == Expected(base, specs, Advance(plan, specs, e))
    ensures e.Delete? && e.accepted ==> Deleted(Expected(base, specs, plan), specs[e.vpn]) == Expected(base, specs, Advance(plan, specs, e))
  {
    var v, vpn := e.vpn, specs[e.vpn];
    OwnsEntries(base, specs, v);
    FilterPlan(base.vrfs, VrfLists(specs), plan.applied, v, vpn.VrfNames());
    FilterPlan(base.bgp, BgpLists(specs), plan.applied, v, vpn.BgpNames());
    FilterPlan(base.bgp, BgpLists(specs), plan.applied, v, vpn.VrfNames());
    if e.Create? && e.patches > 0 {
      AssignPlaced(base.interfaces, plan.vrfOf, Processed(vpn, e.patches));
    } else {
      UnassignPlaced(base, vpn, plan.vrfOf);
    }
  }

  /** After every run, and so after every single patch, the VRF and BGP lists are the base entries
      followed by the applied VPNs' entries, and each interface is as the plan says. */
  lemma {:induction false} RunFollowsPlan(router: Json, specs: seq<VpnRouter>, events: seq<Event>)
    requires Known(specs, events) && Compatible(View(router), specs)
    ensures View(RunOn(router, specs, events)) == Expected(View(router), specs, PlanOf(specs, events))
  {
    if events == [] {
      assert Placed(View(router).interfaces, map[]) == View(router).interfaces;
      assert View(router).vrfs + [] == View(router).vrfs && View(router).bgp + [] == View(router).bgp;
    } else {
      var front, e := events[..|events| - 1], events[|events| - 1];
      RunFollowsPlan(router, specs, front);
      ExpectedStep(View(router), specs, PlanOf(specs, front), e);
      var before := RunOn(router, specs, front);
      match e {
        case Create(v, patches) => ViewOfCreate(before, specs[v], patches);
        case Delete(v, accepted) => ViewOfDelete(before, specs[v]);
      }
    }
  }

  /** On an object that has its lists and no null in its global BGP members, the whole object is
      the original with the planned lists in place of the old ones. */
  lemma {:induction false} RunIsRendered(router: Json, specs: seq<VpnRouter>, events: seq<Event>)
    requires Known(specs, events) && Compatible(View(router), specs)
    requires HasLists(router) && BgpNullFree(router)
    ensures RunOn(router, specs, events) == Rendered(router, Expected(View(router), specs, PlanOf(specs, events)))
  {
    RunFollowsPlan(router, specs, events);
    if events == [] {
      RenderedSame(router);
    } else {
      var front, e := events[..|events| - 1], events[|events| - 1];
      RunIsRendered(router, specs, front);
      RunFollowsPlan(router, specs, front);
      var r := Expected(View(router), specs, PlanOf(specs, front));
      var before := RunOn(router, specs, front);
      ViewOfRendered(router, r);
      match e {
        case Create(v, patches) =>
          CreateIsRendered(before, specs[v], patches);
          ViewOfCreate(before, specs[v], patches);
          RenderedTwice(router, r, Created(r, specs[v], patches));
        case Delete(v, accepted) =>
          DeleteIsRendered(before, specs[v]);
          ViewOfDelete(before, specs[v]);
          RenderedTwice(router, r, Deleted(r, specs[v]));
      }
    }
  }

  /** OSPF, MPLS, metadata and status survive every run, with no condition at all. */
  lemma {:induction false} RunLeavesAlone(router: Json, specs: seq<VpnRouter>, events: seq<Event>, path: seq<Key>)
    requires Known(specs, events) && Outside(path)
    ensures At(RunOn(router, specs, events), path) == At(router, path)
  {
    if events != [] {
      var front, e := events[..|events| - 1], events[|events| - 1];
      RunLeavesAlone(router, specs, front, path);
      HandlersLeaveAlone(RunOn(router, specs, front), specs[e.vpn], if e.Create? then e.patches else 0, path);
    }
  }

  // ---------------------------------------------------------------- each applied VPN exactly once

  /** [v for v in entries if v.get('name') in names]. */
  function Only(entries: seq<Json>, names: set<string>): seq<Json> {
    if entries == [] then []
    else if NameIn(entries[0], names) then [entries[0]] + Only(entries[1..], names)
    else Only(entries[1..], names)
  }

  lemma {:induction false} OnlyAppend(a: seq<Json>, b: seq<Json>, names: set<string>)
    ensures Only(a + b, names) == Only(a, names) + Only(b, names)
  {
    if a == [] {
      assert a + b == b;
    } else {
      assert (a + b)[1..] == a[1..] + b;
      OnlyAppend(a[1..], b, names);
    }
  }

  lemma {:induction false} OnlyAllOrNone(entries: seq<Json>, names: set<string>)
    ensures AllNamed(entries, names) ==> Only(entries, names) == entries
    ensures NoneNamed(entries, names) ==> Only(entries, names) == []
  {
    if entries != [] {
      OnlyAllOrNone(entries[1..], names);
      assert entries == [entries[0]] + entries[1..];
      assert forall i :: 0 <= i < |entries[1..]| ==> entries[1..][i] == entries[i + 1];
    }
  }

  predicate Distinct(applied: seq<nat>) {
    applied == [] || (applied[0] !in applied[1..] && Distinct(applied[1..]))
  }

  lemma {:induction false} OthersDistinct(applied: seq<nat>, v: nat)
    requires Distinct(applied)
    ensures Distinct(Others(applied, v)) && Distinct(Others(applied, v) + [v])
  {
    if applied == [] {
      assert [] + [v] == [v];
    } else {
      OthersDistinct(applied[1..], v);
      if applied[0] != v {
        var others := Others(applied[1..], v);
        assert Others(applied, v)[1..] == others;
        assert (Others(applied, v) + [v])[1..] == others + [v];
      } else {
        assert Others(applied, v) == Others(applied[1..], v);
      }
    }
  }

  lemma {:induction false} PlanDistinct(specs: seq<VpnRouter>, events: seq<Event>)
    requires Known(specs, events)
    ensures Distinct(PlanOf(specs, events).applied)
  {
    if events != [] {
      PlanDistinct(specs, events[..|events| - 1]);
      OthersDistinct(PlanOf(specs, events[..|events| - 1]).applied, events[|events| - 1].vpn);
    }
  }

  lemma {:induction false} OnlyOwned(lists: seq<seq<Json>>, applied: seq<nat>, v: nat, names: set<string>)
    requires Owns(lists, v, names) && Distinct(applied)
    ensures Only(All(lists, applied), names) == if v in applied then ListAt(lists, v) else []
    decreases |applied|
  {
    if applied != [] {
      OnlyAppend(ListAt(lists, applied[0]), All(lists, applied[1..]), names);
      OnlyAllOrNone(ListAt(lists, applied[0]), names);
      OnlyOwned(lists, applied[1..], v, names);
    }
  }

  /** Among the router's entries, those named like one of a VPN's VRFs are exactly that VPN's own,
      once and in order, when the VPN is applied, and none when it is not. */
  lemma EachAppliedOnce(router: Json, specs: seq<VpnRouter>, events: seq<Event>, v: nat)
    requires Known(specs, events) && Compatible(View(router), specs) && v < |specs|
    ensures var r := View(RunOn(router, specs, events));
            var live := v in PlanOf(specs, events).applied;
            && Only(r.vrfs, specs[v].VrfNames()) == (if live then specs[v].VrfEntries() else [])
            && Only(r.bgp, specs[v].VrfNames()) == (if live then specs[v].BgpEntries() else [])
  {
    var base, plan, names := View(router), PlanOf(specs, events), specs[v].VrfNames();
    RunFollowsPlan(router, specs, events);
    PlanDistinct(specs, events);
    OwnsEntries(base, specs, v);
    OnlyAppend(base.vrfs, All(VrfLists(specs), plan.applied), names);
    OnlyAppend(base.bgp, All(BgpLists(specs), plan.applied), names);
    OnlyAllOrNone(base.vrfs, names);
    OnlyAllOrNone(base.bgp, names);
    OnlyOwned(VrfLists(specs), plan.applied, v, names);
    OnlyOwned(BgpLists(specs), plan.applied, v, names);
  }

  // ---------------------------------------------------------------- nothing names an absent VRF

  ghost predicate HasVrf(r: Router, name: string) {
    exists i :: 0 <= i < |r.vrfs| && NameOf(r.vrfs[i]) == Some(name)
  }

  /** Every BGP entry, and every interface with a VRF, names a VRF of the router. */
  ghost predicate NoDangling(r: Router) {
    && (forall e | e in r.bgp :: NameOf(e).Some? && HasVrf(r, NameOf(e).value))
    && (forall i | i in r.interfaces && Vrf in Fields(i) :: Fields(i)[Vrf].Str? && HasVrf(r, Fields(i)[Vrf].s))
  }

  lemma {:induction false} AllHas(lists: seq<seq<Json>>, applied: seq<nat>, v: nat, e: Json)
    requires v in applied && e in ListAt(lists, v)
    ensures e in All(lists, applied)
    decreases |applied|
  {
    if applied[0] != v {
      AllHas(lists, applied[1..], v, e);
    }
  }

  lemma {:induction false} AllFrom(lists: seq<seq<Json>>, applied: seq<nat>, e: Json) returns (v: nat)
    requires e in All(lists, applied)
    ensures v in applied && e in ListAt(lists, v)
    decreases |applied|
  {
    if e in ListAt(lists, applied[0]) {
      v := applied[0];
    } else {
      v := AllFrom(lists, applied[1..], e);
    }
  }

  /** An assigned interface is listed by an applied VPN, under a VRF of that VPN. */
  ghost predicate AssignedBy(specs: seq<VpnRouter>, applied: seq<nat>, name: string, vrf: string) {
    exists v, j :: v in applied && v < |specs| && 0 <= j < |specs[v].vrfs|
                   && name in specs[v].vrfs[j].interfaces && vrf == specs[v].vrfs[j].entry.name
  }

  lemma {:induction false} PlanAssigns(specs: seq<VpnRouter>, events: seq<Event>, name: string)
    requires Known(specs, events) && name in PlanOf(specs, events).vrfOf
    ensures AssignedBy(specs, PlanOf(specs, events).applied, name, PlanOf(specs, events).vrfOf[name])
  {
    var front, e := events[..|events| - 1], events[|events| - 1];
    var before, after := PlanOf(specs, front), PlanOf(specs, events);
    var own := if e.Create? && 0 < e.patches then Processed(specs[e.vpn], e.patches) else [];
    AssignMapIsLast(own, name);
    if LastVrf(own, name).Some? {
      var j := LastVrfListed(own, name);
      assert own[j] == specs[e.vpn].vrfs[j];
      assert e.vpn in after.applied;
    } else {
      PlanAssigns(specs, front, name);
      var v, j :| v in before.applied && v < |specs| && 0 <= j < |specs[v].vrfs|
                  && name in specs[v].vrfs[j].interfaces && before.vrfOf[name] == specs[v].vrfs[j].entry.name;
      StaysListed(specs[v], j, name);
      assert v in after.applied;
    }
  }

  lemma StaysListed(vpn: VpnRouter, j: nat, name: string)
    requires j < |vpn.vrfs| && name in vpn.vrfs[j].interfaces
    ensures name in vpn.Listed()
  {
    var k :| 0 <= k < |vpn.vrfs[j].interfaces| && vpn.vrfs[j].interfaces[k] == name;
  }

  lemma AppliedVrfPresent(base: Router, specs: seq<VpnRouter>, plan: Plan, v: nat, name: string)
    requires v in plan.applied && v < |specs| && name in specs[v].VrfNames()
    ensures HasVrf(Expected(base, specs, plan), name)
  {
    var j :| 0 <= j < |specs[v].vrfs| && specs[v].vrfs[j].entry.name == name;
    var e := specs[v].VrfEntries()[j];
    NameOfNamed(specs[v].vrfs[j].entry);
    AllHas(VrfLists(specs), plan.applied, v, e);
    var r := Expected(base, specs, plan);
    assert e in r.vrfs;
  }

  lemma BaseVrfPresent(base: Router, specs: seq<VpnRouter>, plan: Plan, name: string)
    requires HasVrf(base, name)
    ensures HasVrf(Expected(base, specs, plan), name)
  {
    var i :| 0 <= i < |base.vrfs| && NameOf(base.vrfs[i]) == Some(name);
    assert Expected(base, specs, plan).vrfs[i] == base.vrfs[i];
  }

  /** After every patch of every run, no BGP entry and no interface names an absent VRF. */
  lemma NeverDangling(router: Json, specs: seq<VpnRouter>, events: seq<Event>)
    requires Known(specs, events) && Compatible(View(router), specs) && NoDangling(View(router))
    ensures NoDangling(View(RunOn(router, specs, events)))
  {
    var base, plan := View(router), PlanOf(specs, events);
    RunFollowsPlan(router, specs, events);
    var r := Expected(base, specs, plan);
    forall e | e in r.bgp ensures NameOf(e).Some? && HasVrf(r, NameOf(e).value) {
      if e in base.bgp {
        BaseVrfPresent(base, specs, plan, NameOf(e).value);
      } else {
        var v := AllFrom(BgpLists(specs), plan.applied, e);
        OwnsEntries(base, specs, v);
        AppliedVrfPresent(base, specs, plan, v, NameOf(e).value);
      }
    }
    forall i | i in r.interfaces && Vrf in Fields(i) ensures Fields(i)[Vrf].Str? && HasVrf(r, Fields(i)[Vrf].s) {
      var k :| 0 <= k < |r.interfaces| && r.interfaces[k] == i;
      var iface := base.interfaces[k];
      assert iface in base.interfaces;
      if First(base.interfaces, k) && NameOf(iface).value in plan.vrfOf {
        PlanAssigns(specs, events, NameOf(iface).value);
        var v, j :| v in plan.applied && v < |specs| && 0 <= j < |specs[v].vrfs|
                    && NameOf(iface).value in specs[v].vrfs[j].interfaces && plan.vrfOf[NameOf(iface).value] == specs[v].vrfs[j].entry.name;
        AppliedVrfPresent(base, specs, plan, v, specs[v].vrfs[j].entry.name);
      } else {
        BaseVrfPresent(base, specs, plan, Fields(i)[Vrf].s);
      }
    }
  }

  // ---------------------------------------------------------------- VPNs do not disturb each other

  /** The events of one VPN. */
  function Own(events: seq<Event>, v: nat): seq<Event> {
    if events == [] then []
    else if events[|events| - 1].vpn == v then Own(events[..|events| - 1], v) + [events[|events| - 1]]
    else Own(events[..|events| - 1], v)
  }

  lemma {:induction false} OwnKnown(specs: seq<VpnRouter>, events: seq<Event>, v: nat)
    requires Known(specs, events)
    ensures Known(specs, Own(events, v))
  {
    if events != [] {
      OwnKnown(specs, events[..|events| - 1], v);
    }
  }

  /** Processing places listed interfaces only. */
  lemma PlacedIsListed(vpn: VpnRouter, patches: nat, name: string)
    requires patches > 0
    ensures LastVrf(Processed(vpn, patches), name).Some? ==> name in vpn.Listed()
  {
    var own := Processed(vpn, patches);
    if LastVrf(own, name).Some? {
      var j := LastVrfListed(own, name);
      assert own[j] == vpn.vrfs[j];
      StaysListed(vpn, j, name);
    }
  }

  /** What becomes of an interface that no other VPN lists depends on its own VPN's events only. */
  lemma {:induction false} OnlyOwnEventsMatter(specs: seq<VpnRouter>, events: seq<Event>, v: nat, name: string)
    requires Known(specs, events) && Known(specs, Own(events, v))
    requires forall u | 0 <= u < |specs| && u != v :: name !in specs[u].Listed()
    ensures Get(PlanOf(specs, events).vrfOf, name) == Get(PlanOf(specs, Own(events, v)).vrfOf, name)
  {
    if events != [] {
      var front, e := events[..|events| - 1], events[|events| - 1];
      OwnKnown(specs, front, v);
      OnlyOwnEventsMatter(specs, front, v, name);
      if e.vpn == v {
        assert Own(events, v)[..|Own(events, v)| - 1] == Own(front, v);
        assert PlanOf(specs, Own(events, v)) == Advance(PlanOf(specs, Own(front, v)), specs, e);
      } else if e.Create? && e.patches > 0 {
        AssignMapIsLast(Processed(specs[e.vpn], e.patches), name);
        PlacedIsListed(specs[e.vpn], e.patches, name);
      }
    }
  }
}
