/** What a reader finds on a router after VPN handlers ran, member by member. */
module VpnEffects {
  import opened Common
  import opened Positions
  import opened Json
  import opened VpnConfig
  import opened VpnHandlers
  import opened VpnRuns

  lemma AtOne(j: Json, k: Key)
    ensures At(j, [k]) == Member(j, k)
  {
    assert [k][1..] == [];
  }

  lemma AtNext(j: Json, k: Key, path: seq<Key>)
    ensures At(j, [k] + path) == match Member(j, k) { case None => None case Some(child) => At(child, path) }
  {
    assert ([k] + path)[1..] == path;
  }

  /** The lists that VPNs share are the ones at these paths; a path without a list counts as an empty one. */
  lemma ViewReads(router: Json)
    ensures View(router).vrfs == ListOf(At(router, [Spec] + [Vrfs]))
    ensures View(router).bgp == ListOf(At(router, [Spec] + ([Protocols] + ([Bgp] + [Vrfs]))))
    ensures View(router).interfaces == ListOf(At(router, [Spec] + [Interfaces]))
  {
    AtNext(router, Spec, [Vrfs]);
    AtNext(router, Spec, [Interfaces]);
    AtNext(router, Spec, [Protocols] + ([Bgp] + [Vrfs]));
    if Spec in Fields(router) {
      var spec := Fields(router)[Spec];
      AtOne(spec, Vrfs);
      AtOne(spec, Interfaces);
      AtNext(spec, Protocols, [Bgp] + [Vrfs]);
      if Protocols in Fields(spec) {
        AtNext(Fields(spec)[Protocols], Bgp, [Vrfs]);
        if Bgp in Fields(Fields(spec)[Protocols]) {
          AtOne(Fields(Fields(spec)[Protocols])[Bgp], Vrfs);
        }
      }
    }
  }

  // ---------------------------------------------------------------- interfaces

  /** The value is called n. */
  predicate Called(v: Json, n: string) {
    Get(Fields(v), Name) == Some(Str(n))
  }

  /** Interface i is called n, and none before it is. */
  predicate FirstCalled(ifaces: seq<Json>, i: nat, n: string)
    requires i < |ifaces|
  {
    Called(ifaces[i], n) && forall k | 0 <= k < i :: !Called(ifaces[k], n)
  }

  /** The same object but for its VRF. */
  ghost predicate SameButVrf(a: Json, b: Json) {
    forall k | k != Vrf :: Get(Fields(a), k) == Get(Fields(b), k)
  }

  /** Of the first m VRFs, j is the last that lists the interface name. */
  predicate LastLister(vrfs: seq<VpnVrf>, m: nat, j: nat, n: string)
    requires m <= |vrfs|
  {
    j < m && n in vrfs[j].interfaces && forall k | j < k < m :: n !in vrfs[k].interfaces
  }

  predicate NoneLists(vrfs: seq<VpnVrf>, m: nat, n: string)
    requires m <= |vrfs|
  {
    forall j | 0 <= j < m :: n !in vrfs[j].interfaces
  }

  /** After the first m VRFs of a VPN: the first interface of every listed name is in the last VRF
      that lists it; nothing else about any interface is different. */
  ghost predicate AreAssigned(before: seq<Json>, after: seq<Json>, vrfs: seq<VpnVrf>, m: nat)
    requires m <= |vrfs|
  {
    && |after| == |before|
    && (forall i, j: nat, n | 0 <= i < |before| && FirstCalled(before, i, n) && LastLister(vrfs, m, j, n) ::
          Get(Fields(after[i]), Vrf) == Some(Str(vrfs[j].entry.name)) && SameButVrf(after[i], before[i]))
    && (forall i | 0 <= i < |before| && (forall n | FirstCalled(before, i, n) :: NoneLists(vrfs, m, n)) :: after[i] == before[i])
  }

  lemma NoneListsTail(vrfs: seq<VpnVrf>, name: string)
    requires vrfs != []
    ensures NoneLists(vrfs, |vrfs|, name) <==> name !in vrfs[0].interfaces && NoneLists(vrfs[1..], |vrfs| - 1, name)
  {
    assert forall j | 0 < j < |vrfs| :: vrfs[j] == vrfs[1..][j - 1];
    assert forall j | 0 <= j < |vrfs| - 1 :: vrfs[1..][j] == vrfs[j + 1];
  }

  lemma {:induction false} LastVrfIs(vrfs: seq<VpnVrf>, name: string)
    ensures LastVrf(vrfs, name).None? <==> NoneLists(vrfs, |vrfs|, name)
    ensures forall j: nat | LastLister(vrfs, |vrfs|, j, name) :: LastVrf(vrfs, name) == Some(vrfs[j].entry.name)
  {
    if vrfs != [] {
      LastVrfIs(vrfs[1..], name);
      NoneListsTail(vrfs, name);
      forall j: nat | LastLister(vrfs, |vrfs|, j, name) ensures LastVrf(vrfs, name) == Some(vrfs[j].entry.name) {
        if j > 0 {
          assert LastLister(vrfs[1..], |vrfs| - 1, j - 1, name);
        } else {
          assert NoneLists(vrfs[1..], |vrfs| - 1, name);
        }
      }
    }
  }

  lemma FirstIsFirstCalled(ifaces: seq<Json>, i: nat)
    requires i < |ifaces|
    ensures forall n :: Called(ifaces[i], n) <==> NameOf(ifaces[i]) == Some(n)
    ensures First(ifaces, i) <==> exists n :: FirstCalled(ifaces, i, n)
    ensures First(ifaces, i) ==> FirstCalled(ifaces, i, NameOf(ifaces[i]).value)
  {
    forall k, n | 0 <= k < |ifaces| ensures Called(ifaces[k], n) <==> NameOf(ifaces[k]) == Some(n) {
      CalledIs(ifaces[k], n);
    }
    if First(ifaces, i) {
      assert FirstCalled(ifaces, i, NameOf(ifaces[i]).value);
    }
  }

  lemma CalledIs(v: Json, n: string)
    ensures Called(v, n) <==> NameOf(v) == Some(n)
  {
  }

  lemma SetVrfIs(iface: Json, vrf: string)
    ensures Get(Fields(SetVrf(iface, vrf)), Vrf) == Some(Str(vrf)) && SameButVrf(SetVrf(iface, vrf), iface)
  {
  }

  lemma AssignAllIs(ifaces: seq<Json>, vrfs: seq<VpnVrf>)
    ensures AreAssigned(ifaces, AssignAll(ifaces, vrfs), vrfs, |vrfs|)
  {
    var after := AssignAll(ifaces, vrfs);
    forall i | 0 <= i < |ifaces|
      ensures forall j: nat, n | FirstCalled(ifaces, i, n) && LastLister(vrfs, |vrfs|, j, n) ::
                Get(Fields(after[i]), Vrf) == Some(Str(vrfs[j].entry.name)) && SameButVrf(after[i], ifaces[i])
      ensures (forall n | FirstCalled(ifaces, i, n) :: NoneLists(vrfs, |vrfs|, n)) ==> after[i] == ifaces[i]
    {
      AssignAllAt(ifaces, vrfs, i);
      FirstIsFirstCalled(ifaces, i);
      if First(ifaces, i) {
        var name := NameOf(ifaces[i]).value;
        LastVrfIs(vrfs, name);
        if LastVrf(vrfs, name).Some? {
          SetVrfIs(ifaces[i], LastVrf(vrfs, name).value);
        }
      }
    }
  }

  /** A creation that got as far as its first `patches` patches has put the first interface of every
      name listed by the VRFs processed so far into the last VRF that lists it, and changed nothing
      else about any interface. */
  lemma CreateAssigns(router: Json, vpn: VpnRouter, patches: nat)
    requires patches > 0
    ensures var m := if patches - 1 < |vpn.vrfs| then patches - 1 else |vpn.vrfs|;
            AreAssigned(View(router).interfaces, View(CreateOn(router, vpn, patches)).interfaces, vpn.vrfs, m)
  {
    var m := if patches - 1 < |vpn.vrfs| then patches - 1 else |vpn.vrfs|;
    var own := Processed(vpn, patches);
    ViewOfCreate(router, vpn, patches);
    AssignAllIs(View(router).interfaces, own);
    assert own == vpn.vrfs[..m];
    PrefixAssigns(View(router).interfaces, AssignAll(View(router).interfaces, own), vpn.vrfs, m);
  }

  lemma PrefixAssigns(before: seq<Json>, after: seq<Json>, vrfs: seq<VpnVrf>, m: nat)
    requires m <= |vrfs| && AreAssigned(before, after, vrfs[..m], m)
    ensures AreAssigned(before, after, vrfs, m)
  {
    forall i, j: nat, n | 0 <= i < |before| && FirstCalled(before, i, n) && LastLister(vrfs, m, j, n)
      ensures Get(Fields(after[i]), Vrf) == Some(Str(vrfs[j].entry.name)) && SameButVrf(after[i], before[i])
    {
      PrefixLists(vrfs, m, n);
      assert vrfs[..m][j] == vrfs[j];
    }
    forall i | 0 <= i < |before| && (forall n | FirstCalled(before, i, n) :: NoneLists(vrfs, m, n)) ensures after[i] == before[i] {
      forall n | FirstCalled(before, i, n) ensures NoneLists(vrfs[..m], m, n) {
        PrefixLists(vrfs, m, n);
      }
    }
  }

  lemma PrefixLists(vrfs: seq<VpnVrf>, m: nat, n: string)
    requires m <= |vrfs|
    ensures NoneLists(vrfs[..m], m, n) <==> NoneLists(vrfs, m, n)
    ensures forall j: nat :: LastLister(vrfs[..m], m, j, n) <==> LastLister(vrfs, m, j, n)
  {
  }

  /** A deletion takes the VRF away from every interface whose name one of its VRFs lists, and
      changes nothing else about any interface. */
  lemma DeleteUnassigns(router: Json, vpn: VpnRouter)
    ensures var before, after := View(router).interfaces, View(DeleteOn(router, vpn)).interfaces;
            && |after| == |before|
            && forall i | 0 <= i < |before| ::
                 if exists n, j :: Called(before[i], n) && 0 <= j < |vpn.vrfs| && n in vpn.vrfs[j].interfaces
                 then Vrf !in Fields(after[i]) && SameButVrf(after[i], before[i])
                 else after[i] == before[i]
  {
    ViewOfDelete(router, vpn);
    var before := View(router).interfaces;
    forall i | 0 <= i < |before|
      ensures NameIn(before[i], vpn.Listed()) <==> exists n, j :: Called(before[i], n) && 0 <= j < |vpn.vrfs| && n in vpn.vrfs[j].interfaces
    {
      FirstIsFirstCalled(before, i);
      if n, j :| Called(before[i], n) && 0 <= j < |vpn.vrfs| && n in vpn.vrfs[j].interfaces {
        StaysListed(vpn, j, n);
      }
    }
  }

  // ---------------------------------------------------------------- entries

  /** The entry that a VPN writes for one of its VRFs or BGP VRFs. */
  ghost predicate IsEntry(v: Json, n: Named) {
    v.Obj? && Called(v, n.name) && forall k | k != Name :: Get(v.fields, k) == Get(n.rest, k)
  }

  lemma ToJsonIsEntry(n: Named)
    ensures IsEntry(n.ToJson(), n)
  {
  }

  /** None of the names is the value's. */
  ghost predicate CalledOtherwise(v: Json, names: set<string>) {
    forall n | Called(v, n) :: n !in names
  }

  /** The entries not called by one of the names are the good ones. */
  ghost function Unnamed(before: seq<Json>, names: set<string>): nat -> bool {
    (i: nat) => i < |before| && CalledOtherwise(before[i], names)
  }

  /** The entries not called by one of the names, in order. */
  ghost predicate KeptInOrder(before: seq<Json>, kept: seq<Json>, names: set<string>, at: seq<nat>) {
    Selects(before, 0, kept, Unnamed(before, names), at)
  }

  lemma NameInIs(v: Json, names: set<string>)
    ensures NameIn(v, names) <==> !CalledOtherwise(v, names)
  {
    if NameOf(v).Some? {
      CalledIs(v, NameOf(v).value);
    }
  }

  lemma {:induction false} WithoutKeeps(before: seq<Json>, from: nat, names: set<string>) returns (at: seq<nat>)
    requires from <= |before|
    ensures Selects(before, from, Without(before[from..], names), Unnamed(before, names), at)
    decreases |before| - from
  {
    if from == |before| {
      at := [];
    } else {
      var good, rest := Unnamed(before, names), Without(before[from + 1..], names);
      at := WithoutKeeps(before, from + 1, names);
      NameInIs(before[from], names);
      assert before[from..][0] == before[from] && before[from..][1..] == before[from + 1..];
      if good(from) {
        SelectsOneMore(before, from, rest, good, at, Without(before[from..], names), [from] + at);
        at := [from] + at;
      } else {
        SelectsNoMore(before, from, rest, good, at);
      }
    }
  }

  /** The list that comes of dropping the entries called by one of the names and appending own ones. */
  ghost predicate Replaced(before: seq<Json>, after: seq<Json>, names: set<string>, own: seq<Named>) {
    exists at :: |at| + |own| == |after|
                 && KeptInOrder(before, after[..|at|], names, at)
                 && forall k | 0 <= k < |own| :: IsEntry(after[|at| + k], own[k])
  }

  lemma ReplacedBy(before: seq<Json>, names: set<string>, own: seq<Named>, entries: seq<Json>)
    requires |entries| == |own| && forall k | 0 <= k < |own| :: entries[k] == own[k].ToJson()
    ensures Replaced(before, Without(before, names) + entries, names, own)
  {
    var at := WithoutKeeps(before, 0, names);
    assert before[0..] == before;
    var kept := Without(before, names);
    var after := kept + entries;
    assert after[..|at|] == kept;
    forall k | 0 <= k < |own| ensures IsEntry(after[|at| + k], own[k]) {
      ToJsonIsEntry(own[k]);
    }
  }

  function VrfNamed(vpn: VpnRouter): (own: seq<Named>)
    ensures |own| == |vpn.vrfs|
  {
    seq(|vpn.vrfs|, j requires 0 <= j < |vpn.vrfs| => vpn.vrfs[j].entry)
  }

  /** From its first patch on, a creation has replaced the entries called like one of the VPN's by
      the VPN's own, at the end and in order, and kept the others in order. */
  lemma CreateReplaces(router: Json, vpn: VpnRouter, patches: nat)
    requires patches > 0
    ensures var before, after := View(router), View(CreateOn(router, vpn, patches));
            && Replaced(before.vrfs, after.vrfs, set n | n in VrfNamed(vpn) :: n.name, VrfNamed(vpn))
            && Replaced(before.bgp, after.bgp, set n | n in vpn.bgp :: n.name, vpn.bgp)
  {
    ViewOfCreate(router, vpn, patches);
    VrfNamesAre(vpn);
    ReplacedBy(View(router).vrfs, vpn.VrfNames(), VrfNamed(vpn), vpn.VrfEntries());
    ReplacedBy(View(router).bgp, vpn.BgpNames(), vpn.bgp, vpn.BgpEntries());
  }

  /** A deletion has dropped the entries called like one of the VPN's VRFs, from both lists. */
  lemma DeleteDrops(router: Json, vpn: VpnRouter)
    ensures var before, after := View(router), View(DeleteOn(router, vpn));
            var names := set n | n in VrfNamed(vpn) :: n.name;
            Replaced(before.vrfs, after.vrfs, names, []) && Replaced(before.bgp, after.bgp, names, [])
  {
    ViewOfDelete(router, vpn);
    VrfNamesAre(vpn);
    ReplacedBy(View(router).vrfs, vpn.VrfNames(), [], []);
    ReplacedBy(View(router).bgp, vpn.VrfNames(), [], []);
    assert Without(View(router).vrfs, vpn.VrfNames()) + [] == Without(View(router).vrfs, vpn.VrfNames());
    assert Without(View(router).bgp, vpn.VrfNames()) + [] == Without(View(router).bgp, vpn.VrfNames());
  }

  lemma VrfNamesAre(vpn: VpnRouter)
    ensures vpn.VrfNames() == set n | n in VrfNamed(vpn) :: n.name
    ensures vpn.BgpNames() == set n | n in vpn.bgp :: n.name
  {
    forall x | x in vpn.VrfNames() ensures x in set n | n in VrfNamed(vpn) :: n.name {
      var i :| 0 <= i < |vpn.vrfs| && vpn.vrfs[i].entry.name == x;
      assert VrfNamed(vpn)[i] in VrfNamed(vpn);
    }
    forall x | x in set n | n in VrfNamed(vpn) :: n.name ensures x in vpn.VrfNames() {
      var n :| n in VrfNamed(vpn) && n.name == x;
      var i :| 0 <= i < |vpn.vrfs| && VrfNamed(vpn)[i] == n;
    }
    forall x | x in vpn.BgpNames() ensures x in set n | n in vpn.bgp :: n.name {
      var i :| 0 <= i < |vpn.bgp| && vpn.bgp[i].name == x;
      assert vpn.bgp[i] in vpn.bgp;
    }
    forall x | x in set n | n in vpn.bgp :: n.name ensures x in vpn.BgpNames() {
      var n :| n in vpn.bgp && n.name == x;
      var i :| 0 <= i < |vpn.bgp| && vpn.bgp[i] == n;
    }
  }

  // ---------------------------------------------------------------- runs

  /** After every run each interface has the VRF that the plan gives it, or the one it had, and
      nothing else about it is different. */
  lemma RunAssigns(router: Json, specs: seq<VpnRouter>, events: seq<Event>)
    requires Known(specs, events) && Compatible(View(router), specs)
    ensures var before, after, vrfOf := View(router).interfaces, View(RunOn(router, specs, events)).interfaces, PlanOf(specs, events).vrfOf;
            && |after| == |before|
            && (forall i, n | 0 <= i < |before| && FirstCalled(before, i, n) && n in vrfOf ::
                  Get(Fields(after[i]), Vrf) == Some(Str(vrfOf[n])) && SameButVrf(after[i], before[i]))
            && (forall i | 0 <= i < |before| && (forall n | FirstCalled(before, i, n) :: n !in vrfOf) :: after[i] == before[i])
  {
    var before, vrfOf := View(router).interfaces, PlanOf(specs, events).vrfOf;
    RunFollowsPlan(router, specs, events);
    forall i | 0 <= i < |before|
      ensures forall n | FirstCalled(before, i, n) && n in vrfOf ::
                Get(Fields(Placed(before, vrfOf)[i]), Vrf) == Some(Str(vrfOf[n])) && SameButVrf(Placed(before, vrfOf)[i], before[i])
      ensures (forall n | FirstCalled(before, i, n) :: n !in vrfOf) ==> Placed(before, vrfOf)[i] == before[i]
    {
      FirstIsFirstCalled(before, i);
      if First(before, i) && NameOf(before[i]).value in vrfOf {
        SetVrfIs(before[i], vrfOf[NameOf(before[i]).value]);
      }
    }
  }
}
