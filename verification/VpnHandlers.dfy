/** The create and delete handlers of an L3VPN on one router object, patch by patch. */
module VpnHandlers {
  import opened Common
  import opened Json
  import opened VpnConfig

  // ---------------------------------------------------------------- one JSON patch

  lemma IndexIsFirst(ifaces: seq<Json>, name: string, i: nat)
    requires i < |ifaces|
    ensures IndexOf(ifaces, name) == Some(i) <==> First(ifaces, i) && NameOf(ifaces[i]) == Some(name)
  {
  }

  /** Setting the VRF of the first interface of one name. */
  function AssignOne(ifaces: seq<Json>, name: string, vrf: string): (out: seq<Json>)
    ensures |out| == |ifaces|
  {
    match IndexOf(ifaces, name)
    case Some(i) => ifaces[i := SetVrf(ifaces[i], vrf)]
    case None => ifaces
  }

  lemma AssignedHead(ifaces: seq<Json>, names: seq<string>, vrf: string)
    requires names != []
    ensures Assigned(AssignOne(ifaces, names[0], vrf), names[1..], vrf) == Assigned(ifaces, names, vrf)
  {
    var one := AssignOne(ifaces, names[0], vrf);
    forall k | 0 <= k < |ifaces| ensures NameOf(one[k]) == NameOf(ifaces[k]) {
      NameOfSetVrf(ifaces[k], vrf);
    }
    forall i | 0 <= i < |ifaces| ensures Assigned(one, names[1..], vrf)[i] == Assigned(ifaces, names, vrf)[i] {
      IndexIsFirst(ifaces, names[0], i);
      SetVrfTwice(ifaces[i]);
      assert First(one, i) == First(ifaces, i);
      assert names == [names[0]] + names[1..];
    }
  }

  lemma OpsAfterSetVrf(ifaces: seq<Json>, names: seq<string>, vrf: string, i: nat)
    requires i < |ifaces|
    ensures Ops(ifaces[i := SetVrf(ifaces[i], vrf)], names, vrf) == Ops(ifaces, names, vrf)
    decreases |names|
  {
    if names != [] {
      var after := ifaces[i := SetVrf(ifaces[i], vrf)];
      forall k | 0 <= k < |ifaces| ensures NameOf(after[k]) == NameOf(ifaces[k]) {
        NameOfSetVrf(ifaces[k], vrf);
      }
      SameIndex(ifaces, after, names[0]);
      OpsAfterSetVrf(ifaces, names[1..], vrf, i);
    }
  }

  lemma SameIndex(a: seq<Json>, b: seq<Json>, name: string)
    requires |a| == |b| && forall k :: 0 <= k < |a| ==> NameOf(a[k]) == NameOf(b[k])
    ensures IndexOf(a, name) == IndexOf(b, name)
  {
    if IndexOf(a, name).Some? {
      IndexIsFirst(b, name, IndexOf(a, name).value);
    }
  }

  /** The operations built from the list just read all find their target, and together assign
      the first interface of every listed name. */
  lemma {:induction false} OpsAssign(ifaces: seq<Json>, names: seq<string>, vrf: string)
    ensures ApplyAdds(ifaces, Ops(ifaces, names, vrf)) == Some(Assigned(ifaces, names, vrf))
    decreases |names|
  {
    if names == [] {
      assert Assigned(ifaces, names, vrf) == ifaces;
    } else {
      AssignedHead(ifaces, names, vrf);
      var one := AssignOne(ifaces, names[0], vrf);
      OpsAssign(one, names[1..], vrf);
      match IndexOf(ifaces, names[0]) {
        case None =>
          assert Ops(ifaces, names, vrf) == Ops(ifaces, names[1..], vrf);
        case Some(i) =>
          OpsAfterSetVrf(ifaces, names[1..], vrf, i);
          var ops := Ops(ifaces, names, vrf);
          assert ops[0] == Add(i, vrf) && ops[1..] == Ops(ifaces, names[1..], vrf);
      }
    }
  }

  /** The inner loop: the index of the interface of this name at which the scan breaks off. */
  method FindInterface(ifaces: seq<Json>, name: string) returns (found: Option<nat>)
    ensures found == IndexOf(ifaces, name)
  {
    found := None;
    for idx := 0 to |ifaces|
      invariant found == None
      invariant forall k :: 0 <= k < idx ==> NameOf(ifaces[k]) != Some(name)
    {
      if NameOf(ifaces[idx]) == Some(name) {
        IndexIsFirst(ifaces, name, idx);
        found := Some(idx);
        break;
      }
    }
  }

  /** The outer loop: collects the operations of one VRF. */
  method BuildOps(ifaces: seq<Json>, names: seq<string>, vrf: string) returns (ops: seq<Add>)
    ensures ops == Ops(ifaces, names, vrf)
  {
    ops := [];
    var rest := names;
    while rest != []
      invariant ops + Ops(ifaces, rest, vrf) == Ops(ifaces, names, vrf)
    {
      var found := FindInterface(ifaces, rest[0]);
      if found.Some? {
        ops := ops + [Add(found.value, vrf)];
      }
      rest := rest[1..];
    }
  }

  /** The loop that copies the interfaces without their VRF. */
  method CleanInterfaces(ifaces: seq<Json>, names: set<string>) returns (cleaned: seq<Json>)
    ensures cleaned == Unassigned(ifaces, names)
  {
    cleaned := [];
    for i := 0 to |ifaces|
      invariant cleaned == Unassigned(ifaces, names)[..i]
    {
      var copy := ifaces[i];
      if NameIn(copy, names) {
        copy := DropVrf(copy);
      }
      cleaned := cleaned + [copy];
    }
  }

  // ---------------------------------------------------------------- whole handlers on the object

  function AssignStep(router: Json, vrf: VpnVrf): Json {
    JsonPatched(router, Ops(View(router).interfaces, vrf.interfaces, vrf.entry.name)).GetOr(router)
  }

  function AssignSteps(router: Json, vrfs: seq<VpnVrf>): Json
    decreases vrfs
  {
    if vrfs == [] then router else AssignSteps(AssignStep(router, vrfs[0]), vrfs[1..])
  }

  /** The object after the first `patches` patches of a creation succeeded. */
  function CreateOn(router: Json, vpn: VpnRouter, patches: nat): Json {
    if patches == 0 then router
    else
      AssignSteps(MergePatch(router, CreatePatch(router, vpn)), Processed(vpn, patches))
  }

  function DeleteOn(router: Json, vpn: VpnRouter): Json {
    MergePatch(router, DeletePatch(router, vpn))
  }

  lemma ViewOfPutInterfaces(router: Json, ifaces: seq<Json>)
    ensures View(PutInterfaces(router, ifaces)) == View(router).(interfaces := ifaces)
    ensures BgpOf(PutInterfaces(router, ifaces)) == BgpOf(router)
  {
  }

  lemma AssignStepIs(router: Json, vrf: VpnVrf)
    ensures var names := vrf.interfaces;
            AssignStep(router, vrf) ==
            if Interfaces in SpecOf(router) && SpecOf(router)[Interfaces].Arr?
            then PutInterfaces(router, Assigned(View(router).interfaces, names, vrf.entry.name)) else router
  {
    OpsAssign(View(router).interfaces, vrf.interfaces, vrf.entry.name);
  }

  lemma {:induction false} ViewOfAssignSteps(router: Json, vrfs: seq<VpnVrf>)
    ensures View(AssignSteps(router, vrfs)) == View(router).(interfaces := AssignAll(View(router).interfaces, vrfs))
    ensures BgpOf(AssignSteps(router, vrfs)) == BgpOf(router)
    decreases vrfs
  {
    if vrfs != [] {
      var names, vrf := vrfs[0].interfaces, vrfs[0].entry.name;
      AssignStepIs(router, vrfs[0]);
      ViewOfPutInterfaces(router, Assigned(View(router).interfaces, names, vrf));
      ViewOfAssignSteps(AssignStep(router, vrfs[0]), vrfs[1..]);
      if !(Interfaces in SpecOf(router) && SpecOf(router)[Interfaces].Arr?) {
        assert Assigned(View(router).interfaces, names, vrf) == View(router).interfaces;
      }
    }
  }

  /** Creating acts on the shared lists as intended, whatever else the object holds. */
  lemma ViewOfCreate(router: Json, vpn: VpnRouter, patches: nat)
    ensures View(CreateOn(router, vpn, patches)) == Created(View(router), vpn, patches)
    ensures patches > 0 ==> BgpNullFree(CreateOn(router, vpn, patches))
  {
    if patches > 0 {
      var merged := Merged(View(router), vpn);
      ViewOfPatch(router, map[Vrfs := Arr(merged.vrfs)], merged.bgp);
      ViewOfAssignSteps(MergePatch(router, CreatePatch(router, vpn)), Processed(vpn, patches));
    }
  }

  lemma ViewOfDelete(router: Json, vpn: VpnRouter)
    ensures View(DeleteOn(router, vpn)) == Deleted(View(router), vpn)
    ensures BgpNullFree(DeleteOn(router, vpn))
  {
    var cleaned := Deleted(View(router), vpn);
    ViewOfPatch(router, map[Vrfs := Arr(cleaned.vrfs), Interfaces := Arr(cleaned.interfaces)], cleaned.bgp);
  }

  method FilterOut(entries: seq<Json>, names: set<string>) returns (kept: seq<Json>)
    ensures kept == Without(entries, names)
  {
    kept := [];
    var rest := entries;
    while rest != []
      invariant kept + Without(rest, names) == Without(entries, names)
    {
      if !NameIn(rest[0], names) {
        kept := kept + [rest[0]];
      }
      rest := rest[1..];
    }
  }

  /** A router resource as the API server holds it, patched under the provisioning lock. */
  class RouterResource {
    var resource: Json

    constructor (initial: Json)
      ensures resource == initial
    {
      resource := initial;
    }

    /** The creation of a VPN on this router. The server accepts the merge patch and the patches
        of the first `patches` - 1 VRFs; the next request fails and ends the attempt. */
    method Create(vpn: VpnRouter, patches: nat)
      modifies this
      ensures resource == CreateOn(old(resource), vpn, patches)
    {
      if patches == 0 {
        return;
      }
      var seen := View(resource);
      var vrfs := FilterOut(seen.vrfs, vpn.VrfNames());
      vrfs := vrfs + vpn.VrfEntries();
      var bgp := FilterOut(seen.bgp, vpn.BgpNames());
      bgp := bgp + vpn.BgpEntries();
      resource := MergePatch(resource, SpecPatch(resource, map[Vrfs := Arr(vrfs)], bgp));
      var rest := Processed(vpn, patches);
      while rest != []
        invariant AssignSteps(resource, rest) == CreateOn(old(resource), vpn, patches)
      {
        Assign(rest[0]);
        rest := rest[1..];
      }
    }

    /** Re-reads the router and sends one JSON patch for one VRF, if there is anything to send. */
    method Assign(vrf: VpnVrf)
      modifies this
      ensures resource == AssignStep(old(resource), vrf)
    {
      AssignStepIs(resource, vrf);
      var ops := BuildOps(View(resource).interfaces, vrf.interfaces, vrf.entry.name);
      if ops != [] {
        resource := JsonPatched(resource, ops).GetOr(resource);
      } else {
        OpsAssign(View(resource).interfaces, vrf.interfaces, vrf.entry.name);
        if HasInterfaces(resource) {
          PutSameInterfaces(resource);
        }
      }
    }

    /** The cleanup of a VPN on this router, in a single merge patch. */
    method Delete(vpn: VpnRouter)
      modifies this
      ensures resource == DeleteOn(old(resource), vpn)
    {
      var seen := View(resource);
      var vrfs := FilterOut(seen.vrfs, vpn.VrfNames());
      var bgp := FilterOut(seen.bgp, vpn.VrfNames());
      var ifaces := CleanInterfaces(seen.interfaces, vpn.Listed());
      resource := MergePatch(resource, SpecPatch(resource, map[Vrfs := Arr(vrfs), Interfaces := Arr(ifaces)], bgp));
    }
  }

  // ---------------------------------------------------------------- the object around the lists

  predicate HasInterfaces(router: Json) {
    Interfaces in SpecOf(router) && SpecOf(router)[Interfaces].Arr?
  }

  predicate HasVrfLists(router: Json) {
    && Vrfs in SpecOf(router) && SpecOf(router)[Vrfs].Arr?
    && Vrfs in BgpOf(router) && BgpOf(router)[Vrfs].Arr?
  }

  lemma PutInterfacesTwice(router: Json, a: seq<Json>, b: seq<Json>)
    ensures PutInterfaces(PutInterfaces(router, a), b) == PutInterfaces(router, b)
    ensures HasInterfaces(PutInterfaces(router, a))
  {
    var after := PutInterfaces(router, a);
    assert SpecOf(after)[Interfaces := Arr(b)] == SpecOf(router)[Interfaces := Arr(b)];
    assert Fields(after)[Spec := Obj(SpecOf(router)[Interfaces := Arr(b)])]
        == Fields(router)[Spec := Obj(SpecOf(router)[Interfaces := Arr(b)])];
  }

  lemma PutSameInterfaces(router: Json)
    requires HasInterfaces(router)
    ensures PutInterfaces(router, View(router).interfaces) == router
  {
    var spec := SpecOf(router);
    assert spec[Interfaces := Arr(View(router).interfaces)] == spec;
    assert Fields(router)[Spec := Obj(spec)] == Fields(router);
  }

  lemma {:induction false} AssignStepsIs(router: Json, vrfs: seq<VpnVrf>)
    ensures AssignSteps(router, vrfs) ==
            if HasInterfaces(router) then PutInterfaces(router, AssignAll(View(router).interfaces, vrfs)) else router
    decreases vrfs
  {
    if vrfs == [] {
      if HasInterfaces(router) {
        PutSameInterfaces(router);
      }
    } else {
      AssignStepIs(router, vrfs[0]);
      AssignStepsIs(AssignStep(router, vrfs[0]), vrfs[1..]);
      if HasInterfaces(router) {
        var next := Assigned(View(router).interfaces, vrfs[0].interfaces, vrfs[0].entry.name);
        ViewOfPutInterfaces(router, next);
        PutInterfacesTwice(router, next, AssignAll(next, vrfs[1..]));
      }
    }
  }

  lemma PutSameVrfs(router: Json)
    requires HasVrfLists(router)
    ensures Put(router, map[Vrfs := Arr(View(router).vrfs)], View(router).bgp) == router
  {
    var spec, protocols, bgp := SpecOf(router), ProtocolsOf(router), BgpOf(router);
    assert Carried(bgp, View(router).bgp) == bgp;
    assert protocols[Bgp := Obj(bgp)] == protocols;
    assert (spec + map[Vrfs := Arr(View(router).vrfs)])[Protocols := Obj(protocols)] == spec;
    assert Fields(router)[Spec := Obj(spec)] == Fields(router);
  }

  /** A creation, whatever it found, leaves both VRF lists present. */
  lemma CreateHasVrfLists(router: Json, vpn: VpnRouter)
    ensures var after := MergePatch(router, CreatePatch(router, vpn)); HasVrfLists(after) && BgpNullFree(after)
  {
    var merged := Merged(View(router), vpn);
    var lists := map[Vrfs := Arr(merged.vrfs)];
    ViewOfPatch(router, lists, merged.bgp);
    MergeSpecPatch(router, lists, merged.bgp);
    MergeCarriedNullFree(BgpOf(router), merged.bgp);
    BgpOfUpdate(router, lists, MergePatch(Obj(BgpOf(router)), Obj(Carried(BgpOf(router), merged.bgp))));
  }

  function CreateWholly(router: Json, vpn: VpnRouter): Json {
    CreateOn(router, vpn, |vpn.vrfs| + 1)
  }

  /** Creating is idempotent on every router object, null members and missing lists included. */
  lemma CreateTwice(router: Json, vpn: VpnRouter)
    ensures CreateWholly(CreateWholly(router, vpn), vpn) == CreateWholly(router, vpn)
  {
    var merged, once := MergePatch(router, CreatePatch(router, vpn)), CreateWholly(router, vpn);
    assert vpn.vrfs[..|vpn.vrfs|] == vpn.vrfs;
    ViewOfCreate(router, vpn, |vpn.vrfs| + 1);
    CreatedTwice(View(router), vpn);
    CreateHasVrfLists(router, vpn);
    AssignStepsIs(merged, vpn.vrfs);
    if HasInterfaces(merged) {
      ViewOfPutInterfaces(merged, AssignAll(View(merged).interfaces, vpn.vrfs));
      PutInterfacesTwice(merged, AssignAll(View(merged).interfaces, vpn.vrfs), []);
    }
    assert HasVrfLists(once) && BgpNullFree(once);
    PatchIsUpdateIff(once, map[Vrfs := Arr(View(once).vrfs)], View(once).bgp);
    PutSameVrfs(once);
    assert MergePatch(once, CreatePatch(once, vpn)) == once;
    AssignStepsIs(once, vpn.vrfs);
    AssignAllTwice(View(merged).interfaces, vpn.vrfs);
    if HasInterfaces(once) {
      PutSameInterfaces(once);
    }
  }

  // ---------------------------------------------------------------- an object with all three lists

  predicate HasLists(router: Json) {
    HasInterfaces(router) && HasVrfLists(router)
  }

  /** The router object with its shared lists replaced. */
  function Rendered(router: Json, r: Router): Json {
    Put(router, map[Vrfs := Arr(r.vrfs), Interfaces := Arr(r.interfaces)], r.bgp)
  }

  lemma ViewOfRendered(router: Json, r: Router)
    ensures View(Rendered(router, r)) == r && HasLists(Rendered(router, r))
    ensures BgpOf(Rendered(router, r)) == Carried(BgpOf(router), r.bgp)
    ensures BgpNullFree(Rendered(router, r)) == BgpNullFree(router)
  {
    var lists := map[Vrfs := Arr(r.vrfs), Interfaces := Arr(r.interfaces)];
    BgpOfUpdate(router, lists, Obj(Carried(BgpOf(router), r.bgp)));
    assert BgpOf(Rendered(router, r)) - {Vrfs} == BgpOf(router) - {Vrfs};
  }

  lemma RenderedTwice(router: Json, a: Router, b: Router)
    ensures Rendered(Rendered(router, a), b) == Rendered(router, b)
  {
    var first := Rendered(router, a);
    var listsA, listsB := map[Vrfs := Arr(a.vrfs), Interfaces := Arr(a.interfaces)], map[Vrfs := Arr(b.vrfs), Interfaces := Arr(b.interfaces)];
    var bgpA, bgpB := Obj(Carried(BgpOf(router), a.bgp)), Obj(Carried(BgpOf(router), b.bgp));
    BgpOfUpdate(router, listsA, bgpA);
    assert Carried(BgpOf(first), b.bgp) == Carried(BgpOf(router), b.bgp);
    assert ProtocolsOf(first)[Bgp := bgpB] == ProtocolsOf(router)[Bgp := bgpB];
    assert (SpecOf(first) + listsB)[Protocols := Obj(ProtocolsOf(router)[Bgp := bgpB])]
        == (SpecOf(router) + listsB)[Protocols := Obj(ProtocolsOf(router)[Bgp := bgpB])];
    var spec := Obj((SpecOf(router) + listsB)[Protocols := Obj(ProtocolsOf(router)[Bgp := bgpB])]);
    assert Fields(first)[Spec := spec] == Fields(router)[Spec := spec];
  }

  lemma RenderedSame(router: Json)
    requires HasLists(router)
    ensures Rendered(router, View(router)) == router
  {
    PutSameVrfs(router);
    var lists := map[Vrfs := Arr(View(router).vrfs), Interfaces := Arr(View(router).interfaces)];
    assert SpecOf(router) + lists == SpecOf(router);
    assert SpecOf(router) + map[Vrfs := Arr(View(router).vrfs)] == SpecOf(router);
  }

  /** On an object with its lists, whose global BGP members hold no null, a creation stopped
      after any number of patches is exactly its effect on the lists. */
  lemma CreateIsRendered(router: Json, vpn: VpnRouter, patches: nat)
    requires HasLists(router) && BgpNullFree(router)
    ensures CreateOn(router, vpn, patches) == Rendered(router, Created(View(router), vpn, patches))
  {
    if patches == 0 {
      RenderedSame(router);
    } else {
      var merged := Merged(View(router), vpn);
      var vrfs := Processed(vpn, patches);
      PatchIsUpdateIff(router, map[Vrfs := Arr(merged.vrfs)], merged.bgp);
      var patched := MergePatch(router, CreatePatch(router, vpn));
      ViewOfPatch(router, map[Vrfs := Arr(merged.vrfs)], merged.bgp);
      BgpOfUpdate(router, map[Vrfs := Arr(merged.vrfs)], Obj(Carried(BgpOf(router), merged.bgp)));
      AssignStepsIs(patched, vrfs);
      InterfacesRendered(router, merged, AssignAll(View(router).interfaces, vrfs));
    }
  }

  lemma InterfacesRendered(router: Json, r: Router, ifaces: seq<Json>)
    ensures PutInterfaces(Put(router, map[Vrfs := Arr(r.vrfs)], r.bgp), ifaces) == Rendered(router, r.(interfaces := ifaces))
  {
    var bgp := Obj(Carried(BgpOf(router), r.bgp));
    var lists := map[Vrfs := Arr(r.vrfs)];
    var put := Put(router, lists, r.bgp);
    BgpOfUpdate(router, lists, bgp);
    var spec := (SpecOf(router) + map[Vrfs := Arr(r.vrfs), Interfaces := Arr(ifaces)])[Protocols := Obj(ProtocolsOf(router)[Bgp := bgp])];
    assert SpecOf(put)[Interfaces := Arr(ifaces)] == spec;
    assert Fields(put)[Spec := Obj(spec)] == Fields(router)[Spec := Obj(spec)];
  }

  lemma DeleteIsRendered(router: Json, vpn: VpnRouter)
    requires BgpNullFree(router)
    ensures DeleteOn(router, vpn) == Rendered(router, Deleted(View(router), vpn))
  {
    var cleaned := Deleted(View(router), vpn);
    PatchIsUpdateIff(router, map[Vrfs := Arr(cleaned.vrfs), Interfaces := Arr(cleaned.interfaces)], cleaned.bgp);
  }

  /** Deleting after a creation gives back the whole router object exactly if and only if the
      global BGP members hold no null, the VPN's BGP names are among its VRF names, and no
      interface it lists had a VRF. */
  lemma DeleteAfterCreateIff(router: Json, vpn: VpnRouter, patches: nat)
    requires HasLists(router) && FreshOn(vpn, View(router)) && patches > 0
    ensures DeleteOn(CreateOn(router, vpn, patches), vpn) == router <==>
            BgpNullFree(router) && vpn.BgpNames() <= vpn.VrfNames() && NoVrfOnListed(vpn, View(router))
  {
    var created := CreateOn(router, vpn, patches);
    ViewOfDelete(created, vpn);
    DeletedAfterCreatedIff(View(router), vpn, patches);
    ViewOfCreate(router, vpn, patches);
    if BgpNullFree(router) {
      var r := Created(View(router), vpn, patches);
      CreateIsRendered(router, vpn, patches);
      ViewOfRendered(router, r);
      DeleteIsRendered(created, vpn);
      RenderedTwice(router, r, Deleted(r, vpn));
      RenderedSame(router);
    }
  }

  // ---------------------------------------------------------------- everything the VPN handlers leave alone

  /** Paths outside the VRF list, the interface list and the BGP settings. */
  predicate Outside(path: seq<Key>) {
    && path != []
    && (path[0] == Spec ==>
          && |path| > 1
          && path[1] != Vrfs
          && path[1] != Interfaces
          && (path[1] == Protocols ==> |path| > 2 && path[2] != Bgp))
  }

  lemma SpecPatchAvoids(router: Json, lists: map<Key, Json>, bgp: seq<Json>, path: seq<Key>)
    requires Outside(path) && lists.Keys <= {Vrfs, Interfaces}
    ensures Avoids(SpecPatch(router, lists, bgp), path)
  {
    if path[0] == Spec && path[1] == Protocols {
      assert path[1..][0] == path[1] && path[1..][1..][0] == path[2];
    } else if path[0] == Spec {
      assert path[1..][0] == path[1];
    }
  }

  lemma PutInterfacesOutside(router: Json, ifaces: seq<Json>, path: seq<Key>)
    requires Outside(path) && HasInterfaces(router)
    ensures At(PutInterfaces(router, ifaces), path) == At(router, path)
  {
    if path[0] == Spec {
      assert path[1..][0] == path[1];
    }
  }

  /** OSPF, MPLS, metadata, status: unchanged by every patch of either handler, with no condition
      on the object. */
  lemma HandlersLeaveAlone(router: Json, vpn: VpnRouter, patches: nat, path: seq<Key>)
    requires Outside(path)
    ensures At(CreateOn(router, vpn, patches), path) == At(router, path)
    ensures At(DeleteOn(router, vpn), path) == At(router, path)
  {
    var merged, cleaned := Merged(View(router), vpn), Deleted(View(router), vpn);
    var deletion := map[Vrfs := Arr(cleaned.vrfs), Interfaces := Arr(cleaned.interfaces)];
    SpecPatchAvoids(router, map[Vrfs := Arr(merged.vrfs)], merged.bgp, path);
    MergeFrame(router, CreatePatch(router, vpn), path);
    SpecPatchAvoids(router, deletion, cleaned.bgp, path);
    MergeFrame(router, DeletePatch(router, vpn), path);
    if patches > 0 {
      var vrfs := Processed(vpn, patches);
      var patched := MergePatch(router, CreatePatch(router, vpn));
      AssignStepsIs(patched, vrfs);
      if HasInterfaces(patched) {
        PutInterfacesOutside(patched, AssignAll(View(patched).interfaces, vrfs), path);
      }
    }
  }

  // ---------------------------------------------------------------- the underlay handlers

  /** What an underlay writes to a router: its protocols and, if it has one, its traffic policy. */
  function UnderlayPatch(protocols: Json, policy: Option<Json>): Json {
    Obj(map[Spec := Obj(UnderlaySpec(protocols, policy))])
  }

  function UnderlaySpec(protocols: Json, policy: Option<Json>): map<Key, Json> {
    if policy.Some? then map[Protocols := protocols, TrafficPolicy := policy.value] else map[Protocols := protocols]
  }

  /** The patch that is meant to clear them on deletion: empty objects. */
  function ClearPatch(hasPolicy: bool): Json {
    UnderlayPatch(Obj(map[]), if hasPolicy then Some(Obj(map[])) else None)
  }

  predicate SpecHoldsObject(router: Json, k: Key) {
    k in SpecOf(router) && SpecOf(router)[k].Obj?
  }

  /** What a patch of these two members leaves in the router's spec. */
  lemma UnderlayMembers(router: Json, protocols: Json, policy: Option<Json>, k: Key)
    ensures var after, patch := MergePatch(router, UnderlayPatch(protocols, policy)), UnderlaySpec(protocols, policy);
            && after == Obj(Fields(router)[Spec := Obj(SpecOf(after))])
            && Get(SpecOf(after), k) ==
               if k !in patch then Get(SpecOf(router), k)
               else if patch[k].Null? then None
               else Some(MergePatch(if k in SpecOf(router) then SpecOf(router)[k] else Null, patch[k]))
  {
    MergeOne(router, Spec, Obj(UnderlaySpec(protocols, policy)));
    MergeAt(Obj(SpecOf(router)), UnderlaySpec(protocols, policy), k);
  }

  /** Clearing leaves the router exactly as it is if and only if the members to clear hold objects
      already: the patch clears nothing. */
  lemma ClearLeavesIff(router: Json, hasPolicy: bool)
    ensures MergePatch(router, ClearPatch(hasPolicy)) == router <==>
            SpecHoldsObject(router, Protocols) && (hasPolicy ==> SpecHoldsObject(router, TrafficPolicy))
  {
    var after := MergePatch(router, ClearPatch(hasPolicy));
    var policy := if hasPolicy then Some(Obj(map[])) else None;
    UnderlayMembers(router, Obj(map[]), policy, Protocols);
    UnderlayMembers(router, Obj(map[]), policy, TrafficPolicy);
    if SpecHoldsObject(router, Protocols) && (hasPolicy ==> SpecHoldsObject(router, TrafficPolicy)) {
      forall k ensures Get(SpecOf(after), k) == Get(SpecOf(router), k) {
        UnderlayMembers(router, Obj(map[]), policy, k);
        if k in SpecOf(router) {
          EmptyObjectPatch(SpecOf(router)[k]);
        }
      }
      SameMembers(SpecOf(after), SpecOf(router));
      assert Fields(router)[Spec := Obj(SpecOf(router))] == Fields(router);
    }
  }

  /** Applying an underlay again, as a retry does, changes nothing, traffic policy included. */
  lemma UnderlayTwice(router: Json, protocols: Json, policy: Option<Json>)
    ensures var patch := UnderlayPatch(protocols, policy);
            MergePatch(MergePatch(router, patch), patch) == MergePatch(router, patch)
  {
    MergeIdempotent(router, UnderlayPatch(protocols, policy));
  }

  /** Deleting an underlay takes back nothing of what applying it wrote if and only if its protocols
      and its traffic policy, if any, are objects. */
  lemma UnderlayDeletionUndoesNothingIff(router: Json, protocols: Json, policy: Option<Json>)
    ensures var applied := MergePatch(router, UnderlayPatch(protocols, policy));
            MergePatch(applied, ClearPatch(policy.Some?)) == applied <==> protocols.Obj? && (policy.Some? ==> policy.value.Obj?)
  {
    UnderlayMembers(router, protocols, policy, Protocols);
    UnderlayMembers(router, protocols, policy, TrafficPolicy);
    ClearLeavesIff(MergePatch(router, UnderlayPatch(protocols, policy)), policy.Some?);
  }
}
