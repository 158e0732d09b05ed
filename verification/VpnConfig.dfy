/** What creating and deleting an L3VPN does to one router object: lists are read, merged or
    filtered by VRF name, and written back with a JSON merge patch (section 2 of RFC 7396) and
    JSON patch "add" operations (section 4.1 of RFC 6902). */
module VpnConfig {
  import opened Common
  import opened Json

  /** A list entry of the VPN spec; its schema requires a name. */
  datatype Named = Named(name: string, rest: map<Key, Json>) {
    function ToJson(): Json {
      Obj(rest[Name := Str(name)])
    }
  }

  datatype VpnVrf = VpnVrf(entry: Named, interfaces: seq<string>)

  /** A VPN's section for one router. */
  datatype VpnRouter = VpnRouter(vrfs: seq<VpnVrf>, bgp: seq<Named>) {
    function VrfNames(): set<string> {
      set i | 0 <= i < |vrfs| :: vrfs[i].entry.name
    }

    function BgpNames(): set<string> {
      set i | 0 <= i < |bgp| :: bgp[i].name
    }

    function Listed(): set<string> {
      set i, j | 0 <= i < |vrfs| && 0 <= j < |vrfs[i].interfaces| :: vrfs[i].interfaces[j]
    }

    function VrfEntries(): (entries: seq<Json>)
      ensures |entries| == |vrfs|
    {
      seq(|vrfs|, i requires 0 <= i < |vrfs| => vrfs[i].entry.ToJson())
    }

    function BgpEntries(): (entries: seq<Json>)
      ensures |entries| == |bgp|
    {
      seq(|bgp|, i requires 0 <= i < |bgp| => bgp[i].ToJson())
    }
  }

  /** The part of a router that VPNs share. */
  datatype Router = Router(vrfs: seq<Json>, bgp: seq<Json>, interfaces: seq<Json>)

  // ---------------------------------------------------------------- intended effect on the lists

  /** v.get('name'). */
  function NameOf(v: Json): Option<string> {
    match Member(v, Name)
    case Some(Str(s)) => Some(s)
    case _ => None
  }

  predicate NameIn(v: Json, names: set<string>) {
    NameOf(v).Some? && NameOf(v).value in names
  }

  /** [v for v in entries if v.get('name') not in names]. */
  function Without(entries: seq<Json>, names: set<string>): (out: seq<Json>)
    ensures |out| <= |entries|
  {
    if entries == [] then []
    else if NameIn(entries[0], names) then Without(entries[1..], names)
    else [entries[0]] + Without(entries[1..], names)
  }

  function Merged(r: Router, vpn: VpnRouter): Router {
    r.(vrfs := Without(r.vrfs, vpn.VrfNames()) + vpn.VrfEntries(),
       bgp := Without(r.bgp, vpn.BgpNames()) + vpn.BgpEntries())
  }

  function SetVrf(iface: Json, vrf: string): Json {
    Obj(Fields(iface)[Vrf := Str(vrf)])
  }

  function DropVrf(iface: Json): Json {
    Obj(Fields(iface) - {Vrf})
  }

  /** The first interface of its name. */
  predicate First(ifaces: seq<Json>, i: nat)
    requires i < |ifaces|
  {
    NameOf(ifaces[i]).Some? && forall k | 0 <= k < i :: NameOf(ifaces[k]) != NameOf(ifaces[i])
  }

  function Assigned(ifaces: seq<Json>, names: seq<string>, vrf: string): (out: seq<Json>)
    ensures |out| == |ifaces|
  {
    seq(|ifaces|, i requires 0 <= i < |ifaces| =>
      if First(ifaces, i) && NameOf(ifaces[i]).value in names then SetVrf(ifaces[i], vrf) else ifaces[i])
  }

  function AssignAll(ifaces: seq<Json>, vrfs: seq<VpnVrf>): (out: seq<Json>)
    ensures |out| == |ifaces|
    decreases vrfs
  {
    if vrfs == [] then ifaces
    else AssignAll(Assigned(ifaces, vrfs[0].interfaces, vrfs[0].entry.name), vrfs[1..])
  }

  function Unassigned(ifaces: seq<Json>, names: set<string>): (out: seq<Json>)
    ensures |out| == |ifaces|
  {
    seq(|ifaces|, i requires 0 <= i < |ifaces| => if NameIn(ifaces[i], names) then DropVrf(ifaces[i]) else ifaces[i])
  }

  /** The VRFs whose interfaces are assigned by the first `patches` patches. */
  function Processed(vpn: VpnRouter, patches: nat): (vrfs: seq<VpnVrf>)
    requires patches > 0
  {
    if patches - 1 < |vpn.vrfs| then vpn.vrfs[..patches - 1] else vpn.vrfs
  }

  /** Creation as far as its first `patches` patches: the merge, then one per VRF in order. */
  function Created(r: Router, vpn: VpnRouter, patches: nat): Router {
    if patches == 0 then r
    else Merged(r, vpn).(interfaces := AssignAll(r.interfaces, Processed(vpn, patches)))
  }

  function Deleted(r: Router, vpn: VpnRouter): Router {
    Router(Without(r.vrfs, vpn.VrfNames()), Without(r.bgp, vpn.VrfNames()), Unassigned(r.interfaces, vpn.Listed()))
  }

  // ---------------------------------------------------------------- the patches that are sent

  /** x or {}, for a member the schema types as an object. */
  function ObjectOf(o: Option<Json>): map<Key, Json> {
    if o.Some? then Fields(o.value) else map[]
  }

  /** x or [], for a member the schema types as an array. */
  function ListOf(o: Option<Json>): seq<Json> {
    if o.Some? && o.value.Arr? then o.value.items else []
  }

  function SpecOf(router: Json): map<Key, Json> {
    ObjectOf(Member(router, Spec))
  }

  function ProtocolsOf(router: Json): map<Key, Json> {
    ObjectOf(Get(SpecOf(router), Protocols))
  }

  function BgpOf(router: Json): map<Key, Json> {
    ObjectOf(Get(ProtocolsOf(router), Bgp))
  }

  function View(router: Json): Router {
    Router(ListOf(Get(SpecOf(router), Vrfs)), ListOf(Get(BgpOf(router), Vrfs)), ListOf(Get(SpecOf(router), Interfaces)))
  }

  /** Writing back all members of an object with one list replaced. */
  function Carried(members: map<Key, Json>, entries: seq<Json>): map<Key, Json> {
    members[Vrfs := Arr(entries)]
  }

  /** A merge patch of the spec: some lists, and the BGP members with their VRF list replaced. */
  function SpecPatch(router: Json, lists: map<Key, Json>, bgp: seq<Json>): Json {
    Obj(map[Spec := Obj(lists[Protocols := Obj(map[Bgp := Obj(Carried(BgpOf(router), bgp))])])])
  }

  function CreatePatch(router: Json, vpn: VpnRouter): Json {
    var merged := Merged(View(router), vpn);
    SpecPatch(router, map[Vrfs := Arr(merged.vrfs)], merged.bgp)
  }

  function DeletePatch(router: Json, vpn: VpnRouter): Json {
    var cleaned := Deleted(View(router), vpn);
    SpecPatch(router, map[Vrfs := Arr(cleaned.vrfs), Interfaces := Arr(cleaned.interfaces)], cleaned.bgp)
  }

  /** {'op': 'add', 'path': '/spec/interfaces/{index}/vrf', 'value': vrf} */
  datatype Add = Add(index: nat, vrf: string)

  /** The operations of one JSON patch in order; one that has no target fails the whole patch. */
  function ApplyAdds(ifaces: seq<Json>, ops: seq<Add>): Option<seq<Json>>
    decreases |ops|
  {
    if ops == [] then Some(ifaces)
    else if ops[0].index >= |ifaces| || !ifaces[ops[0].index].Obj? then None
    else ApplyAdds(ifaces[ops[0].index := SetVrf(ifaces[ops[0].index], ops[0].vrf)], ops[1..])
  }

  function PutInterfaces(router: Json, ifaces: seq<Json>): Json {
    Obj(Fields(router)[Spec := Obj(SpecOf(router)[Interfaces := Arr(ifaces)])])
  }

  /** What the API server makes of a JSON patch on the interface list. */
  function JsonPatched(router: Json, ops: seq<Add>): Option<Json> {
    var found := Get(SpecOf(router), Interfaces);
    if found.None? || !found.value.Arr? then (if ops == [] then Some(router) else None)
    else
      match ApplyAdds(found.value.items, ops)
      case Some(after) => Some(PutInterfaces(router, after))
      case None => None
  }

  function IndexOf(ifaces: seq<Json>, name: string): (i: Option<nat>)
    ensures i.Some? ==> i.value < |ifaces| && First(ifaces, i.value) && NameOf(ifaces[i.value]) == Some(name)
    ensures i.None? ==> forall k | 0 <= k < |ifaces| :: NameOf(ifaces[k]) != Some(name)
  {
    IndexFrom(ifaces, name, 0)
  }

  function IndexFrom(ifaces: seq<Json>, name: string, from: nat): (i: Option<nat>)
    requires from <= |ifaces|
    requires forall k | 0 <= k < from :: NameOf(ifaces[k]) != Some(name)
    ensures i.Some? ==> i.value < |ifaces| && First(ifaces, i.value) && NameOf(ifaces[i.value]) == Some(name)
    ensures i.None? ==> forall k | 0 <= k < |ifaces| :: NameOf(ifaces[k]) != Some(name)
    decreases |ifaces| - from
  {
    if from == |ifaces| then None
    else if NameOf(ifaces[from]) == Some(name) then Some(from)
    else IndexFrom(ifaces, name, from + 1)
  }

  function OpFor(ifaces: seq<Json>, name: string, vrf: string): seq<Add> {
    match IndexOf(ifaces, name)
    case Some(i) => [Add(i, vrf)]
    case None => []
  }

  /** One operation per listed interface that exists, aimed at the first of that name. */
  function Ops(ifaces: seq<Json>, names: seq<string>, vrf: string): seq<Add> {
    if names == [] then [] else OpFor(ifaces, names[0], vrf) + Ops(ifaces, names[1..], vrf)
  }

  // ---------------------------------------------------------------- the patches do what is intended

  function WithBgp(router: Json, lists: map<Key, Json>, bgp: Json): Json {
    Obj(Fields(router)[Spec := Obj((SpecOf(router) + lists)[Protocols := Obj(ProtocolsOf(router)[Bgp := bgp])])])
  }

  /** The record update a handler intends: some lists replaced, everything else as it was. */
  function Put(router: Json, lists: map<Key, Json>, bgp: seq<Json>): Json {
    WithBgp(router, lists, Obj(Carried(BgpOf(router), bgp)))
  }

  /** The global BGP members, which the patch carries along, contain no null. */
  predicate BgpNullFree(router: Json) {
    NullFree(Obj(BgpOf(router) - {Vrfs}))
  }

  /** The carried-along members survive the merge if and only if they contain no null. */
  lemma MergeCarriedIff(members: map<Key, Json>, entries: seq<Json>)
    ensures MergePatch(Obj(members), Obj(Carried(members, entries))) == Obj(Carried(members, entries)) <==>
            NullFree(Obj(members - {Vrfs}))
  {
    var after := MergePatch(Obj(members), Obj(Carried(members, entries))).fields;
    var rest := members - {Vrfs};
    forall k ensures Get(after, k) == Get(Carried(members, entries), k) <==>
                     (k in rest ==> !rest[k].Null? && NullFree(rest[k]))
    {
      MergeAt(Obj(members), Carried(members, entries), k);
      if k in rest {
        MergeSelfIff(members[k]);
      }
    }
    if NullFree(Obj(rest)) {
      SameMembers(after, Carried(members, entries));
    } else {
      var k :| k in rest && (rest[k].Null? || !NullFree(rest[k]));
      assert Get(after, k) != Get(Carried(members, entries), k);
    }
  }

  lemma MergeCarriedNullFree(members: map<Key, Json>, entries: seq<Json>)
    ensures NullFree(MergePatch(Obj(members), Obj(Carried(members, entries))))
    ensures Get(Fields(MergePatch(Obj(members), Obj(Carried(members, entries)))), Vrfs) == Some(Arr(entries))
  {
    var after := MergePatch(Obj(members), Obj(Carried(members, entries))).fields;
    MergeAt(Obj(members), Carried(members, entries), Vrfs);
    forall k | k in after ensures !after[k].Null? && NullFree(after[k]) {
      MergeAt(Obj(members), Carried(members, entries), k);
      assert Get(after, k) == Some(after[k]);
      if k != Vrfs && members[k].Obj? {
        MergeSelfNullFree(members[k]);
      }
    }
  }

  /** Merging an object sees only the members of its target. */
  lemma MergeObject(target: Json, patch: Json)
    requires patch.Obj?
    ensures MergePatch(target, patch) == MergePatch(Obj(Fields(target)), patch)
  {
    assert MergePatch(target, patch).fields == MergePatch(Obj(Fields(target)), patch).fields;
  }

  /** A patch with one member updates that member. */
  lemma MergeOne(target: Json, k: Key, patch: Json)
    requires patch.Obj?
    ensures MergePatch(target, Obj(map[k := patch])) ==
            Obj(Fields(target)[k := MergePatch(Obj(ObjectOf(Member(target, k))), patch)])
  {
    var child := if k in Fields(target) then Fields(target)[k] else Null;
    var after := MergePatch(target, Obj(map[k := patch])).fields;
    MergeObject(child, patch);
    forall q ensures Get(after, q) == Get(Fields(target)[k := MergePatch(child, patch)], q) {
      MergeAt(target, map[k := patch], q);
    }
    SameMembers(after, Fields(target)[k := MergePatch(child, patch)]);
  }

  /** Replacing lists next to a patch of the protocols. */
  lemma MergeSpec(spec: map<Key, Json>, lists: map<Key, Json>, protocols: Json)
    requires protocols.Obj? && Protocols !in lists && forall k | k in lists :: lists[k].Arr?
    ensures MergePatch(Obj(spec), Obj(lists[Protocols := protocols])) ==
            Obj((spec + lists)[Protocols := MergePatch(Obj(ObjectOf(Get(spec, Protocols))), protocols)])
  {
    var patch := lists[Protocols := protocols];
    var after := MergePatch(Obj(spec), Obj(patch)).fields;
    var want := (spec + lists)[Protocols := MergePatch(Obj(ObjectOf(Get(spec, Protocols))), protocols)];
    MergeObject(if Protocols in spec then spec[Protocols] else Null, protocols);
    forall k ensures Get(after, k) == Get(want, k) {
      MergeAt(Obj(spec), patch, k);
    }
    SameMembers(after, want);
  }

  predicate SpecLists(lists: map<Key, Json>) {
    Protocols !in lists && forall k | k in lists :: lists[k].Arr?
  }

  lemma MergeSpecPatch(router: Json, lists: map<Key, Json>, bgp: seq<Json>)
    requires SpecLists(lists)
    ensures MergePatch(router, SpecPatch(router, lists, bgp)) ==
            WithBgp(router, lists, MergePatch(Obj(BgpOf(router)), Obj(Carried(BgpOf(router), bgp))))
  {
    var patch := Obj(Carried(BgpOf(router), bgp));
    MergeOne(Obj(ProtocolsOf(router)), Bgp, patch);
    MergeSpec(SpecOf(router), lists, Obj(map[Bgp := patch]));
    MergeOne(router, Spec, Obj(lists[Protocols := Obj(map[Bgp := patch])]));
  }

  /** The read-merge-write patch is the intended record update if and only if the carried-along
      BGP members contain no null. */
  lemma PatchIsUpdateIff(router: Json, lists: map<Key, Json>, bgp: seq<Json>)
    requires SpecLists(lists)
    ensures MergePatch(router, SpecPatch(router, lists, bgp)) == Put(router, lists, bgp) <==> BgpNullFree(router)
  {
    MergeSpecPatch(router, lists, bgp);
    MergeCarriedIff(BgpOf(router), bgp);
    var merged := MergePatch(Obj(BgpOf(router)), Obj(Carried(BgpOf(router), bgp)));
    BgpOfUpdate(router, lists, merged);
    BgpOfUpdate(router, lists, Obj(Carried(BgpOf(router), bgp)));
  }

  lemma BgpOfUpdate(router: Json, lists: map<Key, Json>, bgp: Json)
    requires SpecLists(lists)
    ensures SpecOf(WithBgp(router, lists, bgp)) == (SpecOf(router) + lists)[Protocols := Obj(ProtocolsOf(router)[Bgp := bgp])]
    ensures ProtocolsOf(WithBgp(router, lists, bgp)) == ProtocolsOf(router)[Bgp := bgp]
    ensures BgpOf(WithBgp(router, lists, bgp)) == Fields(bgp)
    ensures Get(ProtocolsOf(WithBgp(router, lists, bgp)), Bgp) == Some(bgp)
  {
  }

  /** Whatever the members around them, the lists come out as intended. */
  lemma ViewOfPatch(router: Json, lists: map<Key, Json>, bgp: seq<Json>)
    requires SpecLists(lists)
    ensures var after := MergePatch(router, SpecPatch(router, lists, bgp));
            && BgpNullFree(after)
            && View(after).bgp == bgp
            && View(after).vrfs == (if Vrfs in lists then lists[Vrfs].items else View(router).vrfs)
            && View(after).interfaces == (if Interfaces in lists then lists[Interfaces].items else View(router).interfaces)
  {
    MergeSpecPatch(router, lists, bgp);
    var merged := MergePatch(Obj(BgpOf(router)), Obj(Carried(BgpOf(router), bgp)));
    MergeCarriedNullFree(BgpOf(router), bgp);
    BgpOfUpdate(router, lists, merged);
    assert forall k | k in merged.fields && k != Vrfs :: (merged.fields - {Vrfs})[k] == merged.fields[k];
  }

  // ---------------------------------------------------------------- filtering by name

  lemma {:induction false} WithoutAppend(a: seq<Json>, b: seq<Json>, names: set<string>)
    ensures Without(a + b, names) == Without(a, names) + Without(b, names)
  {
    if a == [] {
      assert a + b == b;
    } else {
      assert (a + b)[1..] == a[1..] + b;
      WithoutAppend(a[1..], b, names);
    }
  }

  lemma {:induction false} WithoutTwice(entries: seq<Json>, names: set<string>)
    ensures Without(Without(entries, names), names) == Without(entries, names)
  {
    if entries != [] {
      WithoutTwice(entries[1..], names);
      var kept := Without(entries[1..], names);
      if !NameIn(entries[0], names) {
        assert ([entries[0]] + kept)[1..] == kept;
      } else {
        assert Without(entries, names) == kept;
      }
    }
  }

  /** Filtering keeps a list whole if and only if it names none of the names. */
  lemma {:induction false} WithoutAllIff(entries: seq<Json>, names: set<string>)
    ensures Without(entries, names) == entries <==> forall i :: 0 <= i < |entries| ==> !NameIn(entries[i], names)
  {
    if entries != [] {
      WithoutAllIff(entries[1..], names);
      assert entries == [entries[0]] + entries[1..];
      if NameIn(entries[0], names) {
        assert |Without(entries, names)| < |entries|;
      } else {
        assert Without(entries, names)[1..] == Without(entries[1..], names);
        assert forall i :: 0 < i < |entries| ==> entries[i] == entries[1..][i - 1];
        assert forall i :: 0 <= i < |entries[1..]| ==> entries[1..][i] == entries[i + 1];
      }
    }
  }

  lemma {:induction false} WithoutNone(entries: seq<Json>, names: set<string>)
    requires forall i :: 0 <= i < |entries| ==> NameIn(entries[i], names)
    ensures Without(entries, names) == []
  {
    if entries != [] {
      WithoutNone(entries[1..], names);
    }
  }

  /** Filtering removes everything if and only if everything is named. */
  lemma {:induction false} WithoutNothingIff(entries: seq<Json>, names: set<string>)
    ensures Without(entries, names) == [] <==> forall i :: 0 <= i < |entries| ==> NameIn(entries[i], names)
  {
    if entries != [] {
      WithoutNothingIff(entries[1..], names);
      assert forall i :: 0 < i < |entries| ==> entries[i] == entries[1..][i - 1];
      assert forall i :: 0 <= i < |entries[1..]| ==> entries[1..][i] == entries[i + 1];
    }
  }

  lemma NameOfNamed(n: Named)
    ensures NameOf(n.ToJson()) == Some(n.name)
  {
  }

  lemma OwnEntries(vpn: VpnRouter, names: set<string>)
    ensures (forall i :: 0 <= i < |vpn.vrfs| ==> NameIn(vpn.VrfEntries()[i], names)) <==> vpn.VrfNames() <= names
    ensures (forall i :: 0 <= i < |vpn.bgp| ==> NameIn(vpn.BgpEntries()[i], names)) <==> vpn.BgpNames() <= names
  {
    forall i | 0 <= i < |vpn.vrfs| ensures NameIn(vpn.VrfEntries()[i], names) <==> vpn.vrfs[i].entry.name in names {
      NameOfNamed(vpn.vrfs[i].entry);
    }
    forall i | 0 <= i < |vpn.bgp| ensures NameIn(vpn.BgpEntries()[i], names) <==> vpn.bgp[i].name in names {
      NameOfNamed(vpn.bgp[i]);
    }
  }

  // ---------------------------------------------------------------- assigning interfaces

  /** The VRF an interface ends up in when the VRFs are processed in order. */
  function LastVrf(vrfs: seq<VpnVrf>, name: string): Option<string> {
    if vrfs == [] then None
    else if LastVrf(vrfs[1..], name).Some? then LastVrf(vrfs[1..], name)
    else if name in vrfs[0].interfaces then Some(vrfs[0].entry.name)
    else None
  }

  lemma NameOfSetVrf(iface: Json, vrf: string)
    ensures NameOf(SetVrf(iface, vrf)) == NameOf(iface)
  {
  }

  lemma AssignedNames(ifaces: seq<Json>, names: seq<string>, vrf: string, i: nat)
    requires i < |ifaces|
    ensures NameOf(Assigned(ifaces, names, vrf)[i]) == NameOf(ifaces[i])
    ensures First(Assigned(ifaces, names, vrf), i) == First(ifaces, i)
  {
    forall k | 0 <= k < |ifaces| ensures NameOf(Assigned(ifaces, names, vrf)[k]) == NameOf(ifaces[k]) {
      NameOfSetVrf(ifaces[k], vrf);
    }
  }

  /** Only the first interface of a listed name changes, and only in its VRF. */
  lemma {:induction false} AssignAllAt(ifaces: seq<Json>, vrfs: seq<VpnVrf>, i: nat)
    requires i < |ifaces|
    ensures AssignAll(ifaces, vrfs)[i] ==
            (if First(ifaces, i) && LastVrf(vrfs, NameOf(ifaces[i]).value).Some?
             then SetVrf(ifaces[i], LastVrf(vrfs, NameOf(ifaces[i]).value).value) else ifaces[i])
    decreases vrfs
  {
    if vrfs != [] {
      var next := Assigned(ifaces, vrfs[0].interfaces, vrfs[0].entry.name);
      AssignedNames(ifaces, vrfs[0].interfaces, vrfs[0].entry.name, i);
      AssignAllAt(next, vrfs[1..], i);
      SetVrfTwice(ifaces[i]);
    }
  }

  lemma SetVrfTwice(iface: Json)
    ensures forall a, b :: SetVrf(SetVrf(iface, a), b) == SetVrf(iface, b)
    ensures forall a :: DropVrf(SetVrf(iface, a)) == DropVrf(iface)
  {
    forall a, b ensures SetVrf(SetVrf(iface, a), b) == SetVrf(iface, b) {
      assert Fields(iface)[Vrf := Str(a)][Vrf := Str(b)] == Fields(iface)[Vrf := Str(b)];
    }
    forall a ensures DropVrf(SetVrf(iface, a)) == DropVrf(iface) {
      assert Fields(iface)[Vrf := Str(a)] - {Vrf} == Fields(iface) - {Vrf};
    }
  }

  lemma AssignAllNames(ifaces: seq<Json>, vrfs: seq<VpnVrf>, i: nat)
    requires i < |ifaces|
    ensures NameOf(AssignAll(ifaces, vrfs)[i]) == NameOf(ifaces[i])
    ensures First(AssignAll(ifaces, vrfs), i) == First(ifaces, i)
  {
    forall k | 0 <= k < |ifaces| ensures NameOf(AssignAll(ifaces, vrfs)[k]) == NameOf(ifaces[k]) {
      AssignAllAt(ifaces, vrfs, k);
      if First(ifaces, k) && LastVrf(vrfs, NameOf(ifaces[k]).value).Some? {
        NameOfSetVrf(ifaces[k], LastVrf(vrfs, NameOf(ifaces[k]).value).value);
      }
    }
  }

  lemma AssignAllTwice(ifaces: seq<Json>, vrfs: seq<VpnVrf>)
    ensures AssignAll(AssignAll(ifaces, vrfs), vrfs) == AssignAll(ifaces, vrfs)
  {
    var once := AssignAll(ifaces, vrfs);
    forall i | 0 <= i < |ifaces| ensures AssignAll(once, vrfs)[i] == once[i] {
      AssignAllAt(ifaces, vrfs, i);
      AssignAllAt(once, vrfs, i);
      AssignAllNames(ifaces, vrfs, i);
      SetVrfTwice(ifaces[i]);
    }
  }

  lemma {:induction false} LastVrfListed(vrfs: seq<VpnVrf>, name: string) returns (j: nat)
    requires LastVrf(vrfs, name).Some?
    ensures j < |vrfs| && name in vrfs[j].interfaces && LastVrf(vrfs, name) == Some(vrfs[j].entry.name)
  {
    if LastVrf(vrfs[1..], name).Some? {
      j := LastVrfListed(vrfs[1..], name);
      j := j + 1;
    } else {
      j := 0;
    }
  }

  /** Removing the VRFs of a VPN's interfaces after assigning some of them gives back the
      interfaces if and only if none of the listed ones had a VRF. */
  lemma UnassignedIff(ifaces: seq<Json>, vpn: VpnRouter, n: nat)
    requires n <= |vpn.vrfs|
    ensures Unassigned(AssignAll(ifaces, vpn.vrfs[..n]), vpn.Listed()) == ifaces <==>
            forall i :: 0 <= i < |ifaces| && NameIn(ifaces[i], vpn.Listed()) ==> Vrf !in Fields(ifaces[i])
  {
    var after := Unassigned(AssignAll(ifaces, vpn.vrfs[..n]), vpn.Listed());
    forall i | 0 <= i < |ifaces|
      ensures after[i] == ifaces[i] <==> (NameIn(ifaces[i], vpn.Listed()) ==> Vrf !in Fields(ifaces[i]))
    {
      AssignAllAt(ifaces, vpn.vrfs[..n], i);
      AssignAllNames(ifaces, vpn.vrfs[..n], i);
      SetVrfTwice(ifaces[i]);
      if First(ifaces, i) && LastVrf(vpn.vrfs[..n], NameOf(ifaces[i]).value).Some? {
        var j := LastVrfListed(vpn.vrfs[..n], NameOf(ifaces[i]).value);
        assert vpn.vrfs[..n][j] == vpn.vrfs[j];
      }
      if NameIn(ifaces[i], vpn.Listed()) {
        assert ifaces[i].Obj?;
        assert Vrf !in Fields(ifaces[i]) ==> ifaces[i].fields - {Vrf} == ifaces[i].fields;
      }
    }
    assert after == ifaces <==> forall i :: 0 <= i < |ifaces| ==> after[i] == ifaces[i];
  }

  // ---------------------------------------------------------------- create and delete on the lists

  lemma FilteredOnce(entries: seq<Json>, own: seq<Json>, names: set<string>)
    requires forall i :: 0 <= i < |own| ==> NameIn(own[i], names)
    ensures Without(Without(entries, names) + own, names) == Without(entries, names)
  {
    WithoutAppend(Without(entries, names), own, names);
    WithoutTwice(entries, names);
    WithoutNone(own, names);
  }

  lemma MergedTwice(r: Router, vpn: VpnRouter)
    ensures Merged(Merged(r, vpn), vpn) == Merged(r, vpn)
  {
    OwnEntries(vpn, vpn.VrfNames());
    OwnEntries(vpn, vpn.BgpNames());
    FilteredOnce(r.vrfs, vpn.VrfEntries(), vpn.VrfNames());
    FilteredOnce(r.bgp, vpn.BgpEntries(), vpn.BgpNames());
  }

  function WhollyCreated(r: Router, vpn: VpnRouter): Router {
    Created(r, vpn, |vpn.vrfs| + 1)
  }

  /** Creating again, as a retry does, changes nothing. */
  lemma CreatedTwice(r: Router, vpn: VpnRouter)
    ensures WhollyCreated(WhollyCreated(r, vpn), vpn) == WhollyCreated(r, vpn)
    ensures Merged(WhollyCreated(r, vpn), vpn) == WhollyCreated(r, vpn)
  {
    MergedTwice(r, vpn);
    AssignAllTwice(r.interfaces, vpn.vrfs);
    assert vpn.vrfs[..|vpn.vrfs|] == vpn.vrfs;
  }

  /** No VRF or BGP entry on the router carries one of the VPN's names. */
  predicate FreshOn(vpn: VpnRouter, r: Router) {
    && (forall i | 0 <= i < |r.vrfs| :: !NameIn(r.vrfs[i], vpn.VrfNames()))
    && (forall i | 0 <= i < |r.bgp| :: !NameIn(r.bgp[i], vpn.VrfNames() + vpn.BgpNames()))
  }

  predicate NoVrfOnListed(vpn: VpnRouter, r: Router) {
    forall i | 0 <= i < |r.interfaces| && NameIn(r.interfaces[i], vpn.Listed()) :: Vrf !in Fields(r.interfaces[i])
  }

  /** Deleting after a creation that got as far as its merge gives back the lists exactly, order
      included, if and only if every BGP entry of the VPN is named like one of its VRFs and no
      interface it lists had a VRF. */
  lemma DeletedAfterCreatedIff(r: Router, vpn: VpnRouter, patches: nat)
    requires FreshOn(vpn, r) && patches > 0
    ensures Deleted(Created(r, vpn, patches), vpn) == r <==> vpn.BgpNames() <= vpn.VrfNames() && NoVrfOnListed(vpn, r)
  {
    var names := vpn.VrfNames();
    OwnEntries(vpn, names);
    WithoutAllIff(r.vrfs, names);
    WithoutAllIff(r.bgp, names);
    WithoutAllIff(r.bgp, vpn.BgpNames());
    WithoutAppend(r.vrfs, vpn.VrfEntries(), names);
    WithoutAppend(r.bgp, vpn.BgpEntries(), names);
    WithoutNone(vpn.VrfEntries(), names);
    WithoutNothingIff(vpn.BgpEntries(), names);
    var n := if patches - 1 < |vpn.vrfs| then patches - 1 else |vpn.vrfs|;
    assert vpn.vrfs[..|vpn.vrfs|] == vpn.vrfs;
    UnassignedIff(r.interfaces, vpn, n);
    var left := Without(vpn.BgpEntries(), names);
    assert r.bgp + left == r.bgp <==> left == [] by {
      assert |r.bgp + left| == |r.bgp| + |left|;
    }
  }
}
