/** Operator-mode fault injection: each fault overwrites a value in a custom resource and keeps
    the original; restoring writes it back. A handler first fetches the resource and later patches
    the whole list it read, so two handlers can lose each other's update. */
module FaultInjection {
  import opened Common

  // ---------------------------------------------------------------- the resources

  /** `attached` pairs routers with their interfaces on this network. */
  datatype Network = Network(name: string, attached: seq<(string, string)>, mtu: Option<int>)

  /** A VRF entry of an L3VPN router: its neighbors, or its imported route targets. */
  datatype Entry = Entry(name: string, values: Option<seq<string>>)

  datatype VpnRouter = VpnRouter(name: string, bgp: seq<Entry>, vrfs: seq<Entry>)

  /** `rest` stands for the other members of the area. */
  datatype Area = Area(area: string, kind: string, rest: string)

  datatype Cost = Cost(iface: string, cost: Option<int>)

  datatype Ospf = Ospf(areas: seq<Area>, costs: seq<Cost>)

  /** `ospf` is None when spec.protocols.ospf is missing. */
  datatype UnderlayRouter = UnderlayRouter(name: string, ospf: Option<Ospf>, policy: Option<string>)

  /** The lists of the three custom resources. */
  datatype Crds = Crds(networks: seq<Network>, vpn: seq<VpnRouter>, underlay: seq<UnderlayRouter>)

  // ---------------------------------------------------------------- the first of a name

  function IndexOf(names: seq<string>, n: string): (i: Option<nat>)
    ensures i.Some? ==> i.value < |names| && names[i.value] == n && forall k | 0 <= k < i.value :: names[k] != n
    ensures i.None? ==> forall k | 0 <= k < |names| :: names[k] != n
  {
    if names == [] then None
    else if names[0] == n then Some(0)
    else
      match IndexOf(names[1..], n)
      case None => None
      case Some(i) => Some(i + 1)
  }

  function NamesOf<T>(xs: seq<T>, name: T -> string): (names: seq<string>)
    ensures |names| == |xs|
  {
    seq(|xs|, i requires 0 <= i < |xs| => name(xs[i]))
  }

  function EntryNames(es: seq<Entry>): seq<string> { NamesOf(es, (e: Entry) => e.name) }
  function VpnNames(routers: seq<VpnRouter>): seq<string> { NamesOf(routers, (r: VpnRouter) => r.name) }
  function UnderlayNames(routers: seq<UnderlayRouter>): seq<string> { NamesOf(routers, (r: UnderlayRouter) => r.name) }

  // ---------------------------------------------------------------- slots: what one fault overwrites

  datatype Which = Neighbors | Imports

  /** Routers are told apart by their place in the list, so two of one name have slots of their own. */
  datatype Slot =
    | Mtus(network: string)
    | Values(which: Which, router: nat, vrf: string)
    | Policy(router: nat)
    | Areas(router: nat)
    | CostOf(router: nat, iface: string)

  datatype Value = Absent | MtusAre(mtus: seq<int>) | ValuesAre(values: seq<string>) | PolicyIs(policy: Option<string>)
                 | AreasAre(areas: seq<Area>) | CostIs(cost: int)

  /** The MTUs of the networks of that name; an absent MTU is 1500. */
  function MtusOf(networks: seq<Network>, name: string): seq<int> {
    if networks == [] then []
    else if networks[0].name == name then [networks[0].mtu.GetOr(1500)] + MtusOf(networks[1..], name)
    else MtusOf(networks[1..], name)
  }

  function Entries(r: VpnRouter, which: Which): seq<Entry> {
    if which.Neighbors? then r.bgp else r.vrfs
  }

  function WithEntries(r: VpnRouter, which: Which, es: seq<Entry>): VpnRouter {
    if which.Neighbors? then r.(bgp := es) else r.(vrfs := es)
  }

  /** The values under the first entry of that VRF. */
  function ValuesIn(r: VpnRouter, which: Which, vrf: string): Option<seq<string>> {
    var es := Entries(r, which);
    match IndexOf(EntryNames(es), vrf)
    case None => None
    case Some(e) => Some(es[e].values.GetOr([]))
  }

  function OspfOf(r: UnderlayRouter): Ospf {
    r.ospf.GetOr(Ospf([], []))
  }

  /** The cost in force: the first entry of the interface, 1 by default. */
  function CostIn(costs: seq<Cost>, iface: string): int {
    if costs == [] then 1
    else if costs[0].iface == iface then costs[0].cost.GetOr(1)
    else CostIn(costs[1..], iface)
  }

  /** The effective configuration, slot by slot. */
  function Read(w: Crds, s: Slot): Value {
    match s
    case Mtus(n) => MtusAre(MtusOf(w.networks, n))
    case Values(which, k, vrf) =>
      if k < |w.vpn| && ValuesIn(w.vpn[k], which, vrf).Some? then ValuesAre(ValuesIn(w.vpn[k], which, vrf).value) else Absent
    case Policy(k) => if k < |w.underlay| then PolicyIs(w.underlay[k].policy) else Absent
    case Areas(k) => if k < |w.underlay| then AreasAre(OspfOf(w.underlay[k]).areas) else Absent
    case CostOf(k, iface) => if k < |w.underlay| then CostIs(CostIn(OspfOf(w.underlay[k]).costs, iface)) else Absent
  }

  // ---------------------------------------------------------------- writing a slot

  function SetMtu(networks: seq<Network>, name: string, mtu: Option<int>): (out: seq<Network>)
    ensures |out| == |networks|
  {
    seq(|networks|, i requires 0 <= i < |networks| =>
      if networks[i].name == name then networks[i].(mtu := mtu) else networks[i])
  }

  function PutMtus(w: Crds, name: string, mtu: Option<int>): Crds {
    w.(networks := SetMtu(w.networks, name, mtu))
  }

  /** Writes to the first entry of the VRF; without one nothing is written. */
  function Overwritten(r: VpnRouter, which: Which, vrf: string, values: seq<string>): VpnRouter {
    var es := Entries(r, which);
    match IndexOf(EntryNames(es), vrf)
    case None => r
    case Some(k) => WithEntries(r, which, es[k := Entry(es[k].name, Some(values))])
  }

  function PutValues(w: Crds, which: Which, k: nat, vrf: string, values: seq<string>): Crds
    requires k < |w.vpn|
  {
    w.(vpn := w.vpn[k := Overwritten(w.vpn[k], which, vrf, values)])
  }

  function PutPolicy(w: Crds, k: nat, policy: Option<string>): Crds
    requires k < |w.underlay|
  {
    w.(underlay := w.underlay[k := w.underlay[k].(policy := policy)])
  }

  function PutAreas(w: Crds, k: nat, areas: seq<Area>): Crds
    requires k < |w.underlay|
  {
    w.(underlay := w.underlay[k := w.underlay[k].(ospf := Some(OspfOf(w.underlay[k]).(areas := areas)))])
  }

  /** Drops the interface's entries and appends one, unless the cost is to be left out. */
  function CostsWith(costs: seq<Cost>, iface: string, cost: Option<int>): seq<Cost> {
    DropCosts(costs, iface) + (if cost.Some? then [Cost(iface, cost)] else [])
  }

  function DropCosts(costs: seq<Cost>, iface: string): seq<Cost> {
    if costs == [] then []
    else if costs[0].iface == iface then DropCosts(costs[1..], iface)
    else [costs[0]] + DropCosts(costs[1..], iface)
  }

  function PutCost(w: Crds, k: nat, iface: string, cost: Option<int>): Crds
    requires k < |w.underlay|
  {
    var ospf := OspfOf(w.underlay[k]);
    w.(underlay := w.underlay[k := w.underlay[k].(ospf := Some(ospf.(costs := CostsWith(ospf.costs, iface, cost))))])
  }

  // ---------------------------------------------------------------- faults

  datatype Fault =
    | MtuMismatch(router: string, iface: string, mtu: int)
    | BgpSessionDown(router: string, vrf: string)
    | PacketCorruption(router: string, policy: string)
    | OspfAreaMismatch(router: string, wrong: string, correct: string)
    | OspfCostInflation(router: string, iface: string, cost: int)
    | VrfRtMisconfiguration(router: string, vrf: string, wrongRt: string, correctRt: string)

  datatype Saved =
    | SavedMtu(network: string, mtu: int)
    | SavedValues(values: seq<string>)
    | SavedPolicy(policy: Option<string>)
    | SavedAreas
    | SavedCost(cost: int)

  /** The first network on which the router uses the interface. */
  function TargetNetwork(networks: seq<Network>, router: string, iface: string): Option<Network> {
    if networks == [] then None
    else if (router, iface) in networks[0].attached then Some(networks[0])
    else TargetNetwork(networks[1..], router, iface)
  }

  predicate HasVrf(r: VpnRouter, which: Which, router: string, vrf: string) {
    r.name == router && ValuesIn(r, which, vrf).Some?
  }

  /** Injection looks for the first router of that name which has the VRF. */
  function TargetRouter(routers: seq<VpnRouter>, which: Which, router: string, vrf: string): (i: Option<nat>)
    ensures i.Some? ==> i.value < |routers| && HasVrf(routers[i.value], which, router, vrf)
                        && forall k | 0 <= k < i.value :: !HasVrf(routers[k], which, router, vrf)
    ensures i.None? ==> forall k | 0 <= k < |routers| :: !HasVrf(routers[k], which, router, vrf)
  {
    if routers == [] then None
    else if HasVrf(routers[0], which, router, vrf) then Some(0)
    else
      match TargetRouter(routers[1..], which, router, vrf)
      case None => None
      case Some(i) => Some(i + 1)
  }

  function FirstVpn(w: Crds, router: string): (i: Option<nat>)
    ensures i.Some? ==> i.value < |w.vpn|
  {
    IndexOf(VpnNames(w.vpn), router)
  }

  function FirstUnderlay(w: Crds, router: string): (i: Option<nat>)
    ensures i.Some? ==> i.value < |w.underlay|
  {
    IndexOf(UnderlayNames(w.underlay), router)
  }

  /** Every occurrence of the correct target is replaced; if there is none, the wrong one is all that is left. */
  function Misdirected(values: seq<string>, wrong: string, correct: string): seq<string> {
    if correct in values
    then seq(|values|, i requires 0 <= i < |values| => if values[i] == correct then wrong else values[i])
    else [wrong]
  }

  function Moved(areas: seq<Area>, wrong: string, correct: string): seq<Area> {
    if areas == [] then [Area(wrong, "non-backbone", "")]
    else seq(|areas|, i requires 0 <= i < |areas| => if areas[i].area == correct then areas[i].(area := wrong) else areas[i])
  }

  function MovedBack(areas: seq<Area>, wrong: string, correct: string): (out: seq<Area>)
    ensures |out| == |areas|
  {
    seq(|areas|, i requires 0 <= i < |areas| => if areas[i].area == wrong then areas[i].(area := correct, kind := "backbone") else areas[i])
  }

  function InjectValues(w: Crds, which: Which, router: string, vrf: string, f: seq<string> -> seq<string>): Option<(Crds, Saved)> {
    match TargetRouter(w.vpn, which, router, vrf)
    case None => None
    case Some(k) =>
      var values := ValuesIn(w.vpn[k], which, vrf).value;
      Some((PutValues(w, which, k, vrf, f(values)), SavedValues(values)))
  }

  /** The injection of a fault: the patched resources and what is saved, or a failure. */
  function Inject(w: Crds, f: Fault): Option<(Crds, Saved)> {
    match f
    case MtuMismatch(router, iface, mtu) =>
      (match TargetNetwork(w.networks, router, iface)
       case None => None
       case Some(n) => Some((PutMtus(w, n.name, Some(mtu)), SavedMtu(n.name, n.mtu.GetOr(1500)))))
    case BgpSessionDown(router, vrf) => InjectValues(w, Neighbors, router, vrf, _ => [])
    case VrfRtMisconfiguration(router, vrf, wrong, correct) =>
      InjectValues(w, Imports, router, vrf, (values: seq<string>) => Misdirected(values, wrong, correct))
    case PacketCorruption(router, policy) =>
      (match FirstUnderlay(w, router)
       case None => None
       case Some(k) => Some((PutPolicy(w, k, Some(policy)), SavedPolicy(w.underlay[k].policy))))
    case OspfAreaMismatch(router, wrong, correct) =>
      (match FirstUnderlay(w, router)
       case None => None
       case Some(k) =>
         if w.underlay[k].ospf.None? then None
         else Some((PutAreas(w, k, Moved(w.underlay[k].ospf.value.areas, wrong, correct)), SavedAreas)))
    case OspfCostInflation(router, iface, cost) =>
      (match FirstUnderlay(w, router)
       case None => None
       case Some(k) => Some((PutCost(w, k, iface, Some(cost)), SavedCost(CostIn(OspfOf(w.underlay[k]).costs, iface)))))
  }

  function RestoreValues(w: Crds, which: Which, router: string, vrf: string, values: seq<string>): Crds {
    match FirstVpn(w, router)
    case None => w
    case Some(k) => PutValues(w, which, k, vrf, values)
  }

  /** The restoration of a fault from what was saved. */
  function Restore(w: Crds, f: Fault, saved: Saved): Crds {
    match f
    case MtuMismatch(_, _, _) =>
      if !saved.SavedMtu? then w else PutMtus(w, saved.network, if saved.mtu == 1500 then None else Some(saved.mtu))
    case BgpSessionDown(router, vrf) =>
      if !saved.SavedValues? then w else RestoreValues(w, Neighbors, router, vrf, saved.values)
    case VrfRtMisconfiguration(router, vrf, _, correct) =>
      if !saved.SavedValues? || (saved.values == [] && correct == "") then w
      else RestoreValues(w, Imports, router, vrf, if saved.values == [] then [correct] else saved.values)
    case PacketCorruption(router, _) =>
      (match FirstUnderlay(w, router)
       case None => w
       case Some(k) => if saved.SavedPolicy? then PutPolicy(w, k, saved.policy) else w)
    case OspfAreaMismatch(router, wrong, correct) =>
      (match FirstUnderlay(w, router)
       case None => w
       case Some(k) =>
         if w.underlay[k].ospf.None? then w else PutAreas(w, k, MovedBack(w.underlay[k].ospf.value.areas, wrong, correct)))
    case OspfCostInflation(router, iface, _) =>
      (match FirstUnderlay(w, router)
       case None => w
       case Some(k) =>
         if w.underlay[k].ospf.None? || !saved.SavedCost? then w
         else PutCost(w, k, iface, if saved.cost == 1 then None else Some(saved.cost)))
  }

  // ---------------------------------------------------------------- each write touches one slot

  lemma {:induction false} MtusAfterSet(networks: seq<Network>, name: string, mtu: Option<int>, other: string)
    ensures MtusOf(SetMtu(networks, name, mtu), other) ==
            if other == name then seq(|MtusOf(networks, name)|, _ => mtu.GetOr(1500)) else MtusOf(networks, other)
  {
    if networks != [] {
      MtusAfterSet(networks[1..], name, mtu, other);
      assert SetMtu(networks, name, mtu)[1..] == SetMtu(networks[1..], name, mtu);
    }
  }

  /** What no operation changes: which network each interface is on, which routers there are, and
      which VRFs they have. */
  datatype Shape = Shape(networks: seq<(string, seq<(string, string)>)>, vpn: seq<(string, seq<string>, seq<string>)>,
                         underlay: seq<string>)

  function AttachmentsOf(networks: seq<Network>): (out: seq<(string, seq<(string, string)>)>)
    ensures |out| == |networks|
  {
    seq(|networks|, i requires 0 <= i < |networks| => (networks[i].name, networks[i].attached))
  }

  function VrfsOf(routers: seq<VpnRouter>): (out: seq<(string, seq<string>, seq<string>)>)
    ensures |out| == |routers|
  {
    seq(|routers|, i requires 0 <= i < |routers| => (routers[i].name, EntryNames(routers[i].bgp), EntryNames(routers[i].vrfs)))
  }

  function ShapeOf(w: Crds): Shape {
    Shape(AttachmentsOf(w.networks), VrfsOf(w.vpn), UnderlayNames(w.underlay))
  }

  /** OSPF settings, once there, stay. */
  ghost predicate OspfKept(a: Crds, b: Crds) {
    && |a.underlay| == |b.underlay|
    && forall k | 0 <= k < |a.underlay| :: a.underlay[k].ospf.Some? ==> b.underlay[k].ospf.Some?
  }

  /** b is a with one slot rewritten. */
  ghost predicate Wrote(a: Crds, b: Crds, slot: Slot, v: Value) {
    && ShapeOf(b) == ShapeOf(a)
    && OspfKept(a, b)
    && (forall s :: Read(b, s) == if s == slot then v else Read(a, s))
  }

  lemma PutMtusWrites(w: Crds, name: string, mtu: Option<int>)
    ensures Wrote(w, PutMtus(w, name, mtu), Mtus(name), MtusAre(seq(|MtusOf(w.networks, name)|, _ => mtu.GetOr(1500))))
  {
    forall other {
      MtusAfterSet(w.networks, name, mtu, other);
    }
    assert AttachmentsOf(PutMtus(w, name, mtu).networks) == AttachmentsOf(w.networks);
  }

  lemma ValuesWritten(r: VpnRouter, which: Which, vrf: string, values: seq<string>, other: Which, name: string)
    requires ValuesIn(r, which, vrf).Some?
    ensures ValuesIn(Overwritten(r, which, vrf, values), other, name) ==
            if other == which && name == vrf then Some(values) else ValuesIn(r, other, name)
    ensures EntryNames(Overwritten(r, which, vrf, values).bgp) == EntryNames(r.bgp)
    ensures EntryNames(Overwritten(r, which, vrf, values).vrfs) == EntryNames(r.vrfs)
  {
    assert EntryNames(Entries(Overwritten(r, which, vrf, values), which)) == EntryNames(Entries(r, which));
  }

  lemma PutValuesWrites(w: Crds, which: Which, k: nat, vrf: string, values: seq<string>)
    requires k < |w.vpn| && ValuesIn(w.vpn[k], which, vrf).Some?
    ensures Wrote(w, PutValues(w, which, k, vrf, values), Values(which, k, vrf), ValuesAre(values))
  {
    forall other, name {
      ValuesWritten(w.vpn[k], which, vrf, values, other, name);
    }
    assert VrfsOf(PutValues(w, which, k, vrf, values).vpn) == VrfsOf(w.vpn);
  }

  lemma PutPolicyWrites(w: Crds, k: nat, policy: Option<string>)
    requires k < |w.underlay|
    ensures Wrote(w, PutPolicy(w, k, policy), Policy(k), PolicyIs(policy))
  {
    assert UnderlayNames(PutPolicy(w, k, policy).underlay) == UnderlayNames(w.underlay);
  }

  lemma PutAreasWrites(w: Crds, k: nat, areas: seq<Area>)
    requires k < |w.underlay|
    ensures Wrote(w, PutAreas(w, k, areas), Areas(k), AreasAre(areas))
  {
    assert UnderlayNames(PutAreas(w, k, areas).underlay) == UnderlayNames(w.underlay);
  }

  lemma {:induction false} CostDropped(costs: seq<Cost>, iface: string, other: string)
    ensures CostIn(DropCosts(costs, iface), other) == if other == iface then 1 else CostIn(costs, other)
  {
    if costs != [] {
      CostDropped(costs[1..], iface, other);
      if costs[0].iface != iface {
        var rest := DropCosts(costs[1..], iface);
        assert ([costs[0]] + rest)[1..] == rest;
      }
    }
  }

  lemma {:induction false} CostAppended(costs: seq<Cost>, c: Cost, other: string)
    ensures CostIn(costs + [c], other) ==
            if other == c.iface && (forall x | x in costs :: x.iface != other) then c.cost.GetOr(1) else CostIn(costs, other)
  {
    if costs == [] {
      assert costs + [c] == [c] && [c][1..] == [];
    } else {
      assert (costs + [c])[1..] == costs[1..] + [c];
      CostAppended(costs[1..], c, other);
    }
  }

  lemma {:induction false} NoneLeft(costs: seq<Cost>, iface: string)
    ensures forall x | x in DropCosts(costs, iface) :: x.iface != iface
  {
    if costs != [] {
      NoneLeft(costs[1..], iface);
    }
  }

  lemma CostAfterSet(costs: seq<Cost>, iface: string, cost: Option<int>, other: string)
    ensures CostIn(CostsWith(costs, iface, cost), other) == if other == iface then cost.GetOr(1) else CostIn(costs, other)
  {
    CostDropped(costs, iface, other);
    if cost.Some? {
      NoneLeft(costs, iface);
      CostAppended(DropCosts(costs, iface), Cost(iface, cost), other);
    } else {
      assert DropCosts(costs, iface) + [] == DropCosts(costs, iface);
    }
  }

  lemma PutCostWrites(w: Crds, k: nat, iface: string, cost: Option<int>)
    requires k < |w.underlay|
    ensures Wrote(w, PutCost(w, k, iface, cost), CostOf(k, iface), CostIs(cost.GetOr(1)))
  {
    forall other {
      CostAfterSet(OspfOf(w.underlay[k]).costs, iface, cost, other);
    }
    assert UnderlayNames(PutCost(w, k, iface, cost).underlay) == UnderlayNames(w.underlay);
  }

  // ---------------------------------------------------------------- a fault as a write of its slot

  function SlotAt(k: Option<nat>, slot: nat -> Slot): Option<Slot> {
    match k
    case None => None
    case Some(i) => Some(slot(i))
  }

  /** The slot that injecting the fault overwrites. */
  function SlotOf(w: Crds, f: Fault): Option<Slot> {
    match f
    case MtuMismatch(router, iface, _) =>
      (match TargetNetwork(w.networks, router, iface)
       case None => None
       case Some(n) => Some(Mtus(n.name)))
    case BgpSessionDown(router, vrf) => SlotAt(TargetRouter(w.vpn, Neighbors, router, vrf), (k: nat) => Values(Neighbors, k, vrf))
    case VrfRtMisconfiguration(router, vrf, _, _) => SlotAt(TargetRouter(w.vpn, Imports, router, vrf), (k: nat) => Values(Imports, k, vrf))
    case PacketCorruption(router, _) => SlotAt(FirstUnderlay(w, router), (k: nat) => Policy(k))
    case OspfAreaMismatch(router, _, _) => SlotAt(FirstUnderlay(w, router), (k: nat) => Areas(k))
    case OspfCostInflation(router, iface, _) => SlotAt(FirstUnderlay(w, router), (k: nat) => CostOf(k, iface))
  }

  /** Restoration finds the slot again: the first router of that name has the VRF. */
  predicate Reached(w: Crds, f: Fault) {
    match f
    case BgpSessionDown(router, vrf) => FirstVpn(w, router) == TargetRouter(w.vpn, Neighbors, router, vrf)
    case VrfRtMisconfiguration(router, vrf, _, _) => FirstVpn(w, router) == TargetRouter(w.vpn, Imports, router, vrf)
    case _ => true
  }

  lemma {:induction false} SameTarget(a: seq<Network>, b: seq<Network>, router: string, iface: string)
    requires AttachmentsOf(a) == AttachmentsOf(b)
    ensures var x, y := TargetNetwork(a, router, iface), TargetNetwork(b, router, iface);
            x.Some? == y.Some? && (x.Some? ==> x.value.name == y.value.name)
  {
    assert |a| == |AttachmentsOf(a)| == |b|;
    if a != [] {
      assert AttachmentsOf(a)[0] == AttachmentsOf(b)[0];
      assert AttachmentsOf(a)[1..] == AttachmentsOf(a[1..]) && AttachmentsOf(b)[1..] == AttachmentsOf(b[1..]);
      SameTarget(a[1..], b[1..], router, iface);
    }
  }

  lemma SameTargetRouter(a: seq<VpnRouter>, b: seq<VpnRouter>, which: Which, router: string, vrf: string)
    requires VrfsOf(a) == VrfsOf(b)
    ensures TargetRouter(a, which, router, vrf) == TargetRouter(b, which, router, vrf) && VpnNames(a) == VpnNames(b)
  {
    assert |a| == |VrfsOf(a)| == |b|;
    forall k | 0 <= k < |a| ensures a[k].name == b[k].name && HasVrf(a[k], which, router, vrf) == HasVrf(b[k], which, router, vrf) {
      assert VrfsOf(a)[k] == VrfsOf(b)[k];
    }
    var i, j := TargetRouter(a, which, router, vrf), TargetRouter(b, which, router, vrf);
    assert i.Some? && j.Some? ==> i.value == j.value;
  }

  /** Nothing that keeps the shape moves a fault's slot. */
  lemma SlotStays(a: Crds, b: Crds, f: Fault)
    requires ShapeOf(a) == ShapeOf(b)
    ensures SlotOf(a, f) == SlotOf(b, f) && Reached(a, f) == Reached(b, f)
  {
    match f
    case MtuMismatch(router, iface, _) => SameTarget(a.networks, b.networks, router, iface);
    case BgpSessionDown(router, vrf) => SameTargetRouter(a.vpn, b.vpn, Neighbors, router, vrf);
    case VrfRtMisconfiguration(router, vrf, _, _) => SameTargetRouter(a.vpn, b.vpn, Imports, router, vrf);
    case _ =>
  }

  predicate AllEqual(xs: seq<int>) {
    xs != [] && forall i | 0 <= i < |xs| :: xs[i] == xs[0]
  }

  /** Moving the correct area away and back changes nothing: no area is lost, none was in the
      wrong place before, and the moved ones are backbone areas, as the way back makes them. */
  predicate AreasReturn(areas: seq<Area>, wrong: string, correct: string) {
    && areas != []
    && (forall i | 0 <= i < |areas| ::
          && (areas[i].area == correct ==> areas[i].kind == "backbone")
          && (areas[i].area == wrong ==> wrong == correct))
  }

  /** The condition on the value found under which restoring the fault gives it back. */
  predicate Clean(f: Fault, v: Value) {
    match f
    case MtuMismatch(_, _, _) => v.MtusAre? && AllEqual(v.mtus)
    case BgpSessionDown(_, _) => v.ValuesAre?
    case VrfRtMisconfiguration(_, _, _, _) => v.ValuesAre? && v.values != []
    case PacketCorruption(_, _) => v.PolicyIs?
    case OspfAreaMismatch(_, wrong, correct) => v.AreasAre? && AreasReturn(v.areas, wrong, correct)
    case OspfCostInflation(_, _, _) => v.CostIs?
  }

  /** What the slot reads while the fault is in place. */
  function Faulted(f: Fault, v: Value): Value {
    match f
    case MtuMismatch(_, _, mtu) => if v.MtusAre? then MtusAre(seq(|v.mtus|, _ => mtu)) else v
    case BgpSessionDown(_, _) => if v.ValuesAre? then ValuesAre([]) else v
    case VrfRtMisconfiguration(_, _, wrong, correct) => if v.ValuesAre? then ValuesAre(Misdirected(v.values, wrong, correct)) else v
    case PacketCorruption(_, policy) => if v.PolicyIs? then PolicyIs(Some(policy)) else v
    case OspfAreaMismatch(_, wrong, correct) => if v.AreasAre? then AreasAre(Moved(v.areas, wrong, correct)) else v
    case OspfCostInflation(_, _, cost) => if v.CostIs? then CostIs(cost) else v
  }

  /** What is saved, as far as the value found determines it. */
  predicate Remembers(f: Fault, slot: Slot, saved: Saved, v: Value) {
    match f
    case MtuMismatch(_, _, _) => saved.SavedMtu? && slot == Mtus(saved.network) && v.MtusAre? && saved.mtu in v.mtus
    case BgpSessionDown(_, _) => v.ValuesAre? && saved == SavedValues(v.values)
    case VrfRtMisconfiguration(_, _, _, _) => v.ValuesAre? && saved == SavedValues(v.values)
    case PacketCorruption(_, _) => v.PolicyIs? && saved == SavedPolicy(v.policy)
    case OspfAreaMismatch(_, _, _) => v.AreasAre? && saved == SavedAreas
    case OspfCostInflation(_, _, _) => v.CostIs? && saved == SavedCost(v.cost)
  }

  /** The fault is in place: its slot, which held v, reads as faulted, and v is remembered. */
  ghost predicate InPlace(w: Crds, f: Fault, slot: Slot, saved: Saved, v: Value) {
    && Read(w, slot) == Faulted(f, v)
    && Remembers(f, slot, saved, v)
    && (f.OspfCostInflation? && slot.CostOf? && slot.router < |w.underlay| ==> w.underlay[slot.router].ospf.Some? || v == CostIs(1))
  }

  lemma {:induction false} TargetIn(networks: seq<Network>, router: string, iface: string)
    requires TargetNetwork(networks, router, iface).Some?
    ensures var n := TargetNetwork(networks, router, iface).value;
            n.mtu.GetOr(1500) in MtusOf(networks, n.name)
  {
    if (router, iface) !in networks[0].attached {
      TargetIn(networks[1..], router, iface);
    }
  }

  /** An injection that succeeds overwrites one slot, remembers what was there, and touches nothing else. */
  lemma InjectWrites(w: Crds, f: Fault)
    requires Inject(w, f).Some?
    ensures SlotOf(w, f).Some?
    ensures var slot := SlotOf(w, f).value;
            var (w', saved) := Inject(w, f).value;
            Wrote(w, w', slot, Faulted(f, Read(w, slot))) && InPlace(w', f, slot, saved, Read(w, slot))
  {
    match f
    case MtuMismatch(router, iface, mtu) =>
      TargetIn(w.networks, router, iface);
      PutMtusWrites(w, SlotOf(w, f).value.network, Some(mtu));
    case BgpSessionDown(router, vrf) =>
      PutValuesWrites(w, Neighbors, TargetRouter(w.vpn, Neighbors, router, vrf).value, vrf, []);
    case VrfRtMisconfiguration(router, vrf, wrong, correct) =>
      var k := TargetRouter(w.vpn, Imports, router, vrf).value;
      PutValuesWrites(w, Imports, k, vrf, Misdirected(ValuesIn(w.vpn[k], Imports, vrf).value, wrong, correct));
    case PacketCorruption(router, policy) => PutPolicyWrites(w, FirstUnderlay(w, router).value, Some(policy));
    case OspfAreaMismatch(router, wrong, correct) =>
      var k := FirstUnderlay(w, router).value;
      PutAreasWrites(w, k, Moved(w.underlay[k].ospf.value.areas, wrong, correct));
    case OspfCostInflation(router, iface, cost) => PutCostWrites(w, FirstUnderlay(w, router).value, iface, Some(cost));
  }

  /** A clean value can be faulted. */
  lemma CleanInjects(w: Crds, f: Fault)
    requires SlotOf(w, f).Some? && Clean(f, Read(w, SlotOf(w, f).value))
    ensures Inject(w, f).Some?
  {
  }

  /** What the slot reads after the fault is injected on v and restored. */
  function Back(f: Fault, saved: Saved, v: Value): Value {
    match f
    case MtuMismatch(_, _, _) => if v.MtusAre? && saved.SavedMtu? then MtusAre(seq(|v.mtus|, _ => saved.mtu)) else v
    case VrfRtMisconfiguration(_, _, wrong, correct) =>
      if v != ValuesAre([]) then v
      else if correct == "" then Faulted(f, v)
      else ValuesAre([correct])
    case OspfAreaMismatch(_, wrong, correct) =>
      if v.AreasAre? then AreasAre(MovedBack(Moved(v.areas, wrong, correct), wrong, correct)) else v
    case _ => v
  }

  /** A restoration that reaches the slot rewrites that slot only. */
  lemma RestoreWrites(w: Crds, f: Fault, slot: Slot, saved: Saved, v: Value)
    requires SlotOf(w, f) == Some(slot) && Reached(w, f) && InPlace(w, f, slot, saved, v)
    ensures Wrote(w, Restore(w, f, saved), slot, Back(f, saved, v))
  {
    match f
    case MtuMismatch(_, _, _) => PutMtusWrites(w, saved.network, if saved.mtu == 1500 then None else Some(saved.mtu));
    case BgpSessionDown(router, vrf) => PutValuesWrites(w, Neighbors, slot.router, vrf, saved.values);
    case VrfRtMisconfiguration(router, vrf, _, correct) =>
      PutValuesWrites(w, Imports, slot.router, vrf, if saved.values == [] then [correct] else saved.values);
    case PacketCorruption(router, _) => PutPolicyWrites(w, slot.router, saved.policy);
    case OspfAreaMismatch(router, wrong, correct) => PutAreasWrites(w, slot.router, MovedBack(Read(w, slot).areas, wrong, correct));
    case OspfCostInflation(router, iface, _) => PutCostWrites(w, slot.router, iface, if saved.cost == 1 then None else Some(saved.cost));
  }

  /** A restoration that does not reach the slot changes nothing at all. */
  lemma RestoreMisses(w: Crds, f: Fault, saved: Saved)
    requires SlotOf(w, f).Some? && !Reached(w, f)
    ensures Restore(w, f, saved) == w
  {
    var k := SlotOf(w, f).value.router;
    assert VpnNames(w.vpn)[k] == f.router;
    var first := FirstVpn(w, f.router);
    assert first.Some? && first.value <= k;
    assert !HasVrf(w.vpn[first.value], SlotOf(w, f).value.which, f.router, f.vrf);
    assert w.vpn[first.value := w.vpn[first.value]] == w.vpn;
  }

  lemma AreasBackIff(areas: seq<Area>, wrong: string, correct: string)
    ensures MovedBack(Moved(areas, wrong, correct), wrong, correct) == areas <==> AreasReturn(areas, wrong, correct)
  {
    var back := MovedBack(Moved(areas, wrong, correct), wrong, correct);
    if areas != [] {
      forall i | 0 <= i < |areas|
        ensures back[i] == areas[i] <==>
                (areas[i].area == correct ==> areas[i].kind == "backbone") && (areas[i].area == wrong ==> wrong == correct)
      {
        assert back[i] == if areas[i].area == correct || areas[i].area == wrong
                          then areas[i].(area := correct, kind := "backbone") else areas[i];
      }
      assert back == areas <==> forall i | 0 <= i < |areas| :: back[i] == areas[i];
    }
  }

  lemma BackIff(f: Fault, slot: Slot, saved: Saved, v: Value)
    requires Remembers(f, slot, saved, v)
    ensures Back(f, saved, v) == v <==> Clean(f, v)
  {
    if f.MtuMismatch? {
      var i :| 0 <= i < |v.mtus| && v.mtus[i] == saved.mtu;
      var same := seq(|v.mtus|, _ => saved.mtu);
      if AllEqual(v.mtus) {
        assert same == v.mtus;
      }
      if same == v.mtus {
        assert forall k | 0 <= k < |v.mtus| :: v.mtus[k] == same[k];
      }
    } else if f.OspfAreaMismatch? {
      AreasBackIff(v.areas, f.wrong, f.correct);
    }
  }

  ghost predicate SameEffective(a: Crds, b: Crds) {
    forall s :: Read(a, s) == Read(b, s)
  }

  /** Injecting a fault and restoring it gives back the whole effective configuration if and only
      if restoration finds the slot again and the value found was clean, or, when it does not find
      it, injection changed nothing in the first place. */
  lemma RestoredIff(w: Crds, f: Fault)
    requires Inject(w, f).Some?
    ensures SlotOf(w, f).Some?
    ensures var (w', saved) := Inject(w, f).value;
            var v := Read(w, SlotOf(w, f).value);
            SameEffective(Restore(w', f, saved), w) <==> if Reached(w, f) then Clean(f, v) else Faulted(f, v) == v
  {
    var (w', saved) := Inject(w, f).value;
    InjectWrites(w, f);
    var slot := SlotOf(w, f).value;
    var v := Read(w, slot);
    SlotStays(w, w', f);
    if Reached(w, f) {
      RestoreWrites(w', f, slot, saved, v);
      BackIff(f, slot, saved, v);
      assert Read(Restore(w', f, saved), slot) == Back(f, saved, v);
    } else {
      RestoreMisses(w', f, saved);
      assert Read(w', slot) == Faulted(f, v);
    }
  }

  // ---------------------------------------------------------------- handlers that interleave

  /** A handler fetches, and later patches or gives up. Each list of Crds is a resource of its own. */
  datatype Op = Fetch(fault: nat) | Patch(fault: nat) | Drop(fault: nat)

  datatype Resource = Infrastructure | L3Vpn | Underlay

  function ResourceOf(f: Fault): Resource {
    match f
    case MtuMismatch(_, _, _) => Infrastructure
    case BgpSessionDown(_, _) => L3Vpn
    case VrfRtMisconfiguration(_, _, _, _) => L3Vpn
    case _ => Underlay
  }

  predicate SameResource(a: Crds, b: Crds, r: Resource) {
    match r
    case Infrastructure => a.networks == b.networks
    case L3Vpn => a.vpn == b.vpn
    case Underlay => a.underlay == b.underlay
  }

  /** A patch replaces the whole list of its resource. */
  function Publish(w: Crds, patch: Crds, r: Resource): Crds {
    match r
    case Infrastructure => w.(networks := patch.networks)
    case L3Vpn => w.(vpn := patch.vpn)
    case Underlay => w.(underlay := patch.underlay)
  }

  /** The resources, what is saved for the faults in place, and what each handler under way has fetched. */
  datatype State = State(w: Crds, saved: map<nat, Saved>, held: map<nat, Crds>)

  /** What a handler makes of the resources it fetched: it injects the fault, or restores it when
      it is in place; None when injection fails. */
  function Handled(seen: Crds, f: Fault, saved: Option<Saved>): Option<(Crds, Option<Saved>)> {
    match saved
    case Some(s) => Some((Restore(seen, f, s), None))
    case None =>
      match Inject(seen, f)
      case None => None
      case Some((w, s)) => Some((w, Some(s)))
  }

  function Remember(saved: map<nat, Saved>, i: nat, s: Option<Saved>): map<nat, Saved> {
    if s.Some? then saved[i := s.value] else saved - {i}
  }

  function Apply(st: State, faults: seq<Fault>, op: Op): State {
    if op.fault >= |faults| then st
    else
      var i := op.fault;
      match op
      case Fetch(_) => st.(held := st.held[i := st.w])
      case Drop(_) => st.(held := st.held - {i})
      case Patch(_) =>
        if i !in st.held then st
        else
          match Handled(st.held[i], faults[i], Get(st.saved, i))
          case None => st.(held := st.held - {i})
          case Some((patch, s)) =>
            State(Publish(st.w, patch, ResourceOf(faults[i])), Remember(st.saved, i, s), st.held - {i})
  }

  function RunOf(w: Crds, faults: seq<Fault>, ops: seq<Op>): State {
    if ops == [] then State(w, map[], map[]) else Apply(RunOf(w, faults, ops[..|ops| - 1]), faults, ops[|ops| - 1])
  }

  /** Since fault i was last fetched, nobody patched its resource. */
  predicate Undisturbed(faults: seq<Fault>, ops: seq<Op>, i: nat)
    requires i < |faults|
  {
    ops == [] ||
    match ops[|ops| - 1]
    case Fetch(j) => j == i || Undisturbed(faults, ops[..|ops| - 1], i)
    case Drop(_) => Undisturbed(faults, ops[..|ops| - 1], i)
    case Patch(j) =>
      (j < |faults| ==> ResourceOf(faults[j]) != ResourceOf(faults[i])) && Undisturbed(faults, ops[..|ops| - 1], i)
  }

  /** No patch of one resource falls between the fetch and the patch of another handler. */
  predicate Separate(faults: seq<Fault>, ops: seq<Op>) {
    ops == [] ||
    var op, front := ops[|ops| - 1], ops[..|ops| - 1];
    Separate(faults, front) && (op.Patch? && op.fault < |faults| ==> Undisturbed(faults, front, op.fault))
  }

  /** The faults have targets, restoration finds them again, their slots are distinct, and the
      values found are clean. */
  ghost predicate Suitable(w: Crds, faults: seq<Fault>) {
    && (forall i | 0 <= i < |faults| ::
          SlotOf(w, faults[i]).Some? && Reached(w, faults[i]) && Clean(faults[i], Read(w, SlotOf(w, faults[i]).value)))
    && (forall i, j | 0 <= i < j < |faults| :: SlotOf(w, faults[i]) != SlotOf(w, faults[j]))
  }

  /** What fault i's slot must read. */
  ghost predicate SlotFollows(w: Crds, faults: seq<Fault>, st: State, i: nat)
    requires i < |faults| && SlotOf(w, faults[i]).Some?
  {
    var slot := SlotOf(w, faults[i]).value;
    if i in st.saved then InPlace(st.w, faults[i], slot, st.saved[i], Read(w, slot)) else Read(st.w, slot) == Read(w, slot)
  }

  ghost predicate Untargeted(w: Crds, faults: seq<Fault>, s: Slot) {
    forall i | 0 <= i < |faults| :: SlotOf(w, faults[i]) != Some(s)
  }

  /** Every slot reads as at the start, except those of the faults in place. */
  ghost predicate Follows(w: Crds, faults: seq<Fault>, st: State)
    requires Suitable(w, faults)
  {
    && ShapeOf(st.w) == ShapeOf(w)
    && (forall i | i in st.saved :: i < |faults|)
    && (forall i | 0 <= i < |faults| :: SlotFollows(w, faults, st, i))
    && (forall s | Untargeted(w, faults, s) :: Read(st.w, s) == Read(w, s))
  }

  lemma DistinctSlots(w: Crds, faults: seq<Fault>, i: nat, j: nat)
    requires Suitable(w, faults) && i < |faults| && j < |faults| && i != j
    ensures SlotOf(w, faults[i]) != SlotOf(w, faults[j])
  {
    assert i < j || j < i;
  }

  /** A handler reads and writes its own resource only. */
  lemma HandledLocally(a: Crds, b: Crds, f: Fault, saved: Option<Saved>)
    requires SameResource(a, b, ResourceOf(f))
    ensures Handled(a, f, saved).Some? == Handled(b, f, saved).Some?
    ensures Handled(a, f, saved).Some? ==>
              && Handled(a, f, saved).value.1 == Handled(b, f, saved).value.1
              && Publish(b, Handled(a, f, saved).value.0, ResourceOf(f)) == Handled(b, f, saved).value.0
  {
  }

  /** What fault i's slot reads once its handler is through. */
  function Toggled(st: State, f: Fault, i: nat, v: Value): Value {
    if i in st.saved then v else Faulted(f, v)
  }

  /** A handler that works on current resources writes fault i's slot, and keeps track of it. */
  lemma HandledWrites(w: Crds, faults: seq<Fault>, st: State, i: nat)
    requires Suitable(w, faults) && Follows(w, faults, st) && i < |faults|
    ensures var h, slot := Handled(st.w, faults[i], Get(st.saved, i)), SlotOf(w, faults[i]).value;
            && h.Some? && Wrote(st.w, h.value.0, slot, Toggled(st, faults[i], i, Read(w, slot)))
            && h.value.1.Some? == (i !in st.saved)
            && (i !in st.saved ==> InPlace(h.value.0, faults[i], slot, h.value.1.value, Read(w, slot)))
  {
    var f, slot := faults[i], SlotOf(w, faults[i]).value;
    SlotStays(w, st.w, f);
    assert SlotFollows(w, faults, st, i);
    if i in st.saved {
      RestoreWrites(st.w, f, slot, st.saved[i], Read(w, slot));
      BackIff(f, slot, st.saved[i], Read(w, slot));
    } else {
      CleanInjects(st.w, f);
      InjectWrites(st.w, f);
    }
  }

  lemma HandledFollows(w: Crds, faults: seq<Fault>, st: State, i: nat, next: State)
    requires Suitable(w, faults) && Follows(w, faults, st) && i < |faults|
    requires var h := Handled(st.w, faults[i], Get(st.saved, i));
             h.Some? && next.w == h.value.0 && next.saved == Remember(st.saved, i, h.value.1)
    ensures Follows(w, faults, next)
  {
    var slot := SlotOf(w, faults[i]).value;
    HandledWrites(w, faults, st, i);
    assert Read(next.w, slot) == Toggled(st, faults[i], i, Read(w, slot));
    forall j | 0 <= j < |faults| ensures SlotFollows(w, faults, next, j) {
      assert SlotFollows(w, faults, st, j);
      if j != i {
        DistinctSlots(w, faults, i, j);
        assert Read(next.w, SlotOf(w, faults[j]).value) == Read(st.w, SlotOf(w, faults[j]).value);
      }
    }
  }

  lemma {:induction false} UndisturbedIsCurrent(w: Crds, faults: seq<Fault>, ops: seq<Op>, i: nat)
    requires i < |faults| && i in RunOf(w, faults, ops).held && Undisturbed(faults, ops, i)
    ensures SameResource(RunOf(w, faults, ops).held[i], RunOf(w, faults, ops).w, ResourceOf(faults[i]))
  {
    var op := ops[|ops| - 1];
    if op != Fetch(i) {
      UndisturbedIsCurrent(w, faults, ops[..|ops| - 1], i);
    }
  }

  /** A patch computed from current resources. */
  lemma PatchFollows(w: Crds, faults: seq<Fault>, st: State, i: nat)
    requires Suitable(w, faults) && Follows(w, faults, st) && i < |faults|
    requires i in st.held && SameResource(st.held[i], st.w, ResourceOf(faults[i]))
    ensures var next := Apply(st, faults, Patch(i));
            && Follows(w, faults, next)
            && (i in next.saved <==> i !in st.saved)
            && next.saved - {i} == st.saved - {i} && next.held == st.held - {i}
            && SameElsewhere(st.w, next.w, ResourceOf(faults[i]))
  {
    HandledLocally(st.held[i], st.w, faults[i], Get(st.saved, i));
    HandledWrites(w, faults, st, i);
    HandledFollows(w, faults, st, i, Apply(st, faults, Patch(i)));
  }

  predicate SameElsewhere(a: Crds, b: Crds, r: Resource) {
    Publish(a, b, r) == b
  }

  /** Over every interleaving of injections and restorations, in any order and repeated at will,
      in which nobody patches a resource between another handler's fetch and patch of it, each slot
      reads as at the start unless its fault is in place. */
  lemma {:induction false} Interleaved(w: Crds, faults: seq<Fault>, ops: seq<Op>)
    requires Suitable(w, faults) && Separate(faults, ops)
    ensures Follows(w, faults, RunOf(w, faults, ops))
  {
    if ops != [] {
      var front, op := ops[..|ops| - 1], ops[|ops| - 1];
      var st, next := RunOf(w, faults, front), RunOf(w, faults, ops);
      Interleaved(w, faults, front);
      if op.Patch? && op.fault < |faults| && op.fault in st.held {
        UndisturbedIsCurrent(w, faults, front, op.fault);
        PatchFollows(w, faults, st, op.fault);
      } else {
        SameFollows(w, faults, st, next);
      }
    }
  }

  lemma SameFollows(w: Crds, faults: seq<Fault>, st: State, next: State)
    requires Suitable(w, faults) && next.w == st.w && next.saved == st.saved
    ensures Follows(w, faults, st) <==> Follows(w, faults, next)
  {
    forall j | 0 <= j < |faults| ensures SlotFollows(w, faults, st, j) == SlotFollows(w, faults, next, j) {
    }
  }

  lemma FollowsIsRestored(w: Crds, faults: seq<Fault>, st: State)
    requires Suitable(w, faults) && st.saved == map[] && ShapeOf(st.w) == ShapeOf(w)
    ensures Follows(w, faults, st) <==> SameEffective(st.w, w)
  {
    if Follows(w, faults, st) {
      forall s ensures Read(st.w, s) == Read(w, s) {
        if !Untargeted(w, faults, s) {
          var i :| 0 <= i < |faults| && SlotOf(w, faults[i]) == Some(s);
          assert SlotFollows(w, faults, st, i);
        }
      }
    }
  }

  /** Once every injected fault is restored, the whole effective configuration is the original. */
  lemma AllRestored(w: Crds, faults: seq<Fault>, ops: seq<Op>)
    requires Suitable(w, faults) && Separate(faults, ops) && RunOf(w, faults, ops).saved == map[]
    ensures SameEffective(RunOf(w, faults, ops).w, w)
  {
    Interleaved(w, faults, ops);
    FollowsIsRestored(w, faults, RunOf(w, faults, ops));
  }

  // ---------------------------------------------------------------- handlers that overlap

  /** Two handlers fetch, in either order, before either patches; i patches first. */
  function Overlapped(st: State, faults: seq<Fault>, i: nat, j: nat, iFirst: bool): State {
    var (a, b) := if iFirst then (i, j) else (j, i);
    Apply(Apply(Apply(Apply(st, faults, Fetch(a)), faults, Fetch(b)), faults, Patch(i)), faults, Patch(j))
  }

  function Fetched(st: State, i: nat, j: nat): State {
    st.(held := st.held[i := st.w][j := st.w])
  }

  lemma FetchOrder(st: State, faults: seq<Fault>, i: nat, j: nat, iFirst: bool)
    requires i < |faults| && j < |faults| && i != j
    ensures Overlapped(st, faults, i, j, iFirst) == Apply(Apply(Fetched(st, i, j), faults, Patch(i)), faults, Patch(j))
  {
    assert st.held[j := st.w][i := st.w] == st.held[i := st.w][j := st.w];
  }

  lemma ApartFollows(w: Crds, faults: seq<Fault>, st: State, i: nat, j: nat)
    requires Suitable(w, faults) && Follows(w, faults, st) && i < |faults| && j < |faults| && i != j
    requires ResourceOf(faults[i]) != ResourceOf(faults[j])
    ensures var end := Apply(Apply(Fetched(st, i, j), faults, Patch(i)), faults, Patch(j));
            && Follows(w, faults, end)
            && (i in end.saved <==> i !in st.saved) && (j in end.saved <==> j !in st.saved)
  {
    var fetched := Fetched(st, i, j);
    SameFollows(w, faults, st, fetched);
    PatchFollows(w, faults, fetched, i);
    var mid := Apply(fetched, faults, Patch(i));
    assert j in mid.held && mid.held[j] == st.w;
    assert SameResource(st.w, mid.w, ResourceOf(faults[j]));
    assert j in mid.saved - {i} <==> j in st.saved - {i};
    PatchFollows(w, faults, mid, j);
    var end := Apply(mid, faults, Patch(j));
    assert i in end.saved - {j} <==> i in mid.saved - {j};
  }

  lemma HandledSucceeds(w: Crds, faults: seq<Fault>, st: State, i: nat)
    requires Suitable(w, faults) && Follows(w, faults, st) && i < |faults|
    ensures Handled(st.w, faults[i], Get(st.saved, i)).Some?
  {
    HandledWrites(w, faults, st, i);
  }

  lemma RememberCommutes(saved: map<nat, Saved>, i: nat, a: Option<Saved>, j: nat, b: Option<Saved>)
    requires i != j
    ensures Remember(Remember(saved, j, b), i, a) == Remember(Remember(saved, i, a), j, b)
    ensures Get(Remember(saved, i, a), j) == Get(saved, j)
  {
  }

  lemma PatchIs(st: State, faults: seq<Fault>, i: nat, seen: Crds, h: (Crds, Option<Saved>))
    requires i < |faults| && i in st.held && st.held[i] == seen && Handled(seen, faults[i], Get(st.saved, i)) == Some(h)
    ensures Apply(st, faults, Patch(i)) ==
            State(Publish(st.w, h.0, ResourceOf(faults[i])), Remember(st.saved, i, h.1), st.held - {i})
  {
  }

  lemma PublishTwice(w: Crds, a: Crds, b: Crds, r: Resource)
    ensures Publish(Publish(w, a, r), b, r) == Publish(w, b, r)
  {
  }

  /** Of two patches of one resource, the second takes the first one back. */
  lemma SecondPatchWins(w: Crds, faults: seq<Fault>, st: State, i: nat, j: nat)
    requires Suitable(w, faults) && Follows(w, faults, st) && i < |faults| && j < |faults| && i != j
    requires ResourceOf(faults[i]) == ResourceOf(faults[j])
    ensures var end, a, b := Apply(Apply(Fetched(st, i, j), faults, Patch(i)), faults, Patch(j)),
                             Handled(st.w, faults[i], Get(st.saved, i)), Handled(st.w, faults[j], Get(st.saved, j));
            && a.Some? && b.Some?
            && end.w == b.value.0 && end.saved == Remember(Remember(st.saved, j, b.value.1), i, a.value.1)
  {
    HandledSucceeds(w, faults, st, i);
    HandledSucceeds(w, faults, st, j);
    HandledLocally(st.w, st.w, faults[j], Get(st.saved, j));
    var a, b := Handled(st.w, faults[i], Get(st.saved, i)).value, Handled(st.w, faults[j], Get(st.saved, j)).value;
    RememberCommutes(st.saved, i, a.1, j, b.1);
    PatchIs(Fetched(st, i, j), faults, i, st.w, a);
    PatchIs(Apply(Fetched(st, i, j), faults, Patch(i)), faults, j, st.w, b);
    PublishTwice(st.w, a.0, b.0, ResourceOf(faults[i]));
  }

  /** `end` is a state in which everything follows but fault i, which changed sides unnoticed. */
  lemma LostIff(w: Crds, faults: seq<Fault>, st: State, alone: State, end: State, i: nat)
    requires Suitable(w, faults) && Follows(w, faults, alone) && Follows(w, faults, st) && i < |faults|
    requires Get(alone.saved, i) == Get(st.saved, i)
    requires Handled(st.w, faults[i], Get(st.saved, i)).Some?
    requires end.w == alone.w && end.saved == Remember(alone.saved, i, Handled(st.w, faults[i], Get(st.saved, i)).value.1)
    ensures var v := Read(w, SlotOf(w, faults[i]).value);
            && (i in end.saved <==> i !in st.saved)
            && (Follows(w, faults, end) <==> Faulted(faults[i], v) == v)
            && Read(end.w, SlotOf(w, faults[i]).value) == if i in st.saved then Faulted(faults[i], v) else v
  {
    var f, slot := faults[i], SlotOf(w, faults[i]).value;
    HandledWrites(w, faults, st, i);
    assert SlotFollows(w, faults, alone, i) && SlotFollows(w, faults, st, i);
    forall j | 0 <= j < |faults| && j != i ensures SlotFollows(w, faults, end, j) {
      assert SlotFollows(w, faults, alone, j);
    }
    assert SlotFollows(w, faults, end, i) <==> Faulted(f, Read(w, slot)) == Read(w, slot);
  }

  /** Two overlapping handlers both leave their mark if and only if they patch different resources
      or the one that patches first had nothing to change. Otherwise the first update is lost: its
      handler has reported success, and its slot reads as it did before. */
  lemma OverlapKeepsBothIff(w: Crds, faults: seq<Fault>, st: State, i: nat, j: nat, iFirst: bool)
    requires Suitable(w, faults) && Follows(w, faults, st) && i < |faults| && j < |faults| && i != j
    ensures var end, slot := Overlapped(st, faults, i, j, iFirst), SlotOf(w, faults[i]).value;
            && (i in end.saved <==> i !in st.saved) && (j in end.saved <==> j !in st.saved)
            && (Follows(w, faults, end) <==>
                ResourceOf(faults[i]) != ResourceOf(faults[j]) || Faulted(faults[i], Read(w, slot)) == Read(w, slot))
            && (ResourceOf(faults[i]) == ResourceOf(faults[j]) ==> Read(end.w, slot) == Read(st.w, slot))
            && ShapeOf(end.w) == ShapeOf(w)
  {
    FetchOrder(st, faults, i, j, iFirst);
    if ResourceOf(faults[i]) != ResourceOf(faults[j]) {
      ApartFollows(w, faults, st, i, j);
    } else {
      TogetherIff(w, faults, st, i, j);
    }
  }

  lemma TogetherIff(w: Crds, faults: seq<Fault>, st: State, i: nat, j: nat)
    requires Suitable(w, faults) && Follows(w, faults, st) && i < |faults| && j < |faults| && i != j
    requires ResourceOf(faults[i]) == ResourceOf(faults[j])
    ensures var end, slot := Apply(Apply(Fetched(st, i, j), faults, Patch(i)), faults, Patch(j)), SlotOf(w, faults[i]).value;
            && (i in end.saved <==> i !in st.saved) && (j in end.saved <==> j !in st.saved)
            && (Follows(w, faults, end) <==> Faulted(faults[i], Read(w, slot)) == Read(w, slot))
            && Read(end.w, slot) == Read(st.w, slot)
            && ShapeOf(end.w) == ShapeOf(w)
  {
    var end := Apply(Apply(Fetched(st, i, j), faults, Patch(i)), faults, Patch(j));
    SecondPatchWins(w, faults, st, i, j);
    HandledWrites(w, faults, st, j);
    var b := Handled(st.w, faults[j], Get(st.saved, j)).value;
    var alone := State(b.0, Remember(st.saved, j, b.1), st.held);
    HandledFollows(w, faults, st, j, alone);
    assert Get(alone.saved, i) == Get(st.saved, i);
    LostIff(w, faults, st, alone, end, i);
    assert SlotFollows(w, faults, st, i);
  }

  /** A handler that fetches and patches with nothing in between. */
  function Served(st: State, faults: seq<Fault>, i: nat): State {
    Apply(Apply(st, faults, Fetch(i)), faults, Patch(i))
  }

  lemma ServedFollows(w: Crds, faults: seq<Fault>, st: State, i: nat)
    requires Suitable(w, faults) && Follows(w, faults, st) && i < |faults| && i !in st.saved
    ensures Follows(w, faults, Served(st, faults, i))
    ensures Served(st, faults, i).saved.Keys == st.saved.Keys + {i}
  {
    var fetched := Apply(st, faults, Fetch(i));
    SameFollows(w, faults, st, fetched);
    PatchFollows(w, faults, fetched, i);
    var next := Served(st, faults, i);
    forall k ensures k in next.saved <==> k in st.saved || k == i {
      assert k in next.saved - {i} <==> k in st.saved - {i};
    }
  }

  /** Two faults are injected one after the other and then restored by overlapping handlers. Both
      handlers report success; the resources are back as they were if and only if the faults are on
      different resources or the first had changed nothing. Otherwise the first fault stays. */
  lemma OverlappingRestorationsIff(w: Crds, faults: seq<Fault>, i: nat, j: nat, iFirst: bool)
    requires Suitable(w, faults) && i < |faults| && j < |faults| && i != j
    ensures var injected := Served(Served(State(w, map[], map[]), faults, i), faults, j);
            var end, slot := Overlapped(injected, faults, i, j, iFirst), SlotOf(w, faults[i]).value;
            && end.saved == map[]
            && (SameEffective(end.w, w) <==>
                ResourceOf(faults[i]) != ResourceOf(faults[j]) || Faulted(faults[i], Read(w, slot)) == Read(w, slot))
            && (ResourceOf(faults[i]) == ResourceOf(faults[j]) ==> Read(end.w, slot) == Faulted(faults[i], Read(w, slot)))
  {
    var start := State(w, map[], map[]);
    assert Follows(w, faults, start);
    ServedFollows(w, faults, start, i);
    ServedFollows(w, faults, Served(start, faults, i), j);
    var injected := Served(Served(start, faults, i), faults, j);
    var end := Overlapped(injected, faults, i, j, iFirst);
    assert SlotFollows(w, faults, injected, i);
    OverlapKeepsBothIff(w, faults, injected, i, j, iFirst);
    NoneSaved(injected, faults, i, j, iFirst);
    FollowsIsRestored(w, faults, end);
  }

  /** Overlapping handlers touch no other fault. */
  lemma NoneSaved(st: State, faults: seq<Fault>, i: nat, j: nat, iFirst: bool)
    requires st.saved.Keys == {i, j} && i !in Overlapped(st, faults, i, j, iFirst).saved && j !in Overlapped(st, faults, i, j, iFirst).saved
    ensures Overlapped(st, faults, i, j, iFirst).saved == map[]
  {
    var end := Overlapped(st, faults, i, j, iFirst);
    assert end.saved.Keys <= {i, j};
    assert end.saved.Keys == {};
  }

  // ---------------------------------------------------------------- every schedule

  function ResourceOfSlot(s: Slot): Resource {
    match s
    case Mtus(_) => Infrastructure
    case Values(_, _, _) => L3Vpn
    case _ => Underlay
  }

  lemma ReadLocally(a: Crds, b: Crds, s: Slot)
    requires SameResource(a, b, ResourceOfSlot(s))
    ensures Read(a, s) == Read(b, s)
  {
  }

  lemma SlotOnResource(w: Crds, f: Fault)
    requires SlotOf(w, f).Some?
    ensures ResourceOfSlot(SlotOf(w, f).value) == ResourceOf(f)
    ensures f.OspfCostInflation? ==> SlotOf(w, f).value.CostOf?
  {
  }

  predicate SameShape(a: Crds, b: Crds, r: Resource) {
    match r
    case Infrastructure => ShapeOf(a).networks == ShapeOf(b).networks
    case L3Vpn => ShapeOf(a).vpn == ShapeOf(b).vpn
    case Underlay => ShapeOf(a).underlay == ShapeOf(b).underlay
  }

  /** What `Follows` asks of one resource. */
  ghost predicate FollowsOn(w: Crds, faults: seq<Fault>, x: Crds, saved: map<nat, Saved>, r: Resource)
    requires Suitable(w, faults)
  {
    && SameShape(x, w, r)
    && (forall i | 0 <= i < |faults| && ResourceOf(faults[i]) == r :: SlotFollows(w, faults, State(x, saved, map[]), i))
    && (forall s | Untargeted(w, faults, s) && ResourceOfSlot(s) == r :: Read(x, s) == Read(w, s))
  }

  lemma FollowsByResource(w: Crds, faults: seq<Fault>, st: State)
    requires Suitable(w, faults)
    ensures Follows(w, faults, st) <==> (forall i | i in st.saved :: i < |faults|) && forall r :: FollowsOn(w, faults, st.w, st.saved, r)
  {
    if forall r :: FollowsOn(w, faults, st.w, st.saved, r) {
      assert FollowsOn(w, faults, st.w, st.saved, Infrastructure) && FollowsOn(w, faults, st.w, st.saved, L3Vpn)
             && FollowsOn(w, faults, st.w, st.saved, Underlay);
      forall i | 0 <= i < |faults| ensures SlotFollows(w, faults, st, i) {
        assert FollowsOn(w, faults, st.w, st.saved, ResourceOf(faults[i]));
        assert SlotFollows(w, faults, State(st.w, st.saved, map[]), i);
      }
      forall s | Untargeted(w, faults, s) ensures Read(st.w, s) == Read(w, s) {
        assert FollowsOn(w, faults, st.w, st.saved, ResourceOfSlot(s));
      }
    }
    if Follows(w, faults, st) {
      forall i | 0 <= i < |faults| ensures SlotFollows(w, faults, State(st.w, st.saved, map[]), i) {
        assert SlotFollows(w, faults, st, i);
      }
    }
  }

  /** It depends on that resource, and on what is saved for its faults, only. */
  lemma FollowsOnLocally(w: Crds, faults: seq<Fault>, a: Crds, b: Crds, saved: map<nat, Saved>, saved': map<nat, Saved>, r: Resource)
    requires Suitable(w, faults) && SameResource(a, b, r) && FollowsOn(w, faults, a, saved, r)
    requires forall i | 0 <= i < |faults| && ResourceOf(faults[i]) == r :: Get(saved, i) == Get(saved', i)
    ensures FollowsOn(w, faults, b, saved', r)
  {
    forall s | ResourceOfSlot(s) == r ensures Read(a, s) == Read(b, s) {
      ReadLocally(a, b, s);
    }
    forall i | 0 <= i < |faults| && ResourceOf(faults[i]) == r ensures SlotFollows(w, faults, State(b, saved', map[]), i) {
      SlotOnResource(w, faults[i]);
      assert SlotFollows(w, faults, State(a, saved, map[]), i);
      assert Get(saved, i) == Get(saved', i);
    }
  }

  /** The fault changes nothing where it strikes. */
  predicate Changeless(w: Crds, f: Fault)
    requires SlotOf(w, f).Some?
  {
    Faulted(f, Read(w, SlotOf(w, f).value)) == Read(w, SlotOf(w, f).value)
  }

  /** Of any two faults on one resource, neither changes anything. */
  ghost predicate OnlyAloneChanging(w: Crds, faults: seq<Fault>)
    requires Suitable(w, faults)
  {
    forall i, j | 0 <= i < |faults| && 0 <= j < |faults| && i != j && ResourceOf(faults[i]) == ResourceOf(faults[j]) :: Changeless(w, faults[i])
  }

  /** Everything follows, and would if any handler's fetched list were the current one. */
  ghost predicate Robust(w: Crds, faults: seq<Fault>, st: State)
    requires Suitable(w, faults)
  {
    && Follows(w, faults, st)
    && forall i | i in st.held && i < |faults| :: FollowsOn(w, faults, st.held[i], st.saved, ResourceOf(faults[i]))
  }

  /** Recording a changeless fault the other way round keeps what follows. */
  lemma ChangelessToggles(w: Crds, faults: seq<Fault>, x: Crds, saved: map<nat, Saved>, i: nat, s: Option<Saved>)
    requires Suitable(w, faults) && i < |faults| && Changeless(w, faults[i]) && FollowsOn(w, faults, x, saved, ResourceOf(faults[i]))
    requires s.Some? <==> i !in saved
    requires s.Some? ==> Remembers(faults[i], SlotOf(w, faults[i]).value, s.value, Read(w, SlotOf(w, faults[i]).value))
    ensures FollowsOn(w, faults, x, Remember(saved, i, s), ResourceOf(faults[i]))
  {
    var after := Remember(saved, i, s);
    forall j | 0 <= j < |faults| && ResourceOf(faults[j]) == ResourceOf(faults[i])
      ensures SlotFollows(w, faults, State(x, after, map[]), j)
    {
      assert SlotFollows(w, faults, State(x, saved, map[]), j);
      if j == i {
        SlotOnResource(w, faults[i]);
      }
    }
  }

  /** What a handler makes of the list it fetched follows on its resource. */
  lemma HeldFollows(w: Crds, faults: seq<Fault>, st: State, i: nat)
    requires Suitable(w, faults) && Robust(w, faults, st) && i in st.held && i < |faults|
    ensures var h, next := Handled(st.held[i], faults[i], Get(st.saved, i)), Apply(st, faults, Patch(i));
            && h.Some? && next.saved == Remember(st.saved, i, h.value.1) && next.held == st.held - {i}
            && Follows(w, faults, next)
            && SameElsewhere(st.w, next.w, ResourceOf(faults[i]))
            && (h.value.1.Some? <==> i !in st.saved)
            && (h.value.1.Some? ==> Remembers(faults[i], SlotOf(w, faults[i]).value, h.value.1.value, Read(w, SlotOf(w, faults[i]).value)))
  {
    var f, r := faults[i], ResourceOf(faults[i]);
    var there := State(Publish(st.w, st.held[i], r), st.saved, st.held);
    FollowsByResource(w, faults, st);
    forall q ensures FollowsOn(w, faults, there.w, st.saved, q) {
      assert FollowsOn(w, faults, st.w, st.saved, q);
      FollowsOnLocally(w, faults, if q == r then st.held[i] else st.w, there.w, st.saved, st.saved, q);
    }
    FollowsByResource(w, faults, there);
    HandledLocally(st.held[i], there.w, f, Get(st.saved, i));
    HandledWrites(w, faults, there, i);
    HandledFollows(w, faults, there, i, Apply(st, faults, Patch(i)));
  }

  /** After fault i was recorded the other way round, another handler's list still follows. */
  lemma OthersFollow(w: Crds, faults: seq<Fault>, x: Crds, saved: map<nat, Saved>, i: nat, s: Option<Saved>, j: nat)
    requires Suitable(w, faults) && OnlyAloneChanging(w, faults) && i < |faults| && j < |faults| && i != j
    requires FollowsOn(w, faults, x, saved, ResourceOf(faults[j]))
    requires s.Some? <==> i !in saved
    requires s.Some? ==> Remembers(faults[i], SlotOf(w, faults[i]).value, s.value, Read(w, SlotOf(w, faults[i]).value))
    ensures FollowsOn(w, faults, x, Remember(saved, i, s), ResourceOf(faults[j]))
  {
    if ResourceOf(faults[j]) == ResourceOf(faults[i]) {
      ChangelessToggles(w, faults, x, saved, i, s);
    } else {
      FollowsOnLocally(w, faults, x, x, saved, Remember(saved, i, s), ResourceOf(faults[j]));
    }
  }

  lemma PatchKeepsRobust(w: Crds, faults: seq<Fault>, st: State, i: nat)
    requires Suitable(w, faults) && OnlyAloneChanging(w, faults) && Robust(w, faults, st) && i in st.held && i < |faults|
    ensures Robust(w, faults, Apply(st, faults, Patch(i)))
  {
    var next := Apply(st, faults, Patch(i));
    HeldFollows(w, faults, st, i);
    var s := Handled(st.held[i], faults[i], Get(st.saved, i)).value.1;
    forall j | j in next.held && j < |faults| ensures FollowsOn(w, faults, next.held[j], next.saved, ResourceOf(faults[j])) {
      assert j in st.held && next.held[j] == st.held[j];
      OthersFollow(w, faults, st.held[j], st.saved, i, s, j);
    }
  }

  lemma {:induction false} EveryRunRobust(w: Crds, faults: seq<Fault>, ops: seq<Op>)
    requires Suitable(w, faults) && OnlyAloneChanging(w, faults)
    ensures Robust(w, faults, RunOf(w, faults, ops))
  {
    if ops != [] {
      var op, st, next := ops[|ops| - 1], RunOf(w, faults, ops[..|ops| - 1]), RunOf(w, faults, ops);
      EveryRunRobust(w, faults, ops[..|ops| - 1]);
      if op.Patch? && op.fault < |faults| && op.fault in st.held {
        PatchKeepsRobust(w, faults, st, op.fault);
      } else {
        SameFollows(w, faults, st, next);
        FollowsByResource(w, faults, st);
      }
    }
  }

  lemma RunOfMore(w: Crds, faults: seq<Fault>, ops: seq<Op>, op: Op)
    ensures RunOf(w, faults, ops + [op]) == Apply(RunOf(w, faults, ops), faults, op)
  {
    assert (ops + [op])[..|ops|] == ops;
  }

  /** Both faults are injected in turn; then both handlers fetch before either restores. */
  function Colliding(i: nat, j: nat): seq<Op> {
    [] + [Fetch(i)] + [Patch(i)] + [Fetch(j)] + [Patch(j)] + [Fetch(i)] + [Fetch(j)] + [Patch(i)] + [Patch(j)]
  }

  lemma RunOfPair(w: Crds, faults: seq<Fault>, ops: seq<Op>, a: Op, b: Op)
    ensures RunOf(w, faults, ops + [a] + [b]) == Apply(Apply(RunOf(w, faults, ops), faults, a), faults, b)
  {
    RunOfMore(w, faults, ops, a);
    RunOfMore(w, faults, ops + [a], b);
  }

  lemma CollidingIs(w: Crds, faults: seq<Fault>, i: nat, j: nat)
    ensures RunOf(w, faults, Colliding(i, j)) ==
            Overlapped(Served(Served(State(w, map[], map[]), faults, i), faults, j), faults, i, j, true)
  {
    var one := [] + [Fetch(i)] + [Patch(i)];
    var two := one + [Fetch(j)] + [Patch(j)];
    var three := two + [Fetch(i)] + [Fetch(j)];
    RunOfPair(w, faults, [], Fetch(i), Patch(i));
    RunOfPair(w, faults, one, Fetch(j), Patch(j));
    RunOfPair(w, faults, two, Fetch(i), Fetch(j));
    RunOfPair(w, faults, three, Patch(i), Patch(j));
  }

  ghost predicate RestoredAfter(w: Crds, faults: seq<Fault>, ops: seq<Op>) {
    RunOf(w, faults, ops).saved == map[] ==> SameEffective(RunOf(w, faults, ops).w, w)
  }

  /** Every schedule after which no fault is in place gives back the whole effective configuration,
      however handlers overlap, if and only if of any two faults on one resource neither changes
      anything. */
  lemma RestoredOnEveryScheduleIff(w: Crds, faults: seq<Fault>)
    requires Suitable(w, faults)
    ensures (forall ops :: RestoredAfter(w, faults, ops)) <==> OnlyAloneChanging(w, faults)
  {
    if OnlyAloneChanging(w, faults) {
      forall ops ensures RestoredAfter(w, faults, ops) {
        EveryRunRobust(w, faults, ops);
        if RunOf(w, faults, ops).saved == map[] {
          FollowsIsRestored(w, faults, RunOf(w, faults, ops));
        }
      }
    } else {
      var i, j :| 0 <= i < |faults| && 0 <= j < |faults| && i != j && ResourceOf(faults[i]) == ResourceOf(faults[j]) && !Changeless(w, faults[i]);
      OverlappingRestorationsIff(w, faults, i, j, true);
      CollidingIs(w, faults, i, j);
      assert !RestoredAfter(w, faults, Colliding(i, j));
    }
  }

  // ---------------------------------------------------------------- the loops

  /** The nested scan for the network of an interface, broken off at the first hit. */
  method FindTargetNetwork(networks: seq<Network>, router: string, iface: string) returns (target: Option<Network>)
    ensures target == TargetNetwork(networks, router, iface)
  {
    var rest := networks;
    while rest != []
      invariant TargetNetwork(rest, router, iface) == TargetNetwork(networks, router, iface)
    {
      var attached := rest[0].attached;
      for c := 0 to |attached|
        invariant (router, iface) !in attached[..c]
      {
        if attached[c] == (router, iface) {
          return Some(rest[0]);
        }
      }
      assert attached[..|attached|] == attached;
      rest := rest[1..];
    }
    return None;
  }

  /** The loop that rebuilds the network list with one network's MTU changed. */
  method PatchMtu(networks: seq<Network>, name: string, mtu: Option<int>) returns (patched: seq<Network>)
    ensures patched == SetMtu(networks, name, mtu)
  {
    patched := [];
    for i := 0 to |networks|
      invariant |patched| == i && forall k | 0 <= k < i :: patched[k] == SetMtu(networks, name, mtu)[k]
    {
      var copy := networks[i];
      if copy.name == name {
        copy := copy.(mtu := mtu);
      }
      patched := patched + [copy];
    }
  }

  /** The scan of one router's entries. */
  method FindEntry(es: seq<Entry>, vrf: string) returns (found: Option<nat>)
    ensures found == IndexOf(EntryNames(es), vrf)
  {
    for i := 0 to |es|
      invariant forall k | 0 <= k < i :: es[k].name != vrf
    {
      if es[i].name == vrf {
        assert EntryNames(es)[i] == vrf;
        return Some(i);
      }
    }
    assert forall k | 0 <= k < |es| :: EntryNames(es)[k] == es[k].name;
    return None;
  }

  /** The nested scan for the index of the first router of that name which has the VRF. */
  method FindTargetRouter(routers: seq<VpnRouter>, which: Which, router: string, vrf: string) returns (target: Option<nat>)
    ensures target == TargetRouter(routers, which, router, vrf)
  {
    for i := 0 to |routers|
      invariant forall k | 0 <= k < i :: !HasVrf(routers[k], which, router, vrf)
    {
      if routers[i].name == router {
        var entry := FindEntry(Entries(routers[i], which), vrf);
        if entry.Some? {
          return Some(i);
        }
      }
    }
    return None;
  }

  /** The loop that moves the areas back. */
  method MoveBack(areas: seq<Area>, wrong: string, correct: string) returns (moved: seq<Area>)
    ensures moved == MovedBack(areas, wrong, correct)
  {
    moved := areas;
    for i := 0 to |areas|
      invariant |moved| == |areas|
      invariant forall k | 0 <= k < i :: moved[k] == MovedBack(areas, wrong, correct)[k]
      invariant forall k | i <= k < |areas| :: moved[k] == areas[k]
    {
      if moved[i].area == wrong {
        moved := moved[i := moved[i].(area := correct, kind := "backbone")];
      }
    }
  }
}
