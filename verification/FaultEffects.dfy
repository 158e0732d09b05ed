/** What each injection leaves in the custom resources, list by list. */
module FaultEffects {
  import opened Common
  import opened Positions
  import opened FaultInjection

  // ---------------------------------------------------------------- targets

  /** n is the first network to which the router's interface is attached. */
  ghost predicate FirstAttached(networks: seq<Network>, router: string, iface: string, n: nat) {
    && n < |networks| && (router, iface) in networks[n].attached
    && forall k | 0 <= k < n :: (router, iface) !in networks[k].attached
  }

  /** e is the first entry of the VRF. */
  ghost predicate FirstEntry(es: seq<Entry>, vrf: string, e: nat) {
    e < |es| && es[e].name == vrf && forall k | 0 <= k < e :: es[k].name != vrf
  }

  ghost predicate HasEntry(es: seq<Entry>, vrf: string) {
    exists e: nat :: FirstEntry(es, vrf, e)
  }

  /** k is the first router of that name which has the VRF, in its BGP section or among its VRFs. */
  ghost predicate FirstWith(routers: seq<VpnRouter>, bgp: bool, router: string, vrf: string, k: nat) {
    && k < |routers| && routers[k].name == router && HasEntry(if bgp then routers[k].bgp else routers[k].vrfs, vrf)
    && forall j | 0 <= j < k :: routers[j].name != router || !HasEntry(if bgp then routers[j].bgp else routers[j].vrfs, vrf)
  }

  ghost predicate FirstRouter(routers: seq<UnderlayRouter>, router: string, k: nat) {
    k < |routers| && routers[k].name == router && forall j | 0 <= j < k :: routers[j].name != router
  }

  // ---------------------------------------------------------------- effects

  /** Only the values of the first entry of the VRF change, on router k. */
  ghost predicate ValuesPut(before: seq<VpnRouter>, after: seq<VpnRouter>, bgp: bool, k: nat, vrf: string, values: seq<string>) {
    && |after| == |before| && k < |before|
    && (forall j | 0 <= j < |before| && j != k :: after[j] == before[j])
    && after[k].name == before[k].name
    && (if bgp then after[k].vrfs == before[k].vrfs else after[k].bgp == before[k].bgp)
    && var was, now := if bgp then before[k].bgp else before[k].vrfs, if bgp then after[k].bgp else after[k].vrfs;
       && |now| == |was|
       && forall e: nat | e < |was| :: now[e] == if FirstEntry(was, vrf, e) then Entry(vrf, Some(values)) else was[e]
  }

  /** `after` is `before` with every `correct` made `wrong`, or only `wrong` when there was none. */
  ghost predicate TargetsSwapped(before: seq<string>, after: seq<string>, wrong: string, correct: string) {
    && (correct !in before ==> after == [wrong])
    && (correct in before ==>
          |after| == |before| && forall i | 0 <= i < |before| :: after[i] == if before[i] == correct then wrong else before[i])
    && wrong in after && (wrong != correct ==> correct !in after)
  }

  /** `after` is `before` with every `correct` area renamed, or one new area when there was none at all. */
  ghost predicate AreasSwapped(before: seq<Area>, after: seq<Area>, wrong: string, correct: string) {
    && (before == [] ==> after == [Area(wrong, "non-backbone", "")])
    && (before != [] ==>
          |after| == |before| &&
          forall i | 0 <= i < |before| ::
            && after[i].kind == before[i].kind && after[i].rest == before[i].rest
            && after[i].area == if before[i].area == correct then wrong else before[i].area)
    && (wrong != correct ==> forall a | a in after :: a.area != correct)
  }

  /** Only underlay router k changes. */
  ghost predicate OnlyRouter(before: seq<UnderlayRouter>, after: seq<UnderlayRouter>, k: nat) {
    && |after| == |before| && k < |before| && after[k].name == before[k].name
    && forall j | 0 <= j < |before| && j != k :: after[j] == before[j]
  }

  /** What an injection does to the three lists. */
  ghost predicate Strikes(w: Crds, f: Fault, after: Crds) {
    match f
    case MtuMismatch(router, iface, mtu) =>
      && after.vpn == w.vpn && after.underlay == w.underlay && |after.networks| == |w.networks|
      && exists n: nat :: FirstAttached(w.networks, router, iface, n) &&
                     forall i | 0 <= i < |w.networks| ::
                       after.networks[i] == if w.networks[i].name == w.networks[n].name then w.networks[i].(mtu := Some(mtu)) else w.networks[i]
    case BgpSessionDown(router, vrf) =>
      && after.networks == w.networks && after.underlay == w.underlay
      && exists k: nat :: FirstWith(w.vpn, true, router, vrf, k) && ValuesPut(w.vpn, after.vpn, true, k, vrf, [])
    case VrfRtMisconfiguration(router, vrf, wrong, correct) =>
      && after.networks == w.networks && after.underlay == w.underlay
      && exists k: nat, e: nat, values :: FirstWith(w.vpn, false, router, vrf, k) && FirstEntry(w.vpn[k].vrfs, vrf, e)
                                && ValuesPut(w.vpn, after.vpn, false, k, vrf, values)
                                && TargetsSwapped(w.vpn[k].vrfs[e].values.GetOr([]), values, wrong, correct)
    case PacketCorruption(router, policy) =>
      && after.networks == w.networks && after.vpn == w.vpn
      && exists k: nat :: FirstRouter(w.underlay, router, k) && OnlyRouter(w.underlay, after.underlay, k)
                     && after.underlay[k].ospf == w.underlay[k].ospf && after.underlay[k].policy == Some(policy)
    case OspfAreaMismatch(router, wrong, correct) =>
      && after.networks == w.networks && after.vpn == w.vpn
      && exists k: nat :: FirstRouter(w.underlay, router, k) && OnlyRouter(w.underlay, after.underlay, k)
                     && after.underlay[k].policy == w.underlay[k].policy && w.underlay[k].ospf.Some? && after.underlay[k].ospf.Some?
                     && after.underlay[k].ospf.value.costs == w.underlay[k].ospf.value.costs
                     && AreasSwapped(w.underlay[k].ospf.value.areas, after.underlay[k].ospf.value.areas, wrong, correct)
    case OspfCostInflation(router, iface, cost) =>
      && after.networks == w.networks && after.vpn == w.vpn
      && exists k: nat :: FirstRouter(w.underlay, router, k) && OnlyRouter(w.underlay, after.underlay, k)
                     && after.underlay[k].policy == w.underlay[k].policy && after.underlay[k].ospf.Some?
                     && after.underlay[k].ospf.value.areas == (if w.underlay[k].ospf.Some? then w.underlay[k].ospf.value.areas else [])
                     && CostPut(if w.underlay[k].ospf.Some? then w.underlay[k].ospf.value.costs else [], after.underlay[k].ospf.value.costs, iface, cost)
  }

  /** One entry, the last, gives the interface its cost; the entries of other interfaces are as before, in order. */
  ghost predicate CostPut(before: seq<Cost>, after: seq<Cost>, iface: string, cost: int) {
    && after != [] && after[|after| - 1] == Cost(iface, Some(cost))
    && var others, good := after[..|after| - 1], ForOthers(before, iface);
       exists at :: Selects(before, 0, others, good, at)
  }

  function ForOthers(costs: seq<Cost>, iface: string): nat -> bool {
    (i: nat) => i < |costs| && costs[i].iface != iface
  }

  // ---------------------------------------------------------------- each injection strikes its target

  lemma {:induction false} TargetIsFirst(networks: seq<Network>, router: string, iface: string) returns (n: nat)
    requires TargetNetwork(networks, router, iface).Some?
    ensures FirstAttached(networks, router, iface, n) && TargetNetwork(networks, router, iface) == Some(networks[n])
  {
    if (router, iface) in networks[0].attached {
      n := 0;
    } else {
      n := TargetIsFirst(networks[1..], router, iface);
      n := n + 1;
    }
  }

  lemma EntryIs(es: seq<Entry>, vrf: string)
    ensures forall e: nat :: FirstEntry(es, vrf, e) <==> IndexOf(EntryNames(es), vrf) == Some(e)
    ensures HasEntry(es, vrf) <==> IndexOf(EntryNames(es), vrf).Some?
  {
    var i := IndexOf(EntryNames(es), vrf);
    forall k | 0 <= k < |es| ensures EntryNames(es)[k] == es[k].name {
    }
    if i.Some? {
      assert FirstEntry(es, vrf, i.value);
    }
  }

  lemma TargetIsFirstWith(routers: seq<VpnRouter>, which: Which, router: string, vrf: string)
    requires TargetRouter(routers, which, router, vrf).Some?
    ensures FirstWith(routers, which.Neighbors?, router, vrf, TargetRouter(routers, which, router, vrf).value)
  {
    forall j | 0 <= j < |routers| {
      EntryIs(Entries(routers[j], which), vrf);
    }
  }

  lemma PutValuesPuts(w: Crds, which: Which, k: nat, vrf: string, values: seq<string>)
    requires k < |w.vpn| && ValuesIn(w.vpn[k], which, vrf).Some?
    ensures ValuesPut(w.vpn, PutValues(w, which, k, vrf, values).vpn, which.Neighbors?, k, vrf, values)
  {
    EntryIs(Entries(w.vpn[k], which), vrf);
  }

  lemma MisdirectedSwaps(values: seq<string>, wrong: string, correct: string)
    ensures TargetsSwapped(values, Misdirected(values, wrong, correct), wrong, correct)
  {
    var after := Misdirected(values, wrong, correct);
    if correct in values {
      var i :| 0 <= i < |values| && values[i] == correct;
      assert after[i] == wrong;
    }
  }

  lemma MovedSwaps(areas: seq<Area>, wrong: string, correct: string)
    ensures AreasSwapped(areas, Moved(areas, wrong, correct), wrong, correct)
  {
  }

  lemma FirstUnderlayIs(w: Crds, router: string)
    requires FirstUnderlay(w, router).Some?
    ensures FirstRouter(w.underlay, router, FirstUnderlay(w, router).value)
  {
    forall k | 0 <= k < |w.underlay| ensures UnderlayNames(w.underlay)[k] == w.underlay[k].name {
    }
  }

  lemma {:induction false} DropCostsIs(costs: seq<Cost>, from: nat, iface: string) returns (at: seq<nat>)
    requires from <= |costs|
    ensures Selects(costs, from, DropCosts(costs[from..], iface), ForOthers(costs, iface), at)
    decreases |costs| - from
  {
    if from == |costs| {
      at := [];
    } else {
      var good, rest := ForOthers(costs, iface), DropCosts(costs[from + 1..], iface);
      at := DropCostsIs(costs, from + 1, iface);
      assert costs[from..][0] == costs[from] && costs[from..][1..] == costs[from + 1..];
      if good(from) {
        SelectsOneMore(costs, from, rest, good, at, DropCosts(costs[from..], iface), [from] + at);
        at := [from] + at;
      } else {
        SelectsNoMore(costs, from, rest, good, at);
      }
    }
  }

  lemma CostsWithPuts(costs: seq<Cost>, iface: string, cost: int)
    ensures CostPut(costs, CostsWith(costs, iface, Some(cost)), iface, cost)
  {
    var at := DropCostsIs(costs, 0, iface);
    assert costs[0..] == costs;
    assert CostsWith(costs, iface, Some(cost))[..|DropCosts(costs, iface)|] == DropCosts(costs, iface);
  }

  lemma VpnInjectionStrikes(w: Crds, f: Fault)
    requires Inject(w, f).Some? && (f.BgpSessionDown? || f.VrfRtMisconfiguration?)
    ensures Strikes(w, f, Inject(w, f).value.0)
  {
    var which := if f.BgpSessionDown? then Neighbors else Imports;
    var k := TargetRouter(w.vpn, which, f.router, f.vrf).value;
    var was := ValuesIn(w.vpn[k], which, f.vrf).value;
    TargetIsFirstWith(w.vpn, which, f.router, f.vrf);
    var e := IndexOf(EntryNames(Entries(w.vpn[k], which)), f.vrf).value;
    EntryIs(Entries(w.vpn[k], which), f.vrf);
    if f.BgpSessionDown? {
      PutValuesPuts(w, which, k, f.vrf, []);
    } else {
      var values := Misdirected(was, f.wrongRt, f.correctRt);
      PutValuesPuts(w, which, k, f.vrf, values);
      MisdirectedSwaps(was, f.wrongRt, f.correctRt);
      assert FirstEntry(w.vpn[k].vrfs, f.vrf, e) && TargetsSwapped(w.vpn[k].vrfs[e].values.GetOr([]), values, f.wrongRt, f.correctRt);
    }
  }

  lemma PolicyInjectionStrikes(w: Crds, f: Fault)
    requires Inject(w, f).Some? && f.PacketCorruption?
    ensures Strikes(w, f, Inject(w, f).value.0)
  {
    var k, after := FirstUnderlay(w, f.router).value, Inject(w, f).value.0;
    FirstUnderlayIs(w, f.router);
    assert FirstRouter(w.underlay, f.router, k) && OnlyRouter(w.underlay, after.underlay, k);
  }

  lemma AreaInjectionStrikes(w: Crds, f: Fault)
    requires Inject(w, f).Some? && f.OspfAreaMismatch?
    ensures Strikes(w, f, Inject(w, f).value.0)
  {
    var k, after := FirstUnderlay(w, f.router).value, Inject(w, f).value.0;
    FirstUnderlayIs(w, f.router);
    MovedSwaps(w.underlay[k].ospf.value.areas, f.wrong, f.correct);
    assert FirstRouter(w.underlay, f.router, k) && OnlyRouter(w.underlay, after.underlay, k);
  }

  lemma CostInjectionStrikes(w: Crds, f: Fault)
    requires Inject(w, f).Some? && f.OspfCostInflation?
    ensures Strikes(w, f, Inject(w, f).value.0)
  {
    var k, after := FirstUnderlay(w, f.router).value, Inject(w, f).value.0;
    FirstUnderlayIs(w, f.router);
    CostsWithPuts(OspfOf(w.underlay[k]).costs, f.iface, f.cost);
    assert FirstRouter(w.underlay, f.router, k) && OnlyRouter(w.underlay, after.underlay, k);
  }

  /** Every injection that succeeds strikes its target, and changes nothing else in any of the lists. */
  lemma InjectionStrikes(w: Crds, f: Fault)
    requires Inject(w, f).Some?
    ensures Strikes(w, f, Inject(w, f).value.0)
  {
    match f
    case MtuMismatch(router, iface, mtu) =>
      var n := TargetIsFirst(w.networks, router, iface);
    case PacketCorruption(_, _) => PolicyInjectionStrikes(w, f);
    case OspfAreaMismatch(_, _, _) => AreaInjectionStrikes(w, f);
    case OspfCostInflation(_, _, _) => CostInjectionStrikes(w, f);
    case _ => VpnInjectionStrikes(w, f);
  }
}
