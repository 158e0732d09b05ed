/** Validation of a network topology and the generation it guards. */
module Topology {
  import opened Common
  import opened Addressing

  /** An address is None when the string does not parse. */
  datatype Attachment = Attachment(router: string, iface: string, ip: Option<Ip>)

  /** A subnet is None when the string does not parse or has host bits set. */
  datatype Network = Network(name: string, kind: string, vlan: Option<nat>, subnet: Option<Net>,
                             connected: seq<Attachment>, mtu: nat, gateway: Option<string>)

  datatype IfaceDef = IfaceDef(name: string, network: string, description: string, enabled: bool, vrf: Option<string>)

  datatype RouterDef = RouterDef(name: string, routerId: string, interfaces: seq<IfaceDef>)

  // ---------------------------------------------------------------- dictionaries: the last entry wins

  function LastNamed(networks: seq<Network>, name: string): (n: Option<Network>)
    ensures n.Some? ==> n.value in networks && n.value.name == name
    ensures n.None? <==> forall k | 0 <= k < |networks| :: networks[k].name != name
  {
    if networks == [] then None
    else if LastNamed(networks[1..], name).Some? then LastNamed(networks[1..], name)
    else if networks[0].name == name then Some(networks[0])
    else None
  }

  function LastOf(connected: seq<Attachment>, router: string): (a: Option<Attachment>)
    ensures a.Some? ==> a.value in connected && a.value.router == router
    ensures a.None? <==> forall k | 0 <= k < |connected| :: connected[k].router != router
  {
    if connected == [] then None
    else if LastOf(connected[1..], router).Some? then LastOf(connected[1..], router)
    else if connected[0].router == router then Some(connected[0])
    else None
  }

  /** network_subnets[name], when every subnet parses. */
  function SubnetOf(networks: seq<Network>, name: string): Option<Net> {
    match LastNamed(networks, name)
    case None => None
    case Some(n) => n.subnet
  }

  // ---------------------------------------------------------------- what the validators accept

  predicate SubnetsParse(networks: seq<Network>) {
    forall i | 0 <= i < |networks| :: networks[i].subnet.Some?
  }

  ghost predicate Disjoint(networks: seq<Network>) {
    forall i, j | 0 <= i < |networks| && 0 <= j < |networks| && networks[i].name != networks[j].name ::
      SubnetOf(networks, networks[i].name).Some? && SubnetOf(networks, networks[j].name).Some? ==>
        !Overlaps(SubnetOf(networks, networks[i].name).value, SubnetOf(networks, networks[j].name).value)
  }

  predicate Placed(a: Attachment, subnet: Net) {
    a.ip.Some? && subnet.Contains(a.ip.value)
  }

  ghost predicate AddressesFit(connected: seq<Attachment>, subnet: Net) {
    && (forall k | 0 <= k < |connected| :: Placed(connected[k], subnet))
    && (forall k, l | 0 <= k < l < |connected| :: connected[k].ip != connected[l].ip)
  }

  ghost predicate AllFit(networks: seq<Network>) {
    forall i {:trigger networks[i].connected} | 0 <= i < |networks| ::
      var net := SubnetOf(networks, networks[i].name);
      net.Some? && AddressesFit(networks[i].connected, net.value)
  }

  ghost predicate IpsValid(networks: seq<Network>) {
    && SubnetsParse(networks)
    && Disjoint(networks)
    && AllFit(networks)
  }

  predicate IfaceMapped(networks: seq<Network>, router: string, iface: IfaceDef) {
    iface.name == "lo" ||
    var n := LastNamed(networks, iface.network);
    n.Some? && LastOf(n.value.connected, router).Some? && LastOf(n.value.connected, router).value.iface == iface.name
  }

  predicate MappingsValid(networks: seq<Network>, routers: seq<RouterDef>) {
    forall r, i | r in routers && i in r.interfaces :: IfaceMapped(networks, r.name, i)
  }

  // ---------------------------------------------------------------- the validators

  /** Builds the dictionary; its keys in insertion order. */
  method BuildSubnets(networks: seq<Network>) returns (ok: bool, names: seq<string>, subnets: map<string, Net>)
    ensures ok <==> SubnetsParse(networks)
    ensures ok ==> (forall n :: n in names <==> n in subnets) && (forall n :: n in subnets <==> LastNamed(networks, n).Some?)
    ensures ok ==> forall k, l | 0 <= k < l < |names| :: names[k] != names[l]
    ensures ok ==> forall n | n in subnets :: SubnetOf(networks, n) == Some(subnets[n])
  {
    ok, names, subnets := true, [], map[];
    var rest := networks;
    ghost var done: seq<Network> := [];
    while rest != []
      invariant networks == done + rest
      invariant SubnetsParse(done)
      invariant forall n :: n in names <==> n in subnets
      invariant forall k, l | 0 <= k < l < |names| :: names[k] != names[l]
      invariant forall n :: (n in subnets <==> LastNamed(done, n).Some?) && (n in subnets ==> SubnetOf(done, n) == Some(subnets[n]))
    {
      var network := rest[0];
      if network.subnet.None? {
        assert networks[|done|] == network;
        return false, names, subnets;
      }
      forall n {
        LastNamedAppend(done, network, n);
      }
      if network.name !in subnets {
        names := names + [network.name];
      }
      subnets := subnets[network.name := network.subnet.value];
      done := done + [network];
      rest := rest[1..];
    }
    assert done == networks;
  }

  lemma {:induction false} LastNamedAppend(networks: seq<Network>, n: Network, name: string)
    ensures LastNamed(networks + [n], name) == if n.name == name then Some(n) else LastNamed(networks, name)
  {
    if networks == [] {
      assert networks + [n] == [n] && [n][1..] == [];
    } else {
      assert (networks + [n])[1..] == networks[1..] + [n];
      LastNamedAppend(networks[1..], n, name);
    }
  }

  /** The inner loop over the subnets that follow. */
  method OverlapsLater(names: seq<string>, subnets: map<string, Net>, i: nat) returns (clear: bool)
    requires i < |names| && forall k | 0 <= k < |names| :: names[k] in subnets
    ensures clear <==> forall l | i < l < |names| :: !Overlaps(subnets[names[i]], subnets[names[l]])
  {
    for j := i + 1 to |names|
      invariant forall l | i < l < j :: !Overlaps(subnets[names[i]], subnets[names[l]])
    {
      if Overlaps(subnets[names[i]], subnets[names[j]]) {
        return false;
      }
    }
    return true;
  }

  /** The nested loop over the subnet list. */
  method FindOverlap(names: seq<string>, subnets: map<string, Net>) returns (clear: bool)
    requires forall n :: n in names <==> n in subnets
    requires forall k, l | 0 <= k < l < |names| :: names[k] != names[l]
    ensures clear <==> forall k, l | 0 <= k < l < |names| :: !Overlaps(subnets[names[k]], subnets[names[l]])
  {
    for i := 0 to |names|
      invariant forall k, l | 0 <= k < i && k < l < |names| :: !Overlaps(subnets[names[k]], subnets[names[l]])
    {
      clear := OverlapsLater(names, subnets, i);
      if !clear {
        return;
      }
    }
    return true;
  }

  /** The inner loop of the assignment check, with its set of used addresses. */
  method CheckAddresses(connected: seq<Attachment>, subnet: Net) returns (valid: bool)
    ensures valid <==> AddressesFit(connected, subnet)
  {
    var used: set<Ip> := {};
    for k := 0 to |connected|
      invariant forall l | 0 <= l < k :: Placed(connected[l], subnet) && connected[l].ip.value in used
      invariant forall ip | ip in used :: exists l :: 0 <= l < k && connected[l].ip == Some(ip)
      invariant forall l, m | 0 <= l < m < k :: connected[l].ip != connected[m].ip
    {
      var ip := connected[k].ip;
      if ip.None? || !subnet.Contains(ip.value) {
        assert !Placed(connected[k], subnet);
        return false;
      }
      if ip.value in used {
        return false;
      }
      used := used + {ip.value};
    }
    return true;
  }

  lemma OverlapsSymmetric(a: Net, b: Net)
    ensures Overlaps(a, b) == Overlaps(b, a)
  {
  }

  /** The loop over the networks, duplicates included. */
  method CheckAllAddresses(networks: seq<Network>, subnets: map<string, Net>) returns (valid: bool)
    requires forall n | n in networks :: n.name in subnets && SubnetOf(networks, n.name) == Some(subnets[n.name])
    ensures valid <==> AllFit(networks)
  {
    for i := 0 to |networks|
      invariant forall k {:trigger networks[k].connected} | 0 <= k < i ::
                  var net := SubnetOf(networks, networks[k].name);
                  net.Some? && AddressesFit(networks[k].connected, net.value)
    {
      assert networks[i] in networks;
      var fits := CheckAddresses(networks[i].connected, subnets[networks[i].name]);
      if !fits {
        return false;
      }
    }
    return true;
  }

  /** validate_ip_assignments. */
  method ValidateIpAssignments(networks: seq<Network>) returns (valid: bool)
    ensures valid <==> IpsValid(networks)
  {
    var ok, names, subnets := BuildSubnets(networks);
    if !ok {
      return false;
    }
    var clear := FindOverlap(names, subnets);
    DisjointIff(networks, names, subnets);
    if !clear {
      return false;
    }
    forall n | n in networks ensures n.name in subnets {
      var i :| 0 <= i < |networks| && networks[i] == n;
    }
    valid := CheckAllAddresses(networks, subnets);
  }

  lemma DisjointIff(networks: seq<Network>, names: seq<string>, subnets: map<string, Net>)
    requires SubnetsParse(networks)
    requires forall n :: (n in names <==> n in subnets) && (n in subnets <==> LastNamed(networks, n).Some?)
    requires forall k, l | 0 <= k < l < |names| :: names[k] != names[l]
    requires forall n | n in subnets :: SubnetOf(networks, n) == Some(subnets[n])
    ensures Disjoint(networks) <==> forall k, l | 0 <= k < l < |names| :: !Overlaps(subnets[names[k]], subnets[names[l]])
  {
    if Disjoint(networks) {
      forall k, l | 0 <= k < l < |names| ensures !Overlaps(subnets[names[k]], subnets[names[l]]) {
        assert names[k] in names && names[l] in names;
        var i :| 0 <= i < |networks| && networks[i].name == names[k];
        var j :| 0 <= j < |networks| && networks[j].name == names[l];
      }
    }
    if forall k, l | 0 <= k < l < |names| :: !Overlaps(subnets[names[k]], subnets[names[l]]) {
      forall m, n | m in names && n in names && m != n ensures !Overlaps(subnets[m], subnets[n]) {
        NamesClear(names, subnets, m, n);
      }
      forall i | 0 <= i < |networks| ensures networks[i].name in names {
        assert LastNamed(networks, networks[i].name).Some?;
      }
    }
  }

  lemma NamesClear(names: seq<string>, subnets: map<string, Net>, m: string, n: string)
    requires forall x | x in names :: x in subnets
    requires forall k, l | 0 <= k < l < |names| :: !Overlaps(subnets[names[k]], subnets[names[l]])
    requires m in names && n in names && m != n
    ensures !Overlaps(subnets[m], subnets[n])
  {
    var k :| 0 <= k < |names| && names[k] == m;
    var l :| 0 <= l < |names| && names[l] == n;
    OverlapsSymmetric(subnets[m], subnets[n]);
  }

  /** validate_interface_mappings. */
  method ValidateInterfaceMappings(networks: seq<Network>, routers: seq<RouterDef>) returns (valid: bool)
    ensures valid <==> MappingsValid(networks, routers)
  {
    for r := 0 to |routers|
      invariant forall k, i | 0 <= k < r && i in routers[k].interfaces :: IfaceMapped(networks, routers[k].name, i)
    {
      var interfaces := routers[r].interfaces;
      for i := 0 to |interfaces|
        invariant forall l | 0 <= l < i :: IfaceMapped(networks, routers[r].name, interfaces[l])
      {
        if interfaces[i].name == "lo" {
          continue;
        }
        var network := LastNamed(networks, interfaces[i].network);
        if network.None? {
          assert !IfaceMapped(networks, routers[r].name, interfaces[i]);
          return false;
        }
        var expected := LastOf(network.value.connected, routers[r].name);
        if expected.None? || interfaces[i].name != expected.value.iface {
          assert !IfaceMapped(networks, routers[r].name, interfaces[i]);
          return false;
        }
      }
    }
    return true;
  }

  function Management(networks: seq<Network>): (ms: seq<Network>)
    ensures forall n | n in ms :: n in networks && n.kind == "management"
  {
    if networks == [] then []
    else if networks[0].kind == "management" then [networks[0]] + Management(networks[1..])
    else Management(networks[1..])
  }

  /** validate_management_network: exactly one, and no VLAN on it. */
  predicate ManagementValid(networks: seq<Network>) {
    |Management(networks)| == 1 && Management(networks)[0].vlan.GetOr(0) == 0
  }

  /** get_management_network_name. */
  function ManagementName(networks: seq<Network>): Option<string> {
    if Management(networks) == [] then None else Some(Management(networks)[0].name)
  }

  function FirstNamed(networks: seq<Network>, name: string): (n: Option<Network>)
    ensures n.Some? ==> n.value in networks && n.value.name == name
  {
    if networks == [] then None
    else if networks[0].name == name then Some(networks[0])
    else FirstNamed(networks[1..], name)
  }

  function FirstRouter(routers: seq<RouterDef>, name: string): (r: Option<RouterDef>)
    ensures r.Some? ==> r.value in routers && r.value.name == name
    ensures r.None? ==> forall k | 0 <= k < |routers| :: routers[k].name != name
  {
    if routers == [] then None
    else if routers[0].name == name then Some(routers[0])
    else FirstRouter(routers[1..], name)
  }

  predicate StartsOn(r: RouterDef, network: string) {
    r.interfaces != [] && r.interfaces[0].network == network
  }

  predicate EntersByFirst(routers: seq<RouterDef>, a: Attachment) {
    var r := FirstRouter(routers, a.router);
    r.Some? && r.value.interfaces != [] ==> a.iface == r.value.interfaces[0].name
  }

  predicate ManagementAssigned(networks: seq<Network>, routers: seq<RouterDef>) {
    var m := ManagementName(networks);
    && m.Some? && m.value != ""
    && (forall r | r in routers :: StartsOn(r, m.value))
    && (FirstNamed(networks, m.value).Some? ==>
          forall a | a in FirstNamed(networks, m.value).value.connected :: EntersByFirst(routers, a))
  }

  /** validate_management_interface_assignments. */
  method ValidateManagementAssignments(networks: seq<Network>, routers: seq<RouterDef>) returns (valid: bool)
    ensures valid <==> ManagementAssigned(networks, routers)
  {
    var m := ManagementName(networks);
    if m.None? || m.value == "" {
      return false;
    }
    for r := 0 to |routers|
      invariant forall k | 0 <= k < r :: StartsOn(routers[k], m.value)
    {
      if routers[r].interfaces == [] || routers[r].interfaces[0].network != m.value {
        assert !StartsOn(routers[r], m.value);
        return false;
      }
    }
    var network := FirstNamed(networks, m.value);
    if network.Some? {
      var connected := network.value.connected;
      for c := 0 to |connected|
        invariant forall k | 0 <= k < c :: EntersByFirst(routers, connected[k])
      {
        var r := FirstRouter(routers, connected[c].router);
        if r.Some? && r.value.interfaces != [] && connected[c].iface != r.value.interfaces[0].name {
          assert !EntersByFirst(routers, connected[c]);
          return false;
        }
      }
    }
    return true;
  }

  /** What validate_network_topology accepts, policies apart. */
  ghost predicate Accepted(networks: seq<Network>, routers: seq<RouterDef>) {
    ManagementValid(networks) && ManagementAssigned(networks, routers) && IpsValid(networks) && MappingsValid(networks, routers)
  }

  /** validate_network_topology. */
  method ValidateTopology(networks: seq<Network>, routers: seq<RouterDef>) returns (valid: bool)
    ensures valid <==> Accepted(networks, routers)
  {
    var management := Management(networks);
    if |management| != 1 || management[0].vlan.GetOr(0) != 0 {
      return false;
    }
    valid := ValidateManagementAssignments(networks, routers);
    if valid {
      valid := ValidateIpAssignments(networks);
    }
    if valid {
      valid := ValidateInterfaceMappings(networks, routers);
    }
  }

  // ---------------------------------------------------------------- the lookups by position

  lemma {:induction false} LastNamedAt(networks: seq<Network>, p: nat)
    requires p < |networks| && forall l | p < l < |networks| :: networks[l].name != networks[p].name
    ensures LastNamed(networks, networks[p].name) == Some(networks[p])
  {
    if p > 0 {
      assert networks[1..][p - 1] == networks[p];
      LastNamedAt(networks[1..], p - 1);
    } else {
      assert forall l | 0 <= l < |networks[1..]| :: networks[1..][l].name != networks[0].name;
    }
  }

  lemma {:induction false} LastOfAt(connected: seq<Attachment>, q: nat)
    requires q < |connected| && forall l | q < l < |connected| :: connected[l].router != connected[q].router
    ensures LastOf(connected, connected[q].router) == Some(connected[q])
  {
    if q > 0 {
      assert connected[1..][q - 1] == connected[q];
      LastOfAt(connected[1..], q - 1);
    } else {
      assert forall l | 0 <= l < |connected[1..]| :: connected[1..][l].router != connected[0].router;
    }
  }

  /** Network p, the last of the interface's network, has attachment q, the last of the router's on
      it, under the interface's name. */
  ghost predicate MappedAt(networks: seq<Network>, router: string, i: IfaceDef, p: nat, q: nat) {
    && p < |networks| && networks[p].name == i.network && (forall l | p < l < |networks| :: networks[l].name != i.network)
    && q < |networks[p].connected| && networks[p].connected[q].router == router
    && (forall l | q < l < |networks[p].connected| :: networks[p].connected[l].router != router)
    && networks[p].connected[q].iface == i.name
  }

  lemma {:induction false} LastNamedWhere(networks: seq<Network>, name: string) returns (p: nat)
    requires LastNamed(networks, name).Some?
    ensures p < |networks| && LastNamed(networks, name) == Some(networks[p]) && forall l | p < l < |networks| :: networks[l].name != name
  {
    if LastNamed(networks[1..], name).Some? {
      p := LastNamedWhere(networks[1..], name);
      assert forall l | p + 1 < l < |networks| :: networks[l] == networks[1..][l - 1];
      p := p + 1;
    } else {
      p := 0;
      assert forall l | 0 < l < |networks| :: networks[l] == networks[1..][l - 1];
    }
  }

  lemma {:induction false} LastOfWhere(connected: seq<Attachment>, router: string) returns (q: nat)
    requires LastOf(connected, router).Some?
    ensures q < |connected| && LastOf(connected, router) == Some(connected[q]) && forall l | q < l < |connected| :: connected[l].router != router
  {
    if LastOf(connected[1..], router).Some? {
      q := LastOfWhere(connected[1..], router);
      assert forall l | q + 1 < l < |connected| :: connected[l] == connected[1..][l - 1];
      q := q + 1;
    } else {
      q := 0;
      assert forall l | 0 < l < |connected| :: connected[l] == connected[1..][l - 1];
    }
  }

  /** The interface mapping accepts exactly the loopbacks and the interfaces mapped so. */
  lemma IfaceMappedIff(networks: seq<Network>, router: string, i: IfaceDef)
    ensures IfaceMapped(networks, router, i) <==> i.name == "lo" || exists p: nat, q: nat :: MappedAt(networks, router, i, p, q)
  {
    if p: nat, q: nat :| MappedAt(networks, router, i, p, q) {
      LastNamedAt(networks, p);
      LastOfAt(networks[p].connected, q);
    }
    if IfaceMapped(networks, router, i) && i.name != "lo" {
      var p := LastNamedWhere(networks, i.network);
      var q := LastOfWhere(networks[p].connected, router);
      assert MappedAt(networks, router, i, p, q);
    }
  }

  lemma {:induction false} FirstNamedAt(networks: seq<Network>, p: nat)
    requires p < |networks| && forall l | 0 <= l < p :: networks[l].name != networks[p].name
    ensures FirstNamed(networks, networks[p].name) == Some(networks[p])
  {
    if p > 0 {
      assert networks[1..][p - 1] == networks[p];
      FirstNamedAt(networks[1..], p - 1);
    }
  }

  lemma {:induction false} FirstManagementAt(networks: seq<Network>, p: nat)
    requires p < |networks| && networks[p].kind == "management" && forall l | 0 <= l < p :: networks[l].kind != "management"
    ensures ManagementName(networks) == Some(networks[p].name)
  {
    if p > 0 {
      assert networks[1..][p - 1] == networks[p];
      FirstManagementAt(networks[1..], p - 1);
    }
  }

  lemma {:induction false} FirstRouterAt(routers: seq<RouterDef>, k: nat)
    requires k < |routers| && forall l | 0 <= l < k :: routers[l].name != routers[k].name
    ensures FirstRouter(routers, routers[k].name) == Some(routers[k])
  {
    if k > 0 {
      assert routers[1..][k - 1] == routers[k];
      FirstRouterAt(routers[1..], k - 1);
    }
  }

  lemma {:induction false} FirstRouterWhere(routers: seq<RouterDef>, name: string) returns (k: nat)
    requires FirstRouter(routers, name).Some?
    ensures k < |routers| && routers[k].name == name && forall l | 0 <= l < k :: routers[l].name != name
  {
    if routers[0].name == name {
      k := 0;
    } else {
      k := FirstRouterWhere(routers[1..], name);
      k := k + 1;
    }
  }

  /** The attachment names the first interface of its router: of the first router of the name, if
      there is one with interfaces. */
  ghost predicate ByFirstInterface(routers: seq<RouterDef>, a: Attachment) {
    forall k | 0 <= k < |routers| && routers[k].name == a.router && (forall l | 0 <= l < k :: routers[l].name != a.router) ::
      routers[k].interfaces != [] ==> a.iface == routers[k].interfaces[0].name
  }

  lemma EntersByFirstIff(routers: seq<RouterDef>, a: Attachment)
    ensures EntersByFirst(routers, a) <==> ByFirstInterface(routers, a)
  {
    forall k | 0 <= k < |routers| && routers[k].name == a.router && (forall l | 0 <= l < k :: routers[l].name != a.router)
      ensures FirstRouter(routers, a.router) == Some(routers[k])
    {
      FirstRouterAt(routers, k);
    }
    if FirstRouter(routers, a.router).Some? {
      var k := FirstRouterWhere(routers, a.router);
    }
  }

  /** Let network m be the first management network and n the first network of its name. The
      management assignments are valid if and only if it has a name, the first interface of every
      router is on it, and every attachment of n names the first interface of its router. */
  lemma ManagementAssignedIff(networks: seq<Network>, routers: seq<RouterDef>, m: nat, n: nat)
    requires m < |networks| && networks[m].kind == "management" && forall l | 0 <= l < m :: networks[l].kind != "management"
    requires n < |networks| && networks[n].name == networks[m].name && forall l | 0 <= l < n :: networks[l].name != networks[m].name
    ensures ManagementAssigned(networks, routers) <==>
              && networks[m].name != ""
              && (forall r | r in routers :: r.interfaces != [] && r.interfaces[0].network == networks[m].name)
              && (forall a | a in networks[n].connected :: ByFirstInterface(routers, a))
  {
    FirstManagementAt(networks, m);
    FirstNamedAt(networks, n);
    forall a {
      EntersByFirstIff(routers, a);
    }
  }

  // ---------------------------------------------------------------- addresses are unique

  /** Two attachments with the same address sit in different networks of the same name. */
  lemma SharedAddressSharesName(networks: seq<Network>, i: nat, k: nat, j: nat, l: nat)
    requires IpsValid(networks)
    requires i < |networks| && k < |networks[i].connected| && j < |networks| && l < |networks[j].connected|
    requires (i, k) != (j, l) && networks[i].connected[k].ip == networks[j].connected[l].ip
    ensures i != j && networks[i].name == networks[j].name
  {
    var a, b := SubnetOf(networks, networks[i].name).value, SubnetOf(networks, networks[j].name).value;
    assert Placed(networks[i].connected[k], a) && Placed(networks[j].connected[l], b);
    var ip := networks[i].connected[k].ip.value;
    ContainsIsCovers(a, ip);
    ContainsIsCovers(b, ip);
    OverlapsIff(a, b);
    assert i == j ==> k < l || l < k;
  }

  function Names(networks: seq<Network>): (names: seq<string>)
    ensures |names| == |networks|
  {
    seq(|networks|, i requires 0 <= i < |networks| => networks[i].name)
  }

  predicate Distinct(names: seq<string>) {
    forall i, j | 0 <= i < j < |names| :: names[i] != names[j]
  }

  /** No two attachments in the whole topology share an address. */
  ghost predicate NoSharedAddress(networks: seq<Network>) {
    forall i, k, j, l | 0 <= i < |networks| && 0 <= k < |networks[i].connected| && 0 <= j < |networks|
                        && 0 <= l < |networks[j].connected| && (i, k) != (j, l) ::
      networks[i].connected[k].ip != networks[j].connected[l].ip
  }

  lemma AddressesApart(networks: seq<Network>, i: nat, k: nat, j: nat, l: nat)
    requires IpsValid(networks)
    requires i < |networks| && k < |networks[i].connected| && j < |networks| && l < |networks[j].connected|
    requires (i, k) != (j, l) && (i == j || networks[i].name != networks[j].name)
    ensures networks[i].connected[k].ip != networks[j].connected[l].ip
  {
    if networks[i].connected[k].ip == networks[j].connected[l].ip {
      SharedAddressSharesName(networks, i, k, j, l);
    }
  }

  /** With distinct network names, a validated topology gives no address out twice. */
  lemma AddressesUnique(networks: seq<Network>)
    requires IpsValid(networks) && Distinct(Names(networks))
    ensures NoSharedAddress(networks)
  {
    forall i: nat, k: nat, j: nat, l: nat | i < |networks| && k < |networks[i].connected| && j < |networks|
                                            && l < |networks[j].connected| && (i, k) != (j, l)
      ensures networks[i].connected[k].ip != networks[j].connected[l].ip
    {
      assert i < j ==> Names(networks)[i] != Names(networks)[j];
      assert j < i ==> Names(networks)[j] != Names(networks)[i];
      AddressesApart(networks, i, k, j, l);
    }
  }

  // ---------------------------------------------------------------- a network name used twice

  function Place(names: seq<string>, n: string): (k: nat)
    ensures n in names ==> k < |names| && names[k] == n
  {
    if names == [] || names[0] == n then 0 else 1 + Place(names[1..], n)
  }

  function Single(base: nat): (net: Net)
    ensures net.Covers(net.First()) && net.Size() == 1
  {
    Block(V6, base, 128)
  }

  /** Networks of these names, each name with a one-address block of its own. Network m is the
      management network; networks i and j have a router attached each. */
  function Colliding(names: seq<string>, m: nat, i: nat, j: nat): (networks: seq<Network>)
    ensures |networks| == |names|
  {
    seq(|names|, k requires 0 <= k < |names| =>
      var net := Single(Place(names, names[k]));
      Network(names[k], if k == m then "management" else "p2p", None, Some(net),
              if k == i || k == j then [Attachment("r", "eth0", Some(net.First()))] else [], 1500, None))
  }

  lemma {:induction false} OneManagement(networks: seq<Network>, m: nat)
    requires m < |networks| && forall k | 0 <= k < |networks| :: networks[k].kind == "management" <==> k == m
    ensures Management(networks) == [networks[m]]
  {
    if m > 0 {
      OneManagement(networks[1..], m - 1);
    } else {
      NoManagement(networks[1..]);
    }
  }

  lemma {:induction false} NoManagement(networks: seq<Network>)
    requires forall k | 0 <= k < |networks| :: networks[k].kind != "management"
    ensures Management(networks) == []
  {
    if networks != [] {
      NoManagement(networks[1..]);
    }
  }

  lemma CollidingSubnet(names: seq<string>, m: nat, i: nat, j: nat, k: nat)
    requires k < |names|
    ensures SubnetOf(Colliding(names, m, i, j), names[k]) == Some(Single(Place(names, names[k])))
  {
    var networks := Colliding(names, m, i, j);
    assert networks[k].name == names[k];
    var last := LastNamed(networks, names[k]).value;
    var l :| 0 <= l < |networks| && networks[l] == last;
    assert networks[l].name == names[l];
  }

  lemma SinglesApart(a: nat, b: nat)
    requires a != b
    ensures !Overlaps(Single(a), Single(b))
  {
    OverlapsIff(Single(a), Single(b));
  }

  lemma SingleFits(base: nat, connected: seq<Attachment>)
    requires connected == [] || connected == [Attachment("r", "eth0", Some(Single(base).First()))]
    ensures AddressesFit(connected, Single(base))
  {
    ContainsIsCovers(Single(base), Single(base).First());
  }

  lemma CollidingIpsValid(names: seq<string>, m: nat, i: nat, j: nat)
    ensures IpsValid(Colliding(names, m, i, j))
  {
    var networks := Colliding(names, m, i, j);
    forall k | 0 <= k < |networks|
      ensures SubnetOf(networks, networks[k].name) == Some(Single(Place(names, networks[k].name))) && networks[k].name in names
    {
      CollidingSubnet(names, m, i, j, k);
    }
    assert Disjoint(networks) by {
      forall a, b | a in names && b in names && a != b ensures !Overlaps(Single(Place(names, a)), Single(Place(names, b))) {
        SinglesApart(Place(names, a), Place(names, b));
      }
    }
    assert AllFit(networks) by {
      forall k {:trigger networks[k].connected} | 0 <= k < |networks|
        ensures AddressesFit(networks[k].connected, Single(Place(names, networks[k].name)))
      {
        SingleFits(Place(names, networks[k].name), networks[k].connected);
      }
    }
  }

  lemma CollidingAccepted(names: seq<string>, m: nat, i: nat, j: nat)
    requires m < |names| && names[m] != ""
    ensures Accepted(Colliding(names, m, i, j), []) && Names(Colliding(names, m, i, j)) == names
  {
    CollidingIpsValid(names, m, i, j);
    OneManagement(Colliding(names, m, i, j), m);
  }

  lemma CollidingShares(names: seq<string>, m: nat, i: nat, j: nat)
    requires i < j < |names| && names[i] == names[j]
    ensures !NoSharedAddress(Colliding(names, m, i, j))
  {
    var networks := Colliding(names, m, i, j);
    assert |networks[i].connected| == 1 && |networks[j].connected| == 1;
    assert networks[i].connected[0].ip == networks[j].connected[0].ip && (i, 0) != (j, 0);
  }

  /** A topology whose networks have empty names is refused. */
  lemma EmptyNamesRefused(networks: seq<Network>, routers: seq<RouterDef>)
    requires forall n | n in Names(networks) :: n == ""
    ensures !ManagementAssigned(networks, routers)
  {
    if Management(networks) != [] {
      var n := Management(networks)[0];
      var k :| 0 <= k < |networks| && networks[k] == n;
      assert Names(networks)[k] == n.name && Names(networks)[k] in Names(networks);
      assert ManagementName(networks) == Some("");
    }
  }

  /** Every accepted topology over these network names gives each address out once, if and only if
      the names are distinct (or all empty, when no topology is accepted). */
  lemma AcceptedIsUniqueIff(names: seq<string>)
    ensures (forall networks, routers | Names(networks) == names && Accepted(networks, routers) :: NoSharedAddress(networks)) <==>
            Distinct(names) || forall n | n in names :: n == ""
  {
    if Distinct(names) {
      forall networks, routers | Names(networks) == names && Accepted(networks, routers) ensures NoSharedAddress(networks) {
        AddressesUnique(networks);
      }
    } else if n :| n in names && n != "" {
      var m: nat :| m < |names| && names[m] == n;
      var i: nat, j: nat :| i < j < |names| && names[i] == names[j];
      CollidingAccepted(names, m, i, j);
      CollidingShares(names, m, i, j);
    } else {
      forall networks, routers | Names(networks) == names ensures !Accepted(networks, routers) {
        EmptyNamesRefused(networks, routers);
      }
    }
  }

  // ---------------------------------------------------------------- generation

  datatype Config = Config(name: string, address: Option<Ip>, mask: nat, loopback: string, description: string, mtu: nat,
                           enabled: bool, gateway: Option<string>, vrf: Option<string>, linuxNetwork: Option<string>, vlan: Option<nat>)

  /** The configuration of one declared interface, if the generator emits one. */
  function Generate(networks: seq<Network>, router: RouterDef, i: IfaceDef): Option<Config> {
    if i.name == "lo" then
      Some(Config("lo", None, 32, router.routerId, i.description, 1500, true, None, None, None, None))
    else
      match LastNamed(networks, i.network)
      case None => None
      case Some(n) =>
        match LastOf(n.connected, router.name)
        case None => None
        case Some(a) =>
          if n.subnet.None? then None
          else Some(Config(i.name, a.ip, n.subnet.value.prefix, "", i.description, n.mtu, i.enabled, n.gateway, i.vrf,
                           if n.name == "loopbacks" then None else Some(n.name), n.vlan))
  }

  function GenerateAll(networks: seq<Network>, router: RouterDef, ifaces: seq<IfaceDef>): (out: seq<Config>)
    ensures |out| <= |ifaces|
  {
    if ifaces == [] then []
    else ToSeq(Generate(networks, router, ifaces[0])) + GenerateAll(networks, router, ifaces[1..])
  }

  /** The loop body: what it appends, or None where it silently continues. */
  method EmitInterface(networks: seq<Network>, router: RouterDef, i: IfaceDef) returns (config: Option<Config>)
    requires SubnetsParse(networks)
    ensures config == Generate(networks, router, i)
  {
    if i.name == "lo" {
      return Some(Config("lo", None, 32, router.routerId, i.description, 1500, true, None, None, None, None));
    }
    var network := LastNamed(networks, i.network);
    if network.None? {
      return None;
    }
    var assignment := LastOf(network.value.connected, router.name);
    if assignment.None? {
      return None;
    }
    var linux := if network.value.name == "loopbacks" then None else Some(network.value.name);
    return Some(Config(i.name, assignment.value.ip, network.value.subnet.value.prefix, "", i.description, network.value.mtu,
                       i.enabled, network.value.gateway, i.vrf, linux, network.value.vlan));
  }

  /** generate_router_interfaces; every subnet parses. */
  method GenerateRouterInterfaces(networks: seq<Network>, router: RouterDef) returns (interfaces: seq<Config>)
    requires SubnetsParse(networks)
    ensures interfaces == GenerateAll(networks, router, router.interfaces)
  {
    interfaces := [];
    var rest := router.interfaces;
    while rest != []
      invariant interfaces + GenerateAll(networks, router, rest) == GenerateAll(networks, router, router.interfaces)
    {
      var config := EmitInterface(networks, router, rest[0]);
      if config.Some? {
        interfaces := interfaces + [config.value];
      }
      rest := rest[1..];
    }
  }

  /** The generator drops nothing if and only if every declared interface is configured. */
  lemma {:induction false} DropsNothingIff(networks: seq<Network>, router: RouterDef, ifaces: seq<IfaceDef>)
    ensures |GenerateAll(networks, router, ifaces)| == |ifaces| <==>
            forall k :: 0 <= k < |ifaces| ==> Generate(networks, router, ifaces[k]).Some?
    ensures |GenerateAll(networks, router, ifaces)| == |ifaces| ==>
              forall k :: 0 <= k < |ifaces| ==> Generate(networks, router, ifaces[k]) == Some(GenerateAll(networks, router, ifaces)[k])
  {
    if ifaces != [] {
      DropsNothingIff(networks, router, ifaces[1..]);
      assert forall k :: 0 < k < |ifaces| ==> ifaces[k] == ifaces[1..][k - 1];
      assert forall k :: 0 <= k < |ifaces| - 1 ==> ifaces[1..][k] == ifaces[k + 1];
    }
  }

  /** The validators justify the silent skips: on a validated topology the generator emits one
      configuration per declared interface, in order, with an address inside its network. */
  lemma ValidatedGeneratesAll(networks: seq<Network>, routers: seq<RouterDef>, router: RouterDef, k: nat)
    requires IpsValid(networks) && MappingsValid(networks, routers) && router in routers && k < |router.interfaces|
    ensures var out := GenerateAll(networks, router, router.interfaces);
            && |out| == |router.interfaces|
            && out[k].name == router.interfaces[k].name
            && (if out[k].name == "lo" then out[k].loopback == router.routerId && out[k].mask == 32
                else
                  var net := SubnetOf(networks, router.interfaces[k].network);
                  net.Some? && out[k].address.Some? && net.value.Covers(out[k].address.value) && out[k].mask == net.value.prefix)
  {
    var ifaces := router.interfaces;
    forall l | 0 <= l < |ifaces| ensures Generate(networks, router, ifaces[l]).Some? {
      assert IfaceMapped(networks, router.name, ifaces[l]);
    }
    DropsNothingIff(networks, router, ifaces);
    assert IfaceMapped(networks, router.name, ifaces[k]);
    if ifaces[k].name != "lo" {
      var n := LastNamed(networks, ifaces[k].network).value;
      var i :| 0 <= i < |networks| && networks[i] == n;
      var a := LastOf(n.connected, router.name).value;
      var l :| 0 <= l < |n.connected| && n.connected[l] == a;
      var net := SubnetOf(networks, n.name).value;
      assert Placed(n.connected[l], net);
      ContainsIsCovers(net, a.ip.value);
    }
  }

  /** Member by member, what a validated topology generates for its k-th interface: that of network
      p, the last of its name, and of attachment q, the last of the router's on that network. */
  lemma GeneratedIs(networks: seq<Network>, routers: seq<RouterDef>, router: RouterDef, k: nat, p: nat, q: nat)
    requires IpsValid(networks) && MappingsValid(networks, routers) && router in routers && k < |router.interfaces|
    requires router.interfaces[k].name != "lo"
    requires p < |networks| && networks[p].name == router.interfaces[k].network
    requires forall l | p < l < |networks| :: networks[l].name != networks[p].name
    requires q < |networks[p].connected| && networks[p].connected[q].router == router.name
    requires forall l | q < l < |networks[p].connected| :: networks[p].connected[l].router != router.name
    ensures var out, i, n, a := GenerateAll(networks, router, router.interfaces), router.interfaces[k], networks[p], networks[p].connected[q];
            && |out| == |router.interfaces| && a.iface == i.name == out[k].name && out[k].loopback == ""
            && n.subnet.Some? && out[k].address == a.ip && out[k].mask == n.subnet.value.prefix
            && out[k].description == i.description && out[k].enabled == i.enabled && out[k].vrf == i.vrf
            && out[k].mtu == n.mtu && out[k].gateway == n.gateway && out[k].vlan == n.vlan
            && out[k].linuxNetwork == if n.name == "loopbacks" then None else Some(n.name)
  {
    var ifaces := router.interfaces;
    forall l | 0 <= l < |ifaces| ensures Generate(networks, router, ifaces[l]).Some? {
      assert IfaceMapped(networks, router.name, ifaces[l]);
    }
    DropsNothingIff(networks, router, ifaces);
    assert IfaceMapped(networks, router.name, ifaces[k]);
    LastNamedAt(networks, p);
    LastOfAt(networks[p].connected, q);
  }

  /** A loopback has the router's id, the interface's description and nothing else of its own. */
  lemma LoopbackIs(networks: seq<Network>, routers: seq<RouterDef>, router: RouterDef, k: nat)
    requires IpsValid(networks) && MappingsValid(networks, routers) && router in routers && k < |router.interfaces|
    requires router.interfaces[k].name == "lo"
    ensures var out := GenerateAll(networks, router, router.interfaces);
            && |out| == |router.interfaces| && out[k].name == "lo" && out[k].loopback == router.routerId && out[k].mask == 32
            && out[k].description == router.interfaces[k].description && out[k].mtu == 1500 && out[k].enabled
            && out[k].address == None && out[k].gateway == out[k].vrf == out[k].linuxNetwork == None && out[k].vlan == None
  {
    var ifaces := router.interfaces;
    forall l | 0 <= l < |ifaces| ensures Generate(networks, router, ifaces[l]).Some? {
      assert IfaceMapped(networks, router.name, ifaces[l]);
    }
    DropsNothingIff(networks, router, ifaces);
  }

  /** The attachment an interface's address comes from. */
  lemma AttachmentOf(networks: seq<Network>, routers: seq<RouterDef>, r: RouterDef, i: IfaceDef) returns (p: nat, k: nat)
    requires IpsValid(networks) && MappingsValid(networks, routers) && r in routers && i in r.interfaces && i.name != "lo"
    ensures p < |networks| && k < |networks[p].connected| && LastNamed(networks, i.network) == Some(networks[p])
    ensures networks[p].connected[k].router == r.name && networks[p].connected[k].iface == i.name
    ensures networks[p].connected[k].ip.Some?
    ensures var x := Generate(networks, r, i); x.Some? && x.value.address == networks[p].connected[k].ip
  {
    assert IfaceMapped(networks, r.name, i);
    var n := LastNamed(networks, i.network).value;
    p :| 0 <= p < |networks| && networks[p] == n;
    k :| 0 <= k < |n.connected| && n.connected[k] == LastOf(n.connected, r.name).value;
    assert Placed(n.connected[k], SubnetOf(networks, n.name).value);
  }

  /** Interfaces of different routers, or of different names on one router, never get the same
      address, whether or not network names are distinct: the generator and the interface check
      both read the last network of a name. */
  lemma GeneratedAddressesUnique(networks: seq<Network>, routers: seq<RouterDef>, r: RouterDef, i: IfaceDef, s: RouterDef, j: IfaceDef)
    requires IpsValid(networks) && MappingsValid(networks, routers)
    requires r in routers && i in r.interfaces && s in routers && j in s.interfaces && i.name != "lo" && j.name != "lo"
    requires r.name != s.name || i.name != j.name
    ensures var x, y := Generate(networks, r, i), Generate(networks, s, j);
            x.Some? && y.Some? && x.value.address.Some? && x.value.address != y.value.address
  {
    var p, k := AttachmentOf(networks, routers, r, i);
    var q, l := AttachmentOf(networks, routers, s, j);
    if networks[p] == networks[q] {
      AddressesApart(networks, p, k, p, l);
    } else {
      AddressesApart(networks, p, k, q, l);
    }
  }

  // ---------------------------------------------------------------- the management network comes first

  /** On a topology that passes all these validators, the first interface generated for every
      router is its first declared one, and unless that is the loopback its address lies in the
      subnet of the one management network. */
  lemma ManagementComesFirst(networks: seq<Network>, routers: seq<RouterDef>, router: RouterDef)
    requires ManagementValid(networks) && ManagementAssigned(networks, routers)
    requires IpsValid(networks) && MappingsValid(networks, routers) && Distinct(Names(networks)) && router in routers
    ensures var out, m := GenerateAll(networks, router, router.interfaces), Management(networks)[0];
            && out != [] && out[0].name == router.interfaces[0].name
            && (out[0].name != "lo" ==> out[0].address.Some? && m.subnet.Some? && m.subnet.value.Covers(out[0].address.value))
  {
    var m := Management(networks)[0];
    assert StartsOn(router, m.name) && m in networks;
    ValidatedGeneratesAll(networks, routers, router, 0);
    var last := LastNamed(networks, m.name).value;
    var i :| 0 <= i < |networks| && networks[i] == m;
    var j :| 0 <= j < |networks| && networks[j] == last;
    assert i != j ==> i < j || j < i;
    assert Names(networks)[i] == Names(networks)[j];
    assert last == m;
  }
}
