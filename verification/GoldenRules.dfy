/** The golden twin's rules, written out. */
module GoldenRules {
  import opened Common
  import opened InjectorModel
  import opened GoldenTwin

  // ---------------------------------------------------------------- id conventions

  /** A non-empty stretch without colons. */
  ghost predicate Segment(s: string) {
    |s| > 0 && forall i | 0 <= i < |s| :: s[i] != ':'
  }

  /** One line, not empty, perhaps with its newline. */
  ghost predicate Line(s: string) {
    || (|s| > 0 && forall i | 0 <= i < |s| :: s[i] != '\n')
    || (|s| > 1 && s[|s| - 1] == '\n' && forall i | 0 <= i < |s| - 1 :: s[i] != '\n')
  }

  lemma AnythingIsLine(s: string)
    ensures Anything(s) <==> Line(s)
  {
    if s != "" {
      assert s[..|s| - 1] == "" <==> |s| == 1;
      assert forall i | 0 <= i < |s| - 1 :: s[..|s| - 1][i] == s[i];
    }
  }

  lemma BeforeFirstColon(s: string)
    ensures forall i | 0 <= i < FirstColon(s) :: s[i] != ':'
  {
    assert forall i | 0 <= i < FirstColon(s) :: s[i] == s[..FirstColon(s)][i];
  }

  /** The rest is what follows the first colon. */
  lemma RestIs(head: string, rest: string)
    requires Segment(head)
    ensures NameThen(head + ":" + rest) && Rest(head + ":" + rest) == rest
  {
    var s := head + ":" + rest;
    assert forall i | 0 <= i < |head| :: s[i] == head[i];
    assert s[|head|] == ':' && s[|head| + 1..] == rest;
    BeforeFirstColon(s);
  }

  lemma HeadIs(s: string)
    requires NameThen(s)
    ensures Segment(s[..FirstColon(s)]) && s == s[..FirstColon(s)] + ":" + Rest(s)
  {
  }

  /** A prefix, a name, a colon, and that. */
  ghost predicate PrefixNameThen(id: string, prefix: string, rest: string) {
    exists a :: id == prefix + (a + ":" + rest) && Segment(a)
  }

  lemma PrefixNameThenIs(id: string, prefix: string)
    ensures StartsWith(id, prefix) && NameThen(id[|prefix|..]) ==> PrefixNameThen(id, prefix, Rest(id[|prefix|..]))
    ensures forall rest | PrefixNameThen(id, prefix, rest) ::
              StartsWith(id, prefix) && NameThen(id[|prefix|..]) && Rest(id[|prefix|..]) == rest
  {
    if StartsWith(id, prefix) && NameThen(id[|prefix|..]) {
      HeadIs(id[|prefix|..]);
      assert id == prefix + id[|prefix|..];
    }
    forall rest | PrefixNameThen(id, prefix, rest)
      ensures StartsWith(id, prefix) && NameThen(id[|prefix|..]) && Rest(id[|prefix|..]) == rest
    {
      var a :| id == prefix + (a + ":" + rest) && Segment(a);
      assert id[|prefix|..] == a + ":" + rest;
      RestIs(a, rest);
    }
  }

  /** A prefix and one name. */
  ghost predicate PrefixAndName(id: string, prefix: string) {
    exists a :: id == prefix + a && Segment(a)
  }

  lemma PrefixAndNameIff(id: string, prefix: string)
    ensures StartsWith(id, prefix) && GoldenTwin.Name(id[|prefix|..]) <==> PrefixAndName(id, prefix)
  {
    if StartsWith(id, prefix) {
      assert id == prefix + id[|prefix|..];
    }
    if a :| id == prefix + a && Segment(a) {
      assert id[|prefix|..] == a;
    }
  }

  /** A name, a colon, and anything on one line. */
  ghost predicate NameAndLine(s: string) {
    exists a, c :: s == a + ":" + c && Segment(a) && Line(c)
  }

  lemma NameAndLineIff(s: string)
    ensures NameThen(s) && Anything(Rest(s)) <==> NameAndLine(s)
  {
    if NameThen(s) {
      HeadIs(s);
      AnythingIsLine(Rest(s));
    }
    if a, c :| s == a + ":" + c && Segment(a) && Line(c) {
      RestIs(a, c);
      AnythingIsLine(c);
    }
  }

  lemma PrefixAndTwoIff(id: string, prefix: string, middle: string)
    ensures (StartsWith(id, prefix) && NameThen(id[|prefix|..]) && StartsWith(Rest(id[|prefix|..]), middle)
             && GoldenTwin.Name(Rest(id[|prefix|..])[|middle|..])) <==>
            exists rest :: PrefixNameThen(id, prefix, rest) && PrefixAndName(rest, middle)
  {
    PrefixNameThenIs(id, prefix);
    if StartsWith(id, prefix) && NameThen(id[|prefix|..]) {
      PrefixAndNameIff(Rest(id[|prefix|..]), middle);
    }
  }

  lemma PrefixAndSegmentIff(id: string, prefix: string)
    ensures (StartsWith(id, prefix) && NameThen(id[|prefix|..]) && GoldenTwin.Name(Rest(id[|prefix|..]))) <==>
            exists rest :: PrefixNameThen(id, prefix, rest) && Segment(rest)
  {
    PrefixNameThenIs(id, prefix);
  }

  lemma PrefixAndThreeIff(id: string, prefix: string)
    ensures (StartsWith(id, prefix) && NameThen(id[|prefix|..]) && NameThen(Rest(id[|prefix|..]))
             && Anything(Rest(Rest(id[|prefix|..])))) <==>
            exists rest :: PrefixNameThen(id, prefix, rest) && NameAndLine(rest)
  {
    PrefixNameThenIs(id, prefix);
    if StartsWith(id, prefix) && NameThen(id[|prefix|..]) {
      NameAndLineIff(Rest(id[|prefix|..]));
    }
  }

  lemma PrefixAndLineIff(id: string, prefix: string)
    ensures StartsWith(id, prefix) && Anything(id[|prefix|..]) <==> exists line :: id == prefix + line && Line(line)
  {
    if StartsWith(id, prefix) {
      AnythingIsLine(id[|prefix|..]);
      assert id == prefix + id[|prefix|..];
    }
    if line :| id == prefix + line && Line(line) {
      assert id[|prefix|..] == line;
      AnythingIsLine(line);
    }
  }

  /** The id conventions, table by table, as concatenations. */
  lemma ConventionIs(t: Table, id: string)
    ensures IdMatches(t, id) <==>
              match t
              case PhysicalRouter => PrefixAndName(id, "router:")
              case PhysicalInterface => exists rest :: PrefixNameThen(id, "router:", rest) && PrefixAndName(rest, "interface:")
              case PhysicalLink => PrefixAndName(id, "link:")
              case Device => PrefixAndName(id, "device:")
              case L3VPNService => PrefixAndName(id, "vpn:")
              case VRF => exists rest :: PrefixNameThen(id, "vrf:", rest) && Segment(rest)
              case BGPSession => exists rest :: PrefixNameThen(id, "bgp:", rest) && NameAndLine(rest)
              case LogicalSubnet => exists line :: id == "subnet:" + line && Line(line)
              case _ => true
  {
    match t
    case PhysicalRouter => PrefixAndNameIff(id, "router:");
    case PhysicalInterface => PrefixAndTwoIff(id, "router:", "interface:");
    case PhysicalLink => PrefixAndNameIff(id, "link:");
    case Device => PrefixAndNameIff(id, "device:");
    case L3VPNService => PrefixAndNameIff(id, "vpn:");
    case VRF => PrefixAndSegmentIff(id, "vrf:");
    case BGPSession => PrefixAndThreeIff(id, "bgp:");
    case LogicalSubnet => PrefixAndLineIff(id, "subnet:");
    case _ =>
  }

  lemma AllTables(t: Table)
    ensures t in TABLES
  {
    match t
    case PhysicalRouter => assert TABLES[0] == t;
    case PhysicalInterface => assert TABLES[1] == t;
    case PhysicalLink => assert TABLES[2] == t;
    case InterfaceLink => assert TABLES[3] == t;
    case Device => assert TABLES[4] == t;
    case LogicalSubnet => assert TABLES[5] == t;
    case SubnetAssociation => assert TABLES[6] == t;
    case L3VPNService => assert TABLES[7] == t;
    case VRF => assert TABLES[8] == t;
    case BGPSession => assert TABLES[9] == t;
  }

  /** Every row but an edge has an id, and the id follows the convention of its table. */
  lemma IdsFollowConventionsIff(p: Projection)
    ensures IdsFollowConventions(p) <==>
              forall t, r | r in Rows(p, t) && t != InterfaceLink && t != SubnetAssociation ::
                Cell(r, Id).Text? && IdMatches(t, Cell(r, Id).s)
  {
    forall t ensures t in TABLES {
      AllTables(t);
    }
    if IdsFollowConventions(p) {
      forall t, r | r in Rows(p, t) && t != InterfaceLink && t != SubnetAssociation ensures Cell(r, Id).Text? && IdMatches(t, Cell(r, Id).s) {
        assert TableFollowsConvention(p, t) && IdOk(t, r);
      }
    }
  }

  // ---------------------------------------------------------------- references

  /** Some row of the table has that id. */
  ghost predicate Known(p: Projection, t: Table, v: Val) {
    exists r :: r in Rows(p, t) && Cell(r, Id) == v
  }

  /** Every reference resolves, written out: interfaces to routers, link ends to interfaces and links,
      devices, unless they name none, to interfaces, subnet members to subnets, VRFs to routers and
      VPNs, sessions to VRFs. */
  lemma ReferencesHoldIff(p: Projection)
    ensures ReferencesHold(p) <==>
              && (forall r | r in Rows(p, PhysicalInterface) :: Known(p, PhysicalRouter, Cell(r, RouterId)))
              && (forall r | r in Rows(p, InterfaceLink) ::
                    Known(p, PhysicalInterface, Cell(r, InterfaceId)) && Known(p, PhysicalLink, Cell(r, LinkId)))
              && (forall r | r in Rows(p, Device) ::
                    Cell(r, InterfaceId) == Null || Cell(r, InterfaceId) == Text("") || Known(p, PhysicalInterface, Cell(r, InterfaceId)))
              && (forall r | r in Rows(p, SubnetAssociation) :: Known(p, LogicalSubnet, Cell(r, SubnetId)))
              && (forall r | r in Rows(p, VRF) ::
                    Known(p, PhysicalRouter, Cell(r, RouterId)) && Known(p, L3VPNService, Cell(r, VpnId)))
              && (forall r | r in Rows(p, BGPSession) :: Known(p, VRF, Cell(r, VrfId)))
  {
    forall t, v ensures v in Ids(Rows(p, t)) <==> Known(p, t, v) {
      IdsKnown(p, t, v);
    }
    EachReference(p);
  }

  lemma IdsKnown(p: Projection, t: Table, v: Val)
    ensures v in Ids(Rows(p, t)) <==> Known(p, t, v)
  {
  }

  lemma EachReference(p: Projection)
    ensures ReferencesHold(p) <==>
              && Holds(p, Reference(PhysicalInterface, RouterId, PhysicalRouter, false))
              && Holds(p, Reference(InterfaceLink, InterfaceId, PhysicalInterface, false))
              && Holds(p, Reference(InterfaceLink, LinkId, PhysicalLink, false))
              && Holds(p, Reference(Device, InterfaceId, PhysicalInterface, true))
              && Holds(p, Reference(SubnetAssociation, SubnetId, LogicalSubnet, false))
              && Holds(p, Reference(VRF, RouterId, PhysicalRouter, false))
              && Holds(p, Reference(VRF, VpnId, L3VPNService, false))
              && Holds(p, Reference(BGPSession, VrfId, VRF, false))
  {
    assert ReferencesHold(p) <==> forall i | 0 <= i < 8 :: Holds(p, REFERENCES[i]);
  }

  // ---------------------------------------------------------------- endpoints

  /** Where the field has that value, from a position on. */
  ghost function Having(rows: seq<Row>, f: Field, v: Val, from: nat): set<nat> {
    set i: nat | from <= i < |rows| && Cell(rows[i], f) == v
  }

  lemma OneMore(x: nat, more: set<nat>, all: set<nat>, has: bool)
    requires x !in more && forall i: nat :: i in all <==> i in more || (has && i == x)
    ensures |all| == (if has then 1 else 0) + |more|
  {
    assert all == if has then {x} + more else more;
  }

  lemma {:induction false} CountIs(rows: seq<Row>, f: Field, v: Val, from: nat)
    requires from <= |rows|
    ensures Count(rows[from..], f, v) == |Having(rows, f, v, from)|
    decreases |rows| - from
  {
    if from < |rows| {
      CountIs(rows, f, v, from + 1);
      OneMore(from, Having(rows, f, v, from + 1), Having(rows, f, v, from), Cell(rows[from], f) == v);
      CountTail(rows[from..], f, v, rows[from], rows[from + 1..]);
    }
  }

  lemma CountTail(rows: seq<Row>, f: Field, v: Val, first: Row, rest: seq<Row>)
    requires rows == [first] + rest
    ensures Count(rows, f, v) == (if Cell(first, f) == v then 1 else 0) + Count(rest, f, v)
  {
    assert rows[1..] == rest;
  }

  /** Every link that has a row has exactly two rows of ends. */
  lemma TwoEndpointsIff(p: Projection)
    ensures TwoEndpoints(p) <==>
              forall r | r in Rows(p, PhysicalLink) ::
                |set i: nat | i < |Rows(p, InterfaceLink)| && Cell(Rows(p, InterfaceLink)[i], LinkId) == Cell(r, Id)| == 2
  {
    var ends := Rows(p, InterfaceLink);
    forall r | r in Rows(p, PhysicalLink)
      ensures Count(ends, LinkId, Cell(r, Id)) == |set i: nat | i < |ends| && Cell(ends[i], LinkId) == Cell(r, Id)|
    {
      CountIs(ends, LinkId, Cell(r, Id), 0);
      assert ends[0..] == ends;
      assert Having(ends, LinkId, Cell(r, Id), 0) == set i: nat | i < |ends| && Cell(ends[i], LinkId) == Cell(r, Id);
    }
    assert forall r | r in Rows(p, PhysicalLink) :: Cell(r, Id) in Ids(Rows(p, PhysicalLink));
  }
}
