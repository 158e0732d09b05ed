/** The golden twin: what its validation accepts, and why a saved twin always loads. */
module GoldenTwin {
  import opened Common
  import opened InjectorModel

  // ---------------------------------------------------------------- id conventions

  /** The regular expression [^:]+ over a whole string. */
  predicate Name(s: string) {
    s != "" && ':' !in s
  }

  /** The regular expression .+$ over a whole string: no newline but perhaps one at the end. */
  predicate Anything(s: string) {
    var line := if s != "" && s[|s| - 1] == '\n' then s[..|s| - 1] else s;
    line != "" && '\n' !in line
  }

  function FirstColon(s: string): (k: nat)
    ensures k <= |s| && (k < |s| ==> s[k] == ':') && ':' !in s[..k]
  {
    if s == "" || s[0] == ':' then 0
    else
      var k := FirstColon(s[1..]);
      assert s[..k + 1] == [s[0]] + s[1..][..k];
      k + 1
  }

  /** s is a name, a colon, and a rest. */
  predicate NameThen(s: string) {
    0 < FirstColon(s) < |s|
  }

  function Rest(s: string): string
    requires NameThen(s)
  {
    s[FirstColon(s) + 1..]
  }

  predicate IdMatches(t: Table, id: string) {
    match t
    case PhysicalRouter => StartsWith(id, "router:") && Name(id[7..])
    case PhysicalInterface =>
      && StartsWith(id, "router:")
      && NameThen(id[7..])
      && StartsWith(Rest(id[7..]), "interface:")
      && Name(Rest(id[7..])[10..])
    case PhysicalLink => StartsWith(id, "link:") && Name(id[5..])
    case Device => StartsWith(id, "device:") && Name(id[7..])
    case L3VPNService => StartsWith(id, "vpn:") && Name(id[4..])
    case VRF => StartsWith(id, "vrf:") && NameThen(id[4..]) && Name(Rest(id[4..]))
    case BGPSession => StartsWith(id, "bgp:") && NameThen(id[4..]) && NameThen(Rest(id[4..])) && Anything(Rest(Rest(id[4..])))
    case LogicalSubnet => StartsWith(id, "subnet:") && Anything(id[7..])
    case InterfaceLink => true
    case SubnetAssociation => true
  }

  predicate IdOk(t: Table, r: Row) {
    IsEdgeTable(t) || (Cell(r, Id).Text? && IdMatches(t, Cell(r, Id).s))
  }

  // ---------------------------------------------------------------- the contract

  /** {r.id for r in rows}. */
  function Ids(rows: seq<Row>): set<Val> {
    set r | r in rows :: Cell(r, Id)
  }

  function Count(rows: seq<Row>, f: Field, v: Val): nat {
    if rows == [] then 0 else (if Cell(rows[0], f) == v then 1 else 0) + Count(rows[1..], f, v)
  }

  datatype Reference = Reference(table: Table, field: Field, to: Table, optional: bool)

  /** References in the order in which they are checked; only a device may have none. */
  const REFERENCES := [
    Reference(PhysicalInterface, RouterId, PhysicalRouter, false),
    Reference(InterfaceLink, InterfaceId, PhysicalInterface, false),
    Reference(InterfaceLink, LinkId, PhysicalLink, false),
    Reference(Device, InterfaceId, PhysicalInterface, true),
    Reference(SubnetAssociation, SubnetId, LogicalSubnet, false),
    Reference(VRF, RouterId, PhysicalRouter, false),
    Reference(VRF, VpnId, L3VPNService, false),
    Reference(BGPSession, VrfId, VRF, false)]

  predicate Refers(p: Projection, ref: Reference, r: Row) {
    var v := Cell(r, ref.field);
    (ref.optional && (v == Null || v == Text(""))) || v in Ids(Rows(p, ref.to))
  }

  predicate Holds(p: Projection, ref: Reference) {
    forall r | r in Rows(p, ref.table) :: Refers(p, ref, r)
  }

  predicate ReferencesHold(p: Projection) {
    forall ref | ref in REFERENCES :: Holds(p, ref)
  }

  predicate TwoEndpoints(p: Projection) {
    forall link | link in Ids(Rows(p, PhysicalLink)) :: Count(Rows(p, InterfaceLink), LinkId, link) == 2
  }

  const TABLES := [PhysicalRouter, PhysicalInterface, PhysicalLink, InterfaceLink, Device, LogicalSubnet,
                   SubnetAssociation, L3VPNService, VRF, BGPSession]

  predicate TableFollowsConvention(p: Projection, t: Table) {
    forall r | r in Rows(p, t) :: IdOk(t, r)
  }

  predicate IdsFollowConventions(p: Projection) {
    forall t | t in TABLES :: TableFollowsConvention(p, t)
  }

  predicate Contract(p: Projection) {
    IdsFollowConventions(p) && ReferencesHold(p) && TwoEndpoints(p)
  }

  // ---------------------------------------------------------------- the checks

  datatype Error = BadId(table: Table, row: Row) | Unknown(ref: Reference, row: Row) | Endpoints(link: Val, count: nat) | HashMismatch

  method CheckTableIds(p: Projection, t: Table, errors: seq<Error>) returns (all: seq<Error>)
    ensures errors <= all && (all == errors <==> TableFollowsConvention(p, t))
  {
    all := errors;
    var rows := Rows(p, t);
    for i := 0 to |rows|
      invariant errors <= all
      invariant all == errors <==> forall k | 0 <= k < i :: IdOk(t, rows[k])
    {
      if !IdOk(t, rows[i]) {
        all := all + [BadId(t, rows[i])];
      }
    }
  }

  /** _check_id_patterns. */
  method CheckIds(p: Projection, errors: seq<Error>) returns (all: seq<Error>)
    ensures errors <= all && (all == errors <==> IdsFollowConventions(p))
  {
    all := errors;
    for u := 0 to |TABLES|
      invariant errors <= all
      invariant all == errors <==> forall k | 0 <= k < u :: TableFollowsConvention(p, TABLES[k])
    {
      all := CheckTableIds(p, TABLES[u], all);
    }
  }

  /** One loop of _check_referential_integrity per reference. */
  method CheckReference(p: Projection, ref: Reference, errors: seq<Error>) returns (all: seq<Error>)
    ensures errors <= all && (all == errors <==> Holds(p, ref))
  {
    all := errors;
    var known := Ids(Rows(p, ref.to));
    var rows := Rows(p, ref.table);
    for i := 0 to |rows|
      invariant errors <= all
      invariant all == errors <==> forall k | 0 <= k < i :: Refers(p, ref, rows[k])
    {
      var v := Cell(rows[i], ref.field);
      if !(ref.optional && (v == Null || v == Text(""))) && v !in known {
        all := all + [Unknown(ref, rows[i])];
      }
    }
  }

  /** The dictionary of endpoint counts, and then one error per link whose count is not two. */
  method CheckEndpoints(p: Projection, errors: seq<Error>) returns (all: seq<Error>)
    ensures errors <= all && (all == errors <==> TwoEndpoints(p))
  {
    all := errors;
    var links := Ids(Rows(p, PhysicalLink));
    var counts: map<Val, nat> := map l | l in links :: 0;
    var rest := Rows(p, InterfaceLink);
    while rest != []
      invariant counts.Keys == links
      invariant forall l | l in links :: counts[l] + Count(rest, LinkId, l) == Count(Rows(p, InterfaceLink), LinkId, l)
    {
      var l := Cell(rest[0], LinkId);
      if l in counts {
        counts := counts[l := counts[l] + 1];
      }
      rest := rest[1..];
    }
    var todo := links;
    while todo != {}
      invariant todo <= links && errors <= all
      invariant all == errors <==> forall l | l in links - todo :: counts[l] == 2
      decreases |todo|
    {
      var l :| l in todo;
      if counts[l] != 2 {
        all := all + [Endpoints(l, counts[l])];
      }
      todo := todo - {l};
    }
  }

  /** Validation reports nothing if and only if every id follows its convention, every reference
      resolves, and every link has exactly two endpoints. */
  method CheckContract(p: Projection) returns (errors: seq<Error>)
    ensures errors == [] <==> Contract(p)
  {
    errors := CheckIds(p, []);
    var ids := errors;
    for i := 0 to |REFERENCES|
      invariant ids <= errors
      invariant errors == ids <==> forall k | 0 <= k < i :: Holds(p, REFERENCES[k])
    {
      errors := CheckReference(p, REFERENCES[i], errors);
    }
    var references := errors;
    errors := CheckEndpoints(p, errors);
    assert errors == [] <==> ids == [] && references == ids && errors == references;
  }

  // ---------------------------------------------------------------- sorting rows

  /** Whether the first row's sort key is at most the second's. */
  type Order = (Row, Row) -> bool

  /** Comparing keys is total and transitive. */
  ghost predicate Preorder(leq: Order) {
    && (forall a, b :: leq(a, b) || leq(b, a))
    && (forall a, b, c :: leq(a, b) && leq(b, c) ==> leq(a, c))
  }

  /** Rows with the same key are equal, as when the key is the whole row, serialised. */
  ghost predicate Linear(leq: Order) {
    Preorder(leq) && forall a, b :: leq(a, b) && leq(b, a) ==> a == b
  }

  function Insert(r: Row, rows: seq<Row>, leq: Order): seq<Row> {
    if rows == [] || leq(r, rows[0]) then [r] + rows else [rows[0]] + Insert(r, rows[1..], leq)
  }

  /** sorted(rows, key): stable, ascending. */
  function SortBy(rows: seq<Row>, leq: Order): seq<Row> {
    if rows == [] then [] else Insert(rows[0], SortBy(rows[1..], leq), leq)
  }

  predicate Sorted(rows: seq<Row>, leq: Order) {
    forall i, j | 0 <= i < j < |rows| :: leq(rows[i], rows[j])
  }

  lemma {:induction false} InsertPermutes(r: Row, rows: seq<Row>, leq: Order)
    ensures multiset(Insert(r, rows, leq)) == multiset{r} + multiset(rows)
  {
    if rows != [] && !leq(r, rows[0]) {
      InsertPermutes(r, rows[1..], leq);
      assert rows == [rows[0]] + rows[1..];
    }
  }

  lemma {:induction false} InsertSorts(r: Row, rows: seq<Row>, leq: Order)
    requires Preorder(leq) && Sorted(rows, leq)
    ensures Sorted(Insert(r, rows, leq), leq)
  {
    if rows != [] && !leq(r, rows[0]) {
      var rest := Insert(r, rows[1..], leq);
      InsertSorts(r, rows[1..], leq);
      InsertPermutes(r, rows[1..], leq);
      forall j | 0 <= j < |rest| ensures leq(rows[0], rest[j]) {
        assert rest[j] in multiset(rest);
      }
    }
  }

  lemma {:induction false} SortByPermutes(rows: seq<Row>, leq: Order)
    ensures multiset(SortBy(rows, leq)) == multiset(rows)
  {
    if rows != [] {
      SortByPermutes(rows[1..], leq);
      InsertPermutes(rows[0], SortBy(rows[1..], leq), leq);
      assert rows == [rows[0]] + rows[1..];
    }
  }

  lemma {:induction false} SortBySorts(rows: seq<Row>, leq: Order)
    requires Preorder(leq)
    ensures Sorted(SortBy(rows, leq), leq)
  {
    if rows != [] {
      SortBySorts(rows[1..], leq);
      InsertSorts(rows[0], SortBy(rows[1..], leq), leq);
    }
  }

  lemma MultisetTail(rows: seq<Row>)
    requires rows != []
    ensures multiset(rows[1..]) == multiset(rows) - multiset{rows[0]}
  {
    assert rows == [rows[0]] + rows[1..];
  }

  lemma FirstIsLeast(rows: seq<Row>, leq: Order, r: Row)
    requires Preorder(leq) && Sorted(rows, leq) && r in multiset(rows)
    ensures rows != [] && leq(rows[0], r)
  {
    var i :| 0 <= i < |rows| && rows[i] == r;
  }

  lemma {:induction false} SortedUnique(a: seq<Row>, b: seq<Row>, leq: Order)
    requires Linear(leq) && Sorted(a, leq) && Sorted(b, leq) && multiset(a) == multiset(b)
    ensures a == b
  {
    if a == [] {
      assert |multiset(b)| == 0;
    } else {
      assert |multiset(a)| == |a| && |multiset(b)| == |b|;
      assert a[0] in multiset(b) && b[0] in multiset(a);
      FirstIsLeast(a, leq, b[0]);
      FirstIsLeast(b, leq, a[0]);
      MultisetTail(a);
      MultisetTail(b);
      SortedUnique(a[1..], b[1..], leq);
    }
  }

  /** The canonical order of a table determines, and is determined by, its multiset of rows. */
  lemma CanonicalIff(a: seq<Row>, b: seq<Row>, leq: Order)
    requires Linear(leq)
    ensures SortBy(a, leq) == SortBy(b, leq) <==> multiset(a) == multiset(b)
  {
    SortByPermutes(a, leq);
    SortByPermutes(b, leq);
    if multiset(a) == multiset(b) {
      SortBySorts(a, leq);
      SortBySorts(b, leq);
      SortedUnique(SortBy(a, leq), SortBy(b, leq), leq);
    }
  }

  // ---------------------------------------------------------------- saving and loading

  datatype Twin = Twin(entities: Projection, hash: Option<string>)

  /** The serialisation: how rows are ordered in the canonical bytes and in the saved file, and the digest. */
  datatype Format = Format(canonical: Order, saved: Table -> Order, digest: Projection -> string)

  function EachSorted(p: Projection, orders: Table -> Order): Projection {
    map t | t in p :: SortBy(p[t], orders(t))
  }

  function ContentHash(p: Projection, f: Format): string {
    f.digest(EachSorted(p, _ => f.canonical))
  }

  function Save(twin: Twin, f: Format): Twin {
    Twin(EachSorted(twin.entities, f.saved), Some(ContentHash(twin.entities, f)))
  }

  predicate Accepted(twin: Twin, f: Format) {
    Contract(twin.entities) && (twin.hash.Some? ==> twin.hash.value == ContentHash(twin.entities, f))
  }

  ghost predicate Permuted(p: Projection, q: Projection) {
    p.Keys == q.Keys && forall t | t in p :: multiset(p[t]) == multiset(q[t])
  }

  lemma {:induction false} InsertCounts(r: Row, rows: seq<Row>, leq: Order, f: Field, v: Val)
    ensures Count(Insert(r, rows, leq), f, v) == Count([r], f, v) + Count(rows, f, v)
  {
    assert [r][1..] == [];
    if rows == [] || leq(r, rows[0]) {
      assert ([r] + rows)[1..] == rows;
    } else {
      var rest := Insert(r, rows[1..], leq);
      InsertCounts(r, rows[1..], leq, f, v);
      assert ([rows[0]] + rest)[1..] == rest;
    }
  }

  lemma {:induction false} SortByCounts(rows: seq<Row>, leq: Order, f: Field, v: Val)
    ensures Count(SortBy(rows, leq), f, v) == Count(rows, f, v)
  {
    if rows != [] {
      SortByCounts(rows[1..], leq, f, v);
      InsertCounts(rows[0], SortBy(rows[1..], leq), leq, f, v);
      assert [rows[0]][1..] == [];
    }
  }

  /** Counting rows is a matter of the multiset; the order only serves to line the rows up. */
  lemma CountPermuted(a: seq<Row>, b: seq<Row>, leq: Order, f: Field, v: Val)
    requires Linear(leq) && multiset(a) == multiset(b)
    ensures Count(a, f, v) == Count(b, f, v)
  {
    CanonicalIff(a, b, leq);
    SortByCounts(a, leq, f, v);
    SortByCounts(b, leq, f, v);
  }

  /** Validation does not depend on the order of the rows. */
  lemma ContractPermuted(p: Projection, q: Projection, leq: Order)
    requires Permuted(p, q) && Linear(leq)
    ensures Contract(p) <==> Contract(q)
  {
    if Contract(p) {
      ContractOneWay(p, q, leq);
    }
    if Contract(q) {
      ContractOneWay(q, p, leq);
    }
  }

  lemma ContractOneWay(p: Projection, q: Projection, leq: Order)
    requires Permuted(p, q) && Linear(leq) && Contract(p)
    ensures Contract(q)
  {
    forall t, r ensures r in Rows(p, t) <==> r in Rows(q, t) {
      if t in p {
        assert r in multiset(p[t]) <==> r in multiset(q[t]);
      }
    }
    forall t ensures Ids(Rows(p, t)) == Ids(Rows(q, t)) {
    }
    forall ref | ref in REFERENCES ensures Holds(q, ref) {
      assert Holds(p, ref);
    }
    forall link | link in Ids(Rows(q, PhysicalLink)) ensures Count(Rows(q, InterfaceLink), LinkId, link) == 2 {
      CountPermuted(Rows(p, InterfaceLink), Rows(q, InterfaceLink), leq, LinkId, link);
    }
  }

  lemma EachSortedPermutes(p: Projection, orders: Table -> Order)
    ensures Permuted(EachSorted(p, orders), p)
  {
    forall t | t in p ensures multiset(EachSorted(p, orders)[t]) == multiset(p[t]) {
      SortByPermutes(p[t], orders(t));
    }
  }

  /** Two sets of tables have the same canonical form if and only if they are permutations. */
  lemma CanonicalFormIff(p: Projection, q: Projection, f: Format)
    requires Linear(f.canonical)
    ensures EachSorted(p, _ => f.canonical) == EachSorted(q, _ => f.canonical) <==> Permuted(p, q)
  {
    forall t | t in p && t in q
      ensures SortBy(p[t], f.canonical) == SortBy(q[t], f.canonical) <==> multiset(p[t]) == multiset(q[t])
    {
      CanonicalIff(p[t], q[t], f.canonical);
    }
    var a, b := EachSorted(p, _ => f.canonical), EachSorted(q, _ => f.canonical);
    assert a.Keys == p.Keys && b.Keys == q.Keys;
    if a == b {
      forall t | t in p ensures multiset(p[t]) == multiset(q[t]) {
        assert a[t] == b[t];
      }
    }
  }

  /** A saved twin, re-sorted by other keys, never fails its hash check: it loads if and only if
      the original meets the contract, and its tables are permutations of the original ones. */
  lemma SavedTwinLoadsIff(twin: Twin, f: Format)
    requires Linear(f.canonical)
    ensures Accepted(Save(twin, f), f) <==> Contract(twin.entities)
    ensures Permuted(Save(twin, f).entities, twin.entities)
    ensures Save(twin, f).hash == Some(ContentHash(Save(twin, f).entities, f))
  {
    EachSortedPermutes(twin.entities, f.saved);
    ContractPermuted(Save(twin, f).entities, twin.entities, f.canonical);
    CanonicalFormIff(Save(twin, f).entities, twin.entities, f);
  }
}
