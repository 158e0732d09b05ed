/** Entity tables, the per-defect random stream and the ledger of the defect injector. */
module InjectorModel {
  import opened Common

  datatype Table =
    | PhysicalRouter | PhysicalInterface | PhysicalLink | InterfaceLink | Device | LogicalSubnet
    | SubnetAssociation | L3VPNService | VRF | BGPSession

  datatype Field =
    | Id | Name | RouterId | InterfaceId | LinkId | EntityId | SubnetId | VrfId | VpnId
    | Vendor | Model | Speed | Role | Status | Vlan | Other(text: string)

  /** `Opaque` stands for nested objects and floats. */
  datatype Val = Null | Text(s: string) | Number(n: int) | Opaque(text: string)

  type Row = map<Field, Val>
  type Projection = map<Table, seq<Row>>

  function Rows(p: Projection, t: Table): seq<Row> {
    if t in p then p[t] else []
  }

  /** row.get(f). */
  function Cell(r: Row, f: Field): Val {
    if f in r then r[f] else Null
  }

  function Digits(n: nat): string {
    if n < 10 then [('0' as int + n) as char] else Digits(n / 10) + [('0' as int + n % 10) as char]
  }

  /** str(v), as an f-string renders it. */
  function Show(v: Val): string {
    match v
    case Null => "None"
    case Text(s) => s
    case Number(n) => if n < 0 then "-" + Digits(-n) else Digits(n)
    case Opaque(t) => t
  }

  predicate IsEdgeTable(t: Table) {
    t == InterfaceLink || t == SubnetAssociation
  }

  function NaturalKey(t: Table, r: Row): string
    requires IsEdgeTable(t)
  {
    if t == InterfaceLink then Show(Cell(r, InterfaceId)) + "::" + Show(Cell(r, LinkId))
    else Show(Cell(r, EntityId)) + "::" + Show(Cell(r, SubnetId))
  }

  // ---------------------------------------------------------------- finding rows

  datatype Key = ById(id: Val) | ByEdge(edges: Table, natural: string) | Exactly(row: Row)

  predicate Matches(r: Row, key: Key) {
    match key
    case ById(id) => Cell(r, Id) == id
    case ByEdge(t, natural) => IsEdgeTable(t) && NaturalKey(t, r) == natural
    case Exactly(row) => r == row
  }

  /** The first row that matches. */
  function First(rows: seq<Row>, key: Key): (i: Option<nat>)
    ensures i.Some? ==> i.value < |rows| && Matches(rows[i.value], key)
    ensures i.Some? ==> forall k | 0 <= k < i.value :: !Matches(rows[k], key)
    ensures i.None? ==> forall k | 0 <= k < |rows| :: !Matches(rows[k], key)
  {
    if rows == [] then None
    else if Matches(rows[0], key) then Some(0)
    else
      match First(rows[1..], key)
      case None => None
      case Some(i) => Some(i + 1)
  }

  lemma FirstIs(rows: seq<Row>, key: Key, i: nat)
    requires i < |rows| && Matches(rows[i], key) && forall k | 0 <= k < i :: !Matches(rows[k], key)
    ensures First(rows, key) == Some(i)
  {
    var found := First(rows, key);
    assert found.Some?;
  }

  function RemoveFirst(p: Projection, t: Table, key: Key): Projection {
    match First(Rows(p, t), key)
    case None => p
    case Some(i) => p[t := Dropped(Rows(p, t), i)]
  }

  function ReplaceFirst(p: Projection, t: Table, key: Key, row: Row): Projection {
    match First(Rows(p, t), key)
    case None => p
    case Some(i) => p[t := Rows(p, t)[i := row]]
  }

  function Append(p: Projection, t: Table, row: Row): Projection {
    p[t := Rows(p, t) + [row]]
  }

  /** [r for r in rows if r.get(f) != v]. */
  function Stripped(rows: seq<Row>, f: Field, v: Val): (out: seq<Row>)
    ensures forall r | r in out :: r in rows && Cell(r, f) != v
  {
    if rows == [] then []
    else if Cell(rows[0], f) == v then Stripped(rows[1..], f, v)
    else [rows[0]] + Stripped(rows[1..], f, v)
  }

  function Strip(p: Projection, t: Table, f: Field, v: Val): Projection {
    p[t := Stripped(Rows(p, t), f, v)]
  }

  // ---------------------------------------------------------------- the random stream of one defect

  /** Random(f"{seed}:{spec.id}"): a stream of draws, read from a position. */
  type Tape = nat -> nat

  function Choice<T>(tape: Tape, at: nat, xs: seq<T>): (x: T)
    requires xs != []
    ensures x in xs
  {
    xs[tape(at) % |xs|]
  }

  function RandInt(tape: Tape, at: nat, lo: nat, hi: nat): (n: nat)
    requires lo <= hi
    ensures lo <= n <= hi
  {
    lo + tape(at) % (hi - lo + 1)
  }

  /** rng.random(), in [0, 1). */
  function Chance(tape: Tape, at: nat): real {
    (tape(at) % 0x20_0000_0000_0000) as real / 9007199254740992.0
  }

  /** rng.sample(xs, k): k draws without replacement. */
  function Sample<T>(tape: Tape, at: nat, xs: seq<T>, k: nat): (picked: seq<T>)
    requires k <= |xs|
    ensures |picked| == k
    decreases k
  {
    if k == 0 then []
    else
      var i := tape(at) % |xs|;
      [xs[i]] + Sample(tape, at + 1, xs[..i] + xs[i + 1..], k - 1)
  }

  // ---------------------------------------------------------------- specs and records

  datatype Class =
    | MissingNode | MissingEdge | MissingAttribute | AttributeDrift | EndpointShift | AsymmetricLink
    | OrphanEntity | SplitIdentity | MergedIdentity | MalformedId | OutOfRange | InvalidEnum
    | AttributeConflict | StructuralConflict | ExistenceConflict | PhantomEntity | ShadowEntity

  predicate CrossSource(c: Class) {
    c.AttributeConflict? || c.StructuralConflict? || c.ExistenceConflict? || c.PhantomEntity? || c.ShadowEntity?
  }

  datatype Side = Catalog | Telemetry | Both

  datatype EntityRef = EntityRef(table: Table, id: string)

  datatype Kind =
    | Noop | DeleteRow | NullAttribute | SetAttribute | RenameId | DuplicateRow | MergeRows | SetAttributeBoth
    | EndpointShiftTelemetry | DeleteFrom(side: string) | InsertCatalog | InsertTelemetry

  /** What a record keeps of the affected rows. */
  datatype Snapshot = Nothing | One(row: Row) | InBoth(catalog: Row, telemetry: Row) | Merge(target: Row, victim: Row)

  datatype Mutation = Mutation(kind: Kind, before: Snapshot, after: Snapshot)

  const NOOP := Mutation(Noop, Nothing, Nothing)

  /** `parameters`; an empty drift table or attribute name counts as absent. */
  datatype Params = Params(attribute: Option<Field>, drift: seq<Val>, value: Option<Val>, dropFrom: string, slots: Option<int>)

  datatype Selection =
    | ExplicitIds(ids: set<string>)
    | RandomRate(rate: real)
    | FixedCount(count: nat)

  type Filter = map<Field, seq<Val>>

  datatype Spec = Spec(id: string, defect: Class, side: Side, entityType: Option<Table>,
                       selection: Selection, filter: Filter, params: Params)

  /** One ledger line; the scenario name, the seed and the timestamp derived from the number are constants of a run. */
  datatype Record = Record(number: nat, defect: Class, side: Side, entity: EntityRef, mutation: Mutation)

  datatype World = World(catalog: Projection, telemetry: Projection) {
    /** catalog if side == "catalog" else telemetry. */
    function On(side: Side): Projection {
      if side.Catalog? then catalog else telemetry
    }

    function Put(side: Side, p: Projection): World {
      if side.Catalog? then this.(catalog := p) else this.(telemetry := p)
    }
  }
}
