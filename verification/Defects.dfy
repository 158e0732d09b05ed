/** The seventeen defect classes: what each one does to its projection, draw by draw. */
module Defects {
  import opened Common
  import opened InjectorModel

  /** The surroundings of a run: one random stream per spec id, and the catalog's display names. */
  datatype Env = Env(stream: string -> Tape, display: string -> string)

  /** What applying a defect to one entity comes to. `Raised` is an exception, which ends the run. */
  datatype Effect<T> = Raised | Done(after: T, mutation: Mutation, next: nat)

  // ---------------------------------------------------------------- missing node

  /** row["id"] of the rows whose f is v. */
  function IdsWhere(rows: seq<Row>, f: Field, v: Val): seq<Val> {
    if rows == [] then []
    else if Cell(rows[0], f) == v then [Cell(rows[0], Id)] + IdsWhere(rows[1..], f, v)
    else IdsWhere(rows[1..], f, v)
  }

  function StripInterface(p: Projection, id: Val): Projection {
    Strip(Strip(p, InterfaceLink, InterfaceId, id), SubnetAssociation, EntityId, id)
  }

  function DropInterfaces(p: Projection, ids: seq<Val>): Projection
    decreases |ids|
  {
    if ids == [] then p
    else DropInterfaces(StripInterface(RemoveFirst(p, PhysicalInterface, ById(ids[0])), ids[0]), ids[1..])
  }

  function DropVrfs(p: Projection, ids: seq<Val>): Projection
    decreases |ids|
  {
    if ids == [] then p
    else DropVrfs(Strip(RemoveFirst(p, VRF, ById(ids[0])), BGPSession, VrfId, ids[0]), ids[1..])
  }

  /** dev.get("interface_id", "").startswith(prefix), which raises when the value is not a string. */
  predicate HasTextInterface(dev: Row) {
    InterfaceId in dev ==> dev[InterfaceId].Text?
  }

  predicate AttachedUnder(dev: Row, prefix: string) {
    InterfaceId in dev && dev[InterfaceId].Text? && StartsWith(dev[InterfaceId].s, prefix)
  }

  function Detached(devices: seq<Row>, prefix: string): (out: seq<Row>)
    ensures |out| == |devices|
  {
    seq(|devices|, i requires 0 <= i < |devices| =>
      if AttachedUnder(devices[i], prefix) then devices[i][InterfaceId := Null] else devices[i])
  }

  function Unplugged(devices: seq<Row>, id: Val): (out: seq<Row>)
    ensures |out| == |devices|
  {
    seq(|devices|, i requires 0 <= i < |devices| =>
      if Cell(devices[i], InterfaceId) == id then devices[i][InterfaceId := Null] else devices[i])
  }

  function DropRouterParts(p: Projection, id: string): Projection {
    var bare := DropInterfaces(p, IdsWhere(Rows(p, PhysicalInterface), RouterId, Text(id)));
    var noVrfs := DropVrfs(bare, IdsWhere(Rows(bare, VRF), RouterId, Text(id)));
    noVrfs[Device := Detached(Rows(noVrfs, Device), id + ":interface:")]
  }

  function DropInterfaceParts(p: Projection, id: string): Projection {
    var stripped := StripInterface(p, Text(id));
    stripped[Device := Unplugged(Rows(stripped, Device), Text(id))]
  }

  /** Deletes the node, and with it what hangs on it. */
  function DeleteNode(p: Projection, e: EntityRef): Projection {
    var removed := RemoveFirst(p, e.table, ById(Text(e.id)));
    match e.table
    case PhysicalRouter => DropRouterParts(removed, e.id)
    case PhysicalInterface => DropInterfaceParts(removed, e.id)
    case PhysicalLink => Strip(removed, InterfaceLink, LinkId, Text(e.id))
    case _ => removed
  }

  /** The device scan of a router deletion trips over a device without an interface. */
  predicate DeletionRaises(p: Projection, e: EntityRef) {
    e.table.PhysicalRouter? && exists dev | dev in Rows(p, Device) :: !HasTextInterface(dev)
  }

  function ApplyMissingNode(p: Projection, e: EntityRef, at: nat): Effect<Projection> {
    match First(Rows(p, e.table), ById(Text(e.id)))
    case None => Done(p, NOOP, at)
    case Some(i) =>
      if DeletionRaises(p, e) then Raised
      else Done(DeleteNode(p, e), Mutation(DeleteRow, One(Rows(p, e.table)[i]), Nothing), at)
  }

  // ---------------------------------------------------------------- edges

  function ApplyMissingEdge(p: Projection, e: EntityRef, at: nat): Effect<Projection> {
    if !IsEdgeTable(e.table) then (if Rows(p, e.table) == [] then Done(p, NOOP, at) else Raised)
    else
      match First(Rows(p, e.table), ByEdge(e.table, e.id))
      case None => Done(p, NOOP, at)
      case Some(i) =>
        Done(p[e.table := Dropped(Rows(p, e.table), i)], Mutation(DeleteRow, One(Rows(p, e.table)[i]), Nothing), at)
  }

  /** The indices, from `from` on, of the rows of a link. */
  function Endpoints(links: seq<Row>, link: Val, from: nat): (idx: seq<nat>)
    requires from <= |links|
    ensures forall i | i in idx :: from <= i < |links| && Cell(links[i], LinkId) == link
    ensures forall i | from <= i < |links| && Cell(links[i], LinkId) == link :: i in idx
    decreases |links| - from
  {
    if from == |links| then []
    else if Cell(links[from], LinkId) == link then [from] + Endpoints(links, link, from + 1)
    else Endpoints(links, link, from + 1)
  }

  /** s.split("::", 1)[1], or s when it holds no "::". */
  function AfterSeparator(s: string, from: nat): string
    requires from <= |s|
    decreases |s| - from
  {
    if from + 2 > |s| then s
    else if s[from] == ':' && s[from + 1] == ':' then s[from + 2..]
    else AfterSeparator(s, from + 1)
  }

  function ApplyAsymmetricLink(p: Projection, e: EntityRef, tape: Tape, at: nat): Effect<Projection> {
    var links := Rows(p, InterfaceLink);
    var ends := Endpoints(links, Text(AfterSeparator(e.id, 0)), 0);
    if |ends| < 2 then Done(p, NOOP, at)
    else
      var i := Choice(tape, at, ends);
      Done(p[InterfaceLink := Dropped(links, i)], Mutation(DeleteRow, One(links[i]), Nothing), at + 1)
  }

  /** The ids of the interfaces that are on none of these edges. */
  function FreeInterfaces(ifaces: seq<Row>, links: seq<Row>, link: Val): (ids: seq<Val>)
    ensures forall id, k | id in ids && 0 <= k < |links| :: Cell(links[k], LinkId) == link ==> Cell(links[k], InterfaceId) != id
  {
    if ifaces == [] then []
    else
      var id := Cell(ifaces[0], Id);
      if exists k | 0 <= k < |links| :: Cell(links[k], LinkId) == link && Cell(links[k], InterfaceId) == id
      then FreeInterfaces(ifaces[1..], links, link)
      else [id] + FreeInterfaces(ifaces[1..], links, link)
  }

  /** Moves endpoint i of a link to an interface that is not on it yet. */
  function ShiftEndpoint(p: Projection, i: nat, kind: Kind, tape: Tape, at: nat): Effect<Projection>
    requires i < |Rows(p, InterfaceLink)|
  {
    var links := Rows(p, InterfaceLink);
    var free := FreeInterfaces(Rows(p, PhysicalInterface), links, Cell(links[i], LinkId));
    if free == [] then Done(p, NOOP, at)
    else
      var row := links[i][InterfaceId := Choice(tape, at, free)];
      Done(p[InterfaceLink := links[i := row]], Mutation(kind, One(links[i]), One(row)), at + 1)
  }

  function ApplyEndpointShift(p: Projection, e: EntityRef, tape: Tape, at: nat): Effect<Projection> {
    match First(Rows(p, InterfaceLink), ByEdge(InterfaceLink, e.id))
    case None => Done(p, NOOP, at)
    case Some(i) => ShiftEndpoint(p, i, SetAttribute, tape, at)
  }

  // ---------------------------------------------------------------- attributes of one row

  /** Projection.find: edge rows have no id to be found by. */
  function Find(p: Projection, e: EntityRef): (i: Option<nat>)
    ensures i.Some? ==> !IsEdgeTable(e.table) && i == First(Rows(p, e.table), ById(Text(e.id)))
  {
    if IsEdgeTable(e.table) then None else First(Rows(p, e.table), ById(Text(e.id)))
  }

  function Edited(p: Projection, e: EntityRef, i: nat, f: Field, v: Val, kind: Kind, next: nat): Effect<Projection>
    requires i < |Rows(p, e.table)|
  {
    var rows := Rows(p, e.table);
    var row := rows[i][f := v];
    Done(p[e.table := rows[i := row]], Mutation(kind, One(rows[i]), One(row)), next)
  }

  function ApplyMissingAttribute(p: Projection, e: EntityRef, at: nat, params: Params): Effect<Projection> {
    if params.attribute.None? then Raised
    else
      var f := params.attribute.value;
      match Find(p, e)
      case None => Done(p, NOOP, at)
      case Some(i) =>
        if Cell(Rows(p, e.table)[i], f).Null? then Done(p, NOOP, at)
        else Edited(p, e, i, f, Null, NullAttribute, at)
  }

  function Texts(ss: seq<string>): (vs: seq<Val>)
    ensures |vs| == |ss|
  {
    seq(|ss|, i requires 0 <= i < |ss| => Text(ss[i]))
  }

  function DefaultDrift(f: Field): seq<Val> {
    match f
    case Vendor => Texts(["Cisco", "Juniper", "Nokia", "Huawei", "Arista"])
    case Model => Texts(["MX480", "ASR9K", "7750-SR", "NE40E", "7280R"])
    case Speed => Texts(["10G", "1G", "100M"])
    case Role => Texts(["PE", "P", "CE", "RR"])
    case Status => Texts(["UP", "DOWN", "ADMIN_DOWN"])
    case _ => []
  }

  function DriftTable(params: Params, f: Field): seq<Val> {
    if params.drift != [] then params.drift else DefaultDrift(f)
  }

  /** [v for v in drift if v != current]. */
  function Alternatives(drift: seq<Val>, current: Val): (vs: seq<Val>)
    ensures current !in vs
  {
    if drift == [] then []
    else if drift[0] == current then Alternatives(drift[1..], current)
    else [drift[0]] + Alternatives(drift[1..], current)
  }

  function ApplyAttributeDrift(p: Projection, e: EntityRef, tape: Tape, at: nat, params: Params): Effect<Projection> {
    if params.attribute.None? then Raised
    else
      var f := params.attribute.value;
      match Find(p, e)
      case None => Done(p, NOOP, at)
      case Some(i) =>
        var current := Cell(Rows(p, e.table)[i], f);
        if current.Null? then Done(p, NOOP, at)
        else if DriftTable(params, f) == [] then Raised
        else
          var choices := Alternatives(DriftTable(params, f), current);
          if choices == [] then Done(p, NOOP, at)
          else Edited(p, e, i, f, Choice(tape, at, choices), SetAttribute, at + 1)
  }

  function ApplyOrphanEntity(p: Projection, e: EntityRef, tape: Tape, at: nat): Effect<Projection> {
    match Find(p, e)
    case None => Done(p, NOOP, at)
    case Some(i) =>
      var nowhere := "router:GHOST-" + Digits(RandInt(tape, at, 1000, 9999));
      if e.table.PhysicalInterface? then Edited(p, e, i, RouterId, Text(nowhere), SetAttribute, at + 1)
      else if e.table.Device? then Edited(p, e, i, InterfaceId, Text(nowhere + ":interface:eth0"), SetAttribute, at + 1)
      else Raised
  }

  function Underscored(s: string): (out: string)
    ensures |out| == |s| && ':' !in out
  {
    seq(|s|, i requires 0 <= i < |s| => if s[i] == ':' then '_' else s[i])
  }

  function ApplyMalformedId(p: Projection, e: EntityRef, at: nat): Effect<Projection> {
    match Find(p, e)
    case None => Done(p, NOOP, at)
    case Some(i) => Edited(p, e, i, Id, Text(Underscored(e.id)), RenameId, at)
  }

  function ApplyOutOfRange(p: Projection, e: EntityRef, at: nat, params: Params): Effect<Projection> {
    match Find(p, e)
    case None => Done(p, NOOP, at)
    case Some(i) =>
      var f := params.attribute.GetOr(if e.table.PhysicalInterface? then Speed else Vlan);
      if f !in Rows(p, e.table)[i] then Done(p, NOOP, at)
      else
        var v := if f == Speed then Text("99999G") else if f == Vlan then Number(99999)
                 else params.value.GetOr(Text("OUT_OF_RANGE"));
        Edited(p, e, i, f, v, SetAttribute, at)
  }

  function ApplyInvalidEnum(p: Projection, e: EntityRef, at: nat, params: Params): Effect<Projection> {
    match Find(p, e)
    case None => Done(p, NOOP, at)
    case Some(i) =>
      var f := params.attribute.GetOr(if e.table.PhysicalRouter? then Role else Status);
      if f !in Rows(p, e.table)[i] then Done(p, NOOP, at)
      else
        var invalid := if f == Role then "FOO" else if f == Status then "BANANA" else "INVALID";
        Edited(p, e, i, f, params.value.GetOr(Text(invalid)), SetAttribute, at)
  }

  // ---------------------------------------------------------------- identities (catalog only)

  function CloneOf(e: EntityRef, row: Row, display: string -> string): Row {
    var name := if Cell(row, Name).Null? then "" else Show(Cell(row, Name));
    var shown := if display(name) == name then name + "-DUP" else display(name);
    row[Id := Text((if e.table.PhysicalRouter? then "router:" else "device:") + shown)][Name := Text(shown)]
  }

  function ApplySplitIdentity(p: Projection, catalog: bool, e: EntityRef, env: Env, at: nat): Effect<Projection> {
    if !catalog then Done(p, NOOP, at)
    else
      match Find(p, e)
      case None => Done(p, NOOP, at)
      case Some(i) =>
        if !e.table.PhysicalRouter? && !e.table.Device? then Raised
        else
          var clone := CloneOf(e, Rows(p, e.table)[i], env.display);
          Done(Append(p, e.table, clone), Mutation(DuplicateRow, Nothing, One(clone)), at)
  }

  /** [r for r in rows if r.get("id") and r["id"] != id]. */
  function Victims(rows: seq<Row>, id: Val): (victims: seq<Row>)
    ensures forall r | r in victims :: r in rows && Cell(r, Id) != id
  {
    if rows == [] then []
    else if Cell(rows[0], Id) in {Null, Text(""), id} then Victims(rows[1..], id)
    else [rows[0]] + Victims(rows[1..], id)
  }

  function ApplyMergedIdentity(p: Projection, catalog: bool, e: EntityRef, tape: Tape, at: nat): Effect<Projection> {
    if !catalog then Done(p, NOOP, at)
    else
      match Find(p, e)
      case None => Done(p, NOOP, at)
      case Some(i) =>
        var rows := Rows(p, e.table);
        var victims := Victims(rows, Text(e.id));
        if victims == [] then Done(p, NOOP, at)
        else if Name !in rows[i] then Raised
        else
          var victim := Choice(tape, at, victims);
          var theirs := if Name in victim then Show(victim[Name]) else "";
          var target := rows[i][Name := Text(Show(rows[i][Name]) + "+" + theirs)];
          Done(p[e.table := Stripped(rows[i := target], Id, Cell(victim, Id))],
               Mutation(MergeRows, Merge(rows[i], victim), One(target)), at + 1)
  }

  function ApplySingle(c: Class, catalog: bool, p: Projection, e: EntityRef, env: Env, tape: Tape, at: nat,
                       params: Params): Effect<Projection>
    requires !CrossSource(c)
  {
    match c
    case MissingNode => ApplyMissingNode(p, e, at)
    case MissingEdge => ApplyMissingEdge(p, e, at)
    case MissingAttribute => ApplyMissingAttribute(p, e, at, params)
    case AttributeDrift => ApplyAttributeDrift(p, e, tape, at, params)
    case EndpointShift => ApplyEndpointShift(p, e, tape, at)
    case AsymmetricLink => ApplyAsymmetricLink(p, e, tape, at)
    case OrphanEntity => ApplyOrphanEntity(p, e, tape, at)
    case SplitIdentity => ApplySplitIdentity(p, catalog, e, env, at)
    case MergedIdentity => ApplyMergedIdentity(p, catalog, e, tape, at)
    case MalformedId => ApplyMalformedId(p, e, at)
    case OutOfRange => ApplyOutOfRange(p, e, at, params)
    case InvalidEnum => ApplyInvalidEnum(p, e, at, params)
  }

  // ---------------------------------------------------------------- both projections

  function ApplyAttributeConflict(w: World, e: EntityRef, tape: Tape, at: nat, params: Params): Effect<World> {
    if params.attribute.None? then Raised
    else
      var f, c, t := params.attribute.value, Find(w.catalog, e), Find(w.telemetry, e);
      if c.None? || t.None? then Done(w, NOOP, at)
      else
        var cats, tels := Rows(w.catalog, e.table), Rows(w.telemetry, e.table);
        var choices := Alternatives(DriftTable(params, f), Cell(cats[c.value], f));
        if Cell(cats[c.value], f).Null? || |choices| < 2 then Done(w, NOOP, at)
        else
          var picked := Sample(tape, at, choices, 2);
          var cat, tel := cats[c.value][f := picked[0]], tels[t.value][f := picked[1]];
          Done(World(w.catalog[e.table := cats[c.value := cat]], w.telemetry[e.table := tels[t.value := tel]]),
               Mutation(SetAttributeBoth, InBoth(cats[c.value], tels[t.value]), InBoth(cat, tel)), at + 2)
  }

  function ApplyStructuralConflict(w: World, e: EntityRef, tape: Tape, at: nat): Effect<World> {
    var ends := Endpoints(Rows(w.telemetry, InterfaceLink), Text(e.id), 0);
    if |ends| < 2 then Done(w, NOOP, at)
    else
      match ShiftEndpoint(w.telemetry, Choice(tape, at, ends), EndpointShiftTelemetry, tape, at + 1)
      case Raised => Raised
      case Done(p, m, next) => Done(w.(telemetry := p), m, next)
  }

  function DropSide(dropFrom: string): Side {
    if dropFrom == "telemetry" then Telemetry else Catalog
  }

  function ApplyExistenceConflict(w: World, e: EntityRef, at: nat, params: Params): Effect<World> {
    var side := DropSide(params.dropFrom);
    var rows := Rows(w.On(side), e.table);
    match First(rows, ById(Text(e.id)))
    case None => Done(w, NOOP, at)
    case Some(i) =>
      Done(w.Put(side, w.On(side)[e.table := Dropped(rows, i)]),
           Mutation(DeleteFrom(params.dropFrom), One(rows[i]), Nothing), at)
  }

  function Fabricated(t: Table, tag: string): Row {
    if t.PhysicalRouter? then
      map[Id := Text("router:phantom-" + tag), Name := Text("phantom-" + tag), Vendor := Text("VyOS"),
          Model := Text("Virtual"), Other("location_city") := Null, Other("location_lat") := Null,
          Other("location_lon") := Null, Role := Text("PE"), Status := Text("Running"), Other("config") := Null]
    else
      map[Id := Text("device:phantom-" + tag), Name := Text("phantom-" + tag), InterfaceId := Null,
          Other("network_name") := Null, Other("ip_address") := Null, Other("mgmt_ip") := Null,
          Other("gateway") := Null, Vlan := Null, Status := Text("Ready"), Other("config") := Null]
  }

  function Fabricate(w: World, e: EntityRef, side: Side, tape: Tape, at: nat): Effect<World> {
    var tag := (if side.Catalog? then "C" else "T") + Digits(RandInt(tape, at, 10000, 99999));
    if !e.table.PhysicalRouter? && !e.table.Device? then Done(w, NOOP, at + 1)
    else
      var row := Fabricated(e.table, tag);
      Done(w.Put(side, Append(w.On(side), e.table, row)),
           Mutation(if side.Catalog? then InsertCatalog else InsertTelemetry, Nothing, One(row)), at + 1)
  }

  function ApplyCross(c: Class, w: World, e: EntityRef, tape: Tape, at: nat, params: Params): Effect<World>
    requires CrossSource(c)
  {
    match c
    case AttributeConflict => ApplyAttributeConflict(w, e, tape, at, params)
    case StructuralConflict => ApplyStructuralConflict(w, e, tape, at)
    case ExistenceConflict => ApplyExistenceConflict(w, e, at, params)
    case PhantomEntity => Fabricate(w, e, Catalog, tape, at)
    case ShadowEntity => Fabricate(w, e, Telemetry, tape, at)
  }

  /** One defect on one entity. */
  function Apply(spec: Spec, w: World, e: EntityRef, env: Env, at: nat): Effect<World> {
    var tape := env.stream(spec.id);
    if CrossSource(spec.defect) then ApplyCross(spec.defect, w, e, tape, at, spec.params)
    else
      match ApplySingle(spec.defect, spec.side.Catalog?, w.On(spec.side), e, env, tape, at, spec.params)
      case Raised => Raised
      case Done(p, m, next) => Done(w.Put(spec.side, p), m, next)
  }
}
