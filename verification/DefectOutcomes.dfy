/** What a recorded defect of each class leaves behind, and what it leaves alone. */
module DefectOutcomes {
  import opened Common
  import opened Positions
  import opened InjectorModel
  import opened Defects
  import opened DefectEffects
  import opened DefectRows

  // ---------------------------------------------------------------- one projection

  /** The node has gone; which other tables lose rows depends on its kind. */
  ghost predicate NodeGone(p: Projection, q: Projection, e: EntityRef) {
    && (exists i: nat :: FirstWithId(Rows(p, e.table), e.id, i) && PoppedAt(Rows(p, e.table), Rows(q, e.table), i))
    && match e.table
       case PhysicalRouter => forall t | t in {PhysicalLink, LogicalSubnet, L3VPNService} :: Rows(q, t) == Rows(p, t)
       case PhysicalInterface =>
         && Without(Rows(p, InterfaceLink), Rows(q, InterfaceLink), InterfaceId, Text(e.id))
         && Without(Rows(p, SubnetAssociation), Rows(q, SubnetAssociation), EntityId, Text(e.id))
         && UnpluggedFrom(Rows(p, Device), Rows(q, Device), e.id)
         && forall t | t !in {PhysicalInterface, InterfaceLink, SubnetAssociation, Device} :: Rows(q, t) == Rows(p, t)
       case PhysicalLink =>
         && Without(Rows(p, InterfaceLink), Rows(q, InterfaceLink), LinkId, Text(e.id))
         && forall t | t !in {PhysicalLink, InterfaceLink} :: Rows(q, t) == Rows(p, t)
       case _ => forall t | t != e.table :: Rows(q, t) == Rows(p, t)
  }

  lemma {:induction false} DropInterfacesLeaves(p: Projection, ids: seq<Val>, t: Table)
    requires t !in {PhysicalInterface, InterfaceLink, SubnetAssociation}
    ensures Rows(DropInterfaces(p, ids), t) == Rows(p, t)
    decreases |ids|
  {
    if ids != [] {
      DropInterfacesLeaves(StripInterface(RemoveFirst(p, PhysicalInterface, ById(ids[0])), ids[0]), ids[1..], t);
    }
  }

  lemma {:induction false} DropVrfsLeaves(p: Projection, ids: seq<Val>, t: Table)
    requires t !in {VRF, BGPSession}
    ensures Rows(DropVrfs(p, ids), t) == Rows(p, t)
    decreases |ids|
  {
    if ids != [] {
      DropVrfsLeaves(Strip(RemoveFirst(p, VRF, ById(ids[0])), BGPSession, VrfId, ids[0]), ids[1..], t);
    }
  }

  lemma RouterPartsLeave(p: Projection, id: string, t: Table)
    requires t in {PhysicalRouter, PhysicalLink, LogicalSubnet, L3VPNService}
    ensures Rows(DropRouterParts(p, id), t) == Rows(p, t)
  {
    var bare := DropInterfaces(p, IdsWhere(Rows(p, PhysicalInterface), RouterId, Text(id)));
    DropInterfacesLeaves(p, IdsWhere(Rows(p, PhysicalInterface), RouterId, Text(id)), t);
    DropVrfsLeaves(bare, IdsWhere(Rows(bare, VRF), RouterId, Text(id)), t);
  }

  lemma MissingNodeIs(p: Projection, e: EntityRef, at: nat)
    requires Recorded(ApplyMissingNode(p, e, at))
    ensures NodeGone(p, ApplyMissingNode(p, e, at).after, e)
  {
    match e.table
    case PhysicalRouter =>
      PoppedFirst(Rows(p, PhysicalRouter), e.id);
      forall t | t in {PhysicalRouter, PhysicalLink, LogicalSubnet, L3VPNService} {
        RouterPartsLeave(RemoveFirst(p, PhysicalRouter, ById(Text(e.id))), e.id, t);
      }
    case PhysicalInterface => MissingInterfaceIs(p, e.id, at);
    case PhysicalLink => MissingLinkIs(p, e.id, at);
    case _ => MissingOtherIs(p, e, at);
  }

  /** The entity's row has another value in the field than before; all else is as it was. */
  ghost predicate Changes(p: Projection, q: Projection, e: EntityRef, f: Field, v: Val) {
    exists i: nat :: FirstWithId(Rows(p, e.table), e.id, i) && OnlyFieldChanged(p, q, e.table, i, f, v) && Cell(Rows(p, e.table)[i], f) !in {v, Null}
  }

  lemma MissingAttributeIs(p: Projection, e: EntityRef, at: nat, params: Params)
    requires Recorded(ApplyMissingAttribute(p, e, at, params))
    ensures Changes(p, ApplyMissingAttribute(p, e, at, params).after, e, params.attribute.value, Null)
  {
    MissingAttributeIsReal(p, e, at, params);
    PoppedFirst(Rows(p, e.table), e.id);
  }

  lemma DriftIs(p: Projection, e: EntityRef, tape: Tape, at: nat, params: Params)
    requires Recorded(ApplyAttributeDrift(p, e, tape, at, params))
    ensures exists v :: v in DriftTable(params, params.attribute.value) && Changes(p, ApplyAttributeDrift(p, e, tape, at, params).after, e, params.attribute.value, v)
  {
    DriftIsReal(p, e, tape, at, params);
    PoppedFirst(Rows(p, e.table), e.id);
  }

  /** The link that an id names: what follows the first double colon, or all of it. */
  ghost predicate NamesLink(id: string, link: string) {
    || ((forall k: nat :: !DoubleColon(id, k)) && link == id)
    || exists k: nat :: FirstDoubleColon(id, 0, k) && link == id[k + 2..]
  }

  lemma {:induction false} FindDoubleColon(s: string, from: nat) returns (k: nat)
    requires exists k: nat :: from <= k && DoubleColon(s, k)
    ensures FirstDoubleColon(s, from, k)
    decreases |s| - from
  {
    if DoubleColon(s, from) {
      k := from;
    } else {
      k := FindDoubleColon(s, from + 1);
    }
  }

  /** An id names one link. */
  lemma NamesLinkIff(id: string, link: string)
    ensures NamesLink(id, link) <==> link == AfterSeparator(id, 0)
  {
    if k: nat :| DoubleColon(id, k) {
      var first := FindDoubleColon(id, 0);
      AfterSeparatorAt(id, 0, first);
      assert forall j: nat | FirstDoubleColon(id, 0, j) :: j == first;
    } else {
      AfterNoSeparator(id, 0);
    }
  }

  /** The end at i of the link has gone, and the end at j is another. */
  ghost predicate EndGone(before: seq<Row>, after: seq<Row>, link: string, i: nat, j: nat) {
    && i < |before| && j < |before| && i != j
    && Cell(before[i], LinkId) == Text(link) && Cell(before[j], LinkId) == Text(link)
    && PoppedAt(before, after, i)
  }

  /** One of at least two ends of the link has gone, and nothing else. */
  ghost predicate LosesEnd(p: Projection, q: Projection, link: string) {
    && (forall t | t != InterfaceLink :: Rows(q, t) == Rows(p, t))
    && exists i: nat, j: nat :: EndGone(Rows(p, InterfaceLink), Rows(q, InterfaceLink), link, i, j)
  }

  lemma {:induction false} EndpointsAscend(links: seq<Row>, link: Val, from: nat)
    requires from <= |links|
    ensures Ascending(Endpoints(links, link, from))
    decreases |links| - from
  {
    if from < |links| {
      EndpointsAscend(links, link, from + 1);
      var rest := Endpoints(links, link, from + 1);
      assert forall k | 0 <= k < |rest| :: rest[k] in rest;
    }
  }

  lemma AnotherEnd(links: seq<Row>, link: string, i: nat) returns (j: nat)
    requires var ends := Endpoints(links, Text(link), 0); |ends| >= 2 && i in ends
    ensures EndGone(links, Dropped(links, i), link, i, j)
  {
    var ends := Endpoints(links, Text(link), 0);
    EndpointsAscend(links, Text(link), 0);
    DroppedIs(links, i);
    j := if ends[0] == i then ends[1] else ends[0];
    assert ends[0] in ends && ends[1] in ends;
  }

  lemma AsymmetricLinkIs(p: Projection, e: EntityRef, tape: Tape, at: nat)
    requires Recorded(ApplyAsymmetricLink(p, e, tape, at))
    ensures exists link :: NamesLink(e.id, link) && LosesEnd(p, ApplyAsymmetricLink(p, e, tape, at).after, link)
  {
    var link, links := AfterSeparator(e.id, 0), Rows(p, InterfaceLink);
    NamesLinkIff(e.id, link);
    var i := Choice(tape, at, Endpoints(links, Text(link), 0));
    var j := AnotherEnd(links, link, i);
    assert EndGone(links, Rows(ApplyAsymmetricLink(p, e, tape, at).after, InterfaceLink), link, i, j);
    assert LosesEnd(p, ApplyAsymmetricLink(p, e, tape, at).after, link);
  }

  /** The target is named after both, and all rows with the victim's id have gone. */
  ghost predicate Merges(p: Projection, q: Projection, e: EntityRef) {
    && (forall t | t != e.table :: Rows(q, t) == Rows(p, t))
    && exists i: nat, victim :: FirstWithId(Rows(p, e.table), e.id, i) && victim in Rows(p, e.table) && Differs(victim, Text(e.id))
         && Absorbs(Rows(p, e.table), Rows(q, e.table), i, victim)
  }

  ghost predicate Absorbs(before: seq<Row>, after: seq<Row>, i: nat, victim: Row)
    requires i < |before|
  {
    Name in before[i] &&
    var name := Show(before[i][Name]) + "+" + if Name in victim then Show(victim[Name]) else "";
    Without(before[i := before[i][Name := Text(name)]], after, Id, Cell(victim, Id))
  }

  lemma MergedIdentityIs(p: Projection, e: EntityRef, tape: Tape, at: nat)
    requires Recorded(ApplyMergedIdentity(p, true, e, tape, at))
    ensures Merges(p, ApplyMergedIdentity(p, true, e, tape, at).after, e)
  {
    var i, rows := Find(p, e).value, Rows(p, e.table);
    PoppedFirst(rows, e.id);
    assert rows[0..] == rows;
    var ats := VictimsAre(rows, 0, Text(e.id));
    var victim := Choice(tape, at, Victims(rows, Text(e.id)));
    var k :| 0 <= k < |Victims(rows, Text(e.id))| && Victims(rows, Text(e.id))[k] == victim;
    assert ats[k] in ats && Another(rows, Text(e.id))(ats[k]);
    var theirs := if Name in victim then Show(victim[Name]) else "";
    StrippedIs(rows[i := rows[i][Name := Text(Show(rows[i][Name]) + "+" + theirs)]], Id, Cell(victim, Id));
    assert Absorbs(rows, Rows(ApplyMergedIdentity(p, true, e, tape, at).after, e.table), i, victim);
  }

  /** What a recorded defect of each single-projection class does to its projection. */
  ghost predicate Corrupts(c: Class, params: Params, display: string -> string, p: Projection, q: Projection, e: EntityRef) {
    match c
    case MissingNode => NodeGone(p, q, e)
    case MissingEdge =>
      && (exists i: nat :: FirstEdgeOf(e.table, Rows(p, e.table), e.id, i) && PoppedAt(Rows(p, e.table), Rows(q, e.table), i))
      && forall t | t != e.table :: Rows(q, t) == Rows(p, t)
    case MissingAttribute => params.attribute.Some? && Changes(p, q, e, params.attribute.value, Null)
    case AttributeDrift =>
      params.attribute.Some? && exists v :: v in DriftTable(params, params.attribute.value) && Changes(p, q, e, params.attribute.value, v)
    case EndpointShift => exists i: nat :: FirstEdgeOf(InterfaceLink, Rows(p, InterfaceLink), e.id, i) && MovedOffLink(p, q, i)
    case AsymmetricLink => exists link :: NamesLink(e.id, link) && LosesEnd(p, q, link)
    case OrphanEntity =>
      exists n: nat :: 1000 <= n <= 9999 &&
        if e.table.PhysicalInterface? then Writes(p, q, e, RouterId, Text("router:GHOST-" + Digits(n)))
        else e.table.Device? && Writes(p, q, e, InterfaceId, Text("router:GHOST-" + Digits(n) + ":interface:eth0"))
    case SplitIdentity =>
      exists i: nat, clone :: FirstWithId(Rows(p, e.table), e.id, i) && Clones(Rows(p, e.table)[i], clone, e.table, display) && Appended(p, q, e.table, clone)
    case MergedIdentity => Merges(p, q, e)
    case MalformedId => exists s :: Writes(p, q, e, Id, Text(s)) && MalformedFrom(e.id, s)
    case OutOfRange =>
      var f := params.attribute.GetOr(if e.table.PhysicalInterface? then Speed else Vlan);
      Writes(p, q, e, f, if f == Speed then Text("99999G") else if f == Vlan then Number(99999) else params.value.GetOr(Text("OUT_OF_RANGE")))
    case InvalidEnum =>
      var f := params.attribute.GetOr(if e.table.PhysicalRouter? then Role else Status);
      Writes(p, q, e, f, params.value.GetOr(Text(if f == Role then "FOO" else if f == Status then "BANANA" else "INVALID")))
    case _ => false
  }

  lemma SingleIs(c: Class, catalog: bool, p: Projection, e: EntityRef, env: Env, tape: Tape, at: nat, params: Params)
    requires !CrossSource(c) && Recorded(ApplySingle(c, catalog, p, e, env, tape, at, params))
    ensures Corrupts(c, params, env.display, p, ApplySingle(c, catalog, p, e, env, tape, at, params).after, e)
    ensures c in {SplitIdentity, MergedIdentity} ==> catalog
  {
    match c
    case MissingNode => MissingNodeIs(p, e, at);
    case MissingEdge => MissingEdgeIs(p, e, at);
    case MissingAttribute => MissingAttributeIs(p, e, at, params);
    case AttributeDrift => DriftIs(p, e, tape, at, params);
    case EndpointShift => EndpointShiftIs(p, e, tape, at);
    case AsymmetricLink => AsymmetricLinkIs(p, e, tape, at);
    case OrphanEntity => OrphanEntityIs(p, e, tape, at);
    case SplitIdentity => SplitIdentityIs(p, e, env, at);
    case MergedIdentity => MergedIdentityIs(p, e, tape, at);
    case MalformedId => MalformedIdIs(p, e, at);
    case OutOfRange => OutOfRangeIs(p, e, at, params);
    case InvalidEnum => InvalidEnumIs(p, e, at, params);
  }

  // ---------------------------------------------------------------- both projections

  /** What a recorded defect of each cross-source class does to catalog and telemetry. */
  ghost predicate CorruptsBoth(c: Class, params: Params, w: World, after: World, e: EntityRef) {
    match c
    case AttributeConflict =>
      params.attribute.Some? &&
      exists u, v :: u in DriftTable(params, params.attribute.value) && v in DriftTable(params, params.attribute.value)
                     && Changes(w.catalog, after.catalog, e, params.attribute.value, u)
                     && Writes(w.telemetry, after.telemetry, e, params.attribute.value, v)
    case StructuralConflict =>
      after.catalog == w.catalog &&
      exists i: nat :: i < |Rows(w.telemetry, InterfaceLink)| && Cell(Rows(w.telemetry, InterfaceLink)[i], LinkId) == Text(e.id)
                       && MovedOffLink(w.telemetry, after.telemetry, i)
    case ExistenceConflict =>
      if params.dropFrom == "telemetry" then FirstPopped(w.telemetry, after.telemetry, e) && after.catalog == w.catalog
      else FirstPopped(w.catalog, after.catalog, e) && after.telemetry == w.telemetry
    case PhantomEntity => Invents(e.table, "C", w.catalog, after.catalog) && after.telemetry == w.telemetry
    case ShadowEntity => Invents(e.table, "T", w.telemetry, after.telemetry) && after.catalog == w.catalog
    case _ => false
  }

  /** A made-up row with a tag of that letter and five digits has been appended. */
  ghost predicate Invents(t: Table, letter: string, p: Projection, q: Projection) {
    t in {PhysicalRouter, Device} &&
    exists n: nat, row :: 10000 <= n <= 99999 && MadeUp(t, row, letter + Digits(n)) && Appended(p, q, t, row)
  }

  lemma FoundWrites(p: Projection, q: Projection, e: EntityRef, f: Field, v: Val)
    requires Find(p, e).Some? && OnlyFieldChanged(p, q, e.table, Find(p, e).value, f, v)
    ensures Writes(p, q, e, f, v)
    ensures Cell(Rows(p, e.table)[Find(p, e).value], f) !in {v, Null} ==> Changes(p, q, e, f, v)
  {
    PoppedFirst(Rows(p, e.table), e.id);
  }

  lemma AttributeConflictIs(w: World, e: EntityRef, tape: Tape, at: nat, params: Params)
    requires Recorded(ApplyAttributeConflict(w, e, tape, at, params))
    ensures CorruptsBoth(AttributeConflict, params, w, ApplyAttributeConflict(w, e, tape, at, params).after, e)
  {
    AttributeConflictIsReal(w, e, tape, at, params);
    var f, after := params.attribute.value, ApplyAttributeConflict(w, e, tape, at, params).after;
    var c, t := Find(w.catalog, e).value, Find(w.telemetry, e).value;
    var u, v := Cell(Rows(after.catalog, e.table)[c], f), Cell(Rows(after.telemetry, e.table)[t], f);
    FoundWrites(w.catalog, after.catalog, e, f, u);
    FoundWrites(w.telemetry, after.telemetry, e, f, v);
  }

  lemma CrossIs(c: Class, w: World, e: EntityRef, tape: Tape, at: nat, params: Params)
    requires CrossSource(c) && Recorded(ApplyCross(c, w, e, tape, at, params))
    ensures CorruptsBoth(c, params, w, ApplyCross(c, w, e, tape, at, params).after, e)
  {
    match c
    case AttributeConflict => AttributeConflictIs(w, e, tape, at, params);
    case StructuralConflict => StructuralConflictIs(w, e, tape, at);
    case ExistenceConflict => ExistenceConflictIsReal(w, e, at, params);
    case PhantomEntity => FabricateIs(w, e, tape, at, params, true);
    case ShadowEntity => FabricateIs(w, e, tape, at, params, false);
  }

  // ---------------------------------------------------------------- every class

  /** Whatever is recorded has happened: a defect does to its projection, or to both, what its class
      says, and a single-projection defect leaves the other projection alone. */
  lemma AppliedIs(spec: Spec, w: World, e: EntityRef, env: Env, at: nat)
    requires Recorded(Apply(spec, w, e, env, at))
    ensures var after := Apply(spec, w, e, env, at).after;
            if spec.defect in {AttributeConflict, StructuralConflict, ExistenceConflict, PhantomEntity, ShadowEntity} then
              CorruptsBoth(spec.defect, spec.params, w, after, e)
            else if spec.side.Catalog? then
              Corrupts(spec.defect, spec.params, env.display, w.catalog, after.catalog, e) && after.telemetry == w.telemetry
            else
              Corrupts(spec.defect, spec.params, env.display, w.telemetry, after.telemetry, e) && after.catalog == w.catalog
              && spec.defect !in {SplitIdentity, MergedIdentity}
  {
    var tape := env.stream(spec.id);
    if CrossSource(spec.defect) {
      CrossIs(spec.defect, w, e, tape, at, spec.params);
    } else {
      SingleIs(spec.defect, spec.side.Catalog?, w.On(spec.side), e, env, tape, at, spec.params);
    }
  }

  // ---------------------------------------------------------------- when a defect takes place

  ghost predicate HasId(rows: seq<Row>, id: string) {
    exists i: nat :: FirstWithId(rows, id, i)
  }

  /** Some row of the entity's table has its id; edges have none to be found by. */
  ghost predicate Found(p: Projection, e: EntityRef) {
    e.table !in {InterfaceLink, SubnetAssociation} && HasId(Rows(p, e.table), e.id)
  }

  lemma FindIff(p: Projection, e: EntityRef)
    ensures Find(p, e).Some? <==> Found(p, e)
    ensures Find(p, e).Some? ==> FirstWithId(Rows(p, e.table), e.id, Find(p, e).value)
    ensures First(Rows(p, e.table), ById(Text(e.id))).Some? <==> HasId(Rows(p, e.table), e.id)
  {
    var rows := Rows(p, e.table);
    PoppedFirst(rows, e.id);
    if i: nat :| FirstWithId(rows, e.id, i) {
      assert Matches(rows[i], ById(Text(e.id)));
    }
  }

  /** The cell of the entity's row, the first with its id. */
  ghost predicate Reads(p: Projection, e: EntityRef, f: Field, v: Val) {
    exists i: nat :: FirstWithId(Rows(p, e.table), e.id, i) && Cell(Rows(p, e.table)[i], f) == v
  }

  lemma ReadsIff(p: Projection, e: EntityRef, f: Field)
    requires Find(p, e).Some?
    ensures forall v :: Reads(p, e, f, v) <==> v == Cell(Rows(p, e.table)[Find(p, e).value], f)
  {
    FindIff(p, e);
  }

  /** The entity's row has the member, null or not. */
  ghost predicate HasField(p: Projection, e: EntityRef, f: Field) {
    exists i: nat :: FirstWithId(Rows(p, e.table), e.id, i) && f in Rows(p, e.table)[i]
  }

  ghost predicate TwoEnds(links: seq<Row>, link: string) {
    exists i: nat, j: nat :: i < j < |links| && Cell(links[i], LinkId) == Text(link) && Cell(links[j], LinkId) == Text(link)
  }

  lemma TwoEndsIff(links: seq<Row>, link: string)
    ensures |Endpoints(links, Text(link), 0)| >= 2 <==> TwoEnds(links, link)
  {
    var ends := Endpoints(links, Text(link), 0);
    EndpointsAscend(links, Text(link), 0);
    if |ends| >= 2 {
      assert ends[0] in ends && ends[1] in ends;
    }
    if i: nat, j: nat :| i < j < |links| && Cell(links[i], LinkId) == Text(link) && Cell(links[j], LinkId) == Text(link) {
      assert i in ends && j in ends;
    }
  }

  /** Some interface is at no end of the link. */
  ghost predicate FreeFor(p: Projection, link: Val) {
    exists r: Row :: r in Rows(p, PhysicalInterface) && Free(Rows(p, InterfaceLink), link, Cell(r, Id))
  }

  ghost predicate Free(links: seq<Row>, link: Val, id: Val) {
    forall k | 0 <= k < |links| && Cell(links[k], LinkId) == link :: Cell(links[k], InterfaceId) != id
  }

  lemma {:induction false} FreeIff(ifaces: seq<Row>, links: seq<Row>, link: Val)
    ensures FreeInterfaces(ifaces, links, link) != [] <==> exists r: Row :: r in ifaces && Free(links, link, Cell(r, Id))
  {
    if ifaces != [] {
      FreeIff(ifaces[1..], links, link);
      assert forall r: Row :: r in ifaces <==> r == ifaces[0] || r in ifaces[1..];
      assert Free(links, link, Cell(ifaces[0], Id)) <==>
             !exists k | 0 <= k < |links| :: Cell(links[k], LinkId) == link && Cell(links[k], InterfaceId) == Cell(ifaces[0], Id);
    }
  }

  /** Some value of the table is not that one. */
  ghost predicate OtherValue(drift: seq<Val>, current: Val) {
    exists v :: v in drift && v != current
  }

  lemma OtherValueIff(drift: seq<Val>, current: Val)
    ensures Alternatives(drift, current) != [] <==> OtherValue(drift, current)
  {
    var vs := Alternatives(drift, current);
    if vs != [] {
      AlternativesFrom(drift, current, vs[0]);
    }
    if v :| v in drift && v != current {
      AlternativesFrom(drift, current, v);
    }
  }

  /** What a class of one projection needs; the drift of an attribute also needs a table to draw from. */
  ghost predicate TakesPlace(c: Class, catalog: bool, params: Params, p: Projection, e: EntityRef) {
    match c
    case MissingNode =>
      && HasId(Rows(p, e.table), e.id)
      && (e.table == PhysicalRouter ==> forall dev: Row | dev in Rows(p, Device) && InterfaceId in dev :: dev[InterfaceId].Text?)
    case MissingEdge => exists r: Row :: r in Rows(p, e.table) && EdgeOf(e.table, r, e.id)
    case MissingAttribute => params.attribute.Some? && Found(p, e) && !Reads(p, e, params.attribute.value, Null)
    case AttributeDrift =>
      && params.attribute.Some? && Found(p, e) && !Reads(p, e, params.attribute.value, Null)
      && exists v :: Reads(p, e, params.attribute.value, v) && OtherValue(DriftTable(params, params.attribute.value), v)
    case EndpointShift =>
      exists i: nat :: FirstEdgeOf(InterfaceLink, Rows(p, InterfaceLink), e.id, i) && FreeFor(p, Cell(Rows(p, InterfaceLink)[i], LinkId))
    case AsymmetricLink => exists link :: NamesLink(e.id, link) && TwoEnds(Rows(p, InterfaceLink), link)
    case OrphanEntity => e.table in {PhysicalInterface, Device} && Found(p, e)
    case SplitIdentity => catalog && e.table in {PhysicalRouter, Device} && Found(p, e)
    case MergedIdentity =>
      catalog && Found(p, e) && HasField(p, e, Name) && exists r: Row :: r in Rows(p, e.table) && Differs(r, Text(e.id))
    case MalformedId => Found(p, e)
    case OutOfRange => Found(p, e) && HasField(p, e, params.attribute.GetOr(if e.table.PhysicalInterface? then Speed else Vlan))
    case InvalidEnum => Found(p, e) && HasField(p, e, params.attribute.GetOr(if e.table.PhysicalRouter? then Role else Status))
    case _ => false
  }

  const NO_PARAMS := Params(None, [], None, "", None)

  lemma MissingNodeIff(p: Projection, e: EntityRef, at: nat)
    ensures Recorded(ApplyMissingNode(p, e, at)) <==> TakesPlace(MissingNode, true, NO_PARAMS, p, e)
  {
    FindIff(p, e);
  }

  lemma EdgeFoundIff(t: Table, rows: seq<Row>, id: string)
    ensures First(rows, ByEdge(t, id)).Some? <==> exists r: Row :: r in rows && EdgeOf(t, r, id)
    ensures forall i: nat | FirstEdgeOf(t, rows, id, i) :: First(rows, ByEdge(t, id)) == Some(i)
  {
    forall i: nat | FirstEdgeOf(t, rows, id, i) ensures First(rows, ByEdge(t, id)) == Some(i) {
      FirstIs(rows, ByEdge(t, id), i);
    }
    var found := First(rows, ByEdge(t, id));
    if found.Some? {
      assert rows[found.value] in rows;
    }
    if r :| r in rows && EdgeOf(t, r, id) {
      var i :| 0 <= i < |rows| && rows[i] == r;
      assert Matches(rows[i], ByEdge(t, id));
    }
  }

  lemma EndpointShiftIff(p: Projection, e: EntityRef, tape: Tape, at: nat)
    ensures Recorded(ApplyEndpointShift(p, e, tape, at)) <==> TakesPlace(EndpointShift, true, NO_PARAMS, p, e)
  {
    var links := Rows(p, InterfaceLink);
    EdgeFoundIff(InterfaceLink, links, e.id);
    var found := First(links, ByEdge(InterfaceLink, e.id));
    if found.Some? {
      FirstEdgeIs(InterfaceLink, links, e.id);
      FreeIff(Rows(p, PhysicalInterface), links, Cell(links[found.value], LinkId));
    }
  }

  lemma AsymmetricLinkIff(p: Projection, e: EntityRef, tape: Tape, at: nat)
    ensures Recorded(ApplyAsymmetricLink(p, e, tape, at)) <==> TakesPlace(AsymmetricLink, true, NO_PARAMS, p, e)
  {
    forall link {
      NamesLinkIff(e.id, link);
    }
    TwoEndsIff(Rows(p, InterfaceLink), AfterSeparator(e.id, 0));
  }

  lemma DriftIff(p: Projection, e: EntityRef, tape: Tape, at: nat, params: Params)
    ensures Recorded(ApplyAttributeDrift(p, e, tape, at, params)) <==> TakesPlace(AttributeDrift, true, params, p, e)
  {
    FindIff(p, e);
    if Find(p, e).Some? && params.attribute.Some? {
      var f := params.attribute.value;
      var v := Cell(Rows(p, e.table)[Find(p, e).value], f);
      OtherValueIff(DriftTable(params, f), v);
      ReadsIff(p, e, f);
    }
  }

  lemma MergedIdentityIff(p: Projection, catalog: bool, e: EntityRef, tape: Tape, at: nat)
    ensures Recorded(ApplyMergedIdentity(p, catalog, e, tape, at)) <==> TakesPlace(MergedIdentity, catalog, NO_PARAMS, p, e)
  {
    FindIff(p, e);
    VictimsIff(Rows(p, e.table), Text(e.id));
  }

  lemma {:induction false} VictimsIff(rows: seq<Row>, id: Val)
    ensures Victims(rows, id) != [] <==> exists r: Row :: r in rows && Differs(r, id)
  {
    if rows != [] {
      VictimsIff(rows[1..], id);
      VictimsStep(rows, id);
      assert forall r: Row :: r in rows <==> r == rows[0] || r in rows[1..];
    }
  }

  /** A defect of one projection is recorded if and only if there is something for it to strike. */
  lemma SingleRecordedIff(c: Class, catalog: bool, p: Projection, e: EntityRef, env: Env, tape: Tape, at: nat, params: Params)
    requires !CrossSource(c)
    ensures Recorded(ApplySingle(c, catalog, p, e, env, tape, at, params)) <==> TakesPlace(c, catalog, params, p, e)
  {
    FindIff(p, e);
    match c
    case MissingNode => MissingNodeIff(p, e, at);
    case MissingEdge => EdgeFoundIff(e.table, Rows(p, e.table), e.id);
    case EndpointShift => EndpointShiftIff(p, e, tape, at);
    case AsymmetricLink => AsymmetricLinkIff(p, e, tape, at);
    case AttributeDrift => DriftIff(p, e, tape, at, params);
    case MergedIdentity => MergedIdentityIff(p, catalog, e, tape, at);
    case _ =>
  }

  /** Two values of the table, at different places, are not that one. */
  ghost predicate TwoOthers(drift: seq<Val>, current: Val) {
    exists i: nat, j: nat :: i < j < |drift| && drift[i] != current && drift[j] != current
  }

  lemma TwoOthersIff(drift: seq<Val>, current: Val)
    ensures |Alternatives(drift, current)| >= 2 <==> TwoOthers(drift, current)
  {
    assert drift[0..] == drift;
    var at := AlternativesAre(drift, 0, current);
    if |at| >= 2 {
      assert at[0] in at && at[1] in at;
    }
    if i: nat, j: nat :| i < j < |drift| && drift[i] != current && drift[j] != current {
      assert i in at && j in at;
    }
  }

  ghost predicate TakesPlaceAcross(c: Class, params: Params, w: World, e: EntityRef) {
    match c
    case AttributeConflict =>
      && params.attribute.Some? && Found(w.catalog, e) && Found(w.telemetry, e) && !Reads(w.catalog, e, params.attribute.value, Null)
      && exists v :: Reads(w.catalog, e, params.attribute.value, v) && TwoOthers(DriftTable(params, params.attribute.value), v)
    case StructuralConflict => TwoEnds(Rows(w.telemetry, InterfaceLink), e.id) && FreeFor(w.telemetry, Text(e.id))
    case ExistenceConflict => HasId(Rows(if params.dropFrom == "telemetry" then w.telemetry else w.catalog, e.table), e.id)
    case _ => e.table in {PhysicalRouter, Device}
  }

  lemma RecordedConflictIff(w: World, e: EntityRef, tape: Tape, at: nat, params: Params)
    ensures Recorded(ApplyAttributeConflict(w, e, tape, at, params)) <==> Conflicts(w, e, params)
  {
  }

  lemma ConflictsIff(w: World, e: EntityRef, params: Params)
    ensures Conflicts(w, e, params) <==> TakesPlaceAcross(AttributeConflict, params, w, e)
  {
    FoundIff(w.catalog, e);
    FoundIff(w.telemetry, e);
    if Find(w.catalog, e).Some? && params.attribute.Some? {
      ReadsIff(w.catalog, e, params.attribute.value);
      TwoOthersIff(DriftTable(params, params.attribute.value), Cell(Rows(w.catalog, e.table)[Find(w.catalog, e).value], params.attribute.value));
    }
  }

  lemma FoundIff(p: Projection, e: EntityRef)
    ensures Find(p, e).Some? <==> Found(p, e)
  {
    FindIff(p, e);
  }

  lemma AttributeConflictIff(w: World, e: EntityRef, tape: Tape, at: nat, params: Params)
    ensures Recorded(ApplyAttributeConflict(w, e, tape, at, params)) <==> TakesPlaceAcross(AttributeConflict, params, w, e)
  {
    RecordedConflictIff(w, e, tape, at, params);
    ConflictsIff(w, e, params);
  }

  lemma StructuralConflictIff(w: World, e: EntityRef, tape: Tape, at: nat)
    ensures Recorded(ApplyStructuralConflict(w, e, tape, at)) <==> TakesPlaceAcross(StructuralConflict, NO_PARAMS, w, e)
  {
    TwoEndsIff(Rows(w.telemetry, InterfaceLink), e.id);
    FreeIff(Rows(w.telemetry, PhysicalInterface), Rows(w.telemetry, InterfaceLink), Text(e.id));
  }

  lemma CrossRecordedIff(c: Class, w: World, e: EntityRef, tape: Tape, at: nat, params: Params)
    requires CrossSource(c)
    ensures Recorded(ApplyCross(c, w, e, tape, at, params)) <==> TakesPlaceAcross(c, params, w, e)
  {
    match c
    case AttributeConflict => AttributeConflictIff(w, e, tape, at, params);
    case StructuralConflict => StructuralConflictIff(w, e, tape, at);
    case ExistenceConflict => FindIff(if params.dropFrom == "telemetry" then w.telemetry else w.catalog, e);
    case _ =>
  }

  /** A defect is recorded if and only if there is something for its class to strike. */
  lemma RecordedIff(spec: Spec, w: World, e: EntityRef, env: Env, at: nat)
    ensures Recorded(Apply(spec, w, e, env, at)) <==>
            if spec.defect in {AttributeConflict, StructuralConflict, ExistenceConflict, PhantomEntity, ShadowEntity}
            then TakesPlaceAcross(spec.defect, spec.params, w, e)
            else TakesPlace(spec.defect, spec.side.Catalog?, spec.params, if spec.side.Catalog? then w.catalog else w.telemetry, e)
  {
    var tape := env.stream(spec.id);
    if CrossSource(spec.defect) {
      CrossRecordedIff(spec.defect, w, e, tape, at, spec.params);
    } else {
      SingleRecordedIff(spec.defect, spec.side.Catalog?, w.On(spec.side), e, env, tape, at, spec.params);
    }
  }

  /** What is not recorded has not happened. */
  lemma UnrecordedLeaves(spec: Spec, w: World, e: EntityRef, env: Env, at: nat)
    requires Apply(spec, w, e, env, at).Done? && !Recorded(Apply(spec, w, e, env, at))
    ensures Apply(spec, w, e, env, at).after == w
  {
    var tape := env.stream(spec.id);
    if !CrossSource(spec.defect) {
      SingleLeaves(spec.defect, spec.side.Catalog?, w.On(spec.side), e, env, tape, at, spec.params);
    }
  }

  lemma SingleLeaves(c: Class, catalog: bool, p: Projection, e: EntityRef, env: Env, tape: Tape, at: nat, params: Params)
    requires !CrossSource(c)
    ensures var effect := ApplySingle(c, catalog, p, e, env, tape, at, params);
            effect.Done? && !Recorded(effect) ==> effect.after == p
  {
  }
}
