/** The ledger is complete: replaying its records, without any randomness, turns the clean
    projections into the corrupted ones. */
module LedgerReplay {
  import opened Common
  import opened InjectorModel
  import opened Defects

  // ---------------------------------------------------------------- replaying one record

  function ReplaySingle(p: Projection, r: Record): Projection {
    var m := r.mutation;
    match m.kind
    case DeleteRow =>
      (match r.defect
       case MissingEdge => RemoveFirst(p, r.entity.table, ByEdge(r.entity.table, r.entity.id))
       case AsymmetricLink => if m.before.One? then RemoveFirst(p, InterfaceLink, Exactly(m.before.row)) else p
       case _ => DeleteNode(p, r.entity))
    case DuplicateRow => if m.after.One? then Append(p, r.entity.table, m.after.row) else p
    case MergeRows =>
      if !m.before.Merge? || !m.after.One? then p
      else
        Strip(ReplaceFirst(p, r.entity.table, ById(Text(r.entity.id)), m.after.row),
              r.entity.table, Id, Cell(m.before.victim, Id))
    case _ =>
      if !m.after.One? then p
      else if r.defect.EndpointShift? then ReplaceFirst(p, InterfaceLink, ByEdge(InterfaceLink, r.entity.id), m.after.row)
      else ReplaceFirst(p, r.entity.table, ById(Text(r.entity.id)), m.after.row)
  }

  function ReplayCross(w: World, r: Record): World {
    var m, byId := r.mutation, ById(Text(r.entity.id));
    match m.kind
    case SetAttributeBoth =>
      if !m.after.InBoth? then w
      else World(ReplaceFirst(w.catalog, r.entity.table, byId, m.after.catalog),
                 ReplaceFirst(w.telemetry, r.entity.table, byId, m.after.telemetry))
    case EndpointShiftTelemetry =>
      if !m.before.One? || !m.after.One? then w
      else w.(telemetry := ReplaceFirst(w.telemetry, InterfaceLink, Exactly(m.before.row), m.after.row))
    case DeleteFrom(from) => w.Put(DropSide(from), RemoveFirst(w.On(DropSide(from)), r.entity.table, byId))
    case InsertCatalog => if m.after.One? then w.(catalog := Append(w.catalog, r.entity.table, m.after.row)) else w
    case InsertTelemetry => if m.after.One? then w.(telemetry := Append(w.telemetry, r.entity.table, m.after.row)) else w
    case _ => w
  }

  function Replay(w: World, r: Record): World {
    if CrossSource(r.defect) then ReplayCross(w, r) else w.Put(r.side, ReplaySingle(w.On(r.side), r))
  }

  function ReplayAll(w: World, ledger: seq<Record>): World {
    if ledger == [] then w else Replay(ReplayAll(w, ledger[..|ledger| - 1]), ledger[|ledger| - 1])
  }

  // ---------------------------------------------------------------- edges are distinct

  /** No Interface_Link row is there twice. */
  ghost predicate DistinctEdges(links: seq<Row>) {
    forall i, j | 0 <= i < j < |links| :: links[i] != links[j]
  }

  ghost predicate EdgesDistinct(w: World) {
    DistinctEdges(Rows(w.catalog, InterfaceLink)) && DistinctEdges(Rows(w.telemetry, InterfaceLink))
  }

  /** The classes whose record names an edge by its content. */
  predicate NeedsDistinct(c: Class) {
    c.AsymmetricLink? || c.StructuralConflict?
  }

  lemma ExactlyIsFirst(links: seq<Row>, i: nat)
    requires DistinctEdges(links) && i < |links|
    ensures First(links, Exactly(links[i])) == Some(i)
  {
    FirstIs(links, Exactly(links[i]), i);
  }

  lemma {:induction false} StrippedDistinct(links: seq<Row>, f: Field, v: Val)
    requires DistinctEdges(links)
    ensures DistinctEdges(Stripped(links, f, v))
  {
    if links != [] {
      assert DistinctEdges(links[1..]) by {
        forall i, j | 0 <= i < j < |links[1..]| ensures links[1..][i] != links[1..][j] {
          assert links[i + 1] != links[j + 1];
        }
      }
      StrippedDistinct(links[1..], f, v);
      if Cell(links[0], f) != v {
        var rest := Stripped(links[1..], f, v);
        forall j | 0 <= j < |rest| ensures links[0] != rest[j] {
          assert rest[j] in links[1..];
          var k :| 0 <= k < |links[1..]| && links[1..][k] == rest[j];
          assert links[k + 1] == rest[j];
        }
      }
    }
  }

  lemma DroppedDistinct(links: seq<Row>, i: nat)
    requires DistinctEdges(links) && i < |links|
    ensures DistinctEdges(Dropped(links, i))
  {
    forall a, b | 0 <= a < b < |Dropped(links, i)| ensures Dropped(links, i)[a] != Dropped(links, i)[b] {
      var a', b' := if a < i then a else a + 1, if b < i then b else b + 1;
      DroppedAt(links, i, a);
      DroppedAt(links, i, b);
      assert links[a'] != links[b'];
    }
  }

  lemma ShiftedDistinct(p: Projection, i: nat, kind: Kind, tape: Tape, at: nat)
    requires i < |Rows(p, InterfaceLink)| && DistinctEdges(Rows(p, InterfaceLink))
    requires ShiftEndpoint(p, i, kind, tape, at).Done?
    ensures DistinctEdges(Rows(ShiftEndpoint(p, i, kind, tape, at).after, InterfaceLink))
  {
    var links := Rows(p, InterfaceLink);
    var free := FreeInterfaces(Rows(p, PhysicalInterface), links, Cell(links[i], LinkId));
    if free != [] {
      var id := Choice(tape, at, free);
      forall k | 0 <= k < |links| && k != i ensures links[k] != links[i][InterfaceId := id] {
        assert id in free;
        assert Cell(links[i][InterfaceId := id], InterfaceId) == id && Cell(links[i][InterfaceId := id], LinkId) == Cell(links[i], LinkId);
      }
    }
  }

  // ---------------------------------------------------------------- cascades only remove edges

  lemma {:induction false} DropInterfacesDistinct(p: Projection, ids: seq<Val>)
    requires DistinctEdges(Rows(p, InterfaceLink))
    ensures DistinctEdges(Rows(DropInterfaces(p, ids), InterfaceLink))
    decreases |ids|
  {
    if ids != [] {
      var removed := RemoveFirst(p, PhysicalInterface, ById(ids[0]));
      assert Rows(removed, InterfaceLink) == Rows(p, InterfaceLink);
      StrippedDistinct(Rows(removed, InterfaceLink), InterfaceId, ids[0]);
      assert Rows(StripInterface(removed, ids[0]), InterfaceLink) == Stripped(Rows(p, InterfaceLink), InterfaceId, ids[0]);
      DropInterfacesDistinct(StripInterface(removed, ids[0]), ids[1..]);
    }
  }

  lemma {:induction false} DropVrfsKeepsLinks(p: Projection, ids: seq<Val>)
    ensures Rows(DropVrfs(p, ids), InterfaceLink) == Rows(p, InterfaceLink)
    decreases |ids|
  {
    if ids != [] {
      DropVrfsKeepsLinks(Strip(RemoveFirst(p, VRF, ById(ids[0])), BGPSession, VrfId, ids[0]), ids[1..]);
    }
  }

  lemma DeleteNodeDistinct(p: Projection, e: EntityRef)
    requires DistinctEdges(Rows(p, InterfaceLink))
    ensures DistinctEdges(Rows(DeleteNode(p, e), InterfaceLink))
  {
    var removed := RemoveFirst(p, e.table, ById(Text(e.id)));
    var links := Rows(p, InterfaceLink);
    if First(Rows(p, e.table), ById(Text(e.id))).Some? {
      DroppedDistinctAt(links, e);
    }
    assert DistinctEdges(Rows(removed, InterfaceLink));
    match e.table
    case PhysicalRouter =>
      var ids := IdsWhere(Rows(removed, PhysicalInterface), RouterId, Text(e.id));
      DropInterfacesDistinct(removed, ids);
      var bare := DropInterfaces(removed, ids);
      DropVrfsKeepsLinks(bare, IdsWhere(Rows(bare, VRF), RouterId, Text(e.id)));
    case PhysicalInterface => StrippedDistinct(Rows(removed, InterfaceLink), InterfaceId, Text(e.id));
    case PhysicalLink => StrippedDistinct(Rows(removed, InterfaceLink), LinkId, Text(e.id));
    case _ =>
  }

  lemma DroppedDistinctAt(links: seq<Row>, e: EntityRef)
    requires DistinctEdges(links)
    ensures First(links, ById(Text(e.id))).Some? ==> DistinctEdges(Dropped(links, First(links, ById(Text(e.id))).value))
  {
    if First(links, ById(Text(e.id))).Some? {
      DroppedDistinct(links, First(links, ById(Text(e.id))).value);
    }
  }

  // ---------------------------------------------------------------- one application

  /** The record made of an effect leads back to it; an effect that is skipped changed nothing. */
  ghost predicate Determined(p: Projection, r: Record, effect: Effect<Projection>) {
    effect.Done? ==>
      if effect.mutation.kind.Noop? then effect.after == p
      else ReplaySingle(p, r.(mutation := effect.mutation)) == effect.after
  }

  lemma AsymmetricLinkReplays(p: Projection, r: Record, tape: Tape, at: nat)
    requires r.defect.AsymmetricLink? && DistinctEdges(Rows(p, InterfaceLink))
    ensures Determined(p, r, ApplyAsymmetricLink(p, r.entity, tape, at))
  {
    var ends := Endpoints(Rows(p, InterfaceLink), Text(AfterSeparator(r.entity.id, 0)), 0);
    if |ends| >= 2 {
      ExactlyIsFirst(Rows(p, InterfaceLink), Choice(tape, at, ends));
    }
  }

  lemma MergedIdentityReplays(p: Projection, r: Record, catalog: bool, tape: Tape, at: nat)
    requires r.defect.MergedIdentity?
    ensures Determined(p, r, ApplyMergedIdentity(p, catalog, r.entity, tape, at))
  {
  }

  lemma EdgeDefectsReplay(p: Projection, r: Record, tape: Tape, at: nat)
    ensures r.defect.MissingEdge? ==> Determined(p, r, ApplyMissingEdge(p, r.entity, at))
    ensures r.defect.EndpointShift? ==> Determined(p, r, ApplyEndpointShift(p, r.entity, tape, at))
  {
  }

  lemma EditedReplays(p: Projection, r: Record, i: nat, f: Field, v: Val, kind: Kind, next: nat)
    requires First(Rows(p, r.entity.table), ById(Text(r.entity.id))) == Some(i)
    requires kind in {NullAttribute, SetAttribute, RenameId} && !r.defect.EndpointShift?
    ensures Determined(p, r, Edited(p, r.entity, i, f, v, kind, next))
  {
  }

  lemma RowDefectsReplay(p: Projection, r: Record, tape: Tape, at: nat, params: Params)
    requires !r.defect.EndpointShift?
    ensures Determined(p, r, ApplyMissingAttribute(p, r.entity, at, params))
    ensures Determined(p, r, ApplyAttributeDrift(p, r.entity, tape, at, params))
    ensures Determined(p, r, ApplyOrphanEntity(p, r.entity, tape, at))
    ensures Determined(p, r, ApplyMalformedId(p, r.entity, at))
    ensures Determined(p, r, ApplyOutOfRange(p, r.entity, at, params))
    ensures Determined(p, r, ApplyInvalidEnum(p, r.entity, at, params))
  {
    var found := Find(p, r.entity);
    if found.Some? {
      forall f, v, kind, next | kind in {NullAttribute, SetAttribute, RenameId}
        ensures Determined(p, r, Edited(p, r.entity, found.value, f, v, kind, next))
      {
        EditedReplays(p, r, found.value, f, v, kind, next);
      }
    }
  }

  /** A record determines a single-projection mutation. */
  lemma SingleReplays(r: Record, catalog: bool, p: Projection, env: Env, tape: Tape, at: nat, params: Params)
    requires !CrossSource(r.defect) && (r.defect.AsymmetricLink? ==> DistinctEdges(Rows(p, InterfaceLink)))
    ensures Determined(p, r, ApplySingle(r.defect, catalog, p, r.entity, env, tape, at, params))
  {
    match r.defect
    case MissingNode =>
    case SplitIdentity =>
    case AsymmetricLink => AsymmetricLinkReplays(p, r, tape, at);
    case MergedIdentity => MergedIdentityReplays(p, r, catalog, tape, at);
    case MissingEdge => EdgeDefectsReplay(p, r, tape, at);
    case EndpointShift => EdgeDefectsReplay(p, r, tape, at);
    case _ => RowDefectsReplay(p, r, tape, at, params);
  }

  ghost predicate DeterminedBoth(w: World, r: Record, effect: Effect<World>) {
    effect.Done? ==>
      if effect.mutation.kind.Noop? then effect.after == w
      else Replay(w, r.(mutation := effect.mutation)) == effect.after
  }

  lemma StructuralConflictReplays(w: World, r: Record, tape: Tape, at: nat)
    requires r.defect.StructuralConflict? && EdgesDistinct(w)
    ensures DeterminedBoth(w, r, ApplyStructuralConflict(w, r.entity, tape, at))
  {
    var ends := Endpoints(Rows(w.telemetry, InterfaceLink), Text(r.entity.id), 0);
    if |ends| >= 2 {
      ExactlyIsFirst(Rows(w.telemetry, InterfaceLink), Choice(tape, at, ends));
    }
  }

  lemma CrossReplays(w: World, r: Record, tape: Tape, at: nat, params: Params)
    requires CrossSource(r.defect) && (r.defect.StructuralConflict? ==> EdgesDistinct(w))
    ensures DeterminedBoth(w, r, ApplyCross(r.defect, w, r.entity, tape, at, params))
  {
    if r.defect.StructuralConflict? {
      StructuralConflictReplays(w, r, tape, at);
    }
  }

  /** Whatever the random draws, one ledger record holds all that its defect did. */
  lemma ApplyReplays(spec: Spec, w: World, e: EntityRef, env: Env, at: nat, number: nat)
    requires NeedsDistinct(spec.defect) ==> EdgesDistinct(w)
    ensures DeterminedBoth(w, Record(number, spec.defect, spec.side, e, NOOP), Apply(spec, w, e, env, at))
  {
    var r := Record(number, spec.defect, spec.side, e, NOOP);
    var tape := env.stream(spec.id);
    if CrossSource(spec.defect) {
      CrossReplays(w, r, tape, at, spec.params);
    } else {
      SingleReplays(r, spec.side.Catalog?, w.On(spec.side), env, tape, at, spec.params);
    }
  }

  // ---------------------------------------------------------------- edges stay distinct

  lemma SingleKeepsDistinct(c: Class, catalog: bool, p: Projection, e: EntityRef, env: Env, tape: Tape, at: nat, params: Params)
    requires !CrossSource(c) && DistinctEdges(Rows(p, InterfaceLink))
    ensures ApplySingle(c, catalog, p, e, env, tape, at, params).Done? ==>
              DistinctEdges(Rows(ApplySingle(c, catalog, p, e, env, tape, at, params).after, InterfaceLink))
  {
    var links := Rows(p, InterfaceLink);
    match c
    case MissingNode => DeleteNodeDistinct(p, e);
    case MissingEdge =>
      if First(links, ByEdge(InterfaceLink, e.id)).Some? {
        DroppedDistinct(links, First(links, ByEdge(InterfaceLink, e.id)).value);
      }
    case AsymmetricLink =>
      var ends := Endpoints(links, Text(AfterSeparator(e.id, 0)), 0);
      if |ends| >= 2 {
        DroppedDistinct(links, Choice(tape, at, ends));
      }
    case EndpointShift =>
      if First(links, ByEdge(InterfaceLink, e.id)).Some? {
        ShiftedDistinct(p, First(links, ByEdge(InterfaceLink, e.id)).value, SetAttribute, tape, at);
      }
    case _ => RowsElsewhere(c, catalog, p, e, env, tape, at, params);
  }

  /** The other classes find no row in an edge table, so they leave the edges as they are. */
  lemma RowsElsewhere(c: Class, catalog: bool, p: Projection, e: EntityRef, env: Env, tape: Tape, at: nat, params: Params)
    requires c in {MissingAttribute, AttributeDrift, OrphanEntity, SplitIdentity, MergedIdentity, MalformedId, OutOfRange, InvalidEnum}
    ensures ApplySingle(c, catalog, p, e, env, tape, at, params).Done? ==>
              Rows(ApplySingle(c, catalog, p, e, env, tape, at, params).after, InterfaceLink) == Rows(p, InterfaceLink)
  {
  }

  lemma CrossKeepsDistinct(c: Class, w: World, e: EntityRef, tape: Tape, at: nat, params: Params)
    requires CrossSource(c) && EdgesDistinct(w)
    ensures ApplyCross(c, w, e, tape, at, params).Done? ==> EdgesDistinct(ApplyCross(c, w, e, tape, at, params).after)
  {
    match c
    case StructuralConflict =>
      var ends := Endpoints(Rows(w.telemetry, InterfaceLink), Text(e.id), 0);
      if |ends| >= 2 {
        ShiftedDistinct(w.telemetry, Choice(tape, at, ends), EndpointShiftTelemetry, tape, at + 1);
      }
    case ExistenceConflict =>
      DroppedDistinctAt(Rows(w.On(DropSide(params.dropFrom)), InterfaceLink), e);
    case _ =>
  }

  lemma ApplyKeepsDistinct(spec: Spec, w: World, e: EntityRef, env: Env, at: nat)
    requires EdgesDistinct(w)
    ensures Apply(spec, w, e, env, at).Done? ==> EdgesDistinct(Apply(spec, w, e, env, at).after)
  {
    var tape := env.stream(spec.id);
    if CrossSource(spec.defect) {
      CrossKeepsDistinct(spec.defect, w, e, tape, at, spec.params);
    } else {
      SingleKeepsDistinct(spec.defect, spec.side.Catalog?, w.On(spec.side), e, env, tape, at, spec.params);
    }
  }

  // ---------------------------------------------------------------- candidates and selection

  /** applicable_entities: one reference per row; a row without a usable id raises. */
  function RefsOf(t: Table, rows: seq<Row>, cross: bool): (refs: Option<seq<EntityRef>>)
    ensures refs.Some? ==> |refs.value| == |rows|
  {
    if rows == [] then Some([])
    else
      var id, rest := Cell(rows[0], Id), RefsOf(t, rows[1..], cross);
      var named := if id.Text? && (cross ==> id.s != "") then Some(id.s)
                   else if IsEdgeTable(t) && (id.Null? || id.Text?) then Some(NaturalKey(t, rows[0]))
                   else None;
      if named.None? || rest.None? then None else Some([EntityRef(t, named.value)] + rest.value)
  }

  function Slots(t: Table, prefix: string, i: nat, n: nat): seq<EntityRef>
    requires i <= n
    decreases n - i
  {
    if i == n then [] else [EntityRef(t, prefix + Digits(i))] + Slots(t, prefix, i + 1, n)
  }

  function Candidates(spec: Spec, w: World): Option<seq<EntityRef>> {
    match spec.defect
    case AsymmetricLink => RefsOf(PhysicalLink, Rows(w.On(spec.side), PhysicalLink), false)
    case StructuralConflict => RefsOf(PhysicalLink, Rows(w.catalog, PhysicalLink), false)
    case PhantomEntity =>
      var t := spec.entityType.GetOr(PhysicalRouter);
      var n := spec.params.slots.GetOr(|Rows(w.catalog, t)|);
      Some(Slots(t, "__phantom_slot__", 0, if n < 1 then 1 else n))
    case ShadowEntity =>
      var t := spec.entityType.GetOr(PhysicalRouter);
      var n := spec.params.slots.GetOr(|Rows(w.telemetry, t)|);
      Some(Slots(t, "__shadow_slot__", 0, if n < 1 then 1 else n))
    case _ =>
      if spec.entityType.None? then None
      else if CrossSource(spec.defect) then RefsOf(spec.entityType.value, Rows(w.catalog, spec.entityType.value), true)
      else RefsOf(spec.entityType.value, Rows(w.On(spec.side), spec.entityType.value), false)
  }

  predicate Passes(row: Row, filter: Filter) {
    forall f | f in filter :: Cell(row, f) in filter[f]
  }

  function Filtered(refs: seq<EntityRef>, p: Projection, filter: Filter): seq<EntityRef> {
    if refs == [] then []
    else
      var found := Find(p, refs[0]);
      var row := if found.Some? then Rows(p, refs[0].table)[found.value] else map[];
      if Passes(row, filter) then [refs[0]] + Filtered(refs[1..], p, filter) else Filtered(refs[1..], p, filter)
  }

  function ByIds(refs: seq<EntityRef>, ids: set<string>): seq<EntityRef> {
    if refs == [] then []
    else if refs[0].id in ids then [refs[0]] + ByIds(refs[1..], ids)
    else ByIds(refs[1..], ids)
  }

  function ByRate(refs: seq<EntityRef>, rate: real, tape: Tape, at: nat): seq<EntityRef> {
    if refs == [] then []
    else if Chance(tape, at) < rate then [refs[0]] + ByRate(refs[1..], rate, tape, at + 1)
    else ByRate(refs[1..], rate, tape, at + 1)
  }

  /** The selected entities, and how far the stream has been read. */
  function Selected(spec: Spec, w: World, refs: seq<EntityRef>, tape: Tape): (seq<EntityRef>, nat) {
    var kept := if CrossSource(spec.defect) || spec.filter == map[] then refs else Filtered(refs, w.On(spec.side), spec.filter);
    match spec.selection
    case ExplicitIds(ids) => (ByIds(kept, ids), 0)
    case RandomRate(rate) => (ByRate(kept, rate, tape, 0), |kept|)
    case FixedCount(count) => if count >= |kept| then (kept, 0) else (Sample(tape, 0, kept, count), count)
  }

  // ---------------------------------------------------------------- whole runs

  datatype State = State(world: World, ledger: seq<Record>, counter: nat)

  /** The loop body of `_apply_defect`: apply, skip a noop, otherwise number and record. */
  function ApplyOne(spec: Spec, st: State, e: EntityRef, env: Env, at: nat): Option<(State, nat)> {
    match Apply(spec, st.world, e, env, at)
    case Raised => None
    case Done(w, m, next) =>
      if m.kind.Noop? then Some((st.(world := w), next))
      else Some((State(w, st.ledger + [Record(st.counter + 1, spec.defect, spec.side, e, m)], st.counter + 1), next))
  }

  function ApplyEach(spec: Spec, st: State, refs: seq<EntityRef>, env: Env, at: nat): Option<State>
    decreases |refs|
  {
    if refs == [] then Some(st)
    else
      match ApplyOne(spec, st, refs[0], env, at)
      case None => None
      case Some((st', next)) => ApplyEach(spec, st', refs[1..], env, next)
  }

  function RunSpec(spec: Spec, st: State, env: Env): Option<State> {
    match Candidates(spec, st.world)
    case None => None
    case Some(refs) =>
      var (selected, at) := Selected(spec, st.world, refs, env.stream(spec.id));
      ApplyEach(spec, st, selected, env, at)
  }

  function Run(specs: seq<Spec>, st: State, env: Env): Option<State>
    decreases |specs|
  {
    if specs == [] then Some(st)
    else
      match RunSpec(specs[0], st, env)
      case None => None
      case Some(st') => Run(specs[1..], st', env)
  }

  /** The records are numbered 1, 2, 3, ... and none of them is a noop. */
  predicate Numbered(st: State) {
    && st.counter == |st.ledger|
    && forall i | 0 <= i < |st.ledger| :: st.ledger[i].number == i + 1 && !st.ledger[i].mutation.kind.Noop?
  }

  /** No spec relies on distinct edges, or the edges are distinct. */
  ghost predicate Replayable(specs: seq<Spec>, w: World) {
    EdgesDistinct(w) || forall i | 0 <= i < |specs| :: !NeedsDistinct(specs[i].defect)
  }

  lemma OneKeeps(clean: World, spec: Spec, st: State, e: EntityRef, env: Env, at: nat)
    requires ApplyOne(spec, st, e, env, at).Some?
    ensures var st' := ApplyOne(spec, st, e, env, at).value.0;
            && (Numbered(st) ==> Numbered(st'))
            && (EdgesDistinct(st.world) ==> EdgesDistinct(st'.world))
            && (Replayable([spec], st.world) && ReplayAll(clean, st.ledger) == st.world ==> ReplayAll(clean, st'.ledger) == st'.world)
  {
    if EdgesDistinct(st.world) {
      ApplyKeepsDistinct(spec, st.world, e, env, at);
    }
    assert [spec][0] == spec;
    if Replayable([spec], st.world) {
      ApplyReplays(spec, st.world, e, env, at, st.counter + 1);
    }
    var st' := ApplyOne(spec, st, e, env, at).value.0;
    if st'.ledger != st.ledger {
      assert st'.ledger[..|st'.ledger| - 1] == st.ledger;
    }
  }

  lemma {:induction false} EachKeeps(clean: World, spec: Spec, st: State, refs: seq<EntityRef>, env: Env, at: nat)
    requires ApplyEach(spec, st, refs, env, at).Some?
    ensures var st' := ApplyEach(spec, st, refs, env, at).value;
            && (Numbered(st) ==> Numbered(st'))
            && (EdgesDistinct(st.world) ==> EdgesDistinct(st'.world))
            && (Replayable([spec], st.world) && ReplayAll(clean, st.ledger) == st.world ==> ReplayAll(clean, st'.ledger) == st'.world)
    decreases |refs|
  {
    if refs != [] {
      OneKeeps(clean, spec, st, refs[0], env, at);
      var (st', next) := ApplyOne(spec, st, refs[0], env, at).value;
      EachKeeps(clean, spec, st', refs[1..], env, next);
    }
  }

  lemma {:induction false} RunKeeps(clean: World, specs: seq<Spec>, st: State, env: Env)
    requires Run(specs, st, env).Some?
    ensures var st' := Run(specs, st, env).value;
            && (Numbered(st) ==> Numbered(st'))
            && (Replayable(specs, st.world) && ReplayAll(clean, st.ledger) == st.world ==> ReplayAll(clean, st'.ledger) == st'.world)
    decreases |specs|
  {
    if specs != [] {
      var (selected, at) := Selected(specs[0], st.world, Candidates(specs[0], st.world).value, env.stream(specs[0].id));
      EachKeeps(clean, specs[0], st, selected, env, at);
      var st' := RunSpec(specs[0], st, env).value;
      assert Replayable(specs, st.world) ==> Replayable([specs[0]], st.world);
      assert Replayable(specs, st.world) ==> Replayable(specs[1..], st'.world);
      RunKeeps(clean, specs[1..], st', env);
    }
  }

  /** The ledger is complete: for every scenario and all random streams, the records of a finished
      run are numbered 1, 2, 3, ..., none of them is a noop, and replaying them on the clean
      projections gives exactly the corrupted catalog and telemetry, if no edge was there twice or
      no spec is of a class that names an edge by its content. */
  lemma LedgerIsComplete(clean: World, specs: seq<Spec>, env: Env)
    requires Run(specs, State(clean, [], 0), env).Some?
    ensures var done := Run(specs, State(clean, [], 0), env).value;
            Numbered(done) && (Replayable(specs, clean) ==> ReplayAll(clean, done.ledger) == done.world)
  {
    RunKeeps(clean, specs, State(clean, [], 0), env);
  }
}
