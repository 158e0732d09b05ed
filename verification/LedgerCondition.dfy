/** Exactly when the ledger determines the corruption: what two equal edge rows do to a replay. */
module LedgerCondition {
  import opened Common
  import opened InjectorModel
  import opened Defects
  import opened LedgerReplay
  import G = GoldenTwin

  // ---------------------------------------------------------------- popping one of two equal rows

  /** The rows from j to i are all equal. */
  predicate Stretch(links: seq<Row>, j: nat, i: nat)
    requires i < |links|
  {
    forall k | j <= k <= i :: links[k] == links[j]
  }

  lemma {:induction false} SameBetween(rows: seq<Row>, j: nat, i: nat, k: nat)
    requires j <= k <= i < |rows| && Dropped(rows, i) == Dropped(rows, j)
    ensures rows[k] == rows[j]
    decreases k
  {
    if j < k {
      SameBetween(rows, j, i, k - 1);
      DroppedAt(rows, i, k - 1);
      DroppedAt(rows, j, k - 1);
    }
  }

  /** Popping row i or an earlier row j leaves the same table if and only if all rows from one to
      the other are equal. */
  lemma DroppedSameIff(rows: seq<Row>, j: nat, i: nat)
    requires j <= i < |rows|
    ensures Dropped(rows, i) == Dropped(rows, j) <==> Stretch(rows, j, i)
  {
    if Dropped(rows, i) == Dropped(rows, j) {
      forall k | j <= k <= i ensures rows[k] == rows[j] {
        SameBetween(rows, j, i, k);
      }
    }
    if Stretch(rows, j, i) {
      forall k | 0 <= k < |rows| - 1 ensures Dropped(rows, i)[k] == Dropped(rows, j)[k] {
        DroppedAt(rows, i, k);
        DroppedAt(rows, j, k);
      }
    }
  }

  // ---------------------------------------------------------------- one defect

  /** Equal rows of the link stand next to each other. */
  ghost predicate Grouped(links: seq<Row>, link: Val) {
    forall j: nat, i: nat | j <= i < |links| && Cell(links[i], LinkId) == link && links[i] == links[j] :: Stretch(links, j, i)
  }

  /** No row of the link is there twice. */
  ghost predicate DistinctOn(links: seq<Row>, link: Val) {
    forall j, i | 0 <= j < i < |links| && Cell(links[i], LinkId) == link :: links[i] != links[j]
  }

  /** A stream whose every draw picks position c. */
  function Always(c: nat): Tape {
    _ => c
  }

  lemma DrawIs(tape: Tape, at: nat, ends: seq<nat>, c: nat)
    requires c < |ends| && tape(at) == c
    ensures Choice(tape, at, ends) == ends[c]
  {
  }

  /** Where an end of the link comes among all its ends. */
  lemma EndAt(links: seq<Row>, link: Val, j: nat, i: nat) returns (c: nat)
    requires j <= i < |links| && Cell(links[j], LinkId) == link == Cell(links[i], LinkId)
    ensures c < |Endpoints(links, link, 0)| && Endpoints(links, link, 0)[c] == i
    ensures j < i ==> |Endpoints(links, link, 0)| >= 2
  {
    var ends := Endpoints(links, link, 0);
    assert i in ends && j in ends;
    c :| 0 <= c < |ends| && ends[c] == i;
    var d :| 0 <= d < |ends| && ends[d] == j;
  }

  lemma Ungrouped(links: seq<Row>, link: Val) returns (j: nat, i: nat)
    requires !Grouped(links, link)
    ensures j <= i < |links| && Cell(links[i], LinkId) == link && links[i] == links[j] && !Stretch(links, j, i)
  {
    j, i :| j <= i < |links| && Cell(links[i], LinkId) == link && links[i] == links[j] && !Stretch(links, j, i);
  }

  ghost predicate LinkReplays(p: Projection, r: Record, tape: Tape, at: nat) {
    Determined(p, r, ApplyAsymmetricLink(p, r.entity, tape, at))
  }

  /** What an asymmetric link on this entity does is told by its record, whatever is drawn, if and
      only if equal rows of the link stand next to each other. */
  lemma AsymmetricLinkReplaysIff(p: Projection, r: Record)
    requires r.defect.AsymmetricLink?
    ensures (forall tape: Tape, at: nat :: LinkReplays(p, r, tape, at)) <==>
            Grouped(Rows(p, InterfaceLink), Text(AfterSeparator(r.entity.id, 0)))
  {
    var links, link := Rows(p, InterfaceLink), Text(AfterSeparator(r.entity.id, 0));
    if Grouped(links, link) {
      forall tape: Tape, at: nat ensures LinkReplays(p, r, tape, at) {
        PickedRowReplays(p, r, tape, at);
      }
    } else {
      var j, i := Ungrouped(links, link);
      var c := EndAt(links, link, j, i);
      DrawIs(Always(c), 0, Endpoints(links, link, 0), c);
      PickedRowMisreplays(p, r, Always(c), j, i);
      assert !LinkReplays(p, r, Always(c), 0);
    }
  }

  lemma PickedRowReplays(p: Projection, r: Record, tape: Tape, at: nat)
    requires r.defect.AsymmetricLink? && Grouped(Rows(p, InterfaceLink), Text(AfterSeparator(r.entity.id, 0)))
    ensures Determined(p, r, ApplyAsymmetricLink(p, r.entity, tape, at))
  {
    var links := Rows(p, InterfaceLink);
    var ends := Endpoints(links, Text(AfterSeparator(r.entity.id, 0)), 0);
    if |ends| >= 2 {
      var i := Choice(tape, at, ends);
      var j := First(links, Exactly(links[i])).value;
      DroppedSameIff(links, j, i);
    }
  }

  lemma PickedRowMisreplays(p: Projection, r: Record, tape: Tape, j: nat, i: nat)
    requires var links, link := Rows(p, InterfaceLink), Text(AfterSeparator(r.entity.id, 0));
             var ends := Endpoints(links, link, 0);
             && r.defect.AsymmetricLink? && |ends| >= 2 && Choice(tape, 0, ends) == i
             && j <= i < |links| && links[i] == links[j] && !Stretch(links, j, i)
    ensures !Determined(p, r, ApplyAsymmetricLink(p, r.entity, tape, 0))
  {
    var links := Rows(p, InterfaceLink);
    var first := First(links, Exactly(links[i])).value;
    var k :| j <= k <= i && links[k] != links[j];
    DroppedSameIff(links, first, i);
    var done := ApplyAsymmetricLink(p, r.entity, tape, 0);
    assert Rows(done.after, InterfaceLink) == Dropped(links, i);
    assert Rows(ReplaySingle(p, r.(mutation := done.mutation)), InterfaceLink) == Dropped(links, first);
  }

  lemma Doubled(links: seq<Row>, link: Val) returns (j: nat, i: nat)
    requires !DistinctOn(links, link)
    ensures j < i < |links| && Cell(links[i], LinkId) == link && links[i] == links[j]
  {
    j, i :| j < i < |links| && Cell(links[i], LinkId) == link && links[i] == links[j];
  }

  ghost predicate ConflictReplays(w: World, r: Record, tape: Tape, at: nat) {
    DeterminedBoth(w, r, ApplyStructuralConflict(w, r.entity, tape, at))
  }

  lemma ConflictMisreplays(w: World, r: Record, j: nat, i: nat, c: nat)
    requires var links, link := Rows(w.telemetry, InterfaceLink), Text(r.entity.id);
             var ends := Endpoints(links, link, 0);
             && r.defect.StructuralConflict? && |ends| >= 2 && c < |ends| && ends[c] == i
             && FreeInterfaces(Rows(w.telemetry, PhysicalInterface), links, link) != []
             && j < i < |links| && links[i] == links[j]
    ensures !ConflictReplays(w, r, Always(c), 0)
  {
    DrawIs(Always(c), 0, Endpoints(Rows(w.telemetry, InterfaceLink), Text(r.entity.id), 0), c);
    MovedRowMisreplays(w, r, Always(c), 0, j, i);
  }

  lemma DoubledConflicts(w: World, r: Record) returns (c: nat)
    requires r.defect.StructuralConflict? && !DistinctOn(Rows(w.telemetry, InterfaceLink), Text(r.entity.id))
    requires FreeInterfaces(Rows(w.telemetry, PhysicalInterface), Rows(w.telemetry, InterfaceLink), Text(r.entity.id)) != []
    ensures !ConflictReplays(w, r, Always(c), 0)
  {
    var j, i := Doubled(Rows(w.telemetry, InterfaceLink), Text(r.entity.id));
    c := EndAt(Rows(w.telemetry, InterfaceLink), Text(r.entity.id), j, i);
    ConflictMisreplays(w, r, j, i, c);
  }

  /** What a structural conflict on this entity does is told by its record, whatever is drawn, if
      and only if no row of the link is there twice or the link has no interface to move to. */
  lemma StructuralConflictReplaysIff(w: World, r: Record)
    requires r.defect.StructuralConflict?
    ensures var links, link := Rows(w.telemetry, InterfaceLink), Text(r.entity.id);
            (forall tape: Tape, at: nat :: ConflictReplays(w, r, tape, at)) <==>
            DistinctOn(links, link) || FreeInterfaces(Rows(w.telemetry, PhysicalInterface), links, link) == []
  {
    var links, link := Rows(w.telemetry, InterfaceLink), Text(r.entity.id);
    if DistinctOn(links, link) || FreeInterfaces(Rows(w.telemetry, PhysicalInterface), links, link) == [] {
      forall tape: Tape, at: nat ensures ConflictReplays(w, r, tape, at) {
        MovedRowReplays(w, r, tape, at);
      }
    } else {
      var c := DoubledConflicts(w, r);
    }
  }

  lemma MovedRowReplays(w: World, r: Record, tape: Tape, at: nat)
    requires r.defect.StructuralConflict?
    requires var links, link := Rows(w.telemetry, InterfaceLink), Text(r.entity.id);
             DistinctOn(links, link) || FreeInterfaces(Rows(w.telemetry, PhysicalInterface), links, link) == []
    ensures DeterminedBoth(w, r, ApplyStructuralConflict(w, r.entity, tape, at))
  {
    var links := Rows(w.telemetry, InterfaceLink);
    var ends := Endpoints(links, Text(r.entity.id), 0);
    if |ends| >= 2 {
      var i := Choice(tape, at, ends);
      assert First(links, Exactly(links[i])).Some?;
    }
  }

  lemma MovedRowMisreplays(w: World, r: Record, tape: Tape, at: nat, j: nat, i: nat)
    requires var links, link := Rows(w.telemetry, InterfaceLink), Text(r.entity.id);
             var ends := Endpoints(links, link, 0);
             && r.defect.StructuralConflict? && |ends| >= 2 && Choice(tape, at, ends) == i
             && FreeInterfaces(Rows(w.telemetry, PhysicalInterface), links, link) != []
             && j < i < |links| && links[i] == links[j]
    ensures var done := ApplyStructuralConflict(w, r.entity, tape, at);
            done.Done? && !done.mutation.kind.Noop? && Replay(w, r.(mutation := done.mutation)) != done.after
  {
    var links := Rows(w.telemetry, InterfaceLink);
    var first := First(links, Exactly(links[i])).value;
    var done := ApplyStructuralConflict(w, r.entity, tape, at);
    var free := FreeInterfaces(Rows(w.telemetry, PhysicalInterface), links, Text(r.entity.id));
    var moved := links[i][InterfaceId := Choice(tape, at + 1, free)];
    assert moved[InterfaceId] in free && Cell(links[i], InterfaceId) != Cell(moved, InterfaceId);
    assert Rows(done.after.telemetry, InterfaceLink)[i] == moved;
    assert Rows(Replay(w, r.(mutation := done.mutation)).telemetry, InterfaceLink) == links[first := moved];
    assert links[first := moved][i] == links[i];
  }

  // ---------------------------------------------------------------- whole scenarios on a loaded twin

  /** What a replay needs of a loaded twin: ids are text, interface ids hold a colon, and edges join
      rows that are there. */
  ghost predicate Loaded(p: Projection) {
    && (forall r | r in Rows(p, PhysicalInterface) :: Cell(r, Id).Text? && ':' in Cell(r, Id).s)
    && (forall r | r in Rows(p, PhysicalLink) :: Cell(r, Id).Text?)
    && (forall x | x in Rows(p, InterfaceLink) ::
          Cell(x, InterfaceId) in G.Ids(Rows(p, PhysicalInterface)) && Cell(x, LinkId) in G.Ids(Rows(p, PhysicalLink)))
  }

  lemma ContractIsLoaded(p: Projection)
    requires G.Contract(p)
    ensures Loaded(p)
  {
    assert PhysicalInterface == G.TABLES[1] && PhysicalLink == G.TABLES[2];
    assert G.TableFollowsConvention(p, PhysicalInterface) && G.TableFollowsConvention(p, PhysicalLink);
    forall r | r in Rows(p, PhysicalInterface) ensures Cell(r, Id).Text? && ':' in Cell(r, Id).s {
      assert G.IdOk(PhysicalInterface, r);
      assert Cell(r, Id).s[6] == "router:"[6];
    }
    var i, l := G.REFERENCES[1], G.REFERENCES[2];
    assert G.Holds(p, i) && G.Holds(p, l);
    forall x | x in Rows(p, InterfaceLink)
      ensures Cell(x, InterfaceId) in G.Ids(Rows(p, PhysicalInterface)) && Cell(x, LinkId) in G.Ids(Rows(p, PhysicalLink))
    {
      assert G.Refers(p, i, x) && G.Refers(p, l, x);
    }
  }

  lemma {:induction false} TextIdsRefer(t: Table, rows: seq<Row>)
    requires !IsEdgeTable(t) && forall r | r in rows :: Cell(r, Id).Text?
    ensures RefsOf(t, rows, false).Some?
    ensures forall k | 0 <= k < |rows| :: RefsOf(t, rows, false).value[k] == EntityRef(t, Cell(rows[k], Id).s)
  {
    if rows != [] {
      assert rows[0] in rows && forall r | r in rows[1..] :: r in rows;
      TextIdsRefer(t, rows[1..]);
      assert forall k | 0 < k < |rows| :: rows[k] == rows[1..][k - 1];
    }
  }

  /** Among n candidates the stream selects the one at k; its next draw is c. */
  function Picking(n: nat, k: nat, c: nat): Tape {
    (at: nat) => if at == 0 && n != 1 then k else c
  }

  lemma PicksOne(spec: Spec, w: World, refs: seq<EntityRef>, k: nat, c: nat) returns (at: nat)
    requires spec.selection == FixedCount(1) && spec.filter == map[] && k < |refs|
    ensures Selected(spec, w, refs, Picking(|refs|, k, c)) == ([refs[k]], at) && Picking(|refs|, k, c)(at) == c
  {
    var tape := Picking(|refs|, k, c);
    if |refs| == 1 {
      at := 0;
      assert refs == [refs[0]];
    } else {
      at := 1;
      assert tape(0) % |refs| == k;
      assert Sample(tape, 1, refs[..k] + refs[k + 1..], 0) == [];
      assert Sample(tape, 0, refs, 1) == [refs[k]];
    }
  }

  lemma {:induction false} FreeHas(ifaces: seq<Row>, links: seq<Row>, link: Val, r: Row)
    requires r in ifaces && forall k | 0 <= k < |links| :: Cell(links[k], InterfaceId) != Cell(r, Id)
    ensures Cell(r, Id) in FreeInterfaces(ifaces, links, link)
  {
    if r != ifaces[0] {
      assert r in ifaces[1..];
      FreeHas(ifaces[1..], links, link, r);
    }
  }

  /** Gives one interface a malformed id in the telemetry, so that there is one on no link. */
  predicate Renames(spec: Spec) {
    spec.defect.MalformedId? && spec.side.Telemetry? && spec.entityType == Some(PhysicalInterface)
    && spec.selection == FixedCount(1) && spec.filter == map[]
  }

  /** Moves one end of one link. */
  predicate Moves(spec: Spec) {
    spec.defect.StructuralConflict? && spec.selection == FixedCount(1) && spec.filter == map[]
  }

  /** The rows that an edge row joins. */
  lemma EdgeJoins(p: Projection, x: Row) returns (iface: nat, link: nat)
    requires Loaded(p) && x in Rows(p, InterfaceLink)
    ensures iface < |Rows(p, PhysicalInterface)| && Cell(Rows(p, PhysicalInterface)[iface], Id) == Cell(x, InterfaceId)
    ensures link < |Rows(p, PhysicalLink)| && Cell(Rows(p, PhysicalLink)[link], Id) == Cell(x, LinkId)
    ensures Cell(x, InterfaceId).Text? && ':' in Cell(x, InterfaceId).s && Cell(x, LinkId).Text?
  {
    iface :| 0 <= iface < |Rows(p, PhysicalInterface)| && Cell(Rows(p, PhysicalInterface)[iface], Id) == Cell(x, InterfaceId);
    link :| 0 <= link < |Rows(p, PhysicalLink)| && Cell(Rows(p, PhysicalLink)[link], Id) == Cell(x, LinkId);
    assert Rows(p, PhysicalInterface)[iface] in Rows(p, PhysicalInterface) && Rows(p, PhysicalLink)[link] in Rows(p, PhysicalLink);
  }

  /** One application as a whole spec. */
  lemma RunsOne(spec: Spec, st: State, env: Env, refs: seq<EntityRef>, e: EntityRef, at: nat)
    requires Candidates(spec, st.world) == Some(refs) && Selected(spec, st.world, refs, env.stream(spec.id)) == ([e], at)
    requires ApplyOne(spec, st, e, env, at).Some?
    ensures RunSpec(spec, st, env) == Some(ApplyOne(spec, st, e, env, at).value.0)
  {
    var (next, after) := ApplyOne(spec, st, e, env, at).value;
    assert [e][1..] == [];
    assert ApplyEach(spec, next, [], env, after) == Some(next);
    assert ApplyEach(spec, st, [e], env, at) == Some(next);
  }

  lemma RenamesOne(spec: Spec, st: State, e: EntityRef, env: Env, at: nat)
    requires Renames(spec) && e.table.PhysicalInterface? && Find(st.world.telemetry, e).Some?
    ensures var applied := ApplyOne(spec, st, e, env, at);
            applied.Some? &&
            var after, ifaces := applied.value.0.world, Rows(st.world.telemetry, PhysicalInterface);
            var k := Find(st.world.telemetry, e).value;
            && after.catalog == st.world.catalog
            && Rows(after.telemetry, InterfaceLink) == Rows(st.world.telemetry, InterfaceLink)
            && Rows(after.telemetry, PhysicalInterface) == ifaces[k := ifaces[k][Id := Text(Underscored(e.id))]]
  {
  }

  lemma InterfacePicked(p: Projection, spec: Spec, k: nat, env: Env) returns (refs: seq<EntityRef>, e: EntityRef, at: nat)
    requires Renames(spec) && Loaded(p) && k < |Rows(p, PhysicalInterface)|
    requires env.stream(spec.id) == Picking(|Rows(p, PhysicalInterface)|, k, 0)
    ensures Candidates(spec, World(p, p)) == Some(refs) && Selected(spec, World(p, p), refs, env.stream(spec.id)) == ([e], at)
    ensures e.table == PhysicalInterface && Find(p, e).Some?
  {
    var ifaces := Rows(p, PhysicalInterface);
    TextIdsRefer(PhysicalInterface, ifaces);
    refs := RefsOf(PhysicalInterface, ifaces, false).value;
    e := refs[k];
    assert ifaces[k] in ifaces && Matches(ifaces[k], ById(Text(e.id)));
    at := PicksOne(spec, World(p, p), refs, k, 0);
  }

  /** The telemetry after the first spec has an interface that is on no link. */
  lemma Renamed(p: Projection, spec: Spec, x: Row, k: nat, env: Env) returns (st: State)
    requires Renames(spec) && Loaded(p) && x in Rows(p, InterfaceLink)
    requires k < |Rows(p, PhysicalInterface)| && Cell(Rows(p, PhysicalInterface)[k], Id) == Cell(x, InterfaceId)
    requires env.stream(spec.id) == Picking(|Rows(p, PhysicalInterface)|, k, 0)
    ensures RunSpec(spec, State(World(p, p), [], 0), env) == Some(st)
    ensures ReplayAll(World(p, p), st.ledger) == st.world && st.world.catalog == p
    ensures Rows(st.world.telemetry, InterfaceLink) == Rows(p, InterfaceLink)
    ensures forall link :: FreeInterfaces(Rows(st.world.telemetry, PhysicalInterface), Rows(p, InterfaceLink), link) != []
  {
    var start := State(World(p, p), [], 0);
    var refs, e, at := InterfacePicked(p, spec, k, env);
    RenamesOne(spec, start, e, env, at);
    st := ApplyOne(spec, start, e, env, at).value.0;
    RunsOne(spec, start, env, refs, e, at);
    OneKeeps(World(p, p), spec, start, e, env, at);
    UnderscoredIsFree(p, Rows(st.world.telemetry, PhysicalInterface), Find(p, e).value, e.id);
  }

  lemma UnderscoredIsFree(p: Projection, ifaces: seq<Row>, k: nat, id: string)
    requires Loaded(p) && k < |ifaces| && Cell(ifaces[k], Id) == Text(Underscored(id))
    ensures forall link :: FreeInterfaces(ifaces, Rows(p, InterfaceLink), link) != []
  {
    var links := Rows(p, InterfaceLink);
    forall l | 0 <= l < |links| ensures Cell(links[l], InterfaceId) != Cell(ifaces[k], Id) {
      var iface, _ := EdgeJoins(p, links[l]);
    }
    forall link ensures FreeInterfaces(ifaces, links, link) != [] {
      FreeHas(ifaces, links, link, ifaces[k]);
    }
  }

  /** Replaying the ledger of a run on the clean projections gives what the run gives. */
  ghost predicate LedgerTells(clean: World, specs: seq<Spec>, env: Env) {
    var done := Run(specs, State(clean, [], 0), env);
    done.Some? ==> ReplayAll(clean, done.value.ledger) == done.value.world
  }

  lemma MovesOne(spec: Spec, st: State, e: EntityRef, env: Env, at: nat, j: nat, i: nat, c: nat, links: seq<Row>, link: Val) returns (end: State)
    requires spec.defect.StructuralConflict? && links == Rows(st.world.telemetry, InterfaceLink) && link == Text(e.id)
    requires var ends := Endpoints(links, link, 0);
             && |ends| >= 2 && c < |ends| && ends[c] == i && env.stream(spec.id)(at) == c
             && FreeInterfaces(Rows(st.world.telemetry, PhysicalInterface), links, link) != []
             && j < i < |links| && links[i] == links[j]
    ensures ApplyOne(spec, st, e, env, at).Some? && ApplyOne(spec, st, e, env, at).value.0 == end
    ensures |end.ledger| == |st.ledger| + 1 && end.ledger[..|st.ledger|] == st.ledger
    ensures Replay(st.world, end.ledger[|st.ledger|]) != end.world
  {
    var r := Record(st.counter + 1, spec.defect, spec.side, e, NOOP);
    DrawIs(env.stream(spec.id), at, Endpoints(links, link, 0), c);
    MovedRowMisreplays(st.world, r, env.stream(spec.id), at, j, i);
    end := ApplyOne(spec, st, e, env, at).value.0;
  }

  lemma LinkPicked(p: Projection, spec: Spec, w: World, l: nat, c: nat, env: Env) returns (refs: seq<EntityRef>, e: EntityRef, at: nat)
    requires Moves(spec) && Loaded(p) && w.catalog == p && l < |Rows(p, PhysicalLink)|
    requires env.stream(spec.id) == Picking(|Rows(p, PhysicalLink)|, l, c)
    ensures Candidates(spec, w) == Some(refs) && Selected(spec, w, refs, env.stream(spec.id)) == ([e], at)
    ensures env.stream(spec.id)(at) == c && Cell(Rows(p, PhysicalLink)[l], Id) == Text(e.id)
  {
    TextIdsRefer(PhysicalLink, Rows(p, PhysicalLink));
    refs := RefsOf(PhysicalLink, Rows(p, PhysicalLink), false).value;
    e := refs[l];
    assert Cell(Rows(p, PhysicalLink)[l], Id) == Text(e.id) by {
      assert Rows(p, PhysicalLink)[l] in Rows(p, PhysicalLink);
    }
    at := PicksOne(spec, w, refs, l, c);
  }

  /** The second spec moves the later of two equal rows; its record says the earlier one. */
  lemma Misled(p: Projection, spec: Spec, j: nat, i: nat, st: State, l: nat, c: nat, env: Env) returns (end: State)
    requires Moves(spec)
    requires Loaded(p) && st.world.catalog == p && Rows(st.world.telemetry, InterfaceLink) == Rows(p, InterfaceLink)
    requires j < i < |Rows(p, InterfaceLink)| && Rows(p, InterfaceLink)[i] == Rows(p, InterfaceLink)[j]
    requires l < |Rows(p, PhysicalLink)| && Cell(Rows(p, PhysicalLink)[l], Id) == Cell(Rows(p, InterfaceLink)[i], LinkId)
    requires var ends := Endpoints(Rows(p, InterfaceLink), Cell(Rows(p, InterfaceLink)[i], LinkId), 0);
             |ends| >= 2 && c < |ends| && ends[c] == i
    requires FreeInterfaces(Rows(st.world.telemetry, PhysicalInterface), Rows(p, InterfaceLink), Cell(Rows(p, InterfaceLink)[i], LinkId)) != []
    requires env.stream(spec.id) == Picking(|Rows(p, PhysicalLink)|, l, c)
    ensures RunSpec(spec, st, env) == Some(end)
    ensures |end.ledger| == |st.ledger| + 1 && end.ledger[..|st.ledger|] == st.ledger
    ensures Replay(st.world, end.ledger[|st.ledger|]) != end.world
  {
    var refs, e, at := LinkPicked(p, spec, st.world, l, c, env);
    end := MovesOne(spec, st, e, env, at, j, i, c, Rows(p, InterfaceLink), Cell(Rows(p, InterfaceLink)[i], LinkId));
    RunsOne(spec, st, env, refs, e, at);
  }

  lemma TwoSpecsMislead(a: Spec, b: Spec, clean: World, mid: State, end: State, env: Env)
    requires RunSpec(a, State(clean, [], 0), env) == Some(mid) && RunSpec(b, mid, env) == Some(end)
    requires ReplayAll(clean, mid.ledger) == mid.world
    requires |end.ledger| == |mid.ledger| + 1 && end.ledger[..|mid.ledger|] == mid.ledger
    requires Replay(mid.world, end.ledger[|mid.ledger|]) != end.world
    ensures !LedgerTells(clean, [a, b], env)
  {
    assert [a, b][1..] == [b] && [b][1..] == [];
    assert Run([], end, env) == Some(end);
    assert Run([b], mid, env) == Some(end);
  }

  /** A scenario whose ledger does not tell what it did. */
  lemma DoubledEdgeMisleads(p: Projection, rename: Spec, move: Spec, j: nat, i: nat) returns (env: Env)
    requires Loaded(p) && j < i < |Rows(p, InterfaceLink)| && Rows(p, InterfaceLink)[i] == Rows(p, InterfaceLink)[j]
    requires Renames(rename) && Moves(move) && rename.id != move.id
    ensures !LedgerTells(World(p, p), [rename, move], env)
  {
    var links := Rows(p, InterfaceLink);
    var iface, l := EdgeJoins(p, links[i]);
    var c := EndAt(links, Cell(links[i], LinkId), j, i);
    var first, second := Picking(|Rows(p, PhysicalInterface)|, iface, 0), Picking(|Rows(p, PhysicalLink)|, l, c);
    env := Env((id: string) => if id == rename.id then first else second, (name: string) => name);
    var st := Renamed(p, rename, links[i], iface, env);
    var end := Misled(p, move, j, i, st, l, c, env);
    TwoSpecsMislead(rename, move, World(p, p), st, end, env);
  }

  lemma SpecsToMislead() returns (rename: Spec, move: Spec)
    ensures Renames(rename) && Moves(move) && rename.id != move.id
  {
    var none := Params(None, [], None, "", None);
    rename := Spec("a", MalformedId, Telemetry, Some(PhysicalInterface), FixedCount(1), map[], none);
    move := Spec("b", StructuralConflict, Both, None, FixedCount(1), map[], none);
    assert "a"[0] != "b"[0];
  }

  /** On a twin that the loader accepts, the ledger of every scenario and all random streams tells
      what the run did, if and only if the twin lists no edge twice. */
  lemma LedgerTellsIff(p: Projection)
    requires G.Contract(p)
    ensures (forall specs: seq<Spec>, env: Env :: LedgerTells(World(p, p), specs, env)) <==> DistinctEdges(Rows(p, InterfaceLink))
  {
    if DistinctEdges(Rows(p, InterfaceLink)) {
      forall specs: seq<Spec>, env: Env ensures LedgerTells(World(p, p), specs, env) {
        if Run(specs, State(World(p, p), [], 0), env).Some? {
          LedgerIsComplete(World(p, p), specs, env);
        }
      }
    } else {
      var j: nat, i: nat :| j < i < |Rows(p, InterfaceLink)| && Rows(p, InterfaceLink)[i] == Rows(p, InterfaceLink)[j];
      ContractIsLoaded(p);
      var rename, move := SpecsToMislead();
      var env := DoubledEdgeMisleads(p, rename, move, j, i);
    }
  }

  /** One router with one interface, and a link with both its ends there. */
  function Looped(router: string, iface: string, link: string): Projection {
    var edge: Row := map[InterfaceId := Text(iface), LinkId := Text(link)];
    map[PhysicalRouter := [map[Id := Text(router)]], PhysicalInterface := [map[Id := Text(iface), RouterId := Text(router)]],
        PhysicalLink := [map[Id := Text(link)]], InterfaceLink := [edge, edge]]
  }

  lemma LoopedIds(router: string, iface: string, link: string)
    requires G.IdMatches(PhysicalRouter, router) && G.IdMatches(PhysicalInterface, iface) && G.IdMatches(PhysicalLink, link)
    ensures G.IdsFollowConventions(Looped(router, iface, link))
  {
    var p := Looped(router, iface, link);
    forall t ensures G.TableFollowsConvention(p, t) {
      forall r | r in Rows(p, t) ensures G.IdOk(t, r) {
      }
    }
  }

  lemma LoopedReferences(router: string, iface: string, link: string)
    ensures G.ReferencesHold(Looped(router, iface, link))
  {
    var p := Looped(router, iface, link);
    var r, i, l: Row := map[Id := Text(router)], map[Id := Text(iface), RouterId := Text(router)], map[Id := Text(link)];
    assert r in Rows(p, PhysicalRouter) && i in Rows(p, PhysicalInterface) && l in Rows(p, PhysicalLink);
    assert Text(router) in G.Ids(Rows(p, PhysicalRouter)) by { assert Cell(r, Id) == Text(router); }
    assert Text(iface) in G.Ids(Rows(p, PhysicalInterface)) by { assert Cell(i, Id) == Text(iface); }
    assert Text(link) in G.Ids(Rows(p, PhysicalLink)) by { assert Cell(l, Id) == Text(link); }
    forall ref | ref in G.REFERENCES ensures G.Holds(p, ref) {
    }
  }

  lemma LoopedEndpoints(router: string, iface: string, link: string)
    ensures G.TwoEndpoints(Looped(router, iface, link))
  {
    var edge: Row := map[InterfaceId := Text(iface), LinkId := Text(link)];
    assert [edge, edge][1..] == [edge] && [edge][1..] == [];
    assert G.Count([edge], LinkId, Text(link)) == 1;
    assert G.Count([edge, edge], LinkId, Text(link)) == 2;
  }

  /** The loader does accept twins that list an edge twice. */
  lemma DoubledEdgeLoads(router: string, iface: string, link: string)
    requires G.IdMatches(PhysicalRouter, router) && G.IdMatches(PhysicalInterface, iface) && G.IdMatches(PhysicalLink, link)
    ensures G.Contract(Looped(router, iface, link)) && !DistinctEdges(Rows(Looped(router, iface, link), InterfaceLink))
  {
    LoopedIds(router, iface, link);
    LoopedReferences(router, iface, link);
    LoopedEndpoints(router, iface, link);
    var edges := Rows(Looped(router, iface, link), InterfaceLink);
    assert edges[0] == edges[1];
  }
}
