/** Runs of the injector: catalog and telemetry specs do not interfere, what a replay cannot do
    without, and the loops that carry a run out. */
module InjectorRuns {
  import opened Common
  import opened InjectorModel
  import opened Defects
  import opened LedgerReplay

  // ---------------------------------------------------------------- the two projections do not interfere

  predicate SingleProjection(specs: seq<Spec>) {
    forall i | 0 <= i < |specs| :: !CrossSource(specs[i].defect)
  }

  /** The specs of one projection, in order. */
  function Only(specs: seq<Spec>, catalog: bool): seq<Spec> {
    if specs == [] then []
    else if specs[0].side.Catalog? == catalog then [specs[0]] + Only(specs[1..], catalog)
    else Only(specs[1..], catalog)
  }

  /** What the records of one projection say, their numbers apart. */
  function Entries(ledger: seq<Record>, catalog: bool): seq<(Class, Side, EntityRef, Mutation)> {
    if ledger == [] then []
    else
      var r, front := ledger[|ledger| - 1], Entries(ledger[..|ledger| - 1], catalog);
      if r.side.Catalog? == catalog then front + [(r.defect, r.side, r.entity, r.mutation)] else front
  }

  function Part(w: World, catalog: bool): Projection {
    if catalog then w.catalog else w.telemetry
  }

  /** The two runs agree on one projection and on what its records say. */
  predicate Agree(a: State, b: State, catalog: bool) {
    Part(a.world, catalog) == Part(b.world, catalog) && Entries(a.ledger, catalog) == Entries(b.ledger, catalog)
  }

  lemma OneAgrees(spec: Spec, a: State, b: State, e: EntityRef, env: Env, at: nat, catalog: bool)
    requires !CrossSource(spec.defect) && spec.side.Catalog? == catalog && Agree(a, b, catalog)
    ensures ApplyOne(spec, a, e, env, at).Some? == ApplyOne(spec, b, e, env, at).Some?
    ensures ApplyOne(spec, a, e, env, at).Some? ==>
              && Agree(ApplyOne(spec, a, e, env, at).value.0, ApplyOne(spec, b, e, env, at).value.0, catalog)
              && ApplyOne(spec, a, e, env, at).value.1 == ApplyOne(spec, b, e, env, at).value.1
  {
    if ApplyOne(spec, a, e, env, at).Some? {
      var a', b' := ApplyOne(spec, a, e, env, at).value.0, ApplyOne(spec, b, e, env, at).value.0;
      if a'.ledger != a.ledger {
        assert a'.ledger[..|a'.ledger| - 1] == a.ledger && b'.ledger[..|b'.ledger| - 1] == b.ledger;
      }
    }
  }

  lemma OneElsewhere(spec: Spec, a: State, e: EntityRef, env: Env, at: nat, catalog: bool)
    requires !CrossSource(spec.defect) && spec.side.Catalog? != catalog
    requires ApplyOne(spec, a, e, env, at).Some?
    ensures Agree(a, ApplyOne(spec, a, e, env, at).value.0, catalog)
  {
    var a' := ApplyOne(spec, a, e, env, at).value.0;
    if a'.ledger != a.ledger {
      assert a'.ledger[..|a'.ledger| - 1] == a.ledger;
    }
  }

  lemma {:induction false} EachAgrees(spec: Spec, a: State, b: State, refs: seq<EntityRef>, env: Env, at: nat, catalog: bool)
    requires !CrossSource(spec.defect) && spec.side.Catalog? == catalog && Agree(a, b, catalog)
    ensures ApplyEach(spec, a, refs, env, at).Some? == ApplyEach(spec, b, refs, env, at).Some?
    ensures ApplyEach(spec, a, refs, env, at).Some? ==>
              Agree(ApplyEach(spec, a, refs, env, at).value, ApplyEach(spec, b, refs, env, at).value, catalog)
    decreases |refs|
  {
    if refs != [] {
      OneAgrees(spec, a, b, refs[0], env, at, catalog);
      if ApplyOne(spec, a, refs[0], env, at).Some? {
        var (a', next) := ApplyOne(spec, a, refs[0], env, at).value;
        EachAgrees(spec, a', ApplyOne(spec, b, refs[0], env, at).value.0, refs[1..], env, next, catalog);
      }
    }
  }

  lemma {:induction false} EachElsewhere(spec: Spec, a: State, refs: seq<EntityRef>, env: Env, at: nat, catalog: bool)
    requires !CrossSource(spec.defect) && spec.side.Catalog? != catalog
    requires ApplyEach(spec, a, refs, env, at).Some?
    ensures Agree(a, ApplyEach(spec, a, refs, env, at).value, catalog)
    decreases |refs|
  {
    if refs != [] {
      OneElsewhere(spec, a, refs[0], env, at, catalog);
      var (a', next) := ApplyOne(spec, a, refs[0], env, at).value;
      EachElsewhere(spec, a', refs[1..], env, next, catalog);
    }
  }

  lemma SelectionAgrees(spec: Spec, a: World, b: World, refs: seq<EntityRef>, tape: Tape)
    requires !CrossSource(spec.defect) && a.On(spec.side) == b.On(spec.side)
    ensures Candidates(spec, a) == Candidates(spec, b)
    ensures Selected(spec, a, refs, tape) == Selected(spec, b, refs, tape)
  {
  }

  /** A spec's run depends on its own projection only, because its random stream is its own. */
  lemma SpecAgrees(spec: Spec, a: State, b: State, env: Env, catalog: bool)
    requires !CrossSource(spec.defect) && spec.side.Catalog? == catalog && Agree(a, b, catalog)
    ensures RunSpec(spec, a, env).Some? == RunSpec(spec, b, env).Some?
    ensures RunSpec(spec, a, env).Some? ==> Agree(RunSpec(spec, a, env).value, RunSpec(spec, b, env).value, catalog)
  {
    var candidates, tape := Candidates(spec, a.world), env.stream(spec.id);
    SelectionAgrees(spec, a.world, b.world, candidates.GetOr([]), tape);
    if candidates.Some? {
      var (selected, at) := Selected(spec, a.world, candidates.value, tape);
      EachAgrees(spec, a, b, selected, env, at, catalog);
    }
  }

  lemma SpecElsewhere(spec: Spec, a: State, env: Env, catalog: bool)
    requires !CrossSource(spec.defect) && spec.side.Catalog? != catalog && RunSpec(spec, a, env).Some?
    ensures Agree(a, RunSpec(spec, a, env).value, catalog)
  {
    var (selected, at) := Selected(spec, a.world, Candidates(spec, a.world).value, env.stream(spec.id));
    EachElsewhere(spec, a, selected, env, at, catalog);
  }

  /** A mixed run finishes if and only if the catalog specs alone and the telemetry specs alone
      do, and then each projection and its records are what its own specs alone make of them. */
  lemma {:induction false} RunsDoNotInterfere(specs: seq<Spec>, mixed: State, c: State, t: State, env: Env)
    requires SingleProjection(specs) && Agree(mixed, c, true) && Agree(mixed, t, false)
    ensures Run(specs, mixed, env).Some? <==> Run(Only(specs, true), c, env).Some? && Run(Only(specs, false), t, env).Some?
    ensures Run(specs, mixed, env).Some? ==>
              && Agree(Run(specs, mixed, env).value, Run(Only(specs, true), c, env).value, true)
              && Agree(Run(specs, mixed, env).value, Run(Only(specs, false), t, env).value, false)
    decreases |specs|
  {
    if specs != [] {
      var spec := specs[0];
      var catalog := spec.side.Catalog?;
      var own := if catalog then c else t;
      assert ([spec] + Only(specs[1..], catalog))[1..] == Only(specs[1..], catalog);
      SpecAgrees(spec, mixed, own, env, catalog);
      if RunSpec(spec, mixed, env).Some? {
        SpecElsewhere(spec, mixed, env, !catalog);
        var own' := RunSpec(spec, own, env).value;
        RunsDoNotInterfere(specs[1..], RunSpec(spec, mixed, env).value, if catalog then own' else c,
                           if catalog then t else own', env);
      }
    }
  }

  /** Any two interleavings of the same catalog list and the same telemetry list come to the same
      projections and the same records up to numbering. */
  lemma InterleavingsAgree(a: seq<Spec>, b: seq<Spec>, clean: World, env: Env)
    requires SingleProjection(a) && SingleProjection(b)
    requires Only(a, true) == Only(b, true) && Only(a, false) == Only(b, false)
    ensures var start := State(clean, [], 0);
            && Run(a, start, env).Some? == Run(b, start, env).Some?
            && (Run(a, start, env).Some? ==>
                  var x, y := Run(a, start, env).value, Run(b, start, env).value;
                  x.world == y.world && Agree(x, y, true) && Agree(x, y, false))
  {
    var start := State(clean, [], 0);
    RunsDoNotInterfere(a, start, start, start, env);
    RunsDoNotInterfere(b, start, start, start, env);
  }

  // ---------------------------------------------------------------- what replay depends on

  /** Two records may differ in their defect class alone and mean different things: deleting one
      end of a link, and deleting the link. */
  lemma ReplayNeedsTheClass(link: string, a: Row, b: Row, e: EntityRef)
    requires e == EntityRef(PhysicalLink, link)
    requires Cell(a, LinkId) == Text(link) == Cell(b, LinkId)
    ensures var p: Projection := map[InterfaceLink := [a, b], PhysicalLink := [map[Id := Text(link)]]];
            var m := Mutation(DeleteRow, One(a), Nothing);
            Rows(ReplaySingle(p, Record(1, AsymmetricLink, Catalog, e, m)), InterfaceLink) == [b]
            && Rows(ReplaySingle(p, Record(1, MissingNode, Catalog, e, m)), InterfaceLink) == []
  {
    var rows := [a, b];
    assert Matches(rows[0], Exactly(a));
    FirstIs(rows, Exactly(a), 0);
    assert Dropped(rows, 0) == [b];
    assert rows[1..] == [b] && [b][1..] == [];
    assert Stripped([b], LinkId, Text(link)) == [];
    assert Stripped(rows, LinkId, Text(link)) == [];
    var p: Projection := map[InterfaceLink := rows, PhysicalLink := [map[Id := Text(link)]]];
    assert Rows(RemoveFirst(p, PhysicalLink, ById(Text(link))), InterfaceLink) == rows;
  }

  // ---------------------------------------------------------------- the loops

  /** The cascade of a router deletion, loop by loop. The device loop raises at the first device
      whose interface is there and not a string. */
  method CascadeRouter(start: Projection, id: string) returns (ok: bool, p: Projection)
    ensures ok <==> forall dev | dev in Rows(start, Device) :: HasTextInterface(dev)
    ensures ok ==> p == DropRouterParts(start, id)
  {
    p := start;
    var owned := IdsWhere(Rows(p, PhysicalInterface), RouterId, Text(id));
    var rest := owned;
    while rest != []
      invariant DropInterfaces(p, rest) == DropInterfaces(start, owned) && Rows(p, Device) == Rows(start, Device)
    {
      p := RemoveFirst(p, PhysicalInterface, ById(rest[0]));
      p := StripEdge(p, InterfaceLink, InterfaceId, rest[0]);
      p := StripEdge(p, SubnetAssociation, EntityId, rest[0]);
      rest := rest[1..];
    }
    ghost var bare := p;
    var vrfs := IdsWhere(Rows(p, VRF), RouterId, Text(id));
    rest := vrfs;
    while rest != []
      invariant DropVrfs(p, rest) == DropVrfs(bare, vrfs) && Rows(p, Device) == Rows(start, Device)
    {
      p := RemoveFirst(p, VRF, ById(rest[0]));
      p := StripEdge(p, BGPSession, VrfId, rest[0]);
      rest := rest[1..];
    }
    var devices;
    ok, devices := DetachDevices(Rows(p, Device), id + ":interface:");
    p := p[Device := devices];
  }

  /** The device loop. */
  method DetachDevices(start: seq<Row>, prefix: string) returns (ok: bool, devices: seq<Row>)
    ensures ok <==> forall dev | dev in start :: HasTextInterface(dev)
    ensures ok ==> devices == Detached(start, prefix)
  {
    devices := start;
    for i := 0 to |start|
      invariant |devices| == |start|
      invariant forall k :: 0 <= k < i ==> HasTextInterface(start[k]) && devices[k] == Detached(start, prefix)[k]
      invariant forall k :: i <= k < |start| ==> devices[k] == start[k]
    {
      if InterfaceId in devices[i] && !devices[i][InterfaceId].Text? {
        assert start[i] in start && !HasTextInterface(start[i]);
        return false, devices;
      }
      if AttachedUnder(devices[i], prefix) {
        devices := devices[i := devices[i][InterfaceId := Null]];
      }
    }
    return true, devices;
  }

  /** MissingNode.apply: what it raises and does is the model. */
  method DeleteEntity(p: Projection, e: EntityRef, at: nat) returns (effect: Effect<Projection>)
    ensures effect == ApplyMissingNode(p, e, at)
  {
    var found := First(Rows(p, e.table), ById(Text(e.id)));
    if found.None? {
      return Done(p, NOOP, at);
    }
    var before := Rows(p, e.table)[found.value];
    var after := RemoveFirst(p, e.table, ById(Text(e.id)));
    if e.table.PhysicalRouter? {
      var ok;
      ok, after := CascadeRouter(after, e.id);
      if !ok {
        return Raised;
      }
    } else if e.table.PhysicalInterface? {
      after := StripEdge(after, InterfaceLink, InterfaceId, Text(e.id));
      after := StripEdge(after, SubnetAssociation, EntityId, Text(e.id));
      after := after[Device := Unplugged(Rows(after, Device), Text(e.id))];
    } else if e.table.PhysicalLink? {
      after := StripEdge(after, InterfaceLink, LinkId, Text(e.id));
    }
    return Done(after, Mutation(DeleteRow, One(before), Nothing), at);
  }

  lemma StripStep(kept: seq<Row>, rest: seq<Row>, f: Field, v: Val)
    requires rest != []
    ensures (if Cell(rest[0], f) != v then kept + [rest[0]] else kept) + Stripped(rest[1..], f, v) == kept + Stripped(rest, f, v)
  {
    var tail := Stripped(rest[1..], f, v);
    assert (kept + [rest[0]]) + tail == kept + ([rest[0]] + tail);
  }

  /** _strip_edge and _strip_node: the table without the rows whose f is v. */
  method StripEdge(p: Projection, t: Table, f: Field, v: Val) returns (after: Projection)
    ensures after == Strip(p, t, f, v)
  {
    var kept, rest := [], Rows(p, t);
    while rest != []
      invariant kept + Stripped(rest, f, v) == Stripped(Rows(p, t), f, v)
    {
      StripStep(kept, rest, f, v);
      if Cell(rest[0], f) != v {
        kept := kept + [rest[0]];
      }
      rest := rest[1..];
    }
    assert kept + [] == kept;
    after := p[t := kept];
  }

  /** A scenario being run. */
  class Injector {
    var catalog: Projection
    var telemetry: Projection
    var ledger: seq<Record>
    var counter: nat

    ghost function Current(): State
      reads this
    {
      State(World(catalog, telemetry), ledger, counter)
    }

    constructor (golden: Projection)
      ensures Current() == State(World(golden, golden), [], 0)
    {
      catalog, telemetry, ledger, counter := golden, golden, [], 0;
    }

    /** The loop of `_apply_defect` over the selected entities. */
    method ApplyDefect(spec: Spec, env: Env) returns (ok: bool)
      modifies this
      ensures ok <==> RunSpec(spec, old(Current()), env).Some?
      ensures ok ==> Current() == RunSpec(spec, old(Current()), env).value
    {
      var candidates := Candidates(spec, World(catalog, telemetry));
      if candidates.None? {
        return false;
      }
      var (selected, at) := Selected(spec, World(catalog, telemetry), candidates.value, env.stream(spec.id));
      ghost var all, start := selected, at;
      while selected != []
        invariant ApplyEach(spec, Current(), selected, env, at) == ApplyEach(spec, old(Current()), all, env, start)
      {
        var effect := Apply(spec, World(catalog, telemetry), selected[0], env, at);
        if effect.Raised? {
          return false;
        }
        catalog, telemetry, at := effect.after.catalog, effect.after.telemetry, effect.next;
        if !effect.mutation.kind.Noop? {
          counter := counter + 1;
          ledger := ledger + [Record(counter, spec.defect, spec.side, selected[0], effect.mutation)];
        }
        selected := selected[1..];
      }
      return true;
    }

    /** run_scenario on a fresh ledger: a run that finishes leaves a complete one behind. */
    method RunScenario(specs: seq<Spec>, env: Env) returns (ok: bool)
      requires ledger == [] && counter == 0
      modifies this
      ensures ok <==> Run(specs, old(Current()), env).Some?
      ensures ok ==> Current() == Run(specs, old(Current()), env).value && Numbered(Current())
      ensures ok && Replayable(specs, old(World(catalog, telemetry))) ==>
                ReplayAll(old(World(catalog, telemetry)), ledger) == World(catalog, telemetry)
    {
      var rest := specs;
      while rest != []
        invariant Run(rest, Current(), env) == Run(specs, old(Current()), env)
      {
        var fine := ApplyDefect(rest[0], env);
        if !fine {
          return false;
        }
        rest := rest[1..];
      }
      RunKeeps(old(World(catalog, telemetry)), specs, old(Current()), env);
      return true;
    }
  }
}
