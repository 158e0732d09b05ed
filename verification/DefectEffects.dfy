/** What a recorded defect guarantees about the corrupted projection, class by class. A record is
    not always a corruption: three classes write their value whether or not it is new. */
module DefectEffects {
  import opened Common
  import opened InjectorModel
  import opened Defects
  import G = GoldenTwin

  predicate Recorded<T>(effect: Effect<T>) {
    effect.Done? && !effect.mutation.kind.Noop?
  }

  /** Exactly one row of the entity's table differs, in one field at most. */
  ghost predicate OnlyFieldChanged(p: Projection, q: Projection, t: Table, i: nat, f: Field, v: Val) {
    && i < |Rows(p, t)| == |Rows(q, t)|
    && (forall u | u != t :: Rows(q, u) == Rows(p, u))
    && (forall k | 0 <= k < |Rows(p, t)| && k != i :: Rows(q, t)[k] == Rows(p, t)[k])
    && (forall g | g != f :: Cell(Rows(q, t)[i], g) == Cell(Rows(p, t)[i], g))
    && Cell(Rows(q, t)[i], f) == v
  }

  lemma EditedChanges(p: Projection, e: EntityRef, i: nat, f: Field, v: Val, kind: Kind, next: nat)
    requires i < |Rows(p, e.table)|
    ensures OnlyFieldChanged(p, Edited(p, e, i, f, v, kind, next).after, e.table, i, f, v)
  {
  }

  lemma {:induction false} AlternativesFrom(drift: seq<Val>, current: Val, v: Val)
    ensures v in Alternatives(drift, current) <==> v in drift && v != current
  {
    if drift != [] {
      AlternativesFrom(drift[1..], current, v);
      assert v in drift <==> v == drift[0] || v in drift[1..];
    }
  }

  /** A recorded drift sets the attribute of the entity, and nothing else, to another value of the
      drift table. */
  lemma DriftIsReal(p: Projection, e: EntityRef, tape: Tape, at: nat, params: Params)
    requires Recorded(ApplyAttributeDrift(p, e, tape, at, params))
    ensures var q, f := ApplyAttributeDrift(p, e, tape, at, params).after, params.attribute.value;
            exists i: nat, v :: Find(p, e) == Some(i) && OnlyFieldChanged(p, q, e.table, i, f, v)
                                && v in DriftTable(params, f) && v != Cell(Rows(p, e.table)[i], f)
  {
    var f, i := params.attribute.value, Find(p, e).value;
    var current := Cell(Rows(p, e.table)[i], f);
    var v := Choice(tape, at, Alternatives(DriftTable(params, f), current));
    AlternativesFrom(DriftTable(params, f), current, v);
    EditedChanges(p, e, i, f, v, SetAttribute, at + 1);
  }

  /** A recorded missing attribute was there and is null now. */
  lemma MissingAttributeIsReal(p: Projection, e: EntityRef, at: nat, params: Params)
    requires Recorded(ApplyMissingAttribute(p, e, at, params))
    ensures var q, f := ApplyMissingAttribute(p, e, at, params).after, params.attribute.value;
            exists i: nat :: Find(p, e) == Some(i) && OnlyFieldChanged(p, q, e.table, i, f, Null)
                             && Cell(Rows(p, e.table)[i], f) != Null
  {
    EditedChanges(p, e, Find(p, e).value, params.attribute.value, Null, NullAttribute, at);
  }

  lemma EditedIsRealIff(p: Projection, e: EntityRef, i: nat, f: Field, v: Val, kind: Kind, next: nat)
    requires e.table in p && i < |Rows(p, e.table)| && f in Rows(p, e.table)[i]
    ensures Edited(p, e, i, f, v, kind, next).after == p <==> Rows(p, e.table)[i][f] == v
  {
    var rows := Rows(p, e.table);
    var after := Edited(p, e, i, f, v, kind, next).after;
    assert after[e.table][i] == rows[i][f := v];
    if rows[i][f] == v {
      assert rows[i][f := v] == rows[i];
      assert rows[i := rows[i]] == rows;
      assert after == p;
    } else {
      assert rows[i][f := v][f] != rows[i][f];
    }
  }

  /** A recorded malformed id changes the projection if and only if the id holds a colon. */
  lemma MalformedIdIsRealIff(p: Projection, e: EntityRef, at: nat)
    requires Recorded(ApplyMalformedId(p, e, at)) && e.table in p
    ensures ApplyMalformedId(p, e, at).after != p <==> ':' in e.id
  {
    var i := Find(p, e).value;
    assert Id in Rows(p, e.table)[i];
    EditedIsRealIff(p, e, i, Id, Text(Underscored(e.id)), RenameId, at);
    if ':' !in e.id {
      assert Underscored(e.id) == e.id;
    }
  }

  /** A recorded out-of-range value changes the projection if and only if it is not there already;
      a second spec on the same attribute writes a record and changes nothing. */
  lemma OutOfRangeIsRealIff(p: Projection, e: EntityRef, at: nat, params: Params)
    requires Recorded(ApplyOutOfRange(p, e, at, params)) && e.table in p
    ensures var f := params.attribute.GetOr(if e.table.PhysicalInterface? then Speed else Vlan);
            var bad := if f == Speed then Text("99999G") else if f == Vlan then Number(99999) else params.value.GetOr(Text("OUT_OF_RANGE"));
            ApplyOutOfRange(p, e, at, params).after != p <==> Cell(Rows(p, e.table)[Find(p, e).value], f) != bad
  {
    var f := params.attribute.GetOr(if e.table.PhysicalInterface? then Speed else Vlan);
    var bad := if f == Speed then Text("99999G") else if f == Vlan then Number(99999) else params.value.GetOr(Text("OUT_OF_RANGE"));
    EditedIsRealIff(p, e, Find(p, e).value, f, bad, SetAttribute, at);
  }

  /** A recorded invalid enum value changes the projection if and only if it is not there already. */
  lemma InvalidEnumIsRealIff(p: Projection, e: EntityRef, at: nat, params: Params)
    requires Recorded(ApplyInvalidEnum(p, e, at, params)) && e.table in p
    ensures var f := params.attribute.GetOr(if e.table.PhysicalRouter? then Role else Status);
            var bad := params.value.GetOr(Text(if f == Role then "FOO" else if f == Status then "BANANA" else "INVALID"));
            ApplyInvalidEnum(p, e, at, params).after != p <==> Cell(Rows(p, e.table)[Find(p, e).value], f) != bad
  {
    var f := params.attribute.GetOr(if e.table.PhysicalRouter? then Role else Status);
    var bad := params.value.GetOr(Text(if f == Role then "FOO" else if f == Status then "BANANA" else "INVALID"));
    EditedIsRealIff(p, e, Find(p, e).value, f, bad, SetAttribute, at);
  }

  /** The interfaces an endpoint can move to exist and are not on the link. */
  lemma {:induction false} FreeExist(ifaces: seq<Row>, links: seq<Row>, link: Val, id: Val)
    requires id in FreeInterfaces(ifaces, links, link)
    ensures id in G.Ids(ifaces)
  {
    if Cell(ifaces[0], Id) == id {
      assert ifaces[0] in ifaces;
    } else {
      FreeExist(ifaces[1..], links, link, id);
      var r: Row :| r in ifaces[1..] && Cell(r, Id) == id;
      assert r in ifaces;
    }
  }

  /** A recorded endpoint shift moves one end of its link to an interface that exists and was not
      on the link, so references still resolve and the link keeps its number of ends. */
  lemma ShiftIsReal(p: Projection, i: nat, kind: Kind, tape: Tape, at: nat)
    requires i < |Rows(p, InterfaceLink)| && !kind.Noop? && Recorded(ShiftEndpoint(p, i, kind, tape, at))
    ensures var q, id := ShiftEndpoint(p, i, kind, tape, at).after, Cell(Rows(ShiftEndpoint(p, i, kind, tape, at).after, InterfaceLink)[i], InterfaceId);
            && OnlyFieldChanged(p, q, InterfaceLink, i, InterfaceId, id)
            && id in G.Ids(Rows(p, PhysicalInterface))
            && forall k | 0 <= k < |Rows(p, InterfaceLink)| ::
                 Cell(Rows(p, InterfaceLink)[k], LinkId) == Cell(Rows(p, InterfaceLink)[i], LinkId) ==> Cell(Rows(p, InterfaceLink)[k], InterfaceId) != id
  {
    var links := Rows(p, InterfaceLink);
    var free := FreeInterfaces(Rows(p, PhysicalInterface), links, Cell(links[i], LinkId));
    FreeExist(Rows(p, PhysicalInterface), links, Cell(links[i], LinkId), Choice(tape, at, free));
  }

  lemma {:induction false} CountDropped(rows: seq<Row>, i: nat, f: Field, v: Val)
    requires i < |rows| && Cell(rows[i], f) == v
    ensures G.Count(Dropped(rows, i), f, v) == G.Count(rows, f, v) - 1
    decreases i
  {
    if i > 0 {
      CountDropped(rows[1..], i - 1, f, v);
      var rest := Dropped(rows[1..], i - 1);
      assert ([rows[0]] + rest)[1..] == rest;
    }
  }

  lemma {:induction false} CountIsEndpoints(links: seq<Row>, link: Val, from: nat)
    requires from <= |links|
    ensures |Endpoints(links, link, from)| == G.Count(links[from..], LinkId, link)
    decreases |links| - from
  {
    if from < |links| {
      CountIsEndpoints(links, link, from + 1);
      assert links[from..][1..] == links[from + 1..];
    }
  }

  /** A recorded asymmetric link had at least two ends and has exactly one less. */
  lemma AsymmetricLinkIsReal(p: Projection, e: EntityRef, tape: Tape, at: nat)
    requires Recorded(ApplyAsymmetricLink(p, e, tape, at))
    ensures var link := Text(AfterSeparator(e.id, 0));
            var before, after := G.Count(Rows(p, InterfaceLink), LinkId, link),
                                 G.Count(Rows(ApplyAsymmetricLink(p, e, tape, at).after, InterfaceLink), LinkId, link);
            before >= 2 && after == before - 1
  {
    var links, link := Rows(p, InterfaceLink), Text(AfterSeparator(e.id, 0));
    var ends := Endpoints(links, link, 0);
    CountIsEndpoints(links, link, 0);
    assert links[0..] == links;
    CountDropped(links, Choice(tape, at, ends), LinkId, link);
  }

  predicate Repeats(vs: seq<Val>) {
    exists i, j | 0 <= i < j < |vs| :: vs[i] == vs[j]
  }

  lemma SampleTwo(tape: Tape, at: nat, xs: seq<Val>)
    requires |xs| >= 2
    ensures var s := Sample(tape, at, xs, 2);
            s[0] in xs && s[1] in xs && (!Repeats(xs) ==> s[0] != s[1])
  {
    var i := tape(at) % |xs|;
    var rest := xs[..i] + xs[i + 1..];
    var j := tape(at + 1) % |rest|;
    var k := if j < i then j else j + 1;
    assert rest[j] == xs[k];
    assert Sample(tape, at + 1, rest, 1)[0] == rest[j];
    assert k < i || i < k;
  }

  /** A recorded attribute conflict leaves catalog and telemetry with two values of the drift table
      other than the catalog's previous one, and different from each other unless that table repeats. */
  lemma AttributeConflictIsReal(w: World, e: EntityRef, tape: Tape, at: nat, params: Params)
    requires Recorded(ApplyAttributeConflict(w, e, tape, at, params))
    ensures var f, after := params.attribute.value, ApplyAttributeConflict(w, e, tape, at, params).after;
            var was := Cell(Rows(w.catalog, e.table)[Find(w.catalog, e).value], f);
            exists c, t :: OnlyFieldChanged(w.catalog, after.catalog, e.table, Find(w.catalog, e).value, f, c)
                           && OnlyFieldChanged(w.telemetry, after.telemetry, e.table, Find(w.telemetry, e).value, f, t)
                           && c in DriftTable(params, f) && t in DriftTable(params, f) && c != was && t != was
                           && (!Repeats(Alternatives(DriftTable(params, f), was)) ==> c != t)
  {
    var f := params.attribute.value;
    var was := Cell(Rows(w.catalog, e.table)[Find(w.catalog, e).value], f);
    var choices := Alternatives(DriftTable(params, f), was);
    SampleTwo(tape, at, choices);
    var picked := Sample(tape, at, choices, 2);
    AlternativesFrom(DriftTable(params, f), was, picked[0]);
    AlternativesFrom(DriftTable(params, f), was, picked[1]);
    EditedChanges(w.catalog, e, Find(w.catalog, e).value, f, picked[0], SetAttribute, 0);
    EditedChanges(w.telemetry, e, Find(w.telemetry, e).value, f, picked[1], SetAttribute, 0);
  }

  /** What an attribute conflict on these rows leaves catalog and telemetry with. */
  ghost predicate Disagrees(w: World, e: EntityRef, tape: Tape, at: nat, params: Params) {
    Recorded(ApplyAttributeConflict(w, e, tape, at, params)) && params.attribute.Some? ==>
      var after := ApplyAttributeConflict(w, e, tape, at, params).after;
      var c, t := Find(w.catalog, e), Find(w.telemetry, e);
      c.Some? && t.Some? && c.value < |Rows(after.catalog, e.table)| && t.value < |Rows(after.telemetry, e.table)|
      && Cell(Rows(after.catalog, e.table)[c.value], params.attribute.value) !=
         Cell(Rows(after.telemetry, e.table)[t.value], params.attribute.value)
  }

  /** A conflict that takes place. */
  predicate Conflicts(w: World, e: EntityRef, params: Params) {
    params.attribute.Some? && Find(w.catalog, e).Some? && Find(w.telemetry, e).Some? &&
    var was := Cell(Rows(w.catalog, e.table)[Find(w.catalog, e).value], params.attribute.value);
    !was.Null? && |Alternatives(DriftTable(params, params.attribute.value), was)| >= 2
  }

  lemma ConflictValues(w: World, e: EntityRef, tape: Tape, at: nat, params: Params)
    requires Conflicts(w, e, params)
    ensures var f := params.attribute.value;
            var picked := Sample(tape, at, Alternatives(DriftTable(params, f), Cell(Rows(w.catalog, e.table)[Find(w.catalog, e).value], f)), 2);
            && Recorded(ApplyAttributeConflict(w, e, tape, at, params))
            && (Disagrees(w, e, tape, at, params) <==> picked[0] != picked[1])
  {
  }

  function Drawing(first: nat, second: nat): Tape {
    (at: nat) => if at == 0 then first else second
  }

  lemma SmallModulo(k: nat, n: nat)
    requires k < n
    ensures k % n == k
  {
  }

  lemma SampleHead(tape: Tape, at: nat, xs: seq<Val>, i: nat)
    requires tape(at) == i < |xs|
    ensures Sample(tape, at, xs, 1)[0] == xs[i]
  {
    SmallModulo(i, |xs|);
  }

  lemma SampleStep(tape: Tape, at: nat, xs: seq<Val>, i: nat, rest: seq<Val>)
    requires |xs| >= 2 && tape(at) == i < |xs| && rest == xs[..i] + xs[i + 1..]
    ensures Sample(tape, at, xs, 2)[0] == xs[i] && Sample(tape, at, xs, 2)[1] == Sample(tape, at + 1, rest, 1)[0]
  {
    SmallModulo(i, |xs|);
  }

  lemma RestAfter(xs: seq<Val>, i: nat, j: nat) returns (rest: seq<Val>)
    requires i < j < |xs|
    ensures rest == xs[..i] + xs[i + 1..] && |rest| == |xs| - 1 && rest[j - 1] == xs[j]
  {
    rest := xs[..i] + xs[i + 1..];
  }

  lemma SamplePair(tape: Tape, at: nat, xs: seq<Val>, i: nat, j: nat)
    requires i < j < |xs| && tape(at) == i && tape(at + 1) == j - 1
    ensures var picked := Sample(tape, at, xs, 2); picked[0] == xs[i] && picked[1] == xs[j]
  {
    var rest := RestAfter(xs, i, j);
    SampleStep(tape, at, xs, i, rest);
    SampleHead(tape, at + 1, rest, j - 1);
  }

  lemma SampleRepeats(xs: seq<Val>) returns (tape: Tape)
    requires Repeats(xs)
    ensures |xs| >= 2 && Sample(tape, 0, xs, 2)[0] == Sample(tape, 0, xs, 2)[1]
  {
    var i: nat, j: nat :| i < j < |xs| && xs[i] == xs[j];
    tape := Drawing(i, j - 1);
    SamplePair(tape, 0, xs, i, j);
  }

  /** Over all draws the two projections come to disagree if and only if no value is left twice to
      choose from. */
  lemma AttributeConflictDisagreesIff(w: World, e: EntityRef, params: Params)
    requires Conflicts(w, e, params)
    ensures (forall tape: Tape, at: nat :: Disagrees(w, e, tape, at, params)) <==>
            !Repeats(Alternatives(DriftTable(params, params.attribute.value),
                                  Cell(Rows(w.catalog, e.table)[Find(w.catalog, e).value], params.attribute.value)))
  {
    var f := params.attribute.value;
    var choices := Alternatives(DriftTable(params, f), Cell(Rows(w.catalog, e.table)[Find(w.catalog, e).value], f));
    if Repeats(choices) {
      var tape := SampleRepeats(choices);
      ConflictValues(w, e, tape, 0, params);
      assert !Disagrees(w, e, tape, 0, params);
    } else {
      forall tape: Tape, at: nat ensures Disagrees(w, e, tape, at, params) {
        SampleTwo(tape, at, choices);
        ConflictValues(w, e, tape, at, params);
      }
    }
  }

  /** A recorded existence conflict pops the first row with the entity's id from one projection, keeps
      the others in order, and leaves the other projection alone. */
  lemma ExistenceConflictIsReal(w: World, e: EntityRef, at: nat, params: Params)
    requires Recorded(ApplyExistenceConflict(w, e, at, params))
    ensures var after := ApplyExistenceConflict(w, e, at, params).after;
            if params.dropFrom == "telemetry" then FirstPopped(w.telemetry, after.telemetry, e) && after.catalog == w.catalog
            else FirstPopped(w.catalog, after.catalog, e) && after.telemetry == w.telemetry
  {
    DroppedIsPopped(if params.dropFrom == "telemetry" then w.telemetry else w.catalog, e);
  }

  /** The first row with the entity's id has gone, the others keep their order, and other tables stay. */
  ghost predicate FirstPopped(p: Projection, q: Projection, e: EntityRef) {
    var before, after := Rows(p, e.table), Rows(q, e.table);
    && (forall t | t != e.table :: Rows(q, t) == Rows(p, t))
    && |after| == |before| - 1
    && exists i: nat :: i < |before| && Cell(before[i], Id) == Text(e.id) && (forall k | 0 <= k < i :: Cell(before[k], Id) != Text(e.id))
                        && forall k | 0 <= k < |after| :: after[k] == before[if k < i then k else k + 1]
  }

  lemma DroppedIsPopped(p: Projection, e: EntityRef)
    ensures match First(Rows(p, e.table), ById(Text(e.id)))
            case None => true
            case Some(i) => FirstPopped(p, p[e.table := Dropped(Rows(p, e.table), i)], e)
  {
    var before, found := Rows(p, e.table), First(Rows(p, e.table), ById(Text(e.id)));
    if found.Some? {
      var i := found.value;
      assert forall k | 0 <= k < i :: !Matches(before[k], ById(Text(e.id)));
      forall k | 0 <= k < |before| - 1 ensures Dropped(before, i)[k] == before[if k < i then k else k + 1] {
        DroppedAt(before, i, k);
      }
    }
  }

  function NameOf(r: Row): string {
    if Name in r then Show(r[Name]) else ""
  }

  /** A recorded merge names the target after both, drops every row with the victim's id, and keeps
      the rest. */
  lemma MergeIsReal(p: Projection, e: EntityRef, tape: Tape, at: nat)
    requires Recorded(ApplyMergedIdentity(p, true, e, tape, at))
    ensures var done := ApplyMergedIdentity(p, true, e, tape, at);
            done.mutation.before.Merge? && done.mutation.after.One? &&
            var target, victim, named := done.mutation.before.target, done.mutation.before.victim, done.mutation.after.row;
            && Cell(target, Id) == Text(e.id) && victim in Rows(p, e.table) && Cell(victim, Id) != Text(e.id)
            && named == target[Name := Text(NameOf(target) + "+" + NameOf(victim))]
            && named in Rows(done.after, e.table) && Cell(victim, Id) !in G.Ids(Rows(done.after, e.table))
            && (forall r | r in Rows(p, e.table) && r != target && Cell(r, Id) != Cell(victim, Id) :: r in Rows(done.after, e.table))
            && (forall r | r in Rows(done.after, e.table) :: r == named || r in Rows(p, e.table))
            && (forall t | t != e.table :: Rows(done.after, t) == Rows(p, t))
  {
    var done := ApplyMergedIdentity(p, true, e, tape, at);
    var i, rows := Find(p, e).value, Rows(p, e.table);
    var victim, named := done.mutation.before.victim, done.mutation.after.row;
    var renamed := rows[i := named];
    assert victim in Victims(rows, Text(e.id));
    assert renamed[i] in renamed;
    StrippedKeeps(renamed, Id, Cell(victim, Id), named);
    forall r | r in rows && r != rows[i] && Cell(r, Id) != Cell(victim, Id) ensures r in Stripped(renamed, Id, Cell(victim, Id)) {
      var k :| 0 <= k < |rows| && rows[k] == r;
      assert renamed[k] == r;
      StrippedKeeps(renamed, Id, Cell(victim, Id), r);
    }
  }

  lemma {:induction false} StrippedKeeps(rows: seq<Row>, f: Field, v: Val, r: Row)
    requires r in rows && Cell(r, f) != v
    ensures r in Stripped(rows, f, v)
  {
    if r != rows[0] {
      assert r in rows[1..];
      StrippedKeeps(rows[1..], f, v, r);
    }
  }
}
