/** Which entities a spec strikes. */
module Selection {
  import opened Common
  import opened Positions
  import opened InjectorModel
  import opened Defects
  import opened LedgerReplay

  // ---------------------------------------------------------------- candidates

  /** The id by which a row is referred to: its own, or for an edge row without one its natural key.
      The cross-source classes take an empty id for none. */
  ghost predicate RefersTo(e: EntityRef, t: Table, r: Row, cross: bool) {
    e.table == t &&
    if Cell(r, Id).Text? && (cross ==> Cell(r, Id).s != "") then e.id == Cell(r, Id).s
    else if t == InterfaceLink then e.id == Show(Cell(r, InterfaceId)) + "::" + Show(Cell(r, LinkId))
    else t == SubnetAssociation && e.id == Show(Cell(r, EntityId)) + "::" + Show(Cell(r, SubnetId))
  }

  /** There is one candidate per row, in order. */
  lemma {:induction false} CandidatesAreRows(t: Table, rows: seq<Row>, cross: bool)
    requires RefsOf(t, rows, cross).Some?
    ensures |RefsOf(t, rows, cross).value| == |rows|
    ensures forall k | 0 <= k < |rows| :: RefersTo(RefsOf(t, rows, cross).value[k], t, rows[k], cross)
  {
    if rows != [] {
      CandidatesAreRows(t, rows[1..], cross);
      assert forall k | 0 < k < |rows| :: rows[k] == rows[1..][k - 1];
    }
  }

  ghost predicate OnePerRow(refs: seq<EntityRef>, t: Table, rows: seq<Row>, cross: bool) {
    |refs| == |rows| && forall k | 0 <= k < |rows| :: RefersTo(refs[k], t, rows[k], cross)
  }

  /** The table and the rows that a class chooses from: links of its own projection, links of the
      catalog, or the table asked for, in the catalog for the cross-source classes. */
  ghost predicate ChoosesFrom(spec: Spec, w: World, t: Table, rows: seq<Row>) {
    match spec.defect
    case AsymmetricLink => t == PhysicalLink && rows == Rows(if spec.side.Catalog? then w.catalog else w.telemetry, t)
    case StructuralConflict => t == PhysicalLink && rows == Rows(w.catalog, t)
    case _ =>
      spec.entityType == Some(t)
      && rows == Rows(if CrossSource(spec.defect) || spec.side.Catalog? then w.catalog else w.telemetry, t)
  }

  /** There is one candidate for each of those rows, in order. */
  lemma CandidatesAre(spec: Spec, w: World, t: Table, rows: seq<Row>)
    requires Candidates(spec, w).Some? && !spec.defect.PhantomEntity? && !spec.defect.ShadowEntity?
    requires ChoosesFrom(spec, w, t, rows)
    ensures OnePerRow(Candidates(spec, w).value, t, rows, CrossSource(spec.defect) && !spec.defect.StructuralConflict?)
  {
    CandidatesAreRows(t, rows, CrossSource(spec.defect) && !spec.defect.StructuralConflict?);
  }

  /** A fabricating class has at least one slot, and as many as asked for. */
  lemma SlotsAre(spec: Spec, w: World, phantom: bool)
    requires if phantom then spec.defect.PhantomEntity? else spec.defect.ShadowEntity?
    ensures var refs := Candidates(spec, w).value;
            |refs| >= 1 && (spec.params.slots.Some? && spec.params.slots.value >= 1 ==> |refs| == spec.params.slots.value)
  {
    var t := spec.entityType.GetOr(PhysicalRouter);
    var n := spec.params.slots.GetOr(|Rows(if phantom then w.catalog else w.telemetry, t)|);
    SlotsCounted(t, if phantom then "__phantom_slot__" else "__shadow_slot__", 0, if n < 1 then 1 else n);
  }

  lemma {:induction false} SlotsCounted(t: Table, prefix: string, i: nat, n: nat)
    requires i <= n
    ensures |Slots(t, prefix, i, n)| == n - i
    decreases n - i
  {
    if i < n {
      SlotsCounted(t, prefix, i + 1, n);
    }
  }

  // ---------------------------------------------------------------- the filter

  /** The row with the entity's id, the first if there are several; edge rows are not found. */
  ghost predicate FoundAt(p: Projection, e: EntityRef, i: nat) {
    && e.table !in {InterfaceLink, SubnetAssociation}
    && i < |Rows(p, e.table)| && Cell(Rows(p, e.table)[i], Id) == Text(e.id)
    && forall k | 0 <= k < i :: Cell(Rows(p, e.table)[k], Id) != Text(e.id)
  }

  /** Every filtered field of the row has one of the values asked for; a row that is not found has none. */
  ghost predicate LetsPass(p: Projection, e: EntityRef, filter: Filter) {
    && (forall i: nat, f | FoundAt(p, e, i) && f in filter :: Cell(Rows(p, e.table)[i], f) in filter[f])
    && ((forall i: nat :: !FoundAt(p, e, i)) ==> forall f | f in filter :: Null in filter[f])
  }

  lemma PassesIs(p: Projection, e: EntityRef, filter: Filter)
    ensures var found := Find(p, e);
            Passes(if found.Some? then Rows(p, e.table)[found.value] else map[], filter) <==> LetsPass(p, e, filter)
  {
    var found := Find(p, e);
    if found.Some? {
      assert FoundAt(p, e, found.value);
      forall i: nat | FoundAt(p, e, i) ensures i == found.value {
        assert Matches(Rows(p, e.table)[i], ById(Text(e.id)));
      }
    } else {
      forall i: nat ensures !FoundAt(p, e, i) {
        if FoundAt(p, e, i) {
          assert Matches(Rows(p, e.table)[i], ById(Text(e.id)));
        }
      }
      var none: Row := map[];
      assert forall f :: Cell(none, f) == Null;
    }
  }

  ghost function LetThrough(refs: seq<EntityRef>, p: Projection, filter: Filter): nat -> bool {
    (i: nat) => i < |refs| && LetsPass(p, refs[i], filter)
  }

  lemma {:induction false} FilteredIs(refs: seq<EntityRef>, from: nat, p: Projection, filter: Filter) returns (at: seq<nat>)
    requires from <= |refs|
    ensures Selects(refs, from, Filtered(refs[from..], p, filter), LetThrough(refs, p, filter), at)
    decreases |refs| - from
  {
    if from == |refs| {
      at := [];
    } else {
      var good, rest := LetThrough(refs, p, filter), Filtered(refs[from + 1..], p, filter);
      at := FilteredIs(refs, from + 1, p, filter);
      PassesIs(p, refs[from], filter);
      assert refs[from..][0] == refs[from] && refs[from..][1..] == refs[from + 1..];
      if good(from) {
        SelectsOneMore(refs, from, rest, good, at, Filtered(refs[from..], p, filter), [from] + at);
        at := [from] + at;
      } else {
        SelectsNoMore(refs, from, rest, good, at);
      }
    }
  }

  // ---------------------------------------------------------------- by id, by rate, by count

  function Listed(refs: seq<EntityRef>, ids: set<string>): nat -> bool {
    (i: nat) => i < |refs| && refs[i].id in ids
  }

  lemma {:induction false} ByIdsIs(refs: seq<EntityRef>, from: nat, ids: set<string>) returns (at: seq<nat>)
    requires from <= |refs|
    ensures Selects(refs, from, ByIds(refs[from..], ids), Listed(refs, ids), at)
    decreases |refs| - from
  {
    if from == |refs| {
      at := [];
    } else {
      var good, rest := Listed(refs, ids), ByIds(refs[from + 1..], ids);
      at := ByIdsIs(refs, from + 1, ids);
      assert refs[from..][0] == refs[from] && refs[from..][1..] == refs[from + 1..];
      if good(from) {
        SelectsOneMore(refs, from, rest, good, at, ByIds(refs[from..], ids), [from] + at);
        at := [from] + at;
      } else {
        SelectsNoMore(refs, from, rest, good, at);
      }
    }
  }

  /** Candidate i is struck when draw i falls below the rate. */
  function Struck(refs: seq<EntityRef>, rate: real, tape: Tape): nat -> bool {
    (i: nat) => i < |refs| && Chance(tape, i) < rate
  }

  lemma {:induction false} ByRateIs(refs: seq<EntityRef>, from: nat, rate: real, tape: Tape) returns (at: seq<nat>)
    requires from <= |refs|
    ensures Selects(refs, from, ByRate(refs[from..], rate, tape, from), Struck(refs, rate, tape), at)
    decreases |refs| - from
  {
    if from == |refs| {
      at := [];
    } else {
      var good, rest := Struck(refs, rate, tape), ByRate(refs[from + 1..], rate, tape, from + 1);
      at := ByRateIs(refs, from + 1, rate, tape);
      assert refs[from..][0] == refs[from] && refs[from..][1..] == refs[from + 1..];
      if good(from) {
        SelectsOneMore(refs, from, rest, good, at, ByRate(refs[from..], rate, tape, from), [from] + at);
        at := [from] + at;
      } else {
        SelectsNoMore(refs, from, rest, good, at);
      }
    }
  }

  /** A draw lies in [0, 1), so a rate of 0 strikes nobody and a rate of 1 everybody. */
  lemma ChanceInUnit(tape: Tape, at: nat)
    ensures 0.0 <= Chance(tape, at) < 1.0
  {
    var n := tape(at) % 0x20_0000_0000_0000;
    assert n as real < 9007199254740992.0;
  }

  /** The elements of xs at these positions, no position twice. */
  ghost predicate DrawnAt<T(!new)>(xs: seq<T>, picked: seq<T>, at: seq<nat>) {
    && |at| == |picked|
    && (forall k | 0 <= k < |at| :: at[k] < |xs| && picked[k] == xs[at[k]])
    && forall k, l | 0 <= k < l < |at| :: at[k] != at[l]
  }

  function PastGap(i: nat, k: nat): nat {
    if k < i then k else k + 1
  }

  lemma WithoutAt<T>(xs: seq<T>, i: nat, k: nat)
    requires i < |xs| && k < |xs| - 1
    ensures |xs[..i] + xs[i + 1..]| == |xs| - 1 && (xs[..i] + xs[i + 1..])[k] == xs[PastGap(i, k)]
  {
  }

  lemma OneMoreDrawn<T(!new)>(xs: seq<T>, i: nat, rest: seq<T>, picked: seq<T>, at: seq<nat>, more: seq<T>, at': seq<nat>)
    requires i < |xs| && |rest| == |xs| - 1 && (forall k | 0 <= k < |rest| :: rest[k] == xs[PastGap(i, k)])
    requires DrawnAt(rest, picked, at)
    requires Prefixed(xs[i], picked, more)
    requires |at'| == |at| + 1 && at'[0] == i && forall k | 0 < k < |at'| :: at'[k] == PastGap(i, at[k - 1])
    ensures DrawnAt(xs, more, at')
  {
    forall k | 0 <= k < |at'| ensures at'[k] < |xs| && more[k] == xs[at'[k]] {
      if k > 0 {
        assert more[k] == picked[k - 1] == rest[at[k - 1]];
      }
    }
    forall k, l | 0 <= k < l < |at'| ensures at'[k] != at'[l] {
      if k > 0 {
        assert at[k - 1] != at[l - 1];
      }
    }
  }

  /** A sample takes different positions. */
  lemma {:induction false} SampleIs<T(!new)>(tape: Tape, from: nat, xs: seq<T>, k: nat) returns (at: seq<nat>)
    requires k <= |xs|
    ensures DrawnAt(xs, Sample(tape, from, xs, k), at) && |at| == k
    decreases k
  {
    if k == 0 {
      at := [];
    } else {
      var i := tape(from) % |xs|;
      var rest := xs[..i] + xs[i + 1..];
      var later := SampleIs(tape, from + 1, rest, k - 1);
      forall j | 0 <= j < |xs| - 1 ensures rest[j] == xs[PastGap(i, j)] {
        WithoutAt(xs, i, j);
      }
      at := seq(k, j requires 0 <= j < k => if j == 0 then i else PastGap(i, later[j - 1]));
      OneMoreDrawn(xs, i, rest, Sample(tape, from + 1, rest, k - 1), later, Sample(tape, from, xs, k), at);
    }
  }

  // ---------------------------------------------------------------- the selection

  /** The candidates left by the filter, if it applies to the spec's class. */
  ghost predicate FilteredTo(spec: Spec, w: World, refs: seq<EntityRef>, kept: seq<EntityRef>) {
    if CrossSource(spec.defect) || spec.filter == map[] then kept == refs
    else
      var good := LetThrough(refs, if spec.side.Catalog? then w.catalog else w.telemetry, spec.filter);
      exists at :: Selects(refs, 0, kept, good, at)
  }

  /** Of those left, the spec strikes: with a list of ids, exactly the listed ones; with a rate,
      exactly those whose own draw falls below it, one draw each; with a count, that many different
      ones, or all when there are no more. The first two keep the order. */
  ghost predicate Strikes(spec: Spec, kept: seq<EntityRef>, tape: Tape, struck: seq<EntityRef>) {
    match spec.selection
    case ExplicitIds(ids) => exists at :: Selects(kept, 0, struck, Listed(kept, ids), at)
    case RandomRate(rate) => exists at :: Selects(kept, 0, struck, Struck(kept, rate, tape), at)
    case FixedCount(count) =>
      if count >= |kept| then struck == kept else |struck| == count && exists at :: DrawnAt(kept, struck, at)
  }

  /** How many draws the selection takes. */
  function DrawsTaken(spec: Spec, kept: seq<EntityRef>): nat {
    match spec.selection
    case ExplicitIds(_) => 0
    case RandomRate(_) => |kept|
    case FixedCount(count) => if count >= |kept| then 0 else count
  }

  /** What a spec selects among its candidates. */
  lemma SelectedIs(spec: Spec, w: World, refs: seq<EntityRef>, tape: Tape) returns (kept: seq<EntityRef>)
    ensures FilteredTo(spec, w, refs, kept)
    ensures Strikes(spec, kept, tape, Selected(spec, w, refs, tape).0)
    ensures Selected(spec, w, refs, tape).1 == DrawsTaken(spec, kept)
  {
    kept := refs;
    if !CrossSource(spec.defect) && spec.filter != map[] {
      kept := Filtered(refs, w.On(spec.side), spec.filter);
      var at := FilteredIs(refs, 0, w.On(spec.side), spec.filter);
      assert refs[0..] == refs;
    }
    assert kept[0..] == kept;
    match spec.selection
    case ExplicitIds(ids) => var at := ByIdsIs(kept, 0, ids);
    case RandomRate(rate) => var at := ByRateIs(kept, 0, rate, tape);
    case FixedCount(count) =>
      if count < |kept| {
        var at := SampleIs(tape, 0, kept, count);
      }
  }
}
