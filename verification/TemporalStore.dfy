/** Slowly changing dimension (type 2) tables: a row is never overwritten, its
    interval is closed at the commit timestamp and a new open row is inserted. */
module TemporalStore {
  import opened Common

  datatype Row<K, V> = Row(id: K, value: V, start: nat, end: Option<nat>) {
    predicate Open() {
      end.None?
    }

    /** The reader's filter: start <= ts AND (end > ts OR end IS NULL). */
    predicate Covers(ts: nat) {
      start <= ts && (end.None? || end.value > ts)
    }
  }

  /** What one transaction does. `Write` reads the active value of `id` and either leaves the
      table alone or replaces (inserts) the value; `Close` ends every open row it selects. */
  datatype Tx<!K, !V> =
    | Write(id: K, decide: Option<V> -> Option<V>)
    | Close(sel: (K, V) -> bool)

  datatype Stamped<!K, !V> = At(commit: nat, tx: Tx<K, V>)

  // ---------------------------------------------------------------- the stored table

  /** SELECT value WHERE id = @id AND the row covers ts. */
  function AsOf<K(==), V>(rows: seq<Row<K, V>>, id: K, ts: nat): (vs: seq<V>) {
    if rows == [] then []
    else if rows[0].id == id && rows[0].Covers(ts) then [rows[0].value] + AsOf(rows[1..], id, ts)
    else AsOf(rows[1..], id, ts)
  }

  /** SELECT value WHERE id = @id AND valid_end_ts IS NULL. */
  function Active<K(==), V>(rows: seq<Row<K, V>>, id: K): (vs: seq<V>) {
    if rows == [] then []
    else if rows[0].id == id && rows[0].Open() then [rows[0].value] + Active(rows[1..], id)
    else Active(rows[1..], id)
  }

  function CloseRow<K, V>(r: Row<K, V>, sel: (K, V) -> bool, ts: nat): Row<K, V> {
    if r.Open() && sel(r.id, r.value) then r.(end := Some(ts)) else r
  }

  /** UPDATE ... SET valid_end_ts = ts WHERE sel AND valid_end_ts IS NULL. */
  function CloseRows<K, V>(rows: seq<Row<K, V>>, sel: (K, V) -> bool, ts: nat): (out: seq<Row<K, V>>)
    ensures |out| == |rows|
  {
    seq(|rows|, i requires 0 <= i < |rows| => CloseRow(rows[i], sel, ts))
  }

  function First<T>(s: seq<T>): Option<T> {
    if s == [] then None else Some(s[0])
  }

  function Commit<K(==), V>(rows: seq<Row<K, V>>, s: Stamped<K, V>): seq<Row<K, V>> {
    match s.tx
    case Write(id, decide) =>
      (match decide(First(Active(rows, id)))
       case None => rows
       case Some(v) => CloseRows(rows, (k, _) => k == id, s.commit) + [Row(id, v, s.commit, None)])
    case Close(sel) => CloseRows(rows, sel, s.commit)
  }

  function Rows<K(==), V>(run: seq<Stamped<K, V>>): seq<Row<K, V>> {
    if run == [] then [] else Commit(Rows(run[..|run| - 1]), run[|run| - 1])
  }

  ghost function Now<K, V>(run: seq<Stamped<K, V>>): int {
    if run == [] then -1 else run[|run| - 1].commit
  }

  /** Commit timestamps strictly increase along the run. */
  ghost predicate Increasing<K, V>(run: seq<Stamped<K, V>>) {
    run == [] || (Increasing(run[..|run| - 1]) && Now(run[..|run| - 1]) < run[|run| - 1].commit)
  }

  // ---------------------------------------------------------------- the plain map

  function Step<K, V>(m: map<K, V>, tx: Tx<K, V>): map<K, V> {
    match tx
    case Write(id, decide) =>
      (match decide(Get(m, id))
       case None => m
       case Some(v) => m[id := v])
    case Close(sel) => map k | k in m && !sel(k, m[k]) :: m[k]
  }

  /** Replay of the transactions committed at or before ts on a map without history. */
  function Replay<K, V>(run: seq<Stamped<K, V>>, ts: nat): map<K, V> {
    if run == [] then map[]
    else
      var before := Replay(run[..|run| - 1], ts);
      if run[|run| - 1].commit <= ts then Step(before, run[|run| - 1].tx) else before
  }

  // ---------------------------------------------------------------- invariant

  /** Every row began by `now`; a closed row has a non-empty interval that ended by `now`. */
  ghost predicate Timed<K, V>(rows: seq<Row<K, V>>, now: int) {
    forall i {:trigger RowTimed(rows[i], now)} :: 0 <= i < |rows| ==> RowTimed(rows[i], now)
  }

  ghost predicate RowTimed<K, V>(r: Row<K, V>, now: int) {
    r.start <= now && (r.end.Some? ==> r.start < r.end.value <= now)
  }

  lemma {:induction false} CommitKeepsTimed<K, V>(rows: seq<Row<K, V>>, now: int, s: Stamped<K, V>)
    requires Timed(rows, now) && now < s.commit
    ensures Timed(Commit(rows, s), s.commit)
  {
    var after := Commit(rows, s);
    forall i | 0 <= i < |after| ensures RowTimed(after[i], s.commit) {
      if i < |rows| {
        CommitAt(rows, s, i);
        assert RowTimed(rows[i], now);
      }
    }
  }

  /** A run keeps the stored intervals non-empty and in the past. */
  lemma {:induction false} RowsTimed<K, V>(run: seq<Stamped<K, V>>)
    requires Increasing(run)
    ensures Timed(Rows(run), Now(run))
  {
    if run != [] {
      var before := run[..|run| - 1];
      RowsTimed(before);
      CommitKeepsTimed(Rows(before), Now(before), run[|run| - 1]);
    }
  }

  /** A commit keeps every stored row in place, at most ending an open one at the commit. */
  lemma CommitAt<K, V>(rows: seq<Row<K, V>>, s: Stamped<K, V>, i: nat)
    requires i < |rows|
    ensures |rows| <= |Commit(rows, s)| <= |rows| + 1
    ensures Commit(rows, s)[i] == rows[i] || (rows[i].Open() && Commit(rows, s)[i] == rows[i].(end := Some(s.commit)))
    ensures s.tx.Close? ==> Commit(rows, s)[i] == CloseRow(rows[i], s.tx.sel, s.commit)
  {
    var sel := if s.tx.Close? then s.tx.sel else (k: K, _: V) => k == s.tx.id;
    assert CloseRows(rows, sel, s.commit)[i] == CloseRow(rows[i], sel, s.commit);
  }

  // ---------------------------------------------------------------- how a commit changes a query

  lemma {:induction false} AsOfAppend<K, V>(rows: seq<Row<K, V>>, r: Row<K, V>, id: K, ts: nat)
    ensures AsOf(rows + [r], id, ts) == AsOf(rows, id, ts) + (if r.id == id && r.Covers(ts) then [r.value] else [])
  {
    if rows == [] {
      assert rows + [r] == [r];
    } else {
      assert (rows + [r])[1..] == rows[1..] + [r];
      AsOfAppend(rows[1..], r, id, ts);
    }
  }

  /** Closing rows at `commit` is invisible to every earlier instant. */
  lemma {:induction false} ClosePast<K, V>(rows: seq<Row<K, V>>, sel: (K, V) -> bool, commit: nat, id: K, ts: nat)
    requires ts < commit
    ensures AsOf(CloseRows(rows, sel, commit), id, ts) == AsOf(rows, id, ts)
  {
    if rows != [] {
      assert CloseRows(rows, sel, commit)[1..] == CloseRows(rows[1..], sel, commit);
      ClosePast(rows[1..], sel, commit, id, ts);
    }
  }

  function Kept<K, V>(vs: seq<V>, id: K, sel: (K, V) -> bool): seq<V> {
    if vs == [] then []
    else if sel(id, vs[0]) then Kept(vs[1..], id, sel)
    else [vs[0]] + Kept(vs[1..], id, sel)
  }

  /** From the commit on, exactly the selected values have gone. */
  lemma {:induction false} CloseFuture<K, V>(rows: seq<Row<K, V>>, sel: (K, V) -> bool, now: int, commit: nat, id: K, ts: nat)
    requires Timed(rows, now) && now < commit <= ts
    ensures AsOf(CloseRows(rows, sel, commit), id, ts) == Kept(AsOf(rows, id, ts), id, sel)
  {
    if rows != [] {
      assert CloseRows(rows, sel, commit)[1..] == CloseRows(rows[1..], sel, commit);
      assert RowTimed(rows[0], now);
      TimedTail(rows, now);
      CloseFuture(rows[1..], sel, now, commit, id, ts);
      var vs := AsOf(rows[1..], id, ts);
      if rows[0].id == id && rows[0].Covers(ts) {
        assert ([rows[0].value] + vs)[1..] == vs;
      } else {
        assert AsOf(rows, id, ts) == vs;
      }
    }
  }

  lemma TimedTail<K, V>(rows: seq<Row<K, V>>, now: int)
    requires Timed(rows, now) && rows != []
    ensures Timed(rows[1..], now)
  {
    forall i | 0 <= i < |rows[1..]| ensures RowTimed(rows[1..][i], now) {
      assert RowTimed(rows[i + 1], now);
    }
  }

  /** After the last commit, the as-of query and the open-row query agree. */
  lemma {:induction false} ActiveIsLatest<K, V>(rows: seq<Row<K, V>>, now: int, id: K, ts: nat)
    requires Timed(rows, now) && now <= ts
    ensures Active(rows, id) == AsOf(rows, id, ts)
  {
    if rows != [] {
      assert RowTimed(rows[0], now);
      TimedTail(rows, now);
      ActiveIsLatest(rows[1..], now, id, ts);
    }
  }

  // ---------------------------------------------------------------- main theorem

  ghost predicate Agrees<K(!new), V>(rows: seq<Row<K, V>>, m: map<K, V>, ts: nat) {
    forall id :: AsOf(rows, id, ts) == ToSeq(Get(m, id))
  }

  lemma {:induction false} CommitRefines<K(!new), V>(rows: seq<Row<K, V>>, m: map<K, V>, now: int, s: Stamped<K, V>, ts: nat)
    requires Timed(rows, now) && now < s.commit <= ts
    requires Agrees(rows, m, ts)
    ensures Agrees(Commit(rows, s), Step(m, s.tx), ts)
  {
    forall id ensures AsOf(Commit(rows, s), id, ts) == ToSeq(Get(Step(m, s.tx), id)) {
      assert AsOf(rows, id, ts) == ToSeq(Get(m, id));
      match s.tx
      case Close(sel) =>
        CloseFuture(rows, sel, now, s.commit, id, ts);
        KeptSingle(Get(m, id), id, sel);
      case Write(wid, decide) =>
        ActiveIsLatest(rows, now, wid, ts);
        assert AsOf(rows, wid, ts) == ToSeq(Get(m, wid));
        match decide(Get(m, wid)) {
          case None =>
          case Some(v) =>
            var sel := (k: K, _: V) => k == wid;
            CloseFuture(rows, sel, now, s.commit, id, ts);
            KeptSingle(Get(m, id), id, sel);
            AsOfAppend(CloseRows(rows, sel, s.commit), Row(wid, v, s.commit, None), id, ts);
        }
    }
  }

  lemma KeptSingle<K, V>(o: Option<V>, id: K, sel: (K, V) -> bool)
    ensures Kept(ToSeq(o), id, sel) == if o.Some? && !sel(id, o.value) then [o.value] else []
  {
    if o.Some? {
      assert [o.value][1..] == [];
    }
  }

  lemma {:induction false} CommitPast<K, V>(rows: seq<Row<K, V>>, s: Stamped<K, V>, id: K, ts: nat)
    requires ts < s.commit
    ensures AsOf(Commit(rows, s), id, ts) == AsOf(rows, id, ts)
  {
    match s.tx
    case Close(sel) => ClosePast(rows, sel, s.commit, id, ts);
    case Write(wid, decide) =>
      match decide(First(Active(rows, wid))) {
        case None =>
        case Some(v) =>
          var sel := (k: K, _: V) => k == wid;
          ClosePast(rows, sel, s.commit, id, ts);
          AsOfAppend(CloseRows(rows, sel, s.commit), Row(wid, v, s.commit, None), id, ts);
      }
  }

  /** Refinement: at every instant, past or future, the as-of query on the table answers for
      every id exactly what a plain map holds after the transactions committed by then. */
  lemma {:induction false} AsOfIsReplay<K(!new), V>(run: seq<Stamped<K, V>>, ts: nat)
    requires Increasing(run)
    ensures forall id :: AsOf(Rows(run), id, ts) == ToSeq(Get(Replay(run, ts), id))
  {
    if run == [] {
    } else {
      var before, s := run[..|run| - 1], run[|run| - 1];
      AsOfIsReplay(before, ts);
      RowsTimed(before);
      if s.commit <= ts {
        CommitRefines(Rows(before), Replay(before, ts), Now(before), s, ts);
      } else {
        forall id { CommitPast(Rows(before), s, id, ts); }
      }
    }
  }

  // ---------------------------------------------------------------- consequences of the refinement

  lemma {:induction false} AsOfSuffix<K, V>(rows: seq<Row<K, V>>, i: nat, id: K, ts: nat)
    requires i <= |rows|
    ensures |AsOf(rows[i..], id, ts)| <= |AsOf(rows, id, ts)|
  {
    if i == 0 {
      assert rows[0..] == rows;
    } else {
      assert rows[1..][i - 1..] == rows[i..];
      AsOfSuffix(rows[1..], i - 1, id, ts);
    }
  }

  lemma AsOfCounts<K, V>(rows: seq<Row<K, V>>, i: nat, id: K, ts: nat)
    requires i < |rows| && rows[i].id == id && rows[i].Covers(ts)
    ensures |AsOf(rows[i..], id, ts)| == |AsOf(rows[i + 1..], id, ts)| + 1
  {
    assert rows[i..][1..] == rows[i + 1..];
  }

  lemma TwoCovers<K, V>(rows: seq<Row<K, V>>, i: nat, j: nat, id: K, ts: nat)
    requires i < j < |rows| && rows[i].id == id && rows[j].id == id && rows[i].Covers(ts) && rows[j].Covers(ts)
    ensures |AsOf(rows, id, ts)| >= 2
  {
    AsOfSuffix(rows, i, id, ts);
    AsOfCounts(rows, i, id, ts);
    assert rows[i + 1..][j - i - 1..] == rows[j..];
    AsOfSuffix(rows[i + 1..], j - i - 1, id, ts);
    AsOfCounts(rows, j, id, ts);
  }

  /** Two rows of one id never cover the same instant: the stored intervals are disjoint. */
  lemma {:induction false} IntervalsDisjoint<K(!new), V>(run: seq<Stamped<K, V>>, i: nat, j: nat, ts: nat)
    requires Increasing(run) && i < j < |Rows(run)| && Rows(run)[i].id == Rows(run)[j].id
    ensures !(Rows(run)[i].Covers(ts) && Rows(run)[j].Covers(ts))
  {
    var id := Rows(run)[i].id;
    AsOfIsReplay(run, ts);
    assert AsOf(Rows(run), id, ts) == ToSeq(Get(Replay(run, ts), id));
    if Rows(run)[i].Covers(ts) && Rows(run)[j].Covers(ts) {
      TwoCovers(Rows(run), i, j, id, ts);
    }
  }

  /** At most one open row per id, in every reachable table. */
  lemma {:induction false} OneActive<K(!new), V>(run: seq<Stamped<K, V>>, id: K)
    requires Increasing(run)
    ensures Active(Rows(run), id) == ToSeq(Get(Replay(run, if run == [] then 0 else run[|run| - 1].commit), id))
  {
    var ts := if run == [] then 0 else run[|run| - 1].commit;
    AsOfIsReplay(run, ts);
    RowsTimed(run);
    ActiveIsLatest(Rows(run), Now(run), id, ts);
    assert AsOf(Rows(run), id, ts) == ToSeq(Get(Replay(run, ts), id));
  }

  /** The past is never rewritten: later transactions do not change an as-of answer. */
  lemma {:induction false} PastIsFixed<K, V>(run: seq<Stamped<K, V>>, more: seq<Stamped<K, V>>, id: K, ts: nat)
    requires forall k :: 0 <= k < |more| ==> more[k].commit > ts
    ensures AsOf(Rows(run + more), id, ts) == AsOf(Rows(run), id, ts)
  {
    if more == [] {
      assert run + more == run;
    } else {
      var front := more[..|more| - 1];
      assert (run + more)[..|run + more| - 1] == run + front;
      PastIsFixed(run, front, id, ts);
      CommitPast(Rows(run + front), more[|more| - 1], id, ts);
    }
  }

  // ---------------------------------------------------------------- upserts that compare some columns

  /** The sync handlers' transaction: keep the active row when its compared columns equal
      `want`, otherwise close it (if any) and insert `stored`. */
  function UpsertTx<K, V, C(==)>(id: K, want: C, stored: V, cols: V -> C): Tx<K, V> {
    Write(id, (o: Option<V>) => if o.Some? && cols(o.value) == want then None else Some(stored))
  }

  datatype Change<K, V, C> =
    | Upsert(commit: nat, id: K, want: C, stored: V)
    | Remove(commit: nat, id: K)

  function TxOf<K(==), V, C(==)>(c: Change<K, V, C>, cols: V -> C): Stamped<K, V> {
    match c
    case Upsert(commit, id, want, stored) => At(commit, UpsertTx(id, want, stored, cols))
    case Remove(commit, id) => At(commit, Close((k: K, _: V) => k == id))
  }

  function Txs<K(==), V, C(==)>(changes: seq<Change<K, V, C>>, cols: V -> C): (run: seq<Stamped<K, V>>)
    ensures |run| == |changes|
  {
    if changes == [] then []
    else Txs(changes[..|changes| - 1], cols) + [TxOf(changes[|changes| - 1], cols)]
  }

  /** The map a reader of the compared columns has in mind: every sync overwrites. */
  function Overwrites<K, V, C>(changes: seq<Change<K, V, C>>, norm: C -> C, ts: nat): map<K, C> {
    if changes == [] then map[]
    else
      var before := Overwrites(changes[..|changes| - 1], norm, ts);
      var c := changes[|changes| - 1];
      if c.commit > ts then before
      else
        match c
        case Upsert(_, id, want, _) => before[id := norm(want)]
        case Remove(_, id) => before - {id}
  }

  ghost predicate Idempotent<C(!new)>(norm: C -> C) {
    forall c :: norm(norm(c)) == norm(c)
  }

  /** The handler stores the normal form of what it compares. */
  ghost predicate Normalising<K, V, C>(changes: seq<Change<K, V, C>>, cols: V -> C, norm: C -> C) {
    forall i :: 0 <= i < |changes| && changes[i].Upsert? ==> cols(changes[i].stored) == norm(changes[i].want)
  }

  function Columns<V, C>(o: Option<V>, cols: V -> C): Option<C> {
    match o
    case None => None
    case Some(v) => Some(cols(v))
  }

  /** On the compared columns the guarded upserts are plain overwrites, even though a sync that
      finds nothing changed writes nothing and the other columns may be stale. */
  lemma {:induction false} ColumnsAreOverwrites<K(!new), V, C(!new)>(changes: seq<Change<K, V, C>>, cols: V -> C, norm: C -> C, ts: nat)
    requires Idempotent(norm) && Normalising(changes, cols, norm)
    ensures forall id :: Columns(Get(Replay(Txs(changes, cols), ts), id), cols) == Get(Overwrites(changes, norm, ts), id)
    ensures forall id :: id in Overwrites(changes, norm, ts) ==>
              norm(Overwrites(changes, norm, ts)[id]) == Overwrites(changes, norm, ts)[id]
  {
    if changes != [] {
      var front, c := changes[..|changes| - 1], changes[|changes| - 1];
      ColumnsAreOverwrites(front, cols, norm, ts);
      assert Txs(changes, cols)[..|changes| - 1] == Txs(front, cols);
      var before, after := Replay(Txs(front, cols), ts), Replay(Txs(changes, cols), ts);
      forall id ensures Columns(Get(after, id), cols) == Get(Overwrites(changes, norm, ts), id) {
        assert Columns(Get(before, id), cols) == Get(Overwrites(front, norm, ts), id);
        assert Columns(Get(before, c.id), cols) == Get(Overwrites(front, norm, ts), c.id);
      }
    }
  }

  /** Refinement on the compared columns: the as-of query returns, at every instant, the value
      last synced by then in its stored form, or nothing after a removal. */
  lemma {:induction false} AsOfColumns<K(!new), V, C(!new)>(changes: seq<Change<K, V, C>>, cols: V -> C, norm: C -> C, id: K, ts: nat)
    requires Idempotent(norm) && Normalising(changes, cols, norm)
    requires Increasing(Txs(changes, cols))
    ensures var vs := AsOf(Rows(Txs(changes, cols)), id, ts);
            var o := Get(Overwrites(changes, norm, ts), id);
            |vs| <= 1 && Columns(First(vs), cols) == o
  {
    var run := Txs(changes, cols);
    AsOfIsReplay(run, ts);
    ColumnsAreOverwrites(changes, cols, norm, ts);
    assert AsOf(Rows(run), id, ts) == ToSeq(Get(Replay(run, ts), id));
  }

  /** Repeating an upsert writes nothing if and only if what is stored compares equal to what
      was asked for. The table is any in which `id` has at most one, normalised, active row. */
  lemma RepeatIsSilentIff<K(!new), V, C(!new)>(rows: seq<Row<K, V>>, now: int, id: K, want: C, stored: V,
                                               cols: V -> C, norm: C -> C, first: nat, again: nat)
    requires Timed(rows, now) && now < first < again
    requires Idempotent(norm) && cols(stored) == norm(want)
    requires |Active(rows, id)| <= 1
    requires forall v :: v in Active(rows, id) ==> norm(cols(v)) == cols(v)
    ensures var once := Commit(rows, At(first, UpsertTx(id, want, stored, cols)));
            Commit(once, At(again, UpsertTx(id, want, stored, cols))) == once <==> norm(want) == want
  {
    var tx := UpsertTx(id, want, stored, cols);
    var once := Commit(rows, At(first, tx));
    var cur := Active(rows, id);
    if cur != [] && cols(cur[0]) == want {
      assert cur[0] in cur;
    } else {
      var sel := (k: K, _: V) => k == id;
      var closed := CloseRows(rows, sel, first);
      CloseFuture(rows, sel, now, first, id, first);
      ActiveIsLatest(rows, now, id, first);
      assert forall vs: seq<V> :: Kept(vs, id, sel) == [] by {
        forall vs: seq<V> { KeptNone(vs, id, sel); }
      }
      CommitKeepsTimed(rows, now, At(first, tx));
      AsOfAppend(closed, Row(id, stored, first, None), id, first);
      assert once == closed + [Row(id, stored, first, None)];
      ActiveIsLatest(once, first, id, first);
      assert Active(once, id) == [stored];
    }
  }

  lemma {:induction false} KeptNone<K, V>(vs: seq<V>, id: K, sel: (K, V) -> bool)
    requires forall v :: sel(id, v)
    ensures Kept(vs, id, sel) == []
  {
    if vs != [] {
      KeptNone(vs[1..], id, sel);
    }
  }

  // ---------------------------------------------------------------- the statements the handlers run

  /** `one_or_none` on the active rows: legal because at most one is open. */
  method ReadActive<K(==), V>(rows: seq<Row<K, V>>, id: K) returns (row: Option<V>)
    requires |Active(rows, id)| <= 1
    ensures ToSeq(row) == Active(rows, id)
  {
    row := None;
    for i := 0 to |rows|
      invariant ToSeq(row) + Active(rows[i..], id) == Active(rows, id)
    {
      assert rows[i..][1..] == rows[i + 1..];
      if rows[i].id == id && rows[i].Open() {
        row := Some(rows[i].value);
      }
    }
  }

  /** The UPDATE statement: ends every selected open row at the commit timestamp. */
  method CloseWhere<K, V>(rows: seq<Row<K, V>>, sel: (K, V) -> bool, commit: nat) returns (out: seq<Row<K, V>>)
    ensures out == CloseRows(rows, sel, commit)
  {
    out := rows;
    for i := 0 to |rows|
      invariant |out| == |rows|
      invariant forall k :: 0 <= k < i ==> out[k] == CloseRow(rows[k], sel, commit)
      invariant forall k :: i <= k < |rows| ==> out[k] == rows[k]
    {
      if out[i].Open() && sel(out[i].id, out[i].value) {
        out := out[i := out[i].(end := Some(commit))];
      }
    }
  }

  /** Nothing is active, so closing changes nothing. */
  lemma {:induction false} CloseNothing<K, V>(rows: seq<Row<K, V>>, id: K, commit: nat)
    requires Active(rows, id) == []
    ensures CloseRows(rows, (k: K, _: V) => k == id, commit) == rows
  {
    if rows != [] {
      var sel := (k: K, _: V) => k == id;
      assert CloseRows(rows, sel, commit)[1..] == CloseRows(rows[1..], sel, commit);
      CloseNothing(rows[1..], id, commit);
      assert CloseRows(rows, sel, commit) == [CloseRow(rows[0], sel, commit)] + CloseRows(rows[1..], sel, commit);
    }
  }

  /** Closes the active row and inserts its replacement. */
  method ReplaceRow<K(==), V>(rows: seq<Row<K, V>>, id: K, v: V, ghost decide: Option<V> -> Option<V>, commit: nat)
    returns (out: seq<Row<K, V>>)
    requires decide(First(Active(rows, id))) == Some(v)
    ensures out == Commit(rows, At(commit, Write(id, decide)))
  {
    out := CloseWhere(rows, (k: K, _: V) => k == id, commit);
    out := out + [Row(id, v, commit, None)];
  }

  /** The body of one sync transaction: read, compare, maybe close, maybe insert. */
  method UpsertRows<K(==), V, C(==)>(rows: seq<Row<K, V>>, id: K, want: C, stored: V, cols: V -> C, commit: nat)
    returns (out: seq<Row<K, V>>)
    requires |Active(rows, id)| <= 1
    ensures out == Commit(rows, At(commit, UpsertTx(id, want, stored, cols)))
  {
    out := rows;
    var row := ReadActive(rows, id);
    var needInsert := true;
    if row.Some? {
      if cols(row.value) == want {
        needInsert := false;
      } else {
        out := CloseWhere(rows, (k: K, _: V) => k == id, commit);
      }
    } else {
      CloseNothing(rows, id, commit);
    }
    if needInsert {
      out := out + [Row(id, stored, commit, None)];
    }
  }

  /** A table with its last commit time and, as a ghost, the transactions committed so far. */
  class Table<K(==, !new), V> {
    var rows: seq<Row<K, V>>
    var now: int
    ghost var run: seq<Stamped<K, V>>

    ghost predicate Valid()
      reads this
    {
      Increasing(run) && now == Now(run) && rows == Rows(run)
    }

    constructor ()
      ensures Valid() && rows == [] && run == []
    {
      rows, now, run := [], -1, [];
    }

    /** One sync transaction (device, traffic flow, fault event, subnet, link, router). */
    method Upsert<C(==)>(id: K, want: C, stored: V, cols: V -> C, commit: nat)
      requires Valid() && now < commit
      modifies this
      ensures Valid() && now == commit
      ensures run == old(run) + [At(commit, UpsertTx(id, want, stored, cols))]
      ensures First(Active(old(rows), id)).None? || cols(First(Active(old(rows), id)).value) != want ==>
                rows == CloseRows(old(rows), (k: K, _: V) => k == id, commit) + [Row(id, stored, commit, None)]
      ensures First(Active(old(rows), id)).Some? && cols(First(Active(old(rows), id)).value) == want ==> rows == old(rows)
    {
      OneActive(run, id);
      rows := UpsertRows(rows, id, want, stored, cols, commit);
      now := commit;
      ghost var s := At(commit, UpsertTx(id, want, stored, cols));
      assert (run + [s])[..|run|] == run;
      run := run + [s];
    }

    /** One closing transaction: every open row of `id` ends at the commit. */
    method Remove(id: K, commit: nat)
      requires Valid() && now < commit
      modifies this
      ensures Valid() && now == commit
      ensures run == old(run) + [At(commit, Close((k: K, _: V) => k == id))]
    {
      rows := CloseWhere(rows, (k: K, _: V) => k == id, commit);
      now := commit;
      ghost var s: Stamped<K, V> := At(commit, Close((k: K, _: V) => k == id));
      assert (run + [s])[..|run|] == run;
      run := run + [s];
    }
  }
}
