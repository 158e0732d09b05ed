/** The two-pass filter that drops snapshots with a feature mean more than four standard
    deviations from the mean over all snapshots; deviations are compared squared. */
module OutlierFilter {
  import opened Common
  import opened Positions
  import opened Reals

  datatype NodeType = Router | Interface

  datatype Feature = Cpu | Mem | OspfRoutes | Prefixes | RxRate | TxRate | TxUtil | RxUtil | Mtu {
    function On(): NodeType {
      if Cpu? || Mem? || OspfRoutes? || Prefixes? then Router else Interface
    }
  }

  const FEATURES := [Cpu, Mem, OspfRoutes, Prefixes, RxRate, TxRate, TxUtil, RxUtil, Mtu]

  /** A node with the fields that are present and not null. */
  datatype Node = Node(kind: NodeType, fields: map<Feature, real>)

  datatype Snapshot = Snapshot(timestamp: int, nodes: seq<Node>)

  type Means = map<Feature, real>

  // ---------------------------------------------------------------- first pass

  function Sum(xs: seq<real>): real {
    if xs == [] then 0.0 else xs[0] + Sum(xs[1..])
  }

  function Mean(xs: seq<real>): real
    requires xs != []
  {
    Sum(xs) / |xs| as real
  }

  function Values(nodes: seq<Node>, f: Feature): seq<real> {
    if nodes == [] then []
    else if nodes[0].kind == f.On() && f in nodes[0].fields then [nodes[0].fields[f]] + Values(nodes[1..], f)
    else Values(nodes[1..], f)
  }

  function MeansOf(s: Snapshot): Means {
    map f: Feature | Values(s.nodes, f) != [] :: Mean(Values(s.nodes, f))
  }

  function AllMeans(snapshots: seq<Snapshot>): (all: seq<Means>)
    ensures |all| == |snapshots|
  {
    seq(|snapshots|, i requires 0 <= i < |snapshots| => MeansOf(snapshots[i]))
  }

  /** accum[f]: the means of the snapshots that have one. */
  function Column(all: seq<Means>, f: Feature): (xs: seq<real>)
    ensures |xs| <= |all|
  {
    if all == [] then []
    else if f in all[0] then [all[0][f]] + Column(all[1..], f)
    else Column(all[1..], f)
  }

  // ---------------------------------------------------------------- second pass

  function SquaredDeviations(xs: seq<real>, mu: real): real {
    if xs == [] then 0.0 else (xs[0] - mu) * (xs[0] - mu) + SquaredDeviations(xs[1..], mu)
  }

  datatype Stats = Stats(mu: real, variance: real)

  /** Population mean and variance, kept only for more than one value. */
  function StatsOf(xs: seq<real>): Option<Stats> {
    if |xs| <= 1 then None
    else Some(Stats(Mean(xs), SquaredDeviations(xs, Mean(xs)) / |xs| as real))
  }

  predicate SquareAtMost(s: real, n: real, q: real) {
    s * s <= n * q
  }

  /** sigma > 0 and abs(v - mu) / sigma > 4. */
  predicate Far(v: real, s: Stats) {
    s.variance > 0.0 && !SquareAtMost(v - s.mu, 16.0, s.variance)
  }

  function GlobalStats(all: seq<Means>): map<Feature, Stats> {
    map f: Feature | StatsOf(Column(all, f)).Some? :: StatsOf(Column(all, f)).value
  }

  predicate Flagged(m: Means, f: Feature, stats: map<Feature, Stats>) {
    f in m && f in stats && Far(m[f], stats[f])
  }

  predicate Bad(m: Means, stats: map<Feature, Stats>) {
    exists f: Feature :: Flagged(m, f, stats)
  }

  /** The snapshots whose means, listed alongside, raise no flag. */
  function Kept(snapshots: seq<Snapshot>, all: seq<Means>, stats: map<Feature, Stats>): (kept: seq<Snapshot>)
    requires |all| == |snapshots|
    ensures |kept| <= |snapshots|
  {
    if snapshots == [] then []
    else if Bad(all[0], stats) then Kept(snapshots[1..], all[1..], stats)
    else [snapshots[0]] + Kept(snapshots[1..], all[1..], stats)
  }

  function Filtered(snapshots: seq<Snapshot>): seq<Snapshot> {
    Kept(snapshots, AllMeans(snapshots), GlobalStats(AllMeans(snapshots)))
  }

  // ---------------------------------------------------------------- how many values can be far out

  function CountFar(xs: seq<real>, s: Stats): nat {
    if xs == [] then 0 else (if Far(xs[0], s) then 1 else 0) + CountFar(xs[1..], s)
  }

  lemma {:induction false} DeviationsNonNegative(xs: seq<real>, mu: real)
    ensures SquaredDeviations(xs, mu) >= 0.0
  {
    if xs != [] {
      DeviationsNonNegative(xs[1..], mu);
      Square(xs[0] - mu);
    }
  }

  /** n shares fit into the total, with something left over when there are any. */
  predicate Fit(n: real, share: real, total: real) {
    n * share <= total && (n > 0.0 ==> n * share < total)
  }

  lemma FitOneMore(n: real, share: real, rest: real, own: real)
    requires n >= 0.0 && Fit(n, share, rest) && share < own
    ensures Fit(1.0 + n, share, own + rest)
  {
    Distribute(1.0, n, share);
  }

  lemma FitMore(n: real, share: real, rest: real, own: real)
    requires Fit(n, share, rest) && own >= 0.0
    ensures Fit(n, share, own + rest)
  {
  }

  /** Each far value takes more than 16 variances of the total. */
  lemma {:induction false} FarTakesShare(xs: seq<real>, s: Stats, share: real)
    requires s.variance > 0.0 && share == 16.0 * s.variance
    ensures Fit(CountFar(xs, s) as real, share, SquaredDeviations(xs, s.mu))
  {
    if xs != [] {
      var n, rest, own := CountFar(xs[1..], s), SquaredDeviations(xs[1..], s.mu), (xs[0] - s.mu) * (xs[0] - s.mu);
      FarTakesShare(xs[1..], s, share);
      Square(xs[0] - s.mu);
      assert SquaredDeviations(xs, s.mu) == own + rest;
      if Far(xs[0], s) {
        assert CountFar(xs, s) as real == 1.0 + n as real;
        FitOneMore(n as real, share, rest, own);
      } else {
        FitMore(n as real, share, rest, own);
      }
    }
  }

  /** The only place where the division in the definition of mean and variance matters. */
  lemma StatsFacts(xs: seq<real>)
    requires |xs| > 1
    ensures var s := StatsOf(xs).value;
            Describes(xs, s)
  {
    Quotient(Sum(xs), |xs| as real);
    Quotient(SquaredDeviations(xs, Mean(xs)), |xs| as real);
  }

  predicate Describes(xs: seq<real>, s: Stats) {
    |xs| as real * s.mu == Sum(xs) && |xs| as real * s.variance == SquaredDeviations(xs, s.mu)
  }

  /** Fewer than one value in sixteen is more than four standard deviations out. */
  lemma FewAreFar(xs: seq<real>, s: Stats, share: real)
    requires |xs| as real * s.variance == SquaredDeviations(xs, s.mu) && share == 16.0 * s.variance
    requires CountFar(xs, s) > 0
    ensures 16 * CountFar(xs, s) < |xs|
  {
    SomeFar(xs, s);
    FarTakesShare(xs, s, share);
    ShareBound(CountFar(xs, s) as real, |xs| as real, s.variance, share, SquaredDeviations(xs, s.mu));
  }

  lemma ShareBound(k: real, n: real, variance: real, share: real, total: real)
    requires variance > 0.0 && share == 16.0 * variance && k > 0.0 && Fit(k, share, total) && n * variance == total
    ensures 16.0 * k < n
  {
    assert k * share == (16.0 * k) * variance by {
      Associate(k, 16.0, variance);
    }
    CancelStrictly(16.0 * k, n, variance);
  }

  lemma {:induction false} SomeFar(xs: seq<real>, s: Stats)
    requires CountFar(xs, s) > 0
    ensures s.variance > 0.0
  {
    if !Far(xs[0], s) {
      SomeFar(xs[1..], s);
    }
  }

  // ---------------------------------------------------------------- small samples (Samuelson's inequality)

  function DeviationSum(xs: seq<real>, mu: real): real {
    if xs == [] then 0.0 else (xs[0] - mu) + DeviationSum(xs[1..], mu)
  }

  lemma {:induction false} DeviationSumIs(xs: seq<real>, mu: real)
    ensures DeviationSum(xs, mu) == Sum(xs) - |xs| as real * mu
  {
    if xs != [] {
      DeviationSumIs(xs[1..], mu);
      Distribute(|xs[1..]| as real, 1.0, mu);
    }
  }

  /** The square of a sum of n deviations is at most n times the sum of their squares. */
  lemma {:induction false} SumOfDeviations(xs: seq<real>, mu: real)
    ensures SquareAtMost(DeviationSum(xs, mu), |xs| as real, SquaredDeviations(xs, mu))
  {
    if xs != [] {
      var s, a, m, q := DeviationSum(xs[1..], mu), xs[0] - mu, |xs[1..]| as real, SquaredDeviations(xs[1..], mu);
      SumOfDeviations(xs[1..], mu);
      DeviationsNonNegative(xs[1..], mu);
      CauchyStep(s, a, m, q);
      assert DeviationSum(xs, mu) == a + s && |xs| as real == m + 1.0 && SquaredDeviations(xs, mu) == a * a + q;
    }
  }

  lemma CauchyStep(s: real, a: real, m: real, q: real)
    requires SquareAtMost(s, m, q) && (m >= 1.0 || (m == 0.0 && s == 0.0 && q >= 0.0))
    ensures SquareAtMost(a + s, m + 1.0, a * a + q)
  {
    Binomial(a, s);
    Distribute(m, 1.0, a * a + q);
    Distribute(a * a, q, m);
    if m >= 1.0 {
      CrossTerm(s, a, m, q);
      assert a * s == s * a;
    }
  }

  /** 2 s a <= q + m a^2, because (s - m a)^2 is not negative. */
  lemma CrossTerm(s: real, a: real, m: real, q: real)
    requires m >= 1.0 && s * s <= m * q
    ensures 2.0 * (s * a) <= q + m * (a * a)
  {
    var b := -m * a;
    Square(s + b);
    Binomial(s, b);
    assert s * b == -(m * (s * a)) by {
      Associate(s, -m, a);
    }
    assert b * b == m * (m * (a * a)) by {
      Associate(m * a, m, a);
      Associate(m, a, a);
    }
    Distribute(q, m * (a * a), m);
    assert m * (2.0 * (s * a)) == 2.0 * (m * (s * a));
    Cancel(2.0 * (s * a), q + m * (a * a), m);
  }

  lemma {:induction false} DroppedSums(xs: seq<real>, i: nat, mu: real, d: real)
    requires i < |xs| && d == xs[i] - mu
    ensures DeviationSum(xs, mu) == d + DeviationSum(Dropped(xs, i), mu)
    ensures SquaredDeviations(xs, mu) == d * d + SquaredDeviations(Dropped(xs, i), mu)
    decreases i
  {
    if i > 0 {
      DroppedSums(xs[1..], i - 1, mu, d);
    }
  }

  /** No value of a sample is further from the mean than sqrt(n - 1) standard deviations. */
  lemma Samuelson(xs: seq<real>, s: Stats, i: nat)
    requires Describes(xs, s) && i < |xs|
    ensures SquareAtMost(xs[i] - s.mu, |xs| as real - 1.0, s.variance)
  {
    DeviationSumIs(xs, s.mu);
    SamuelsonAt(xs, s.mu, s.variance, i, xs[i] - s.mu);
  }

  lemma SamuelsonAt(xs: seq<real>, mu: real, variance: real, i: nat, d: real)
    requires i < |xs| && d == xs[i] - mu
    requires DeviationSum(xs, mu) == 0.0 && |xs| as real * variance == SquaredDeviations(xs, mu)
    ensures SquareAtMost(d, |xs| as real - 1.0, variance)
  {
    var rest := Dropped(xs, i);
    DroppedSums(xs, i, mu, d);
    SumOfDeviations(rest, mu);
    SamuelsonStep(d, DeviationSum(rest, mu), |rest| as real, |xs| as real,
                  SquaredDeviations(rest, mu), SquaredDeviations(xs, mu), variance);
  }

  lemma SamuelsonStep(d: real, s: real, m: real, n: real, q: real, deviations: real, variance: real)
    requires n == m + 1.0 && n > 0.0 && d + s == 0.0 && deviations == d * d + q && n * variance == deviations
    requires SquareAtMost(s, m, q)
    ensures SquareAtMost(d, n - 1.0, variance)
  {
    assert s * s == d * d by {
      assert s == -d;
      assert (-d) * (-d) == d * d;
    }
    LargestShare(d * d, q, n, variance);
  }

  lemma LargestShare(d2: real, q: real, n: real, variance: real)
    requires n > 0.0 && d2 <= (n - 1.0) * q && n * variance == d2 + q
    ensures d2 <= (n - 1.0) * variance
  {
    Distribute(n - 1.0, 1.0, d2);
    Distribute(d2, q, n - 1.0);
    Associate(n - 1.0, n, variance);
    Cancel(d2, (n - 1.0) * variance, n);
  }

  // ---------------------------------------------------------------- what the filter drops

  lemma {:induction false} ColumnHas(all: seq<Means>, i: nat, f: Feature) returns (k: nat)
    requires i < |all| && f in all[i]
    ensures k < |Column(all, f)| && Column(all, f)[k] == all[i][f]
  {
    if i == 0 {
      k := 0;
    } else {
      k := ColumnHas(all[1..], i - 1, f);
      if f in all[0] {
        k := k + 1;
      }
    }
  }

  lemma FarValueNeedsMany(all: seq<Means>, i: nat, f: Feature)
    requires i < |all| && Flagged(all[i], f, GlobalStats(all))
    ensures |Column(all, f)| > 17
  {
    var k := ColumnHas(all, i, f);
    StatsFacts(Column(all, f));
    FarNeedsMany(Column(all, f), GlobalStats(all)[f], k);
  }

  lemma FarNeedsMany(xs: seq<real>, s: Stats, k: nat)
    requires Describes(xs, s) && k < |xs| && Far(xs[k], s)
    ensures |xs| > 17
  {
    Samuelson(xs, s, k);
    FarBeyond(xs[k], s, |xs| as real);
  }

  lemma FarBeyond(x: real, s: Stats, n: real)
    requires Far(x, s) && SquareAtMost(x - s.mu, n - 1.0, s.variance)
    ensures n > 17.0
  {
    var d2 := (x - s.mu) * (x - s.mu);
    assert 16.0 * s.variance < d2 <= (n - 1.0) * s.variance;
    CancelStrictly(16.0, n - 1.0, s.variance);
  }

  lemma {:induction false} KeptAll(snapshots: seq<Snapshot>, all: seq<Means>, stats: map<Feature, Stats>)
    requires |all| == |snapshots| && forall i | 0 <= i < |all| :: !Bad(all[i], stats)
    ensures Kept(snapshots, all, stats) == snapshots
  {
    if snapshots != [] {
      assert forall i | 0 <= i < |all| - 1 :: all[1..][i] == all[i + 1];
      KeptAll(snapshots[1..], all[1..], stats);
      assert snapshots == [snapshots[0]] + snapshots[1..];
    }
  }

  /** With at most 17 snapshots nothing is ever dropped. */
  lemma SmallSetsStayWhole(snapshots: seq<Snapshot>)
    requires |snapshots| <= 17
    ensures Filtered(snapshots) == snapshots
  {
    var all := AllMeans(snapshots);
    NothingBad(all);
    KeptAll(snapshots, all, GlobalStats(all));
  }

  lemma NothingBad(all: seq<Means>)
    requires |all| <= 17
    ensures forall i | 0 <= i < |all| :: !Bad(all[i], GlobalStats(all))
  {
    forall i, f: Feature | 0 <= i < |all| ensures !Flagged(all[i], f, GlobalStats(all)) {
      if Flagged(all[i], f, GlobalStats(all)) {
        FarValueNeedsMany(all, i, f);
      }
    }
  }

  function CountFlagged(all: seq<Means>, f: Feature, stats: map<Feature, Stats>): nat {
    if all == [] then 0 else (if Flagged(all[0], f, stats) then 1 else 0) + CountFlagged(all[1..], f, stats)
  }

  lemma {:induction false} CountFlaggedIsFar(all: seq<Means>, f: Feature, stats: map<Feature, Stats>)
    requires f in stats
    ensures CountFlagged(all, f, stats) == CountFar(Column(all, f), stats[f])
  {
    if all != [] {
      CountFlaggedIsFar(all[1..], f, stats);
      if f in all[0] {
        assert Column(all, f)[1..] == Column(all[1..], f);
      }
    }
  }

  lemma {:induction false} CountFlaggedNone(all: seq<Means>, f: Feature, stats: map<Feature, Stats>)
    requires f !in stats
    ensures CountFlagged(all, f, stats) == 0
  {
    if all != [] {
      CountFlaggedNone(all[1..], f, stats);
    }
  }

  lemma FewInColumn(xs: seq<real>)
    requires |xs| > 1
    ensures 16 * CountFar(xs, StatsOf(xs).value) < |xs|
  {
    var s := StatsOf(xs).value;
    StatsFacts(xs);
    if CountFar(xs, s) > 0 {
      FewAreFar(xs, s, 16.0 * s.variance);
    }
  }

  /** Each feature flags fewer than one snapshot in sixteen. */
  lemma EachFeatureFlagsFew(all: seq<Means>, f: Feature)
    requires all != []
    ensures 16 * CountFlagged(all, f, GlobalStats(all)) < |all|
  {
    var stats := GlobalStats(all);
    if f in stats {
      CountFlaggedIsFar(all, f, stats);
      FewInColumn(Column(all, f));
    } else {
      CountFlaggedNone(all, f, stats);
    }
  }

  function Total(all: seq<Means>, stats: map<Feature, Stats>): nat {
    CountFlagged(all, Cpu, stats) + CountFlagged(all, Mem, stats) + CountFlagged(all, OspfRoutes, stats)
    + CountFlagged(all, Prefixes, stats) + CountFlagged(all, RxRate, stats) + CountFlagged(all, TxRate, stats)
    + CountFlagged(all, TxUtil, stats) + CountFlagged(all, RxUtil, stats) + CountFlagged(all, Mtu, stats)
  }

  lemma FlagCounts(all: seq<Means>, stats: map<Feature, Stats>)
    requires all != []
    ensures Total(all, stats) >= Total(all[1..], stats) + (if Bad(all[0], stats) then 1 else 0)
  {
    forall f: Feature ensures CountFlagged(all, f, stats) == (if Flagged(all[0], f, stats) then 1 else 0) + CountFlagged(all[1..], f, stats) {
    }
    if f: Feature :| Flagged(all[0], f, stats) {
      EveryFeatureListed(f);
    }
  }

  lemma {:induction false} DroppedAtMostTotal(snapshots: seq<Snapshot>, all: seq<Means>, stats: map<Feature, Stats>)
    requires |all| == |snapshots|
    ensures |snapshots| - |Kept(snapshots, all, stats)| <= Total(all, stats)
  {
    if snapshots != [] {
      DroppedAtMostTotal(snapshots[1..], all[1..], stats);
      FlagCounts(all, stats);
    }
  }

  /** Over its nine features the filter always keeps more than 7/16 of the snapshots. */
  lemma MostSnapshotsStay(snapshots: seq<Snapshot>)
    requires snapshots != []
    ensures 16 * |Filtered(snapshots)| > 7 * |snapshots|
  {
    var all := AllMeans(snapshots);
    DroppedAtMostTotal(snapshots, all, GlobalStats(all));
    TotalIsSmall(all);
  }

  lemma TotalIsSmall(all: seq<Means>)
    requires all != []
    ensures 16 * Total(all, GlobalStats(all)) < 9 * |all|
  {
    forall f: Feature ensures 16 * CountFlagged(all, f, GlobalStats(all)) < |all| {
      EachFeatureFlagsFew(all, f);
    }
  }

  ghost function NotBad(all: seq<Means>, stats: map<Feature, Stats>): nat -> bool {
    (i: nat) => i < |all| && !Bad(all[i], stats)
  }

  lemma {:induction false} KeptSelects(snapshots: seq<Snapshot>, all: seq<Means>, stats: map<Feature, Stats>, from: nat) returns (at: seq<nat>)
    requires |all| == |snapshots| && from <= |snapshots|
    ensures Selects(snapshots, from, Kept(snapshots[from..], all[from..], stats), NotBad(all, stats), at)
    decreases |snapshots| - from
  {
    if from == |snapshots| {
      at := [];
    } else {
      var good, rest := NotBad(all, stats), Kept(snapshots[from + 1..], all[from + 1..], stats);
      at := KeptSelects(snapshots, all, stats, from + 1);
      assert snapshots[from..][0] == snapshots[from] && snapshots[from..][1..] == snapshots[from + 1..];
      assert all[from..][0] == all[from] && all[from..][1..] == all[from + 1..];
      if good(from) {
        SelectsOneMore(snapshots, from, rest, good, at, Kept(snapshots[from..], all[from..], stats), [from] + at);
        at := [from] + at;
      } else {
        SelectsNoMore(snapshots, from, rest, good, at);
      }
    }
  }

  /** What is kept is an order-preserving subsequence: exactly the snapshots that are not flagged. */
  lemma FilteredIsSubsequence(snapshots: seq<Snapshot>) returns (at: seq<nat>)
    ensures var all := AllMeans(snapshots);
            Selects(snapshots, 0, Filtered(snapshots), NotBad(all, GlobalStats(all)), at)
  {
    var all := AllMeans(snapshots);
    at := KeptSelects(snapshots, all, GlobalStats(all), 0);
    assert snapshots[0..] == snapshots && all[0..] == all;
  }

  // ---------------------------------------------------------------- the loops

  function Collected(accum: map<Feature, seq<real>>, f: Feature): seq<real> {
    if f in accum then accum[f] else []
  }

  function Index(f: Feature): nat {
    match f
    case Cpu => 0
    case Mem => 1
    case OspfRoutes => 2
    case Prefixes => 3
    case RxRate => 4
    case TxRate => 5
    case TxUtil => 6
    case RxUtil => 7
    case Mtu => 8
  }

  lemma IndexedBy(f: Feature, i: nat)
    requires i < 9
    ensures Index(f) < 9 && (FEATURES[i] == f <==> Index(f) == i)
  {
  }

  /** accum[f].append(m[f]) for every feature of one snapshot. */
  method AppendMeans(accum: map<Feature, seq<real>>, m: Means) returns (after: map<Feature, seq<real>>)
    ensures forall f: Feature :: Collected(after, f) == Collected(accum, f) + (if f in m then [m[f]] else [])
  {
    after := accum;
    for i := 0 to 9
      invariant forall f: Feature ::
                  Collected(after, f) == Collected(accum, f) + (if f in m && Index(f) < i then [m[f]] else [])
    {
      var g := FEATURES[i];
      forall f: Feature {
        IndexedBy(f, i);
      }
      if g in m {
        after := after[g := Collected(after, g) + [m[g]]];
      }
    }
    forall f: Feature {
      IndexedBy(f, 0);
    }
  }

  method ColumnMeans(all: seq<Means>) returns (accum: map<Feature, seq<real>>)
    ensures forall f: Feature :: Collected(accum, f) == Column(all, f)
  {
    accum := map[];
    var rest := all;
    while rest != []
      invariant forall f: Feature :: Collected(accum, f) + Column(rest, f) == Column(all, f)
    {
      ghost var before := accum;
      accum := AppendMeans(accum, rest[0]);
      forall f: Feature ensures Collected(accum, f) + Column(rest[1..], f) == Column(all, f) {
        ColumnNext(Collected(before, f), rest, f);
      }
      rest := rest[1..];
    }
  }

  lemma ColumnNext(done: seq<real>, rest: seq<Means>, f: Feature)
    requires rest != []
    ensures (done + if f in rest[0] then [rest[0][f]] else []) + Column(rest[1..], f) == done + Column(rest, f)
  {
    if f in rest[0] {
      var x, column := rest[0][f], Column(rest[1..], f);
      assert (done + [x]) + column == done + ([x] + column);
    } else {
      assert done + [] == done;
    }
  }

  /** The scan over one snapshot's means, broken off at the first flag. */
  method IsBad(m: Means, stats: map<Feature, Stats>) returns (bad: bool)
    ensures bad <==> Bad(m, stats)
  {
    for i := 0 to |FEATURES|
      invariant forall k | 0 <= k < i :: !Flagged(m, FEATURES[k], stats)
    {
      if Flagged(m, FEATURES[i], stats) {
        return true;
      }
    }
    forall f: Feature ensures !Flagged(m, f, stats) {
      EveryFeatureListed(f);
    }
    return false;
  }

  /** The second pass over the snapshots and their means. */
  method Drop(snapshots: seq<Snapshot>, all: seq<Means>, stats: map<Feature, Stats>) returns (filtered: seq<Snapshot>, dropped: nat)
    requires |all| == |snapshots|
    ensures filtered == Kept(snapshots, all, stats) && dropped == |snapshots| - |filtered|
  {
    filtered, dropped := [], 0;
    var snaps, means := snapshots, all;
    while snaps != []
      invariant |snaps| == |means|
      invariant filtered + Kept(snaps, means, stats) == Kept(snapshots, all, stats)
      invariant dropped + |filtered| + |snaps| == |snapshots|
    {
      var bad := IsBad(means[0], stats);
      KeepStep(filtered, snaps, means, stats);
      if bad {
        dropped := dropped + 1;
      } else {
        filtered := filtered + [snaps[0]];
      }
      snaps, means := snaps[1..], means[1..];
    }
    assert filtered + [] == filtered;
  }

  lemma KeepStep(filtered: seq<Snapshot>, snaps: seq<Snapshot>, means: seq<Means>, stats: map<Feature, Stats>)
    requires |snaps| == |means| && snaps != []
    ensures (if Bad(means[0], stats) then filtered else filtered + [snaps[0]]) + Kept(snaps[1..], means[1..], stats)
            == filtered + Kept(snaps, means, stats)
  {
    var rest := Kept(snaps[1..], means[1..], stats);
    assert (filtered + [snaps[0]]) + rest == filtered + ([snaps[0]] + rest);
  }

  lemma EveryFeatureListed(f: Feature)
    ensures f in FEATURES
  {
    assert FEATURES[0] == Cpu && FEATURES[1] == Mem && FEATURES[2] == OspfRoutes && FEATURES[3] == Prefixes
        && FEATURES[4] == RxRate && FEATURES[5] == TxRate && FEATURES[6] == TxUtil && FEATURES[7] == RxUtil && FEATURES[8] == Mtu;
  }

  method FilterSnapshots(snapshots: seq<Snapshot>) returns (filtered: seq<Snapshot>, dropped: nat)
    ensures filtered == Filtered(snapshots)
    ensures dropped == |snapshots| - |filtered|
    ensures |snapshots| <= 17 ==> filtered == snapshots
    ensures snapshots != [] ==> 16 * |filtered| > 7 * |snapshots|
  {
    var all := AllMeans(snapshots);
    var accum := ColumnMeans(all);
    var stats := map f: Feature | StatsOf(Collected(accum, f)).Some? :: StatsOf(Collected(accum, f)).value;
    assert stats == GlobalStats(all);
    filtered, dropped := Drop(snapshots, all, stats);
    if |snapshots| <= 17 {
      SmallSetsStayWhole(snapshots);
    }
    if snapshots != [] {
      MostSnapshotsStay(snapshots);
    }
  }
}
