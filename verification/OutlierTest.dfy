/** The filter's test in terms of standard deviations: what it drops, and from how many snapshots on. */
module OutlierTest {
  import opened Common
  import opened Positions
  import opened Reals
  import opened OutlierFilter

  // ---------------------------------------------------------------- what is averaged

  /** Node i has the feature and is of the feature's type. */
  ghost function Counted(nodes: seq<Node>, f: Feature): nat -> bool {
    (i: nat) =>
      && i < |nodes| && f in nodes[i].fields
      && nodes[i].kind == if f in {Cpu, Mem, OspfRoutes, Prefixes} then Router else Interface
  }

  /** Each node's value, wherever it has one. */
  ghost predicate ValueOfEach(nodes: seq<Node>, f: Feature, xs: seq<real>) {
    |xs| == |nodes| && forall i | 0 <= i < |nodes| && f in nodes[i].fields :: xs[i] == nodes[i].fields[f]
  }

  /** The values that enter the mean of a feature are those of its nodes, in order. */
  lemma {:induction false} ValuesAre(nodes: seq<Node>, from: nat, f: Feature, xs: seq<real>) returns (at: seq<nat>)
    requires from <= |nodes| && ValueOfEach(nodes, f, xs)
    ensures Selects(xs, from, Values(nodes[from..], f), Counted(nodes, f), at)
    decreases |nodes| - from
  {
    if from == |nodes| {
      at := [];
    } else {
      var good, rest := Counted(nodes, f), Values(nodes[from + 1..], f);
      at := ValuesAre(nodes, from + 1, f, xs);
      assert nodes[from..][0] == nodes[from] && nodes[from..][1..] == nodes[from + 1..];
      if good(from) {
        SelectsOneMore(xs, from, rest, good, at, Values(nodes[from..], f), [from] + at);
        at := [from] + at;
      } else {
        SelectsNoMore(xs, from, rest, good, at);
      }
    }
  }

  /** The value at i enters the column of a feature. */
  ghost function Has(all: seq<Means>, f: Feature): nat -> bool {
    (i: nat) => i < |all| && f in all[i]
  }

  /** The column of a feature is the means of the snapshots that have one, in order. */
  lemma {:induction false} ColumnIs(all: seq<Means>, from: nat, f: Feature, xs: seq<real>) returns (at: seq<nat>)
    requires from <= |all| == |xs| && forall i | 0 <= i < |all| && f in all[i] :: xs[i] == all[i][f]
    ensures Selects(xs, from, Column(all[from..], f), Has(all, f), at)
    decreases |all| - from
  {
    if from == |all| {
      at := [];
    } else {
      var good, rest := Has(all, f), Column(all[from + 1..], f);
      at := ColumnIs(all, from + 1, f, xs);
      assert all[from..][0] == all[from] && all[from..][1..] == all[from + 1..];
      if good(from) {
        SelectsOneMore(xs, from, rest, good, at, Column(all[from..], f), [from] + at);
        at := [from] + at;
      } else {
        SelectsNoMore(xs, from, rest, good, at);
      }
    }
  }

  lemma NoneCounted(s: Snapshot, f: Feature)
    ensures Values(s.nodes, f) == [] <==> forall i: nat :: !Counted(s.nodes, f)(i)
  {
    var xs := seq(|s.nodes|, i requires 0 <= i < |s.nodes| => if f in s.nodes[i].fields then s.nodes[i].fields[f] else 0.0);
    assert s.nodes[0..] == s.nodes;
    var at := ValuesAre(s.nodes, 0, f, xs);
    assert at != [] ==> at[0] in at;
  }

  /** A snapshot has a mean of a feature if and only if some node counts: that of the values that count. */
  lemma HasMeanIff(s: Snapshot, f: Feature)
    ensures f in MeansOf(s) <==> exists i: nat :: Counted(s.nodes, f)(i)
    ensures f in MeansOf(s) ==> Values(s.nodes, f) != [] && MeansOf(s)[f] == Mean(Values(s.nodes, f))
  {
    NoneCounted(s, f);
  }

  /** A mean times the number of values is their sum. */
  lemma MeanIs(xs: seq<real>)
    requires xs != []
    ensures |xs| as real * Mean(xs) == Sum(xs)
  {
    Quotient(Sum(xs), |xs| as real);
  }

  /** A sum grows by its last term. */
  lemma {:induction false} SumGrows(xs: seq<real>, more: seq<real>, x: real)
    requires more == xs + [x]
    ensures Sum([]) == 0.0 && Sum(more) == Sum(xs) + x
  {
    if xs == [] {
      assert more == [x] && [x][1..] == [];
    } else {
      SumGrows(xs[1..], more[1..], x);
    }
  }

  /** The sum of the squared deviations grows by the square of the last. */
  lemma {:induction false} DeviationsGrow(xs: seq<real>, more: seq<real>, x: real, mu: real, square: real)
    requires more == xs + [x] && square == (x - mu) * (x - mu)
    ensures SquaredDeviations([], mu) == 0.0 && SquaredDeviations(more, mu) == SquaredDeviations(xs, mu) + square
  {
    if xs == [] {
      assert more == [x] && [x][1..] == [];
    } else {
      DeviationsGrow(xs[1..], more[1..], x, mu, square);
    }
  }

  // ---------------------------------------------------------------- four standard deviations

  /** Products are named, so that the caller's terms match. */
  lemma Positive(a: real, b: real, p: real)
    requires a > 0.0 && b > 0.0 && p == a * b
    ensures p > 0.0
  {
  }

  lemma SquareGrows(a: real, b: real)
    requires a > b >= 0.0
    ensures a * a > b * b
  {
    assert a * a - b * b == (a - b) * (a + b);
    ProductPositive(a - b, a + b);
  }

  lemma Squares(a: real, b: real)
    requires a >= 0.0 && b >= 0.0
    ensures a * a > b * b <==> a > b
  {
    if a > b {
      SquareGrows(a, b);
    } else if b > a {
      SquareGrows(b, a);
    }
  }

  lemma Opposite(d: real)
    ensures (-d) * (-d) == d * d
  {
  }

  lemma BeyondFour(d: real, sigma: real, variance: real)
    requires sigma > 0.0 && sigma * sigma == variance
    ensures !SquareAtMost(d, 16.0, variance) <==> d > 4.0 * sigma || -d > 4.0 * sigma
  {
    var size := if d >= 0.0 then d else -d;
    Opposite(d);
    Squares(size, 4.0 * sigma);
    assert size * size == d * d;
    assert (4.0 * sigma) * (4.0 * sigma) == 16.0 * variance by {
      Associate(4.0 * sigma, 4.0, sigma);
      Associate(4.0, 4.0, sigma);
      Associate(16.0, sigma, sigma);
    }
  }

  /** A value is far out if and only if it is more than four standard deviations from the mean. */
  lemma FarIff(v: real, s: Stats, sigma: real)
    requires sigma > 0.0 && sigma * sigma == s.variance
    ensures Far(v, s) <==> v - s.mu > 4.0 * sigma || s.mu - v > 4.0 * sigma
  {
    Positive(sigma, sigma, s.variance);
    BeyondFour(v - s.mu, sigma, s.variance);
  }

  /** Without spread nothing is far out. */
  lemma NoSpread(v: real, s: Stats)
    requires s.variance == 0.0
    ensures !Far(v, s)
  {
  }

  // ---------------------------------------------------------------- what stays

  /** mu and sigma are mean and population standard deviation of the values. */
  ghost predicate Moments(xs: seq<real>, mu: real, sigma: real) {
    && |xs| as real * mu == Sum(xs)
    && sigma >= 0.0
    && |xs| as real * (sigma * sigma) == SquaredDeviations(xs, mu)
  }

  /** The means and deviations of the features that more than one snapshot has. */
  ghost predicate AllMoments(snapshots: seq<Snapshot>, mu: Feature -> real, sigma: Feature -> real) {
    forall f: Feature | |Column(AllMeans(snapshots), f)| > 1 :: Moments(Column(AllMeans(snapshots), f), mu(f), sigma(f))
  }

  /** The feature has a mean in the snapshot, and that is more than four deviations out. */
  ghost predicate OutOn(snapshots: seq<Snapshot>, i: nat, f: Feature, mu: real, sigma: real)
    requires i < |snapshots|
  {
    && f in MeansOf(snapshots[i]) && |Column(AllMeans(snapshots), f)| > 1 && sigma > 0.0
    && (MeansOf(snapshots[i])[f] - mu > 4.0 * sigma || mu - MeansOf(snapshots[i])[f] > 4.0 * sigma)
  }

  /** Some feature mean of the snapshot is more than four deviations out. */
  ghost predicate Outlying(snapshots: seq<Snapshot>, i: nat, mu: Feature -> real, sigma: Feature -> real)
    requires i < |snapshots|
  {
    exists f: Feature :: OutOn(snapshots, i, f, mu(f), sigma(f))
  }

  lemma Same(n: real, a: real, b: real)
    requires n > 0.0 && n * a == n * b
    ensures a == b
  {
    Cancel(a, b, n);
    Cancel(b, a, n);
  }

  lemma MomentsAreStats(xs: seq<real>, mu: real, sigma: real)
    requires |xs| > 1 && Moments(xs, mu, sigma)
    ensures StatsOf(xs) == Some(Stats(mu, sigma * sigma))
  {
    StatsFacts(xs);
    var s := StatsOf(xs).value;
    Same(|xs| as real, s.mu, mu);
    Same(|xs| as real, s.variance, sigma * sigma);
  }

  lemma FlaggedIff(snapshots: seq<Snapshot>, i: nat, f: Feature, mu: real, sigma: real)
    requires i < |snapshots| && (|Column(AllMeans(snapshots), f)| > 1 ==> Moments(Column(AllMeans(snapshots), f), mu, sigma))
    ensures Flagged(AllMeans(snapshots)[i], f, GlobalStats(AllMeans(snapshots))) <==> OutOn(snapshots, i, f, mu, sigma)
  {
    var xs := Column(AllMeans(snapshots), f);
    if f in MeansOf(snapshots[i]) && |xs| > 1 {
      MomentsAreStats(xs, mu, sigma);
      if sigma > 0.0 {
        FarIff(MeansOf(snapshots[i])[f], Stats(mu, sigma * sigma), sigma);
      } else {
        NoSpread(MeansOf(snapshots[i])[f], Stats(mu, sigma * sigma));
      }
    }
  }

  lemma BadIff(snapshots: seq<Snapshot>, i: nat, mu: Feature -> real, sigma: Feature -> real)
    requires i < |snapshots| && AllMoments(snapshots, mu, sigma)
    ensures Bad(AllMeans(snapshots)[i], GlobalStats(AllMeans(snapshots))) <==> Outlying(snapshots, i, mu, sigma)
  {
    forall f: Feature
      ensures Flagged(AllMeans(snapshots)[i], f, GlobalStats(AllMeans(snapshots))) <==> OutOn(snapshots, i, f, mu(f), sigma(f))
    {
      FlaggedIff(snapshots, i, f, mu(f), sigma(f));
    }
  }

  ghost function Stays(snapshots: seq<Snapshot>, mu: Feature -> real, sigma: Feature -> real): nat -> bool {
    (i: nat) => i < |snapshots| && !Outlying(snapshots, i, mu, sigma)
  }

  /** What stays, in order, is exactly the snapshots of which no feature mean is more than four
      standard deviations from the mean over all snapshots. */
  lemma FilteredIs(snapshots: seq<Snapshot>, mu: Feature -> real, sigma: Feature -> real) returns (at: seq<nat>)
    requires AllMoments(snapshots, mu, sigma)
    ensures Selects(snapshots, 0, Filtered(snapshots), Stays(snapshots, mu, sigma), at)
  {
    var all := AllMeans(snapshots);
    at := FilteredIsSubsequence(snapshots);
    forall i: nat ensures NotBad(all, GlobalStats(all))(i) == Stays(snapshots, mu, sigma)(i) {
      if i < |snapshots| {
        BadIff(snapshots, i, mu, sigma);
      }
    }
  }

  // ---------------------------------------------------------------- seventeen is tight

  /** n snapshots of one router each; its cpu is 1 in the last and 0 before. */
  function Spike(n: nat): (snapshots: seq<Snapshot>)
    ensures |snapshots| == n
  {
    seq(n, i requires 0 <= i < n => Snapshot(i, [Node(Router, map[Cpu := if i == n - 1 then 1.0 else 0.0])]))
  }

  lemma SpikeMeans(n: nat, i: nat)
    requires i < n
    ensures MeansOf(Spike(n)[i]) == map[Cpu := if i == n - 1 then 1.0 else 0.0]
  {
    var node := Spike(n)[i].nodes[0];
    assert Spike(n)[i].nodes == [node] && [node][1..] == [];
    forall f: Feature ensures Values([node], f) == if f == Cpu then [node.fields[Cpu]] else [] {
    }
    var x := node.fields[Cpu];
    assert [x][1..] == [] && Sum([x]) == x;
    assert Mean([x]) == x;
  }

  /** The column of `all` from position k on. */
  lemma {:induction false} SpikeColumn(n: nat, all: seq<Means>, k: nat)
    requires k < n == |all| && forall i | 0 <= i < n :: all[i] == map[Cpu := if i == n - 1 then 1.0 else 0.0]
    ensures var xs := Column(all[k..], Cpu);
            |xs| == n - k && Sum(xs) == 1.0 && forall mu: real :: SquaredDeviations(xs, mu) == (n - k - 1) as real * (mu * mu) + (1.0 - mu) * (1.0 - mu)
    ensures forall f: Feature | f != Cpu :: Column(all[k..], f) == []
    decreases n - k
  {
    assert all[k..][0] == all[k] && all[k..][1..] == all[k + 1..];
    if k == n - 1 {
      assert all[k + 1..] == [];
      assert Column(all[k..], Cpu) == [1.0] && [1.0][1..] == [];
    } else {
      SpikeColumn(n, all, k + 1);
      var xs, rest := Column(all[k..], Cpu), Column(all[k + 1..], Cpu);
      assert xs == [0.0] + rest && xs[1..] == rest;
      forall mu: real
        ensures SquaredDeviations(xs, mu) == (n - k - 1) as real * (mu * mu) + (1.0 - mu) * (1.0 - mu)
      {
        OneMoreZero((n - k - 2) as real, mu, SquaredDeviations(rest, mu));
      }
    }
  }

  lemma OneMoreZero(m: real, mu: real, rest: real)
    requires rest == m * (mu * mu) + (1.0 - mu) * (1.0 - mu)
    ensures (0.0 - mu) * (0.0 - mu) + rest == (m + 1.0) * (mu * mu) + (1.0 - mu) * (1.0 - mu)
  {
    Opposite(mu);
    Distribute(m, 1.0, mu * mu);
  }

  /** The variance of the spike is (n - 1) / n^2. */
  lemma SpikeVariance(n: real, mu: real, variance: real)
    requires n > 0.0 && n * mu == 1.0
    requires n * variance == (n - 1.0) * (mu * mu) + (1.0 - mu) * (1.0 - mu)
    ensures variance == (n - 1.0) * (mu * mu) && mu > 0.0 && 1.0 - mu == (n - 1.0) * mu
  {
    assert mu > 0.0 by {
      if mu <= 0.0 {
        Monotone(mu, 0.0, n);
      }
    }
    var q := mu * mu;
    assert (1.0 - mu) * (1.0 - mu) == ((n - 1.0) * mu) * ((n - 1.0) * mu);
    Associate(n - 1.0, mu, (n - 1.0) * mu);
    Associate(mu, n - 1.0, mu);
    Associate(n - 1.0, n - 1.0, q);
    assert n * variance == (n - 1.0) * q + (n - 1.0) * ((n - 1.0) * q);
    Distribute(1.0, n - 1.0, (n - 1.0) * q);
    Same(n, variance, (n - 1.0) * q);
  }

  lemma SixteenTimes(m: real, p: real, mp: real)
    requires m > 16.0 && p > 0.0 && mp == m * p
    ensures mp > 16.0 * p
  {
    assert mp - 16.0 * p == (m - 16.0) * p;
    ProductPositive(m - 16.0, p);
  }

  lemma SquareOfProduct(m: real, mu: real, q: real, variance: real, d: real, square: real)
    requires q == mu * mu && variance == m * q && d == m * mu && square == m * variance
    ensures d * d == square
  {
    assert d * d == (m * mu) * d;
    Associate(m, mu, d);
    assert mu * d == m * q by {
      Associate(mu, m, mu);
    }
  }

  lemma SpikeIsFar(m: real, mu: real, q: real, variance: real, d: real)
    requires m > 16.0 && mu > 0.0 && q == mu * mu && variance == m * q && d == m * mu
    ensures variance > 0.0 && !SquareAtMost(d, 16.0, variance) && SquareAtMost(-mu, 16.0, variance)
  {
    Positive(mu, mu, q);
    Positive(m, q, variance);
    SixteenTimes(m, variance, m * variance);
    SquareOfProduct(m, mu, q, variance, d, m * variance);
    Opposite(mu);
    SixteenTimes(m, q, variance);
  }

  lemma {:induction false} KeptButLast(snapshots: seq<Snapshot>, all: seq<Means>, stats: map<Feature, Stats>)
    requires |all| == |snapshots| > 0
    requires Bad(all[|all| - 1], stats) && forall i | 0 <= i < |all| - 1 :: !Bad(all[i], stats)
    ensures Kept(snapshots, all, stats) == snapshots[..|snapshots| - 1]
  {
    if |all| > 1 {
      assert forall i | 0 <= i < |all| - 1 :: all[1..][i] == all[i + 1];
      KeptButLast(snapshots[1..], all[1..], stats);
    } else {
      assert snapshots[1..] == [];
    }
  }

  lemma SpikeAll(n: nat)
    requires n >= 1
    ensures var all, xs := AllMeans(Spike(n)), Column(AllMeans(Spike(n)), Cpu);
            && (forall i | 0 <= i < n :: all[i] == map[Cpu := if i == n - 1 then 1.0 else 0.0])
            && |xs| == n && Sum(xs) == 1.0
            && (forall mu: real :: SquaredDeviations(xs, mu) == (n - 1) as real * (mu * mu) + (1.0 - mu) * (1.0 - mu))
            && forall f: Feature | f != Cpu :: Column(all, f) == []
  {
    var all := AllMeans(Spike(n));
    forall i | 0 <= i < n ensures all[i] == map[Cpu := if i == n - 1 then 1.0 else 0.0] {
      SpikeMeans(n, i);
    }
    SpikeColumn(n, all, 0);
    assert all[0..] == all;
  }

  lemma SpikeFar(n: nat, xs: seq<real>, s: Stats)
    requires n >= 18 && |xs| == n && Sum(xs) == 1.0 && Describes(xs, s)
    requires SquaredDeviations(xs, s.mu) == (n - 1) as real * (s.mu * s.mu) + (1.0 - s.mu) * (1.0 - s.mu)
    ensures Far(1.0, s) && !Far(0.0, s)
  {
    assert (n - 1) as real == n as real - 1.0;
    SpikeVariance(n as real, s.mu, s.variance);
    SpikeIsFar(n as real - 1.0, s.mu, s.mu * s.mu, s.variance, 1.0 - s.mu);
    assert 0.0 - s.mu == -s.mu;
  }

  /** The statistics of the spike. */
  lemma SpikeStats(n: nat) returns (s: Stats)
    requires n >= 18
    ensures GlobalStats(AllMeans(Spike(n))) == map[Cpu := s] && Far(1.0, s) && !Far(0.0, s)
    ensures forall i | 0 <= i < n :: AllMeans(Spike(n))[i] == map[Cpu := if i == n - 1 then 1.0 else 0.0]
  {
    SpikeAll(n);
    var xs := Column(AllMeans(Spike(n)), Cpu);
    StatsFacts(xs);
    s := StatsOf(xs).value;
    SpikeFar(n, xs, s);
  }

  /** From 18 snapshots on a single spike is dropped. */
  lemma SpikeDropped(n: nat)
    requires n >= 18
    ensures Filtered(Spike(n)) == Spike(n)[..n - 1]
  {
    var s := SpikeStats(n);
    var all, stats := AllMeans(Spike(n)), GlobalStats(AllMeans(Spike(n)));
    forall i | 0 <= i < n ensures Bad(all[i], stats) <==> i == n - 1 {
      assert Flagged(all[i], Cpu, stats) <==> i == n - 1;
    }
    KeptButLast(Spike(n), all, stats);
  }

  /** No set of n snapshots ever loses one if and only if n is at most 17. */
  lemma SeventeenIsTight(n: nat)
    ensures (forall snapshots | |snapshots| == n :: Filtered(snapshots) == snapshots) <==> n <= 17
  {
    if n <= 17 {
      forall snapshots | |snapshots| == n ensures Filtered(snapshots) == snapshots {
        SmallSetsStayWhole(snapshots);
      }
    } else {
      SpikeDropped(n);
      assert |Filtered(Spike(n))| == n - 1;
    }
  }
}
