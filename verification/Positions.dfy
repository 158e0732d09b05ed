/** What a filter keeps, stated by positions. */
module Positions {
  predicate Ascending(at: seq<nat>) {
    forall k, l | 0 <= k < l < |at| :: at[k] < at[l]
  }

  /** `out` lists, in order, exactly the elements of xs from position `from` on that are good. */
  ghost predicate Selects<T(!new)>(xs: seq<T>, from: nat, out: seq<T>, good: nat -> bool, at: seq<nat>) {
    && |at| == |out|
    && Ascending(at)
    && (forall k | 0 <= k < |at| :: at[k] < |xs| && out[k] == xs[at[k]])
    && forall i: nat :: i in at <==> from <= i < |xs| && good(i)
  }

  /** `more` is x followed by `rest`. */
  ghost predicate Prefixed<T(!new)>(x: T, rest: seq<T>, more: seq<T>) {
    |more| == |rest| + 1 && more[0] == x && forall k | 0 < k < |more| :: more[k] == rest[k - 1]
  }

  lemma PrefixedHas(x: nat, rest: seq<nat>, more: seq<nat>, i: nat)
    requires Prefixed(x, rest, more)
    ensures i in more <==> i == x || i in rest
  {
    if i in rest {
      var k :| 0 <= k < |rest| && rest[k] == i;
      assert more[k + 1] == i;
    }
  }

  /** A good element in front of a selection. */
  lemma SelectsOneMore<T(!new)>(xs: seq<T>, from: nat, out: seq<T>, good: nat -> bool, at: seq<nat>, more: seq<T>, at': seq<nat>)
    requires from < |xs| && Selects(xs, from + 1, out, good, at) && good(from)
    requires Prefixed(xs[from], out, more) && Prefixed(from, at, at')
    ensures Selects(xs, from, more, good, at')
  {
    forall k, l | 0 <= k < l < |at'| ensures at'[k] < at'[l] {
      assert at[l - 1] in at;
    }
    forall k | 0 <= k < |at'| ensures at'[k] < |xs| && more[k] == xs[at'[k]] {
      if k > 0 {
        assert more[k] == out[k - 1] == xs[at[k - 1]];
      }
    }
    forall i: nat ensures i in at' <==> from <= i < |xs| && good(i) {
      PrefixedHas(from, at, at', i);
    }
  }

  /** A bad element in front of a selection. */
  lemma SelectsNoMore<T(!new)>(xs: seq<T>, from: nat, out: seq<T>, good: nat -> bool, at: seq<nat>)
    requires from < |xs| && Selects(xs, from + 1, out, good, at) && !good(from)
    ensures Selects(xs, from, out, good, at)
  {
  }
}
