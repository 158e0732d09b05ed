/** Shared vocabulary: optional values and map lookup. */
module Common {

  datatype Option<+T> = None | Some(value: T) {
    function GetOr(default: T): T {
      match this
      case Some(v) => v
      case None => default
    }
  }

  function Get<K, V>(m: map<K, V>, k: K): Option<V> {
    if k in m then Some(m[k]) else None
  }

  /** The at most one element of an optional value, as a sequence. */
  function ToSeq<T>(o: Option<T>): seq<T> {
    match o
    case Some(v) => [v]
    case None => []
  }

  predicate StartsWith(s: string, prefix: string) {
    |prefix| <= |s| && s[..|prefix|] == prefix
  }

  /** xs.pop(i). */
  function Dropped<T>(xs: seq<T>, i: nat): (out: seq<T>)
    requires i < |xs|
    ensures |out| == |xs| - 1
    decreases i
  {
    if i == 0 then xs[1..] else [xs[0]] + Dropped(xs[1..], i - 1)
  }

  lemma {:induction false} DroppedAt<T>(xs: seq<T>, i: nat, k: nat)
    requires i < |xs| && k < |xs| - 1
    ensures Dropped(xs, i)[k] == xs[if k < i then k else k + 1]
    decreases i
  {
    if i > 0 && k > 0 {
      DroppedAt(xs[1..], i - 1, k - 1);
    }
  }
}
