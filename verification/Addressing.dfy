/** CIDR blocks (section 3.1 of RFC 4632) and the library tests on them. */
module Addressing {

  function Pow2(n: nat): (p: nat)
    ensures p >= 1
  {
    if n == 0 then 1 else 2 * Pow2(n - 1)
  }

  datatype Version = V4 | V6 {
    function Width(): nat {
      if V4? then 32 else 128
    }
  }

  datatype Ip = Ip(version: Version, value: nat)

  datatype Block = Block(version: Version, base: nat, prefix: nat) {
    predicate Valid() {
      prefix <= version.Width() && base % Size() == 0
    }

    function Size(): (n: nat)
      requires prefix <= version.Width()
      ensures n >= 1
    {
      Pow2(version.Width() - prefix)
    }

    function First(): Ip {
      Ip(version, base)
    }

    function Last(): Ip
      requires Valid()
    {
      Ip(version, base + Size() - 1)
    }

    /** `ip in net`: the address under the net mask is the network address. */
    predicate Contains(ip: Ip)
      requires Valid()
    {
      ip.version == version && ip.value - ip.value % Size() == base
    }

    /** The set of addresses the block stands for. */
    predicate Covers(ip: Ip)
      requires Valid()
    {
      ip.version == version && base <= ip.value < base + Size()
    }
  }

  type Net = b: Block | b.Valid() witness Block(V4, 0, 32)

  /** net.overlaps(other): does either contain an endpoint of the other? */
  predicate Overlaps(a: Net, b: Net) {
    a.Contains(b.First()) || a.Contains(b.Last()) || b.Contains(a.First()) || b.Contains(a.Last())
  }

  lemma Remainder(v: nat, base: nat, n: nat)
    requires n >= 1 && base % n == 0 && base <= v < base + n
    ensures v % n == v - base
  {
    var q := base / n;
    assert base == q * n;
    assert v == q * n + (v - base);
    DivMod(v, q, v - base, n);
  }

  lemma DivMod(v: nat, q: nat, r: nat, n: nat)
    requires 0 <= r < n && v == q * n + r
    ensures v % n == r
  {
    var d: int := v / n - q;
    assert v == (v / n) * n + v % n;
    assert d * n == r - v % n by {
      assert (v / n) * n - q * n == (v / n - q) * n;
    }
    MultipleGrows(d, n);
  }

  lemma MultipleGrows(d: int, n: int)
    requires n >= 0
    ensures d >= 1 ==> d * n >= n
    ensures d <= -1 ==> d * n <= -n
  {
    if d >= 1 {
      assert d * n == n + (d - 1) * n;
    } else if d <= -1 {
      assert d * n == -n + (d + 1) * n;
    }
  }

  /** Masking an address is asking whether it lies in the block's range. */
  lemma ContainsIsCovers(b: Net, ip: Ip)
    ensures b.Contains(ip) <==> b.Covers(ip)
  {
    if b.Covers(ip) {
      Remainder(ip.value, b.base, b.Size());
    }
  }

  /** The four-endpoint test is exact: two blocks overlap if and only if some address is in both. */
  lemma OverlapsIff(a: Net, b: Net)
    ensures Overlaps(a, b) <==> exists ip :: a.Covers(ip) && b.Covers(ip)
  {
    ContainsIsCovers(a, b.First());
    ContainsIsCovers(a, b.Last());
    ContainsIsCovers(b, a.First());
    ContainsIsCovers(b, a.Last());
    assert b.Covers(b.First()) && b.Covers(b.Last()) && a.Covers(a.First()) && a.Covers(a.Last());
    if a.version == b.version && a.base < b.base + b.Size() && b.base < a.base + a.Size() {
      assert a.Covers(b.First()) || b.Covers(a.First());
    }
  }
}
