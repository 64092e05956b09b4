/** Bytes, fixed-width integers and the big-endian byte order shared by every wire format. */
module Bytes {
  type byte = x: int | 0 <= x < 256
  type u32 = x: int | 0 <= x < 0x1_0000_0000
  type u64 = x: int | 0 <= x < 0x1_0000_0000_0000_0000

  const U64_MAX: int := 0xffff_ffff_ffff_ffff

  datatype Option<+T> = None | Some(value: T)

  datatype Result<+T, +E> = Ok(value: T) | Err(error: E)

  /** The bytes of an ASCII literal; the wire formats carry plain byte strings. */
  function Ascii(s: string): (r: seq<byte>)
    ensures |r| == |s|
  {
    seq(|s|, i requires 0 <= i < |s| => s[i] as int % 256)
  }

  function Pow256(n: nat): (r: nat)
    ensures r > 0
  {
    if n == 0 then 1 else 256 * Pow256(n - 1)
  }

  /** The low `n` bytes of `v`, most significant first: `v` is truncated to 8n bits, as a cast does. */
  function BigEndian(n: nat, v: nat): (r: seq<byte>)
    ensures |r| == n
  {
    if n == 0 then [] else BigEndian(n - 1, v / 256) + [v % 256]
  }

  /** The number denoted by a big-endian byte string. */
  function FromBigEndian(b: seq<byte>): nat {
    if b == [] then 0 else 256 * FromBigEndian(b[..|b| - 1]) + b[|b| - 1]
  }

  lemma {:induction false} BigEndianRoundTrip(n: nat, v: nat)
    requires v < Pow256(n)
    ensures FromBigEndian(BigEndian(n, v)) == v
  {
    if n > 0 {
      BigEndianRoundTrip(n - 1, v / 256);
      assert BigEndian(n, v)[..n - 1] == BigEndian(n - 1, v / 256);
    }
  }

  lemma {:induction false} FromBigEndianBound(b: seq<byte>)
    ensures FromBigEndian(b) < Pow256(|b|)
  {
    if b != [] {
      FromBigEndianBound(b[..|b| - 1]);
    }
  }

  lemma {:induction false} MulMonotone(d: nat, a: nat, b: nat)
    requires a < b
    ensures d * a + d <= d * b
    decreases b - a
  {
    assert d * (b - 1) + d == d * b;
    if a < b - 1 {
      MulMonotone(d, a, b - 1);
    }
  }

  lemma QuotientUnique(v: nat, d: nat, q: nat, r: nat)
    requires d > 0 && v == d * q + r && r < d
    ensures v / d == q
  {
    var k := v / d;
    assert v == d * k + v % d;
    if k < q { MulMonotone(d, k, q); }
    if q < k { MulMonotone(d, q, k); }
  }

  lemma DivideTwice(v: nat, p: nat)
    requires p > 0
    ensures v / 256 / p == v / (256 * p)
  {
    var w := v / 256;
    var q, r := w / p, w % p;
    assert w == p * q + r;
    assert 256 * (p * q) == (256 * p) * q;
    QuotientUnique(v, 256 * p, q, 256 * r + v % 256);
  }

  /** Byte `i` is the value shifted right by the bytes that follow it, cut to eight bits. */
  lemma {:induction false} BigEndianAt(n: nat, v: nat, i: nat)
    requires i < n
    ensures BigEndian(n, v)[i] == v / Pow256(n - 1 - i) % 256
  {
    if i < n - 1 {
      BigEndianAt(n - 1, v / 256, i);
      DivideTwice(v, Pow256(n - 2 - i));
    }
  }

  lemma Pow256Values()
    ensures Pow256(1) == 0x100 && Pow256(4) == 0x1_0000_0000 && Pow256(8) == 0x1_0000_0000_0000_0000
  {
    assert Pow256(2) == 0x1_0000;
    assert Pow256(3) == 0x100_0000;
    assert Pow256(5) == 0x100_0000_0000;
    assert Pow256(6) == 0x1_0000_0000_0000;
    assert Pow256(7) == 0x100_0000_0000_0000;
  }

  lemma BigEndianInjective(n: nat, v: nat, w: nat)
    requires v < Pow256(n) && w < Pow256(n)
    requires BigEndian(n, v) == BigEndian(n, w)
    ensures v == w
  {
    BigEndianRoundTrip(n, v);
    BigEndianRoundTrip(n, w);
  }

  /** Concatenations with equally long left parts are equal exactly when both parts are. */
  lemma Cancel<T>(a: seq<T>, s: seq<T>, b: seq<T>, t: seq<T>)
    requires |a| == |b| && a + s == b + t
    ensures a == b && s == t
  {
    assert a == (a + s)[..|a|];
    assert b == (b + t)[..|b|];
    assert s == (a + s)[|a|..];
    assert t == (b + t)[|b|..];
  }

  lemma Associate<T>(a: seq<T>, b: seq<T>, c: seq<T>)
    ensures a + b + c == a + (b + c)
  {
  }

  /** The last element and those before it. */
  lemma Unsnoc<T>(s: seq<T>) returns (front: seq<T>, last: T)
    requires s != []
    ensures s == front + [last] && |front| == |s| - 1 && last == s[|s| - 1]
  {
    front, last := s[..|s| - 1], s[|s| - 1];
  }

  lemma SliceFront<T>(a: seq<T>, b: seq<T>, n: nat)
    requires n <= |a|
    ensures (a + b)[..n] == a[..n] && (a + b)[n..] == a[n..] + b
  {
  }

  lemma SplitAt<T>(s: seq<T>, i: nat, j: nat)
    requires i <= j <= |s|
    ensures s[..j] == s[..i] + s[i..j]
  {
  }

  /** A fixed-width integer can be taken off the front of two equal byte strings. */
  lemma NumberCancel(n: nat, v: nat, s: seq<byte>, w: nat, t: seq<byte>)
    requires v < Pow256(n) && w < Pow256(n)
    requires BigEndian(n, v) + s == BigEndian(n, w) + t
    ensures v == w && s == t
  {
    Cancel(BigEndian(n, v), s, BigEndian(n, w), t);
    BigEndianInjective(n, v, w);
  }

  /** Everything before the first `stop` is determined when neither left part contains it. */
  lemma CancelUntil<T>(a: seq<T>, s: seq<T>, b: seq<T>, t: seq<T>, stop: T)
    requires stop !in a && stop !in b
    requires a + [stop] + s == b + [stop] + t
    ensures a == b && s == t
  {
    var l, r := a + [stop] + s, b + [stop] + t;
    assert l[|a|] == stop && r[|b|] == stop;
    assert |a| == |b|;
    Cancel(a + [stop], s, b + [stop], t);
    Cancel(a, [stop], b, [stop]);
  }
}
