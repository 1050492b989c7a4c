/** Byte strings, the numbers they stand for, and the fixed-width machine integers of the wire format. */
module Bytes {
  type Byte = b: int | 0 <= b < 256

  const TWO8 := 0x100
  const TWO16 := 0x1_0000
  const TWO32 := 0x1_0000_0000
  const TWO64 := 0x1_0000_0000_0000_0000
  const MAX_INT32 := 0x7fff_ffff

  function Pow2(n: nat): (p: nat)
    ensures p >= 1
  {
    if n == 0 then 1 else 2 * Pow2(n - 1)
  }

  function Pow256(n: nat): (p: nat)
    ensures p >= 1
  {
    if n == 0 then 1 else 256 * Pow256(n - 1)
  }

  /** Reinterprets x modulo 2m as a signed number in [-m, m): what a Go conversion to intN does, with m = 2^(N-1). */
  function Wrap(x: int, m: int): (r: int)
    requires m > 0
    ensures -m <= r < m
  {
    (x + m) % (2 * m) - m
  }

  predicate Fits(x: int, m: int) {
    -m <= x < m
  }

  lemma ModSmall(x: int, m: int)
    requires 0 <= x < m
    ensures x % m == x && x / m == 0
  {}

  lemma WrapFits(x: int, m: int)
    requires m > 0 && Fits(x, m)
    ensures Wrap(x, m) == x
  {
    ModSmall(x + m, 2 * m);
  }

  /** Big-endian value. */
  function BE(bs: seq<Byte>): (n: nat) {
    if bs == [] then 0 else 256 * BE(bs[..|bs| - 1]) + bs[|bs| - 1]
  }

  /** Little-endian value. */
  function LE(bs: seq<Byte>): (n: nat) {
    if bs == [] then 0 else bs[0] + 256 * LE(bs[1..])
  }

  /** The w low bytes of n, least significant first. */
  function PutLE(n: int, w: nat): (bs: seq<Byte>)
    ensures |bs| == w
    decreases w, n  // both, so that a literal width alone does not unfold the whole string
  {
    if w == 0 then [] else [n % 256] + PutLE(n / 256, w - 1)
  }

  lemma Distributed(n: int, a: int, b: int, t: int, s: int, r: int)
    requires n == a * (b * t + s) + r
    ensures n == (a * b) * t + (a * s + r)
  {
    assert a * (b * t + s) == a * (b * t) + a * s;
    assert a * (b * t) == (a * b) * t;
  }

  lemma MulLe(a: int, x: int, y: int)
    requires 0 <= a && 0 <= x <= y
    ensures 0 <= a * x <= a * y
  {}

  lemma QuotientIs(n: int, d: int, q: int, r: int)
    requires d > 0 && n == d * q + r && 0 <= r < d
    ensures n / d == q && n % d == r
  {
    var k := n / d - q;
    assert d * k == r - n % d;
    if k >= 1 {
      MulLe(d, 1, k);
    } else if k <= -1 {
      MulLe(d, 1, -k);
    }
  }

  lemma DivTwice(n: int, a: int, b: int)
    requires a > 0 && b > 0
    ensures a * b > 0 && n / a / b == n / (a * b)
    ensures n % (a * b) == a * (n / a % b) + n % a
  {
    var q := n / a;
    Distributed(n, a, b, q / b, q % b, n % a);
    MulLe(a, q % b, b - 1);
    QuotientIs(n, a * b, q / b, a * (q % b) + n % a);
  }

  lemma {:induction false} PutLEAt(n: int, w: nat, i: nat)
    requires i < w
    ensures PutLE(n, w)[i] == n / Pow256(i) % 256
    decreases i
  {
    if i > 0 {
      PutLEAt(n / 256, w - 1, i - 1);
      DivTwice(n, 256, Pow256(i - 1));
    }
  }

  lemma {:induction false} PutLESuffix(n: int, w: nat, k: nat)
    requires k <= w
    ensures PutLE(n, w)[k..] == PutLE(n / Pow256(k), w - k)
    decreases k
  {
    if k > 0 {
      PutLESuffix(n / 256, w - 1, k - 1);
      DivTwice(n, 256, Pow256(k - 1));
      assert PutLE(n, w)[k..] == PutLE(n / 256, w - 1)[k - 1..];
    }
  }

  lemma ModShift(n: int, m: int, k: int)
    requires m > 0
    ensures (n % m + k) % m == (n + k) % m
  {
    var q, r := n / m, n % m;
    assert n + k == m * q + (r + k);
    var p, t := (r + k) / m, (r + k) % m;
    assert m * q + (m * p + t) == m * (q + p) + t;
    QuotientIs(n + k, m, q + p, t);
  }

  /** big.Int.Bytes: the magnitude, most significant byte first, without leading zero bytes. */
  function Magnitude(n: nat): (bs: seq<Byte>) {
    if n == 0 then [] else Magnitude(n / 256) + [n % 256]
  }

  function Reverse<T>(s: seq<T>): (r: seq<T>)
    ensures |r| == |s|
  {
    if s == [] then [] else Reverse(s[1..]) + [s[0]]
  }

  function Concat(parts: seq<seq<Byte>>): (bs: seq<Byte>) {
    if parts == [] then [] else Concat(parts[..|parts| - 1]) + parts[|parts| - 1]
  }

  lemma {:induction false} ReverseAt<T>(s: seq<T>, k: nat)
    requires k < |s|
    ensures Reverse(s)[k] == s[|s| - 1 - k]
  {
    if k < |s| - 1 {
      ReverseAt(s[1..], k);
    }
  }

  lemma {:induction false} ReversedLittleIsBig(bs: seq<Byte>)
    ensures BE(Reverse(bs)) == LE(bs)
  {
    if bs != [] {
      ReversedLittleIsBig(bs[1..]);
      assert Reverse(bs)[..|bs| - 1] == Reverse(bs[1..]);
    }
  }

  lemma {:induction false} LEBound(bs: seq<Byte>)
    ensures LE(bs) < Pow256(|bs|)
  {
    if bs != [] {
      LEBound(bs[1..]);
    }
  }

  /** Zero bytes at the most significant end do not count. */
  lemma {:induction false} LEPadded(bs: seq<Byte>, pad: seq<Byte>)
    requires forall i :: 0 <= i < |pad| ==> pad[i] == 0
    ensures LE(bs + pad) == LE(bs)
    decreases |bs| + |pad|
  {
    if bs != [] {
      assert (bs + pad)[1..] == bs[1..] + pad;
      LEPadded(bs[1..], pad);
    } else if pad != [] {
      assert bs + pad == [0] + pad[1..];
      LEPadded([], pad[1..]);
      assert [] + pad[1..] == pad[1..];
    }
  }

  lemma {:induction false} BEBound(bs: seq<Byte>)
    ensures BE(bs) < Pow256(|bs|)
  {
    if bs != [] {
      BEBound(bs[..|bs| - 1]);
    }
  }

  lemma {:induction false} BEAppend(a: seq<Byte>, b: Byte)
    ensures BE(a + [b]) == 256 * BE(a) + b
  {
    assert (a + [b])[..|a|] == a;
  }

  lemma {:induction false} BEPrepend(d: Byte, bs: seq<Byte>)
    ensures BE([d] + bs) == d * Pow256(|bs|) + BE(bs)
  {
    if bs == [] {
      assert [d] + bs == [] + [d];
      BEAppend([], d);
    } else {
      var init, last := bs[..|bs| - 1], bs[|bs| - 1];
      assert [d] + bs == ([d] + init) + [last];
      BEAppend([d] + init, last);
      BEPrepend(d, init);
    }
  }

  /** Writing a number in w bytes and reading it back reduces it modulo 256^w. */
  lemma {:induction false} ReadPutLE(n: nat, w: nat)
    requires n < Pow256(w)
    ensures LE(PutLE(n, w)) == n
    decreases w
  {
    if w > 0 {
      ReadPutLE(n / 256, w - 1);
      assert PutLE(n, w)[1..] == PutLE(n / 256, w - 1);
    }
  }

  /** Without room for the whole number, its residue is what comes back. */
  lemma {:induction false} ReadPutLEModulo(n: int, w: nat)
    ensures LE(PutLE(n, w)) == n % Pow256(w)
    decreases w
  {
    if w > 0 {
      var p := Pow256(w - 1);
      ReadPutLEModulo(n / 256, w - 1);
      assert PutLE(n, w)[1..] == PutLE(n / 256, w - 1);
      DivTwice(n, 256, p);
    }
  }

  /** Two byte strings written side by side. */
  lemma SideBySide(a: seq<Byte>, b: seq<Byte>)
    ensures (a + b)[..|a|] == a && (a + b)[|a|..] == b && (a + b)[|a|..|a + b|] == b
  {}

  lemma Regrouped(a: seq<Byte>, b: seq<Byte>, c: seq<Byte>)
    ensures a + b + c == a + (b + c)
  {}

  lemma Nested(a: seq<Byte>, b: seq<Byte>, c: seq<Byte>, d: seq<Byte>, e: seq<Byte>)
    ensures a + b + c + d + e == a + (b + (c + (d + e)))
  {}

  /** A head byte, a field, a text and what follows them. */
  lemma Carve(head: Byte, field: seq<Byte>, text: seq<Byte>, rest: seq<Byte>)
    ensures var bs := [head] + field + text + rest;
            var k := 1 + |field|;
            bs[0] == head && |bs| == k + |text| + |rest|
            && bs[1..k] == field && bs[k..k + |text|] == text && bs[k + |text|..] == rest
  {}

  /** A signed number and its unsigned reinterpretation have the same bytes. */
  lemma {:induction false} PutLEModulo(n: int, w: nat)
    ensures PutLE(n, w) == PutLE(n + Pow256(w), w)
    decreases w
  {
    if w > 0 {
      var p := Pow256(w - 1);
      assert (n + 256 * p) / 256 == n / 256 + p && (n + 256 * p) % 256 == n % 256;
      PutLEModulo(n / 256, w - 1);
    }
  }

  lemma {:induction false} MagnitudeValue(n: nat)
    ensures BE(Magnitude(n)) == n
    ensures n > 0 ==> Magnitude(n) != [] && Magnitude(n)[0] != 0
    decreases n
  {
    if n > 0 {
      MagnitudeValue(n / 256);
      BEAppend(Magnitude(n / 256), n % 256);
    }
  }

  /** The magnitude of n has L bytes exactly when 256^(L-1) <= n < 256^L. */
  lemma {:induction false} MagnitudeLength(n: nat)
    requires n > 0
    ensures var len := |Magnitude(n)|; len >= 1 && Pow256(len - 1) <= n < Pow256(len)
    decreases n
  {
    if n >= 256 {
      MagnitudeLength(n / 256);
    } else {
      assert Magnitude(n / 256) == [];
      assert Pow256(1) == 256;
    }
  }

  lemma {:induction false} Pow256Is2(n: nat)
    ensures Pow256(n) == Pow2(8 * n)
  {
    if n > 0 {
      Pow256Is2(n - 1);
      var m := 8 * n - 8;
      assert Pow2(m + 2) == 4 * Pow2(m) && Pow2(m + 4) == 4 * Pow2(m + 2);
      assert Pow2(m + 6) == 4 * Pow2(m + 4) && Pow2(m + 8) == 4 * Pow2(m + 6);
    }
  }

  lemma {:induction false} Pow2Monotone(a: nat, b: nat)
    requires a <= b
    ensures Pow2(a) <= Pow2(b)
    decreases b
  {
    if a < b {
      Pow2Monotone(a, b - 1);
    }
  }

  lemma {:induction false} Pow256Monotone(a: nat, b: nat)
    requires a <= b
    ensures Pow256(a) <= Pow256(b)
    decreases b
  {
    if a < b {
      Pow256Monotone(a, b - 1);
    }
  }

  lemma Pow256Small()
    ensures Pow256(1) == TWO8 && Pow256(2) == TWO16 && Pow256(4) == TWO32 && Pow256(8) == TWO64
  {
    assert Pow256(3) == 256 * Pow256(2);
    assert Pow256(5) == 256 * Pow256(4);
    assert Pow256(6) == 256 * Pow256(5);
    assert Pow256(7) == 256 * Pow256(6);
  }

  lemma {:induction false} ConcatAppend(parts: seq<seq<Byte>>, p: seq<Byte>)
    ensures Concat(parts + [p]) == Concat(parts) + p
  {
    assert (parts + [p])[..|parts|] == parts;
  }

  lemma ConcatThree(parts: seq<seq<Byte>>, a: seq<Byte>, b: seq<Byte>, c: seq<Byte>)
    ensures Concat(parts + [a, b, c]) == Concat(parts) + a + b + c
  {
    assert parts + [a, b, c] == ((parts + [a]) + [b]) + [c];
    ConcatAppend(parts, a);
    ConcatAppend(parts + [a], b);
    ConcatAppend((parts + [a]) + [b], c);
  }

  lemma {:induction false} ConcatFront(parts: seq<seq<Byte>>)
    requires parts != []
    ensures Concat(parts) == parts[0] + Concat(parts[1..])
    decreases |parts|
  {
    var last := |parts| - 1;
    if last > 0 {
      ConcatFront(parts[..last]);
      assert parts[..last][1..] == parts[1..][..last - 1];
    }
  }

  lemma {:induction false} ConcatPrefix(parts: seq<seq<Byte>>, k: nat)
    requires k <= |parts|
    ensures |Concat(parts[..k])| <= |Concat(parts)|
    ensures Concat(parts)[..|Concat(parts[..k])|] == Concat(parts[..k])
    decreases |parts|
  {
    if k == |parts| {
      assert parts[..k] == parts;
    } else {
      var init := parts[..|parts| - 1];
      ConcatPrefix(init, k);
      assert init[..k] == parts[..k];
    }
  }

  /** Cutting a concatenation at its running totals gives back the parts. */
  lemma {:induction false} ConcatSlice(parts: seq<seq<Byte>>, k: nat)
    requires k < |parts|
    ensures |Concat(parts[..k])| + |parts[k]| == |Concat(parts[..k + 1])| <= |Concat(parts)|
    ensures Concat(parts)[|Concat(parts[..k])|..|Concat(parts[..k + 1])|] == parts[k]
  {
    ConcatPrefix(parts, k + 1);
    assert parts[..k + 1] == parts[..k] + [parts[k]];
    ConcatAppend(parts[..k], parts[k]);
    var lo, hi := |Concat(parts[..k])|, |Concat(parts[..k + 1])|;
    assert Concat(parts)[lo..hi] == Concat(parts)[..hi][lo..];
  }

  lemma MulStep(k: int, w: int)
    ensures w * (k - 1) + w == w * k
  {}

  lemma {:induction false} ConcatUniform(parts: seq<seq<Byte>>, w: nat)
    requires forall i :: 0 <= i < |parts| ==> |parts[i]| == w
    ensures |Concat(parts)| == w * |parts|
  {
    if parts != [] {
      ConcatUniform(parts[..|parts| - 1], w);
      MulStep(|parts|, w);
    }
  }
}
