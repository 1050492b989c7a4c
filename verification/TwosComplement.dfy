/** Unbounded two's-complement integers: the unscaled part of a DECIMAL. */
module TwosComplement {
  import opened Bytes

  /** The big-endian two's-complement number a reader sees in bs; no bytes at all read as zero. */
  function Signed(bs: seq<Byte>): int {
    if bs == [] then 0
    else BE(bs) - (if bs[0] >= 0x80 then Pow256(|bs|) else 0)
  }

  /** The shortest two's-complement byte string of n, most significant byte first. */
  function Minimal(n: int): (bs: seq<Byte>)
    ensures bs != []
    decreases if n < 0 then -n else n
  {
    if -128 <= n < 128 then [n % 256] else Minimal(n / 256) + [n % 256]
  }

  /** No leading byte that only repeats the sign. */
  predicate Canonical(bs: seq<Byte>) {
    && bs != []
    && (|bs| > 1 && bs[0] == 0 ==> bs[1] >= 0x80)
    && (|bs| > 1 && bs[0] == 0xff ==> bs[1] < 0x80)
  }

  lemma SignedAppend(bs: seq<Byte>, b: Byte)
    requires bs != []
    ensures Signed(bs + [b]) == 256 * Signed(bs) + b
  {
    BEAppend(bs, b);
  }

  lemma SignedPrepend(bs: seq<Byte>)
    requires bs != []
    ensures bs[0] < 0x80 ==> Signed([0] + bs) == Signed(bs)
    ensures bs[0] >= 0x80 ==> Signed([0xff] + bs) == Signed(bs)
    ensures Signed([0] + bs) == BE(bs)
    ensures Signed([0xff] + bs) == BE(bs) - Pow256(|bs|)
  {
    BEPrepend(0, bs);
    BEPrepend(0xff, bs);
  }

  lemma SignedSingle(b: Byte)
    ensures Signed([b]) == if b >= 0x80 then b - 256 else b
  {
    BEAppend([], b);
    assert [] + [b] == [b];
    assert Pow256(1) == 256 * Pow256(0);
  }

  /** Reading the shortest byte string of n gives n back, for every integer. */
  lemma {:induction false} MinimalReadsBack(n: int)
    ensures Signed(Minimal(n)) == n
    decreases if n < 0 then -n else n
  {
    if -128 <= n < 128 {
      SignedSingle(n % 256);
    } else {
      MinimalReadsBack(n / 256);
      SignedAppend(Minimal(n / 256), n % 256);
    }
  }

  /** Every byte string that reads as n is at least as long as Minimal(n). */
  lemma {:induction false} MinimalIsShortest(n: int, bs: seq<Byte>)
    requires bs != [] && Signed(bs) == n
    ensures |Minimal(n)| <= |bs|
    decreases |bs|
  {
    var init, last := bs[..|bs| - 1], bs[|bs| - 1];
    assert bs == init + [last];
    if init == [] {
      SignedSingle(last);
    } else {
      SignedAppend(init, last);
      if !(-128 <= n < 128) {
        MinimalIsShortest(n / 256, init);
      }
    }
  }

  lemma CanonicalPair(a: Byte, b: Byte)
    requires Canonical([a, b])
    ensures !Fits(Signed([a, b]), 128) && Minimal(Signed([a, b])) == [a, b]
  {
    SignedSingle(a);
    SignedAppend([a], b);
    assert [a] + [b] == [a, b];
    var n := Signed([a, b]);
    assert n / 256 == Signed([a]) && n % 256 == b;
    assert Minimal(n / 256) == [a];
  }

  /** A byte string without a redundant sign byte is the shortest one of the number it denotes. */
  lemma {:induction false} CanonicalIsMinimal(bs: seq<Byte>)
    requires Canonical(bs)
    ensures bs == Minimal(Signed(bs))
    ensures |bs| > 1 ==> !Fits(Signed(bs), 128)
    decreases |bs|
  {
    if |bs| == 1 {
      SignedSingle(bs[0]);
    } else if |bs| == 2 {
      CanonicalPair(bs[0], bs[1]);
      assert bs == [bs[0], bs[1]];
    } else {
      var init, last := bs[..|bs| - 1], bs[|bs| - 1];
      assert bs == init + [last];
      assert init[0] == bs[0] && init[1] == bs[1];
      CanonicalIsMinimal(init);
      SignedAppend(init, last);
    }
  }

  /** m bytes hold the numbers from -256^m/2 up to 256^m/2 exclusive. */
  lemma {:induction false} SignedRange(bs: seq<Byte>)
    requires bs != []
    ensures -(Pow256(|bs|) as int) <= 2 * Signed(bs) < Pow256(|bs|)
    decreases |bs|
  {
    var init, last := bs[..|bs| - 1], bs[|bs| - 1];
    assert bs == init + [last];
    if init == [] {
      SignedSingle(last);
      assert Pow256(1) == 256;
    } else {
      SignedAppend(init, last);
      SignedRange(init);
      assert Pow256(|bs|) == 256 * Pow256(|init|);
    }
  }

  // ---------------------------------------------------------------- twosComplementBytes

  /** big.Int.BitLen of the magnitude. */
  function BitLen(n: nat): (bits: nat) {
    if n == 0 then 0 else 1 + BitLen(n / 2)
  }

  lemma {:induction false} BitLenBounds(n: nat)
    ensures n < Pow2(BitLen(n))
    ensures n > 0 ==> BitLen(n) > 0 && Pow2(BitLen(n) - 1) <= n
  {
    if n > 0 {
      BitLenBounds(n / 2);
    }
  }

  /** With bitLen/8 + 1 bytes a negative v sits in the upper half of the unsigned range. */
  lemma NegativeFitsLength(v: int, length: nat)
    requires v < 0 && length == (BitLen(-v) + 8) / 8
    ensures length >= 1 && 2 * -v <= Pow256(length)
    ensures |Minimal(v)| >= length - 1
  {
    var bits := BitLen(-v);
    BitLenBounds(-v);
    Pow256Is2(length);
    Pow2Monotone(bits + 1, 8 * length);
    var m := |Minimal(v)|;
    MinimalReadsBack(v);
    SignedRange(Minimal(v));
    if m < length - 1 {
      Pow256Is2(m);
      Pow2Monotone(8 * m, bits - 8);
      Pow2Monotone(bits - 8, bits - 2);
    }
  }

  lemma SamePower(x: nat, k: nat, length: nat)
    requires k >= 1 && length >= 1
    requires Pow256(k - 1) <= x < Pow256(k)
    requires Pow256(length - 1) <= x < Pow256(length)
    ensures k == length
  {
    if k < length {
      Pow256Monotone(k, length - 1);
    } else if length < k {
      Pow256Monotone(length, k - 1);
    }
  }

  lemma SignBitFromSize(b: seq<Byte>)
    requires b != []
    ensures b[0] >= 0x80 <==> 2 * BE(b) >= Pow256(|b|)
  {
    SignedRange(b);
    BEBound(b);
  }

  /** A number in the upper half of the unsigned range of `length` bytes has exactly that many bytes, sign bit set. */
  lemma UpperHalf(x: nat, length: nat)
    requires length >= 1 && x < Pow256(length) <= 2 * x
    ensures var b := Magnitude(x); |b| == length && b[0] >= 0x80 && Signed(b) == x - Pow256(length)
  {
    var b := Magnitude(x);
    MagnitudeLength(x);
    MagnitudeValue(x);
    SamePower(x, |b|, length);
    SignBitFromSize(b);
  }

  /**
   * Writes v with a sign-magnitude library: it takes one byte too many at most once and trims it again.
   * trims counts the iterations of the trimming loop.
   */
  method TwosComplementBytes(v: int) returns (b: seq<Byte>, ghost trims: nat)
    ensures b == Minimal(v)
    ensures trims <= 1
  {
    trims := 0;
    if v >= 0 {
      b := Magnitude(v);
      MagnitudeValue(v);
      if |b| == 0 {
        b := [0];
        return;
      }
      if b[0] >= 0x80 {
        SignedPrepend(b);
        b := [0] + b;
      }
      CanonicalIsMinimal(b);
      return;
    }

    var length := (BitLen(-v) + 8) / 8;
    NegativeFitsLength(v, length);
    var twos := Pow256(length) + v;
    b := Magnitude(twos);
    UpperHalf(twos, length);
    while |b| > 1 && b[0] == 0xff && b[1] >= 0x80
      invariant b != [] && b[0] >= 0x80
      invariant Signed(b) == v
      invariant |b| == length - trims
    {
      assert [0xff] + b[1..] == b;
      SignedPrepend(b[1..]);
      b := b[1..];
      trims := trims + 1;
    }
    CanonicalIsMinimal(b);
    if |b| == 0 || b[0] < 0x80 {
      // the branch that would prefix 0xff is never reached
      assert false;
    }
  }

  // ---------------------------------------------------------------- encodeDecimalUnscaled

  lemma WholeBytes(bits: nat, len: nat)
    requires bits > 0 && len == (bits + 7) / 8
    ensures len >= 1 && Pow256(len - 1) <= Pow2(bits - 1) && Pow2(bits) <= Pow256(len)
  {
    Pow256Is2(len);
    Pow256Is2(len - 1);
    Pow2Monotone(bits, 8 * len);
    Pow2Monotone(8 * (len - 1), bits - 1);
  }

  /** Bytes in the magnitude of n. */
  function ByteLength(n: int): (len: nat) {
    (BitLen(if n < 0 then -n else n) + 7) / 8
  }

  lemma NegativeByteLength(n: int)
    requires n != 0
    ensures var len := ByteLength(n); var m := if n < 0 then -n else n;
            len >= 1 && Pow256(len - 1) <= m < Pow256(len)
  {
    var m := if n < 0 then -n else n;
    BitLenBounds(m);
    WholeBytes(BitLen(m), (BitLen(m) + 7) / 8);
  }

  function SignExtended(b: seq<Byte>): (bs: seq<Byte>) {
    if b == [] || b[0] < 0x80 then [0xff] + b else b
  }

  /** The encoder of SQL arguments, branch for branch; Magnitude drops leading zero bytes, as big.Int.Bytes does. */
  function EncodeDecimalUnscaled(n: int): (bs: seq<Byte>) {
    if n == 0 then [0]
    else if n > 0 then
      var b := Magnitude(n);
      MagnitudeValue(n);
      if b[0] >= 0x80 then [0] + b else b
    else
      var bits := (BitLen(-n) + 7) / 8;
      var bytes := if bits == 0 then 1 else bits;
      NegativeByteLength(n);
      var b := Magnitude(Pow256(bytes) + n);
      SignExtended(b)
  }

  /** The negative numbers whose two's complement starts with a zero byte once the magnitude's length is taken. */
  predicate LosesLeadingZero(n: int) {
    n < 0 && 256 * -n > 255 * Pow256(ByteLength(n))
  }

  lemma SignExtendedReads(b: seq<Byte>)
    requires b != []
    ensures Signed(SignExtended(b)) == BE(b) - Pow256(|b|)
  {
    SignedPrepend(b);
  }

  /** For negative n the encoder's bytes read as 2^(8k) short of the truth, with k the bytes that Magnitude kept. */
  lemma EncodedNegativeReads(n: int)
    requires n < 0
    ensures var x := Pow256(ByteLength(n)) + n;
            x > 0 && Signed(EncodeDecimalUnscaled(n)) == x - Pow256(|Magnitude(x)|)
  {
    NegativeByteLength(n);
    var x := Pow256(ByteLength(n)) + n;
    assert EncodeDecimalUnscaled(n) == SignExtended(Magnitude(x));
    MagnitudeValue(x);
    SignExtendedReads(Magnitude(x));
  }

  lemma NegativeKeptBytes(n: int)
    requires n < 0
    ensures Pow256(ByteLength(n)) + n > 0
    ensures Pow256(|Magnitude(Pow256(ByteLength(n)) + n)|) == Pow256(ByteLength(n)) <==> !LosesLeadingZero(n)
    ensures !LosesLeadingZero(n) ==> |Magnitude(Pow256(ByteLength(n)) + n)| == ByteLength(n)
  {
    NegativeByteLength(n);
    var len := ByteLength(n);
    var x := Pow256(len) + n;
    MagnitudeLength(x);
    var k := |Magnitude(x)|;
    if LosesLeadingZero(n) {
      if k >= len {
        Pow256Monotone(len - 1, k - 1);
      }
    } else {
      SamePower(x, k, len);
    }
  }

  /** When the magnitude is at least 256^(len-1), all bytes below a leading 0xff are zero. */
  lemma SmallTail(b: seq<Byte>, n: int)
    requires |b| > 1 && b[0] == 0xff
    requires BE(b) == Pow256(|b|) + n && Pow256(|b| - 1) <= -n
    ensures b[1] < 0x80
  {
    var tail := b[1..];
    assert b == [0xff] + tail;
    BEPrepend(0xff, tail);
    SignBitFromSize(tail);
  }

  lemma NegativeCanonical(n: int)
    requires n < 0 && !LosesLeadingZero(n)
    ensures Canonical(EncodeDecimalUnscaled(n))
  {
    NegativeByteLength(n);
    NegativeKeptBytes(n);
    var len := ByteLength(n);
    var x := Pow256(len) + n;
    var b := Magnitude(x);
    MagnitudeValue(x);
    assert EncodeDecimalUnscaled(n) == SignExtended(b);
    if len > 1 && b[0] == 0xff {
      SmallTail(b, n);
    }
  }

  /** The SQL-argument encoder is right exactly on the numbers that keep all their bytes, and nowhere else. */
  lemma EncodeDecimalUnscaledExact(n: int)
    ensures Signed(EncodeDecimalUnscaled(n)) == n <==> !LosesLeadingZero(n)
    ensures EncodeDecimalUnscaled(n) == Minimal(n) <==> !LosesLeadingZero(n)
  {
    MinimalReadsBack(n);
    if n < 0 {
      NegativeByteLength(n);
      EncodedNegativeReads(n);
      NegativeKeptBytes(n);
      if !LosesLeadingZero(n) {
        NegativeCanonical(n);
        CanonicalIsMinimal(EncodeDecimalUnscaled(n));
      }
    } else if n > 0 {
      MagnitudeValue(n);
      SignedPrepend(Magnitude(n));
      CanonicalIsMinimal(EncodeDecimalUnscaled(n));
    } else {
      SignedSingle(0);
    }
  }

  lemma BitLenIs(n: nat, bits: nat)
    requires bits > 0 && Pow2(bits - 1) <= n < Pow2(bits)
    ensures BitLen(n) == bits
  {
    BitLenBounds(n);
    if BitLen(n) < bits {
      Pow2Monotone(BitLen(n), bits - 1);
    } else if BitLen(n) > bits {
      Pow2Monotone(bits, BitLen(n) - 1);
    }
  }

  /** -65535 is written as ff 01, which reads as -255. */
  lemma DecimalLossExample()
    ensures LosesLeadingZero(-65535)
    ensures EncodeDecimalUnscaled(-65535) == [0xff, 0x01]
    ensures Signed([0xff, 0x01]) == -255
  {
    assert Pow2(4) == 16 && Pow2(8) == 16 * Pow2(4);
    assert Pow2(12) == 16 * Pow2(8) && Pow2(16) == 16 * Pow2(12);
    BitLenIs(65535, 16);
    Pow256Small();
    assert Magnitude(1) == Magnitude(0) + [1];
    SignedSingle(0xff);
    SignedAppend([0xff], 0x01);
    assert [0xff] + [0x01] == [0xff, 0x01];
  }
}
