/** The two encoders of fixed-width integers and the one decoder, in wrapping 64-bit arithmetic. */
module Integers {
  import opened Bytes
  import opened Types
  import TwosComplement

  const INT8 := 0x80
  const INT16 := 0x8000
  const INT32 := 0x8000_0000
  const INT64 := 0x8000_0000_0000_0000

  /** putBinaryTupleInt: the narrowest width accepted for the kind; BIGINT never uses one byte. */
  function PutBinaryTupleInt(kind: Kind, n: Int64): (r: Outcome<seq<Byte>>) {
    match kind
    case BtInt8 =>
      if !Fits(n, INT8) then Err(DoesNotFit(kind)) else Ok(PutLE(n, 1))
    case BtInt16 =>
      if Fits(n, INT8) then Ok(PutLE(n, 1))
      else if !Fits(n, INT16) then Err(DoesNotFit(kind))
      else Ok(PutLE(n, 2))
    case BtInt32 =>
      if Fits(n, INT8) then Ok(PutLE(n, 1))
      else if Fits(n, INT16) then Ok(PutLE(n, 2))
      else if !Fits(n, INT32) then Err(DoesNotFit(kind))
      else Ok(PutLE(n, 4))
    case BtInt64 =>
      if Fits(n, INT16) then Ok(PutLE(n, 2))
      else if Fits(n, INT32) then Ok(PutLE(n, 4))
      else Ok(PutLE(n, 8))
    case _ => Err(UnsupportedKind)
  }

  /** encodeIntLe: the narrowest of 1, 2, 4 and 8 bytes. */
  function EncodeIntLe(v: Int64): (bs: seq<Byte>) {
    if Fits(v, INT8) then PutLE(v, 1)
    else if Fits(v, INT16) then PutLE(v, 2)
    else if Fits(v, INT32) then PutLE(v, 4)
    else PutLE(v, 8)
  }

  function HalfRange(kind: Kind): (m: int)
    ensures m > 0
  {
    match kind
    case BtInt8 => INT8
    case BtInt16 => INT16
    case BtInt32 => INT32
    case _ => INT64
  }

  predicate IsIntKind(kind: Kind) {
    kind.BtInt8? || kind.BtInt16? || kind.BtInt32? || kind.BtInt64?
  }

  lemma Accumulate(raw: seq<Byte>, i: nat)
    requires i < |raw| <= 8
    ensures BE(raw[..i + 1]) == 256 * BE(raw[..i]) + raw[i] < TWO64
    ensures BE(raw[..i]) * 256 % TWO64 == BE(raw[..i]) * 256
  {
    assert raw[..i + 1][..i] == raw[..i];
    BEBound(raw[..i + 1]);
    Pow256Monotone(i + 1, 8);
    Pow256Small();
  }

  lemma ShortPower(k: nat)
    requires k < 8
    ensures Pow256(k) <= INT64
  {
    Pow256Monotone(k, 7);
    Pow256Small();
    assert Pow256(8) == 256 * Pow256(7);
  }

  lemma WrapUpperHalf(n: int)
    requires INT64 <= n < TWO64
    ensures n % TWO64 == n && (n - TWO64) % TWO64 == n
    ensures Wrap(n, INT64) == n - TWO64
  {}

  /** The unsigned value, its wrapped difference and the int64 conversion agree with the signed reading. */
  lemma TopBit(raw: seq<Byte>)
    requires 0 < |raw| <= 8
    ensures BE(raw) < TWO64
    ensures raw[0] < 0x80 ==> Wrap(BE(raw), INT64) == TwosComplement.Signed(raw)
    ensures raw[0] >= 0x80 ==>
              Wrap((BE(raw) - (if |raw| >= 8 then 0 else Pow256(|raw|))) % TWO64, INT64) == TwosComplement.Signed(raw)
  {
    BEBound(raw);
    TwosComplement.SignBitFromSize(raw);
    var n := BE(raw);
    if |raw| == 8 {
      Pow256Small();
      if raw[0] >= 0x80 { WrapUpperHalf(n); } else { WrapFits(n, INT64); }
    } else {
      ShortPower(|raw|);
      if raw[0] >= 0x80 { WrapUpperHalf(n - Pow256(|raw|) + TWO64); } else { WrapFits(n, INT64); }
    }
  }

  /**
   * decodeBigEndianTwosComplement: accumulates in a uint64 and subtracts 2^(8 len) modulo 2^64.
   * For eight bytes Go's shift by 64 gives 0, and the conversion to int64 does the subtraction instead.
   */
  method DecodeBigEndianTwosComplement(raw: seq<Byte>) returns (r: Outcome<int>)
    ensures r == if |raw| > 8 then Err(IntegerLength) else Ok(TwosComplement.Signed(raw))
  {
    if |raw| == 0 {
      return Ok(0);
    }
    if |raw| > 8 {
      return Err(IntegerLength);
    }
    var v := 0;
    for i := 0 to |raw|
      invariant v == BE(raw[..i]) < TWO64
    {
      Accumulate(raw, i);
      v := (v * 256 % TWO64) + raw[i];
    }
    assert raw[..|raw|] == raw;
    TopBit(raw);
    if raw[0] >= 0x80 {
      var shifted := if |raw| >= 8 then 0 else Pow256(|raw|);
      v := (v - shifted) % TWO64;
    }
    r := Ok(Wrap(v, INT64));
  }

  /** w bytes written little-endian, reversed and read as big-endian two's complement give the number back. */
  lemma NarrowRoundTrip(n: int, w: nat)
    requires w > 0 && -(Pow256(w) as int) <= 2 * n < Pow256(w)
    ensures TwosComplement.Signed(Reverse(PutLE(n, w))) == n
  {
    var u := if n < 0 then n + Pow256(w) else n;
    PutLEModulo(n, w);
    ReadPutLE(u, w);
    ReversedLittleIsBig(PutLE(n, w));
    TwosComplement.SignBitFromSize(Reverse(PutLE(n, w)));
  }

  lemma OneByteReversed(n: int)
    ensures Reverse(PutLE(n, 1)) == PutLE(n, 1)
  {
    ReverseAt(PutLE(n, 1), 0);
  }

  /**
   * Encoding succeeds exactly on the kind's range, and every encoded integer is read back,
   * also when the reader does not reverse the single byte of a TINYINT.
   */
  lemma IntRoundTrip(kind: Kind, n: Int64)
    requires IsIntKind(kind)
    ensures PutBinaryTupleInt(kind, n).Ok? <==> Fits(n, HalfRange(kind))
    ensures PutBinaryTupleInt(kind, n).Ok? ==>
              var bs := PutBinaryTupleInt(kind, n).value;
              && 0 < |bs| <= 8
              && TwosComplement.Signed(if kind.BtInt8? then bs else Reverse(bs)) == n
              && Wrap(n, HalfRange(kind)) == n
  {
    Pow256Small();
    OneByteReversed(n);
    if Fits(n, INT8) { NarrowRoundTrip(n, 1); }
    if Fits(n, INT16) { NarrowRoundTrip(n, 2); }
    if Fits(n, INT32) { NarrowRoundTrip(n, 4); }
    NarrowRoundTrip(n, 8);
    if Fits(n, HalfRange(kind)) {
      WrapFits(n, HalfRange(kind));
    }
  }

  /** The SQL-argument encoder is read back for every int64. */
  lemma EncodeIntLeRoundTrip(v: Int64)
    ensures var bs := EncodeIntLe(v); 0 < |bs| <= 8 && TwosComplement.Signed(Reverse(bs)) == v
  {
    Pow256Small();
    if Fits(v, INT8) { NarrowRoundTrip(v, 1); }
    else if Fits(v, INT16) { NarrowRoundTrip(v, 2); }
    else if Fits(v, INT32) { NarrowRoundTrip(v, 4); }
    else { NarrowRoundTrip(v, 8); }
  }

  /** Wherever both encoders accept a number they write the same bytes, but for BIGINT in one byte's range. */
  lemma IntEncodersAgree(kind: Kind, n: Int64)
    requires IsIntKind(kind) && Fits(n, HalfRange(kind))
    ensures PutBinaryTupleInt(kind, n) == Ok(EncodeIntLe(n)) <==> !(kind.BtInt64? && Fits(n, INT8))
  {
    if kind.BtInt64? && Fits(n, INT8) {
      assert PutBinaryTupleInt(kind, n) == Ok(PutLE(n, 2)) && EncodeIntLe(n) == PutLE(n, 1);
      assert |PutLE(n, 2)| != |PutLE(n, 1)|;
    }
  }

  /** Where they differ, both byte strings are read as the same number. */
  lemma IntEncodersSameValue(kind: Kind, n: Int64)
    requires IsIntKind(kind) && Fits(n, HalfRange(kind))
    ensures PutBinaryTupleInt(kind, n).Ok?
    ensures TwosComplement.Signed(Reverse(PutBinaryTupleInt(kind, n).value))
            == TwosComplement.Signed(Reverse(EncodeIntLe(n)))
  {
    IntRoundTrip(kind, n);
    EncodeIntLeRoundTrip(n);
    OneByteReversed(n);
  }
}
