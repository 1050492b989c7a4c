/** The integer, nil, binary and extension families of MessagePack, and length-prefixed frames. */
module Msgpack {
  import opened Bytes
  import opened Types

  function PutBE(n: int, w: nat): (bs: seq<Byte>)
    ensures |bs| == w
  {
    Reverse(PutLE(n, w))
  }

  lemma ReadPutBE(n: nat, w: nat)
    requires n < Pow256(w)
    ensures BE(PutBE(n, w)) == n
  {
    ReversedLittleIsBig(PutLE(n, w));
    ReadPutLE(n, w);
  }

  /** Integers in the shortest of fixint, 1, 2, 4 and 8 bytes, unsigned formats for non-negative numbers. */
  function EncodeInt(n: Int64): (bs: seq<Byte>)
    ensures bs != []
  {
    if 0 <= n < 0x80 then [n]
    else if 0 <= n < TWO8 then [0xcc] + PutBE(n, 1)
    else if 0 <= n < TWO16 then [0xcd] + PutBE(n, 2)
    else if 0 <= n < TWO32 then [0xce] + PutBE(n, 4)
    else if 0 <= n then [0xcf] + PutBE(n, 8)
    else if -0x20 <= n then [n + TWO8]
    else if -0x80 <= n then [0xd0] + PutBE(n + TWO8, 1)
    else if -0x8000 <= n then [0xd1] + PutBE(n + TWO16, 2)
    else if -0x8000_0000 <= n then [0xd2] + PutBE(n + TWO32, 4)
    else [0xd3] + PutBE(n + TWO64, 8)
  }

  /** Payload width and signed bias of a multi-byte integer format. */
  function IntFormat(head: Byte): (f: Option<(nat, int)>) {
    if head == 0xcc then Some((1, 0))
    else if head == 0xcd then Some((2, 0))
    else if head == 0xce then Some((4, 0))
    else if head == 0xcf then Some((8, 0))
    else if head == 0xd0 then Some((1, TWO8))
    else if head == 0xd1 then Some((2, TWO16))
    else if head == 0xd2 then Some((4, TWO32))
    else if head == 0xd3 then Some((8, TWO64))
    else None
  }

  datatype Decoded<+T> = Decoded(value: T, rest: seq<Byte>)

  function DecodeInt(bs: seq<Byte>): (r: Option<Decoded<int>>)
    ensures r.Some? ==> |r.value.rest| < |bs|
  {
    if bs == [] then None
    else if bs[0] < 0x80 then Some(Decoded(bs[0], bs[1..]))
    else if bs[0] >= 0xe0 then Some(Decoded(bs[0] - TWO8, bs[1..]))
    else
      match IntFormat(bs[0])
      case None => None
      case Some((w, bias)) =>
        if |bs| < 1 + w then None
        else
          var u := BE(bs[1..1 + w]);
          Some(Decoded(if 2 * u >= bias > 0 then u - bias else u, bs[1 + w..]))
  }

  lemma DecodePayload(head: Byte, w: nat, bias: int, u: nat, rest: seq<Byte>)
    requires 0x80 <= head < 0xe0 && IntFormat(head) == Some((w, bias)) && u < Pow256(w)
    ensures DecodeInt([head] + PutBE(u, w) + rest) == Some(Decoded(if 2 * u >= bias > 0 then u - bias else u, rest))
  {
    var bs := [head] + PutBE(u, w) + rest;
    assert bs[1..1 + w] == PutBE(u, w) && bs[1 + w..] == rest;
    ReadPutBE(u, w);
  }

  /** Integers are self-delimiting: whatever follows, the integer and the rest are recovered. */
  lemma IntReadsBack(n: Int64, rest: seq<Byte>)
    ensures DecodeInt(EncodeInt(n) + rest) == Some(Decoded(n, rest))
  {
    Pow256Small();
    var bs := EncodeInt(n) + rest;
    if -0x20 <= n < 0x80 {
      assert bs[1..] == rest;
    } else if 0 <= n {
      if n < TWO8 { DecodePayload(0xcc, 1, 0, n, rest); }
      else if n < TWO16 { DecodePayload(0xcd, 2, 0, n, rest); }
      else if n < TWO32 { DecodePayload(0xce, 4, 0, n, rest); }
      else { DecodePayload(0xcf, 8, 0, n, rest); }
    } else {
      if -0x80 <= n { DecodePayload(0xd0, 1, TWO8, n + TWO8, rest); }
      else if -0x8000 <= n { DecodePayload(0xd1, 2, TWO16, n + TWO16, rest); }
      else if -0x8000_0000 <= n { DecodePayload(0xd2, 4, TWO32, n + TWO32, rest); }
      else { DecodePayload(0xd3, 8, TWO64, n + TWO64, rest); }
    }
  }

  /** No proper prefix of a packed integer decodes. */
  lemma IntIncomplete(n: Int64, k: nat)
    requires k < |EncodeInt(n)|
    ensures DecodeInt(EncodeInt(n)[..k]).None?
  {
    if k > 0 {
      var bs := EncodeInt(n);
      assert IntFormat(bs[0]).Some? && |bs| == 1 + IntFormat(bs[0]).value.0;
      assert bs[..k][0] == bs[0];
    }
  }

  /** The width of a multi-byte format bounds what it can hold. */
  lemma PayloadBound(bs: seq<Byte>, w: nat)
    requires |bs| == w && w in {1, 2, 4}
    ensures BE(bs) < if w == 1 then TWO8 else if w == 2 then TWO16 else TWO32
  {
    BEBound(bs);
    Pow256Small();
  }

  /** No byte string that decodes as n is shorter than the packed n. */
  lemma IntIsShortest(n: Int64, bs: seq<Byte>)
    requires DecodeInt(bs) == Some(Decoded(n, []))
    ensures |EncodeInt(n)| <= |bs|
  {
    if 0x80 <= bs[0] < 0xe0 {
      var (w, bias) := IntFormat(bs[0]).value;
      assert |bs| == 1 + w;
      if w < 8 {
        PayloadBound(bs[1..1 + w], w);
      }
    }
  }

  /** DecodeInt64 and DecodeInt8 of the library: the decoded number, wrapped to the width. */
  function DecodeInt64(bs: seq<Byte>): (r: Option<Decoded<int>>)
    ensures r.Some? ==> |r.value.rest| < |bs| && Fits(r.value.value, 0x8000_0000_0000_0000)
  {
    match DecodeInt(bs)
    case None => None
    case Some(d) => Some(Decoded(Wrap(d.value, 0x8000_0000_0000_0000), d.rest))
  }

  function DecodeInt8(bs: seq<Byte>): (r: Option<Decoded<int>>) {
    match DecodeInt(bs)
    case None => None
    case Some(d) => Some(Decoded(Wrap(d.value, 0x80), d.rest))
  }

  lemma Int64ReadsBack(n: Int64, rest: seq<Byte>)
    ensures DecodeInt64(EncodeInt(n) + rest) == Some(Decoded(n, rest))
  {
    IntReadsBack(n, rest);
    WrapFits(n, 0x8000_0000_0000_0000);
  }

  lemma Int8ReadsBack(n: Int64, rest: seq<Byte>)
    ensures DecodeInt8(EncodeInt(n) + rest) == Some(Decoded(Wrap(n, 0x80), rest))
  {
    IntReadsBack(n, rest);
  }

  lemma EncodedIntBound(n: Int64)
    ensures |EncodeInt(n)| <= 9
  {}

  const NIL: Byte := 0xc0

  /** Binary strings with an 8-, 16- or 32-bit length; a longer one has its length truncated to 32 bits. */
  function EncodeBin(b: seq<Byte>): (bs: seq<Byte>) {
    if |b| < TWO8 then [0xc4] + PutBE(|b|, 1) + b
    else if |b| < TWO16 then [0xc5] + PutBE(|b|, 2) + b
    else [0xc6] + PutBE(|b|, 4) + b
  }

  function BinWidth(head: Byte): (w: Option<nat>) {
    if head == 0xc4 then Some(1) else if head == 0xc5 then Some(2) else if head == 0xc6 then Some(4) else None
  }

  function DecodeBin(bs: seq<Byte>): (r: Option<Decoded<seq<Byte>>>)
    ensures r.Some? ==> |r.value.rest| < |bs|
  {
    if bs == [] then None
    else
      match BinWidth(bs[0])
      case None => None
      case Some(w) =>
        if |bs| < 1 + w then None
        else
          var n := BE(bs[1..1 + w]);
          if |bs| < 1 + w + n then None else Some(Decoded(bs[1 + w..1 + w + n], bs[1 + w + n..]))
  }

  lemma DecodeBinPayload(head: Byte, w: nat, b: seq<Byte>, rest: seq<Byte>)
    requires BinWidth(head) == Some(w) && |b| < Pow256(w)
    ensures DecodeBin([head] + PutBE(|b|, w) + b + rest) == Some(Decoded(b, rest))
  {
    Carve(head, PutBE(|b|, w), b, rest);
    ReadPutBE(|b|, w);
  }

  lemma BinReadsBack(b: seq<Byte>, rest: seq<Byte>)
    requires |b| < TWO32
    ensures DecodeBin(EncodeBin(b) + rest) == Some(Decoded(b, rest))
  {
    Pow256Small();
    if |b| < TWO8 { DecodeBinPayload(0xc4, 1, b, rest); }
    else if |b| < TWO16 { DecodeBinPayload(0xc5, 2, b, rest); }
    else { DecodeBinPayload(0xc6, 4, b, rest); }
  }

  /** No byte string that decodes as b is shorter than the packed b. */
  lemma BinIsShortest(b: seq<Byte>, bs: seq<Byte>)
    requires DecodeBin(bs) == Some(Decoded(b, [])) && |b| < TWO32
    ensures |EncodeBin(b)| <= |bs|
  {
    var w := BinWidth(bs[0]).value;
    PayloadBound(bs[1..1 + w], w);
  }

  /** Text: fixstr up to 31 bytes, then 8-, 16- and 32-bit lengths. */
  function EncodeStr(t: seq<Byte>): (bs: seq<Byte>) {
    if |t| < 32 then [0xa0 + |t|] + t
    else if |t| < TWO8 then [0xd9] + PutBE(|t|, 1) + t
    else if |t| < TWO16 then [0xda] + PutBE(|t|, 2) + t
    else [0xdb] + PutBE(|t|, 4) + t
  }

  function StrWidth(head: Byte): (w: Option<nat>) {
    if head == 0xd9 then Some(1) else if head == 0xda then Some(2) else if head == 0xdb then Some(4) else None
  }

  function DecodeStr(bs: seq<Byte>): (r: Option<Decoded<seq<Byte>>>) {
    if bs == [] then None
    else if 0xa0 <= bs[0] < 0xc0 then
      var n := bs[0] - 0xa0;
      if |bs| < 1 + n then None else Some(Decoded(bs[1..1 + n], bs[1 + n..]))
    else
      match StrWidth(bs[0])
      case None => None
      case Some(w) =>
        if |bs| < 1 + w then None
        else
          var n := BE(bs[1..1 + w]);
          if |bs| < 1 + w + n then None else Some(Decoded(bs[1 + w..1 + w + n], bs[1 + w + n..]))
  }

  lemma DecodeStrPayload(head: Byte, w: nat, t: seq<Byte>, rest: seq<Byte>)
    requires StrWidth(head) == Some(w) && |t| < Pow256(w)
    ensures DecodeStr([head] + PutBE(|t|, w) + t + rest) == Some(Decoded(t, rest))
  {
    Carve(head, PutBE(|t|, w), t, rest);
    ReadPutBE(|t|, w);
  }

  lemma StrReadsBack(t: seq<Byte>, rest: seq<Byte>)
    requires |t| < TWO32
    ensures DecodeStr(EncodeStr(t) + rest) == Some(Decoded(t, rest))
  {
    Pow256Small();
    if |t| < 32 {
      var bs := [0xa0 + |t|] + t + rest;
      assert bs[1..1 + |t|] == t && bs[1 + |t|..] == rest;
    }
    else if |t| < TWO8 { DecodeStrPayload(0xd9, 1, t, rest); }
    else if |t| < TWO16 { DecodeStrPayload(0xda, 2, t, rest); }
    else { DecodeStrPayload(0xdb, 4, t, rest); }
  }

  /** No proper prefix of a packed text decodes. */
  lemma StrIncomplete(t: seq<Byte>, k: nat)
    requires |t| < TWO32 && k < |EncodeStr(t)|
    ensures DecodeStr(EncodeStr(t)[..k]).None?
  {
    Pow256Small();
    var bs := EncodeStr(t);
    var w := if |t| < 32 then 0 else if |t| < TWO8 then 1 else if |t| < TWO16 then 2 else 4;
    if k > 0 {
      assert bs[..k][0] == bs[0] && |bs| == 1 + w + |t|;
      if w > 0 && k >= 1 + w {
        assert bs[..k][1..1 + w] == bs[1..1 + w] == PutBE(|t|, w);
        ReadPutBE(|t|, w);
      }
    }
  }

  /** A UUID is a 16-byte extension of type 3, in wire byte order. */
  function EncodeUuid(u: Uuid16): (bs: seq<Byte>) {
    [0xd8, 0x03] + u
  }

  function DecodeUuid(bs: seq<Byte>): (r: Option<Decoded<Uuid16>>) {
    if |bs| < 18 || bs[..2] != [0xd8, 0x03] then None else Some(Decoded(bs[2..18], bs[18..]))
  }

  lemma UuidReadsBack(u: Uuid16, rest: seq<Byte>)
    ensures DecodeUuid(EncodeUuid(u) + rest) == Some(Decoded(u, rest))
  {
    var bs := EncodeUuid(u) + rest;
    assert bs[..2] == [0xd8, 0x03] && bs[2..18] == u && bs[18..] == rest;
  }

  // ---------------------------------------------------------------- frames

  /** A message with its length, a big-endian int32, in front. */
  function LengthPrefixed(payload: seq<Byte>): (bs: seq<Byte>) {
    PutBE(|payload|, 4) + payload
  }

  /** Whether a whole frame has arrived, given that its length is an int32 that is not negative. */
  predicate FrameArrived(bs: seq<Byte>) {
    |bs| >= 4 && |bs| >= 4 + BE(bs[..4])
  }

  lemma PrefixReadsBack(payload: seq<Byte>, rest: seq<Byte>)
    requires |payload| <= MAX_INT32
    ensures var bs := LengthPrefixed(payload) + rest;
            && FrameArrived(bs) && BE(bs[..4]) == |payload|
            && bs[4..4 + |payload|] == payload && bs[4 + |payload|..] == rest
  {
    var bs := LengthPrefixed(payload) + rest;
    assert bs[..4] == PutBE(|payload|, 4);
    Pow256Small();
    ReadPutBE(|payload|, 4);
  }

  /** No proper prefix of a frame counts as arrived. */
  lemma PrefixIncomplete(payload: seq<Byte>, k: nat)
    requires |payload| <= MAX_INT32 && k <= |LengthPrefixed(payload)|
    ensures FrameArrived(LengthPrefixed(payload)[..k]) <==> k == |LengthPrefixed(payload)|
  {
    var bs := LengthPrefixed(payload);
    PrefixReadsBack(payload, []);
    assert bs + [] == bs;
    if k >= 4 {
      assert bs[..k][..4] == bs[..4];
    }
    assert bs[..|bs|] == bs;
  }
}
