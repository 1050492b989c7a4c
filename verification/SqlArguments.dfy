/** SQL arguments: (type, scale, value) triples in the container of a binary tuple. */
module SqlArguments {
  import opened Bytes
  import opened Types
  import opened Integers
  import opened Elements
  import opened BinaryTuple
  import opened TupleReader
  import TwosComplement
  import Temporal
  import Uuids

  /** The Go types that AddValue accepts; int counts as ArgInt64 and byte as ArgByte. */
  datatype Argument =
    | ArgNil
    | ArgBool(b: bool)
    | ArgByte(byte: Byte)
    | ArgInt8(i8: int)
    | ArgInt16(i16: int)
    | ArgInt32(i32: int)
    | ArgInt64(i64: Int64)
    | ArgFloat32(bits32: Uint32)
    | ArgFloat64(bits64: Uint64)
    | ArgBytes(data: seq<Byte>)
    | ArgString(text: seq<Byte>)
    | ArgDecimal(unscaled: int, scale: int)
    | ArgUuid(uuid: Uuid16)
    | ArgDateTime(datetime: Moment)
    | ArgDate(date: Moment)
    | ArgTime(time: Moment)
    | ArgTimestamp(timestamp: Moment)
    | ArgOther
  {
    predicate Valid() {
      match this
      case ArgInt8(n) => Fits(n, INT8)
      case ArgInt16(n) => Fits(n, INT16)
      case ArgInt32(n) => Fits(n, INT32)
      case _ => true
    }
  }

  function Triple(typ: int, value: seq<Byte>): (t: TypeScaleValue) {
    TypeScaleValue(typ, 0, 0, value)
  }

  function TripleOf(typ: int, r: Outcome<seq<Byte>>): (t: Outcome<TypeScaleValue>) {
    match r
    case Ok(bs) => Ok(Triple(typ, bs))
    case Err(e) => Err(e)
    case Panic => Panic
  }

  /** What AddValue appends, or its error. Strings and byte arrays are written without an escape. */
  function ArgumentTriple(a: Argument): (t: Outcome<TypeScaleValue>)
    requires a.Valid()
  {
    match a
    case ArgNil => Ok(Triple(TYPE_NULL, []))
    case ArgBool(b) => Ok(Triple(TYPE_BOOLEAN, [if b then 1 else 0]))
    case ArgByte(b) => Ok(Triple(TYPE_TINYINT, [b]))
    case ArgInt8(n) => Ok(Triple(TYPE_TINYINT, [n % 256]))
    case ArgInt16(n) => Ok(Triple(TYPE_SMALLINT, EncodeIntLe(n)))
    case ArgInt32(n) => Ok(Triple(TYPE_INT, EncodeIntLe(n)))
    case ArgInt64(n) => Ok(Triple(TYPE_BIGINT, EncodeIntLe(n)))
    case ArgFloat32(bits) => Ok(Triple(TYPE_REAL, PutLE(bits, 4)))
    case ArgFloat64(bits) => Ok(Triple(TYPE_DOUBLE, PutLE(bits, 8)))
    case ArgBytes(data) => Ok(Triple(TYPE_VARBINARY, data))
    case ArgString(text) => Ok(Triple(TYPE_VARCHAR, text))
    case ArgDecimal(u, s) =>
      if !Fits(s, INT16) then Err(ScaleRange)
      else Ok(TypeScaleValue(TYPE_DECIMAL, s, 0, PutLE(s, 2) + TwosComplement.EncodeDecimalUnscaled(u)))
    case ArgUuid(u) => Ok(Triple(TYPE_UUID, Uuids.Flipped(u)))
    case ArgDateTime(t) => TripleOf(TYPE_DATETIME, EncodeMomentDateTime(t))
    case ArgDate(t) => TripleOf(TYPE_DATE, Temporal.EncodeDate(t.year, t.month, t.day))
    case ArgTime(t) => TripleOf(TYPE_TIME, Temporal.EncodeTimeSpec(t.hour, t.minute, t.second, t.nsec))
    case ArgTimestamp(t) => Ok(Triple(TYPE_TIMESTAMP, PutLE(t.unix, 8) + PutLE(t.nsec, 4)))
    case ArgOther => Err(Unconvertible)
  }

  // ---------------------------------------------------------------- argument values

  function ExpectedArgument(a: Argument): (r: Read) {
    match a
    case ArgNil | ArgOther => RNil
    case ArgBool(b) => RBool(b)
    case ArgByte(b) => RInt(Wrap(b, INT8))
    case ArgInt8(n) => RInt(n)
    case ArgInt16(n) => RInt(n)
    case ArgInt32(n) => RInt(n)
    case ArgInt64(n) => RInt(n)
    case ArgFloat32(bits) => RFloat32(bits)
    case ArgFloat64(bits) => RFloat64(bits)
    case ArgBytes(data) => RBin(data)
    case ArgString(text) => RStr(text)
    case ArgDecimal(u, s) => RDecimal(u, s)
    case ArgUuid(u) => RUuid(u)
    case ArgDateTime(t) => RDateTime(t.year, t.month, t.day, Temporal.ClockNanos(t.hour, t.minute, t.second, t.nsec))
    case ArgDate(t) => RDate(t.year, t.month, t.day)
    case ArgTime(t) => RClock(Temporal.ClockNanos(t.hour, t.minute, t.second, t.nsec))
    case ArgTimestamp(t) => RTimestamp(t.unix, t.nsec)
  }

  /** The arguments whose value bytes the tuple reader understands, at the precision it reads times with. */
  predicate ArgumentSurvives(a: Argument, precision: int) {
    match a
    case ArgBytes(data) => data != [] && data[0] != VARLEN_EMPTY
    case ArgString(text) => text != [] && text[0] != VARLEN_EMPTY
    case ArgDecimal(u, _) => !TwosComplement.LosesLeadingZero(u)
    case ArgDateTime(t) => t.year >= 0 && ClockOf(precision, t, true)
    case ArgDate(t) => t.year >= 0
    case ArgTime(t) => ClockOf(precision, t, false)
    case _ => true
  }

  predicate ArgumentReadsBack(a: Argument, precision: int)
    requires a.Valid() && ArgumentTriple(a).Ok?
  {
    var t := ArgumentTriple(a).value;
    ReadValue(KeptValue(t.typ, t.value), precision, t.typ) == Ok(ExpectedArgument(a))
  }

  lemma ByteArgument(b: Byte, n: int)
    requires Fits(n, INT8) && b == n % 256
    ensures ReadInt([b], INT8) == Ok(RInt(n))
  {
    TwosComplement.SignedSingle(b);
    WrapFits(n, INT8);
  }

  lemma WideArgument(n: Int64, half: int)
    requires Fits(n, half) && half > 0
    ensures ReadInt(Reverse(EncodeIntLe(n)), half) == Ok(RInt(n)) && Reverse(EncodeIntLe(n)) != []
  {
    EncodeIntLeRoundTrip(n);
    WrapFits(n, half);
  }

  lemma IntArgument(a: Argument, precision: int)
    requires a.Valid() && (a.ArgByte? || a.ArgInt8? || a.ArgInt16? || a.ArgInt32? || a.ArgInt64?)
    ensures ArgumentReadsBack(a, precision)
  {
    match a {
      case ArgByte(b) => ByteArgument(b, Wrap(b, INT8));
      case ArgInt8(n) => ByteArgument(n % 256, n);
      case ArgInt16(n) => WideArgument(n, INT16);
      case ArgInt32(n) => WideArgument(n, INT32);
      case ArgInt64(n) => WideArgument(n, INT64);
    }
  }

  lemma DecimalArgument(u: int, s: int, precision: int)
    requires Fits(s, INT16)
    ensures ArgumentReadsBack(ArgDecimal(u, s), precision) <==> !TwosComplement.LosesLeadingZero(u)
  {
    SideBySide(PutLE(s, 2), TwosComplement.EncodeDecimalUnscaled(u));
    ReadInt16(s);
    WrapFits(s, INT16);
    TwosComplement.EncodeDecimalUnscaledExact(u);
  }

  lemma TimestampArgument(t: Moment, precision: int)
    ensures ArgumentReadsBack(ArgTimestamp(t), precision)
  {
    SideBySide(PutLE(t.unix, 8), PutLE(t.nsec, 4));
    ReadInt64(t.unix);
    Pow256Small();
    ReadPutLE(t.nsec, 4);
  }

  lemma UuidArgument(u: Uuid16, precision: int)
    ensures ArgumentReadsBack(ArgUuid(u), precision)
  {
    Uuids.FlippedTwice(u);
    assert Uuids.Flipped(u)[..16] == Uuids.Flipped(u);
  }

  lemma TextArgument(t: seq<Byte>)
    ensures StripEscape(t) == t && t != [] <==> t != [] && t[0] != VARLEN_EMPTY
  {}

  /** Arguments that are copied: floats, texts and byte arrays. */
  lemma CopiedArgument(a: Argument, precision: int)
    requires a.ArgFloat32? || a.ArgFloat64? || a.ArgBytes? || a.ArgString?
    ensures ArgumentReadsBack(a, precision) <==> ArgumentSurvives(a, precision)
  {
    match a {
      case ArgFloat32(bits) => FloatReadsBack(bits, 4);
      case ArgFloat64(bits) => FloatReadsBack(bits, 8);
      case ArgBytes(data) => TextArgument(data);
      case ArgString(text) => TextArgument(text);
    }
  }

  lemma DateArgument(t: Moment, precision: int)
    requires ArgumentTriple(ArgDate(t)).Ok?
    ensures ArgumentReadsBack(ArgDate(t), precision) <==> t.year >= 0
  {
    DateReadsBack(t);
    PrecisionOnlyForTimes(ArgumentTriple(ArgDate(t)).value.value, 0, precision, TYPE_DATE);
  }

  lemma TimeArgument(t: Moment, precision: int)
    requires ArgumentTriple(ArgTime(t)).Ok?
    ensures ArgumentReadsBack(ArgTime(t), precision) <==> ClockOf(precision, t, false)
  {
    TimeReadsBack(t, precision);
  }

  lemma DateTimeArgument(t: Moment, precision: int)
    requires ArgumentTriple(ArgDateTime(t)).Ok?
    ensures ArgumentReadsBack(ArgDateTime(t), precision) <==> t.year >= 0 && ClockOf(precision, t, true)
  {
    DateTimeReadsBack(t, precision);
    ReadsAsDateTime(EncodeMomentDateTime(t).value, precision);
  }

  /** The value bytes of an accepted argument read back as the argument exactly on this domain. */
  lemma ArgumentRoundTrip(a: Argument, precision: int)
    requires a.Valid() && ArgumentTriple(a).Ok?
    ensures ArgumentReadsBack(a, precision) <==> ArgumentSurvives(a, precision)
  {
    match a {
      case ArgByte(_) | ArgInt8(_) | ArgInt16(_) | ArgInt32(_) | ArgInt64(_) => IntArgument(a, precision);
      case ArgFloat32(_) | ArgFloat64(_) | ArgBytes(_) | ArgString(_) => CopiedArgument(a, precision);
      case ArgDecimal(u, s) => DecimalArgument(u, s, precision);
      case ArgUuid(u) => UuidArgument(u, precision);
      case ArgDateTime(t) => DateTimeArgument(t, precision);
      case ArgDate(t) => DateArgument(t, precision);
      case ArgTime(t) => TimeArgument(t, precision);
      case ArgTimestamp(t) => TimestampArgument(t, precision);
      case _ =>
    }
  }

  // ---------------------------------------------------------------- framing

  function ScaleLength(scale: int): (n: nat) {
    if scale < 0xff then 1 else 2
  }

  /** NULL counts for nothing in the running totals. */
  function Length(v: TypeScaleValue): (n: nat) {
    if v.typ == TYPE_NULL then 0 else 1 + ScaleLength(v.scale) + |v.value|
  }

  function Total(values: seq<TypeScaleValue>): (n: nat) {
    if values == [] then 0 else Total(values[..|values| - 1]) + Length(values[|values| - 1])
  }

  function EntrySizeFor(total: nat): (w: nat) {
    if total < 0xff then 1 else if total < 0xffff then 2 else if total < 0xffff_ffff then 4 else 8
  }

  function ToHeader(w: nat): (h: Byte) {
    if w == 8 then 3 else w / 2 % 256
  }

  lemma HeaderInverts(w: nat)
    requires w == 1 || w == 2 || w == 4 || w == 8
    ensures EntrySizeOf(ToHeader(w)) == Some(w)
  {}

  /** The three pieces written to the value area for one argument, NULL included. */
  function Pieces(v: TypeScaleValue): (ps: seq<seq<Byte>>) {
    [[v.typ % 256], PutLE(v.scale, ScaleLength(v.scale)), v.value]
  }

  function AllPieces(values: seq<TypeScaleValue>): (ps: seq<seq<Byte>>)
    ensures |ps| == 3 * |values|
  {
    if values == [] then [] else AllPieces(values[..|values| - 1]) + Pieces(values[|values| - 1])
  }

  /** The three offsets written to the table for one argument, given where the previous one ended. */
  function OffsetTriple(previous: int, v: TypeScaleValue): (os: seq<int>) {
    [previous + 1, previous + 2, previous + Length(v)]
  }

  function ArgumentOffsets(values: seq<TypeScaleValue>): (os: seq<int>)
    ensures |os| == 3 * |values|
  {
    if values == [] then []
    else
      var init := values[..|values| - 1];
      ArgumentOffsets(init) + OffsetTriple(Total(init), values[|values| - 1])
  }

  function Encoded(offsets: seq<int>, w: nat): (entries: seq<seq<Byte>>)
    ensures |entries| == |offsets|
  {
    seq(|offsets|, i requires 0 <= i < |offsets| => PutLE(offsets[i], w))
  }

  /** Tuple.Bytes. */
  function ArgumentBytes(values: seq<TypeScaleValue>): (bs: seq<Byte>) {
    var w := EntrySizeFor(Total(values));
    [ToHeader(w)] + Concat(Encoded(ArgumentOffsets(values), w)) + Concat(AllPieces(values))
  }

  /** The end offsets that would cut the value area into its pieces. */
  function EndOffsets(parts: seq<seq<Byte>>): (os: seq<int>)
    ensures |os| == |parts|
  {
    seq(|parts|, i requires 0 <= i < |parts| => EndOffset(parts, i))
  }

  /** What the offset arithmetic silently assumes of an argument. */
  predicate Frameable(v: TypeScaleValue) {
    v.typ != TYPE_NULL && v.scale < 0xff
  }

  predicate AllFrameable(values: seq<TypeScaleValue>) {
    forall i :: 0 <= i < |values| ==> Frameable(values[i])
  }

  lemma EndOffsetsAppend(parts: seq<seq<Byte>>, a: seq<Byte>, b: seq<Byte>, c: seq<Byte>)
    ensures var n := |Concat(parts)|;
            EndOffsets(parts + [a, b, c]) == EndOffsets(parts) + [n + |a|, n + |a| + |b|, n + |a| + |b| + |c|]
    ensures |Concat(parts + [a, b, c])| == |Concat(parts)| + |a| + |b| + |c|
  {
    var all := parts + [a, b, c];
    forall i | 0 <= i < |parts| ensures EndOffset(all, i) == EndOffset(parts, i) {
      assert all[..i + 1] == parts[..i + 1];
    }
    var k := |parts|;
    assert all[..k + 1] == parts + [a];
    assert all[..k + 2] == (parts + [a]) + [b];
    assert all[..k + 3] == ((parts + [a]) + [b]) + [c] && all == all[..k + 3];
    ConcatAppend(parts, a);
    ConcatAppend(parts + [a], b);
    ConcatAppend(parts + [a] + [b], c);
  }

  /** Arguments that satisfy the assumption fill the value area exactly as their running total says. */
  lemma {:induction false} FrameableTotal(values: seq<TypeScaleValue>)
    requires AllFrameable(values)
    ensures Total(values) == |Concat(AllPieces(values))|
  {
    if values != [] {
      var last := |values| - 1;
      FrameableTotal(values[..last]);
      var ps := Pieces(values[last]);
      EndOffsetsAppend(AllPieces(values[..last]), ps[0], ps[1], ps[2]);
    }
  }

  lemma SameTriple(previous: int, n: int, v: TypeScaleValue)
    ensures OffsetTriple(previous, v) == [n + 1, n + 1 + ScaleLength(v.scale), n + 1 + ScaleLength(v.scale) + |v.value|]
            <==> previous == n && Frameable(v)
  {
    if OffsetTriple(previous, v) == [n + 1, n + 1 + ScaleLength(v.scale), n + 1 + ScaleLength(v.scale) + |v.value|] {
      assert previous + 1 == n + 1;
      assert previous + 2 == n + 1 + ScaleLength(v.scale);
      assert previous + Length(v) == n + 1 + ScaleLength(v.scale) + |v.value|;
    }
  }

  lemma SplitSeq<T>(a: seq<T>, b: seq<T>, c: seq<T>, d: seq<T>)
    requires |a| == |c|
    ensures a + b == c + d <==> a == c && b == d
  {
    if a + b == c + d {
      assert a == (a + b)[..|a|] && c == (c + d)[..|a|];
      assert b == (a + b)[|a|..] && d == (c + d)[|a|..];
    }
  }

  /** Both lists of offsets grow by three for one more argument. */
  lemma OffsetStep(values: seq<TypeScaleValue>)
    requires values != []
    ensures var init, v := values[..|values| - 1], values[|values| - 1];
            var n := |Concat(AllPieces(init))|;
            var m := n + 1 + ScaleLength(v.scale);
            EndOffsets(AllPieces(values)) == EndOffsets(AllPieces(init)) + [n + 1, m, m + |v.value|]
  {
    var init := values[..|values| - 1];
    var ps := Pieces(values[|values| - 1]);
    EndOffsetsAppend(AllPieces(init), ps[0], ps[1], ps[2]);
  }

  /** So they agree exactly when they agreed before and the new three do. */
  lemma OffsetsAgree(values: seq<TypeScaleValue>)
    requires values != []
    ensures var init, v := values[..|values| - 1], values[|values| - 1];
            var n := |Concat(AllPieces(init))|;
            var m := n + 1 + ScaleLength(v.scale);
            ArgumentOffsets(values) == EndOffsets(AllPieces(values)) <==>
            && ArgumentOffsets(init) == EndOffsets(AllPieces(init))
            && OffsetTriple(Total(init), v) == [n + 1, m, m + |v.value|]
  {
    var init, v := values[..|values| - 1], values[|values| - 1];
    var n := |Concat(AllPieces(init))|;
    var m := n + 1 + ScaleLength(v.scale);
    OffsetStep(values);
    assert ArgumentOffsets(values) == ArgumentOffsets(init) + OffsetTriple(Total(init), v);
    SplitSeq<int>(ArgumentOffsets(init), OffsetTriple(Total(init), v),
                  EndOffsets(AllPieces(init)), [n + 1, m, m + |v.value|]);
  }

  lemma FrameableStep(values: seq<TypeScaleValue>)
    requires values != []
    ensures AllFrameable(values) <==> AllFrameable(values[..|values| - 1]) && Frameable(values[|values| - 1])
  {
    assert values == values[..|values| - 1] + [values[|values| - 1]];
  }

  /** The offsets, before they are narrowed to the entry size. */
  lemma {:induction false} OffsetFraming(values: seq<TypeScaleValue>)
    ensures ArgumentOffsets(values) == EndOffsets(AllPieces(values)) <==> AllFrameable(values)
  {
    if values != [] {
      var init, v := values[..|values| - 1], values[|values| - 1];
      OffsetFraming(init);
      FrameableStep(values);
      OffsetsAgree(values);
      if AllFrameable(init) {
        FrameableTotal(init);
        SameTriple(Total(init), |Concat(AllPieces(init))|, v);
      }
    }
  }

  lemma EncodedEntries(parts: seq<seq<Byte>>, w: nat)
    ensures Encoded(EndOffsets(parts), w) == Entries(parts, w)
  {}

  /** What setNil leaves of a NULL: no bytes. */
  predicate Collected(v: TypeScaleValue) {
    v.typ == TYPE_NULL ==> v.value == []
  }

  lemma ArgumentCollected(a: Argument)
    requires a.Valid() && ArgumentTriple(a).Ok?
    ensures Collected(ArgumentTriple(a).value)
  {}

  /** Offsets that are one or two apart differ in their lowest byte, so also in a narrow entry. */
  lemma NearOffsetsDiffer(a: int, b: int, w: nat)
    requires w > 0 && (a == b + 1 || a == b + 2 || b == a + 1 || b == a + 2)
    ensures PutLE(a, w) != PutLE(b, w)
  {
    assert PutLE(a, w)[0] == a % 256 && PutLE(b, w)[0] == b % 256;
  }

  /** The first argument that cannot be framed puts one of its own entries off by one or two. */
  lemma EncodedTripleDiffers(n: int, v: TypeScaleValue, w: nat)
    requires w > 0 && Collected(v)
    ensures var m := n + 1 + ScaleLength(v.scale);
            Encoded(OffsetTriple(n, v), w) == Encoded([n + 1, m, m + |v.value|], w) <==> Frameable(v)
  {
    var m := n + 1 + ScaleLength(v.scale);
    var ours, theirs := OffsetTriple(n, v), [n + 1, m, m + |v.value|];
    if Frameable(v) {
      assert ours == theirs;
    } else if v.scale >= 0xff {
      NearOffsetsDiffer(ours[1], theirs[1], w);
      assert Encoded(ours, w)[1] != Encoded(theirs, w)[1];
    } else {
      NearOffsetsDiffer(ours[2], theirs[2], w);
      assert Encoded(ours, w)[2] != Encoded(theirs, w)[2];
    }
  }

  lemma EncodedParts(p: seq<int>, q: seq<int>, w: nat)
    ensures Encoded(p + q, w) == Encoded(p, w) + Encoded(q, w)
  {}

  /** Both tables agree for one more argument exactly when they agreed before and the new three entries do. */
  lemma EntriesAgree(values: seq<TypeScaleValue>, w: nat)
    requires values != []
    ensures var init, v := values[..|values| - 1], values[|values| - 1];
            var n := |Concat(AllPieces(init))|;
            var m := n + 1 + ScaleLength(v.scale);
            Encoded(ArgumentOffsets(values), w) == Encoded(EndOffsets(AllPieces(values)), w) <==>
            && Encoded(ArgumentOffsets(init), w) == Encoded(EndOffsets(AllPieces(init)), w)
            && Encoded(OffsetTriple(Total(init), v), w) == Encoded([n + 1, m, m + |v.value|], w)
  {
    var init, v := values[..|values| - 1], values[|values| - 1];
    var n := |Concat(AllPieces(init))|;
    var m := n + 1 + ScaleLength(v.scale);
    OffsetStep(values);
    assert ArgumentOffsets(values) == ArgumentOffsets(init) + OffsetTriple(Total(init), v);
    EncodedParts(ArgumentOffsets(init), OffsetTriple(Total(init), v), w);
    EncodedParts(EndOffsets(AllPieces(init)), [n + 1, m, m + |v.value|], w);
    SplitSeq(Encoded(ArgumentOffsets(init), w), Encoded(OffsetTriple(Total(init), v), w),
             Encoded(EndOffsets(AllPieces(init)), w), Encoded([n + 1, m, m + |v.value|], w));
  }

  /** The entries as they are written, each reduced to the entry size. */
  lemma {:induction false} EntryFraming(values: seq<TypeScaleValue>, w: nat)
    requires w > 0 && forall i :: 0 <= i < |values| ==> Collected(values[i])
    ensures Encoded(ArgumentOffsets(values), w) == Encoded(EndOffsets(AllPieces(values)), w) <==> AllFrameable(values)
  {
    if values != [] {
      var init, v := values[..|values| - 1], values[|values| - 1];
      EntryFraming(init, w);
      FrameableStep(values);
      EntriesAgree(values, w);
      if AllFrameable(init) {
        FrameableTotal(init);
        EncodedTripleDiffers(|Concat(AllPieces(init))|, v, w);
      }
    }
  }

  /** Entries of one width can be told apart in their concatenation. */
  lemma {:induction false} ConcatInjective(a: seq<seq<Byte>>, b: seq<seq<Byte>>, w: nat)
    requires |a| == |b|
    requires forall i :: 0 <= i < |a| ==> |a[i]| == w && |b[i]| == w
    ensures Concat(a) == Concat(b) <==> a == b
    decreases |a|
  {
    if a != [] {
      var k := |a| - 1;
      ConcatInjective(a[..k], b[..k], w);
      ConcatUniform(a[..k], w);
      ConcatUniform(b[..k], w);
      assert a == a[..k] + [a[k]] && b == b[..k] + [b[k]];
      SplitSeq(Concat(a[..k]), a[k], Concat(b[..k]), b[k]);
    }
  }

  lemma SameArea(h: Byte, a: seq<Byte>, b: seq<Byte>, area: seq<Byte>)
    requires |a| == |b|
    ensures [h] + a + area == [h] + b + area <==> a == b
  {
    SplitSeq([h] + a, area, [h] + b, area);
    SplitSeq([h], a, [h], b);
  }

  /** With the same header and value area, the bytes agree exactly when the tables do. */
  lemma SameTable(h: Byte, ours: seq<seq<Byte>>, parts: seq<seq<Byte>>, w: nat)
    requires |ours| == |parts| && forall i :: 0 <= i < |ours| ==> |ours[i]| == w
    ensures [h] + Concat(ours) + Concat(parts) == Frame(h, parts, w) <==> ours == Entries(parts, w)
  {
    ConcatInjective(ours, Entries(parts, w), w);
    ConcatUniform(ours, w);
    ConcatUniform(Entries(parts, w), w);
    SameArea(h, Concat(ours), Concat(Entries(parts, w)), Concat(parts));
  }

  lemma TableFraming(values: seq<TypeScaleValue>, w: nat)
    requires w > 0 && forall i :: 0 <= i < |values| ==> Collected(values[i])
    ensures Encoded(ArgumentOffsets(values), w) == Entries(AllPieces(values), w) <==> AllFrameable(values)
  {
    EntryFraming(values, w);
    EncodedEntries(AllPieces(values), w);
  }

  lemma BytesFraming(values: seq<TypeScaleValue>)
    ensures var w := EntrySizeFor(Total(values));
            ArgumentBytes(values) == Frame(ToHeader(w), AllPieces(values), w)
            <==> Encoded(ArgumentOffsets(values), w) == Entries(AllPieces(values), w)
  {
    var w := EntrySizeFor(Total(values));
    SameTable(ToHeader(w), Encoded(ArgumentOffsets(values), w), AllPieces(values), w);
  }

  /**
   * The bytes that are written frame type, scale and value of every argument if and only if no argument is NULL and
   * every scale is below 255; so do the offsets, before and after they are narrowed to the entry size.
   */
  lemma TripleFraming(values: seq<TypeScaleValue>)
    requires forall i :: 0 <= i < |values| ==> Collected(values[i])
    ensures ArgumentOffsets(values) == EndOffsets(AllPieces(values)) <==> AllFrameable(values)
    ensures var w := EntrySizeFor(Total(values));
            && (Encoded(ArgumentOffsets(values), w) == Entries(AllPieces(values), w) <==> AllFrameable(values))
            && (ArgumentBytes(values) == Frame(ToHeader(w), AllPieces(values), w) <==> AllFrameable(values))
  {
    OffsetFraming(values);
    TableFraming(values, EntrySizeFor(Total(values)));
    BytesFraming(values);
  }

  lemma EntrySizeHolds(total: nat)
    ensures total < TWO64 ==> total < Pow256(EntrySizeFor(total))
    ensures EntrySizeFor(total) in {1, 2, 4, 8}
  {
    Pow256Small();
  }

  lemma {:induction false} PieceAt(values: seq<TypeScaleValue>, k: nat)
    requires k < |values|
    ensures AllPieces(values)[3 * k..3 * k + 3] == Pieces(values[k])
    ensures Frameable(values[k]) ==> AllPieces(values)[3 * k + 1] == [values[k].scale % 256]
    ensures AllPieces(values)[3 * k] == [values[k].typ % 256]
    ensures AllPieces(values)[3 * k + 2] == values[k].value
    decreases |values|
  {
    var last := |values| - 1;
    if k < last {
      PieceAt(values[..last], k);
    }
  }

  /** Frameable arguments make a regular binary tuple of their pieces. */
  lemma FrameOfPieces(values: seq<TypeScaleValue>)
    requires AllFrameable(values)
    requires Total(values) < INT64
    ensures var w := EntrySizeFor(Total(values));
            && ArgumentBytes(values) == Frame(ToHeader(w), AllPieces(values), w)
            && ArgumentBytes(values) != [] && EntrySizeOf(ArgumentBytes(values)[0]) == Some(w)
            && |Concat(AllPieces(values))| == Total(values) < Pow256(w)
  {
    var w := EntrySizeFor(Total(values));
    OffsetFraming(values);
    FrameableTotal(values);
    EncodedEntries(AllPieces(values), w);
    EntrySizeHolds(Total(values));
    HeaderInverts(w);
    assert ArgumentBytes(values)[0] == ToHeader(w);
  }

  /** At every entry size, a reader of the container finds the type, the scale and the value of each argument. */
  lemma ArgumentsReadBack(values: seq<TypeScaleValue>, k: nat)
    requires k < |values| && AllFrameable(values)
    requires Total(values) < INT64
    ensures var bs := ArgumentBytes(values);
            var w := EntrySizeFor(Total(values));
            var n := 3 * |values|;
            && |bs| > 0 && EntrySizeOf(bs[0]) == Some(w)
            && RawElement(bs, w, n, 3 * k) == Ok([values[k].typ % 256])
            && RawElement(bs, w, n, 3 * k + 1) == Ok([values[k].scale % 256])
            && RawElement(bs, w, n, 3 * k + 2) == Ok(values[k].value)
  {
    var parts, w := AllPieces(values), EntrySizeFor(Total(values));
    FrameOfPieces(values);
    PieceAt(values, k);
    RawElementReadsBack(ToHeader(w), parts, w, 3 * k);
    RawElementReadsBack(ToHeader(w), parts, w, 3 * k + 1);
    RawElementReadsBack(ToHeader(w), parts, w, 3 * k + 2);
  }

  function Triples(args: seq<Argument>): (values: seq<TypeScaleValue>)
    requires forall i :: 0 <= i < |args| ==> args[i].Valid() && ArgumentTriple(args[i]).Ok?
    ensures |values| == |args|
  {
    seq(|args|, i requires 0 <= i < |args| => ArgumentTriple(args[i]).value)
  }

  /** The arguments that the offset arithmetic is right for. */
  predicate Writable(a: Argument) {
    !a.ArgNil? && (a.ArgDecimal? ==> a.scale < 0xff)
  }

  lemma WritableIsFrameable(a: Argument)
    requires a.Valid() && ArgumentTriple(a).Ok?
    ensures Frameable(ArgumentTriple(a).value) <==> Writable(a)
  {}

  /**
   * For every argument list that is accepted: the bytes are the container of the types, scales and values of the
   * arguments if and only if none is nil and no decimal has a scale of 255 or more.
   */
  lemma ArgumentListFraming(args: seq<Argument>)
    requires forall i :: 0 <= i < |args| ==> args[i].Valid() && ArgumentTriple(args[i]).Ok?
    ensures var values := Triples(args);
            var w := EntrySizeFor(Total(values));
            && (AllFrameable(values) <==> forall i :: 0 <= i < |args| ==> Writable(args[i]))
            && (ArgumentBytes(values) == Frame(ToHeader(w), AllPieces(values), w)
                <==> forall i :: 0 <= i < |args| ==> Writable(args[i]))
  {
    var values := Triples(args);
    forall i | 0 <= i < |args| ensures Collected(values[i]) && (Frameable(values[i]) <==> Writable(args[i])) {
      ArgumentCollected(args[i]);
      WritableIsFrameable(args[i]);
    }
    TripleFraming(values);
  }

  /** From the argument list to the wire and back: argument k is recovered from its value exactly on its domain. */
  lemma SqlArgumentEndToEnd(args: seq<Argument>, k: nat, precision: int)
    requires forall i :: 0 <= i < |args| ==> args[i].Valid() && ArgumentTriple(args[i]).Ok?
    requires forall i :: 0 <= i < |args| ==> Writable(args[i])
    requires k < |args| && Total(Triples(args)) < INT64
    ensures var values := Triples(args);
            var raw := RawElement(ArgumentBytes(values), EntrySizeFor(Total(values)), 3 * |args|, 3 * k + 2);
            && raw.Ok?
            && (ReadValue(KeptValue(values[k].typ, raw.value), precision, values[k].typ)
                == Ok(ExpectedArgument(args[k]))
                <==> ArgumentSurvives(args[k], precision))
  {
    ArgumentListFraming(args);
    ArgumentsReadBack(Triples(args), k);
    ArgumentRoundTrip(args[k], precision);
  }
}
