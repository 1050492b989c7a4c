/** What the reader makes of elements that other writers produce, with widths, units and type ids as numbers. */
module Readings {
  import opened Bytes
  import opened Types
  import opened Integers
  import opened Elements
  import opened Temporal
  import opened BinaryTuple
  import opened TupleReader
  import TwosComplement
  import Uuids

  /** An element's bytes as they stand in the row, read at its column's type. */
  function ReadRaw(typeId: int, precision: int, raw: seq<Byte>): (r: Outcome<Read>) {
    ReadValue(KeptValue(typeId, raw), precision, typeId)
  }

  // ---------------------------------------------------------------- dates and times

  /** Five bits of day, four of month and fifteen of year, in three bytes. */
  function DateBytes(year: int, month: int, day: int): (bs: seq<Byte>) {
    PutLE(day + 32 * (month + 16 * year), 3)
  }

  predicate DateFits(year: int, month: int, day: int) {
    0 <= year < 0x8000 && 0 <= month < 16 && 0 <= day < 32
  }

  predicate Clock(hour: int, minute: int, second: int) {
    0 <= hour < 24 && 0 <= minute < 60 && 0 <= second < 60
  }

  /** Six bits of seconds, six of minutes and five of hours above a fraction below width, in w bytes. */
  function ClockBytes(w: nat, width: int, hour: int, minute: int, second: int, fraction: int): (bs: seq<Byte>) {
    PutLE(fraction + width * (second + 64 * (minute + 64 * hour)), w)
  }

  function Nanoseconds(hour: int, minute: int, second: int): int {
    1_000_000_000 * (second + 60 * (minute + 60 * hour))
  }

  lemma DateRead(year: int, month: int, day: int, rest: seq<Byte>)
    requires DateFits(year, month, day)
    ensures DateFields(DateBytes(year, month, day) + rest) == RDate(year, month, day)
  {
    var v := day + 32 * (month + 16 * year);
    Pow256Small();
    assert Pow256(3) == 0x100_0000;
    ReadPutLE(v, 3);
    SideBySide(DateBytes(year, month, day), rest);
    QuotientIs(v, 32, month + 16 * year, day);
    QuotientIs(v / 32, 16, year, month);
    QuotientIs(v, 512, year, day + 32 * month);
  }

  /** The date and the time at either end of the same bytes. */
  lemma DateTimeRead(year: int, month: int, day: int, tail: seq<Byte>, precision: int, t: int)
    requires DateFits(year, month, day) && |tail| >= 4
    requires DecodeTimeSpec(DateBytes(year, month, day) + tail, precision) == Ok(t)
    ensures ReadRaw(11, precision, DateBytes(year, month, day) + tail)
            == Ok(RDateTime(year, month, day, t % 86_400_000_000_000))
  {
    DateRead(year, month, day, tail);
  }

  /** A TIME and a DATETIME read the same time of day. */
  predicate ReadsTime(precision: int, before: seq<Byte>, time: seq<Byte>, t: int, year: int, month: int, day: int) {
    && ReadRaw(10, precision, before + time) == Ok(RClock(t))
    && ReadRaw(11, precision, DateBytes(year, month, day) + (before + time))
       == Ok(RDateTime(year, month, day, t % 86_400_000_000_000))
  }

  lemma TimesRead(precision: int, before: seq<Byte>, time: seq<Byte>, t: int, year: int, month: int, day: int)
    requires DateFits(year, month, day) && |time| >= 4
    requires DecodeTimeSpec(before + time, precision) == Ok(t)
    requires DecodeTimeSpec(DateBytes(year, month, day) + before + time, precision) == Ok(t)
    ensures ReadsTime(precision, before, time, t, year, month, day)
  {
    Regrouped(DateBytes(year, month, day), before, time);
    DateTimeRead(year, month, day, before + time, precision, t);
  }

  lemma ClockBytesArePacked(w: nat, width: int, hour: int, minute: int, second: int, fraction: int)
    ensures ClockBytes(w, width, hour, minute, second, fraction)
            == PutLE(PackTime(width, hour, minute, second, fraction), w)
  {}

  lemma NanosecondsAre(hour: int, minute: int, second: int, nsec: int)
    ensures ClockNanos(hour, minute, second, nsec) == nsec + Nanoseconds(hour, minute, second)
  {}

  lemma ClockRead(l: Layout, precision: int, before: seq<Byte>, hour: int, minute: int, second: int, fraction: int)
    requires LayoutOf(precision) == Some(l) && Clock(hour, minute, second) && 0 <= fraction < l.frac
    ensures DecodeTimeSpec(before + ClockBytes(l.tail, l.frac, hour, minute, second, fraction), precision)
            == Ok(fraction * l.unit + Nanoseconds(hour, minute, second))
  {
    ClockBytesArePacked(l.tail, l.frac, hour, minute, second, fraction);
    NanosecondsAre(hour, minute, second, fraction * l.unit);
    DecodeTimeExtracts(before, precision, hour, minute, second, fraction);
  }

  /**
   * How each precision packs a time: at 0 and 6 in four bytes with ten bits of milliseconds, at 9 in five with twenty
   * bits of microseconds, at 12 in six with thirty bits of nanoseconds, which the reader takes for microseconds.
   */
  predicate PackedAt(precision: int, w: nat, width: int, unit: int) {
    || ((precision == 0 || precision == 6) && w == 4 && width == 1024 && unit == 1_000_000)
    || (precision == 9 && w == 5 && width == 1_048_576 && unit == 1_000)
    || (precision == 12 && w == 6 && width == 1_073_741_824 && unit == 1_000)
  }

  lemma LayoutIs(precision: int, w: nat, width: int, unit: int)
    requires PackedAt(precision, w, width, unit)
    ensures LayoutOf(precision) == Some(Layout(w, width, unit)) && w >= 4
  {}

  /** A time packed for its precision is read back, with its date, whatever bytes stand between the two. */
  lemma TimesAreRead(precision: int, w: nat, width: int, unit: int, before: seq<Byte>, year: int, month: int, day: int,
                     hour: int, minute: int, second: int, fraction: int)
    requires PackedAt(precision, w, width, unit)
    requires DateFits(year, month, day) && Clock(hour, minute, second) && 0 <= fraction < width
    ensures ReadsTime(precision, before, ClockBytes(w, width, hour, minute, second, fraction),
                      fraction * unit + Nanoseconds(hour, minute, second), year, month, day)
  {
    var l := Layout(w, width, unit);
    LayoutIs(precision, w, width, unit);
    ClockRead(l, precision, before, hour, minute, second, fraction);
    ClockRead(l, precision, DateBytes(year, month, day) + before, hour, minute, second, fraction);
    TimesRead(precision, before, ClockBytes(w, width, hour, minute, second, fraction),
              fraction * unit + Nanoseconds(hour, minute, second), year, month, day);
  }

  /** The three bytes of 0001-01-01. */
  lemma FirstDay(value: seq<Byte>)
    requires |value| >= 3
    ensures DateFields(value) == RDate(1, 1, 1) <==> value[..3] == [0x21, 0x02, 0x00]
  {
    var bs := value[..3];
    var a: int, b: int, c: int := bs[0], bs[1], bs[2];
    assert bs[1..] == [bs[1], bs[2]] && bs[1..][1..] == [bs[2]] && bs[1..][1..][1..] == [];
    assert LE(bs[1..]) == b + 256 * LE(bs[1..][1..]) == b + 256 * c;
    assert LE(bs) == a + 256 * b + 65536 * c;
    assert bs == [bs[0], bs[1], bs[2]];
  }

  /**
   * A DATETIME of at most six bytes is the zero time. A longer one is a date and a time of day or an error, and it is
   * the zero time only when its own bytes say so.
   */
  lemma ZeroDateTime(value: seq<Byte>, precision: int)
    requires value != []
    ensures |value| <= 6 ==> ReadRaw(11, precision, value) == Ok(RDateTime(1, 1, 1, 0))
    ensures |value| > 6 && precision !in {0, 6, 9, 12} ==> ReadRaw(11, precision, value) == Err(Precision)
    ensures |value| > 6 && precision in {0, 6, 9, 12} ==>
              var time := ReadRaw(10, precision, value);
              && time.Ok? && time.value.RClock?
              && (ReadRaw(11, precision, value) == Ok(RDateTime(1, 1, 1, 0)) <==>
                  value[..3] == [0x21, 0x02, 0x00] && time.value.nanoseconds % 86_400_000_000_000 == 0)
  {
    if |value| > 6 {
      FirstDay(value);
    }
  }

  // ---------------------------------------------------------------- numbers, UUIDs and texts

  /** Half the number of values of the integer types 2, 3, 4 and 5. */
  function Half(typeId: int): (half: int)
    requires 2 <= typeId <= 5
    ensures 0 < half
  {
    if typeId == 2 then 0x80 else if typeId == 3 then 0x8000 else if typeId == 4 then 0x8000_0000
    else 0x8000_0000_0000_0000
  }

  /** The bytes of an integer as the type has them: big-endian for TINYINT, little-endian for the others. */
  function IntegerBytes(typeId: int, n: int, w: nat): (bs: seq<Byte>) {
    if typeId == 2 then Reverse(PutLE(n, w)) else PutLE(n, w)
  }

  lemma Narrowed(n: int, half: int)
    requires half > 0
    ensures var r := Wrap(n, half); -half <= r < half && (r - n) % (2 * half) == 0 && (Fits(n, half) ==> r == n)
  {
    var q := (n + half) / (2 * half);
    assert Wrap(n, half) - n == -(2 * half) * q;
    QuotientIs(Wrap(n, half) - n, 2 * half, -q, 0);
    if Fits(n, half) {
      WrapFits(n, half);
    }
  }

  lemma IntegerKept(typeId: int, n: int, w: nat)
    requires 2 <= typeId <= 5
    ensures KeptValue(typeId, IntegerBytes(typeId, n, w)) == Reverse(PutLE(n, w))
  {}

  lemma IntegerOf(typeId: int, precision: int, value: seq<Byte>)
    requires 2 <= typeId <= 5 && 1 <= |value| <= 8
    ensures ReadValue(value, precision, typeId) == Ok(RInt(Wrap(TwosComplement.Signed(value), Half(typeId))))
  {}

  lemma IntegerIs(typeId: int, precision: int, n: int, w: nat)
    requires 2 <= typeId <= 5 && 1 <= w <= 8 && -(Pow256(w) as int) <= 2 * n < Pow256(w)
    ensures ReadRaw(typeId, precision, IntegerBytes(typeId, n, w)) == Ok(RInt(Wrap(n, Half(typeId))))
  {
    var value := Reverse(PutLE(n, w));
    NarrowRoundTrip(n, w);
    IntegerKept(typeId, n, w);
    IntegerOf(typeId, precision, value);
  }

  /** Integers of any width up to eight bytes are read as their type's number that is congruent to them. */
  lemma IntegersRead(typeId: int, precision: int, n: int, w: nat)
    requires 2 <= typeId <= 5 && 1 <= w <= 8 && -(Pow256(w) as int) <= 2 * n < Pow256(w)
    ensures var r := ReadRaw(typeId, precision, IntegerBytes(typeId, n, w));
            var half := Half(typeId);
            && r.Ok? && r.value.RInt? && -half <= r.value.n < half
            && (-half <= n < half ==> r.value.n == n)
            && (r.value.n - n) % (2 * half) == 0
  {
    IntegerIs(typeId, precision, n, w);
    Narrowed(n, Half(typeId));
  }

  /** Bytes that only the first few count of. */
  lemma PrefixesRead(precision: int, b: Byte, bits: Uint32, unix: Int64, nsec: Uint32, rest: seq<Byte>)
    ensures ReadRaw(1, precision, [b] + rest) == Ok(RBool(b != 0))
    ensures ReadRaw(6, precision, PutLE(bits, 4) + rest) == Ok(RFloat32(bits))
    ensures ReadRaw(12, precision, PutLE(unix, 8) + PutLE(nsec, 4) + rest) == Ok(RTimestamp(unix, nsec))
  {
    FloatReadsBack(bits, 4);
    SideBySide(PutLE(bits, 4), rest);
    ReadInt64(unix);
    FloatReadsBack(nsec, 4);
    SideBySide(PutLE(unix, 8), PutLE(nsec, 4));
    assert (PutLE(unix, 8) + PutLE(nsec, 4) + rest)[..8] == PutLE(unix, 8);
    assert (PutLE(unix, 8) + PutLE(nsec, 4) + rest)[8..12] == PutLE(nsec, 4);
  }

  /** Both halves of a UUID are read from their last byte down. */
  lemma UuidRead(precision: int, u: Uuid16, rest: seq<Byte>)
    ensures var r := ReadRaw(13, precision, u + rest);
            && r.Ok? && r.value.RUuid? && |r.value.uuid| == 16
            && forall k :: 0 <= k < 16 ==> r.value.uuid[k] == if k < 8 then u[7 - k] else u[23 - k]
  {
    assert (u + rest)[..16] == u;
    forall k: nat | k < 16 ensures Uuids.Flipped(u)[k] == if k < 8 then u[7 - k] else u[23 - k] {
      Uuids.FlippedAt(u, k);
    }
  }

  /** A DOUBLE takes four or eight bytes and nothing else; a DECIMAL takes an unscaled number of any length. */
  lemma VariableRead(precision: int, bits32: Uint32, bits64: Uint64, scale: int, unscaled: seq<Byte>)
    requires -0x8000 <= scale < 0x8000
    ensures ReadRaw(7, precision, PutLE(bits32, 4)) == Ok(RFloat32(bits32))
    ensures ReadRaw(7, precision, PutLE(bits64, 8)) == Ok(RFloat64(bits64))
    ensures ReadRaw(8, precision, PutLE(scale, 2) + unscaled)
            == Ok(RDecimal(TwosComplement.Signed(unscaled), scale))
  {
    FloatReadsBack(bits32, 4);
    FloatReadsBack(bits64, 8);
    SideBySide(PutLE(scale, 2), unscaled);
    ReadInt16(scale);
    WrapFits(scale, INT16);
  }

  /** One leading 0x80 of a text or a byte array is dropped; nothing is left of an empty one, which is NULL. */
  lemma TextsRead(precision: int, raw: seq<Byte>)
    requires raw != []
    ensures var kept := if raw[0] == 0x80 then raw[1..] else raw;
            && ReadRaw(15, precision, raw) == Ok(if kept == [] then RNil else RStr(kept))
            && ReadRaw(16, precision, raw) == Ok(if kept == [] then RNil else RBin(kept))
  {}

  // ---------------------------------------------------------------- errors

  /** Which errors reading an element can give, each with its exact condition; nothing else is an error. */
  lemma ReadErrors(value: seq<Byte>, precision: int, typeId: int)
    ensures var r := ReadValue(value, precision, typeId);
            && (value == [] || typeId == 0 ==> r == Ok(RNil))
            && (value != [] && typeId != 0 ==>
                  && (r == Err(IntegerLength) <==> 2 <= typeId <= 5 && |value| > 8)
                  && (r == Err(DoubleLength) <==> typeId == 7 && |value| != 4 && |value| != 8)
                  && (r == Err(Precision) <==>
                      (typeId == 10 || (typeId == 11 && |value| > 6)) && precision !in {0, 6, 9, 12})
                  && (r == Err(TypeNotImplemented) <==> typeId < 0 || typeId == 14 || typeId > 16)
                  && (r.Err? ==> r.error in {IntegerLength, DoubleLength, Precision, TypeNotImplemented}))
  {}

  /** The least bytes each type needs; with fewer, reading panics. */
  lemma ReadPanics(value: seq<Byte>, precision: int, typeId: int)
    requires value != []
    ensures ReadValue(value, precision, typeId).Panic? <==>
            || (typeId == 6 && |value| < 4)
            || (typeId == 8 && |value| < 2)
            || (typeId == 9 && |value| < 3)
            || (typeId == 10 && precision in {0, 6} && |value| < 4)
            || (typeId == 10 && precision == 9 && |value| < 5)
            || (typeId == 10 && precision == 12 && |value| < 6)
            || (typeId == 12 && |value| < 12)
            || (typeId == 13 && |value| < 16)
  {}

  // ---------------------------------------------------------------- rows of other writers

  /** At every entry size, element i of a row is read as its bytes alone say. */
  lemma ServerRowRead(header: Byte, elems: seq<seq<Byte>>, meta: seq<ColumnMetadata>, i: nat)
    requires |meta| == |elems| && i < |elems| && header <= 3
    requires |Concat(elems)| < Pow256(Pow2(header)) && |Concat(elems)| < INT64
    requires 0 <= meta[i].typeId <= 16
    ensures var d := DecodeTuple(meta, Frame(header, elems, Pow2(header)));
            && d.Ok? && |d.value| == |elems|
            && GetValueSpec(d.value, i, meta[i].typeId) == ReadRaw(meta[i].typeId, meta[i].precision, elems[i])
  {
    HeaderIsLog(header);
    assert Frame(header, elems, Pow2(header))[0] == header;
    DecodeElementsReadBack(meta, header, elems, Pow2(header), |meta|);
    WrapFits(meta[i].typeId, 0x80);
  }

  /** Whatever the column's type id, it is its int8 that the bytes are kept by, also when another type is asked for. */
  lemma AnyColumnRead(header: Byte, elems: seq<seq<Byte>>, meta: seq<ColumnMetadata>, i: nat, valType: int)
    returns (typeId: int)
    requires |meta| == |elems| && i < |elems| && header <= 3
    requires |Concat(elems)| < Pow256(Pow2(header)) && |Concat(elems)| < INT64
    ensures -128 <= typeId < 128 && (typeId - meta[i].typeId) % 256 == 0
    ensures var d := DecodeTuple(meta, Frame(header, elems, Pow2(header)));
            && d.Ok? && |d.value| == |elems|
            && GetValueSpec(d.value, i, valType)
               == if valType == 0 then Ok(RNil)
                  else ReadValue(KeptValue(typeId, elems[i]), meta[i].precision, valType)
  {
    HeaderIsLog(header);
    assert Frame(header, elems, Pow2(header))[0] == header;
    DecodeElementsReadBack(meta, header, elems, Pow2(header), |meta|);
    Narrowed(meta[i].typeId, 0x80);
    typeId := Wrap(meta[i].typeId, 0x80);
  }
}
