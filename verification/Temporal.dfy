/** Bit-packed dates and times. Shifts and masks of disjoint fields are written as quotients and remainders. */
module Temporal {
  import opened Bytes
  import opened Types

  const MILLISECOND := 1_000_000
  const MICROSECOND := 1_000
  const SECOND := 1_000_000_000
  const MINUTE := 60 * SECOND
  const HOUR := 60 * MINUTE
  const DAY := 24 * HOUR

  // ---------------------------------------------------------------- dates

  /** 5 bits of day, 4 of month, 15 of two's-complement year. */
  function PackDate(year: int, month: int, day: int): int {
    day % 32 + 32 * (month % 16) + 512 * ((if year < 0 then 0x8000 + year else year) % 0x8000)
  }

  function EncodeDate(year: int, month: int, day: int): (r: Outcome<seq<Byte>>) {
    if month < 1 || month > 12 then Err(OutOfRange(Month))
    else if day < 1 || day > 31 then Err(OutOfRange(Day))
    else if year < -16384 || year > 16383 then Err(OutOfRange(Year))
    else Ok(PutLE(PackDate(year, month, day), 3))
  }

  predicate DateInRange(year: int, month: int, day: int) {
    1 <= month <= 12 && 1 <= day <= 31 && -16384 <= year <= 16383
  }

  /** The fields that decodeDate hands to time.Date: the year is not sign-extended. */
  function DateFields(raw: seq<Byte>): (d: Read)
    requires |raw| >= 3
  {
    var v := LE(raw[..3]);
    RDate(v / 512 % 0x8000, v / 32 % 16, v % 32)
  }

  /** decodeDate: copies the first three bytes into a zeroed uint32; shorter input panics. */
  method DecodeDate(raw: seq<Byte>) returns (r: Outcome<Read>)
    ensures r == if |raw| < 3 then Panic else Ok(DateFields(raw))
  {
    if |raw| < 3 {
      return Panic;
    }
    var raw4 := new Byte[4](_ => 0);
    for i := 0 to 3
      invariant raw4[3] == 0
      invariant forall k :: 0 <= k < i ==> raw4[k] == raw[k]
    {
      raw4[i] := raw[i];
    }
    assert raw4[..] == raw[..3] + [0];
    LEPadded(raw[..3], [0]);
    var v := LE(raw4[..]);
    r := Ok(RDate(v / 512 % 0x8000, v / 32 % 16, v % 32));
  }

  lemma PackedDateFields(year: int, month: int, day: int)
    requires DateInRange(year, month, day)
    ensures var v := PackDate(year, month, day);
            && 0 <= v < 0x100_0000
            && v % 32 == day && v / 32 % 16 == month
            && v / 512 % 0x8000 == v / 512 == if year < 0 then year + 0x8000 else year
  {
    var y := if year < 0 then year + 0x8000 else year;
    ModSmall(day, 32);
    ModSmall(month, 16);
    ModSmall(y, 0x8000);
    var v := PackDate(year, month, day);
    QuotientIs(v, 32, month + 16 * y, day);
    QuotientIs(v / 32, 16, y, month);
    QuotientIs(v, 512, y, day + 32 * month);
  }

  /** The decoder undoes the encoder exactly on non-negative years, whatever bytes follow the date. */
  lemma DateRoundTrip(year: int, month: int, day: int, tail: seq<Byte>)
    ensures EncodeDate(year, month, day).Ok? <==> DateInRange(year, month, day)
    ensures DateInRange(year, month, day) ==>
              (DateFields(EncodeDate(year, month, day).value + tail) == RDate(year, month, day) <==> year >= 0)
  {
    if DateInRange(year, month, day) {
      var v := PackDate(year, month, day);
      PackedDateFields(year, month, day);
      var bs := PutLE(v, 3);
      assert (bs + tail)[..3] == bs;
      Pow256Small();
      assert Pow256(3) == 0x100_0000;
      ReadPutLE(v, 3);
    }
  }

  /** Distinct dates pack to distinct numbers; from year 0 on the packed order is the calendar order. */
  lemma PackedDatesOrdered(y1: int, m1: int, d1: int, y2: int, m2: int, d2: int)
    requires DateInRange(y1, m1, d1) && DateInRange(y2, m2, d2)
    ensures PackDate(y1, m1, d1) == PackDate(y2, m2, d2) <==> (y1 == y2 && m1 == m2 && d1 == d2)
    ensures y1 >= 0 && y2 >= 0 ==>
              (PackDate(y1, m1, d1) < PackDate(y2, m2, d2) <==>
               (y1 < y2 || (y1 == y2 && (m1 < m2 || (m1 == m2 && d1 < d2)))))
  {
    PackedDateFields(y1, m1, d1);
    PackedDateFields(y2, m2, d2);
    ModSmall(d1, 32); ModSmall(m1, 16); ModSmall(d2, 32); ModSmall(m2, 16);
  }

  // ---------------------------------------------------------------- times

  predicate ClockInRange(hour: int, minute: int, second: int) {
    0 <= hour < 24 && 0 <= minute < 60 && 0 <= second < 60
  }

  /** A fraction in [0, frac), then 6 bits of seconds, 6 of minutes and 5 of hours. */
  function PackTime(frac: int, hour: int, minute: int, second: int, fraction: int): int {
    fraction + frac * (second + 64 * (minute + 64 * hour))
  }

  const FRAC30 := 0x4000_0000
  const FRAC20 := 0x10_0000
  const FRAC10 := 0x400

  function ClockError(hour: int, minute: int, second: int, nsec: int): Option<Error> {
    if hour < 0 || hour > 23 then Some(OutOfRange(Hour))
    else if minute < 0 || minute > 59 then Some(OutOfRange(Minute))
    else if second < 0 || second > 59 then Some(OutOfRange(Second))
    else if nsec < 0 || nsec > 999_999_999 then Some(OutOfRange(Nanosecond))
    else None
  }

  function EncodeTimeSpec(hour: int, minute: int, second: int, nsec: int): (r: Outcome<seq<Byte>>) {
    match ClockError(hour, minute, second, nsec)
    case Some(e) => Err(e)
    case None => Ok(PutLE(PackTime(FRAC30, hour, minute, second, nsec), 6))
  }

  lemma Pow2Values()
    ensures Pow2(30) == FRAC30 && Pow2(36) == 64 * FRAC30 && Pow2(42) == 4096 * FRAC30
  {
    Pow256Is2(3);
    Pow256Small();
    assert Pow256(3) == 0x100_0000;
    assert Pow2(26) == 4 * Pow2(24) && Pow2(28) == 4 * Pow2(26) && Pow2(30) == 4 * Pow2(28);
    assert Pow2(32) == 4 * Pow2(30) && Pow2(34) == 4 * Pow2(32) && Pow2(36) == 4 * Pow2(34);
    assert Pow2(38) == 4 * Pow2(36) && Pow2(40) == 4 * Pow2(38) && Pow2(42) == 4 * Pow2(40);
  }

  lemma PackShifts(hour: int, minute: int, second: int, nsec: int)
    ensures nsec + second * Pow2(30) + minute * Pow2(36) + hour * Pow2(42)
            == PackTime(FRAC30, hour, minute, second, nsec)
  {
    Pow2Values();
  }

  method WriteLittleEndian(v: int, width: nat) returns (bs: seq<Byte>)
    ensures bs == PutLE(v, width)
  {
    var out := new Byte[width](_ => 0);
    for i := 0 to out.Length
      invariant forall k :: 0 <= k < i ==> out[k] == PutLE(v, width)[k]
    {
      PutLEAt(v, width, i);
      out[i] := v / Pow256(i) % 256;
    }
    assert out[..] == PutLE(v, width);
    bs := out[..];
  }

  /** encodeTime: ORs the fields into a uint64 from the low bits up, then writes six little-endian bytes. */
  method EncodeTime(hour: int, minute: int, second: int, nsec: int) returns (r: Outcome<seq<Byte>>)
    ensures r == EncodeTimeSpec(hour, minute, second, nsec)
  {
    var e := ClockError(hour, minute, second, nsec);
    if e.Some? {
      return Err(e.value);
    }
    var v, shift := nsec, 30;
    PackShifts(hour, minute, second, nsec);
    v, shift := v + second * Pow2(shift), shift + 6;
    v, shift := v + minute * Pow2(shift), shift + 6;
    v, shift := v + hour * Pow2(shift), shift + 5;
    assert v == PackTime(FRAC30, hour, minute, second, nsec);
    var out := WriteLittleEndian(v, 6);
    r := Ok(out);
  }

  /** How a column precision is read: bytes taken from the end, fraction modulus and the unit of the fraction. */
  datatype Layout = Layout(tail: nat, frac: int, unit: int)

  /** Precision 12 counts its nanoseconds as microseconds. */
  function LayoutOf(precision: int): (l: Option<Layout>)
    ensures l.Some? ==> 4 <= l.value.tail <= 6 && l.value.frac > 0
  {
    if precision == 6 || precision == 0 then Some(Layout(4, FRAC10, MILLISECOND))
    else if precision == 9 then Some(Layout(5, FRAC20, MICROSECOND))
    else if precision == 12 then Some(Layout(6, FRAC30, MICROSECOND))
    else None
  }

  /** The duration added to the zero time for the packed number v. */
  function Duration(l: Layout, v: nat): int
    requires l.frac > 0
  {
    v % l.frac * l.unit + v / l.frac % 64 * SECOND + v / l.frac / 64 % 64 * MINUTE + v / l.frac / 4096 % 32 * HOUR
  }

  function DecodeTimeSpec(raw: seq<Byte>, precision: int): (r: Outcome<int>) {
    match LayoutOf(precision)
    case None => Err(Precision)
    case Some(l) =>
      if |raw| < l.tail then Panic else Ok(Duration(l, LE(raw[|raw| - l.tail..])))
  }

  /** decodeTime: fills a zeroed buffer with the last bytes, from the last one down; too short an input panics. */
  method DecodeTime(raw: seq<Byte>, precision: int) returns (r: Outcome<int>)
    ensures r == DecodeTimeSpec(raw, precision)
  {
    var layout := LayoutOf(precision);
    if layout.None? {
      return Err(Precision);
    }
    var l := layout.value;
    var raw8 := new Byte[8](_ => 0);
    var i := |raw| - 1;
    while i >= |raw| - l.tail
      invariant |raw| - l.tail - 1 <= i < |raw|
      invariant i >= -1
      invariant forall k :: 0 <= k < 8 ==>
        raw8[k] == if i < |raw| - l.tail + k < |raw| then raw[|raw| - l.tail + k] else 0
    {
      if i < 0 {
        return Panic;
      }
      raw8[l.tail - (|raw| - i)] := raw[i];
      i := i - 1;
    }
    var tail := raw[|raw| - l.tail..];
    assert raw8[..] == tail + raw8[l.tail..];
    LEPadded(tail, raw8[l.tail..]);
    var v := LE(raw8[..]);
    r := Ok(Duration(l, v));
  }

  function ClockNanos(hour: int, minute: int, second: int, nsec: int): int {
    nsec + second * SECOND + minute * MINUTE + hour * HOUR
  }

  lemma PackedTimeFields(frac: int, hour: int, minute: int, second: int, fraction: int)
    requires frac == FRAC10 || frac == FRAC20 || frac == FRAC30
    requires ClockInRange(hour, minute, second) && 0 <= fraction < frac
    ensures var v := PackTime(frac, hour, minute, second, fraction);
            && 0 <= v < frac * 0x2_0000
            && v % frac == fraction
            && v / frac % 64 == second && v / frac / 64 % 64 == minute && v / frac / 4096 % 32 == hour
  {
    var x := second + 64 * (minute + 64 * hour);
    assert 0 <= x < 0x2_0000;
    QuotientIs(PackTime(frac, hour, minute, second, fraction), frac, x, fraction);
  }

  function Packed(h: int, m: int, s: int): int {
    s + 64 * (m + 64 * h)
  }

  lemma FieldsOf(w: int, low: int, mid: int, high: int)
    requires w == low + 64 * (mid + 64 * high) && 0 <= low < 64 && 0 <= mid < 64
    ensures w % 64 == low && w / 64 % 64 == mid && w / 64 / 64 == high && w / 4096 == high
  {
    QuotientIs(w, 64, mid + 64 * high, low);
    QuotientIs(mid + 64 * high, 64, high, mid);
    QuotientIs(w, 4096, high, low + 64 * mid);
  }

  lemma DurationIs(l: Layout, y: int, w: nat, second: int, minute: int, hour: int)
    requires 0 <= y < l.frac
    requires w % 64 == second && w / 64 % 64 == minute && w / 4096 % 32 == hour
    ensures y + l.frac * w >= 0
    ensures Duration(l, y + l.frac * w) == y * l.unit + SECOND * (second + 60 * minute + 3600 * hour)
  {
    MulLe(l.frac, 0, w);
    QuotientIs(y + l.frac * w, l.frac, w, y);
  }

  lemma PackedDuration(l: Layout, hour: int, minute: int, second: int, fraction: int)
    requires ClockInRange(hour, minute, second) && 0 <= fraction < l.frac
    ensures PackTime(l.frac, hour, minute, second, fraction) >= 0
    ensures Duration(l, PackTime(l.frac, hour, minute, second, fraction))
            == ClockNanos(hour, minute, second, fraction * l.unit)
  {
    var w := Packed(hour, minute, second);
    FieldsOf(w, second, minute, hour);
    ModSmall(hour, 32);
    DurationIs(l, fraction, w, second, minute, hour);
  }

  lemma LayoutHolds(l: Layout)
    requires l.tail in {4, 5, 6} && l.frac == (if l.tail == 4 then FRAC10 else if l.tail == 5 then FRAC20 else FRAC30)
    ensures l.frac * 0x2_0000 <= Pow256(l.tail)
  {
    Pow256Small();
    assert Pow256(5) == 256 * Pow256(4) && Pow256(6) == 256 * Pow256(5);
  }

  lemma PackedFits(l: Layout, hour: int, minute: int, second: int, fraction: int)
    requires l.tail in {4, 5, 6} && l.frac == (if l.tail == 4 then FRAC10 else if l.tail == 5 then FRAC20 else FRAC30)
    requires ClockInRange(hour, minute, second) && 0 <= fraction < l.frac
    ensures 0 <= PackTime(l.frac, hour, minute, second, fraction) < Pow256(l.tail)
  {
    PackedTimeFields(l.frac, hour, minute, second, fraction);
    LayoutHolds(l);
  }

  /**
   * For the fraction width that its layout expects, decodeTime takes every field out of a packed tail,
   * whatever bytes stand before it.
   */
  lemma DecodeTimeExtracts(prefix: seq<Byte>, precision: int, hour: int, minute: int, second: int, fraction: int)
    requires LayoutOf(precision).Some?
    requires ClockInRange(hour, minute, second) && 0 <= fraction < LayoutOf(precision).value.frac
    ensures var l := LayoutOf(precision).value;
            DecodeTimeSpec(prefix + PutLE(PackTime(l.frac, hour, minute, second, fraction), l.tail), precision)
            == Ok(ClockNanos(hour, minute, second, fraction * l.unit))
  {
    var l := LayoutOf(precision).value;
    var v := PackTime(l.frac, hour, minute, second, fraction);
    PackedFits(l, hour, minute, second, fraction);
    PackedDuration(l, hour, minute, second, fraction);
    SideBySide(prefix, PutLE(v, l.tail));
    ReadPutLE(v, l.tail);
  }

  lemma EncodeTimeAccepts(hour: int, minute: int, second: int, nsec: int)
    ensures EncodeTimeSpec(hour, minute, second, nsec).Ok? <==> ClockInRange(hour, minute, second) && 0 <= nsec < SECOND
  {}

  /** The first field out of range, from the hour down, is the one that is reported. */
  lemma ClockErrors(hour: int, minute: int, second: int, nsec: int)
    ensures var r := EncodeTimeSpec(hour, minute, second, nsec);
            var h, m, s, n := 0 <= hour < 24, 0 <= minute < 60, 0 <= second < 60, 0 <= nsec < 1_000_000_000;
            && (r == Err(OutOfRange(Hour)) <==> !h)
            && (r == Err(OutOfRange(Minute)) <==> h && !m)
            && (r == Err(OutOfRange(Second)) <==> h && m && !s)
            && (r == Err(OutOfRange(Nanosecond)) <==> h && m && s && !n)
            && (r.Ok? <==> h && m && s && n)
  {}

  lemma DateErrors(year: int, month: int, day: int)
    ensures var r := EncodeDate(year, month, day);
            var y, m, d := -16384 <= year < 16384, 1 <= month <= 12, 1 <= day <= 31;
            && (r == Err(OutOfRange(Month)) <==> !m)
            && (r == Err(OutOfRange(Day)) <==> m && !d)
            && (r == Err(OutOfRange(Year)) <==> m && d && !y)
            && (r.Ok? <==> y && m && d)
  {}

  lemma ScaledClock(hour: int, minute: int, second: int, nsec: int)
    requires ClockInRange(hour, minute, second)
    ensures var t := ClockNanos(hour, minute, second, 0);
            && 0 <= t <= DAY - SECOND
            && ClockNanos(hour, minute, second, nsec) == t + nsec
            && ClockNanos(hour, minute, second, 1000 * nsec) == t + 1000 * nsec
  {}

  lemma ScaledNanoseconds(t: int, nsec: int)
    requires 0 <= t <= DAY - SECOND && 0 <= nsec < SECOND
    ensures (t + 1000 * nsec) % DAY == t + nsec <==> nsec == 0
  {
    var scaled := t + 1000 * nsec;
    if scaled < DAY {
      ModSmall(scaled, DAY);
    } else {
      QuotientIs(scaled, DAY, 1, scaled - DAY);
    }
  }

  /** At precision 12 what encodeTime writes is read as the same time of day exactly when there are no nanoseconds. */
  lemma TimeRoundTrip12(prefix: seq<Byte>, hour: int, minute: int, second: int, nsec: int)
    requires ClockInRange(hour, minute, second) && 0 <= nsec < SECOND
    ensures EncodeTimeSpec(hour, minute, second, nsec).Ok?
    ensures DecodeTimeSpec(prefix + EncodeTimeSpec(hour, minute, second, nsec).value, 12)
            == Ok(ClockNanos(hour, minute, second, 1000 * nsec))
    ensures ClockNanos(hour, minute, second, 1000 * nsec) == ClockNanos(hour, minute, second, nsec) <==> nsec == 0
    ensures ClockNanos(hour, minute, second, 1000 * nsec) % DAY == ClockNanos(hour, minute, second, nsec) <==> nsec == 0
  {
    DecodeTimeExtracts(prefix, 12, hour, minute, second, nsec);
    ScaledClock(hour, minute, second, nsec);
    ScaledNanoseconds(ClockNanos(hour, minute, second, 0), nsec);
  }

  /** The last bytes of a number written behind a prefix hold its high part. */
  lemma TailOf(prefix: seq<Byte>, v: nat, k: nat)
    requires k <= 6
    ensures var bs := prefix + PutLE(v, 6); bs[|bs| - (6 - k)..] == PutLE(v / Pow256(k), 6 - k)
  {
    var whole := PutLE(v, 6);
    var bs := prefix + whole;
    assert bs[|bs| - (6 - k)..] == whole[k..];
    PutLESuffix(v, 6, k);
  }

  lemma ShiftFits(v: nat, k: nat)
    requires k <= 2 && v < FRAC30 * 0x2_0000
    ensures 0 <= v / Pow256(k) < Pow256(6 - k)
  {
    Pow256Small();
    assert Pow256(5) == 256 * Pow256(4) && Pow256(6) == 256 * Pow256(5);
    assert Pow256(0) == 1;
  }

  /**
   * At the shorter precisions the six bytes that encodeTime writes are read in a layout they were not packed in:
   * the decoder sees the packed number without its lowest bytes.
   */
  lemma ShorterLayoutShifts(prefix: seq<Byte>, precision: int, hour: int, minute: int, second: int, nsec: int)
    requires LayoutOf(precision).Some? && EncodeTimeSpec(hour, minute, second, nsec).Ok?
    ensures var l := LayoutOf(precision).value;
            var v := PackTime(FRAC30, hour, minute, second, nsec);
            && v >= 0
            && v / Pow256(6 - l.tail) >= 0
            && DecodeTimeSpec(prefix + EncodeTimeSpec(hour, minute, second, nsec).value, precision)
               == Ok(Duration(l, v / Pow256(6 - l.tail)))
  {
    var l := LayoutOf(precision).value;
    var v, k := PackTime(FRAC30, hour, minute, second, nsec), 6 - l.tail;
    PackedTimeFields(FRAC30, hour, minute, second, nsec);
    TailOf(prefix, v, k);
    ShiftFits(v, k);
    ReadPutLE(v / Pow256(k), l.tail);
  }

  function Seconds(h: int, m: int, s: int): int {
    s + 60 * (m + 60 * h)
  }

  lemma NanosSplit(h: int, m: int, s: int, n: int)
    ensures ClockNanos(h, m, s, n) == n + SECOND * Seconds(h, m, s)
    ensures PackTime(FRAC30, h, m, s, n) == n + FRAC30 * Packed(h, m, s)
  {}

  lemma SecondsOrdered(h1: int, m1: int, s1: int, h2: int, m2: int, s2: int)
    requires ClockInRange(h1, m1, s1) && ClockInRange(h2, m2, s2)
    ensures Packed(h1, m1, s1) < Packed(h2, m2, s2) <==> Seconds(h1, m1, s1) < Seconds(h2, m2, s2)
    ensures Packed(h1, m1, s1) == Packed(h2, m2, s2) <==> Seconds(h1, m1, s1) == Seconds(h2, m2, s2)
  {
    if h1 != h2 {
    } else if m1 != m2 {
    }
  }

  lemma Lexicographic(base: int, n1: int, x1: int, n2: int, x2: int)
    requires 0 <= n1 < base && 0 <= n2 < base
    ensures n1 + base * x1 < n2 + base * x2 <==> x1 < x2 || (x1 == x2 && n1 < n2)
  {
    var d := x2 - x1;
    assert base * x2 == base * x1 + base * d;
    if d > 0 {
      MulLe(base, 1, d);
    } else if d < 0 {
      MulLe(base, 1, -d);
      assert base * d == -(base * -d);
    }
  }

  /** Packed times order like the clock and fit 47 bits, so encodeTime is injective. */
  lemma PackedTimesOrdered(h1: int, m1: int, s1: int, n1: int, h2: int, m2: int, s2: int, n2: int)
    requires ClockInRange(h1, m1, s1) && 0 <= n1 < SECOND
    requires ClockInRange(h2, m2, s2) && 0 <= n2 < SECOND
    ensures 0 <= PackTime(FRAC30, h1, m1, s1, n1) < 0x8000_0000_0000
    ensures PackTime(FRAC30, h1, m1, s1, n1) < PackTime(FRAC30, h2, m2, s2, n2)
            <==> ClockNanos(h1, m1, s1, n1) < ClockNanos(h2, m2, s2, n2)
    ensures PackTime(FRAC30, h1, m1, s1, n1) == PackTime(FRAC30, h2, m2, s2, n2)
            <==> h1 == h2 && m1 == m2 && s1 == s2 && n1 == n2
  {
    PackedTimeFields(FRAC30, h1, m1, s1, n1);
    PackedTimeFields(FRAC30, h2, m2, s2, n2);
    SecondsOrdered(h1, m1, s1, h2, m2, s2);
    Lexicographic(FRAC30, n1, Packed(h1, m1, s1), n2, Packed(h2, m2, s2));
    Lexicographic(SECOND, n1, Seconds(h1, m1, s1), n2, Seconds(h2, m2, s2));
    NanosSplit(h1, m1, s1, n1);
    NanosSplit(h2, m2, s2, n2);
  }

  // ---------------------------------------------------------------- times at every precision

  /**
   * Which times of day come back at a column's precision. Besides whole seconds at precision 12 and midnight, one time
   * happens to be a fixed point of the misplaced layout: 10:42:42.721601 at precision 9 and, when only the time of day
   * is kept, 03:46:59.790 at precision 6.
   */
  predicate ClockSurvives(precision: int, hour: int, minute: int, second: int, nsec: int, dayDropped: bool) {
    if precision == 12 then nsec == 0
    else if precision == 9 then
      (hour, minute, second, nsec) == (0, 0, 0, 0) || (hour, minute, second, nsec) == (10, 42, 42, 721_601_000)
    else if precision == 6 || precision == 0 then
      (hour, minute, second, nsec) == (0, 0, 0, 0) ||
      (dayDropped && (hour, minute, second, nsec) == (3, 46, 59, 790_000_000))
    else false
  }

  /** The seconds a shorter layout sees: it drops bits below, so each field takes in low bits of the next. */
  function MillisSeconds(t: int, hour: int, minute: int, second: int): int {
    t + 16 * (second % 4) + 60 * (second / 4 + 16 * (minute % 4)) + 3600 * (minute / 4 + 16 * (hour % 2))
  }

  function MicrosSeconds(t: int, hour: int, minute: int, second: int): int {
    t + 4 * (second % 16) + 60 * (second / 16 + 4 * (minute % 16)) + 3600 * (minute / 16 + 4 * (hour % 8))
  }

  lemma MovedFields16(t: int, hour: int, minute: int, second: int)
    requires 0 <= t < 16 && ClockInRange(hour, minute, second)
    ensures var w := t + 16 * Packed(hour, minute, second);
            && w % 64 == t + 16 * (second % 4)
            && w / 64 % 64 == second / 4 + 16 * (minute % 4)
            && w / 64 / 64 == w / 4096 && w / 4096 % 32 == minute / 4 + 16 * (hour % 2)
  {
    var low, mid, high := t + 16 * (second % 4), second / 4 + 16 * (minute % 4), minute / 4 + 16 * hour;
    FieldsOf(t + 16 * Packed(hour, minute, second), low, mid, high);
    QuotientIs(high, 32, hour / 2, minute / 4 + 16 * (hour % 2));
  }

  lemma MovedFields4(t: int, hour: int, minute: int, second: int)
    requires 0 <= t < 4 && ClockInRange(hour, minute, second)
    ensures var w := t + 4 * Packed(hour, minute, second);
            && w % 64 == t + 4 * (second % 16)
            && w / 64 % 64 == second / 16 + 4 * (minute % 16)
            && w / 64 / 64 == w / 4096 && w / 4096 % 32 == minute / 16 + 4 * (hour % 8)
  {
    var low, mid, high := t + 4 * (second % 16), second / 16 + 4 * (minute % 16), minute / 16 + 4 * hour;
    FieldsOf(t + 4 * Packed(hour, minute, second), low, mid, high);
    QuotientIs(high, 32, hour / 8, minute / 16 + 4 * (hour % 8));
  }

  /** The only fractions of a second that come out as themselves, modulo whole seconds. */
  lemma FixedFraction6(n: int, u: int, j: int)
    requires 0 <= n < SECOND && u == n / TWO16
    requires u % FRAC10 * MILLISECOND - n == SECOND * j
    ensures (n == 0 && u == 0 && j == 0) || (n == 790_000_000 && u == 11 * FRAC10 + 790 && j == 0)
  {
    var t, y := u / FRAC10, u % FRAC10;
    var x := y - 1000 * j;
    assert n == MILLISECOND * x && 0 <= x < 1000;
    assert 0 <= t < 15;
    assert TWO16 * (1024 * t + y) <= MILLISECOND * x < TWO16 * (1024 * t + y + 1);
  }

  lemma FixedFraction9(n: int, u: int, j: int)
    requires 0 <= n < SECOND && u == n / TWO8
    requires u % FRAC20 * MICROSECOND - n == SECOND * j
    ensures (n == 0 && u == 0 && j == 0) || (n == 721_601_000 && u == 2 * FRAC20 + 721_601 && j == 0)
  {
    var t, y := u / FRAC20, u % FRAC20;
    var x := y - 1_000_000 * j;
    assert n == MICROSECOND * x && 0 <= x < 1_000_000;
    assert 0 <= t < 4;
    assert TWO8 * (FRAC20 * t + y) <= MICROSECOND * x < TWO8 * (FRAC20 * t + y + 1);
    if t == 0 {
    } else if t == 1 {
    } else if t == 2 {
    }
  }

  /** One base-60 digit of the fixed-point equation: 4 e + f is moved up four bits and t comes in below. */
  lemma Carry16(t: int, e: int, f: int, g: int)
    requires t in {0, 11, 14} && 0 <= f < 4 && 0 <= e < 15
    requires t + 15 * f + 56 * e == 60 * g
    ensures f == (if t == 0 then 0 else if t == 11 then 3 else 2)
    ensures e == g == (if t == 0 then 0 else if t == 11 then 14 else 11)
  {}

  lemma FixedClock16(t: int, hour: int, minute: int, second: int, k: int)
    requires (t == 0 || t == 11) && ClockInRange(hour, minute, second)
    requires MillisSeconds(t, hour, minute, second) == Seconds(hour, minute, second) + 86400 * k
    ensures if t == 0 then k == 0 && (hour, minute, second) == (0, 0, 0)
            else k == 1 && (hour, minute, second) == (3, 46, 59)
  {
    var e, f, c, d, a, b := second / 4, second % 4, minute / 4, minute % 4, hour / 2, hour % 2;
    var h := 120 * a + 1440 * k - 900 * b;
    assert t + 15 * f + 56 * e + 60 * (15 * d + 56 * c) == 60 * h;
    Carry16(t, e, f, h - 15 * d - 56 * c);
    Carry16(if t == 0 then 0 else 14, c, d, 2 * a + 24 * k - 15 * b);
  }

  lemma Carry4(t: int, e: int, f: int, g: int)
    requires t in {0, 2} && 0 <= f < 16 && 0 <= e < 4
    requires t + 3 * f + 44 * e == 60 * g
    ensures f == (if t == 0 then 0 else 10) && e == g == t
  {}

  lemma FixedClock4(t: int, hour: int, minute: int, second: int, k: int)
    requires (t == 0 || t == 2) && ClockInRange(hour, minute, second)
    requires MicrosSeconds(t, hour, minute, second) == Seconds(hour, minute, second) + 86400 * k
    ensures k == 0 && (hour, minute, second) == if t == 0 then (0, 0, 0) else (10, 42, 42)
  {
    var e, f, c, d, a, b := second / 16, second % 16, minute / 16, minute % 16, hour / 8, hour % 8;
    var h := 480 * a + 1440 * k - 180 * b;
    assert t + 3 * f + 44 * e + 60 * (3 * d + 44 * c) == 60 * h;
    Carry4(t, e, f, h - 3 * d - 44 * c);
    Carry4(t, c, d, 8 * a + 24 * k - 3 * b);
  }

  const MILLIS := Layout(4, FRAC10, MILLISECOND)
  const MICROS := Layout(5, FRAC20, MICROSECOND)

  lemma MillisLeft(nsec: int, w: nat)
    requires 0 <= nsec < SECOND
    ensures var u := nsec / TWO16;
            && 0 <= u / FRAC10 < 16
            && (nsec + FRAC30 * w) / TWO16 == u % FRAC10 + FRAC10 * (u / FRAC10 + 16 * w)
  {
    var u := nsec / TWO16;
    QuotientIs(nsec + FRAC30 * w, TWO16, u + 0x4000 * w, nsec % TWO16);
  }

  lemma MicrosLeft(nsec: int, w: nat)
    requires 0 <= nsec < SECOND
    ensures var u := nsec / TWO8;
            && 0 <= u / FRAC20 < 4
            && (nsec + FRAC30 * w) / TWO8 == u % FRAC20 + FRAC20 * (u / FRAC20 + 4 * w)
  {
    var u := nsec / TWO8;
    QuotientIs(nsec + FRAC30 * w, TWO8, u + 0x40_0000 * w, nsec % TWO8);
  }

  function MillisClock(u: int, hour: int, minute: int, second: int): int {
    u % FRAC10 * MILLISECOND + SECOND * MillisSeconds(u / FRAC10, hour, minute, second)
  }

  lemma MillisPacked(hour: int, minute: int, second: int, nsec: int)
    requires ClockInRange(hour, minute, second) && 0 <= nsec < SECOND
    ensures var u, seen := nsec / TWO16, PackTime(FRAC30, hour, minute, second, nsec) / TWO16;
            0 <= u / FRAC10 < 16 && seen == u % FRAC10 + FRAC10 * (u / FRAC10 + 16 * Packed(hour, minute, second)) >= 0
  {
    MillisLeft(nsec, Packed(hour, minute, second));
    NanosSplit(hour, minute, second, nsec);
  }

  function MicrosClock(u: int, hour: int, minute: int, second: int): int {
    u % FRAC20 * MICROSECOND + SECOND * MicrosSeconds(u / FRAC20, hour, minute, second)
  }

  lemma MicrosPacked(hour: int, minute: int, second: int, nsec: int)
    requires ClockInRange(hour, minute, second) && 0 <= nsec < SECOND
    ensures var u, seen := nsec / TWO8, PackTime(FRAC30, hour, minute, second, nsec) / TWO8;
            0 <= u / FRAC20 < 4 && seen == u % FRAC20 + FRAC20 * (u / FRAC20 + 4 * Packed(hour, minute, second)) >= 0
  {
    MicrosLeft(nsec, Packed(hour, minute, second));
    NanosSplit(hour, minute, second, nsec);
  }

  /** What the shorter layouts make of the six written bytes, in terms of the time that was packed. */
  lemma MillisDuration(u: nat, hour: int, minute: int, second: int)
    requires ClockInRange(hour, minute, second) && 0 <= u / FRAC10 < 16
    ensures var seen := u % FRAC10 + FRAC10 * (u / FRAC10 + 16 * Packed(hour, minute, second));
            seen >= 0 && Duration(MILLIS, seen) == MillisClock(u, hour, minute, second)
  {
    var t := u / FRAC10;
    MovedFields16(t, hour, minute, second);
    DurationIs(MILLIS, u % FRAC10, t + 16 * Packed(hour, minute, second),
               t + 16 * (second % 4), second / 4 + 16 * (minute % 4), minute / 4 + 16 * (hour % 2));
  }

  lemma MicrosDuration(u: nat, hour: int, minute: int, second: int)
    requires ClockInRange(hour, minute, second) && 0 <= u / FRAC20 < 4
    ensures var seen := u % FRAC20 + FRAC20 * (u / FRAC20 + 4 * Packed(hour, minute, second));
            seen >= 0 && Duration(MICROS, seen) == MicrosClock(u, hour, minute, second)
  {
    var t := u / FRAC20;
    MovedFields4(t, hour, minute, second);
    DurationIs(MICROS, u % FRAC20, t + 4 * Packed(hour, minute, second),
               t + 4 * (second % 16), second / 16 + 4 * (minute % 16), minute / 16 + 4 * (hour % 8));
  }

  /** The equation between what is seen and what was meant, whole seconds apart. */
  lemma MillisSolved(u: int, hour: int, minute: int, second: int, nsec: int, days: int, j: int)
    requires ClockInRange(hour, minute, second) && 0 <= nsec < SECOND && u == nsec / TWO16
    requires j == Seconds(hour, minute, second) + 86400 * days - MillisSeconds(u / FRAC10, hour, minute, second)
    requires u % FRAC10 * MILLISECOND - nsec == SECOND * j
    ensures || (days == 0 && (hour, minute, second, nsec) == (0, 0, 0, 0))
            || (days == 1 && (hour, minute, second, nsec) == (3, 46, 59, 790_000_000))
  {
    FixedFraction6(nsec, u, j);
    FixedClock16(u / FRAC10, hour, minute, second, days);
  }

  lemma MillisEquation(u: int, hour: int, minute: int, second: int, nsec: int, days: int, target: int)
    requires ClockInRange(hour, minute, second) && 0 <= nsec < SECOND && u == nsec / TWO16
    requires target == nsec + SECOND * (Seconds(hour, minute, second) + 86400 * days)
    ensures MillisClock(u, hour, minute, second) == target <==>
            || (days == 0 && (hour, minute, second, nsec) == (0, 0, 0, 0))
            || (days == 1 && (hour, minute, second, nsec) == (3, 46, 59, 790_000_000))
  {
    var j := Seconds(hour, minute, second) + 86400 * days - MillisSeconds(u / FRAC10, hour, minute, second);
    if u % FRAC10 * MILLISECOND - nsec == SECOND * j {
      MillisSolved(u, hour, minute, second, nsec, days, j);
    } else if nsec == 790_000_000 {
      assert u == 12054;
    }
  }

  /** The equation between what is seen and what was meant, whole seconds apart. */
  lemma MicrosSolved(u: int, hour: int, minute: int, second: int, nsec: int, days: int, j: int)
    requires ClockInRange(hour, minute, second) && 0 <= nsec < SECOND && u == nsec / TWO8
    requires j == Seconds(hour, minute, second) + 86400 * days - MicrosSeconds(u / FRAC20, hour, minute, second)
    requires u % FRAC20 * MICROSECOND - nsec == SECOND * j
    ensures && days == 0
            && ((hour, minute, second, nsec) == (0, 0, 0, 0)
                || (hour, minute, second, nsec) == (10, 42, 42, 721_601_000))
  {
    FixedFraction9(nsec, u, j);
    FixedClock4(u / FRAC20, hour, minute, second, days);
  }

  lemma MicrosEquation(u: int, hour: int, minute: int, second: int, nsec: int, days: int, target: int)
    requires ClockInRange(hour, minute, second) && 0 <= nsec < SECOND && u == nsec / TWO8
    requires target == nsec + SECOND * (Seconds(hour, minute, second) + 86400 * days)
    ensures MicrosClock(u, hour, minute, second) == target <==>
            && days == 0
            && ((hour, minute, second, nsec) == (0, 0, 0, 0)
                || (hour, minute, second, nsec) == (10, 42, 42, 721_601_000))
  {
    var j := Seconds(hour, minute, second) + 86400 * days - MicrosSeconds(u / FRAC20, hour, minute, second);
    if u % FRAC20 * MICROSECOND - nsec == SECOND * j {
      MicrosSolved(u, hour, minute, second, nsec, days, j);
    } else if nsec == 721_601_000 {
      assert u == 2818753;
    }
  }

  lemma NanosDays(hour: int, minute: int, second: int, nsec: int, days: int)
    ensures ClockNanos(hour, minute, second, nsec) + DAY * days
            == nsec + SECOND * (Seconds(hour, minute, second) + 86400 * days)
  {
    NanosSplit(hour, minute, second, nsec);
  }

  lemma MillisNanos(u: int, hour: int, minute: int, second: int, nsec: int, days: int)
    requires ClockInRange(hour, minute, second) && 0 <= nsec < SECOND && u == nsec / TWO16
    ensures MillisClock(u, hour, minute, second) == ClockNanos(hour, minute, second, nsec) + DAY * days <==>
            || (days == 0 && (hour, minute, second, nsec) == (0, 0, 0, 0))
            || (days == 1 && (hour, minute, second, nsec) == (3, 46, 59, 790_000_000))
  {
    NanosDays(hour, minute, second, nsec, days);
    MillisEquation(u, hour, minute, second, nsec, days, ClockNanos(hour, minute, second, nsec) + DAY * days);
  }

  lemma MicrosNanos(u: int, hour: int, minute: int, second: int, nsec: int, days: int)
    requires ClockInRange(hour, minute, second) && 0 <= nsec < SECOND && u == nsec / TWO8
    ensures MicrosClock(u, hour, minute, second) == ClockNanos(hour, minute, second, nsec) + DAY * days <==>
            && days == 0
            && ((hour, minute, second, nsec) == (0, 0, 0, 0)
                || (hour, minute, second, nsec) == (10, 42, 42, 721_601_000))
  {
    NanosDays(hour, minute, second, nsec, days);
    MicrosEquation(u, hour, minute, second, nsec, days, ClockNanos(hour, minute, second, nsec) + DAY * days);
  }

  /** At precision 6 a time shows itself at midnight; up to whole days, 03:46:59.790 does so too. */
  lemma MillisFixedPoints(seen: nat, hour: int, minute: int, second: int, nsec: int, days: int)
    requires ClockInRange(hour, minute, second) && 0 <= nsec < SECOND
    requires seen == PackTime(FRAC30, hour, minute, second, nsec) / TWO16
    ensures Duration(MILLIS, seen) == ClockNanos(hour, minute, second, nsec) + DAY * days <==>
            || (days == 0 && (hour, minute, second, nsec) == (0, 0, 0, 0))
            || (days == 1 && (hour, minute, second, nsec) == (3, 46, 59, 790_000_000))
  {
    var u := nsec / TWO16;
    MillisPacked(hour, minute, second, nsec);
    MillisDuration(u, hour, minute, second);
    MillisNanos(u, hour, minute, second, nsec, days);
  }

  /** At precision 9 a time shows itself at midnight and at 10:42:42.721601. */
  lemma MicrosFixedPoints(seen: nat, hour: int, minute: int, second: int, nsec: int, days: int)
    requires ClockInRange(hour, minute, second) && 0 <= nsec < SECOND
    requires seen == PackTime(FRAC30, hour, minute, second, nsec) / TWO8
    ensures Duration(MICROS, seen) == ClockNanos(hour, minute, second, nsec) + DAY * days <==>
            && days == 0
            && ((hour, minute, second, nsec) == (0, 0, 0, 0)
                || (hour, minute, second, nsec) == (10, 42, 42, 721_601_000))
  {
    var u := nsec / TWO8;
    MicrosPacked(hour, minute, second, nsec);
    MicrosDuration(u, hour, minute, second);
    MicrosNanos(u, hour, minute, second, nsec, days);
  }

  lemma ClockBelowDay(hour: int, minute: int, second: int, nsec: int)
    requires ClockInRange(hour, minute, second) && 0 <= nsec < SECOND
    ensures 0 <= ClockNanos(hour, minute, second, nsec) < DAY
  {}

  lemma SameTimeOfDay(d: int, c: int)
    requires 0 <= c < DAY
    ensures d == c + DAY * (d / DAY) <==> d % DAY == c
  {}

  lemma MillisSurvives(seen: nat, hour: int, minute: int, second: int, nsec: int)
    requires ClockInRange(hour, minute, second) && 0 <= nsec < SECOND
    requires seen == PackTime(FRAC30, hour, minute, second, nsec) / TWO16
    ensures var d, c := Duration(MILLIS, seen), ClockNanos(hour, minute, second, nsec);
            && (d == c <==> ClockSurvives(6, hour, minute, second, nsec, false))
            && (d % DAY == c <==> ClockSurvives(6, hour, minute, second, nsec, true))
  {
    ClockBelowDay(hour, minute, second, nsec);
    var d := Duration(MILLIS, seen);
    SameTimeOfDay(d, ClockNanos(hour, minute, second, nsec));
    MillisFixedPoints(seen, hour, minute, second, nsec, 0);
    MillisFixedPoints(seen, hour, minute, second, nsec, 1);
    MillisFixedPoints(seen, hour, minute, second, nsec, d / DAY);
  }

  lemma MicrosSurvives(seen: nat, hour: int, minute: int, second: int, nsec: int)
    requires ClockInRange(hour, minute, second) && 0 <= nsec < SECOND
    requires seen == PackTime(FRAC30, hour, minute, second, nsec) / TWO8
    ensures var d, c := Duration(MICROS, seen), ClockNanos(hour, minute, second, nsec);
            && (d == c <==> ClockSurvives(9, hour, minute, second, nsec, false))
            && (d % DAY == c <==> ClockSurvives(9, hour, minute, second, nsec, true))
  {
    ClockBelowDay(hour, minute, second, nsec);
    var d := Duration(MICROS, seen);
    SameTimeOfDay(d, ClockNanos(hour, minute, second, nsec));
    MicrosFixedPoints(seen, hour, minute, second, nsec, 0);
    MicrosFixedPoints(seen, hour, minute, second, nsec, d / DAY);
  }

  /** At every precision: what encodeTime writes is read as the time it was exactly on ClockSurvives. */
  lemma ClockReadsBack(prefix: seq<Byte>, precision: int, hour: int, minute: int, second: int, nsec: int)
    requires ClockInRange(hour, minute, second) && 0 <= nsec < SECOND
    ensures EncodeTimeSpec(hour, minute, second, nsec).Ok?
    ensures var r := DecodeTimeSpec(prefix + EncodeTimeSpec(hour, minute, second, nsec).value, precision);
            var c := ClockNanos(hour, minute, second, nsec);
            && (r == Ok(c) <==> ClockSurvives(precision, hour, minute, second, nsec, false))
            && (r.Ok? && r.value % DAY == c <==> ClockSurvives(precision, hour, minute, second, nsec, true))
            && (r.Ok? <==> precision in {0, 6, 9, 12})
  {
    if precision == 12 {
      TimeRoundTrip12(prefix, hour, minute, second, nsec);
    } else if precision == 9 {
      ShorterLayoutShifts(prefix, 9, hour, minute, second, nsec);
      MicrosSurvives(PackTime(FRAC30, hour, minute, second, nsec) / Pow256(1), hour, minute, second, nsec);
    } else if precision == 6 || precision == 0 {
      ShorterLayoutShifts(prefix, precision, hour, minute, second, nsec);
      Pow256Small();
      MillisSurvives(PackTime(FRAC30, hour, minute, second, nsec) / Pow256(2), hour, minute, second, nsec);
    }
  }
}
