/** One element of a binary tuple: how each kind is written and how it is read back. */
module Elements {
  import opened Bytes
  import opened Types
  import opened Integers
  import TwosComplement
  import Temporal
  import DecimalText
  import Uuids

  const VARLEN_EMPTY: Byte := 0x80

  // ---------------------------------------------------------------- writing

  /** The texts that count as true: "true", "TRUE" and "1". */
  predicate TrueText(t: seq<Byte>) {
    t == [116, 114, 117, 101] || t == [84, 82, 85, 69] || t == [49]
  }

  /** The integer types that conversions other than the one to an integer accept. */
  predicate SignedWide(t: IntType) {
    t.GoInt? || t.GoInt32? || t.GoInt64?
  }

  /** toInt64 for integers: a uint64 above the int64 range wraps. */
  function ToInt64(i: Integer): (n: Int64) {
    Wrap(i.n, INT64)
  }

  /** toBool: numbers are compared with zero; a double is zero when everything but its sign bit is. */
  function ToBool(v: Value): (b: Option<bool>) {
    match v
    case Bool(b) => Some(b)
    case Str(t) => Some(TrueText(t))
    case Int(i) => if SignedWide(i.typ) then Some(i.n != 0) else None
    case Float64(bits, _) => Some(bits % INT64 != 0)
    case _ => None
  }

  /** The integer types that toFloat64 accepts. */
  predicate FloatConvertible(t: IntType) {
    SignedWide(t) || t.GoInt16?
  }

  /** fmt.Sprintf("%v") of the values whose text the model has. */
  function Formatted(v: Value): (t: Option<seq<Byte>>) {
    match v
    case Str(t) => Some(t)
    case Bool(b) => Some(if b then [116, 114, 117, 101] else [102, 97, 108, 115, 101])
    case Int(i) => Some(DecimalText.Signed(i.n < 0, DecimalText.Digits(DecimalText.Abs(i.n))))
    case Dec(u, s) => Some(DecimalText.String(u, s))
    case _ => None
  }

  /** toDecimal for decimals, integers and decimal text. */
  function ToDecimal(v: Value, scale: int): (d: Option<(int, int)>) {
    match v
    case Dec(u, s) => Some((u, s))
    case Int(i) => if SignedWide(i.typ) then Some((i.n, scale)) else None
    case Str(t) => Some(DecimalText.DecimalFromString(t, scale))
    case _ => None
  }

  function EncodeDecimal(u: int, scale: int): (bs: seq<Byte>) {
    PutLE(scale, 2) + TwosComplement.Minimal(u)
  }

  function EncodeTimestamp(unix: int, nsec: int): (bs: seq<Byte>) {
    if nsec != 0 then PutLE(unix, 8) + PutLE(nsec, 4) else PutLE(unix, 8)
  }

  function EncodeString(s: seq<Byte>): (bs: seq<Byte>) {
    if s == [] then [VARLEN_EMPTY] else s
  }

  function EncodeBytes(b: seq<Byte>): (bs: seq<Byte>) {
    if b == [] || b[0] == VARLEN_EMPTY then [VARLEN_EMPTY] + b else b
  }

  function EncodeMomentDateTime(t: Moment): (r: Outcome<seq<Byte>>) {
    match Temporal.EncodeDate(t.year, t.month, t.day)
    case Ok(date) =>
      (match Temporal.EncodeTimeSpec(t.hour, t.minute, t.second, t.nsec)
       case Ok(time) => Ok(date + time)
       case other => other)
    case other => other
  }

  /** The bytes appended for one value, or the error. */
  function EncodeElement(col: BinaryTupleColumn, v: Value): (r: Outcome<seq<Byte>>) {
    if v.Nil? then Ok([])
    else
      match col.kind
      case BtNull => Ok([])
      case BtBoolean =>
        (match ToBool(v)
         case Some(b) => Ok([if b then 1 else 0])
         case None => Err(Unconvertible))
      case BtInt8 | BtInt16 | BtInt32 | BtInt64 =>
        if v.Int? then PutBinaryTupleInt(col.kind, ToInt64(v.i))
        else if v.Float32? || v.Float64? then Err(ConversionOutsideModel)
        else Err(Unconvertible)
      case BtFloat =>
        if v.Float32? then Ok(PutLE(v.bits32, 4))
        else if v.Float64? || (v.Int? && FloatConvertible(v.i.typ)) then Err(ConversionOutsideModel)
        else Err(Unconvertible)
      case BtDouble =>
        if v.Float64? then Ok(if v.narrow.Some? then PutLE(v.narrow.value, 4) else PutLE(v.bits64, 8))
        else if v.Float32? || (v.Int? && FloatConvertible(v.i.typ)) then Err(ConversionOutsideModel)
        else Err(Unconvertible)
      case BtDecimal =>
        (match ToDecimal(v, col.scale)
         case Some(d) => Ok(EncodeDecimal(d.0, d.1))
         case None => if v.Float64? then Err(ConversionOutsideModel) else Err(Unconvertible))
      case BtDate =>
        if v.At? then Temporal.EncodeDate(v.moment.year, v.moment.month, v.moment.day)
        else if v.Str? then Err(ConversionOutsideModel)
        else Err(Unconvertible)
      case BtTime =>
        if v.At? then Temporal.EncodeTimeSpec(v.moment.hour, v.moment.minute, v.moment.second, v.moment.nsec)
        else if v.Str? then Err(ConversionOutsideModel)
        else Err(Unconvertible)
      case BtDateTime =>
        if v.At? then EncodeMomentDateTime(v.moment)
        else if v.Str? then Err(ConversionOutsideModel)
        else Err(Unconvertible)
      case BtTimestamp =>
        if v.At? then Ok(EncodeTimestamp(v.moment.unix, v.moment.nsec))
        else if v.Str? then Err(ConversionOutsideModel)
        else Err(Unconvertible)
      case BtUuid =>
        if v.Uuid? then Ok(v.uuid) else Err(Unconvertible)
      case BtString =>
        (match Formatted(v)
         case Some(t) => Ok(EncodeString(t))
         case None => Err(ConversionOutsideModel))
      case BtBytes =>
        if v.Bin? then Ok(EncodeBytes(v.data))
        else if v.Str? then Ok(EncodeBytes(v.text))
        else Err(Unconvertible)
      case BtOther => Err(UnsupportedKind)
  }

  class Buffer {
    var data: seq<Byte>

    constructor ()
      ensures data == []
    {
      data := [];
    }

    method Write(bs: seq<Byte>)
      modifies this
      ensures data == old(data) + bs
    {
      data := data + bs;
    }
  }

  /** The outcome of appending bytes to a buffer: everything or an error. */
  ghost predicate Appended(before: seq<Byte>, after: seq<Byte>, r: Outcome<seq<Byte>>, err: Option<Error>) {
    match r
    case Ok(bs) => err.None? && after == before + bs
    case Err(e) => err == Some(e)
    case Panic => false
  }

  method AppendDecimal(buf: Buffer, u: int, scale: int)
    modifies buf
    ensures buf.data == old(buf.data) + EncodeDecimal(u, scale)
  {
    buf.Write(PutLE(scale, 2));
    var unscaled, _ := TwosComplement.TwosComplementBytes(u);
    buf.Write(unscaled);
  }

  /** Tries the widths that the kind allows, narrowest first. */
  method AppendInt(buf: Buffer, kind: Kind, n: Int64) returns (err: Option<Error>)
    requires IsIntKind(kind)
    modifies buf
    ensures Appended(old(buf.data), buf.data, PutBinaryTupleInt(kind, n), err)
  {
    if !kind.BtInt64? && Fits(n, INT8) {
      buf.Write(PutLE(n, 1));
      return None;
    }
    if kind.BtInt8? {
      return Some(DoesNotFit(kind));
    }
    if Fits(n, INT16) {
      buf.Write(PutLE(n, 2));
      return None;
    }
    if kind.BtInt16? {
      return Some(DoesNotFit(kind));
    }
    if Fits(n, INT32) {
      buf.Write(PutLE(n, 4));
      return None;
    }
    if kind.BtInt32? {
      return Some(DoesNotFit(kind));
    }
    buf.Write(PutLE(n, 8));
    err := None;
  }

  method AppendFloat(buf: Buffer, kind: Kind, v: Value) returns (err: Option<Error>)
    requires (kind.BtFloat? || kind.BtDouble?) && !v.Nil?
    modifies buf
    ensures Appended(old(buf.data), buf.data, EncodeElement(BinaryTupleColumn(kind, 0), v), err)
  {
    match v {
      case Float32(bits) =>
        if kind.BtDouble? {
          return Some(ConversionOutsideModel);
        }
        buf.Write(PutLE(bits, 4));
        err := None;
      case Float64(bits, narrow) =>
        if kind.BtFloat? {
          return Some(ConversionOutsideModel);
        }
        if narrow.Some? {
          buf.Write(PutLE(narrow.value, 4));
          return None;
        }
        buf.Write(PutLE(bits, 8));
        err := None;
      case Int(i) => err := Some(if FloatConvertible(i.typ) then ConversionOutsideModel else Unconvertible);
      case _ => err := Some(Unconvertible);
    }
  }

  method AppendTime(buf: Buffer, t: Moment) returns (err: Option<Error>)
    modifies buf
    ensures Appended(old(buf.data), buf.data, Temporal.EncodeTimeSpec(t.hour, t.minute, t.second, t.nsec), err)
  {
    var r := Temporal.EncodeTime(t.hour, t.minute, t.second, t.nsec);
    if !r.Ok? {
      return Some(r.error);
    }
    buf.Write(r.value);
    err := None;
  }

  method AppendDateTime(buf: Buffer, t: Moment) returns (err: Option<Error>)
    modifies buf
    ensures Appended(old(buf.data), buf.data, EncodeMomentDateTime(t), err)
  {
    var date := Temporal.EncodeDate(t.year, t.month, t.day);
    if !date.Ok? {
      return Some(date.error);
    }
    buf.Write(date.value);
    err := AppendTime(buf, t);
  }

  method AppendTimestamp(buf: Buffer, unix: int, nsec: int)
    modifies buf
    ensures buf.data == old(buf.data) + EncodeTimestamp(unix, nsec)
  {
    var seconds, nanos := PutLE(unix, 8), PutLE(nsec, 4);
    ghost var was := buf.data;
    buf.Write(seconds);
    if nsec != 0 {
      buf.Write(nanos);
      assert was + seconds + nanos == was + (seconds + nanos);
    }
  }

  method AppendMoment(buf: Buffer, kind: Kind, t: Moment) returns (err: Option<Error>)
    requires kind.BtDate? || kind.BtTime? || kind.BtDateTime? || kind.BtTimestamp?
    modifies buf
    ensures Appended(old(buf.data), buf.data, EncodeElement(BinaryTupleColumn(kind, 0), At(t)), err)
  {
    match kind {
      case BtDate =>
        var date := Temporal.EncodeDate(t.year, t.month, t.day);
        if !date.Ok? {
          return Some(date.error);
        }
        buf.Write(date.value);
        err := None;
      case BtTime => err := AppendTime(buf, t);
      case BtDateTime => err := AppendDateTime(buf, t);
      case BtTimestamp =>
        AppendTimestamp(buf, t.unix, t.nsec);
        err := None;
    }
  }

  /** The escape goes before an empty value and before one that begins with the escape byte itself. */
  method AppendBytes(buf: Buffer, b: seq<Byte>)
    modifies buf
    ensures buf.data == old(buf.data) + EncodeBytes(b)
  {
    ghost var was := buf.data;
    if |b| == 0 || b[0] == VARLEN_EMPTY {
      buf.Write([VARLEN_EMPTY]);
      assert was + [VARLEN_EMPTY] + b == was + ([VARLEN_EMPTY] + b);
    }
    buf.Write(b);
  }

  /** Appends one value to the buffer; what an error leaves behind in the buffer is never sent. */
  method AppendBinaryTupleValue(buf: Buffer, col: BinaryTupleColumn, v: Value) returns (err: Option<Error>)
    modifies buf
    ensures Appended(old(buf.data), buf.data, EncodeElement(col, v), err)
  {
    if v.Nil? {
      assert buf.data == buf.data + [];
      return None;
    }
    match col.kind {
      case BtNull =>
        assert buf.data == buf.data + [];
        err := None;
      case BtBoolean =>
        var b := ToBool(v);
        if b.None? {
          return Some(Unconvertible);
        }
        buf.Write([if b.value then 1 else 0]);
        err := None;
      case BtInt8 | BtInt16 | BtInt32 | BtInt64 =>
        if !v.Int? {
          return Some(if v.Float32? || v.Float64? then ConversionOutsideModel else Unconvertible);
        }
        err := AppendInt(buf, col.kind, ToInt64(v.i));
      case BtFloat | BtDouble =>
        err := AppendFloat(buf, col.kind, v);
      case BtDecimal =>
        var d := ToDecimal(v, col.scale);
        if d.None? {
          return Some(if v.Float64? then ConversionOutsideModel else Unconvertible);
        }
        AppendDecimal(buf, d.value.0, d.value.1);
        err := None;
      case BtDate | BtTime | BtDateTime | BtTimestamp =>
        if !v.At? {
          return Some(if v.Str? then ConversionOutsideModel else Unconvertible);
        }
        err := AppendMoment(buf, col.kind, v.moment);
      case BtUuid =>
        if !v.Uuid? {
          return Some(Unconvertible);
        }
        buf.Write(v.uuid);
        err := None;
      case BtString =>
        var text := Formatted(v);
        if text.None? {
          return Some(ConversionOutsideModel);
        }
        buf.Write(if text.value == [] then [VARLEN_EMPTY] else text.value);
        err := None;
      case BtBytes =>
        if !v.Bin? && !v.Str? {
          return Some(Unconvertible);
        }
        AppendBytes(buf, if v.Bin? then v.data else v.text);
        err := None;
      case BtOther =>
        err := Some(UnsupportedKind);
    }
  }

  lemma NeverPanics(col: BinaryTupleColumn, v: Value)
    ensures !EncodeElement(col, v).Panic?
  {}

  /**
   * NULL is unambiguous on the wire: outside BtNull columns, an element takes no bytes exactly when its value is nil.
   */
  lemma NullIsZeroBytes(col: BinaryTupleColumn, v: Value)
    requires !col.kind.BtNull? && EncodeElement(col, v).Ok?
    ensures EncodeElement(col, v).value == [] <==> v.Nil?
  {
    if !v.Nil? {
      match col.kind {
        case BtInt8 | BtInt16 | BtInt32 | BtInt64 => IntRoundTrip(col.kind, ToInt64(v.i));
        case _ =>
      }
    }
  }

  // ---------------------------------------------------------------- reading

  /** The 0x80 that escapes an empty or 0x80-led value is dropped; any other leading 0x80 is dropped as well. */
  function StripEscape(raw: seq<Byte>): (bs: seq<Byte>) {
    if |raw| > 0 && raw[0] == VARLEN_EMPTY then raw[1..] else raw
  }

  /** The escape written before a byte array is undone for every byte array, runs of leading 0x80 included. */
  lemma EscapeInverts(b: seq<Byte>)
    ensures StripEscape(EncodeBytes(b)) == b
    ensures EncodeBytes(b) != []
  {
    assert ([VARLEN_EMPTY] + b)[1..] == b;
  }

  predicate IsBigEndianType(typeId: int) {
    typeId == TYPE_SMALLINT || typeId == TYPE_INT || typeId == TYPE_BIGINT
  }

  predicate IsEscapedType(typeId: int) {
    typeId == TYPE_VARCHAR || typeId == TYPE_VARBINARY
  }

  /** The value a tuple keeps for an element that occupies the bytes raw. */
  function KeptValue(typeId: int, raw: seq<Byte>): (value: seq<Byte>) {
    if IsBigEndianType(typeId) then Reverse(raw)
    else if IsEscapedType(typeId) then StripEscape(raw)
    else raw
  }

  function ReadInt(value: seq<Byte>, half: int): (r: Outcome<Read>)
    requires half > 0
  {
    if |value| > 8 then Err(IntegerLength) else Ok(RInt(Wrap(TwosComplement.Signed(value), half)))
  }

  function ReadDecimal(value: seq<Byte>): (r: Outcome<Read>) {
    if |value| < 2 then Panic
    else Ok(RDecimal(TwosComplement.Signed(value[2..]), Wrap(LE(value[..2]), INT16)))
  }

  function ReadDateTime(value: seq<Byte>, precision: int): (r: Outcome<Read>) {
    if |value| <= 6 then Ok(RDateTime(1, 1, 1, 0))
    else
      match Temporal.DecodeTimeSpec(value, precision)
      case Ok(t) =>
        var d := Temporal.DateFields(value);
        Ok(RDateTime(d.year, d.month, d.day, t % Temporal.DAY))
      case Err(e) => Err(e)
      case Panic => Panic
  }

  function ReadTimestamp(value: seq<Byte>): (r: Outcome<Read>) {
    if |value| < 12 then Panic
    else Ok(RTimestamp(Wrap(LE(value[..8]), INT64), LE(value[8..12])))
  }

  /** What GetValue makes of a kept value. */
  function ReadValue(value: seq<Byte>, precision: int, valType: int): (r: Outcome<Read>) {
    if valType == TYPE_NULL || value == [] then Ok(RNil)
    else if valType == TYPE_BOOLEAN then Ok(RBool(value[0] != 0))
    else if valType == TYPE_TINYINT then ReadInt(value, INT8)
    else if valType == TYPE_SMALLINT then ReadInt(value, INT16)
    else if valType == TYPE_INT then ReadInt(value, INT32)
    else if valType == TYPE_BIGINT then ReadInt(value, INT64)
    else if valType == TYPE_REAL then
      if |value| < 4 then Panic else Ok(RFloat32(LE(value[..4])))
    else if valType == TYPE_DOUBLE then
      if |value| == 4 then Ok(RFloat32(LE(value)))
      else if |value| == 8 then Ok(RFloat64(LE(value)))
      else Err(DoubleLength)
    else if valType == TYPE_DECIMAL then ReadDecimal(value)
    else if valType == TYPE_DATE then
      if |value| < 3 then Panic else Ok(Temporal.DateFields(value))
    else if valType == TYPE_TIME then
      match Temporal.DecodeTimeSpec(value, precision)
      case Ok(t) => Ok(RClock(t))
      case Err(e) => Err(e)
      case Panic => Panic
    else if valType == TYPE_DATETIME then ReadDateTime(value, precision)
    else if valType == TYPE_TIMESTAMP then ReadTimestamp(value)
    else if valType == TYPE_UUID then
      if |value| < 16 then Panic else Ok(RUuid(Uuids.Flipped(value[..16])))
    else if valType == TYPE_VARCHAR then Ok(RStr(value))
    else if valType == TYPE_VARBINARY then Ok(RBin(value))
    else Err(TypeNotImplemented)
  }

  // ---------------------------------------------------------------- round trip

  /** The value a reader should get back for v written to a column, after the column's own conversion. */
  function Expected(col: BinaryTupleColumn, v: Value): (r: Read) {
    match v
    case Nil => RNil
    case Bool(b) => if col.kind.BtString? then RStr(Formatted(v).value) else RBool(b)
    case Int(i) =>
      if col.kind.BtBoolean? then RBool(i.n != 0)
      else if col.kind.BtDecimal? then RDecimal(i.n, col.scale)
      else if col.kind.BtString? then RStr(Formatted(v).value)
      else RInt(i.n)
    case Float32(bits) => RFloat32(bits)
    case Float64(bits, narrow) =>
      if col.kind.BtBoolean? then RBool(bits % INT64 != 0)
      else if narrow.Some? then RFloat32(narrow.value)
      else RFloat64(bits)
    case Dec(u, s) => if col.kind.BtString? then RStr(Formatted(v).value) else RDecimal(u, s)
    case At(t) =>
      if col.kind.BtDate? then RDate(t.year, t.month, t.day)
      else if col.kind.BtTime? then RClock(Temporal.ClockNanos(t.hour, t.minute, t.second, t.nsec))
      else if col.kind.BtDateTime? then
        RDateTime(t.year, t.month, t.day, Temporal.ClockNanos(t.hour, t.minute, t.second, t.nsec))
      else RTimestamp(t.unix, t.nsec)
    case Uuid(u) => RUuid(u)
    case Str(t) =>
      if col.kind.BtBoolean? then RBool(TrueText(t))
      else if col.kind.BtDecimal? then
        var d := DecimalText.DecimalFromString(t, col.scale);
        RDecimal(d.0, d.1)
      else if col.kind.BtBytes? then RBin(t)
      else RStr(t)
    case Bin(b) => RBin(b)
  }

  predicate ClockOf(precision: int, t: Moment, dayDropped: bool) {
    Temporal.ClockSurvives(precision, t.hour, t.minute, t.second, t.nsec, dayDropped)
  }

  /** The exact domain of the round trip, as a caller can check it before writing. */
  predicate Survives(col: BinaryTupleColumn, precision: int, v: Value) {
    v.Nil? ||
    match col.kind
    case BtNull => false
    case BtInt8 | BtInt16 | BtInt32 | BtInt64 => v.Int? && Fits(v.i.n, INT64)
    case BtDecimal => Fits(if v.Dec? then v.scale else col.scale, INT16)
    case BtDate => v.At? && v.moment.year >= 0
    case BtTime => v.At? && ClockOf(precision, v.moment, false)
    case BtDateTime => v.At? && v.moment.year >= 0 && ClockOf(precision, v.moment, true)
    case BtTimestamp => v.At? && v.moment.nsec != 0
    case BtUuid => v.Uuid? && Uuids.Flipped(v.uuid) == v.uuid
    case BtString => Formatted(v).Some? && Formatted(v).value != [] && Formatted(v).value[0] != VARLEN_EMPTY
    case BtBytes => (v.Bin? && v.data != []) || (v.Str? && v.text != [])
    case _ => true
  }

  lemma ReadInt16(n: int)
    ensures Wrap(LE(PutLE(n, 2)), INT16) == Wrap(n, INT16)
  {
    ReadPutLEModulo(n, 2);
    Pow256Small();
    ModShift(n, TWO16, INT16);
  }

  lemma DecimalReadsBack(u: int, scale: int)
    ensures ReadDecimal(EncodeDecimal(u, scale)) == Ok(RDecimal(u, Wrap(scale, INT16)))
  {
    SideBySide(PutLE(scale, 2), TwosComplement.Minimal(u));
    ReadInt16(scale);
    TwosComplement.MinimalReadsBack(u);
  }

  lemma ReadInt64(n: Int64)
    ensures Wrap(LE(PutLE(n, 8)), INT64) == n
  {
    ReadPutLEModulo(n, 8);
    Pow256Small();
    if n < 0 {
      QuotientIs(n, TWO64, -1, n + TWO64);
      WrapUpperHalf(n + TWO64);
    } else {
      QuotientIs(n, TWO64, 0, n);
      WrapFits(n, INT64);
    }
  }

  lemma DateTimeReadsBack(t: Moment, precision: int)
    requires EncodeMomentDateTime(t).Ok?
    ensures ReadDateTime(EncodeMomentDateTime(t).value, precision)
            == Ok(RDateTime(t.year, t.month, t.day, Temporal.ClockNanos(t.hour, t.minute, t.second, t.nsec)))
            <==> t.year >= 0 && ClockOf(precision, t, true)
  {
    var date := Temporal.EncodeDate(t.year, t.month, t.day).value;
    var time := Temporal.EncodeTimeSpec(t.hour, t.minute, t.second, t.nsec).value;
    Temporal.DateRoundTrip(t.year, t.month, t.day, time);
    Temporal.EncodeTimeAccepts(t.hour, t.minute, t.second, t.nsec);
    Temporal.ClockReadsBack(date, precision, t.hour, t.minute, t.second, t.nsec);
  }

  lemma ReadsAsDateTime(value: seq<Byte>, precision: int)
    requires value != []
    ensures ReadValue(value, precision, TYPE_DATETIME) == ReadDateTime(value, precision)
    ensures KeptValue(TYPE_DATETIME, value) == value
  {}

  lemma TimestampReadsBack(t: Moment)
    ensures ReadTimestamp(EncodeTimestamp(t.unix, t.nsec))
            == (if t.nsec == 0 then Panic else Ok(RTimestamp(t.unix, t.nsec)))
  {
    if t.nsec != 0 {
      SideBySide(PutLE(t.unix, 8), PutLE(t.nsec, 4));
      ReadInt64(t.unix);
      Pow256Small();
      ReadPutLE(t.nsec, 4);
    }
  }

  /** Expected reading of a value written to one of the four integer columns. */
  lemma IntReadsBack(typeId: int, n: Int64)
    requires typeId == TYPE_TINYINT || IsBigEndianType(typeId)
    requires PutBinaryTupleInt(ColumnKindForTypeId(typeId), n).Ok?
    ensures var bs := PutBinaryTupleInt(ColumnKindForTypeId(typeId), n).value;
            ReadValue(KeptValue(typeId, bs), 0, typeId) == Ok(RInt(n))
  {
    IntRoundTrip(ColumnKindForTypeId(typeId), n);
  }

  lemma PrecisionOnlyForTimes(value: seq<Byte>, p1: int, p2: int, valType: int)
    requires valType != TYPE_TIME && valType != TYPE_DATETIME
    ensures ReadValue(value, p1, valType) == ReadValue(value, p2, valType)
  {}

  lemma TimeReadsBack(t: Moment, precision: int)
    requires Temporal.EncodeTimeSpec(t.hour, t.minute, t.second, t.nsec).Ok?
    ensures ReadValue(Temporal.EncodeTimeSpec(t.hour, t.minute, t.second, t.nsec).value, precision, TYPE_TIME)
              == Ok(RClock(Temporal.ClockNanos(t.hour, t.minute, t.second, t.nsec)))
            <==> ClockOf(precision, t, false)
  {
    var time := Temporal.EncodeTimeSpec(t.hour, t.minute, t.second, t.nsec).value;
    Temporal.EncodeTimeAccepts(t.hour, t.minute, t.second, t.nsec);
    Temporal.ClockReadsBack([], precision, t.hour, t.minute, t.second, t.nsec);
    assert [] + time == time;
  }

  lemma DateReadsBack(t: Moment)
    requires Temporal.EncodeDate(t.year, t.month, t.day).Ok?
    ensures ReadValue(Temporal.EncodeDate(t.year, t.month, t.day).value, 0, TYPE_DATE)
              == Ok(RDate(t.year, t.month, t.day))
            <==> t.year >= 0
  {
    var date := Temporal.EncodeDate(t.year, t.month, t.day).value;
    Temporal.DateRoundTrip(t.year, t.month, t.day, []);
    assert date + [] == date;
  }

  lemma FloatReadsBack(bits: int, w: nat)
    requires (w == 4 && 0 <= bits < TWO32) || (w == 8 && 0 <= bits < TWO64)
    ensures LE(PutLE(bits, w)) == bits && PutLE(bits, w)[..w] == PutLE(bits, w)
  {
    Pow256Small();
    ReadPutLE(bits, w);
  }

  /** A VARCHAR comes back unless it is empty (read as NULL) or begins with a byte 0x80 (which is dropped). */
  lemma StringReadsBack(t: seq<Byte>)
    ensures ReadValue(StripEscape(EncodeString(t)), 0, TYPE_VARCHAR) ==
            if t == [] || t == [0x80] then Ok(RNil)
            else if t[0] == 0x80 then Ok(RStr(t[1..]))
            else Ok(RStr(t))
    ensures ReadValue(StripEscape(EncodeString(t)), 0, TYPE_VARCHAR) == Ok(RStr(t)) <==> t != [] && t[0] != VARLEN_EMPTY
  {
    if t != [] && t[0] == VARLEN_EMPTY {
      assert |StripEscape(t)| == |t| - 1;
    }
  }

  predicate ReadsBack(typeId: int, precision: int, col: BinaryTupleColumn, v: Value) {
    EncodeElement(col, v).Ok?
    && ReadValue(KeptValue(typeId, EncodeElement(col, v).value), precision, typeId) == Ok(Expected(col, v))
  }

  lemma IntegerReadBack(typeId: int, precision: int, col: BinaryTupleColumn, i: Integer)
    requires col.kind == ColumnKindForTypeId(typeId) && IsIntKind(col.kind)
    requires EncodeElement(col, Int(i)).Ok?
    ensures ReadsBack(typeId, precision, col, Int(i)) <==> Survives(col, precision, Int(i))
  {
    IntReadsBack(typeId, ToInt64(i));
    if Fits(i.n, INT64) { WrapFits(i.n, INT64); }
    PrecisionOnlyForTimes(KeptValue(typeId, EncodeElement(col, Int(i)).value), precision, 0, typeId);
  }

  lemma ScaleSurvives(scale: int)
    ensures Wrap(scale, INT16) == scale <==> Fits(scale, INT16)
  {
    if Fits(scale, INT16) { WrapFits(scale, INT16); }
  }

  lemma DecimalReadBack(precision: int, col: BinaryTupleColumn, v: Value)
    requires col.kind.BtDecimal? && EncodeElement(col, v).Ok? && !v.Nil?
    ensures ReadsBack(TYPE_DECIMAL, precision, col, v) <==> Survives(col, precision, v)
  {
    var d := ToDecimal(v, col.scale).value;
    DecimalReadsBack(d.0, d.1);
    ScaleSurvives(d.1);
  }

  lemma NumberReadBack(typeId: int, precision: int, col: BinaryTupleColumn, v: Value)
    requires col.kind == ColumnKindForTypeId(typeId) && 1 <= typeId <= TYPE_DECIMAL
    requires EncodeElement(col, v).Ok? && !v.Nil?
    ensures ReadsBack(typeId, precision, col, v) <==> Survives(col, precision, v)
  {
    match col.kind {
      case BtInt8 | BtInt16 | BtInt32 | BtInt64 => IntegerReadBack(typeId, precision, col, v.i);
      case BtFloat => FloatReadsBack(v.bits32, 4);
      case BtDouble =>
        if v.narrow.Some? { FloatReadsBack(v.narrow.value, 4); } else { FloatReadsBack(v.bits64, 8); }
      case BtDecimal => DecimalReadBack(precision, col, v);
      case _ =>
    }
  }

  lemma MomentReadBack(typeId: int, precision: int, col: BinaryTupleColumn, v: Value)
    requires col.kind == ColumnKindForTypeId(typeId) && TYPE_DATE <= typeId <= TYPE_TIMESTAMP
    requires EncodeElement(col, v).Ok? && !v.Nil?
    ensures ReadsBack(typeId, precision, col, v) <==> Survives(col, precision, v)
  {
    match col.kind {
      case BtDate =>
        DateReadsBack(v.moment);
        PrecisionOnlyForTimes(EncodeElement(col, v).value, precision, 0, typeId);
      case BtTime => TimeReadsBack(v.moment, precision);
      case BtDateTime => DateTimeReadsBack(v.moment, precision);
      case BtTimestamp => TimestampReadsBack(v.moment);
    }
  }

  lemma TextReadBack(precision: int, col: BinaryTupleColumn, v: Value)
    requires col.kind.BtString? && EncodeElement(col, v).Ok? && !v.Nil?
    ensures ReadsBack(TYPE_VARCHAR, precision, col, v) <==> Survives(col, precision, v)
  {
    StringReadsBack(Formatted(v).value);
  }

  lemma BytesReadBack(precision: int, col: BinaryTupleColumn, v: Value)
    requires col.kind.BtBytes? && EncodeElement(col, v).Ok? && !v.Nil?
    ensures ReadsBack(TYPE_VARBINARY, precision, col, v) <==> Survives(col, precision, v)
  {
    EscapeInverts(if v.Bin? then v.data else v.text);
  }

  lemma UuidReadBack(precision: int, col: BinaryTupleColumn, v: Value)
    requires col.kind.BtUuid? && EncodeElement(col, v).Ok? && !v.Nil?
    ensures ReadsBack(TYPE_UUID, precision, col, v) <==> Survives(col, precision, v)
  {
    assert v.uuid[..16] == v.uuid;
  }

  /**
   * Element round trip, exactly: for every column type and precision and every value the encoder accepts, reading the
   * element gives the value back if and only if the value is in the domain Survives.
   */
  lemma ElementReadBack(typeId: int, precision: int, col: BinaryTupleColumn, v: Value)
    requires col.kind == ColumnKindForTypeId(typeId)
    requires EncodeElement(col, v).Ok?
    ensures ReadsBack(typeId, precision, col, v) <==> Survives(col, precision, v)
  {
    if v.Nil? {
    } else if 1 <= typeId <= TYPE_DECIMAL {
      NumberReadBack(typeId, precision, col, v);
    } else if TYPE_DATE <= typeId <= TYPE_TIMESTAMP {
      MomentReadBack(typeId, precision, col, v);
    } else if typeId == TYPE_UUID {
      UuidReadBack(precision, col, v);
    } else if typeId == TYPE_VARCHAR {
      TextReadBack(precision, col, v);
    } else if typeId == TYPE_VARBINARY {
      BytesReadBack(precision, col, v);
    }
  }
}
