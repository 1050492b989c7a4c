/** The kinds, values and outcomes that rows, tuples and requests are made of. */
module Types {
  import opened Bytes

  /** A Go call that returns a value, returns an error, or panics. */
  datatype Outcome<+T> = Ok(value: T) | Err(error: Error) | Panic

  datatype Error =
    | ColumnCount
    | Unconvertible
    | ConversionOutsideModel
    | DoesNotFit(kind: Kind)
    | OutOfRange(part: DatePart)
    | UnsupportedKind
    | ValueAreaTooBig
    | TupleTooSmall
    | InvalidHeader
    | IntegerLength
    | DoubleLength
    | InvalidIndex
    | TypeNotImplemented
    | Precision
    | ScaleRange
    | ShortUuid
    | Transport
    | RequestIdMismatch
    | MalformedResponse(field: ResponseField)
    | HeartbeatRefused
    | ServerError(code: int, text: seq<Byte>)

  datatype ResponseField =
    | ResponseId | Flags | PartitionTimestamp | ObservableTimestamp
    | ErrorUuid | ErrorCode | ErrorMessage | ErrorDetails
    | HeartbeatStatus | HeartbeatExtra

  datatype DatePart = Year | Month | Day | Hour | Minute | Second | Nanosecond

  /** Element kinds of a binary tuple. BtOther stands for every integer that is none of the named constants. */
  datatype Kind =
    | BtNull | BtBoolean | BtInt8 | BtInt16 | BtInt32 | BtInt64 | BtFloat | BtDouble | BtDecimal
    | BtDate | BtTime | BtDateTime | BtTimestamp | BtUuid | BtString | BtBytes | BtOther

  // Protocol column type ids.
  const TYPE_NULL := 0
  const TYPE_BOOLEAN := 1
  const TYPE_TINYINT := 2
  const TYPE_SMALLINT := 3
  const TYPE_INT := 4
  const TYPE_BIGINT := 5
  const TYPE_REAL := 6
  const TYPE_DOUBLE := 7
  const TYPE_DECIMAL := 8
  const TYPE_DATE := 9
  const TYPE_TIME := 10
  const TYPE_DATETIME := 11
  const TYPE_TIMESTAMP := 12
  const TYPE_UUID := 13
  const TYPE_VARCHAR := 15
  const TYPE_VARBINARY := 16

  function ColumnKindForTypeId(typeId: int): (k: Kind) {
    if typeId == TYPE_BOOLEAN then BtBoolean
    else if typeId == TYPE_TINYINT then BtInt8
    else if typeId == TYPE_SMALLINT then BtInt16
    else if typeId == TYPE_INT then BtInt32
    else if typeId == TYPE_BIGINT then BtInt64
    else if typeId == TYPE_REAL then BtFloat
    else if typeId == TYPE_DOUBLE then BtDouble
    else if typeId == TYPE_DECIMAL then BtDecimal
    else if typeId == TYPE_DATE then BtDate
    else if typeId == TYPE_TIME then BtTime
    else if typeId == TYPE_DATETIME then BtDateTime
    else if typeId == TYPE_TIMESTAMP then BtTimestamp
    else if typeId == TYPE_UUID then BtUuid
    else if typeId == TYPE_VARCHAR then BtString
    else if typeId == TYPE_VARBINARY then BtBytes
    else BtNull
  }

  type Int64 = n: int | -0x8000_0000_0000_0000 <= n < 0x8000_0000_0000_0000
  type Uuid16 = u: seq<Byte> | |u| == 16 witness [0, 0, 0, 0, 0, 0, 0, 0, 0, 0, 0, 0, 0, 0, 0, 0]

  predicate Leap(year: int) {
    year % 4 == 0 && (year % 100 != 0 || year % 400 == 0)
  }

  function DaysIn(year: int, month: int): (d: int) {
    if month == 2 then (if Leap(year) then 29 else 28)
    else if month == 4 || month == 6 || month == 9 || month == 11 then 30
    else 31
  }

  /** A time.Time: its calendar and clock fields in its own zone, and its Unix second. */
  datatype RawMoment =
    Moment(year: int, month: int, day: int, hour: int, minute: int, second: int, nsec: int, unix: int)
  {
    predicate Valid() {
      && 1 <= month <= 12 && 1 <= day <= DaysIn(year, month)
      && 0 <= hour < 24 && 0 <= minute < 60 && 0 <= second < 60 && 0 <= nsec < 1_000_000_000
      && Fits(unix, 0x8000_0000_0000_0000)
    }
  }

  type Moment = t: RawMoment | t.Valid() witness Moment(1, 1, 1, 0, 0, 0, 0, 0)

  /** The Go integer types that a value may have. */
  datatype IntType = GoInt | GoInt8 | GoInt16 | GoInt32 | GoInt64 | GoUint8 | GoUint16 | GoUint32 | GoUint64

  datatype RawInteger = Integer(n: int, typ: IntType)
  {
    predicate Valid() {
      match typ
      case GoInt8 => Fits(n, 0x80)
      case GoInt16 => Fits(n, 0x8000)
      case GoInt32 => Fits(n, 0x8000_0000)
      case GoInt | GoInt64 => Fits(n, 0x8000_0000_0000_0000)
      case GoUint8 => 0 <= n < TWO8
      case GoUint16 => 0 <= n < TWO16
      case GoUint32 => 0 <= n < TWO32
      case GoUint64 => 0 <= n < TWO64
    }
  }

  type Integer = i: RawInteger | i.Valid() witness Integer(0, GoInt)

  type Uint32 = n: int | 0 <= n < TWO32
  type Uint64 = n: int | 0 <= n < TWO64

  /**
   * A Go value handed to an encoder. Floats are bit patterns; narrow is the float32 pattern of a double that has one.
   */
  datatype Value =
    | Nil
    | Bool(b: bool)
    | Int(i: Integer)
    | Float32(bits32: Uint32)
    | Float64(bits64: Uint64, narrow: Option<Uint32>)
    | Dec(unscaled: int, scale: int)
    | At(moment: Moment)
    | Uuid(uuid: Uuid16)
    | Str(text: seq<Byte>)
    | Bin(data: seq<Byte>)

  datatype Option<+T> = None | Some(value: T)

  /** What Tuple.GetValue hands back. */
  datatype Read =
    | RNil
    | RBool(b: bool)
    | RInt(n: int)
    | RFloat32(bits32: int)
    | RFloat64(bits64: int)
    | RDecimal(unscaled: int, scale: int)
    | RDate(year: int, month: int, day: int)
    | RClock(nanoseconds: int)                                     // time.Time{} plus a duration
    | RDateTime(year: int, month: int, day: int, nanosOfDay: int)
    | RTimestamp(unix: int, nsec: int)
    | RUuid(uuid: seq<Byte>)
    | RStr(text: seq<Byte>)
    | RBin(data: seq<Byte>)

  datatype BinaryTupleColumn = BinaryTupleColumn(kind: Kind, scale: int)
}
