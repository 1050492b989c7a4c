/** Which values an element takes, which rows can be built, and what the others are refused with. */
module Acceptance {
  import opened Bytes
  import opened Types
  import opened Integers
  import opened Elements
  import opened BinaryTuple
  import opened Readings
  import Temporal
  import TwosComplement
  import DecimalText

  // ---------------------------------------------------------------- elements

  /** n lies in a signed range, or does so after the uint64 range wrapped into int64. */
  predicate Within(n: int, half: int) {
    -half <= n < half || -half <= n - 0x1_0000_0000_0000_0000 < half
  }

  predicate YearInRange(t: Moment) {
    -16384 <= t.year <= 16383
  }

  /** The values a column takes, value by value. A column of kind BtNull takes anything and drops it. */
  predicate Accepts(kind: Kind, v: Value) {
    kind.BtNull? ||
    match v
    case Nil => true
    case Bool(_) => kind.BtBoolean? || kind.BtString?
    case Int(i) =>
      (match kind
       case BtInt8 => Within(i.n, 0x80)
       case BtInt16 => Within(i.n, 0x8000)
       case BtInt32 => Within(i.n, 0x8000_0000)
       case BtInt64 | BtString => true
       case BtBoolean | BtDecimal => i.typ.GoInt? || i.typ.GoInt32? || i.typ.GoInt64?
       case _ => false)
    case Float32(_) => kind.BtFloat?
    case Float64(_, _) => kind.BtDouble? || kind.BtBoolean?
    case Dec(_, _) => kind.BtDecimal? || kind.BtString?
    case At(t) => kind.BtTime? || kind.BtTimestamp? || ((kind.BtDate? || kind.BtDateTime?) && YearInRange(t))
    case Uuid(_) => kind.BtUuid?
    case Str(_) => kind.BtString? || kind.BtBytes? || kind.BtBoolean? || kind.BtDecimal?
    case Bin(_) => kind.BtBytes?
  }

  /** Values that the code converts with floating point, calendars or formatting that the model does not have. */
  predicate OutsideModel(kind: Kind, v: Value) {
    match v
    case Int(i) => (kind.BtFloat? || kind.BtDouble?) && i.typ in {GoInt, GoInt16, GoInt32, GoInt64}
    case Float32(_) => kind in {BtInt8, BtInt16, BtInt32, BtInt64, BtDouble, BtString}
    case Float64(_, _) => kind in {BtInt8, BtInt16, BtInt32, BtInt64, BtFloat, BtDecimal, BtString}
    case At(_) | Uuid(_) | Bin(_) => kind.BtString?
    case Str(_) => kind in {BtDate, BtTime, BtDateTime, BtTimestamp}
    case _ => false
  }

  /** The error for a value that is not taken. */
  function Refusal(kind: Kind, v: Value): (e: Error) {
    if kind.BtOther? then UnsupportedKind
    else if OutsideModel(kind, v) then ConversionOutsideModel
    else if v.Int? && kind in {BtInt8, BtInt16, BtInt32} then DoesNotFit(kind)
    else if v.At? && kind in {BtDate, BtDateTime} then OutOfRange(Year)
    else Unconvertible
  }

  /** The conversion to int64 fits a narrower width exactly when the number does, wrapped or not. */
  lemma WrappedWithin(i: Integer, half: int)
    requires 0 < half <= INT64
    ensures Fits(ToInt64(i), half) <==> Within(i.n, half)
  {
    if Fits(i.n, INT64) {
      WrapFits(i.n, INT64);
    } else {
      WrapUpperHalf(i.n);
    }
  }

  lemma AcceptsWithin(kind: Kind, i: Integer)
    requires IsIntKind(kind)
    ensures Accepts(kind, Int(i)) <==> Within(i.n, HalfRange(kind))
  {}

  lemma IntRefused(kind: Kind, n: Int64)
    requires IsIntKind(kind)
    ensures PutBinaryTupleInt(kind, n).Ok? <==> Fits(n, HalfRange(kind))
    ensures !PutBinaryTupleInt(kind, n).Ok? ==> PutBinaryTupleInt(kind, n) == Err(DoesNotFit(kind))
  {}

  lemma AcceptedInt(col: BinaryTupleColumn, i: Integer)
    requires IsIntKind(col.kind)
    ensures EncodeElement(col, Int(i)).Ok? <==> Accepts(col.kind, Int(i))
    ensures !Accepts(col.kind, Int(i)) ==> EncodeElement(col, Int(i)) == Err(DoesNotFit(col.kind))
  {
    IntRefused(col.kind, ToInt64(i));
    WrappedWithin(i, HalfRange(col.kind));
    AcceptsWithin(col.kind, i);
  }

  lemma AcceptedMoment(col: BinaryTupleColumn, t: Moment)
    requires col.kind in {BtDate, BtTime, BtDateTime, BtTimestamp}
    ensures EncodeElement(col, At(t)).Ok? <==> Accepts(col.kind, At(t))
    ensures !Accepts(col.kind, At(t)) ==> EncodeElement(col, At(t)) == Err(OutOfRange(Year))
  {
    assert 1 <= t.day <= 31;
    Temporal.EncodeTimeAccepts(t.hour, t.minute, t.second, t.nsec);
  }

  lemma AcceptedOther(col: BinaryTupleColumn, v: Value)
    requires !(v.Int? && IsIntKind(col.kind)) && !(v.At? && col.kind in {BtDate, BtTime, BtDateTime, BtTimestamp})
    ensures EncodeElement(col, v).Ok? <==> Accepts(col.kind, v)
    ensures !Accepts(col.kind, v) ==> EncodeElement(col, v) == Err(Refusal(col.kind, v))
  {
    match col.kind {
      case BtInt8 | BtInt16 | BtInt32 | BtInt64 =>
      case BtFloat | BtDouble =>
      case BtDate | BtTime | BtDateTime | BtTimestamp =>
      case _ =>
    }
  }

  /** For every column and every value: what is taken, and the error that anything else is refused with. */
  lemma AcceptedExactly(col: BinaryTupleColumn, v: Value)
    ensures EncodeElement(col, v).Ok? <==> Accepts(col.kind, v)
    ensures !Accepts(col.kind, v) ==> EncodeElement(col, v) == Err(Refusal(col.kind, v))
  {
    if v.Int? && IsIntKind(col.kind) {
      AcceptedInt(col, v.i);
    } else if v.At? && col.kind in {BtDate, BtTime, BtDateTime, BtTimestamp} {
      AcceptedMoment(col, v.moment);
    } else {
      AcceptedOther(col, v);
    }
  }

  /** An integer column holds the number, or what is left of a uint64 beyond the int64 range. */
  lemma IntegerWritten(typeId: int, precision: int, scale: int, i: Integer)
    requires 2 <= typeId <= 5 && Accepts(ColumnKindForTypeId(typeId), Int(i))
    ensures var e := EncodeElement(BinaryTupleColumn(ColumnKindForTypeId(typeId), scale), Int(i));
            && e.Ok?
            && ReadRaw(typeId, precision, e.value)
               == Ok(RInt(if i.n < 0x8000_0000_0000_0000 then i.n else i.n - 0x1_0000_0000_0000_0000))
  {
    var col := BinaryTupleColumn(ColumnKindForTypeId(typeId), scale);
    AcceptedExactly(col, Int(i));
    IntReadsBack(typeId, ToInt64(i));
    PrecisionOnlyForTimes(KeptValue(typeId, EncodeElement(col, Int(i)).value), precision, 0, typeId);
    if Fits(i.n, INT64) {
      WrapFits(i.n, INT64);
    } else {
      WrapUpperHalf(i.n);
    }
  }

  // ---------------------------------------------------------------- conversions

  function Ascii(s: string): (t: seq<Byte>)
    requires forall i :: 0 <= i < |s| ==> s[i] as int < 128
    ensures |t| == |s|
  {
    seq(|s|, i requires 0 <= i < |s| => s[i] as int)
  }

  /** What a BOOLEAN column makes of a value that it takes. */
  predicate Truth(v: Value) {
    match v
    case Bool(b) => b
    case Int(i) => i.n != 0
    case Float64(bits, _) => bits != 0 && bits != 0x8000_0000_0000_0000
    case Str(t) => t == Ascii("true") || t == Ascii("TRUE") || t == Ascii("1")
    case _ => false
  }

  lemma TrueWords(t: seq<Byte>)
    ensures TrueText(t) <==> t == Ascii("true") || t == Ascii("TRUE") || t == Ascii("1")
  {
    assert Ascii("true") == [116, 114, 117, 101] && Ascii("TRUE") == [84, 82, 85, 69] && Ascii("1") == [49];
  }

  /** A BOOLEAN is a byte 1 or 0. */
  lemma BooleanWritten(scale: int, v: Value)
    requires Accepts(BtBoolean, v) && !v.Nil?
    ensures EncodeElement(BinaryTupleColumn(BtBoolean, scale), v) == Ok(if Truth(v) then [1] else [0])
  {
    match v {
      case Str(t) => TrueWords(t);
      case Float64(bits, _) => if bits >= INT64 { QuotientIs(bits, INT64, 1, bits - INT64); }
      case _ =>
    }
  }

  /** The text t is how a VARCHAR column spells a value that it takes. */
  predicate Spells(t: seq<Byte>, v: Value) {
    match v
    case Bool(b) => t == Ascii(if b then "true" else "false")
    case Int(i) => DecimalText.SignedPlain(t, i.n)
    case Dec(u, s) =>
      if s > 0 then DecimalText.PointText(t, u, s)
      else |t| + s > 0 && DecimalText.SignedPlain(t[..|t| + s], u) && t[|t| + s..] == seq(-s, _ => '0' as int)
    case Str(text) => t == text
    case _ => false
  }

  lemma FormattedSpells(v: Value)
    requires Accepts(BtString, v) && !v.Nil?
    ensures Formatted(v).Some? && Spells(Formatted(v).value, v)
  {
    match v {
      case Bool(b) => assert Ascii("true") == [116, 114, 117, 101] && Ascii("false") == [102, 97, 108, 115, 101];
      case Int(i) => DecimalText.SignedDigits(i.n);
      case Dec(u, s) =>
        DecimalText.PrintedNotation(u, s);
        if s <= 0 { assert DecimalText.Zeros(-s) == seq(-s, _ => '0' as int); }
      case _ =>
    }
  }

  /** A VARCHAR is the spelling of its value, or one byte 0x80 for the empty text. */
  lemma TextWritten(scale: int, v: Value) returns (t: seq<Byte>)
    requires Accepts(BtString, v) && !v.Nil?
    ensures Spells(t, v)
    ensures EncodeElement(BinaryTupleColumn(BtString, scale), v) == Ok(if t == [] then [0x80] else t)
    ensures Expected(BinaryTupleColumn(BtString, scale), v) == RStr(t)
  {
    FormattedSpells(v);
    t := Formatted(v).value;
  }

  /** A DECIMAL column keeps a decimal as it is, and gives its own scale to an integer or to the text of a number. */
  lemma DecimalWritten(scale: int, v: Value) returns (u: int, s: int)
    requires Accepts(BtDecimal, v) && !v.Nil?
    ensures match v
            case Dec(n, own) => u == n && s == own
            case Int(i) => u == i.n && s == scale
            case _ => s == scale
    ensures forall sign, whole, frac, dotted :: v.Str? && DecimalText.Spelled(v.text, sign, whole, frac, dotted) ==>
              DecimalText.TruncatedTo(u, DecimalText.NumberOf(whole + frac),
                                      if scale < 0 then 1 else DecimalText.Pow10(scale),
                                      DecimalText.Pow10(|frac|), sign == [DecimalText.CH_MINUS])
    ensures v.Str? && (forall sign, whole, frac, dotted :: !DecimalText.Spelled(v.text, sign, whole, frac, dotted)) ==>
              u == 0
    ensures EncodeElement(BinaryTupleColumn(BtDecimal, scale), v) == Ok(PutLE(s, 2) + TwosComplement.Minimal(u))
    ensures Expected(BinaryTupleColumn(BtDecimal, scale), v) == RDecimal(u, s)
  {
    var d := ToDecimal(v, scale).value;
    u, s := d.0, d.1;
    if v.Str? {
      forall sign, whole, frac, dotted | DecimalText.Spelled(v.text, sign, whole, frac, dotted)
        ensures DecimalText.TruncatedTo(u, DecimalText.NumberOf(whole + frac),
                                        if scale < 0 then 1 else DecimalText.Pow10(scale),
                                        DecimalText.Pow10(|frac|), sign == [DecimalText.CH_MINUS])
      {
        DecimalText.ScaledText(v.text, sign, whole, frac, dotted, scale);
      }
      if forall sign, whole, frac, dotted :: !DecimalText.Spelled(v.text, sign, whole, frac, dotted) {
        DecimalText.OtherText(v.text, scale);
      }
    }
  }

  // ---------------------------------------------------------------- rows

  predicate RowAccepted(cols: seq<BinaryTupleColumn>, vals: seq<Value>)
    requires |cols| == |vals|
  {
    forall i :: 0 <= i < |cols| ==> Accepts(cols[i].kind, vals[i])
  }

  /** Value i is the first that its column does not take. */
  predicate FirstRefused(cols: seq<BinaryTupleColumn>, vals: seq<Value>, i: nat)
    requires |cols| == |vals|
  {
    && i < |cols| && !Accepts(cols[i].kind, vals[i])
    && forall k :: 0 <= k < i ==> Accepts(cols[k].kind, vals[k])
  }

  lemma {:induction false} RowEncodes(cols: seq<BinaryTupleColumn>, vals: seq<Value>)
    requires |cols| == |vals| && RowAccepted(cols, vals)
    ensures EncodeRow(cols, vals).Ok?
  {
    if cols != [] {
      var last := |cols| - 1;
      RowEncodes(cols[..last], vals[..last]);
      AcceptedExactly(cols[last], vals[last]);
    }
  }

  lemma RowRefused(cols: seq<BinaryTupleColumn>, vals: seq<Value>, i: nat)
    requires |cols| == |vals| && FirstRefused(cols, vals, i)
    ensures EncodeRow(cols, vals) == Err(Refusal(cols[i].kind, vals[i]))
  {
    RowEncodes(cols[..i], vals[..i]);
    EncodeRowStep(cols, vals, i);
    AcceptedExactly(cols[i], vals[i]);
    EncodeRowPrefix(cols, vals, i + 1);
  }

  /** The bytes of the value area, element by element. */
  function AreaSize(cols: seq<BinaryTupleColumn>, vals: seq<Value>): (n: nat)
    requires |cols| == |vals| && RowAccepted(cols, vals)
  {
    RowEncodes(cols, vals);
    |Concat(EncodeRow(cols, vals).value)|
  }

  lemma {:induction false} RefusedOne(cols: seq<BinaryTupleColumn>, vals: seq<Value>) returns (i: nat)
    requires |cols| == |vals| && !RowAccepted(cols, vals)
    ensures FirstRefused(cols, vals, i)
  {
    i := 0;
    while Accepts(cols[i].kind, vals[i])
      invariant i < |cols| && forall k :: 0 <= k < i ==> Accepts(cols[k].kind, vals[k])
      decreases |cols| - i
    {
      i := i + 1;
    }
  }

  /** Which rows can be built: as many values as columns, each of them taken, and at most 2 GiB of elements. */
  lemma RowBuildsExactly(cols: seq<BinaryTupleColumn>, vals: seq<Value>)
    ensures BuildBinaryTupleSpec(cols, vals).Ok? <==>
            |cols| == |vals| && RowAccepted(cols, vals) && AreaSize(cols, vals) <= 0x7fff_ffff
    ensures |cols| != |vals| ==> BuildBinaryTupleSpec(cols, vals) == Err(ColumnCount)
    ensures |cols| == |vals| && RowAccepted(cols, vals) && AreaSize(cols, vals) > 0x7fff_ffff ==>
              BuildBinaryTupleSpec(cols, vals) == Err(ValueAreaTooBig)
    ensures forall i: nat :: |cols| == |vals| && FirstRefused(cols, vals, i) ==>
              BuildBinaryTupleSpec(cols, vals) == Err(Refusal(cols[i].kind, vals[i]))
  {
    if |cols| == |vals| {
      forall i: nat | FirstRefused(cols, vals, i)
        ensures BuildBinaryTupleSpec(cols, vals) == Err(Refusal(cols[i].kind, vals[i]))
      {
        RowRefused(cols, vals, i);
      }
      if RowAccepted(cols, vals) {
        RowEncodes(cols, vals);
      } else {
        var i := RefusedOne(cols, vals);
        RowRefused(cols, vals, i);
      }
    }
  }
}
