/** The Tuple object: decoded rows are read through it, and SQL arguments are collected in it. */
module Tuples {
  import opened Bytes
  import opened Types
  import opened Elements
  import opened BinaryTuple
  import opened TupleReader
  import opened SqlArguments
  import opened Integers
  import opened Temporal
  import Uuids

  lemma EncodedTriple(values: seq<TypeScaleValue>, i: nat, w: nat, a: seq<Byte>, b: seq<Byte>, c: seq<Byte>)
    requires i < |values|
    requires var before := Total(values[..i]);
             a == PutLE(before + 1, w) && b == PutLE(before + 2, w) && c == PutLE(before + Length(values[i]), w)
    ensures Total(values[..i + 1]) == Total(values[..i]) + Length(values[i])
    ensures Concat(Encoded(ArgumentOffsets(values[..i + 1]), w))
            == Concat(Encoded(ArgumentOffsets(values[..i]), w)) + a + b + c
  {
    assert values[..i + 1][..i] == values[..i];
    var triple := OffsetTriple(Total(values[..i]), values[i]);
    assert Encoded(triple, w) == [a, b, c];
    EncodedParts(ArgumentOffsets(values[..i]), triple, w);
    ConcatThree(Encoded(ArgumentOffsets(values[..i]), w), a, b, c);
  }

  /** Three entries an argument, each relative to where the previous argument ended. */
  method WriteOffsetTable(values: seq<TypeScaleValue>, w: nat) returns (table: seq<Byte>)
    ensures table == Concat(Encoded(ArgumentOffsets(values), w))
  {
    table := [];
    var prevItemLastOffset := 0;
    for i := 0 to |values|
      invariant prevItemLastOffset == Total(values[..i])
      invariant table == Concat(Encoded(ArgumentOffsets(values[..i]), w))
    {
      var length := Length(values[i]);
      var a, b := PutLE(prevItemLastOffset + 1, w), PutLE(prevItemLastOffset + 2, w);
      var c := PutLE(prevItemLastOffset + length, w);
      EncodedTriple(values, i, w, a, b, c);
      table := table + a;
      table := table + b;
      table := table + c;
      prevItemLastOffset := prevItemLastOffset + length;
    }
    assert values[..|values|] == values;
  }

  /** Copies the bytes of one element: integers in reverse, the escape of texts dropped. */
  method CopyElement(buf: seq<Byte>, valueBase: int, start: int, end: int, typ: int) returns (r: Outcome<seq<Byte>>)
    ensures match Slice(buf, valueBase, start, end)
            case Ok(raw) => r == Ok(KeptValue(typ, raw))
            case Err(e) => false
            case Panic => r.Panic?
  {
    if end < start {
      return Panic;
    }
    var raw := Slice(buf, valueBase, start, end);
    if raw.Panic? {
      return Panic;
    }
    var value := new Byte[end - start](_ => 0);
    if IsBigEndianType(typ) {
      for i := 0 to end - start
        invariant forall k :: 0 <= k < i ==> value[k] == raw.value[|raw.value| - 1 - k]
      {
        value[i] := buf[valueBase + end - (i + 1)];
      }
      forall k: nat | k < |raw.value| ensures value[..][k] == Reverse(raw.value)[k] {
        ReverseAt(raw.value, k);
      }
      assert value[..] == Reverse(raw.value);
      return Ok(value[..]);
    }
    for i := 0 to end - start
      invariant forall k :: 0 <= k < i ==> value[k] == raw.value[k]
    {
      value[i] := buf[valueBase + start + i];
    }
    assert value[..] == raw.value;
    r := Ok(if IsEscapedType(typ) then StripEscape(value[..]) else value[..]);
  }

  /** Element i of the buffer: between its two offsets, or up to the end for the last one. */
  method ReadElement(meta: ColumnMetadata, bufr: seq<Byte>, w: nat, n: nat, i: nat) returns (r: Outcome<TypeScaleValue>)
    ensures match RawElement(bufr, w, n, i)
            case Ok(raw) => r == Ok(Kept(meta, raw))
            case Err(_) => r.Panic?
            case Panic => r.Panic?
  {
    var valueBase := HEADER_SIZE + w * n;
    var offStart := EntryOffset(bufr, w, i - 1);
    var offEnd := if i == n - 1 then Ok(|bufr| - valueBase) else EntryOffset(bufr, w, i);
    if !offStart.Ok? || !offEnd.Ok? {
      return Panic;
    }
    var typ := Wrap(meta.typeId, 0x80);
    var value := CopyElement(bufr, valueBase, offStart.value, offEnd.value, typ);
    if value.Panic? {
      return Panic;
    }
    r := Ok(TypeScaleValue(typ, Wrap(meta.scale, 0x8000), meta.precision, value.value));
  }

  /** Reads a kept value with the decoders that loop over its bytes. */
  method ReadKept(value: seq<Byte>, precision: int, valType: int) returns (r: Outcome<Read>)
    ensures r == ReadValue(value, precision, valType)
  {
    if value == [] || valType == TYPE_NULL {
      return Ok(RNil);
    }
    if valType == TYPE_TINYINT || IsBigEndianType(valType) {
      var n := DecodeBigEndianTwosComplement(value);
      r := if n.Ok? then Ok(RInt(Wrap(n.value, HalfRange(ColumnKindForTypeId(valType))))) else Err(IntegerLength);
    } else if valType == TYPE_DATE {
      r := DecodeDate(value);
    } else if valType == TYPE_TIME {
      var t := DecodeTime(value, precision);
      r := if t.Ok? then Ok(RClock(t.value)) else if t.Err? then Err(t.error) else Panic;
    } else if valType == TYPE_DATETIME {
      if |value| <= 6 {
        return Ok(RDateTime(1, 1, 1, 0));
      }
      var date := DecodeDate(value);
      var t := DecodeTime(value, precision);
      r := if t.Ok? then Ok(RDateTime(date.value.year, date.value.month, date.value.day, t.value % DAY))
           else if t.Err? then Err(t.error) else Panic;
    } else if valType == TYPE_UUID {
      if |value| < 16 {
        return Panic;
      }
      var u := new Uuids.Uuid(value[..16]);
      u.Flip();
      r := Ok(RUuid(u.UUID[..]));
    } else {
      r := ReadValue(value, precision, valType);
    }
  }

  lemma {:induction false} DecodeStops(meta: seq<ColumnMetadata>, buf: seq<Byte>, w: nat, k: nat, n: nat)
    requires k <= n <= |meta|
    requires DecodeElements(meta, buf, w, k).Panic?
    ensures DecodeElements(meta, buf, w, n).Panic?
    decreases n
  {
    if k < n {
      DecodeStops(meta, buf, w, k, n - 1);
    }
  }

  lemma ArgumentNeverPanics(a: Argument)
    requires a.Valid()
    ensures !ArgumentTriple(a).Panic?
  {}

  class Tuple {
    var values: seq<TypeScaleValue>
    var entrySize: nat

    constructor ()
      ensures values == []
    {
      values := [];
      entrySize := 0;
    }

    /** Decodes one row of a result set. */
    static method NewTupleFromByteArrayWithMetadata(meta: seq<ColumnMetadata>, bufr: seq<Byte>)
      returns (r: Outcome<Tuple>)
      ensures match DecodeTuple(meta, bufr)
              case Ok(values) => r.Ok? && fresh(r.value) && r.value.values == values
              case Err(e) => r == Err(e)
              case Panic => r.Panic?
    {
      if |bufr| < HEADER_SIZE {
        return Err(TupleTooSmall);
      }
      var size := EntrySizeOf(bufr[0]);
      if size.None? {
        return Err(InvalidHeader);
      }
      var tup := new Tuple();
      tup.entrySize := size.value;
      var n := |meta|;
      for i := 0 to n
        invariant fresh(tup) && tup.entrySize == size.value
        invariant DecodeElements(meta, bufr, size.value, i) == Ok(tup.values)
      {
        RawElementNeverErrs(bufr, size.value, n, i);
        var t := ReadElement(meta[i], bufr, tup.entrySize, n, i);
        if t.Panic? {
          DecodeStops(meta, bufr, size.value, i + 1, n);
          return Panic;
        }
        tup.values := tup.values + [t.value];
      }
      r := Ok(tup);
    }

    /** Collects one argument; an argument that is refused leaves the tuple as it was. */
    method AddValue(v: Argument) returns (err: Option<Error>)
      requires v.Valid()
      modifies this
      ensures entrySize == old(entrySize)
      ensures match ArgumentTriple(v)
              case Ok(t) => err.None? && values == old(values) + [t]
              case Err(e) => err == Some(e) && values == old(values)
              case Panic => false
    {
      var t := ArgumentTriple(v);
      ArgumentNeverPanics(v);
      if t.Err? {
        return Some(t.error);
      }
      values := values + [t.value];
      err := None;
    }

    /** Writes header, offset table and value area of the collected arguments. */
    method Bytes() returns (bs: seq<Byte>)
      modifies this`entrySize
      ensures bs == ArgumentBytes(values)
      ensures entrySize == EntrySizeFor(Total(values))
    {
      var total := 0;
      for i := 0 to |values|
        invariant total == Total(values[..i])
      {
        assert values[..i + 1][..i] == values[..i];
        total := total + Length(values[i]);
      }
      assert values[..|values|] == values;
      entrySize := EntrySizeFor(total);
      var table := WriteOffsetTable(values, entrySize);
      var area := ValueArea();
      bs := [ToHeader(entrySize)] + table + area;
    }

    method ValueArea() returns (area: seq<Byte>)
      ensures area == Concat(AllPieces(values))
    {
      area := [];
      for i := 0 to |values|
        invariant area == Concat(AllPieces(values[..i]))
      {
        assert values[..i + 1][..i] == values[..i];
        var v := values[i];
        ConcatThree(AllPieces(values[..i]), [v.typ % 256], PutLE(v.scale, ScaleLength(v.scale)), v.value);
        area := area + [v.typ % 256];
        area := area + PutLE(v.scale, ScaleLength(v.scale));
        area := area + v.value;
      }
      assert values[..|values|] == values;
    }

    method GetValue(index: int, valType: int) returns (r: Outcome<Read>)
      ensures r == GetValueSpec(values, index, valType)
    {
      if index < 0 || index > |values| {
        return Err(InvalidIndex);
      }
      if valType == TYPE_NULL {
        return Ok(RNil);
      }
      if index == |values| {
        return Panic;
      }
      r := ReadKept(values[index].value, values[index].precision, valType);
    }
  }
}
