/** Reading a binary tuple back: the specification of the decoder, and the round trip of whole rows. */
module TupleReader {
  import opened Bytes
  import opened Types
  import opened Elements
  import opened BinaryTuple
  import Temporal

  const HEADER_SIZE := 1

  datatype ColumnMetadata = ColumnMetadata(typeId: int, scale: int, precision: int)

  /** One kept element. Type and scale are narrowed to int8 and int16. */
  datatype TypeScaleValue = TypeScaleValue(typ: int, scale: int, precision: int, value: seq<Byte>)

  function EntrySizeOf(header: Byte): (w: Option<nat>) {
    if header == 3 then Some(8)
    else if header == 0 then Some(1)
    else if header == 1 || header == 2 then Some(2 * header)
    else None
  }

  /** entryOffset: an entry of eight bytes may turn negative; reading past the buffer panics. */
  function EntryOffset(buf: seq<Byte>, w: nat, i: int): (r: Outcome<int>) {
    if i < 0 then Ok(0)
    else
      MulLe(w, 0, i);
      var pos := HEADER_SIZE + w * i;
      if pos + w > |buf| then Panic else Ok(Wrap(LE(buf[pos..pos + w]), 0x8000_0000_0000_0000))
  }

  /** The bytes between two offsets of the value area; a negative length or a read outside the buffer panics. */
  function Slice(buf: seq<Byte>, valueBase: int, start: int, end: int): (r: Outcome<seq<Byte>>) {
    if end < start then Panic
    else if end == start then Ok([])
    else if valueBase + start < 0 || valueBase + end > |buf| then Panic
    else Ok(buf[valueBase + start..valueBase + end])
  }

  function ValueBase(n: nat, w: nat): int {
    HEADER_SIZE + w * n
  }

  /** Element i: the last one ends where the buffer ends, whatever its table entry says. */
  function RawElement(buf: seq<Byte>, w: nat, n: nat, i: nat): (r: Outcome<seq<Byte>>) {
    match EntryOffset(buf, w, i - 1)
    case Panic => Panic
    case Err(e) => Err(e)
    case Ok(start) =>
      match if i == n - 1 then Ok(|buf| - ValueBase(n, w)) else EntryOffset(buf, w, i)
      case Panic => Panic
      case Err(e) => Err(e)
      case Ok(end) => Slice(buf, ValueBase(n, w), start, end)
  }

  function Kept(meta: ColumnMetadata, raw: seq<Byte>): (t: TypeScaleValue) {
    var typ := Wrap(meta.typeId, 0x80);
    TypeScaleValue(typ, Wrap(meta.scale, 0x8000), meta.precision, KeptValue(typ, raw))
  }

  function DecodeElements(meta: seq<ColumnMetadata>, buf: seq<Byte>, w: nat, k: nat): (r: Outcome<seq<TypeScaleValue>>)
    requires k <= |meta|
    ensures r.Ok? ==> |r.value| == k
    decreases k
  {
    if k == 0 then Ok([])
    else
      match DecodeElements(meta, buf, w, k - 1)
      case Panic => Panic
      case Err(e) => Err(e)
      case Ok(values) =>
        match RawElement(buf, w, |meta|, k - 1)
        case Panic => Panic
        case Err(e) => Err(e)
        case Ok(raw) => Ok(values + [Kept(meta[k - 1], raw)])
  }

  function DecodeTuple(meta: seq<ColumnMetadata>, buf: seq<Byte>): (r: Outcome<seq<TypeScaleValue>>) {
    if |buf| < HEADER_SIZE then Err(TupleTooSmall)
    else
      match EntrySizeOf(buf[0])
      case None => Err(InvalidHeader)
      case Some(w) => DecodeElements(meta, buf, w, |meta|)
  }

  /** GetValue lets an index equal to the length through its check; unless NULL is asked for, that access panics. */
  function GetValueSpec(values: seq<TypeScaleValue>, index: int, valType: int): (r: Outcome<Read>) {
    if index < 0 || index > |values| then Err(InvalidIndex)
    else if valType == TYPE_NULL then Ok(RNil)
    else if index == |values| then Panic
    else ReadValue(values[index].value, values[index].precision, valType)
  }

  /** The bytes that reading a value of a type takes for granted. */
  function BytesNeeded(valType: int, precision: int): (n: nat) {
    if valType == TYPE_REAL then 4
    else if valType == TYPE_DECIMAL then 2
    else if valType == TYPE_DATE then 3
    else if valType == TYPE_TIME then
      match Temporal.LayoutOf(precision)
      case Some(l) => l.tail
      case None => 0
    else if valType == TYPE_TIMESTAMP then 12
    else if valType == TYPE_UUID then 16
    else 0
  }

  lemma ReadValuePanics(value: seq<Byte>, precision: int, valType: int)
    ensures ReadValue(value, precision, valType).Panic? <==>
            valType != TYPE_NULL && 0 < |value| < BytesNeeded(valType, precision)
  {}

  /**
   * For whatever bytes decode as a tuple of n columns: the index error comes up exactly outside 0..n, and reading
   * panics exactly at index n, which the check lets through, or when an element that is not empty is too short.
   */
  lemma GetValuePanics(meta: seq<ColumnMetadata>, buf: seq<Byte>, index: int, valType: int)
    requires DecodeTuple(meta, buf).Ok?
    ensures var values := DecodeTuple(meta, buf).value;
            var r := GetValueSpec(values, index, valType);
            && |values| == |meta|
            && (r == Err(InvalidIndex) <==> index < 0 || index > |meta|)
            && (r.Panic? <==>
                && valType != TYPE_NULL
                && (index == |meta|
                    || (0 <= index < |meta|
                        && 0 < |values[index].value| < BytesNeeded(valType, values[index].precision))))
  {
    var values := DecodeTuple(meta, buf).value;
    if 0 <= index < |meta| {
      ReadValuePanics(values[index].value, values[index].precision, valType);
    }
  }

  // ---------------------------------------------------------------- which bytes decode

  lemma RawElementNeverErrs(buf: seq<Byte>, w: nat, n: nat, i: nat)
    ensures !RawElement(buf, w, n, i).Err?
  {}

  /** A table that is there in full holds every entry. */
  lemma TableHolds(buf: seq<Byte>, w: nat, n: nat, i: nat)
    requires |buf| >= ValueBase(n, w) && i < n
    ensures EntryOffset(buf, w, i).Ok?
  {
    MulLe(w, i + 1, n);
    assert w * (i + 1) == w * i + w;
  }

  /** Where element i begins and element i - 1 ends in the value area; the table's last entry does not count. */
  function Boundary(buf: seq<Byte>, w: nat, n: nat, i: nat): int
    requires |buf| >= ValueBase(n, w) && i <= n
  {
    if i == 0 then 0
    else if i == n then |buf| - ValueBase(n, w)
    else
      TableHolds(buf, w, n, i - 1);
      EntryOffset(buf, w, i - 1).value
  }

  /** The table is there in full, and its offsets never decrease, from 0 up to the size of the value area. */
  predicate InOrder(buf: seq<Byte>, w: nat, n: nat) {
    |buf| >= ValueBase(n, w) && forall i: nat :: i < n ==> Boundary(buf, w, n, i) <= Boundary(buf, w, n, i + 1)
  }

  lemma ElementBetween(buf: seq<Byte>, w: nat, n: nat, i: nat)
    requires |buf| >= ValueBase(n, w) && i < n
    ensures RawElement(buf, w, n, i) == Slice(buf, ValueBase(n, w), Boundary(buf, w, n, i), Boundary(buf, w, n, i + 1))
  {
    if i > 0 {
      TableHolds(buf, w, n, i - 1);
    }
    TableHolds(buf, w, n, i);
  }

  lemma {:induction false} BoundaryFromBelow(buf: seq<Byte>, w: nat, n: nat, i: nat)
    requires InOrder(buf, w, n) && i <= n
    ensures 0 <= Boundary(buf, w, n, i)
    decreases i
  {
    if i > 0 {
      BoundaryFromBelow(buf, w, n, i - 1);
      assert Boundary(buf, w, n, i - 1) <= Boundary(buf, w, n, i - 1 + 1);
    }
  }

  lemma {:induction false} BoundaryFromAbove(buf: seq<Byte>, w: nat, n: nat, i: nat)
    requires InOrder(buf, w, n) && i <= n
    ensures Boundary(buf, w, n, i) <= |buf| - ValueBase(n, w)
    decreases n - i
  {
    if i < n {
      BoundaryFromAbove(buf, w, n, i + 1);
      assert Boundary(buf, w, n, i) <= Boundary(buf, w, n, i + 1);
    }
  }

  lemma InOrderElement(buf: seq<Byte>, w: nat, n: nat, i: nat)
    requires InOrder(buf, w, n) && i < n
    ensures RawElement(buf, w, n, i).Ok?
  {
    ElementBetween(buf, w, n, i);
    BoundaryFromBelow(buf, w, n, i);
    BoundaryFromAbove(buf, w, n, i + 1);
  }

  predicate AllElements(buf: seq<Byte>, w: nat, n: nat, k: nat) {
    forall i: nat :: i < k ==> RawElement(buf, w, n, i).Ok?
  }

  /** Elements that can be cut out leave no offset below zero. */
  lemma {:induction false} OffsetsClimb(buf: seq<Byte>, w: nat, n: nat, i: nat)
    requires AllElements(buf, w, n, n) && i < n
    ensures EntryOffset(buf, w, i - 1).Ok? && EntryOffset(buf, w, i - 1).value >= 0
    decreases i
  {
    assert RawElement(buf, w, n, i).Ok?;
    if i > 0 {
      OffsetsClimb(buf, w, n, i - 1);
      assert RawElement(buf, w, n, i - 1).Ok?;
    }
  }

  lemma CutOutInOrder(buf: seq<Byte>, w: nat, n: nat)
    requires |buf| > 0 && AllElements(buf, w, n, n)
    ensures InOrder(buf, w, n)
  {
    if n > 0 {
      OffsetsClimb(buf, w, n, n - 1);
      assert RawElement(buf, w, n, n - 1).Ok?;
      forall i: nat | i < n ensures Boundary(buf, w, n, i) <= Boundary(buf, w, n, i + 1) {
        assert RawElement(buf, w, n, i).Ok?;
        ElementBetween(buf, w, n, i);
      }
    }
  }

  lemma {:induction false} DecodeElementsOk(meta: seq<ColumnMetadata>, buf: seq<Byte>, w: nat, k: nat)
    requires k <= |meta|
    ensures DecodeElements(meta, buf, w, k).Ok? <==> AllElements(buf, w, |meta|, k)
    ensures !DecodeElements(meta, buf, w, k).Err?
    decreases k
  {
    if k > 0 {
      DecodeElementsOk(meta, buf, w, k - 1);
      RawElementNeverErrs(buf, w, |meta|, k - 1);
      assert AllElements(buf, w, |meta|, k) <==>
             AllElements(buf, w, |meta|, k - 1) && RawElement(buf, w, |meta|, k - 1).Ok?;
    }
  }

  lemma HeaderIsLog(header: Byte)
    ensures EntrySizeOf(header) == if header <= 3 then Some(Pow2(header)) else None
  {}

  /**
   * Which bytes decode: those with a header up to 3, the log of the entry size, a table that is there in full, and
   * offsets in order. No header or a higher one is an error, everything else panics.
   */
  lemma DecodeExact(meta: seq<ColumnMetadata>, buf: seq<Byte>)
    ensures DecodeTuple(meta, buf).Err? <==> |buf| == 0 || buf[0] > 3
    ensures |buf| == 0 ==> DecodeTuple(meta, buf) == Err(TupleTooSmall)
    ensures |buf| > 0 && buf[0] > 3 ==> DecodeTuple(meta, buf) == Err(InvalidHeader)
    ensures DecodeTuple(meta, buf).Ok? <==> |buf| > 0 && buf[0] <= 3 && InOrder(buf, Pow2(buf[0]), |meta|)
  {
    if |buf| > 0 && buf[0] <= 3 {
      var w := Pow2(buf[0]);
      HeaderIsLog(buf[0]);
      DecodeElementsOk(meta, buf, w, |meta|);
      if InOrder(buf, w, |meta|) {
        forall i: nat | i < |meta| ensures RawElement(buf, w, |meta|, i).Ok? {
          InOrderElement(buf, w, |meta|, i);
        }
      } else if AllElements(buf, w, |meta|, |meta|) {
        CutOutInOrder(buf, w, |meta|);
      }
    }
  }

  // ---------------------------------------------------------------- container round trip

  lemma FrameParts(h: Byte, elems: seq<seq<Byte>>, w: nat)
    ensures |Frame(h, elems, w)| == ValueBase(|elems|, w) + |Concat(elems)|
    ensures |Concat(Entries(elems, w))| == w * |elems|
  {
    ConcatUniform(Entries(elems, w), w);
  }

  /** Cutting p + q at positions inside p, or past p, only sees that part. */
  lemma CutLeft(p: seq<Byte>, q: seq<Byte>, lo: int, hi: int)
    requires 0 <= lo <= hi <= |p|
    ensures (p + q)[lo..hi] == p[lo..hi]
  {}

  lemma CutRight(p: seq<Byte>, q: seq<Byte>, lo: int, hi: int)
    requires 0 <= lo <= hi <= |q|
    ensures (p + q)[|p| + lo..|p| + hi] == q[lo..hi]
  {}

  lemma UniformAt(entries: seq<seq<Byte>>, w: nat, i: nat)
    requires i < |entries| && forall k :: 0 <= k < |entries| ==> |entries[k]| == w
    ensures 0 <= w * i <= w * i + w <= |Concat(entries)| == w * |entries|
    ensures Concat(entries)[w * i..w * i + w] == entries[i]
  {
    ConcatUniform(entries, w);
    ConcatUniform(entries[..i], w);
    ConcatSlice(entries, i);
    MulLe(w, 0, i);
    var lo, hi := |Concat(entries[..i])|, |Concat(entries[..i + 1])|;
    assert lo == w * i && hi == lo + w;
  }

  lemma EntryPosition(elems: seq<seq<Byte>>, w: nat, i: nat)
    requires i < |elems|
    ensures 0 <= w * i <= w * i + w <= |Concat(Entries(elems, w))|
    ensures Concat(Entries(elems, w))[w * i..w * i + w] == PutLE(EndOffset(elems, i), w)
  {
    UniformAt(Entries(elems, w), w, i);
  }

  lemma EntryInFrame(h: Byte, elems: seq<seq<Byte>>, w: nat, i: nat)
    requires i < |elems|
    ensures 0 <= HEADER_SIZE + w * i <= HEADER_SIZE + w * i + w <= |Frame(h, elems, w)|
    ensures Frame(h, elems, w)[HEADER_SIZE + w * i..HEADER_SIZE + w * i + w] == PutLE(EndOffset(elems, i), w)
  {
    var table, lo := Concat(Entries(elems, w)), w * i;
    EntryPosition(elems, w, i);
    FrameParts(h, elems, w);
    CutRight([h], table, lo, lo + w);
    CutLeft([h] + table, Concat(elems), 1 + lo, 1 + lo + w);
  }

  lemma EntryReadsBack(h: Byte, elems: seq<seq<Byte>>, w: nat, i: nat)
    requires i < |elems|
    requires |Concat(elems)| < Pow256(w) && |Concat(elems)| < 0x8000_0000_0000_0000
    ensures EntryOffset(Frame(h, elems, w), w, i) == Ok(EndOffset(elems, i))
  {
    EntryInFrame(h, elems, w, i);
    ConcatPrefix(elems, i + 1);
    ReadPutLE(EndOffset(elems, i), w);
    WrapFits(EndOffset(elems, i), 0x8000_0000_0000_0000);
  }

  lemma StartReadsBack(h: Byte, elems: seq<seq<Byte>>, w: nat, i: nat)
    requires i < |elems|
    requires |Concat(elems)| < Pow256(w) && |Concat(elems)| < 0x8000_0000_0000_0000
    ensures EntryOffset(Frame(h, elems, w), w, i - 1) == Ok(|Concat(elems[..i])|)
  {
    if i > 0 {
      EntryReadsBack(h, elems, w, i - 1);
    } else {
      assert elems[..0] == [];
    }
  }

  lemma SliceReadsBack(h: Byte, elems: seq<seq<Byte>>, w: nat, i: nat)
    requires i < |elems|
    ensures Slice(Frame(h, elems, w), ValueBase(|elems|, w), |Concat(elems[..i])|, |Concat(elems[..i + 1])|)
            == Ok(elems[i])
  {
    FrameParts(h, elems, w);
    ConcatSlice(elems, i);
    CutRight([h] + Concat(Entries(elems, w)), Concat(elems), |Concat(elems[..i])|, |Concat(elems[..i + 1])|);
  }

  /** Container round trip: every element of a framed row is cut out again, at every entry size that holds the row. */
  lemma RawElementReadsBack(h: Byte, elems: seq<seq<Byte>>, w: nat, i: nat)
    requires i < |elems|
    requires |Concat(elems)| < Pow256(w) && |Concat(elems)| < 0x8000_0000_0000_0000
    ensures RawElement(Frame(h, elems, w), w, |elems|, i) == Ok(elems[i])
  {
    StartReadsBack(h, elems, w, i);
    SliceReadsBack(h, elems, w, i);
    if i == |elems| - 1 {
      FrameParts(h, elems, w);
      assert elems[..i + 1] == elems;
    } else {
      EntryReadsBack(h, elems, w, i);
    }
  }

  /** What decoding the first k elements should give. */
  predicate KeptUpTo(meta: seq<ColumnMetadata>, elems: seq<seq<Byte>>, r: Outcome<seq<TypeScaleValue>>, k: nat)
    requires k <= |meta| == |elems|
  {
    r.Ok? && |r.value| == k && forall i :: 0 <= i < k ==> r.value[i] == Kept(meta[i], elems[i])
  }

  lemma DecodeStep(meta: seq<ColumnMetadata>, buf: seq<Byte>, w: nat, k: nat, raw: seq<Byte>)
    requires k < |meta| && DecodeElements(meta, buf, w, k).Ok? && RawElement(buf, w, |meta|, k) == Ok(raw)
    ensures DecodeElements(meta, buf, w, k + 1) == Ok(DecodeElements(meta, buf, w, k).value + [Kept(meta[k], raw)])
  {}

  lemma {:induction false} DecodeAll(meta: seq<ColumnMetadata>, buf: seq<Byte>, w: nat, elems: seq<seq<Byte>>, k: nat)
    requires k <= |meta| == |elems|
    requires forall i: nat :: i < |elems| ==> RawElement(buf, w, |meta|, i) == Ok(elems[i])
    ensures KeptUpTo(meta, elems, DecodeElements(meta, buf, w, k), k)
    decreases k
  {
    if k > 0 {
      DecodeAll(meta, buf, w, elems, k - 1);
      DecodeStep(meta, buf, w, k - 1, elems[k - 1]);
    }
  }

  lemma DecodeElementsReadBack(meta: seq<ColumnMetadata>, h: Byte, elems: seq<seq<Byte>>, w: nat, k: nat)
    requires k <= |meta| == |elems|
    requires |Concat(elems)| < Pow256(w) && |Concat(elems)| < 0x8000_0000_0000_0000
    ensures KeptUpTo(meta, elems, DecodeElements(meta, Frame(h, elems, w), w, k), k)
  {
    var buf := Frame(h, elems, w);
    forall i: nat | i < |elems| ensures RawElement(buf, w, |meta|, i) == Ok(elems[i]) {
      RawElementReadsBack(h, elems, w, i);
    }
    DecodeAll(meta, buf, w, elems, k);
  }

  /** Decoding what BuildBinaryTuple framed yields the encoded elements, one by one. */
  lemma RowReadsBack(cols: seq<BinaryTupleColumn>, vals: seq<Value>, meta: seq<ColumnMetadata>)
    requires |meta| == |cols| && BuildBinaryTupleSpec(cols, vals).Ok?
    ensures EncodeRow(cols, vals).Ok?
    ensures var d := DecodeTuple(meta, BuildBinaryTupleSpec(cols, vals).value);
            && d.Ok? && |d.value| == |cols|
            && forall i :: 0 <= i < |cols| ==> d.value[i] == Kept(meta[i], EncodeRow(cols, vals).value[i])
  {
    var elems := EncodeRow(cols, vals).value;
    EntrySizeIsSmallest(|Concat(elems)|);
    var w := EntrySize(|Concat(elems)|).value;
    var h := Header(w);
    assert Frame(h, elems, w)[0] == h;
    DecodeElementsReadBack(meta, h, elems, w, |meta|);
  }

  // ---------------------------------------------------------------- whole rows

  predicate Describes(meta: ColumnMetadata, col: BinaryTupleColumn) {
    col.kind == ColumnKindForTypeId(meta.typeId)
  }

  /** Narrowing the type id to int8 changes nothing for the column types; a column without a type holds no bytes. */
  lemma KeptElement(meta: ColumnMetadata, col: BinaryTupleColumn, v: Value)
    requires Describes(meta, col) && EncodeElement(col, v).Ok?
    ensures Kept(meta, EncodeElement(col, v).value).value == KeptValue(meta.typeId, EncodeElement(col, v).value)
    ensures Kept(meta, EncodeElement(col, v).value).precision == meta.precision
  {
    if 1 <= meta.typeId <= TYPE_VARBINARY {
      WrapFits(meta.typeId, 0x80);
    } else {
      assert EncodeElement(col, v).value == [];
    }
  }

  /**
   * Whole-row round trip: for every column list and every row that can be built, the tuple decodes, and GetValue gives
   * value i back if and only if it lies in its kind's domain.
   */
  lemma WholeRowRoundTrip(cols: seq<BinaryTupleColumn>, vals: seq<Value>, meta: seq<ColumnMetadata>, i: nat)
    requires BuildBinaryTupleSpec(cols, vals).Ok?
    requires |meta| == |cols| && i < |cols|
    requires forall k :: 0 <= k < |cols| ==> Describes(meta[k], cols[k])
    ensures var d := DecodeTuple(meta, BuildBinaryTupleSpec(cols, vals).value);
            && d.Ok?
            && (GetValueSpec(d.value, i, meta[i].typeId) == Ok(Expected(cols[i], vals[i])) <==>
                Survives(cols[i], meta[i].precision, vals[i]))
            && (vals[i].Nil? ==> GetValueSpec(d.value, i, meta[i].typeId) == Ok(RNil))
  {
    RowReadsBack(cols, vals, meta);
    EncodeRowAt(cols, vals, i);
    KeptElement(meta[i], cols[i], vals[i]);
    ElementReadBack(meta[i].typeId, meta[i].precision, cols[i], vals[i]);
  }

  /** Reading a written element of a column never panics, except for a timestamp without nanoseconds. */
  lemma WrittenElementPanics(typeId: int, precision: int, col: BinaryTupleColumn, v: Value)
    requires col.kind == ColumnKindForTypeId(typeId) && EncodeElement(col, v).Ok?
    ensures ReadValue(KeptValue(typeId, EncodeElement(col, v).value), precision, typeId).Panic? <==>
            col.kind.BtTimestamp? && v.At? && v.moment.nsec == 0
  {
    ReadValuePanics(KeptValue(typeId, EncodeElement(col, v).value), precision, typeId);
  }

  /** A row that was built is read without a panic at each of its columns, timestamps without nanoseconds aside. */
  lemma BuiltRowPanics(cols: seq<BinaryTupleColumn>, vals: seq<Value>, meta: seq<ColumnMetadata>, i: nat)
    requires BuildBinaryTupleSpec(cols, vals).Ok?
    requires |meta| == |cols| && i < |cols|
    requires forall k :: 0 <= k < |cols| ==> Describes(meta[k], cols[k])
    ensures var d := DecodeTuple(meta, BuildBinaryTupleSpec(cols, vals).value);
            && d.Ok?
            && (GetValueSpec(d.value, i, meta[i].typeId).Panic? <==>
                cols[i].kind.BtTimestamp? && vals[i].At? && vals[i].moment.nsec == 0)
  {
    RowReadsBack(cols, vals, meta);
    EncodeRowAt(cols, vals, i);
    KeptElement(meta[i], cols[i], vals[i]);
    WrittenElementPanics(meta[i].typeId, meta[i].precision, cols[i], vals[i]);
  }
}
