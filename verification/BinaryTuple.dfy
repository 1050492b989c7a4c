/** Rows: the header, the table of end offsets and the value area. */
module BinaryTuple {
  import opened Bytes
  import opened Types
  import opened Elements

  /** The elements of a row in column order, or the error of the first value that cannot be written. */
  function EncodeRow(cols: seq<BinaryTupleColumn>, vals: seq<Value>): (r: Outcome<seq<seq<Byte>>>)
    requires |cols| == |vals|
    ensures r.Ok? ==> |r.value| == |cols|
    ensures !r.Panic?
  {
    if cols == [] then Ok([])
    else
      var last := |cols| - 1;
      match EncodeRow(cols[..last], vals[..last])
      case Err(e) => Err(e)
      case Ok(elems) =>
        NeverPanics(cols[last], vals[last]);
        match EncodeElement(cols[last], vals[last])
        case Err(e) => Err(e)
        case Ok(bs) => Ok(elems + [bs])
  }

  /** Bytes per entry of the offset table, for a value area of the given size. */
  function EntrySize(total: nat): (w: Option<nat>) {
    if total <= 0xff then Some(1)
    else if total <= 0xffff then Some(2)
    else if total <= MAX_INT32 then Some(4)
    else None
  }

  /** log2 of the entry size. */
  function Header(w: nat): (h: Byte) {
    if w == 1 then 0 else if w == 2 then 1 else 2
  }

  function EndOffset(elems: seq<seq<Byte>>, i: nat): (off: nat)
    requires i < |elems|
  {
    |Concat(elems[..i + 1])|
  }

  /** The encoded end offsets. */
  function Entries(elems: seq<seq<Byte>>, w: nat): (entries: seq<seq<Byte>>)
    ensures |entries| == |elems|
  {
    seq(|elems|, i requires 0 <= i < |elems| => PutLE(EndOffset(elems, i), w))
  }

  function Frame(header: Byte, elems: seq<seq<Byte>>, w: nat): (bs: seq<Byte>) {
    [header] + Concat(Entries(elems, w)) + Concat(elems)
  }

  function BuildBinaryTupleSpec(cols: seq<BinaryTupleColumn>, vals: seq<Value>): (r: Outcome<seq<Byte>>) {
    if |cols| != |vals| then Err(ColumnCount)
    else
      match EncodeRow(cols, vals)
      case Err(e) => Err(e)
      case Ok(elems) =>
        match EntrySize(|Concat(elems)|)
        case None => Err(ValueAreaTooBig)
        case Some(w) => Ok(Frame(Header(w), elems, w))
  }

  /** The entry size is the smallest of 1, 2 and 4 bytes that holds the size of the value area. */
  lemma EntrySizeIsSmallest(total: nat)
    ensures EntrySize(total).Some? <==> total <= MAX_INT32
    ensures EntrySize(total).Some? ==>
              var w := EntrySize(total).value;
              && (w == 1 || w == 2 || w == 4)
              && total < Pow256(w)
              && (w > 1 ==> total >= Pow256(w / 2))
  {
    Pow256Small();
  }

  lemma {:induction false} EncodeRowPrefix(cols: seq<BinaryTupleColumn>, vals: seq<Value>, k: nat)
    requires k <= |cols| == |vals|
    requires EncodeRow(cols[..k], vals[..k]).Err?
    ensures EncodeRow(cols, vals) == EncodeRow(cols[..k], vals[..k])
    decreases |cols|
  {
    if k == |cols| {
      assert cols[..k] == cols && vals[..k] == vals;
    } else {
      var last := |cols| - 1;
      assert cols[..last][..k] == cols[..k] && vals[..last][..k] == vals[..k];
      EncodeRowPrefix(cols[..last], vals[..last], k);
    }
  }

  lemma EncodeRowStep(cols: seq<BinaryTupleColumn>, vals: seq<Value>, i: nat)
    requires i < |cols| == |vals|
    ensures EncodeRow(cols[..i + 1], vals[..i + 1]) ==
            match EncodeRow(cols[..i], vals[..i])
            case Err(e) => Err(e)
            case Ok(elems) =>
              match EncodeElement(cols[i], vals[i])
              case Err(e) => Err(e)
              case Ok(bs) => Ok(elems + [bs])
              case Panic => Panic
  {
    assert cols[..i + 1][..i] == cols[..i] && vals[..i + 1][..i] == vals[..i];
    NeverPanics(cols[i], vals[i]);
  }

  lemma {:induction false} EncodeRowAt(cols: seq<BinaryTupleColumn>, vals: seq<Value>, i: nat)
    requires i < |cols| == |vals|
    requires EncodeRow(cols, vals).Ok?
    ensures EncodeElement(cols[i], vals[i]) == Ok(EncodeRow(cols, vals).value[i])
    decreases |cols|
  {
    var last := |cols| - 1;
    if i < last {
      EncodeRowAt(cols[..last], vals[..last], i);
    }
  }

  lemma {:induction false} PutLEPrefix(n: int, w: nat, k: nat)
    requires k <= w
    ensures PutLE(n, w)[..k] == PutLE(n, k)
    decreases k
  {
    if k > 0 {
      PutLEPrefix(n / 256, w - 1, k - 1);
    }
  }

  lemma ExtendOffsets(elems: seq<seq<Byte>>, bs: seq<Byte>)
    ensures forall k :: 0 <= k < |elems| ==> EndOffset(elems + [bs], k) == EndOffset(elems, k)
    ensures EndOffset(elems + [bs], |elems|) == |Concat(elems + [bs])|
  {
    forall k | 0 <= k < |elems| ensures EndOffset(elems + [bs], k) == EndOffset(elems, k) {
      assert (elems + [bs])[..k + 1] == elems[..k + 1];
    }
    assert (elems + [bs])[..|elems| + 1] == elems + [bs];
  }

  /** No offset of an acceptable value area is changed by its conversion to int32. */
  lemma OffsetsFit(elems: seq<seq<Byte>>)
    requires |Concat(elems)| <= MAX_INT32
    ensures forall k :: 0 <= k < |elems| ==> Wrap(EndOffset(elems, k), 0x8000_0000) == EndOffset(elems, k)
  {
    forall k | 0 <= k < |elems| ensures Wrap(EndOffset(elems, k), 0x8000_0000) == EndOffset(elems, k) {
      ConcatPrefix(elems, k + 1);
      WrapFits(EndOffset(elems, k), 0x8000_0000);
    }
  }

  /** Writes each offset as a uint32 and keeps its low entrySize bytes. */
  method WriteTable(offsets: seq<int>, ghost elems: seq<seq<Byte>>, entrySize: nat) returns (table: seq<Byte>)
    requires entrySize <= 4 && |offsets| == |elems|
    requires forall k :: 0 <= k < |offsets| ==> offsets[k] == EndOffset(elems, k)
    ensures table == Concat(Entries(elems, entrySize))
  {
    table := [];
    ghost var entries := Entries(elems, entrySize);
    for i := 0 to |offsets|
      invariant table == Concat(entries[..i])
    {
      var raw := PutLE(offsets[i], 4);
      PutLEPrefix(offsets[i], 4, entrySize);
      assert entries[..i + 1] == entries[..i] + [entries[i]];
      ConcatAppend(entries[..i], entries[i]);
      table := table + raw[..entrySize];
    }
    assert entries[..|offsets|] == entries;
  }

  /** One pass fills the value area and the offsets (as int32), a second one writes the table. */
  method BuildBinaryTuple(cols: seq<BinaryTupleColumn>, vals: seq<Value>) returns (r: Outcome<seq<Byte>>)
    ensures r == BuildBinaryTupleSpec(cols, vals)
  {
    if |cols| != |vals| {
      return Err(ColumnCount);
    }
    var valueArea := new Buffer();
    var offsets := new int[|cols|](_ => 0);
    ghost var elems: seq<seq<Byte>> := [];
    for i := 0 to |cols|
      invariant EncodeRow(cols[..i], vals[..i]) == Ok(elems) && |elems| == i
      invariant valueArea.data == Concat(elems)
      invariant forall k :: 0 <= k < i ==> offsets[k] == Wrap(EndOffset(elems, k), 0x8000_0000)
    {
      EncodeRowStep(cols, vals, i);
      var err := AppendBinaryTupleValue(valueArea, cols[i], vals[i]);
      if err.Some? {
        EncodeRowPrefix(cols, vals, i + 1);
        return Err(err.value);
      }
      offsets[i] := Wrap(|valueArea.data|, 0x8000_0000);
      var bs := EncodeElement(cols[i], vals[i]).value;
      ConcatAppend(elems, bs);
      ExtendOffsets(elems, bs);
      elems := elems + [bs];
    }
    assert cols[..|cols|] == cols && vals[..|vals|] == vals;

    var size := EntrySize(|valueArea.data|);
    if size.None? {
      return Err(ValueAreaTooBig);
    }
    var entrySize := size.value;
    OffsetsFit(elems);
    var out := WriteTable(offsets[..], elems, entrySize);
    r := Ok([Header(entrySize)] + out + valueArea.data);
  }
}
