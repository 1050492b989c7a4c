/** What a reader of the container finds for the arguments that Tuple.Bytes wrote, also when it misframes some. */
module ArgumentReader {
  import opened Bytes
  import opened Types
  import opened Integers
  import opened BinaryTuple
  import opened TupleReader
  import opened SqlArguments

  function Area(values: seq<TypeScaleValue>): (area: seq<Byte>) {
    Concat(AllPieces(values))
  }

  function Width(values: seq<TypeScaleValue>): (w: nat) {
    EntrySizeFor(Total(values))
  }

  /** Elements i, i + 1 and i + 2 of a container are read as these pieces. */
  predicate ReadAs(bs: seq<Byte>, w: nat, n: nat, i: nat, ps: seq<seq<Byte>>)
    requires |ps| == 3
  {
    RawElement(bs, w, n, i) == Ok(ps[0]) && RawElement(bs, w, n, i + 1) == Ok(ps[1])
    && RawElement(bs, w, n, i + 2) == Ok(ps[2])
  }

  /** The reader of rows finds the type, the scale and the value of argument k in the bytes that were written. */
  predicate TripleRead(values: seq<TypeScaleValue>, k: nat)
    requires k < |values|
  {
    ReadAs(ArgumentBytes(values), Width(values), 3 * |values|, 3 * k, Pieces(values[k]))
  }

  // ---------------------------------------------------------------- cutting a value area

  /** What lies between two offsets of the value area. */
  function Between(area: seq<Byte>, a: int, b: int): (r: Outcome<seq<Byte>>) {
    if b < a then Panic
    else if b == a then Ok([])
    else if a < 0 || b > |area| then Panic
    else Ok(area[a..b])
  }

  function StartAt(offsets: seq<nat>, i: nat): (a: nat)
    requires i <= |offsets|
  {
    if i == 0 then 0 else offsets[i - 1]
  }

  function EndAt(offsets: seq<nat>, area: seq<Byte>, i: nat): (b: nat)
    requires i < |offsets|
  {
    if i == |offsets| - 1 then |area| else offsets[i]
  }

  /** Element i of a value area with these offsets; the last element ends where the area does. */
  function CutOut(offsets: seq<nat>, area: seq<Byte>, i: nat): (r: Outcome<seq<Byte>>)
    requires i < |offsets|
  {
    Between(area, StartAt(offsets, i), EndAt(offsets, area, i))
  }

  lemma BetweenIs(area: seq<Byte>, a: int, b: int, piece: seq<Byte>)
    requires 0 <= a <= b <= |area| && area[a..b] == piece
    ensures Between(area, a, b) == Ok(piece)
  {}

  /** A container with any offsets in its table. */
  function Container(h: Byte, offsets: seq<int>, area: seq<Byte>, w: nat): (bs: seq<Byte>) {
    [h] + Concat(Encoded(offsets, w)) + area
  }

  lemma ContainerParts(h: Byte, offsets: seq<int>, area: seq<Byte>, w: nat)
    ensures var bs, base := Container(h, offsets, area, w), ValueBase(|offsets|, w);
            |bs| == base + |area| && bs[base..] == area
  {
    ConcatUniform(Encoded(offsets, w), w);
    SideBySide([h] + Concat(Encoded(offsets, w)), area);
  }

  lemma TableEntry(h: Byte, offsets: seq<int>, area: seq<Byte>, w: nat, i: nat)
    requires i < |offsets|
    ensures var bs := Container(h, offsets, area, w);
            && 0 <= 1 + w * i <= 1 + w * i + w <= |bs|
            && bs[1 + w * i..1 + w * i + w] == PutLE(offsets[i], w)
  {
    var table := Concat(Encoded(offsets, w));
    UniformAt(Encoded(offsets, w), w, i);
    CutRight([h], table, w * i, w * i + w);
    CutLeft([h] + table, area, 1 + w * i, 1 + w * i + w);
  }

  lemma OffsetRead(buf: seq<Byte>, w: nat, i: nat, off: int)
    requires 0 <= 1 + w * i <= 1 + w * i + w <= |buf|
    requires buf[1 + w * i..1 + w * i + w] == PutLE(off, w) && off % Pow256(w) < INT64
    ensures EntryOffset(buf, w, i) == Ok(off % Pow256(w))
  {
    ReadPutLEModulo(off, w);
    WrapFits(off % Pow256(w), INT64);
  }

  /** The offsets that are left when each entry holds only what is below p. */
  function Reduced(offsets: seq<int>, p: nat): (r: seq<nat>)
    requires p > 0
    ensures |r| == |offsets|
  {
    if offsets == [] then [] else Reduced(offsets[..|offsets| - 1], p) + [offsets[|offsets| - 1] % p]
  }

  lemma {:induction false} ReducedAt(offsets: seq<int>, p: nat, i: nat)
    requires p > 0 && i < |offsets|
    ensures Reduced(offsets, p)[i] == offsets[i] % p
    decreases |offsets|
  {
    if i < |offsets| - 1 {
      ReducedAt(offsets[..|offsets| - 1], p, i);
    }
  }

  lemma SliceIsBetween(buf: seq<Byte>, base: nat, area: seq<Byte>, a: nat, b: int)
    requires |buf| == base + |area| && buf[base..] == area
    ensures Slice(buf, base, a, b) == Between(area, a, b)
  {
    if a < b <= |area| {
      assert buf == buf[..base] + area;
      CutRight(buf[..base], area, a, b);
    }
  }

  lemma ReducedEntry(h: Byte, offsets: seq<int>, area: seq<Byte>, w: nat, i: nat)
    requires i < |offsets| && Reduced(offsets, Pow256(w))[i] < INT64
    ensures EntryOffset(Container(h, offsets, area, w), w, i) == Ok(Reduced(offsets, Pow256(w))[i])
  {
    TableEntry(h, offsets, area, w, i);
    ReducedAt(offsets, Pow256(w), i);
    OffsetRead(Container(h, offsets, area, w), w, i, offsets[i]);
  }

  /** An element of a container lies between the offsets that are read for it. */
  lemma ElementBetweenEntries(buf: seq<Byte>, w: nat, n: nat, i: nat, a: nat, b: int)
    requires i < n && EntryOffset(buf, w, i - 1) == Ok(a)
    requires if i == n - 1 then b == |buf| - ValueBase(n, w) else EntryOffset(buf, w, i) == Ok(b)
    ensures RawElement(buf, w, n, i) == Slice(buf, ValueBase(n, w), a, b)
  {}

  lemma ReducedBefore(h: Byte, offsets: seq<int>, area: seq<Byte>, w: nat, i: nat)
    requires i < |offsets| && (i > 0 ==> Reduced(offsets, Pow256(w))[i - 1] < INT64)
    ensures EntryOffset(Container(h, offsets, area, w), w, i - 1) == Ok(StartAt(Reduced(offsets, Pow256(w)), i))
  {
    if i > 0 {
      ReducedEntry(h, offsets, area, w, i - 1);
    }
  }

  /** Reading any container cuts its value area at the offsets, each reduced to the entry size. */
  lemma ContainerRead(h: Byte, offsets: seq<int>, area: seq<Byte>, w: nat, i: nat)
    requires i < |offsets| && Reduced(offsets, Pow256(w))[i] < INT64
    requires i > 0 ==> Reduced(offsets, Pow256(w))[i - 1] < INT64
    ensures RawElement(Container(h, offsets, area, w), w, |offsets|, i) == CutOut(Reduced(offsets, Pow256(w)), area, i)
  {
    var buf, read := Container(h, offsets, area, w), Reduced(offsets, Pow256(w));
    ContainerParts(h, offsets, area, w);
    ReducedBefore(h, offsets, area, w, i);
    ReducedEntry(h, offsets, area, w, i);
    ElementBetweenEntries(buf, w, |offsets|, i, StartAt(read, i), EndAt(read, area, i));
    SliceIsBetween(buf, ValueBase(|offsets|, w), area, StartAt(read, i), EndAt(read, area, i));
  }

  /** The cuts at i, i + 1 and i + 2 are these pieces. */
  predicate CutAs(offsets: seq<nat>, area: seq<Byte>, i: nat, ps: seq<seq<Byte>>)
    requires |ps| == 3 && i + 2 < |offsets|
  {
    CutOut(offsets, area, i) == Ok(ps[0]) && CutOut(offsets, area, i + 1) == Ok(ps[1])
    && CutOut(offsets, area, i + 2) == Ok(ps[2])
  }

  lemma ReadAsCut(h: Byte, offsets: seq<int>, area: seq<Byte>, w: nat, i: nat, ps: seq<seq<Byte>>)
    requires |ps| == 3 && i + 2 < |offsets|
    requires var read := Reduced(offsets, Pow256(w));
             StartAt(read, i) < INT64 && read[i] < INT64 && read[i + 1] < INT64 && read[i + 2] < INT64
    ensures ReadAs(Container(h, offsets, area, w), w, |offsets|, i, ps)
            <==> CutAs(Reduced(offsets, Pow256(w)), area, i, ps)
  {
    ContainerRead(h, offsets, area, w, i);
    ContainerRead(h, offsets, area, w, i + 1);
    ContainerRead(h, offsets, area, w, i + 2);
  }

  /** Three cuts in a row, from n over n + 1 and second to end. */
  predicate InARow(offsets: seq<nat>, area: seq<Byte>, i: nat, n: nat, second: nat, end: nat)
    requires i + 2 < |offsets|
  {
    CutOut(offsets, area, i) == Between(area, n, n + 1)
    && CutOut(offsets, area, i + 1) == Between(area, n + 1, second)
    && CutOut(offsets, area, i + 2) == Between(area, second, end)
  }

  /** Where the k-th of m values ends: the last one ends where the area does. */
  function Until(area: seq<Byte>, m: nat, k: nat, end: nat): (b: nat) {
    if k == m - 1 then |area| else end
  }

  predicate StartsAt(offsets: seq<int>, i: nat, n: nat)
    requires i <= |offsets|
  {
    if i == 0 then n == 0 else offsets[i - 1] == n
  }

  /** Offsets that make such cuts. */
  predicate OffsetRow(offsets: seq<int>, i: nat, n: nat, second: nat, end: nat)
    requires i + 2 < |offsets|
  {
    StartsAt(offsets, i, n) && offsets[i] == n + 1 && offsets[i + 1] == second && offsets[i + 2] == end
  }

  /** For the k-th three of m; the very last offset does not count. */
  lemma CutsInARow(offsets: seq<nat>, area: seq<Byte>, m: nat, k: nat, i: nat, n: nat, second: nat, end: nat)
    requires k < m && |offsets| == 3 * m && i == 3 * k && OffsetRow(offsets, i, n, second, end)
    ensures InARow(offsets, area, i, n, second, Until(area, m, k, end))
  {
    assert i + 2 == |offsets| - 1 <==> k == m - 1;
  }

  // ---------------------------------------------------------------- offsets and pieces by position

  lemma {:induction false} TotalPrefix(values: seq<TypeScaleValue>, k: nat)
    requires k <= |values|
    ensures Total(values[..k]) <= Total(values)
    decreases |values|
  {
    if k == |values| {
      assert values[..k] == values;
    } else {
      var init := values[..|values| - 1];
      TotalPrefix(init, k);
      assert init[..k] == values[..k];
    }
  }

  lemma TotalNext(values: seq<TypeScaleValue>, k: nat)
    requires k < |values|
    ensures Total(values[..k + 1]) == Total(values[..k]) + Length(values[k])
    ensures Total(values[..k]) + Length(values[k]) <= Total(values)
  {
    assert values[..k + 1][..k] == values[..k];
    TotalPrefix(values, k + 1);
  }

  lemma OffsetsEnd(values: seq<TypeScaleValue>)
    ensures StartsAt(ArgumentOffsets(values), 3 * |values|, Total(values))
  {}

  /** The three entries of argument k, which begins at n. */
  lemma {:induction false} OffsetsOf(values: seq<TypeScaleValue>, k: nat, n: nat, i: nat)
    requires k < |values| && n == Total(values[..k]) && i == 3 * k
    ensures OffsetRow(ArgumentOffsets(values), i, n, n + 2, n + Length(values[k]))
    decreases |values|
  {
    var init := values[..|values| - 1];
    if k < |init| {
      assert init[..k] == values[..k];
      OffsetsOf(init, k, n, i);
    } else {
      OffsetsEnd(init);
    }
  }

  lemma {:induction false} PiecesPrefix(values: seq<TypeScaleValue>, k: nat)
    requires k <= |values|
    ensures AllPieces(values)[..3 * k] == AllPieces(values[..k])
    decreases |values|
  {
    if k == |values| {
      assert values[..k] == values;
    } else {
      var init := values[..|values| - 1];
      PiecesPrefix(init, k);
      assert init[..k] == values[..k];
      assert AllPieces(values)[..3 * k] == AllPieces(init)[..3 * k];
    }
  }

  lemma AreaNext(values: seq<TypeScaleValue>, k: nat)
    requires k < |values|
    ensures var ps := Pieces(values[k]);
            Area(values[..k + 1]) == Area(values[..k]) + ps[0] + ps[1] + ps[2]
    ensures Area(values[..k + 1]) <= Area(values)
  {
    var ps := Pieces(values[k]);
    assert values[..k + 1][..k] == values[..k];
    ConcatThree(AllPieces(values[..k]), ps[0], ps[1], ps[2]);
    PiecesPrefix(values, k + 1);
    ConcatPrefix(AllPieces(values), 3 * (k + 1));
  }

  lemma CutThree(p: seq<Byte>, a: seq<Byte>, b: seq<Byte>, c: seq<Byte>, whole: seq<Byte>)
    requires p + a + b + c <= whole
    ensures var x := |p|; var y := x + |a|; var z := y + |b|;
            whole[x..y] == a && whole[y..z] == b && whole[z..z + |c|] == c
  {
    var q := p + a + b + c;
    assert whole[..|q|] == q;
    assert q[|p|..|p| + |a|] == a && q[|p| + |a|..|p| + |a| + |b|] == b;
  }

  // ---------------------------------------------------------------- reading

  /** Every entry has room for one more than the total. */
  lemma EntryRoom(total: nat)
    requires total < INT64 - 2
    ensures total + 1 < Pow256(EntrySizeFor(total)) && total + 2 <= Pow256(EntrySizeFor(total))
    ensures EntrySizeFor(total) == 8 || Pow256(EntrySizeFor(total)) < INT64
  {
    Pow256Small();
  }

  /** The offsets as a reader sees them. */
  function Seen(values: seq<TypeScaleValue>): (offsets: seq<nat>)
    ensures |offsets| == 3 * |values|
  {
    Reduced(ArgumentOffsets(values), Pow256(Width(values)))
  }

  function Second(values: seq<TypeScaleValue>, n: nat): (off: nat) {
    if n + 2 < Pow256(Width(values)) then n + 2 else 0
  }

  lemma WithinRoom(values: seq<TypeScaleValue>, k: nat, n: nat)
    requires k < |values| && Total(values) < INT64 - 2 && n == Total(values[..k])
    ensures n + 1 < Pow256(Width(values)) && n + 2 <= Pow256(Width(values))
    ensures n + Length(values[k]) < Pow256(Width(values)) && n + Length(values[k]) <= Total(values)
  {
    EntryRoom(Total(values));
    TotalNext(values, k);
  }

  lemma ReducedKeeps(offsets: seq<int>, p: nat, i: nat)
    requires i < |offsets| && 0 <= offsets[i] < p
    ensures Reduced(offsets, p)[i] == offsets[i]
  {
    ReducedAt(offsets, p, i);
    ModSmall(offsets[i], p);
  }

  lemma ReducedStart(offsets: seq<int>, p: nat, i: nat, n: nat)
    requires i <= |offsets| && StartsAt(offsets, i, n) && n < p
    ensures StartsAt(Reduced(offsets, p), i, n)
  {
    if i > 0 {
      ReducedKeeps(offsets, p, i - 1);
    }
  }

  lemma ReducedSecond(offsets: seq<int>, p: nat, i: nat)
    requires i < |offsets| && 0 < offsets[i] <= p
    ensures Reduced(offsets, p)[i] == if offsets[i] < p then offsets[i] else 0
  {
    if offsets[i] < p {
      ReducedKeeps(offsets, p, i);
    } else {
      ReducedAt(offsets, p, i);
    }
  }

  /** Of the three offsets, the second may just overflow. */
  lemma ReducedRow(offsets: seq<int>, p: nat, i: nat, n: nat, end: nat)
    requires i + 2 < |offsets| && OffsetRow(offsets, i, n, n + 2, end)
    requires n + 1 < p && n + 2 <= p && end < p
    ensures OffsetRow(Reduced(offsets, p), i, n, if n + 2 < p then n + 2 else 0, end)
  {
    ReducedStart(offsets, p, i, n);
    ReducedKeeps(offsets, p, i);
    ReducedSecond(offsets, p, i + 1);
    ReducedKeeps(offsets, p, i + 2);
  }

  lemma RowSeen(values: seq<TypeScaleValue>, k: nat, n: nat, i: nat)
    requires k < |values| && Total(values) < INT64 - 2 && n == Total(values[..k]) && i == 3 * k
    ensures OffsetRow(Seen(values), i, n, Second(values, n), n + Length(values[k]))
  {
    OffsetsOf(values, k, n, i);
    WithinRoom(values, k, n);
    ReducedRow(ArgumentOffsets(values), Pow256(Width(values)), i, n, n + Length(values[k]));
  }

  lemma RowCuts(values: seq<TypeScaleValue>, k: nat, n: nat, i: nat, area: seq<Byte>)
    requires k < |values| && i == 3 * k
    requires OffsetRow(Seen(values), i, n, Second(values, n), n + Length(values[k]))
    ensures InARow(Seen(values), area, i, n, Second(values, n), Until(area, |values|, k, n + Length(values[k])))
  {
    CutsInARow(Seen(values), area, |values|, k, i, n, Second(values, n), n + Length(values[k]));
  }

  /** The three elements of argument k, as cuts of a value area. */
  lemma TripleCuts(values: seq<TypeScaleValue>, k: nat, n: nat, i: nat, area: seq<Byte>)
    requires k < |values| && Total(values) < INT64 - 2 && n == Total(values[..k]) && i == 3 * k
    ensures InARow(Seen(values), area, i, n, Second(values, n), Until(area, |values|, k, n + Length(values[k])))
  {
    RowSeen(values, k, n, i);
    RowCuts(values, k, n, i, area);
  }

  /** The cuts are the pieces of argument k. */
  predicate TripleCut(values: seq<TypeScaleValue>, k: nat)
    requires k < |values|
  {
    CutAs(Seen(values), Area(values), 3 * k, Pieces(values[k]))
  }

  lemma OffsetsFit(values: seq<TypeScaleValue>, k: nat, i: nat)
    requires k < |values| && Total(values) < INT64 - 2 && i == 3 * k
    ensures var seen := Seen(values);
            StartAt(seen, i) < INT64 && seen[i] < INT64 && seen[i + 1] < INT64 && seen[i + 2] < INT64
  {
    var n := Total(values[..k]);
    RowSeen(values, k, n, i);
    WithinRoom(values, k, n);
  }

  lemma ReadIsCutAt(values: seq<TypeScaleValue>, k: nat, i: nat, ps: seq<seq<Byte>>)
    requires k < |values| && Total(values) < INT64 - 2 && i == 3 * k && |ps| == 3
    ensures ReadAs(ArgumentBytes(values), Width(values), 3 * |values|, i, ps)
            <==> CutAs(Seen(values), Area(values), i, ps)
  {
    OffsetsFit(values, k, i);
    ReadAsCut(ToHeader(Width(values)), ArgumentOffsets(values), Area(values), Width(values), i, ps);
  }

  lemma ReadIsCut(values: seq<TypeScaleValue>, k: nat)
    requires k < |values| && Total(values) < INT64 - 2
    ensures TripleRead(values, k) <==> TripleCut(values, k)
  {
    ReadIsCutAt(values, k, 3 * k, Pieces(values[k]));
  }

  /** Behind framed arguments, the pieces of argument k lie where its offsets say. */
  lemma PiecesInPlace(values: seq<TypeScaleValue>, k: nat, n: nat)
    requires k < |values| && AllFrameable(values[..k]) && n == Total(values[..k])
    ensures var ps, area := Pieces(values[k]), Area(values);
            var x := n + 1; var y := x + |ps[1]|;
            && y + |ps[2]| <= |area|
            && area[n..x] == ps[0] && area[x..y] == ps[1] && area[y..y + |ps[2]|] == ps[2]
            && (k == |values| - 1 ==> |area| == y + |ps[2]|)
  {
    var ps := Pieces(values[k]);
    FrameableTotal(values[..k]);
    AreaNext(values, k);
    CutThree(Area(values[..k]), ps[0], ps[1], ps[2], Area(values));
    if k == |values| - 1 {
      assert values[..k + 1] == values;
    }
  }

  /** Cuts at the right places give the pieces. */
  lemma PiecesCut(offsets: seq<nat>, area: seq<Byte>, i: nat, n: nat, ps: seq<seq<Byte>>)
    requires |ps| == 3 && |ps[1]| == 1 && i + 2 < |offsets| && n + 2 + |ps[2]| <= |area|
    requires area[n..n + 1] == ps[0] && area[n + 1..n + 2] == ps[1] && area[n + 2..n + 2 + |ps[2]|] == ps[2]
    requires InARow(offsets, area, i, n, n + 2, n + 2 + |ps[2]|)
    ensures CutAs(offsets, area, i, ps)
  {
    BetweenIs(area, n, n + 1, ps[0]);
    BetweenIs(area, n + 1, n + 2, ps[1]);
    BetweenIs(area, n + 2, n + 2 + |ps[2]|, ps[2]);
  }

  lemma FoundPieces(values: seq<TypeScaleValue>, k: nat, n: nat)
    requires k < |values| && Total(values) < INT64 - 2 && AllFrameable(values[..k]) && n == Total(values[..k])
    requires |Pieces(values[k])[1]| == 1 && Second(values, n) == n + 2
    requires Until(Area(values), |values|, k, n + Length(values[k])) == n + 2 + |values[k].value|
    ensures TripleCut(values, k)
  {
    TripleCuts(values, k, n, 3 * k, Area(values));
    PiecesInPlace(values, k, n);
    PiecesCut(Seen(values), Area(values), 3 * k, n, Pieces(values[k]));
  }

  lemma FrameableSecond(values: seq<TypeScaleValue>, k: nat, n: nat)
    requires k < |values| && Total(values) < INT64 - 2 && n == Total(values[..k]) && Frameable(values[k])
    ensures Length(values[k]) == 2 + |values[k].value| && |Pieces(values[k])[1]| == 1
    ensures Second(values, n) == n + 2
  {
    WithinRoom(values, k, n);
  }

  lemma FrameableEnd(values: seq<TypeScaleValue>, k: nat, n: nat)
    requires k < |values| && Total(values) < INT64 - 2
    requires AllFrameable(values[..k]) && Frameable(values[k]) && n == Total(values[..k])
    ensures Until(Area(values), |values|, k, n + Length(values[k])) == n + 2 + |values[k].value|
  {
    PiecesInPlace(values, k, n);
    FrameableSecond(values, k, n);
  }

  /** Behind arguments that are framed, a frameable one is found. */
  lemma FrameableRead(values: seq<TypeScaleValue>, k: nat, n: nat)
    requires k < |values| && Total(values) < INT64 - 2 && n == Total(values[..k])
    requires AllFrameable(values[..k]) && Frameable(values[k])
    ensures TripleCut(values, k)
  {
    FrameableEnd(values, k, n);
    FrameableSecond(values, k, n);
    FoundPieces(values, k, n);
  }

  /** The one misframed argument that does no harm: a NULL at the very end, whose entries fit. */
  predicate HarmlessNull(values: seq<TypeScaleValue>, k: nat)
    requires k < |values|
  {
    && k == |values| - 1
    && values[k].typ == TYPE_NULL && values[k].scale < 0xff
    && Total(values[..k]) + 2 < Pow256(Width(values))
  }

  lemma HarmlessRead(values: seq<TypeScaleValue>, k: nat)
    requires k < |values| && Total(values) < INT64 - 2 && AllFrameable(values[..k])
    requires Collected(values[k]) && HarmlessNull(values, k)
    ensures TripleCut(values, k)
  {
    var n := Total(values[..k]);
    PiecesInPlace(values, k, n);
    FoundPieces(values, k, n);
  }

  lemma BetweenLength(area: seq<Byte>, a: int, b: int)
    ensures Between(area, a, b).Ok? ==> |Between(area, a, b).value| == b - a
  {}

  /** A scale of two bytes is cut to one, or not found at all. */
  lemma WideScaleMisread(values: seq<TypeScaleValue>, k: nat)
    requires k < |values| && Total(values) < INT64 - 2 && values[k].scale >= 0xff
    ensures CutOut(Seen(values), Area(values), 3 * k + 1) != Ok(Pieces(values[k])[1])
  {
    var n := Total(values[..k]);
    TripleCuts(values, k, n, 3 * k, Area(values));
    BetweenLength(Area(values), n + 1, Second(values, n));
    assert |Pieces(values[k])[1]| == 2;
  }

  /** Any other NULL makes the reader panic, at its scale or at its value. */
  lemma NullPanics(values: seq<TypeScaleValue>, k: nat)
    requires k < |values| && Total(values) < INT64 - 2
    requires values[k].typ == TYPE_NULL && values[k].scale < 0xff && !HarmlessNull(values, k)
    ensures CutOut(Seen(values), Area(values), 3 * k + 1).Panic? || CutOut(Seen(values), Area(values), 3 * k + 2).Panic?
  {
    TripleCuts(values, k, Total(values[..k]), 3 * k, Area(values));
  }

  /**
   * Behind arguments that are framed, argument k is found if and only if it is frameable itself or a NULL at the end:
   * the first other NULL or wide scale is the first argument that a reader does not find.
   */
  lemma FirstMisread(values: seq<TypeScaleValue>, k: nat)
    requires k < |values| && Total(values) < INT64 - 2
    requires AllFrameable(values[..k]) && Collected(values[k])
    ensures TripleRead(values, k) <==> Frameable(values[k]) || HarmlessNull(values, k)
  {
    ReadIsCut(values, k);
    if Frameable(values[k]) {
      FrameableRead(values, k, Total(values[..k]));
    } else if HarmlessNull(values, k) {
      HarmlessRead(values, k);
    } else if values[k].scale >= 0xff {
      WideScaleMisread(values, k);
    } else {
      NullPanics(values, k);
    }
  }

  predicate AllRead(values: seq<TypeScaleValue>) {
    forall k: nat :: k < |values| ==> TripleRead(values, k)
  }

  lemma FrameableNext(values: seq<TypeScaleValue>, k: nat)
    requires k < |values| && AllFrameable(values[..k]) && Frameable(values[k])
    ensures AllFrameable(values[..k + 1])
  {
    assert values[..k + 1] == values[..k] + [values[k]];
  }

  /** An argument that is found and is not the last is frameable. */
  lemma FoundIsFrameable(values: seq<TypeScaleValue>, k: nat)
    requires k + 1 < |values| && Total(values) < INT64 - 2
    requires AllFrameable(values[..k]) && Collected(values[k]) && TripleRead(values, k)
    ensures AllFrameable(values[..k + 1])
  {
    FirstMisread(values, k);
    FrameableNext(values, k);
  }

  /** The arguments that are found up to k are the frameable ones. */
  lemma {:induction false} ReadPrefix(values: seq<TypeScaleValue>, k: nat)
    requires k < |values| && Total(values) < INT64 - 2
    requires forall i :: 0 <= i < |values| ==> Collected(values[i])
    requires AllRead(values)
    ensures AllFrameable(values[..k])
    decreases k
  {
    if k > 0 {
      ReadPrefix(values, k - 1);
      FoundIsFrameable(values, k - 1);
    }
  }

  /** What a list must be for a reader to find all of it. */
  predicate Readable(values: seq<TypeScaleValue>)
    requires values != []
  {
    var last := |values| - 1;
    AllFrameable(values[..last]) && (Frameable(values[last]) || HarmlessNull(values, last))
  }

  lemma FoundIsReadable(values: seq<TypeScaleValue>)
    requires values != [] && Total(values) < INT64 - 2
    requires forall i :: 0 <= i < |values| ==> Collected(values[i])
    requires AllRead(values)
    ensures Readable(values)
  {
    var last := |values| - 1;
    ReadPrefix(values, last);
    FirstMisread(values, last);
    assert TripleRead(values, last);
  }

  lemma FrameableBelow(values: seq<TypeScaleValue>, last: nat, k: nat)
    requires k <= last <= |values| && AllFrameable(values[..last])
    ensures AllFrameable(values[..k]) && (k < last ==> Frameable(values[k]))
  {
    assert values[..k] == values[..last][..k];
    if k < last {
      assert values[k] == values[..last][k];
    }
  }

  lemma ReadableIsFound(values: seq<TypeScaleValue>, k: nat)
    requires k < |values| && Total(values) < INT64 - 2 && Collected(values[k])
    requires Readable(values)
    ensures TripleRead(values, k)
  {
    FrameableBelow(values, |values| - 1, k);
    FirstMisread(values, k);
  }

  /**
   * A reader finds every argument if and only if all are frameable, but for a NULL at the end whose entries fit. So
   * Tuple.Bytes is read correctly for some lists that it does not frame correctly.
   */
  lemma AllReadExact(values: seq<TypeScaleValue>)
    requires values != [] && Total(values) < INT64 - 2
    requires forall i :: 0 <= i < |values| ==> Collected(values[i])
    ensures AllRead(values) <==> Readable(values)
  {
    if AllRead(values) {
      FoundIsReadable(values);
    }
    if Readable(values) {
      forall k: nat | k < |values| ensures TripleRead(values, k) {
        ReadableIsFound(values, k);
      }
    }
  }

  /** The last of a list that ends in nil, where the reader forgives the missing length. */
  predicate HarmlessNil(args: seq<Argument>)
    requires args != []
    requires forall i :: 0 <= i < |args| ==> args[i].Valid() && ArgumentTriple(args[i]).Ok?
  {
    args[|args| - 1].ArgNil? && Total(Triples(args)) + 2 < Pow256(Width(Triples(args)))
  }

  lemma NilAtEnd(args: seq<Argument>)
    requires args != []
    requires forall i :: 0 <= i < |args| ==> args[i].Valid() && ArgumentTriple(args[i]).Ok?
    ensures HarmlessNil(args) <==> HarmlessNull(Triples(args), |args| - 1)
  {
    var values, last := Triples(args), |args| - 1;
    assert ArgumentTriple(args[last]).value == values[last];
    TotalNext(values, last);
    assert values[..last + 1] == values;
  }

  predicate AllWritable(args: seq<Argument>) {
    forall i :: 0 <= i < |args| ==> Writable(args[i])
  }

  lemma ArgumentsFrameable(args: seq<Argument>)
    requires args != []
    requires forall i :: 0 <= i < |args| ==> args[i].Valid() && ArgumentTriple(args[i]).Ok?
    ensures var values, last := Triples(args), |args| - 1;
            && (forall i :: 0 <= i < |values| ==> Collected(values[i]))
            && (AllFrameable(values[..last]) <==> AllWritable(args[..last]))
            && (Frameable(values[last]) <==> Writable(args[last]))
  {
    var values, last := Triples(args), |args| - 1;
    forall i | 0 <= i < |args| ensures Collected(values[i]) && (Frameable(values[i]) <==> Writable(args[i])) {
      ArgumentCollected(args[i]);
      WritableIsFrameable(args[i]);
    }
    assert forall i :: 0 <= i < last ==> values[..last][i] == values[i] && args[..last][i] == args[i];
  }

  /**
   * For every argument list that is accepted: a reader finds the type, the scale and the value of each argument if and
   * only if no argument is nil and no decimal has a scale of 255 or more, but for a nil at the end whose entries fit.
   */
  lemma ArgumentListRead(args: seq<Argument>)
    requires args != []
    requires forall i :: 0 <= i < |args| ==> args[i].Valid() && ArgumentTriple(args[i]).Ok?
    requires Total(Triples(args)) < INT64 - 2
    ensures AllRead(Triples(args)) <==>
            AllWritable(args[..|args| - 1]) && (Writable(args[|args| - 1]) || HarmlessNil(args))
  {
    ArgumentsFrameable(args);
    AllReadExact(Triples(args));
    NilAtEnd(args);
  }
}
