/** Which arguments AddValue takes, and the type, scale and value that each announces, type ids as numbers. */
module ArgumentTypes {
  import opened Bytes
  import opened Types
  import opened Integers
  import opened TupleReader
  import opened SqlArguments
  import opened Readings
  import Elements
  import Temporal

  /** The id of an argument's Go type on the wire. */
  function TypeIdOf(a: Argument): (id: Byte) {
    match a
    case ArgNil | ArgOther => 0
    case ArgBool(_) => 1
    case ArgByte(_) => 2
    case ArgInt8(_) => 2
    case ArgInt16(_) => 3
    case ArgInt32(_) => 4
    case ArgInt64(_) => 5
    case ArgFloat32(_) => 6
    case ArgFloat64(_) => 7
    case ArgDecimal(_, _) => 8
    case ArgDate(_) => 9
    case ArgTime(_) => 10
    case ArgDateTime(_) => 11
    case ArgTimestamp(_) => 12
    case ArgUuid(_) => 13
    case ArgString(_) => 15
    case ArgBytes(_) => 16
  }

  function ScaleOf(a: Argument): (scale: int) {
    if a.ArgDecimal? then a.scale else 0
  }

  predicate AcceptsArgument(a: Argument) {
    match a
    case ArgOther => false
    case ArgDecimal(_, s) => -0x8000 <= s < 0x8000
    case ArgDate(t) => -16384 <= t.year <= 16383
    case ArgDateTime(t) => -16384 <= t.year <= 16383
    case _ => true
  }

  function ArgumentRefusal(a: Argument): (e: Error) {
    if a.ArgOther? then Unconvertible else if a.ArgDecimal? then ScaleRange else OutOfRange(Year)
  }

  lemma MomentAccepted(t: Moment)
    ensures Temporal.EncodeTimeSpec(t.hour, t.minute, t.second, t.nsec).Ok?
    ensures Temporal.EncodeDate(t.year, t.month, t.day).Ok? <==> -16384 <= t.year <= 16383
    ensures !Temporal.EncodeDate(t.year, t.month, t.day).Ok? ==>
              Temporal.EncodeDate(t.year, t.month, t.day) == Err(OutOfRange(Year))
  {
    assert 1 <= t.day <= 31;
    Temporal.EncodeTimeAccepts(t.hour, t.minute, t.second, t.nsec);
  }

  /** For every argument: whether it is taken, the type and scale that are kept for it, or the error. */
  lemma ArgumentAccepted(a: Argument)
    requires a.Valid()
    ensures ArgumentTriple(a).Ok? <==> AcceptsArgument(a)
    ensures AcceptsArgument(a) ==>
              var t := ArgumentTriple(a).value;
              && t.typ == TypeIdOf(a) && t.scale == ScaleOf(a)
              && (t.value == [] ==> a.ArgNil? || a.ArgString? || a.ArgBytes?)
    ensures !AcceptsArgument(a) ==> ArgumentTriple(a) == Err(ArgumentRefusal(a))
  {
    match a {
      case ArgDate(t) => MomentAccepted(t);
      case ArgTime(t) => MomentAccepted(t);
      case ArgDateTime(t) => MomentAccepted(t);
      case ArgInt16(n) => EncodeIntLeRoundTrip(n);
      case ArgInt32(n) => EncodeIntLeRoundTrip(n);
      case ArgInt64(n) => EncodeIntLeRoundTrip(n);
      case _ =>
    }
  }

  lemma ListAccepted(args: seq<Argument>)
    requires forall i :: 0 <= i < |args| ==> args[i].Valid()
    ensures (forall i :: 0 <= i < |args| ==> ArgumentTriple(args[i]).Ok?)
            <==> forall i :: 0 <= i < |args| ==> AcceptsArgument(args[i])
  {
    forall i | 0 <= i < |args| ensures ArgumentTriple(args[i]).Ok? <==> AcceptsArgument(args[i]) {
      ArgumentAccepted(args[i]);
    }
  }

  /** The value bytes, read at the id of the argument's Go type. */
  lemma ReadAtItsType(a: Argument, precision: int)
    requires a.Valid() && AcceptsArgument(a)
    ensures ArgumentTriple(a).Ok?
    ensures ReadRaw(TypeIdOf(a), precision, ArgumentTriple(a).value.value) == Ok(ExpectedArgument(a))
            <==> ArgumentSurvives(a, precision)
  {
    ArgumentAccepted(a);
    ArgumentRoundTrip(a, precision);
  }

  /** Elements 3 k, 3 k + 1 and 3 k + 2 of a container are an argument's id, its scale, and bytes that read as it. */
  predicate Announces(bs: seq<Byte>, w: nat, n: nat, k: nat, a: Argument, precision: int) {
    var raw := RawElement(bs, w, n, 3 * k + 2);
    && RawElement(bs, w, n, 3 * k) == Ok([TypeIdOf(a)])
    && RawElement(bs, w, n, 3 * k + 1) == Ok([ScaleOf(a) % 256])
    && raw.Ok?
    && (ReadRaw(TypeIdOf(a), precision, raw.value) == Ok(ExpectedArgument(a)) <==> ArgumentSurvives(a, precision))
  }

  lemma KeptFor(a: Argument, v: TypeScaleValue)
    requires a.Valid() && ArgumentTriple(a) == Ok(v)
    ensures AcceptsArgument(a) && v.typ % 256 == TypeIdOf(a) && v.scale == ScaleOf(a)
  {
    ArgumentAccepted(a);
  }

  lemma AnnouncedBy(bs: seq<Byte>, w: nat, n: nat, k: nat, v: TypeScaleValue, a: Argument, precision: int)
    requires a.Valid() && ArgumentTriple(a) == Ok(v)
    requires RawElement(bs, w, n, 3 * k) == Ok([v.typ % 256])
    requires RawElement(bs, w, n, 3 * k + 1) == Ok([v.scale % 256])
    requires RawElement(bs, w, n, 3 * k + 2) == Ok(v.value)
    ensures Announces(bs, w, n, k, a, precision)
  {
    KeptFor(a, v);
    ReadAtItsType(a, precision);
  }

  lemma AnnouncedAt(values: seq<TypeScaleValue>, k: nat, a: Argument, precision: int)
    requires AllFrameable(values) && Total(values) < INT64 && k < |values|
    requires a.Valid() && ArgumentTriple(a) == Ok(values[k])
    ensures Announces(ArgumentBytes(values), EntrySizeFor(Total(values)), 3 * |values|, k, a, precision)
  {
    ArgumentsReadBack(values, k);
    AnnouncedBy(ArgumentBytes(values), EntrySizeFor(Total(values)), 3 * |values|, k, values[k], a, precision);
  }

  /**
   * The container of an argument list announces, three elements an argument, the id of its Go type, its scale, and
   * bytes that read as the argument at that id exactly on the domain of the round trip.
   */
  lemma ArgumentOnTheWire(args: seq<Argument>, k: nat, precision: int)
    requires forall i :: 0 <= i < |args| ==> args[i].Valid() && ArgumentTriple(args[i]).Ok? && Writable(args[i])
    requires k < |args| && Total(Triples(args)) < INT64
    ensures var values := Triples(args);
            Announces(ArgumentBytes(values), EntrySizeFor(Total(values)), 3 * |args|, k, args[k], precision)
  {
    ArgumentListFraming(args);
    AnnouncedAt(Triples(args), k, args[k], precision);
  }

  /**
   * The entry size is the smallest of 1, 2, 4 and 8 bytes whose largest value lies above the total, so one size more
   * than needed for totals of exactly 255, 65535 and 2^32 - 1; the header is its logarithm.
   */
  lemma ArgumentEntrySizes(total: nat)
    ensures var w := EntrySizeFor(total);
            && (w == 1 || w == 2 || w == 4 || w == 8)
            && (w < 8 ==> total < Pow256(w) - 1)
            && (w > 1 ==> total >= Pow256(w / 2) - 1)
            && ToHeader(w) <= 3 && Pow2(ToHeader(w)) == w
  {
    Pow256Small();
  }

  /** The first byte of the container and its length, for every list that is framed. */
  lemma ContainerSize(args: seq<Argument>)
    requires forall i :: 0 <= i < |args| ==> args[i].Valid() && ArgumentTriple(args[i]).Ok? && Writable(args[i])
    ensures var values := Triples(args);
            var bs := ArgumentBytes(values);
            && bs != [] && bs[0] <= 3
            && |bs| == 1 + Pow2(bs[0]) * (3 * |args|) + |Concat(AllPieces(values))|
            && Total(values) == |Concat(AllPieces(values))|
  {
    var values := Triples(args);
    var w := EntrySizeFor(Total(values));
    ArgumentListFraming(args);
    FrameableTotal(values);
    ArgumentEntrySizes(Total(values));
    FrameParts(ToHeader(w), AllPieces(values), w);
  }
}
