/** Operation requests on the wire, and the batch payload of tuple writes. */
module Requests {
  import opened Bytes
  import opened Types
  import opened Msgpack

  const OP_HEARTBEAT := 1
  const OP_TUPLE_UPSERT_ALL := 13
  const OP_TUPLE_DELETE_ALL := 29

  /** RequestId++ on an int64. */
  function Increment(id: Int64): (next: Int64) {
    Wrap(id + 1, 0x8000_0000_0000_0000)
  }

  /** RequestOperation.WriteTo: the int32 length counts code, id and data. */
  function RequestFrame(code: Int64, id: Int64, data: seq<Byte>): (bs: seq<Byte>) {
    LengthPrefixed(EncodeInt(code) + EncodeInt(id) + data)
  }

  /** RequestHeartbeat.WriteTo announces two bytes, whatever the id takes. */
  function HeartbeatFrame(id: Int64): (bs: seq<Byte>) {
    PutBE(2, 4) + (EncodeInt(OP_HEARTBEAT) + EncodeInt(id))
  }

  datatype Envelope = Envelope(code: int, id: int, data: seq<Byte>)

  /** The first message of a byte stream and what follows it. */
  function ParseRequest(bs: seq<Byte>): (r: Option<Decoded<Envelope>>) {
    if !FrameArrived(bs) then None
    else
      var end := 4 + BE(bs[..4]);
      match DecodeInt(bs[4..end])
      case None => None
      case Some(code) =>
        match DecodeInt(code.rest)
        case None => None
        case Some(id) => Some(Decoded(Envelope(code.value, id.value, id.rest), bs[end..]))
  }

  lemma EnvelopeReadsBack(code: Int64, id: Int64, data: seq<Byte>, payload: seq<Byte>)
    requires payload == EncodeInt(code) + EncodeInt(id) + data
    ensures DecodeInt(payload) == Some(Decoded(code, EncodeInt(id) + data))
    ensures DecodeInt(EncodeInt(id) + data) == Some(Decoded(id, data))
  {
    var tail := EncodeInt(id) + data;
    Regrouped(EncodeInt(code), EncodeInt(id), data);
    IntReadsBack(code, tail);
    IntReadsBack(id, data);
  }

  /** A request frame is read back as itself, whatever follows it on the connection. */
  lemma RequestReadsBack(code: Int64, id: Int64, data: seq<Byte>, rest: seq<Byte>)
    requires |EncodeInt(code) + EncodeInt(id) + data| <= MAX_INT32
    ensures ParseRequest(RequestFrame(code, id, data) + rest) == Some(Decoded(Envelope(code, id, data), rest))
  {
    var payload := EncodeInt(code) + EncodeInt(id) + data;
    PrefixReadsBack(payload, rest);
    EnvelopeReadsBack(code, id, data, payload);
  }

  lemma ShortInt(n: Int64)
    ensures |EncodeInt(n)| == 1 <==> -0x20 <= n < 0x80
  {}

  /** A heartbeat is framed correctly exactly while its id packs into one byte. */
  lemma HeartbeatFraming(id: Int64)
    ensures HeartbeatFrame(id) == RequestFrame(OP_HEARTBEAT, id, []) <==> -0x20 <= id < 0x80
  {
    ShortInt(OP_HEARTBEAT);
    ShortInt(id);
    var payload := EncodeInt(OP_HEARTBEAT) + EncodeInt(id);
    assert payload + [] == payload;
    assert HeartbeatFrame(id)[..4] == PutBE(2, 4) && LengthPrefixed(payload)[..4] == PutBE(|payload|, 4);
    EncodedIntBound(id);
    Pow256Small();
    ReadPutBE(2, 4);
    ReadPutBE(|payload|, 4);
  }

  lemma CutFrame(length: seq<Byte>, first: Byte, more: seq<Byte>, rest: seq<Byte>)
    requires |length| == 4
    ensures var bs := length + ([1] + ([first] + more)) + rest;
            |bs| >= 6 && bs[..4] == length && bs[4..6] == [1, first] && bs[6..] == more + rest
  {}

  lemma HeartbeatShape(id: Int64)
    ensures HeartbeatFrame(id) == PutBE(2, 4) + ([1] + ([EncodeInt(id)[0]] + EncodeInt(id)[1..]))
  {
    assert EncodeInt(OP_HEARTBEAT) == [1];
    assert [EncodeInt(id)[0]] + EncodeInt(id)[1..] == EncodeInt(id);
  }

  /** The two bytes announced for a heartbeat are the code and the first byte of the id: a longer id is cut off. */
  lemma HeartbeatPayload(id: Int64, rest: seq<Byte>)
    ensures var bs := HeartbeatFrame(id) + rest;
            && FrameArrived(bs) && 4 + BE(bs[..4]) == 6
            && bs[4..6] == [1, EncodeInt(id)[0]]
            && bs[6..] == EncodeInt(id)[1..] + rest
  {
    HeartbeatShape(id);
    CutFrame(PutBE(2, 4), EncodeInt(id)[0], EncodeInt(id)[1..], rest);
    Pow256Small();
    ReadPutBE(2, 4);
  }

  lemma FirstByteAlone(id: Int64)
    ensures DecodeInt([EncodeInt(id)[0]]) == if -0x20 <= id < 0x80 then Some(Decoded(id, [])) else None
  {
    ShortInt(id);
    if -0x20 <= id < 0x80 {
      IntReadsBack(id, []);
      assert [EncodeInt(id)[0]] == EncodeInt(id) + [];
    } else {
      assert IntFormat(EncodeInt(id)[0]).Some?;
    }
  }

  /** Whatever follows it on the connection, a heartbeat is understood exactly while its id packs into one byte. */
  lemma HeartbeatUnderstood(id: Int64, rest: seq<Byte>)
    ensures ParseRequest(HeartbeatFrame(id) + rest) ==
            if -0x20 <= id < 0x80 then Some(Decoded(Envelope(OP_HEARTBEAT, id, []), rest)) else None
  {
    HeartbeatPayload(id, rest);
    FirstByteAlone(id);
    ShortInt(id);
    var first := EncodeInt(id)[0];
    assert [1, first][1..] == [first] && [first][1..] == [];
    assert DecodeInt([1, first]) == Some(Decoded(1, [first]));
    if -0x20 <= id < 0x80 {
      assert EncodeInt(id)[1..] + rest == rest;
    }
  }

  /** The operation codes on the wire, behind the four bytes of the length. */
  lemma OperationCodes(id: Int64, data: seq<Byte>)
    ensures HeartbeatFrame(id)[4] == 1
    ensures RequestFrame(OP_TUPLE_UPSERT_ALL, id, data)[4] == 13
    ensures RequestFrame(OP_TUPLE_DELETE_ALL, id, data)[4] == 29
  {}

  // ---------------------------------------------------------------- messages

  datatype RawMessage = Operation(code: Int64, data: seq<Byte>) | Heartbeat

  /** Messages with room for code, id and data in an int32 length. */
  type Message = m: RawMessage | m.Operation? ==> |m.data| <= MAX_INT32 - 18 witness Heartbeat

  function RequestBytes(m: RawMessage, id: Int64): (bs: seq<Byte>) {
    match m
    case Operation(code, data) => RequestFrame(code, id, data)
    case Heartbeat => HeartbeatFrame(id)
  }

  /** Whether the announced length is the length: a heartbeat announces two bytes, an operation an int32. */
  predicate Understood(m: RawMessage, id: Int64) {
    match m
    case Operation(code, data) => |EncodeInt(code) + EncodeInt(id) + data| <= MAX_INT32
    case Heartbeat => -0x20 <= id < 0x80
  }

  function EnvelopeOf(m: RawMessage, id: Int64): (e: Envelope) {
    match m
    case Operation(code, data) => Envelope(code, id, data)
    case Heartbeat => Envelope(OP_HEARTBEAT, id, [])
  }

  /** A server that reads the stream finds the request, or cannot make anything of it. */
  lemma MessageReadsBack(m: Message, id: Int64, rest: seq<Byte>)
    ensures ParseRequest(RequestBytes(m, id) + rest) ==
            if Understood(m, id) then Some(Decoded(EnvelopeOf(m, id), rest)) else None
  {
    match m {
      case Operation(code, data) =>
        EncodedIntBound(code);
        EncodedIntBound(id);
        RequestReadsBack(code, id, data, rest);
      case Heartbeat => HeartbeatUnderstood(id, rest);
    }
  }

  lemma MessageAlone(m: Message, id: Int64)
    ensures ParseRequest(RequestBytes(m, id)) ==
            if Understood(m, id) then Some(Decoded(EnvelopeOf(m, id), [])) else None
  {
    MessageReadsBack(m, id, []);
    assert RequestBytes(m, id) + [] == RequestBytes(m, id);
  }

  /** A server with nothing before it, or with a request that it cannot understand, stays silent. */
  lemma Silent(m: Message, id: Int64, bs: seq<Byte>)
    requires bs == [] || (bs == RequestBytes(m, id) && !Understood(m, id))
    ensures ParseRequest(bs).None?
  {
    if bs != [] {
      MessageAlone(m, id);
    }
  }

  lemma Heard(m: Message, id: Int64, bs: seq<Byte>)
    requires bs == [] || bs == RequestBytes(m, id)
    requires ParseRequest(bs).Some?
    ensures bs == RequestBytes(m, id) && Understood(m, id) && ParseRequest(bs) == Some(Decoded(EnvelopeOf(m, id), []))
  {
    if bs != [] {
      MessageAlone(m, id);
    }
  }

  // ---------------------------------------------------------------- batches

  /** An empty bit set (ext8 of length zero and type 8), then the tuple. */
  function RowEntry(tuple: seq<Byte>): (bs: seq<Byte>) {
    [0xc7, 0x00, 0x08] + EncodeBin(tuple)
  }

  function RowEntryList(tuples: seq<seq<Byte>>): (parts: seq<seq<Byte>>)
    ensures |parts| == |tuples|
  {
    if tuples == [] then [] else [RowEntry(tuples[0])] + RowEntryList(tuples[1..])
  }

  lemma {:induction false} RowEntryAt(tuples: seq<seq<Byte>>, i: nat)
    requires i < |tuples|
    ensures RowEntryList(tuples)[i] == RowEntry(tuples[i])
  {
    if i > 0 {
      RowEntryAt(tuples[1..], i - 1);
    }
  }

  function RowEntries(tuples: seq<seq<Byte>>): (bs: seq<Byte>) {
    Concat(RowEntryList(tuples))
  }

  function BatchHeader(tableId: Int64, schemaVersion: Int64, count: Int64): (bs: seq<Byte>) {
    EncodeInt(tableId) + [NIL] + EncodeInt(schemaVersion) + EncodeInt(count)
  }

  function BatchPayload(tableId: Int64, schemaVersion: Int64, tuples: seq<seq<Byte>>): (bs: seq<Byte>)
    requires |tuples| < 0x8000_0000_0000_0000
  {
    BatchHeader(tableId, schemaVersion, |tuples|) + RowEntries(tuples)
  }

  datatype Batch = Batch(tableId: int, schemaVersion: int, tuples: seq<seq<Byte>>)

  function ParseRows(bs: seq<Byte>, count: nat): (r: Option<seq<seq<Byte>>>) {
    if count == 0 then (if bs == [] then Some([]) else None)
    else if |bs| < 3 || bs[..3] != [0xc7, 0x00, 0x08] then None
    else
      match DecodeBin(bs[3..])
      case None => None
      case Some(row) =>
        match ParseRows(row.rest, count - 1)
        case None => None
        case Some(rows) => Some([row.value] + rows)
  }

  function ParseBatch(data: seq<Byte>): (r: Option<Batch>) {
    match DecodeInt(data)
    case None => None
    case Some(table) =>
      if table.rest == [] || table.rest[0] != NIL then None
      else
        match DecodeInt(table.rest[1..])
        case None => None
        case Some(version) =>
          match DecodeInt(version.rest)
          case None => None
          case Some(count) =>
            if count.value < 0 then None
            else
              match ParseRows(count.rest, count.value)
              case None => None
              case Some(rows) => Some(Batch(table.value, version.value, rows))
  }

  lemma RowEntriesFront(tuples: seq<seq<Byte>>)
    requires tuples != []
    ensures RowEntries(tuples) == RowEntry(tuples[0]) + RowEntries(tuples[1..])
  {
    ConcatFront(RowEntryList(tuples));
  }

  lemma EntrySplit(tuple: seq<Byte>, more: seq<Byte>)
    ensures (RowEntry(tuple) + more)[..3] == [0xc7, 0x00, 0x08]
    ensures (RowEntry(tuple) + more)[3..] == EncodeBin(tuple) + more
  {}

  lemma {:induction false} RowsReadBack(tuples: seq<seq<Byte>>)
    requires forall i :: 0 <= i < |tuples| ==> |tuples[i]| < TWO32
    ensures ParseRows(RowEntries(tuples), |tuples|) == Some(tuples)
    decreases |tuples|
  {
    if tuples != [] {
      var more := RowEntries(tuples[1..]);
      RowEntriesFront(tuples);
      RowsReadBack(tuples[1..]);
      BinReadsBack(tuples[0], more);
      EntrySplit(tuples[0], more);
      assert [tuples[0]] + tuples[1..] == tuples;
    }
  }

  lemma PayloadShape(tableId: Int64, schemaVersion: Int64, tuples: seq<seq<Byte>>)
    requires |tuples| < 0x8000_0000_0000_0000
    ensures BatchPayload(tableId, schemaVersion, tuples) == EncodeInt(tableId)
            + ([NIL] + (EncodeInt(schemaVersion) + (EncodeInt(|tuples|) + RowEntries(tuples))))
  {
    Nested(EncodeInt(tableId), [NIL], EncodeInt(schemaVersion), EncodeInt(|tuples|), RowEntries(tuples));
  }

  /** Past the packed table, nil, version and count, ParseBatch is left with the rows. */
  lemma HeaderReadsBack(tableId: Int64, schemaVersion: Int64, count: Int64, rows: seq<Byte>)
    requires count >= 0
    ensures ParseBatch(EncodeInt(tableId) + ([NIL] + (EncodeInt(schemaVersion) + (EncodeInt(count) + rows))))
            == match ParseRows(rows, count)
               case None => None
               case Some(parsed) => Some(Batch(tableId, schemaVersion, parsed))
  {
    var c := EncodeInt(count) + rows;
    var b := EncodeInt(schemaVersion) + c;
    IntReadsBack(tableId, [NIL] + b);
    assert ([NIL] + b)[1..] == b;
    IntReadsBack(schemaVersion, c);
    IntReadsBack(count, rows);
  }

  /** The batch on the wire carries the row count and exactly the tuples, in their order. */
  lemma BatchReadsBack(tableId: Int64, schemaVersion: Int64, tuples: seq<seq<Byte>>)
    requires |tuples| < 0x8000_0000_0000_0000
    requires forall i :: 0 <= i < |tuples| ==> |tuples[i]| < TWO32
    ensures ParseBatch(BatchPayload(tableId, schemaVersion, tuples)) == Some(Batch(tableId, schemaVersion, tuples))
  {
    PayloadShape(tableId, schemaVersion, tuples);
    RowsReadBack(tuples);
    HeaderReadsBack(tableId, schemaVersion, |tuples|, RowEntries(tuples));
  }
}
