/** One caller at a time over a connection whose writes and reads may fail, down to the bytes that readers take. */
module SerialClient {
  import opened Bytes
  import opened Types
  import opened Msgpack
  import opened Requests
  import opened Responses

  /**
   * What the outside world does to one call: whether its write or its read fails, what the server answers after the id,
   * and how many bytes its bufio.Reader takes off the connection. Bytes that a reader takes beyond its response are
   * lost with it, be they whole responses or parts of one.
   */
  datatype RawCall = Call(message: RawMessage, writeFails: bool, readFails: bool, answer: seq<Byte>, taken: nat)

  type Call = c: RawCall | |c.answer| <= MAX_INT32 - 9 witness Call(Heartbeat, false, false, [], 0)

  /** A request that reached the server. */
  datatype Delivered = Delivered(id: Int64, frame: seq<Byte>)

  /**
   * stream: response bytes that no reader has taken. deaf: the server was sent a request it cannot find the end of, so
   * it makes nothing of what follows.
   */
  datatype Connection = Connection(requestId: Int64, deaf: bool, stream: seq<Byte>, written: seq<Delivered>)

  const START := Connection(0, false, [], [])

  /** A length and that many bytes. Waiting for bytes that do not come counts as a failure; a negative length panics. */
  function ReadFrame(stream: seq<Byte>): (r: Outcome<seq<Byte>>) {
    if |stream| < 4 then Err(Transport)
    else
      var length := Wrap(BE(stream[..4]), 0x8000_0000);
      if length < 0 then Panic
      else if |stream| < 4 + length then Err(Transport)
      else Ok(stream[4..4 + length])
  }

  lemma CutFrameOut(head: seq<Byte>, rest: seq<Byte>, length: nat)
    requires |head| == 4 && length <= |rest|
    ensures (head + rest)[4..4 + length] == rest[..length]
  {}

  /** What follows any length: too few bytes are waited for in vain, a length with the sign bit panics. */
  lemma FramesRead(length: int, rest: seq<Byte>)
    requires 0 <= length < TWO32
    ensures ReadFrame(PutBE(length, 4) + rest) ==
            if length >= 0x8000_0000 then Panic
            else if |rest| < length then Err(Transport)
            else Ok(rest[..length])
  {
    var stream := PutBE(length, 4) + rest;
    assert stream[..4] == PutBE(length, 4) && stream[4..] == rest;
    Pow256Small();
    ReadPutBE(length, 4);
    if length < 0x8000_0000 {
      WrapFits(length, 0x8000_0000);
      if |rest| >= length {
        CutFrameOut(PutBE(length, 4), rest, length);
      }
    } else {
      QuotientIs(length + 0x8000_0000, TWO32, 1, length - 0x8000_0000);
    }
  }

  /** The bytes that the server adds for a call. */
  function OwnBytes(c: Connection, id: Int64, call: Call): (bs: seq<Byte>) {
    if !c.deaf && Understood(call.message, id) then Response(id, call.answer) else []
  }

  /** What lies before the reader of a call: older bytes, then its own response if the server answers. */
  function Offered(c: Connection, id: Int64, call: Call): (stream: seq<Byte>) {
    c.stream + OwnBytes(c, id, call)
  }

  /** How many of the offered bytes are gone after the call: what its reader took, at least the frame it read. */
  function Gone(offered: seq<Byte>, call: Call): (n: nat)
    ensures n <= |offered|
  {
    var taken := if call.taken < |offered| then call.taken else |offered|;
    if call.readFails then taken
    else
      match ReadFrame(offered)
      case Ok(payload) => if taken < 4 + |payload| then 4 + |payload| else taken
      case _ => taken
  }

  function AfterDo(c: Connection, id: Int64, call: Call): (c': Connection) {
    if call.writeFails then c
    else
      var offered := Offered(c, id, call);
      Connection(Increment(c.requestId), c.deaf || !Understood(call.message, id), offered[Gone(offered, call)..],
                 c.written + [Delivered(id, RequestBytes(call.message, id))])
  }

  function ResultOfDo(c: Connection, id: Int64, call: Call): (r: Outcome<seq<Byte>>) {
    if call.writeFails || call.readFails then Err(Transport)
    else
      match ReadFrame(Offered(c, id, call))
      case Ok(payload) => ResultOfPayload(call.message, payload, id)
      case other => other
  }

  /** A heartbeat increments the id once more, before Do. */
  function BeforeDo(c: Connection, call: Call): (c': Connection) {
    if call.message.Heartbeat? then c.(requestId := Increment(c.requestId)) else c
  }

  function AfterCall(c: Connection, call: Call): (c': Connection) {
    AfterDo(BeforeDo(c, call), c.requestId, call)
  }

  function ResultOf(c: Connection, call: Call): (r: Outcome<seq<Byte>>) {
    ResultOfDo(BeforeDo(c, call), c.requestId, call)
  }

  class Client {
    var requestId: Int64
    var deaf: bool
    var stream: seq<Byte>
    var written: seq<Delivered>

    function State(): (c: Connection)
      reads this
    {
      Connection(requestId, deaf, stream, written)
    }

    constructor ()
      ensures State() == START
    {
      requestId, deaf, stream, written := 0, false, [], [];
    }

    /** Writes the request, counts it, and reads one response through a reader of its own. */
    method Do(id: Int64, call: Call) returns (r: Outcome<seq<Byte>>)
      modifies this
      ensures State() == AfterDo(old(State()), id, call)
      ensures r == ResultOfDo(old(State()), id, call)
    {
      if call.writeFails {
        return Err(Transport);
      }
      var offered := Offered(State(), id, call);
      written := written + [Delivered(id, RequestBytes(call.message, id))];
      deaf := deaf || !Understood(call.message, id);
      requestId := Increment(requestId);
      stream := offered[Gone(offered, call)..];
      if call.readFails {
        return Err(Transport);
      }
      var payload := ReadFrame(offered);
      if !payload.Ok? {
        return payload;
      }
      if call.message.Heartbeat? {
        r := ReceiveHeartbeat(payload.value, id);
      } else {
        r := ReceiveOperation(payload.value, id);
      }
    }

    /** An operation carries the id it finds. */
    method Operation(call: Call) returns (r: Outcome<seq<Byte>>)
      requires call.message.Operation?
      modifies this
      ensures State() == AfterCall(old(State()), call)
      ensures r == ResultOf(old(State()), call)
    {
      r := Do(requestId, call);
    }

    method SendHeartbeat(call: Call) returns (r: Outcome<seq<Byte>>)
      requires call.message.Heartbeat?
      modifies this
      ensures State() == AfterCall(old(State()), call)
      ensures r == ResultOf(old(State()), call)
    {
      var id := requestId;
      requestId := Increment(requestId);
      r := Do(id, call);
    }
  }

  // ---------------------------------------------------------------- frame boundaries

  function FrameEnd(stream: seq<Byte>): (n: nat)
    requires FrameArrived(stream)
    ensures 4 <= n <= |stream|
  {
    4 + BE(stream[..4])
  }

  predicate IdBelow(payload: seq<Byte>, bound: int) {
    match DecodeInt(payload)
    case Some(d) => 0 <= d.value < bound
    case None => false
  }

  /** The stream splits into whole responses to requests with ids below bound. */
  predicate Whole(stream: seq<Byte>, bound: int)
    decreases |stream|
  {
    stream == [] ||
    (&& FrameArrived(stream)
     && BE(stream[..4]) <= MAX_INT32
     && IdBelow(stream[4..FrameEnd(stream)], bound)
     && Whole(stream[FrameEnd(stream)..], bound))
  }

  /** The first n bytes of the stream are whole frames. */
  predicate AtBoundary(stream: seq<Byte>, n: nat)
    decreases n
  {
    n == 0 ||
    (FrameArrived(stream) && FrameEnd(stream) <= n && AtBoundary(stream[FrameEnd(stream)..], n - FrameEnd(stream)))
  }

  /** The call's reader takes whole frames only. */
  predicate Aligned(c: Connection, call: Call) {
    var offered := Offered(BeforeDo(c, call), c.requestId, call);
    call.writeFails || AtBoundary(offered, Gone(offered, call))
  }

  lemma {:induction false} WholeMonotone(stream: seq<Byte>, bound: int, more: int)
    requires Whole(stream, bound) && bound <= more
    ensures Whole(stream, more)
    decreases |stream|
  {
    if stream != [] {
      WholeMonotone(stream[FrameEnd(stream)..], bound, more);
    }
  }

  lemma ResponseIsWhole(id: Int64, answer: seq<Byte>, bound: int)
    requires 0 <= id < bound && |answer| <= MAX_INT32 - 9
    ensures Whole(Response(id, answer), bound)
    ensures ReadFrame(Response(id, answer)) == Ok(Payload(id, answer))
  {
    var payload, bs := Payload(id, answer), Response(id, answer);
    EncodedIntBound(id);
    PrefixReadsBack(payload, []);
    assert bs + [] == bs;
    IntReadsBack(id, answer);
    WrapFits(|payload|, 0x8000_0000);
  }

  /** Bytes arriving behind a whole frame do not change where it ends. */
  lemma FrontFrame(stream: seq<Byte>, more: seq<Byte>)
    requires FrameArrived(stream)
    ensures FrameArrived(stream + more) && FrameEnd(stream + more) == FrameEnd(stream)
    ensures (stream + more)[..4] == stream[..4]
    ensures (stream + more)[4..FrameEnd(stream)] == stream[4..FrameEnd(stream)]
    ensures (stream + more)[FrameEnd(stream)..] == stream[FrameEnd(stream)..] + more
  {
    assert (stream + more)[..4] == stream[..4];
  }

  lemma {:induction false} WholeAppend(stream: seq<Byte>, more: seq<Byte>, bound: int)
    requires Whole(stream, bound) && Whole(more, bound)
    ensures Whole(stream + more, bound)
    decreases |stream|
  {
    if stream == [] {
      assert stream + more == more;
    } else {
      FrontFrame(stream, more);
      WholeAppend(stream[FrameEnd(stream)..], more, bound);
    }
  }

  lemma {:induction false} WholeRest(stream: seq<Byte>, n: nat, bound: int)
    requires Whole(stream, bound) && n <= |stream| && AtBoundary(stream, n)
    ensures Whole(stream[n..], bound)
    decreases n
  {
    if n == 0 {
      assert stream[n..] == stream;
    } else {
      var end := FrameEnd(stream);
      WholeRest(stream[end..], n - end, bound);
      assert stream[end..][n - end..] == stream[n..];
    }
  }

  /** A whole stream that is not empty gives its first response to the reader, with an id below the bound. */
  lemma WholeHead(stream: seq<Byte>, bound: int)
    requires Whole(stream, bound) && stream != []
    ensures ReadFrame(stream) == Ok(stream[4..FrameEnd(stream)]) && IdBelow(stream[4..FrameEnd(stream)], bound)
  {
    WrapFits(BE(stream[..4]), 0x8000_0000);
  }

  // ---------------------------------------------------------------- runs

  predicate Increasing(written: seq<Delivered>) {
    forall i, j :: 0 <= i < j < |written| ==> written[i].id < written[j].id
  }

  /** Every delivered and every pending id lies below the counter, and the stream stands at a frame boundary. */
  predicate Inv(c: Connection) {
    && c.requestId >= 0
    && Increasing(c.written)
    && (forall i :: 0 <= i < |c.written| ==> c.written[i].id < c.requestId)
    && Whole(c.stream, c.requestId)
  }

  function AfterCalls(c: Connection, calls: seq<Call>): (c': Connection) {
    if calls == [] then c else AfterCall(AfterCalls(c, calls[..|calls| - 1]), calls[|calls| - 1])
  }

  /** Every reader of the run takes whole frames only. */
  predicate AllAligned(c: Connection, calls: seq<Call>) {
    calls == [] ||
    (&& AllAligned(c, calls[..|calls| - 1])
     && Aligned(AfterCalls(c, calls[..|calls| - 1]), calls[|calls| - 1]))
  }

  /** No request id wraps during n calls. */
  predicate Room(c: Connection, n: nat) {
    c.requestId + 2 * n < 0x8000_0000_0000_0000
  }

  lemma CountedUp(c: Connection, call: Call)
    requires c.requestId >= 0 && Room(c, 1)
    ensures BeforeDo(c, call).requestId == c.requestId + if call.message.Heartbeat? then 1 else 0
    ensures c.requestId <= AfterCall(c, call).requestId <= c.requestId + 2
    ensures !call.writeFails ==> AfterCall(c, call).requestId == BeforeDo(c, call).requestId + 1
  {
    WrapFits(c.requestId + 1, 0x8000_0000_0000_0000);
    WrapFits(BeforeDo(c, call).requestId + 1, 0x8000_0000_0000_0000);
  }

  lemma OwnBytesAreWhole(c: Connection, call: Call)
    requires c.requestId >= 0
    ensures Whole(OwnBytes(c, c.requestId, call), c.requestId as int + 1)
  {
    if !c.deaf && Understood(call.message, c.requestId) {
      ResponseIsWhole(c.requestId, call.answer, c.requestId as int + 1);
    }
  }

  lemma OfferedIs(c: Connection, call: Call)
    ensures Offered(BeforeDo(c, call), c.requestId, call) == c.stream + OwnBytes(c, c.requestId, call)
  {}

  lemma OfferedIsWhole(c: Connection, call: Call)
    requires Inv(c)
    ensures Whole(Offered(BeforeDo(c, call), c.requestId, call), c.requestId as int + 1)
  {
    var bound := c.requestId as int + 1;
    WholeMonotone(c.stream, c.requestId, bound);
    OwnBytesAreWhole(c, call);
    WholeAppend(c.stream, OwnBytes(c, c.requestId, call), bound);
    OfferedIs(c, call);
  }

  lemma AfterDelivery(c: Connection, call: Call)
    requires !call.writeFails
    ensures AfterCall(c, call).written == c.written + [Delivered(c.requestId, RequestBytes(call.message, c.requestId))]
    ensures var offered := Offered(BeforeDo(c, call), c.requestId, call);
            AfterCall(c, call).stream == offered[Gone(offered, call)..]
  {}

  lemma LeftIsWhole(c: Connection, call: Call)
    requires Inv(c) && Aligned(c, call) && !call.writeFails
    ensures Whole(AfterCall(c, call).stream, c.requestId as int + 1)
  {
    var offered := Offered(BeforeDo(c, call), c.requestId, call);
    OfferedIsWhole(c, call);
    WholeRest(offered, Gone(offered, call), c.requestId as int + 1);
    AfterDelivery(c, call);
  }

  lemma WrittenGrows(written: seq<Delivered>, d: Delivered, bound: int)
    requires Increasing(written) && forall i :: 0 <= i < |written| ==> written[i].id < d.id
    requires d.id < bound
    ensures Increasing(written + [d])
    ensures forall i :: 0 <= i < |written + [d]| ==> (written + [d])[i].id < bound
  {}

  lemma DeliveryKeepsInv(c: Connection, call: Call, next: int)
    requires Inv(c) && Aligned(c, call) && !call.writeFails
    requires next > c.requestId && next == AfterCall(c, call).requestId
    ensures Inv(AfterCall(c, call))
  {
    LeftIsWhole(c, call);
    WholeMonotone(AfterCall(c, call).stream, c.requestId as int + 1, next);
    AfterDelivery(c, call);
    WrittenGrows(c.written, Delivered(c.requestId, RequestBytes(call.message, c.requestId)), next);
  }

  lemma CallKeepsInv(c: Connection, call: Call)
    requires Inv(c) && Aligned(c, call) && Room(c, 1)
    ensures Inv(AfterCall(c, call))
  {
    CountedUp(c, call);
    var next := AfterCall(c, call).requestId;
    if call.writeFails {
      WholeMonotone(c.stream, c.requestId, next);
    } else {
      DeliveryKeepsInv(c, call, next);
    }
  }

  lemma {:induction false} CallsKeepInv(c: Connection, calls: seq<Call>)
    requires Inv(c) && AllAligned(c, calls) && Room(c, |calls|)
    ensures Inv(AfterCalls(c, calls)) && AfterCalls(c, calls).requestId <= c.requestId + 2 * |calls|
  {
    if calls != [] {
      var init := calls[..|calls| - 1];
      CallsKeepInv(c, init);
      CallKeepsInv(AfterCalls(c, init), calls[|calls| - 1]);
      CountedUp(AfterCalls(c, init), calls[|calls| - 1]);
    }
  }

  /** An older id is never mistaken for a newer one, even after its narrowing to int8. */
  lemma ReadIds(older: int, id: int)
    requires 0 <= older < id
    ensures Wrap(older, 0x80) != id && (id < 0x8000_0000_0000_0000 ==> Wrap(older, 0x8000_0000_0000_0000) != id)
  {
    if older < 0x80 {
      WrapFits(older, 0x80);
    }
    if id < 0x8000_0000_0000_0000 {
      WrapFits(older, 0x8000_0000_0000_0000);
    }
  }

  lemma ForeignPayload(message: RawMessage, payload: seq<Byte>, id: Int64)
    requires IdBelow(payload, id)
    ensures Rejected(ResultOfPayload(message, payload, id))
  {
    ReadIds(DecodeInt(payload).value.value, id);
  }

  /** What the call gets when it reads the server's response to its own request. */
  function OwnResult(call: Call, id: Int64): (r: Outcome<seq<Byte>>) {
    ResultOfPayload(call.message, Payload(id, call.answer), id)
  }

  /** The server hears the request, nothing fails, and no older response waits in front. */
  predicate Undisturbed(c: Connection, call: Call) {
    !call.writeFails && !call.readFails && c.stream == [] && !c.deaf && Understood(call.message, c.requestId)
  }

  lemma ReadsOlder(c: Connection, call: Call)
    requires Inv(c) && c.stream != []
    ensures var payload := c.stream[4..FrameEnd(c.stream)];
            ReadFrame(Offered(BeforeDo(c, call), c.requestId, call)) == Ok(payload) && IdBelow(payload, c.requestId)
  {
    WholeHead(c.stream, c.requestId);
    FrontFrame(c.stream, OwnBytes(c, c.requestId, call));
    WrapFits(BE(c.stream[..4]), 0x8000_0000);
    OwnBytesAreWhole(c, call);
  }

  lemma ReadsOwn(c: Connection, call: Call)
    requires c.requestId >= 0 && c.stream == []
    ensures ReadFrame(Offered(BeforeDo(c, call), c.requestId, call))
            == if !c.deaf && Understood(call.message, c.requestId) then Ok(Payload(c.requestId, call.answer))
               else Err(Transport)
  {
    var own := OwnBytes(c, c.requestId, call);
    OwnBytesAreWhole(c, call);
    assert c.stream + own == own;
    if !c.deaf && Understood(call.message, c.requestId) {
      ResponseIsWhole(c.requestId, call.answer, c.requestId as int + 1);
    }
  }

  /** In a good state a call gets its own result if nothing is in its way, and otherwise is rejected. */
  lemma CallResult(c: Connection, call: Call)
    requires Inv(c)
    ensures if Undisturbed(c, call) then ResultOf(c, call) == OwnResult(call, c.requestId)
            else Rejected(ResultOf(c, call))
  {
    if c.stream != [] {
      ReadsOlder(c, call);
      ForeignPayload(call.message, c.stream[4..FrameEnd(c.stream)], c.requestId);
    } else {
      ReadsOwn(c, call);
    }
  }

  /** A write or a read that fails, and a response that never comes, is an error of the connection. */
  lemma TransportFails(c: Connection, call: Call)
    requires Inv(c)
    requires call.writeFails || call.readFails
             || (c.stream == [] && (c.deaf || !Understood(call.message, c.requestId)))
    ensures ResultOf(c, call) == Err(Transport)
    ensures call.writeFails ==>
              AfterCall(c, call) == c.(requestId := AfterCall(c, call).requestId)
              && (call.message.Operation? ==> AfterCall(c, call) == c)
  {
    if !call.writeFails && !call.readFails {
      ReadsOwn(c, call);
    }
  }

  /**
   * After any sequence of calls whose readers stop at frame boundaries, whatever failed in them: the ids on the wire
   * strictly increase, and a later call returns the result of the response to its own request, the server's error
   * included, if nothing fails, no older response waits and the server can hear the request; otherwise it is rejected.
   */
  lemma StaleResponsesAreRejected(calls: seq<Call>, next: Call)
    requires AllAligned(START, calls) && Room(START, |calls|)
    ensures var c := AfterCalls(START, calls);
            && Increasing(c.written)
            && if Undisturbed(c, next) then ResultOf(c, next) == OwnResult(next, c.requestId)
               else Rejected(ResultOf(c, next))
  {
    CallsKeepInv(START, calls);
    CallResult(AfterCalls(START, calls), next);
  }

  /** Id 1, no flags, timestamp 0, then the data. */
  lemma SmallPayload(data: seq<Byte>)
    ensures OperationResult([1, 0, 0] + data, 1) == Ok(data)
  {
    var report := ErrorReport(ZERO_UUID, 0, [], []);
    StatusReported(1, 0, 0, 0, report, data, 1);
    PlainResponse(1, report, data);
    assert EncodeInt(1) + ([0] + ([0] + data)) == [1, 0, 0] + data;
  }

  const HIDDEN := LengthPrefixed([1, 0, 0, 7])

  lemma HiddenFrame(more: seq<Byte>)
    ensures |HIDDEN| == 8 && ReadFrame(HIDDEN + more) == Ok([1, 0, 0, 7])
    ensures Response(0, HIDDEN)[5..] == HIDDEN && |Response(0, HIDDEN)| == 13
    ensures FrameArrived(Response(0, HIDDEN)) && FrameEnd(Response(0, HIDDEN)) == 13
  {
    PrefixReadsBack([1, 0, 0, 7], more);
    WrapFits(4, 0x8000_0000);
    var whole := Response(0, HIDDEN);
    assert Payload(0, HIDDEN) == [0] + HIDDEN;
    assert whole[5..] == HIDDEN;
    PrefixReadsBack([0] + HIDDEN, []);
    assert whole + [] == whole;
  }

  /** The first reader takes five of the thirteen bytes, and fails. */
  lemma FirstStopsInside(first: Call)
    requires first == Call(Operation(3, []), false, true, HIDDEN, 5)
    ensures !Aligned(START, first)
    ensures var c := AfterCall(START, first); c.requestId == 1 && !c.deaf && c.stream == HIDDEN
  {
    var whole := Response(0, HIDDEN);
    HiddenFrame([]);
    EncodedIntBound(3);
    EncodedIntBound(0);
    assert [] + whole == whole;
    assert Offered(START, 0, first) == whole && Gone(whole, first) == 5;
    assert !AtBoundary(whole, 5);
  }

  lemma HiddenResult(c: Connection, second: Call)
    requires second == Call(Operation(3, []), false, false, [0, 0], 0)
    requires c.requestId == 1 && c.stream == HIDDEN
    ensures ResultOf(c, second) == Ok([7])
  {
    HiddenFrame(OwnBytes(c, 1, second));
    SmallPayload([7]);
    assert [1, 0, 0] + [7] == [1, 0, 0, 7];
  }

  /** The boundary is needed: a reader that stops inside a response can make a later call return bytes of an answer. */
  lemma MisalignedExample(first: Call, second: Call)
    requires first == Call(Operation(3, []), false, true, HIDDEN, 5)
    requires second == Call(Operation(3, []), false, false, [0, 0], 0)
    ensures var c := AfterCall(START, first);
            && !Aligned(START, first)
            && ResultOf(c, second) == Ok([7]) && OwnResult(second, c.requestId) == Ok([])
  {
    FirstStopsInside(first);
    HiddenResult(AfterCall(START, first), second);
    SmallPayload([]);
    assert Payload(1, [0, 0]) == [1, 0, 0] + [];
  }

  // ---------------------------------------------------------------- falling behind

  /** An older response waits, or the server hears nothing any more. */
  predicate Behind(c: Connection) {
    c.stream != [] || c.deaf
  }

  /** A reader that takes no more than its response stops at a frame boundary. */
  lemma PlainReaderAligned(c: Connection, call: Call)
    requires Inv(c) && call.taken == 0
    ensures Aligned(c, call)
  {
    var offered := Offered(BeforeDo(c, call), c.requestId, call);
    OfferedIsWhole(c, call);
    if !call.writeFails && !call.readFails && offered != [] {
      WholeHead(offered, c.requestId as int + 1);
      assert AtBoundary(offered[FrameEnd(offered)..], 0);
    }
  }

  lemma StaysBehind(c: Connection, call: Call)
    requires Inv(c) && Behind(c) && call.taken == 0
    ensures Behind(AfterCall(c, call))
  {
    if !c.deaf && !call.writeFails && Understood(call.message, c.requestId) {
      OwnBytesAreWhole(c, call);
      FrontFrame(c.stream, OwnBytes(c, c.requestId, call));
      ReadsOlder(c, call);
      assert |OwnBytes(c, c.requestId, call)| >= 4;
    }
  }

  lemma {:induction false} BehindForever(c: Connection, calls: seq<Call>)
    requires Inv(c) && Behind(c) && Room(c, |calls|)
    requires forall i :: 0 <= i < |calls| ==> calls[i].taken == 0
    ensures AllAligned(c, calls) && Behind(AfterCalls(c, calls))
    ensures Inv(AfterCalls(c, calls))
  {
    if calls != [] {
      var init := calls[..|calls| - 1];
      BehindForever(c, init);
      PlainReaderAligned(AfterCalls(c, init), calls[|calls| - 1]);
      CallsKeepInv(c, calls);
      StaysBehind(AfterCalls(c, init), calls[|calls| - 1]);
    }
  }

  lemma BehindRun(calls: seq<Call>, later: seq<Call>)
    requires AllAligned(START, calls) && Room(START, |calls| + |later|)
    requires Behind(AfterCalls(START, calls))
    requires forall i :: 0 <= i < |later| ==> later[i].taken == 0
    ensures Inv(AfterCalls(AfterCalls(START, calls), later)) && Behind(AfterCalls(AfterCalls(START, calls), later))
  {
    CallsKeepInv(START, calls);
    BehindForever(AfterCalls(START, calls), later);
  }

  /**
   * Once a response was left unread, or a request was sent that the server cannot understand, no later call succeeds
   * as long as every reader takes no more than one response.
   */
  lemma NoCallSucceedsOnceBehind(calls: seq<Call>, later: seq<Call>, next: Call)
    requires AllAligned(START, calls) && Room(START, |calls| + |later|)
    requires Behind(AfterCalls(START, calls))
    requires forall i :: 0 <= i < |later| ==> later[i].taken == 0
    ensures Rejected(ResultOf(AfterCalls(AfterCalls(START, calls), later), next))
  {
    BehindRun(calls, later);
    CallResult(AfterCalls(AfterCalls(START, calls), later), next);
  }

  /** A delivered call whose read fails, or that the server cannot understand, leaves the connection behind. */
  lemma FailedReadLeavesBehind(c: Connection, call: Call)
    requires Inv(c) && !call.writeFails
    requires !Understood(call.message, c.requestId) || (call.readFails && call.taken == 0)
    ensures Behind(AfterCall(c, call))
  {
    if Understood(call.message, c.requestId) && !c.deaf {
      assert |Response(c.requestId, call.answer)| >= 4;
    }
  }

  // ---------------------------------------------------------------- readers that take more

  /** The bytes before the reader of a delivered call: what others left, then the server's response to this call. */
  function Before(c: Connection, call: Call): (bs: seq<Byte>) {
    c.stream + if !c.deaf && Understood(call.message, c.requestId) then Response(c.requestId, call.answer) else []
  }

  /** The bytes that a reader which does not fail needs for its one response. */
  function Needed(c: Connection, call: Call): (n: nat) {
    if call.readFails || !ReadFrame(Before(c, call)).Ok? then 0 else 4 + |ReadFrame(Before(c, call)).value|
  }

  /** Whatever a reader takes is lost with it, also beyond the response that it returns and when it returns none. */
  lemma TakenIsLost(c: Connection, call: Call)
    requires !call.writeFails
    ensures var before, after := Before(c, call), AfterCall(c, call).stream;
            && |after| <= |before| && after == before[|before| - |after|..]
            && (call.taken >= |before| ==> after == [])
            && (call.taken < |before| ==>
                  |before| - |after| == if Needed(c, call) > call.taken then Needed(c, call) else call.taken)
  {
    AfterDelivery(c, call);
    OfferedIs(c, call);
    assert Before(c, call) == Offered(BeforeDo(c, call), c.requestId, call);
  }

  /**
   * So a reader that takes everything there is clears what older calls left behind: whether its own call succeeds or
   * not, the next one gets its own result again if nothing fails and the server hears it.
   */
  lemma GreedyReaderRecovers(c: Connection, call: Call, next: Call)
    requires Inv(c) && Room(c, 2) && !c.deaf && !call.writeFails && Understood(call.message, c.requestId)
    requires call.taken >= |Before(c, call)|
    requires !next.writeFails && !next.readFails && Understood(next.message, AfterCall(c, call).requestId)
    ensures Behind(c) ==> Rejected(ResultOf(c, call))
    ensures ResultOf(AfterCall(c, call), next) == OwnResult(next, AfterCall(c, call).requestId)
  {
    TakenIsLost(c, call);
    CallResult(c, call);
    CountedUp(c, call);
    ReadsOwn(AfterCall(c, call), next);
  }
}
