/**
 * Many callers of one connection: every step of Do, of the unlocked reads and increments of the request id around it,
 * and of a server that reads requests off the stream and echoes their ids, interleaved in any order and without I/O
 * failures. A server that can make nothing of the bytes before it does not answer.
 */
module Protocol {
  import opened Bytes
  import opened Types
  import opened Msgpack
  import opened Requests
  import opened Responses

  /** A request with the id it carries, and the one that its response will be checked against. */
  datatype Request = Request(caller: nat, message: Message, id: Int64, uid: Int64)

  /**
   * Where a caller stands. serial numbers the requests in the order they were written. An operation takes both ids from
   * one read of the counter; a heartbeat reads it once for the request and once for the response, and an increment that
   * another caller stores in between, inside its Do or on its way to a heartbeat, makes the two differ.
   */
  datatype Phase =
    | Idle(message: Message)
    | HeartbeatNamed(id: Int64)                                        // request built, about to read the id again
    | HeartbeatBuilt(id: Int64, uid: Int64)                            // about to increment, without the lock
    | HeartbeatLoaded(id: Int64, uid: Int64, seen: Int64)
    | Built(message: Message, id: Int64, uid: Int64)                   // about to call Do
    | Locked(message: Message, id: Int64, uid: Int64)
    | Written(serial: nat)
    | Loaded(serial: nat, seen: Int64)                                 // in the middle of RequestId++
    | Reading(serial: nat, buffer: seq<Byte>)                          // with a fresh bufio.Reader
    | Done(serial: nat, payload: seq<Byte>, discarded: seq<Byte>)
  {
    predicate Critical() {
      Locked? || Written? || Loaded? || Reading?
    }
  }

  /**
   * sent and answers are histories: request number k was answered by answers[k].
   * toServer holds the request bytes that the server has not taken yet, toClient the response bytes that no reader has.
   */
  datatype State = State(
    requestId: Int64,
    mutex: Option<nat>,
    callers: seq<Phase>,
    sent: seq<Request>,
    answers: seq<seq<Byte>>,
    toServer: seq<Byte>,
    toClient: seq<Byte>)

  datatype Action =
    | ReadId(i: nat)
    | ReadUid(i: nat)
    | HeartbeatLoad(i: nat)
    | HeartbeatStore(i: nat)
    | Lock(i: nat)
    | Write(i: nat)
    | LoadId(i: nat)
    | StoreId(i: nat)
    | Fill(i: nat, k: nat)
    | Return(i: nat)
    | NextCall(i: nat, message: Message)
    | Respond(answer: seq<Byte>)

  predicate Caller(s: State, a: Action) {
    a.Respond? || a.i < |s.callers|
  }

  predicate Enabled(s: State, a: Action) {
    Caller(s, a) &&
    match a
    case ReadId(i) => s.callers[i].Idle?
    case ReadUid(i) => s.callers[i].HeartbeatNamed?
    case HeartbeatLoad(i) => s.callers[i].HeartbeatBuilt?
    case HeartbeatStore(i) => s.callers[i].HeartbeatLoaded?
    case Lock(i) => s.callers[i].Built? && s.mutex.None?
    case Write(i) => s.callers[i].Locked?
    case LoadId(i) => s.callers[i].Written?
    case StoreId(i) => s.callers[i].Loaded?
    case Fill(i, k) => s.callers[i].Reading? && !FrameArrived(s.callers[i].buffer) && 0 < k <= |s.toClient|
    case Return(i) => s.callers[i].Reading? && FrameArrived(s.callers[i].buffer)
    case NextCall(i, _) => s.callers[i].Done?
    case Respond(answer) =>
      match ParseRequest(s.toServer)
      case None => false
      case Some(r) => Fits(r.value.id, 0x8000_0000_0000_0000) && |Payload(r.value.id, answer)| <= MAX_INT32
  }

  function Move(s: State, i: nat, p: Phase): (s': State)
    requires i < |s.callers|
  {
    s.(callers := s.callers[i := p])
  }

  function Apply(s: State, a: Action): (s': State)
    requires Enabled(s, a)
  {
    match a
    case ReadId(i) =>
      var m := s.callers[i].message;
      Move(s, i, if m.Heartbeat? then HeartbeatNamed(s.requestId) else Built(m, s.requestId, s.requestId))
    case ReadUid(i) =>
      Move(s, i, HeartbeatBuilt(s.callers[i].id, s.requestId))
    case HeartbeatLoad(i) =>
      Move(s, i, HeartbeatLoaded(s.callers[i].id, s.callers[i].uid, s.requestId))
    case HeartbeatStore(i) =>
      Move(s, i, Built(Heartbeat, s.callers[i].id, s.callers[i].uid)).(requestId := Increment(s.callers[i].seen))
    case Lock(i) =>
      Move(s, i, Locked(s.callers[i].message, s.callers[i].id, s.callers[i].uid)).(mutex := Some(i))
    case Write(i) =>
      var r := Request(i, s.callers[i].message, s.callers[i].id, s.callers[i].uid);
      Move(s, i, Written(|s.sent|)).(sent := s.sent + [r], toServer := s.toServer + RequestBytes(r.message, r.id))
    case LoadId(i) =>
      Move(s, i, Loaded(s.callers[i].serial, s.requestId))
    case StoreId(i) =>
      Move(s, i, Reading(s.callers[i].serial, [])).(requestId := Increment(s.callers[i].seen))
    case Fill(i, k) =>
      Move(s, i, Reading(s.callers[i].serial, s.callers[i].buffer + s.toClient[..k])).(toClient := s.toClient[k..])
    case Return(i) =>
      var buffer := s.callers[i].buffer;
      var end := 4 + BE(buffer[..4]);
      Move(s, i, Done(s.callers[i].serial, buffer[4..end], buffer[end..])).(mutex := None)
    case NextCall(i, message) =>
      Move(s, i, Idle(message))
    case Respond(answer) =>
      var r := ParseRequest(s.toServer).value;
      s.(answers := s.answers + [answer], toServer := r.rest, toClient := s.toClient + Response(r.value.id, answer))
  }

  predicate Init(s: State) {
    && s.mutex == None && s.sent == [] && s.answers == [] && s.toServer == [] && s.toClient == []
    && forall i :: 0 <= i < |s.callers| ==> s.callers[i].Idle?
  }

  // ---------------------------------------------------------------- invariant

  /** Nothing is on its way in either direction. */
  predicate Quiet(s: State) {
    |s.answers| == |s.sent| && s.toServer == [] && s.toClient == []
  }

  /** Request number serial is the last one written, and every byte in either direction belongs to it. */
  predicate Outstanding(s: State, caller: nat, serial: nat, buffer: seq<Byte>) {
    && |s.sent| == serial + 1
    && s.sent[serial].caller == caller
    && (|s.answers| == serial || |s.answers| == serial + 1)
    && (|s.answers| == serial ==>
          && s.toServer == RequestBytes(s.sent[serial].message, s.sent[serial].id)
          && buffer + s.toClient == [])
    && (|s.answers| == serial + 1 ==>
          && s.toServer == []
          && Understood(s.sent[serial].message, s.sent[serial].id)
          && |Payload(s.sent[serial].id, s.answers[serial])| <= MAX_INT32
          && buffer + s.toClient == Response(s.sent[serial].id, s.answers[serial]))
  }

  predicate HolderInv(s: State, h: nat) {
    h < |s.callers| &&
    match s.callers[h]
    case Locked(_, _, _) => Quiet(s)
    case Written(serial) => Outstanding(s, h, serial, [])
    case Loaded(serial, _) => Outstanding(s, h, serial, [])
    case Reading(serial, buffer) => Outstanding(s, h, serial, buffer)
    case _ => false
  }

  /** A finished call returned the whole response to its own request and threw no byte away. */
  predicate OwnResponse(s: State, i: nat, serial: nat, payload: seq<Byte>, discarded: seq<Byte>) {
    && serial < |s.answers| && serial < |s.sent|
    && s.sent[serial].caller == i
    && Understood(s.sent[serial].message, s.sent[serial].id)
    && payload == Payload(s.sent[serial].id, s.answers[serial])
    && discarded == []
  }

  predicate CallerInv(s: State, i: nat)
    requires i < |s.callers|
  {
    && (s.callers[i].Critical() ==> s.mutex == Some(i))
    && (s.callers[i].Done? ==> OwnResponse(s, i, s.callers[i].serial, s.callers[i].payload, s.callers[i].discarded))
  }

  predicate Inv(s: State) {
    && |s.answers| <= |s.sent|
    && (s.mutex.None? ==> Quiet(s))
    && (s.mutex.Some? ==> HolderInv(s, s.mutex.value))
    && forall i :: 0 <= i < |s.callers| ==> CallerInv(s, i)
  }

  lemma InitInv(s: State)
    requires Init(s)
    ensures Inv(s)
  {}

  /** Moving a caller between phases outside Do, and changing the request id, leaves the connection alone. */
  lemma OutsideMove(s: State, s': State, i: nat, p: Phase)
    requires Inv(s) && i < |s.callers| && s' == Move(s, i, p).(requestId := s'.requestId)
    requires !s.callers[i].Critical() && !p.Critical() && !p.Done?
    ensures Inv(s')
  {
    forall j | 0 <= j < |s'.callers| ensures CallerInv(s', j) {
      assert CallerInv(s, j);
    }
    if s.mutex.Some? {
      assert s.mutex.value != i;
      assert s'.callers[s.mutex.value] == s.callers[s.mutex.value];
    }
  }

  lemma OutsideStep(s: State, a: Action)
    requires Inv(s) && Enabled(s, a)
    requires a.ReadId? || a.ReadUid? || a.HeartbeatLoad? || a.HeartbeatStore? || a.NextCall?
    ensures Inv(Apply(s, a))
  {
    OutsideMove(s, Apply(s, a), a.i, Apply(s, a).callers[a.i]);
  }

  lemma LockStep(s: State, i: nat)
    requires Inv(s) && Enabled(s, Lock(i))
    ensures Inv(Apply(s, Lock(i)))
  {
    var s' := Apply(s, Lock(i));
    forall j | 0 <= j < |s'.callers| ensures CallerInv(s', j) {
      assert CallerInv(s, j);
    }
  }

  /** Appending to the histories does not disturb finished calls. */
  lemma HistoryGrows(s: State, s': State, i: nat)
    requires i < |s.callers| == |s'.callers| && s.callers[i] == s'.callers[i]
    requires s.mutex == s'.mutex && s.sent <= s'.sent && s.answers <= s'.answers
    requires CallerInv(s, i)
    ensures CallerInv(s', i)
  {}

  lemma WriteStep(s: State, i: nat)
    requires Inv(s) && Enabled(s, Write(i))
    ensures Inv(Apply(s, Write(i)))
  {
    var s' := Apply(s, Write(i));
    assert CallerInv(s, i);
    forall j | 0 <= j < |s'.callers| ensures CallerInv(s', j) {
      if j != i { HistoryGrows(s, s', j); }
    }
  }

  lemma CountStep(s: State, a: Action)
    requires Inv(s) && Enabled(s, a) && (a.LoadId? || a.StoreId?)
    ensures Inv(Apply(s, a))
  {
    var s' := Apply(s, a);
    assert CallerInv(s, a.i);
    forall j | 0 <= j < |s'.callers| ensures CallerInv(s', j) {
      if j != a.i { HistoryGrows(s, s', j); }
    }
  }

  lemma FilledHolder(s: State, s': State, i: nat, serial: nat, buffer: seq<Byte>, k: nat)
    requires Outstanding(s, i, serial, buffer) && k <= |s.toClient|
    requires s'.sent == s.sent && s'.answers == s.answers && s'.toServer == s.toServer && s'.toClient == s.toClient[k..]
    ensures Outstanding(s', i, serial, buffer + s.toClient[..k])
  {
    assert buffer + s.toClient[..k] + s.toClient[k..] == buffer + s.toClient;
  }

  lemma FillStep(s: State, i: nat, k: nat)
    requires Inv(s) && Enabled(s, Fill(i, k))
    ensures Inv(Apply(s, Fill(i, k)))
  {
    var s' := Apply(s, Fill(i, k));
    assert CallerInv(s, i);
    FilledHolder(s, s', i, s.callers[i].serial, s.callers[i].buffer, k);
    forall j | 0 <= j < |s'.callers| ensures CallerInv(s', j) {
      if j != i { HistoryGrows(s, s', j); }
    }
  }

  /** When a frame has arrived it is the whole response: nothing is left in the connection or in the reader. */
  lemma WholeResponse(s: State, i: nat, serial: nat, buffer: seq<Byte>)
    requires Outstanding(s, i, serial, buffer) && FrameArrived(buffer)
    ensures |s.answers| == serial + 1 && s.toServer == [] && s.toClient == []
    ensures Understood(s.sent[serial].message, s.sent[serial].id)
    ensures var end := 4 + BE(buffer[..4]);
            && end == |buffer|
            && buffer[4..end] == Payload(s.sent[serial].id, s.answers[serial])
  {
    var payload := Payload(s.sent[serial].id, s.answers[serial]);
    var whole := LengthPrefixed(payload);
    assert buffer == (buffer + s.toClient)[..|buffer|];
    PrefixIncomplete(payload, |buffer|);
    assert whole[..|whole|] == whole;
    PrefixReadsBack(payload, []);
    assert whole + [] == whole;
  }

  lemma ReturnStep(s: State, i: nat)
    requires Inv(s) && Enabled(s, Return(i))
    ensures Inv(Apply(s, Return(i)))
  {
    var s' := Apply(s, Return(i));
    assert CallerInv(s, i);
    WholeResponse(s, i, s.callers[i].serial, s.callers[i].buffer);
    forall j | 0 <= j < |s'.callers| ensures CallerInv(s', j) {
      assert CallerInv(s, j);
    }
  }

  lemma StreamHolds(s: State)
    requires Inv(s) && s.toServer != []
    ensures |s.sent| == |s.answers| + 1
    ensures s.toServer == RequestBytes(s.sent[|s.answers|].message, s.sent[|s.answers|].id)
  {}

  /** The server finds at most the outstanding request before it, and answers it only if it understands it. */
  lemma ServerSees(s: State, answer: seq<Byte>)
    requires Inv(s) && Enabled(s, Respond(answer))
    ensures |s.sent| == |s.answers| + 1
    ensures var r := s.sent[|s.answers|];
            && Understood(r.message, r.id)
            && ParseRequest(s.toServer) == Some(Decoded(EnvelopeOf(r.message, r.id), []))
  {
    if s.toServer == [] {
      Silent(Heartbeat, 0, s.toServer);
    } else {
      StreamHolds(s);
      Heard(s.sent[|s.answers|].message, s.sent[|s.answers|].id, s.toServer);
    }
  }

  lemma RespondStep(s: State, answer: seq<Byte>)
    requires Inv(s) && Enabled(s, Respond(answer))
    ensures Inv(Apply(s, Respond(answer)))
  {
    var s' := Apply(s, Respond(answer));
    ServerSees(s, answer);
    forall j | 0 <= j < |s'.callers| ensures CallerInv(s', j) {
      HistoryGrows(s, s', j);
    }
    var response := Response(s.sent[|s.answers|].id, answer);
    assert [] + response == response;
    match s.callers[s.mutex.value] {
      case Reading(serial, buffer) => assert buffer == [] && s.toClient == [];
      case _ =>
    }
  }

  /** Every step of every caller and of the server keeps the invariant. */
  lemma StepKeepsInv(s: State, a: Action)
    requires Inv(s) && Enabled(s, a)
    ensures Inv(Apply(s, a))
  {
    match a {
      case ReadId(_) | ReadUid(_) | HeartbeatLoad(_) | HeartbeatStore(_) | NextCall(_, _) => OutsideStep(s, a);
      case Lock(i) => LockStep(s, i);
      case Write(i) => WriteStep(s, i);
      case LoadId(_) | StoreId(_) => CountStep(s, a);
      case Fill(i, k) => FillStep(s, i, k);
      case Return(i) => ReturnStep(s, i);
      case Respond(answer) => RespondStep(s, answer);
    }
  }

  // ---------------------------------------------------------------- runs

  /** The state after a list of actions, if each is enabled in its turn. */
  function Run(s: State, actions: seq<Action>): (end: Option<State>)
    decreases |actions|
  {
    if actions == [] then Some(s)
    else if Enabled(s, actions[0]) then Run(Apply(s, actions[0]), actions[1..])
    else None
  }

  lemma {:induction false} RunKeepsInv(s: State, actions: seq<Action>)
    requires Inv(s) && Run(s, actions).Some?
    ensures Inv(Run(s, actions).value)
    ensures |Run(s, actions).value.callers| == |s.callers|
    decreases |actions|
  {
    if actions != [] {
      StepKeepsInv(s, actions[0]);
      RunKeepsInv(Apply(s, actions[0]), actions[1..]);
    }
  }

  /** The id that a caller compares: heartbeats read it as an int8, operations as an int64. */
  function IdRead(message: Message, payload: seq<Byte>): (id: Option<int>) {
    match if message.Heartbeat? then DecodeInt8(payload) else DecodeInt64(payload)
    case None => None
    case Some(d) => Some(d.value)
  }

  lemma OwnIdPasses(message: Message, id: Int64, answer: seq<Byte>)
    requires Understood(message, id)
    ensures IdRead(message, Payload(id, answer)) == Some(id)
  {
    Int64ReadsBack(id, answer);
    Int8ReadsBack(id, answer);
    if message.Heartbeat? {
      WrapFits(id, 0x80);
    }
  }

  /** Against any other id than its own, a response is rejected. */
  lemma OtherIdFails(message: Message, id: Int64, answer: seq<Byte>, uid: Int64)
    requires Understood(message, id) && uid != id
    ensures Rejected(ResultOfPayload(message, Payload(id, answer), uid))
  {
    OwnIdPasses(message, id, answer);
  }

  /** Operations are checked against the id that they carry. */
  predicate SameIds(message: Message, id: Int64, uid: Int64) {
    message.Operation? ==> uid == id
  }

  predicate OperationsAgree(s: State) {
    && (forall k :: 0 <= k < |s.sent| ==> SameIds(s.sent[k].message, s.sent[k].id, s.sent[k].uid))
    && forall i :: 0 <= i < |s.callers| && (s.callers[i].Built? || s.callers[i].Locked?) ==>
         SameIds(s.callers[i].message, s.callers[i].id, s.callers[i].uid)
  }

  lemma StepKeepsAgreement(s: State, a: Action)
    requires OperationsAgree(s) && Enabled(s, a)
    ensures OperationsAgree(Apply(s, a))
  {}

  lemma {:induction false} RunKeepsAgreement(s: State, actions: seq<Action>)
    requires OperationsAgree(s) && Run(s, actions).Some?
    ensures OperationsAgree(Run(s, actions).value)
    decreases |actions|
  {
    if actions != [] {
      StepKeepsAgreement(s, actions[0]);
      RunKeepsAgreement(Apply(s, actions[0]), actions[1..]);
    }
  }

  /** What a finished call has in hand, and what its id check makes of it. */
  predicate Finished(s: State, i: nat)
    requires i < |s.callers| && s.callers[i].Done?
  {
    var c := s.callers[i];
    && OwnResponse(s, i, c.serial, c.payload, c.discarded)
    && var r := s.sent[c.serial];
       && (IdRead(r.message, c.payload) == Some(r.uid) <==> r.uid == r.id)
       && (r.message.Operation? ==> r.uid == r.id)
       && (r.uid != r.id ==> Rejected(ResultOfPayload(r.message, c.payload, r.uid)))
  }

  /**
   * Over every interleaving of operations and heartbeats: at most one request is unanswered or unread, a finished call
   * holds the response that the server made for its own request, and no reader discarded a byte. The id check of that
   * call passes if and only if the id it is checked against is the one that was sent, as it is for every operation; a
   * heartbeat for which another caller moved the counter in between rejects its own response.
   */
  lemma EveryCallGetsItsOwnResponse(s: State, actions: seq<Action>)
    requires Init(s) && Run(s, actions).Some?
    ensures var e := Run(s, actions).value;
            && |e.answers| <= |e.sent| <= |e.answers| + 1
            && (e.mutex.None? ==> Quiet(e))
            && forall i :: 0 <= i < |e.callers| && e.callers[i].Done? ==> Finished(e, i)
  {
    InitInv(s);
    RunKeepsInv(s, actions);
    RunKeepsAgreement(s, actions);
    var e := Run(s, actions).value;
    forall i | 0 <= i < |e.callers| && e.callers[i].Done? ensures Finished(e, i) {
      assert CallerInv(e, i);
      var k := e.callers[i].serial;
      var r := e.sent[k];
      OwnIdPasses(r.message, r.id, e.answers[k]);
      if r.uid != r.id {
        OtherIdFails(r.message, r.id, e.answers[k], r.uid);
      }
    }
  }

  // ---------------------------------------------------------------- the second read

  predicate MovesCounter(a: Action) {
    a.HeartbeatStore? || a.StoreId?
  }

  /** Between the stores of callers the counter stands still. */
  lemma {:induction false} CounterStands(s: State, actions: seq<Action>)
    requires Run(s, actions).Some? && forall k :: 0 <= k < |actions| ==> !MovesCounter(actions[k])
    ensures Run(s, actions).value.requestId == s.requestId
    decreases |actions|
  {
    if actions != [] {
      CounterStands(Apply(s, actions[0]), actions[1..]);
    }
  }

  /** Nothing but a caller's own actions moves it from phase to phase. */
  lemma {:induction false} CallerStands(s: State, actions: seq<Action>, i: nat)
    requires Run(s, actions).Some? && i < |s.callers|
    requires forall k :: 0 <= k < |actions| ==> actions[k].Respond? || actions[k].i != i
    ensures i < |Run(s, actions).value.callers| && Run(s, actions).value.callers[i] == s.callers[i]
    decreases |actions|
  {
    if actions != [] {
      CallerStands(Apply(s, actions[0]), actions[1..], i);
    }
  }

  /** A heartbeat is checked against the id it sends if no store of another caller comes between its two reads. */
  lemma SecondReadAgrees(s: State, i: nat, actions: seq<Action>)
    requires Enabled(s, ReadId(i)) && s.callers[i].message.Heartbeat?
    requires Run(Apply(s, ReadId(i)), actions).Some?
    requires forall k :: 0 <= k < |actions| ==> !MovesCounter(actions[k])
    requires forall k :: 0 <= k < |actions| ==> actions[k].Respond? || actions[k].i != i
    ensures var e := Run(Apply(s, ReadId(i)), actions).value;
            Enabled(e, ReadUid(i)) && Apply(e, ReadUid(i)).callers[i] == HeartbeatBuilt(s.requestId, s.requestId)
  {
    CounterStands(Apply(s, ReadId(i)), actions);
    CallerStands(Apply(s, ReadId(i)), actions, i);
  }

  /** A caller that has the connection to itself always agrees with itself. */
  predicate Sole(s: State) {
    && |s.callers| == 1
    && (forall k :: 0 <= k < |s.sent| ==> s.sent[k].uid == s.sent[k].id)
    && match s.callers[0]
       case HeartbeatNamed(id) => id == s.requestId
       case HeartbeatBuilt(id, uid) => uid == id
       case HeartbeatLoaded(id, uid, _) => uid == id
       case Built(_, id, uid) => uid == id
       case Locked(_, id, uid) => uid == id
       case _ => true
  }

  lemma SoleStep(s: State, a: Action)
    requires Sole(s) && Enabled(s, a)
    ensures Sole(Apply(s, a))
  {}

  lemma {:induction false} SoleRun(s: State, actions: seq<Action>)
    requires Sole(s) && Run(s, actions).Some?
    ensures Sole(Run(s, actions).value)
    decreases |actions|
  {
    if actions != [] {
      SoleStep(s, actions[0]);
      SoleRun(Apply(s, actions[0]), actions[1..]);
    }
  }

  /** So its finished call, heartbeat or operation, passes the id check. */
  lemma SoleCallerPasses(s: State, actions: seq<Action>)
    requires Init(s) && |s.callers| == 1 && Run(s, actions).Some?
    requires Run(s, actions).value.callers != [] && Run(s, actions).value.callers[0].Done?
    ensures var e := Run(s, actions).value;
            var c := e.callers[0];
            c.serial < |e.sent| && IdRead(e.sent[c.serial].message, c.payload) == Some(e.sent[c.serial].uid)
  {
    EveryCallGetsItsOwnResponse(s, actions);
    SoleRun(s, actions);
    assert Finished(Run(s, actions).value, 0);
  }

  /** The request id is read before the lock is taken, so two calls may well carry the same one. */
  lemma IdsCoincide(s: State)
    requires Init(s) && |s.callers| >= 2
    requires !s.callers[0].message.Heartbeat? && !s.callers[1].message.Heartbeat?
    ensures var e := Run(s, [ReadId(0), ReadId(1)]);
            && e.Some?
            && e.value.callers[0].Built? && e.value.callers[1].Built?
            && e.value.callers[0].id == e.value.callers[1].id
  {
    var s1 := Apply(s, ReadId(0));
    assert [ReadId(0), ReadId(1)][1..] == [ReadId(1)] && [ReadId(1)][1..] == [];
    assert Run(s1, [ReadId(1)]) == Some(Apply(s1, ReadId(1)));
  }

  /** Mutual exclusion: two callers are never both between locking and returning. */
  lemma MutualExclusion(s: State, actions: seq<Action>, i: nat, j: nat)
    requires Init(s) && Run(s, actions).Some?
    requires i < |Run(s, actions).value.callers| && j < |Run(s, actions).value.callers|
    requires Run(s, actions).value.callers[i].Critical() && Run(s, actions).value.callers[j].Critical()
    ensures i == j
  {
    InitInv(s);
    RunKeepsInv(s, actions);
    var e := Run(s, actions).value;
    assert CallerInv(e, i) && CallerInv(e, j);
  }

  // ---------------------------------------------------------------- progress

  /** What the holder of the mutex is waiting for. */
  function NextAction(s: State, answer: seq<Byte>): (a: Action)
    requires s.mutex.Some? && HolderInv(s, s.mutex.value)
  {
    var h := s.mutex.value;
    match s.callers[h]
    case Locked(_, _, _) => Write(h)
    case Written(_) => LoadId(h)
    case Loaded(_, _) => StoreId(h)
    case Reading(serial, buffer) =>
      if |s.answers| == serial then Respond(answer)
      else if FrameArrived(buffer) then Return(h)
      else Fill(h, |s.toClient|)
  }

  /** Steps left until the lock is released, if the holder and the server keep going. */
  function StepsLeft(s: State): (n: nat)
    requires s.mutex.Some? && HolderInv(s, s.mutex.value)
  {
    match s.callers[s.mutex.value]
    case Locked(_, _, _) => 6
    case Written(_) => 5
    case Loaded(_, _) => 4
    case Reading(serial, buffer) =>
      if |s.answers| == serial then 3 else if FrameArrived(buffer) then 1 else 2
  }

  function HolderRequest(s: State): (r: Request)
    requires s.mutex.Some? && HolderInv(s, s.mutex.value)
  {
    match s.callers[s.mutex.value]
    case Locked(message, id, uid) => Request(s.mutex.value, message, id, uid)
    case _ => s.sent[|s.sent| - 1]
  }

  /** Whether the server can make anything of the request that the holder of the mutex is about to write or wrote. */
  predicate HolderUnderstood(s: State)
    requires s.mutex.Some? && HolderInv(s, s.mutex.value)
  {
    Understood(HolderRequest(s).message, HolderRequest(s).id)
  }

  /** A request that is understood can be answered. */
  lemma ServerCanAnswer(s: State, h: nat, answer: seq<Byte>)
    requires HolderInv(s, h) && s.callers[h].Reading? && |s.answers| == s.callers[h].serial
    requires Understood(s.sent[s.callers[h].serial].message, s.sent[s.callers[h].serial].id)
    requires |answer| <= MAX_INT32 - 9
    ensures Enabled(s, Respond(answer))
  {
    var r := s.sent[s.callers[h].serial];
    EncodedIntBound(r.id);
    MessageAlone(r.message, r.id);
  }

  lemma ReadingAdvances(s: State, h: nat)
    requires HolderInv(s, h) && s.callers[h].Reading? && !FrameArrived(s.callers[h].buffer)
    requires |s.answers| == s.callers[h].serial + 1
    ensures |s.toClient| > 0 && FrameArrived(s.callers[h].buffer + s.toClient[..|s.toClient|])
  {
    var serial, buffer := s.callers[h].serial, s.callers[h].buffer;
    var payload := Payload(s.sent[serial].id, s.answers[serial]);
    PrefixIncomplete(payload, |LengthPrefixed(payload)|);
    assert LengthPrefixed(payload)[..|LengthPrefixed(payload)|] == LengthPrefixed(payload);
    assert s.toClient[..|s.toClient|] == s.toClient;
    assert buffer + [] == buffer;
  }

  lemma HolderEnabled(s: State, answer: seq<Byte>)
    requires Inv(s) && s.mutex.Some? && HolderUnderstood(s) && |answer| <= MAX_INT32 - 9
    ensures Enabled(s, NextAction(s, answer))
  {
    var h := s.mutex.value;
    match s.callers[h] {
      case Reading(serial, buffer) =>
        if |s.answers| == serial {
          ServerCanAnswer(s, h, answer);
        } else if !FrameArrived(buffer) {
          ReadingAdvances(s, h);
        }
      case _ =>
    }
  }

  /** Writing the request keeps it the holder's request. */
  lemma WrittenAdvances(s: State, h: nat)
    requires s.mutex == Some(h) && HolderInv(s, h) && HolderUnderstood(s) && s.callers[h].Locked?
    requires HolderInv(Apply(s, Write(h)), h)
    ensures var s' := Apply(s, Write(h));
            s'.mutex == Some(h) && HolderUnderstood(s') && StepsLeft(s') == 5
  {
    assert Apply(s, Write(h)).sent[|s.sent|] == HolderRequest(s);
  }

  /** A holder that has not reached its reader comes one step nearer to it. */
  lemma WriterAdvances(s: State, h: nat, answer: seq<Byte>)
    requires s.mutex == Some(h) && HolderInv(s, h) && HolderUnderstood(s) && !s.callers[h].Reading?
    requires Enabled(s, NextAction(s, answer)) && HolderInv(Apply(s, NextAction(s, answer)), h)
    ensures var s' := Apply(s, NextAction(s, answer));
            s'.mutex == Some(h) && HolderUnderstood(s') && StepsLeft(s') < StepsLeft(s)
  {
    if s.callers[h].Locked? {
      WrittenAdvances(s, h);
    }
  }

  /** One that waits gets its response; one whose response is there takes it, and then returns. */
  lemma ReaderAdvances(s: State, h: nat, answer: seq<Byte>)
    requires s.mutex == Some(h) && HolderInv(s, h) && HolderUnderstood(s) && s.callers[h].Reading?
    requires Enabled(s, NextAction(s, answer))
    requires !NextAction(s, answer).Return? ==> HolderInv(Apply(s, NextAction(s, answer)), h)
    ensures var s' := Apply(s, NextAction(s, answer));
            if NextAction(s, answer).Return? then s'.mutex == None
            else s'.mutex == Some(h) && HolderUnderstood(s') && StepsLeft(s') < StepsLeft(s)
  {
    if |s.answers| == s.callers[h].serial + 1 && !FrameArrived(s.callers[h].buffer) {
      ReadingAdvances(s, h);
    }
  }

  /** A holder whose request is understood is never stuck, and each step brings the release of the lock nearer. */
  lemma HolderAdvances(s: State, answer: seq<Byte>)
    requires Inv(s) && s.mutex.Some? && HolderUnderstood(s) && |answer| <= MAX_INT32 - 9
    ensures Enabled(s, NextAction(s, answer))
    ensures var s' := Apply(s, NextAction(s, answer));
            s'.mutex.Some? ==> Inv(s') && HolderUnderstood(s') && StepsLeft(s') < StepsLeft(s)
  {
    HolderEnabled(s, answer);
    StepKeepsInv(s, NextAction(s, answer));
    if s.callers[s.mutex.value].Reading? {
      ReaderAdvances(s, s.mutex.value, answer);
    } else {
      WriterAdvances(s, s.mutex.value, answer);
    }
  }

  /** The histories when the holder's call has finished, if the server still has to give this answer. */
  function SentInEnd(s: State): (sent: seq<Request>)
    requires s.mutex.Some? && HolderInv(s, s.mutex.value)
  {
    if s.callers[s.mutex.value].Locked? then s.sent + [HolderRequest(s)] else s.sent
  }

  function AnswersInEnd(s: State, answer: seq<Byte>): (answers: seq<seq<Byte>>)
    requires s.mutex.Some? && HolderInv(s, s.mutex.value)
  {
    if |s.answers| == |SentInEnd(s)| then s.answers else s.answers + [answer]
  }

  function CounterInEnd(s: State): (n: Int64)
    requires s.mutex.Some? && HolderInv(s, s.mutex.value)
  {
    match s.callers[s.mutex.value]
    case Loaded(_, seen) => Increment(seen)
    case Reading(_, _) => s.requestId
    case _ => Increment(s.requestId)
  }

  /** The holder's steps lead to that end. */
  lemma TowardsEnd(s: State, h: nat, answer: seq<Byte>)
    requires s.mutex == Some(h) && HolderInv(s, h) && Enabled(s, NextAction(s, answer))
    requires Apply(s, NextAction(s, answer)).mutex == Some(h) ==> HolderInv(Apply(s, NextAction(s, answer)), h)
    ensures var e := Apply(s, NextAction(s, answer));
            if e.mutex == Some(h) then
              && SentInEnd(e) == SentInEnd(s) && AnswersInEnd(e, answer) == AnswersInEnd(s, answer)
              && CounterInEnd(e) == CounterInEnd(s)
            else
              && e.sent == SentInEnd(s) && e.answers == AnswersInEnd(s, answer) && e.requestId == CounterInEnd(s)
              && e.callers[h].Done? && e.callers[h].serial == |e.sent| - 1
  {
    if s.callers[h].Reading? && FrameArrived(s.callers[h].buffer) {
      WholeResponse(s, h, s.callers[h].serial, s.callers[h].buffer);
    }
  }

  lemma RunFront(s: State, a: Action, rest: seq<Action>)
    requires Enabled(s, a)
    ensures Run(s, [a] + rest) == Run(Apply(s, a), rest) && [a] + [] == [a]
  {
    assert ([a] + rest)[1..] == rest;
  }

  /**
   * The holder of a request that is understood and the server can finish the call in at most six steps, whatever the
   * server answers.
   */
  lemma {:induction false} LockIsReleased(s: State, answer: seq<Byte>) returns (actions: seq<Action>)
    requires Inv(s) && s.mutex.Some? && HolderUnderstood(s) && |answer| <= MAX_INT32 - 9
    ensures Run(s, actions).Some? && |actions| <= StepsLeft(s) <= 6
    ensures var e := Run(s, actions).value;
            && e.mutex.None? && |e.callers| == |s.callers| && e.callers[s.mutex.value].Done?
            && e.sent == SentInEnd(s) && e.answers == AnswersInEnd(s, answer) && e.requestId == CounterInEnd(s)
            && e.callers[s.mutex.value].serial == |e.sent| - 1
    decreases StepsLeft(s)
  {
    HolderAdvances(s, answer);
    TowardsEnd(s, s.mutex.value, answer);
    var a := NextAction(s, answer);
    var s' := Apply(s, a);
    if s'.mutex.None? {
      RunFront(s, a, []);
      actions := [a];
    } else {
      var rest := LockIsReleased(s', answer);
      RunFront(s, a, rest);
      actions := [a] + rest;
    }
  }

  // ---------------------------------------------------------------- hanging

  predicate Doomed(s: State) {
    s.mutex.Some? && HolderInv(s, s.mutex.value) && !HolderUnderstood(s)
  }

  lemma DoomedStream(s: State, r: Request)
    requires Doomed(s) && r == HolderRequest(s)
    ensures !Understood(r.message, r.id)
    ensures s.toServer == [] || s.toServer == RequestBytes(r.message, r.id)
  {
    match s.callers[s.mutex.value] {
      case Locked(_, _, _) =>
      case Written(serial) => assert r == s.sent[serial];
      case Loaded(serial, _) => assert r == s.sent[serial];
      case Reading(serial, _) => assert r == s.sent[serial];
    }
  }

  lemma SilentServer(s: State, r: Request, answer: seq<Byte>)
    requires s.toServer == [] || (s.toServer == RequestBytes(r.message, r.id) && !Understood(r.message, r.id))
    ensures !Enabled(s, Respond(answer))
  {
    Silent(r.message, r.id, s.toServer);
  }

  /** The server makes nothing of the bytes before it. */
  lemma NothingAnswered(s: State, answer: seq<Byte>)
    requires Doomed(s)
    ensures !Enabled(s, Respond(answer))
  {
    var r := HolderRequest(s);
    DoomedStream(s, r);
    SilentServer(s, r, answer);
  }

  /** So the reader has no frame to return. */
  lemma NothingReturned(s: State, h: nat)
    requires Doomed(s) && s.mutex == Some(h)
    ensures !Enabled(s, Return(h))
  {}

  /** A step of another caller leaves the doomed one where it is. */
  lemma OthersWait(s: State, a: Action)
    requires Inv(s) && Doomed(s) && Enabled(s, a)
    requires !a.Respond? && a.i != s.mutex.value
    ensures Apply(s, a).sent == s.sent && Apply(s, a).mutex == s.mutex && Apply(s, a).answers == s.answers
    ensures Apply(s, a).callers[s.mutex.value] == s.callers[s.mutex.value]
  {
    assert CallerInv(s, a.i);
  }

  lemma StillDoomed(s: State, s': State, h: nat)
    requires Doomed(s) && s.mutex == s'.mutex == Some(h) && HolderInv(s', h)
    requires s'.sent == s.sent && s'.callers[h] == s.callers[h]
    ensures Doomed(s')
  {}

  lemma WriteStaysDoomed(s: State, h: nat)
    requires Doomed(s) && s.mutex == Some(h) && Enabled(s, Write(h)) && HolderInv(Apply(s, Write(h)), h)
    ensures Doomed(Apply(s, Write(h)))
  {
    assert Apply(s, Write(h)).sent[|s.sent|] == HolderRequest(s);
  }

  lemma WaitingStaysDoomed(s: State, s': State, h: nat)
    requires Doomed(s) && s.mutex == s'.mutex == Some(h) && !s.callers[h].Locked? && HolderInv(s', h)
    requires s'.sent == s.sent && !s'.callers[h].Locked?
    ensures Doomed(s')
  {}

  /** The doomed caller's own steps bring it to its reader, and no further. */
  lemma HolderGoesOn(s: State, a: Action, h: nat)
    requires Doomed(s) && s.mutex == Some(h) && Enabled(s, a)
    requires (a == Write(h) || a == LoadId(h) || a == StoreId(h) || a.Fill?) && a.i == h
    requires HolderInv(Apply(s, a), h)
    ensures Doomed(Apply(s, a)) && Apply(s, a).mutex == s.mutex && Apply(s, a).answers == s.answers
  {
    if a.Write? {
      WriteStaysDoomed(s, h);
    } else {
      WaitingStaysDoomed(s, Apply(s, a), h);
    }
  }

  lemma DoomedStep(s: State, a: Action)
    requires Inv(s) && Doomed(s) && Enabled(s, a)
    ensures Doomed(Apply(s, a)) && Apply(s, a).mutex == s.mutex && Apply(s, a).answers == s.answers
  {
    StepKeepsInv(s, a);
    if a.Respond? {
      NothingAnswered(s, a.answer);
    } else if a.i != s.mutex.value {
      OthersWait(s, a);
      StillDoomed(s, Apply(s, a), s.mutex.value);
    } else {
      NothingReturned(s, a.i);
      HolderGoesOn(s, a, a.i);
    }
  }

  /** Once the holder's request cannot be understood, the lock is never released and no call ever finishes again. */
  lemma {:induction false} DoomedForever(s: State, actions: seq<Action>)
    requires Inv(s) && Doomed(s) && Run(s, actions).Some?
    ensures var e := Run(s, actions).value;
            Doomed(e) && e.mutex == s.mutex && e.answers == s.answers
    decreases |actions|
  {
    if actions != [] {
      DoomedStep(s, actions[0]);
      StepKeepsInv(s, actions[0]);
      DoomedForever(Apply(s, actions[0]), actions[1..]);
    }
  }

  /** The lock can still be released if and only if the server understands the holder's request. */
  lemma ReleaseExact(s: State)
    requires Inv(s) && s.mutex.Some?
    ensures (exists actions :: Run(s, actions).Some? && Run(s, actions).value.mutex.None?) <==> HolderUnderstood(s)
  {
    if HolderUnderstood(s) {
      var actions := LockIsReleased(s, []);
    } else {
      forall actions | Run(s, actions).Some? ensures Run(s, actions).value.mutex.Some? {
        DoomedForever(s, actions);
      }
    }
  }

  // ---------------------------------------------------------------- the counter

  /** How many increments a run stores, those of heartbeats outside the lock included. */
  function Stores(actions: seq<Action>): (n: nat)
    ensures n <= |actions|
  {
    if actions == [] then 0 else (if MovesCounter(actions[0]) then 1 else 0) + Stores(actions[1..])
  }

  predicate IdsIncrease(sent: seq<Request>) {
    forall i, j :: 0 <= i < j < |sent| ==> sent[i].id < sent[j].id
  }

  predicate SentBelow(sent: seq<Request>, bound: int) {
    forall k :: 0 <= k < |sent| ==> sent[k].id < bound
  }

  /** A caller on its own: what it has read is what stands, and every id it sent lies below the next it will. */
  predicate SoleCount(s: State) {
    && |s.callers| == 1 && IdsIncrease(s.sent)
    && match s.callers[0]
       case HeartbeatNamed(id) => id == s.requestId && SentBelow(s.sent, id)
       case HeartbeatBuilt(id, _) => id == s.requestId && SentBelow(s.sent, id)
       case HeartbeatLoaded(id, _, seen) => id == seen == s.requestId && SentBelow(s.sent, id)
       case Built(_, id, _) => id <= s.requestId && SentBelow(s.sent, id)
       case Locked(_, id, _) => id <= s.requestId && SentBelow(s.sent, id)
       case Written(_) => SentBelow(s.sent, s.requestId as int + 1)
       case Loaded(_, seen) => seen == s.requestId && SentBelow(s.sent, s.requestId as int + 1)
       case _ => SentBelow(s.sent, s.requestId)
  }

  /** No increment wraps. */
  lemma Incremented(n: Int64)
    requires n + 1 < 0x8000_0000_0000_0000
    ensures Increment(n) == n + 1
  {
    WrapFits(n + 1, 0x8000_0000_0000_0000);
  }

  lemma SoleWrites(s: State)
    requires SoleCount(s) && Enabled(s, Write(0))
    ensures SoleCount(Apply(s, Write(0))) && Apply(s, Write(0)).requestId == s.requestId
  {}

  lemma SoleStores(s: State, a: Action)
    requires SoleCount(s) && Enabled(s, a) && MovesCounter(a) && s.requestId + 1 < 0x8000_0000_0000_0000
    ensures SoleCount(Apply(s, a)) && Apply(s, a).requestId == s.requestId + 1
  {
    Incremented(s.requestId);
  }

  lemma SoleCounts(s: State, a: Action)
    requires SoleCount(s) && Enabled(s, a) && s.requestId + 1 < 0x8000_0000_0000_0000
    ensures SoleCount(Apply(s, a))
    ensures Apply(s, a).requestId == s.requestId + if MovesCounter(a) then 1 else 0
  {
    if a.Write? {
      SoleWrites(s);
    } else if MovesCounter(a) {
      SoleStores(s, a);
    }
  }

  lemma {:induction false} SoleCountsRun(s: State, actions: seq<Action>)
    requires SoleCount(s) && Run(s, actions).Some? && s.requestId + Stores(actions) < 0x7fff_ffff_ffff_ffff
    ensures SoleCount(Run(s, actions).value)
    ensures Run(s, actions).value.requestId == s.requestId + Stores(actions)
    decreases |actions|
  {
    if actions != [] {
      SoleCounts(s, actions[0]);
      SoleCountsRun(Apply(s, actions[0]), actions[1..]);
    }
  }

  /**
   * A caller that has the connection to itself counts every increment that it stores, one for an operation and two for
   * a heartbeat, and no two of its requests carry the same id: they strictly increase.
   */
  lemma SoleCallerCounts(s: State, actions: seq<Action>)
    requires Init(s) && |s.callers| == 1 && Run(s, actions).Some?
    requires s.requestId + Stores(actions) < 0x7fff_ffff_ffff_ffff
    ensures var e := Run(s, actions).value;
            && e.requestId == s.requestId + Stores(actions)
            && forall i, j :: 0 <= i < j < |e.sent| ==> e.sent[i].id < e.sent[j].id
  {
    SoleCountsRun(s, actions);
  }

  /** Of several callers, each that is about to store has seen the counter between low and high. */
  predicate SeenWithin(s: State, low: int, high: int) {
    && low <= s.requestId <= high
    && forall i :: 0 <= i < |s.callers| ==>
         match s.callers[i]
         case HeartbeatLoaded(_, _, seen) => low <= seen <= high
         case Loaded(_, seen) => low <= seen <= high
         case _ => true
  }

  lemma CountsWithin(s: State, a: Action, low: int, high: int)
    requires SeenWithin(s, low, high) && Enabled(s, a) && high + 1 < 0x8000_0000_0000_0000
    ensures SeenWithin(Apply(s, a), low, high + if MovesCounter(a) then 1 else 0)
    ensures MovesCounter(a) ==> Apply(s, a).requestId > low
  {
    if a.StoreId? || a.HeartbeatStore? {
      Incremented(s.callers[a.i].seen);
    }
  }

  lemma {:induction false} CountsWithinRun(s: State, actions: seq<Action>, low: int, high: int)
    requires SeenWithin(s, low, high) && Run(s, actions).Some? && high + Stores(actions) < 0x7fff_ffff_ffff_ffff
    ensures SeenWithin(Run(s, actions).value, low, high + Stores(actions))
    ensures Stores(actions) > 0 || s.requestId > low ==> Run(s, actions).value.requestId > low
    decreases |actions|
  {
    if actions != [] {
      CountsWithin(s, actions[0], low, high);
      CountsWithinRun(Apply(s, actions[0]), actions[1..], low, high + if MovesCounter(actions[0]) then 1 else 0);
    }
  }

  /** Of several callers together: increments may be lost, but the counter never goes beyond them, nor back to start. */
  lemma CounterBounds(s: State, actions: seq<Action>)
    requires Init(s) && Run(s, actions).Some? && s.requestId + Stores(actions) < 0x7fff_ffff_ffff_ffff
    ensures var e := Run(s, actions).value;
            && s.requestId <= e.requestId <= s.requestId + Stores(actions)
            && (Stores(actions) > 0 ==> e.requestId > s.requestId)
  {
    CountsWithinRun(s, actions, s.requestId, s.requestId);
  }

  /** A load and a store of one caller with no other store in between move the counter by exactly one. */
  lemma UndisturbedIncrement(s: State, load: Action, actions: seq<Action>, store: Action)
    requires load.LoadId? || load.HeartbeatLoad?
    requires Enabled(s, load) && store == if load.LoadId? then StoreId(load.i) else HeartbeatStore(load.i)
    requires Run(Apply(s, load), actions).Some? && s.requestId + 1 < 0x8000_0000_0000_0000
    requires forall k :: 0 <= k < |actions| ==> !MovesCounter(actions[k])
    requires forall k :: 0 <= k < |actions| ==> actions[k].Respond? || actions[k].i != load.i
    ensures var m := Run(Apply(s, load), actions).value;
            && Enabled(m, store) && m.requestId == s.requestId
            && Apply(m, store).requestId == s.requestId + 1
  {
    CounterStands(Apply(s, load), actions);
    CallerStands(Apply(s, load), actions, load.i);
    Incremented(s.requestId);
  }

  /** A step at the end of a run. */
  lemma {:induction false} RunStep(s: State, actions: seq<Action>, a: Action)
    requires Run(s, actions).Some? && Enabled(Run(s, actions).value, a)
    ensures Run(s, actions + [a]) == Some(Apply(Run(s, actions).value, a))
    decreases |actions|
  {
    if actions == [] {
      assert ([] + [a])[1..] == [];
    } else {
      assert (actions + [a])[1..] == actions[1..] + [a];
      RunStep(Apply(s, actions[0]), actions[1..], a);
    }
  }

  lemma {:induction false} RunAppend(s: State, first: seq<Action>, second: seq<Action>)
    requires Run(s, first).Some?
    ensures Run(s, first + second) == Run(Run(s, first).value, second)
    decreases |first|
  {
    if first == [] {
      assert [] + second == second;
    } else {
      assert (first + second)[1..] == first[1..] + second;
      RunAppend(Apply(s, first[0]), first[1..], second);
    }
  }

  /** A heartbeat on its own up to the lock. */
  lemma OneHeartbeat(s: State)
    requires Init(s) && |s.callers| > 0 && s.callers[0] == Idle(Heartbeat)
    ensures var e := Run(s, [ReadId(0), ReadUid(0), HeartbeatLoad(0), HeartbeatStore(0)]);
            && e.Some? && |e.value.callers| == |s.callers| && e.value.mutex == None
            && e.value.callers[0] == Built(Heartbeat, s.requestId, s.requestId)
  {
    RunStep(s, [], ReadId(0));
    RunStep(s, [ReadId(0)], ReadUid(0));
    RunStep(s, [ReadId(0), ReadUid(0)], HeartbeatLoad(0));
    RunStep(s, [ReadId(0), ReadUid(0), HeartbeatLoad(0)], HeartbeatStore(0));
  }

  /** It happens: a heartbeat that finds the counter past 127 takes the lock for good. */
  lemma LateHeartbeatHangs(s: State)
    requires Init(s) && |s.callers| > 0 && s.callers[0] == Idle(Heartbeat) && s.requestId >= 0x80
    ensures var e := Run(s, [ReadId(0), ReadUid(0), HeartbeatLoad(0), HeartbeatStore(0), Lock(0)]);
            e.Some? && Inv(e.value) && Doomed(e.value)
  {
    OneHeartbeat(s);
    RunStep(s, [ReadId(0), ReadUid(0), HeartbeatLoad(0), HeartbeatStore(0)], Lock(0));
    InitInv(s);
    RunKeepsInv(s, [ReadId(0), ReadUid(0), HeartbeatLoad(0), HeartbeatStore(0), Lock(0)]);
  }

  // ---------------------------------------------------------------- a heartbeat that rejects its own response

  /** Caller 1 stores its increment between the two reads of caller 0, which then takes the lock. */
  lemma ReadsApart(s: State) returns (actions: seq<Action>)
    requires Init(s) && |s.callers| >= 2 && s.callers[0] == Idle(Heartbeat) && s.callers[1] == Idle(Heartbeat)
    ensures Run(s, actions).Some?
    ensures var e := Run(s, actions).value;
            && e.callers != [] && e.callers[0] == Locked(Heartbeat, s.requestId, Increment(s.requestId))
            && e.mutex == Some(0) && e.sent == [] && e.answers == []
  {
    var a1 := [ReadId(0), ReadId(1)];
    RunStep(s, [], ReadId(0));
    RunStep(s, [ReadId(0)], ReadId(1));
    assert [ReadId(0)] + [ReadId(1)] == a1;
    RunStep(s, a1, ReadUid(1));
    var a2 := a1 + [ReadUid(1)];
    RunStep(s, a2, HeartbeatLoad(1));
    var a3 := a2 + [HeartbeatLoad(1)];
    RunStep(s, a3, HeartbeatStore(1));
    var a4 := a3 + [HeartbeatStore(1)];
    RunStep(s, a4, ReadUid(0));
    var a5 := a4 + [ReadUid(0)];
    RunStep(s, a5, HeartbeatLoad(0));
    var a6 := a5 + [HeartbeatLoad(0)];
    RunStep(s, a6, HeartbeatStore(0));
    var a7 := a6 + [HeartbeatStore(0)];
    RunStep(s, a7, Lock(0));
    actions := a7 + [Lock(0)];
  }

  lemma HealthyAnswer()
    ensures DecodeInt8([0, 0]) == Some(Decoded(0, [0])) && DecodeInt64([0]) == Some(Decoded(0, []))
  {
    assert EncodeInt(0) == [0] && [0] + [0] == [0, 0] && [0] + [] == [0];
    Int8ReadsBack(0, [0]);
    WrapFits(0, 0x80);
    Int64ReadsBack(0, []);
  }

  /** The answer of a healthy server to a heartbeat: status 0, then a number. */
  lemma HealthyHeartbeat(id: Int64, uid: Int64)
    requires -0x20 <= id < 0x80
    ensures HeartbeatResult(Payload(id, [0, 0]), uid) == if uid == id then Ok([]) else Err(RequestIdMismatch)
  {
    var payload := Payload(id, [0, 0]);
    Int8ReadsBack(id, [0, 0]);
    WrapFits(id, 0x80);
    HealthyAnswer();
    HeartbeatOf(payload, uid, Decoded(id, [0, 0]), Decoded(0, [0]), Decoded(0, []));
  }

  /** The call then finishes: one request was sent, and the healthy answer to it was given. */
  lemma FinishedApart(s: State) returns (actions: seq<Action>)
    requires Init(s) && |s.callers| >= 2 && s.callers[0] == Idle(Heartbeat) && s.callers[1] == Idle(Heartbeat)
    requires -0x20 <= s.requestId < 0x80
    ensures Run(s, actions).Some?
    ensures var e := Run(s, actions).value;
            && e.callers != [] && e.callers[0].Done? && e.callers[0].serial == 0
            && e.sent == [Request(0, Heartbeat, s.requestId, Increment(s.requestId))] && e.answers == [[0, 0]]
  {
    var first := ReadsApart(s);
    var m := Run(s, first).value;
    InitInv(s);
    RunKeepsInv(s, first);
    var second := LockIsReleased(m, [0, 0]);
    RunAppend(s, first, second);
    actions := first + second;
  }

  lemma OwnRejected(e: State, id: Int64)
    requires -0x20 <= id < 0x80
    requires e.callers != [] && e.callers[0].Done? && e.callers[0].serial == 0
    requires e.sent == [Request(0, Heartbeat, id, id + 1)] && e.answers == [[0, 0]] && Finished(e, 0)
    ensures ResultOfPayload(Heartbeat, e.callers[0].payload, id) == Ok([])
    ensures ResultOfPayload(Heartbeat, e.callers[0].payload, id + 1) == Err(RequestIdMismatch)
  {
    HealthyHeartbeat(id, id);
    HealthyHeartbeat(id, id + 1);
  }

  /**
   * Two heartbeats at a time can do this: one finishes with the healthy response that the server made for it, and
   * rejects it, because the id it compares with is the one after the id it sent.
   */
  lemma HeartbeatRejectsOwnResponse(s: State) returns (actions: seq<Action>)
    requires Init(s) && |s.callers| >= 2 && s.callers[0] == Idle(Heartbeat) && s.callers[1] == Idle(Heartbeat)
    requires -0x20 <= s.requestId < 0x80
    ensures Run(s, actions).Some?
    ensures var e := Run(s, actions).value;
            && e.callers != [] && e.callers[0].Done? && Finished(e, 0)
            && e.sent == [Request(0, Heartbeat, s.requestId, s.requestId + 1)] && e.callers[0].serial == 0
            && ResultOfPayload(Heartbeat, e.callers[0].payload, s.requestId) == Ok([])
            && ResultOfPayload(Heartbeat, e.callers[0].payload, s.requestId + 1) == Err(RequestIdMismatch)
  {
    actions := FinishedApart(s);
    WrapFits(s.requestId + 1, 0x8000_0000_0000_0000);
    EveryCallGetsItsOwnResponse(s, actions);
    OwnRejected(Run(s, actions).value, s.requestId);
  }

  // ---------------------------------------------------------------- calls complete

  /** The steps of a caller up to the lock, with nobody in its way. */
  lemma TakesLock(s: State, i: nat) returns (actions: seq<Action>)
    requires Inv(s) && s.mutex.None? && i < |s.callers| && s.callers[i].Idle?
    requires s.requestId + 2 < 0x8000_0000_0000_0000
    ensures Run(s, actions).Some?
    ensures var m := s.callers[i].message;
            var e := Run(s, actions).value;
            && |e.callers| == |s.callers| && e.callers[i] == Locked(m, s.requestId, s.requestId) && e.mutex == Some(i)
            && e.sent == s.sent && e.answers == s.answers
            && e.requestId == s.requestId + if m.Heartbeat? then 1 else 0
  {
    Incremented(s.requestId);
    if s.callers[i].message.Heartbeat? {
      var a1 := [ReadId(i)];
      RunStep(s, [], ReadId(i));
      RunStep(s, a1, ReadUid(i));
      var a2 := a1 + [ReadUid(i)];
      RunStep(s, a2, HeartbeatLoad(i));
      var a3 := a2 + [HeartbeatLoad(i)];
      RunStep(s, a3, HeartbeatStore(i));
      var a4 := a3 + [HeartbeatStore(i)];
      RunStep(s, a4, Lock(i));
      actions := a4 + [Lock(i)];
    } else {
      RunStep(s, [], ReadId(i));
      RunStep(s, [ReadId(i)], Lock(i));
      actions := [ReadId(i)] + [Lock(i)];
    }
  }

  /**
   * Whenever the lock is free, an idle caller whose request the server would understand can finish its call: its
   * request carries the counter as id, it gets whatever the server answers to it, and the counter moves up by one, or
   * by two for a heartbeat. Then it can go on to its next call.
   */
  lemma CallCompletes(s: State, i: nat, answer: seq<Byte>) returns (actions: seq<Action>)
    requires Inv(s) && s.mutex.None? && i < |s.callers| && s.callers[i].Idle? && |answer| <= MAX_INT32 - 9
    requires Understood(s.callers[i].message, s.requestId) && s.requestId + 2 < 0x8000_0000_0000_0000
    ensures Run(s, actions).Some?
    ensures var m := s.callers[i].message;
            var e := Run(s, actions).value;
            && e.mutex.None? && e.sent == s.sent + [Request(i, m, s.requestId, s.requestId)]
            && e.answers == s.answers + [answer] && e.requestId == s.requestId + (if m.Heartbeat? then 2 else 1)
            && |e.callers| == |s.callers| && e.callers[i] == Done(|s.sent|, Payload(s.requestId, answer), [])
            && Inv(e) && Enabled(e, NextCall(i, m))
  {
    var first := TakesLock(s, i);
    var m := Run(s, first).value;
    RunKeepsInv(s, first);
    Incremented(m.requestId);
    var second := LockIsReleased(m, answer);
    RunAppend(s, first, second);
    actions := first + second;
    RunKeepsInv(s, actions);
    var e := Run(s, actions).value;
    assert CallerInv(e, i);
  }

  // ---------------------------------------------------------------- pieces

  /** Fills of these sizes, one after the other. */
  function Fills(i: nat, sizes: seq<nat>): (actions: seq<Action>) {
    if sizes == [] then [] else [Fill(i, sizes[0])] + Fills(i, sizes[1..])
  }

  function Sum(sizes: seq<nat>): (n: nat) {
    if sizes == [] then 0 else sizes[0] + Sum(sizes[1..])
  }

  /** A response of which bytes are still to come has not arrived. */
  lemma NotYetArrived(s: State, h: nat)
    requires HolderInv(s, h) && s.callers[h].Reading? && |s.answers| == s.callers[h].serial + 1 && s.toClient != []
    ensures !FrameArrived(s.callers[h].buffer)
  {
    var serial, buffer := s.callers[h].serial, s.callers[h].buffer;
    var payload := Payload(s.sent[serial].id, s.answers[serial]);
    assert buffer == (buffer + s.toClient)[..|buffer|];
    PrefixIncomplete(payload, |buffer|);
  }

  /** In whatever pieces a response comes, its reader takes all of them and can return. */
  lemma {:induction false} ArrivesInPieces(s: State, h: nat, sizes: seq<nat>)
    requires Inv(s) && s.mutex == Some(h) && s.callers[h].Reading? && |s.answers| == s.callers[h].serial + 1
    requires Sum(sizes) == |s.toClient| && forall i :: 0 <= i < |sizes| ==> sizes[i] > 0
    ensures Run(s, Fills(h, sizes)).Some?
    ensures var e := Run(s, Fills(h, sizes)).value;
            && e.toClient == [] && h < |e.callers| && Enabled(e, Return(h))
            && e.callers[h] == Reading(s.callers[h].serial, s.callers[h].buffer + s.toClient)
    decreases |sizes|
  {
    if sizes == [] {
      var serial, buffer := s.callers[h].serial, s.callers[h].buffer;
      var payload := Payload(s.sent[serial].id, s.answers[serial]);
      assert buffer + s.toClient == buffer == LengthPrefixed(payload);
      PrefixIncomplete(payload, |LengthPrefixed(payload)|);
      assert LengthPrefixed(payload)[..|LengthPrefixed(payload)|] == LengthPrefixed(payload);
    } else {
      NotYetArrived(s, h);
      var a := Fill(h, sizes[0]);
      StepKeepsInv(s, a);
      ArrivesInPieces(Apply(s, a), h, sizes[1..]);
      RunFront(s, a, Fills(h, sizes[1..]));
      assert s.callers[h].buffer + s.toClient[..sizes[0]] + s.toClient[sizes[0]..] == s.callers[h].buffer + s.toClient;
    }
  }
}
