/** Responses: the header every operation response starts with, the id check, the error report, and heartbeats. */
module Responses {
  import opened Bytes
  import opened Types
  import opened Msgpack
  import opened Requests
  import Uuids

  const FLAG_PARTITION_ASSIGNMENT_CHANGED := 1
  const FLAG_ERROR := 4
  const HEARTBEAT_STATUS_SUCCESS := 0

  /** flags & bit, for a flag that is a power of two. */
  predicate HasFlag(flags: int, bit: int)
    requires bit > 0
  {
    flags / bit % 2 == 1
  }

  /** A time.Time in UTC, and the one of its zero value. */
  datatype Timestamp = Timestamp(unix: int, nsec: int)

  const ZERO_TIME := Timestamp(-62_135_596_800, 0)
  const ZERO_UUID: Uuid16 := [0, 0, 0, 0, 0, 0, 0, 0, 0, 0, 0, 0, 0, 0, 0, 0]

  /** A packed hybrid timestamp: the low byte counts as milliseconds, and what is above 16 bits is cut to seconds. */
  function TimestampOf(raw: int): (t: Timestamp) {
    var millis := raw / TWO16;
    Timestamp(if millis < 0 then -(-millis / 1000) else millis / 1000, raw % TWO8 % 1000 * 1_000_000)
  }

  /** The fields that reading a response sets. */
  datatype Fields =
    Fields(flags: int, obsTs: Timestamp, uuid: Uuid16, code: int, message: seq<Byte>, details: seq<Byte>)

  const UNREAD := Fields(0, ZERO_TIME, ZERO_UUID, 0, [], [])

  /** The fields after reading, and what is left of the payload or the error. */
  datatype ReadResult = ReadResult(fields: Fields, outcome: Outcome<seq<Byte>>)

  function Malformed(fields: Fields, field: ResponseField): (r: ReadResult) {
    ReadResult(fields, Err(MalformedResponse(field)))
  }

  /** The error report field by field: those before a malformed one stay set, the malformed one gets its zero value. */
  function ReadReport(bs: seq<Byte>, f: Fields): (r: ReadResult) {
    match DecodeUuid(bs)
    case None => Malformed(f.(uuid := ZERO_UUID), ErrorUuid)
    case Some(u) =>
      var f := f.(uuid := Uuids.Flipped(u.value));
      match DecodeInt64(u.rest)
      case None => Malformed(f.(code := 0), ErrorCode)
      case Some(code) =>
        var f := f.(code := code.value);
        match DecodeStr(code.rest)
        case None => Malformed(f.(message := []), ErrorMessage)
        case Some(message) =>
          var f := f.(message := message.value);
          match DecodeStr(message.rest)
          case None => Malformed(f.(details := []), ErrorDetails)
          case Some(details) => ReadResult(f.(details := details.value), Ok(details.rest))
  }

  /** Past the flags: the timestamp that a partition change adds is read and dropped. */
  function SkipPartitionTimestamp(flags: int, bs: seq<Byte>): (rest: Option<seq<Byte>>) {
    if !HasFlag(flags, FLAG_PARTITION_ASSIGNMENT_CHANGED) then Some(bs)
    else
      match DecodeInt64(bs)
      case None => None
      case Some(ts) => Some(ts.rest)
  }

  function ReadRest(bs: seq<Byte>, id: int, flags: int, requestId: int, f: Fields): (r: ReadResult) {
    match DecodeInt64(bs)
    case None => Malformed(f.(obsTs := ZERO_TIME), ObservableTimestamp)
    case Some(ts) =>
      var f := f.(obsTs := TimestampOf(ts.value));
      if id != requestId then ReadResult(f, Err(RequestIdMismatch))
      else if !HasFlag(flags, FLAG_ERROR) then ReadResult(f, Ok(ts.rest))
      else ReadReport(ts.rest, f)
  }

  /** The id is compared only after flags and timestamps were read, and before the error report. */
  function ReadResponse(payload: seq<Byte>, requestId: int, f: Fields): (r: ReadResult) {
    match DecodeInt64(payload)
    case None => Malformed(f, ResponseId)
    case Some(rid) =>
      match DecodeInt64(rid.rest)
      case None => Malformed(f, Flags)
      case Some(flags) =>
        var f := f.(flags := Wrap(flags.value, 0x8000_0000));
        match SkipPartitionTimestamp(flags.value, flags.rest)
        case None => Malformed(f, PartitionTimestamp)
        case Some(bs) => ReadRest(bs, rid.value, flags.value, requestId, f)
  }

  /** The error that the fields report: message and details in one text. */
  function StatusOf(f: Fields): (e: Option<Error>) {
    if HasFlag(f.flags, FLAG_ERROR)
    then Some(ServerError(Wrap(f.code, 0x8000_0000), f.message + [32, 58, 32] + f.details))
    else None
  }

  /** What a caller of an operation gets out of a response: the data, or why not. */
  function OperationResult(payload: seq<Byte>, requestId: int): (r: Outcome<seq<Byte>>) {
    var read := ReadResponse(payload, requestId, UNREAD);
    match read.outcome
    case Err(e) => Err(e)
    case Panic => Panic
    case Ok(data) =>
      match StatusOf(read.fields)
      case Some(e) => Err(e)
      case None => Ok(data)
  }

  class ResponseOperation {
    const requestId: int
    var flags: int
    var obsTs: Timestamp
    var code: int
    var uuid: Uuid16
    var message: seq<Byte>
    var details: seq<Byte>
    var data: seq<Byte>

    function AllFields(): (f: Fields)
      reads this
    {
      Fields(flags, obsTs, uuid, code, message, details)
    }

    constructor (uid: int)
      ensures requestId == uid && AllFields() == UNREAD
    {
      requestId := uid;
      flags, obsTs, code, uuid := 0, ZERO_TIME, 0, ZERO_UUID;
      message, details, data := [], [], [];
    }

    /** Reads a response payload field by field; what was set before an error stays set. */
    method ReadFrom(payload: seq<Byte>) returns (err: Option<Error>)
      modifies this
      ensures AllFields() == ReadResponse(payload, requestId, old(AllFields())).fields
      ensures match ReadResponse(payload, requestId, old(AllFields())).outcome
              case Ok(rest) => err.None? && data == rest
              case Err(e) => err == Some(e)
              case Panic => false
    {
      data := payload;
      var rid := DecodeInt64(data);
      if rid.None? {
        return Some(MalformedResponse(ResponseId));
      }
      data := rid.value.rest;
      var f := DecodeInt64(data);
      if f.None? {
        return Some(MalformedResponse(Flags));
      }
      data := f.value.rest;
      flags := Wrap(f.value.value, 0x8000_0000);
      var skipped := SkipPartitionTimestamp(f.value.value, data);
      if skipped.None? {
        return Some(MalformedResponse(PartitionTimestamp));
      }
      data := skipped.value;
      var ts := DecodeInt64(data);
      obsTs := if ts.Some? then TimestampOf(ts.value.value) else ZERO_TIME;
      if ts.None? {
        return Some(MalformedResponse(ObservableTimestamp));
      }
      data := ts.value.rest;
      if rid.value.value != requestId {
        return Some(RequestIdMismatch);
      }
      if HasFlag(f.value.value, FLAG_ERROR) {
        err := ReadErrorReport();
        return;
      }
      err := None;
    }

    method ReadErrorReport() returns (err: Option<Error>)
      modifies this
      ensures AllFields() == ReadReport(old(data), old(AllFields())).fields
      ensures match ReadReport(old(data), old(AllFields())).outcome
              case Ok(rest) => err.None? && data == rest
              case Err(e) => err == Some(e)
              case Panic => false
    {
      var u := DecodeUuid(data);
      uuid := if u.Some? then Uuids.Flipped(u.value.value) else ZERO_UUID;
      if u.None? {
        return Some(MalformedResponse(ErrorUuid));
      }
      data := u.value.rest;
      var c := DecodeInt64(data);
      code := if c.Some? then c.value.value else 0;
      if c.None? {
        return Some(MalformedResponse(ErrorCode));
      }
      data := c.value.rest;
      var m := DecodeStr(data);
      message := if m.Some? then m.value.value else [];
      if m.None? {
        return Some(MalformedResponse(ErrorMessage));
      }
      data := m.value.rest;
      var d := DecodeStr(data);
      details := if d.Some? then d.value.value else [];
      if d.None? {
        return Some(MalformedResponse(ErrorDetails));
      }
      data := d.value.rest;
      err := None;
    }

    /** A response without the error flag is a success, whatever its other flags. */
    method CheckStatus() returns (err: Option<Error>)
      ensures err == StatusOf(AllFields())
    {
      if HasFlag(flags, FLAG_ERROR) {
        return Some(ServerError(Wrap(code, 0x8000_0000), message + [32, 58, 32] + details));
      }
      err := None;
    }
  }

  // ---------------------------------------------------------------- heartbeats

  /** Id and status are read as int8; the status is looked at before the id. */
  function HeartbeatResult(payload: seq<Byte>, uid: int): (r: Outcome<seq<Byte>>) {
    match DecodeInt8(payload)
    case None => Err(MalformedResponse(ResponseId))
    case Some(id) =>
      match DecodeInt8(id.rest)
      case None => Err(MalformedResponse(HeartbeatStatus))
      case Some(status) =>
        match DecodeInt64(status.rest)
        case None => Err(MalformedResponse(HeartbeatExtra))
        case Some(extra) =>
          if status.value != HEARTBEAT_STATUS_SUCCESS then Err(HeartbeatRefused)
          else if id.value != uid then Err(RequestIdMismatch)
          else Ok(extra.rest)
  }

  lemma HeartbeatOf(payload: seq<Byte>, uid: int, id: Decoded<int>, status: Decoded<int>, extra: Decoded<int>)
    requires DecodeInt8(payload) == Some(id) && DecodeInt8(id.rest) == Some(status)
    requires DecodeInt64(status.rest) == Some(extra)
    ensures HeartbeatResult(payload, uid) ==
            if status.value != HEARTBEAT_STATUS_SUCCESS then Err(HeartbeatRefused)
            else if id.value != uid then Err(RequestIdMismatch)
            else Ok(extra.rest)
  {}

  class ResponseHeartbeat {
    const uid: int
    var status: int
    var unknownData: int

    constructor (uid: int)
      ensures this.uid == uid && status == 0 && unknownData == 0
    {
      this.uid := uid;
      status, unknownData := 0, 0;
    }

    method ReadFrom(payload: seq<Byte>) returns (err: Option<Error>, rest: seq<Byte>)
      modifies this
      ensures match HeartbeatResult(payload, uid)
              case Ok(r) => err.None? && rest == r && status == HEARTBEAT_STATUS_SUCCESS
              case Err(e) => err == Some(e)
              case Panic => false
    {
      rest := payload;
      var id := DecodeInt8(rest);
      if id.None? {
        return Some(MalformedResponse(ResponseId)), rest;
      }
      rest := id.value.rest;
      var s := DecodeInt8(rest);
      if s.None? {
        return Some(MalformedResponse(HeartbeatStatus)), rest;
      }
      rest := s.value.rest;
      status := s.value.value;
      var extra := DecodeInt64(rest);
      unknownData := if extra.Some? then extra.value.value else 0;
      if extra.None? {
        return Some(MalformedResponse(HeartbeatExtra)), rest;
      }
      rest := extra.value.rest;
      if status != HEARTBEAT_STATUS_SUCCESS {
        return Some(HeartbeatRefused), rest;
      }
      if id.value.value != uid {
        return Some(RequestIdMismatch), rest;
      }
      err := None;
    }
  }

  /** What a caller makes of a response payload, checked against id. */
  function ResultOfPayload(message: RawMessage, payload: seq<Byte>, id: Int64): (r: Outcome<seq<Byte>>) {
    if message.Heartbeat? then HeartbeatResult(payload, id) else OperationResult(payload, id)
  }

  /** An error of the connection or of the response itself, not one that the server reports. */
  predicate Rejected(r: Outcome<seq<Byte>>) {
    r.Err? && !r.error.ServerError?
  }

  // ---------------------------------------------------------------- frames

  /** The payload of every response: the echoed request id, then what the server answers. */
  function Payload(id: Int64, answer: seq<Byte>): (bs: seq<Byte>) {
    EncodeInt(id) + answer
  }

  function Response(id: Int64, answer: seq<Byte>): (bs: seq<Byte>) {
    LengthPrefixed(Payload(id, answer))
  }

  // ---------------------------------------------------------------- round trip

  datatype ErrorReport = ErrorReport(uuid: Uuid16, code: Int64, message: seq<Byte>, details: seq<Byte>)

  function EncodeReport(r: ErrorReport): (bs: seq<Byte>) {
    EncodeUuid(Uuids.Flipped(r.uuid)) + (EncodeInt(r.code) + (EncodeStr(r.message) + EncodeStr(r.details)))
  }

  function EncodeRest(flags: Int64, obsTs: Int64, report: ErrorReport, data: seq<Byte>): (bs: seq<Byte>) {
    EncodeInt(obsTs) + ((if HasFlag(flags, FLAG_ERROR) then EncodeReport(report) else []) + data)
  }

  /** What a server sends after the id: partition timestamp and error report exactly when the flags say so. */
  function AnswerOf(flags: Int64, partitionTs: Int64, obsTs: Int64, report: ErrorReport, data: seq<Byte>)
    : (bs: seq<Byte>)
  {
    EncodeInt(flags)
      + ((if HasFlag(flags, FLAG_PARTITION_ASSIGNMENT_CHANGED) then EncodeInt(partitionTs) else [])
         + EncodeRest(flags, obsTs, report, data))
  }

  function EncodeResponse(id: Int64, flags: Int64, partitionTs: Int64, obsTs: Int64, report: ErrorReport,
                          data: seq<Byte>): (bs: seq<Byte>)
  {
    EncodeInt(id) + AnswerOf(flags, partitionTs, obsTs, report, data)
  }

  function Reported(f: Fields, r: ErrorReport): (f': Fields) {
    f.(uuid := r.uuid, code := r.code, message := r.message, details := r.details)
  }

  lemma ReportReadsBack(r: ErrorReport, data: seq<Byte>, f: Fields)
    requires |r.message| < TWO32 && |r.details| < TWO32
    ensures ReadReport(EncodeReport(r) + data, f) == ReadResult(Reported(f, r), Ok(data))
  {
    var c := EncodeStr(r.details) + data;
    var b := EncodeStr(r.message) + c;
    var a := EncodeInt(r.code) + b;
    assert EncodeReport(r) + data == EncodeUuid(Uuids.Flipped(r.uuid)) + a;
    UuidReadsBack(Uuids.Flipped(r.uuid), a);
    Uuids.FlippedTwice(r.uuid);
    Int64ReadsBack(r.code, b);
    StrReadsBack(r.message, c);
    StrReadsBack(r.details, data);
  }

  lemma RestReadsBack(id: Int64, flags: Int64, obsTs: Int64, report: ErrorReport, data: seq<Byte>, requestId: Int64,
                      f: Fields)
    requires |report.message| < TWO32 && |report.details| < TWO32
    ensures var f' := f.(obsTs := TimestampOf(obsTs));
            ReadRest(EncodeRest(flags, obsTs, report, data), id, flags, requestId, f) ==
            if id != requestId then ReadResult(f', Err(RequestIdMismatch))
            else ReadResult(if HasFlag(flags, FLAG_ERROR) then Reported(f', report) else f', Ok(data))
  {
    Int64ReadsBack(obsTs, (if HasFlag(flags, FLAG_ERROR) then EncodeReport(report) else []) + data);
    if HasFlag(flags, FLAG_ERROR) {
      ReportReadsBack(report, data, f.(obsTs := TimestampOf(obsTs)));
    }
    assert [] + data == data;
  }

  /**
   * Every response a server writes is taken apart into exactly its fields and its data; it is accepted if and only if
   * it carries the id of the request.
   */
  lemma ResponseReadsBack(id: Int64, flags: Int64, partitionTs: Int64, obsTs: Int64, report: ErrorReport,
                          data: seq<Byte>, requestId: Int64)
    requires |report.message| < TWO32 && |report.details| < TWO32
    ensures var f := UNREAD.(flags := Wrap(flags, 0x8000_0000), obsTs := TimestampOf(obsTs));
            ReadResponse(EncodeResponse(id, flags, partitionTs, obsTs, report, data), requestId, UNREAD) ==
            if id != requestId then ReadResult(f, Err(RequestIdMismatch))
            else ReadResult(if HasFlag(flags, FLAG_ERROR) then Reported(f, report) else f, Ok(data))
  {
    var c := EncodeRest(flags, obsTs, report, data);
    var b := (if HasFlag(flags, FLAG_PARTITION_ASSIGNMENT_CHANGED) then EncodeInt(partitionTs) else []) + c;
    Int64ReadsBack(id, EncodeInt(flags) + b);
    Int64ReadsBack(flags, b);
    Int64ReadsBack(partitionTs, c);
    RestReadsBack(id, flags, obsTs, report, data, requestId, UNREAD.(flags := Wrap(flags, 0x8000_0000)));
    assert [] + c == c;
  }

  /** Narrowing the flags to int32 keeps every flag bit that the client tests. */
  lemma FlagsSurviveNarrowing(flags: int)
    ensures HasFlag(Wrap(flags, 0x8000_0000), FLAG_ERROR) <==> HasFlag(flags, FLAG_ERROR)
    ensures HasFlag(Wrap(flags, 0x8000_0000), FLAG_PARTITION_ASSIGNMENT_CHANGED)
            <==> HasFlag(flags, FLAG_PARTITION_ASSIGNMENT_CHANGED)
  {
    var q := (flags + 0x8000_0000) / TWO32;
    var w := Wrap(flags, 0x8000_0000);
    assert w == flags - TWO32 * q;
    QuotientIs(w, 4, flags / 4 - 0x4000_0000 * q, flags % 4);
    QuotientIs(w / 4, 2, flags / 4 / 2 - 0x2000_0000 * q, flags / 4 % 2);
    QuotientIs(w, 2, flags / 2 - 0x8000_0000 * q, flags % 2);
  }

  /**
   * From the server's response to the caller's result: the data if the response carries the request's id and no error
   * flag, the server's own error if it carries the flag, and a mismatch otherwise.
   */
  lemma StatusReported(id: Int64, flags: Int64, partitionTs: Int64, obsTs: Int64, report: ErrorReport,
                       data: seq<Byte>, requestId: Int64)
    requires |report.message| < TWO32 && |report.details| < TWO32
    ensures OperationResult(EncodeResponse(id, flags, partitionTs, obsTs, report, data), requestId) ==
            if id != requestId then Err(RequestIdMismatch)
            else if flags / 4 % 2 == 1
            then Err(ServerError(Wrap(report.code, 0x8000_0000), report.message + [32, 58, 32] + report.details))
            else Ok(data)
  {
    ResponseReadsBack(id, flags, partitionTs, obsTs, report, data, requestId);
    FlagsSurviveNarrowing(flags);
  }

  /**
   * A timestamp packed as milliseconds times 2^16, with anything in the low 16 bits: its seconds are the milliseconds
   * over 1000 toward zero, and of what is left over only the low byte counts, as milliseconds.
   */
  lemma TimestampRead(ms: int, low: int)
    requires 0 <= low < 65536
    ensures var t := TimestampOf(ms * 65536 + low);
            && t.nsec == low % 256 * 1_000_000
            && (ms >= 0 ==> 0 <= ms - 1000 * t.unix < 1000)
            && (ms <= 0 ==> -1000 < ms - 1000 * t.unix <= 0)
  {
    var raw := ms * 65536 + low;
    QuotientIs(raw, TWO16, ms, low);
    QuotientIs(raw, TWO8, ms * 256 + low / 256, low % 256);
    ModSmall(low % 256, 1000);
  }

  // ---------------------------------------------------------------- truncated responses

  lemma CutInside(a: seq<Byte>, b: seq<Byte>, k: nat)
    requires k <= |a + b|
    ensures (a + b)[..k] == if k < |a| then a[..k] else a + b[..k - |a|]
  {}

  lemma CutInt(n: Int64, more: seq<Byte>, k: nat)
    requires k <= |EncodeInt(n) + more|
    ensures var bs := (EncodeInt(n) + more)[..k];
            DecodeInt64(bs) == if k < |EncodeInt(n)| then None else Some(Decoded(n, more[..k - |EncodeInt(n)|]))
  {
    CutInside(EncodeInt(n), more, k);
    if k < |EncodeInt(n)| {
      IntIncomplete(n, k);
    } else {
      Int64ReadsBack(n, more[..k - |EncodeInt(n)|]);
    }
  }

  lemma CutStr(t: seq<Byte>, more: seq<Byte>, k: nat)
    requires |t| < TWO32 && k <= |EncodeStr(t) + more|
    ensures var bs := (EncodeStr(t) + more)[..k];
            DecodeStr(bs) == if k < |EncodeStr(t)| then None else Some(Decoded(t, more[..k - |EncodeStr(t)|]))
  {
    CutInside(EncodeStr(t), more, k);
    if k < |EncodeStr(t)| {
      StrIncomplete(t, k);
    } else {
      StrReadsBack(t, more[..k - |EncodeStr(t)|]);
    }
  }

  /** The field of an error report that byte k belongs to. */
  function ReportField(r: ErrorReport, k: int): (field: ResponseField) {
    var code := 18 + |EncodeInt(r.code)|;
    if k < 18 then ErrorUuid
    else if k < code then ErrorCode
    else if k < code + |EncodeStr(r.message)| then ErrorMessage
    else ErrorDetails
  }

  lemma CutUuid(u: Uuid16, more: seq<Byte>, k: nat)
    requires k <= |EncodeUuid(u) + more|
    ensures DecodeUuid((EncodeUuid(u) + more)[..k]) == if k < 18 then None else Some(Decoded(u, more[..k - 18]))
  {
    CutInside(EncodeUuid(u), more, k);
    if k >= 18 {
      UuidReadsBack(u, more[..k - 18]);
    }
  }

  /** A text that ends early leaves nothing for the one behind it. */
  lemma CutTexts(a: seq<Byte>, b: seq<Byte>, k: nat)
    requires |a| < TWO32 && |b| < TWO32 && k < |EncodeStr(a) + EncodeStr(b)|
    ensures var first := DecodeStr((EncodeStr(a) + EncodeStr(b))[..k]);
            if k < |EncodeStr(a)| then first.None? else first.Some? && DecodeStr(first.value.rest).None?
  {
    CutStr(a, EncodeStr(b), k);
    if k >= |EncodeStr(a)| {
      StrIncomplete(b, k - |EncodeStr(a)|);
    }
  }

  /** What a report gives when its UUID and code decode, by what is left for the texts. */
  lemma StopsInTexts(bs: seq<Byte>, f: Fields, u: Decoded<Uuid16>, c: Decoded<int>)
    requires DecodeUuid(bs) == Some(u) && DecodeInt64(u.rest) == Some(c)
    requires DecodeStr(c.rest).Some? ==> DecodeStr(DecodeStr(c.rest).value.rest).None?
    ensures ReadReport(bs, f).outcome
            == Err(MalformedResponse(if DecodeStr(c.rest).None? then ErrorMessage else ErrorDetails))
  {}

  lemma StopsAtCode(bs: seq<Byte>, f: Fields, u: Decoded<Uuid16>)
    requires DecodeUuid(bs) == Some(u) && DecodeInt64(u.rest).None?
    ensures ReadReport(bs, f).outcome == Err(MalformedResponse(ErrorCode))
  {}

  lemma TruncatedTexts(bs: seq<Byte>, f: Fields, u: Decoded<Uuid16>, code: int, message: seq<Byte>, details: seq<Byte>,
                       k: nat)
    requires |message| < TWO32 && |details| < TWO32 && k < |EncodeStr(message) + EncodeStr(details)|
    requires DecodeUuid(bs) == Some(u)
    requires DecodeInt64(u.rest) == Some(Decoded(code, (EncodeStr(message) + EncodeStr(details))[..k]))
    ensures ReadReport(bs, f).outcome
            == Err(MalformedResponse(if k < |EncodeStr(message)| then ErrorMessage else ErrorDetails))
  {
    CutTexts(message, details, k);
    StopsInTexts(bs, f, u, Decoded(code, (EncodeStr(message) + EncodeStr(details))[..k]));
  }

  lemma TruncatedBehindUuid(bs: seq<Byte>, f: Fields, u: Decoded<Uuid16>, r: ErrorReport, texts: seq<Byte>, k: nat)
    requires |r.message| < TWO32 && |r.details| < TWO32 && texts == EncodeStr(r.message) + EncodeStr(r.details)
    requires k < |EncodeInt(r.code) + texts|
    requires DecodeUuid(bs) == Some(u) && u.rest == (EncodeInt(r.code) + texts)[..k]
    ensures ReadReport(bs, f).outcome == Err(MalformedResponse(ReportField(r, k + 18)))
  {
    CutInt(r.code, texts, k);
    if k < |EncodeInt(r.code)| {
      StopsAtCode(bs, f, u);
    } else {
      TruncatedTexts(bs, f, u, r.code, r.message, r.details, k - |EncodeInt(r.code)|);
    }
  }

  /** A report that ends early is malformed in the field in which it ends. */
  lemma TruncatedReport(r: ErrorReport, k: nat, f: Fields)
    requires |r.message| < TWO32 && |r.details| < TWO32 && k < |EncodeReport(r)|
    ensures ReadReport(EncodeReport(r)[..k], f).outcome == Err(MalformedResponse(ReportField(r, k)))
  {
    var u, texts := Uuids.Flipped(r.uuid), EncodeStr(r.message) + EncodeStr(r.details);
    CutUuid(u, EncodeInt(r.code) + texts, k);
    if k >= 18 {
      var left := Decoded(u, (EncodeInt(r.code) + texts)[..k - 18]);
      TruncatedBehindUuid(EncodeReport(r)[..k], f, left, r, texts, k - 18);
    }
  }

  function PartitionBytes(flags: Int64, partitionTs: Int64): (bs: seq<Byte>) {
    if flags % 2 == 1 then EncodeInt(partitionTs) else []
  }

  /** The field of a response header that byte k belongs to. */
  function HeaderField(id: Int64, flags: Int64, partitionTs: Int64, k: int): (field: ResponseField) {
    var f := |EncodeInt(id)|;
    var p := f + |EncodeInt(flags)|;
    if k < f then ResponseId
    else if k < p then Flags
    else if k < p + |PartitionBytes(flags, partitionTs)| then PartitionTimestamp
    else ObservableTimestamp
  }

  /** Past the flags: where the two timestamps end early. */
  lemma TruncatedTimestamps(id: int, flags: Int64, partitionTs: Int64, obsTs: Int64, k: nat, requestId: int,
                            f: Fields)
    requires k < |PartitionBytes(flags, partitionTs) + EncodeInt(obsTs)|
    ensures var bs := (PartitionBytes(flags, partitionTs) + EncodeInt(obsTs))[..k];
            var rest := SkipPartitionTimestamp(flags, bs);
            if k < |PartitionBytes(flags, partitionTs)| then rest.None?
            else rest.Some?
                 && ReadRest(rest.value, id, flags, requestId, f).outcome == Err(MalformedResponse(ObservableTimestamp))
  {
    var partition := PartitionBytes(flags, partitionTs);
    if flags % 2 == 1 {
      CutInt(partitionTs, EncodeInt(obsTs), k);
    } else {
      assert partition + EncodeInt(obsTs) == EncodeInt(obsTs);
    }
    if k >= |partition| {
      IntIncomplete(obsTs, k - |partition|);
    }
  }

  lemma TruncatedBehindFlags(bs: seq<Byte>, id: int, flags: Int64, partitionTs: Int64, obsTs: Int64, k: nat,
                             rid: Decoded<int>, requestId: int, f: Fields)
    requires k < |PartitionBytes(flags, partitionTs) + EncodeInt(obsTs)|
    requires DecodeInt64(bs) == Some(rid) && rid.value == id
    requires DecodeInt64(rid.rest) == Some(Decoded(flags, (PartitionBytes(flags, partitionTs) + EncodeInt(obsTs))[..k]))
    ensures ReadResponse(bs, requestId, f).outcome == Err(MalformedResponse(
              if k < |PartitionBytes(flags, partitionTs)| then PartitionTimestamp else ObservableTimestamp))
  {
    TruncatedTimestamps(id, flags, partitionTs, obsTs, k, requestId, f.(flags := Wrap(flags, 0x8000_0000)));
  }

  lemma StopsAtFlags(bs: seq<Byte>, requestId: int, f: Fields, rid: Decoded<int>)
    requires DecodeInt64(bs) == Some(rid) && DecodeInt64(rid.rest).None?
    ensures ReadResponse(bs, requestId, f).outcome == Err(MalformedResponse(Flags))
  {}

  /** A response that ends before its observable timestamp does is malformed in the field in which it ends. */
  lemma TruncatedHeader(id: Int64, flags: Int64, partitionTs: Int64, obsTs: Int64, k: nat, requestId: int, f: Fields)
    requires k < |EncodeInt(id) + (EncodeInt(flags) + (PartitionBytes(flags, partitionTs) + EncodeInt(obsTs)))|
    ensures var bs := EncodeInt(id) + (EncodeInt(flags) + (PartitionBytes(flags, partitionTs) + EncodeInt(obsTs)));
            ReadResponse(bs[..k], requestId, f).outcome
            == Err(MalformedResponse(HeaderField(id, flags, partitionTs, k)))
  {
    var times := PartitionBytes(flags, partitionTs) + EncodeInt(obsTs);
    var bs := (EncodeInt(id) + (EncodeInt(flags) + times))[..k];
    CutInt(id, EncodeInt(flags) + times, k);
    var k' := k - |EncodeInt(id)|;
    if k' >= 0 {
      var rid := Decoded(id as int, (EncodeInt(flags) + times)[..k']);
      CutInt(flags, times, k');
      if k' < |EncodeInt(flags)| {
        StopsAtFlags(bs, requestId, f, rid);
      } else {
        TruncatedBehindFlags(bs, id, flags, partitionTs, obsTs, k' - |EncodeInt(flags)|, rid, requestId, f);
      }
    }
  }

  lemma TruncatedRest(id: int, flags: Int64, obsTs: Int64, r: ErrorReport, k: nat, f: Fields)
    requires |r.message| < TWO32 && |r.details| < TWO32 && k < |EncodeReport(r)| && flags / 4 % 2 == 1
    ensures ReadRest(EncodeInt(obsTs) + EncodeReport(r)[..k], id, flags, id, f).outcome
            == Err(MalformedResponse(ReportField(r, k)))
  {
    Int64ReadsBack(obsTs, EncodeReport(r)[..k]);
    TruncatedReport(r, k, f.(obsTs := TimestampOf(obsTs)));
  }

  lemma Skipped(flags: Int64, partitionTs: Int64, rest: seq<Byte>)
    ensures SkipPartitionTimestamp(flags, PartitionBytes(flags, partitionTs) + rest) == Some(rest)
  {
    Int64ReadsBack(partitionTs, rest);
    assert [] + rest == rest;
  }

  /** So is one that reports an error and ends inside its report, if it carries the id of the request. */
  lemma TruncatedError(id: Int64, flags: Int64, partitionTs: Int64, obsTs: Int64, r: ErrorReport, k: nat, f: Fields)
    requires |r.message| < TWO32 && |r.details| < TWO32 && k < |EncodeReport(r)| && flags / 4 % 2 == 1
    ensures var bs := EncodeInt(id) + (EncodeInt(flags) + (PartitionBytes(flags, partitionTs)
                                                            + (EncodeInt(obsTs) + EncodeReport(r)[..k])));
            ReadResponse(bs, id, f).outcome == Err(MalformedResponse(ReportField(r, k)))
  {
    var times := EncodeInt(obsTs) + EncodeReport(r)[..k];
    Int64ReadsBack(id, EncodeInt(flags) + (PartitionBytes(flags, partitionTs) + times));
    Int64ReadsBack(flags, PartitionBytes(flags, partitionTs) + times);
    Skipped(flags, partitionTs, times);
    TruncatedRest(id, flags, obsTs, r, k, f.(flags := Wrap(flags, 0x8000_0000)));
  }

  lemma CutInt8(n: Int64, more: seq<Byte>, k: nat)
    requires k <= |EncodeInt(n) + more|
    ensures var bs := (EncodeInt(n) + more)[..k];
            DecodeInt8(bs)
            == if k < |EncodeInt(n)| then None else Some(Decoded(Wrap(n, 0x80), more[..k - |EncodeInt(n)|]))
  {
    CutInside(EncodeInt(n), more, k);
    if k < |EncodeInt(n)| {
      IntIncomplete(n, k);
    } else {
      Int8ReadsBack(n, more[..k - |EncodeInt(n)|]);
    }
  }

  /** A heartbeat response that ends early is malformed in the field in which it ends, whatever its id and status. */
  lemma TruncatedHeartbeat(id: Int64, status: Int64, extra: Int64, uid: int, k: nat)
    requires k < |EncodeInt(id) + (EncodeInt(status) + EncodeInt(extra))|
    ensures HeartbeatResult((EncodeInt(id) + (EncodeInt(status) + EncodeInt(extra)))[..k], uid) ==
            Err(MalformedResponse(
              if k < |EncodeInt(id)| then ResponseId
              else if k < |EncodeInt(id)| + |EncodeInt(status)| then HeartbeatStatus
              else HeartbeatExtra))
  {
    CutInt8(id, EncodeInt(status) + EncodeInt(extra), k);
    var k' := k - |EncodeInt(id)|;
    if k' >= 0 {
      CutInt8(status, EncodeInt(extra), k');
      if k' >= |EncodeInt(status)| {
        IntIncomplete(extra, k' - |EncodeInt(status)|);
      }
    }
  }

  /** Every heartbeat response: a status other than 0 refuses, then a foreign id; both are narrowed to int8. */
  lemma HeartbeatReported(id: Int64, status: Int64, extra: Int64, rest: seq<Byte>, uid: Int64)
    ensures HeartbeatResult(EncodeInt(id) + (EncodeInt(status) + (EncodeInt(extra) + rest)), uid) ==
            if Wrap(status, 0x80) != 0 then Err(HeartbeatRefused)
            else if Wrap(id, 0x80) != uid then Err(RequestIdMismatch)
            else Ok(rest)
  {
    Int8ReadsBack(id, EncodeInt(status) + (EncodeInt(extra) + rest));
    Int8ReadsBack(status, EncodeInt(extra) + rest);
    Int64ReadsBack(extra, rest);
  }

  /** A response without flags at time zero. */
  lemma PlainResponse(id: Int64, report: ErrorReport, data: seq<Byte>)
    ensures EncodeResponse(id, 0, 0, 0, report, data) == EncodeInt(id) + ([0] + ([0] + data))
  {
    assert EncodeInt(0) == [0];
    assert [] + data == data;
    assert EncodeRest(0, 0, report, data) == [0] + data;
    assert [] + ([0] + data) == [0] + data;
  }

  /** Reading a payload into a new response and checking its status gives the operation's result, for any payload. */
  method ReceiveOperation(payload: seq<Byte>, requestId: int) returns (r: Outcome<seq<Byte>>)
    ensures r == OperationResult(payload, requestId)
  {
    var res := new ResponseOperation(requestId);
    var err := res.ReadFrom(payload);
    if err.Some? {
      return Err(err.value);
    }
    err := res.CheckStatus();
    r := if err.Some? then Err(err.value) else Ok(res.data);
  }

  method ReceiveHeartbeat(payload: seq<Byte>, uid: int) returns (r: Outcome<seq<Byte>>)
    ensures r == HeartbeatResult(payload, uid)
  {
    var res := new ResponseHeartbeat(uid);
    var err, rest := res.ReadFrom(payload);
    if err.Some? {
      return Err(err.value);
    }
    if res.status != HEARTBEAT_STATUS_SUCCESS {
      return Err(HeartbeatRefused);
    }
    r := Ok(rest);
  }
}
