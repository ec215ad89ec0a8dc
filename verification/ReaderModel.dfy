/** The request reader as a transition system over (state, unread bytes) (src/http/request_reader.cpp:179-433).

    `OneStep` is one turn of the driver loop, `NextRequest` the loop up to its next answer, and `Drain` what a
    caller gets by asking until nothing is left to give: the whole-stream parser the other modules reason about. */
module ReaderModel {
  import opened Text
  import opened Messages
  import opened LineReading
  import opened Framing
  import Parser = RequestParser

  datatype Phase = RequestLine | Headers | Body | Discard | ChunkSize | ChunkData | Trailers

  datatype State = State(
    phase: Phase,
    request: Request,
    failure: RequestError,
    headBytes: nat,
    bodyBytes: nat,
    chunkBytes: nat,
    fieldCount: nat)

  /** What one call returns: `NOTHING_YET`, a `Delivery`, a refusal, or a `Failure`. */
  datatype RequestResult = RequestResult(
    error: RequestError,
    request: Option<Request>,
    streamContinues: bool,
    version: Version)

  const NOTHING_YET: RequestResult := RequestResult(NoError, None, true, Http10)

  predicate Answers(r: RequestResult) { r.error != NoError || r.request.Some? }

  const FRESH: State := State(RequestLine, BLANK_REQUEST, NoError, 0, 0, 0, 0)

  /** A state and what is handed to the caller; none means "go round again". */
  datatype Outcome = Outcome(state: State, answer: Option<RequestResult>)

  function Delivery(request: Request): RequestResult { RequestResult(NoError, Some(request), true, Http10) }

  function Failure(error: RequestError, version: Version): RequestResult
  {
    RequestResult(error, None, false, version)
  }

  /** The chunk length is the one field that is not cleared. */
  function Armed(s: State): State
  {
    s.(phase := RequestLine, request := BLANK_REQUEST, headBytes := 0, bodyBytes := 0, fieldCount := 0)
  }

  function Fail(s: State, error: RequestError): Outcome
  {
    Outcome(s.(failure := error), Some(Failure(error, s.request.version)))
  }

  function Refuse(s: State, error: RequestError): Outcome
  {
    Outcome(s.(phase := Discard), Some(RequestResult(error, None, true, s.request.version)))
  }

  function Finish(s: State): Outcome { Outcome(Armed(s), Some(Delivery(s.request))) }

  function Onward(s: State): Outcome { Outcome(s, None) }

  function HandleRequestLine(s: State, line: string): Outcome
  {
    match Parser.RequestLineOf(line)
    case Refused(error) =>
      Fail(s, match error
              case Malformed => RequestError.Malformed
              case UnknownMethod => RequestError.UnknownMethod
              case UnsupportedVersion => RequestError.UnsupportedVersion)
    case Parsed(verb, target, version) =>
      Onward(s.(request := s.request.(verb := verb, target := target, version := version), phase := Headers))
  }

  function CompleteHead(s: State): Outcome
  {
    var hosts := |Values(s.request.headers, HOST)|;
    if hosts > 1 || (hosts == 0 && s.request.version == Http11) then Fail(s, Malformed)
    else
      match BodyOf(s.request.headers, s.request.version)
      case Refused(error) => Fail(s, error)
      case Chunked => Onward(s.(phase := ChunkSize))
      case Sized(bytes) =>
        var sized := s.(bodyBytes := bytes);
        if bytes > MAX_BODY_BYTES then Refuse(sized, BodyTooLarge)
        else if bytes == 0 then Finish(sized)
        else Onward(sized.(phase := Body))
  }

  function HandleFieldLine(s: State, line: string): Outcome
  {
    if line == "" then CompleteHead(s)
    else
      var counted := s.(fieldCount := s.fieldCount + 1);
      if counted.fieldCount > MAX_FIELDS then Fail(counted, TooManyHeaders)
      else
        match Parser.HeaderFieldOf(line)
        case None => Fail(counted, Malformed)
        case Some(field) =>
          Onward(counted.(request := s.request.(headers := AddField(s.request.headers, field))))
  }

  function HandleChunkSize(s: State, line: string): Outcome
  {
    match ChunkSizeOf(line)
    case Refused(error) => Fail(s, error)
    case Sized(bytes) =>
      if bytes == 0 then Onward(s.(phase := Trailers))
      else if |s.request.body| + bytes > MAX_BODY_BYTES then Fail(s, BodyTooLarge)
      else Onward(s.(chunkBytes := bytes, phase := ChunkData))
  }

  function HandleTrailerLine(s: State, line: string): Outcome
  {
    if line == "" then Finish(s)
    else
      var counted := s.(fieldCount := s.fieldCount + 1);
      if counted.fieldCount > MAX_FIELDS then Fail(counted, TooManyHeaders)
      else if Parser.HeaderFieldOf(line) == None then Fail(counted, Malformed)
      else Onward(counted)
  }

  predicate ReadsLines(phase: Phase) {
    phase.RequestLine? || phase.Headers? || phase.ChunkSize? || phase.Trailers?
  }

  function TooLongError(phase: Phase): RequestError
  {
    match phase
    case RequestLine => RequestLineTooLong
    case Headers => HeaderTooLong
    case Trailers => HeaderTooLong
    case _ => Malformed
  }

  /** The head cap is charged for every line but a chunk size. */
  function Charged(s: State, line: string): State
  {
    if s.phase == ChunkSize then s else s.(headBytes := s.headBytes + |line| + |CRLF|)
  }

  function HandleLine(s: State, line: string): Outcome
    requires ReadsLines(s.phase)
  {
    var charged := Charged(s, line);
    if s.phase != ChunkSize && charged.headBytes > MAX_HEAD_BYTES then Fail(charged, HeadTooLarge)
    else
      match s.phase
      case RequestLine => HandleRequestLine(charged, line)
      case Headers => HandleFieldLine(charged, line)
      case ChunkSize => HandleChunkSize(charged, line)
      case Trailers => HandleTrailerLine(charged, line)
  }

  datatype Step = Step(state: State, unread: string, answer: Option<RequestResult>)

  function Then(o: Outcome, unread: string): Step { Step(o.state, unread, o.answer) }

  function Wait(s: State, unread: string): Step { Step(s, unread, Some(NOTHING_YET)) }

  predicate Waits(step: Step) { step.answer == Some(NOTHING_YET) }

  function ReadNextLine(s: State, unread: string): Step
    requires ReadsLines(s.phase)
  {
    match FirstLine(unread)
    case LineTooLong => Then(Fail(s, TooLongError(s.phase)), unread)
    case NothingYet => Wait(s, unread)
    case Line(text) => Then(HandleLine(s, text), unread[|text| + |CRLF|..])
  }

  function EndChunk(s: State, chunk: string): Outcome
    requires |chunk| == s.chunkBytes + |CRLF|
  {
    if chunk[s.chunkBytes..] != CRLF then Fail(s, Malformed)
    else Onward(s.(request := s.request.(body := s.request.body + chunk[..s.chunkBytes]), phase := ChunkSize))
  }

  function ReadBodyBytes(s: State, unread: string): Step
    requires !ReadsLines(s.phase)
  {
    if s.phase == Discard then
      var dropped := Min(s.bodyBytes, |unread|);
      var left := s.(bodyBytes := s.bodyBytes - dropped);
      if left.bodyBytes > 0 then Wait(left, unread[dropped..])
      else Then(Onward(Armed(left)), unread[dropped..])
    else if s.phase == Body then
      if |unread| < s.bodyBytes then Wait(s, unread)
      else Then(Finish(s.(request := s.request.(body := unread[..s.bodyBytes]))), unread[s.bodyBytes..])
    else
      var size := s.chunkBytes + |CRLF|;
      if |unread| < size then Wait(s, unread)
      else Then(EndChunk(s, unread[..size]), unread[size..])
  }

  /** What every state reached from a fresh reader satisfies; in particular each body phase owes at least a byte. */
  predicate Sound(s: State) {
    && (s.phase.Body? ==> 1 <= s.bodyBytes <= MAX_BODY_BYTES)
    && (s.phase.Discard? ==> 1 <= s.bodyBytes <= MAX_DRAIN_BYTES)
    && (s.phase.ChunkData? ==> 1 <= s.chunkBytes && |s.request.body| + s.chunkBytes <= MAX_BODY_BYTES)
    && |s.request.body| <= MAX_BODY_BYTES
    && (s.failure == NoError ==> s.headBytes <= MAX_HEAD_BYTES && s.fieldCount <= MAX_FIELDS)
  }

  predicate Live(s: State) { Sound(s) && s.failure == NoError }

  /** What handling a line in a live state comes to. */
  predicate Proper(o: Outcome) {
    && Sound(o.state)
    && (o.answer.Some? ==> Answers(o.answer.value))
    && (o.state.failure != NoError <==> o.answer.Some? && !o.answer.value.streamContinues)
  }

  /** No sum the handlers form leaves 64 bits. */
  lemma SumsFit(s: State, line: string)
    requires Live(s) && |line| <= MAX_LINE_LENGTH
    ensures Charged(s, line).headBytes <= SIZE_MAX && s.fieldCount + 1 <= SIZE_MAX
    ensures ChunkSizeOf(line).Sized? ==> |s.request.body| + ChunkSizeOf(line).bytes <= SIZE_MAX
    ensures s.phase == ChunkData ==> s.chunkBytes + |CRLF| <= SIZE_MAX
  {
  }

  lemma FailProper(s: State, error: RequestError)
    requires Sound(s.(failure := error)) && error != NoError
    ensures Proper(Fail(s, error))
  {
  }

  lemma CompleteHeadProper(s: State)
    requires Live(s)
    ensures Proper(CompleteHead(s))
  {
    var body := BodyOf(s.request.headers, s.request.version);
    assert body.Refused? ==> body.error != NoError;
    assert body.Sized? ==> body.bytes <= MAX_DRAIN_BYTES;
  }

  lemma FieldLineProper(s: State, line: string)
    requires Live(s)
    ensures Proper(HandleFieldLine(s, line)) && Proper(HandleTrailerLine(s, line))
  {
    if line == "" {
      CompleteHeadProper(s);
    }
  }

  lemma ChunkSizeProper(s: State, line: string)
    requires Live(s)
    ensures Proper(HandleChunkSize(s, line))
  {
    var size := ChunkSizeOf(line);
    assert size.Refused? ==> size.error != NoError;
  }

  lemma HandleLineProper(s: State, line: string)
    requires Live(s) && ReadsLines(s.phase)
    ensures Proper(HandleLine(s, line))
  {
    var charged := Charged(s, line);
    if s.phase != ChunkSize && charged.headBytes > MAX_HEAD_BYTES {
      FailProper(charged, HeadTooLarge);
    } else {
      match s.phase
      case RequestLine =>
      case ChunkSize => ChunkSizeProper(charged, line);
      case _ => FieldLineProper(charged, line);
    }
  }

  /** One turn of the driver: a wait that leaves no more to do, a latched failure, or progress. */
  function OneStep(s: State, unread: string): (step: Step)
    requires Live(s)
    ensures Sound(step.state)
    ensures Waits(step) ==> Live(step.state)
    ensures !Waits(step) && step.answer.Some? ==> Answers(step.answer.value)
    ensures Waits(step) || step.state.failure != NoError || |step.unread| < |unread|
    ensures |step.unread| <= |unread| && step.unread == unread[|unread| - |step.unread|..]
  {
    hide HandleLine;
    if ReadsLines(s.phase) then
      if FirstLine(unread).Line? then HandleLineProper(s, FirstLine(unread).text); ReadNextLine(s, unread)
      else ReadNextLine(s, unread)
    else ReadBodyBytes(s, unread)
  }

  /** The answers a run of the reader gives, and where it leaves it. */
  datatype Run = Run(answers: seq<RequestResult>, state: State, unread: string)

  function Answered(step: Step): seq<RequestResult>
  {
    if step.answer.Some? then [step.answer.value] else []
  }

  /** Every answer until nothing is left to give or a failure has latched. */
  function Drain(s: State, unread: string): (r: Run)
    requires Sound(s)
    ensures Sound(r.state) && |r.unread| <= |unread|
    decreases |unread|, if s.failure == NoError then 1 else 0
  {
    if s.failure != NoError then Run([], s, unread)
    else
      var step := OneStep(s, unread);
      if Waits(step) then Run([], step.state, step.unread)
      else
        var rest := Drain(step.state, step.unread);
        Run(Answered(step) + rest.answers, rest.state, rest.unread)
  }

  /** The driver loop up to its next answer. A latched failure repeats. */
  function NextRequest(s: State, unread: string): (r: (State, string, RequestResult))
    requires Sound(s)
    ensures Sound(r.0) && |r.1| <= |unread|
    ensures r.2 == NOTHING_YET || Answers(r.2)
    ensures s.failure == NoError ==> r.0.failure == NoError || Answers(r.2)
    ensures s.failure == NoError && Answers(r.2) && r.0.failure == NoError ==> |r.1| < |unread|
    decreases |unread|, if s.failure == NoError then 1 else 0
  {
    if s.failure != NoError then (s, unread, Failure(s.failure, s.request.version))
    else
      var step := OneStep(s, unread);
      if step.answer.Some? then (step.state, step.unread, step.answer.value)
      else NextRequest(step.state, step.unread)
  }
}
