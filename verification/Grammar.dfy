/** The converse of the round trip: the reader hands over nothing that was not written
    (src/http/request_reader.cpp:209-353).

    Each lemma that returns a spelling takes the stream apart where the reader did, phase by phase. */
module Grammar {
  import opened Text
  import opened Ascii
  import opened Messages
  import opened LineReading
  import opened Framing
  import opened ReaderModel
  import opened Segmentation
  import opened Composition
  import opened RoundTrip
  import Parser = RequestParser

  /** The driver, started in `s`, hands over `r` and leaves `rest` unread. */
  predicate HandsOver(s: State, stream: string, r: Request, rest: string)
    requires Sound(s)
  {
    NextRequest(s, stream).1 == rest && NextRequest(s, stream).2 == Delivery(r)
  }

  // ----- One turn, taken back

  /** What a turn came to, when the driver goes on to hand over `r`. */
  predicate LeadsTo(o: Outcome, tail: string, r: Request, rest: string) {
    match o.answer
    case None => Live(o.state) && HandsOver(o.state, tail, r, rest)
    case Some(answer) => answer == Delivery(r) && tail == rest
  }

  lemma StepTaken(s: State, stream: string, r: Request, rest: string)
    requires Live(s) && HandsOver(s, stream, r, rest)
    ensures var step := OneStep(s, stream);
            LeadsTo(Outcome(step.state, step.answer), step.unread, r, rest)
  {
    hide OneStep;
    if OneStep(s, stream).answer == None {
      StepStaysLive(s, stream);
    }
  }

  lemma LineTaken(s: State, stream: string, r: Request, rest: string) returns (line: string, tail: string)
    requires Live(s) && ReadsLines(s.phase) && HandsOver(s, stream, r, rest)
    ensures stream == line + CRLF + tail && OneLine(line) && |line| <= MAX_LINE_LENGTH
    ensures LeadsTo(HandleLine(s, line), tail, r, rest)
  {
    StepTaken(s, stream, r, rest);
    hide HandleLine, NextRequest;
    var found := FirstLine(stream);
    assert found.Line?;
    line := found.text;
    tail := stream[|line| + |CRLF|..];
    LineCut(stream);
    assert OneStep(s, stream) == Then(HandleLine(s, line), tail);
  }

  lemma LineCut(stream: string)
    requires FirstLine(stream).Line?
    ensures var line := FirstLine(stream).text;
            OneLine(line) && stream == line + CRLF + stream[|line| + |CRLF|..]
  {
    var line := FirstLine(stream).text;
    assert stream[..|line| + |CRLF|] == line + CRLF;
    assert forall k :: 0 <= k < |line| && CrlfAt(line, k) ==> CrlfAt(stream, k);
  }

  lemma FieldWritten(line: string, field: Field) returns (f: FieldSpelling)
    requires Parser.HeaderFieldOf(line) == Some(field)
    ensures Parser.ValidFieldParts(f.name, f.before, f.value, f.after) && FieldLine(f) == line
    ensures field == Field(LowerText(f.name), f.value) && LowerText(field.name) == field.name
  {
    var name, before, after := Parser.FieldAccepted(line, field);
    f := FieldSpelling(name, before, field.value, after);
    LowerTwice(name);
  }

  lemma {:induction false} FieldsCons(f: FieldSpelling, more: seq<FieldSpelling>, rest: string)
    ensures EncodeFields([f] + more) == FieldLine(f) + CRLF + EncodeFields(more)
    ensures FieldLine(f) + CRLF + (EncodeFields(more) + rest) == EncodeFields([f] + more) + rest
    ensures FieldsMeant([f] + more) == [Field(LowerText(f.name), f.value)] + FieldsMeant(more)
  {
    hide FieldLine;
    assert ([f] + more)[1..] == more;
  }

  // ----- Trailers

  /** A trailer section that may follow in a state. */
  predicate TrailersFit(s: State, trailers: seq<FieldSpelling>) {
    && WellFormedFields(trailers, MAX_LINE_LENGTH)
    && s.fieldCount + |trailers| <= MAX_FIELDS
    && s.headBytes + |EncodeFields(trailers)| + 2 <= MAX_HEAD_BYTES
  }

  lemma TrailerLine(s: State, line: string, tail: string, r: Request, rest: string)
    requires Live(s) && s.phase == Trailers && LeadsTo(HandleLine(s, line), tail, r, rest)
    ensures var charged := Charged(s, line);
            charged.headBytes <= MAX_HEAD_BYTES
            && if line == "" then r == s.request && tail == rest
               else
                 var counted := charged.(fieldCount := s.fieldCount + 1);
                 && s.fieldCount < MAX_FIELDS && Parser.HeaderFieldOf(line).Some?
                 && Live(counted) && HandsOver(counted, tail, r, rest)
  {
    hide Parser.HeaderFieldOf, NextRequest;
  }

  lemma {:induction false} TrailersWritten(s: State, stream: string, r: Request, rest: string)
    returns (trailers: seq<FieldSpelling>)
    requires Live(s) && s.phase == Trailers && HandsOver(s, stream, r, rest)
    ensures TrailersFit(s, trailers) && r == s.request
    ensures stream == EncodeFields(trailers) + (CRLF + rest)
    decreases |stream|
  {
    hide HandleLine, NextRequest, Parser.HeaderFieldOf, FieldLine, OneLine, Parser.ValidFieldParts;
    var line, tail := LineTaken(s, stream, r, rest);
    TrailerLine(s, line, tail, r, rest);
    if line == "" {
      trailers := [];
      assert stream == "" + (CRLF + rest);
    } else {
      var f := FieldWritten(line, Parser.HeaderFieldOf(line).value);
      var more := TrailersWritten(Charged(s, line).(fieldCount := s.fieldCount + 1), tail, r, rest);
      trailers := [f] + more;
      FieldsCons(f, more, CRLF + rest);
    }
  }

  // ----- Chunks

  lemma SizeWritten(line: string, bytes: nat) returns (size: string, ext: string)
    requires ChunkSizeOf(line) == Sized(bytes) && OneLine(line) && |line| <= MAX_LINE_LENGTH
    ensures line == size + ext && WellFormedSize(size, ext, bytes, MAX_LINE_LENGTH)
  {
    var end := Find(line, ';', 0);
    size, ext := line[..end], line[end..];
    NumberExactly(size, Sixteen, MAX_BODY_BYTES, bytes);
    assert line == size + ext;
  }

  lemma SizeLine(s: State, line: string, tail: string, r: Request, rest: string)
    requires Live(s) && s.phase == ChunkSize && LeadsTo(HandleLine(s, line), tail, r, rest)
    ensures ChunkSizeOf(line).Sized?
    ensures var bytes := ChunkSizeOf(line).bytes;
            var next := if bytes == 0 then s.(phase := Trailers) else s.(chunkBytes := bytes, phase := ChunkData);
            |s.request.body| + bytes <= MAX_BODY_BYTES && Live(next) && HandsOver(next, tail, r, rest)
  {
    assert !ChunkSizeOf(line).Chunked?;
    hide ChunkSizeOf, NextRequest;
  }

  /** A chunk's bytes are its data and the CRLF behind it. */
  lemma ChunkCut(stream: string, n: nat)
    requires |stream| >= n + |CRLF| && stream[..n + |CRLF|][n..] == CRLF
    ensures stream == stream[..n + |CRLF|][..n] + CRLF + stream[n + |CRLF|..]
  {
    var chunk := stream[..n + |CRLF|];
    assert chunk == chunk[..n] + CRLF;
  }

  lemma DataStep(s: State, stream: string)
    requires Live(s) && s.phase == ChunkData
    ensures var size := s.chunkBytes + |CRLF|;
            OneStep(s, stream) ==
              if |stream| < size then Wait(s, stream) else Then(EndChunk(s, stream[..size]), stream[size..])
  {
    hide HandleLine, FirstLine, EndChunk;
  }

  lemma ChunkEnded(s: State, chunk: string, tail: string, r: Request, rest: string)
    requires |chunk| == s.chunkBytes + |CRLF| && LeadsTo(EndChunk(s, chunk), tail, r, rest)
    ensures chunk[s.chunkBytes..] == CRLF
    ensures var next := s.(request := s.request.(body := s.request.body + chunk[..s.chunkBytes]), phase := ChunkSize);
            Live(next) && HandsOver(next, tail, r, rest)
  {
    hide NextRequest;
  }

  lemma DataTaken(s: State, stream: string, r: Request, rest: string) returns (data: string, tail: string)
    requires Live(s) && s.phase == ChunkData && HandsOver(s, stream, r, rest)
    ensures stream == data + CRLF + tail && |data| == s.chunkBytes
    ensures var next := s.(request := s.request.(body := s.request.body + data), phase := ChunkSize);
            Live(next) && HandsOver(next, tail, r, rest)
  {
    hide OneStep, HandsOver, EndChunk, NextRequest;
    StepTaken(s, stream, r, rest);
    DataStep(s, stream);
    var size := s.chunkBytes + |CRLF|;
    data, tail := stream[..size][..s.chunkBytes], stream[size..];
    ChunkEnded(s, stream[..size], tail, r, rest);
    ChunkCut(stream, s.chunkBytes);
  }

  /** How the body of a chunked message was spelled, with what its parts add up to. */
  predicate PartsFit(s: State, spelling: BodySpelling, r: Request) {
    && spelling.Parts?
    && WellFormedChunks(spelling.chunks, MAX_LINE_LENGTH)
    && WellFormedSize(spelling.zero, spelling.ext, 0, MAX_LINE_LENGTH)
    && TrailersFit(s, spelling.trailers)
    && r == s.request.(body := s.request.body + DataMeant(spelling.chunks))
    && |r.body| <= MAX_BODY_BYTES
  }

  lemma {:induction false} ChunkCons(c: ChunkSpelling, more: seq<ChunkSpelling>, body: string)
    ensures EncodeChunks([c] + more) == c.size + c.ext + CRLF + (c.data + CRLF) + EncodeChunks(more)
    ensures body + DataMeant([c] + more) == body + c.data + DataMeant(more)
  {
    assert ([c] + more)[1..] == more;
    assert body + (c.data + DataMeant(more)) == body + c.data + DataMeant(more);
  }

  lemma {:induction false} PartsWritten(s: State, stream: string, r: Request, rest: string)
    returns (spelling: BodySpelling)
    requires Live(s) && s.phase == ChunkSize && HandsOver(s, stream, r, rest)
    ensures PartsFit(s, spelling, r) && stream == EncodeBody(spelling) + rest
    decreases |stream|
  {
    hide HandleLine, NextRequest, ChunkSizeOf, WellFormedSize, OneLine, WellFormedFields, EncodeFields;
    var line, tail := LineTaken(s, stream, r, rest);
    SizeLine(s, line, tail, r, rest);
    var bytes := ChunkSizeOf(line).bytes;
    var size, ext := SizeWritten(line, bytes);
    if bytes == 0 {
      var trailers := TrailersWritten(s.(phase := Trailers), tail, r, rest);
      spelling := Parts([], size, ext, trailers);
      assert s.request.body + "" == s.request.body;
      LastPart(size, ext, trailers, rest);
    } else {
      var data, after := DataTaken(s.(chunkBytes := bytes, phase := ChunkData), tail, r, rest);
      var next := s.(chunkBytes := bytes, request := s.request.(body := s.request.body + data), phase := ChunkSize);
      var later := PartsWritten(next, after, r, rest);
      spelling := OneMorePart(s, ChunkSpelling(size, ext, data), later, r, rest);
    }
  }

  lemma {:induction false} LastPart(size: string, ext: string, trailers: seq<FieldSpelling>, rest: string)
    ensures EncodeBody(Parts([], size, ext, trailers)) + rest ==
            size + ext + CRLF + (EncodeFields(trailers) + (CRLF + rest))
  {
    hide EncodeFields;
  }

  lemma OneMorePart(s: State, c: ChunkSpelling, later: BodySpelling, r: Request, rest: string)
    returns (spelling: BodySpelling)
    requires c.data != "" && WellFormedSize(c.size, c.ext, |c.data|, MAX_LINE_LENGTH)
    requires PartsFit(s.(chunkBytes := |c.data|, request := s.request.(body := s.request.body + c.data)), later, r)
    ensures PartsFit(s, spelling, r)
    ensures EncodeBody(spelling) + rest == c.size + c.ext + CRLF + (c.data + CRLF + (EncodeBody(later) + rest))
  {
    hide WellFormedSize, WellFormedFields, EncodeFields;
    spelling := later.(chunks := [c] + later.chunks);
    ChunkCons(c, later.chunks, s.request.body);
    hide EncodeChunks, DataMeant;
    var last := later.zero + later.ext + CRLF + (EncodeFields(later.trailers) + CRLF);
    assert c.size + c.ext + CRLF + (c.data + CRLF) + EncodeChunks(later.chunks) + last + rest
           == c.size + c.ext + CRLF + (c.data + CRLF + (EncodeChunks(later.chunks) + last + rest));
  }

  // ----- The head

  /** Everything from a header section on: the fields still to come, and the body they declare. */
  predicate HeadFits(s: State, fields: seq<FieldSpelling>, spelling: BodySpelling, r: Request) {
    var headers := s.request.headers + FieldsMeant(fields);
    && WellFormedFields(fields, MAX_LINE_LENGTH)
    && s.fieldCount + |fields| + |TrailersOf(spelling)| <= MAX_FIELDS
    && s.headBytes + |EncodeFields(fields)| + 2
         + (if spelling.Parts? then |EncodeFields(spelling.trailers)| + 2 else 0) <= MAX_HEAD_BYTES
    && r == s.request.(headers := headers, body := BodyMeant(spelling))
    && BodyFits(headers, s.request.version, spelling)
  }

  predicate BodyFits(headers: seq<Field>, version: Version, spelling: BodySpelling) {
    && |Values(headers, HOST)| <= 1 && (version == Http11 ==> |Values(headers, HOST)| == 1)
    && Declares(headers, version, spelling) && |BodyMeant(spelling)| <= MAX_BODY_BYTES
    && (spelling.Parts? ==>
          && WellFormedChunks(spelling.chunks, MAX_LINE_LENGTH)
          && WellFormedSize(spelling.zero, spelling.ext, 0, MAX_LINE_LENGTH)
          && WellFormedFields(spelling.trailers, MAX_LINE_LENGTH))
  }

  lemma FieldLineTaken(s: State, line: string, tail: string, r: Request, rest: string)
    requires Live(s) && s.phase == Headers && line != "" && LeadsTo(HandleLine(s, line), tail, r, rest)
    ensures var charged := Charged(s, line);
            && charged.headBytes <= MAX_HEAD_BYTES && s.fieldCount < MAX_FIELDS && Parser.HeaderFieldOf(line).Some?
            && var headers := AddField(s.request.headers, Parser.HeaderFieldOf(line).value);
            var next := charged.(fieldCount := s.fieldCount + 1, request := s.request.(headers := headers));
            Live(next) && HandsOver(next, tail, r, rest)
  {
    hide Parser.HeaderFieldOf, NextRequest, AddField;
  }

  /** The blank line: which framing the head was accepted for, and where that leaves the reader. */
  lemma BlankTaken(s: State, tail: string, r: Request, rest: string)
    requires Live(s) && s.phase == Headers && LeadsTo(HandleLine(s, ""), tail, r, rest)
    ensures var charged := Charged(s, "");
            && charged.headBytes <= MAX_HEAD_BYTES
            && var hosts := |Values(s.request.headers, HOST)|;
            hosts <= 1 && (s.request.version == Http11 ==> hosts == 1)
    ensures var charged := Charged(s, "");
            match BodyOf(s.request.headers, s.request.version)
            case Refused(_) => false
            case Chunked =>
              var next := charged.(phase := ChunkSize);
              Live(next) && HandsOver(next, tail, r, rest)
            case Sized(bytes) =>
              && bytes <= MAX_BODY_BYTES
              && if bytes == 0 then r == s.request && tail == rest
                 else
                   var next := charged.(bodyBytes := bytes, phase := Body);
                   Live(next) && HandsOver(next, tail, r, rest)
  {
    hide BodyOf, NextRequest;
  }

  lemma WholeTaken(s: State, stream: string, r: Request, rest: string) returns (data: string)
    requires Live(s) && s.phase == Body && HandsOver(s, stream, r, rest)
    ensures stream == data + rest && |data| == s.bodyBytes && r == s.request.(body := data)
  {
    StepTaken(s, stream, r, rest);
    hide NextRequest;
    assert |stream| >= s.bodyBytes;
    data := stream[..s.bodyBytes];
    assert stream == data + stream[s.bodyBytes..];
  }

  /** A body as long as its head declares. */
  lemma WholeFits(s: State, data: string, bytes: nat)
    requires BodyOf(s.request.headers, s.request.version) == Sized(bytes) && |data| == bytes <= MAX_BODY_BYTES
    ensures Declares(s.request.headers, s.request.version, Whole(data))
  {
    SizedExactly(s.request.headers, s.request.version, bytes);
  }

  lemma BodyWritten(s: State, tail: string, r: Request, rest: string) returns (spelling: BodySpelling)
    requires Live(s) && s.phase == Headers && s.request.body == "" && LeadsTo(HandleLine(s, ""), tail, r, rest)
    ensures HeadFits(s, [], spelling, r) && tail == EncodeBody(spelling) + rest
  {
    hide HandleLine, NextRequest, WellFormedSize, EncodeChunks;
    BlankTaken(s, tail, r, rest);
    var charged := Charged(s, "");
    var headers, version := s.request.headers, s.request.version;
    var framing := BodyOf(headers, version);
    NoFields(s);
    if framing == Chunked {
      ChunkedExactly(headers, version);
      hide BodyOf;
      spelling := PartsWritten(charged.(phase := ChunkSize), tail, r, rest);
      assert "" + DataMeant(spelling.chunks) == DataMeant(spelling.chunks);
    } else {
      var data := "";
      if framing.bytes == 0 {
        assert tail == "" + rest;
      } else {
        hide BodyOf;
        data := WholeTaken(charged.(bodyBytes := framing.bytes, phase := Body), tail, r, rest);
      }
      WholeFits(s, data, framing.bytes);
      spelling := Whole(data);
    }
  }

  lemma NoFields(s: State)
    ensures s.request.headers + FieldsMeant([]) == s.request.headers && EncodeFields([]) == ""
  {
  }

  lemma {:induction false} HeadWritten(s: State, stream: string, r: Request, rest: string)
    returns (fields: seq<FieldSpelling>, spelling: BodySpelling)
    requires Live(s) && s.phase == Headers && s.request.body == "" && HandsOver(s, stream, r, rest)
    ensures HeadFits(s, fields, spelling, r)
    ensures stream == EncodeFields(fields) + (CRLF + (EncodeBody(spelling) + rest))
    decreases |stream|
  {
    hide HandleLine, NextRequest, HeadFits, OneLine, FieldLine, EncodeBody;
    hide Parser.HeaderFieldOf, Parser.ValidFieldParts;
    var line, tail := LineTaken(s, stream, r, rest);
    if line == "" {
      fields := [];
      spelling := BodyWritten(s, tail, r, rest);
      NoFields(s);
      assert stream == "" + (CRLF + tail);
    } else {
      FieldLineTaken(s, line, tail, r, rest);
      var field := Parser.HeaderFieldOf(line).value;
      var f := FieldWritten(line, field);
      var headers := s.request.headers + [field];
      var next := Charged(s, line).(fieldCount := s.fieldCount + 1, request := s.request.(headers := headers));
      var more;
      more, spelling := HeadWritten(next, tail, r, rest);
      fields := [f] + more;
      OneMoreField(s, f, more, spelling, r);
      FieldsCons(f, more, CRLF + (EncodeBody(spelling) + rest));
    }
  }

  lemma OneMoreField(s: State, f: FieldSpelling, more: seq<FieldSpelling>, spelling: BodySpelling, r: Request)
    requires Parser.ValidFieldParts(f.name, f.before, f.value, f.after) && |FieldLine(f)| <= MAX_LINE_LENGTH
    requires var headers := s.request.headers + [Field(LowerText(f.name), f.value)];
             var next := Charged(s, FieldLine(f)).(fieldCount := s.fieldCount + 1,
                                                   request := s.request.(headers := headers));
             HeadFits(next, more, spelling, r)
    requires s.phase == Headers
    ensures HeadFits(s, [f] + more, spelling, r)
  {
    FieldsCons(f, more, "");
    hide BodyFits, FieldLine, EncodeFields, FieldsMeant, Parser.ValidFieldParts;
    var h, first := s.request.headers, [Field(LowerText(f.name), f.value)];
    assert h + first + FieldsMeant(more) == h + (first + FieldsMeant(more));
  }

  // ----- The message

  lemma StartTaken(line: string, tail: string, r: Request, rest: string)
    requires LeadsTo(HandleLine(FRESH, line), tail, r, rest)
    ensures Parser.RequestLineOf(line).Parsed? && |line| + 2 <= MAX_HEAD_BYTES
    ensures var Parsed(verb, target, version) := Parser.RequestLineOf(line);
            var next := FRESH.(phase := Headers, headBytes := |line| + 2,
                               request := Request(verb, target, version, [], ""));
            Live(next) && HandsOver(next, tail, r, rest)
  {
    hide Parser.RequestLineOf, NextRequest;
  }

  lemma HeadIsMessage(m: Message, r: Request)
    requires Parser.ValidTarget(m.target) && |StartLine(m)| <= MAX_LINE_LENGTH
    requires HeadFits(AfterStart(m), m.fields, m.spelling, r)
    ensures WellFormed(m, MAX_LINE_LENGTH) && RequestMeant(m) == r
  {
    hide StartLine, WellFormedFields, WellFormedChunks, WellFormedSize, Declares, EncodeFields, FieldsMeant;
    assert [] + FieldsMeant(m.fields) == FieldsMeant(m.fields);
  }

  /** Whatever a new reader hands over was written: the bytes it consumed are a well-formed message that means exactly
      the request, trailers, extensions and all accounted for. */
  lemma MessageWritten(stream: string, r: Request, rest: string) returns (m: Message)
    requires HandsOver(FRESH, stream, r, rest)
    ensures WellFormed(m, MAX_LINE_LENGTH) && RequestMeant(m) == r && stream == Encode(m) + rest
  {
    hide HandleLine, NextRequest, HeadFits, OneLine, Parser.RequestLineOf, WellFormed, Parser.ValidTarget;
    var line, tail := LineTaken(FRESH, stream, r, rest);
    StartTaken(line, tail, r, rest);
    var Parsed(verb, target, version) := Parser.RequestLineOf(line);
    Parser.RequestLineAccepted(line, verb, target, version);
    var next := FRESH.(phase := Headers, headBytes := |line| + 2, request := Request(verb, target, version, [], ""));
    var fields, spelling := HeadWritten(next, tail, r, rest);
    m := Message(verb, target, version, fields, spelling);
    hide StartLine, EncodeFields, EncodeBody, RequestMeant;
    StartOf(m);
    HeadIsMessage(m, r);
    EncodeParts(m, rest);
  }

  lemma StartOf(m: Message)
    ensures StartLine(m) == Parser.PrintRequestLine(m.verb, m.target, m.version)
    ensures AfterStart(m) == FRESH.(phase := Headers, headBytes := |StartLine(m)| + 2,
                                    request := Request(m.verb, m.target, m.version, [], ""))
  {
  }

  /** The language a reader accepts is the grammar: it hands over `r` and leaves `rest` if and only if the stream is a
      well-formed message meaning `r` followed by `rest`. */
  lemma AcceptedExactly(stream: string, r: Request, rest: string)
    ensures HandsOver(FRESH, stream, r, rest) <==>
              exists m :: WellFormed(m, MAX_LINE_LENGTH) && RequestMeant(m) == r && stream == Encode(m) + rest
  {
    hide WellFormed, RequestMeant, Encode, NextRequest;
    if HandsOver(FRESH, stream, r, rest) {
      var m := MessageWritten(stream, r, rest);
    }
    if m :| WellFormed(m, MAX_LINE_LENGTH) && RequestMeant(m) == r && stream == Encode(m) + rest {
      MessageRead(m, rest, MAX_LINE_LENGTH);
    }
  }

  /** So a stream can be cut into messages in one way only: two that start it mean the same and end at the same byte. */
  lemma Unambiguous(m: Message, rest: string, other: Message, otherRest: string)
    requires WellFormed(m, MAX_LINE_LENGTH) && WellFormed(other, MAX_LINE_LENGTH)
    requires Encode(m) + rest == Encode(other) + otherRest
    ensures RequestMeant(m) == RequestMeant(other) && rest == otherRest && |Encode(m)| == |Encode(other)|
  {
    hide WellFormed, RequestMeant, Encode, NextRequest, Drain;
    MessageRead(m, rest, MAX_LINE_LENGTH);
    MessageRead(other, otherRest, MAX_LINE_LENGTH);
    assert Delivery(RequestMeant(m)) == Delivery(RequestMeant(other));
    assert |Encode(m) + rest| == |Encode(other) + otherRest|;
  }

  // ----- Whole runs

  /** The answers account for a stream from its start: each request handed over is a message written there, each
      refusal is some bytes skipped, and a failure that latches is the last. */
  ghost predicate AccountsFor(answers: seq<RequestResult>, stream: string)
    decreases |answers|
  {
    answers == []
    || (exists m, rest :: HandedOver(answers[0], m, stream, rest) && AccountsFor(answers[1..], rest))
    || (exists rest :: SkippedTo(answers[0], stream, rest) && AccountsFor(answers[1..], rest))
    || (answers[0].request == None && !answers[0].streamContinues && |answers| == 1)
  }

  ghost predicate HandedOver(answer: RequestResult, m: Message, stream: string, rest: string) {
    WellFormed(m, MAX_LINE_LENGTH) && answer == Delivery(RequestMeant(m)) && stream == Encode(m) + rest
  }

  predicate SkippedTo(answer: RequestResult, stream: string, rest: string) {
    answer.error == BodyTooLarge && answer.request == None && answer.streamContinues && EndsIn(stream, rest)
  }

  predicate EndsIn(stream: string, rest: string) { |rest| <= |stream| && rest == stream[|stream| - |rest|..] }

  lemma EndsFurther(stream: string, rest: string, after: string)
    requires EndsIn(stream, rest) && EndsIn(rest, after)
    ensures EndsIn(stream, after)
  {
  }

  lemma {:induction false} NextSuffix(s: State, stream: string)
    requires Sound(s)
    ensures EndsIn(stream, NextRequest(s, stream).1)
    decreases |stream|, if s.failure == NoError then 1 else 0
  {
    hide OneStep, Sound;
    if s.failure != NoError {
    } else {
      var step := OneStep(s, stream);
      assert EndsIn(stream, step.unread);
      if step.answer == None {
        NextSuffix(step.state, step.unread);
        hide EndsIn;
        EndsFurther(stream, step.unread, NextRequest(step.state, step.unread).1);
      }
    }
  }

  /** After a refusal: what follows its body is read as by a new reader, or the body has not all come yet. */
  lemma AfterRefusal(state: State, stream: string) returns (after: string)
    requires Live(state) && state.phase == Discard
    ensures EndsIn(stream, after)
    ensures Drain(state, stream).answers == Drain(FRESH, after).answers
  {
    var n := state.bodyBytes;
    if |stream| >= n {
      after := stream[n..];
      assert stream == stream[..n] + after;
      hide Drain;
      DrainedBody(state, stream[..n], after);
    } else {
      after := "";
      assert Waits(OneStep(state, stream));
      FreshSettled();
      hide OneStep;
    }
  }

  lemma {:induction false} DrainAccounts(stream: string)
    ensures AccountsFor(Drain(FRESH, stream).answers, stream)
    decreases |stream|
  {
    hide NextRequest, Drain, WellFormed, RequestMeant, Encode, OneStep;
    DrainByRequests(FRESH, stream);
    NextAnswer(FRESH, stream);
    NextSuffix(FRESH, stream);
    var (state, rest, answer) := NextRequest(FRESH, stream);
    var more := Drain(state, rest).answers;
    if !Answers(answer) {
    } else {
      var all := [answer] + more;
      assert all[0] == answer && all[1..] == more;
      if answer.request.Some? {
        var m := MessageWritten(stream, answer.request.value, rest);
        FreshAfterRequest(FRESH, stream);
        DrainAccounts(rest);
        assert HandedOver(answer, m, stream, rest);
      } else if answer.streamContinues {
        var after := AfterRefusal(state, rest);
        EndsFurther(stream, rest, after);
        DrainAccounts(after);
      } else {
        FailedRuns(state, rest);
      }
    }
  }

  lemma {:induction false} AccountsForMore(answers: seq<RequestResult>, stream: string, more: string)
    requires AccountsFor(answers, stream)
    ensures AccountsFor(answers, stream + more)
    decreases |answers|
  {
    hide WellFormed, RequestMeant, Encode;
    if answers == [] {
    } else if m, rest :| HandedOver(answers[0], m, stream, rest) && AccountsFor(answers[1..], rest) {
      AccountsForMore(answers[1..], rest, more);
      assert Encode(m) + rest + more == Encode(m) + (rest + more);
      assert HandedOver(answers[0], m, stream + more, rest + more);
    } else if rest :| SkippedTo(answers[0], stream, rest) && AccountsFor(answers[1..], rest) {
      AccountsForMore(answers[1..], rest, more);
      assert SkippedTo(answers[0], stream + more, rest + more);
    }
  }

  /** However it is cut, what a stream is answered with is what some of its first bytes, drained whole, are. */
  lemma {:induction false} FeedIsPrefix(s: State, unread: string, pieces: seq<string>) returns (n: nat)
    requires Sound(s) && Settled(s, unread)
    ensures |unread| <= n <= |unread + Flatten(pieces)|
    ensures Feed(s, unread, pieces).answers == Drain(s, (unread + Flatten(pieces))[..n]).answers
    decreases |pieces|
  {
    hide CapLineAt, Drain;
    if pieces == [] {
      n := |unread|;
      assert (unread + Flatten(pieces))[..n] == unread;
    } else {
      var u, v := unread + pieces[0], Flatten(pieces[1..]);
      var first := Drain(s, u);
      assert unread + Flatten(pieces) == u + v;
      DrainSettles(s, u);
      n := FeedIsPrefix(first.state, first.unread, pieces[1..]);
      var w := v[..n - |first.unread|];
      assert (first.unread + v)[..n] == first.unread + w;
      n := |u| + |w|;
      assert (u + v)[..n] == u + w;
      if first.state.failure != NoError {
        FailedRuns(first.state, first.unread + w);
        n := |u|;
        assert (u + v)[..n] == u;
        assert first.answers + [] == first.answers;
      } else {
        DrainSplit(s, u, w);
      }
    }
  }

  /** In any run, however the stream arrives, the answers account for it from its start: what is handed over is exactly
      the messages written there, one after the other. */
  lemma {:induction false} EveryRequestWritten(pieces: seq<string>)
    ensures AccountsFor(Feed(FRESH, "", pieces).answers, Flatten(pieces))
  {
    hide Feed, Drain, AccountsFor, Flatten;
    FreshSettled();
    var n := FeedIsPrefix(FRESH, "", pieces);
    var stream := Flatten(pieces);
    assert "" + stream == stream;
    DrainAccounts(stream[..n]);
    AccountsForMore(Drain(FRESH, stream[..n]).answers, stream[..n], stream[n..]);
    assert stream[..n] + stream[n..] == stream;
  }
}
