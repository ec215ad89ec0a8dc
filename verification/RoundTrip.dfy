/** Any list of well-formed requests, spelled any way the grammar allows, is read back as itself
    (src/http/request_reader.cpp:231-353; sections 6.2 and 7.1 of RFC 9112).

    A `Message` is a request together with a sender's free choices: the case of field names, the whitespace around
    values, a declared length or any partition into chunks, hex case and leading zeros of chunk sizes, chunk
    extensions, and trailers. */
module RoundTrip {
  import opened Text
  import opened Ascii
  import opened Messages
  import opened LineReading
  import opened Framing
  import opened ReaderModel
  import opened Segmentation
  import opened Composition
  import Parser = RequestParser

  datatype FieldSpelling = FieldSpelling(name: string, before: string, value: string, after: string)

  datatype ChunkSpelling = ChunkSpelling(size: string, ext: string, data: string)

  datatype BodySpelling =
    | Whole(data: string)
    | Parts(chunks: seq<ChunkSpelling>, zero: string, ext: string, trailers: seq<FieldSpelling>)

  datatype Message = Message(
    verb: Method,
    target: string,
    version: Version,
    fields: seq<FieldSpelling>,
    spelling: BodySpelling)

  // ----- What is sent

  function FieldLine(f: FieldSpelling): string { Parser.PrintField(f.name, f.before, f.value, f.after) }

  function EncodeFields(fields: seq<FieldSpelling>): string
  {
    if fields == [] then "" else FieldLine(fields[0]) + CRLF + EncodeFields(fields[1..])
  }

  function EncodeChunks(chunks: seq<ChunkSpelling>): string
  {
    if chunks == [] then ""
    else chunks[0].size + chunks[0].ext + CRLF + (chunks[0].data + CRLF) + EncodeChunks(chunks[1..])
  }

  function EncodeBody(spelling: BodySpelling): string
  {
    match spelling
    case Whole(data) => data
    case Parts(chunks, zero, ext, trailers) =>
      EncodeChunks(chunks) + (zero + ext + CRLF + (EncodeFields(trailers) + CRLF))
  }

  function StartLine(m: Message): string { Parser.PrintRequestLine(m.verb, m.target, m.version) }

  function Encode(m: Message): string
  {
    StartLine(m) + CRLF + (EncodeFields(m.fields) + (CRLF + EncodeBody(m.spelling)))
  }

  function EncodeAll(messages: seq<Message>): string
  {
    if messages == [] then "" else Encode(messages[0]) + EncodeAll(messages[1..])
  }

  // ----- What is meant

  function FieldsMeant(fields: seq<FieldSpelling>): seq<Field>
  {
    if fields == [] then []
    else [Field(LowerText(fields[0].name), fields[0].value)] + FieldsMeant(fields[1..])
  }

  function DataMeant(chunks: seq<ChunkSpelling>): string
  {
    if chunks == [] then "" else chunks[0].data + DataMeant(chunks[1..])
  }

  function BodyMeant(spelling: BodySpelling): string
  {
    match spelling
    case Whole(data) => data
    case Parts(chunks, _, _, _) => DataMeant(chunks)
  }

  function RequestMeant(m: Message): Request
  {
    Request(m.verb, m.target, m.version, FieldsMeant(m.fields), BodyMeant(m.spelling))
  }

  function DeliveriesMeant(messages: seq<Message>): seq<RequestResult>
  {
    if messages == [] then [] else [Delivery(RequestMeant(messages[0]))] + DeliveriesMeant(messages[1..])
  }

  // ----- What a sender must respect

  predicate WellFormedFields(fields: seq<FieldSpelling>, cap: nat) {
    forall i :: 0 <= i < |fields| ==>
      && Parser.ValidFieldParts(fields[i].name, fields[i].before, fields[i].value, fields[i].after)
      && |FieldLine(fields[i])| <= cap
  }

  predicate OneLine(line: string) { forall k :: 0 <= k < |line| ==> !CrlfAt(line, k) }

  /** A chunk size in hex digits of either case, then an optional extension. */
  predicate WellFormedSize(size: string, ext: string, bytes: nat, cap: nat) {
    && size != "" && AllDigits(size, Sixteen) && Numeral(size, Sixteen) == bytes
    && (ext != "" ==> ext[0] == ';')
    && OneLine(size + ext) && |size + ext| <= cap
  }

  predicate WellFormedChunks(chunks: seq<ChunkSpelling>, cap: nat) {
    forall i :: 0 <= i < |chunks| ==>
      chunks[i].data != "" && WellFormedSize(chunks[i].size, chunks[i].ext, |chunks[i].data|, cap)
  }

  /** The headers declare the framing the body is sent with. */
  predicate Declares(headers: seq<Field>, version: Version, spelling: BodySpelling) {
    var lengths := Values(headers, CONTENT_LENGTH);
    match spelling
    case Whole(data) =>
      && Values(headers, TRANSFER_ENCODING) == [] && |lengths| <= 1
      && (lengths == [] ==> data == "")
      && (lengths != [] ==>
            lengths[0] != "" && AllDigits(lengths[0], Ten) && Numeral(lengths[0], Ten) == |data|)
    case Parts(_, _, _, _) =>
      && version == Http11 && lengths == []
      && |CodingsOf(headers)| == 1 && IsChunked(CodingsOf(headers)[0])
  }

  function TrailersOf(spelling: BodySpelling): seq<FieldSpelling>
  {
    if spelling.Parts? then spelling.trailers else []
  }

  /** What the head cap is charged: the start line, the fields, the trailers, and each blank line. */
  function HeadCharge(m: Message): nat
  {
    |StartLine(m)| + 2 + |EncodeFields(m.fields)| + 2
    + if m.spelling.Parts? then |EncodeFields(m.spelling.trailers)| + 2 else 0
  }

  /** Within the reader's caps, with no line longer than `cap`. */
  predicate WellFormed(m: Message, cap: nat) {
    && Parser.ValidTarget(m.target) && |StartLine(m)| <= cap
    && WellFormedFields(m.fields, cap)
    && |m.fields| + |TrailersOf(m.spelling)| <= MAX_FIELDS && HeadCharge(m) <= MAX_HEAD_BYTES
    && |BodyMeant(m.spelling)| <= MAX_BODY_BYTES
    && var headers := FieldsMeant(m.fields);
    && |Values(headers, HOST)| <= 1 && (m.version == Http11 ==> |Values(headers, HOST)| == 1)
    && Declares(headers, m.version, m.spelling)
    && (m.spelling.Parts? ==>
          && WellFormedChunks(m.spelling.chunks, cap)
          && WellFormedSize(m.spelling.zero, m.spelling.ext, 0, cap)
          && WellFormedFields(m.spelling.trailers, cap))
  }

  // ----- Reaching one configuration from another

  ghost predicate NoCapLines(s: State, stream: string)
    requires Sound(s)
  {
    forall k: nat :: !CapLineAt(s, stream, k)
  }

  /** Draining `stream` from `s` gives `answers` and then what draining `rest` from `t` gives, and the next answer is the
      same from both where none is given on the way; and lines shorter than the cap are met on the way whenever `cap`
      is below it. */
  ghost predicate Reaches(s: State, stream: string, answers: seq<RequestResult>, t: State, rest: string, cap: nat)
    requires Sound(s) && Sound(t)
  {
    && Drain(s, stream) == Run(answers + Drain(t, rest).answers, Drain(t, rest).state, Drain(t, rest).unread)
    && (answers == [] ==> NextRequest(s, stream) == NextRequest(t, rest))
    && (cap < MAX_LINE_LENGTH && NoCapLines(t, rest) ==> NoCapLines(s, stream))
  }

  /** The step that gives an answer is the end of the driver's loop. */
  predicate GivesNext(s: State, stream: string, step: Step)
    requires Sound(s)
  {
    step.answer.Some? ==> NextRequest(s, stream) == (step.state, step.unread, step.answer.value)
  }

  lemma ReachesThen(s: State, a: string, x: seq<RequestResult>, t: State, b: string, y: seq<RequestResult>,
                    u: State, c: string, cap: nat)
    requires Sound(s) && Sound(t) && Sound(u)
    requires Reaches(s, a, x, t, b, cap) && Reaches(t, b, y, u, c, cap)
    ensures Reaches(s, a, x + y, u, c, cap)
  {
    hide Drain, NextRequest, CapLineAt;
    var tail := Drain(u, c).answers;
    assert x + (y + tail) == x + y + tail;
  }

  lemma StepReaches(s: State, stream: string, cap: nat)
    requires Live(s) && !Waits(OneStep(s, stream))
    requires cap < MAX_LINE_LENGTH ==> forall k :: !CapLineHere(s, stream, k)
    ensures var step := OneStep(s, stream);
            Reaches(s, stream, Answered(step), step.state, step.unread, cap) && GivesNext(s, stream, step)
  {
    hide OneStep, CapLineHere, CapLineAt, Drain;
    DrainUnfold(s, stream);
    var step := OneStep(s, stream);
    if cap < MAX_LINE_LENGTH && NoCapLines(step.state, step.unread) {
      forall k: nat ensures !CapLineAt(s, stream, k) {
        CapLineUnfold(s, stream, k);
      }
    }
  }

  lemma LineFound(line: string, rest: string)
    requires OneLine(line) && |line| <= MAX_LINE_LENGTH
    ensures FirstLine(line + CRLF + rest) == Line(line)
    ensures (line + CRLF + rest)[|line| + |CRLF|..] == rest
  {
    var w := line + CRLF + rest;
    assert CrlfAt(w, |line|);
    assert forall k :: 0 <= k < |line| && CrlfAt(w, k) ==> CrlfAt(line, k);
    assert FindCrlf(w, 0) == |line|;
    assert w[..|line|] == line;
  }

  lemma LineReaches(s: State, line: string, rest: string, cap: nat)
    requires Live(s) && ReadsLines(s.phase) && OneLine(line) && |line| <= cap <= MAX_LINE_LENGTH
    ensures var o := HandleLine(s, line);
            && Sound(o.state) && Reaches(s, line + CRLF + rest, Answered(Then(o, rest)), o.state, rest, cap)
            && GivesNext(s, line + CRLF + rest, Then(o, rest))
  {
    LineFound(line, rest);
    HandleLineProper(s, line);
    hide HandleLine;
    assert OneStep(s, line + CRLF + rest) == Then(HandleLine(s, line), rest);
    StepReaches(s, line + CRLF + rest, cap);
  }

  // ----- The head

  lemma StartLinePlain(m: Message)
    requires Parser.ValidTarget(m.target)
    ensures OneLine(StartLine(m))
    ensures Parser.RequestLineOf(StartLine(m)) == Parser.Parsed(m.verb, m.target, m.version)
  {
    Parser.RequestLineAccepted(StartLine(m), m.verb, m.target, m.version);
    Parser.PrintedLineControls(m.verb, m.target, m.version);
    assert forall k :: 0 <= k < |StartLine(m)| ==> !IsControl(StartLine(m)[k]);
  }

  function AfterStart(m: Message): State
  {
    FRESH.(phase := Headers, headBytes := |StartLine(m)| + 2,
           request := Request(m.verb, m.target, m.version, [], ""))
  }

  lemma StartReaches(m: Message, rest: string, cap: nat)
    requires Parser.ValidTarget(m.target) && |StartLine(m)| <= cap <= MAX_LINE_LENGTH
    ensures Reaches(FRESH, StartLine(m) + CRLF + rest, [], AfterStart(m), rest, cap)
  {
    StartLinePlain(m);
    var line := StartLine(m);
    hide StartLine, Parser.RequestLineOf;
    assert HandleLine(FRESH, line) == Onward(AfterStart(m));
    hide HandleLine;
    LineReaches(FRESH, line, rest, cap);
  }

  lemma FieldLinePlain(f: FieldSpelling)
    requires Parser.ValidFieldParts(f.name, f.before, f.value, f.after)
    ensures OneLine(FieldLine(f)) && FieldLine(f) != ""
    ensures Parser.HeaderFieldOf(FieldLine(f)) == Some(Field(LowerText(f.name), f.value))
  {
    Parser.FieldReadBack(f.name, f.before, f.value, f.after);
    FieldPartsPlain(f);
    hide Parser.HeaderFieldOf, Parser.ValidFieldParts, NoCr;
    NoCrAppend(f.name, ":");
    NoCrAppend(f.before, f.value);
    NoCrAppend(f.before + f.value, f.after);
    NoCrAppend(f.name + ":", f.before + f.value + f.after);
    PlainIsOneLine(FieldLine(f));
  }

  lemma FieldPartsPlain(f: FieldSpelling)
    requires Parser.ValidFieldParts(f.name, f.before, f.value, f.after)
    ensures NoCr(f.name) && NoCr(f.before) && NoCr(f.value) && NoCr(f.after) && NoCr(":")
  {
  }

  lemma PlainIsOneLine(line: string)
    requires NoCr(line)
    ensures OneLine(line)
  {
  }

  predicate Room(s: State, fields: seq<FieldSpelling>, cap: nat) {
    && Live(s) && WellFormedFields(fields, cap) && cap <= MAX_LINE_LENGTH
    && s.headBytes + |EncodeFields(fields)| <= MAX_HEAD_BYTES
    && s.fieldCount + |fields| <= MAX_FIELDS
  }

  function AfterFields(s: State, fields: seq<FieldSpelling>): State
  {
    s.(headBytes := s.headBytes + |EncodeFields(fields)|, fieldCount := s.fieldCount + |fields|,
       request := s.request.(headers := s.request.headers + FieldsMeant(fields)))
  }

  lemma OneField(s: State, f: FieldSpelling)
    requires Live(s) && s.phase == Headers && Parser.ValidFieldParts(f.name, f.before, f.value, f.after)
    requires s.headBytes + |FieldLine(f)| + 2 <= MAX_HEAD_BYTES && s.fieldCount < MAX_FIELDS
    ensures HandleLine(s, FieldLine(f)) == Onward(AfterFields(s, [f]))
  {
    FieldLinePlain(f);
    LowerTwice(f.name);
    var line := FieldLine(f);
    hide FieldLine, Parser.HeaderFieldOf;
    assert [f][1..] == [];
    assert EncodeFields([f]) == line + CRLF + "";
    assert FieldsMeant([f]) == [Field(LowerText(f.name), f.value)];
  }

  lemma {:induction false} FieldsReach(s: State, fields: seq<FieldSpelling>, rest: string, cap: nat)
    requires Room(s, fields, cap) && s.phase == Headers
    ensures Live(AfterFields(s, fields))
    ensures Reaches(s, EncodeFields(fields) + rest, [], AfterFields(s, fields), rest, cap)
    decreases |fields|
  {
    hide Drain, NextRequest, CapLineAt, FieldLine, HandleLine;
    if fields == [] {
      assert EncodeFields(fields) + rest == rest;
      assert s.request.headers + [] == s.request.headers;
      NowhereReaches(s, rest, cap);
    } else {
      var f, more := fields[0], fields[1..];
      var line, tail := FieldLine(f), EncodeFields(more) + rest;
      assert EncodeFields(fields) + rest == line + CRLF + tail;
      OneField(s, f);
      FieldLinePlain(f);
      LineReaches(s, line, tail, cap);
      var t := AfterFields(s, [f]);
      AfterOneField(s, f, more);
      FieldsReach(t, more, rest, cap);
      ReachesThen(s, line + CRLF + tail, [], t, tail, [], AfterFields(s, fields), rest, cap);
    }
  }

  lemma NowhereReaches(s: State, stream: string, cap: nat)
    requires Sound(s)
    ensures Reaches(s, stream, [], s, stream, cap)
  {
    hide Drain, NextRequest;
    assert [] + Drain(s, stream).answers == Drain(s, stream).answers;
  }

  lemma {:induction false} AfterOneField(s: State, f: FieldSpelling, more: seq<FieldSpelling>)
    ensures AfterFields(AfterFields(s, [f]), more) == AfterFields(s, [f] + more)
    ensures |EncodeFields([f])| == |FieldLine(f)| + 2
    ensures |EncodeFields([f] + more)| == |EncodeFields([f])| + |EncodeFields(more)|
  {
    hide FieldLine;
    assert [f][1..] == [] && ([f] + more)[1..] == more;
    assert EncodeFields([f]) == FieldLine(f) + CRLF + "";
    var h := s.request.headers;
    assert h + FieldsMeant([f]) + FieldsMeant(more) == h + (FieldsMeant([f]) + FieldsMeant(more));
  }

  // ----- Trailers

  function AfterTrailers(s: State, fields: seq<FieldSpelling>): State
  {
    s.(headBytes := s.headBytes + |EncodeFields(fields)|, fieldCount := s.fieldCount + |fields|)
  }

  lemma OneTrailer(s: State, f: FieldSpelling)
    requires Live(s) && s.phase == Trailers && Parser.ValidFieldParts(f.name, f.before, f.value, f.after)
    requires s.headBytes + |FieldLine(f)| + 2 <= MAX_HEAD_BYTES && s.fieldCount < MAX_FIELDS
    ensures HandleLine(s, FieldLine(f)) ==
            Onward(s.(headBytes := s.headBytes + |FieldLine(f)| + 2, fieldCount := s.fieldCount + 1))
  {
    FieldLinePlain(f);
    hide FieldLine, Parser.HeaderFieldOf;
  }

  lemma {:induction false} TrailersReach(s: State, fields: seq<FieldSpelling>, rest: string, cap: nat)
    requires Room(s, fields, cap) && s.phase == Trailers
    ensures Live(AfterTrailers(s, fields))
    ensures Reaches(s, EncodeFields(fields) + rest, [], AfterTrailers(s, fields), rest, cap)
    decreases |fields|
  {
    hide Drain, NextRequest, CapLineAt, FieldLine, HandleLine;
    if fields == [] {
      assert EncodeFields(fields) + rest == rest;
      NowhereReaches(s, rest, cap);
    } else {
      var f, more := fields[0], fields[1..];
      var line, tail := FieldLine(f), EncodeFields(more) + rest;
      assert EncodeFields(fields) + rest == line + CRLF + tail;
      OneTrailer(s, f);
      FieldLinePlain(f);
      LineReaches(s, line, tail, cap);
      var t := s.(headBytes := s.headBytes + |line| + 2, fieldCount := s.fieldCount + 1);
      TrailersReach(t, more, rest, cap);
      ReachesThen(s, line + CRLF + tail, [], t, tail, [], AfterTrailers(s, fields), rest, cap);
    }
  }

  // ----- Chunks

  lemma OneSize(s: State, size: string, ext: string, bytes: nat, cap: nat)
    requires Live(s) && s.phase == ChunkSize && WellFormedSize(size, ext, bytes, cap)
    requires |s.request.body| + bytes <= MAX_BODY_BYTES
    ensures HandleLine(s, size + ext) ==
            Onward(if bytes == 0 then s.(phase := Trailers) else s.(chunkBytes := bytes, phase := ChunkData))
  {
    ChunkSizeReadBack(size, ext);
    hide ChunkSizeOf;
  }

  lemma DataReaches(s: State, data: string, rest: string, cap: nat)
    requires Live(s) && s.phase == ChunkData && |data| == s.chunkBytes
    ensures var t := s.(request := s.request.(body := s.request.body + data), phase := ChunkSize);
            Live(t) && Reaches(s, data + CRLF + rest, [], t, rest, cap)
  {
    var w := data + CRLF + rest;
    var n := |data| + |CRLF|;
    assert w[..n] == data + CRLF && w[n..] == rest;
    assert (data + CRLF)[..|data|] == data && (data + CRLF)[|data|..] == CRLF;
    assert OneStep(s, w) ==
           Step(s.(request := s.request.(body := s.request.body + data), phase := ChunkSize), rest, None);
    assert !ReadsLines(s.phase);
    hide OneStep;
    StepReaches(s, w, cap);
  }

  function AfterChunks(s: State, chunks: seq<ChunkSpelling>): State
  {
    s.(request := s.request.(body := s.request.body + DataMeant(chunks)),
       chunkBytes := if chunks == [] then s.chunkBytes else |chunks[|chunks| - 1].data|)
  }

  /** One chunk: its size line, then its data and the CRLF that ends it. */
  lemma ChunkReaches(s: State, c: ChunkSpelling, rest: string, cap: nat)
    requires Live(s) && s.phase == ChunkSize && cap <= MAX_LINE_LENGTH
    requires c.data != "" && WellFormedSize(c.size, c.ext, |c.data|, cap)
    requires |s.request.body| + |c.data| <= MAX_BODY_BYTES
    ensures Live(AfterChunks(s, [c]))
    ensures Reaches(s, c.size + c.ext + CRLF + (c.data + CRLF + rest), [], AfterChunks(s, [c]), rest, cap)
  {
    hide Drain, NextRequest, CapLineAt, HandleLine;
    var sized := s.(chunkBytes := |c.data|, phase := ChunkData);
    var tail := c.data + CRLF + rest;
    OneSize(s, c.size, c.ext, |c.data|, cap);
    LineReaches(s, c.size + c.ext, tail, cap);
    DataReaches(sized, c.data, rest, cap);
    assert [c][1..] == [] && DataMeant([c]) == c.data + "" == c.data;
    assert AfterChunks(s, [c]) ==
           sized.(request := s.request.(body := s.request.body + c.data), phase := ChunkSize);
    ReachesThen(s, c.size + c.ext + CRLF + tail, [], sized, tail, [], AfterChunks(s, [c]), rest, cap);
  }

  lemma {:induction false} ChunksReach(s: State, chunks: seq<ChunkSpelling>, rest: string, cap: nat)
    requires Live(s) && s.phase == ChunkSize && cap <= MAX_LINE_LENGTH
    requires WellFormedChunks(chunks, cap) && |s.request.body| + |DataMeant(chunks)| <= MAX_BODY_BYTES
    ensures Live(AfterChunks(s, chunks))
    ensures Reaches(s, EncodeChunks(chunks) + rest, [], AfterChunks(s, chunks), rest, cap)
    decreases |chunks|
  {
    hide Drain, NextRequest, CapLineAt, HandleLine;
    if chunks == [] {
      assert EncodeChunks(chunks) + rest == rest;
      assert s.request.body + "" == s.request.body;
      NowhereReaches(s, rest, cap);
    } else {
      var c, more := chunks[0], chunks[1..];
      var tail := EncodeChunks(more) + rest;
      var all := c.size + c.ext + CRLF + (c.data + CRLF + tail);
      assert EncodeChunks(chunks) + rest == all;
      var t := AfterChunks(s, [c]);
      AfterOneChunk(s, c, more);
      ChunkReaches(s, c, tail, cap);
      ChunksReach(t, more, rest, cap);
      ReachesThen(s, all, [], t, tail, [], AfterChunks(s, chunks), rest, cap);
    }
  }

  lemma {:induction false} AfterOneChunk(s: State, c: ChunkSpelling, more: seq<ChunkSpelling>)
    ensures AfterChunks(AfterChunks(s, [c]), more) == AfterChunks(s, [c] + more)
    ensures |DataMeant([c])| == |c.data| && |DataMeant([c] + more)| == |c.data| + |DataMeant(more)|
  {
    assert [c][1..] == [] && ([c] + more)[1..] == more;
    assert DataMeant([c]) == c.data + "";
    var b := s.request.body;
    assert b + c.data + DataMeant(more) == b + (c.data + DataMeant(more));
  }

  // ----- The body, and the whole message

  lemma DeclaredFraming(headers: seq<Field>, version: Version, spelling: BodySpelling)
    requires Declares(headers, version, spelling) && |BodyMeant(spelling)| <= MAX_BODY_BYTES
    ensures BodyOf(headers, version) == if spelling.Whole? then Sized(|spelling.data|) else Chunked
  {
    ChunkedExactly(headers, version);
    var lengths := Values(headers, CONTENT_LENGTH);
    if spelling.Whole? && lengths != [] {
      var v := lengths[0];
      assert DigitsEnd(v, Ten, 0) == |v|;
      assert v[..|v|] == v;
    }
  }

  /** The state once the head and its fields have been read, before the blank line. */
  function AfterHead(m: Message): State { AfterFields(AfterStart(m), m.fields) }

  lemma HeadReaches(m: Message, rest: string, cap: nat)
    requires WellFormed(m, cap) && cap <= MAX_LINE_LENGTH
    ensures Live(AfterHead(m))
    ensures Reaches(FRESH, StartLine(m) + CRLF + (EncodeFields(m.fields) + rest), [], AfterHead(m), rest, cap)
  {
    hide Drain, NextRequest, CapLineAt, StartLine;
    var tail := EncodeFields(m.fields) + rest;
    var t := AfterStart(m);
    StartReaches(m, tail, cap);
    FieldsReach(t, m.fields, rest, cap);
    ReachesThen(FRESH, StartLine(m) + CRLF + tail, [], t, tail, [], AfterHead(m), rest, cap);
  }

  lemma BlankAfterHead(m: Message, cap: nat)
    requires WellFormed(m, cap) && Live(AfterHead(m))
    ensures var s := AfterHead(m);
            var charged := Charged(s, "");
            HandleLine(s, "") ==
              if m.spelling.Parts? then Onward(charged.(phase := ChunkSize))
              else if m.spelling.data == "" then Finish(charged)
              else Onward(charged.(bodyBytes := |m.spelling.data|, phase := Body))
  {
    hide BodyOf, AfterHead, FieldsMeant, StartLine, EncodeFields, HandleLine, Declares, DataMeant;
    AfterHeadRequest(m);
    DeclaredFraming(FieldsMeant(m.fields), m.version, m.spelling);
    BlankHandled(AfterHead(m));
  }

  /** A head that meets the host rule, and its blank line within the cap. */
  lemma BlankHandled(s: State)
    requires Live(s) && s.phase == Headers && s.headBytes + |CRLF| <= MAX_HEAD_BYTES
    requires var hosts := |Values(s.request.headers, HOST)|;
             hosts <= 1 && (s.request.version == Http11 ==> hosts == 1)
    ensures var charged := Charged(s, "");
            var framing := BodyOf(s.request.headers, s.request.version);
            && (framing == Chunked ==> HandleLine(s, "") == Onward(charged.(phase := ChunkSize)))
            && (framing.Sized? && framing.bytes <= MAX_BODY_BYTES ==>
                  HandleLine(s, "") == if framing.bytes == 0 then Finish(charged.(bodyBytes := 0))
                                       else Onward(charged.(bodyBytes := framing.bytes, phase := Body)))
  {
    hide BodyOf, Values;
  }

  /** A blank line read in a state with room for it. */
  lemma BlankReaches(s: State, rest: string, cap: nat)
    requires Live(s) && ReadsLines(s.phase) && cap <= MAX_LINE_LENGTH
    ensures var o := HandleLine(s, "");
            && Sound(o.state) && Reaches(s, CRLF + rest, Answered(Then(o, rest)), o.state, rest, cap)
            && GivesNext(s, CRLF + rest, Then(o, rest))
  {
    hide HandleLine, Drain, CapLineAt;
    assert "" + CRLF + rest == CRLF + rest;
    LineReaches(s, "", rest, cap);
  }

  ghost predicate ReadBack(s: State, stream: string, request: Request, rest: string, cap: nat)
    requires Sound(s)
  {
    && NextRequest(s, stream).1 == rest && NextRequest(s, stream).2 == Delivery(request)
    && exists t: State :: Sound(t) && Same(t, FRESH) && Reaches(s, stream, [Delivery(request)], t, rest, cap)
  }

  lemma {:induction false} FinishReadsBack(s: State, stream: string, last: State, rest: string, request: Request,
                                           cap: nat)
    requires Sound(s) && Live(last) && last.request == request
    requires Reaches(s, stream, [Delivery(request)], Armed(last), rest, cap)
    requires NextRequest(s, stream) == (Armed(last), rest, Delivery(request))
    ensures ReadBack(s, stream, request, rest, cap)
  {
    hide Reaches;
    assert Same(Armed(last), FRESH);
  }

  lemma AfterHeadRequest(m: Message)
    ensures AfterHead(m).request == Request(m.verb, m.target, m.version, FieldsMeant(m.fields), "")
    ensures AfterHead(m).phase == Headers && AfterHead(m).fieldCount == |m.fields|
    ensures AfterHead(m).headBytes == |StartLine(m)| + 2 + |EncodeFields(m.fields)|
  {
    assert [] + FieldsMeant(m.fields) == FieldsMeant(m.fields);
  }

  lemma {:induction false} BodyReaches(s: State, data: string, rest: string, cap: nat)
    requires Live(s) && s.phase == Body && |data| == s.bodyBytes
    ensures var last := s.(request := s.request.(body := data));
            && Live(last) && Reaches(s, data + rest, [Delivery(last.request)], Armed(last), rest, cap)
            && NextRequest(s, data + rest) == (Armed(last), rest, Delivery(last.request))
  {
    var w := data + rest;
    assert w[..|data|] == data && w[|data|..] == rest;
    assert OneStep(s, w) == Then(Finish(s.(request := s.request.(body := data))), rest);
    assert !ReadsLines(s.phase);
    hide OneStep;
    StepReaches(s, w, cap);
  }

  lemma WholeBodyRead(m: Message, rest: string, cap: nat)
    requires WellFormed(m, cap) && cap <= MAX_LINE_LENGTH && m.spelling.Whole? && Live(AfterHead(m))
    ensures ReadBack(AfterHead(m), CRLF + (m.spelling.data + rest), RequestMeant(m), rest, cap)
  {
    var s, data := AfterHead(m), m.spelling.data;
    var charged := Charged(s, "");
    AfterHeadRequest(m);
    assert HeadCharge(m) == s.headBytes + 2;
    BlankAfterHead(m, cap);
    BlankReaches(s, data + rest, cap);
    assert RequestMeant(m) == charged.request.(body := data);
    hide HandleLine, Drain, NextRequest, CapLineAt, AfterHead, RequestMeant, WellFormed, Reaches;
    if data == "" {
      assert "" + rest == rest;
      FinishReadsBack(s, CRLF + (data + rest), charged, rest, RequestMeant(m), cap);
    } else {
      var t := charged.(bodyBytes := |data|, phase := Body);
      SizedBodyRead(t, data, rest, cap);
      hide ReadBack;
      ReadBackAfter(s, CRLF + (data + rest), t, data + rest, RequestMeant(m), rest, cap);
    }
  }

  lemma SizedBodyRead(s: State, data: string, rest: string, cap: nat)
    requires Live(s) && s.phase == Body && |data| == s.bodyBytes
    ensures ReadBack(s, data + rest, s.request.(body := data), rest, cap)
  {
    var last := s.(request := s.request.(body := data));
    BodyReaches(s, data, rest, cap);
    hide Drain, NextRequest, CapLineAt, Reaches;
    FinishReadsBack(s, data + rest, last, rest, last.request, cap);
  }

  lemma {:induction false} NextAfter(s: State, a: string, t: State, b: string, cap: nat)
    requires Sound(s) && Sound(t) && Reaches(s, a, [], t, b, cap)
    ensures NextRequest(s, a) == NextRequest(t, b)
  {
    hide NextRequest, Drain, CapLineAt;
  }

  lemma ReadBackAfter(s: State, a: string, t: State, b: string, request: Request, rest: string, cap: nat)
    requires Sound(s) && Sound(t) && Reaches(s, a, [], t, b, cap) && ReadBack(t, b, request, rest, cap)
    ensures ReadBack(s, a, request, rest, cap)
  {
    hide Reaches, NextRequest, Drain, CapLineAt;
    NextAfter(s, a, t, b, cap);
    var u: State :| Sound(u) && Same(u, FRESH) && Reaches(t, b, [Delivery(request)], u, rest, cap);
    ReachesThen(s, a, [], t, b, [Delivery(request)], u, rest, cap);
    assert [] + [Delivery(request)] == [Delivery(request)];
  }

  /** The end of a chunked message: the trailers and the last blank line. */
  lemma {:induction false} TrailersRead(s: State, trailers: seq<FieldSpelling>, rest: string, cap: nat)
    requires s.phase == Trailers && Room(s, trailers, cap)
    requires s.headBytes + |EncodeFields(trailers)| + 2 <= MAX_HEAD_BYTES
    ensures ReadBack(s, EncodeFields(trailers) + (CRLF + rest), s.request, rest, cap)
  {
    var u := AfterTrailers(s, trailers);
    var last := Charged(u, "");
    TrailersReach(s, trailers, CRLF + rest, cap);
    BlankReaches(u, rest, cap);
    assert HandleLine(u, "") == Finish(last);
    hide HandleLine, Reaches, Room;
    FinishReadsBack(u, CRLF + rest, last, rest, s.request, cap);
    ReadBackAfter(s, EncodeFields(trailers) + (CRLF + rest), u, CRLF + rest, s.request, rest, cap);
  }

  lemma {:induction false} LastChunkRead(s: State, zero: string, ext: string, trailers: seq<FieldSpelling>,
                                         rest: string, cap: nat)
    requires Live(s) && s.phase == ChunkSize && WellFormedSize(zero, ext, 0, cap)
    requires Room(s, trailers, cap) && s.headBytes + |EncodeFields(trailers)| + 2 <= MAX_HEAD_BYTES
    ensures ReadBack(s, zero + ext + CRLF + (EncodeFields(trailers) + (CRLF + rest)), s.request, rest, cap)
  {
    var t := s.(phase := Trailers);
    var ending := EncodeFields(trailers) + (CRLF + rest);
    OneSize(s, zero, ext, 0, cap);
    LineReaches(s, zero + ext, ending, cap);
    TrailersRead(t, trailers, rest, cap);
    hide HandleLine, Reaches, ReadBack;
    ReadBackAfter(s, zero + ext + CRLF + ending, t, ending, s.request, rest, cap);
  }

  lemma PartsEncoded(spelling: BodySpelling, rest: string)
    requires spelling.Parts?
    ensures var Parts(chunks, zero, ext, trailers) := spelling;
            EncodeBody(spelling) + rest ==
              EncodeChunks(chunks) + (zero + ext + CRLF + (EncodeFields(trailers) + (CRLF + rest)))
  {
    hide EncodeChunks, EncodeFields;
  }

  lemma PartsRead(m: Message, rest: string, cap: nat)
    requires WellFormed(m, cap) && cap <= MAX_LINE_LENGTH && m.spelling.Parts? && Live(AfterHead(m))
    ensures ReadBack(AfterHead(m), CRLF + (EncodeBody(m.spelling) + rest), RequestMeant(m), rest, cap)
  {
    hide Reaches, ReadBack, HandleLine, AfterHead, EncodeFields, EncodeChunks, EncodeBody, FieldsMeant, StartLine;
    var s := AfterHead(m);
    var Parts(chunks, zero, ext, trailers) := m.spelling;
    var t := Charged(s, "").(phase := ChunkSize);
    var ending := zero + ext + CRLF + (EncodeFields(trailers) + (CRLF + rest));
    var sizes := EncodeChunks(chunks) + ending;
    PartsEncoded(m.spelling, rest);
    AfterHeadRequest(m);
    BlankAfterHead(m, cap);
    BlankReaches(s, sizes, cap);
    var u := AfterChunks(t, chunks);
    assert "" + DataMeant(chunks) == DataMeant(chunks);
    ChunksReach(t, chunks, ending, cap);
    LastChunkRead(u, zero, ext, trailers, rest, cap);
    ReadBackAfter(t, sizes, u, ending, RequestMeant(m), rest, cap);
    ReadBackAfter(s, CRLF + sizes, t, sizes, RequestMeant(m), rest, cap);
  }

  lemma EncodeParts(m: Message, rest: string)
    ensures Encode(m) + rest ==
            StartLine(m) + CRLF + (EncodeFields(m.fields) + (CRLF + (EncodeBody(m.spelling) + rest)))
    ensures m.spelling.Whole? ==> EncodeBody(m.spelling) == m.spelling.data
  {
    hide EncodeFields, StartLine, EncodeChunks;
  }

  /** One message, whatever follows it. */
  lemma MessageRead(m: Message, rest: string, cap: nat)
    requires WellFormed(m, cap) && cap <= MAX_LINE_LENGTH
    ensures ReadBack(FRESH, Encode(m) + rest, RequestMeant(m), rest, cap)
  {
    var body := CRLF + (EncodeBody(m.spelling) + rest);
    EncodeParts(m, rest);
    hide Encode, EncodeBody, EncodeFields, StartLine, Reaches, ReadBack;
    HeadReaches(m, body, cap);
    if m.spelling.Whole? {
      WholeBodyRead(m, rest, cap);
    } else {
      PartsRead(m, rest, cap);
    }
    ReadBackAfter(FRESH, StartLine(m) + CRLF + (EncodeFields(m.fields) + body), AfterHead(m), body,
                  RequestMeant(m), rest, cap);
  }

  lemma {:induction false} CapLinesSame(a: State, b: State, stream: string, k: nat)
    requires Sound(a) && Sound(b) && Same(a, b)
    ensures CapLineAt(a, stream, k) == CapLineAt(b, stream, k)
    decreases |stream|, if a.failure == NoError then 1 else 0
  {
    hide OneStep;
    if a.failure != NoError {
    } else {
      StepSame(a, b, stream);
      var x, y := OneStep(a, stream), OneStep(b, stream);
      var used := |stream| - |x.unread|;
      if !Waits(x) && used <= k {
        CapLinesSame(x.state, y.state, x.unread, k - used);
      }
    }
  }

  /** A stream of well-formed messages, drained whole, gives exactly the requests meant, in order, with nothing left
      unread and the reader as new. */
  lemma {:induction false} MessagesRead(messages: seq<Message>, cap: nat)
    requires cap <= MAX_LINE_LENGTH && forall i :: 0 <= i < |messages| ==> WellFormed(messages[i], cap)
    ensures SameRun(Drain(FRESH, EncodeAll(messages)), Run(DeliveriesMeant(messages), FRESH, ""))
    ensures cap < MAX_LINE_LENGTH ==> NoCapLines(FRESH, EncodeAll(messages))
    decreases |messages|
  {
    if messages == [] {
      assert FirstLine("") == NothingYet;
      assert OneStep(FRESH, "") == Wait(FRESH, "");
    } else {
      var m, rest := messages[0], EncodeAll(messages[1..]);
      MessagesRead(messages[1..], cap);
      MessageRead(m, rest, cap);
      hide WellFormed, Drain, NextRequest, CapLineAt, Encode;
      var t: State :| Sound(t) && Same(t, FRESH) &&
                      Reaches(FRESH, Encode(m) + rest, [Delivery(RequestMeant(m))], t, rest, cap);
      DrainSame(t, FRESH, rest);
      forall k: nat ensures CapLineAt(t, rest, k) == CapLineAt(FRESH, rest, k) {
        CapLinesSame(t, FRESH, rest, k);
      }
    }
  }

  lemma {:induction false} NoSplits(s: State, stream: string, at: nat, pieces: seq<string>)
    requires Sound(s) && NoCapLines(s, stream)
    ensures !SplitsCapLine(s, stream, at, pieces)
    decreases |pieces|
  {
    hide CapLineAt;
    if |pieces| < 2 {
    } else {
      NoSplits(s, stream, at + |pieces[0]|, pieces[1..]);
    }
  }

  /** The round trip: whatever pieces the stream arrives in, the requests come back, as long as every line is shorter
      than the cap or no cut falls inside the CRLF of a line of exactly the cap. */
  lemma {:induction false} FramingRoundTrip(messages: seq<Message>, pieces: seq<string>, cap: nat)
    requires cap <= MAX_LINE_LENGTH && forall i :: 0 <= i < |messages| ==> WellFormed(messages[i], cap)
    requires Flatten(pieces) == EncodeAll(messages)
    requires cap < MAX_LINE_LENGTH || !SplitsCapLine(FRESH, EncodeAll(messages), 0, pieces)
    ensures SameRun(Feed(FRESH, "", pieces), Run(DeliveriesMeant(messages), FRESH, ""))
  {
    MessagesRead(messages, cap);
    hide WellFormed, Drain, NextRequest, CapLineAt;
    assert "" + Flatten(pieces) == EncodeAll(messages);
    assert Settled(FRESH, "") by { FreshSettled(); }
    if cap < MAX_LINE_LENGTH {
      NoSplits(FRESH, EncodeAll(messages), 0, pieces);
    }
    SegmentationIndependence(FRESH, "", pieces);
  }
}
