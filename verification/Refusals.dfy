/** Which error each wrong message is refused with, told from the bytes
    (src/http/request_reader.cpp:209-319, 355-405). */
module Refusals {
  import opened Text
  import opened Ascii
  import opened Messages
  import opened LineReading
  import opened Framing
  import opened ReaderModel
  import opened RoundTrip
  import Parser = RequestParser

  /** The next answer from `s` is this failure, and it latches. */
  predicate FailsWith(s: State, stream: string, error: RequestError)
    requires Sound(s)
  {
    && NextRequest(s, stream).2 == RequestResult(error, None, false, s.request.version)
    && NextRequest(s, stream).0.failure == error
  }

  lemma LineNext(s: State, line: string, rest: string)
    requires Live(s) && ReadsLines(s.phase) && OneLine(line) && |line| <= MAX_LINE_LENGTH
    ensures OneStep(s, line + CRLF + rest) == Then(HandleLine(s, line), rest)
  {
    hide HandleLine;
    LineFound(line, rest);
  }

  /** A complete line whose handler fails. */
  lemma LineFails(s: State, line: string, rest: string, error: RequestError)
    requires Live(s) && ReadsLines(s.phase) && OneLine(line) && |line| <= MAX_LINE_LENGTH
    requires var o := HandleLine(s, line);
             o.state.failure == error && o.answer == Some(RequestResult(error, None, false, s.request.version))
    ensures FailsWith(s, line + CRLF + rest, error)
  {
    hide HandleLine, OneStep;
    LineNext(s, line, rest);
  }

  // ----- Lines of any kind

  /** No line ends within the cap: which error that is depends on what the line was to be. */
  lemma LongLineRefused(s: State, stream: string)
    requires Live(s) && ReadsLines(s.phase)
    requires |stream| > MAX_LINE_LENGTH && forall k :: 0 <= k <= MAX_LINE_LENGTH ==> !CrlfAt(stream, k)
    ensures s.phase == RequestLine ==> FailsWith(s, stream, RequestLineTooLong)
    ensures s.phase == Headers || s.phase == Trailers ==> FailsWith(s, stream, HeaderTooLong)
    ensures s.phase == ChunkSize ==> FailsWith(s, stream, RequestError.Malformed)
  {
    hide HandleLine;
    assert FirstLine(stream) == LineTooLong;
  }

  /** Every line but a chunk size is charged to the head, its terminator included, before anything else is asked. */
  lemma FullHeadRefused(s: State, line: string, rest: string)
    requires Live(s) && OneLine(line) && |line| <= MAX_LINE_LENGTH
    requires s.phase == RequestLine || s.phase == Headers || s.phase == Trailers
    requires s.headBytes + |line| + 2 > MAX_HEAD_BYTES
    ensures FailsWith(s, line + CRLF + rest, HeadTooLarge)
  {
    assert HandleLine(s, line) == Fail(Charged(s, line), HeadTooLarge);
    hide HandleLine;
    LineFails(s, line, rest, HeadTooLarge);
  }

  // ----- Request lines

  lemma PlainPartsOneLine(verb: string, target: string, version: string)
    requires Parser.PlainPart(verb) && Parser.PlainPart(target) && Parser.PlainPart(version)
    ensures OneLine(verb + " " + target + " " + version)
  {
    Parser.PlainLine(verb, target, version);
    var line := verb + " " + target + " " + version;
    assert forall k :: 0 <= k < |line| ==> !IsControl(line[k]);
  }

  lemma StartFails(line: string, rest: string, error: Parser.ParseError)
    requires OneLine(line) && |line| <= MAX_LINE_LENGTH && Parser.RequestLineOf(line) == Parser.Refused(error)
    ensures error == Parser.Malformed ==> FailsWith(FRESH, line + CRLF + rest, RequestError.Malformed)
    ensures error == Parser.UnknownMethod ==> FailsWith(FRESH, line + CRLF + rest, RequestError.UnknownMethod)
    ensures error == Parser.UnsupportedVersion ==>
              FailsWith(FRESH, line + CRLF + rest, RequestError.UnsupportedVersion)
  {
    hide Parser.RequestLineOf;
    var o := HandleLine(FRESH, line);
    hide HandleLine, FailsWith;
    LineFails(FRESH, line, rest, o.state.failure);
  }

  /** A first line of three plain parts, refused for the first thing wrong with them. */
  lemma {:induction false} StartRefused(verb: string, target: string, version: string, rest: string)
    requires Parser.PlainPart(verb) && Parser.PlainPart(target) && Parser.PlainPart(version)
    requires |verb + " " + target + " " + version| <= MAX_LINE_LENGTH
    ensures var stream := verb + " " + target + " " + version + CRLF + rest;
            && (!Parser.VersionShape(version) ==> FailsWith(FRESH, stream, RequestError.Malformed))
            && (Parser.VersionShape(version) && !Parser.IsSpoken(version) ==>
                  FailsWith(FRESH, stream, RequestError.UnsupportedVersion))
            && (Parser.IsSpoken(version) && !Parser.ValidEscapes(target) ==>
                  FailsWith(FRESH, stream, RequestError.Malformed))
            && (Parser.IsSpoken(version) && Parser.ValidEscapes(target) && (forall m :: verb != MethodName(m)) ==>
                  FailsWith(FRESH, stream, RequestError.UnknownMethod))
  {
    PlainPartsOneLine(verb, target, version);
    hide FailsWith, OneLine, Parser.PlainPart, Parser.VersionShape, Parser.ValidEscapes, Parser.RequestLineOf;
    Parser.PartsRefused(verb, target, version);
    var line := verb + " " + target + " " + version;
    var parsed := Parser.RequestLineOf(line);
    if parsed.Refused? {
      StartFails(line, rest, parsed.error);
    }
  }

  /** Any other first line is malformed. */
  lemma StartMalformed(line: string, rest: string)
    requires OneLine(line) && |line| <= MAX_LINE_LENGTH
    requires forall a, b, c :: Parser.PlainPart(a) && Parser.PlainPart(b) && Parser.PlainPart(c) ==>
                                 line != a + " " + b + " " + c
    ensures FailsWith(FRESH, line + CRLF + rest, RequestError.Malformed)
  {
    Parser.OtherLinesMalformed(line);
    hide FailsWith;
    StartFails(line, rest, Parser.Malformed);
  }

  // ----- Field lines

  /** A line spells a field when some name and value are written in it. */
  ghost predicate SpellsField(line: string) {
    exists name, before, value, after ::
      Parser.ValidFieldParts(name, before, value, after) && line == Parser.PrintField(name, before, value, after)
  }

  lemma FieldSpelled(line: string)
    ensures Parser.HeaderFieldOf(line).Some? <==> SpellsField(line)
  {
    hide Parser.HeaderFieldOf, Parser.PrintField, Parser.ValidFieldParts;
    if Parser.HeaderFieldOf(line).Some? {
      var field := Parser.HeaderFieldOf(line).value;
      var name, before, after := Parser.FieldAccepted(line, field);
    }
    if name, before, value, after :| Parser.ValidFieldParts(name, before, value, after)
                                     && line == Parser.PrintField(name, before, value, after) {
      Parser.FieldReadBack(name, before, value, after);
    }
  }

  /** In a header section as in a trailer section: one field too many, whatever it says; else a line that is none. */
  lemma FieldRefused(s: State, line: string, rest: string)
    requires Live(s) && (s.phase == Headers || s.phase == Trailers)
    requires OneLine(line) && line != "" && |line| <= MAX_LINE_LENGTH && s.headBytes + |line| + 2 <= MAX_HEAD_BYTES
    ensures s.fieldCount == MAX_FIELDS ==> FailsWith(s, line + CRLF + rest, TooManyHeaders)
    ensures s.fieldCount < MAX_FIELDS && !SpellsField(line) ==> FailsWith(s, line + CRLF + rest, RequestError.Malformed)
  {
    FieldSpelled(line);
    hide Parser.HeaderFieldOf, SpellsField;
    var o := HandleLine(s, line);
    if o.answer.Some? {
      hide HandleLine, FailsWith, OneLine;
      LineFails(s, line, rest, o.state.failure);
    }
  }

  // ----- The end of the head

  predicate HostsAllowed(headers: seq<Field>, version: Version) {
    var hosts := |Values(headers, HOST)|;
    hosts <= 1 && (version == Http11 ==> hosts == 1)
  }

  lemma HeadFails(s: State, rest: string, error: RequestError)
    requires Live(s) && s.phase == Headers && s.headBytes + 2 <= MAX_HEAD_BYTES
    requires var headers, version := s.request.headers, s.request.version;
             if HostsAllowed(headers, version) then BodyOf(headers, version) == Refused(error)
             else error == RequestError.Malformed
    ensures FailsWith(s, CRLF + rest, error)
  {
    hide BodyOf, Values;
    var o := HandleLine(s, "");
    assert "" + CRLF + rest == CRLF + rest;
    hide HandleLine, FailsWith;
    LineFails(s, "", rest, error);
  }

  /** A head is refused for its hosts first, then for its framing; the three errors are told apart by the fields. */
  lemma HeadRefused(s: State, rest: string)
    requires Live(s) && s.phase == Headers && s.headBytes + 2 <= MAX_HEAD_BYTES
    ensures var headers, version := s.request.headers, s.request.version;
            var lengths, codings := Values(headers, CONTENT_LENGTH), CodingsOf(headers);
            var coded := Values(headers, TRANSFER_ENCODING) != [];
            var last := codings != [] && IsChunked(codings[|codings| - 1]);
            var before := exists i :: 0 <= i < |codings| - 1 && IsChunked(codings[i]);
            && (!HostsAllowed(headers, version) ==> FailsWith(s, CRLF + rest, RequestError.Malformed))
            && (HostsAllowed(headers, version) && coded && (lengths != [] || version == Http10 || !last || before) ==>
                  FailsWith(s, CRLF + rest, RequestError.Malformed))
            && ((HostsAllowed(headers, version) && coded && lengths == [] && version == Http11
                 && last && !before && |codings| > 1) ==>
                  FailsWith(s, CRLF + rest, UnsupportedTransferEncoding))
            && (HostsAllowed(headers, version) && !coded && |lengths| > 1 ==>
                  FailsWith(s, CRLF + rest, RequestError.Malformed))
  {
    var headers, version := s.request.headers, s.request.version;
    MalformedExactly(headers, version);
    UnsupportedExactly(headers, version);
    hide FailsWith, BodyOf, Values, CodingsOf, IsChunked, HostsAllowed, Oversized;
    if !HostsAllowed(headers, version) {
      HeadFails(s, rest, RequestError.Malformed);
    } else if BodyOf(headers, version).Refused? {
      HeadFails(s, rest, BodyOf(headers, version).error);
    }
  }

  /** And for its one declared length: no number at all, or one too large even to skip. */
  lemma LengthRefused(s: State, rest: string)
    requires Live(s) && s.phase == Headers && s.headBytes + 2 <= MAX_HEAD_BYTES
    requires HostsAllowed(s.request.headers, s.request.version)
    requires Values(s.request.headers, TRANSFER_ENCODING) == [] && |Values(s.request.headers, CONTENT_LENGTH)| == 1
    ensures var value := Values(s.request.headers, CONTENT_LENGTH)[0];
            && (Oversized(value, Ten, MAX_DRAIN_BYTES) ==> FailsWith(s, CRLF + rest, BodyTooLarge))
            && (!Oversized(value, Ten, MAX_DRAIN_BYTES) && (value == "" || !AllDigits(value, Ten)) ==>
                  FailsWith(s, CRLF + rest, RequestError.Malformed))
  {
    var headers, version := s.request.headers, s.request.version;
    MalformedExactly(headers, version);
    TooLargeExactly(headers, version);
    hide FailsWith, BodyOf, Values, CodingsOf, HostsAllowed, Oversized, AllDigits;
    if BodyOf(headers, version).Refused? {
      HeadFails(s, rest, BodyOf(headers, version).error);
    }
  }

  // ----- Chunks

  /** A chunk-size line: what stands before its extension is no size, or a chunk that leaves the body too large. */
  lemma {:induction false} ChunkSizeLineRefused(s: State, line: string, rest: string)
    requires Live(s) && s.phase == ChunkSize && OneLine(line) && |line| <= MAX_LINE_LENGTH
    ensures var size := line[..Find(line, ';', 0)];
            && (Oversized(size, Sixteen, MAX_BODY_BYTES) ==> FailsWith(s, line + CRLF + rest, BodyTooLarge))
            && (!Oversized(size, Sixteen, MAX_BODY_BYTES) && (size == "" || !AllDigits(size, Sixteen)) ==>
                  FailsWith(s, line + CRLF + rest, RequestError.Malformed))
            && ((size != "" && AllDigits(size, Sixteen)
                 && |s.request.body| + Numeral(size, Sixteen) > MAX_BODY_BYTES) ==>
                  FailsWith(s, line + CRLF + rest, BodyTooLarge))
  {
    var size := line[..Find(line, ';', 0)];
    ChunkSizeRefused(line);
    if size != "" && AllDigits(size, Sixteen) {
      SizeOrOversized(line, size);
    }
    hide ChunkSizeOf, Oversized, AllDigits, Numeral, OneLine, HandleLine, FailsWith;
    var number := ChunkSizeOf(line);
    ChunkSizeHandled(s, line);
    if number.Refused? {
      LineFails(s, line, rest, number.error);
    } else if |s.request.body| + number.bytes > MAX_BODY_BYTES {
      LineFails(s, line, rest, BodyTooLarge);
    }
  }

  lemma ChunkSizeHandled(s: State, line: string)
    requires Live(s) && s.phase == ChunkSize
    ensures var number := ChunkSizeOf(line);
            && !number.Chunked?
            && (number.Refused? ==> HandleLine(s, line) == Fail(s, number.error))
            && (number.Sized? && |s.request.body| + number.bytes > MAX_BODY_BYTES ==>
                  HandleLine(s, line) == Fail(s, BodyTooLarge))
  {
    assert !ChunkSizeOf(line).Chunked?;
    hide ChunkSizeOf;
  }

  lemma {:induction false} SizeOrOversized(line: string, size: string)
    requires size == line[..Find(line, ';', 0)] && size != "" && AllDigits(size, Sixteen)
    ensures ChunkSizeOf(line) == if Numeral(size, Sixteen) <= MAX_BODY_BYTES then Sized(Numeral(size, Sixteen))
                                 else Refused(BodyTooLarge)
  {
    assert DigitsEnd(size, Sixteen, 0) == |size| && size[..|size|] == size;
  }

  /** Chunk data has to end where its size said it would. */
  lemma ChunkEndRefused(s: State, stream: string)
    requires Live(s) && s.phase == ChunkData && |stream| >= s.chunkBytes + 2
    requires stream[s.chunkBytes..s.chunkBytes + 2] != CRLF
    ensures FailsWith(s, stream, RequestError.Malformed)
  {
    var chunk := stream[..s.chunkBytes + 2];
    assert chunk[s.chunkBytes..] == stream[s.chunkBytes..s.chunkBytes + 2];
    assert OneStep(s, stream) == Then(Fail(s, RequestError.Malformed), stream[s.chunkBytes + 2..]);
    hide OneStep;
  }
}
