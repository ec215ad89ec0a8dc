/** What is true of every request the reader hands over, in any run (src/http/request_reader.cpp:134-175, 231-353).

    `Assembling` is the invariant of the half-built request; `Delivered` is what it comes to when one is handed
    over. */
module Delivered {
  import opened Text
  import opened Ascii
  import opened Messages
  import opened FieldList
  import opened LineReading
  import opened Framing
  import opened ReaderModel
  import opened Segmentation
  import Composition
  import Parser = RequestParser

  /** A stored field: a folded token and a bare, legal value. */
  predicate StoredField(field: Field) {
    Parser.IsToken(field.name) && LowerText(field.name) == field.name
    && Trimmed(field.value) && Parser.IsValueText(field.value)
  }

  predicate StoredFields(headers: seq<Field>) { forall i :: 0 <= i < |headers| ==> StoredField(headers[i]) }

  /** How many Host fields a version allows. */
  predicate HostRule(request: Request) {
    var hosts := |Values(request.headers, HOST)|;
    hosts <= 1 && (request.version == Http11 ==> hosts == 1)
  }

  /** A head that has been accepted, with the framing it was accepted for. */
  predicate Head(request: Request, framing: BodyLength) {
    && Parser.ValidTarget(request.target)
    && StoredFields(request.headers) && |request.headers| <= MAX_FIELDS
    && HostRule(request)
    && BodyOf(request.headers, request.version) == framing
  }

  predicate Delivered(request: Request) {
    && |request.body| <= MAX_BODY_BYTES
    && (Head(request, Sized(|request.body|)) || Head(request, Chunked))
  }

  predicate Assembling(s: State) {
    && Sound(s)
    && (s.failure == NoError ==>
          match s.phase
          case RequestLine => s.request == BLANK_REQUEST && s.fieldCount == 0
          case Headers =>
            Parser.ValidTarget(s.request.target) && StoredFields(s.request.headers)
            && |s.request.headers| == s.fieldCount && s.request.body == ""
          case Body => Head(s.request, Sized(s.bodyBytes))
          case Discard => true
          case _ => Head(s.request, Chunked))
  }

  predicate AllDelivered(answers: seq<RequestResult>) {
    forall i :: 0 <= i < |answers| && answers[i].request.Some? ==> Delivered(answers[i].request.value)
  }

  /** Framing and Host are decided by the headers alone, and never both framings at once. */
  lemma DeliveredFraming(request: Request)
    requires Delivered(request)
    ensures |Values(request.headers, HOST)| <= 1 && (request.version == Http11 ==> |Values(request.headers, HOST)| == 1)
    ensures Values(request.headers, CONTENT_LENGTH) == [] || Values(request.headers, TRANSFER_ENCODING) == []
    ensures (Values(request.headers, CONTENT_LENGTH) == [] && Values(request.headers, TRANSFER_ENCODING) == []) ==>
              request.body == ""
    ensures Values(request.headers, CONTENT_LENGTH) != [] ==>
              var lengths := Values(request.headers, CONTENT_LENGTH);
              |lengths| == 1 && ContentLengthOf(lengths[0]) == Sized(|request.body|)
    ensures Values(request.headers, TRANSFER_ENCODING) != [] ==>
              request.version == Http11 && |CodingsOf(request.headers)| == 1 && IsChunked(CodingsOf(request.headers)[0])
  {
    ChunkedExactly(request.headers, request.version);
  }

  lemma ParsedFieldStored(line: string)
    requires Parser.HeaderFieldOf(line).Some?
    ensures StoredField(Parser.HeaderFieldOf(line).value)
    ensures LowerText(Parser.HeaderFieldOf(line).value.name) == Parser.HeaderFieldOf(line).value.name
  {
    var field := Parser.HeaderFieldOf(line).value;
    var name, before, after := Parser.FieldAccepted(line, field);
    LowerTwice(name);
    assert forall i :: 0 <= i < |name| ==> IsTchar(Lower(name[i]));
  }

  lemma HeadCompleted(s: State)
    requires Live(s) && s.phase == Headers && Assembling(s)
    ensures var o := CompleteHead(s);
            && Assembling(o.state)
            && (o.answer.Some? && o.answer.value.request.Some? ==> Delivered(o.answer.value.request.value))
  {
    hide BodyOf, Parser.ValidTarget, StoredFields;
    CompleteHeadProper(s);
    var body := BodyOf(s.request.headers, s.request.version);
    if HostRule(s.request) && body == Chunked {
      assert Head(s.request, Chunked);
    } else if HostRule(s.request) && body.Sized? {
      assert Head(s.request, body);
    }
  }

  lemma FieldStored(s: State, line: string)
    requires Live(s) && s.phase == Headers && Assembling(s) && line != ""
    ensures Assembling(HandleFieldLine(s, line).state) && (HandleFieldLine(s, line).answer.Some? ==>
              HandleFieldLine(s, line).answer.value.request == None)
  {
    FieldLineProper(s, line);
    if Parser.HeaderFieldOf(line).Some? {
      ParsedFieldStored(line);
    }
    hide Parser.HeaderFieldOf;
  }

  lemma RequestLineStored(s: State, line: string)
    requires Live(s) && s.phase == RequestLine && Assembling(s)
    ensures Assembling(HandleRequestLine(s, line).state) && (HandleRequestLine(s, line).answer.Some? ==>
              HandleRequestLine(s, line).answer.value.request == None)
  {
    var parsed := Parser.RequestLineOf(line);
    if parsed.Parsed? {
      Parser.RequestLineAccepted(line, parsed.verb, parsed.target, parsed.version);
    }
    hide Parser.RequestLineOf, Parser.ValidTarget;
  }

  /** Trailers are checked and dropped: nothing after the head touches what the head was accepted for. */
  lemma TrailerDropped(s: State, line: string)
    requires Live(s) && s.phase == Trailers && Assembling(s)
    ensures var o := HandleTrailerLine(s, line);
            && Assembling(o.state)
            && (o.answer.Some? && o.answer.value.request.Some? ==>
                  o.answer.value.request.value == s.request && Delivered(s.request))
            && (o.answer == None ==> o.state.request == s.request)
  {
    FieldLineProper(s, line);
    hide Parser.HeaderFieldOf, Head;
  }

  predicate SameHead(a: Request, b: Request) { a.(body := "") == b.(body := "") }

  predicate PastHead(s: State) {
    s.phase == Body || s.phase == ChunkSize || s.phase == ChunkData || s.phase == Trailers
  }

  /** Once the head is accepted no turn changes it: body bytes are only ever added behind those already there, trailers
      are dropped, and what is handed over is the request whose head was accepted. */
  lemma HeadUntouched(s: State, unread: string)
    requires Live(s) && PastHead(s)
    ensures var step := OneStep(s, unread);
            if step.answer.Some? && step.answer.value.request.Some? then
              var handed := step.answer.value.request.value;
              SameHead(handed, s.request)
              && (if s.phase == Body then |handed.body| == s.bodyBytes && handed.body <= unread
                  else handed.body == s.request.body)
            else
              step.state.failure == NoError ==>
                && PastHead(step.state) && SameHead(step.state.request, s.request)
                && s.request.body <= step.state.request.body
  {
    hide Parser.HeaderFieldOf, ChunkSizeOf, Parser.RequestLineOf, BodyOf, FirstLine;
  }

  /** What an answer may be while a head already accepted is being completed: that request, or a failure. */
  predicate Completes(answer: RequestResult, head: Request) {
    answer.request.Some? ==> SameHead(answer.request.value, head)
  }

  /** Up to its delivery, however many turns the driver takes. */
  lemma {:induction false} HeadKept(s: State, unread: string)
    requires Live(s) && PastHead(s)
    ensures Completes(NextRequest(s, unread).2, s.request)
    decreases |unread|
  {
    hide OneStep, PastHead;
    var step := OneStep(s, unread);
    HeadUntouched(s, unread);
    if step.answer.Some? {
    } else {
      Composition.StepStaysLive(s, unread);
      HeadKept(step.state, step.unread);
    }
  }

  lemma {:induction false} DrainHead(s: State, unread: string)
    requires Live(s) && PastHead(s)
    ensures var d := Drain(s, unread);
            if d.answers == [] then Live(d.state) && PastHead(d.state) && SameHead(d.state.request, s.request)
            else Completes(d.answers[0], s.request)
    decreases |unread|
  {
    hide OneStep, PastHead;
    var step := OneStep(s, unread);
    HeadUntouched(s, unread);
    DrainUnfold(s, unread);
    if step.answer.Some? {
    } else {
      Composition.StepStaysLive(s, unread);
      DrainHead(step.state, step.unread);
      var rest := Drain(step.state, step.unread);
      assert [] + rest.answers == rest.answers;
    }
  }

  /** And however the rest of the message arrives: the first answer of a run that goes on from an accepted head hands
      over that head, or fails. */
  lemma {:induction false} FeedHead(s: State, unread: string, pieces: seq<string>)
    requires Live(s) && PastHead(s)
    ensures var answers := Feed(s, unread, pieces).answers;
            answers != [] ==> Completes(answers[0], s.request)
    decreases |pieces|
  {
    hide Drain, PastHead;
    if pieces == [] {
    } else {
      var first := Drain(s, unread + pieces[0]);
      DrainHead(s, unread + pieces[0]);
      if first.answers == [] {
        FeedHead(first.state, first.unread, pieces[1..]);
      }
    }
  }

  lemma LineAssembled(s: State, line: string)
    requires Live(s) && ReadsLines(s.phase) && Assembling(s)
    ensures var o := HandleLine(s, line);
            && Assembling(o.state)
            && (o.answer.Some? && o.answer.value.request.Some? ==> Delivered(o.answer.value.request.value))
  {
    HandleLineProper(s, line);
    hide HandleRequestLine, HandleFieldLine, HandleTrailerLine, Head;
    var charged := Charged(s, line);
    if s.phase == ChunkSize {
      ChunkSizeProper(charged, line);
    } else if charged.headBytes <= MAX_HEAD_BYTES {
      match s.phase
      case RequestLine => RequestLineStored(charged, line);
      case Headers =>
        if line == "" {
          assert HandleFieldLine(charged, line) == CompleteHead(charged) by { BlankLine(charged); }
          HeadCompleted(charged);
        } else {
          FieldStored(charged, line);
        }
      case Trailers => TrailerDropped(charged, line);
    }
  }

  lemma BlankLine(s: State)
    ensures HandleFieldLine(s, "") == CompleteHead(s)
  {
  }

  lemma StepAssembled(s: State, unread: string)
    requires Live(s) && Assembling(s)
    ensures var step := OneStep(s, unread);
            Assembling(step.state) && AllDelivered(Answered(step))
  {
    hide HandleLine, Delivered;
    if ReadsLines(s.phase) {
      if FirstLine(unread).Line? {
        LineAssembled(s, FirstLine(unread).text);
      }
    } else {
      BodyAssembled(s, unread);
    }
  }

  lemma BodyAssembled(s: State, unread: string)
    requires Live(s) && Assembling(s) && !ReadsLines(s.phase)
    ensures var step := OneStep(s, unread);
            Assembling(step.state) && AllDelivered(Answered(step))
  {
    hide HandleLine, BodyOf, StoredFields, Values;
    if s.phase == Body && |unread| >= s.bodyBytes {
      var request := s.request.(body := unread[..s.bodyBytes]);
      assert Head(request, Sized(|request.body|));
    } else if s.phase == ChunkData && |unread| >= s.chunkBytes + |CRLF| {
      var request := s.request.(body := s.request.body + unread[..s.chunkBytes + |CRLF|][..s.chunkBytes]);
      assert Head(request, Chunked);
    }
  }

  lemma {:induction false} DrainDelivered(s: State, unread: string)
    requires Assembling(s)
    ensures Assembling(Drain(s, unread).state) && AllDelivered(Drain(s, unread).answers)
    decreases |unread|, if s.failure == NoError then 1 else 0
  {
    hide OneStep, Assembling, Delivered;
    assert Sound(s) by { AssemblingIsSound(s); }
    if s.failure != NoError {
    } else {
      var step := OneStep(s, unread);
      StepAssembled(s, unread);
      if !Waits(step) {
        DrainDelivered(step.state, step.unread);
      }
    }
  }

  lemma AssemblingIsSound(s: State)
    requires Assembling(s)
    ensures Sound(s)
  {
  }

  /** Every request handed over in any run, however the stream is cut, is a deliverable one. */
  lemma {:induction false} EveryDelivered(s: State, unread: string, pieces: seq<string>)
    requires Assembling(s)
    ensures AllDelivered(Feed(s, unread, pieces).answers)
    decreases |pieces|
  {
    hide Drain, Assembling, Delivered;
    assert Sound(s) by { AssemblingIsSound(s); }
    if pieces == [] {
    } else {
      var first := Drain(s, unread + pieces[0]);
      DrainDelivered(s, unread + pieces[0]);
      EveryDelivered(first.state, first.unread, pieces[1..]);
    }
  }

  /** The runs of a connection start here. */
  lemma {:induction false} FreshDelivered(pieces: seq<string>)
    ensures AllDelivered(Feed(FRESH, "", pieces).answers)
  {
    EveryDelivered(FRESH, "", pieces);
  }
}
