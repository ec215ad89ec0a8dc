/** Messages do not leak into one another (src/http/request_reader.cpp:179-203, 250-279, 321-329).

    The chunk length is the one field a reader carries from one message into the next. `Same` forgets it wherever
    no chunk is being read, and is proved to be all that the answers depend on. */
module Composition {
  import opened Text
  import opened Messages
  import opened LineReading
  import opened Framing
  import opened ReaderModel
  import opened Segmentation

  predicate Same(a: State, b: State) {
    a.(chunkBytes := 0) == b.(chunkBytes := 0) && (a.phase == ChunkData ==> a == b)
  }

  predicate SameRun(a: Run, b: Run) {
    a.answers == b.answers && a.unread == b.unread && Same(a.state, b.state)
  }

  lemma LineSame(a: State, b: State, line: string)
    requires Same(a, b) && ReadsLines(a.phase)
    ensures var x, y := HandleLine(a, line), HandleLine(b, line);
            x.answer == y.answer && Same(x.state, y.state)
  {
    hide Parser.RequestLineOf, Parser.HeaderFieldOf, BodyOf, ChunkSizeOf, AddField;
  }

  lemma StepSame(a: State, b: State, unread: string)
    requires Live(a) && Live(b) && Same(a, b)
    ensures var x, y := OneStep(a, unread), OneStep(b, unread);
            x.answer == y.answer && x.unread == y.unread && Same(x.state, y.state)
  {
    hide HandleLine;
    if ReadsLines(a.phase) && FirstLine(unread).Line? {
      LineSame(a, b, FirstLine(unread).text);
    }
  }

  lemma {:induction false} DrainSame(a: State, b: State, unread: string)
    requires Sound(a) && Sound(b) && Same(a, b)
    ensures SameRun(Drain(a, unread), Drain(b, unread))
    decreases |unread|, if a.failure == NoError then 1 else 0
  {
    hide OneStep;
    if a.failure != NoError {
    } else {
      StepSame(a, b, unread);
      var x, y := OneStep(a, unread), OneStep(b, unread);
      if !Waits(x) {
        DrainSame(x.state, y.state, x.unread);
      }
    }
  }

  /** How a request, a refusal and a failure each leave the reader. */
  predicate AnswerShape(state: State, answer: RequestResult) {
    && (answer.request.Some? ==> answer == Delivery(answer.request.value) && Same(state, FRESH))
    && (answer.error != NoError && answer.streamContinues ==>
          answer.error == BodyTooLarge && state.failure == NoError && state.phase == Discard
          && MAX_BODY_BYTES < state.bodyBytes <= MAX_DRAIN_BYTES)
    && (!answer.streamContinues ==>
          state.failure != NoError && answer == Failure(state.failure, state.request.version))
  }

  predicate Shaped(o: Outcome) { o.answer.Some? ==> AnswerShape(o.state, o.answer.value) }

  lemma HeadAnswer(s: State)
    requires Live(s)
    ensures Shaped(CompleteHead(s))
  {
    BodyWithinDrainCap(s);
    CompleteHeadProper(s);
    hide BodyOf;
  }

  lemma HandlersAnswer(s: State, line: string)
    requires Live(s)
    ensures Shaped(HandleRequestLine(s, line)) && Shaped(HandleTrailerLine(s, line))
    ensures Shaped(HandleFieldLine(s, line)) && Shaped(HandleChunkSize(s, line))
  {
    HeadAnswer(s);
    SizeAnswer(s, line);
    FieldLinesAnswer(s, line);
    hide Parser.RequestLineOf, HandleTrailerLine, HandleFieldLine, HandleChunkSize;
  }

  lemma SizeAnswer(s: State, line: string)
    requires Live(s)
    ensures Shaped(HandleChunkSize(s, line))
  {
    ChunkSizeProper(s, line);
    hide ChunkSizeOf;
  }

  lemma FieldLinesAnswer(s: State, line: string)
    requires Live(s) && Shaped(CompleteHead(s))
    ensures Shaped(HandleTrailerLine(s, line)) && Shaped(HandleFieldLine(s, line))
  {
    hide Parser.HeaderFieldOf, CompleteHead, AddField;
  }

  lemma LineAnswer(s: State, line: string)
    requires Live(s) && ReadsLines(s.phase)
    ensures Shaped(HandleLine(s, line))
  {
    var charged := Charged(s, line);
    if s.phase == ChunkSize || charged.headBytes <= MAX_HEAD_BYTES {
      HandlersAnswer(charged, line);
    }
    hide HandleRequestLine, HandleFieldLine, HandleTrailerLine, HandleChunkSize;
  }

  lemma StepAnswer(s: State, unread: string)
    requires Live(s)
    ensures var step := OneStep(s, unread);
            step.answer.Some? && !Waits(step) ==> AnswerShape(step.state, step.answer.value)
  {
    hide HandleLine;
    if ReadsLines(s.phase) && FirstLine(unread).Line? {
      LineAnswer(s, FirstLine(unread).text);
    }
  }

  lemma {:induction false} NextAnswer(s: State, unread: string)
    requires Live(s)
    ensures var (state, rest, answer) := NextRequest(s, unread);
            Answers(answer) ==> AnswerShape(state, answer)
    decreases |unread|
  {
    hide OneStep, AnswerShape;
    var step := OneStep(s, unread);
    StepAnswer(s, unread);
    if step.answer.Some? {
    } else {
      StepStaysLive(s, unread);
      NextAnswer(step.state, step.unread);
    }
  }

  lemma StepStaysLive(s: State, unread: string)
    requires Live(s) && OneStep(s, unread).answer == None
    ensures Live(OneStep(s, unread).state)
  {
    hide HandleLine;
    if ReadsLines(s.phase) && FirstLine(unread).Line? {
      HandleLineProper(s, FirstLine(unread).text);
    }
  }

  /** Draining is asking for the next request until there is none: what the object's callers see. */
  lemma {:induction false} DrainByRequests(s: State, unread: string)
    requires Live(s)
    ensures var (state, rest, answer) := NextRequest(s, unread);
            Drain(s, unread) ==
              if !Answers(answer) then Run([], state, rest)
              else
                var more := Drain(state, rest);
                Run([answer] + more.answers, more.state, more.unread)
    decreases |unread|
  {
    hide OneStep;
    var step := OneStep(s, unread);
    if step.answer.Some? {
    } else {
      StepStaysLive(s, unread);
      DrainByRequests(step.state, step.unread);
      var more := Drain(step.state, step.unread);
      assert [] + more.answers == more.answers;
    }
  }

  /** After a delivered request the rest of the stream is read as a newly built reader would read it. */
  lemma {:induction false} FreshAfterRequest(s: State, unread: string)
    requires Live(s) && NextRequest(s, unread).2.request.Some?
    ensures var (state, rest, answer) := NextRequest(s, unread);
            SameRun(Drain(state, rest), Drain(FRESH, rest))
  {
    hide Drain, NextRequest;
    NextAnswer(s, unread);
    var (state, rest, answer) := NextRequest(s, unread);
    DrainSame(state, FRESH, rest);
  }

  lemma DiscardStep(s: State, body: string, rest: string)
    requires Live(s) && s.phase == Discard && |body| == s.bodyBytes
    ensures OneStep(s, body + rest) == Step(Armed(s.(bodyBytes := 0)), rest, None)
  {
    hide HandleLine;
    assert (body + rest)[s.bodyBytes..] == rest;
  }

  /** A drained body is skipped to the byte, silently, and leaves a newly built reader behind. */
  lemma {:induction false} DrainedBody(s: State, body: string, rest: string)
    requires Live(s) && s.phase == Discard && |body| == s.bodyBytes
    ensures SameRun(Drain(s, body + rest), Drain(FRESH, rest))
  {
    hide Drain, HandleLine;
    var w, armed := body + rest, Armed(s.(bodyBytes := 0));
    DiscardStep(s, body, rest);
    hide OneStep;
    DrainUnfold(s, w);
    var more := Drain(armed, rest);
    assert [] + more.answers == more.answers;
    DrainSame(armed, FRESH, rest);
  }

  /** A declared length over the body cap and within the drain cap costs one resumable failure and exactly the
      declared bytes: what follows is read by a newly built reader. */
  lemma {:induction false} RefusedBodySkipped(s: State, body: string, rest: string)
    requires Live(s) && s.phase == Headers && s.headBytes + |CRLF| <= MAX_HEAD_BYTES
    requires var hosts := |Values(s.request.headers, HOST)|;
             hosts <= 1 && (s.request.version == Http11 ==> hosts == 1)
    requires BodyOf(s.request.headers, s.request.version) == Sized(|body|) && |body| > MAX_BODY_BYTES
    ensures var refusal := RequestResult(BodyTooLarge, None, true, s.request.version);
            var after := Drain(FRESH, rest);
            SameRun(Drain(s, CRLF + body + rest), Run([refusal] + after.answers, after.state, after.unread))
  {
    hide Drain, BodyOf, Values;
    var refusal := RequestResult(BodyTooLarge, None, true, s.request.version);
    var refusing := Charged(s, "").(bodyBytes := |body|, phase := Discard);
    assert HandleLine(s, "") == Outcome(refusing, Some(refusal));
    hide HandleLine;
    BlankLineStep(s, body + rest);
    assert CRLF + body + rest == CRLF + (body + rest);
    hide OneStep;
    DrainUnfold(s, CRLF + (body + rest));
    BodyWithinDrainCap(s);
    DrainedBody(refusing, body, rest);
  }

  lemma BlankLineStep(s: State, rest: string)
    requires Live(s) && ReadsLines(s.phase)
    ensures OneStep(s, CRLF + rest) == Then(HandleLine(s, ""), rest)
  {
    hide HandleLine;
    var w := CRLF + rest;
    assert CrlfAt(w, 0) && w[..0] == "" && w[2..] == rest;
    assert FirstLine(w) == Line("");
  }

  lemma BodyWithinDrainCap(s: State)
    ensures BodyOf(s.request.headers, s.request.version).Sized? ==>
              BodyOf(s.request.headers, s.request.version).bytes <= MAX_DRAIN_BYTES
  {
  }

  /** Every other failure latches: whatever arrives later, in whatever pieces, the reader repeats the same error and
      version and never moves again. */
  lemma {:induction false} FailureRepeats(s: State, unread: string, pieces: seq<string>)
    requires Live(s) && NextRequest(s, unread).2.error != NoError
    ensures var (state, rest, answer) := NextRequest(s, unread);
            (answer.error == BodyTooLarge && answer.streamContinues)
            || (Feed(state, rest, pieces) == Run([], state, rest + Flatten(pieces))
                && NextRequest(state, rest + Flatten(pieces)) == (state, rest + Flatten(pieces), answer))
  {
    NextAnswer(s, unread);
    var (state, rest, answer) := NextRequest(s, unread);
    hide OneStep;
    if !answer.streamContinues {
      FeedFailed(state, rest, pieces);
    }
  }
}
