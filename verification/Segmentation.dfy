/** How `recv` cuts the stream does not matter, except in one place.

    `Feed` appends pieces one at a time and drains after each, as a connection does. It comes to what draining
    the whole stream at once comes to exactly when no cut falls between the CR and the LF of a line of exactly
    `MAX_LINE_LENGTH` bytes: with the LF still to come the pending CR counts against the cap
    (src/http/line_reader.cpp:34), with both present it does not (src/http/line_reader.cpp:50). */
module Segmentation {
  import opened Text
  import opened LineReading
  import opened Framing
  import opened Messages
  import opened ReaderModel
  import Parser = RequestParser

  function Feed(s: State, unread: string, pieces: seq<string>): (r: Run)
    requires Sound(s)
    ensures Sound(r.state)
    decreases |pieces|
  {
    if pieces == [] then Run([], s, unread)
    else
      var first := Drain(s, unread + pieces[0]);
      var rest := Feed(first.state, first.unread, pieces[1..]);
      Run(first.answers + rest.answers, rest.state, rest.unread)
  }

  /** A line of exactly the cap is read next, and position `k` is between its CR and its LF. */
  predicate CapLineHere(s: State, stream: string, k: nat) {
    && ReadsLines(s.phase)
    && k == MAX_LINE_LENGTH + 1
    && FirstLine(stream).Line? && |FirstLine(stream).text| == MAX_LINE_LENGTH
  }

  /** Reading the whole stream meets such a line whose CR and LF are either side of position `k`. */
  predicate CapLineAt(s: State, stream: string, k: nat)
    requires Sound(s)
    decreases |stream|, if s.failure == NoError then 1 else 0
  {
    s.failure == NoError &&
    var step := OneStep(s, stream);
    var used := |stream| - |step.unread|;
    CapLineHere(s, stream, k) || (!Waits(step) && used <= k && CapLineAt(step.state, step.unread, k - used))
  }

  /** Some cut between two of the pieces, the first of which starts at `at`, falls inside the CRLF of a line of
      exactly the cap. */
  predicate SplitsCapLine(s: State, stream: string, at: nat, pieces: seq<string>)
    requires Sound(s)
    decreases |pieces|
  {
    |pieces| >= 2 &&
    (CapLineAt(s, stream, at + |pieces[0]|) || SplitsCapLine(s, stream, at + |pieces[0]|, pieces[1..]))
  }

  // ----- More bytes do not change an answer already given

  lemma FirstLineAppend(u: string, v: string)
    ensures FirstLine(u).Line? ==> FirstLine(u + v) == FirstLine(u)
    ensures FirstLine(u).LineTooLong? ==>
              FirstLine(u + v) == LineTooLong
              || (|u| == MAX_LINE_LENGTH + 1 && FirstLine(u + v) == Line(u[..MAX_LINE_LENGTH]))
  {
    var w := u + v;
    var i, j := FindCrlf(u, 0), FindCrlf(w, 0);
    assert forall k :: 0 <= k < |u| - 1 ==> (CrlfAt(u, k) <==> CrlfAt(w, k));
    if i < |u| {
      assert CrlfAt(w, i);
      assert j == i;
      assert w[..i] == u[..i];
    } else {
      assert j >= |u| - 1;
      if j == |u| - 1 {
        assert w[..j] == u[..j];
      }
    }
  }

  lemma StepAppend(s: State, u: string, v: string)
    requires Live(s) && !Waits(OneStep(s, u)) && !CapLineHere(s, u + v, |u|)
    ensures var step := OneStep(s, u);
            OneStep(s, u + v) == Step(step.state, step.unread + v, step.answer)
  {
    hide HandleLine, EndChunk;
    if ReadsLines(s.phase) {
      FirstLineAppend(u, v);
      if FirstLine(u).Line? {
        Slices(u, v, |FirstLine(u).text| + |CRLF|);
      }
    } else {
      BodyStepAppend(s, u, v);
    }
  }

  lemma Slices(u: string, v: string, n: nat)
    requires n <= |u|
    ensures (u + v)[..n] == u[..n] && (u + v)[n..] == u[n..] + v
  {
  }

  lemma BodyStepAppend(s: State, u: string, v: string)
    requires Live(s) && !ReadsLines(s.phase) && !Waits(OneStep(s, u))
    ensures var step := OneStep(s, u);
            OneStep(s, u + v) == Step(step.state, step.unread + v, step.answer)
  {
    hide HandleLine, EndChunk;
    var n := if s.phase == ChunkData then s.chunkBytes + |CRLF| else s.bodyBytes;
    assert n <= |u|;
    Slices(u, v, n);
  }

  /** Having waited is no different from the bytes arriving together, which then reach past the first part. */
  lemma WaitAppend(s: State, u: string, v: string)
    requires Live(s) && Waits(OneStep(s, u))
    ensures var step, whole := OneStep(s, u), OneStep(s, u + v);
            && whole == OneStep(step.state, step.unread + v)
            && (Waits(whole) || whole.state.failure != NoError || |whole.unread| < |v|)
    ensures !CapLineHere(s, u + v, |u|)
  {
    hide OneStep;
    WaitShape(s, u);
    if ReadsLines(s.phase) {
      WaitAppendLine(s, u, v);
    } else if s.phase == Discard {
      WaitDiscards(s, u);
      WaitAppendDiscard(s, u, v);
    } else {
      WaitAppendSized(s, u, v);
    }
  }

  lemma WaitAppendLine(s: State, u: string, v: string)
    requires Live(s) && ReadsLines(s.phase) && FirstLine(u) == NothingYet
    ensures OneStep(s, u) == Step(s, u, Some(NOTHING_YET))
    ensures var whole := OneStep(s, u + v);
            Waits(whole) || whole.state.failure != NoError || |whole.unread| < |v|
  {
    hide HandleLine;
    var end := FindCrlf(u + v, 0);
    assert end + 1 < |u| ==> !CrlfAt(u, end);
  }

  lemma WaitAppendDiscard(s: State, u: string, v: string)
    requires Live(s) && s.phase == Discard && |u| < s.bodyBytes
    ensures var left := s.(bodyBytes := s.bodyBytes - |u|);
            OneStep(s, u) == Step(left, "", Some(NOTHING_YET)) && OneStep(s, u + v) == OneStep(left, "" + v)
    ensures Waits(OneStep(s, u + v)) || |OneStep(s, u + v).unread| < |v|
  {
    hide HandleLine;
    assert "" + v == v;
    var n := Min(s.bodyBytes, |u + v|);
    assert (u + v)[n..] == v[n - |u|..];
  }

  lemma WaitAppendSized(s: State, u: string, v: string)
    requires Live(s) && !ReadsLines(s.phase) && s.phase != Discard && Waits(OneStep(s, u))
    ensures OneStep(s, u) == Step(s, u, Some(NOTHING_YET))
    ensures Waits(OneStep(s, u + v)) || |OneStep(s, u + v).unread| < |v|
  {
    hide HandleLine;
  }

  /** What waiting leaves behind: nothing consumed, unless everything was. */
  lemma WaitShape(s: State, u: string)
    requires Live(s) && Waits(OneStep(s, u))
    ensures var step := OneStep(s, u);
            || (step.unread == u && step.state == s)
            || (step.unread == "" && s.phase == Discard && step.state.phase == Discard)
    ensures ReadsLines(s.phase) ==> FirstLine(u) == NothingYet
  {
    hide HandleLine;
    if ReadsLines(s.phase) && FirstLine(u).Line? {
      HandleLineProper(s, FirstLine(u).text);
    }
  }

  /** At the boundary itself the first part fails at once, and the whole stream reads on past it. */
  lemma CapLineStep(s: State, u: string, v: string)
    requires Live(s) && CapLineHere(s, u + v, |u|)
    ensures OneStep(s, u).state.failure != NoError && OneStep(s, u).unread == u && !Waits(OneStep(s, u))
    ensures !Waits(OneStep(s, u + v)) && |OneStep(s, u + v).unread| < |v|
  {
    hide HandleLine;
    if FirstLine(u).Line? {
      FirstLineAppend(u, v);
      assert false;
    }
    HandleLineProper(s, FirstLine(u + v).text);
  }

  /** Where the whole-stream run goes on once the first part has been drained. */
  function Continue(r: Run, more: string): Run
    requires Sound(r.state)
  {
    var d := Drain(r.state, r.unread + more);
    Run(r.answers + d.answers, d.state, d.unread)
  }

  lemma {:induction false} DrainSplit(s: State, u: string, v: string)
    requires Sound(s)
    ensures !CapLineAt(s, u + v, |u|) ==> Drain(s, u + v) == Continue(Drain(s, u), v)
    ensures CapLineAt(s, u + v, |u|) ==>
              Drain(s, u).state.failure != NoError && |Drain(s, u + v).unread| < |Drain(s, u).unread| + |v|
    decreases |u|, if s.failure == NoError then 1 else 0
  {
    hide OneStep, CapLineHere, CapLineAt, Drain;
    if s.failure != NoError {
      FailedRuns(s, u);
      FailedRuns(s, u + v);
      assert [] + Drain(s, u + v).answers == [];
    } else {
      var step := OneStep(s, u);
      DrainUnfold(s, u);
      DrainUnfold(s, u + v);
      if Waits(step) {
        WaitAppend(s, u, v);
        CapLineAfterWait(s, u, v, 0);
        DrainUnfold(step.state, step.unread + v);
        assert [] + Drain(step.state, step.unread + v).answers == Drain(step.state, step.unread + v).answers;
      } else {
        CapLineUnfold(s, u + v, |u|);
        if CapLineHere(s, u + v, |u|) {
          CapLineStep(s, u, v);
          FailedRuns(step.state, step.unread);
        } else {
          StepAppend(s, u, v);
          DrainSplit(step.state, step.unread, v);
          var tail := Drain(step.state, step.unread);
          var more := Drain(tail.state, tail.unread + v);
          assert Answered(step) + (tail.answers + more.answers) == (Answered(step) + tail.answers) + more.answers;
        }
      }
    }
  }

  lemma WaitDiscards(s: State, u: string)
    requires Live(s) && s.phase == Discard && Waits(OneStep(s, u))
    ensures |u| < s.bodyBytes
  {
  }

  lemma CapLineUnfold(s: State, stream: string, k: nat)
    requires Live(s)
    ensures var step := OneStep(s, stream);
            var used := |stream| - |step.unread|;
            CapLineAt(s, stream, k) <==>
              CapLineHere(s, stream, k) || (!Waits(step) && used <= k && CapLineAt(step.state, step.unread, k - used))
  {
    hide OneStep;
  }

  lemma {:induction false} CapLineLater(s: State, u: string, v: string, j: nat)
    requires Sound(s) && !CapLineAt(s, u + v, |u|)
    ensures var d := Drain(s, u);
            CapLineAt(s, u + v, |u| + j) == CapLineAt(d.state, d.unread + v, |d.unread| + j)
    decreases |u|, if s.failure == NoError then 1 else 0
  {
    hide OneStep, CapLineAt, CapLineHere, Drain;
    if s.failure != NoError {
      FailedRuns(s, u);
      FailedRuns(s, u + v);
    } else {
      var step := OneStep(s, u);
      DrainUnfold(s, u);
      if Waits(step) {
        CapLineAfterWait(s, u, v, j);
      } else {
        CapLineUnfold(s, u + v, |u|);
        CapLineUnfold(s, u + v, |u| + j);
        StepAppend(s, u, v);
        NoCapLineAfterStep(s, u, v, j);
        CapLineLater(step.state, step.unread, v, j);
      }
    }
  }

  lemma {:induction false} FailedRuns(s: State, u: string)
    requires Sound(s) && s.failure != NoError
    ensures Drain(s, u) == Run([], s, u) && forall k :: !CapLineAt(s, u, k)
  {
  }

  lemma {:induction false} DrainUnfold(s: State, u: string)
    requires Live(s)
    ensures var step := OneStep(s, u);
            Drain(s, u) ==
              if Waits(step) then Run([], step.state, step.unread)
              else
                var rest := Drain(step.state, step.unread);
                Run(Answered(step) + rest.answers, rest.state, rest.unread)
  {
    hide OneStep;
  }

  lemma NoCapLineAfterStep(s: State, u: string, v: string, j: nat)
    requires Live(s) && !Waits(OneStep(s, u)) && !CapLineHere(s, u + v, |u|)
    ensures !CapLineHere(s, u + v, |u| + j)
  {
    hide HandleLine;
    if ReadsLines(s.phase) {
      FirstLineAppend(u, v);
    }
  }

  lemma CapLineAfterWait(s: State, u: string, v: string, j: nat)
    requires Live(s) && Waits(OneStep(s, u))
    ensures var step := OneStep(s, u);
            CapLineAt(s, u + v, |u| + j) == CapLineAt(step.state, step.unread + v, |step.unread| + j)
    ensures j == 0 ==> !CapLineAt(s, u + v, |u|)
  {
    hide OneStep, CapLineAt;
    var step, whole := OneStep(s, u), OneStep(s, u + v);
    WaitAppend(s, u, v);
    WaitShape(s, u);
    if whole.state.failure != NoError {
      FailedRuns(whole.state, whole.unread);
    }
    CapLineUnfold(s, u + v, |u| + j);
    CapLineUnfold(s, u + v, |u|);
    CapLineUnfold(step.state, step.unread + v, |step.unread| + j);
  }

  // ----- The theorem

  lemma {:induction false} SplitsLater(s: State, u: string, v: string, at: nat, pieces: seq<string>)
    requires Sound(s) && !CapLineAt(s, u + v, |u|)
    ensures var d := Drain(s, u);
            SplitsCapLine(s, u + v, |u| + at, pieces) == SplitsCapLine(d.state, d.unread + v, |d.unread| + at, pieces)
    decreases |pieces|
  {
    hide CapLineAt, Drain;
    if |pieces| < 2 {
    } else {
      CapLineLater(s, u, v, at + |pieces[0]|);
      SplitsLater(s, u, v, at + |pieces[0]|, pieces[1..]);
    }
  }

  lemma {:induction false} FeedFailed(s: State, unread: string, pieces: seq<string>)
    requires Sound(s) && s.failure != NoError
    ensures Feed(s, unread, pieces) == Run([], s, unread + Flatten(pieces))
    decreases |pieces|
  {
    if pieces == [] {
      assert unread + "" == unread;
    } else {
      FeedFailed(s, unread + pieces[0], pieces[1..]);
      assert unread + pieces[0] + Flatten(pieces[1..]) == unread + Flatten(pieces);
    }
  }

  lemma {:induction false} DrainSettles(s: State, unread: string)
    requires Sound(s)
    ensures Settled(Drain(s, unread).state, Drain(s, unread).unread)
  {
    hide OneStep, CapLineAt, Drain;
    var d := Drain(s, unread);
    DrainSplit(s, unread, "");
    assert unread + "" == unread && d.unread + "" == d.unread;
    if d.state.failure != NoError {
      FailedRuns(d.state, d.unread);
    } else {
      var again := Drain(d.state, d.unread);
      assert |d.answers + again.answers| == |d.answers|;
    }
  }

  /** Nothing is left to give: how a caller that drains after every append leaves the reader. */
  predicate Settled(s: State, unread: string)
    requires Sound(s)
  {
    Drain(s, unread) == Run([], s, unread)
  }

  lemma FreshSettled()
    ensures Settled(FRESH, "")
  {
    assert FirstLine("") == NothingYet;
  }

  /** Feeding a stream in pieces comes to what feeding it whole comes to (the answers, the final state and the
      bytes left unread) if and only if no cut falls inside the CRLF of a line of exactly the cap. */
  lemma {:induction false} SegmentationIndependence(s: State, unread: string, pieces: seq<string>)
    requires Sound(s) && Settled(s, unread)
    ensures Feed(s, unread, pieces) == Drain(s, unread + Flatten(pieces))
            <==> !SplitsCapLine(s, unread + Flatten(pieces), |unread|, pieces)
    decreases |pieces|
  {
    hide CapLineAt, OneStep;
    var w := unread + Flatten(pieces);
    if pieces == [] {
      assert w == unread;
    } else {
      var u, rest := unread + pieces[0], pieces[1..];
      var v := Flatten(rest);
      var first := Drain(s, u);
      assert w == u + v;
      DrainSplit(s, u, v);
      DrainSettles(s, unread + pieces[0]);
      if CapLineAt(s, w, |u|) {
        assert rest == [] ==> w == u;
        FeedFailed(first.state, first.unread, rest);
      } else {
        SegmentationIndependence(first.state, first.unread, rest);
        SplitsLater(s, u, v, 0, rest);
        var fed, whole := Feed(first.state, first.unread, rest), Drain(first.state, first.unread + v);
        SamePrefix(first.answers, fed, whole);
      }
    }
  }

  lemma SamePrefix(answers: seq<RequestResult>, a: Run, b: Run)
    ensures Run(answers + a.answers, a.state, a.unread) == Run(answers + b.answers, b.state, b.unread) <==> a == b
  {
    assert (answers + a.answers)[|answers|..] == a.answers;
    assert (answers + b.answers)[|answers|..] == b.answers;
  }

  // ----- The excepted case

  function Repeat(c: char, n: nat): (r: string)
    ensures |r| == n && forall i :: 0 <= i < n ==> r[i] == c
  {
    seq(n, _ => c)
  }

  /** Any well-formed request line of exactly the cap is refused as too long when its CR and LF arrive apart, and
      read without complaint when they arrive together. */
  lemma {:induction false} CapLineSplit(line: string)
    requires |line| == MAX_LINE_LENGTH && '\r' !in line && Parser.RequestLineOf(line).Parsed?
    ensures Feed(FRESH, "", [line + "\r", "\n"]).answers == [Failure(RequestLineTooLong, Http10)]
    ensures Drain(FRESH, line + "\r" + "\n").answers == []
  {
    CapLineFound(line);
    CapLineRead(line);
    CapLineFails(line + "\r");
  }

  lemma CapLineFound(line: string)
    requires |line| == MAX_LINE_LENGTH && '\r' !in line
    ensures FirstLine(line + "\r") == LineTooLong && FirstLine(line + "\r" + "\n") == Line(line)
  {
    var u, w := line + "\r", line + "\r" + "\n";
    assert CrlfAt(w, |line|) && w[..|line|] == line;
    assert forall k :: 0 <= k < |line| ==> w[k] == u[k] == line[k];
    assert FindCrlf(u, 0) == |u| && FindCrlf(w, 0) == |line|;
  }

  lemma {:induction false} CapLineRead(line: string)
    requires |line| == MAX_LINE_LENGTH && Parser.RequestLineOf(line).Parsed?
    requires FirstLine(line + "\r" + "\n") == Line(line)
    ensures Drain(FRESH, line + "\r" + "\n").answers == []
  {
    var w := line + "\r" + "\n";
    var start := Charged(FRESH, line);
    assert w[|line| + 2..] == "";
    CapLineHead(line);
    hide HandleLine;
    var step := OneStep(FRESH, w);
    assert FirstLine("") == NothingYet;
    assert OneStep(step.state, "") == Wait(step.state, "");
    hide OneStep;
    DrainUnfold(FRESH, w);
    DrainUnfold(step.state, "");
    assert [] + [] == Drain(FRESH, w).answers;
  }

  lemma CapLineHead(line: string)
    requires |line| == MAX_LINE_LENGTH && Parser.RequestLineOf(line).Parsed?
    ensures HandleLine(FRESH, line).answer == None
    ensures HandleLine(FRESH, line).state.phase == Headers && Live(HandleLine(FRESH, line).state)
  {
    hide Parser.RequestLineOf;
  }

  lemma CapLineFails(u: string)
    requires FirstLine(u) == LineTooLong
    ensures Feed(FRESH, "", [u, "\n"]).answers == [Failure(RequestLineTooLong, Http10)]
  {
    var failed := FRESH.(failure := RequestLineTooLong);
    var answer := Failure(RequestLineTooLong, Http10);
    assert OneStep(FRESH, u) == Step(failed, u, Some(answer));
    hide OneStep, Drain;
    DrainUnfold(FRESH, u);
    FailedRuns(failed, u);
    assert [answer] + [] == [answer];
    assert Drain(FRESH, u) == Run([answer], failed, u);
    assert "" + u == u && [u, "\n"][1..] == ["\n"];
    FeedFailed(failed, u, ["\n"]);
  }

  /** There is such a line: the exception is real. */
  lemma CapLineExists()
    ensures var line := Parser.PrintRequestLine(Get, "/" + Repeat('a', 8178), Http11);
            |line| == MAX_LINE_LENGTH && '\r' !in line && Parser.RequestLineOf(line).Parsed?
  {
    var target := "/" + Repeat('a', 8178);
    PlainEscapes(target);
    assert Parser.ValidTarget(target);
    Parser.RequestLineAccepted(Parser.PrintRequestLine(Get, target, Http11), Get, target, Http11);
    Parser.PrintedLineControls(Get, target, Http11);
  }

  lemma {:induction false} PlainEscapes(s: string)
    requires '%' !in s
    ensures Parser.ValidEscapes(s)
    decreases |s|
  {
    if s == "" {
    } else {
      PlainEscapes(s[1..]);
    }
  }
}
