/** How much work and memory one message may cost (src/http/request_reader.cpp:281-301, 321-353, 381-388).

    `Budget` is a potential: no turn of the driver that goes round again consumes more bytes than it lowers it by.
    It counts the chunk-size lines the head cap does not charge, each of which must announce at least one byte. */
module Bounds {
  import opened Text
  import opened Messages
  import opened LineReading
  import opened Framing
  import opened ReaderModel
  import opened Segmentation

  /** One line with its CRLF. */
  const LINE_COST: nat := 8194

  /** A chunk-size line, one byte of data and the CRLF after it. */
  const CHUNK_COST: nat := 8197

  function HeadRoom(s: State): nat
    requires Live(s)
  {
    MAX_HEAD_BYTES - s.headBytes
  }

  function BodyRoom(s: State): nat
    requires Live(s)
  {
    MAX_BODY_BYTES - |s.request.body|
  }

  const FRESH_BUDGET: nat := MAX_HEAD_BYTES + CHUNK_COST * MAX_BODY_BYTES + LINE_COST

  /** The bytes a live state can still consume before it must answer. */
  function Budget(s: State): nat
    requires Live(s)
  {
    match s.phase
    case RequestLine => HeadRoom(s) + CHUNK_COST * MAX_BODY_BYTES + LINE_COST
    case Headers => HeadRoom(s) + CHUNK_COST * MAX_BODY_BYTES + LINE_COST
    case Body => s.bodyBytes
    case Discard => s.bodyBytes + FRESH_BUDGET
    case ChunkSize => HeadRoom(s) + CHUNK_COST * BodyRoom(s) + LINE_COST
    case ChunkData => HeadRoom(s) + s.chunkBytes + 2 + CHUNK_COST * (BodyRoom(s) - s.chunkBytes) + LINE_COST
    case Trailers => HeadRoom(s)
  }

  /** No state, whatever it has been through, is further than this from an answer. */
  const MESSAGE_BOUND: nat := MAX_DRAIN_BYTES + FRESH_BUDGET + MAX_LINE_LENGTH

  lemma BudgetBounded(s: State)
    requires Live(s)
    ensures Budget(s) + MAX_LINE_LENGTH <= MESSAGE_BOUND
  {
  }

  lemma LineBudget(s: State, line: string)
    requires Live(s) && ReadsLines(s.phase) && |line| <= MAX_LINE_LENGTH
    ensures var o := HandleLine(s, line);
            o.answer == None ==> Live(o.state) && |line| + |CRLF| + Budget(o.state) <= Budget(s)
  {
    HandleLineProper(s, line);
    hide Parser.RequestLineOf, Parser.HeaderFieldOf, BodyOf, ChunkSizeOf, AddField;
  }

  lemma StepBudget(s: State, unread: string)
    requires Live(s)
    ensures var step := OneStep(s, unread);
            step.answer == None || Waits(step) ==>
              Live(step.state) && |unread| - |step.unread| + Budget(step.state) <= Budget(s)
  {
    hide HandleLine;
    if ReadsLines(s.phase) && FirstLine(unread).Line? {
      var line := FirstLine(unread).text;
      HandleLineProper(s, line);
      LineBudget(s, line);
    }
  }

  /** What a waiting state may leave unread. */
  lemma WaitBounded(s: State, unread: string)
    requires Live(s) && Waits(OneStep(s, unread))
    ensures |OneStep(s, unread).unread| <= MAX_BODY_BYTES + 1
    ensures |OneStep(s, unread).unread| <= Budget(OneStep(s, unread).state) + MAX_LINE_LENGTH
  {
    WaitShape(s, unread);
  }

  /** Memory: whenever the reader has nothing to give, what it holds unread is at most one body and a byte, and the
      body so far is within its cap. */
  lemma {:induction false} BoundedMemory(s: State, unread: string)
    requires Sound(s)
    ensures var d := Drain(s, unread);
            d.state.failure == NoError ==> |d.unread| <= MAX_BODY_BYTES + 1 && |d.state.request.body| <= MAX_BODY_BYTES
    decreases |unread|, if s.failure == NoError then 1 else 0
  {
    hide OneStep;
    if s.failure != NoError {
    } else {
      var step := OneStep(s, unread);
      if Waits(step) {
        WaitBounded(s, unread);
      } else {
        BoundedMemory(step.state, step.unread);
      }
    }
  }

  lemma {:induction false} DrainBudget(s: State, unread: string)
    requires Live(s) && Drain(s, unread).answers == []
    ensures var d := Drain(s, unread);
            && Live(d.state) && |unread| - |d.unread| + Budget(d.state) <= Budget(s)
            && |d.unread| <= Budget(d.state) + MAX_LINE_LENGTH
    decreases |unread|
  {
    hide OneStep, Budget;
    var step := OneStep(s, unread);
    StepBudget(s, unread);
    if Waits(step) {
      WaitBounded(s, unread);
    } else {
      assert Answered(step) + Drain(step.state, step.unread).answers == [];
      assert step.answer == None;
      DrainBudget(step.state, step.unread);
    }
  }

  /** Work: from any live state, and however the bytes are cut, a constant number of them forces an answer. */
  lemma {:induction false} BoundedWork(s: State, unread: string, pieces: seq<string>)
    requires Live(s) && Settled(s, unread)
    requires |unread| + |Flatten(pieces)| > MESSAGE_BOUND
    ensures Feed(s, unread, pieces).answers != []
  {
    if Feed(s, unread, pieces).answers == [] {
      SilentRun(s, unread, pieces);
      BudgetBounded(s);
    }
  }

  lemma {:induction false} SilentRun(s: State, unread: string, pieces: seq<string>)
    requires Live(s) && Settled(s, unread) && Feed(s, unread, pieces).answers == []
    ensures |unread| + |Flatten(pieces)| <= Budget(s) + MAX_LINE_LENGTH
    decreases |pieces|
  {
    hide Drain, Budget, OneStep;
    if pieces == [] {
      DrainBudget(s, unread);
    } else {
      var first := Drain(s, unread + pieces[0]);
      assert first.answers + Feed(first.state, first.unread, pieces[1..]).answers == [];
      DrainBudget(s, unread + pieces[0]);
      DrainSettles(s, unread + pieces[0]);
      SilentRun(first.state, first.unread, pieces[1..]);
    }
  }
}
