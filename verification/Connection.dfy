/** One connection: a socket, the reader for what comes off it, and the deadlines it is read under
    (src/server/connection.cpp, src/net/socket.cpp:32-38).

    The network is a script of events: when the next bytes, end of stream or error arrive, and how much time passes
    between one call and the next. Any script is allowed; all that is assumed is that a read returns within the
    timeout it was armed with. */
module Connections {
  import opened Text
  import opened Framing
  import opened RequestReading
  import opened Segmentation
  import Model = ReaderModel
  import Composition

  /** Clocks count nanoseconds, deadlines and socket timeouts milliseconds. */
  const NS: nat := 1000000

  datatype Errno = TimedOut | WouldBlock | OtherError(code: int)

  datatype Arrival = Bytes(data: string) | EndOfStream | ReadError(error: Errno) | CannotArm(error: Errno)

  /** `pause` passes before the call, `delay` while it is blocked. */
  datatype Event = Event(pause: nat, delay: nat, what: Arrival)

  datatype ReadResult = Got(data: string) | Ended | Error(error: Errno)

  /** Whether a read gives up first; zero arms nothing. */
  predicate TimesOut(timeout: nat, delay: nat) { timeout > 0 && delay > timeout * NS }

  class Socket {
    var now: nat
    var script: seq<Event>
    var timeout: nat

    /** Which writes to come succeed; all of them once the list is used up. */
    var writes: seq<bool>
    var sent: seq<string>

    /** The pieces read so far, and the time spent blocked in reads. */
    ghost var received: seq<string>
    ghost var waited: nat

    /** Whether the last read ran into the timeout it was armed with. */
    ghost var gaveUp: bool

    constructor (now: nat, script: seq<Event>, writes: seq<bool>)
      ensures this.now == now && this.script == script && this.writes == writes
      ensures sent == [] && received == [] && waited == 0 && !gaveUp
    {
      this.now, this.script, this.writes := now, script, writes;
      timeout, sent, received, waited, gaveUp := 0, [], [], 0, false;
    }

    method SetReceiveTimeout(limit: nat) returns (error: Option<Errno>)
      modifies this`timeout, this`script, this`gaveUp
      ensures !gaveUp
      ensures error == None ==> timeout == limit && script == old(script)
      ensures error.Some? ==> |script| < |old(script)|
    {
      gaveUp := false;
      if script != [] && script[0].what.CannotArm? {
        error := Some(script[0].what.error);
        script := script[1..];
      } else {
        timeout := limit;
        error := None;
      }
    }

    method Read() returns (r: ReadResult)
      modifies this`now, this`script, this`received, this`waited, this`gaveUp
      ensures gaveUp ==> r == Error(WouldBlock) && timeout > 0 && waited - old(waited) == timeout * NS
      ensures now >= old(now) + (waited - old(waited)) && waited >= old(waited)
      ensures timeout > 0 ==> waited - old(waited) <= timeout * NS
      ensures r.Got? ==> received == old(received) + [r.data] && |script| < |old(script)|
      ensures !r.Got? ==> received == old(received) && |script| <= |old(script)|
    {
      gaveUp := false;
      if script == [] {
        return Ended;
      }
      var event := script[0];
      if TimesOut(timeout, event.delay) {
        gaveUp := true;
        now := now + event.pause + timeout * NS;
        waited := waited + timeout * NS;
        script := [Event(0, event.delay - timeout * NS, event.what)] + script[1..];
        return Error(WouldBlock);
      }
      now := now + event.pause + event.delay;
      waited := waited + event.delay;
      script := script[1..];
      match event.what {
        case Bytes(data) =>
          received := received + [data];
          r := Got(data);
        case EndOfStream => r := Ended;
        case ReadError(error) => r := Error(error);
        case CannotArm(error) => r := Error(error);
      }
    }

    method Write(bytes: string) returns (ok: bool)
      modifies this`sent, this`writes
      ensures sent == if ok then old(sent) + [bytes] else old(sent)
    {
      ok := writes == [] || writes[0];
      if writes != [] {
        writes := writes[1..];
      }
      if ok {
        sent := sent + [bytes];
      }
    }
  }

  /** What is left until a deadline, in whole milliseconds; nothing under one, since a zero timeout never fires. */
  function MillisecondsUntil(deadline: nat, now: nat): (r: Option<nat>)
    ensures r.Some? ==> r.value >= 1 && now + r.value * NS <= deadline < now + (r.value + 1) * NS
    ensures r == None <==> deadline < now + NS
  {
    if deadline < now + NS then None else Some((deadline - now) / NS)
  }

  datatype Deadlines = Deadlines(idle: nat, request: nat)

  datatype ConnectionResult = Answered(answer: Model.RequestResult) | ReadFailed(error: Errno) | PeerFinished

  /** A timeout armed for a read: with how much, when, and by when the request then in progress was due. */
  datatype ArmedRead = ArmedRead(limit: nat, at: nat, due: Option<nat>)

  /** Within a request no timeout is zero, outlasts the deadline, or falls a millisecond short of it. */
  predicate Honest(a: ArmedRead) {
    a.due.Some? ==> a.limit >= 1 && a.at + a.limit * NS <= a.due.value < a.at + (a.limit + 1) * NS
  }

  function Left(deadline: nat, now: nat): nat { if deadline < now then 0 else deadline - now }

  /** The answers already given, and those the unread bytes still owe. */
  function Owing(given: seq<Model.RequestResult>, s: Model.State, unread: string): Model.Run
    requires Model.Sound(s)
  {
    var d := Model.Drain(s, unread);
    Model.Run(given + d.answers, d.state, d.unread)
  }

  /** Nothing was read while an answer was still owed: all the pieces but the last owe no more than `given`. */
  predicate ReadLazily(received: seq<string>, given: seq<Model.RequestResult>) {
    received == [] || Feed(Model.FRESH, "", received[..|received| - 1]).answers <= given
  }

  lemma LazilyStill(received: seq<string>, given: seq<Model.RequestResult>, answer: Model.RequestResult)
    requires ReadLazily(received, given)
    ensures ReadLazily(received, given + [answer])
  {
    hide Feed;
  }

  lemma {:induction false} FeedMore(s: Model.State, unread: string, pieces: seq<string>, piece: string)
    requires Model.Sound(s)
    ensures var f := Feed(s, unread, pieces);
            Feed(s, unread, pieces + [piece]) == Owing(f.answers, f.state, f.unread + piece)
    decreases |pieces|
  {
    hide Model.Drain;
    if pieces == [] {
      var d := Model.Drain(s, unread + piece);
      assert pieces + [piece] == [piece] && [piece][1..] == [];
      assert d.answers + [] == d.answers && [] + d.answers == d.answers;
    } else {
      var first := Model.Drain(s, unread + pieces[0]);
      assert (pieces + [piece])[1..] == pieces[1..] + [piece];
      FeedMore(first.state, first.unread, pieces[1..], piece);
      var rest := Feed(first.state, first.unread, pieces[1..]);
      var d := Model.Drain(rest.state, rest.unread + piece);
      assert first.answers + (rest.answers + d.answers) == first.answers + rest.answers + d.answers;
    }
  }

  /** Giving an answer moves it from what is owed to what has been given. */
  lemma {:induction false} OwingGives(given: seq<Model.RequestResult>, s: Model.State, unread: string)
    requires Model.Live(s)
    ensures var (t, rest, answer) := Model.NextRequest(s, unread);
            Owing(given, s, unread) ==
              if Model.Answers(answer) then Owing(given + [answer], t, rest) else Model.Run(given, t, rest)
    ensures var (t, rest, answer) := Model.NextRequest(s, unread);
            !Model.Answers(answer) ==> Owing(given, t, rest) == Model.Run(given, t, rest)
    ensures var (t, rest, answer) := Model.NextRequest(s, unread);
            && (answer.streamContinues ==> t.failure == NoError)
            && (answer.request.Some? ==> answer.error == NoError && answer.streamContinues)
  {
    hide Model.Drain, Model.NextRequest;
    Composition.DrainByRequests(s, unread);
    Composition.NextAnswer(s, unread);
    DrainSettles(s, unread);
    var (t, rest, answer) := Model.NextRequest(s, unread);
    var more := Model.Drain(t, rest).answers;
    assert given + ([answer] + more) == given + [answer] + more;
    assert given + [] == given;
  }

  class Connection {
    const socket: Socket
    const reader: RequestReader
    const deadlines: Deadlines
    var inProgress: bool
    var deadline: nat

    ghost var given: seq<Model.RequestResult>
    ghost var armed: seq<ArmedRead>

    ghost predicate Valid()
      reads this, socket, reader, reader.lines
    {
      && reader.Valid()
      && (inProgress ==> deadline <= socket.now + deadlines.request * NS)
      && (forall i :: 0 <= i < |armed| ==> Honest(armed[i]))
      && Feed(Model.FRESH, "", socket.received) == Owing(given, reader.State(), reader.Unread())
      && ReadLazily(socket.received, given)
    }

    constructor (socket: Socket, deadlines: Deadlines)
      requires socket.received == []
      ensures Valid() && this.socket == socket && this.deadlines == deadlines
      ensures given == [] && armed == [] && !inProgress && fresh(reader) && fresh(reader.lines)
      ensures reader.failure == NoError
    {
      this.socket, this.deadlines := socket, deadlines;
      reader := new RequestReader();
      inProgress, deadline, given, armed := false, 0, [], [];
      new;
      FreshSettled();
    }

    /** What a read that gave up leaves: within a request less than a millisecond of it, between requests nothing of the
        idle deadline. */
    ghost predicate GaveUpFairly(waited: nat)
      reads this, socket
    {
      if inProgress then deadline < socket.now + NS else socket.waited == waited + deadlines.idle * NS
    }

    /** Arms the next read: with the idle deadline between requests, else with as much as the request has left. */
    method ApplyReadDeadline() returns (error: Option<Errno>)
      requires Valid()
      modifies this`armed, socket`timeout, socket`script, socket`gaveUp
      ensures Valid() && old(armed) <= armed
      ensures error == None ==> !socket.gaveUp
      ensures error.Some? && socket.gaveUp ==> inProgress && deadline < socket.now + NS
      ensures |socket.script| <= |old(socket.script)|
      ensures inProgress && deadline < socket.now + NS ==> error == Some(TimedOut)
      ensures error == None ==>
                && socket.script == old(socket.script)
                && (!inProgress ==> socket.timeout == deadlines.idle)
                && (inProgress ==>
                      && socket.timeout >= 1
                      && socket.now + socket.timeout * NS <= deadline < socket.now + (socket.timeout + 1) * NS)
      ensures error == None ==> armed == old(armed) + [
                ArmedRead(socket.timeout, socket.now, if inProgress then Some(deadline) else None)]
    {
      hide Feed, Owing;
      var limit := deadlines.idle;
      if inProgress {
        var left := MillisecondsUntil(deadline, socket.now);
        if left == None {
          return Some(TimedOut);
        }
        limit := left.value;
      }
      error := socket.SetReceiveTimeout(limit);
      if error == None {
        armed := armed + [ArmedRead(limit, socket.now, if inProgress then Some(deadline) else None)];
      }
    }

    /** A read gave bytes: the reader takes them, and the first ones of a request start its clock. */
    method TakeBytes(data: string, ghost before: seq<string>)
      requires reader.Valid() && reader.failure == NoError
      requires inProgress ==> deadline <= socket.now + deadlines.request * NS
      requires forall i :: 0 <= i < |armed| ==> Honest(armed[i])
      requires socket.received == before + [data]
      requires Feed(Model.FRESH, "", before) == Model.Run(given, reader.State(), reader.Unread())
      modifies this`inProgress, this`deadline, reader, reader.lines
      ensures Valid() && inProgress
      ensures reader.failure == NoError && reader.State() == old(reader.State())
      ensures deadline == if old(inProgress) then old(deadline) else socket.now + deadlines.request * NS
    {
      hide Feed, Owing, Honest;
      FeedMore(Model.FRESH, "", before, data);
      ghost var state, unread := reader.State(), reader.Unread();
      reader.Append(data);
      assert reader.State() == state && reader.Unread() == unread + data;
      assert Feed(Model.FRESH, "", socket.received) == Owing(given, state, unread + data);
      assert socket.received[..|socket.received| - 1] == before;
      if !inProgress {
        inProgress := true;
        deadline := socket.now + deadlines.request * NS;
      }
    }

    /** One read, under its deadline, taken only once the bytes so far owe no answer. */
    method Fill() returns (ended: Option<ConnectionResult>)
      requires Valid() && reader.failure == NoError
      requires Feed(Model.FRESH, "", socket.received) == Model.Run(given, reader.State(), reader.Unread())
      modifies this`armed, this`inProgress, this`deadline
      modifies socket`now, socket`script, socket`timeout, socket`received, socket`waited, socket`gaveUp
      modifies reader, reader.lines
      ensures Valid() && reader.failure == NoError && old(socket.received) <= socket.received
      ensures |socket.script| <= |old(socket.script)|
      ensures ended == None ==> inProgress && |socket.script| < |old(socket.script)|
      ensures ended.Some? ==> socket.received == old(socket.received)
      ensures ended.Some? ==> !ended.value.Answered? && Feed(Model.FRESH, "", socket.received).answers == given
      ensures old(inProgress) ==> inProgress && deadline == old(deadline)
      ensures inProgress == (old(inProgress) || socket.received != old(socket.received))
      ensures old(inProgress) ==>
                socket.waited - old(socket.waited) + Left(deadline, socket.now) <= Left(deadline, old(socket.now))
      ensures !old(inProgress) && deadlines.idle > 0 ==>
                && socket.waited - old(socket.waited) <= deadlines.idle * NS
                && (ended == None ==> Left(deadline, socket.now) == deadlines.request * NS)
      ensures ended.Some? && socket.gaveUp ==> GaveUpFairly(old(socket.waited))
    {
      hide Feed, Owing, Honest, ReadLazily;
      var failed := ApplyReadDeadline();
      if failed.Some? {
        return Some(ReadFailed(failed.value));
      }
      ghost var before := socket.received;
      var chunk := socket.Read();
      match chunk {
        case Error(error) => ended := Some(ReadFailed(error));
        case Ended => ended := Some(PeerFinished);
        case Got(data) =>
          TakeBytes(data, before);
          ended := None;
      }
    }

    /** Waits for the next answer. It gives the next one owed by the bytes read so far, reading more only while they
        owe none. Within a request the deadline never moves, and whatever a call begun within one waits comes off the
        time it had; with an idle deadline set, one call is blocked for at most the idle and the request deadline
        together, however the bytes are dripped. And when it is the timeout that ends it, that time was given: a request
        had less than a millisecond left, an idle connection had its whole idle deadline. */
    method NextRequest() returns (r: ConnectionResult)
      requires Valid() && reader.failure == NoError
      modifies this, reader, reader.lines
      modifies socket`now, socket`script, socket`timeout, socket`received, socket`waited, socket`gaveUp
      ensures Valid() && old(socket.received) <= socket.received && |socket.script| <= |old(socket.script)|
      ensures match r
              case Answered(answer) =>
                && Model.Answers(answer) && given == old(given) + [answer]
                && (answer.streamContinues ==> reader.failure == NoError)
                && ReadLazily(socket.received, old(given))
                && (answer.request.Some? ==> answer.error == NoError && answer.streamContinues)
                && (|socket.script| < |old(socket.script)| || |reader.Unread()| < |old(reader.Unread())|
                    || reader.failure != NoError)
              case _ =>
                given == old(given) && Feed(Model.FRESH, "", socket.received).answers == given
      ensures inProgress == (!(r.Answered? && r.answer.request.Some?)
                             && (old(inProgress) || socket.received != old(socket.received)))
      ensures old(inProgress) ==> deadline == old(deadline)
      ensures deadlines.idle > 0 ==> socket.waited - old(socket.waited) <= (deadlines.idle + deadlines.request) * NS
      ensures old(inProgress) ==>
                socket.waited - old(socket.waited) + Left(old(deadline), socket.now)
                  <= Left(old(deadline), old(socket.now))
      ensures !r.Answered? && socket.gaveUp ==> GaveUpFairly(old(socket.waited))
    {
      hide Feed, Owing, Model.NextRequest, Honest, ReadLazily;
      ghost var bound := (deadlines.idle + deadlines.request) * NS;
      while true
        invariant Valid() && reader.failure == NoError
        invariant given == old(given) && old(socket.received) <= socket.received
        invariant |socket.script| <= |old(socket.script)|
        invariant |socket.script| < |old(socket.script)| || |reader.Unread()| <= |old(reader.Unread())|
        invariant old(inProgress) ==> deadline == old(deadline)
        invariant inProgress == (old(inProgress) || socket.received != old(socket.received))
        invariant deadlines.idle > 0 && inProgress ==>
                    socket.waited - old(socket.waited) + Left(deadline, socket.now) <= bound
        invariant old(inProgress) ==>
                    socket.waited - old(socket.waited) + Left(old(deadline), socket.now)
                      <= Left(old(deadline), old(socket.now))
        invariant !inProgress ==> socket.waited == old(socket.waited)
        decreases |socket.script|
      {
        ghost var state, unread := reader.State(), reader.Unread();
        OwingGives(given, state, unread);
        var parsed := reader.NextRequest();
        assert (reader.State(), reader.Unread(), parsed) == Model.NextRequest(state, unread);
        if Model.Answers(parsed) {
          if parsed.request.Some? {
            inProgress := false;
          }
          LazilyStill(socket.received, given, parsed);
          given := given + [parsed];
          return Answered(parsed);
        }
        assert Feed(Model.FRESH, "", socket.received) == Model.Run(given, reader.State(), reader.Unread());
        var ended := Fill();
        if ended.Some? {
          return ended.value;
        }
      }
    }

    method Write(bytes: string) returns (ok: bool)
      requires Valid()
      modifies socket`sent, socket`writes
      ensures Valid() && socket.sent == if ok then old(socket.sent) + [bytes] else old(socket.sent)
    {
      ok := socket.Write(bytes);
    }
  }
}
