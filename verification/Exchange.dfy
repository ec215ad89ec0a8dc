/** From the bytes a client sends to the bytes it gets back (src/server/serve.cpp:140-178 over
    src/http/request_reader.cpp:407-433): the reader's round trip and the serving loop put together. */
module Exchanges {
  import opened Text
  import opened Ascii
  import opened Messages
  import opened Responses
  import opened LineReading
  import opened Framing
  import opened Segmentation
  import opened Connections
  import opened Serving
  import opened Refusals
  import opened RoundTrip
  import Model = ReaderModel
  import Parser = RequestParser

  lemma {:induction false} DeliveredInOrder(messages: seq<Message>)
    ensures |DeliveriesMeant(messages)| == |messages|
    ensures forall i :: 0 <= i < |messages| ==>
              DeliveriesMeant(messages)[i] == Model.Delivery(RequestMeant(messages[i]))
    decreases |messages|
  {
    hide RequestMeant;
    if messages == [] {
    } else {
      DeliveredInOrder(messages[1..]);
    }
  }

  /** What the first pieces are answered with comes first in what all of them are. */
  lemma {:induction false} AnswersSoFar(received: seq<string>, more: string)
    ensures Feed(Model.FRESH, "", received).answers <= Feed(Model.FRESH, "", received + [more]).answers
  {
    hide Feed, Model.Drain;
    FeedMore(Model.FRESH, "", received, more);
  }

  /** The reply a request is owed: what the handler says, closing as the client asked, without a body for HEAD. */
  function Owed(request: Request, respond: Request -> Response): string
  {
    Printed(Announced(respond(request), WantsClose(request)), request.verb != Method.Head)
  }

  lemma OwedIsReply(request: Request, respond: Request -> Response)
    ensures Reply(Model.Delivery(request), respond) == Owed(request, respond)
    ensures Closes(Model.Delivery(request)) == WantsClose(request)
  {
  }

  /** How many of the answers given were sent. */
  function Replied(given: nat, ending: Ending): int { if ending == WriteFailed then given - 1 else given }

  /** Serving requests alone: one reply for each in turn, at most one 408 after them, and only the last may close. */
  predicate Exchanged(requests: seq<Request>, sent: seq<string>, ending: Ending, respond: Request -> Response) {
    var replied := Replied(|requests|, ending);
    && 0 <= replied && |sent| == replied + (if ending == ToldTimeout then 1 else 0)
    && (forall i :: 0 <= i < replied ==> sent[i] == Owed(requests[i], respond))
    && (ending == ToldTimeout ==> sent[replied] == TimeoutReply())
    && (forall i :: 0 <= i < |requests| - 1 ==> !WantsClose(requests[i]))
    && (!Answering(ending) ==> requests == [] || !WantsClose(requests[|requests| - 1]))
    && (ending == ByDecision ==> requests != [] && WantsClose(requests[|requests| - 1]))
  }

  predicate Deliver(given: seq<Model.RequestResult>, requests: seq<Request>) {
    |given| == |requests| && forall i :: 0 <= i < |given| ==> given[i] == Model.Delivery(requests[i])
  }

  lemma RepliesOwed(requests: seq<Request>, given: seq<Model.RequestResult>, respond: Request -> Response)
    requires Deliver(given, requests)
    ensures forall i :: 0 <= i < |given| ==> Replies(given, respond)[i] == Owed(requests[i], respond)
    ensures forall i :: 0 <= i < |given| ==> Closes(given[i]) == WantsClose(requests[i])
  {
    hide Reply, Owed, Closes, WantsClose;
    forall i | 0 <= i < |given|
      ensures Reply(given[i], respond) == Owed(requests[i], respond) && Closes(given[i]) == WantsClose(requests[i])
    {
      OwedIsReply(requests[i], respond);
    }
  }

  lemma RequestsExchanged(requests: seq<Request>, given: seq<Model.RequestResult>, sent: seq<string>, ending: Ending,
                          respond: Request -> Response)
    requires Deliver(given, requests) && Served(given, sent, ending, respond)
    ensures Exchanged(requests, sent, ending, respond)
  {
    hide Reply, Replies, Owed, Closes, WantsClose, TimeoutReply;
    RepliesOwed(requests, given, respond);
    if ending == WriteFailed {
      RepliesOwed(requests[..|requests| - 1], given[..|given| - 1], respond);
    }
  }

  lemma {:induction false} FeedSettles(s: Model.State, unread: string, pieces: seq<string>)
    requires Model.Sound(s) && Settled(s, unread)
    ensures Settled(Feed(s, unread, pieces).state, Feed(s, unread, pieces).unread)
    decreases |pieces|
  {
    hide Model.Drain;
    if pieces == [] {
    } else {
      var first := Model.Drain(s, unread + pieces[0]);
      DrainSettles(s, unread + pieces[0]);
      FeedSettles(first.state, first.unread, pieces[1..]);
    }
  }

  lemma {:induction false} NothingMore(received: seq<string>)
    ensures Feed(Model.FRESH, "", received + [""]).answers == Feed(Model.FRESH, "", received).answers
  {
    FreshSettled();
    FeedSettles(Model.FRESH, "", received);
    hide Feed, Model.Drain;
    FeedMore(Model.FRESH, "", received, "");
    var f := Feed(Model.FRESH, "", received);
    assert f.unread + "" == f.unread;
  }

  function RequestsMeant(messages: seq<Message>): (r: seq<Request>)
    ensures |r| == |messages|
    ensures forall i :: 0 <= i < |r| ==> r[i] == RequestMeant(messages[i])
  {
    if messages == [] then [] else [RequestMeant(messages[0])] + RequestsMeant(messages[1..])
  }

  /** A client sends well-formed messages, and the server has received some of those bytes, cut in any way, when the
      connection ends as `ServeConnection` says it can. Then what was sent is one reply to each message in turn, to
      exactly the request that was meant, and at most one 408 after them. No request before the last wanted the
      connection closed, and a connection closed by decision stopped at one that did. When reading ended it with
      everything received, no message is left unanswered. */
  lemma {:induction false} EveryMessageAnswered(messages: seq<Message>, received: seq<string>, more: string, cap: nat,
                             given: seq<Model.RequestResult>, sent: seq<string>, ending: Ending,
                             respond: Request -> Response)
    requires cap <= MAX_LINE_LENGTH && forall i :: 0 <= i < |messages| ==> WellFormed(messages[i], cap)
    requires Flatten(received + [more]) == EncodeAll(messages)
    requires cap < MAX_LINE_LENGTH || !SplitsCapLine(Model.FRESH, EncodeAll(messages), 0, received + [more])
    requires Served(given, sent, ending, respond)
    requires given <= Feed(Model.FRESH, "", received).answers
    requires !Answering(ending) ==> given == Feed(Model.FRESH, "", received).answers
    ensures |given| <= |messages| && Exchanged(RequestsMeant(messages)[..|given|], sent, ending, respond)
    ensures !Answering(ending) && more == "" ==> |given| == |messages|
  {
    hide Feed, WellFormed, RequestMeant, Served, Exchanged, RequestsMeant, DeliveriesMeant, SplitsCapLine, EncodeAll;
    FramingRoundTrip(messages, received + [more], cap);
    AnswersSoFar(received, more);
    NothingMore(received);
    DeliveredInOrder(messages);
    assert given <= DeliveriesMeant(messages);
    RequestsExchanged(RequestsMeant(messages)[..|given|], given, sent, ending, respond);
  }

  // ----- Persistence, from the messages alone

  predicate NoConnectionField(m: Message) {
    forall i :: 0 <= i < |m.fields| ==> LowerText(m.fields[i].name) != "connection"
  }

  lemma {:induction false} NamesMeant(fields: seq<FieldSpelling>)
    ensures |FieldsMeant(fields)| == |fields|
    ensures forall i :: 0 <= i < |fields| ==> FieldsMeant(fields)[i].name == LowerText(fields[i].name)
    decreases |fields|
  {
    if fields == [] {
    } else {
      NamesMeant(fields[1..]);
    }
  }

  lemma PlainMessage(m: Message)
    requires NoConnectionField(m)
    ensures WantsClose(RequestMeant(m)) <==> m.version == Http10
  {
    NamesMeant(m.fields);
    hide FieldsMeant, WantsClose;
    PersistentByVersion(RequestMeant(m));
  }

  /** No run of HTTP/1.1 messages without a connection field is ended by decision; of HTTP/1.0 ones the first reply is
      the last. */
  lemma {:induction false} PersistenceOfExchange(messages: seq<Message>, given: nat, sent: seq<string>, ending: Ending,
                              respond: Request -> Response)
    requires given <= |messages| && Exchanged(RequestsMeant(messages)[..given], sent, ending, respond)
    requires forall i :: 0 <= i < |messages| ==> NoConnectionField(messages[i])
    ensures (forall i :: 0 <= i < |messages| ==> messages[i].version == Http11) ==> ending != ByDecision
    ensures (forall i :: 0 <= i < |messages| ==> messages[i].version == Http10) ==>
              given <= 1 && (given == 1 ==> Answering(ending))
  {
    var requests := RequestsMeant(messages)[..given];
    forall i | 0 <= i < given
      ensures requests[i] == RequestMeant(messages[i])
      ensures WantsClose(requests[i]) <==> messages[i].version == Http10
    {
      PlainMessage(messages[i]);
    }
    hide WantsClose, Owed, RequestMeant, RequestsMeant, TimeoutReply;
  }

  // ----- What a wrong first line is answered with

  /** The status the next answer reaches the client with, on a reply that closes. */
  predicate RefusedAs(stream: string, status: nat, respond: Request -> Response) {
    var r := Model.NextRequest(Model.FRESH, stream).2;
    var head := ReadHead(Reply(r, respond));
    && r.request == None && Closes(r)
    && head.Some? && ReadStatus(head.value.statusLine) == Some(status) && Lists(head.value.fields, "close")
  }

  lemma FailureStatus(stream: string, error: RequestError, status: nat, respond: Request -> Response)
    requires FailsWith(Model.FRESH, stream, error) && error != NoError && StatusFits(error, status)
    ensures RefusedAs(stream, status, respond)
  {
    hide Reply, ReadHead, ReadStatus, Lists, Model.NextRequest;
    RefusalReadBack(Model.NextRequest(Model.FRESH, stream).2, respond);
  }

  /** From the first line to the status: no version at all is a 400, a version not spoken a 505, a broken escape a 400,
      and a verb that names no method a 501; a line that does not end within the cap is a 414. */
  lemma {:induction false} StartAnswered(verb: string, target: string, version: string, rest: string,
                                         respond: Request -> Response)
    requires Parser.PlainPart(verb) && Parser.PlainPart(target) && Parser.PlainPart(version)
    ensures var line := verb + " " + target + " " + version;
            var stream := line + CRLF + rest;
            if |line| > MAX_LINE_LENGTH then RefusedAs(stream, 414, respond)
            else
              && (!Parser.VersionShape(version) ==> RefusedAs(stream, 400, respond))
              && (Parser.VersionShape(version) && !Parser.IsSpoken(version) ==> RefusedAs(stream, 505, respond))
              && (Parser.IsSpoken(version) && !Parser.ValidEscapes(target) ==> RefusedAs(stream, 400, respond))
              && (Parser.IsSpoken(version) && Parser.ValidEscapes(target) && (forall m :: verb != MethodName(m)) ==>
                    RefusedAs(stream, 501, respond))
  {
    hide RefusedAs, FailsWith, Parser.PlainPart, Parser.VersionShape, Parser.ValidEscapes, Parser.IsSpoken, MethodName;
    var line := verb + " " + target + " " + version;
    var stream := line + CRLF + rest;
    if |line| > MAX_LINE_LENGTH {
      LongStart(verb, target, version, rest);
      FailureStatus(stream, RequestLineTooLong, 414, respond);
    } else {
      StartRefused(verb, target, version, rest);
      if FailsWith(Model.FRESH, stream, RequestError.Malformed) {
        FailureStatus(stream, RequestError.Malformed, 400, respond);
      }
      if FailsWith(Model.FRESH, stream, RequestError.UnsupportedVersion) {
        FailureStatus(stream, RequestError.UnsupportedVersion, 505, respond);
      }
      if FailsWith(Model.FRESH, stream, RequestError.UnknownMethod) {
        FailureStatus(stream, RequestError.UnknownMethod, 501, respond);
      }
    }
  }

  lemma LongStart(verb: string, target: string, version: string, rest: string)
    requires Parser.PlainPart(verb) && Parser.PlainPart(target) && Parser.PlainPart(version)
    requires |verb + " " + target + " " + version| > MAX_LINE_LENGTH
    ensures FailsWith(Model.FRESH, verb + " " + target + " " + version + CRLF + rest, RequestLineTooLong)
  {
    var line := verb + " " + target + " " + version;
    var stream := line + CRLF + rest;
    Parser.PlainLine(verb, target, version);
    assert forall k :: 0 <= k < |line| ==> stream[k] == line[k] && !IsControl(line[k]);
    hide FailsWith, Parser.PlainPart;
    LongLineRefused(Model.FRESH, stream);
  }
}
