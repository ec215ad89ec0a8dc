/** Answering a whole connection (src/server/serve.cpp:62-178). */
module Serving {
  import opened Text
  import opened Ascii
  import opened Messages
  import opened FieldList
  import opened Framing
  import opened Responses
  import opened Segmentation
  import opened Connections
  import Model = ReaderModel
  import Parser = RequestParser

  const CONNECTION: string := "connection"

  function StatusFor(error: RequestError): nat
  {
    match error
    case UnknownMethod => 501
    case UnsupportedTransferEncoding => 501
    case UnsupportedVersion => 505
    case BodyTooLarge => 413
    case RequestLineTooLong => 414
    case HeaderTooLong => 431
    case TooManyHeaders => 431
    case HeadTooLarge => 431
    case Malformed => 400
    case NoError => 400
  }

  predicate IsTimeout(error: Errno) { error == TimedOut || error == WouldBlock }

  // ----- Connection options

  predicate Names(tokens: seq<string>, option: string) {
    exists i :: 0 <= i < |tokens| && LowerText(tokens[i]) == option
  }

  /** Section 5.3 of RFC 9110: every connection field counts, as one list. */
  predicate HasOption(headers: seq<Field>, option: string) {
    Names(Codings(Values(headers, CONNECTION)), option)
  }

  lemma NamesAppend(a: seq<string>, b: seq<string>, option: string)
    ensures Names(a + b, option) <==> Names(a, option) || Names(b, option)
  {
    if Names(a, option) {
      var i :| 0 <= i < |a| && LowerText(a[i]) == option;
      assert (a + b)[i] == a[i];
    }
    if Names(b, option) {
      var i :| 0 <= i < |b| && LowerText(b[i]) == option;
      assert (a + b)[|a| + i] == b[i];
    }
  }

  method NamesOption(value: string, option: string) returns (r: bool)
    ensures r == Names(Elements(value), option)
  {
    hide Elements;
    ghost var walked: seq<string> := [];
    ghost var rest := Elements(value);
    assert value[0..] == value;
    ElementsOfEmpty();
    var element, pos := NextElement(value, 0);
    while element.Some?
      invariant walked + rest == Elements(value) && !Names(walked, option)
      invariant element == None ==> rest == []
      invariant element.Some? ==> rest == [element.value] + ElementsFrom(value, pos)
      decreases element.Some?, |value| - pos
    {
      NamesAppend(walked, rest, option);
      NamesAppend([element.value], ElementsFrom(value, pos), option);
      if LowerText(element.value) == option {
        assert [element.value][0] == element.value;
        return true;
      }
      WalkPast(walked, rest, element.value, ElementsFrom(value, pos));
      NamesAppend(walked, [element.value], option);
      walked, rest := walked + [element.value], ElementsFrom(value, pos);
      element, pos := NextElement(value, pos);
    }
    assert walked == walked + rest;
    return false;
  }

  lemma OptionsOfField(headers: seq<Field>, i: nat, option: string)
    requires i < |headers|
    ensures HasOption(headers[i..], option) <==>
              (headers[i].name == CONNECTION && Names(Elements(headers[i].value), option))
              || HasOption(headers[i + 1..], option)
  {
    assert headers[i..][1..] == headers[i + 1..];
    var rest := Values(headers[i + 1..], CONNECTION);
    if headers[i].name == CONNECTION {
      assert ([headers[i].value] + rest)[1..] == rest;
      NamesAppend(Elements(headers[i].value), Codings(rest), option);
    } else {
      assert [] + rest == rest;
    }
  }

  method HasConnectionOption(headers: seq<Field>, option: string) returns (r: bool)
    ensures r == HasOption(headers, option)
  {
    var i := 0;
    assert headers[0..] == headers;
    while i < |headers|
      invariant i <= |headers|
      invariant HasOption(headers, option) <==> HasOption(headers[i..], option)
    {
      OptionsOfField(headers, i, option);
      if headers[i].name == CONNECTION {
        var named := NamesOption(headers[i].value, option);
        if named {
          return true;
        }
      }
      i := i + 1;
    }
    return false;
  }

  /** Whether the connection ends after this request: on "close", or on 1.0 for want of "keep-alive". */
  predicate WantsClose(request: Request) {
    HasOption(request.headers, "close")
    || (request.version == Http10 && !HasOption(request.headers, "keep-alive"))
  }

  method ClientWantsClose(request: Request) returns (r: bool)
    ensures r == WantsClose(request)
  {
    var close := HasConnectionOption(request.headers, "close");
    if close {
      return true;
    }
    match request.version {
      case Http10 =>
        var keep := HasConnectionOption(request.headers, "keep-alive");
        r := !keep;
      case Http11 => r := false;
    }
  }

  /** Repeating the connection field or folding it into one comma list makes no difference. */
  lemma {:induction false} FoldingKeepsPersistence(values: seq<string>, option: string)
    requires values != []
    ensures Names(Codings([FoldValues(values)]), option) <==> Names(Codings(values), option)
  {
    FoldCodings(values);
  }

  // ----- Which requests end the connection, field by field

  /** Some connection field lists this option, in any case of its letters. */
  predicate Lists(headers: seq<Field>, option: string) {
    exists i, j :: 0 <= i < |headers| && headers[i].name == "connection"
                   && 0 <= j < |Elements(headers[i].value)| && LowerText(Elements(headers[i].value)[j]) == option
  }

  lemma {:induction false} OptionListed(headers: seq<Field>, option: string)
    ensures HasOption(headers, option) <==> Lists(headers, option)
    decreases |headers|
  {
    hide HasOption, Elements;
    if headers == [] {
      NoOptions(option);
    } else {
      var rest := headers[1..];
      OptionListed(rest, option);
      assert headers[0..] == headers;
      OptionsOfField(headers, 0, option);
      if Lists(rest, option) {
        var i, j :| 0 <= i < |rest| && rest[i].name == "connection"
                    && 0 <= j < |Elements(rest[i].value)| && LowerText(Elements(rest[i].value)[j]) == option;
        assert headers[i + 1] == rest[i];
      }
      if Lists(headers, option) {
        var i, j :| 0 <= i < |headers| && headers[i].name == "connection"
                    && 0 <= j < |Elements(headers[i].value)| && LowerText(Elements(headers[i].value)[j]) == option;
        assert i > 0 ==> rest[i - 1] == headers[i];
      }
    }
  }

  lemma NoOptions(option: string)
    ensures !HasOption([], option)
  {
  }

  /** An HTTP/1.1 connection ends exactly with a request that lists "close"; an HTTP/1.0 one also with any that does not
      list "keep-alive". */
  lemma PersistenceExactly(request: Request)
    ensures request.version == Http11 ==> (WantsClose(request) <==> Lists(request.headers, "close"))
    ensures request.version == Http10 ==>
              (WantsClose(request) <==> Lists(request.headers, "close") || !Lists(request.headers, "keep-alive"))
  {
    OptionListed(request.headers, "close");
    OptionListed(request.headers, "keep-alive");
    hide Lists, HasOption;
  }

  /** So with no connection field the version alone decides. */
  lemma PersistentByVersion(request: Request)
    requires forall i :: 0 <= i < |request.headers| ==> request.headers[i].name != "connection"
    ensures WantsClose(request) <==> request.version == Http10
  {
    PersistenceExactly(request);
    hide WantsClose;
  }

  // ----- What each answer of the reader is answered with

  /** Whether the connection ends by decision after this answer. */
  predicate Closes(r: Model.RequestResult) {
    match r.request
    case Some(request) => WantsClose(request)
    case None => !r.streamContinues || r.version == Http10
  }

  function ReplyTo(r: Model.RequestResult, respond: Request -> Response): Response
  {
    match r.request
    case Some(request) => respond(request)
    case None => StatusResponse(StatusFor(r.error))
  }

  function Announced(response: Response, closing: bool): Response
  {
    if closing then response.(headers := AddField(response.headers, Field(CONNECTION, "close"))) else response
  }

  predicate WithBody(r: Model.RequestResult) { r.request.Some? ==> r.request.value.verb != Head }

  /** The bytes sent for one answer. */
  function Reply(r: Model.RequestResult, respond: Request -> Response): string
  {
    Printed(Announced(ReplyTo(r, respond), Closes(r)), WithBody(r))
  }

  function Replies(answers: seq<Model.RequestResult>, respond: Request -> Response): (sent: seq<string>)
    ensures |sent| == |answers|
    ensures forall i :: 0 <= i < |sent| ==> sent[i] == Reply(answers[i], respond)
  {
    seq(|answers|, i requires 0 <= i < |answers| => Reply(answers[i], respond))
  }

  function TimeoutReply(): string { Printed(Announced(StatusResponse(408), true), true) }

  /** A closing reply says so, in a field of its own after everything the handler set. */
  lemma ClosingAnnounced(r: Model.RequestResult, respond: Request -> Response)
    requires Closes(r)
    ensures var headers := Announced(ReplyTo(r, respond), true).headers;
            Kept(headers) == Kept(ReplyTo(r, respond).headers) + [Field(CONNECTION, "close")]
  {
    CloseKept(ReplyTo(r, respond).headers);
  }

  /** Every reply, read back: the status the handler gave, its fields in order but for a Content-Length of its own, then
      "connection: close" exactly when the connection ends, then the length of its body; and the body, but for HEAD. */
  lemma ReplyReadBack(r: Model.RequestResult, respond: Request -> Response)
    requires var said := ReplyTo(r, respond);
             said.status <= SIZE_MAX && |said.body| <= SIZE_MAX && AllPrintable(said.headers)
    ensures var said := ReplyTo(r, respond);
            var head := ReadHead(Reply(r, respond));
            && head.Some?
            && ReadStatus(head.value.statusLine) == Some(said.status)
            && head.value.fields == Kept(said.headers)
                                    + (if Closes(r) then [Field("connection", "close")] else [])
                                    + [Field("content-length", Decimal(|said.body|))]
            && head.value.rest == if r.request.Some? && r.request.value.verb == Method.Head then "" else said.body
  {
    var said := ReplyTo(r, respond);
    var announced := Announced(said, Closes(r));
    ClosePrintable();
    assert AllPrintable(announced.headers);
    PrintedReadBack(announced, WithBody(r));
    ReplyIs(r, respond);
    hide Reply, Printed, Kept, Closes, ReplyTo, Printable, ReadStatus, ReadHead, Decimal, StatusLine;
    if Closes(r) {
      ClosingAnnounced(r, respond);
    } else {
      assert Kept(said.headers) + [] == Kept(said.headers);
    }
  }

  /** In particular the fields of a closing reply name "close" among the connection options. */
  lemma ClosingReadBack(r: Model.RequestResult, respond: Request -> Response)
    requires Closes(r)
    requires var said := ReplyTo(r, respond);
             said.status <= SIZE_MAX && |said.body| <= SIZE_MAX && AllPrintable(said.headers)
    ensures ReadHead(Reply(r, respond)).Some? && HasOption(ReadHead(Reply(r, respond)).value.fields, "close")
  {
    hide Reply, Kept, Closes, ReplyTo, Printable, ReadStatus, ReadHead, Decimal, HasOption;
    ReplyReadBack(r, respond);
    var said := ReplyTo(r, respond);
    CloseNamed(Kept(said.headers), Field("content-length", Decimal(|said.body|)));
  }

  /** What each error is answered with. */
  predicate StatusFits(error: RequestError, status: nat) {
    && (error == Malformed ==> status == 400)
    && (error == BodyTooLarge ==> status == 413)
    && (error == RequestLineTooLong ==> status == 414)
    && (error == HeaderTooLong || error == TooManyHeaders || error == HeadTooLarge ==> status == 431)
    && (error == UnknownMethod || error == UnsupportedTransferEncoding ==> status == 501)
    && (error == UnsupportedVersion ==> status == 505)
  }

  lemma TypeName()
    ensures Parser.IsToken("content-type") && LowerText("content-type") == "content-type"
    ensures "content-type" != CONTENT_LENGTH
  {
    assert "content-type"[8] != CONTENT_LENGTH[8];
  }

  lemma TypeValue()
    ensures var value := "text/plain; charset=utf-8";
            Parser.IsValueText(value) && Trimmed(value) && |value| < 100
  {
  }

  lemma TypePrintable()
    ensures Printable(Field("content-type", "text/plain; charset=utf-8"))
    ensures LowerText("content-type") == "content-type" && "content-type" != CONTENT_LENGTH
  {
    TypeName();
    TypeValue();
    hide Parser.IsToken, Parser.IsValueText, Trimmed, LowerText;
  }

  /** A status response can always be printed, and keeps its one field. */
  lemma StatusPrintable(status: nat)
    requires status <= SIZE_MAX
    ensures var said := StatusResponse(status);
            && said.status == status && |said.body| <= SIZE_MAX && AllPrintable(said.headers)
            && Kept(said.headers) == [Field("content-type", "text/plain; charset=utf-8")]
  {
    TypePrintable();
    SizeShort(status);
    MessagePlain(status);
    hide Printable, StatusMessage, Decimal;
    var field := Field("content-type", "text/plain; charset=utf-8");
    assert [] + [field] == [field];
    WithoutAppend([], field, CONTENT_LENGTH);
  }

  /** Which option lists the fields of a reply to a refusal hold. */
  lemma QuietFields(length: Field, closing: bool)
    requires length.name == "content-length"
    ensures var fields := [Field("content-type", "text/plain; charset=utf-8")]
                          + (if closing then [Field("connection", "close")] else []) + [length];
            Lists(fields, "close") <==> closing
  {
    if closing {
      CloseNamed([Field("content-type", "text/plain; charset=utf-8")], length);
      OptionListed([Field("content-type", "text/plain; charset=utf-8")] + [Field("connection", "close")] + [length],
                   "close");
    } else {
      assert |"content-type"| != |"connection"| && |"content-length"| != |"connection"|;
    }
  }

  /** A refusal reaches the client as the status its error calls for, with "connection: close" when the reader cannot go
      on, and on HTTP/1.0 always. */
  lemma RefusalReadBack(r: Model.RequestResult, respond: Request -> Response)
    requires r.request == None
    ensures var head := ReadHead(Reply(r, respond));
            && head.Some?
            && ReadStatus(head.value.statusLine).Some? && StatusFits(r.error, ReadStatus(head.value.statusLine).value)
            && (Lists(head.value.fields, "close") <==> !r.streamContinues || r.version == Http10)
  {
    var said := ReplyTo(r, respond);
    StatusPrintable(StatusFor(r.error));
    assert StatusFits(r.error, said.status);
    assert Closes(r) <==> !r.streamContinues || r.version == Http10;
    hide Reply, Closes, ReplyTo, Printable, ReadStatus, ReadHead, Decimal, StatusFits, Lists, StatusResponse;
    ReplyReadBack(r, respond);
    QuietFields(Field("content-length", Decimal(|said.body|)), Closes(r));
  }

  /** And the one reply to no request at all is a 408 that closes. */
  lemma TimeoutReadBack()
    ensures var head := ReadHead(TimeoutReply());
            && head.Some? && ReadStatus(head.value.statusLine) == Some(408) && Lists(head.value.fields, "close")
  {
    var said := Announced(StatusResponse(408), true);
    StatusPrintable(408);
    ClosePrintable();
    assert AllPrintable(said.headers);
    hide Printable, ReadStatus, ReadHead, Decimal, Lists, StatusResponse, Kept, Printed, StatusLine;
    PrintedReadBack(said, true);
    CloseKept(StatusResponse(408).headers);
    QuietFields(LengthField(said.body), true);
  }

  lemma CloseKept(headers: seq<Field>)
    ensures Kept(AddField(headers, Field(CONNECTION, "close"))) == Kept(headers) + [Field(CONNECTION, "close")]
  {
    ClosePrintable();
    assert |CONNECTION| != |CONTENT_LENGTH|;
    WithoutAppend(headers, Field(CONNECTION, "close"), CONTENT_LENGTH);
  }

  lemma ClosePrintable()
    ensures Printable(Field(CONNECTION, "close")) && LowerText(CONNECTION) == CONNECTION
  {
  }

  lemma CloseNamed(before: seq<Field>, after: Field)
    ensures HasOption(before + [Field(CONNECTION, "close")] + [after], "close")
  {
    var close := Field(CONNECTION, "close");
    var all := before + [close] + [after];
    var i := |before|;
    assert all[i] == close;
    ElementsOfPiece("close");
    assert Elements("close") == ["close"] && LowerText(["close"][0]) == "close";
    OptionsOfField(all, i, "close");
    OptionsBefore(all, i, "close");
  }

  lemma {:induction false} OptionsBefore(headers: seq<Field>, i: nat, option: string)
    requires i <= |headers| && HasOption(headers[i..], option)
    ensures HasOption(headers, option)
    decreases i
  {
    if i == 0 {
      assert headers[0..] == headers;
    } else {
      OptionsOfField(headers, i - 1, option);
      OptionsBefore(headers, i - 1, option);
    }
  }

  method Answer(conn: Connection, response: Response, closing: bool, withBody: bool)
    returns (open: bool, ghost sent: bool)
    requires conn.Valid()
    modifies conn.socket`sent, conn.socket`writes
    ensures conn.Valid() && open == (sent && !closing)
    ensures conn.socket.sent ==
            if sent then old(conn.socket.sent) + [Printed(Announced(response, closing), withBody)]
            else old(conn.socket.sent)
  {
    var announced := response;
    if closing {
      announced := announced.(headers := AddField(announced.headers, Field(CONNECTION, "close")));
    }
    var bytes := Serialize(announced, withBody);
    var ok := conn.Write(bytes);
    sent := ok;
    open := ok && !closing;
  }

  // ----- The whole connection

  /** Why the server stopped: it decided to close, a write failed, a read failed, a read timed out within a request
      and the client was told so or could not be, or the peer had finished. */
  datatype Ending = ByDecision | WriteFailed | ReadBroke(error: Errno) | ToldTimeout | UntoldTimeout | PeerDone

  /** Whether the connection ended on the way out rather than while reading. */
  predicate Answering(ending: Ending) { ending == ByDecision || ending == WriteFailed }

  /** A read failure is answered exactly when it is a timeout with a request in progress. */
  predicate ToldWhenDue(ending: Ending, inProgress: bool) {
    match ending
    case ReadBroke(error) => inProgress ==> error != TimedOut && error != WouldBlock
    case ToldTimeout => inProgress
    case UntoldTimeout => inProgress
    case _ => true
  }

  predicate AllKeepOpen(answers: seq<Model.RequestResult>) { forall i :: 0 <= i < |answers| ==> !Closes(answers[i]) }

  /** What was sent, for the answers the reader gave and the way the connection ended. */
  predicate Served(given: seq<Model.RequestResult>, sent: seq<string>, ending: Ending, respond: Request -> Response) {
    match ending
    case ByDecision =>
      && given != [] && AllKeepOpen(given[..|given| - 1]) && Closes(given[|given| - 1])
      && sent == Replies(given, respond)
    case WriteFailed =>
      given != [] && AllKeepOpen(given[..|given| - 1]) && sent == Replies(given[..|given| - 1], respond)
    case ReadBroke(_) => AllKeepOpen(given) && sent == Replies(given, respond)
    case UntoldTimeout => AllKeepOpen(given) && sent == Replies(given, respond)
    case PeerDone => AllKeepOpen(given) && sent == Replies(given, respond)
    case ToldTimeout => AllKeepOpen(given) && sent == Replies(given, respond) + [TimeoutReply()]
  }

  lemma RepliesMore(given: seq<Model.RequestResult>, r: Model.RequestResult, respond: Request -> Response)
    ensures Replies(given + [r], respond) == Replies(given, respond) + [Reply(r, respond)]
  {
  }

  /** The end of a connection whose read failed: a 408 if that was a timeout within a request, else nothing. */
  method EndReading(conn: Connection, error: Errno, respond: Request -> Response) returns (ghost ending: Ending)
    requires conn.Valid() && AllKeepOpen(conn.given) && conn.socket.sent == Replies(conn.given, respond)
    modifies conn.socket`sent, conn.socket`writes
    ensures conn.Valid() && Served(conn.given, conn.socket.sent, ending, respond)
    ensures ToldWhenDue(ending, conn.inProgress) && !Answering(ending) && ending != PeerDone
  {
    hide Reply, Printed, Feed, Owing, StatusResponse, ReadLazily, Closes;
    if IsTimeout(error) && conn.inProgress {
      var _, told := Answer(conn, StatusResponse(408), true, true);
      return if told then ToldTimeout else UntoldTimeout;
    }
    return ReadBroke(error);
  }

  /** The reply to an answer just given. */
  method SendReply(conn: Connection, r: Model.RequestResult, ghost before: seq<Model.RequestResult>,
                   respond: Request -> Response) returns (ghost ending: Option<Ending>, open: bool)
    requires conn.Valid() && Model.Answers(r) && (r.request.Some? ==> r.error == NoError)
    requires conn.given == before + [r] && AllKeepOpen(before) && conn.socket.sent == Replies(before, respond)
    modifies conn.socket`sent, conn.socket`writes
    ensures conn.Valid() && open == (ending == None)
    ensures ending == None ==>
              !Closes(r) && AllKeepOpen(conn.given) && conn.socket.sent == Replies(conn.given, respond)
    ensures ending.Some? ==> Answering(ending.value) && Served(conn.given, conn.socket.sent, ending.value, respond)
  {
    hide Reply, Printed, Feed, Owing, Closes, ReplyTo, ReadLazily;
    RepliesMore(before, r, respond);
    assert conn.given[..|conn.given| - 1] == before;
    var closing := Decide(r);
    ghost var sent;
    open, sent := Answer(conn, ReplyTo(r, respond), closing, WithBody(r));
    assert sent ==> conn.socket.sent == Replies(conn.given, respond) by { ReplyIs(r, respond); }
    ending := if open then None else if sent then Some(ByDecision) else Some(WriteFailed);
  }

  /** One turn: the next answer and the reply to it, or the end of the connection. */
  method ServeOne(conn: Connection, respond: Request -> Response) returns (ghost ending: Option<Ending>, open: bool)
    requires conn.Valid() && conn.reader.failure == NoError
    requires AllKeepOpen(conn.given) && conn.socket.sent == Replies(conn.given, respond)
    modifies conn, conn.socket, conn.reader, conn.reader.lines
    ensures conn.Valid() && open == (ending == None)
    ensures ending == None ==>
              && conn.reader.failure == NoError
              && AllKeepOpen(conn.given) && conn.socket.sent == Replies(conn.given, respond)
              && (|conn.socket.script| < |old(conn.socket.script)|
                  || (|conn.socket.script| == |old(conn.socket.script)|
                      && |conn.reader.Unread()| < |old(conn.reader.Unread())|))
    ensures ending.Some? ==>
              && Served(conn.given, conn.socket.sent, ending.value, respond)
              && ToldWhenDue(ending.value, conn.inProgress)
              && ((ending.value.ToldTimeout? || ending.value.UntoldTimeout?) && conn.socket.gaveUp ==>
                    conn.deadline < conn.socket.now + NS)
              && (if Answering(ending.value) then
                    conn.given != [] && ReadLazily(conn.socket.received, conn.given[..|conn.given| - 1])
                  else conn.given == Feed(Model.FRESH, "", conn.socket.received).answers)
  {
    hide Reply, Printed, Feed, Owing, WantsClose, StatusResponse, ReadLazily;
    ghost var before := conn.given;
    var result := conn.NextRequest();
    match result {
      case PeerFinished => return Some(PeerDone), false;
      case ReadFailed(error) =>
        ghost var why := EndReading(conn, error, respond);
        return Some(why), false;
      case Answered(r) =>
        assert conn.given[..|conn.given| - 1] == before;
        ending, open := SendReply(conn, r, before, respond);
    }
  }

  method Decide(r: Model.RequestResult) returns (closing: bool)
    requires Model.Answers(r) && (r.request.Some? ==> r.error == NoError)
    ensures closing == Closes(r)
  {
    if r.error != NoError {
      return !r.streamContinues || r.version == Http10;
    }
    closing := ClientWantsClose(r.request.value);
  }

  lemma ReplyIs(r: Model.RequestResult, respond: Request -> Response)
    ensures Reply(r, respond) == Printed(Announced(ReplyTo(r, respond), Closes(r)), WithBody(r))
  {
  }

  /** Serves one connection to its end. Reply `k` answers the `k`-th answer owed by the bytes received; the one extra
      reply there can be is a last 408, sent when a read times out with a request in progress. Once the connection is
      closed by decision nothing more is written, and nothing more is read: every piece but the last was read before
      that last answer was owed. When reading is what ended it, every answer owed by the bytes received has been
      given. */
  method ServeConnection(conn: Connection, respond: Request -> Response) returns (ghost ending: Ending)
    requires conn.Valid() && conn.given == [] && conn.reader.failure == NoError && conn.socket.sent == []
    modifies conn, conn.socket, conn.reader, conn.reader.lines
    ensures Served(conn.given, conn.socket.sent, ending, respond)
    ensures conn.Valid() && conn.given <= Feed(Model.FRESH, "", conn.socket.received).answers
    ensures ToldWhenDue(ending, conn.inProgress)
    ensures (ending.ToldTimeout? || ending.UntoldTimeout?) && conn.socket.gaveUp ==>
              conn.deadline < conn.socket.now + NS
    ensures if Answering(ending) then
              conn.given != [] && ReadLazily(conn.socket.received, conn.given[..|conn.given| - 1])
            else conn.given == Feed(Model.FRESH, "", conn.socket.received).answers
  {
    while true
      invariant conn.Valid() && conn.reader.failure == NoError
      invariant AllKeepOpen(conn.given) && conn.socket.sent == Replies(conn.given, respond)
      decreases |conn.socket.script|, |conn.reader.Unread()|
    {
      hide Reply, Printed, Feed, Owing, WantsClose, StatusResponse, Served, ReadLazily, ToldWhenDue;
      ghost var ended: Option<Ending>;
      var open;
      ended, open := ServeOne(conn, respond);
      if !open {
        GivenIsOwed(conn);
        return ended.value;
      }
    }
  }

  lemma GivenIsOwed(conn: Connection)
    requires conn.Valid()
    ensures conn.given <= Feed(Model.FRESH, "", conn.socket.received).answers
  {
    hide Feed;
  }
}
