/** Printing a response, and reading it back with the reader's own parsers (src/http/response.cpp). */
module Responses {
  import opened Text
  import opened Ascii
  import opened Messages
  import opened FieldList
  import opened LineReading
  import opened Framing
  import Parser = RequestParser

  datatype Response = Response(status: nat, headers: seq<Field>, body: string)

  function StatusMessage(status: nat): string
  {
    match status
    case 200 => "OK"
    case 400 => "Bad Request"
    case 401 => "Unauthorized"
    case 404 => "Not Found"
    case 405 => "Method Not Allowed"
    case 408 => "Request Timeout"
    case 413 => "Content Too Large"
    case 414 => "URI Too Long"
    case 431 => "Request Header Fields Too Large"
    case 500 => "Internal Server Error"
    case 501 => "Not Implemented"
    case 503 => "Service Unavailable"
    case 505 => "HTTP Version Not Supported"
    case _ => ""
  }

  function StatusResponse(status: nat): Response
  {
    Response(status, AddField([], Field("content-type", "text/plain; charset=utf-8")),
             Decimal(status) + " " + StatusMessage(status) + "\n")
  }

  function StatusLine(status: nat): string { "HTTP/1.1 " + Decimal(status) + " " + StatusMessage(status) }

  /** A status response says in its body what its status line says after the version. */
  lemma StatusBody(status: nat)
    ensures StatusLine(status) + "\n" == "HTTP/1.1 " + StatusResponse(status).body
  {
    var digits, message := Decimal(status), StatusMessage(status);
    hide StatusMessage;
    assert "HTTP/1.1 " + digits + " " + message + "\n" == "HTTP/1.1 " + (digits + " " + message + "\n");
  }

  function HeaderLine(field: Field): string { field.name + ": " + field.value }

  /** Every field but a caller's Content-Length, in order. */
  function Kept(headers: seq<Field>): seq<Field> { Without(headers, CONTENT_LENGTH) }

  function PrintFields(fields: seq<Field>): string
  {
    if fields == [] then "" else HeaderLine(fields[0]) + CRLF + PrintFields(fields[1..])
  }

  function LengthField(body: string): Field { Field(CONTENT_LENGTH, Decimal(|body|)) }

  function Printed(r: Response, withBody: bool): string
  {
    StatusLine(r.status) + CRLF + (PrintFields(Kept(r.headers) + [LengthField(r.body)])
                                   + (CRLF + if withBody then r.body else ""))
  }

  lemma {:induction false} PrintMore(fields: seq<Field>, field: Field)
    ensures PrintFields(fields + [field]) == PrintFields(fields) + (HeaderLine(field) + CRLF)
    decreases |fields|
  {
    if fields == [] {
      assert fields + [field] == [field] && [field][1..] == [];
      assert "" + (HeaderLine(field) + CRLF) == HeaderLine(field) + CRLF + "";
    } else {
      assert (fields + [field])[1..] == fields[1..] + [field];
      PrintMore(fields[1..], field);
      var head := HeaderLine(fields[0]) + CRLF;
      assert head + (PrintFields(fields[1..]) + (HeaderLine(field) + CRLF))
             == head + PrintFields(fields[1..]) + (HeaderLine(field) + CRLF);
    }
  }

  lemma {:induction false} KeptMore(headers: seq<Field>, i: nat)
    requires i < |headers|
    ensures Kept(headers[..i + 1]) ==
            Kept(headers[..i]) + if headers[i].name == CONTENT_LENGTH then [] else [headers[i]]
  {
    WithoutAppend(headers[..i], headers[i], CONTENT_LENGTH);
    assert headers[..i + 1] == headers[..i] + [headers[i]];
  }

  lemma {:induction false} WithoutAppend(headers: seq<Field>, field: Field, name: string)
    ensures Without(headers + [field], name) == Without(headers, name) + if field.name == name then [] else [field]
    decreases |headers|
  {
    if headers == [] {
      assert headers + [field] == [field] && [field][1..] == [];
    } else {
      var rest := headers[1..];
      assert (headers + [field])[1..] == rest + [field] && (headers + [field])[0] == headers[0];
      WithoutAppend(rest, field, name);
      var first := if headers[0].name == name then [] else [headers[0]];
      var last := if field.name == name then [] else [field];
      assert first + (Without(rest, name) + last) == first + Without(rest, name) + last;
    }
  }

  method Serialize(r: Response, withBody: bool) returns (out: string)
    ensures out == Printed(r, withBody)
  {
    var start := "HTTP/1.1 " + Decimal(r.status) + " " + StatusMessage(r.status) + CRLF;
    var fields := PrintKept(r.headers);
    hide StatusLine, StatusMessage, Kept, HeaderLine;
    out := start + fields;
    PrintMore(Kept(r.headers), LengthField(r.body));
    var length := PrintLine(LengthField(r.body));
    var rest := if withBody then r.body else "";
    assert out + (length + CRLF) + rest == start + (fields + length + (CRLF + rest));
    assert start == StatusLine(r.status) + CRLF by { StartOf(r.status); }
    out := out + (length + CRLF);
    if withBody {
      out := out + r.body;
    } else {
      assert out + "" == out;
    }
  }

  lemma {:induction false} StartOf(status: nat)
    ensures "HTTP/1.1 " + Decimal(status) + " " + StatusMessage(status) + CRLF == StatusLine(status) + CRLF
  {
  }

  /** The loop over the headers. */
  method PrintKept(headers: seq<Field>) returns (printed: string)
    ensures printed == PrintFields(Kept(headers))
  {
    hide Kept, HeaderLine;
    printed := "";
    var i := 0;
    assert headers[..0] == [] && Kept([]) == [] by { KeptNone(); }
    while i < |headers|
      invariant i <= |headers|
      invariant printed == PrintFields(Kept(headers[..i]))
    {
      var field := headers[i];
      KeptMore(headers, i);
      i := i + 1;
      if field.name == CONTENT_LENGTH {
        assert Kept(headers[..i - 1]) + [] == Kept(headers[..i - 1]);
        continue;
      }
      PrintMore(Kept(headers[..i - 1]), field);
      var line := PrintLine(field);
      printed := printed + line;
    }
    assert headers[..i] == headers;
  }

  lemma KeptNone()
    ensures Kept([]) == []
  {
  }

  method PrintLine(field: Field) returns (line: string)
    ensures line == HeaderLine(field) + CRLF
  {
    line := field.name + ": " + field.value + "\r\n";
  }

  // ----- Reading back

  datatype ResponseHead = ResponseHead(statusLine: string, fields: seq<Field>, rest: string)

  /** Field lines up to the blank one, as a client using this library's reader and parser would take them. */
  function ReadFields(unread: string): Option<(seq<Field>, string)>
    decreases |unread|
  {
    match FirstLine(unread)
    case Line(text) =>
      var rest := unread[|text| + |CRLF|..];
      if text == "" then Some(([], rest))
      else
        (match Parser.HeaderFieldOf(text)
         case None => None
         case Some(field) =>
           (match ReadFields(rest)
            case None => None
            case Some((fields, body)) => Some(([field] + fields, body))))
    case _ => None
  }

  function ReadHead(unread: string): Option<ResponseHead>
  {
    match FirstLine(unread)
    case Line(text) =>
      (match ReadFields(unread[|text| + |CRLF|..])
       case None => None
       case Some((fields, rest)) => Some(ResponseHead(text, fields, rest)))
    case _ => None
  }

  /** A field `Headers::add` may hold and the wire can carry: a folded token, a bare legal value, a line under the cap. */
  predicate Printable(field: Field) {
    && Parser.IsToken(field.name) && LowerText(field.name) == field.name
    && Trimmed(field.value) && Parser.IsValueText(field.value)
    && |HeaderLine(field)| <= MAX_LINE_LENGTH
  }

  predicate AllPrintable(fields: seq<Field>) { forall i :: 0 <= i < |fields| ==> Printable(fields[i]) }

  lemma LineTaken(line: string, rest: string)
    requires NoCr(line) && |line| <= MAX_LINE_LENGTH
    ensures FirstLine(line + CRLF + rest) == Line(line)
    ensures (line + CRLF + rest)[|line| + |CRLF|..] == rest
  {
    var w := line + CRLF + rest;
    assert CrlfAt(w, |line|);
    assert forall k :: 0 <= k < |line| ==> w[k] == line[k];
    assert FindCrlf(w, 0) == |line|;
    assert w[..|line|] == line;
  }

  lemma HeaderLinePlain(field: Field)
    requires Printable(field)
    ensures NoCr(HeaderLine(field))
  {
    assert NoCr(field.name) && NoCr(field.value) && NoCr(": ");
    NoCrAppend(field.name, ": ");
    NoCrAppend(field.name + ": ", field.value);
  }

  lemma HeaderLineRead(field: Field)
    requires Printable(field)
    ensures Parser.HeaderFieldOf(HeaderLine(field)) == Some(field) && HeaderLine(field) != ""
    ensures NoCr(HeaderLine(field))
  {
    HeaderLinePlain(field);
    hide NoCr;
    assert field.name + ": " + field.value == field.name + ":" + (" " + field.value + "");
    Parser.FieldReadBack(field.name, " ", field.value, "");
  }

  lemma {:induction false} FieldsReadBack(fields: seq<Field>, rest: string)
    requires AllPrintable(fields)
    ensures ReadFields(PrintFields(fields) + (CRLF + rest)) == Some((fields, rest))
    decreases |fields|
  {
    hide HeaderLine, Parser.HeaderFieldOf, Printable;
    if fields == [] {
      LineTaken("", rest);
      assert PrintFields(fields) + (CRLF + rest) == "" + CRLF + rest;
    } else {
      var line, tail := HeaderLine(fields[0]), PrintFields(fields[1..]) + (CRLF + rest);
      HeaderLineRead(fields[0]);
      LineShort(fields[0]);
      LineTaken(line, tail);
      assert PrintFields(fields) + (CRLF + rest) == line + CRLF + tail;
      FieldsReadBack(fields[1..], rest);
      assert [fields[0]] + fields[1..] == fields;
    }
  }

  lemma LineShort(field: Field)
    requires Printable(field)
    ensures |HeaderLine(field)| <= MAX_LINE_LENGTH
  {
  }

  lemma {:induction false} KeptPrintable(headers: seq<Field>)
    requires AllPrintable(headers)
    ensures AllPrintable(Kept(headers))
    decreases |headers|
  {
    if headers == [] {
    } else {
      KeptPrintable(headers[1..]);
    }
  }

  function Power10(digits: nat): nat { if digits == 0 then 1 else 10 * Power10(digits - 1) }

  lemma {:induction false} DecimalShort(n: nat, digits: nat)
    requires n < Power10(digits) && digits >= 1
    ensures |Decimal(n)| <= digits
    decreases digits
  {
    if n < 10 {
    } else {
      DecimalShort(n / 10, digits - 1);
    }
  }

  /** A 64-bit number has at most twenty digits. */
  lemma {:induction false} SizeShort(n: nat)
    requires n <= SIZE_MAX
    ensures |Decimal(n)| <= 20
  {
    assert Power10(2) == 100 && Power10(4) == 10000 && Power10(6) == 1000000 && Power10(8) == 100000000;
    assert Power10(10) == 100 * Power10(8) && Power10(12) == 100 * Power10(10) && Power10(14) == 100 * Power10(12);
    assert Power10(16) == 100 * Power10(14) && Power10(18) == 100 * Power10(16) && Power10(20) == 100 * Power10(18);
    DecimalShort(n, 20);
  }

  lemma LengthPrintable(body: string)
    requires |body| <= SIZE_MAX
    ensures Printable(LengthField(body))
  {
    SizeShort(|body|);
    var digits := Decimal(|body|);
    assert forall i :: 0 <= i < |digits| ==> IsDigit(digits[i]) && IsValueChar(digits[i]) && !IsOws(digits[i]);
    assert LowerText(CONTENT_LENGTH) == CONTENT_LENGTH;
  }

  lemma StatusLinePlain(status: nat)
    requires status <= SIZE_MAX
    ensures |StatusLine(status)| <= MAX_LINE_LENGTH
    ensures NoCr(StatusLine(status))
  {
    SizeShort(status);
    MessagePlain(status);
    var digits, message := Decimal(status), StatusMessage(status);
    hide StatusMessage;
    assert NoCr(digits) && NoCr("HTTP/1.1 ") && NoCr(" ");
    NoCrAppend("HTTP/1.1 ", digits);
    NoCrAppend("HTTP/1.1 " + digits, " ");
    NoCrAppend("HTTP/1.1 " + digits + " ", message);
  }

  predicate PlainPhrase(s: string) { |s| <= 40 && NoCr(s) }

  lemma ShortPhrases()
    ensures PlainPhrase("") && PlainPhrase("OK") && PlainPhrase("Bad Request") && PlainPhrase("Not Found")
    ensures PlainPhrase("Unauthorized") && PlainPhrase("URI Too Long")
  {
  }

  lemma MiddlePhrases()
    ensures PlainPhrase("Method Not Allowed") && PlainPhrase("Request Timeout") && PlainPhrase("Content Too Large")
    ensures PlainPhrase("Not Implemented") && PlainPhrase("Service Unavailable")
  {
  }

  lemma LongPhrases()
    ensures PlainPhrase("Request Header Fields Too Large")
    ensures PlainPhrase("Internal Server Error") && PlainPhrase("HTTP Version Not Supported")
  {
  }

  lemma MessagePlain(status: nat)
    ensures PlainPhrase(StatusMessage(status))
  {
    ShortPhrases();
    MiddlePhrases();
    LongPhrases();
    hide PlainPhrase;
  }

  /** The status a client reads off a status line: the number between the version and the next space. */
  function ReadStatus(line: string): Option<nat>
  {
    if |line| < 9 || line[..9] != "HTTP/1.1 " then None
    else
      var digits := line[9..Find(line, ' ', 9)];
      if digits == "" || !AllDigits(digits, Ten) then None else Some(Numeral(digits, Ten))
  }

  lemma StatusReadBack(status: nat)
    ensures ReadStatus(StatusLine(status)) == Some(status)
  {
    var digits, line := Decimal(status), StatusLine(status);
    hide StatusMessage;
    DecimalNumeral(status);
    var end := 9 + |digits|;
    assert line[..9] == "HTTP/1.1 " && line[9..end] == digits && line[end] == ' ';
    assert forall k :: 9 <= k < end ==> line[k] == digits[k - 9];
    assert Find(line, ' ', 9) == end;
  }

  /** A printed response is read back as what it says: the caller's fields in order without its Content-Length, then
      exactly one, telling the size of the body whether or not the body follows. */
  lemma PrintedReadBack(r: Response, withBody: bool)
    requires r.status <= SIZE_MAX && |r.body| <= SIZE_MAX && AllPrintable(r.headers)
    ensures ReadHead(Printed(r, withBody)) ==
            Some(ResponseHead(StatusLine(r.status), Kept(r.headers) + [LengthField(r.body)],
                              if withBody then r.body else ""))
    ensures ReadStatus(StatusLine(r.status)) == Some(r.status)
    ensures Values(Kept(r.headers) + [LengthField(r.body)], CONTENT_LENGTH) == [Decimal(|r.body|)]
    ensures ContentLengthOf(Decimal(|r.body|)) ==
            if |r.body| <= MAX_DRAIN_BYTES then Sized(|r.body|) else Framing.Refused(BodyTooLarge)
  {
    hide Printable, StatusMessage, ReadStatus;
    StatusReadBack(r.status);
    var fields := Kept(r.headers) + [LengthField(r.body)];
    var rest := if withBody then r.body else "";
    KeptPrintable(r.headers);
    LengthPrintable(r.body);
    assert AllPrintable(fields);
    LengthOnce(r.headers, r.body);
    DecimalReadBack(|r.body|, MAX_DRAIN_BYTES);
    StatusLinePlain(r.status);
    hide StatusLine, LengthField, Kept, Decimal;
    FieldsReadBack(fields, rest);
    LineTaken(StatusLine(r.status), PrintFields(fields) + (CRLF + rest));
  }

  lemma {:induction false} LengthOnce(headers: seq<Field>, body: string)
    ensures Values(Kept(headers) + [LengthField(body)], CONTENT_LENGTH) == [Decimal(|body|)]
  {
    var last := [LengthField(body)];
    WithoutValues(headers, CONTENT_LENGTH, CONTENT_LENGTH);
    ValuesAppend(Kept(headers), last, CONTENT_LENGTH);
    assert last[1..] == [];
  }
}
