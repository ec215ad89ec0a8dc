/** Request lines and header fields (src/http/request_parser.cpp).

    Each loop is a method proved against a function that names the grammar, and the functions are proved to
    accept exactly the lines the grammar prints. */
module RequestParser {
  import opened Text
  import opened Ascii
  import opened Messages
  import opened FieldList

  datatype ParseError = Malformed | UnknownMethod | UnsupportedVersion

  datatype RequestLineResult =
    | Refused(error: ParseError)
    | Parsed(verb: Method, target: string, version: Version)

  // ----- Verbs

  const METHOD_TABLE: seq<(string, Method)> := [
    ("GET", Get), ("HEAD", Head), ("POST", Post), ("PUT", Put), ("DELETE", Delete), ("CONNECT", Connect),
    ("OPTIONS", Options), ("TRACE", Trace), ("PATCH", Patch)]

  /** The verb a token names; none is a verb not implemented. */
  function MethodOf(token: string): Option<Method>
  {
    if token == "GET" then Some(Get)
    else if token == "HEAD" then Some(Head)
    else if token == "POST" then Some(Post)
    else if token == "PUT" then Some(Put)
    else if token == "DELETE" then Some(Delete)
    else if token == "CONNECT" then Some(Connect)
    else if token == "OPTIONS" then Some(Options)
    else if token == "TRACE" then Some(Trace)
    else if token == "PATCH" then Some(Patch)
    else None
  }

  lemma MethodNames(token: string, m: Method)
    ensures MethodOf(token) == Some(m) <==> token == MethodName(m)
  {
    assert MethodOf(MethodName(m)) == Some(m) by {
      match m
      case Get => case Head => case Post => case Put => case Delete =>
      case Connect => case Options => case Trace => case Patch =>
    }
  }

  method LookupMethod(token: string) returns (r: Option<Method>)
    ensures r == MethodOf(token)
  {
    var i := 0;
    while i < |METHOD_TABLE|
      invariant i <= |METHOD_TABLE|
      invariant forall k :: 0 <= k < i ==> token != METHOD_TABLE[k].0
    {
      if token == METHOD_TABLE[i].0 {
        return Some(METHOD_TABLE[i].1);
      }
      i := i + 1;
    }
    assert METHOD_TABLE[0].0 == "GET" && METHOD_TABLE[1].0 == "HEAD" && METHOD_TABLE[2].0 == "POST";
    assert METHOD_TABLE[3].0 == "PUT" && METHOD_TABLE[4].0 == "DELETE" && METHOD_TABLE[5].0 == "CONNECT";
    assert METHOD_TABLE[6].0 == "OPTIONS" && METHOD_TABLE[7].0 == "TRACE" && METHOD_TABLE[8].0 == "PATCH";
    return None;
  }

  // ----- Versions

  datatype VersionResult = NotAVersion | Unspoken | Spoken(version: Version)

  const VERSION_TABLE: seq<(string, Version)> := [("HTTP/1.0", Http10), ("HTTP/1.1", Http11)]

  predicate VersionShape(token: string) {
    && |token| == 8 && token[..5] == "HTTP/" && token[6] == '.'
    && IsDigit(token[5]) && IsDigit(token[7])
  }

  /** Shape before value, so that a version not spoken is told from text that is no version at all. */
  function VersionOf(token: string): VersionResult
  {
    if !VersionShape(token) then NotAVersion
    else if token == VersionName(Http10) then Spoken(Http10)
    else if token == VersionName(Http11) then Spoken(Http11)
    else Unspoken
  }

  method ParseVersion(token: string) returns (r: VersionResult)
    ensures r == VersionOf(token)
  {
    if |token| != 8 || token[..5] != "HTTP/" || token[6] != '.' || !IsDigit(token[5]) || !IsDigit(token[7]) {
      return NotAVersion;
    }
    var i := 0;
    while i < |VERSION_TABLE|
      invariant i <= |VERSION_TABLE|
      invariant forall k :: 0 <= k < i ==> token != VERSION_TABLE[k].0
    {
      if token == VERSION_TABLE[i].0 {
        return Spoken(VERSION_TABLE[i].1);
      }
      i := i + 1;
    }
    assert VERSION_TABLE[0].0 == "HTTP/1.0" && VERSION_TABLE[1].0 == "HTTP/1.1";
    return Unspoken;
  }

  /** The shape, written out: a digit on either side of a dot, after "HTTP/". */
  lemma VersionShapeIs(token: string)
    ensures VersionShape(token) <==>
              exists major, minor :: IsDigit(major) && IsDigit(minor) && token == "HTTP/" + [major, '.', minor]
  {
    if VersionShape(token) {
      assert token == "HTTP/" + [token[5], '.', token[7]];
    }
    if major, minor :| IsDigit(major) && IsDigit(minor) && token == "HTTP/" + [major, '.', minor] {
      assert token[..5] == "HTTP/" && token[5] == major && token[6] == '.' && token[7] == minor;
    }
  }

  lemma VersionNames(token: string, v: Version)
    ensures VersionOf(token) == Spoken(v) <==> token == VersionName(v)
  {
    assert VersionShape(VersionName(v)) by {
      match v
      case Http10 => assert "HTTP/1.0"[..5] == "HTTP/";
      case Http11 => assert "HTTP/1.1"[..5] == "HTTP/";
    }
    assert "HTTP/1.0"[7] != "HTTP/1.1"[7];
  }

  // ----- Targets

  predicate HasControl(text: string) { exists i :: 0 <= i < |text| && IsControl(text[i]) }

  method ContainsControl(text: string) returns (r: bool)
    ensures r == HasControl(text)
  {
    var i := 0;
    while i < |text|
      invariant i <= |text|
      invariant forall k :: 0 <= k < i ==> !IsControl(text[k])
    {
      if IsControl(text[i]) {
        return true;
      }
      i := i + 1;
    }
    return false;
  }

  /** A text of plain characters and whole escapes: section 2.1 of RFC 3986. */
  predicate ValidEscapes(s: string) {
    s == ""
    || (s[0] != '%' && ValidEscapes(s[1..]))
    || (s[0] == '%' && |s| >= 3 && IsHex(s[1]) && IsHex(s[2]) && ValidEscapes(s[3..]))
  }

  method HasValidEscapes(target: string) returns (r: bool)
    ensures r == ValidEscapes(target)
  {
    var i := 0;
    while i < |target|
      invariant i <= |target|
      invariant ValidEscapes(target) == ValidEscapes(target[i..])
    {
      if target[i] != '%' {
        i := i + 1;
        continue;
      }
      if i + 2 >= |target| || !IsHex(target[i + 1]) || !IsHex(target[i + 2]) {
        return false;
      }
      assert target[i..][3..] == target[i + 3..];
      i := i + 3;
    }
    return true;
  }

  // ----- The request line

  function RequestLineOf(line: string): RequestLineResult
  {
    var parts := Split(line, ' ');
    if |parts| != 3 || HasControl(line) || parts[0] == "" || parts[1] == "" || parts[2] == "" then
      Refused(Malformed)
    else
      match VersionOf(parts[2])
      case NotAVersion => Refused(Malformed)
      case Unspoken => Refused(UnsupportedVersion)
      case Spoken(version) =>
        if !ValidEscapes(parts[1]) then Refused(Malformed)
        else
          match MethodOf(parts[0])
          case None => Refused(UnknownMethod)
          case Some(verb) => Parsed(verb, parts[1], version)
  }

  lemma {:induction false} NoSpace(line: string, from: nat)
    requires from <= |line| && Find(line, ' ', from) == |line|
    ensures |Split(line[from..], ' ')| == 1
  {
    SplitWhole(line[from..], ' ');
  }

  lemma {:induction false} NextSpace(line: string, from: nat, space: nat)
    requires from <= |line| && space == Find(line, ' ', from) < |line|
    ensures |Split(line[from..], ' ')| == 1 + |Split(line[space + 1..], ' ')|
  {
    hide Split;
    SplitFrom(line, ' ', from);
  }

  lemma {:induction false} PartsSplit(a: string, b: string, c: string)
    requires ' ' !in a && ' ' !in b && ' ' !in c
    ensures Split(a + " " + b + " " + c, ' ') == [a, b, c]
  {
    var line := a + " " + b + " " + c;
    assert line == a + [' '] + (b + [' '] + c);
    SplitFirst(a, ' ', b + [' '] + c);
    SplitFirst(b, ' ', c);
    SplitWhole(c, ' ');
  }

  /** Cutting at the first two spaces, when there are exactly two, is splitting. */
  lemma TwoSpaces(line: string, sp1: nat, sp2: nat)
    requires sp1 == Find(line, ' ', 0) < |line| && sp2 == Find(line, ' ', sp1 + 1) < |line|
    requires Find(line, ' ', sp2 + 1) == |line|
    ensures Split(line, ' ') == [line[..sp1], line[sp1 + 1..sp2], line[sp2 + 1..]]
  {
    hide Split;
    assert line == line[..sp1] + " " + line[sp1 + 1..sp2] + " " + line[sp2 + 1..];
    PartsSplit(line[..sp1], line[sp1 + 1..sp2], line[sp2 + 1..]);
  }

  method ParseRequestLine(line: string) returns (r: RequestLineResult)
    ensures r == RequestLineOf(line)
  {
    hide Split, VersionOf, ValidEscapes, MethodOf, HasControl;
    assert line[0..] == line;
    var sp1 := Find(line, ' ', 0);
    if sp1 == |line| {
      NoSpace(line, 0);
      return Refused(Malformed);
    }
    NextSpace(line, 0, sp1);
    var sp2 := Find(line, ' ', sp1 + 1);
    if sp2 == |line| {
      NoSpace(line, sp1 + 1);
      return Refused(Malformed);
    }
    NextSpace(line, sp1 + 1, sp2);
    var control := ContainsControl(line);
    if control {
      return Refused(Malformed);
    }
    var sp3 := Find(line, ' ', sp2 + 1);
    if sp3 != |line| {
      NextSpace(line, sp2 + 1, sp3);
      return Refused(Malformed);
    }
    TwoSpaces(line, sp1, sp2);
    var verbPart, targetPart, versionPart := line[..sp1], line[sp1 + 1..sp2], line[sp2 + 1..];
    if verbPart == "" || targetPart == "" || versionPart == "" {
      return Refused(Malformed);
    }
    var version := ParseVersion(versionPart);
    match version {
      case NotAVersion => return Refused(Malformed);
      case Unspoken => return Refused(UnsupportedVersion);
      case Spoken(v) =>
        var escapes := HasValidEscapes(targetPart);
        if !escapes {
          return Refused(Malformed);
        }
        var verb := LookupMethod(verbPart);
        match verb {
          case None => return Refused(UnknownMethod);
          case Some(m) => return Parsed(m, targetPart, v);
        }
    }
  }

  /** What a request-target may be on the request line. */
  predicate ValidTarget(target: string) {
    target != "" && ' ' !in target && !HasControl(target) && ValidEscapes(target)
  }

  function PrintRequestLine(verb: Method, target: string, version: Version): string
  {
    MethodName(verb) + " " + target + " " + VersionName(version)
  }

  lemma NamesArePlain(m: Method, v: Version)
    ensures ' ' !in MethodName(m) && ' ' !in VersionName(v)
    ensures !HasControl(MethodName(m)) && !HasControl(VersionName(v))
    ensures MethodName(m) != "" && VersionName(v) != ""
  {
    match m
    case Get => case Head => case Post => case Put => case Delete =>
    case Connect => case Options => case Trace => case Patch =>
  }

  lemma ControlAppend(a: string, b: string)
    ensures HasControl(a + b) <==> HasControl(a) || HasControl(b)
  {
    if i :| 0 <= i < |a| && IsControl(a[i]) {
      assert (a + b)[i] == a[i];
    }
    if i :| 0 <= i < |b| && IsControl(b[i]) {
      assert (a + b)[|a| + i] == b[i];
    }
  }

  lemma PrintedLineControls(verb: Method, target: string, version: Version)
    ensures HasControl(PrintRequestLine(verb, target, version)) <==> HasControl(target)
  {
    NamesArePlain(verb, version);
    var a := MethodName(verb) + " ";
    ControlAppend(MethodName(verb), " ");
    ControlAppend(a, target);
    ControlAppend(a + target, " ");
    ControlAppend(a + target + " ", VersionName(version));
  }

  lemma JoinThree(a: string, b: string, c: string)
    ensures Join([a, b, c], ' ') == a + " " + b + " " + c
  {
    var joined := Join([a, b, c], ' ');
    assert [a, b, c][1..] == [b, c] && [b, c][1..] == [c];
    assert Join([b, c], ' ') == b + [' '] + c;
    assert joined == a + [' '] + (b + [' '] + c);
  }

  /** The parser accepts exactly the lines the grammar prints, and reads them back. */
  lemma RequestLineAccepted(line: string, verb: Method, target: string, version: Version)
    ensures RequestLineOf(line) == Parsed(verb, target, version)
            <==> line == PrintRequestLine(verb, target, version) && ValidTarget(target)
  {
    hide Split, Join, HasControl, ValidEscapes, MethodOf, VersionOf;
    PrintedLineControls(verb, target, version);
    var parts := Split(line, ' ');
    if RequestLineOf(line) == Parsed(verb, target, version) {
      MethodNames(parts[0], verb);
      VersionNames(parts[2], version);
      SplitPieces(line, ' ');
      assert parts == [parts[0], parts[1], parts[2]];
      JoinThree(parts[0], parts[1], parts[2]);
    } else if line == PrintRequestLine(verb, target, version) && ValidTarget(target) {
      NamesArePlain(verb, version);
      PartsSplit(MethodName(verb), target, VersionName(version));
      MethodNames(parts[0], verb);
      VersionNames(parts[2], version);
    }
  }

  // ----- Which error a refused request line gets

  /** A part of a request line: something, with no space and no control character in it. */
  predicate PlainPart(part: string) { part != "" && ' ' !in part && !HasControl(part) }

  predicate IsSpoken(token: string) { token == "HTTP/1.0" || token == "HTTP/1.1" }

  lemma {:induction false} PlainLine(verb: string, target: string, version: string)
    requires PlainPart(verb) && PlainPart(target) && PlainPart(version)
    ensures !HasControl(verb + " " + target + " " + version)
    ensures Split(verb + " " + target + " " + version, ' ') == [verb, target, version]
  {
    hide Split;
    PartsSplit(verb, target, version);
    assert !HasControl(" ");
    ControlAppend(verb, " ");
    ControlAppend(verb + " ", target);
    ControlAppend(verb + " " + target, " ");
    ControlAppend(verb + " " + target + " ", version);
  }

  /** Three plain parts are refused for the first thing wrong with them, looked for in this order: the last is no
      version, is a version not spoken, the target has a broken escape, the verb names no method. */
  lemma {:induction false} PartsRefused(verb: string, target: string, version: string)
    requires PlainPart(verb) && PlainPart(target) && PlainPart(version)
    ensures var r := RequestLineOf(verb + " " + target + " " + version);
            && (!VersionShape(version) ==> r == Refused(Malformed))
            && (VersionShape(version) && !IsSpoken(version) ==> r == Refused(UnsupportedVersion))
            && (IsSpoken(version) && !ValidEscapes(target) ==> r == Refused(Malformed))
            && (IsSpoken(version) && ValidEscapes(target) && (forall m :: verb != MethodName(m)) ==>
                  r == Refused(UnknownMethod))
  {
    hide Split, HasControl, ValidEscapes, MethodOf;
    PlainLine(verb, target, version);
    VersionNames(version, Http10);
    VersionNames(version, Http11);
    var named := MethodOf(verb);
    if named.Some? {
      MethodNames(verb, named.value);
    }
  }

  /** Any other line is malformed: one without exactly two spaces, with a control character, or with an empty part. */
  lemma {:induction false} OtherLinesMalformed(line: string)
    ensures Count(line, ' ') != 2 || HasControl(line) ==> RequestLineOf(line) == Refused(Malformed)
    ensures (forall a, b, c :: PlainPart(a) && PlainPart(b) && PlainPart(c) ==> line != a + " " + b + " " + c) ==>
              RequestLineOf(line) == Refused(Malformed)
  {
    SplitCount(line, ' ');
    SplitPieces(line, ' ');
    hide Split, Join, HasControl, Count;
    var parts := Split(line, ' ');
    if |parts| == 3 && !HasControl(line) {
      assert parts == [parts[0], parts[1], parts[2]];
      JoinThree(parts[0], parts[1], parts[2]);
      ControlAppend(parts[0], " " + parts[1] + " " + parts[2]);
      ControlAppend(" ", parts[1] + " " + parts[2]);
      ControlAppend(parts[1], " " + parts[2]);
      ControlAppend(" ", parts[2]);
      assert line == parts[0] + (" " + parts[1] + " " + parts[2]);
      assert " " + parts[1] + " " + parts[2] == " " + (parts[1] + " " + parts[2]);
      assert parts[1] + " " + parts[2] == parts[1] + (" " + parts[2]);
      assert parts[0] != "" && parts[1] != "" && parts[2] != "" ==>
          PlainPart(parts[0]) && PlainPart(parts[1]) && PlainPart(parts[2]);
    }
  }

  // ----- Header fields

  predicate IsToken(s: string) { s != "" && forall i :: 0 <= i < |s| ==> IsTchar(s[i]) }

  predicate IsValueText(s: string) { forall i :: 0 <= i < |s| ==> IsValueChar(s[i]) }

  function HeaderFieldOf(line: string): Option<Field>
  {
    var colon := Find(line, ':', 0);
    if colon == |line| || !IsToken(line[..colon]) || !IsValueText(line[colon + 1..]) then None
    else Some(Field(LowerText(line[..colon]), Trim(line[colon + 1..])))
  }

  method ParseHeaderField(line: string) returns (r: Option<Field>)
    ensures r == HeaderFieldOf(line)
  {
    var colon := Find(line, ':', 0);
    if colon == |line| {
      return None;
    }
    var namePart := line[..colon];
    if namePart == "" {
      return None;
    }
    var lowered := "";
    var i := 0;
    while i < |namePart|
      invariant i <= |namePart|
      invariant forall k :: 0 <= k < i ==> IsTchar(namePart[k])
      invariant lowered == LowerText(namePart)[..i]
    {
      if !IsTchar(namePart[i]) {
        return None;
      }
      lowered := lowered + [Lower(namePart[i])];
      i := i + 1;
    }
    var valuePart := line[colon + 1..];
    var value := TrimText(valuePart);
    i := 0;
    while i < |valuePart|
      invariant i <= |valuePart|
      invariant forall k :: 0 <= k < i ==> IsValueChar(valuePart[k])
    {
      if !IsValueChar(valuePart[i]) {
        return None;
      }
      i := i + 1;
    }
    assert lowered == LowerText(namePart);
    return Some(Field(lowered, value));
  }

  /** A field line as a sender may spell it: any case of the name, any whitespace around the value. */
  function PrintField(name: string, before: string, value: string, after: string): string
  {
    name + ":" + (before + value + after)
  }

  predicate ValidFieldParts(name: string, before: string, value: string, after: string) {
    IsToken(name) && AllOws(before) && AllOws(after) && Trimmed(value) && IsValueText(value)
  }

  /** Every spelling of a field is read back as its folded name and bare value. */
  lemma FieldReadBack(name: string, before: string, value: string, after: string)
    requires ValidFieldParts(name, before, value, after)
    ensures HeaderFieldOf(PrintField(name, before, value, after)) == Some(Field(LowerText(name), value))
  {
    var line := PrintField(name, before, value, after);
    assert forall i :: 0 <= i < |name| ==> line[i] == name[i];
    assert line[|name|] == ':';
    assert Find(line, ':', 0) == |name|;
    assert line[..|name|] == name;
    assert line[|name| + 1..] == before + value + after;
    assert IsValueText(before + value + after);
    TrimPadded(before, value, after);
  }

  /** And a line is accepted only when it is such a spelling. */
  lemma FieldAccepted(line: string, field: Field) returns (name: string, before: string, after: string)
    requires HeaderFieldOf(line) == Some(field)
    ensures ValidFieldParts(name, before, field.value, after)
    ensures line == PrintField(name, before, field.value, after) && field.name == LowerText(name)
  {
    var colon := Find(line, ':', 0);
    var text := line[colon + 1..];
    name := line[..colon];
    before, after := TrimParts(text);
    hide Trim;
    assert line == name + ":" + text;
    assert forall i :: 0 <= i < |field.value| ==> field.value[i] == text[|before| + i];
  }
}
