/** Where a body ends: Content-Length, Transfer-Encoding and chunk sizes (src/http/request_reader.cpp:19-175;
    sections 6.2, 6.3 and 7.1 of RFC 9112). */
module Framing {
  import opened Text
  import opened Ascii
  import opened Messages
  import opened FieldList

  datatype RequestError =
    | NoError
    | Malformed
    | UnknownMethod
    | UnsupportedVersion
    | RequestLineTooLong
    | HeaderTooLong
    | TooManyHeaders
    | HeadTooLarge
    | BodyTooLarge
    | UnsupportedTransferEncoding

  const MAX_HEAD_BYTES: nat := 65536
  const MAX_FIELDS: nat := 100
  const MAX_BODY_BYTES: nat := 1048576
  const MAX_DRAIN_BYTES: nat := 8388608

  const TRANSFER_ENCODING: string := "transfer-encoding"
  const CONTENT_LENGTH: string := "content-length"
  const HOST: string := "host"

  /** The largest value of the 64-bit `std::size_t` the sizes are computed in. */
  const SIZE_MAX: nat := 0xFFFF_FFFF_FFFF_FFFF

  // ----- Numerals

  datatype Radix = Ten | Sixteen

  datatype Number = NotANumber | OverCap | Size(bytes: nat)

  function DigitValue(c: char, radix: Radix): (v: int)
    ensures -1 <= v < 16
  {
    var v := HexValue(c);
    if radix == Ten && v >= 10 then -1 else v
  }

  predicate AllDigits(s: string, radix: Radix) { forall i :: 0 <= i < |s| ==> DigitValue(s[i], radix) >= 0 }

  function Shift(v: nat, radix: Radix): nat { if radix == Ten then 10 * v else 16 * v }

  /** The number a text of digits denotes. */
  function Numeral(s: string, radix: Radix): nat
    requires AllDigits(s, radix)
  {
    if s == "" then 0
    else
      assert AllDigits(s[..|s| - 1], radix);
      Shift(Numeral(s[..|s| - 1], radix), radix) + DigitValue(s[|s| - 1], radix)
  }

  /** Where the run of digits starting at `from` ends. */
  function DigitsEnd(s: string, radix: Radix, from: nat): (end: nat)
    requires from <= |s|
    ensures from <= end <= |s|
    ensures forall i :: from <= i < end ==> DigitValue(s[i], radix) >= 0
    ensures end < |s| ==> DigitValue(s[end], radix) < 0
    decreases |s| - from
  {
    if from == |s| || DigitValue(s[from], radix) < 0 then from else DigitsEnd(s, radix, from + 1)
  }

  /** The whole text as a number. A run of leading digits already over the cap decides before anything after it. */
  function NumberOf(s: string, radix: Radix, cap: nat): (r: Number)
    ensures r.Size? ==> r.bytes <= cap
  {
    var end := DigitsEnd(s, radix, 0);
    if Numeral(s[..end], radix) > cap then OverCap
    else if s == "" || end < |s| then NotANumber
    else
      assert s[..end] == s;
      Size(Numeral(s, radix))
  }

  lemma {:induction false} NumeralGrows(s: string, radix: Radix, i: nat)
    requires AllDigits(s, radix) && i <= |s|
    ensures Numeral(s[..i], radix) <= Numeral(s, radix)
    decreases |s|
  {
    if i == |s| {
      assert s[..i] == s;
    } else {
      var t := s[..|s| - 1];
      NumeralGrows(t, radix, i);
      assert t[..i] == s[..i];
    }
  }

  lemma {:induction false} NumeralStep(s: string, radix: Radix, i: nat)
    requires i < |s| && AllDigits(s[..i + 1], radix)
    ensures AllDigits(s[..i], radix)
    ensures Numeral(s[..i + 1], radix) == Shift(Numeral(s[..i], radix), radix) + DigitValue(s[i], radix)
  {
    var t := s[..i + 1];
    assert t[..i] == s[..i];
    assert forall k :: 0 <= k < i ==> s[..i][k] == t[k];
  }

  lemma {:induction false} NumeralNone(s: string, radix: Radix)
    ensures AllDigits(s[..0], radix) && Numeral(s[..0], radix) == 0
  {
  }

  lemma ShiftWithin(v: nat, cap: nat, radix: Radix)
    requires v <= cap
    ensures Shift(v, radix) <= Shift(cap, radix)
  {
  }

  lemma {:induction false} TooSoon(s: string, radix: Radix, cap: nat, i: nat)
    requires i <= DigitsEnd(s, radix, 0) && AllDigits(s[..i], radix) && Numeral(s[..i], radix) > cap
    ensures NumberOf(s, radix, cap) == OverCap
  {
    hide Numeral, DigitsEnd;
    var run := s[..DigitsEnd(s, radix, 0)];
    assert run[..i] == s[..i];
    NumeralGrows(run, radix, i);
  }

  lemma RunEnds(s: string, radix: Radix, cap: nat, i: nat)
    requires s != "" && i <= DigitsEnd(s, radix, 0) && AllDigits(s[..i], radix) && Numeral(s[..i], radix) <= cap
    requires i == |s| || DigitValue(s[i], radix) < 0
    ensures NumberOf(s, radix, cap) == if i == |s| then Size(Numeral(s[..i], radix)) else NotANumber
  {
    hide Numeral, DigitsEnd;
    assert i == DigitsEnd(s, radix, 0);
    assert s[..|s|] == s;
  }

  /** The digit loop of both parsers. The running value is within the cap before every digit, so it is asserted never to
      pass 64 bits. */
  method ReadNumber(s: string, radix: Radix, cap: nat) returns (r: Number)
    requires Shift(cap, radix) + 15 <= SIZE_MAX
    ensures r == NumberOf(s, radix, cap)
  {
    if s == "" {
      return NotANumber;
    }
    hide Numeral, DigitsEnd, Shift, NumberOf, DigitValue;
    ghost var end := DigitsEnd(s, radix, 0);
    var bytes := 0;
    var i := 0;
    NumeralNone(s, radix);
    while i < |s|
      invariant i <= end && AllDigits(s[..i], radix)
      invariant bytes == Numeral(s[..i], radix) && bytes <= cap
    {
      var digit := DigitValue(s[i], radix);
      if digit < 0 {
        RunEnds(s, radix, cap, i);
        return NotANumber;
      }
      NumeralStep(s, radix, i);
      ShiftWithin(bytes, cap, radix);
      assert Shift(bytes, radix) + digit <= SIZE_MAX;
      bytes := Shift(bytes, radix) + digit;
      if bytes > cap {
        TooSoon(s, radix, cap, i + 1);
        return OverCap;
      }
      i := i + 1;
    }
    RunEnds(s, radix, cap, i);
    return Size(bytes);
  }

  /** A text is read as a number exactly when all of it is digits denoting one within the cap. */
  lemma {:induction false} NumberExactly(s: string, radix: Radix, cap: nat, n: nat)
    ensures NumberOf(s, radix, cap) == Size(n) <==>
              s != "" && AllDigits(s, radix) && Numeral(s, radix) == n && n <= cap
  {
    var end := DigitsEnd(s, radix, 0);
    if end == |s| {
      assert s[..end] == s;
    }
    assert AllDigits(s, radix) ==> end == |s|;
  }

  lemma {:induction false} DigitsWithin(s: string, radix: Radix, i: nat)
    requires i <= |s| && AllDigits(s[..i], radix)
    ensures i <= DigitsEnd(s, radix, 0) && AllDigits(s[..DigitsEnd(s, radix, 0)], radix)
  {
    var end := DigitsEnd(s, radix, 0);
    assert forall k :: 0 <= k < i ==> s[..i][k] == s[k];
  }

  /** Some run of leading digits already denotes too much, whatever comes after them. */
  predicate Oversized(s: string, radix: Radix, cap: nat) {
    exists i :: 0 <= i <= |s| && AllDigits(s[..i], radix) && Numeral(s[..i], radix) > cap
  }

  /** And it is over the cap exactly when it is oversized. */
  lemma OverCapExactly(s: string, radix: Radix, cap: nat)
    ensures NumberOf(s, radix, cap) == OverCap <==> Oversized(s, radix, cap)
  {
    var end := DigitsEnd(s, radix, 0);
    hide Numeral;
    if i :| 0 <= i <= |s| && AllDigits(s[..i], radix) && Numeral(s[..i], radix) > cap {
      DigitsWithin(s, radix, i);
      assert s[..end][..i] == s[..i];
      NumeralGrows(s[..end], radix, i);
    }
  }

  lemma NotANumberExactly(s: string, radix: Radix, cap: nat)
    ensures NumberOf(s, radix, cap) == NotANumber <==>
              !Oversized(s, radix, cap) && (s == "" || !AllDigits(s, radix))
  {
    OverCapExactly(s, radix, cap);
    hide Oversized, Numeral;
    var end := DigitsEnd(s, radix, 0);
    if end == |s| {
      assert s[..end] == s;
    }
  }

  // ----- Decimal printing, the inverse

  function DecimalDigit(d: nat): (c: char)
    requires d < 10
    ensures DigitValue(c, Ten) == d && IsDigit(c)
  {
    ('0' as int + d) as char
  }

  function Decimal(n: nat): (s: string)
    ensures s != "" && forall i :: 0 <= i < |s| ==> IsDigit(s[i])
  {
    if n < 10 then [DecimalDigit(n)] else Decimal(n / 10) + [DecimalDigit(n % 10)]
  }

  lemma {:induction false} DecimalNumeral(n: nat)
    ensures AllDigits(Decimal(n), Ten) && Numeral(Decimal(n), Ten) == n
    decreases n
  {
    var s := Decimal(n);
    if n < 10 {
      assert s[..0] == "";
    } else {
      DecimalNumeral(n / 10);
      assert s[..|s| - 1] == Decimal(n / 10);
    }
  }

  /** A printed number is read back exactly when it is within the cap. */
  lemma {:induction false} DecimalReadBack(n: nat, cap: nat)
    ensures NumberOf(Decimal(n), Ten, cap) == if n <= cap then Size(n) else OverCap
  {
    var s := Decimal(n);
    DecimalNumeral(n);
    assert DigitsEnd(s, Ten, 0) == |s|;
    assert s[..|s|] == s;
  }

  // ----- Content-Length

  datatype BodyLength = Refused(error: RequestError) | Sized(bytes: nat) | Chunked

  function ContentLengthOf(value: string): BodyLength
  {
    match NumberOf(value, Ten, MAX_DRAIN_BYTES)
    case NotANumber => Refused(Malformed)
    case OverCap => Refused(BodyTooLarge)
    case Size(bytes) => Sized(bytes)
  }

  method ParseContentLength(value: string) returns (r: BodyLength)
    ensures r == ContentLengthOf(value)
  {
    var number := ReadNumber(value, Ten, MAX_DRAIN_BYTES);
    match number {
      case NotANumber => return Refused(Malformed);
      case OverCap => return Refused(BodyTooLarge);
      case Size(bytes) => return Sized(bytes);
    }
  }

  /** A length that is no number is malformed, one that is too large even to drain is too large. */
  lemma ContentLengthRefused(value: string)
    ensures ContentLengthOf(value) == Refused(BodyTooLarge) <==> Oversized(value, Ten, MAX_DRAIN_BYTES)
    ensures ContentLengthOf(value) == Refused(Malformed) <==>
              !Oversized(value, Ten, MAX_DRAIN_BYTES) && (value == "" || !AllDigits(value, Ten))
  {
    OverCapExactly(value, Ten, MAX_DRAIN_BYTES);
    NotANumberExactly(value, Ten, MAX_DRAIN_BYTES);
    hide Oversized, NumberOf;
  }

  // ----- Chunk sizes

  function ChunkSizeOf(line: string): BodyLength
  {
    match NumberOf(line[..Find(line, ';', 0)], Sixteen, MAX_BODY_BYTES)
    case NotANumber => Refused(Malformed)
    case OverCap => Refused(BodyTooLarge)
    case Size(bytes) => Sized(bytes)
  }

  method ParseChunkSize(line: string) returns (r: BodyLength)
    ensures r == ChunkSizeOf(line)
  {
    var ext := Find(line, ';', 0);
    var size := line;
    if ext != |line| {
      size := line[..ext];
    }
    assert size == line[..ext];
    var number := ReadNumber(size, Sixteen, MAX_BODY_BYTES);
    match number {
      case NotANumber => return Refused(Malformed);
      case OverCap => return Refused(BodyTooLarge);
      case Size(bytes) => return Sized(bytes);
    }
  }

  /** Any spelling of a size, followed by nothing or by any extension, is read as that size. */
  lemma {:induction false} ChunkSizeReadBack(size: string, ext: string)
    requires size != "" && AllDigits(size, Sixteen) && Numeral(size, Sixteen) <= MAX_BODY_BYTES
    requires ext != "" ==> ext[0] == ';'
    ensures ChunkSizeOf(size + ext) == Sized(Numeral(size, Sixteen))
  {
    var line := size + ext;
    assert forall i :: 0 <= i < |size| ==> line[i] == size[i] && line[i] != ';';
    assert ext != "" ==> line[|size|] == ';';
    assert Find(line, ';', 0) == |size|;
    assert line[..|size|] == size;
    assert DigitsEnd(size, Sixteen, 0) == |size|;
    assert size[..|size|] == size;
  }

  /** What stands before the extension decides: no size at all is malformed, a size over the body cap too large. */
  lemma {:induction false} ChunkSizeRefused(line: string)
    ensures var size := line[..Find(line, ';', 0)];
            && (ChunkSizeOf(line) == Refused(BodyTooLarge) <==> Oversized(size, Sixteen, MAX_BODY_BYTES))
            && (ChunkSizeOf(line) == Refused(Malformed) <==>
                  !Oversized(size, Sixteen, MAX_BODY_BYTES) && (size == "" || !AllDigits(size, Sixteen)))
  {
    var size := line[..Find(line, ';', 0)];
    OverCapExactly(size, Sixteen, MAX_BODY_BYTES);
    NotANumberExactly(size, Sixteen, MAX_BODY_BYTES);
    hide Oversized, NumberOf;
  }

  // ----- Transfer codings

  /** Section 5.3 of RFC 9110: several fields of one name are one list. */
  function Codings(values: seq<string>): seq<string>
  {
    if values == [] then [] else Elements(values[0]) + Codings(values[1..])
  }

  predicate IsChunked(coding: string) { LowerText(coding) == "chunked" }

  function CountChunked(codings: seq<string>): nat
  {
    if codings == [] then 0
    else CountChunked(codings[..|codings| - 1]) + if IsChunked(codings[|codings| - 1]) then 1 else 0
  }

  function Last(codings: seq<string>): string
  {
    if codings == [] then "" else codings[|codings| - 1]
  }

  lemma {:induction false} CountChunkedMore(seen: seq<string>, coding: string)
    ensures CountChunked(seen + [coding]) == CountChunked(seen) + if IsChunked(coding) then 1 else 0
  {
    assert (seen + [coding])[..|seen|] == seen;
  }

  function CodingsOf(headers: seq<Field>): seq<string>
  {
    Codings(Values(headers, TRANSFER_ENCODING))
  }

  lemma CodingsOfField(headers: seq<Field>, i: nat)
    requires i < |headers|
    ensures CodingsOf(headers[i..]) ==
            (if headers[i].name == TRANSFER_ENCODING then Elements(headers[i].value) else [])
            + CodingsOf(headers[i + 1..])
  {
    assert headers[i..][1..] == headers[i + 1..];
    var rest := Values(headers[i + 1..], TRANSFER_ENCODING);
    if headers[i].name == TRANSFER_ENCODING {
      assert ([headers[i].value] + rest)[1..] == rest;
    } else {
      assert [] + rest == rest && [] + Codings(rest) == Codings(rest);
    }
  }

  lemma CodingsNone(headers: seq<Field>)
    ensures CodingsOf(headers[|headers|..]) == []
  {
  }

  datatype CodingTally = CodingTally(count: nat, chunked: nat, last: string)

  function Tally(codings: seq<string>): CodingTally
  {
    CodingTally(|codings|, CountChunked(codings), Last(codings))
  }

  /** The walk over one field's elements, added to what the fields before it came to. */
  method TallyField(tally: CodingTally, value: string, ghost seen: seq<string>) returns (r: CodingTally)
    requires tally == Tally(seen)
    ensures r == Tally(seen + Elements(value))
  {
    hide CountChunked, Elements;
    r := tally;
    ghost var walked := seen;
    ghost var rest := Elements(value);
    assert value[0..] == value;
    ElementsOfEmpty();
    var element, pos := NextElement(value, 0);
    while element.Some?
      invariant r == Tally(walked)
      invariant walked + rest == seen + Elements(value)
      invariant element == None ==> rest == []
      invariant element.Some? ==> rest == [element.value] + ElementsFrom(value, pos)
      decreases element.Some?, |value| - pos
    {
      CountChunkedMore(walked, element.value);
      r := CodingTally(r.count + 1, r.chunked + (if IsChunked(element.value) then 1 else 0), element.value);
      WalkPast(walked, rest, element.value, ElementsFrom(value, pos));
      walked, rest := walked + [element.value], ElementsFrom(value, pos);
      element, pos := NextElement(value, pos);
    }
    assert walked == walked + rest;
  }

  method TransferCodings(headers: seq<Field>) returns (r: CodingTally)
    ensures r == Tally(CodingsOf(headers))
  {
    hide Elements, Values, Codings, CountChunked, Last;
    r := CodingTally(0, 0, "");
    ghost var seen: seq<string> := [];
    var i := 0;
    assert headers[0..] == headers && seen + CodingsOf(headers) == CodingsOf(headers);
    TallyNone();
    while i < |headers|
      invariant i <= |headers|
      invariant CodingsOf(headers) == seen + CodingsOf(headers[i..])
      invariant r == Tally(seen)
    {
      CodingsOfField(headers, i);
      ghost var rest := CodingsOf(headers[i + 1..]);
      if headers[i].name == TRANSFER_ENCODING {
        ghost var elements := Elements(headers[i].value);
        r := TallyField(r, headers[i].value, seen);
        assert seen + (elements + rest) == seen + elements + rest;
        seen := seen + elements;
      } else {
        assert [] + rest == rest;
      }
      i := i + 1;
    }
    CodingsNone(headers);
    assert seen + [] == seen;
  }

  lemma TallyNone()
    ensures Tally([]) == CodingTally(0, 0, "")
  {
  }

  lemma ElementsOfEmpty()
    ensures Elements("") == []
  {
    ElementsOfPiece("");
  }

  // ----- The body of a request

  function BodyOf(headers: seq<Field>, version: Version): BodyLength
  {
    var codings := CodingsOf(headers);
    var lengths := Values(headers, CONTENT_LENGTH);
    if Values(headers, TRANSFER_ENCODING) != [] then
      if lengths != [] || version == Http10 then Refused(Malformed)
      else if !IsChunked(Last(codings)) || CountChunked(codings) > 1 then Refused(Malformed)
      else if |codings| > 1 then Refused(UnsupportedTransferEncoding)
      else Chunked
    else if |lengths| > 1 then Refused(Malformed)
    else if lengths == [] then Sized(0)
    else ContentLengthOf(lengths[0])
  }

  method MeasureBody(headers: seq<Field>, version: Version) returns (r: BodyLength)
    ensures r == BodyOf(headers, version)
  {
    if Values(headers, TRANSFER_ENCODING) != [] {
      if Values(headers, CONTENT_LENGTH) != [] {
        return Refused(Malformed);
      }
      if version == Http10 {
        return Refused(Malformed);
      }
      var codings := TransferCodings(headers);
      if !IsChunked(codings.last) || codings.chunked > 1 {
        return Refused(Malformed);
      }
      if codings.count > 1 {
        return Refused(UnsupportedTransferEncoding);
      }
      return Chunked;
    }
    var lengths := Values(headers, CONTENT_LENGTH);
    if |lengths| > 1 {
      return Refused(Malformed);
    }
    if lengths == [] {
      return Sized(0);
    }
    r := ParseContentLength(lengths[0]);
  }

  /** Chunked framing is taken exactly for HTTP/1.1 with no Content-Length and a coding list of "chunked" alone. */
  lemma {:induction false} ChunkedExactly(headers: seq<Field>, version: Version)
    ensures BodyOf(headers, version) == Chunked <==>
            version == Http11 && Values(headers, CONTENT_LENGTH) == []
            && var codings := CodingsOf(headers);
               |codings| == 1 && IsChunked(codings[0])
  {
    var codings := CodingsOf(headers);
    if |codings| == 1 {
      assert codings[..0] == [];
      assert CountChunked(codings) <= 1;
    }
    assert !IsChunked("");
  }

  /** A length is taken exactly when there is no Transfer-Encoding and at most one Content-Length, all digits. */
  lemma {:induction false} SizedExactly(headers: seq<Field>, version: Version, bytes: nat)
    ensures BodyOf(headers, version) == Sized(bytes) <==>
            && Values(headers, TRANSFER_ENCODING) == []
            && var lengths := Values(headers, CONTENT_LENGTH);
               (lengths == [] && bytes == 0)
               || (|lengths| == 1 && lengths[0] != "" && AllDigits(lengths[0], Ten)
                   && Numeral(lengths[0], Ten) == bytes && bytes <= MAX_DRAIN_BYTES)
  {
    var lengths := Values(headers, CONTENT_LENGTH);
    if lengths != [] {
      NumberExactly(lengths[0], Ten, MAX_DRAIN_BYTES, bytes);
    }
  }

  /** A coding the reader does not decode is refused as such exactly when chunked is last and only there, since only
      then is the framing known; every other list but a lone "chunked" is malformed. */
  lemma {:induction false} UnsupportedExactly(headers: seq<Field>, version: Version)
    ensures BodyOf(headers, version) == Refused(UnsupportedTransferEncoding) <==>
            && version == Http11 && Values(headers, CONTENT_LENGTH) == []
            && var codings := CodingsOf(headers);
               |codings| > 1 && IsChunked(codings[|codings| - 1])
               && forall i :: 0 <= i < |codings| - 1 ==> !IsChunked(codings[i])
  {
    var codings := CodingsOf(headers);
    if codings != [] {
      OnlyLastChunked(codings);
    }
    assert !IsChunked("");
    assert Values(headers, TRANSFER_ENCODING) == [] ==> codings == [];
    hide IsChunked, CountChunked, CodingsOf, Values;
  }

  /** A body is too large to be told its end exactly when its one Content-Length, with no Transfer-Encoding, is. */
  lemma {:induction false} TooLargeExactly(headers: seq<Field>, version: Version)
    ensures BodyOf(headers, version) == Refused(BodyTooLarge) <==>
            && Values(headers, TRANSFER_ENCODING) == []
            && var lengths := Values(headers, CONTENT_LENGTH);
               |lengths| == 1 && Oversized(lengths[0], Ten, MAX_DRAIN_BYTES)
  {
    var lengths := Values(headers, CONTENT_LENGTH);
    if lengths != [] {
      ContentLengthRefused(lengths[0]);
    }
    hide Oversized, ContentLengthOf, CodingsOf, CountChunked;
  }

  /** Malformed framing, rule by rule: under Transfer-Encoding a Content-Length beside it, HTTP/1.0, or a list that does
      not end in its only "chunked"; without it several Content-Lengths, or one that is no number. */
  lemma {:induction false} MalformedExactly(headers: seq<Field>, version: Version)
    ensures var lengths, codings := Values(headers, CONTENT_LENGTH), CodingsOf(headers);
            BodyOf(headers, version) == Refused(Malformed) <==>
              if Values(headers, TRANSFER_ENCODING) != [] then
                || lengths != [] || version == Http10
                || codings == [] || !IsChunked(codings[|codings| - 1])
                || exists i :: 0 <= i < |codings| - 1 && IsChunked(codings[i])
              else
                |lengths| > 1
                || (|lengths| == 1 && !Oversized(lengths[0], Ten, MAX_DRAIN_BYTES)
                    && (lengths[0] == "" || !AllDigits(lengths[0], Ten)))
  {
    var lengths, codings := Values(headers, CONTENT_LENGTH), CodingsOf(headers);
    if codings != [] {
      OnlyLastChunked(codings);
    }
    if lengths != [] {
      ContentLengthRefused(lengths[0]);
    }
    assert !IsChunked("");
    hide Oversized, ContentLengthOf, IsChunked, CountChunked, CodingsOf, Values, AllDigits;
  }

  lemma {:induction false} OnlyLastChunked(codings: seq<string>)
    requires codings != []
    ensures IsChunked(Last(codings)) ==>
              (CountChunked(codings) <= 1 <==> forall i :: 0 <= i < |codings| - 1 ==> !IsChunked(codings[i]))
  {
    hide IsChunked;
    var before := codings[..|codings| - 1];
    NoneChunked(before);
    assert forall i :: 0 <= i < |before| ==> before[i] == codings[i];
  }

  lemma {:induction false} NoneChunked(codings: seq<string>)
    ensures CountChunked(codings) == 0 <==> forall i :: 0 <= i < |codings| ==> !IsChunked(codings[i])
    decreases |codings|
  {
    if codings == [] {
    } else {
      var before := codings[..|codings| - 1];
      NoneChunked(before);
      assert forall i :: 0 <= i < |before| ==> before[i] == codings[i];
    }
  }

  /** One comma-separated field standing for all the fields of that name. */
  function FoldValues(values: seq<string>): string
  {
    if values == [] then ""
    else if |values| == 1 then values[0]
    else values[0] + "," + FoldValues(values[1..])
  }

  lemma {:induction false} FoldCodings(values: seq<string>)
    requires values != []
    ensures Codings([FoldValues(values)]) == Codings(values)
    decreases |values|
  {
    var one := [FoldValues(values)];
    assert one[1..] == [];
    assert Codings(one) == Elements(FoldValues(values)) + [];
    if |values| == 1 {
      assert values == one;
    } else {
      var folded := [FoldValues(values[1..])];
      FoldCodings(values[1..]);
      assert folded[1..] == [];
      assert Codings(folded) == Elements(FoldValues(values[1..])) + [];
      ElementsAppend(values[0], FoldValues(values[1..]));
    }
  }

  function Without(headers: seq<Field>, name: string): seq<Field>
  {
    if headers == [] then []
    else (if headers[0].name == name then [] else [headers[0]]) + Without(headers[1..], name)
  }

  lemma {:induction false} WithoutValues(headers: seq<Field>, name: string, other: string)
    ensures Values(Without(headers, name), other) == if name == other then [] else Values(headers, other)
    decreases |headers|
  {
    if headers == [] {
    } else {
      WithoutValues(headers[1..], name, other);
      var head := if headers[0].name == name then [] else [headers[0]];
      ValuesAppend(head, Without(headers[1..], name), other);
      assert head != [] ==> head[1..] == [];
    }
  }

  /** The headers with every Transfer-Encoding field folded into one comma-separated field. */
  function FoldTransferEncoding(headers: seq<Field>): seq<Field>
  {
    var values := Values(headers, TRANSFER_ENCODING);
    if values == [] then headers
    else Without(headers, TRANSFER_ENCODING) + [Field(TRANSFER_ENCODING, FoldValues(values))]
  }

  /** Section 5.3 of RFC 9110: folding repeated fields never changes how the body is framed. */
  lemma FoldingKeepsFraming(headers: seq<Field>, version: Version)
    ensures BodyOf(FoldTransferEncoding(headers), version) == BodyOf(headers, version)
  {
    var values := Values(headers, TRANSFER_ENCODING);
    if values != [] {
      var kept := Without(headers, TRANSFER_ENCODING);
      var field := [Field(TRANSFER_ENCODING, FoldValues(values))];
      assert field[1..] == [];
      WithoutValues(headers, TRANSFER_ENCODING, TRANSFER_ENCODING);
      WithoutValues(headers, TRANSFER_ENCODING, CONTENT_LENGTH);
      ValuesAppend(kept, field, TRANSFER_ENCODING);
      ValuesAppend(kept, field, CONTENT_LENGTH);
      assert TRANSFER_ENCODING[0] != CONTENT_LENGTH[0];
      assert Values(kept + field, TRANSFER_ENCODING) == [FoldValues(values)];
      FoldCodings(values);
    }
  }
}
