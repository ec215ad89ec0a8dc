/** What a match binds, and what a path has to say to be bound so (src/server/router.cpp:91-152). */
module Captured {
  import opened Text
  import opened Ascii
  import opened RequestParser
  import opened Escapes
  import opened DotSegments
  import opened Paths
  import opened Routing
  import opened CaptureProofs

  // ----- Which segment each parameter comes from

  /** Where the segments that bind a name stand. */
  function Parameters(pattern: seq<Segment>): (ks: seq<nat>)
    ensures forall j :: 0 <= j < |ks| ==> ks[j] < |pattern| && pattern[ks[j]].capture != Literal
    ensures forall i, j :: 0 <= i < j < |ks| ==> ks[i] < ks[j]
    ensures forall k :: 0 <= k < |pattern| && pattern[k].capture != Literal ==> k in ks
  {
    if pattern == [] then []
    else
      var n := |pattern| - 1;
      Parameters(pattern[..n]) + if pattern[n].capture != Literal then [n] else []
  }

  /** The part of the path a segment stands for: its own piece, or for a rest all that are left. */
  function Part(pattern: seq<Segment>, pieces: seq<string>, k: nat): string
    requires k < |pattern| && k < |pieces|
  {
    if pattern[k].capture == Rest then Join(pieces[k..], '/') else pieces[k]
  }

  predicate BindsEach(pattern: seq<Segment>, pieces: seq<string>, ks: seq<nat>, bound: seq<Param>) {
    && |bound| == |ks|
    && forall j :: 0 <= j < |ks| ==>
         && ks[j] < |pattern| && ks[j] < |pieces|
         && bound[j].name == pattern[ks[j]].text
         && bound[j].value == Decode(Part(pattern, pieces, ks[j]))
  }

  lemma {:induction false} BoundEach(pattern: seq<Segment>, pieces: seq<string>, n: nat)
    requires n <= |pattern| && n <= |pieces| && forall k :: 0 <= k < n ==> pattern[k].capture != Rest
    ensures BindsEach(pattern, pieces, Parameters(pattern[..n]), Bound(pattern, pieces, n))
    decreases n
  {
    hide Decode, Join, BindsEach;
    if n == 0 {
      assert pattern[..0] == [];
      BindsNone(pattern, pieces);
    } else {
      BoundEach(pattern, pieces, n - 1);
      ParametersMore(pattern, n - 1);
      hide Parameters;
      var ks, bound := Parameters(pattern[..n - 1]), Bound(pattern, pieces, n - 1);
      if pattern[n - 1].capture == Literal {
        assert ks + [] == ks && bound + [] == bound;
      } else {
        BindsMore(pattern, pieces, ks, bound, n - 1);
      }
    }
  }

  lemma ParametersMore(pattern: seq<Segment>, n: nat)
    requires n < |pattern|
    ensures Parameters(pattern[..n + 1]) ==
            Parameters(pattern[..n]) + if pattern[n].capture != Literal then [n] else []
  {
    assert pattern[..n + 1][..n] == pattern[..n];
  }

  lemma BindsNone(pattern: seq<Segment>, pieces: seq<string>)
    ensures BindsEach(pattern, pieces, [], [])
  {
  }

  lemma BindsMore(pattern: seq<Segment>, pieces: seq<string>, ks: seq<nat>, bound: seq<Param>, k: nat)
    requires BindsEach(pattern, pieces, ks, bound) && k < |pattern| && k < |pieces|
    ensures BindsEach(pattern, pieces, ks + [k],
                      bound + [Param(pattern[k].text, Decode(Part(pattern, pieces, k)))])
  {
    hide Decode, Join;
  }

  lemma RestOnlyLast(pattern: seq<Segment>, pieces: seq<string>)
    requires Fits(pattern, pieces)
    ensures forall k :: 0 <= k < |pattern| - 1 ==> pattern[k].capture != Rest
    ensures |pattern| <= |pieces|
  {
    var n := if EndsInRest(pattern) then |pattern| - 1 else |pattern|;
    assert forall k :: 0 <= k < n ==> Takes(pattern[k], pieces[k]);
  }

  /** A match binds every parameter of the pattern, in order and nothing else: each to its name, and to the part of the
      path at its own position, decoded. */
  lemma {:induction false} CapturesEach(pattern: seq<Segment>, pieces: seq<string>)
    requires Fits(pattern, pieces)
    ensures BindsEach(pattern, pieces, Parameters(pattern), Captures(pattern, pieces))
  {
    RestOnlyLast(pattern, pieces);
    hide Decode, Join, Fits, BindsEach;
    if EndsInRest(pattern) {
      var n := |pattern| - 1;
      BoundEach(pattern, pieces, n);
      BindsMore(pattern, pieces, Parameters(pattern[..n]), Bound(pattern, pieces, n), n);
    } else {
      assert pattern != [] ==> pattern[|pattern| - 1].capture != Rest;
      BoundEach(pattern, pieces, |pattern|);
      assert pattern[..|pattern|] == pattern;
    }
  }

  /** Whatever a well-escaped target binds could have been filled in: it is not empty, no dot segment, and under a
      number all digits; and every literal of the pattern is there as written. */
  lemma {:induction false} BoundAdmissible(target: string, pattern: seq<Segment>, k: nat)
    requires ValidEscapes(target) && k < |pattern| && Fits(pattern, RoutablePieces(target))
    ensures |pattern| <= |RoutablePieces(target)|
    ensures var piece := RoutablePieces(target)[k];
            && (pattern[k].capture == Literal ==> piece == pattern[k].text)
            && (pattern[k].capture == Any || pattern[k].capture == Number ==> Admissible(pattern[k], Decode(piece)))
  {
    hide Fits, RoutablePieces, Decode, Clean, Admissible, Free;
    var pieces := RoutablePieces(target);
    RoutablePiecesClean(target);
    RestOnlyLast(pattern, pieces);
    if pattern[k].capture != Rest {
      FitsTakes(pattern, pieces, k);
    }
    assert !IsDots(pieces[k]);
    if pattern[k].capture == Any || pattern[k].capture == Number {
      TakenAdmissible(pattern[k], pieces[k]);
    }
  }

  lemma FitsTakes(pattern: seq<Segment>, pieces: seq<string>, k: nat)
    requires Fits(pattern, pieces) && k < |pattern| <= |pieces| && pattern[k].capture != Rest
    ensures Takes(pattern[k], pieces[k])
  {
  }

  lemma TakenAdmissible(segment: Segment, piece: string)
    requires Clean(piece) && !IsDots(piece) && Takes(segment, piece)
    requires segment.capture == Any || segment.capture == Number
    ensures Admissible(segment, Decode(piece))
  {
    DotsKept(piece, Decode(piece));
    DigitsKept(piece, Decode(piece));
    hide Decode, Clean;
  }

  // ----- Filling a pattern in, and reading it back

  predicate IsBytes(value: string) { forall i :: 0 <= i < |value| ==> value[i] as int < 256 }

  /** A client's spelling of any bytes at all: every one of them escaped. */
  function Encoded(value: string): string
    requires IsBytes(value)
  {
    if value == "" then ""
    else ['%', HexDigit(value[0] as int / 16), HexDigit(value[0] as int % 16)] + Encoded(value[1..])
  }

  lemma {:induction false} EncodedDecodes(value: string)
    requires IsBytes(value)
    ensures ValidEscapes(Encoded(value)) && Decode(Encoded(value)) == value
    ensures '/' !in Encoded(value) && '?' !in Encoded(value)
    decreases |value|
  {
    if value == "" {
    } else {
      EncodedDecodes(value[1..]);
      var unit := ['%', HexDigit(value[0] as int / 16), HexDigit(value[0] as int % 16)];
      assert value == [value[0]] + value[1..];
      assert EscapedByte(unit) == value[0];
      hide Decode, ValidEscapes, EscapedByte;
      UnitResolves(unit, Encoded(value[1..]));
    }
  }

  /** A pattern with the leading empty segment of an absolute path, no rest, and literals no lookup would respell. */
  predicate Fillable(pattern: seq<Segment>) {
    && |pattern| >= 1 && pattern[0] == Segment("", Literal)
    && forall k :: 0 <= k < |pattern| ==>
         && pattern[k].capture != Rest
         && (pattern[k].capture == Literal ==> PlainLiteral(pattern[k].text))
  }

  predicate PlainLiteral(text: string) { Clean(text) && !IsDots(text) && '/' !in text && '?' !in text }

  predicate AllBytes(values: seq<string>) { forall k :: 0 <= k < |values| ==> IsBytes(values[k]) }

  function FilledPiece(segment: Segment, value: string): string
    requires IsBytes(value)
  {
    if segment.capture == Literal then segment.text else Encoded(value)
  }

  function Filled(pattern: seq<Segment>, values: seq<string>): (pieces: seq<string>)
    requires |values| == |pattern| && AllBytes(values)
    ensures |pieces| == |pattern|
    ensures forall k :: 0 <= k < |pieces| ==> pieces[k] == FilledPiece(pattern[k], values[k])
  {
    seq(|pattern|, k requires 0 <= k < |pattern| => FilledPiece(pattern[k], values[k]))
  }

  /** What a parameter can be filled with. A dot segment cannot stand for itself however it is spelled. */
  predicate Admissible(segment: Segment, value: string) {
    match segment.capture
    case Literal => true
    case Any => value != "" && value != "." && value != ".."
    case Number => value != "" && forall i :: 0 <= i < |value| ==> '0' <= value[i] <= '9'
    case Rest => false
  }

  predicate AllAdmissible(pattern: seq<Segment>, values: seq<string>)
    requires |values| == |pattern|
  {
    forall k :: 0 <= k < |pattern| ==> Admissible(pattern[k], values[k])
  }

  /** The parameters that come back: the names with the values themselves. */
  function Named(pattern: seq<Segment>, values: seq<string>): seq<Param>
    requires |values| == |pattern|
  {
    if pattern == [] then []
    else
      var n := |pattern| - 1;
      Named(pattern[..n], values[..n])
      + if pattern[n].capture != Literal then [Param(pattern[n].text, values[n])] else []
  }

  lemma FilledClean(segment: Segment, value: string)
    requires IsBytes(value) && segment.capture != Rest && (segment.capture == Literal ==> PlainLiteral(segment.text))
    ensures var piece := Resolve(FilledPiece(segment, value));
            && Clean(piece)
            && (segment.capture == Literal ==> piece == segment.text)
            && (segment.capture != Literal ==> Decode(piece) == value)
            && '/' !in FilledPiece(segment, value) && '?' !in FilledPiece(segment, value)
  {
    if segment.capture == Literal {
      ResolveFixed(segment.text);
    } else {
      EncodedDecodes(value);
      ResolveValid(Encoded(value));
    }
  }

  lemma {:induction false} DotsKept(piece: string, value: string)
    requires Clean(piece) && Decode(piece) == value
    ensures IsDots(piece) <==> value == "." || value == ".."
    ensures piece == "" <==> value == ""
  {
    NothingResolved(piece);
    ResolveFixed(piece);
    DotsDecoded(piece);
  }

  /** Digits are unreserved, so digits are what a lookup sees of them. */
  lemma {:induction false} DigitsKept(piece: string, value: string)
    requires Clean(piece) && Decode(piece) == value
    ensures AllDecimal(piece) <==> forall i :: 0 <= i < |value| ==> '0' <= value[i] <= '9'
  {
    if AllDecimal(piece) {
      NumberBindsDigits(piece);
    }
    if forall i :: 0 <= i < |value| ==> '0' <= value[i] <= '9' {
      PlainWhenUnreserved(piece);
    }
  }

  /** The piece a lookup sees is accepted exactly when its value may stand there and it is no dot segment. */
  lemma PieceTaken(segment: Segment, value: string)
    requires IsBytes(value) && segment.capture != Rest && (segment.capture == Literal ==> PlainLiteral(segment.text))
    ensures var piece := Resolve(FilledPiece(segment, value));
            && (Admissible(segment, value) <==> Takes(segment, piece) && !IsDots(piece))
            && (IsDots(piece) ==> segment.capture != Literal)
  {
    var piece := Resolve(FilledPiece(segment, value));
    FilledClean(segment, value);
    if segment.capture != Literal {
      DotsKept(piece, value);
      DigitsKept(piece, value);
      assert IsDots(piece) ==> piece[0] == '.';
      assert piece != "" && AllDecimal(piece) ==> IsDigit(piece[0]);
    }
    hide Resolve, Clean, Decode;
  }

  // ----- Dot segments that were filled in

  lemma {:induction false} WalkCounts(segments: seq<string>, w: Walked)
    requires segments != []
    ensures var closed := Closed(Walk(segments, w));
            && |closed| <= |w.kept| + |segments|
            && (!Ordinary(segments) && |closed| == |w.kept| + |segments| ==>
                  IsDots(segments[|segments| - 1]) && closed[|closed| - 1] == "")
    decreases |segments|
  {
    var rest, one := segments[1..], WalkOne(w, segments[0]);
    assert segments == [segments[0]] + rest;
    if rest == [] {
      assert Walk(segments, w) == one;
    } else {
      WalkCounts(rest, one);
    }
  }

  predicate Joinable(pieces: seq<string>) {
    |pieces| >= 2 && pieces[0] == "" && forall k :: 0 <= k < |pieces| ==> '/' !in pieces[k] && '?' !in pieces[k]
  }

  /** How a lookup cuts an absolute path put together from these pieces. */
  lemma {:induction false} JoinedRouted(pieces: seq<string>)
    requires Joinable(pieces)
    ensures RoutablePieces(Join(pieces, '/')) == Seen(ResolveEach(pieces))
  {
    var body := pieces[1..];
    var target := Join(pieces, '/');
    hide Resolve, Walk, Clean;
    assert pieces == [""] + body;
    JoinCons("", body, '/');
    assert "" + ['/'] + Join(body, '/') == "/" + Join(body, '/');
    NoQuery(pieces);
    assert PathOf(target) == target;
    SplitJoin(body, '/');
    assert target[1..] == Join(body, '/');
    BodyResolved(target);
    assert ResolveEach(pieces)[1..] == ResolveEach(body);
    NoDotsSurvive(Resolve(target));
  }

  lemma FilledJoinable(pattern: seq<Segment>, values: seq<string>)
    requires Fillable(pattern) && |values| == |pattern| && AllBytes(values)
    ensures var pieces := Filled(pattern, values);
            pieces[0] == "" && forall k :: 0 <= k < |pieces| ==> '/' !in pieces[k] && '?' !in pieces[k]
  {
    var pieces := Filled(pattern, values);
    forall k | 0 <= k < |pieces| ensures '/' !in pieces[k] && '?' !in pieces[k] {
      FilledClean(pattern[k], values[k]);
    }
  }

  lemma {:induction false} NoQuery(pieces: seq<string>)
    requires forall k :: 0 <= k < |pieces| ==> '?' !in pieces[k]
    ensures '?' !in Join(pieces, '/')
    decreases |pieces|
  {
    if |pieces| <= 1 {
    } else {
      NoQuery(pieces[1..]);
    }
  }

  lemma {:induction false} NamedBound(pattern: seq<Segment>, values: seq<string>, pieces: seq<string>, n: nat)
    requires n <= |pattern| && n <= |values| && n <= |pieces|
    requires forall k :: 0 <= k < n ==> pattern[k].capture != Literal ==> Decode(pieces[k]) == values[k]
    ensures Bound(pattern, pieces, n) == Named(pattern[..n], values[..n])
    decreases n
  {
    hide Decode;
    if n == 0 {
    } else {
      NamedBound(pattern, values, pieces, n - 1);
      assert pattern[..n][..n - 1] == pattern[..n - 1] && values[..n][..n - 1] == values[..n - 1];
    }
  }

  lemma AllOrdinary(pattern: seq<Segment>, values: seq<string>)
    requires Fillable(pattern) && |values| == |pattern| && AllBytes(values)
    ensures var resolved := ResolveEach(Filled(pattern, values));
            && (AllAdmissible(pattern, values) <==> TakesEach(pattern, resolved, |pattern|) && Ordinary(resolved))
            && resolved[0] == ""
            && forall k :: 0 <= k < |pattern| ==>
                 && (IsDots(resolved[k]) ==> pattern[k].capture != Literal)
                 && (pattern[k].capture != Literal ==> Decode(resolved[k]) == values[k])
  {
    var resolved := ResolveEach(Filled(pattern, values));
    forall k | 0 <= k < |pattern|
      ensures Admissible(pattern[k], values[k]) <==> Takes(pattern[k], resolved[k]) && !IsDots(resolved[k])
      ensures IsDots(resolved[k]) ==> pattern[k].capture != Literal
      ensures pattern[k].capture != Literal ==> Decode(resolved[k]) == values[k]
    {
      PieceTaken(pattern[k], values[k]);
      FilledClean(pattern[k], values[k]);
    }
    hide Resolve, Decode, Takes, Admissible, IsDots;
  }

  /** The read-back law. A path that fills a pattern's parameters with any bytes, escaped, matches it and binds exactly
      those bytes if and only if each of them may stand there: not empty, all digits for a number, and no dot segment,
      which no escaping can protect. Else it does not match at all. */
  lemma {:induction false} FilledMatches(pattern: seq<Segment>, values: seq<string>)
    requires Fillable(pattern) && |pattern| >= 2 && |values| == |pattern| && AllBytes(values)
    ensures Matching(pattern, RoutablePieces(Join(Filled(pattern, values), '/')))
            == if AllAdmissible(pattern, values) then Some(Named(pattern, values)) else None
  {
    hide Resolve, Decode, Walk, RoutablePieces, AllAdmissible, Filled, Ordinary, TakesEach, Matching, Bound, Named;
    var resolved := ResolveEach(Filled(pattern, values));
    var pieces := Seen(resolved);
    FilledJoinable(pattern, values);
    JoinedRouted(Filled(pattern, values));
    AllOrdinary(pattern, values);
    SeenShape(resolved);
    if Ordinary(resolved) {
      NamedBound(pattern, values, pieces, |pattern|);
      assert pattern[..|pattern|] == pattern && values[..|pattern|] == values;
      OrdinaryFits(pattern, pieces);
    } else {
      DotsDoNotFit(pattern, resolved, pieces);
      NoMatch(pattern, pieces);
    }
  }

  /** The pieces a lookup sees of an absolute path whose resolved pieces these are. */
  function Seen(resolved: seq<string>): seq<string>
    requires resolved != []
  {
    [""] + Closed(Walk(resolved[1..], Walked([], false)))
  }

  /** They are the same unless a dot segment is among them. Then there are fewer, or the last was one and is empty. */
  lemma SeenShape(resolved: seq<string>)
    requires |resolved| >= 2 && resolved[0] == ""
    ensures var pieces := Seen(resolved);
            && |pieces| <= |resolved|
            && (Ordinary(resolved) ==> pieces == resolved)
            && (!Ordinary(resolved) && |pieces| == |resolved| ==>
                  IsDots(resolved[|resolved| - 1]) && pieces[|pieces| - 1] == "")
  {
    hide Walk, Ordinary;
    var body := resolved[1..];
    assert resolved == [""] + body;
    OrdinaryBody(body);
    WalkCounts(body, Walked([], false));
    if Ordinary(body) {
      WalkOrdinary(body, Walked([], false));
      assert [] + body == body;
    }
  }

  lemma OrdinaryBody(body: seq<string>)
    ensures Ordinary([""] + body) <==> Ordinary(body)
  {
    var all := [""] + body;
    assert forall i :: 0 <= i < |body| ==> body[i] == all[i + 1];
    assert !IsDots("");
  }

  lemma {:induction false} OrdinaryFits(pattern: seq<Segment>, pieces: seq<string>)
    requires Fillable(pattern) && |pieces| == |pattern|
    ensures Matching(pattern, pieces) ==
            if TakesEach(pattern, pieces, |pattern|) then Some(Bound(pattern, pieces, |pattern|)) else None
  {
    hide Decode, Takes, PlainLiteral;
  }

  lemma NoMatch(pattern: seq<Segment>, pieces: seq<string>)
    requires !Fits(pattern, pieces)
    ensures Matching(pattern, pieces) == None
  {
    hide Fits;
  }

  lemma DotsDoNotFit(pattern: seq<Segment>, resolved: seq<string>, pieces: seq<string>)
    requires Fillable(pattern) && |resolved| == |pattern| && |pieces| <= |pattern| && !Ordinary(resolved)
    requires forall k :: 0 <= k < |pattern| && IsDots(resolved[k]) ==> pattern[k].capture != Literal
    requires |pieces| == |pattern| ==> IsDots(resolved[|resolved| - 1]) && pieces[|pieces| - 1] == ""
    ensures !Fits(pattern, pieces)
  {
    var n := |pattern| - 1;
    if |pieces| == |pattern| {
      assert !Takes(pattern[n], pieces[n]);
    }
  }

  // ----- Filling a rest

  /** A client's spelling of a rest: its separators as they are, everything between them escaped. */
  function EncodedEach(pieces: seq<string>): (r: seq<string>)
    requires AllBytes(pieces)
    ensures |r| == |pieces| && forall i :: 0 <= i < |r| ==> r[i] == Encoded(pieces[i])
  {
    seq(|pieces|, i requires 0 <= i < |pieces| => Encoded(pieces[i]))
  }

  predicate RestAdmissible(value: string) { value != "" && value[0] != '/' && Ordinary(Split(value, '/')) }

  lemma {:induction false} BytesSplit(value: string)
    requires IsBytes(value)
    ensures AllBytes(Split(value, '/'))
    decreases |value|
  {
    var end := Find(value, '/', 0);
    if end == |value| {
    } else {
      BytesSplit(value[end + 1..]);
    }
  }

  function RestPieces(prefix: seq<Segment>, values: seq<string>, value: string): seq<string>
    requires |values| == |prefix| && AllBytes(values) && AllBytes(Split(value, '/'))
  {
    Filled(prefix, values) + EncodedEach(Split(value, '/'))
  }

  lemma {:induction false} EncodedResolved(piece: string)
    requires IsBytes(piece)
    ensures var resolved := Resolve(Encoded(piece));
            && Clean(resolved) && Decode(resolved) == piece && (IsDots(resolved) <==> IsDots(piece))
            && (resolved == "" <==> piece == "") && '/' !in resolved
            && '/' !in Encoded(piece) && '?' !in Encoded(piece)
  {
    EncodedDecodes(piece);
    ResolveValid(Encoded(piece));
    ResolveSlashes(Encoded(piece));
    DotsKept(Resolve(Encoded(piece)), piece);
  }

  /** What the rest alone becomes, and what it is decoded to. */
  lemma {:induction false} RestResolved(value: string)
    requires IsBytes(value) && AllBytes(Split(value, '/'))
    ensures var resolved := ResolveEach(EncodedEach(Split(value, '/')));
            && (Ordinary(resolved) <==> Ordinary(Split(value, '/')))
            && (resolved[0] == "" <==> value == "" || value[0] == '/')
            && KeepsSeparators(Join(resolved, '/')) && Decode(Join(resolved, '/')) == value
  {
    var pieces := Split(value, '/');
    var resolved := ResolveEach(EncodedEach(pieces));
    SplitPieces(value, '/');
    forall i | 0 <= i < |pieces|
      ensures Clean(resolved[i]) && Decode(resolved[i]) == pieces[i] && (IsDots(resolved[i]) <==> IsDots(pieces[i]))
      ensures (resolved[i] == "" <==> pieces[i] == "") && '/' !in resolved[i]
    {
      EncodedResolved(pieces[i]);
    }
    FirstPiece(value);
    hide Resolve, Decode, Split, Join, KeepsSeparators, IsDots, Canonical, ValidEscapes;
    SeparatorsKept(resolved);
    DecodeJoin(resolved);
    assert DecodeEach(resolved) == pieces;
  }

  lemma {:induction false} FirstPiece(value: string)
    ensures Split(value, '/')[0] == "" <==> value == "" || value[0] == '/'
  {
  }

  lemma {:induction false} ResolveJoined(a: seq<string>, b: seq<string>)
    ensures ResolveEach(a + b) == ResolveEach(a) + ResolveEach(b)
  {
    hide Resolve;
  }

  /** A path that fills a rest, and the parameters before it, with what may stand there matches and binds exactly that,
      separators and all. */
  lemma {:induction false} RestFilled(prefix: seq<Segment>, values: seq<string>, name: string, value: string)
    requires Fillable(prefix) && |values| == |prefix| && AllBytes(values) && AllAdmissible(prefix, values)
    requires IsBytes(value) && AllBytes(Split(value, '/')) && RestAdmissible(value)
    ensures Matching(prefix + [Segment(name, Rest)], RoutablePieces(Join(RestPieces(prefix, values, value), '/')))
            == Some(Named(prefix, values) + [Param(name, value)])
  {
    hide Resolve, Decode, Split, Join, KeepsSeparators, Ordinary, Named, RoutablePieces, Matching;
    var pieces := RestPieces(prefix, values, value);
    var resolved := ResolveEach(pieces);
    var rest := ResolveEach(EncodedEach(Split(value, '/')));
    FilledJoinable(prefix, values);
    RestJoinable(value);
    JoinedRouted(pieces);
    AllOrdinary(prefix, values);
    RestResolved(value);
    ResolveJoined(Filled(prefix, values), EncodedEach(Split(value, '/')));
    OrdinaryAppend(ResolveEach(Filled(prefix, values)), rest);
    SeenShape(resolved);
    RestMatches(prefix, values, name, ResolveEach(Filled(prefix, values)), rest);
  }

  lemma {:induction false} RestJoinable(value: string)
    requires AllBytes(Split(value, '/'))
    ensures forall i :: 0 <= i < |Split(value, '/')| ==>
              '/' !in EncodedEach(Split(value, '/'))[i] && '?' !in EncodedEach(Split(value, '/'))[i]
  {
    hide Split;
    var pieces := Split(value, '/');
    forall i | 0 <= i < |pieces| ensures '/' !in EncodedEach(pieces)[i] && '?' !in EncodedEach(pieces)[i] {
      EncodedDecodes(pieces[i]);
    }
  }

  lemma OrdinaryAppend(a: seq<string>, b: seq<string>)
    ensures Ordinary(a + b) <==> Ordinary(a) && Ordinary(b)
  {
    hide IsDots;
    assert forall i :: 0 <= i < |a| ==> (a + b)[i] == a[i];
    assert forall i :: 0 <= i < |b| ==> (a + b)[|a| + i] == b[i];
  }

  lemma {:induction false} RestMatches(prefix: seq<Segment>, values: seq<string>, name: string,
                                       first: seq<string>, rest: seq<string>)
    requires |values| == |prefix| == |first| && rest != [] && rest[0] != ""
    requires TakesEach(prefix, first, |prefix|) && KeepsSeparators(Join(rest, '/'))
    requires forall k :: 0 <= k < |prefix| && prefix[k].capture != Literal ==> Decode(first[k]) == values[k]
    ensures Matching(prefix + [Segment(name, Rest)], first + rest)
            == Some(Named(prefix, values) + [Param(name, Decode(Join(rest, '/')))])
  {
    hide Decode, Join, KeepsSeparators, Takes;
    var pattern, pieces, n := prefix + [Segment(name, Rest)], first + rest, |prefix|;
    assert pieces[n..] == rest;
    assert forall k :: 0 <= k < n ==> pattern[k] == prefix[k] && pieces[k] == first[k];
    NamedBound(pattern, values, pieces, n);
    assert pattern[..n] == prefix && values[..n] == values;
  }

  /** Which patterns that is: those registered under a well-escaped absolute path without a rest or a query in it. */
  lemma {:induction false} RegisteredFillable(path: string)
    requires ValidEscapes(path) && IsAbsolute(path) && '?' !in Normalize(path)
    requires var pattern := CompileEach(Split(Normalize(path), '/'));
             forall k :: 0 <= k < |pattern| ==> pattern[k].capture != Rest
    ensures Fillable(CompileEach(Split(Normalize(path), '/')))
  {
    var normal := Normalize(path);
    var pieces := Split(normal, '/');
    NormalizeIdempotent(path);
    CleanSplit(normal);
    SplitPieces(normal, '/');
    SplitMembers(normal);
    BodyResolved(path);
    KeptShape(Resolve(path));
    NoDotsSurvive(Resolve(path));
    hide Split, Normalize, Clean, Resolve, Join, KeptSegments;
    forall k | 0 <= k < |pieces| && CompileSegment(pieces[k]).capture == Literal
      ensures PlainLiteral(CompileSegment(pieces[k]).text)
    {
      CompiledExactly(pieces[k], "", Literal);
      assert pieces[k] in pieces;
    }
  }
}
