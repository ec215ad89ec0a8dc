/** Patterns, matching and lookup (src/server/router.cpp, src/server/router.hpp). */
module Routing {
  import opened Text
  import opened Ascii
  import opened Messages
  import opened Escapes
  import opened Paths

  datatype Capture = Literal | Any | Number | Rest

  datatype Segment = Segment(text: string, capture: Capture)

  datatype Param = Param(name: string, value: string)

  // ----- Registration

  function CaptureFor(converter: string): Capture
  {
    if converter == "str" then Any
    else if converter == "int" then Number
    else if converter == "path" then Rest
    else Literal
  }

  /** "<name>" or "<converter:name>"; anything else, however bracketed, is literal text. */
  function CompileSegment(text: string): Segment
  {
    if |text| < 3 || text[0] != '<' || text[|text| - 1] != '>' then Segment(text, Literal)
    else
      var inner := text[1..|text| - 1];
      var colon := Find(inner, ':', 0);
      if colon == |inner| then Segment(inner, Any)
      else
        var capture := CaptureFor(inner[..colon]);
        var name := inner[colon + 1..];
        if capture == Literal || name == "" then Segment(text, Literal) else Segment(name, capture)
  }

  function ConverterFor(capture: Capture): string
    requires capture != Literal
  {
    match capture
    case Any => "str"
    case Number => "int"
    case Rest => "path"
  }

  /** The spellings of a parameter: its converter and name between brackets, or, for text, a name without a colon. */
  predicate Declares(text: string, name: string, capture: Capture) {
    && capture != Literal && name != ""
    && (text == "<" + (ConverterFor(capture) + [':'] + name) + ">"
        || (capture == Any && ':' !in name && text == "<" + name + ">"))
  }

  /** What a bracketed text compiles to, by its inside. */
  lemma {:induction false} CompileInside(inner: string, colon: nat)
    requires inner != "" && colon == Find(inner, ':', 0)
    ensures CompileSegment("<" + inner + ">") ==
            if colon == |inner| then Segment(inner, Any)
            else if CaptureFor(inner[..colon]) == Literal || inner[colon + 1..] == "" then
              Segment("<" + inner + ">", Literal)
            else Segment(inner[colon + 1..], CaptureFor(inner[..colon]))
  {
    hide CaptureFor;
    var text := "<" + inner + ">";
    assert text[1..|text| - 1] == inner;
  }

  lemma SplitAtColon(converter: string, name: string)
    requires ':' !in converter
    ensures var inner := converter + [':'] + name;
            Find(inner, ':', 0) == |converter| && inner[..|converter|] == converter && inner[|converter| + 1..] == name
  {
    var inner := converter + [':'] + name;
    assert forall k :: 0 <= k < |converter| ==> inner[k] == converter[k];
    assert inner[|converter|] == ':';
  }

  lemma DeclaredOnce(text: string, name: string, capture: Capture)
    requires Declares(text, name, capture)
    ensures CompileSegment(text) == Segment(name, capture)
  {
    hide CompileSegment;
    if capture == Any && ':' !in name && text == "<" + name + ">" {
      CompileInside(name, Find(name, ':', 0));
    } else {
      var converter := ConverterFor(capture);
      SplitAtColon(converter, name);
      CompileInside(converter + [':'] + name, |converter|);
    }
  }

  lemma CompiledDeclares(text: string)
    requires CompileSegment(text).capture != Literal
    ensures Declares(text, CompileSegment(text).text, CompileSegment(text).capture)
  {
    var inner := text[1..|text| - 1];
    var colon := Find(inner, ':', 0);
    assert text == "<" + inner + ">";
    if colon < |inner| {
      assert inner == inner[..colon] + [':'] + inner[colon + 1..];
    }
  }

  /** A piece of a pattern is a parameter exactly when it declares one, and any other text stands for itself. */
  lemma CompiledExactly(text: string, name: string, capture: Capture)
    ensures capture != Literal ==> (CompileSegment(text) == Segment(name, capture) <==> Declares(text, name, capture))
    ensures CompileSegment(text).capture == Literal ==> CompileSegment(text).text == text
  {
    if Declares(text, name, capture) {
      DeclaredOnce(text, name, capture);
    }
    if CompileSegment(text).capture != Literal {
      CompiledDeclares(text);
    }
    hide Declares;
  }

  function CompileEach(pieces: seq<string>): (pattern: seq<Segment>)
    ensures |pattern| == |pieces|
    ensures forall i :: 0 <= i < |pieces| ==> pattern[i] == CompileSegment(pieces[i])
  {
    if pieces == [] then [] else [CompileSegment(pieces[0])] + CompileEach(pieces[1..])
  }

  method Compile(path: string) returns (pattern: seq<Segment>)
    ensures pattern == CompileEach(Split(path, '/'))
  {
    hide Split, CompileSegment;
    pattern := [];
    var start := 0;
    var more := true;
    ghost var pieces := Split(path, '/');
    ghost var done := 0;
    assert path[0..] == path && pieces[0..] == pieces;
    while more
      invariant start <= |path| && done == |pattern| <= |pieces|
      invariant forall i :: 0 <= i < done ==> pattern[i] == CompileSegment(pieces[i])
      invariant if more then pieces[done..] == Split(path[start..], '/') else done == |pieces|
      decreases more, |path| - start
    {
      var end := Find(path, '/', start);
      SplitFrom(path, '/', start);
      assert pieces[done] == path[start..end];
      pattern := pattern + [CompileSegment(path[start..end])];
      done := done + 1;
      if end == |path| {
        assert |pieces[done - 1..]| == 1;
        more := false;
      } else {
        assert pieces[done..] == pieces[done - 1..][1..];
        start := end + 1;
      }
    }
    assert pattern == CompileEach(pieces);
  }

  // ----- What a pattern accepts

  predicate BindsName(capture: Capture) { capture != Literal }

  predicate AllDecimal(text: string) { forall i :: 0 <= i < |text| ==> IsDigit(text[i]) }

  method AllDigits(text: string) returns (r: bool)
    ensures r == AllDecimal(text)
  {
    var i := 0;
    while i < |text|
      invariant i <= |text|
      invariant forall k :: 0 <= k < i ==> IsDigit(text[k])
    {
      if !IsDigit(text[i]) {
        return false;
      }
      i := i + 1;
    }
    return true;
  }

  /** One segment against one piece. No parameter takes the empty piece, and a rest takes none by itself. */
  predicate Takes(segment: Segment, piece: string) {
    match segment.capture
    case Literal => segment.text == piece
    case Any => piece != ""
    case Number => piece != "" && AllDecimal(piece)
    case Rest => false
  }

  predicate EndsInRest(pattern: seq<Segment>) { pattern != [] && pattern[|pattern| - 1].capture == Rest }

  predicate TakesEach(pattern: seq<Segment>, pieces: seq<string>, n: nat)
    requires n <= |pattern| && n <= |pieces|
  {
    forall i :: 0 <= i < n ==> Takes(pattern[i], pieces[i])
  }

  /** No separator of the decoded rest arrived escaped. */
  predicate KeepsSeparators(rest: string) { Count(Decode(rest), '/') == Count(rest, '/') }

  /** The pattern matches the pieces of a path: one to one, except that a final rest takes all that are left. */
  predicate Fits(pattern: seq<Segment>, pieces: seq<string>) {
    if EndsInRest(pattern) then
      var k := |pattern| - 1;
      && |pieces| > k && TakesEach(pattern, pieces, k)
      && pieces[k] != "" && KeepsSeparators(Join(pieces[k..], '/'))
    else |pattern| == |pieces| && TakesEach(pattern, pieces, |pattern|)
  }

  /** The parameters bound by the first `n` segments, each to its decoded piece. */
  function Bound(pattern: seq<Segment>, pieces: seq<string>, n: nat): seq<Param>
    requires n <= |pattern| && n <= |pieces|
  {
    if n == 0 then []
    else
      Bound(pattern, pieces, n - 1)
      + if BindsName(pattern[n - 1].capture) then [Param(pattern[n - 1].text, Decode(pieces[n - 1]))] else []
  }

  function Captures(pattern: seq<Segment>, pieces: seq<string>): seq<Param>
    requires Fits(pattern, pieces)
  {
    if EndsInRest(pattern) then
      var k := |pattern| - 1;
      Bound(pattern, pieces, k) + [Param(pattern[k].text, Decode(Join(pieces[k..], '/')))]
    else Bound(pattern, pieces, |pattern|)
  }

  function Matching(pattern: seq<Segment>, pieces: seq<string>): Option<seq<Param>>
  {
    if Fits(pattern, pieces) then Some(Captures(pattern, pieces)) else None
  }

  /** Decides `Takes` for every segment but a rest. */
  method Accepts(segment: Segment, piece: string) returns (r: bool)
    ensures r == (match segment.capture
                  case Literal => segment.text == piece
                  case Any => true
                  case Number => AllDecimal(piece)
                  case Rest => false)
  {
    match segment.capture {
      case Literal => r := segment.text == piece;
      case Any => r := true;
      case Number => r := AllDigits(piece);
      case Rest => r := false;
    }
  }

  /** The reasons a walk that has accepted `index` pieces can stop there. */
  lemma CannotFit(pattern: seq<Segment>, pieces: seq<string>, index: nat)
    requires index < |pieces| && index <= |pattern|
    ensures index == |pattern| && !EndsInRest(pattern) ==> !Fits(pattern, pieces)
    ensures index < |pattern| && BindsName(pattern[index].capture) && pieces[index] == "" ==> !Fits(pattern, pieces)
    ensures index < |pattern| && pattern[index].capture == Rest && index + 1 < |pattern| ==> !Fits(pattern, pieces)
    ensures index < |pattern| && pattern[index].capture != Rest && !Takes(pattern[index], pieces[index]) ==>
              !Fits(pattern, pieces)
  {
  }

  method Matches(pattern: seq<Segment>, path: string) returns (r: Option<seq<Param>>)
    ensures r == Matching(pattern, Split(path, '/'))
  {
    hide Split, Join, Decode;
    ghost var pieces := Split(path, '/');
    var captured: seq<Param> := [];
    var index := 0;
    var start := 0;
    assert path[0..] == path && pieces[0..] == pieces;
    while true
      invariant index <= |pattern| && index < |pieces| && start <= |path|
      invariant pieces[index..] == Split(path[start..], '/')
      invariant TakesEach(pattern, pieces, index) && captured == Bound(pattern, pieces, index)
      decreases |path| - start
    {
      var end := Find(path, '/', start);
      var piece := path[start..end];
      SplitFrom(path, '/', start);
      assert piece == pieces[index];
      CannotFit(pattern, pieces, index);
      if index == |pattern| {
        assert index > 0 ==> Takes(pattern[index - 1], pieces[index - 1]);
        return None;
      }
      var segment := pattern[index];
      if BindsName(segment.capture) && piece == "" {
        return None;
      }
      if segment.capture == Rest {
        var rest := path[start..];
        SplitPieces(rest, '/');
        var decoded := PercentDecode(rest);
        if Count(decoded, '/') != Count(rest, '/') {
          return None;
        }
        captured := captured + [Param(segment.text, decoded)];
        index := index + 1;
        if index != |pattern| {
          return None;
        }
        return Some(captured);
      }
      var accepted := Accepts(segment, piece);
      if !accepted {
        return None;
      }
      if BindsName(segment.capture) {
        var decoded := PercentDecode(piece);
        captured := captured + [Param(segment.text, decoded)];
      }
      index := index + 1;
      if end == |path| {
        assert |pieces[index - 1..]| == 1;
        assert index == |pieces|;
        assert captured == Bound(pattern, pieces, index);
        assert TakesEach(pattern, pieces, index);
        break;
      }
      assert pieces[index..] == pieces[index - 1..][1..];
      start := end + 1;
    }
    if index != |pattern| {
      return None;
    }
    assert Takes(pattern[index - 1], pieces[index - 1]);
    return Some(captured);
  }

  // ----- Lookup

  /** A handler is opaque: only which one is chosen matters. */
  datatype Route<H> = Route(verb: Method, pattern: seq<Segment>, handler: H)

  datatype Match<H> = Match(handler: Option<H>, pathMatched: bool, params: seq<Param>)

  function PathOf(target: string): string { target[..Find(target, '?', 0)] }

  function RoutablePieces(target: string): seq<string> { Split(Normalize(PathOf(target)), '/') }

  predicate Serves<H>(route: Route<H>, verb: Method, pieces: seq<string>) {
    route.verb == verb && Fits(route.pattern, pieces)
  }

  /** The first registration of this very method that fits, or the number of routes. */
  function FirstRoute<H>(routes: seq<Route<H>>, verb: Method, pieces: seq<string>): (i: nat)
    ensures i <= |routes|
    ensures i < |routes| ==> Serves(routes[i], verb, pieces)
    ensures forall k :: 0 <= k < i ==> !Serves(routes[k], verb, pieces)
  {
    if routes == [] || Serves(routes[0], verb, pieces) then 0 else 1 + FirstRoute(routes[1..], verb, pieces)
  }

  predicate PathKnown<H>(routes: seq<Route<H>>, pieces: seq<string>) {
    exists i :: 0 <= i < |routes| && Fits(routes[i].pattern, pieces)
  }

  function Chosen<H>(route: Route<H>, pieces: seq<string>): Match<H>
    requires Fits(route.pattern, pieces)
  {
    Match(Some(route.handler), true, Captures(route.pattern, pieces))
  }

  /** What `find` promises: the earliest route of the method; failing that, for HEAD, the earliest GET; failing both,
      whether the path is registered at all. */
  function Lookup<H>(routes: seq<Route<H>>, verb: Method, pieces: seq<string>): Match<H>
  {
    var own, get := FirstRoute(routes, verb, pieces), FirstRoute(routes, Get, pieces);
    if own < |routes| then Chosen(routes[own], pieces)
    else if verb == Head && get < |routes| then Chosen(routes[get], pieces)
    else Match(None, PathKnown(routes, pieces), [])
  }

  /** The GET a HEAD falls back on, if it is among the first `n` routes. */
  function Fallback<H>(routes: seq<Route<H>>, pieces: seq<string>, n: nat): Option<Match<H>>
  {
    var get := FirstRoute(routes, Get, pieces);
    if get < n && get < |routes| then Some(Chosen(routes[get], pieces)) else None
  }

  lemma FallbackMore<H>(routes: seq<Route<H>>, pieces: seq<string>, i: nat)
    requires i < |routes|
    ensures Fallback(routes, pieces, i).Some? ==> Fallback(routes, pieces, i + 1) == Fallback(routes, pieces, i)
    ensures Fallback(routes, pieces, i) == None ==>
              Fallback(routes, pieces, i + 1) ==
              if Serves(routes[i], Get, pieces) then Some(Chosen(routes[i], pieces)) else None
  {
  }

  lemma NoneTried<H>(routes: seq<Route<H>>, verb: Method, pieces: seq<string>)
    ensures !PathKnown(routes[..0], pieces) && Fallback(routes, pieces, 0) == None
  {
  }

  lemma {:induction false} FirstMore<H>(routes: seq<Route<H>>, verb: Method, pieces: seq<string>, i: nat)
    requires i < |routes| && i <= FirstRoute(routes, verb, pieces)
    ensures Serves(routes[i], verb, pieces) ==> Lookup(routes, verb, pieces) == Chosen(routes[i], pieces)
    ensures !Serves(routes[i], verb, pieces) ==> i + 1 <= FirstRoute(routes, verb, pieces)
  {
    hide Fits, Captures;
  }

  lemma {:induction false} NoneOfItsOwn<H>(routes: seq<Route<H>>, verb: Method, pieces: seq<string>)
    requires FirstRoute(routes, verb, pieces) == |routes|
    ensures var fallback := if verb == Head then Fallback(routes, pieces, |routes|) else None;
            Lookup(routes, verb, pieces) ==
              if fallback.Some? then fallback.value else Match(None, PathKnown(routes, pieces), [])
  {
    hide Fits, Captures;
  }

  /** One route's effect on the list of allowed methods: its own method if it is new, and after a GET also HEAD. */
  function AllowOne(allowed: seq<Method>, verb: Method): seq<Method>
  {
    var own := if verb in allowed then allowed else allowed + [verb];
    if verb == Get && Head !in own then own + [Head] else own
  }

  function Allowed<H>(routes: seq<Route<H>>, pieces: seq<string>): seq<Method>
  {
    if routes == [] then []
    else
      var route := routes[|routes| - 1];
      var before := Allowed(routes[..|routes| - 1], pieces);
      if Fits(route.pattern, pieces) then AllowOne(before, route.verb) else before
  }

  class Router<H> {
    var routes: seq<Route<H>>

    constructor ()
      ensures routes == []
    {
      routes := [];
    }

    method Add(verb: Method, path: string, handler: H)
      modifies this
      ensures routes == old(routes) + [Route(verb, CompileEach(Split(Normalize(path), '/')), handler)]
    {
      var normal := NormalizePath(path);
      var pattern := Compile(normal);
      routes := routes + [Route(verb, pattern, handler)];
    }

    method Find(verb: Method, target: string) returns (m: Match<H>)
      ensures m == Lookup(routes, verb, RoutablePieces(target))
    {
      var path := NormalizePath(PathOf(target));
      ghost var pieces := Split(path, '/');
      hide Split, Captures, Normalize, Fits, FirstRoute, Fallback, Lookup, PathKnown;
      NoneTried(routes, verb, pieces);
      var fallback: Option<Match<H>> := None;
      var pathMatched := false;
      var i := 0;
      while i < |routes|
        invariant i <= |routes| && i <= FirstRoute(routes, verb, pieces)
        invariant pathMatched <==> PathKnown(routes[..i], pieces)
        invariant fallback == if verb == Head then Fallback(routes, pieces, i) else None
      {
        var route := routes[i];
        var captured := Matches(route.pattern, path);
        KnownMore(routes, pieces, i);
        FallbackMore(routes, pieces, i);
        FirstMore(routes, verb, pieces, i);
        i := i + 1;
        if captured == None {
          continue;
        }
        pathMatched := true;
        if route.verb == verb {
          return Match(Some(route.handler), true, captured.value);
        }
        if verb == Head && route.verb == Get && fallback == None {
          fallback := Some(Match(Some(route.handler), true, captured.value));
        }
      }
      assert routes[..|routes|] == routes;
      NoneOfItsOwn(routes, verb, pieces);
      if fallback.Some? {
        return fallback.value;
      }
      return Match(None, pathMatched, []);
    }

    method AllowedMethods(target: string) returns (allowed: seq<Method>)
      ensures allowed == Allowed(routes, RoutablePieces(target))
    {
      var path := NormalizePath(PathOf(target));
      ghost var pieces := Split(path, '/');
      hide Split, Captures, Normalize;
      allowed := [];
      var i := 0;
      while i < |routes|
        invariant i <= |routes|
        invariant allowed == Allowed(routes[..i], pieces)
      {
        var route := routes[i];
        assert routes[..i + 1][..i] == routes[..i];
        var captured := Matches(route.pattern, path);
        i := i + 1;
        if captured == None {
          continue;
        }
        if route.verb !in allowed {
          allowed := allowed + [route.verb];
        }
        if route.verb == Get && Head !in allowed {
          allowed := allowed + [Head];
        }
      }
      assert routes[..|routes|] == routes;
    }
  }

  lemma KnownMore<H>(routes: seq<Route<H>>, pieces: seq<string>, i: nat)
    requires i < |routes|
    ensures PathKnown(routes[..i + 1], pieces) <==> PathKnown(routes[..i], pieces) || Fits(routes[i].pattern, pieces)
  {
    hide Fits;
    var longer := routes[..i + 1];
    if PathKnown(routes[..i], pieces) {
      var k :| 0 <= k < i && Fits(routes[..i][k].pattern, pieces);
      assert longer[k] == routes[k];
    }
    assert longer[i] == routes[i];
    if PathKnown(longer, pieces) && !Fits(routes[i].pattern, pieces) {
      var k :| 0 <= k < |longer| && Fits(longer[k].pattern, pieces);
      assert routes[..i][k] == longer[k];
    }
  }

  // ----- Which route is chosen

  predicate EarliestOf<H>(routes: seq<Route<H>>, i: nat, verb: Method, pieces: seq<string>)
    requires i < |routes|
  {
    && routes[i].verb == verb && Fits(routes[i].pattern, pieces)
    && forall k :: 0 <= k < i ==> !(routes[k].verb == verb && Fits(routes[k].pattern, pieces))
  }

  /** A lookup gives the earliest fitting route of the method asked for, with its captures. It gives the earliest
      fitting GET instead only for HEAD, and only when no HEAD route fits, however late. Otherwise there is none to
      give, and all it tells is whether some route fits. */
  lemma LookupChoice<H>(routes: seq<Route<H>>, verb: Method, pieces: seq<string>)
    ensures forall i :: 0 <= i < |routes| && EarliestOf(routes, i, verb, pieces) ==>
              Lookup(routes, verb, pieces) == Match(Some(routes[i].handler), true, Captures(routes[i].pattern, pieces))
    ensures (forall k :: 0 <= k < |routes| && routes[k].verb == verb ==> !Fits(routes[k].pattern, pieces)) ==>
              && (verb == Head ==>
                    forall i :: 0 <= i < |routes| && EarliestOf(routes, i, Get, pieces) ==>
                      Lookup(routes, verb, pieces)
                      == Match(Some(routes[i].handler), true, Captures(routes[i].pattern, pieces)))
              && (verb != Head || (forall k :: 0 <= k < |routes| && routes[k].verb == Get ==>
                                                !Fits(routes[k].pattern, pieces)) ==>
                    Lookup(routes, verb, pieces)
                    == Match(None, exists k :: 0 <= k < |routes| && Fits(routes[k].pattern, pieces), []))
  {
    hide Fits, Captures;
    var own, get := FirstRoute(routes, verb, pieces), FirstRoute(routes, Get, pieces);
    assert forall i :: 0 <= i < |routes| && EarliestOf(routes, i, verb, pieces) ==> i == own;
    assert forall i :: 0 <= i < |routes| && EarliestOf(routes, i, Get, pieces) ==> i == get;
  }

  /** A query has no say in it. */
  lemma QueryIgnored(path: string, query: string)
    requires '?' !in path
    ensures RoutablePieces(path + "?" + query) == Split(Normalize(path), '/') == RoutablePieces(path)
  {
    var target := path + "?" + query;
    hide Split, Normalize;
    assert forall k :: 0 <= k < |path| ==> target[k] == path[k];
    assert target[|path|] == '?' && Find(target, '?', 0) == |path| && target[..|path|] == path;
    assert Find(path, '?', 0) == |path| && path[..|path|] == path;
  }

  // ----- `Lookup` and `Allowed` agree

  predicate Distinct(verbs: seq<Method>) { forall i, j :: 0 <= i < j < |verbs| ==> verbs[i] != verbs[j] }

  predicate Answered<H>(routes: seq<Route<H>>, verb: Method, pieces: seq<string>) {
    exists i :: 0 <= i < |routes| && Fits(routes[i].pattern, pieces)
                && (routes[i].verb == verb || (verb == Head && routes[i].verb == Get))
  }

  lemma AllowOneIs(allowed: seq<Method>, v: Method, verb: Method)
    requires Distinct(allowed)
    ensures verb in AllowOne(allowed, v) <==> verb in allowed || verb == v || (v == Get && verb == Head)
    ensures Distinct(AllowOne(allowed, v))
  {
  }

  lemma {:induction false} AllowedAnswered<H>(routes: seq<Route<H>>, pieces: seq<string>, verb: Method)
    ensures verb in Allowed(routes, pieces) <==> Answered(routes, verb, pieces)
    ensures Distinct(Allowed(routes, pieces))
    decreases |routes|
  {
    hide Fits;
    if routes == [] {
    } else {
      var n := |routes| - 1;
      AllowedAnswered(routes[..n], pieces, verb);
      AnsweredMore(routes, pieces, verb);
      AllowOneIs(Allowed(routes[..n], pieces), routes[n].verb, verb);
      hide Answered, AllowOne, Distinct;
    }
  }

  lemma AnsweredMore<H>(routes: seq<Route<H>>, pieces: seq<string>, verb: Method)
    requires routes != []
    ensures var n := |routes| - 1;
            Answered(routes, verb, pieces) <==>
              Answered(routes[..n], verb, pieces)
              || (Fits(routes[n].pattern, pieces)
                  && (routes[n].verb == verb || (verb == Head && routes[n].verb == Get)))
  {
    hide Fits;
    var before := routes[..|routes| - 1];
    if Answered(before, verb, pieces) {
      var k :| 0 <= k < |before| && Fits(before[k].pattern, pieces)
               && (before[k].verb == verb || (verb == Head && before[k].verb == Get));
      assert routes[k] == before[k];
    }
    if Answered(routes, verb, pieces) {
      var k :| 0 <= k < |routes| && Fits(routes[k].pattern, pieces)
               && (routes[k].verb == verb || (verb == Head && routes[k].verb == Get));
      assert k < |before| ==> routes[k] == before[k];
    }
  }

  /** A lookup finds a handler exactly for the methods listed, the list has no repeats, and the path counts as matched
      exactly when the list is not empty. */
  lemma {:induction false} LookupAgrees<H>(routes: seq<Route<H>>, verb: Method, pieces: seq<string>)
    ensures Lookup(routes, verb, pieces).handler.Some? <==> verb in Allowed(routes, pieces)
    ensures Lookup(routes, verb, pieces).pathMatched <==> Allowed(routes, pieces) != []
    ensures Distinct(Allowed(routes, pieces))
  {
    AllowedAnswered(routes, pieces, verb);
    var own, get := FirstRoute(routes, verb, pieces), FirstRoute(routes, Get, pieces);
    hide Fits, Captures;
    assert Answered(routes, verb, pieces) <==> own < |routes| || (verb == Head && get < |routes|);
    if PathKnown(routes, pieces) {
      var i :| 0 <= i < |routes| && Fits(routes[i].pattern, pieces);
      AllowedAnswered(routes, pieces, routes[i].verb);
    }
    if Allowed(routes, pieces) != [] {
      AllowedAnswered(routes, pieces, Allowed(routes, pieces)[0]);
    }
  }

  /** The first route that makes a method allowed: one of its own, or a GET where the method is HEAD. */
  function Introduced<H>(routes: seq<Route<H>>, verb: Method, pieces: seq<string>): (i: nat)
    ensures i <= |routes|
  {
    if routes == [] then 0
    else if Fits(routes[0].pattern, pieces) && (routes[0].verb == verb || (verb == Head && routes[0].verb == Get)) then 0
    else 1 + Introduced(routes[1..], verb, pieces)
  }

  lemma {:induction false} IntroducedMore<H>(routes: seq<Route<H>>, route: Route<H>, verb: Method, pieces: seq<string>)
    ensures Answered(routes, verb, pieces) ==>
              Introduced(routes + [route], verb, pieces) == Introduced(routes, verb, pieces) < |routes|
    ensures !Answered(routes, verb, pieces) && Answered(routes + [route], verb, pieces) ==>
              Introduced(routes + [route], verb, pieces) == |routes|
    decreases |routes|
  {
    hide Fits;
    var all := routes + [route];
    if routes == [] {
      assert all == [route] && [route][1..] == [];
    } else {
      assert all[1..] == routes[1..] + [route];
      IntroducedMore(routes[1..], route, verb, pieces);
      AnsweredFirst(routes, verb, pieces);
      AnsweredFirst(all, verb, pieces);
    }
  }

  lemma AnsweredFirst<H>(routes: seq<Route<H>>, verb: Method, pieces: seq<string>)
    requires routes != []
    ensures Answered(routes, verb, pieces) <==>
              (Fits(routes[0].pattern, pieces) && (routes[0].verb == verb || (verb == Head && routes[0].verb == Get)))
              || Answered(routes[1..], verb, pieces)
  {
    hide Fits;
    var rest := routes[1..];
    if Answered(rest, verb, pieces) {
      var k :| 0 <= k < |rest| && Fits(rest[k].pattern, pieces)
               && (rest[k].verb == verb || (verb == Head && rest[k].verb == Get));
      assert routes[k + 1] == rest[k];
    }
    if Answered(routes, verb, pieces) {
      var k :| 0 <= k < |routes| && Fits(routes[k].pattern, pieces)
               && (routes[k].verb == verb || (verb == Head && routes[k].verb == Get));
      assert k > 0 ==> rest[k - 1] == routes[k];
    }
  }

  /** Earlier in the list means introduced by an earlier route, or by the same GET with HEAD beside it. */
  predicate Before<H>(routes: seq<Route<H>>, pieces: seq<string>, a: Method, b: Method) {
    Introduced(routes, a, pieces) < Introduced(routes, b, pieces)
    || (a == Get && b == Head && Introduced(routes, a, pieces) == Introduced(routes, b, pieces))
  }

  predicate InRegistrationOrder<H>(routes: seq<Route<H>>, pieces: seq<string>, verbs: seq<Method>) {
    forall i, j :: 0 <= i < j < |verbs| ==> Before(routes, pieces, verbs[i], verbs[j])
  }

  /** The list reads as registration order. */
  lemma {:induction false} AllowedInOrder<H>(routes: seq<Route<H>>, pieces: seq<string>)
    ensures InRegistrationOrder(routes, pieces, Allowed(routes, pieces))
    decreases |routes|
  {
    if routes == [] {
    } else {
      var n := |routes| - 1;
      var before, route := routes[..n], routes[n];
      var all := Allowed(routes, pieces);
      assert routes == before + [route];
      AllowedInOrder(before, pieces);
      AllowedGrows(routes, pieces);
      forall i, j | 0 <= i < j < |all| ensures Before(routes, pieces, all[i], all[j]) {
        if j < |Allowed(before, pieces)| {
          assert Before(before, pieces, all[i], all[j]);
          BeforeKept(before, route, pieces, all[i], all[j]);
        } else {
          BeforeAdded(before, route, pieces, i, j);
        }
      }
    }
  }

  lemma {:induction false} AllowedGrows<H>(routes: seq<Route<H>>, pieces: seq<string>)
    requires routes != []
    ensures Allowed(routes[..|routes| - 1], pieces) <= Allowed(routes, pieces)
  {
    hide Fits;
  }

  lemma {:induction false} BeforeKept<H>(routes: seq<Route<H>>, route: Route<H>, pieces: seq<string>,
                                         a: Method, b: Method)
    requires a in Allowed(routes, pieces) && b in Allowed(routes, pieces) && Before(routes, pieces, a, b)
    ensures Before(routes + [route], pieces, a, b)
  {
    AllowedAnswered(routes, pieces, a);
    AllowedAnswered(routes, pieces, b);
    hide Fits, Answered, Introduced, Allowed;
    IntroducedMore(routes, route, a, pieces);
    IntroducedMore(routes, route, b, pieces);
  }

  lemma {:induction false} AllowedOneMore<H>(routes: seq<Route<H>>, route: Route<H>, pieces: seq<string>)
    ensures Allowed(routes + [route], pieces) ==
            if Fits(route.pattern, pieces) then AllowOne(Allowed(routes, pieces), route.verb)
            else Allowed(routes, pieces)
  {
    hide Fits, AllowOne;
    assert (routes + [route])[..|routes|] == routes;
  }

  /** A method already listed keeps its place and the route that introduced it. */
  lemma {:induction false} OldMethod<H>(routes: seq<Route<H>>, route: Route<H>, pieces: seq<string>, k: nat)
    requires k < |Allowed(routes, pieces)|
    ensures var all := Allowed(routes + [route], pieces);
            k < |all| && Introduced(routes + [route], all[k], pieces) < |routes|
  {
    AllowedOneMore(routes, route, pieces);
    var verb := Allowed(routes, pieces)[k];
    AllowedAnswered(routes, pieces, verb);
    hide Fits, Answered, Introduced, Allowed, Distinct;
    IntroducedMore(routes, route, verb, pieces);
  }

  /** A method the last route added is introduced by it. */
  lemma {:induction false} NewMethod<H>(routes: seq<Route<H>>, route: Route<H>, pieces: seq<string>, k: nat)
    requires |Allowed(routes, pieces)| <= k < |Allowed(routes + [route], pieces)|
    ensures Introduced(routes + [route], Allowed(routes + [route], pieces)[k], pieces) == |routes|
  {
    var before, all := Allowed(routes, pieces), Allowed(routes + [route], pieces);
    AllowedOneMore(routes, route, pieces);
    AllowedAnswered(routes, pieces, all[k]);
    AllowedAnswered(routes + [route], pieces, all[k]);
    assert all[k] !in before by { NotYet(before, all, k); }
    hide Fits, Answered, Introduced, Allowed, Distinct;
    IntroducedMore(routes, route, all[k], pieces);
  }

  lemma NotYet(before: seq<Method>, all: seq<Method>, k: nat)
    requires before <= all && |before| <= k < |all| && Distinct(all)
    ensures all[k] !in before
  {
    forall i | 0 <= i < |before| ensures before[i] != all[k] {
      assert before[i] == all[i];
    }
  }

  /** One route adds at most two methods, and two only as GET with HEAD behind it. */
  lemma {:induction false} AddedTogether<H>(routes: seq<Route<H>>, route: Route<H>, pieces: seq<string>, i: nat, j: nat)
    requires var all := Allowed(routes + [route], pieces); |Allowed(routes, pieces)| <= i < j < |all|
    ensures var all := Allowed(routes + [route], pieces); all[i] == Get && all[j] == Head
  {
    AllowedOneMore(routes, route, pieces);
    hide Fits, Allowed;
  }

  lemma {:induction false} BeforeAdded<H>(routes: seq<Route<H>>, route: Route<H>, pieces: seq<string>, i: nat, j: nat)
    requires var all := Allowed(routes + [route], pieces); i < j < |all| && |Allowed(routes, pieces)| <= j
    ensures var all := Allowed(routes + [route], pieces); Before(routes + [route], pieces, all[i], all[j])
  {
    hide Fits, Introduced, Allowed;
    NewMethod(routes, route, pieces, j);
    if i < |Allowed(routes, pieces)| {
      OldMethod(routes, route, pieces, i);
    } else {
      NewMethod(routes, route, pieces, i);
      AddedTogether(routes, route, pieces, i, j);
    }
  }
}
