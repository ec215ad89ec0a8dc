/** The path as routing sees it (src/http/path.cpp:104-108, src/http/path.hpp). */
module Paths {
  import opened Text
  import opened Ascii
  import opened RequestParser
  import opened Escapes
  import opened DotSegments

  function Normalize(path: string): string { RemoveDots(Resolve(path)) }

  method NormalizePath(path: string) returns (r: string)
    ensures r == Normalize(path)
  {
    var resolved := ResolveEscapes(path);
    r := RemoveDotSegments(resolved);
  }

  // ----- Cutting a well-escaped text outside its escapes

  predicate OutsideEscapes(c: char) { c != '%' && !IsHex(c) }

  /** No escape spans a character that no escape can hold. */
  lemma {:induction false} CutValid(s: string, n: nat)
    requires ValidEscapes(s) && n < |s| && OutsideEscapes(s[n])
    ensures ValidEscapes(s[..n]) && ValidEscapes(s[n + 1..])
    decreases |s|
  {
    var unit, rest := FirstUnit(s);
    if n == 0 {
      assert s[..0] == "" && |unit| == 1;
      assert s[1..] == rest;
    } else {
      assert n >= |unit|;
      CutValid(rest, n - |unit|);
      assert s[..n] == unit + rest[..n - |unit|];
      assert s[n + 1..] == rest[n - |unit| + 1..];
      UnitResolves(unit, rest[..n - |unit|]);
    }
  }

  /** Well escaped, and every escape in its normal spelling. */
  predicate Clean(s: string) { ValidEscapes(s) && Canonical(s) }

  predicate AllClean(pieces: seq<string>) { forall i :: 0 <= i < |pieces| ==> Clean(pieces[i]) }

  lemma {:induction false} CleanAppend(a: string, b: string)
    requires ValidEscapes(a) && ValidEscapes(b)
    ensures Clean(a + b) <==> Clean(a) && Clean(b)
  {
    ResolveAfter(a, b);
    ResolveFixed(a);
    ResolveFixed(b);
    ResolveFixed(a + b);
    ResolveShrinks(a);
    ResolveShrinks(b);
    hide Resolve, Canonical, ValidEscapes;
    if Resolve(a + b) == a + b {
      assert |Resolve(a)| == |a|;
      assert (Resolve(a) + Resolve(b))[..|a|] == Resolve(a) && (a + b)[..|a|] == a;
      assert (Resolve(a) + Resolve(b))[|a|..] == Resolve(b) && (a + b)[|a|..] == b;
    }
  }

  lemma CleanSlash()
    ensures Clean("/") && Clean("") && OutsideEscapes('/')
  {
    assert "/"[1..] == "" && !StartsEscape("/");
  }

  lemma {:induction false} CleanAround(head: string, tail: string)
    requires ValidEscapes(head) && ValidEscapes(tail)
    ensures Clean(head + ['/'] + tail) <==> Clean(head) && Clean(tail)
  {
    CleanSlash();
    hide Canonical, ValidEscapes;
    ResolveAfter("/", tail);
    CleanAppend("/", tail);
    CleanAppend(head, "/" + tail);
    assert head + ['/'] + tail == head + ("/" + tail);
  }

  lemma {:induction false} CleanSplit(s: string)
    requires Clean(s)
    ensures AllClean(Split(s, '/'))
    decreases |s|
  {
    var end := Find(s, '/', 0);
    if end == |s| {
    } else {
      CutValid(s, end);
      hide Canonical, ValidEscapes;
      assert s == s[..end] + ['/'] + s[end + 1..];
      CleanAround(s[..end], s[end + 1..]);
      CleanSplit(s[end + 1..]);
    }
  }

  lemma {:induction false} CleanJoin(pieces: seq<string>)
    requires AllClean(pieces)
    ensures Clean(Join(pieces, '/'))
    decreases |pieces|
  {
    CleanSlash();
    if |pieces| <= 1 {
    } else {
      CleanJoin(pieces[1..]);
      CleanAround(pieces[0], Join(pieces[1..], '/'));
    }
  }

  lemma {:induction false} WalkClean(segments: seq<string>, w: Walked)
    requires AllClean(segments) && AllClean(w.kept)
    ensures AllClean(Closed(Walk(segments, w)))
    decreases |segments|
  {
    CleanSlash();
    hide Clean;
    if segments == [] {
    } else {
      WalkClean(segments[1..], WalkOne(w, segments[0]));
    }
  }

  lemma RemoveDotsClean(path: string)
    requires Clean(path)
    ensures Clean(RemoveDots(path))
  {
    CleanSlash();
    var body := if IsAbsolute(path) then path[1..] else path;
    if IsAbsolute(path) {
      CutValid(path, 0);
      assert path == "/" + body;
      CleanAppend("/", body);
    }
    CleanSplit(body);
    WalkClean(BodySegments(path), Walked([], false));
    CleanJoin(KeptSegments(path));
    if IsAbsolute(path) {
      CleanAppend("/", Join(KeptSegments(path), '/'));
    } else {
      assert "" + Join(KeptSegments(path), '/') == Join(KeptSegments(path), '/');
    }
  }

  /** On well-escaped paths normalisation is idempotent, and what it yields is clean and free of dot segments. */
  lemma {:induction false} NormalizeIdempotent(path: string)
    requires ValidEscapes(path)
    ensures Normalize(Normalize(path)) == Normalize(path)
    ensures Clean(Normalize(path)) && Ordinary(Split(Normalize(path), '/'))
  {
    ResolveValid(path);
    RemoveDotsClean(Resolve(path));
    ResolveFixed(Normalize(path));
    NoDotsSurvive(Resolve(path));
    RemoveDotsFixed(Normalize(path));
  }

  /** Equivalent spellings are routed alike. */
  lemma {:induction false} NormalizeRespects(a: string, b: string)
    requires ValidEscapes(a) && ValidEscapes(b) && Equivalent(a, b)
    ensures Normalize(a) == Normalize(b)
  {
    ResolveDecidesEquivalence(a, b);
  }

  // ----- The paths normalisation leaves alone, malformed ones included

  function Width(segments: seq<string>): nat
  {
    if segments == [] then 0 else |segments[0]| + 1 + Width(segments[1..])
  }

  lemma {:induction false} WidthMore(segments: seq<string>, last: string)
    ensures Width(segments + [last]) == Width(segments) + |last| + 1
    decreases |segments|
  {
    if segments == [] {
      assert segments + [last] == [last] && [last][1..] == [];
    } else {
      assert (segments + [last])[1..] == segments[1..] + [last];
      WidthMore(segments[1..], last);
    }
  }

  lemma {:induction false} JoinWidth(segments: seq<string>)
    requires segments != []
    ensures |Join(segments, '/')| + 1 == Width(segments)
    decreases |segments|
  {
    if |segments| > 1 {
      JoinWidth(segments[1..]);
    } else {
      assert segments[1..] == [];
    }
  }

  lemma {:induction false} PopWidth(kept: seq<string>)
    ensures Width(Pop(kept)) <= Width(kept)
  {
    if kept != [] {
      assert kept == kept[..|kept| - 1] + [kept[|kept| - 1]];
      WidthMore(kept[..|kept| - 1], kept[|kept| - 1]);
    }
  }

  lemma {:induction false} WalkWidth(segments: seq<string>, w: Walked)
    ensures Width(Closed(Walk(segments, w))) <= Width(Closed(w)) + Width(segments)
    ensures segments != [] && !Ordinary(segments) ==> Width(Closed(Walk(segments, w))) < Width(w.kept) + Width(segments)
    ensures segments != [] ==> Width(Closed(Walk(segments, w))) <= Width(w.kept) + Width(segments)
    decreases |segments|
  {
    if segments == [] {
    } else {
      var next := WalkOne(w, segments[0]);
      WalkWidth(segments[1..], next);
      PopWidth(w.kept);
      WidthMore(w.kept, segments[0]);
      WidthMore(w.kept, "");
      WidthMore(next.kept, "");
      WidthMore(Pop(w.kept), "");
      assert segments == [segments[0]] + segments[1..];
    }
  }

  /** Removing dot segments never lengthens a path, and shortens every path that has one. */
  lemma RemoveDotsShrinks(path: string)
    ensures |RemoveDots(path)| <= |path|
    ensures |RemoveDots(path)| == |path| ==> RemoveDots(path) == path
  {
    var segments, kept := BodySegments(path), KeptSegments(path);
    KeptShape(path);
    SegmentsOf(path);
    WalkWidth(segments, Walked([], false));
    JoinWidth(segments);
    JoinWidth(kept);
    hide Width, Join, Split, Walk;
    RemoveDotsFixed(path);
    if Ordinary(segments) {
      var root := if IsAbsolute(path) then [""] else [];
      assert Ordinary(root + segments);
    }
  }

  /** The texts normalisation leaves alone are exactly the canonical ones without dot segments. */
  lemma {:induction false} NormalizeFixed(path: string)
    ensures Normalize(path) == path <==> Canonical(path) && Ordinary(Split(path, '/'))
  {
    ResolveFixed(path);
    RemoveDotsFixed(path);
    ResolveShrinks(path);
    RemoveDotsShrinks(Resolve(path));
    hide Resolve, RemoveDots, Canonical;
    if Normalize(path) == path {
      assert Resolve(path) == path;
    }
  }

  // ----- Normalising twice, malformed paths included

  /** A separator is outside every escape, whatever stands before it. */
  lemma {:induction false} ResolveAround(head: string, tail: string)
    ensures Resolve(head + ['/'] + tail) == Resolve(head) + ['/'] + Resolve(tail)
    decreases |head|
  {
    var whole := head + ['/'] + tail;
    if head == "" {
      assert whole == ['/'] + tail && whole[1..] == tail;
      assert "" + ['/'] + Resolve(tail) == ['/'] + Resolve(tail);
    } else {
      var n := if StartsEscape(head) then 3 else 1;
      var rest := head[n..] + ['/'] + tail;
      assert StartsEscape(whole) == StartsEscape(head) && whole[n..] == rest;
      var unit := if StartsEscape(head) then NormalUnit(head) else [head[0]];
      ResolveAround(head[n..], tail);
      assert unit + (Resolve(head[n..]) + ['/'] + Resolve(tail)) == unit + Resolve(head[n..]) + ['/'] + Resolve(tail);
    }
  }

  lemma {:induction false} CanonicalAround(head: string, tail: string)
    ensures Canonical(head + ['/'] + tail) <==> Canonical(head) && Canonical(tail)
    decreases |head|
  {
    var whole := head + ['/'] + tail;
    if head == "" {
      assert whole == ['/'] + tail && whole[1..] == tail;
    } else {
      var n := if StartsEscape(head) then 3 else 1;
      assert StartsEscape(whole) == StartsEscape(head) && whole[n..] == head[n..] + ['/'] + tail;
      assert n == 3 ==> whole[..3] == head[..3];
      CanonicalAround(head[n..], tail);
    }
  }

  function ResolveEach(pieces: seq<string>): (r: seq<string>)
    ensures |r| == |pieces| && forall i :: 0 <= i < |r| ==> r[i] == Resolve(pieces[i])
  {
    if pieces == [] then [] else [Resolve(pieces[0])] + ResolveEach(pieces[1..])
  }

  lemma {:induction false} ResolveSlashes(s: string)
    ensures '/' in Resolve(s) <==> '/' in s
    decreases |s|
  {
    if s == "" {
    } else if StartsEscape(s) {
      ResolveSlashes(s[3..]);
      assert !IsUnreserved('/') && '/' !in NormalUnit(s);
      assert s == s[..3] + s[3..] && '/' !in s[..3];
    } else {
      ResolveSlashes(s[1..]);
      assert s == [s[0]] + s[1..];
    }
  }

  /** Resolving works on each piece of a path alone. */
  lemma {:induction false} ResolvePieces(s: string)
    ensures Split(Resolve(s), '/') == ResolveEach(Split(s, '/'))
    decreases |s|
  {
    var end := Find(s, '/', 0);
    if end == |s| {
      ResolveSlashes(s);
      SplitWhole(Resolve(s), '/');
      assert [s][1..] == [];
    } else {
      var head, tail := s[..end], s[end + 1..];
      CutAt(s, 0, end);
      ResolveAround(head, tail);
      ResolveSlashes(head);
      SplitFirst(Resolve(head), '/', Resolve(tail));
      ResolvePieces(tail);
      assert s == head + ['/'] + tail;
      assert ([head] + Split(tail, '/'))[1..] == Split(tail, '/');
    }
  }

  predicate AllCanonical(pieces: seq<string>) { forall i :: 0 <= i < |pieces| ==> Canonical(pieces[i]) }

  lemma {:induction false} CanonicalJoin(pieces: seq<string>)
    ensures Canonical(Join(pieces, '/')) <==> AllCanonical(pieces)
    decreases |pieces|
  {
    if |pieces| <= 1 {
    } else {
      CanonicalAround(pieces[0], Join(pieces[1..], '/'));
      CanonicalJoin(pieces[1..]);
      hide Canonical, Join;
      assert pieces == [pieces[0]] + pieces[1..];
    }
  }

  /** The segments of the path as written that are still there in the end, each judged by what it decodes to. */
  function Survivors(segments: seq<string>, kept: seq<string>): seq<string>
  {
    if segments == [] then kept
    else if Decode(segments[0]) == "." then Survivors(segments[1..], kept)
    else if Decode(segments[0]) == ".." then Survivors(segments[1..], Pop(kept))
    else Survivors(segments[1..], kept + [segments[0]])
  }

  lemma {:induction false} DotDecoded(s: string)
    ensures Resolve(s) == "." <==> Decode(s) == "."
  {
    NothingResolved(s);
    if s != "" {
      DotFirst(s);
      NothingResolved(AfterFirst(s));
      hide Resolve, Decode;
      DotThen(Resolve(AfterFirst(s)), "");
      DotThen(Decode(AfterFirst(s)), "");
      assert "." + "" == ".";
    }
  }

  lemma DotThen(a: string, b: string)
    ensures "." + a == "." + b <==> a == b
  {
    assert ("." + a)[1..] == a && ("." + b)[1..] == b;
  }

  /** A dot is unreserved, so a segment resolves to dots exactly when it decodes to them. */
  lemma {:induction false} DotsDecoded(segment: string)
    ensures Resolve(segment) == "." <==> Decode(segment) == "."
    ensures Resolve(segment) == ".." <==> Decode(segment) == ".."
  {
    DotDecoded(segment);
    NothingResolved(segment);
    if segment != "" {
      DotFirst(segment);
      DotDecoded(AfterFirst(segment));
      hide Resolve, Decode;
      DotThen(Resolve(AfterFirst(segment)), ".");
      DotThen(Decode(AfterFirst(segment)), ".");
      assert "." + "." == "..";
    }
  }

  lemma {:induction false} NothingResolved(s: string)
    ensures Resolve(s) == "" <==> s == ""
    ensures Decode(s) == "" <==> s == ""
  {
  }

  lemma {:induction false} DotFirst(s: string)
    requires s != ""
    ensures Decode(s) == [FirstMeant(s)] + Decode(AfterFirst(s)) && Decode(s)[0] == FirstMeant(s)
    ensures FirstMeant(s) == '.' ==> Decode(s) == "." + Decode(AfterFirst(s))
    ensures FirstMeant(s) == '.' ==> Resolve(s) == "." + Resolve(AfterFirst(s))
    ensures Resolve(s) != "" && (Resolve(s)[0] == '.' <==> FirstMeant(s) == '.')
  {
  }

  lemma {:induction false} WalkResolved(segments: seq<string>, kept: seq<string>, ended: bool)
    ensures Walk(ResolveEach(segments), Walked(ResolveEach(kept), ended)).kept == ResolveEach(Survivors(segments, kept))
    decreases |segments|
  {
    if segments == [] {
    } else {
      var first, rest := segments[0], segments[1..];
      DotsDecoded(first);
      hide Resolve, Decode;
      assert ResolveEach(segments)[1..] == ResolveEach(rest);
      assert ResolveEach(Pop(kept)) == Pop(ResolveEach(kept));
      assert ResolveEach(kept + [first]) == ResolveEach(kept) + [Resolve(first)];
      WalkResolved(rest, kept, true);
      WalkResolved(rest, Pop(kept), true);
      WalkResolved(rest, kept + [first], false);
    }
  }

  lemma {:induction false} BodyResolved(path: string)
    ensures IsAbsolute(Resolve(path)) == IsAbsolute(path)
    ensures BodySegments(Resolve(path)) == ResolveEach(BodySegments(path))
  {
    ResolvePieces(if IsAbsolute(path) then path[1..] else path);
    hide Split;
    if IsAbsolute(path) {
      assert ([path[0]] + Resolve(path[1..]))[1..] == Resolve(path[1..]);
    }
  }

  predicate AllStable(segments: seq<string>) { forall i :: 0 <= i < |segments| ==> Stable(segments[i]) }

  lemma {:induction false} StableEach(segments: seq<string>)
    ensures AllCanonical(ResolveEach(segments)) <==> AllStable(segments)
  {
    hide Canonical, Resolve, Stable;
    var resolved := ResolveEach(segments);
    forall i | 0 <= i < |segments| ensures Canonical(resolved[i]) == Stable(segments[i]) {
      ResolveTwice(segments[i]);
      ResolveFixed(Resolve(segments[i]));
    }
  }

  /** Closing a path with an empty piece changes nothing about its escapes. */
  lemma CanonicalClosed(w: Walked)
    ensures AllCanonical(Closed(w)) <==> AllCanonical(w.kept)
  {
    hide Canonical;
    CleanSlash();
    assert forall i :: 0 <= i < |w.kept| ==> Closed(w)[i] == w.kept[i];
  }

  /** The first result is canonical exactly when what survives of the path is stable. */
  lemma CanonicalResult(path: string)
    ensures Canonical(Normalize(path)) <==> AllStable(Survivors(BodySegments(path), []))
  {
    hide Canonical, Resolve, Stable, Survivors, BodySegments, Walk, Join;
    var segments := BodySegments(path);
    var walked := Walk(ResolveEach(segments), Walked([], false));
    BodyResolved(path);
    assert ResolveEach([]) == [];
    WalkResolved(segments, [], false);
    StableEach(Survivors(segments, []));
    CanonicalClosed(walked);
    CanonicalJoin(Closed(walked));
    CanonicalRoot(Join(Closed(walked), '/'));
    assert Normalize(path) == (if IsAbsolute(path) then "/" else "") + Join(Closed(walked), '/');
  }

  lemma {:induction false} CanonicalRoot(rest: string)
    ensures Canonical("/" + rest) <==> Canonical(rest)
    ensures Canonical("" + rest) <==> Canonical(rest)
  {
    CleanSlash();
    CanonicalAround("", rest);
    assert "" + ['/'] + rest == "/" + rest && "" + rest == rest;
  }

  /** On any text at all, normalising twice is normalising once exactly when no segment that survives has a bare '%'
      completed by what follows it. */
  lemma NormalizeTwice(path: string)
    ensures Normalize(Normalize(path)) == Normalize(path) <==> AllStable(Survivors(BodySegments(path), []))
  {
    NoDotsSurvive(Resolve(path));
    NormalizeFixed(Normalize(path));
    CanonicalResult(path);
  }

  /** A malformed path where it fails. Its own first pass gives another escape. */
  lemma NormalizeTwiceWitness()
    ensures Normalize("%%341") == "%41" && Normalize(Normalize("%%341")) == "A"
  {
    ResolveTwiceWitness();
    assert Resolve("%41") == "A";
    hide Resolve;
    PlainPath("%41");
    PlainPath("A");
  }

  lemma PlainPath(path: string)
    requires '/' !in path && !IsDots(path)
    ensures RemoveDots(path) == path
  {
    SplitWhole(path, '/');
    RemoveDotsFixed(path);
  }
}
