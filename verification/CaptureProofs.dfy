/** What a capture can hold (promised at src/server/router.hpp:52-55). */
module CaptureProofs {
  import opened Text
  import opened Ascii
  import opened RequestParser
  import opened Escapes
  import opened DotSegments
  import opened Paths
  import opened Routing

  function DecodeEach(pieces: seq<string>): (r: seq<string>)
    ensures |r| == |pieces| && forall i :: 0 <= i < |r| ==> r[i] == Decode(pieces[i])
  {
    if pieces == [] then [] else [Decode(pieces[0])] + DecodeEach(pieces[1..])
  }

  lemma {:induction false} DecodeJoin(pieces: seq<string>)
    requires pieces != [] && forall i :: 0 <= i < |pieces| ==> ValidEscapes(pieces[i])
    ensures Decode(Join(pieces, '/')) == Join(DecodeEach(pieces), '/')
    decreases |pieces|
  {
    var rest := pieces[1..];
    var decoded := DecodeEach(rest);
    assert DecodeEach(pieces) == [Decode(pieces[0])] + decoded;
    hide Decode, ValidEscapes;
    if rest == [] {
    } else {
      DecodeJoin(rest);
      DecodeBeforeSlash(pieces[0], Join(rest, '/'));
      assert Join(pieces, '/') == pieces[0] + ['/'] + Join(rest, '/');
      assert ([Decode(pieces[0])] + decoded)[1..] == decoded;
    }
  }

  lemma {:induction false} DecodeBeforeSlash(head: string, tail: string)
    requires ValidEscapes(head)
    ensures Decode(head + ['/'] + tail) == Decode(head) + ['/'] + Decode(tail)
  {
    hide Decode, ValidEscapes;
    assert head + ['/'] + tail == head + ("/" + tail);
    ResolveAfter(head, "/" + tail);
    UnitResolves("/", tail);
  }

  lemma {:induction false} CountJoin(pieces: seq<string>)
    requires pieces != []
    ensures Count(Join(pieces, '/'), '/') >= |pieces| - 1
    ensures Count(Join(pieces, '/'), '/') == |pieces| - 1 <==> Free(pieces, '/')
    decreases |pieces|
  {
    CountAbsent(pieces[0], '/');
    if |pieces| <= 1 {
    } else {
      var rest := pieces[1..];
      CountJoin(rest);
      CountAppend(pieces[0], "/" + Join(rest, '/'), '/');
      CountAppend("/", Join(rest, '/'), '/');
      assert "/"[1..] == "" && Count("/", '/') == 1;
      assert pieces[0] + ['/'] + Join(rest, '/') == pieces[0] + ("/" + Join(rest, '/'));
      assert pieces == [pieces[0]] + rest;
    }
  }

  /** A rest keeps its separators exactly when no piece of it decodes to text with a '/' in it. */
  lemma {:induction false} SeparatorsKept(pieces: seq<string>)
    requires pieces != [] && Free(pieces, '/') && forall i :: 0 <= i < |pieces| ==> ValidEscapes(pieces[i])
    ensures KeepsSeparators(Join(pieces, '/')) <==> Free(DecodeEach(pieces), '/')
  {
    DecodeJoin(pieces);
    CountJoin(pieces);
    CountJoin(DecodeEach(pieces));
  }

  /** Nothing clean decodes to unreserved text but that text itself. */
  lemma {:induction false} PlainWhenUnreserved(s: string)
    requires Clean(s) && forall i :: 0 <= i < |Decode(s)| ==> IsUnreserved(Decode(s)[i])
    ensures Decode(s) == s
    decreases |s|
  {
    if s == "" {
    } else {
      var unit, rest := FirstUnit(s);
      UnitResolves(unit, rest);
      CleanTail(s, unit, rest);
      assert Decode(s)[0] == Meant(unit);
      assert forall i :: 0 <= i < |Decode(rest)| ==> Decode(rest)[i] == Decode(s)[i + 1];
      PlainWhenUnreserved(rest);
    }
  }

  lemma {:induction false} CleanTail(s: string, unit: string, rest: string)
    requires Clean(s) && IsUnit(unit) && s == unit + rest && ValidEscapes(rest)
    ensures Clean(rest) && (|unit| == 3 ==> !IsUnreserved(Meant(unit)))
  {
    UnitBefore(unit, rest);
    if |unit| == 3 {
      NormalUnitShape(unit);
      assert NormalUnit(s) == unit;
    }
  }

  lemma {:induction false} PieceNotDots(piece: string)
    requires Clean(piece) && !IsDots(piece)
    ensures !IsDots(Decode(piece))
  {
    if IsDots(Decode(piece)) {
      PlainWhenUnreserved(piece);
      assert false;
    }
  }

  lemma {:induction false} DecodeNonEmpty(piece: string)
    requires piece != ""
    ensures Decode(piece) != ""
  {
  }

  /** The pieces a well-escaped target is routed by: clean, free of separators, none of them a dot segment. */
  lemma {:induction false} RoutablePiecesClean(target: string)
    requires ValidEscapes(target)
    ensures AllClean(RoutablePieces(target)) && Ordinary(RoutablePieces(target)) && Free(RoutablePieces(target), '/')
  {
    var cut := Find(target, '?', 0);
    if cut < |target| {
      CutValid(target, cut);
    } else {
      assert target[..cut] == target;
    }
    NormalizeIdempotent(PathOf(target));
    CleanSplit(Normalize(PathOf(target)));
    SplitPieces(Normalize(PathOf(target)), '/');
  }

  /** What decoding makes of the pieces of a rest that keeps its separators. */
  lemma {:induction false} RestDecoded(pieces: seq<string>)
    requires pieces != [] && AllClean(pieces) && Ordinary(pieces) && Free(pieces, '/')
    requires pieces[0] != "" && KeepsSeparators(Join(pieces, '/'))
    ensures var rest := Decode(Join(pieces, '/'));
            && rest != "" && rest[0] != '/'
            && Ordinary(Split(rest, '/')) && Split(rest, '/') == DecodeEach(pieces)
  {
    hide Decode, Split, ValidEscapes, Canonical, Join, KeepsSeparators;
    DecodeJoin(pieces);
    SeparatorsKept(pieces);
    SplitJoin(DecodeEach(pieces), '/');
    DecodedOrdinary(pieces);
    DecodeNonEmpty(pieces[0]);
    StartsWithFirst(DecodeEach(pieces));
  }

  lemma RestBound(pattern: seq<Segment>, pieces: seq<string>)
    requires EndsInRest(pattern) && Fits(pattern, pieces)
    ensures |pattern| <= |pieces| && pieces[|pattern| - 1] != ""
    ensures KeepsSeparators(Join(pieces[|pattern| - 1..], '/'))
    ensures var bound := Captures(pattern, pieces);
            bound != [] && bound[|bound| - 1].value == Decode(Join(pieces[|pattern| - 1..], '/'))
  {
    hide Decode, Join, KeepsSeparators;
  }

  lemma LaterPieces(pieces: seq<string>, k: nat)
    requires k <= |pieces| && AllClean(pieces) && Ordinary(pieces) && Free(pieces, '/')
    ensures AllClean(pieces[k..]) && Ordinary(pieces[k..]) && Free(pieces[k..], '/')
  {
    hide Clean, IsDots;
    assert forall i :: 0 <= i < |pieces| - k ==> pieces[k..][i] == pieces[k + i];
  }

  /** Whatever a rest binds, for any well-escaped target: it is not empty, does not begin with '/', has no "." or ".."
      segment after decoding, and is separated exactly where the normalised path is. */
  lemma {:induction false} RestGuarantee(target: string, pattern: seq<Segment>)
    requires ValidEscapes(target)
    requires EndsInRest(pattern) && Fits(pattern, RoutablePieces(target))
    ensures var pieces := RoutablePieces(target);
            var bound := Captures(pattern, pieces);
            && bound != []
            && var rest := bound[|bound| - 1].value;
            && rest != "" && rest[0] != '/'
            && Ordinary(Split(rest, '/'))
            && Split(rest, '/') == DecodeEach(pieces[|pattern| - 1..])
  {
    hide Decode, Split, ValidEscapes, RoutablePieces, Fits, Captures, Join, KeepsSeparators, AllClean, Ordinary, Free;
    var pieces := RoutablePieces(target);
    RoutablePiecesClean(target);
    RestBound(pattern, pieces);
    LaterPieces(pieces, |pattern| - 1);
    RestDecoded(pieces[|pattern| - 1..]);
  }

  lemma {:induction false} DecodedOrdinary(pieces: seq<string>)
    requires AllClean(pieces) && Ordinary(pieces)
    ensures Ordinary(DecodeEach(pieces))
  {
    hide Decode, Clean, IsDots;
    forall i | 0 <= i < |pieces| ensures !IsDots(DecodeEach(pieces)[i]) {
      PieceNotDots(pieces[i]);
    }
  }

  lemma {:induction false} StartsWithFirst(pieces: seq<string>)
    requires pieces != [] && pieces[0] != "" && '/' !in pieces[0]
    ensures Join(pieces, '/') != "" && Join(pieces, '/')[0] != '/'
  {
    assert Join(pieces, '/')[0] == pieces[0][0];
  }

  /** A number binds the digits themselves. */
  lemma {:induction false} NumberBindsDigits(piece: string)
    requires AllDecimal(piece)
    ensures Decode(piece) == piece
    decreases |piece|
  {
    if piece == "" {
    } else {
      NumberBindsDigits(piece[1..]);
    }
  }

  /** A pattern with no brackets matches exactly the targets whose normalised path is its own. */
  lemma StaticRouteExact(path: string, target: string)
    requires '<' !in Normalize(path)
    ensures Fits(CompileEach(Split(Normalize(path), '/')), RoutablePieces(target))
            <==> Normalize(PathOf(target)) == Normalize(path)
  {
    var normal := Normalize(path);
    var own, pieces := Split(normal, '/'), RoutablePieces(target);
    SplitPieces(normal, '/');
    SplitPieces(Normalize(PathOf(target)), '/');
    SplitMembers(normal);
    hide Normalize, Split, Join;
    var pattern := CompileEach(own);
    forall i | 0 <= i < |own| ensures pattern[i] == Segment(own[i], Literal) {
      assert own[i] != "" ==> own[i][0] in own[i];
    }
    if Fits(pattern, pieces) {
      assert forall i :: 0 <= i < |own| ==> own[i] == pieces[i];
      assert own == pieces;
    }
  }

  /** Pieces are made of the text's own characters. */
  lemma {:induction false} SplitMembers(s: string)
    ensures forall i, c :: 0 <= i < |Split(s, '/')| && c in Split(s, '/')[i] ==> c in s
    decreases |s|
  {
    var end := Find(s, '/', 0);
    if end == |s| {
    } else {
      var tail := s[end + 1..];
      SplitMembers(tail);
      forall i, c | 0 <= i < |Split(s, '/')| && c in Split(s, '/')[i] ensures c in s {
        if i > 0 {
          assert Split(s, '/')[i] == Split(tail, '/')[i - 1];
          assert c in tail;
        }
      }
    }
  }
}
