/** The "remove dot segments" algorithm of section 5.2.4 of RFC 3986, stated over its two buffers, and where the
    program's stack walk agrees with it. */
module Rfc3986 {
  import opened Text
  import opened DotSegments

  /** The output buffer without its last segment and the "/" before it, if any. */
  function Parent(output: string): string
  {
    if output == "" then ""
    else if output[|output| - 1] == '/' then output[..|output| - 1]
    else Parent(output[..|output| - 1])
  }

  /** Steps 2A to 2E, in their order. */
  function Rfc(input: string, output: string): string
    decreases |input|
  {
    if input == "" then output
    else if "../" <= input then Rfc(input[3..], output)
    else if "./" <= input then Rfc(input[2..], output)
    else if "/./" <= input then Rfc(input[2..], output)
    else if input == "/." then Rfc("/", output)
    else if "/../" <= input then Rfc(input[3..], Parent(output))
    else if input == "/.." then Rfc("/", Parent(output))
    else if input == "." || input == ".." then Rfc("", output)
    else
      var n := Find(input, '/', 1);
      Rfc(input[n..], output + input[..n])
  }

  function Slashed(segments: seq<string>): string
  {
    if segments == [] then "" else "/" + segments[0] + Slashed(segments[1..])
  }

  lemma {:induction false} ParentOfSegment(x: string, segment: string)
    requires '/' !in segment
    ensures Parent(x + "/" + segment) == x
    decreases |segment|
  {
    var s := x + "/" + segment;
    if segment == "" {
      assert s[..|s| - 1] == x;
    } else {
      assert s[|s| - 1] == segment[|segment| - 1];
      assert s[..|s| - 1] == x + "/" + segment[..|segment| - 1];
      ParentOfSegment(x, segment[..|segment| - 1]);
    }
  }

  lemma {:induction false} ParentOfPlain(segment: string)
    requires '/' !in segment
    ensures Parent(segment) == ""
    decreases |segment|
  {
    if segment == "" {
    } else {
      ParentOfPlain(segment[..|segment| - 1]);
    }
  }

  lemma {:induction false} SlashedMore(segments: seq<string>, last: string)
    ensures Slashed(segments + [last]) == Slashed(segments) + ("/" + last)
    decreases |segments|
  {
    if segments == [] {
      assert [last][1..] == [];
      assert Slashed([last]) == "/" + last + "";
      assert segments + [last] == [last];
    } else {
      assert (segments + [last])[1..] == segments[1..] + [last];
      SlashedMore(segments[1..], last);
      assert "/" + segments[0] + (Slashed(segments[1..]) + ("/" + last))
             == "/" + segments[0] + Slashed(segments[1..]) + ("/" + last);
    }
  }

  lemma {:induction false} JoinSlashed(segments: seq<string>)
    requires segments != []
    ensures Join(segments, '/') == segments[0] + Slashed(segments[1..])
    ensures "/" + Join(segments, '/') == Slashed(segments)
    decreases |segments|
  {
    var rest := segments[1..];
    if rest == [] {
      assert segments[0] + "" == segments[0];
    } else {
      JoinSlashed(rest);
      assert Join(segments, '/') == segments[0] + ['/'] + Join(rest, '/');
      assert segments[0] + ['/'] + Join(rest, '/') == segments[0] + ("/" + Join(rest, '/'));
    }
    assert "/" + (segments[0] + Slashed(rest)) == "/" + segments[0] + Slashed(rest);
  }

  /** What is left of the input once a segment has been taken: nothing, or text that starts with a slash. */
  predicate IsTail(tail: string) { tail == "" || tail[0] == '/' }

  lemma {:induction false} SlashedIsTail(segments: seq<string>)
    ensures IsTail(Slashed(segments)) && (Slashed(segments) == "" <==> segments == [])
  {
    if segments != [] {
      assert Slashed(segments)[0] == '/';
    }
  }

  /** One round of the algorithm on an input that starts with a slash. */
  lemma {:induction false} RfcRound(segment: string, tail: string, output: string)
    requires '/' !in segment && IsTail(tail)
    ensures var input := "/" + segment + tail;
            Rfc(input, output) ==
              if segment == "." then Rfc(if tail == "" then "/" else tail, output)
              else if segment == ".." then Rfc(if tail == "" then "/" else tail, Parent(output))
              else Rfc(tail, output + ("/" + segment))
  {
    var input := "/" + segment + tail;
    SegmentBounds(segment, tail);
    assert input[0] == '/' && "../"[0] == '.' && "./"[0] == '.' && "."[0] == '.' && ".."[0] == '.';
    assert !("../" <= input) && !("./" <= input) && input != "." && input != "..";
    if segment == "." {
      assert tail == "" ==> input == "/.";
      assert tail != "" ==> "/./" <= input && input[2..] == tail;
    } else if segment == ".." {
      assert tail == "" ==> input == "/..";
      assert tail != "" ==> "/../" <= input && input[3..] == tail;
    }
  }

  lemma SegmentBounds(segment: string, tail: string)
    requires '/' !in segment && IsTail(tail)
    ensures var input := "/" + segment + tail;
            && Find(input, '/', 1) == 1 + |segment|
            && input[1 + |segment|..] == tail && input[..1 + |segment|] == "/" + segment
            && ("/./" <= input <==> segment == "." && tail != "")
            && ("/../" <= input <==> segment == ".." && tail != "")
            && (input == "/." <==> segment == "." && tail == "")
            && (input == "/.." <==> segment == ".." && tail == "")
  {
    var input := "/" + segment + tail;
    assert forall i :: 0 <= i < |segment| ==> input[1 + i] == segment[i] && input[1 + i] != '/';
    assert tail != "" ==> input[1 + |segment|] == '/';
    assert Find(input, '/', 1) == 1 + |segment|;
    if "/./" <= input {
      assert input[1] == "/./"[1] && input[2] == "/./"[2];
    }
    if "/../" <= input {
      assert input[1] == "/../"[1] && input[2] == "/../"[2] && input[3] == "/../"[3];
      assert |segment| == 2;
    }
  }

  // ----- Absolute paths

  /** The algorithm's output buffer is the program's stack, written out. */
  lemma {:induction false} RfcWalk(segments: seq<string>, kept: seq<string>, dots: bool)
    requires segments != [] && Free(segments, '/') && Free(kept, '/')
    ensures Rfc(Slashed(segments), Slashed(kept)) == Slashed(Closed(Walk(segments, Walked(kept, dots))))
    decreases |segments|
  {
    var segment, rest := segments[0], segments[1..];
    var tail := Slashed(rest);
    var next := WalkOne(Walked(kept, dots), segment);
    SlashedIsTail(rest);
    hide Rfc, Parent;
    RfcRound(segment, tail, Slashed(kept));
    ParentOfSlashed(kept);
    SlashedMore(kept, segment);
    assert Slashed(segments) == "/" + segment + tail;
    hide Slashed;
    if rest != [] {
      RfcWalk(rest, next.kept, next.endedOnDots);
    } else if IsDots(segment) {
      LastSlash(next.kept);
    } else {
      RfcDone(Slashed(next.kept));
    }
  }

  lemma {:induction false} RfcDone(output: string)
    ensures Rfc("", output) == output
  {
  }

  lemma {:induction false} ParentOfSlashed(kept: seq<string>)
    requires Free(kept, '/')
    ensures Parent(Slashed(kept)) == Slashed(Pop(kept))
  {
    if kept != [] {
      var under, last := kept[..|kept| - 1], kept[|kept| - 1];
      assert kept == under + [last];
      SlashedMore(under, last);
      assert Slashed(under) + ("/" + last) == Slashed(under) + "/" + last;
      ParentOfSegment(Slashed(under), last);
    }
  }

  /** A final "/" in the input moves to the output as an empty segment. */
  lemma {:induction false} LastSlash(kept: seq<string>)
    ensures Rfc("/", Slashed(kept)) == Slashed(kept + [""])
  {
    RfcRound("", "", Slashed(kept));
    assert "/" + "" + "" == "/";
    SlashedMore(kept, "");
    RfcDone(Slashed(kept + [""]));
  }

  // ----- Relative paths

  /** Walking on from a stack of `depth` segments above the first one, the first one is never popped. */
  predicate FirstStays(segments: seq<string>, depth: nat) {
    segments == []
    || (segments[0] == "." && FirstStays(segments[1..], depth))
    || (segments[0] == ".." && depth > 0 && FirstStays(segments[1..], depth - 1))
    || (!IsDots(segments[0]) && FirstStays(segments[1..], depth + 1))
  }

  /** The same of a whole path, whose leading dot segments have nothing to pop. */
  predicate StaysInside(segments: seq<string>) {
    segments == []
    || (IsDots(segments[0]) && StaysInside(segments[1..]))
    || (!IsDots(segments[0]) && FirstStays(segments[1..], 0))
  }

  /** While the first segment stays the buffers agree; once it is popped the algorithm's output starts with a slash
      the program's does not have. */
  lemma {:induction false} RfcRelative(segments: seq<string>, first: string, kept: seq<string>, dots: bool)
    requires Free(segments, '/') && Free(kept, '/') && '/' !in first
    requires segments == [] ==> !dots
    ensures var out := Closed(Walk(segments, Walked([first] + kept, dots)));
            Rfc(Slashed(segments), first + Slashed(kept)) ==
              if FirstStays(segments, |kept|) then Join(out, '/') else Slashed(out)
    decreases |segments|
  {
    hide Rfc, Parent;
    if segments == [] {
      RfcDone(first + Slashed(kept));
      JoinSlashed([first] + kept);
      assert ([first] + kept)[1..] == kept;
    } else {
      var segment, rest := segments[0], segments[1..];
      SlashedIsTail(rest);
      RfcRound(segment, Slashed(rest), first + Slashed(kept));
      if segment == ".." && kept == [] {
        ParentOfPlain(first);
        FirstAlone(first);
        FirstPopped(rest);
      } else {
        RelativeRound(segment, first, kept);
        hide Slashed, Join;
        var next := if IsDots(segment) then (if segment == "." then kept else Pop(kept)) else kept + [segment];
        if IsDots(segment) && rest == [] {
          RelativeLast(first, next);
        } else {
          RfcRelative(rest, first, next, IsDots(segment));
        }
      }
    }
  }

  lemma FirstAlone(first: string)
    ensures first + Slashed([]) == first && Pop([first] + []) == []
  {
  }

  lemma {:induction false} FirstPopped(rest: seq<string>)
    requires Free(rest, '/')
    ensures Rfc(if rest == [] then "/" else Slashed(rest), "") == Slashed(Closed(Walk(rest, Walked([], true))))
  {
    hide Rfc;
    assert Slashed([]) == "";
    if rest == [] {
      LastSlash([]);
    } else {
      RfcWalk(rest, [], true);
    }
  }

  /** What a round does to the two forms of the stack, short of popping the first segment. */
  lemma {:induction false} RelativeRound(segment: string, first: string, kept: seq<string>)
    requires Free(kept, '/') && '/' !in first && !(segment == ".." && kept == [])
    ensures segment == ".." ==>
              Parent(first + Slashed(kept)) == first + Slashed(Pop(kept)) && Pop([first] + kept) == [first] + Pop(kept)
    ensures first + Slashed(kept) + ("/" + segment) == first + Slashed(kept + [segment])
    ensures [first] + kept + [segment] == [first] + (kept + [segment])
  {
    SlashedMore(kept, segment);
    if segment == ".." {
      var under, last := kept[..|kept| - 1], kept[|kept| - 1];
      assert kept == under + [last];
      SlashedMore(under, last);
      assert first + Slashed(kept) == (first + Slashed(under)) + "/" + last;
      ParentOfSegment(first + Slashed(under), last);
    }
  }

  lemma {:induction false} RelativeLast(first: string, kept: seq<string>)
    ensures Rfc("/", first + Slashed(kept)) == Join([first] + kept + [""], '/')
  {
    var output := first + Slashed(kept);
    JoinEnded(first, kept);
    hide Rfc, Join, Slashed;
    RfcRound("", "", output);
    assert "/" + "" + "" == "/" && "/" + "" == "/";
    RfcDone(output + "/");
  }

  lemma {:induction false} JoinEnded(first: string, kept: seq<string>)
    ensures Join([first] + kept + [""], '/') == first + Slashed(kept) + "/"
  {
    SlashedMore(kept, "");
    var all := [first] + kept + [""];
    JoinSlashed(all);
    hide Join, Slashed;
    assert all[1..] == kept + [""] && all[0] == first;
    assert first + Slashed(kept) + "/" == first + (Slashed(kept) + "/");
  }

  /** Steps 2A and 2D: a leading dot segment goes. */
  lemma {:induction false} LeadingDots(segment: string, tail: string)
    requires IsDots(segment) && IsTail(tail)
    ensures Rfc(segment + tail, "") == if tail == "" then "" else Rfc(tail[1..], "")
  {
    var input := segment + tail;
    if tail == "" {
      assert input == segment;
    } else if segment == "." {
      assert "./" <= input && input[2..] == tail[1..];
      assert input[0] == '.' && input[1] == '/' && "../"[1] == '.';
    } else {
      assert "../" <= input && input[3..] == tail[1..];
    }
  }

  /** Step 2E on the first ordinary segment of a relative path. */
  lemma {:induction false} FirstSegment(first: string, tail: string)
    requires !IsDots(first) && '/' !in first && IsTail(tail)
    ensures Rfc(first + tail, "") == Rfc(tail, first)
  {
    var input := first + tail;
    if first == "" {
      assert input == tail;
    } else {
      assert forall i :: 0 <= i < |first| ==> input[i] == first[i] && input[i] != '/';
      assert Find(input, '/', 1) == |first|;
      assert input[..|first|] == first && input[|first|..] == tail && "" + first == first;
      assert input[0] != '/';
      assert "./"[0] == '.' && "./"[1] == '/' && "../"[0] == '.' && "../"[1] == '.' && "../"[2] == '/';
      assert !("./" <= input) && !("../" <= input);
    }
  }

  lemma {:induction false} RfcLeading(segments: seq<string>, dots: bool)
    requires segments != [] && Free(segments, '/')
    ensures var out := Closed(Walk(segments, Walked([], dots)));
            Rfc(Join(segments, '/'), "") == if StaysInside(segments) then Join(out, '/') else Slashed(out)
    decreases |segments|
  {
    var first, rest := segments[0], segments[1..];
    SlashedIsTail(rest);
    JoinSlashed(segments);
    hide Rfc;
    if IsDots(first) {
      LeadingDots(first, Slashed(rest));
      if rest != [] {
        JoinSlashed(rest);
        assert Slashed(rest)[1..] == Join(rest, '/');
        RfcLeading(rest, true);
      }
    } else {
      FirstSegment(first, Slashed(rest));
      assert first + Slashed([]) == first && [first] + [] == [first] && [] + [first] == [first];
      RfcRelative(rest, first, [], false);
    }
  }

  /** The program's walk is the algorithm of section 5.2.4 on every absolute path, and on a relative path exactly when
      its first ordinary segment is never popped. */
  lemma {:induction false} RemoveDotsIsRfc(path: string)
    ensures RemoveDots(path) == Rfc(path, "") <==> IsAbsolute(path) || StaysInside(Split(path, '/'))
  {
    KeptShape(path);
    SegmentsOf(path);
    var segments, kept := BodySegments(path), KeptSegments(path);
    JoinSlashed(segments);
    JoinSlashed(kept);
    hide Rfc, Join, Split, Walk;
    if IsAbsolute(path) {
      RfcWalk(segments, [], false);
      assert Slashed([]) == "";
    } else {
      assert [] + segments == segments;
      assert "" + Join(segments, '/') == Join(segments, '/');
      assert "" + Join(kept, '/') == Join(kept, '/');
      RfcLeading(segments, false);
      assert |Slashed(kept)| == 1 + |Join(kept, '/')|;
    }
  }

  /** A relative path where the two differ: the algorithm leaves a slash that was never there. */
  lemma RelativeWitness()
    ensures RemoveDots("a/..") == "" && Rfc("a/..", "") == "/"
  {
    var segments := ["a", ".."];
    assert segments[1..] == [".."] && [".."][1..] == [];
    assert Join(segments, '/') == "a/..";
    SplitJoin(segments, '/');
    JoinSlashed(segments);
    RfcLeading(segments, false);
    assert Walk(segments, Walked([], false)) == Walked([], true);
    assert [""][1..] == [];
    assert Slashed([""]) == "/" + "" + "";
  }
}
