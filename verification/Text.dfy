/** Byte strings, searching and splitting.

    A byte is a `char` and a buffer a `string`. Only values below 256 come off a socket; nothing here
    depends on that, so every statement holds for a larger alphabet than the program's. */
module Text {
  datatype Option<+T> = None | Some(value: T)

  predicate CrlfAt(s: string, i: int) {
    0 <= i && i + 1 < |s| && s[i] == '\r' && s[i + 1] == '\n'
  }

  /** The first CRLF at or after `from`, or the length of the text when there is none. */
  function FindCrlf(s: string, from: nat): (i: nat)
    requires from <= |s|
    ensures from <= i <= |s|
    ensures i == |s| || CrlfAt(s, i)
    ensures forall k :: from <= k < i ==> !CrlfAt(s, k)
    decreases |s| - from
  {
    if from == |s| || CrlfAt(s, from) then from else FindCrlf(s, from + 1)
  }

  predicate NoCr(s: string) { forall k :: 0 <= k < |s| ==> s[k] != '\r' }

  lemma NoCrAppend(a: string, b: string)
    requires NoCr(a) && NoCr(b)
    ensures NoCr(a + b)
  {
  }

  /** The first `c` at or after `from`, or the length of the text when there is none. */
  function Find(s: string, c: char, from: nat): (i: nat)
    requires from <= |s|
    ensures from <= i <= |s|
    ensures i < |s| ==> s[i] == c
    ensures forall k :: from <= k < i ==> s[k] != c
    decreases |s| - from
  {
    if from == |s| || s[from] == c then from else Find(s, c, from + 1)
  }

  /** The pieces between separators: one more of them than there are separators. */
  function Split(s: string, sep: char): (pieces: seq<string>)
    ensures |pieces| >= 1
    decreases |s|
  {
    var end := Find(s, sep, 0);
    if end == |s| then [s] else [s[..end]] + Split(s[end + 1..], sep)
  }

  function Join(pieces: seq<string>, sep: char): string
  {
    if |pieces| == 0 then ""
    else if |pieces| == 1 then pieces[0]
    else pieces[0] + [sep] + Join(pieces[1..], sep)
  }

  function Count(s: string, c: char): nat
  {
    if s == "" then 0 else (if s[0] == c then 1 else 0) + Count(s[1..], c)
  }

  function Flatten(parts: seq<string>): string
  {
    if parts == [] then "" else parts[0] + Flatten(parts[1..])
  }

  predicate Free(pieces: seq<string>, sep: char) { forall i :: 0 <= i < |pieces| ==> sep !in pieces[i] }

  lemma CutAt(s: string, from: nat, at: nat)
    requires from <= at < |s|
    ensures s[from..] == s[from..at] + [s[at]] + s[at + 1..]
  {
  }

  lemma {:induction false} JoinCons(piece: string, rest: seq<string>, sep: char)
    requires rest != []
    ensures Join([piece] + rest, sep) == piece + [sep] + Join(rest, sep)
  {
    assert ([piece] + rest)[1..] == rest;
  }

  /** Splitting loses nothing: the pieces hold no separator and join back to the text. */
  lemma {:induction false} SplitPieces(s: string, sep: char)
    ensures Free(Split(s, sep), sep)
    ensures Join(Split(s, sep), sep) == s
    decreases |s|
  {
    var end := Find(s, sep, 0);
    if end == |s| {
    } else {
      var rest := Split(s[end + 1..], sep);
      SplitPieces(s[end + 1..], sep);
      CutAt(s, 0, end);
      assert s[0..] == s && s[0..end] == s[..end];
      JoinCons(s[..end], rest, sep);
    }
  }

  lemma {:induction false} SplitWhole(s: string, sep: char)
    requires sep !in s
    ensures Split(s, sep) == [s]
  {
    assert Find(s, sep, 0) == |s|;
  }

  lemma {:induction false} SplitFirst(head: string, sep: char, tail: string)
    requires sep !in head
    ensures Split(head + [sep] + tail, sep) == [head] + Split(tail, sep)
  {
    var s := head + [sep] + tail;
    assert forall k :: 0 <= k < |head| ==> s[k] == head[k];
    assert s[|head|] == sep;
    assert Find(s, sep, 0) == |head|;
    assert s[..|head|] == head && s[|head| + 1..] == tail;
  }

  /** The pieces from a position on: the one up to the next separator, and those after it. */
  lemma {:induction false} SplitFrom(s: string, sep: char, from: nat)
    requires from <= |s|
    ensures var end := Find(s, sep, from);
            Split(s[from..], sep) == [s[from..end]] + (if end == |s| then [] else Split(s[end + 1..], sep))
  {
    hide Split;
    var end := Find(s, sep, from);
    if end == |s| {
      assert s[from..end] == s[from..];
      SplitWhole(s[from..], sep);
      assert [s[from..]] + [] == [s[from..]];
    } else {
      CutAt(s, from, end);
      SplitFirst(s[from..end], sep, s[end + 1..]);
    }
  }

  /** Splitting undoes joining, so a text and its pieces carry the same information. */
  lemma {:induction false} SplitJoin(pieces: seq<string>, sep: char)
    requires |pieces| >= 1
    requires Free(pieces, sep)
    ensures Split(Join(pieces, sep), sep) == pieces
    decreases |pieces|
  {
    if |pieces| == 1 {
      SplitWhole(pieces[0], sep);
    } else {
      SplitJoin(pieces[1..], sep);
      SplitFirst(pieces[0], sep, Join(pieces[1..], sep));
      assert pieces == [pieces[0]] + pieces[1..];
    }
  }

  /** Two texts put together around a separator have the pieces of both. */
  lemma {:induction false} SplitAppend(a: string, sep: char, b: string)
    ensures Split(a + [sep] + b, sep) == Split(a, sep) + Split(b, sep)
    decreases |a|
  {
    var end := Find(a, sep, 0);
    if end == |a| {
      SplitWhole(a, sep);
      SplitFirst(a, sep, b);
    } else {
      var head, tail := a[..end], a[end + 1..];
      assert a == head + [sep] + tail;
      assert a + [sep] + b == head + [sep] + (tail + [sep] + b);
      SplitFirst(head, sep, tail);
      SplitFirst(head, sep, tail + [sep] + b);
      SplitAppend(tail, sep, b);
      assert [head] + (Split(tail, sep) + Split(b, sep)) == ([head] + Split(tail, sep)) + Split(b, sep);
    }
  }

  lemma {:induction false} CountAppend(a: string, b: string, c: char)
    ensures Count(a + b, c) == Count(a, c) + Count(b, c)
    decreases |a|
  {
    if a == "" {
      assert a + b == b;
    } else {
      assert (a + b)[1..] == a[1..] + b;
      CountAppend(a[1..], b, c);
    }
  }

  lemma {:induction false} CountAbsent(s: string, c: char)
    ensures Count(s, c) == 0 <==> c !in s
    decreases |s|
  {
    if s == "" {
    } else {
      CountAbsent(s[1..], c);
      assert s == [s[0]] + s[1..];
    }
  }

  /** There is one piece more than there are separators. */
  lemma {:induction false} SplitCount(s: string, sep: char)
    ensures |Split(s, sep)| == Count(s, sep) + 1
    decreases |s|
  {
    var end := Find(s, sep, 0);
    if end == |s| {
      CountAbsent(s, sep);
    } else {
      var head, tail := s[..end], s[end + 1..];
      assert s == head + ([sep] + tail);
      SplitCount(tail, sep);
      CountAbsent(head, sep);
      CountAppend(head, [sep] + tail, sep);
      assert ([sep] + tail)[1..] == tail;
    }
  }

  lemma {:induction false} FlattenAppend(a: seq<string>, b: seq<string>)
    ensures Flatten(a + b) == Flatten(a) + Flatten(b)
    decreases |a|
  {
    if a == [] {
      assert a + b == b;
    } else {
      assert (a + b)[1..] == a[1..] + b;
      FlattenAppend(a[1..], b);
    }
  }
}
