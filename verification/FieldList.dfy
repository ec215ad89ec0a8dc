/** Comma-separated field values (src/http/field_list.hpp; section 5.6.1 of RFC 9110). */
module FieldList {
  import opened Text
  import opened Ascii

  function TrimFront(s: string): string
  {
    if s != "" && IsOws(s[0]) then TrimFront(s[1..]) else s
  }

  function TrimBack(s: string): string
  {
    if s != "" && IsOws(s[|s| - 1]) then TrimBack(s[..|s| - 1]) else s
  }

  /** The text without the optional whitespace around it. */
  function Trim(s: string): string
  {
    TrimBack(TrimFront(s))
  }

  predicate AllOws(s: string) { forall i :: 0 <= i < |s| ==> IsOws(s[i]) }

  predicate Trimmed(s: string) { s != "" ==> !IsOws(s[0]) && !IsOws(s[|s| - 1]) }

  lemma {:induction false} TrimFrontPadded(before: string, s: string)
    requires AllOws(before) && (s == "" || !IsOws(s[0]))
    ensures TrimFront(before + s) == s
    decreases |before|
  {
    if before == "" {
      assert before + s == s;
    } else {
      assert (before + s)[1..] == before[1..] + s;
      TrimFrontPadded(before[1..], s);
    }
  }

  lemma {:induction false} TrimBackPadded(s: string, after: string)
    requires AllOws(after) && (s == "" || !IsOws(s[|s| - 1]))
    ensures TrimBack(s + after) == s
    decreases |after|
  {
    if after == "" {
      assert s + after == s;
    } else {
      assert (s + after)[..|s + after| - 1] == s + after[..|after| - 1];
      TrimBackPadded(s, after[..|after| - 1]);
    }
  }

  /** Trimming recovers a trimmed text from any padding around it. */
  lemma TrimPadded(before: string, s: string, after: string)
    requires AllOws(before) && AllOws(after) && Trimmed(s)
    ensures Trim(before + s + after) == s
  {
    if s == "" {
      assert before + s + after == (before + after) + "";
      TrimFrontPadded(before + after, "");
    } else {
      assert before + s + after == before + (s + after);
      TrimFrontPadded(before, s + after);
      TrimBackPadded(s, after);
    }
  }

  lemma {:induction false} TrimFrontParts(s: string) returns (before: string)
    ensures AllOws(before) && s == before + TrimFront(s)
    ensures TrimFront(s) != "" ==> !IsOws(TrimFront(s)[0])
    decreases |s|
  {
    before := "";
    if s == "" || !IsOws(s[0]) {
    } else {
      before := TrimFrontParts(s[1..]);
      before := [s[0]] + before;
    }
  }

  lemma {:induction false} TrimBackParts(s: string) returns (after: string)
    ensures AllOws(after) && s == TrimBack(s) + after
    ensures TrimBack(s) != "" ==> !IsOws(TrimBack(s)[|TrimBack(s)| - 1])
    decreases |s|
  {
    after := "";
    if s == "" || !IsOws(s[|s| - 1]) {
    } else {
      after := TrimBackParts(s[..|s| - 1]);
      after := after + [s[|s| - 1]];
    }
  }

  /** A text is its trimmed core with whitespace around it. */
  lemma TrimParts(s: string) returns (before: string, after: string)
    ensures AllOws(before) && AllOws(after) && Trimmed(Trim(s))
    ensures s == before + Trim(s) + after
  {
    before := TrimFrontParts(s);
    after := TrimBackParts(TrimFront(s));
  }

  /** What is left of the pieces once each is trimmed and the empty ones dropped. */
  function TrimEach(pieces: seq<string>): seq<string>
  {
    if pieces == [] then []
    else
      var piece := Trim(pieces[0]);
      (if piece == "" then [] else [piece]) + TrimEach(pieces[1..])
  }

  /** The elements of a list: what stands between commas, trimmed, empty ones ignored. */
  function Elements(value: string): seq<string>
  {
    TrimEach(Split(value, ','))
  }

  /** The elements not yet walked past; `pos` is one past the end once the last one has been returned. */
  function ElementsFrom(value: string, pos: nat): seq<string>
  {
    if pos >= |value| then [] else Elements(value[pos..])
  }

  lemma {:induction false} TrimEachAppend(a: seq<string>, b: seq<string>)
    ensures TrimEach(a + b) == TrimEach(a) + TrimEach(b)
    decreases |a|
  {
    if a == [] {
      assert a + b == b;
    } else {
      assert (a + b)[1..] == a[1..] + b;
      TrimEachAppend(a[1..], b);
    }
  }

  /** Section 5.3 of RFC 9110: two values are one list once joined by a comma. */
  lemma ElementsAppend(a: string, b: string)
    ensures Elements(a + "," + b) == Elements(a) + Elements(b)
  {
    SplitAppend(a, ',', b);
    TrimEachAppend(Split(a, ','), Split(b, ','));
  }

  lemma ElementsOfPiece(piece: string)
    requires ',' !in piece
    ensures Elements(piece) == if Trim(piece) == "" then [] else [Trim(piece)]
  {
    SplitWhole(piece, ',');
    assert TrimEach([piece][1..]) == [];
  }

  /** One place in a list as a sender may spell it: a text, or nothing at all, and any whitespace around it. */
  datatype ElementSpelling = ElementSpelling(before: string, text: string, after: string)

  function SpelledOut(e: ElementSpelling): string { e.before + e.text + e.after }

  function ListOf(spelled: seq<ElementSpelling>): string
  {
    if |spelled| == 0 then ""
    else if |spelled| == 1 then SpelledOut(spelled[0])
    else SpelledOut(spelled[0]) + "," + ListOf(spelled[1..])
  }

  function TextsOf(spelled: seq<ElementSpelling>): seq<string>
  {
    if spelled == [] then []
    else (if spelled[0].text != "" then [spelled[0].text] else []) + TextsOf(spelled[1..])
  }

  predicate WellSpelled(e: ElementSpelling) {
    AllOws(e.before) && AllOws(e.after) && Trimmed(e.text) && ',' !in e.text
  }

  /** However a list is padded, and with any empty elements in it, what is read of it is its texts, in order. */
  lemma {:induction false} ListReadBack(spelled: seq<ElementSpelling>)
    requires forall i :: 0 <= i < |spelled| ==> WellSpelled(spelled[i])
    ensures Elements(ListOf(spelled)) == TextsOf(spelled)
    decreases |spelled|
  {
    hide Elements, Trim, Trimmed;
    if spelled == [] {
      ElementsOfPiece("");
      TrimPadded("", "", "") by { assert Trimmed("") by { TrimmedNothing(); } }
      assert "" + "" + "" == "";
    } else {
      var e := spelled[0];
      assert ',' !in SpelledOut(e);
      ElementsOfPiece(SpelledOut(e));
      TrimPadded(e.before, e.text, e.after);
      if |spelled| == 1 {
        assert TextsOf(spelled[1..]) == [];
      } else {
        ListReadBack(spelled[1..]);
        ElementsAppend(SpelledOut(e), ListOf(spelled[1..]));
      }
    }
  }

  lemma TrimmedNothing()
    ensures Trimmed("")
  {
  }

  /** What is left at `pos` is its first piece, unless empty, and what is left after it. */
  lemma {:induction false} ElementsFromPiece(value: string, pos: nat, end: nat)
    requires pos < |value| && end == Find(value, ',', pos)
    ensures Trim(value[pos..end]) == "" ==> ElementsFrom(value, pos) == ElementsFrom(value, end + 1)
    ensures Trim(value[pos..end]) != "" ==>
              ElementsFrom(value, pos) == [Trim(value[pos..end])] + ElementsFrom(value, end + 1)
  {
    var piece := value[pos..end];
    assert ',' !in piece;
    ElementsOfPiece(piece);
    if end == |value| {
      assert value[pos..] == piece;
    } else {
      ElementsAfterComma(value, pos, end);
    }
  }

  lemma ElementsAfterComma(value: string, pos: nat, end: nat)
    requires pos <= end < |value| && value[end] == ','
    ensures ElementsFrom(value, pos) == Elements(value[pos..end]) + ElementsFrom(value, end + 1)
  {
    var piece, rest := value[pos..end], value[end + 1..];
    assert value[pos..] == piece + "," + rest;
    ElementsAppend(piece, rest);
    if rest == "" {
      ElementsOfPiece(rest);
    }
  }

  /** Walking past one element of what is left. */
  lemma WalkPast(walked: seq<string>, rest: seq<string>, element: string, tail: seq<string>)
    requires rest == [element] + tail
    ensures rest[1..] == tail && walked + rest == (walked + [element]) + tail
  {
  }

  method TrimText(text: string) returns (r: string)
    ensures r == Trim(text)
  {
    var start := 0;
    while start < |text| && IsOws(text[start])
      invariant start <= |text|
      invariant TrimFront(text) == TrimFront(text[start..])
    {
      start := start + 1;
    }
    var end := |text|;
    assert text[start..end] == text[start..];
    while end > start && IsOws(text[end - 1])
      invariant start <= end <= |text|
      invariant TrimBack(text[start..]) == TrimBack(text[start..end])
    {
      assert text[start..end][..end - 1 - start] == text[start..end - 1];
      end := end - 1;
    }
    r := text[start..end];
  }

  /** One step of the walk: the next element, and a position from which the remaining ones are found. */
  method NextElement(value: string, pos: nat) returns (element: Option<string>, next: nat)
    ensures element == None ==> ElementsFrom(value, pos) == [] && next >= |value|
    ensures element.Some? ==> ElementsFrom(value, pos) == [element.value] + ElementsFrom(value, next)
    ensures element.Some? ==> pos < next
  {
    hide Elements, Trim;
    next := pos;
    while next < |value|
      invariant pos <= next
      invariant ElementsFrom(value, pos) == ElementsFrom(value, next)
      decreases |value| - next
    {
      var end := Find(value, ',', next);
      ElementsFromPiece(value, next, end);
      var piece := TrimText(value[next..end]);
      next := end + 1;
      if piece != "" {
        return Some(piece), next;
      }
    }
    return None, next;
  }
}
