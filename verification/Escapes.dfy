/** Percent-escapes: which spellings name the same path (src/http/path.cpp:14-49, src/server/router.cpp:38-58).

    `ResolveEscapes` and `PercentDecode` are the loops; `Resolve` and `Decode` say what they compute on any text,
    malformed escapes included. On well-escaped texts `Resolve` is the normal form of the equivalence of sections
    6.2.2.1 and 6.2.2.2 of RFC 3986. */
module Escapes {
  import opened Ascii
  import opened RequestParser

  predicate StartsEscape(s: string) { |s| >= 3 && s[0] == '%' && IsHex(s[1]) && IsHex(s[2]) }

  function EscapedByte(s: string): (c: char)
    requires StartsEscape(s)
  {
    (16 * HexValue(s[1]) + HexValue(s[2])) as char
  }

  /** The normal spelling of one escape: the character itself when unreserved, else uppercase digits. */
  function NormalUnit(s: string): string
    requires StartsEscape(s)
  {
    if IsUnreserved(EscapedByte(s)) then [EscapedByte(s)]
    else ['%', HexDigit(HexValue(s[1])), HexDigit(HexValue(s[2]))]
  }

  function Resolve(s: string): string
  {
    if s == "" then ""
    else if StartsEscape(s) then NormalUnit(s) + Resolve(s[3..])
    else [s[0]] + Resolve(s[1..])
  }

  function Decode(s: string): string
  {
    if s == "" then ""
    else if StartsEscape(s) then [EscapedByte(s)] + Decode(s[3..])
    else [s[0]] + Decode(s[1..])
  }

  /** The unit at `pos` and what is left after it, for both walks. */
  lemma UnitAt(s: string, pos: nat)
    requires pos < |s|
    ensures StartsEscape(s[pos..]) <==>
              s[pos] == '%' && pos + 2 < |s| && IsHex(s[pos + 1]) && IsHex(s[pos + 2])
    ensures StartsEscape(s[pos..]) ==>
              && EscapedByte(s[pos..]) == (16 * HexValue(s[pos + 1]) + HexValue(s[pos + 2])) as char
              && Resolve(s[pos..]) == NormalUnit(s[pos..]) + Resolve(s[pos + 3..])
              && Decode(s[pos..]) == [EscapedByte(s[pos..])] + Decode(s[pos + 3..])
    ensures !StartsEscape(s[pos..]) ==>
              && Resolve(s[pos..]) == [s[pos]] + Resolve(s[pos + 1..])
              && Decode(s[pos..]) == [s[pos]] + Decode(s[pos + 1..])
  {
    var rest := s[pos..];
    assert rest[1..] == s[pos + 1..];
    if |rest| >= 3 {
      assert rest[3..] == s[pos + 3..];
    }
  }

  method ResolveEscapes(path: string) returns (out: string)
    ensures out == Resolve(path)
  {
    hide Resolve, Decode;
    out := "";
    var pos := 0;
    assert path[0..] == path && "" + Resolve(path) == Resolve(path);
    while pos < |path|
      invariant pos <= |path|
      invariant Resolve(path) == out + Resolve(path[pos..])
    {
      UnitAt(path, pos);
      if path[pos] != '%' {
        assert out + ([path[pos]] + Resolve(path[pos + 1..])) == out + [path[pos]] + Resolve(path[pos + 1..]);
        out := out + [path[pos]];
        pos := pos + 1;
        continue;
      }
      var high := if pos + 2 < |path| then HexValue(path[pos + 1]) else -1;
      var low := if high < 0 then -1 else HexValue(path[pos + 2]);
      if low < 0 {
        assert out + ([path[pos]] + Resolve(path[pos + 1..])) == out + [path[pos]] + Resolve(path[pos + 1..]);
        out := out + [path[pos]];
        pos := pos + 1;
        continue;
      }
      var byte := (16 * high + low) as char;
      var unit := if IsUnreserved(byte) then [byte] else ['%', HexDigit(high), HexDigit(low)];
      assert unit == NormalUnit(path[pos..]);
      assert out + (unit + Resolve(path[pos + 3..])) == out + unit + Resolve(path[pos + 3..]);
      out := out + unit;
      pos := pos + 3;
    }
    NothingLeft(path);
    assert out + "" == out;
  }

  lemma NothingLeft(s: string)
    ensures Resolve(s[|s|..]) == "" && Decode(s[|s|..]) == ""
  {
  }

  method PercentDecode(text: string) returns (decoded: string)
    ensures decoded == Decode(text)
  {
    hide Resolve, Decode;
    decoded := "";
    var i := 0;
    assert text[0..] == text && "" + Decode(text) == Decode(text);
    while i < |text|
      invariant i <= |text|
      invariant Decode(text) == decoded + Decode(text[i..])
    {
      UnitAt(text, i);
      var high := if i + 2 < |text| then HexValue(text[i + 1]) else -1;
      var low := if high < 0 then -1 else HexValue(text[i + 2]);
      if text[i] != '%' || low < 0 {
        assert decoded + ([text[i]] + Decode(text[i + 1..])) == decoded + [text[i]] + Decode(text[i + 1..]);
        decoded := decoded + [text[i]];
        i := i + 1;
        continue;
      }
      var byte := (16 * high + low) as char;
      assert decoded + ([byte] + Decode(text[i + 3..])) == decoded + [byte] + Decode(text[i + 3..]);
      decoded := decoded + [byte];
      i := i + 3;
    }
    NothingLeft(text);
    assert decoded + "" == decoded;
  }

  /** Where there is no '%' there is nothing to decode. */
  lemma {:induction false} DecodePlain(s: string)
    requires '%' !in s
    ensures Decode(s) == s
    decreases |s|
  {
    if s == "" {
    } else {
      DecodePlain(s[1..]);
      assert s == [s[0]] + s[1..];
    }
  }

  // ----- Normal forms

  /** Each unit is its own normal form. A '%' that starts no escape is a unit by itself. */
  predicate Canonical(s: string) {
    s == ""
    || (StartsEscape(s) && NormalUnit(s) == s[..3] && Canonical(s[3..]))
    || (!StartsEscape(s) && Canonical(s[1..]))
  }

  lemma {:induction false} ResolveShrinks(s: string)
    ensures |Resolve(s)| <= |s|
    decreases |s|
  {
    if s == "" {
    } else if StartsEscape(s) {
      ResolveShrinks(s[3..]);
    } else {
      ResolveShrinks(s[1..]);
    }
  }

  /** The texts resolving leaves alone are exactly the canonical ones. */
  lemma {:induction false} ResolveFixed(s: string)
    ensures Resolve(s) == s <==> Canonical(s)
    decreases |s|
  {
    if s == "" {
    } else if StartsEscape(s) {
      var t := s[3..];
      ResolveFixed(t);
      ResolveShrinks(t);
      assert s == s[..3] + t;
      if Resolve(s) == s {
        assert |NormalUnit(s)| == 3;
        assert NormalUnit(s) == s[..3] by { assert (NormalUnit(s) + Resolve(t))[..3] == NormalUnit(s); }
        assert Resolve(t) == t by { assert (NormalUnit(s) + Resolve(t))[3..] == Resolve(t); }
      }
    } else {
      var t := s[1..];
      ResolveFixed(t);
      assert s == [s[0]] + t;
      assert ([s[0]] + Resolve(t))[1..] == Resolve(t);
    }
  }

  /** What resolving writes for a well-escaped text, one unit at a time. */
  lemma UnitsOf(s: string)
    requires ValidEscapes(s) && s != ""
    ensures s[0] == '%' <==> StartsEscape(s)
    ensures ValidEscapes(if s[0] == '%' then s[3..] else s[1..])
  {
  }

  lemma UnitBefore(unit: string, rest: string)
    requires (|unit| == 1 && unit[0] != '%') || (StartsEscape(unit) && |unit| == 3)
    ensures StartsEscape(unit + rest) <==> |unit| == 3
    ensures (unit + rest)[|unit|..] == rest && (unit + rest)[..|unit|] == unit
    ensures |unit| == 3 ==> NormalUnit(unit + rest) == NormalUnit(unit) && EscapedByte(unit + rest) == EscapedByte(unit)
  {
  }

  lemma NormalUnitShape(s: string)
    requires StartsEscape(s)
    ensures var unit := NormalUnit(s);
            if IsUnreserved(EscapedByte(s)) then unit == [EscapedByte(s)] && unit[0] != '%'
            else |unit| == 3 && StartsEscape(unit) && NormalUnit(unit) == unit && EscapedByte(unit) == EscapedByte(s)
  {
  }

  lemma {:induction false} ResolveValid(s: string)
    requires ValidEscapes(s)
    ensures ValidEscapes(Resolve(s)) && Canonical(Resolve(s)) && Decode(Resolve(s)) == Decode(s)
    decreases |s|
  {
    if s == "" {
    } else {
      UnitsOf(s);
      if StartsEscape(s) {
        ResolveValid(s[3..]);
        NormalUnitShape(s);
        UnitBefore(NormalUnit(s), Resolve(s[3..]));
      } else {
        ResolveValid(s[1..]);
        UnitBefore([s[0]], Resolve(s[1..]));
      }
    }
  }

  /** On well-escaped texts resolving is idempotent, lands on the canonical spelling, and does not change what the
      text decodes to. */
  lemma {:induction false} ResolveNormalises(s: string)
    requires ValidEscapes(s)
    ensures Resolve(Resolve(s)) == Resolve(s) && Decode(Resolve(s)) == Decode(s)
  {
    ResolveValid(s);
    ResolveFixed(Resolve(s));
  }

  /** What the first unit of a text stands for: an escape for its byte, anything else for itself. */
  function FirstMeant(s: string): char
    requires s != ""
  {
    if StartsEscape(s) then EscapedByte(s) else s[0]
  }

  function AfterFirst(s: string): string
    requires s != ""
  {
    if StartsEscape(s) then s[3..] else s[1..]
  }

  predicate LeadsWithHex(s: string) { s != "" && IsHex(FirstMeant(s)) }

  predicate IsUpperHex(c: char) { '0' <= c <= '9' || 'A' <= c <= 'F' }

  /** What may follow a bare '%': when the next two units both stand for hex digits, they are uppercase ones, and those
      of a byte that keeps its escape. */
  predicate Harmless(after: string) {
    LeadsWithHex(after) && LeadsWithHex(AfterFirst(after)) ==>
      var high, low := FirstMeant(after), FirstMeant(AfterFirst(after));
      && IsUpperHex(high) && IsUpperHex(low)
      && !IsUnreserved((16 * HexValue(high) + HexValue(low)) as char)
  }

  /** Every '%' of the text that starts no escape is followed by something harmless. */
  predicate Stable(s: string) {
    s == ""
    || (StartsEscape(s) && Stable(s[3..]))
    || (!StartsEscape(s) && Stable(s[1..]) && (s[0] == '%' ==> Harmless(s[1..])))
  }

  /** The first character resolving writes is a hex digit exactly when the first unit stands for one. */
  lemma {:induction false} FirstResolved(s: string)
    ensures Resolve(s) != "" && IsHex(Resolve(s)[0]) <==> LeadsWithHex(s)
    ensures LeadsWithHex(s) ==> Resolve(s) == [FirstMeant(s)] + Resolve(AfterFirst(s))
  {
    if s != "" && StartsEscape(s) {
      assert IsHex(EscapedByte(s)) ==> IsUnreserved(EscapedByte(s));
    }
  }

  lemma UpperDigit(c: char)
    requires IsHex(c)
    ensures HexDigit(HexValue(c)) == c <==> IsUpperHex(c)
  {
  }

  /** What a bare '%' comes to stand before is left alone by a second pass exactly when it is harmless. */
  lemma {:induction false} HarmlessIs(after: string)
    ensures var next := ['%'] + Resolve(after);
            (StartsEscape(next) ==> NormalUnit(next) == next[..3]) <==> Harmless(after)
  {
    var next := ['%'] + Resolve(after);
    FirstResolved(after);
    if LeadsWithHex(after) {
      var rest := AfterFirst(after);
      FirstResolved(rest);
      hide Resolve;
      if LeadsWithHex(rest) {
        var high, low := FirstMeant(after), FirstMeant(rest);
        assert next == ['%', high, low] + Resolve(AfterFirst(rest));
        UpperDigit(high);
        UpperDigit(low);
      }
    }
  }

  /** On every text, resolving twice is resolving once exactly when no bare '%' is completed by what follows it. */
  lemma {:induction false} ResolveTwice(s: string)
    ensures Resolve(Resolve(s)) == Resolve(s) <==> Stable(s)
    decreases |s|
  {
    if s == "" {
    } else if StartsEscape(s) {
      ResolveTwice(s[3..]);
      NormalUnitShape(s);
      PrefixResolves(NormalUnit(s), Resolve(s[3..]));
    } else {
      var rest := Resolve(s[1..]);
      ResolveTwice(s[1..]);
      if s[0] == '%' {
        BareResolves(rest);
        HarmlessIs(s[1..]);
      } else {
        PrefixResolves([s[0]], rest);
      }
      hide Harmless;
    }
  }

  lemma {:induction false} PrefixResolves(unit: string, rest: string)
    requires (|unit| == 1 && unit[0] != '%') || (StartsEscape(unit) && |unit| == 3 && NormalUnit(unit) == unit)
    ensures Resolve(unit + rest) == unit + Resolve(rest)
    ensures Resolve(unit + rest) == unit + rest <==> Resolve(rest) == rest
  {
    UnitBefore(unit, rest);
    assert (unit + Resolve(rest))[|unit|..] == Resolve(rest);
  }

  lemma {:induction false} BareResolves(rest: string)
    ensures var next := ['%'] + rest;
            Resolve(next) == next <==>
              Resolve(rest) == rest && (StartsEscape(next) ==> NormalUnit(next) == next[..3])
  {
    var next := ['%'] + rest;
    ResolveFixed(next);
    ResolveFixed(rest);
    assert next[1..] == rest;
    if StartsEscape(next) {
      assert next[3..] == rest[2..] && rest[1..][1..] == rest[2..];
      assert rest[0] == next[1] && rest[0] != '%';
      assert rest[1..][0] == next[2] && rest[1..][0] != '%';
      assert Canonical(rest) == Canonical(rest[1..]) == Canonical(rest[2..]);
    }
  }

  /** A malformed text where it fails: the two escapes come out as a third. */
  lemma ResolveTwiceWitness()
    ensures Resolve("%%341") == "%41" && Resolve(Resolve("%%341")) == "A"
  {
    var s := "%%341";
    assert !StartsEscape(s) && s[1..] == "%341";
    assert StartsEscape("%341") && "%341"[3..] == "1";
    assert Resolve("1") == ['1'] + Resolve("");
    assert NormalUnit("%341") == "4";
    assert Resolve("%341") == "41";
    var t := "%41";
    assert Resolve(s) == t;
    assert StartsEscape(t) && t[3..] == "" && NormalUnit(t) == "A";
  }

  /** No '%' that starts no escape is followed by two units that both stand for hex digits. */
  predicate Intact(s: string) {
    s == ""
    || (StartsEscape(s) && Intact(s[3..]))
    || (!StartsEscape(s) && Intact(s[1..])
        && (s[0] == '%' ==> !(LeadsWithHex(s[1..]) && LeadsWithHex(AfterFirst(s[1..])))))
  }

  /** On every text, decoding after resolving is decoding once exactly when no bare '%' is completed at all. */
  lemma {:induction false} DecodeResolved(s: string)
    ensures Decode(Resolve(s)) == Decode(s) <==> Intact(s)
    ensures |Decode(Resolve(s))| <= |Decode(s)|
    decreases |s|
  {
    if s == "" {
    } else if StartsEscape(s) {
      DecodeResolved(s[3..]);
      NormalUnitShape(s);
      UnitResolves(NormalUnit(s), Resolve(s[3..]));
      SameTail([EscapedByte(s)], Decode(Resolve(s[3..])), Decode(s[3..]));
    } else {
      var t := s[1..];
      DecodeResolved(t);
      SameTail([s[0]], Decode(Resolve(t)), Decode(t));
      if s[0] == '%' && LeadsWithHex(t) && LeadsWithHex(AfterFirst(t)) {
        DecodeResolved(AfterFirst(AfterFirst(t)));
        CompletedDecodes(t);
      } else {
        BareDecodes(s[0], t);
      }
    }
  }

  lemma SameTail(head: string, a: string, b: string)
    ensures head + a == head + b <==> a == b
  {
    assert (head + a)[|head|..] == a && (head + b)[|head|..] == b;
  }

  /** A bare '%' before two such units is lost on decoding what was resolved. */
  lemma {:induction false} CompletedDecodes(after: string)
    requires LeadsWithHex(after) && LeadsWithHex(AfterFirst(after))
    ensures |Decode(['%'] + Resolve(after))| == 1 + |Decode(Resolve(AfterFirst(AfterFirst(after))))|
    ensures |Decode(after)| == 2 + |Decode(AfterFirst(AfterFirst(after)))|
  {
    var rest := AfterFirst(after);
    var tail := Resolve(AfterFirst(rest));
    var next := ['%', FirstMeant(after), FirstMeant(rest)];
    FirstResolved(after);
    FirstResolved(rest);
    assert ['%'] + Resolve(after) == next + tail;
    UnitResolves(next, tail);
    DecodeFirst(after);
    DecodeFirst(rest);
  }

  lemma {:induction false} DecodeFirst(s: string)
    requires s != ""
    ensures Decode(s) == [FirstMeant(s)] + Decode(AfterFirst(s))
  {
  }

  lemma {:induction false} BareDecodes(c: char, after: string)
    requires c != '%' || !(LeadsWithHex(after) && LeadsWithHex(AfterFirst(after)))
    ensures Decode([c] + Resolve(after)) == [c] + Decode(Resolve(after))
  {
    var next := [c] + Resolve(after);
    assert next[1..] == Resolve(after);
    FirstResolved(after);
    if LeadsWithHex(after) {
      FirstResolved(AfterFirst(after));
    }
    hide Resolve;
  }

  // ----- What a normal spelling looks like

  /** Letters, digits and four marks: section 2.3 of RFC 3986. */
  predicate NeedsNoEscape(c: char) {
    'A' <= c <= 'Z' || 'a' <= c <= 'z' || '0' <= c <= '9' || c == '-' || c == '.' || c == '_' || c == '~'
  }

  /** An escape, with uppercase digits, of a byte that needs one. */
  predicate NormalEscapeAt(r: string, i: nat) {
    && i + 2 < |r| && IsUpperHex(r[i + 1]) && IsUpperHex(r[i + 2])
    && !NeedsNoEscape((16 * HexValue(r[i + 1]) + HexValue(r[i + 2])) as char)
  }

  predicate SpelledNormally(r: string) { forall i :: 0 <= i < |r| && r[i] == '%' ==> NormalEscapeAt(r, i) }

  /** The hex digits, counted off. */
  lemma HexTable(i: nat)
    requires i < 16
    ensures HexValue("0123456789ABCDEF"[i]) == i && HexValue("0123456789abcdef"[i]) == i
    ensures HexDigit(i) == "0123456789ABCDEF"[i]
  {
  }

  lemma SpelledMore(unit: string, rest: string)
    requires SpelledNormally(rest)
    requires (|unit| == 1 && unit[0] != '%')
             || (|unit| == 3 && unit[1] != '%' && unit[2] != '%' && NormalEscapeAt(unit, 0))
    ensures SpelledNormally(unit + rest)
  {
    hide IsUpperHex, NeedsNoEscape;
    var all := unit + rest;
    forall i | 0 <= i < |all| && all[i] == '%' ensures NormalEscapeAt(all, i) {
      if i >= |unit| {
        assert all[i] == rest[i - |unit|];
        assert NormalEscapeAt(rest, i - |unit|);
      }
    }
  }

  /** Resolving a well-escaped text spells it normally. */
  lemma {:induction false} ResolveSpells(s: string)
    requires ValidEscapes(s)
    ensures SpelledNormally(Resolve(s))
    decreases |s|
  {
    if s == "" {
    } else {
      UnitsOf(s);
      var rest := if StartsEscape(s) then s[3..] else s[1..];
      ResolveSpells(rest);
      hide SpelledNormally;
      if StartsEscape(s) {
        NormalUnitSpelled(s);
        SpelledMore(NormalUnit(s), Resolve(rest));
      } else {
        SpelledMore([s[0]], Resolve(rest));
      }
    }
  }

  lemma NormalUnitSpelled(s: string)
    requires StartsEscape(s)
    ensures var unit := NormalUnit(s);
            (|unit| == 1 && unit[0] != '%')
            || (|unit| == 3 && unit[1] != '%' && unit[2] != '%' && NormalEscapeAt(unit, 0))
  {
    UpperDigit(HexDigit(HexValue(s[1])));
    UpperDigit(HexDigit(HexValue(s[2])));
  }

  // ----- Which spellings are equivalent

  /** Two spellings of one unit: an escape and the same byte's escape in another case (section 6.2.2.1 of RFC 3986),
      or an escape and the unreserved character it stands for (section 6.2.2.2). */
  predicate SameUnit(e: string, f: string) {
    && StartsEscape(e) && |e| == 3
    && ((StartsEscape(f) && |f| == 3 && EscapedByte(f) == EscapedByte(e))
        || (f == [EscapedByte(e)] && IsUnreserved(EscapedByte(e))))
  }

  /** One unit of the first text, after whole units only, respelled in the second. */
  ghost predicate RespellsAt(a: string, b: string, before: string, e: string, f: string, after: string) {
    && ValidEscapes(before) && SameUnit(e, f)
    && a == before + (e + after) && b == before + (f + after)
  }

  ghost predicate Respells(a: string, b: string) {
    exists before, e, f, after :: RespellsAt(a, b, before, e, f, after)
  }

  ghost predicate Link(a: string, b: string) { Respells(a, b) || Respells(b, a) }

  ghost predicate IsChain(c: seq<string>) {
    |c| >= 1 && forall i :: 0 <= i < |c| - 1 ==> Link(c[i], c[i + 1])
  }

  ghost predicate IsChainFrom(c: seq<string>, a: string, b: string) {
    IsChain(c) && c[0] == a && c[|c| - 1] == b
  }

  /** The least equivalence that ignores how units are spelled. */
  ghost predicate Equivalent(a: string, b: string) { exists c :: IsChainFrom(c, a, b) }

  predicate IsUnit(unit: string) { (|unit| == 1 && unit[0] != '%') || (StartsEscape(unit) && |unit| == 3) }

  function Spelled(unit: string): string
    requires IsUnit(unit)
  {
    if |unit| == 3 then NormalUnit(unit) else unit
  }

  function Meant(unit: string): char
    requires IsUnit(unit)
  {
    if |unit| == 3 then EscapedByte(unit) else unit[0]
  }

  /** A whole unit is resolved and decoded on its own. */
  lemma {:induction false} UnitResolves(unit: string, rest: string)
    requires IsUnit(unit)
    ensures Resolve(unit + rest) == Spelled(unit) + Resolve(rest)
    ensures Decode(unit + rest) == [Meant(unit)] + Decode(rest)
    ensures ValidEscapes(unit + rest) == ValidEscapes(rest)
  {
    UnitBefore(unit, rest);
  }

  /** A well-escaped text is empty or starts with a whole unit. */
  lemma FirstUnit(s: string) returns (unit: string, rest: string)
    requires ValidEscapes(s) && s != ""
    ensures IsUnit(unit) && s == unit + rest && |rest| < |s| && ValidEscapes(rest)
  {
    UnitsOf(s);
    unit := if s[0] == '%' then s[..3] else s[..1];
    rest := s[|unit|..];
  }

  lemma EmptyText()
    ensures Resolve("") == "" && Decode("") == "" && ValidEscapes("")
  {
  }

  lemma {:induction false} ResolveAfter(before: string, s: string)
    requires ValidEscapes(before)
    ensures Resolve(before + s) == Resolve(before) + Resolve(s)
    ensures Decode(before + s) == Decode(before) + Decode(s)
    ensures ValidEscapes(before + s) == ValidEscapes(s)
    decreases |before|
  {
    hide Resolve, Decode, ValidEscapes, IsUnit;
    if before == "" {
      EmptyText();
      assert before + s == s;
    } else {
      var unit, rest := FirstUnit(before);
      ResolveAfter(rest, s);
      assert before + s == unit + (rest + s);
      UnitResolves(unit, rest);
      UnitResolves(unit, rest + s);
      assert Spelled(unit) + (Resolve(rest) + Resolve(s)) == Spelled(unit) + Resolve(rest) + Resolve(s);
      assert [Meant(unit)] + (Decode(rest) + Decode(s)) == [Meant(unit)] + Decode(rest) + Decode(s);
    }
  }

  lemma SameUnitSpelled(e: string, f: string)
    requires SameUnit(e, f)
    ensures IsUnit(e) && IsUnit(f) && Spelled(e) == Spelled(f)
  {
    NormalUnitShape(e);
    if StartsEscape(f) {
      assert HexValue(e[1]) == HexValue(f[1]) && HexValue(e[2]) == HexValue(f[2]);
    }
  }

  lemma {:induction false} RespellKeeps(a: string, b: string)
    requires Respells(a, b)
    ensures Resolve(a) == Resolve(b)
  {
    var before, e, f, after :| RespellsAt(a, b, before, e, f, after);
    SameUnitSpelled(e, f);
    hide Resolve, Decode, ValidEscapes, SameUnit, IsUnit, Spelled;
    ResolveAfter(before, e + after);
    ResolveAfter(before, f + after);
    UnitResolves(e, after);
    UnitResolves(f, after);
  }

  lemma {:induction false} ChainKeeps(c: seq<string>)
    requires IsChain(c)
    ensures Resolve(c[0]) == Resolve(c[|c| - 1])
    decreases |c|
  {
    if |c| <= 1 {
    } else {
      assert Link(c[0], c[1]);
      if Respells(c[0], c[1]) {
        RespellKeeps(c[0], c[1]);
      } else {
        RespellKeeps(c[1], c[0]);
      }
      var rest := c[1..];
      forall i | 0 <= i < |rest| - 1 ensures Link(rest[i], rest[i + 1]) {
        assert Link(c[i + 1], c[i + 2]);
      }
      ChainKeeps(rest);
    }
  }

  lemma ChainJoin(c: seq<string>, d: seq<string>, a: string, m: string, b: string)
    requires IsChainFrom(c, a, m) && IsChainFrom(d, m, b)
    ensures IsChainFrom(c + d[1..], a, b)
  {
    var e := c + d[1..];
    forall i | 0 <= i < |e| - 1 ensures Link(e[i], e[i + 1]) {
      if i < |c| - 1 {
        assert Link(c[i], c[i + 1]);
      } else {
        var j := i - (|c| - 1);
        assert e[i] == d[j] && e[i + 1] == d[j + 1];
        assert Link(d[j], d[j + 1]);
      }
    }
  }

  lemma ChainReverse(c: seq<string>, a: string, b: string) returns (d: seq<string>)
    requires IsChainFrom(c, a, b)
    ensures IsChainFrom(d, b, a)
  {
    var n := |c|;
    d := seq(n, i requires 0 <= i < n => c[n - 1 - i]);
    forall i | 0 <= i < n - 1 ensures Link(d[i], d[i + 1]) {
      assert Link(c[n - 2 - i], c[n - 2 - i + 1]);
    }
  }

  /** Resolving a text is a chain of respellings of one unit at a time. */
  lemma {:induction false} ChainToNormal(before: string, s: string) returns (c: seq<string>)
    requires ValidEscapes(before) && ValidEscapes(s)
    ensures IsChainFrom(c, before + s, before + Resolve(s))
    decreases |s|
  {
    if s == "" {
      c := [before + s];
    } else {
      var unit, rest := FirstUnit(s);
      SpelledAfter(before, unit);
      c := ChainToNormal(before + Spelled(unit), rest);
      c := ChainUnit(before, unit, rest, c);
    }
  }

  /** A chain that starts after a unit has been respelled, begun one link earlier. */
  lemma ChainUnit(before: string, unit: string, rest: string, d: seq<string>) returns (c: seq<string>)
    requires ValidEscapes(before) && IsUnit(unit)
    requires IsChainFrom(d, before + Spelled(unit) + rest, before + Spelled(unit) + Resolve(rest))
    ensures IsChainFrom(c, before + (unit + rest), before + Resolve(unit + rest))
  {
    var spelled := Spelled(unit);
    UnitResolves(unit, rest);
    var last := before + Resolve(unit + rest);
    hide Resolve, ValidEscapes, IsChainFrom;
    assert before + spelled + Resolve(rest) == last;
    assert before + spelled + rest == before + (spelled + rest);
    c := d;
    if |unit| == 3 {
      var first := RespellLink(before, unit, rest);
      ChainJoin(first, d, before + (unit + rest), before + (spelled + rest), last);
      c := first + d[1..];
    }
  }

  lemma RespellLink(before: string, unit: string, rest: string) returns (c: seq<string>)
    requires ValidEscapes(before) && IsUnit(unit) && |unit| == 3
    ensures IsChainFrom(c, before + (unit + rest), before + (Spelled(unit) + rest))
  {
    NormalUnitShape(unit);
    c := [before + (unit + rest), before + (Spelled(unit) + rest)];
    assert RespellsAt(c[0], c[1], before, unit, Spelled(unit), rest);
    assert Link(c[0], c[1]);
  }

  lemma {:induction false} SpelledAfter(before: string, unit: string)
    requires ValidEscapes(before) && IsUnit(unit)
    ensures ValidEscapes(before + Spelled(unit))
  {
    if |unit| == 3 {
      NormalUnitShape(unit);
    }
    var spelled := Spelled(unit);
    assert IsUnit(spelled) && spelled + "" == spelled;
    UnitResolves(spelled, "");
    ResolveAfter(before, spelled);
  }

  /** Resolving decides the equivalence: two well-escaped texts resolve alike if and only if one can be respelled into
      the other. */
  lemma {:induction false} ResolveDecidesEquivalence(a: string, b: string)
    requires ValidEscapes(a) && ValidEscapes(b)
    ensures Resolve(a) == Resolve(b) <==> Equivalent(a, b)
  {
    EmptyText();
    hide Resolve, ValidEscapes;
    if Equivalent(a, b) {
      var c :| IsChainFrom(c, a, b);
      ChainKeeps(c);
    }
    hide IsChainFrom;
    if Resolve(a) == Resolve(b) {
      var c := ChainToNormal("", a);
      var d := ChainToNormal("", b);
      assert "" + a == a && "" + b == b && "" + Resolve(a) == Resolve(a) && "" + Resolve(b) == Resolve(b);
      d := ChainReverse(d, b, Resolve(a));
      ChainJoin(c, d, a, Resolve(a), b);
    }
  }
}
