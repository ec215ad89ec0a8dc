/** Character classes and case folding, ASCII only (src/http/ascii.hpp, src/http/request_parser.cpp). */
module Ascii {
  function Lower(c: char): char
  {
    if 'A' <= c <= 'Z' then (c as int + 32) as char else c
  }

  function LowerText(s: string): (r: string)
    ensures |r| == |s|
  {
    seq(|s|, i requires 0 <= i < |s| => Lower(s[i]))
  }

  /** The value of one hex digit of either case, or -1. */
  function HexValue(c: char): (v: int)
    ensures -1 <= v < 16
  {
    if '0' <= c <= '9' then c as int - '0' as int
    else if 'a' <= c <= 'f' then c as int - 'a' as int + 10
    else if 'A' <= c <= 'F' then c as int - 'A' as int + 10
    else -1
  }

  /** The uppercase hex digit for one nibble. */
  function HexDigit(v: int): (c: char)
    requires 0 <= v < 16
    ensures HexValue(c) == v
  {
    if v < 10 then ('0' as int + v) as char else ('A' as int + v - 10) as char
  }

  predicate IsHex(c: char) { HexValue(c) >= 0 }

  predicate IsDigit(c: char) { '0' <= c <= '9' }

  predicate IsUnreserved(c: char) {
    'A' <= c <= 'Z' || 'a' <= c <= 'z' || '0' <= c <= '9' || c in "-._~"
  }

  predicate IsOws(c: char) { c == ' ' || c == '\t' }

  predicate IsTchar(c: char) {
    'A' <= c <= 'Z' || 'a' <= c <= 'z' || '0' <= c <= '9' || c in "!#$%&'*+-.^_`|~"
  }

  predicate IsValueChar(c: char) { c == '\t' || (c as int >= 0x20 && c as int != 0x7F) }

  predicate IsControl(c: char) { (c as int) < 0x20 || c as int == 0x7F }

  /** Folding is a projection, so a folded name is found by comparing folded texts. */
  lemma LowerTwice(s: string)
    ensures LowerText(LowerText(s)) == LowerText(s)
  {
    assert forall c: char :: Lower(Lower(c)) == Lower(c);
  }

  // ----- The classes, told another way

  /** A token character is a visible one that delimits nothing: section 5.6.2 of RFC 9110. */
  lemma TokenCharacters(c: char)
    ensures IsTchar(c) <==> 0x21 <= c as int <= 0x7E && c !in "\"(),/:;<=>?@[\\]{}"
  {
  }

  /** A control character is none from the space to the tilde and none above ASCII. A value may hold all others, and
      tabs. */
  lemma ControlsAndValues(c: char)
    ensures IsControl(c) <==> !(' ' <= c <= '~') && (c as int) < 0x80
    ensures IsValueChar(c) <==> c == '\t' || !IsControl(c)
  {
  }

  /** Folding takes each capital to its small letter and leaves every other character alone. */
  lemma LowerLetters(c: char, i: nat)
    requires i < 26
    ensures Lower("ABCDEFGHIJKLMNOPQRSTUVWXYZ"[i]) == "abcdefghijklmnopqrstuvwxyz"[i]
    ensures c !in "ABCDEFGHIJKLMNOPQRSTUVWXYZ" ==> Lower(c) == c
  {
    var capitals := "ABCDEFGHIJKLMNOPQRSTUVWXYZ";
    if 'A' <= c <= 'Z' {
      assert capitals[c as int - 'A' as int] == c;
    }
  }
}
