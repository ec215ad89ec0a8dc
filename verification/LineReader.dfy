/** The buffer under the parser: it hands out CRLF-terminated lines, byte counts, or drops bytes
    (src/http/line_reader.cpp).

    `FirstLine` is the naive reader, which searches the unread bytes from their start every time. The class
    resumes its search and compacts its buffer, and is proved to answer as the naive reader does. */
module LineReading {
  import opened Text

  const MAX_LINE_LENGTH: nat := 8192
  const CRLF: string := "\r\n"

  datatype LineResult = LineTooLong | NothingYet | Line(text: string)

  /** What a reader rescanning all unread bytes answers. */
  function FirstLine(unread: string): (r: LineResult)
    ensures r.Line? ==> |r.text| + 2 <= |unread| && r.text + CRLF <= unread && |r.text| <= MAX_LINE_LENGTH
    ensures r.NothingYet? ==> |unread| <= MAX_LINE_LENGTH
    ensures r.LineTooLong? ==> |unread| > MAX_LINE_LENGTH
  {
    var end := FindCrlf(unread, 0);
    if end == |unread| then
      if |unread| > MAX_LINE_LENGTH then LineTooLong else NothingYet
    else if end > MAX_LINE_LENGTH then LineTooLong
    else
      assert unread[..end] + CRLF == unread[..end + 2];
      Line(unread[..end])
  }

  function Min(a: nat, b: nat): nat { if a < b then a else b }

  class LineReader {
    var buffer: string
    var begin: nat
    var scanned: nat

    // What the reader has been charged so far: bytes appended, bytes erased and moved by compaction, and
    // buffer positions examined while searching for a terminator.
    ghost var appended: nat
    ghost var erased: nat
    ghost var moved: nat
    ghost var examined: nat

    ghost predicate Valid()
      reads this
    {
      && begin <= scanned <= |buffer|
      && (begin < scanned ==> scanned < |buffer|)
      && (forall k :: begin <= k < scanned ==> !CrlfAt(buffer, k))
      && erased + |buffer| == appended
      && moved <= erased
    }

    ghost function Unread(): string
      reads this
      requires Valid()
    {
      buffer[begin..]
    }

    /** How far into the whole stream the search has advanced. */
    ghost function Searched(): nat
      reads this
    {
      erased + scanned
    }

    constructor ()
      ensures Valid() && Unread() == "" && begin == scanned
      ensures appended == 0 && erased == 0 && moved == 0 && examined == 0
    {
      buffer, begin, scanned := "", 0, 0;
      appended, erased, moved, examined := 0, 0, 0, 0;
    }

    method Append(bytes: string)
      requires Valid()
      modifies this
      ensures Valid() && Unread() == old(Unread()) + bytes
      ensures |buffer| <= 2 * old(|Unread()|) + |bytes|
      ensures appended == old(appended) + |bytes| && examined == old(examined) && moved <= appended
      ensures Searched() == old(Searched()) && scanned - begin == old(scanned - begin)
    {
      if begin > 0 && begin * 2 >= |buffer| {
        ghost var was := buffer;
        moved := moved + |buffer| - begin;
        erased := erased + begin;
        buffer := buffer[begin..];
        assert forall k :: 0 <= k < scanned - begin && CrlfAt(buffer, k) ==> CrlfAt(was, k + begin);
        scanned := scanned - begin;
        begin := 0;
      }
      ghost var kept := buffer;
      buffer := buffer + bytes;
      appended := appended + |bytes|;
      assert buffer[begin..] == kept[begin..] + bytes;
      assert forall k :: begin <= k < scanned && CrlfAt(buffer, k) ==> CrlfAt(kept, k);
    }

    method NextLine() returns (r: LineResult)
      requires Valid()
      modifies this
      ensures Valid() && r == FirstLine(old(Unread()))
      ensures r.Line? ==> Unread() == old(Unread())[|r.text| + 2..] && scanned == begin
      ensures !r.Line? ==> Unread() == old(Unread())
      ensures appended == old(appended)
      ensures Searched() >= old(Searched())
      ensures r.Line? ==> examined - old(examined) <= Searched() - old(Searched())
      ensures r.NothingYet? ==> examined - old(examined) <= Searched() - old(Searched()) + 1
      ensures r.LineTooLong? ==> examined - old(examined) <= appended - old(Searched())
    {
      var crlf := FindCrlf(buffer, scanned);
      examined := examined + (if crlf == |buffer| then |buffer| - scanned else crlf + 1 - scanned);
      ResumedSearch(crlf);
      if crlf == |buffer| {
        if |buffer| - begin > MAX_LINE_LENGTH {
          return LineTooLong;
        }
        var lookback := |CRLF| - 1;
        scanned := if |buffer| < begin + lookback then begin else |buffer| - lookback;
        return NothingYet;
      }
      if crlf - begin > MAX_LINE_LENGTH {
        return LineTooLong;
      }
      r := Line(buffer[begin..crlf]);
      begin := crlf + |CRLF|;
      scanned := begin;
    }

    /** Resuming the search finds what searching the unread bytes from their start finds. */
    lemma ResumedSearch(crlf: nat)
      requires Valid() && crlf == FindCrlf(buffer, scanned)
      ensures FindCrlf(Unread(), 0) == crlf - begin
      ensures crlf < |buffer| ==> Unread()[..crlf - begin] == buffer[begin..crlf]
      ensures crlf < |buffer| ==> crlf + 2 <= |buffer| && Unread()[crlf - begin + 2..] == buffer[crlf + 2..]
    {
      var found := FindCrlf(Unread(), 0);
      assert forall k :: 0 <= k <= |Unread()| ==> (CrlfAt(Unread(), k) <==> CrlfAt(buffer, k + begin));
      assert found < crlf - begin ==> !CrlfAt(buffer, found + begin);
      assert crlf < |buffer| ==> CrlfAt(Unread(), crlf - begin);
    }

    method Take(n: nat) returns (r: Option<string>)
      requires Valid()
      modifies this
      ensures Valid()
      ensures r == if |old(Unread())| < n then None else Some(old(Unread())[..n])
      ensures Unread() == if |old(Unread())| < n then old(Unread()) else old(Unread())[n..]
      ensures appended == old(appended) && examined == old(examined)
      ensures old(scanned == begin) ==> scanned == begin && Searched() >= old(Searched())
    {
      if |buffer| - begin < n {
        return None;
      }
      assert buffer[begin..begin + n] == buffer[begin..][..n];
      r := Some(buffer[begin..begin + n]);
      begin := begin + n;
      scanned := begin;
    }

    method Discard(n: nat) returns (dropped: nat)
      requires Valid()
      modifies this
      ensures Valid()
      ensures dropped == Min(n, |old(Unread())|)
      ensures Unread() == old(Unread())[dropped..]
      ensures appended == old(appended) && examined == old(examined)
      ensures old(scanned == begin) ==> scanned == begin && Searched() >= old(Searched())
    {
      dropped := Min(n, |buffer| - begin);
      begin := begin + dropped;
      scanned := begin;
    }
  }
}
