/** Lines written and read again, with the bytes of the line ends written out: bufio.Scanner with ScanLines
    (bufio/scan.go) and bufio.Reader.ReadLine (bufio/bufio.go). */
module LineRoundTrips {
  import opened Basics
  import opened ByteReaders
  import opened Scanners
  import opened BufReaders

  /** No newline in it and no '\r' at its end. */
  predicate IsLine(s: seq<Byte>) {
    10 !in s && (s != [] ==> s[|s| - 1] != 13)
  }

  /** "\n" or "\r\n" */
  predicate IsEnd(e: seq<Byte>) { e == [10] || e == [13, 10] }

  /** Lines, each with one of the two line ends. */
  predicate Written(lines: seq<seq<Byte>>, ends: seq<seq<Byte>>) {
    |lines| == |ends| && forall i :: 0 <= i < |lines| ==> IsLine(lines[i]) && IsEnd(ends[i])
  }

  /** Each line followed by its end, and then `last`. */
  function Text(lines: seq<seq<Byte>>, ends: seq<seq<Byte>>, last: seq<Byte>): seq<Byte>
    requires |lines| == |ends|
  {
    if lines == [] then last else lines[0] + ends[0] + Text(lines[1..], ends[1..], last)
  }

  /** A '\r' at the very end of the input goes with the last line when a scanner cuts it. */
  function Tail(last: seq<Byte>, cr: bool): seq<Byte> {
    if cr then last + [13] else last
  }

  /** The lines a scanner is to return: an empty tail is no line. */
  function Scanned(lines: seq<seq<Byte>>, last: seq<Byte>, cr: bool): seq<seq<Byte>> {
    if last == [] && !cr then lines else lines + [last]
  }

  /** Every line fits in `limit` bytes with its end; a tail must leave room for one more. */
  predicate Short(lines: seq<seq<Byte>>, ends: seq<seq<Byte>>, tail: seq<Byte>, limit: nat)
    requires |lines| == |ends|
  {
    (forall i :: 0 <= i < |lines| ==> |lines[i]| + |ends[i]| <= limit) && (tail != [] ==> |tail| < limit)
  }

  /** The first line of a text is what stands before its line end: one '\r' is dropped and nothing else. */
  lemma FirstLine(line: seq<Byte>, end: seq<Byte>, rest: seq<Byte>)
    requires IsLine(line) && IsEnd(end)
    ensures var s := line + end + rest;
            s != [] && LF in s && IndexLF(s) >= 0 && Line(s) == line && LineLen(s) == |line + end| && s[|line + end|..] == rest
  {
    var s, i := line + end + rest, |line + end| - 1;
    assert s[i] == 10;
    assert s[..i] == if end == [10] then line else line + [13];
    FirstIs(s, 10, i);
  }

  /** A text without a newline is one line. */
  lemma LastLine(last: seq<Byte>, cr: bool)
    requires IsLine(last)
    ensures var s := Tail(last, cr); 10 !in s && IndexLF(s) < 0 && LineLen(s) == |s| && Line(s) == last
  {
    var s := Tail(last, cr);
    assert cr ==> s[..|s| - 1] == last;
  }

  /** The lines of a written text are the lines that were written. */
  lemma {:induction false} LinesOfText(lines: seq<seq<Byte>>, ends: seq<seq<Byte>>, last: seq<Byte>, cr: bool, limit: nat)
    requires Written(lines, ends) && IsLine(last) && Short(lines, ends, Tail(last, cr), limit)
    ensures var s := Text(lines, ends, Tail(last, cr)); Lines(s) == Scanned(lines, last, cr) && AllFit(s, limit)
  {
    hide Lines, AllFit, IsLine, IsEnd, Tail;
    var tail := Tail(last, cr);
    if lines == [] {
      TailAlone(last, cr, limit);
    } else {
      LineInFront(lines[0], ends[0], Text(lines[1..], ends[1..], tail), limit);
      LinesOfText(lines[1..], ends[1..], last, cr, limit);
      assert [lines[0]] + Scanned(lines[1..], last, cr) == Scanned(lines, last, cr);
    }
  }

  lemma LineInFront(line: seq<Byte>, end: seq<Byte>, rest: seq<Byte>, limit: nat)
    requires IsLine(line) && IsEnd(end) && |line| + |end| <= limit
    ensures var s := line + end + rest; Lines(s) == [line] + Lines(rest) && (AllFit(s, limit) <==> AllFit(rest, limit))
  {
    hide Line, LineLen, IndexLF, IsLine, IsEnd;
    FirstLine(line, end, rest);
  }

  lemma TailAlone(last: seq<Byte>, cr: bool, limit: nat)
    requires IsLine(last) && (Tail(last, cr) != [] ==> |Tail(last, cr)| < limit)
    ensures var s := Tail(last, cr); Lines(s) == Scanned([], last, cr) && AllFit(s, limit)
  {
    hide Line, LineLen, IndexLF, IsLine;
    LastLine(last, cr);
    assert Tail(last, cr)[|Tail(last, cr)|..] == [];
  }

  /** Scanning a written text returns the lines, whatever the reader's chunking, and ends with the reader's
      error: a space at the end of a line is kept, one '\r' before the newline or at the end of the input is not. */
  method ScanText(s: Scanner, ghost lines: seq<seq<Byte>>, ghost ends: seq<seq<Byte>>, ghost last: seq<Byte>, ghost cr: bool)
    returns (scanned: seq<seq<Byte>>)
    requires s.Valid() && !s.done && s.err.None? && s.r.patience <= 100 && s.limit > 0
    requires Written(lines, ends) && IsLine(last) && Short(lines, ends, Tail(last, cr), s.limit)
    requires s.Remaining() == Text(lines, ends, Tail(last, cr))
    modifies s, s.buf, s.r
    ensures scanned == (if last == [] && !cr then lines else lines + [last]) && s.err == Some(s.r.end)
  {
    hide Lines, AllFit;
    LinesOfText(lines, ends, last, cr, s.limit);
    scanned := ScanAll(s);
  }

  /** Reading `count` lines and then what is left: the same lines, however long they are and wherever the
      buffer's end falls; an unterminated tail comes back as it stands, its '\r' included. */
  method ReadText(b: Reader, count: nat, ghost lines: seq<seq<Byte>>, ghost ends: seq<seq<Byte>>, ghost tail: seq<Byte>)
    returns (read: seq<seq<Byte>>, left: seq<Byte>)
    requires b.Valid() && b.rd.patience < 100 && count == |lines| && Written(lines, ends) && 10 !in tail
    requires b.Remaining() == Text(lines, ends, tail)
    modifies b, b.buf, b.rd
    ensures read == lines && left == tail && b.Valid() && b.Remaining() == []
  {
    hide Line, LineLen, IsLine, IsEnd, Reader.Remaining, Reader.LastByteOk, Reader.LastRuneOk;
    read := [];
    for i := 0 to count
      invariant b.Valid() && b.Steady()
      invariant read == lines[..i] && b.Remaining() == Text(lines[i..], ends[i..], tail)
    {
      assert lines[i..][1..] == lines[i + 1..] && ends[i..][1..] == ends[i + 1..];
      FirstLine(lines[i], ends[i], Text(lines[i + 1..], ends[i + 1..], tail));
      var line, e := ReadWholeLine(b);
      read := read + [line];
    }
    var e;
    left, e := ReadWholeLine(b);
  }
}
