/** bufio.Scanner with ScanLines (bufio/scan.go): lines cut out of a growing, sliding buffer. */
module Scanners {
  import opened Basics
  import opened ByteReaders

  const START_BUF_SIZE: nat := 4096

  const LF: Byte := 10
  const CR: Byte := 13

  // ---- lines ----

  /** bytes.IndexByte(data, '\n') */
  function IndexLF(s: seq<Byte>): (i: int)
    ensures -1 <= i < |s|
    ensures i >= 0 ==> s[i] == LF && LF !in s[..i]
    ensures i < 0 ==> LF !in s
  {
    IndexOf(s, LF)
  }

  function DropCR(data: seq<Byte>): seq<Byte> {
    if |data| > 0 && data[|data| - 1] == CR then data[..|data| - 1] else data
  }

  /** The split function: how many bytes to consume and the token, if there is one. */
  function ScanLines(data: seq<Byte>, atEOF: bool): (nat, Option<seq<Byte>>) {
    if atEOF && |data| == 0 then (0, None)
    else
      var i := IndexLF(data);
      if i >= 0 then (i + 1, Some(DropCR(data[..i])))
      else if atEOF then (|data|, Some(DropCR(data)))
      else (0, None)
  }

  /** Length of the first line, its newline included. */
  function LineLen(s: seq<Byte>): (n: nat)
    ensures n <= |s| && (s != [] ==> n > 0)
  {
    var i := IndexLF(s);
    if i >= 0 then i + 1 else |s|
  }

  /** The first line without \r?\n. */
  function Line(s: seq<Byte>): seq<Byte> {
    var i := IndexLF(s);
    DropCR(if i >= 0 then s[..i] else s)
  }

  /** All lines of the input. */
  function Lines(s: seq<Byte>): seq<seq<Byte>> {
    if s == [] then [] else [Line(s)] + Lines(s[LineLen(s)..])
  }

  /** The first line fits in a buffer of `limit` bytes; an unterminated one must leave room for one more. */
  predicate Fits(s: seq<Byte>, limit: nat) {
    if IndexLF(s) >= 0 then LineLen(s) <= limit else |s| < limit
  }

  /** The first line cannot fit: with a newline, or without and longer than the buffer. */
  predicate TooLong(s: seq<Byte>, limit: nat) {
    LineLen(s) > limit
  }

  /** Seeing more input does not move the first newline. */
  lemma IndexLFPrefix(a: seq<Byte>, b: seq<Byte>)
    ensures IndexLF(a) >= 0 ==> IndexLF(a + b) == IndexLF(a)
    ensures IndexLF(a) < 0 ==> IndexLF(a + b) == (if IndexLF(b) < 0 then -1 else |a| + IndexLF(b))
  {
    var i := IndexLF(a + b);
    var k := IndexLF(a);
    var j := IndexLF(b);
    if k >= 0 {
      assert (a + b)[k] == LF && (a + b)[..k] == a[..k];
      FirstIs(a + b, LF, k);
    } else if j >= 0 {
      assert (a + b)[..|a| + j] == a + b[..j];
      FirstIs(a + b, LF, |a| + j);
    } else {
      assert LF !in a + b;
    }
  }

  // ---- the scanner ----

  class Scanner {
    const r: ByteReader
    const maxTokenSize: nat
    var token: Option<seq<Byte>>
    var buf: array<Byte>
    var start: nat
    var end: nat
    var err: Option<Err>
    var done: bool
    /** The largest buffer Scan will use: maxTokenSize, or a larger buffer set up by Buffer. */
    ghost const limit: nat

    ghost predicate Valid()
      reads this, buf, r
    {
      && start <= end <= buf.Length <= limit && maxTokenSize <= limit
      && (limit == maxTokenSize || buf.Length == limit)
      && r.Valid()
    }

    /** No error yet, or the reader's own at the end of its input; and the reader never answers with more
        empty reads in a row than Scan puts up with. */
    ghost predicate Usable()
      reads this, r
    {
      !done && r.patience <= MAX_CONSECUTIVE_EMPTY_READS && (err.None? || (err == Some(r.end) && r.rest == []))
    }

    /** The bytes no token has consumed: buffered, then unread. */
    ghost function Remaining(): seq<Byte>
      requires start <= end <= buf.Length
      reads this, buf, r
    {
      buf[start..end] + r.rest
    }

    /** NewScanner followed by Buffer(make([]byte, size), max). */
    constructor (reader: ByteReader, size: nat, max: nat)
      requires reader.Valid()
      ensures Valid() && err.None? && !done && r == reader && fresh(buf)
      ensures Usable() <==> reader.patience <= MAX_CONSECUTIVE_EMPTY_READS
      ensures Remaining() == reader.rest && limit == (if size > max then size else max)
    {
      r, maxTokenSize := reader, max;
      token, err, done := None, None, false;
      buf := new Byte[size](_ => 0);
      start, end := 0, 0;
      limit := if size > max then size else max;
    }

    method SetErr(e: Err)
      modifies this`err
      ensures err == if old(err).None? || old(err) == Some(EOF) then Some(e) else old(err)
    {
      if err.None? || err == Some(EOF) {
        err := Some(e);
      }
    }

    /** Slides the data to the front of the buffer and, if the buffer is full, doubles it up to the
        limit. Reports whether there is room to read. */
    method MakeRoom() returns (ok: bool)
      requires Valid() && err.None?
      modifies this, buf
      ensures Valid() && (buf == old(buf) || fresh(buf))
      ensures Remaining() == old(Remaining()) && end - start == old(end) - old(start)
      ensures token == old(token) && done == old(done)
      ensures ok ==> end < buf.Length && err.None?
      ensures !ok ==> err == Some(ErrTooLong) && end - start == buf.Length == limit
    {
      if start > 0 && (end == buf.Length || start > buf.Length / 2) {
        Slide();
      }
      if end == buf.Length {
        if buf.Length >= maxTokenSize {
          SetErr(ErrTooLong);
          return false;
        }
        var newSize := buf.Length * 2;
        if newSize == 0 {
          newSize := START_BUF_SIZE;
        }
        newSize := Min(newSize, maxTokenSize);
        var newBuf := new Byte[newSize](_ => 0);
        forall i | 0 <= i < end - start {
          newBuf[i] := buf[start + i];
        }
        assert newBuf[..end - start] == buf[start..end];
        buf := newBuf;
        end := end - start;
        start := 0;
      }
      return true;
    }

    /** copy(s.buf, s.buf[s.start:s.end]) */
    method Slide()
      requires Valid()
      modifies this`start, this`end, buf
      ensures Valid() && start == 0 && end == old(end) - old(start)
      ensures buf[..end] == old(buf[start..end]) && Remaining() == old(Remaining())
    {
      forall i | 0 <= i < end - start {
        buf[i] := buf[start + i];
      }
      end := end - start;
      start := 0;
      assert buf[..end] == old(buf[start..end]);
    }

    /** The reading loop: at least one byte arrives, or the reader's error, or the loop loses patience. */
    method ReadMore()
      requires Valid() && err.None? && end < buf.Length
      modifies this`end, this`err, buf, r
      ensures Valid() && Remaining() == old(Remaining())
      ensures err.Some? ==> (err == Some(r.end) && r.rest == [])
                            || (err == Some(ErrNoProgress) && r.patience > MAX_CONSECUTIVE_EMPTY_READS)
      ensures err == Some(ErrNoProgress) ==> r.idle == old(r.idle) + 101
      ensures |r.rest| < |old(r.rest)| || err.Some?
      ensures |r.rest| <= |old(r.rest)|
    {
      var loop := 0;
      while true
        invariant start <= end < buf.Length && err.None? && r.Valid()
        invariant r.idle == old(r.idle) + loop && loop <= MAX_CONSECUTIVE_EMPTY_READS
        invariant r.rest == old(r.rest) && end == old(end) && buf[start..end] == old(buf[start..end])
        decreases MAX_CONSECUTIVE_EMPTY_READS - loop
      {
        ghost var data := buf[start..end];
        var n, e := r.Read(buf, end);
        assert buf[start..end + n] == data + buf[end..end + n];
        end := end + n;
        assert Remaining() == old(Remaining());
        if e.Some? {
          SetErr(e.value);
          return;
        }
        if n > 0 {
          return;
        }
        loop := loop + 1;
        if loop > MAX_CONSECUTIVE_EMPTY_READS {
          SetErr(ErrNoProgress);
          return;
        }
      }
    }

    /** The split call and what Scan does with its answer. */
    method TryToken()
      requires Valid() && (end > start || err.Some?)
      modifies this`start, this`token
      ensures Valid() && (Usable() <==> old(Usable()))
      ensures token.Some? && old(Usable()) ==> NextLine(old(Remaining()))
      ensures token.Some? ==> IndexLF(old(buf[start..end])) >= 0 || err.Some?
      ensures token.None? ==> start == old(start) && IndexLF(buf[start..end]) < 0
      ensures token.None? ==> err.None? || start == end
    {
      hide IndexLF, Line, LineLen;
      ghost var all := Remaining();
      var data := buf[start..end];
      var split := ScanLines(data, err.Some?);
      SplitWhole(data, r.rest);
      SplitShape(data, err.Some?, r.rest);
      start := start + split.0;
      token := split.1;
      assert buf[start..end] == data[split.0..];
      assert data[split.0..] + r.rest == all[split.0..];
    }

    /** The next line, cut from the input as a whole whatever the reader's chunking. */
    method Scan() returns (more: bool)
      requires Valid()
      modifies this, buf, r
      ensures Valid() && (buf == old(buf) || fresh(buf))
      ensures old(Usable()) && old(Remaining()) == [] && limit > 0 ==>
                !more && err == Some(r.end) && Remaining() == []
      ensures old(Usable()) && old(Remaining()) != [] && Fits(old(Remaining()), limit) ==>
                more && NextLine(old(Remaining()))
      ensures old(Usable()) && TooLong(old(Remaining()), limit) ==> !more && err == Some(ErrTooLong)
      ensures old(Usable()) ==> if more then NextLine(old(Remaining())) else err.Some?
    {
      hide IndexLF, Line, LineLen, ScanLines, Fits, TooLong;
      if done {
        return false;
      }
      ghost var all := Remaining();
      ghost var usable := Usable();
      while true
        invariant Valid() && (buf == old(buf) || fresh(buf)) && !done
        invariant usable ==> Usable() && Remaining() == all
        decreases |r.rest|, if err.None? then 1 else 0
      {
        if end > start || err.Some? {
          if Usable() { BufferedLine(buf[start..end], r.rest, limit, err.Some?); }
          TryToken();
          if token.Some? {
            return true;
          }
        }
        if err.Some? {
          start := 0;
          end := 0;
          return false;
        }
        NoLineYet(buf[start..end], r.rest, limit);
        var room := MakeRoom();
        if !room {
          return false;
        }
        ReadMore();
      }
    }

    /** The token is the first line of `all`, and what remains is what follows it. */
    ghost predicate NextLine(all: seq<Byte>)
      requires start <= end <= buf.Length
      reads this, buf, r
    {
      Usable() && all != [] && token == Some(Line(all)) && Remaining() == all[LineLen(all)..]
    }
  }

  /** What the split function cuts off the buffered data is the first line of the whole remaining input,
      when it holds a newline or nothing is left to read. */
  lemma SplitWhole(data: seq<Byte>, rest: seq<Byte>)
    ensures IndexLF(data) >= 0 ==> Line(data + rest) == DropCR(data[..IndexLF(data)]) && LineLen(data + rest) == IndexLF(data) + 1
    ensures IndexLF(data) < 0 ==> LineLen(data + rest) >= |data|
    ensures IndexLF(data) < 0 && rest == [] ==> Line(data + rest) == DropCR(data) && LineLen(data + rest) == |data|
    ensures IndexLF(data) < 0 && rest != [] ==> LineLen(data + rest) > |data|
    ensures IndexLF(data) < 0 && IndexLF(data + rest) >= 0 ==> LineLen(data + rest) > |data|
  {
    IndexLFPrefix(data, rest);
    assert rest == [] ==> data + rest == data;
    if IndexLF(data) >= 0 {
      assert (data + rest)[..IndexLF(data)] == data[..IndexLF(data)];
    }
  }

  lemma SplitShape(data: seq<Byte>, atEOF: bool, rest: seq<Byte>)
    ensures var split := ScanLines(data, atEOF);
            && split.0 <= |data|
            && (split.1.Some? <==> IndexLF(data) >= 0 || (atEOF && data != []))
            && (split.1.None? ==> split.0 == 0)
            && (split.1.Some? && (rest == [] || !atEOF) ==>
                  split.0 == LineLen(data + rest) && split.1 == Some(Line(data + rest)) && data + rest != [])
  {
    SplitWhole(data, rest);
  }

  /** A line that is complete in the buffer fits it. */
  lemma BufferedLine(data: seq<Byte>, rest: seq<Byte>, limit: nat, atEnd: bool)
    requires |data| <= limit && (atEnd ==> rest == [])
    ensures IndexLF(data) >= 0 || atEnd ==> !TooLong(data + rest, limit)
  {
    SplitWhole(data, rest);
  }

  /** A full buffer without a newline holds no line that fits. */
  lemma NoLineYet(data: seq<Byte>, rest: seq<Byte>, limit: nat)
    ensures IndexLF(data) < 0 && |data| == limit ==> !Fits(data + rest, limit)
    ensures data == [] ==> IndexLF(data) < 0
  {
    SplitWhole(data, rest);
  }

  // ---- a whole input ----

  /** Every line fits. */
  predicate AllFit(s: seq<Byte>, limit: nat)
    decreases |s|
  {
    s == [] || (Fits(s, limit) && AllFit(s[LineLen(s)..], limit))
  }

  /** The lines before the first one that does not fit. */
  function FittingLines(s: seq<Byte>, limit: nat): seq<seq<Byte>>
    decreases |s|
  {
    if s == [] || !Fits(s, limit) then [] else [Line(s)] + FittingLines(s[LineLen(s)..], limit)
  }

  /** No line is unterminated and exactly as long as the buffer: then it depends on whether the reader
      reports its end together with the last bytes. */
  predicate Decided(s: seq<Byte>, limit: nat)
    decreases |s|
  {
    s == [] || TooLong(s, limit) || (Fits(s, limit) && Decided(s[LineLen(s)..], limit))
  }

  /** The state of a scan over `all`, with `lines` returned so far. */
  ghost predicate Progress(all: seq<Byte>, limit: nat, lines: seq<seq<Byte>>, left: seq<Byte>) {
    && Lines(all) == lines + Lines(left)
    && (AllFit(all, limit) ==> AllFit(left, limit))
    && (Decided(all, limit) ==> Decided(left, limit) && FittingLines(all, limit) == lines + FittingLines(left, limit)
                                && (AllFit(all, limit) <==> AllFit(left, limit)))
  }

  lemma ProgressStart(all: seq<Byte>, limit: nat)
    ensures Progress(all, limit, [], all)
  {
  }

  lemma ProgressStep(all: seq<Byte>, limit: nat, lines: seq<seq<Byte>>, left: seq<Byte>)
    requires Progress(all, limit, lines, left) && left != [] && (Decided(all, limit) ==> !TooLong(left, limit))
    ensures Progress(all, limit, lines + [Line(left)], left[LineLen(left)..])
  {
    hide Line, LineLen, Fits, TooLong, Lines, AllFit, FittingLines, Decided;
    var next := left[LineLen(left)..];
    Unfold(left, limit);
    assert lines + ([Line(left)] + Lines(next)) == lines + [Line(left)] + Lines(next);
    assert lines + ([Line(left)] + FittingLines(next, limit)) == lines + [Line(left)] + FittingLines(next, limit);
  }

  lemma Unfold(s: seq<Byte>, limit: nat)
    requires s != []
    ensures var next := s[LineLen(s)..];
            && Lines(s) == [Line(s)] + Lines(next)
            && (AllFit(s, limit) <==> Fits(s, limit) && AllFit(next, limit))
            && (Fits(s, limit) ==> FittingLines(s, limit) == [Line(s)] + FittingLines(next, limit))
            && (Decided(s, limit) && !TooLong(s, limit) ==> Fits(s, limit) && Decided(next, limit))
  {
    hide Line, LineLen, Fits, TooLong;
  }

  /** Scanning to the end returns exactly the lines of the input when they all fit, for every way the
      reader chunks it; otherwise exactly the lines before the first that is too long, and ErrTooLong. */
  method ScanAll(s: Scanner) returns (lines: seq<seq<Byte>>)
    requires s.Valid() && s.Usable()
    modifies s, s.buf, s.r
    ensures old(AllFit(s.Remaining(), s.limit)) && s.limit > 0 ==> lines == old(Lines(s.Remaining())) && s.err == Some(s.r.end)
    ensures old(Decided(s.Remaining(), s.limit)) && s.limit > 0 ==>
              && lines == old(FittingLines(s.Remaining(), s.limit))
              && s.err == Some(if old(AllFit(s.Remaining(), s.limit)) then s.r.end else ErrTooLong)
    ensures s.err.Some? && lines <= old(Lines(s.Remaining()))
  {
    hide Line, LineLen, Fits, TooLong, Progress;
    lines := [];
    ghost var all := s.Remaining();
    ProgressStart(all, s.limit);
    while true
      invariant s.Valid() && s.Usable() && (s.buf == old(s.buf) || fresh(s.buf))
      invariant Progress(all, s.limit, lines, s.Remaining())
      decreases |s.Remaining()|
    {
      ghost var before := s.Remaining();
      var more := s.Scan();
      ProgressEnd(all, s.limit, lines, before);
      if !more {
        return;
      }
      ProgressStep(all, s.limit, lines, before);
      lines := lines + [s.token.value];
    }
  }

  /** What a scan that stops before `left` has returned. */
  lemma ProgressEnd(all: seq<Byte>, limit: nat, lines: seq<seq<Byte>>, left: seq<Byte>)
    requires Progress(all, limit, lines, left)
    ensures lines <= Lines(all)
    ensures AllFit(all, limit) ==> left == [] || Fits(left, limit)
    ensures left == [] ==> Lines(all) == lines
    ensures Decided(all, limit) ==> left == [] || TooLong(left, limit) || Fits(left, limit)
    ensures Decided(all, limit) && left == [] ==> AllFit(all, limit) && FittingLines(all, limit) == lines
    ensures Decided(all, limit) && left != [] && TooLong(left, limit) ==>
              !AllFit(all, limit) && FittingLines(all, limit) == lines && !Fits(left, limit)
  {
    hide Line, LineLen;
  }
}
