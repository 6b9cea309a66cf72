/** The readRune type (fmt/scan.go): decoding runes from an io.Reader one byte at a time, with the
    bytes of ill-formed sequences kept for the next call and one rune of push-back. */
module RuneReader {
  import opened Basics
  import opened Utf8

  datatype IoErr = EOF | Fault(code: int)

  /** A conforming io.Reader asked for one byte at a time: it may answer (0, nil) a finite number of
      times, and may report the error at the end together with the last byte or after it. */
  class ByteSource {
    var rest: seq<Byte>
    var lag: nat
    const end: IoErr

    constructor (data: seq<Byte>, end_: IoErr)
      ensures rest == data && end == end_
    {
      rest := data;
      end := end_;
      var wait: nat :| true;
      lag := wait;
    }

    /** r.Read(p[:1]) */
    method Read(p: array<Byte>) returns (n: nat, err: Option<IoErr>)
      requires p.Length > 0
      modifies this, p
      ensures n <= 1 && (n == 1 ==> old(rest) != [] && p[0] == old(rest)[0])
      ensures rest == old(rest)[n..] && (n == 0 ==> p[..] == old(p[..]))
      ensures n == 1 ==> forall i :: 1 <= i < p.Length ==> p[i] == old(p[i])
      ensures err.Some? ==> err.value == end && rest == []
      ensures n == 0 && err.None? ==> lag < old(lag)
    {
      if lag > 0 {
        lag := lag - 1;
        return 0, None;
      }
      if rest == [] {
        return 0, Some(end);
      }
      p[0] := rest[0];
      rest := rest[1..];
      var wait: nat :| true;
      lag := wait;
      var early: bool :| early ==> rest == [];
      return 1, if early then Some(end) else None;
    }
  }

  class ReadRune {
    const reader: ByteSource
    const buf: array<Byte>
    var pending: nat
    const pendBuf: array<Byte>
    var peekRune: int

    /** All pending bytes but the last are continuation bytes; this is what lets left-over bytes be
        appended behind bytes still pending without reordering the input. */
    ghost predicate Valid()
      reads this, pendBuf
    {
      && buf.Length == 4 && pendBuf.Length == 4 && buf != pendBuf && pending <= 3
      && (forall i :: 0 <= i < pending - 1 ==> Continuation(pendBuf[i]))
    }

    /** The bytes not yet decoded. */
    ghost function Stream(): seq<Byte>
      requires Valid()
      reads this, pendBuf, reader
    {
      pendBuf[..pending] + reader.rest
    }

    /** The runes still to be returned. */
    ghost function Runes(): seq<int>
      requires Valid()
      reads this, pendBuf, reader
    {
      (if peekRune >= 0 then [peekRune] else []) + DecodeAll(Stream())
    }

    constructor (r: ByteSource)
      ensures Valid() && reader == r && fresh(buf) && fresh(pendBuf)
      ensures Stream() == r.rest && peekRune == -1
    {
      reader := r;
      buf := new Byte[4](_ => 0);
      pendBuf := new Byte[4](_ => 0);
      pending := 0;
      peekRune := -1;
    }

    /** io.ReadFull(r.reader, r.pendBuf[:1]): reads until one byte or an error arrives. */
    method ReadFull() returns (n: nat, err: Option<IoErr>)
      requires pendBuf.Length == 4
      modifies reader, pendBuf
      ensures old(reader.rest) == [] ==> n == 0 && err == Some(reader.end) && reader.rest == []
      ensures old(reader.rest) != [] ==>
                n == 1 && err.None? && pendBuf[0] == old(reader.rest)[0] && reader.rest == old(reader.rest)[1..]
    {
      n, err := 0, None;
      while n < 1 && err.None?
        invariant n == 0 ==> reader.rest == old(reader.rest)
        invariant n == 1 ==> old(reader.rest) != [] && pendBuf[0] == old(reader.rest)[0]
                             && reader.rest == old(reader.rest)[1..]
        invariant n <= 1
        invariant err.Some? ==> err.value == reader.end && reader.rest == []
        decreases 1 - n, err.None?, reader.lag
      {
        n, err := reader.Read(pendBuf);
      }
      if n >= 1 {
        err := None;
      }
    }

    method ReadByte() returns (b: Byte, err: Option<IoErr>)
      requires Valid()
      modifies this`pending, reader, pendBuf
      ensures Valid()
      ensures old(Stream()) == [] ==> err == Some(reader.end) && Stream() == []
      ensures old(Stream()) != [] ==> err.None? && b == old(Stream())[0] && Stream() == old(Stream())[1..]
      ensures pending == if old(pending) > 0 then old(pending) - 1 else 0
      ensures old(pending) > 1 ==> Continuation(b)
    {
      ghost var before := Stream();
      if pending > 0 {
        b := pendBuf[0];
        ghost var was := pendBuf[..pending];
        pendBuf[0], pendBuf[1], pendBuf[2] := pendBuf[1], pendBuf[2], pendBuf[3];
        pending := pending - 1;
        assert pendBuf[..pending] == was[1..];
        return b, None;
      }
      var n;
      n, err := ReadFull();
      assert before == old(reader.rest);
      if n != 1 {
        return 0, err;
      }
      return pendBuf[0], err;
    }

    /** Returns the next rune of the stream, the rune pushed back, or the reader's error at its end. An
        error other than EOF in the middle of a rune loses the bytes read so far. */
    method Next() returns (rr: int, size: int, err: Option<IoErr>)
      requires Valid()
      modifies this, reader, buf, pendBuf
      ensures Valid()
      ensures old(peekRune) >= 0 ==>
                err.None? && rr == old(peekRune) && size == RuneLen(rr) && peekRune == -rr - 1 && Stream() == old(Stream())
      ensures old(peekRune) < 0 && old(Stream()) == [] ==>
                err == Some(reader.end) && size == 0 && Stream() == [] && peekRune == old(peekRune)
      ensures old(peekRune) < 0 && old(Stream()) != [] && (reader.end == EOF || FullRune(old(Stream()))) ==>
                err.None? && rr == Rune(old(Stream())) && size == Size(old(Stream()))
                && Stream() == old(Stream())[size..] && peekRune == -rr - 1
      ensures old(peekRune) < 0 && old(Stream()) != [] && reader.end != EOF && !FullRune(old(Stream())) ==>
                err == Some(reader.end) && Stream() == [] && peekRune == old(peekRune)
    {
      hide FullRune, Rune, Size, RuneLen;
      rr, size, err := 0, 0, None;
      if peekRune >= 0 {
        rr := peekRune;
        peekRune := -peekRune - 1;
        size := RuneLen(rr);
        return;
      }
      ghost var all := Stream();
      var b;
      b, err := ReadByte();
      buf[0] := b;
      if err.Some? {
        return;
      }
      assert all == [b] + Stream();
      if buf[0] < RUNE_SELF {
        AsciiFirst(all);
        rr := buf[0];
        size := 1;
        peekRune := -rr - 1;
        return;
      }
      rr, size, err := NextHigh(all);
    }

    /** The part of ReadRune for a first byte of at least RuneSelf, already in buf[0]. */
    method NextHigh(ghost all: seq<Byte>) returns (rr: int, size: int, err: Option<IoErr>)
      requires Valid() && all == [buf[0]] + Stream() && (pending > 0 ==> Continuation(buf[0]))
      modifies this, reader, buf, pendBuf
      ensures Valid()
      ensures reader.end == EOF || FullRune(all) ==>
                err.None? && rr == Rune(all) && size == Size(all)
                && Stream() == all[size..] && peekRune == -rr - 1
      ensures reader.end != EOF && !FullRune(all) ==>
                err == Some(reader.end) && Stream() == [] && peekRune == old(peekRune)
    {
      hide FullRune, Rune, Size;
      rr, size := 0, 0;
      HighFirst(buf[0]);
      var n;
      n, err := Gather(all);
      if err.Some? {
        return;
      }
      rr, size := Rune(buf[..n]), Size(buf[..n]);
      DecodedStream(all, buf[..n], Stream());
      if size < n {
        assert n > 1;
        Incomplete(buf[..n - 1]);
        SaveLeftover(size, n);
      }
      assert all[size..] == buf[size..n] + all[n..];
      peekRune := -rr - 1;
    }

    /** The loop of ReadRune: reads bytes behind buf[0] until the rune is full or the input ends. */
    method Gather(ghost all: seq<Byte>) returns (n: nat, err: Option<IoErr>)
      requires Valid() && all == [buf[0]] + Stream()
      requires !FullRune([buf[0]]) ==> pending == 0
      modifies this`pending, reader, buf, pendBuf
      ensures Valid()
      ensures err.None? ==> 1 <= n <= 4 && all == buf[..n] + Stream()
      ensures err.None? ==> FullRune(buf[..n]) || (Stream() == [] && reader.end == EOF)
      ensures err.None? && n > 1 ==> pending == 0 && !FullRune(buf[..n - 1])
      ensures err.Some? ==> err.value == reader.end != EOF && !FullRune(all) && Stream() == []
    {
      n, err := 1, None;
      assert buf[..1] == [buf[0]];
      while !FullRune(buf[..n])
        invariant 1 <= n <= 4 && Valid() && err.None?
        invariant all == buf[..n] + Stream()
        invariant n > 1 || !FullRune(buf[..n]) ==> pending == 0
        invariant n > 1 ==> !FullRune(buf[..n - 1])
        decreases 4 - n
      {
        Incomplete(buf[..n]);
        ghost var head := buf[..n];
        var b;
        b, err := ReadByte();
        buf[n] := b;
        assert buf[..n] == head;
        if err.Some? {
          assert all == head;
          if err == Some(EOF) {
            err := None;
            break;
          }
          return;
        }
        assert buf[..n + 1] == head + [b];
        n := n + 1;
      }
    }

    /** copy(r.pendBuf[r.pending:], r.buf[size:n]); r.pending += n - size */
    method SaveLeftover(size: nat, n: nat)
      requires Valid() && pending == 0 && 1 <= size < n <= 4
      requires forall i :: size <= i < n - 1 ==> Continuation(buf[i])
      modifies this`pending, pendBuf
      ensures Valid() && pending == n - size && pendBuf[..pending] == buf[size..n]
    {
      forall k | 0 <= k < n - size {
        pendBuf[pending + k] := buf[size + k];
      }
      pending := pending + n - size;
    }

    /** Puts the last rune back, provided one has been read since the last push-back. */
    method UnreadRune() returns (ok: bool)
      requires Valid()
      modifies this`peekRune
      ensures Valid() && ok == (old(peekRune) < 0)
      ensures ok ==> Runes() == [-old(peekRune) - 1] + old(Runes())
      ensures !ok ==> Runes() == old(Runes()) && peekRune == old(peekRune)
    {
      if peekRune >= 0 {
        return false;
      }
      peekRune := -peekRune - 1;
      return true;
    }
  }

  lemma AsciiFirst(p: seq<Byte>)
    requires p != [] && p[0] < RUNE_SELF
    ensures FullRune(p) && Rune(p) == p[0] && Size(p) == 1
  {
  }

  /** A continuation byte on its own is a full (invalid) rune. */
  lemma HighFirst(b: Byte)
    ensures Continuation(b) ==> FullRune([b])
  {
  }

  /** A full prefix, or the whole stream at its end, decodes as the stream does. */
  lemma DecodedStream(all: seq<Byte>, head: seq<Byte>, rest: seq<Byte>)
    requires all == head + rest && head != [] && (FullRune(head) || rest == [])
    ensures Size(all) == Size(head) && Rune(all) == Rune(head)
    ensures FullRune(head) ==> FullRune(all)
  {
    if FullRune(head) {
      FullDecides(head, rest);
    } else {
      assert all == head;
    }
  }

  lemma DecodeAllStep(p: seq<Byte>)
    ensures p == [] ==> DecodeAll(p) == []
    ensures p != [] ==> DecodeAll(p) == [Rune(p)] + DecodeAll(p[Size(p)..])
  {
  }

  /** Reads everything, pushing back and re-reading wherever the script says so: the runes are those of
      decoding the whole stream, whatever the reader's chunking and wherever push-back happens. */
  method ReadAll(r: ReadRune, script: seq<bool>) returns (out: seq<int>)
    requires r.Valid() && r.reader.end == EOF && r.peekRune < 0
    modifies r, r.reader, r.buf, r.pendBuf
    ensures out == old(DecodeAll(r.Stream()))
    ensures r.Valid() && r.Stream() == []
  {
    hide Rune, Size, FullRune, RuneLen, DecodeAll;
    out := [];
    ghost var want := DecodeAll(r.Stream());
    var i := 0;
    while true
      invariant r.Valid() && r.peekRune < 0
      invariant want == out + DecodeAll(r.Stream())
      decreases |r.Stream()|
    {
      ghost var before := r.Stream();
      var rr, size, err := r.Next();
      DecodeAllStep(before);
      if err.Some? {
        return;
      }
      ghost var after := r.Stream();
      assert rr == Rune(before) && 0 <= rr;
      assert DecodeAll(before) == [rr] + DecodeAll(after);
      if i < |script| && script[i] {
        var ok := r.UnreadRune();
        var again, size2, err2 := r.Next();
        rr := again;
      }
      assert out + ([rr] + DecodeAll(after)) == out + [rr] + DecodeAll(after);
      out := out + [rr];
      i := i + 1;
    }
  }
}
