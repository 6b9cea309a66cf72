/** bufio.Reader (bufio/bufio.go): a fixed buffer between a reader and its callers. */
module BufReaders {
  import opened Basics
  import opened ByteReaders
  import opened Scanners
  import opened Utf8

  const MIN_READ_BUFFER_SIZE: nat := 16
  const UTF_MAX: nat := 4

  class Reader {
    const buf: array<Byte>
    const rd: ByteReader
    var r: nat
    var w: nat
    var err: Option<Err>
    var lastByte: int
    var lastRuneSize: int
    /** Everything handed to the callers so far, without what they have unread. */
    ghost var delivered: seq<Byte>

    ghost predicate Valid()
      reads this, buf, rd
    {
      && buf.Length >= MIN_READ_BUFFER_SIZE && r <= w <= buf.Length && rd.Valid()
      && (err.Some? ==> AtEnd() || NoProgress())
      && LastByteOk() && LastRuneOk()
    }

    /** The stored error is the reader's own, at the end of its input. */
    ghost predicate AtEnd()
      reads this, rd
    {
      err == Some(rd.end) && rd.rest == []
    }

    ghost predicate NoProgress()
      reads this
    {
      err == Some(ErrNoProgress) && rd.patience >= MAX_CONSECUTIVE_EMPTY_READS
    }

    /** lastByte is the last byte delivered - or a '\r' that ReadLine has put back. */
    ghost predicate LastByteOk()
      requires r <= w <= buf.Length
      reads this`r, this`w, this`lastByte, this`delivered, buf
    {
      lastByte >= 0 ==> delivered != [] && (lastByte == delivered[|delivered| - 1] || PutBack())
    }

    ghost predicate PutBack()
      requires r <= w <= buf.Length
      reads this`r, this`w, this`lastByte, buf
    {
      lastByte == CR && r < w && buf[r] == CR
    }

    /** The last rune, if it can be unread, still stands before r. */
    ghost predicate LastRuneOk()
      requires r <= w <= buf.Length
      reads this`r, this`w, this`lastRuneSize, this`delivered, buf
    {
      0 <= lastRuneSize <= r ==>
        lastRuneSize <= |delivered| && buf[r - lastRuneSize..r] == delivered[|delivered| - lastRuneSize..]
    }

    /** The bytes still to come: buffered, then unread. */
    ghost function Remaining(): seq<Byte>
      requires r <= w <= buf.Length
      reads this`r, this`w, buf, rd
    {
      buf[r..w] + rd.rest
    }

    /** Delivered, then buffered, then unread: the whole stream. */
    ghost function Total(): seq<Byte>
      requires r <= w <= buf.Length
      reads this, buf, rd
    {
      delivered + Remaining()
    }

    /** NewReaderSize */
    constructor (reader: ByteReader, size: int)
      requires reader.Valid()
      ensures Valid() && rd == reader && fresh(buf) && buf.Length == if size < 16 then 16 else size
      ensures delivered == [] && Remaining() == reader.rest && err.None?
    {
      rd := reader;
      buf := new Byte[if size < MIN_READ_BUFFER_SIZE then MIN_READ_BUFFER_SIZE else size](_ => 0);
      r, w, err := 0, 0, None;
      lastByte, lastRuneSize := -1, -1;
      delivered := [];
    }

    /** copy(b.buf, b.buf[b.r:b.w]); b.w -= b.r; b.r = 0 */
    method Slide()
      requires Valid()
      modifies this`r, this`w, buf
      ensures Valid() && r == 0 && w == old(w) - old(r) && buf[..w] == old(buf[r..w])
      ensures Remaining() == old(Remaining())
    {
      forall i | 0 <= i < w - r {
        buf[i] := buf[r + i];
      }
      w := w - r;
      r := 0;
      assert buf[..w] == old(buf[r..w]);
      assert PutBack() <== old(PutBack());
    }

    /** n, err := b.rd.Read(b.buf[b.w:]); b.w += n */
    method ReadBehind() returns (n: nat, e: Option<Err>)
      requires Valid() && w < buf.Length
      modifies this`w, buf, rd
      ensures Valid() && Remaining() == old(Remaining()) && w == old(w) + n
      ensures buf[..old(w)] == old(buf[..w])
      ensures e.Some? ==> e.value == rd.end && rd.rest == []
      ensures rd.idle == if n > 0 || e.Some? then 0 else old(rd.idle) + 1
    {
      hide LastRuneOk, PutBack;
      ghost var head, w0 := buf[..w], w;
      label before:
      n, e := rd.Read(buf, w);
      assert buf[..w0] == head;
      w := w + n;
      assert buf[r..w] == head[r..] + buf[w0..w];
      assert head[r..] + buf[w0..w] + rd.rest == head[r..] + (buf[w0..w] + rd.rest);
      SameLastRune@before(w0);
    }

    /** Bytes behind position w0 do not matter for the last rune or a '\r' put back before it. */
    twostate lemma SameLastRune(w0: nat)
      requires old(r <= w <= buf.Length) && r <= w0 <= w <= buf.Length
      requires r == old(r) && w0 == old(w) && buf[..w0] == old(buf[..w])
      requires lastByte == old(lastByte) && lastRuneSize == old(lastRuneSize) && delivered == old(delivered)
      ensures old(LastRuneOk()) ==> LastRuneOk()
      ensures old(PutBack()) ==> PutBack()
    {
      if old(LastRuneOk()) && 0 <= lastRuneSize <= r {
        var last := r - lastRuneSize;
        forall i | last <= i < r
          ensures buf[i] == old(buf[i])
        {
          assert buf[..w0][i] == old(buf[..w])[i];
        }
        assert buf[last..r] == old(buf[last..r]);
      }
      if old(PutBack()) { assert buf[r] == buf[..w0][r] && old(buf[r]) == old(buf[..w])[r]; }
    }

    /** Reads a new chunk: at least one byte arrives, or an error is stored. */
    method Fill()
      requires Valid() && w - r < buf.Length
      modifies this`r, this`w, this`err, buf, rd
      ensures Valid() && Remaining() == old(Remaining())
      ensures err.Some? || w - r > old(w - r)
      ensures old(err).None? && err == Some(ErrNoProgress) ==> rd.idle == old(rd.idle) + 100
      ensures w - r >= old(w - r) && buf[r..r + old(w - r)] == old(buf[r..w])
    {
      hide LastByteOk, LastRuneOk;
      if r > 0 {
        Slide();
      }
      var i := MAX_CONSECUTIVE_EMPTY_READS;
      while i > 0
        invariant Valid() && err == old(err) && w < buf.Length && r == 0
        invariant Remaining() == old(Remaining()) && w - r == old(w - r) && buf[r..w] == old(buf[r..w])
        invariant rd.idle == old(rd.idle) + MAX_CONSECUTIVE_EMPTY_READS - i
      {
        ghost var data := buf[r..w];
        var n, e := ReadBehind();
        assert buf[..old(w - r)] == data;
        if e.Some? {
          err := e;
          return;
        }
        if n > 0 {
          return;
        }
        i := i - 1;
      }
      err := Some(ErrNoProgress);
    }

    method ReadErr() returns (e: Option<Err>)
      requires Valid()
      modifies this`err
      ensures Valid() && e == old(err) && err.None? && Remaining() == old(Remaining())
    {
      e := err;
      err := None;
    }

    // ---- what the callers see ----

    /** The call handed out exactly the next bytes `p` of the stream. */
    twostate predicate Took(p: seq<Byte>)
      requires old(r <= w <= buf.Length) && r <= w <= buf.Length
      reads this, buf, rd
    {
      delivered == old(delivered) + p && old(Remaining()) == p + Remaining()
    }

    /** An error reported to the caller is the reader's own, after the last byte, or ErrNoProgress for a
        reader that answers 100 times in a row with nothing. */
    ghost predicate Reported(e: Option<Err>)
      requires r <= w <= buf.Length
      reads this`r, this`w, buf, rd
    {
      e.Some? ==> (e.value == rd.end && Remaining() == []) || (e.value == ErrNoProgress && !Steady())
    }

    /** The reader never answers 100 times in a row with nothing. */
    ghost predicate Steady() { rd.patience < MAX_CONSECUTIVE_EMPTY_READS }

    /** Hands out the next k buffered bytes: b.r += k; b.lastByte = int(b.buf[b.r-1]); b.lastRuneSize = -1 */
    method Advance(k: nat) returns (p: seq<Byte>)
      requires Valid() && k <= w - r
      modifies this`r, this`lastByte, this`lastRuneSize, this`delivered
      ensures Valid() && r == old(r) + k && p == buf[old(r)..old(r) + k] && Took(p)
      ensures k > 0 ==> lastByte == p[k - 1] && lastRuneSize == -1
      ensures k == 0 ==> lastByte == old(lastByte) && lastRuneSize == old(lastRuneSize)
    {
      p := buf[r..r + k];
      delivered := delivered + p;
      r := r + k;
      if k > 0 {
        lastByte := buf[r - 1];
        lastRuneSize := -1;
      }
    }

    /** b.lastByte = -1; b.lastRuneSize = -1 */
    method Forget()
      requires Valid()
      modifies this`lastByte, this`lastRuneSize
      ensures Valid() && lastByte == lastRuneSize == -1
    {
      lastByte := -1;
      lastRuneSize := -1;
    }

    /** The loop of Peek. */
    method FillFor(n: nat)
      requires Valid() && lastByte == lastRuneSize == -1
      modifies this`r, this`w, this`err, buf, rd
      ensures Valid() && Remaining() == old(Remaining())
      ensures w - r >= n || w - r == buf.Length || err.Some?
      ensures err.Some? && Steady() ==> err == Some(rd.end) && |Remaining()| == w - r
    {
      hide LastByteOk, LastRuneOk, Remaining;
      while w - r < n && w - r < buf.Length && err.None?
        invariant Valid() && Remaining() == old(Remaining())
        decreases err.None?, buf.Length - (w - r)
      {
        Fill();
      }
      Ended();
    }

    /** After the reader's end nothing but the buffered bytes is left. */
    lemma Ended()
      requires Valid()
      ensures err.Some? && Steady() ==> err == Some(rd.end) && |Remaining()| == w - r
    {
    }

    /** The next n bytes without consuming them, or what there is with the reason. */
    method Peek(n: int) returns (p: seq<Byte>, e: Option<Err>)
      requires Valid()
      modifies this`r, this`w, this`err, this`lastByte, this`lastRuneSize, buf, rd
      ensures Valid() && Took([]) && p <= Remaining()
      ensures n < 0 <==> e == Some(ErrNegativeCount)
      ensures n >= 0 ==> lastByte == lastRuneSize == -1
      ensures 0 <= n && Steady() ==> |p| == Min(Min(n, buf.Length), |Remaining()|)
      ensures 0 <= n <= buf.Length && Steady() ==> e == if |p| == n then None else Some(rd.end)
      ensures n > buf.Length ==> e == Some(ErrBufferFull)
    {
      hide LastByteOk, LastRuneOk;
      if n < 0 {
        return [], Some(ErrNegativeCount);
      }
      Forget();
      FillFor(n);
      assert buf[r..w] <= Remaining();
      if n > buf.Length {
        return buf[r..w], Some(ErrBufferFull);
      }
      var k: nat := n;
      e := None;
      if w - r < n {
        k := w - r;
        e := ReadErr();
        if e.None? {
          e := Some(ErrBufferFull);
        }
      }
      p := buf[r..r + k];
    }

    /** Skips n bytes; if fewer, says why. */
    method Discard(n: int) returns (discarded: nat, e: Option<Err>)
      requires Valid()
      modifies this, buf, rd
      ensures Valid() && (n < 0 ==> discarded == 0 && e == Some(ErrNegativeCount))
      ensures discarded <= |old(Remaining())| && Took(old(Remaining())[..discarded])
      ensures n >= 0 ==> discarded <= n && (e.None? <==> discarded == n) && Reported(e)
      ensures n >= 0 && Steady() ==> discarded == Min(n, |old(Remaining())|)
    {
      hide LastByteOk, LastRuneOk, Remaining, AtEnd, NoProgress, Steady;
      if n < 0 {
        return 0, Some(ErrNegativeCount);
      }
      if n == 0 {
        return 0, None;
      }
      Forget();
      ghost var d0, r0 := delivered, Remaining();
      var remain: nat := n;
      while true
        invariant Valid() && 0 < remain <= n <= remain + |r0|
        invariant delivered == d0 + r0[..n - remain] && r0 == r0[..n - remain] + Remaining()
        decreases remain
      {
        ghost var x, d1, r1 := r0[..n - remain], delivered, Remaining();
        var skip := SkipSome(remain);
        Chain(d0, r0, d1, r1, delivered, Remaining(), x, r1[..skip]);
        Longer(r0, n - remain, r1, skip);
        remain := remain - skip;
        if remain == 0 {
          return n, None;
        }
        if err.Some? {
          e := ReadErr();
          return n - remain, e;
        }
      }
    }

    /** With nothing buffered the error is due. */
    lemma Due()
      requires Valid() && r == w
      ensures err.Some? ==> Reported(err) && (Steady() ==> Remaining() == [])
    {
    }

    /** One round of Discard. */
    method SkipSome(remain: nat) returns (skip: nat)
      requires Valid() && remain > 0
      modifies this, buf, rd
      ensures Valid() && skip <= remain && skip <= |old(Remaining())| && Took(old(Remaining())[..skip])
      ensures skip > 0 || err.Some?
      ensures skip < remain && err.Some? ==> Reported(err) && (Steady() ==> |old(Remaining())| == skip)
    {
      hide LastByteOk, LastRuneOk, Remaining, AtEnd, NoProgress, Reported;
      skip := w - r;
      if skip == 0 {
        Fill();
        skip := w - r;
      }
      if skip > remain {
        skip := remain;
      }
      var p := Advance(skip);
      assert p == old(Remaining())[..skip];
      Forget();
      if r == w { Due(); }
    }

    /** Read(p): at most one Read of the reader underneath; large reads go straight into p. */
    method Read(p: array<Byte>) returns (n: nat, e: Option<Err>)
      requires Valid() && p != buf
      modifies this, buf, rd, p
      ensures Valid() && n <= p.Length && Took(p[..n]) && p[n..] == old(p[n..])
      ensures Reported(e)
    {
      hide LastByteOk, LastRuneOk;
      if p.Length == 0 {
        if w - r > 0 {
          return 0, None;
        }
        e := ReadErr();
        return 0, e;
      }
      if r == w {
        if err.Some? {
          e := ReadErr();
          return 0, e;
        }
        if p.Length >= buf.Length {
          n, e := ReadDirect(p);
          return;
        }
        n, e := ReadOnce();
        if n == 0 {
          return;
        }
      }
      n := CopyOut(p);
      e := None;
    }

    /** n = copy(p, b.buf[b.r:b.w]); b.r += n */
    method CopyOut(p: array<Byte>) returns (n: nat)
      requires Valid() && p != buf
      modifies this`r, this`lastByte, this`lastRuneSize, this`delivered, p
      ensures Valid() && n <= p.Length && Took(p[..n]) && p[n..] == old(p[n..])
    {
      hide LastByteOk, LastRuneOk, Remaining;
      n := Min(p.Length, w - r);
      var got := Advance(n);
      forall i | 0 <= i < n {
        p[i] := got[i];
      }
      assert p[..n] == got;
    }

    /** b.r = 0; b.w = 0; n, b.err = b.rd.Read(b.buf) */
    method ReadOnce() returns (n: nat, e: Option<Err>)
      requires Valid() && r == w && err.None?
      modifies this`r, this`w, this`err, buf, rd
      ensures Valid() && Took([]) && w - r == n && (n == 0 ==> Reported(e))
    {
      hide LastByteOk, LastRuneOk;
      Rewind();
      n, err := ReadBehind();
      e := None;
      if n == 0 {
        e := ReadErr();
      }
    }

    /** b.r = 0; b.w = 0 */
    method Rewind()
      requires Valid() && r == w
      modifies this`r, this`w
      ensures Valid() && r == w == 0 && Remaining() == old(Remaining())
    {
      r := 0;
      w := 0;
      assert old(Remaining()) == rd.rest;
    }

    /** The large read: n, b.err = b.rd.Read(p) */
    method ReadDirect(p: array<Byte>) returns (n: nat, e: Option<Err>)
      requires Valid() && p != buf && p.Length > 0 && r == w && err.None?
      modifies this, rd, p
      ensures Valid() && n <= p.Length && Took(p[..n]) && p[n..] == old(p[n..])
      ensures Reported(e)
    {
      hide LastByteOk, LastRuneOk;
      n, err := rd.Read(p, 0);
      ghost var got := p[..n];
      assert old(rd.rest) == got + rd.rest && old(Remaining()) == old(rd.rest);
      Record(p[..n]);
      assert Remaining() == rd.rest;
      e := ReadErr();
    }

    /** b.lastByte = int(p[n-1]); b.lastRuneSize = -1, if anything was read. */
    method Record(got: seq<Byte>)
      requires Valid() && r == w
      modifies this`lastByte, this`lastRuneSize, this`delivered
      ensures Valid() && delivered == old(delivered) + got
    {
      delivered := delivered + got;
      if |got| > 0 {
        lastByte := got[|got| - 1];
        lastRuneSize := -1;
      } else {
        assert delivered == old(delivered);
      }
    }

    /** b.lastRuneSize = -1 */
    method ForgetRune()
      requires Valid()
      modifies this`lastRuneSize
      ensures Valid() && lastRuneSize == -1
    {
      lastRuneSize := -1;
    }

    method ReadByte() returns (c: Byte, e: Option<Err>)
      requires Valid()
      modifies this, buf, rd
      ensures Valid() && Reported(e)
      ensures e.None? ==> Took([c]) && lastByte == c
      ensures e.Some? ==> Took([])
      ensures Steady() ==> (e.None? <==> old(Remaining()) != [])
    {
      hide LastByteOk, LastRuneOk;
      ForgetRune();
      while r == w
        invariant Valid() && Remaining() == old(Remaining()) && delivered == old(delivered)
        decreases if r == w then (if err.None? then 2 else 1) else 0
      {
        if err.Some? {
          e := ReadErr();
          return 0, e;
        }
        Fill();
      }
      var p := Advance(1);
      return p[0], None;
    }

    /** Puts the last byte back: allowed right after a read, and then the byte delivered last comes again -
        unless ReadLine has just put back a '\r' of its own, for then it comes a second time and the byte
        before it is lost. */
    method UnreadByte() returns (e: Option<Err>)
      requires Valid()
      modifies this`r, this`w, this`lastByte, this`lastRuneSize, this`delivered, buf
      ensures Valid() && (e.None? <==> old(lastByte) >= 0 && !(old(r) == 0 && old(w) > 0))
      ensures e.Some? ==> e.value == ErrInvalidUnreadByte && Took([])
      ensures e.None? ==> old(delivered) != [] && delivered == old(delivered[..|delivered| - 1])
      ensures e.None? ==> Remaining() == [old(lastByte)] + old(Remaining())
      ensures e.None? ==> (Total() == old(Total()) <==> old(lastByte == delivered[|delivered| - 1]))
    {
      e := None;
      ghost var all := Remaining();
      if lastByte < 0 || (r == 0 && w > 0) {
        return Some(ErrInvalidUnreadByte);
      }
      StepBack(lastByte);
      lastByte := -1;
      lastRuneSize := -1;
      UnreadTotal(delivered, old(lastByte), all);
      delivered := delivered[..|delivered| - 1];
    }

    /** One place back in the buffer, or the first place of an empty one: b.buf[b.r] = c */
    method StepBack(c: Byte)
      requires r <= w <= buf.Length && 0 < buf.Length && (r > 0 || w == 0)
      modifies this`r, this`w, buf
      ensures r <= w <= buf.Length && Remaining() == [c] + old(Remaining())
    {
      ghost var data := buf[r..w];
      if r > 0 {
        r := r - 1;
      } else {
        w := 1;
      }
      buf[r] := c;
      assert buf[r..w] == [c] + data;
    }

    /** The next rune of the stream; an ill-formed byte comes as U+FFFD of size 1. */
    method ReadRune() returns (rr: int, size: nat, e: Option<Err>)
      requires Valid()
      modifies this, buf, rd
      ensures Valid() && Reported(e) && size <= |old(Remaining())| && Took(old(Remaining())[..size])
      ensures e.Some? ==> size == 0
      ensures e.None? && Steady() && old(Remaining()) != [] ==> rr == Rune(old(Remaining())) && size == Size(old(Remaining()))
      ensures Steady() ==> (e.Some? <==> old(Remaining()) == [])
      ensures e.None? && size > 0 ==> lastRuneSize == size && r >= size
    {
      hide LastByteOk, LastRuneOk, FullRune, Rune, Size;
      while r + UTF_MAX > w && !FullRune(buf[r..w]) && err.None? && w - r < buf.Length
        invariant Valid() && Remaining() == old(Remaining()) && delivered == old(delivered)
        decreases err.None?, buf.Length - (w - r)
      {
        Fill();
      }
      ForgetRune();
      FourBytes(buf[r..w]);
      if r == w {
        e := ReadErr();
        return 0, 0, e;
      }
      rr, size := DecodeBuffered();
      e := None;
    }

    /** r, size = utf8.DecodeRune(b.buf[b.r:b.w]), and the bytes of it are delivered. */
    method DecodeBuffered() returns (rr: int, size: nat)
      requires Valid() && r < w
      modifies this`r, this`lastByte, this`lastRuneSize, this`delivered
      ensures Valid() && 0 < size <= |old(Remaining())| && Took(old(Remaining())[..size])
      ensures lastRuneSize == size && r >= size
      ensures FullRune(old(buf[r..w])) || rd.rest == [] ==>
                rr == Rune(old(Remaining())) && size == Size(old(Remaining()))
    {
      hide LastByteOk, LastRuneOk, FullRune, Rune, Size;
      ghost var all := Remaining();
      Decides(buf[r..w], rd.rest);
      rr, size := Rune(buf[r..w]), Size(buf[r..w]);
      var p := Advance(size);
      assert all[..size] == p;
      SetRune(size);
    }

    /** b.lastRuneSize = size */
    method SetRune(size: nat)
      requires Valid() && size <= r && size <= |delivered| && buf[r - size..r] == delivered[|delivered| - size..]
      modifies this`lastRuneSize
      ensures Valid() && lastRuneSize == size
    {
      lastRuneSize := size;
    }

    /** Puts the last rune back, provided the last read was ReadRune: the stream is as before that read. */
    method UnreadRune() returns (e: Option<Err>)
      requires Valid()
      modifies this`r, this`lastByte, this`lastRuneSize, this`delivered
      ensures Valid() && (e.None? <==> 0 <= old(lastRuneSize) <= old(r))
      ensures e.Some? ==> e.value == ErrInvalidUnreadRune && Took([])
      ensures e.None? ==> Total() == old(Total()) && |delivered| == old(|delivered| - lastRuneSize)
    {
      e := None;
      if lastRuneSize < 0 || r < lastRuneSize {
        return Some(ErrInvalidUnreadRune);
      }
      var k := lastRuneSize;
      Forget();
      GiveBack(k);
    }

    /** b.r -= k */
    method GiveBack(k: nat)
      requires Valid() && lastByte == lastRuneSize == -1
      requires k <= r && k <= |delivered| && buf[r - k..r] == delivered[|delivered| - k..]
      modifies this`r, this`delivered
      ensures Valid() && Total() == old(Total()) && |delivered| == old(|delivered|) - k
    {
      ghost var back, data, kept := buf[r - k..r], buf[r..w], delivered[..|delivered| - k];
      assert delivered == kept + back;
      r := r - k;
      delivered := kept;
      assert buf[r..w] == back + data;
      TotalKept(back, data, rd.rest);
      TotalKept(kept, back, data + rd.rest);
    }

    /** line = b.buf[b.r:b.w]; b.r = b.w */
    method TakeBuffer() returns (line: seq<Byte>)
      requires Valid()
      modifies this`r, this`lastByte, this`lastRuneSize, this`delivered
      ensures Valid() && line == old(buf[r..w]) && r == w && Took(line) && Remaining() == rd.rest
      ensures line != [] ==> lastByte == line[|line| - 1] && lastRuneSize == -1
    {
      line := Advance(w - r);
    }

    /** The same with err = b.readErr() */
    method TakeRest() returns (line: seq<Byte>, e: Option<Err>)
      requires Valid() && err.Some?
      modifies this`r, this`err, this`lastByte, this`lastRuneSize, this`delivered
      ensures Valid() && line == old(buf[r..w]) && Took(line) && |line| <= buf.Length
      ensures e.Some? && e.value != ErrBufferFull && Reported(e)
      ensures line != [] ==> lastByte == line[|line| - 1] && lastRuneSize == -1
    {
      hide LastByteOk, LastRuneOk;
      line := TakeBuffer();
      e := ReadErr();
    }

    /** i := bytes.IndexByte(b.buf[b.r+s:b.w], delim); i += s */
    method FindBuffered(delim: Byte, s: nat) returns (i: int)
      requires r <= w <= buf.Length && s <= w - r && delim !in buf[r..r + s]
      ensures -1 <= i < w - r && (i < 0 ==> delim !in buf[r..w])
      ensures i >= 0 ==> buf[r..r + i + 1][i] == delim && delim !in buf[r..r + i + 1][..i]
    {
      ghost var head, tail := buf[r..r + s], buf[r + s..w];
      i := IndexOf(buf[r + s..w], delim);
      if i >= 0 {
        i := i + s;
        assert buf[r..r + i + 1][..i] == head + tail[..i - s];
      } else {
        assert buf[r..w] == head + tail;
      }
    }

    /** Everything up to and including the first delim, if it comes before the buffer is full and before
        the reader's error. */
    method ReadSlice(delim: Byte) returns (line: seq<Byte>, e: Option<Err>)
      requires Valid()
      modifies this, buf, rd
      ensures Valid() && Took(line) && |line| <= buf.Length
      ensures e.None? ==> line != [] && line[|line| - 1] == delim && delim !in line[..|line| - 1]
      ensures e.Some? ==> delim !in line
      ensures e == Some(ErrBufferFull) ==> r == w == buf.Length && line == buf[..]
      ensures e.Some? && e.value != ErrBufferFull ==> Reported(e)
      ensures line != [] ==> lastByte == line[|line| - 1] && lastRuneSize == -1
    {
      hide LastByteOk, LastRuneOk, Remaining, IndexOf, AtEnd, NoProgress, Reported;
      var s: nat := 0;
      while true
        invariant Valid() && Remaining() == old(Remaining()) && delivered == old(delivered)
        invariant s <= w - r && delim !in buf[r..r + s]
        decreases err.None?, buf.Length - (w - r)
      {
        var i := FindBuffered(delim, s);
        if i >= 0 {
          line := Advance(i + 1);
          e := None;
          return;
        }
        if err.Some? {
          line, e := TakeRest();
          return;
        }
        if w - r >= buf.Length {
          line := TakeBuffer();
          e := Some(ErrBufferFull);
          return;
        }
        s := w - r;
        Fill();
      }
    }

    /** The next line without its \r?\n, or the next part of it when it does not fit the buffer. A '\r' at
        the end of a full buffer is put back, for it may belong to the line end. */
    method ReadLine() returns (line: seq<Byte>, isPrefix: bool, e: Option<Err>)
      requires Valid()
      modifies this, buf, rd
      ensures Valid()
      ensures isPrefix ==> e.None? && Took(line) && LF !in line && SplitOk(line, Remaining())
      ensures isPrefix ==> buf.Length - 1 <= |line| <= buf.Length && r > 0
      ensures isPrefix ==> lastByte == if |line| == buf.Length then line[|line| - 1] else CR
      ensures e.None? ==> delivered != [] && lastByte >= 0
      ensures e.None? ==> (lastByte == delivered[|delivered| - 1] <==> !StolenCR(line, isPrefix))
      ensures e.Some? ==> line == [] && !isPrefix && Took([]) && Reported(e)
      ensures Total() == old(Total())
      ensures e.None? && !isPrefix && LF in old(Remaining()) && Steady() ==>
                && LineLen(old(Remaining())) <= buf.Length
                && line == Line(old(Remaining())) && Took(old(Remaining())[..LineLen(old(Remaining()))])
      ensures e.None? && !isPrefix && LF !in old(Remaining()) && Steady() ==>
                line == old(Remaining()) && line != [] && Took(line)
    {
      hide LastRuneOk, LastByteOk, AtEnd, NoProgress, Line, LineLen, IndexLF, SplitOk;
      line, e := ReadSlice(LF);
      TotalKept(old(delivered), line, Remaining());
      if e == Some(ErrBufferFull) {
        line := KeepCR(old(delivered), line);
        TotalKept(old(delivered), line, Remaining());
        return line, true, None;
      }
      if |line| == 0 {
        return line, false, e;
      }
      ghost var raw, all := line, old(Remaining());
      assert all[..|raw|] == raw;
      assert e.Some? && Steady() ==> all == raw;
      isPrefix := false;
      if e.None? { RawLine(raw, Remaining()); }
      e := None;
      if line[|line| - 1] == LF {
        var drop := 1;
        if |line| > 1 && line[|line| - 2] == CR {
          drop := 2;
        }
        line := line[..|line| - drop];
      }
    }

    /** ReadLine returned the first part of a line and put back a '\r' behind a different byte. */
    predicate StolenCR(line: seq<Byte>, isPrefix: bool) {
      isPrefix && 0 < |line| < buf.Length && line[|line| - 1] != CR
    }

    /** ReadLine promises that UnreadByte after it unreads the last byte read. That holds exactly when the
        line was not cut off before a '\r'; otherwise the stream is no longer what it was. */
    method ReadLineThenUnread() returns (line: seq<Byte>, isPrefix: bool, e: Option<Err>, u: Option<Err>)
      requires Valid()
      modifies this, buf, rd
      ensures Valid() && (e.None? && u.None? ==> (Total() == old(Total()) <==> !StolenCR(line, isPrefix)))
    {
      hide LastRuneOk, LastByteOk, Line, LineLen;
      line, isPrefix, e := ReadLine();
      u := UnreadByte();
    }

    /** Puts a '\r' at the end of a full buffer back and drops it from the line: b.r-- */
    method KeepCR(ghost before: seq<Byte>, full: seq<Byte>) returns (line: seq<Byte>)
      requires Valid() && r == w == buf.Length && full == buf[..] && delivered == before + full
      requires lastByte == full[|full| - 1] && lastRuneSize == -1
      modifies this`r, this`delivered
      ensures Valid() && line <= full && delivered == before + line && full + old(Remaining()) == line + Remaining()
      ensures buf.Length - 1 <= |line| <= buf.Length && r > 0 && SplitOk(line, Remaining())
      ensures lastByte == if |line| == buf.Length then line[|line| - 1] else CR
    {
      line := full;
      if |line| > 0 && line[|line| - 1] == CR {
        r := r - 1;
        line := line[..|line| - 1];
        delivered := delivered[..|delivered| - 1];
        assert delivered == before + line;
        assert full == line + [CR] && buf[r..w] == [CR];
      }
    }
  }

  /** A line may be cut after x unless that separates a '\r' from what follows it. */
  predicate SplitOk(x: seq<Byte>, rest: seq<Byte>) {
    x == [] || x[|x| - 1] != CR || (rest != [] && rest[0] == CR)
  }

  lemma RawLine(raw: seq<Byte>, rest: seq<Byte>)
    requires raw != [] && raw[|raw| - 1] == LF && LF !in raw[..|raw| - 1]
    ensures LF in raw + rest && LineLen(raw + rest) == |raw| && Line(raw + rest) == DropCR(raw[..|raw| - 1])
  {
    var k := |raw| - 1;
    assert (raw + rest)[k] == LF && (raw + rest)[..k] == raw[..k];
    FirstIs(raw + rest, LF, k);
  }

  // ---- whole lines and whole pieces ----

  lemma JoinLine(x: seq<Byte>, rest: seq<Byte>)
    requires LF !in x && LF in rest && SplitOk(x, rest)
    ensures LF in x + rest && Line(x + rest) == x + Line(rest) && LineLen(x + rest) == |x| + LineLen(rest)
  {
    IndexLFPrefix(x, rest);
    var i := IndexLF(rest);
    assert rest[i] in x + rest;
    assert (x + rest)[..|x| + i] == x + rest[..i];
  }

  /** Joining the parts of a newline-terminated line gives that line, however often and wherever the
      buffer's end falls into it, even between '\r' and '\n'. */
  method ReadWholeLine(b: Reader) returns (line: seq<Byte>, e: Option<Err>)
    requires b.Valid() && b.Steady()
    modifies b, b.buf, b.rd
    ensures b.Valid()
    ensures LF in old(b.Remaining()) ==>
              e.None? && line == Line(old(b.Remaining())) && b.Remaining() == old(b.Remaining()[LineLen(b.Remaining())..])
    ensures LF !in old(b.Remaining()) ==> line == old(b.Remaining()) && b.Remaining() == []
  {
    hide Line, LineLen, IndexLF, SplitOk, Reader.Remaining, Reader.LastByteOk, Reader.LastRuneOk;
    ghost var all := b.Remaining();
    WholeOk(all);
    line := [];
    while true
      invariant b.Valid() && b.Steady() && all == line + b.Remaining()
      invariant LF !in line && SplitOk(line, b.Remaining())
      decreases |b.Remaining()|
    {
      ghost var rest := b.Remaining();
      var frag, isPrefix;
      frag, isPrefix, e := b.ReadLine();
      if !isPrefix {
        LastPart(line, rest, frag, b.Remaining());
        line := line + frag;
        return;
      }
      Extend(line, frag, b.Remaining());
      assert line + (frag + b.Remaining()) == line + frag + b.Remaining();
      line := line + frag;
    }
  }

  /** The last part of a line completes the parts x before it. */
  lemma LastPart(x: seq<Byte>, rest: seq<Byte>, frag: seq<Byte>, left: seq<Byte>)
    requires LF !in x && SplitOk(x, rest)
    requires if LF in rest then frag == Line(rest) && rest == rest[..LineLen(rest)] + left
             else frag == rest && left == []
    ensures var all := x + rest;
            if LF in all then x + frag == Line(all) && left == all[LineLen(all)..]
            else x + frag == all && left == []
  {
    hide Line, LineLen, SplitOk;
    if LF in rest {
      JoinLine(x, rest);
      assert left == rest[LineLen(rest)..];
    }
  }

  lemma WholeOk(all: seq<Byte>)
    ensures SplitOk([], all)
  {
  }

  lemma Extend(x: seq<Byte>, frag: seq<Byte>, rest: seq<Byte>)
    requires LF !in x && LF !in frag && SplitOk(frag, rest) && frag != []
    ensures LF !in x + frag && SplitOk(x + frag, rest)
  {
  }

  /** A prefix and the beginning of what follows it are a longer prefix. */
  lemma Longer(s: seq<Byte>, a: nat, rest: seq<Byte>, b: nat)
    requires a <= |s| && s == s[..a] + rest && b <= |rest|
    ensures a + b <= |s| && s[..a] + rest[..b] == s[..a + b]
  {
  }

  lemma TotalKept(d: seq<Byte>, p: seq<Byte>, rest: seq<Byte>)
    ensures d + (p + rest) == d + p + rest
  {
  }

  /** collectFragments: the full buffers before the first delim, and the rest up to it. */
  method CollectFragments(b: Reader, delim: Byte) returns (full: seq<seq<Byte>>, frag: seq<Byte>, total: nat, e: Option<Err>)
    requires b.Valid()
    modifies b, b.buf, b.rd
    ensures b.Valid() && total == |Flatten(full) + frag|
    ensures old(b.Remaining()) == Flatten(full) + frag + b.Remaining()
    ensures b.delivered == old(b.delivered) + (Flatten(full) + frag)
    ensures e.None? ==> Ends(Flatten(full) + frag, delim)
    ensures e.Some? ==> delim !in Flatten(full) + frag && b.Reported(e)
  {
    hide Reader.Remaining, Reader.LastByteOk, Reader.LastRuneOk, Flatten, Ends;
    ghost var d0, r0 := b.delivered, b.Remaining();
    full, total := [], 0;
    FlattenNone();
    while true
      invariant b.Valid() && total == |Flatten(full)| && delim !in Flatten(full)
      invariant b.delivered == d0 + Flatten(full) && r0 == Flatten(full) + b.Remaining()
      decreases |b.Remaining()|
    {
      ghost var d1, r1, x := b.delivered, b.Remaining(), Flatten(full);
      frag, e := b.ReadSlice(delim);
      Chain(d0, r0, d1, r1, b.delivered, b.Remaining(), x, frag);
      EndsLater(x, frag, delim);
      if e != Some(ErrBufferFull) {
        total := total + |frag|;
        return;
      }
      FlattenSnoc(full, frag);
      full := full + [frag];
      total := total + |frag|;
    }
  }

  lemma FlattenNone()
    ensures Flatten([]) == []
  {
  }

  /** s ends with its first delim. */
  predicate Ends(s: seq<Byte>, delim: Byte) {
    s != [] && s[|s| - 1] == delim && delim !in s[..|s| - 1]
  }

  lemma EndsLater(x: seq<Byte>, y: seq<Byte>, delim: Byte)
    requires delim !in x
    ensures y != [] && y[|y| - 1] == delim && delim !in y[..|y| - 1] ==> Ends(x + y, delim)
    ensures delim !in y ==> delim !in x + y
  {
    if y != [] { assert (x + y)[..|x + y| - 1] == x + y[..|y| - 1]; }
  }

  /** Exactly the bytes through the first delim, or all that is left and why, for every chunking. */
  method ReadBytes(b: Reader, delim: Byte) returns (line: seq<Byte>, e: Option<Err>)
    requires b.Valid()
    modifies b, b.buf, b.rd
    ensures b.Valid() && b.delivered == old(b.delivered) + line && old(b.Remaining()) == line + b.Remaining()
    ensures if e.None? then Ends(line, delim) else delim !in line && b.Reported(e)
    ensures b.Steady() ==>
              line == (var all := old(b.Remaining()); var i := IndexOf(all, delim); if i < 0 then all else all[..i + 1])
    ensures b.Steady() ==> (e.None? <==> delim in old(b.Remaining()))
  {
    hide Flatten, Ends, IndexOf, Reader.Remaining, Reader.LastByteOk, Reader.LastRuneOk;
    var full, frag, n;
    full, frag, n, e := CollectFragments(b, delim);
    var buf := new Byte[n](_ => 0);
    n := Copied(buf, full);
    forall k | 0 <= k < |frag| {
      buf[n + k] := frag[k];
    }
    assert buf[..] == Flatten(full) + frag;
    ThroughDelim(Flatten(full) + frag, b.Remaining(), delim);
    return buf[..], e;
  }

  /** The loop copying the full pieces. */
  method Copied(buf: array<Byte>, full: seq<seq<Byte>>) returns (n: nat)
    requires buf.Length >= |Flatten(full)|
    modifies buf
    ensures n == |Flatten(full)| && buf[..n] == Flatten(full)
  {
    hide Flatten;
    n := 0;
    FlattenNone();
    for i := 0 to |full|
      invariant n == |Flatten(full[..i])| <= |Flatten(full)| && buf[..n] == Flatten(full[..i])
    {
      FlattenSnoc(full[..i], full[i]);
      assert full[..i + 1] == full[..i] + [full[i]];
      FlattenPrefix(full, i + 1);
      ghost var done := buf[..n];
      forall k | 0 <= k < |full[i]| {
        buf[n + k] := full[i][k];
      }
      n := n + |full[i]|;
      assert buf[..n] == done + full[i];
    }
    assert full[..|full|] == full;
  }

  lemma ThroughDelim(line: seq<Byte>, rest: seq<Byte>, delim: Byte)
    ensures Ends(line, delim) ==> IndexOf(line + rest, delim) == |line| - 1 && delim in line + rest
                                  && (line + rest)[..|line|] == line
    ensures delim !in line && rest == [] ==> IndexOf(line + rest, delim) < 0 && line + rest == line && delim !in line + rest
  {
    hide IndexOf;
    if Ends(line, delim) {
      var all, k := line + rest, |line| - 1;
      assert all[k] == delim && all[..k] == line[..k];
      FirstIs(all, delim, k);
    }
  }

  lemma FullLine(text: seq<Byte>)
    requires IndexOf(text, LF) == |text| - 1 >= 0
    ensures LineLen(text) == |text| && LF in text
  {
  }

  /** The only allowed cut in the last two bytes of a line ending in CR LF. */
  lemma CutBeforeCR(a: seq<Byte>, line: seq<Byte>, rest: seq<Byte>)
    requires line + rest == a + [CR, LF] && SplitOk(line, rest) && |a| <= |line| <= |a| + 1
    ensures line == a && rest == [CR, LF]
  {
    var all := a + [CR, LF];
    assert line == all[..|line|] && rest == all[|line|..];
  }

  /** What UnreadByte after a cut-off line does: of a line whose '\r' is the last byte that fits the buffer,
      the '\r' comes twice and the byte before it is lost. */
  method UnreadLosesByte(b: Reader, a: seq<Byte>) returns (line: seq<Byte>, next: seq<Byte>)
    requires b.Valid() && b.Steady() && b.Remaining() == a + [CR, LF]
    requires LF !in a && |a| == b.buf.Length - 1 && a[|a| - 1] != CR
    modifies b, b.buf, b.rd
    ensures line == a && next == [CR, CR, LF]
  {
    hide IndexOf, Reader.LastByteOk, Reader.LastRuneOk, Reader.Remaining, SplitOk, Line, LineLen;
    ghost var text := a + [CR, LF];
    assert text[..|a| + 1] == a + [CR];
    FirstIs(text, LF, |a| + 1);
    FullLine(text);
    var isPrefix, e;
    line, isPrefix, e := b.ReadLine();
    CutBeforeCR(a, line, b.Remaining());
    var u := b.UnreadByte();
    ghost var left: seq<Byte> := [CR] + [CR, LF];
    assert b.Remaining() == left;
    FirstIs(left, LF, 2);
    var e2;
    next, e2 := ReadBytes(b, LF);
    assert next == left[..3];
  }

  lemma FourBytes(p: seq<Byte>)
    ensures (|p| >= UTF_MAX ==> FullRune(p)) && (p == [] ==> !FullRune(p))
  {
  }

  lemma Decides(p: seq<Byte>, rest: seq<Byte>)
    requires p != []
    ensures FullRune(p) || rest == [] ==> Size(p + rest) == Size(p) && Rune(p + rest) == Rune(p)
  {
    if FullRune(p) { FullDecides(p, rest); }
    assert p + [] == p;
  }

  lemma UnreadTotal(d: seq<Byte>, c: Byte, rest: seq<Byte>)
    requires d != []
    ensures d[..|d| - 1] + ([c] + rest) == d + rest <==> c == d[|d| - 1]
  {
    var l := d[..|d| - 1] + ([c] + rest);
    assert l[|d| - 1] == c && (d + rest)[|d| - 1] == d[|d| - 1];
    if c == d[|d| - 1] { assert d == d[..|d| - 1] + [c]; assert l == d + rest; }
  }

  /** Two deliveries in a row are one. */
  lemma Chain(d0: seq<Byte>, r0: seq<Byte>, d1: seq<Byte>, r1: seq<Byte>, d2: seq<Byte>, r2: seq<Byte>, x: seq<Byte>, y: seq<Byte>)
    requires d1 == d0 + x && r0 == x + r1 && d2 == d1 + y && r1 == y + r2
    ensures d2 == d0 + (x + y) && r0 == (x + y) + r2
  {
  }
}
