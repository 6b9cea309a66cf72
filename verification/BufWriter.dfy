/** bufio.Writer (bufio/bufio.go): a buffer in front of a writer that may fail half-way. */
module BufWriters {
  import opened Basics
  import opened Utf8

  datatype WriteErr = Failed(code: int) | ErrShortWrite

  const UTF_MAX: nat := 4
  const DEFAULT_BUF_SIZE: nat := 4096

  /** An io.Writer: it takes some prefix of each write and may say why if not all of it; it does not go on
      taking nothing without a reason. */
  class Sink {
    var data: seq<Byte>
    /** Its last answer, and how often it has answered with an error. */
    ghost var short: bool
    ghost var report: Option<WriteErr>
    ghost var failures: nat

    method Write(p: seq<Byte>) returns (n: nat, err: Option<WriteErr>)
      modifies this
      ensures n <= |p| && data == old(data) + p[..n]
      ensures err.None? && p != [] ==> n > 0
      ensures err.Some? ==> err.value.Failed?
      ensures short == (n < |p|) && report == err && failures == old(failures) + if err.Some? then 1 else 0
    {
      var k: nat :| k <= |p|;
      var fails: bool :| k == 0 && p != [] ==> fails;
      var code: int :| true;
      n := k;
      data := data + p[..n];
      err := if fails then Some(Failed(code)) else None;
      short, report := n < |p|, err;
      failures := failures + if err.Some? then 1 else 0;
    }
  }

  class Writer {
    const wr: Sink
    const buf: array<Byte>
    var n: nat
    var err: Option<WriteErr>
    /** The sink's bytes before this Writer, followed by every byte a write call has reported as written. */
    ghost var accepted: seq<Byte>
    /** The errors of the sink before this Writer. */
    ghost const earlier: nat

    /** In the sink, then in the buffer: exactly what has been accepted. */
    ghost predicate Valid()
      reads this, buf, wr
    {
      buf.Length > 0 && n <= buf.Length && wr.data + buf[..n] == accepted && ErrorKept()
    }

    /** No error of the sink is lost: the stored one is the sink's own, or ErrShortWrite where the sink took
        only part of a write and gave no reason. */
    ghost predicate ErrorKept()
      reads this, wr
    {
      match err
      case None => wr.failures == earlier
      case Some(Failed(_)) => err == wr.report && wr.failures == earlier + 1
      case Some(ErrShortWrite) => wr.short && wr.report.None? && wr.failures == earlier
    }

    /** NewWriterSize */
    constructor (w: Sink, size: int)
      ensures Valid() && wr == w && fresh(buf) && n == 0 && err.None? && accepted == w.data
      ensures buf.Length == if size <= 0 then 4096 else size
    {
      wr := w;
      buf := new Byte[if size <= 0 then DEFAULT_BUF_SIZE else size](_ => 0);
      n := 0;
      err := None;
      accepted := w.data;
      earlier := w.failures;
    }

    /** Passes the buffer on. If the sink takes only part of it, the rest stays for good. */
    method Flush() returns (e: Option<WriteErr>)
      requires Valid()
      modifies this`n, this`err, buf, wr
      ensures Valid() && accepted == old(accepted) && e == err
      ensures old(err).Some? ==> err == old(err) && n == old(n) && wr.data == old(wr.data)
      ensures e.None? ==> n == 0 && wr.data == accepted
      ensures n <= old(n)
    {
      if err.Some? {
        return err;
      }
      if n == 0 {
        return None;
      }
      ghost var all, before := buf[..n], wr.data;
      var k;
      k, e := wr.Write(buf[..n]);
      Rejoin(before, all, k);
      if k < n && e.None? {
        e := Some(ErrShortWrite);
      }
      if e.Some? {
        Keep(k);
        err := e;
        return;
      }
      n := 0;
      assert buf[..n] == [];
    }

    /** What a failed write left over moves to the front: copy(b.buf[0:b.n-n], b.buf[n:b.n]); b.n -= n */
    method Keep(k: nat)
      requires n <= buf.Length && k <= n
      modifies this`n, buf
      ensures n == old(n) - k && buf[..n] == old(buf[..n])[k..]
    {
      if k > 0 && k < n {
        forall i | 0 <= i < n - k {
          buf[i] := buf[k + i];
        }
      }
      n := n - k;
    }

    /** b.n += copy(b.buf[b.n:], p) */
    method Buffer(p: seq<Byte>) returns (k: nat)
      requires Valid()
      modifies this`n, this`accepted, buf
      ensures Valid() && k == Min(|p|, buf.Length - old(n)) && n == old(n) + k && accepted == old(accepted) + p[..k]
    {
      k := Min(|p|, buf.Length - n);
      ghost var before := buf[..n];
      forall i | 0 <= i < k {
        buf[n + i] := p[i];
      }
      n := n + k;
      accepted := accepted + p[..k];
      assert buf[..n] == before + p[..k];
    }

    /** Takes all of p, or reports how much of it was taken and why; after an error, nothing. */
    method Write(p: seq<Byte>) returns (nn: nat, e: Option<WriteErr>)
      requires Valid()
      modifies this, buf, wr
      ensures Valid() && nn <= |p| && accepted == old(accepted) + p[..nn]
      ensures e == err && (e.None? ==> nn == |p|)
      ensures old(err).Some? ==> nn == 0 && err == old(err) && wr.data == old(wr.data) && n == old(n)
    {
      nn := 0;
      while |p| - nn > buf.Length - n && err.None?
        invariant Valid() && nn <= |p| && accepted == old(accepted) + p[..nn]
        invariant old(err).Some? ==> nn == 0 && err == old(err) && wr.data == old(wr.data) && n == old(n)
        decreases err.None?, |p| - nn, n
      {
        var k := WriteRound(p[nn..]);
        assert p[..nn] + p[nn..][..k] == p[..nn + k];
        nn := nn + k;
      }
      if err.Some? {
        return nn, err;
      }
      var k := Buffer(p[nn..]);
      assert p[..nn] + p[nn..][..k] == p[..nn + k];
      nn := nn + k;
      e := None;
    }

    /** One round of Write's loop: straight to the sink, or through a full buffer. */
    method WriteRound(p: seq<Byte>) returns (k: nat)
      requires Valid() && err.None? && |p| > buf.Length - n
      modifies this, buf, wr
      ensures Valid() && k <= |p| && accepted == old(accepted) + p[..k]
      ensures err.None? ==> k > 0 || n < old(n)
    {
      if n == 0 {
        k := WriteThrough(p);
      } else {
        k := Buffer(p);
        var ignored := Flush();
      }
    }

    /** The large write: n, b.err = b.wr.Write(p) */
    method WriteThrough(p: seq<Byte>) returns (k: nat)
      requires Valid() && n == 0 && err.None? && p != []
      modifies this`err, this`accepted, wr
      ensures Valid() && k <= |p| && accepted == old(accepted) + p[..k]
      ensures err.None? ==> k > 0
    {
      k, err := wr.Write(p);
      accepted := accepted + p[..k];
    }

    method WriteByte(c: Byte) returns (e: Option<WriteErr>)
      requires Valid()
      modifies this, buf, wr
      ensures Valid() && e == err
      ensures accepted == old(accepted) + (if e.None? then [c] else [])
      ensures old(err).Some? ==> err == old(err) && wr.data == old(wr.data) && n == old(n)
    {
      if err.Some? {
        return err;
      }
      if buf.Length - n <= 0 {
        e := Flush();
        if e.Some? {
          return err;
        }
      }
      var k := Buffer([c]);
      e := None;
    }

    /** The encoding of r is written whole or not at all, unless the buffer is smaller than a rune. */
    method WriteRune(r: int) returns (size: nat, e: Option<WriteErr>)
      requires Valid()
      modifies this, buf, wr
      ensures Valid() && e == err && size <= |Encode(r)| && accepted == old(accepted) + Encode(r)[..size]
      ensures e.None? ==> size == |Encode(r)|
      ensures e.Some? && buf.Length >= UTF_MAX ==> size == 0
      ensures old(err).Some? ==> size == 0 && err == old(err)
    {
      if 0 <= r < RUNE_SELF {
        AsciiEncoding(r);
        e := WriteByte(r);
        return if e.None? then 1 else 0, e;
      }
      if err.Some? {
        return 0, err;
      }
      var avail := buf.Length - n;
      if avail < UTF_MAX {
        var ignored := Flush();
        if err.Some? {
          return 0, err;
        }
        avail := buf.Length - n;
        if avail < UTF_MAX {
          size, e := Write(Encode(r));
          return;
        }
      }
      size := Buffer(Encode(r));
      e := None;
    }
  }

  lemma Rejoin(d: seq<Byte>, all: seq<Byte>, k: nat)
    requires k <= |all|
    ensures d + all[..k] + all[k..] == d + all && (k == |all| ==> d + all[..k] == d + all + [])
  {
    assert all[..k] + all[k..] == all;
  }

  lemma AsciiEncoding(r: int)
    requires 0 <= r < RUNE_SELF
    ensures Encode(r) == [r]
  {
  }

  // ---- a whole sequence of writes ----

  /** The first counts[i] bytes of each chunk, in order. */
  function Taken(chunks: seq<seq<Byte>>, counts: seq<nat>): seq<Byte>
    requires |counts| == |chunks|
  {
    if chunks == [] then []
    else
      var k := |chunks| - 1;
      Taken(chunks[..k], counts[..k]) + chunks[k][..Min(counts[k], |chunks[k]|)]
  }

  lemma TakenSnoc(chunks: seq<seq<Byte>>, counts: seq<nat>, chunk: seq<Byte>, k: nat)
    requires |counts| == |chunks| && k <= |chunk|
    ensures Taken(chunks + [chunk], counts + [k]) == Taken(chunks, counts) + chunk[..k]
  {
    assert (chunks + [chunk])[..|chunks|] == chunks && (counts + [k])[..|counts|] == counts;
  }

  /** Any number of writes and a final Flush: sink and buffer together hold exactly the prefixes the calls
      reported, once a call falls short nothing more is taken, and if Flush succeeds everything arrived. */
  method WriteAll(w: Writer, chunks: seq<seq<Byte>>) returns (counts: seq<nat>, e: Option<WriteErr>)
    requires w.Valid()
    modifies w, w.buf, w.wr
    ensures w.Valid() && |counts| == |chunks|
    ensures w.wr.data + w.buf[..w.n] == old(w.wr.data + w.buf[..w.n]) + Taken(chunks, counts)
    ensures forall i, j :: 0 <= i < j < |chunks| && counts[i] < |chunks[i]| ==> counts[j] == 0
    ensures e.None? ==> w.wr.data == old(w.wr.data + w.buf[..w.n]) + Flatten(chunks)
  {
    hide Taken, Flatten, Writer.Valid;
    InPlace(w);
    ghost var before := w.accepted;
    counts := [];
    Nothing();
    for i := 0 to |chunks|
      invariant w.Valid() && |counts| == i && w.accepted == before + Taken(chunks[..i], counts)
      invariant w.err.None? ==> Taken(chunks[..i], counts) == Flatten(chunks[..i])
      invariant forall j :: 0 <= j < i && counts[j] < |chunks[j]| ==> w.err.Some?
      invariant forall j, k :: 0 <= j < k < i && counts[j] < |chunks[j]| ==> counts[k] == 0
    {
      var n, err := w.Write(chunks[i]);
      ghost var taken, piece := Taken(chunks[..i], counts), chunks[i][..n];
      assert before + taken + piece == before + (taken + piece);
      assert chunks[..i + 1] == chunks[..i] + [chunks[i]];
      TakenSnoc(chunks[..i], counts, chunks[i], n);
      FlattenSnoc(chunks[..i], chunks[i]);
      assert n == |chunks[i]| ==> chunks[i][..n] == chunks[i];
      counts := counts + [n];
    }
    assert chunks[..|chunks|] == chunks;
    e := w.Flush();
    InPlace(w);
  }

  lemma InPlace(w: Writer)
    requires w.Valid()
    ensures w.n <= w.buf.Length && w.wr.data + w.buf[..w.n] == w.accepted
  {
  }

  lemma Nothing()
    ensures Taken([], []) == [] == Flatten([])
  {
  }
}
