/** Readers as the io.Reader contract allows them (io/io.go), for the buffered code on top. */
module ByteReaders {
  import opened Basics

  datatype Err = EOF | Fault(code: int) | ErrTooLong | ErrNoProgress | ErrBufferFull | ErrNegativeCount
    | ErrInvalidUnreadByte | ErrInvalidUnreadRune

  const MAX_CONSECUTIVE_EMPTY_READS: nat := 100

  /** Every Read delivers any number of the bytes left, at most `patience` empty ones in a row, and reports
      the error at the end with the last bytes or after them, and again whenever it is asked. */
  class ByteReader {
    var rest: seq<Byte>
    var idle: nat
    const patience: nat
    const end: Err

    ghost predicate Valid()
      reads this
    {
      idle <= patience && (end == EOF || end.Fault?)
    }

    constructor (data: seq<Byte>, e: Err, most: nat)
      requires e == EOF || e.Fault?
      ensures Valid() && rest == data && end == e && patience == most
    {
      rest, end, idle, patience := data, e, 0, most;
    }

    /** Read(buf[lo:len(buf)]) */
    method Read(buf: array<Byte>, lo: nat) returns (n: nat, err: Option<Err>)
      requires lo < buf.Length && Valid()
      modifies this, buf
      ensures Valid() && n <= buf.Length - lo && n <= |old(rest)|
      ensures rest == old(rest)[n..] && buf[lo..lo + n] == old(rest)[..n]
      ensures forall i :: 0 <= i < buf.Length && !(lo <= i < lo + n) ==> buf[i] == old(buf[i])
      ensures err.Some? ==> err.value == end && rest == []
      ensures idle == if n > 0 || err.Some? then 0 else old(idle) + 1
    {
      var most := Min(buf.Length - lo, |rest|);
      var k: nat :| k <= most && (idle == patience && rest != [] ==> k > 0);
      n := k;
      ghost var was := rest;
      forall i | 0 <= i < n {
        buf[lo + i] := rest[i];
      }
      assert buf[lo..lo + n] == was[..n];
      rest := rest[n..];
      var finish: bool :| (finish ==> rest == []) && (idle == patience && n == 0 ==> finish);
      err := if finish then Some(end) else None;
      idle := if n > 0 || finish then 0 else idle + 1;
    }
  }
}
