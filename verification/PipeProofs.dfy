/** The pipe's guarantees over every run. */
module PipeProofs {
  import opened Basics
  import opened Pipe

  // ---- histories ----

  /** Copying the next chunk extends both histories alike. */
  lemma ChunkDelivered(copied: seq<seq<Byte>>, ws: seq<Write>, chunk: seq<Byte>)
    requires ws != [] && Flatten(copied) == Delivered(ws)
    requires var w := ws[|ws| - 1]; w.sent + |chunk| <= |w.data| && chunk == w.data[w.sent..w.sent + |chunk|]
    ensures Flatten(copied + [chunk]) == Delivered(Count(ws, |chunk|))
  {
    hide Flatten, Delivered;
    FlattenSnoc(copied, chunk);
    DeliveredCount(ws, chunk);
  }

  lemma DeliveredCount(ws: seq<Write>, chunk: seq<Byte>)
    requires ws != []
    requires var w := ws[|ws| - 1]; w.sent + |chunk| <= |w.data| && chunk == w.data[w.sent..w.sent + |chunk|]
    ensures Delivered(Count(ws, |chunk|)) == Delivered(ws) + chunk
  {
    var w, ws' := ws[|ws| - 1], Count(ws, |chunk|);
    assert ws'[..|ws| - 1] == ws[..|ws| - 1];
    assert w.data[..w.sent] + chunk == w.data[..w.sent + |chunk|];
  }

  lemma NewWrite(ws: seq<Write>, data: seq<Byte>)
    ensures Delivered(ws + [Write(data, 0)]) == Delivered(ws)
  {
    assert (ws + [Write(data, 0)])[..|ws|] == ws;
  }

  // ---- reads and their places ----

  /** Steps that append at most one chunk, for goroutine t alone. */
  lemma ReadsKept(s: State, s': State, t: Tid)
    requires Inv(s) && t < |s.threads| && |s'.threads| == |s.threads|
    requires s'.copied == s.copied || (s'.threads[t].RAck? && s'.copied == s.copied + [s'.threads[t].chunk])
    requires forall u: Tid :: u < |s.threads| && u != t ==>
               Slot(s'.threads[u]) == Slot(s.threads[u]) && ReadOk(s.(threads := s'.threads), u)
    requires ReadOk(s', t)
    requires Slot(s'.threads[t]).None? || Slot(s'.threads[t]) == Slot(s.threads[t])
             || (Slot(s'.threads[t]) == Some(|s.copied|) && s'.copied != s.copied)
    ensures SlotsDistinct(s') && forall u: Tid :: u < |s'.threads| ==> ReadOk(s', u)
  {
    hide HolderOk, OneCopying, WriterOk, ReaderOk, WrittenOk, ErrOk, Flatten, Delivered;
    forall u: Tid | u < |s'.threads|
      ensures ReadOk(s', u)
    {
      assert u != t ==> ReadOk(s.(threads := s'.threads), u);
    }
    forall u: Tid, v: Tid | u < |s'.threads| && v < |s'.threads| && SameSlot(s'.threads[u], s'.threads[v])
      ensures u == v
    {
      assert SameSlot(s.threads[u], s.threads[v]) ==> u == v;
      assert ReadOk(s, u) && ReadOk(s, v);
    }
  }

  /** When only goroutine t moves and keeps or drops its place. */
  lemma ReadsMove(s: State, t: Tid, th: Thread, s': State)
    requires Inv(s) && t < |s.threads| && s'.threads == s.threads[t := th] && s'.copied == s.copied
    requires Slot(th).None? || Slot(th) == Slot(s.threads[t])
    requires ReadOk(s', t)
    ensures SlotsDistinct(s') && forall u: Tid :: u < |s'.threads| ==> ReadOk(s', u)
  {
    hide HolderOk, OneCopying, WriterOk, ReaderOk, WrittenOk, ErrOk, Flatten, Delivered;
    forall u: Tid | u < |s.threads| && u != t
      ensures ReadOk(s.(threads := s'.threads), u)
    {
      assert ReadOk(s, u);
    }
    ReadsKept(s, s', t);
  }

  // ---- the invariant is kept ----

  /** Steps that only move one goroutine outside the critical section and outside a copy. */
  predicate Bystander(th: Thread) {
    !InSection(th) && !Copying(th)
  }

  lemma MoveBystander(s: State, t: Tid, th: Thread)
    requires Inv(s) && t < |s.threads| && Bystander(s.threads[t]) && Bystander(th)
    requires !th.WDone? || th.rec.None?
    requires th.WDone? ==> th.n == 0 && th.wres.Some?
    requires ErrOk(Set(s, t, th), t)
    requires Slot(th).None? && ReadOk(Set(s, t, th), t)
    ensures Inv(Set(s, t, th))
  {
    hide Flatten, Delivered, ReadOk, Slot, SlotsDistinct;
    var s' := Set(s, t, th);
    ReadsMove(s, t, th, s');
    forall u: Tid | u < |s'.threads|
      ensures WriterOk(s', u) && ReaderOk(s', u) && WrittenOk(s', u) && ErrOk(s', u)
    {
      assert WriterOk(s, u) && ReaderOk(s, u) && WrittenOk(s, u) && ErrOk(s, u);
      if InSection(s'.threads[u]) && s'.threads[u].WAwait? {
        var v: Tid :| v < |s.threads| && Copying(s.threads[v]);
        assert Copying(s'.threads[v]);
      }
    }
  }

  /** The holder moves inside the critical section without touching the counts. */
  lemma MoveHolder(s: State, t: Tid, th: Thread)
    requires Inv(s) && t < |s.threads| && InSection(s.threads[t]) && !s.threads[t].WAwait?
    requires InSection(th) && !th.WAwait? && th.data == s.threads[t].data && th.n == s.threads[t].n
    requires th.WUnlock? ==> th.wres.Some?
    requires ErrOk(Set(s, t, th), t)
    ensures Inv(Set(s, t, th))
  {
    hide Flatten, Delivered, SlotsDistinct;
    var s' := Set(s, t, th);
    ReadsMove(s, t, th, s');
    assert WriterOk(s, t);
    forall u: Tid | u < |s'.threads|
      ensures WriterOk(s', u) && ReaderOk(s', u) && WrittenOk(s', u) && ErrOk(s', u)
    {
      assert WriterOk(s, u) && ReaderOk(s, u) && WrittenOk(s, u) && ErrOk(s, u);
    }
  }

  lemma KeepCopy(s: State, t: Tid, s': State)
    requires Inv(s) && t < |s.threads| && s.threads[t].RCopy? && LocalStep(s, t) == Some(s')
    ensures Inv(s')
  {
    hide Flatten, Delivered, SlotsDistinct, ReadOk;
    assert ReaderOk(s, t) && WriterOk(s, s.holder.value);
    var w := s.threads[s.holder.value];
    var chunk := s'.threads[t].chunk;
    assert chunk == w.data[w.n..w.n + |chunk|];
    ChunkDelivered(s.copied, s.writes, chunk);
    CopyReads(s, t, s');
    forall u: Tid | u < |s'.threads|
      ensures WriterOk(s', u) && ReaderOk(s', u) && WrittenOk(s', u) && ErrOk(s', u)
    {
      assert WriterOk(s, u) && ReaderOk(s, u) && WrittenOk(s, u) && ErrOk(s, u);
      assert Copying(s'.threads[t]);
    }
  }

  lemma CopyReads(s: State, t: Tid, s': State)
    requires Inv(s) && t < |s.threads| && s.threads[t].RCopy? && LocalStep(s, t) == Some(s')
    ensures SlotsDistinct(s') && forall u: Tid :: u < |s'.threads| ==> ReadOk(s', u)
  {
    hide HolderOk, OneCopying, WriterOk, ReaderOk, WrittenOk, ErrOk, Flatten, Delivered;
    forall u: Tid | u < |s.threads| && u != t
      ensures ReadOk(s.(threads := s'.threads), u)
    {
      assert ReadOk(s, u);
    }
    ReadsKept(s, s', t);
  }

  lemma KeepLock(s: State, t: Tid, s': State)
    requires Inv(s) && t < |s.threads| && s.threads[t].WLock? && LocalStep(s, t) == Some(s')
    ensures Inv(s')
  {
    hide Flatten, Delivered, SlotsDistinct;
    ReadsMove(s, t, s'.threads[t], s');
    NewWrite(s.writes, s.threads[t].data);
    forall u: Tid | u < |s'.threads|
      ensures WriterOk(s', u) && ReaderOk(s', u) && WrittenOk(s', u) && ErrOk(s', u)
    {
      assert WriterOk(s, u) && ReaderOk(s, u) && WrittenOk(s, u) && ErrOk(s, u);
    }
  }

  lemma KeepUnlock(s: State, t: Tid, s': State)
    requires Inv(s) && t < |s.threads| && s.threads[t].WUnlock? && LocalStep(s, t) == Some(s')
    ensures Inv(s')
  {
    hide Flatten, Delivered, SlotsDistinct;
    ReadsMove(s, t, s'.threads[t], s');
    assert WriterOk(s, t) && ErrOk(s, t);
    forall u: Tid | u < |s'.threads|
      ensures WriterOk(s', u) && ReaderOk(s', u) && WrittenOk(s', u) && ErrOk(s', u)
    {
      assert WriterOk(s, u) && ReaderOk(s, u) && WrittenOk(s, u) && ErrOk(s, u);
    }
  }

  /** A close error is stored once, so errors already reported stay what they were. */
  lemma KeepStore(s: State, t: Tid, s': State)
    requires Inv(s) && t < |s.threads| && s.threads[t].CStore? && LocalStep(s, t) == Some(s')
    ensures Inv(s')
  {
    hide Flatten, Delivered, SlotsDistinct;
    ReadsMove(s, t, s'.threads[t], s');
    forall u: Tid | u < |s'.threads|
      ensures ErrOk(s', u)
    {
      assert ErrOk(s, u) && ErrOk(s, t);
    }
    ClosersApart(s, t, s');
  }

  lemma KeepClose(s: State, t: Tid, s': State)
    requires Inv(s) && t < |s.threads| && s.threads[t].CClose? && LocalStep(s, t) == Some(s')
    ensures Inv(s')
  {
    hide Flatten, Delivered, SlotsDistinct;
    ReadsMove(s, t, s'.threads[t], s');
    assert ErrOk(s, t);
    forall u: Tid | u < |s'.threads|
      ensures ErrOk(s', u)
    {
      assert ErrOk(s, u);
    }
    ClosersApart(s, t, s');
  }

  /** A closer is no reader and no writer, and leaves the histories alone. */
  lemma ClosersApart(s: State, t: Tid, s': State)
    requires Inv(s) && t < |s.threads| && (s.threads[t].CStore? || s.threads[t].CClose?)
    requires LocalStep(s, t) == Some(s')
    ensures HolderOk(s') && OneCopying(s')
    ensures forall u: Tid :: u < |s'.threads| ==> WriterOk(s', u) && ReaderOk(s', u) && WrittenOk(s', u)
  {
    hide Flatten, Delivered, ErrOk, ReadOk, SlotsDistinct, LocalStep;
    CloserShape(s, t, s');
    forall u: Tid | u < |s'.threads|
      ensures WriterOk(s', u) && ReaderOk(s', u) && WrittenOk(s', u)
    {
      assert WriterOk(s, u) && ReaderOk(s, u) && WrittenOk(s, u);
      if InSection(s'.threads[u]) && s'.threads[u].WAwait? {
        var v: Tid :| v < |s.threads| && Copying(s.threads[v]);
        assert Copying(s'.threads[v]);
      }
    }
  }

  lemma CloserShape(s: State, t: Tid, s': State)
    requires t < |s.threads| && (s.threads[t].CStore? || s.threads[t].CClose?) && LocalStep(s, t) == Some(s')
    ensures |s'.threads| == |s.threads| && (s'.threads[t].CClose? || s'.threads[t].CDone?)
    ensures s'.threads == s.threads[t := s'.threads[t]]
    ensures s'.holder == s.holder && s'.writes == s.writes && s'.copied == s.copied
  {
  }

  lemma KeepLocal(s: State, t: Tid, s': State)
    requires Inv(s) && t < |s.threads| && LocalStep(s, t) == Some(s')
    ensures Inv(s')
  {
    hide Flatten, Delivered, SlotsDistinct;
    assert ErrOk(s, t);
    var th := s.threads[t];
    if th.RCopy? {
      KeepCopy(s, t, s');
    } else if th.WLock? {
      KeepLock(s, t, s');
    } else if th.WUnlock? {
      KeepUnlock(s, t, s');
    } else if th.CStore? {
      KeepStore(s, t, s');
    } else if th.CClose? {
      KeepClose(s, t, s');
    } else if th.WSelect? || ((th.WErr? || th.WErr2?) && th.locked) {
      MoveHolder(s, t, s'.threads[t]);
    } else {
      MoveBystander(s, t, s'.threads[t]);
    }
  }

  /** A rendezvous gives the reader no new place beyond the one it had; the writer has none. */
  lemma TwoReads(s: State, t: Tid, u: Tid, s': State)
    requires Inv(s) && t < |s.threads| && u < |s.threads|
    requires TransferStep(s, t, u) == Some(s') || AckStep(s, t, u) == Some(s')
    ensures SlotsDistinct(s') && forall v: Tid :: v < |s'.threads| ==> ReadOk(s', v)
  {
    hide HolderOk, OneCopying, WriterOk, ReaderOk, WrittenOk, ErrOk, Flatten, Delivered;
    assert ReadOk(s, t) && ReadOk(s, u);
    forall v: Tid | v < |s.threads| && v != t
      ensures ReadOk(s.(threads := s'.threads), v)
    {
      assert ReadOk(s, v);
    }
    ReadsKept(s, s', t);
  }

  lemma KeepTransfer(s: State, t: Tid, u: Tid, s': State)
    requires Inv(s) && t < |s.threads| && u < |s.threads| && TransferStep(s, t, u) == Some(s')
    ensures Inv(s')
  {
    hide Flatten, Delivered, SlotsDistinct, ReadOk;
    assert WriterOk(s, u);
    TwoReads(s, t, u, s');
    forall v: Tid | v < |s'.threads|
      ensures WriterOk(s', v) && ReaderOk(s', v) && WrittenOk(s', v) && ErrOk(s', v)
      ensures Copying(s'.threads[v]) ==> v == t
    {
      assert WriterOk(s, v) && ReaderOk(s, v) && WrittenOk(s, v) && ErrOk(s, v);
      assert Copying(s'.threads[t]);
    }
  }

  /** The ack on rdCh reaches the one writer waiting for it. */
  lemma KeepAck(s: State, t: Tid, u: Tid, s': State)
    requires Inv(s) && t < |s.threads| && u < |s.threads| && AckStep(s, t, u) == Some(s')
    ensures Inv(s')
  {
    hide Flatten, Delivered, SlotsDistinct, ReadOk;
    assert WriterOk(s, u) && ReaderOk(s, t);
    TwoReads(s, t, u, s');
    forall v: Tid | v < |s'.threads|
      ensures WriterOk(s', v) && ReaderOk(s', v) && WrittenOk(s', v) && ErrOk(s', v)
      ensures !Copying(s'.threads[v])
    {
      assert WriterOk(s, v) && ReaderOk(s, v) && WrittenOk(s, v) && ErrOk(s, v);
    }
  }

  lemma KeepStart(s: State, t: Tid, call: Call, s': State)
    requires Inv(s) && t < |s.threads| && StartStep(s, t, call) == Some(s')
    ensures Inv(s')
  {
    MoveBystander(s, t, s'.threads[t]);
  }

  lemma NextKeeps(s: State, s': State)
    requires Inv(s) && Next(s, s')
    ensures Inv(s')
  {
    hide Inv, LocalStep, TransferStep, AckStep, StartStep;
    if exists t: Tid :: t < |s.threads| && LocalStep(s, t) == Some(s') {
      var t: Tid :| t < |s.threads| && LocalStep(s, t) == Some(s');
      KeepLocal(s, t, s');
    } else if exists t: Tid, u: Tid :: t < |s.threads| && u < |s.threads| && TransferStep(s, t, u) == Some(s') {
      var t: Tid, u: Tid :| t < |s.threads| && u < |s.threads| && TransferStep(s, t, u) == Some(s');
      KeepTransfer(s, t, u, s');
    } else if exists t: Tid, u: Tid :: t < |s.threads| && u < |s.threads| && AckStep(s, t, u) == Some(s') {
      var t: Tid, u: Tid :| t < |s.threads| && u < |s.threads| && AckStep(s, t, u) == Some(s');
      KeepAck(s, t, u, s');
    } else {
      var t: Tid, call: Call :| t < |s.threads| && StartStep(s, t, call) == Some(s');
      KeepStart(s, t, call, s');
    }
  }

  lemma {:induction false} RunInv(run: seq<State>, i: nat)
    requires Run(run) && i < |run|
    ensures Inv(run[i])
  {
    hide Next;
    if i > 0 {
      RunInv(run, i - 1);
      assert Next(run[i - 1], run[i - 1 + 1]);
      NextKeeps(run[i - 1], run[i]);
    }
  }

  // ---- theorems ----

  /** In every interleaving the chunks copied to readers, in order, are exactly the delivered prefixes of
      the writes, in the order the writes got wrMu. */
  lemma BytesInOrder(run: seq<State>, i: nat)
    requires Run(run) && i < |run|
    ensures Flatten(run[i].copied) == Delivered(run[i].writes)
    ensures forall k: nat :: k < |run[i].writes| ==> run[i].writes[k].sent <= |run[i].writes[k].data|
  {
    RunInv(run, i);
  }

  /** A write returns the number of its bytes that were delivered, and nil only when that is all of them. */
  lemma WriteResult(run: seq<State>, i: nat, t: Tid)
    requires Run(run) && i < |run| && t < |run[i].threads| && run[i].threads[t].WDone?
    ensures var w := run[i].threads[t];
            && (w.rec.None? ==> w.n == 0)
            && (w.rec.Some? ==> w.rec.value < |run[i].writes| && run[i].writes[w.rec.value] == Write(w.data, w.n))
            && (w.wres.None? ==> w.rec.Some? && w.n == |w.data|)
  {
    hide Run, Flatten, Delivered;
    RunInv(run, i);
    assert WrittenOk(run[i], t);
  }

  /** A successful read returns a chunk of the history that no other read returns. */
  lemma ReadResult(run: seq<State>, i: nat, t: Tid)
    requires Run(run) && i < |run| && t < |run[i].threads| && run[i].threads[t].RDone?
    ensures var r := run[i].threads[t];
            if r.rres.Some? then r.got == []
            else r.at.Some? && r.at.value < |run[i].copied| && r.got == run[i].copied[r.at.value]
                 && forall u: Tid :: u < |run[i].threads| && u != t ==> Slot(run[i].threads[u]) != r.at
  {
    hide Run, Flatten, Delivered;
    RunInv(run, i);
    assert ReadOk(run[i], t) && ErrOk(run[i], t);
  }

  /** Every ack meets the one writer waiting for it, which is the one whose bytes were copied. */
  lemma AckMeetsWriter(run: seq<State>, i: nat, t: Tid)
    requires Run(run) && i < |run| && t < |run[i].threads| && run[i].threads[t].RAck?
    ensures exists u: Tid :: u < |run[i].threads| && AckStep(run[i], t, u).Some?
    ensures forall u: Tid :: u < |run[i].threads| && AckStep(run[i], t, u).Some? ==>
              var w := run[i].threads[u]; var chunk := run[i].threads[t].chunk;
              run[i].holder == Some(u) && w.n + |chunk| <= |w.data| && chunk == w.data[w.n..w.n + |chunk|]
  {
    hide Run, Flatten, Delivered, ReadOk, SlotsDistinct;
    RunInv(run, i);
    assert ReaderOk(run[i], t);
    assert AckStep(run[i], t, run[i].holder.value).Some?;
  }

  /** A failed read reports the writer's close error, or ErrClosedPipe because the read end was closed;
      a failed write likewise the other way round. */
  lemma CloseErrors(run: seq<State>, i: nat, t: Tid)
    requires Run(run) && i < |run| && t < |run[i].threads|
    ensures var s, th := run[i], run[i].threads[t];
            && (th.RDone? && th.rres.Some? ==> s.werr == th.rres || (s.rerr.Some? && th.rres == Some(ErrClosedPipe)))
            && (th.WDone? && th.wres.Some? ==> s.rerr == th.wres || (s.werr.Some? && th.wres == Some(ErrClosedPipe)))
  {
    hide Run, Flatten, Delivered;
    RunInv(run, i);
    assert ErrOk(run[i], t);
  }

  predicate StaysClosed(s: State, s': State) {
    && (s.done ==> s'.done) && (s.rerr.Some? ==> s'.rerr == s.rerr) && (s.werr.Some? ==> s'.werr == s.werr)
  }

  lemma LocalStaysClosed(s: State, t: Tid, s': State)
    requires t < |s.threads| && LocalStep(s, t) == Some(s')
    ensures StaysClosed(s, s')
  {
  }

  lemma NextStaysClosed(s: State, s': State)
    requires Next(s, s')
    ensures StaysClosed(s, s')
  {
    hide LocalStep;
    if exists t: Tid :: t < |s.threads| && LocalStep(s, t) == Some(s') {
      var t: Tid :| t < |s.threads| && LocalStep(s, t) == Some(s');
      LocalStaysClosed(s, t, s');
    }
  }

  /** done stays closed and each end's error is the first one stored. */
  lemma {:induction false} ClosedForGood(run: seq<State>, i: nat, j: nat)
    requires Run(run) && i <= j < |run|
    ensures StaysClosed(run[i], run[j])
    decreases j
  {
    hide Next;
    if i < j {
      ClosedForGood(run, i, j - 1);
      assert Next(run[j - 1], run[j - 1 + 1]);
      NextStaysClosed(run[j - 1], run[j]);
    }
  }

  // ---- every call returns once the pipe is closed ----

  /** How much of its call a goroutine has left. */
  function Rank(th: Thread): nat {
    match th
    case Idle => 0
    case RCheck(_) => 6
    case RSelect(_) => 5
    case RCopy(_, _) => 4
    case RAck(_, _) => 3
    case RErr => 2
    case RErr2(_) => 1
    case RDone(_, _, _) => 0
    case WCheck(_) => 9
    case WLock(_) => 8
    case WSelect(_, _) => 6
    case WAwait(_, _) => 6
    case WErr(_, _, _) => 4
    case WErr2(_, _, _, _) => 3
    case WUnlock(_, _, _) => 2
    case WDone(_, _, _, _) => 0
    case CStore(_, _) => 2
    case CClose(_) => 1
    case CDone => 0
  }

  function Work(ths: seq<Thread>): nat {
    if ths == [] then 0 else Rank(ths[0]) + Work(ths[1..])
  }

  lemma {:induction false} WorkUpdate(ths: seq<Thread>, t: nat, th: Thread)
    requires t < |ths|
    ensures Work(ths[t := th]) == Work(ths) - Rank(ths[t]) + Rank(th)
  {
    hide Rank;
    if t == 0 {
      assert ths[t := th][1..] == ths[1..];
    } else {
      assert ths[t := th][1..] == ths[1..][t - 1 := th];
      WorkUpdate(ths[1..], t - 1, th);
    }
  }

  lemma LocalUsesWork(s: State, t: Tid, s': State)
    requires t < |s.threads| && LocalStep(s, t) == Some(s')
    ensures Work(s'.threads) < Work(s.threads)
  {
    hide Work;
    hide LocalStep;
    LocalRank(s, t, s');
    WorkUpdate(s.threads, t, s'.threads[t]);
  }

  lemma LocalRank(s: State, t: Tid, s': State)
    requires t < |s.threads| && LocalStep(s, t) == Some(s')
    ensures |s'.threads| == |s.threads| && s'.threads == s.threads[t := s'.threads[t]]
    ensures Rank(s'.threads[t]) < Rank(s.threads[t])
  {
  }

  lemma MeetingUsesWork(s: State, t: Tid, u: Tid, s': State)
    requires t < |s.threads| && u < |s.threads|
    requires TransferStep(s, t, u) == Some(s') || AckStep(s, t, u) == Some(s')
    ensures Work(s'.threads) < Work(s.threads)
  {
    hide Work;
    WorkUpdate(s.threads, t, s'.threads[t]);
    WorkUpdate(s.threads[t := s'.threads[t]], u, s'.threads[u]);
  }

  /** Every step inside a call uses up work, so calls under way take finitely many steps. */
  lemma StepsUseWork(s: State, s': State)
    requires Progress(s, s')
    ensures Work(s'.threads) < Work(s.threads)
  {
    hide Work, LocalStep, TransferStep, AckStep;
    if exists t: Tid :: t < |s.threads| && LocalStep(s, t) == Some(s') {
      var t: Tid :| t < |s.threads| && LocalStep(s, t) == Some(s');
      LocalUsesWork(s, t, s');
    } else if exists t: Tid, u: Tid :: t < |s.threads| && u < |s.threads| && TransferStep(s, t, u) == Some(s') {
      var t: Tid, u: Tid :| t < |s.threads| && u < |s.threads| && TransferStep(s, t, u) == Some(s');
      MeetingUsesWork(s, t, u, s');
    } else {
      var t: Tid, u: Tid :| t < |s.threads| && u < |s.threads| && AckStep(s, t, u) == Some(s');
      MeetingUsesWork(s, t, u, s');
    }
  }

  ghost predicate Stuck(s: State) {
    && (forall t: Tid :: t < |s.threads| ==> LocalStep(s, t).None?)
    && (forall t: Tid, u: Tid :: t < |s.threads| && u < |s.threads| ==> TransferStep(s, t, u).None? && AckStep(s, t, u).None?)
  }

  /** When nothing can move, either every call has returned, or the pipe is open and only one side is
      waiting: readers for a writer, or a writer (and those queued on wrMu) for a reader. */
  lemma StuckMeansUnmatched(run: seq<State>, i: nat, t: Tid, u: Tid)
    requires Run(run) && i < |run| && Stuck(run[i]) && t < |run[i].threads| && u < |run[i].threads|
    ensures var s := run[i];
            && (s.done ==> Returned(s.threads[t]))
            && (Returned(s.threads[t]) || s.threads[t].RSelect? || s.threads[t].WSelect? || s.threads[t].WLock?)
            && !(s.threads[t].RSelect? && (s.threads[u].WSelect? || s.threads[u].WLock?))
  {
    hide Run, Flatten, Delivered, ReadOk, SlotsDistinct;
    RunInv(run, i);
    var s := run[i];
    StuckThread(s, t);
    StuckThread(s, u);
    if s.threads[t].RSelect? && s.threads[u].WLock? {
      StuckThread(s, s.holder.value);
    }
    assert WriterOk(s, t) && WriterOk(s, u);
    assert TransferStep(s, t, u).None?;
    if s.holder.Some? {
      StuckThread(s, s.holder.value);
      assert WriterOk(s, s.holder.value);
      assert TransferStep(s, t, s.holder.value).None?;
    }
  }

  lemma StuckThread(s: State, t: Tid)
    requires Inv(s) && Stuck(s) && t < |s.threads|
    ensures Returned(s.threads[t]) || (s.threads[t].RSelect? && !s.done) || (s.threads[t].WSelect? && !s.done)
            || (s.threads[t].WLock? && s.holder.Some?)
  {
    hide Inv, Stuck, LocalStep;
    if !Waiting(s, t) { SomeoneMoves(s, t); }
  }

  predicate Waiting(s: State, t: Tid)
    requires t < |s.threads|
  {
    Returned(s.threads[t]) || (s.threads[t].RSelect? && !s.done) || (s.threads[t].WSelect? && !s.done)
    || (s.threads[t].WLock? && s.holder.Some?)
  }

  /** A goroutine that is not waiting for a partner, for wrMu or for a new call can move, or the reader or
      writer it is handing over to can. */
  lemma SomeoneMoves(s: State, t: Tid)
    requires Inv(s) && t < |s.threads| && !Waiting(s, t)
    ensures !Stuck(s)
  {
    hide Flatten, Delivered, ReadOk, SlotsDistinct, WrittenOk, ErrOk;
    assert WriterOk(s, t) && ReaderOk(s, t);
    if s.threads[t].WAwait? {
      var v: Tid :| v < |s.threads| && Copying(s.threads[v]);
      assert LocalStep(s, v).Some? || AckStep(s, v, t).Some?;
    } else if s.threads[t].RAck? {
      assert AckStep(s, t, s.holder.value).Some?;
    } else {
      assert LocalStep(s, t).Some?;
    }
  }
}
