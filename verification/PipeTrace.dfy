/** Runs of a pipe with the calls that make them: every result answers the arguments of its own call. */
module PipeTraces {
  import opened Basics
  import opened Pipe
  import opened PipeProofs

  /** A step inside calls, or goroutine t beginning one. */
  datatype Event = Internal | Start(t: Tid, call: Call)

  ghost predicate Happens(s: State, e: Event, s': State) {
    match e
    case Internal => Progress(s, s')
    case Start(t, call) => t < |s.threads| && StartStep(s, t, call) == Some(s')
  }

  /** The events of a run, one for each step. */
  ghost predicate Trace(run: seq<State>, events: seq<Event>) {
    && |run| == |events| + 1 && Init(run[0])
    && forall i: nat :: i < |events| ==> Happens(run[i], events[i], run[i + 1])
  }

  lemma TraceIsRun(run: seq<State>, events: seq<Event>)
    requires Trace(run, events)
    ensures Run(run) && |run| == |events| + 1
  {
    hide Progress, StartStep, Init;
    forall i: nat | i + 1 < |run|
      ensures Next(run[i], run[i + 1])
    {
      assert Happens(run[i], events[i], run[i + 1]);
    }
  }

  /** Every run has its events. */
  lemma {:induction false} RunHasTrace(run: seq<State>) returns (events: seq<Event>)
    requires Run(run)
    ensures Trace(run, events)
    decreases |run|
  {
    hide Progress, StartStep, Init;
    if |run| == 1 {
      events := [];
    } else {
      var k := |run| - 2;
      assert Next(run[k], run[k + 1]);
      var before := RunHasTrace(run[..k + 1]);
      var e: Event;
      if Progress(run[k], run[k + 1]) {
        e := Internal;
      } else {
        var t: Tid, call: Call :| t < |run[k].threads| && StartStep(run[k], t, call) == Some(run[k + 1]);
        e := Start(t, call);
      }
      events := before + [e];
      forall i: nat | i < |events|
        ensures Happens(run[i], events[i], run[i + 1])
      {
        if i < k { assert Happens(run[..k + 1][i], before[i], run[..k + 1][i + 1]); }
      }
    }
  }

  // ---- a call and the goroutine serving it ----

  /** What closing a side with c stores: c itself, or EOF for the write end and ErrClosedPipe for the read end. */
  predicate Stores(side: Side, c: Option<Err>, e: Err) {
    c == Some(e) || (c == None && e == match side case WriteSide => EOF case ReadSide => ErrClosedPipe)
  }

  function ErrOf(s: State, side: Side): Option<Err> {
    match side case WriteSide => s.werr case ReadSide => s.rerr
  }

  /** A read takes as much as fits or as much as the waiting writer offers, whichever is less. */
  predicate Takes(s: State, chunk: seq<Byte>, size: nat) {
    && |chunk| <= size
    && (|chunk| == size
        || (s.holder.Some? && s.holder.value < |s.threads| && s.threads[s.holder.value].WAwait?
            && s.threads[s.holder.value].n + |chunk| == |s.threads[s.holder.value].data|))
  }

  /** th is serving call, which began when done was already closed or not. */
  ghost predicate Serves(s: State, call: Call, closed: bool, th: Thread) {
    match call
    case Read(size) =>
      || (th.RCheck? && th.size == size)
      || ((th.RSelect? || th.RCopy?) && th.size == size && !closed)
      || (th.RAck? && Takes(s, th.chunk, size) && !closed)
      || th.RErr? || th.RErr2?
      || (th.RDone? && (th.rres.None? ==> |th.got| <= size && !closed))
    case WriteCall(data) =>
      || (th.WCheck? && th.data == data)
      || ((th.WLock? || th.WSelect? || th.WAwait? || th.WUnlock?) && th.data == data && !closed)
      || ((th.WErr? || th.WErr2?) && th.data == data && (closed ==> !th.locked && th.n == 0))
      || (th.WDone? && th.data == data && (closed ==> th.rec == None && th.n == 0 && th.wres.Some?))
    case CloseCall(side, c) =>
      || (th.CStore? && th.side == side && Stores(side, c, th.err))
      || (th.CClose? && th.side == side && ErrOf(s, side).Some?)
      || (th.CDone? && s.done && ErrOf(s, side).Some?)
  }

  /** A local step leaves the others alone, and a lock that is another's. */
  lemma LocalElsewhere(s: State, t: Tid, s': State, v: Tid)
    requires t < |s.threads| && LocalStep(s, t) == Some(s') && v < |s.threads| && v != t
    ensures v < |s'.threads| && s'.threads[v] == s.threads[v] && (s.holder == Some(v) ==> s'.holder == s.holder || s.threads[t].WUnlock?)
  {
  }

  lemma LocalServes(s: State, t: Tid, s': State, v: Tid, call: Call, closed: bool)
    requires Inv(s) && t < |s.threads| && LocalStep(s, t) == Some(s') && v < |s.threads|
    requires Serves(s, call, closed, s.threads[v]) && (closed ==> s.done)
    ensures v < |s'.threads| && Serves(s', call, closed, s'.threads[v])
  {
    hide Flatten, Delivered, ReadOk, SlotsDistinct, WrittenOk, ErrOk, LocalStep;
    LocalStaysClosed(s, t, s');
    assert ReaderOk(s, v) && WriterOk(s, v);
    if v == t {
      SelfServes(s, t, s', call, closed);
    } else {
      LocalElsewhere(s, t, s', v);
      if s.threads[v].RAck? {
        WaiterStays(s, t, s', s.holder.value);
      }
    }
  }

  lemma WaiterStays(s: State, t: Tid, s': State, h: Tid)
    requires HolderOk(s) && t < |s.threads| && LocalStep(s, t) == Some(s')
    requires s.holder == Some(h) && h < |s.threads| && s.threads[h].WAwait?
    ensures h < |s'.threads| && s'.threads[h] == s.threads[h] && s'.holder == s.holder
  {
    hide LocalStep;
    Awaiting(s, t, s', h);
    LocalElsewhere(s, t, s', h);
  }

  lemma Awaiting(s: State, t: Tid, s': State, h: Tid)
    requires t < |s.threads| && LocalStep(s, t) == Some(s') && h < |s.threads| && s.threads[h].WAwait?
    ensures t != h
  {
  }

  lemma SelfServes(s: State, t: Tid, s': State, call: Call, closed: bool)
    requires t < |s.threads| && LocalStep(s, t) == Some(s') && ReaderOk(s, t)
    requires Serves(s, call, closed, s.threads[t]) && (closed ==> s.done)
    ensures t < |s'.threads| && Serves(s', call, closed, s'.threads[t])
  {
  }

  lemma MeetingServes(s: State, t: Tid, u: Tid, s': State, v: Tid, call: Call, closed: bool)
    requires Inv(s) && t < |s.threads| && u < |s.threads| && v < |s.threads|
    requires TransferStep(s, t, u) == Some(s') || AckStep(s, t, u) == Some(s')
    requires Serves(s, call, closed, s.threads[v]) && (closed ==> s.done)
    ensures v < |s'.threads| && Serves(s', call, closed, s'.threads[v])
  {
    hide Flatten, Delivered, ReadOk, SlotsDistinct, WrittenOk, ErrOk;
    assert ReaderOk(s, v);
  }

  lemma StartServes(s: State, t: Tid, other: Call, s': State, v: Tid, call: Call, closed: bool)
    requires Inv(s) && t < |s.threads| && StartStep(s, t, other) == Some(s') && v < |s.threads| && v != t
    requires Serves(s, call, closed, s.threads[v])
    ensures v < |s'.threads| && Serves(s', call, closed, s'.threads[v])
  {
    hide Flatten, Delivered, ReadOk, SlotsDistinct, WrittenOk, ErrOk;
    assert ReaderOk(s, v);
  }

  lemma Begins(s: State, t: Tid, call: Call, s': State)
    requires t < |s.threads| && StartStep(s, t, call) == Some(s')
    ensures t < |s'.threads| && Serves(s', call, s.done, s'.threads[t]) && |s'.threads| == |s.threads|
  {
  }

  lemma ProgressServes(s: State, s': State, v: Tid, call: Call, closed: bool)
    requires Inv(s) && Progress(s, s') && v < |s.threads|
    requires Serves(s, call, closed, s.threads[v]) && (closed ==> s.done)
    ensures v < |s'.threads| && Serves(s', call, closed, s'.threads[v])
  {
    hide Inv, LocalStep, TransferStep, AckStep, Serves;
    if exists t: Tid :: t < |s.threads| && LocalStep(s, t) == Some(s') {
      var t: Tid :| t < |s.threads| && LocalStep(s, t) == Some(s');
      LocalServes(s, t, s', v, call, closed);
    } else {
      var t: Tid, u: Tid :| t < |s.threads| && u < |s.threads|
        && (TransferStep(s, t, u) == Some(s') || AckStep(s, t, u) == Some(s'));
      MeetingServes(s, t, u, s', v, call, closed);
    }
  }

  lemma LocalIdle(s: State, t: Tid, s': State, v: Tid)
    requires t < |s.threads| && LocalStep(s, t) == Some(s') && v < |s.threads| && s.threads[v] == Idle
    ensures v < |s'.threads| && s'.threads[v] == Idle
  {
  }

  lemma ProgressIdle(s: State, s': State, v: Tid)
    requires Progress(s, s') && v < |s.threads| && s.threads[v] == Idle
    ensures v < |s'.threads| && s'.threads[v] == Idle
  {
    hide LocalStep;
    if exists t: Tid :: t < |s.threads| && LocalStep(s, t) == Some(s') {
      var t: Tid :| t < |s.threads| && LocalStep(s, t) == Some(s');
      LocalIdle(s, t, s', v);
    }
  }

  lemma SameThreads(s: State, e: Event, s': State)
    requires Happens(s, e, s')
    ensures |s'.threads| == |s.threads|
  {
  }

  /** What a goroutine does and returns, it does for the last call it began: with that call's arguments, and
      with failure if done was already closed then. */
  lemma {:induction false} CallServed(run: seq<State>, events: seq<Event>, i: nat, v: Tid) returns (j: nat, call: Call)
    requires Trace(run, events) && i < |run| && v < |run[i].threads| && run[i].threads[v] != Idle
    ensures j < i && events[j] == Start(v, call)
    ensures Serves(run[i], call, run[j].done, run[i].threads[v])
    ensures forall k: nat :: j < k < i ==> !(events[k].Start? && events[k].t == v)
    ensures run[j].done ==> run[i].done
    decreases i
  {
    hide Inv, Progress, Serves, StartStep;
    TraceIsRun(run, events);
    assert i > 0;
    var e := events[i - 1];
    assert Happens(run[i - 1], e, run[i - 1 + 1]);
    SameThreads(run[i - 1], e, run[i]);
    if e.Start? && e.t == v {
      j, call := i - 1, e.call;
      Begins(run[i - 1], v, call, run[i]);
      ClosedForGood(run, i - 1, i);
    } else {
      RunInv(run, i - 1);
      if run[i - 1].threads[v] == Idle {
        if e.Internal? { ProgressIdle(run[i - 1], run[i], v); } else { OtherIdle(run[i - 1], e.t, e.call, run[i], v); }
      }
      j, call := CallServed(run, events, i - 1, v);
      ClosedForGood(run, i - 1, i);
      if e.Internal? {
        ProgressServes(run[i - 1], run[i], v, call, run[j].done);
      } else {
        StartServes(run[i - 1], e.t, e.call, run[i], v, call, run[j].done);
      }
    }
  }

  lemma OtherIdle(s: State, t: Tid, call: Call, s': State, v: Tid)
    requires t < |s.threads| && StartStep(s, t, call) == Some(s') && v < |s.threads| && v != t
    ensures v < |s'.threads| && s'.threads[v] == s.threads[v]
  {
  }

  // ---- errors ----

  /** An error appears only when a closer stores it. */
  lemma StoredBy(s: State, s': State, side: Side) returns (t: Tid)
    requires Progress(s, s') && ErrOf(s, side).None? && ErrOf(s', side).Some?
    ensures t < |s.threads| && s.threads[t].CStore? && s.threads[t].side == side && ErrOf(s', side) == Some(s.threads[t].err)
  {
    t :| t < |s.threads| && LocalStep(s, t) == Some(s');
  }

  /** The error of an end is what a call that closed this end stores. */
  lemma {:induction false} StoredErr(run: seq<State>, events: seq<Event>, i: nat, side: Side)
    returns (j: nat, t: Tid, c: Option<Err>)
    requires Trace(run, events) && i < |run| && ErrOf(run[i], side).Some?
    ensures j < i && events[j] == Start(t, CloseCall(side, c)) && Stores(side, c, ErrOf(run[i], side).value)
    decreases i
  {
    hide Inv, Progress, StartStep, Serves;
    TraceIsRun(run, events);
    assert i > 0;
    assert Happens(run[i - 1], events[i - 1], run[i - 1 + 1]);
    if ErrOf(run[i - 1], side).Some? {
      ClosedForGood(run, i - 1, i);
      j, t, c := StoredErr(run, events, i - 1, side);
    } else {
      if events[i - 1].Start? { NoErrYet(run[i - 1], events[i - 1].t, events[i - 1].call, run[i], side); }
      t := StoredBy(run[i - 1], run[i], side);
      var call;
      j, call := CallServed(run, events, i - 1, t);
      StoringCall(run[i - 1], call, run[j].done, run[i - 1].threads[t]);
      c := call.cerr;
    }
  }

  lemma NoErrYet(s: State, t: Tid, call: Call, s': State, side: Side)
    requires t < |s.threads| && StartStep(s, t, call) == Some(s')
    ensures ErrOf(s', side) == ErrOf(s, side)
  {
  }

  lemma StoringCall(s: State, call: Call, closed: bool, th: Thread)
    requires Serves(s, call, closed, th) && th.CStore?
    ensures call.CloseCall? && call.side == th.side && Stores(th.side, call.cerr, th.err)
  {
  }

  /** Some close of this end, before step i, stores e. */
  ghost predicate ClosedWith(events: seq<Event>, i: nat, side: Side, e: Err) {
    exists j: nat, t: Tid, c: Option<Err> ::
      j < i && j < |events| && events[j] == Start(t, CloseCall(side, c)) && Stores(side, c, e)
  }

  /** A failed read reports the error of a call that closed the write end, or ErrClosedPipe because a call
      closed the read end. */
  lemma FailedRead(run: seq<State>, events: seq<Event>, i: nat, t: Tid)
    requires Trace(run, events) && i < |run| && t < |run[i].threads|
    requires run[i].threads[t].RDone? && run[i].threads[t].rres.Some?
    ensures var e := run[i].threads[t].rres.value;
            ClosedWith(events, i, WriteSide, e)
            || (e == ErrClosedPipe && exists e' :: ClosedWith(events, i, ReadSide, e'))
  {
    hide Trace, Run;
    TraceIsRun(run, events);
    CloseErrors(run, i, t);
    if run[i].werr == run[i].threads[t].rres {
      var j, u, c := StoredErr(run, events, i, WriteSide);
    } else {
      var j, u, c := StoredErr(run, events, i, ReadSide);
      assert ClosedWith(events, i, ReadSide, run[i].rerr.value);
    }
  }

  /** A failed write reports the error of a call that closed the read end, or ErrClosedPipe because a call
      closed the write end. */
  lemma FailedWrite(run: seq<State>, events: seq<Event>, i: nat, t: Tid)
    requires Trace(run, events) && i < |run| && t < |run[i].threads|
    requires run[i].threads[t].WDone? && run[i].threads[t].wres.Some?
    ensures var e := run[i].threads[t].wres.value;
            ClosedWith(events, i, ReadSide, e)
            || (e == ErrClosedPipe && exists e' :: ClosedWith(events, i, WriteSide, e'))
  {
    hide Trace, Run;
    TraceIsRun(run, events);
    CloseErrors(run, i, t);
    if run[i].rerr == run[i].threads[t].wres {
      var j, u, c := StoredErr(run, events, i, ReadSide);
    } else {
      var j, u, c := StoredErr(run, events, i, WriteSide);
      assert ClosedWith(events, i, WriteSide, run[i].werr.value);
    }
  }

  /** If only w.Close() is ever called, a read fails with EOF and nothing else. */
  lemma ReadersSeeEOF(run: seq<State>, events: seq<Event>, i: nat, t: Tid)
    requires Trace(run, events) && i < |run| && t < |run[i].threads|
    requires forall j: nat, u: Tid, side: Side, c: Option<Err> ::
               j < |events| && events[j] == Start(u, CloseCall(side, c)) ==> side == WriteSide && c == None
    requires run[i].threads[t].RDone? && run[i].threads[t].rres.Some?
    ensures run[i].threads[t].rres == Some(EOF)
  {
    FailedRead(run, events, i, t);
  }

  /** If only r.Close() is ever called, a write fails with ErrClosedPipe and nothing else. */
  lemma WritersSeeErrClosedPipe(run: seq<State>, events: seq<Event>, i: nat, t: Tid)
    requires Trace(run, events) && i < |run| && t < |run[i].threads|
    requires forall j: nat, u: Tid, side: Side, c: Option<Err> ::
               j < |events| && events[j] == Start(u, CloseCall(side, c)) ==> side == ReadSide && c == None
    requires run[i].threads[t].WDone? && run[i].threads[t].wres.Some?
    ensures run[i].threads[t].wres == Some(ErrClosedPipe)
  {
    FailedWrite(run, events, i, t);
  }

  lemma LocalNoNil(s: State, t: Tid, s': State, u: Tid)
    requires t < |s.threads| && LocalStep(s, t) == Some(s') && u < |s.threads| && u < |s'.threads|
    ensures s'.threads[u].WUnlock? && s'.threads[u].wres.None? ==> s'.threads[u] == s.threads[u]
  {
  }

  /** A write returns nil only after a reader's last ack, also when it has no bytes to write. */
  lemma NilNeedsAck(run: seq<State>, events: seq<Event>, i: nat, u: Tid)
    requires Trace(run, events) && i + 1 < |run| && u < |run[i].threads| && u < |run[i + 1].threads|
    requires run[i + 1].threads[u].WUnlock? && run[i + 1].threads[u].wres.None? && run[i].threads[u] != run[i + 1].threads[u]
    ensures exists t: Tid :: t < |run[i].threads| && AckStep(run[i], t, u) == Some(run[i + 1])
  {
    hide LocalStep;
    var s, s' := run[i], run[i + 1];
    assert Happens(s, events[i], s');
    if exists t: Tid :: t < |s.threads| && LocalStep(s, t) == Some(s') {
      var t: Tid :| t < |s.threads| && LocalStep(s, t) == Some(s');
      LocalNoNil(s, t, s', u);
    }
  }
}
