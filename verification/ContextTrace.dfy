/** Runs with the calls that make them: what a call asks for is what happens. */
module ContextTraces {
  import opened Basics
  import opened Contexts
  import opened ContextInvariant
  import opened ContextCancel
  import opened ContextAfterFunc
  import opened ContextTheorems
  import opened ContextRelease

  /** A step inside a call, or goroutine t beginning one. */
  datatype Event = Internal | Call(t: Tid, op: Op)

  ghost predicate Happens(s: State, e: Event, s': State) {
    match e
    case Internal => exists t: Tid, pick: Id :: RunStep(s, t, pick) == Some(s')
    case Call(t, op) => StartStep(s, t, op) == Some(s')
  }

  /** The events of a run, one for each step. */
  ghost predicate Trace(run: seq<State>, events: seq<Event>) {
    && |run| == |events| + 1 && Init(run[0])
    && forall i: nat :: i < |events| ==> Happens(run[i], events[i], run[i + 1])
  }

  lemma TraceIsRun(run: seq<State>, events: seq<Event>)
    requires Trace(run, events)
    ensures Run(run)
  {
    hide RunStep, StartStep, Init;
    forall i: nat | i + 1 < |run|
      ensures Next(run[i], run[i + 1])
    {
      assert Happens(run[i], events[i], run[i + 1]);
    }
  }

  /** Every run has its events. */
  lemma {:induction false} RunHasTrace(run: seq<State>) returns (events: seq<Event>)
    requires Run(run)
    ensures Trace(run, events)
    decreases |run|
  {
    hide RunStep, StartStep, Init;
    if |run| == 1 {
      events := [];
    } else {
      var k := |run| - 2;
      assert Next(run[k], run[k + 1]);
      var before := RunHasTrace(run[..k + 1]);
      var e: Event;
      if exists t: Tid, pick: Id :: RunStep(run[k], t, pick) == Some(run[k + 1]) {
        e := Internal;
      } else {
        var t: Tid, op: Op :| StartStep(run[k], t, op) == Some(run[k + 1]);
        e := Call(t, op);
      }
      events := before + [e];
      forall i: nat | i < |events|
        ensures Happens(run[i], events[i], run[i + 1])
      {
        if i < k { assert Happens(run[..k + 1][i], before[i], run[..k + 1][i + 1]); }
      }
    }
  }

  // ---- causes ----

  /** The call asks to cancel a with err e and cause x; without a cause, err is the cause. */
  predicate CancelsWith(op: Op, a: Id, e: Err, x: Err) {
    match op
    case CancelCall(n, _, err, cause) => n == a && err == e && (cause == Some(x) || (cause == None && x == e))
    case StopCall(n) => n == a && e == Canceled && x == Canceled
    case _ => false
  }

  lemma StepRequests(s: State, t: Tid, pick: Id, s': State)
    requires RunStep(s, t, pick) == Some(s')
    ensures s'.requests == s.requests
  {
    hide CancelStep, AttachStep;
    if Top(s, t).Cancel? { CancelOnlyTop(s, t, pick, s'); } else { AttachOnlyTop(s, t, s'); }
  }

  /** Every request on record was made by a call. */
  lemma {:induction false} RequestMade(run: seq<State>, events: seq<Event>, i: nat, a: Id, e: Err, x: Err)
    returns (j: nat, t: Tid, op: Op)
    requires Trace(run, events) && i < |run| && (a, e, x) in run[i].requests
    ensures j < i && events[j] == Call(t, op) && CancelsWith(op, a, e, x)
    decreases i
  {
    hide RunStep;
    assert i > 0;
    assert Happens(run[i - 1], events[i - 1], run[i - 1 + 1]);
    if (a, e, x) in run[i - 1].requests {
      j, t, op := RequestMade(run, events, i - 1, a, e, x);
    } else {
      if events[i - 1].Internal? {
        var u: Tid, pick: Id :| RunStep(run[i - 1], u, pick) == Some(run[i]);
        StepRequests(run[i - 1], u, pick, run[i]);
      }
      j, t, op := i - 1, events[i - 1].t, events[i - 1].op;
    }
  }

  /** A cancelled context has the err and the cause that an earlier call asked for, on it or on an ancestor
      from which they came down unchanged. */
  lemma CauseFromCall(run: seq<State>, events: seq<Event>, i: nat, n: Id)
    returns (a: Id, j: nat, t: Tid, op: Op)
    requires Trace(run, events) && i < |run| && n < |run[i].nodes| && run[i].nodes[n].err.Some?
    ensures a <= n && Passed(run[i], a, n) && run[i].nodes[n].cause.Some?
    ensures j < i && events[j] == Call(t, op)
    ensures CancelsWith(op, a, run[i].nodes[n].err.value, run[i].nodes[n].cause.value)
  {
    hide Trace, Run, Passed, CancelsWith;
    TraceIsRun(run, events);
    TraceLength(run, events);
    a := CauseOrigin(run, i, n);
    j, t, op := RequestMade(run, events, i, a, run[i].nodes[n].err.value, run[i].nodes[n].cause.value);
  }

  lemma TraceLength(run: seq<State>, events: seq<Event>)
    requires Trace(run, events)
    ensures |run| == |events| + 1
  {
  }

  // ---- calls take effect ----

  /** A constructor's context has the parent and kind asked for; when all calls have returned it is
      attached, and cancelled if its parent is. */
  lemma ConstructorWorks(run: seq<State>, events: seq<Event>, j: nat, i: nat, t: Tid, k: Kind, parent: Option<Id>)
    requires Trace(run, events) && j < i < |run|
    requires j < |events| && events[j] == Call(t, if parent.Some? then NewChild(k, parent.value) else NewRoot(k))
    ensures var n := |run[j].nodes|;
            && n < |run[i].nodes| && run[i].nodes[n].kind == k && run[i].nodes[n].parent == parent
            && (parent.Some? ==> parent.value < n)
            && (Idle(run[i]) ==> run[i].nodes[n].ready)
            && (Idle(run[i]) && parent.Some? && run[i].nodes[parent.value].err.Some? ==> run[i].nodes[n].err.Some?)
  {
    hide Run, RunStep, Idle;
    TraceIsRun(run, events);
    assert Happens(run[j], events[j], run[j + 1]);
    var n := |run[j].nodes|;
    ChangesOnce(run, j + 1, i, n);
    if Idle(run[i]) {
      Released(run, i, n);
      if parent.Some? && run[i].nodes[parent.value].err.Some? {
        DescendantsCancelled(run, i, parent.value, n);
      }
    }
  }

  /** Goroutine t is inside a cancel of n that it began. */
  ghost predicate InCancel(s: State, t: Tid, n: Id) {
    t < |s.threads| && s.threads[t] != [] && s.threads[t][0].Cancel? && s.threads[t][0].n == n
  }

  lemma StepInCancel(s: State, u: Tid, pick: Id, s': State, t: Tid, n: Id)
    requires Inv(s) && n < |s.nodes| && RunStep(s, u, pick) == Some(s') && InCancel(s, t, n) && s.nodes[n].err.None?
    ensures InCancel(s', t, n)
  {
    hide CancelStep, AttachStep, Inv, NodeOk, OnlyTop;
    TopOk(s, u);
    if Top(s, u).Cancel? { CancelOnlyTop(s, u, pick, s'); } else { AttachOnlyTop(s, u, s'); }
    SameThreadCount(s, u, s');
    if u == t {
      if |s.threads[t]| > 1 {
        OtherActivation(s, t, s', t, 0);
      } else {
        CancelStack(s, t, pick, s');
      }
    }
  }

  /** Until the call returns it is at work; when it has returned, the context is cancelled. */
  lemma {:induction false} CancelGoesOn(run: seq<State>, events: seq<Event>, j: nat, i: nat, t: Tid, op: Op)
    requires Trace(run, events) && j < i < |run| && j < |events| && events[j] == Call(t, op)
    requires op.CancelCall? || op.StopCall?
    ensures op.n < |run[i].nodes| && (run[i].nodes[op.n].err.Some? || InCancel(run[i], t, op.n))
    decreases i
  {
    hide RunStep, Inv;
    TraceIsRun(run, events);
    assert Happens(run[i - 1], events[i - 1], run[i - 1 + 1]);
    if i > j + 1 {
      CancelGoesOn(run, events, j, i - 1, t, op);
      ChangesOnce(run, i - 1, i, op.n);
      if run[i - 1].nodes[op.n].err.None? && events[i - 1].Internal? {
        RunInv(run, i - 1);
        var u: Tid, pick: Id :| RunStep(run[i - 1], u, pick) == Some(run[i]);
        StepInCancel(run[i - 1], u, pick, run[i], t, op.n);
      }
    }
  }

  /** A cancel function, timer or stop that has returned has cancelled its context; when all calls have
      returned, done is closed. */
  lemma CancelWorks(run: seq<State>, events: seq<Event>, j: nat, i: nat, t: Tid, op: Op)
    requires Trace(run, events) && j < i < |run| && j < |events| && events[j] == Call(t, op)
    requires op.CancelCall? || op.StopCall?
    requires t < |run[i].threads| && run[i].threads[t] == []
    ensures op.n < |run[i].nodes| && run[i].nodes[op.n].err.Some?
    ensures op.StopCall? ==> run[i].nodes[op.n].once == Stopped && run[i].nodes[op.n].starts == 0
    ensures Idle(run[i]) ==> IsClosed(run[i].nodes[op.n].done)
  {
    hide Run, RunStep, Idle;
    TraceIsRun(run, events);
    CancelGoesOn(run, events, j, i, t, op);
    assert Happens(run[j], events[j], run[j + 1]);
    ChangesOnce(run, j + 1, i, op.n);
    if Idle(run[i]) { DescendantsCancelled(run, i, op.n, op.n); }
  }

  /** A context whose Done has been called has a channel, which is closed once it is cancelled. */
  lemma DoneWorks(run: seq<State>, events: seq<Event>, j: nat, i: nat, t: Tid, n: Id)
    requires Trace(run, events) && j < i < |run| && j < |events| && events[j] == Call(t, DoneCall(n))
    ensures n < |run[i].nodes| && run[i].nodes[n].done != NoChan
    ensures Idle(run[i]) && run[i].nodes[n].err.Some? ==> IsClosed(run[i].nodes[n].done)
    ensures run[i].nodes[n].err.None? ==> run[i].nodes[n].done == Open
  {
    hide Run, RunStep, Idle;
    TraceIsRun(run, events);
    assert Happens(run[j], events[j], run[j + 1]);
    ChangesOnce(run, j + 1, i, n);
    if Idle(run[i]) && run[i].nodes[n].err.Some? { DescendantsCancelled(run, i, n, n); }
  }
}
