/** What the cancellation tree guarantees, in every run of any number of goroutines. */
module ContextTheorems {
  import opened Basics
  import opened Contexts
  import opened ContextInvariant
  import opened ContextSteps
  import opened ContextCancel
  import opened ContextCalls
  import opened ContextAttach

  // ---- the invariant over runs ----

  lemma InitInv(s: State)
    requires Init(s)
    ensures Inv(s)
  {
    forall t: Tid | t < |s.threads|
      ensures StackOk(s.nodes, s.requests, t, s.threads[t])
    {
      assert s.threads[t] == [];
    }
  }

  lemma RunStepKeeps(s: State, t: Tid, pick: Id, s': State)
    requires Inv(s) && RunStep(s, t, pick) == Some(s')
    ensures Inv(s') && Guarantee(s, s', t)
  {
    hide Inv, Guarantee, CancelStep, AttachStep;
    var f := Top(s, t);
    if f.Cancel? { CancelKeeps(s, t, f, pick, s'); } else { AttachKeeps(s, t, f, s'); }
  }

  /** Every step keeps the invariant, and disturbs other goroutines only as Guarantee allows. */
  lemma NextKeeps(s: State, s': State) returns (t: Tid)
    requires Inv(s) && Next(s, s')
    ensures Inv(s') && Guarantee(s, s', t)
  {
    hide Inv, Guarantee, RunStep, StartStep;
    if exists u: Tid, pick: Id :: RunStep(s, u, pick) == Some(s') {
      var u: Tid, pick: Id :| RunStep(s, u, pick) == Some(s');
      RunStepKeeps(s, u, pick, s');
      t := u;
    } else {
      var u: Tid, op: Op :| StartStep(s, u, op) == Some(s');
      StartKeeps(s, u, op, s');
      t := u;
    }
  }

  lemma {:induction false} RunInv(run: seq<State>, i: nat)
    requires Run(run) && i < |run|
    ensures Inv(run[i])
  {
    hide Inv, Next, Init;
    if i == 0 {
      InitInv(run[0]);
    } else {
      RunInv(run, i - 1);
      assert Next(run[i - 1], run[i - 1 + 1]);
      var t := NextKeeps(run[i - 1], run[i]);
    }
  }

  // ---- no cancellation is lost ----

  /** Whenever a cancelled node's lock is free, its done is closed, its children map is nil, and every
      context attached to it is cancelled, however cancels and child creations interleaved. */
  lemma NoLostCancel(run: seq<State>, i: nat, n: Id)
    requires Run(run) && i < |run| && n < |run[i].nodes|
    requires run[i].nodes[n].err.Some? && run[i].nodes[n].lock.None?
    ensures IsClosed(run[i].nodes[n].done) && run[i].nodes[n].children.None?
    ensures forall c: Id :: c < |run[i].nodes| && run[i].nodes[c].parent == Some(n) && run[i].nodes[c].attached ==>
              run[i].nodes[c].err.Some?
    ensures forall c: Id :: c < |run[i].nodes| && run[i].nodes[c].parent == Some(n) && run[i].nodes[c].ready ==>
              run[i].nodes[c].err.Some?
  {
    hide Inv, Run;
    RunInv(run, i);
    NodeFacts(run[i], n);
    forall c: Id | c < |run[i].nodes| && run[i].nodes[c].parent == Some(n)
      ensures run[i].nodes[c].attached || run[i].nodes[c].ready ==> run[i].nodes[c].err.Some?
    {
      NodeFacts(run[i], c);
      if run[i].nodes[c].attached { ChildCancelled(run[i], n, c); }
    }
  }

  lemma ChildCancelled(s: State, n: Id, c: Id)
    requires Inv(s) && n < |s.nodes| && c < |s.nodes| && s.nodes[c].parent == Some(n) && s.nodes[c].attached
    requires s.nodes[n].err.Some? && s.nodes[n].lock.None?
    ensures s.nodes[c].err.Some?
  {
    hide NodeOk, LockOwned, Caused;
    assert ChildCovered(s, c);
    forall t: Tid, k: nat | t < |s.threads| && k < |s.threads[t]|
      ensures !Covers(s.threads[t], k, n, c)
    {
      assert StackOk(s.nodes, s.requests, t, s.threads[t]);
      assert FrameOk(s.nodes, s.requests, t, s.threads[t][k], k == 0, k == |s.threads[t]| - 1);
    }
  }

  /** c is a, or was handed out as a descendant of a. */
  ghost predicate Descends(ns: seq<Node>, a: Id, c: Id)
    decreases c
  {
    c == a || (c < |ns| && ns[c].ready && ns[c].parent.Some? && ns[c].parent.value < c && Descends(ns, a, ns[c].parent.value))
  }

  ghost predicate Idle(s: State) {
    forall t: Tid :: t < |s.threads| ==> s.threads[t] == []
  }

  /** Once every call has returned, a cancelled context has no live descendant. */
  lemma {:induction false} DescendantsCancelled(run: seq<State>, i: nat, a: Id, c: Id)
    requires Run(run) && i < |run| && Idle(run[i]) && a < |run[i].nodes| && c < |run[i].nodes|
    requires run[i].nodes[a].err.Some? && Descends(run[i].nodes, a, c)
    ensures run[i].nodes[c].err.Some? && IsClosed(run[i].nodes[c].done)
    decreases c
  {
    hide Inv, Run;
    RunInv(run, i);
    if c != a {
      var p := run[i].nodes[c].parent.value;
      DescendantsCancelled(run, i, a, p);
      IdleUnlocked(run[i], p);
      NoLostCancel(run, i, p);
    }
    IdleUnlocked(run[i], c);
    NodeFacts(run[i], c);
  }

  lemma IdleUnlocked(s: State, n: Id)
    requires Inv(s) && Idle(s) && n < |s.nodes|
    ensures s.nodes[n].lock.None?
  {
    assert LockOwned(s, n);
  }

  // ---- err, cause and done change once ----

  /** How a node may differ between two moments of a run. */
  ghost predicate Later(n: Node, n': Node) {
    && n'.parent == n.parent && n'.kind == n.kind
    && (n.err.Some? ==> n'.err == n.err && n'.cause == n.cause)
    && (n.done != NoChan ==> n'.done == n.done || (n.done == Open && n'.done == Closed))
    && (n.once != Unused ==> n'.once == n.once)
    && n.starts <= n'.starts <= 1
    && (n'.once == Stopped ==> n'.starts == 0)
    && (IsClosed(n'.done) ==> n'.err.Some?) && (n'.err.Some? <==> n'.cause.Some?)
  }

  /** err and cause are set together and never again; done goes from nil to a channel to closed, never
      to another channel, and is closed only after err is set; f starts at most once and never after
      stop has returned true. */
  lemma {:induction false} ChangesOnce(run: seq<State>, i: nat, j: nat, n: Id)
    requires Run(run) && i <= j < |run| && n < |run[i].nodes|
    ensures n < |run[j].nodes| && Later(run[i].nodes[n], run[j].nodes[n])
    decreases j
  {
    hide Inv, Next, Init, NodeOk;
    RunInv(run, j);
    if i < j {
      ChangesOnce(run, i, j - 1, n);
      RunInv(run, j - 1);
      assert Next(run[j - 1], run[j - 1 + 1]);
      var t := NextKeeps(run[j - 1], run[j]);
      assert NodeStep(run[j - 1].nodes[n], run[j].nodes[n], t);
    }
    NodeFacts(run[j], n);
  }

  // ---- where a cause comes from ----

  /** The request that reached n: on n itself or the nearest ancestor where the chain of equal causes starts. */
  lemma {:induction false} CauseOrigin(run: seq<State>, i: nat, n: Id) returns (a: Id)
    requires Run(run) && i < |run| && n < |run[i].nodes| && run[i].nodes[n].err.Some?
    ensures a <= n && Passed(run[i], a, n)
    ensures run[i].nodes[n].cause.Some?
    ensures (a, run[i].nodes[n].err.value, run[i].nodes[n].cause.value) in run[i].requests
    decreases n
  {
    hide Inv, Run;
    RunInv(run, i);
    NodeFacts(run[i], n);
    var m := run[i].nodes[n];
    if (n, m.err.value, m.cause.value) in run[i].requests {
      a := n;
    } else {
      a := CauseOrigin(run, i, m.parent.value);
    }
  }

  /** Every node from n up to its ancestor-or-self a is cancelled with the same err and cause. */
  ghost predicate Passed(s: State, a: Id, n: Id)
    decreases n
  {
    n < |s.nodes| && (n == a
      || (s.nodes[n].parent.Some? && s.nodes[n].parent.value < n
          && s.nodes[s.nodes[n].parent.value].err == s.nodes[n].err
          && s.nodes[s.nodes[n].parent.value].cause == s.nodes[n].cause
          && Passed(s, a, s.nodes[n].parent.value)))
  }

  // ---- locks ----

  /** The lock a goroutine is waiting for, if its next step is to take one. */
  function Awaits(s: State, t: Tid): Option<Id> {
    if !Live(s, t) then None
    else
      var f := Top(s, t);
      if f.Cancel? then
        if f.pc == Want || f.pc == StopTimer then Some(f.n)
        else if (f.pc == UnlinkDone || f.pc == Unlink) && f.n < |s.nodes| then s.nodes[f.n].parent
        else None
      else if f.apc == MakeDone || f.apc == ReadCause || f.apc == WantParent then Some(f.parent) else None
  }

  ghost predicate HoldsLock(s: State, t: Tid, i: Id) {
    t < |s.threads| && exists k: nat :: k < |s.threads[t]| && Holds(s.threads[t][k], i)
  }

  /** Locks are taken parent before child: a goroutine that waits for a lock holds only smaller ones. */
  lemma LockOrder(run: seq<State>, i: nat, t: Tid, held: Id)
    requires Run(run) && i < |run| && HoldsLock(run[i], t, held) && Awaits(run[i], t).Some?
    ensures held < Awaits(run[i], t).value
  {
    hide Inv, Run;
    RunInv(run, i);
    LockOrderIn(run[i], t, held);
  }

  lemma LockOrderIn(s: State, t: Tid, held: Id)
    requires Inv(s) && HoldsLock(s, t, held) && Awaits(s, t).Some?
    ensures held < Awaits(s, t).value
  {
    hide Inv, NodeOk, Caused;
    var k: nat :| k < |s.threads[t]| && Holds(s.threads[t][k], held);
    TopOk(s, t);
    if k < |s.threads[t]| - 1 {
      Increasing(s, t, k, |s.threads[t]| - 1);
    }
  }

  ghost predicate CanStep(s: State, t: Tid) {
    exists pick: Id :: RunStep(s, t, pick).Some?
  }

  /** A goroutine with work either can step or waits for a lock somebody holds; it never panics or
      falls back to a watcher goroutine. */
  lemma StepsOrWaits(s: State, t: Tid)
    requires Inv(s) && Live(s, t)
    ensures CanStep(s, t) || (Awaits(s, t).Some? && Awaits(s, t).value < |s.nodes|
                              && s.nodes[Awaits(s, t).value].lock.Some?)
  {
    hide Inv, NodeOk, Caused;
    TopOk(s, t);
    var f := Top(s, t);
    if f.Cancel? {
      assert CancelOk(s.nodes, s.requests, t, f, |s.threads[t]| == 1, true);
      NodeFacts(s, f.n);
      var pick := if f.pc == Loop && f.todo != {} then var k :| k in f.todo; k else 0;
      assert CanStep(s, t) <== RunStep(s, t, pick).Some?;
    } else {
      assert AttachOk(s.nodes, t, f, |s.threads[t]| == 1, true);
      assert CanStep(s, t) <== RunStep(s, t, 0).Some?;
    }
  }

  /** Following a waiting goroutine to the owner of the lock leads upwards in ids, so it ends at one that runs. */
  lemma {:induction false} SomeoneRuns(s: State, t: Tid) returns (u: Tid)
    requires Inv(s) && Live(s, t)
    ensures Live(s, u) && CanStep(s, u)
    decreases if Awaits(s, t).Some? then |s.nodes| - Awaits(s, t).value else |s.nodes| + 1
  {
    hide Inv, CanStep, Awaits, RunStep;
    StepsOrWaits(s, t);
    if CanStep(s, t) {
      u := t;
    } else {
      var i := Awaits(s, t).value;
      var owner := Owner(s, i);
      if Awaits(s, owner).Some? {
        LockOrderIn(s, owner, i);
        u := SomeoneRuns(s, owner);
      } else {
        StepsOrWaits(s, owner);
        u := owner;
      }
    }
  }

  lemma Owner(s: State, i: Id) returns (t: Tid)
    requires Inv(s) && i < |s.nodes| && s.nodes[i].lock.Some?
    ensures Live(s, t) && HoldsLock(s, t, i)
  {
    assert LockOwned(s, i);
    t := s.nodes[i].lock.value;
  }

  /** No deadlock: in every reachable state with unfinished calls, some goroutine can step. */
  lemma NoDeadlock(run: seq<State>, i: nat)
    requires Run(run) && i < |run| && !Idle(run[i])
    ensures exists t: Tid :: Live(run[i], t) && CanStep(run[i], t)
  {
    hide Inv, Run, CanStep;
    RunInv(run, i);
    var t: Tid :| t < |run[i].threads| && run[i].threads[t] != [];
    var u := SomeoneRuns(run[i], t);
  }

  /** The internal panic and the goroutine fallback of propagateCancel are never reached. */
  lemma NoPanic(run: seq<State>, i: nat, t: Tid)
    requires Run(run) && i < |run| && Live(run[i], t) && Top(run[i], t).Attach?
    ensures Top(run[i], t).apc != Panic && Top(run[i], t).apc != Fallback
  {
    hide Inv, Run, NodeOk;
    RunInv(run, i);
    TopOk(run[i], t);
  }
}
