/** AfterFunc: f is started exactly when the parent context is cancelled before stop is called. */
module ContextAfterFunc {
  import opened Basics
  import opened Contexts
  import opened ContextInvariant
  import opened ContextCancel
  import opened ContextTheorems

  /** Activation k of the stack cancels c, an afterFuncCtx, and is still going to use c's once. */
  ghost predicate Cancelling(st: seq<Frame>, k: nat, c: Id) {
    k < |st| && st[k].Cancel? && st[k].n == c && st[k].pc != Ret && st[k].pc != StopTimer
  }

  /** While an afterFuncCtx is cancelled and its once unused, somebody is still going to use it; f was
      started only after a cancellation; and only stop ever cancels an afterFuncCtx directly. */
  ghost predicate OnceOk(s: State, c: Id)
    requires c < |s.nodes|
  {
    var n := s.nodes[c];
    && (n.kind == After && n.err.Some? && n.once == Unused ==>
          exists t: Tid, k: nat :: t < |s.threads| && Cancelling(s.threads[t], k, c))
    && (n.once == Started ==> n.err.Some?)
    && (n.kind == After ==> forall e, x :: (c, e, x) in s.requests ==> n.once == Stopped)
  }

  ghost predicate OncesOk(s: State) {
    && (forall c: Id :: c < |s.nodes| ==> OnceOk(s, c))
    && (forall c: Id, e, x :: (c, e, x) in s.requests ==> c < |s.nodes|)
  }

  /** A step of t changes only the top of its own stack. */
  ghost predicate OnlyTop(s: State, t: Tid, s': State) {
    && Live(s, t) && |s'.threads| == |s.threads| && |s'.nodes| == |s.nodes| && s'.requests == s.requests
    && (forall v: Tid :: v < |s.threads| && v != t ==> s'.threads[v] == s.threads[v])
    && Below(s.threads[t]) <= s'.threads[t]
  }

  /** Whoever was going to use the once of c still is, unless it was the top activation. */
  lemma OthersCancelling(s: State, t: Tid, s': State, c: Id, u: Tid, k: nat)
    requires OnlyTop(s, t, s') && u < |s.threads| && Cancelling(s.threads[u], k, c)
    requires u != t || k < |s.threads[t]| - 1
    ensures Cancelling(s'.threads[u], k, c)
  {
    if u == t { assert Below(s.threads[t])[k] == s'.threads[t][k]; }
  }

  lemma CancelOnlyTop(s: State, t: Tid, pick: Id, s': State)
    requires Live(s, t) && Top(s, t).Cancel? && Top(s, t).n < |s.nodes|
    requires CancelStep(s, t, Top(s, t), pick) == Some(s')
    ensures OnlyTop(s, t, s')
  {
  }

  /** What a cancel activation does to a node's err and once, and where it goes. */
  lemma CancelEffect(s: State, t: Tid, pick: Id, s': State, c: Id)
    requires Live(s, t) && Top(s, t).Cancel? && Top(s, t).n < |s.nodes| && c < |s.nodes|
    requires CancelStep(s, t, Top(s, t), pick) == Some(s')
    ensures |s'.nodes| == |s.nodes| && |s'.threads| == |s.threads| && s'.requests == s.requests
    ensures var f, n, n' := Top(s, t), s.nodes[c], s'.nodes[c];
            && n'.kind == n.kind
            && (n'.err != n.err ==> f.n == c && f.pc == Check && n.err.None? && n'.err.Some?)
            && (n'.once != n.once ==> f.n == c && f.pc == RunOnce && n.once == Unused && n'.once == Started)
            && (f.n == c && f.pc == RunOnce ==> n'.once != Unused)
    ensures var f, top := Top(s, t), |s.threads[t]| - 1;
            f.n == c && s.nodes[c].kind == After && f.pc != Ret && f.pc != StopTimer && f.pc != RunOnce ==>
              Cancelling(s'.threads[t], top, c)
  {
  }

  /** A step of a cancel activation: either the once is used or the activation stays to use it. */
  lemma CancelStepOnce(s: State, t: Tid, pick: Id, s': State, c: Id)
    requires Live(s, t) && Top(s, t).Cancel? && Top(s, t).n < |s.nodes| && c < |s.nodes|
    requires CancelStep(s, t, Top(s, t), pick) == Some(s')
    requires Top(s, t).pc == RunOnce ==> s.nodes[Top(s, t).n].err.Some?
    requires OnceOk(s, c)
    ensures OnlyTop(s, t, s') && OnceOk(s', c)
  {
    hide CancelStep, OnlyTop;
    CancelOnlyTop(s, t, pick, s');
    CancelEffect(s, t, pick, s', c);
    var f, top, n, n' := Top(s, t), |s.threads[t]| - 1, s.nodes[c], s'.nodes[c];
    if n.kind == After && n'.err.Some? && n'.once == Unused && n.err.Some? {
      var u: Tid, k: nat :| u < |s.threads| && Cancelling(s.threads[u], k, c);
      if u != t || k != top { OthersCancelling(s, t, s', c, u, k); }
    }
  }

  lemma AttachOnlyTop(s: State, t: Tid, s': State)
    requires Live(s, t) && Top(s, t).Attach? && Top(s, t).child < |s.nodes| && Top(s, t).parent < |s.nodes|
    requires AttachStep(s, t, Top(s, t)) == Some(s')
    ensures OnlyTop(s, t, s')
  {
  }

  lemma AttachEffect(s: State, t: Tid, s': State, c: Id)
    requires Live(s, t) && Top(s, t).Attach? && Top(s, t).child < |s.nodes| && Top(s, t).parent < |s.nodes|
    requires AttachStep(s, t, Top(s, t)) == Some(s') && c < |s.nodes|
    ensures |s'.nodes| == |s.nodes| && s'.requests == s.requests
    ensures var n, n' := s.nodes[c], s'.nodes[c]; n'.kind == n.kind && n'.err == n.err && n'.once == n.once
  {
    hide Kids;
  }

  lemma AttachStepOnce(s: State, t: Tid, s': State, c: Id)
    requires Live(s, t) && Top(s, t).Attach? && Top(s, t).child < |s.nodes| && Top(s, t).parent < |s.nodes|
    requires AttachStep(s, t, Top(s, t)) == Some(s') && c < |s.nodes| && OnceOk(s, c)
    ensures OnlyTop(s, t, s') && OnceOk(s', c)
  {
    hide AttachStep, OnlyTop;
    AttachOnlyTop(s, t, s');
    AttachEffect(s, t, s', c);
    var n := s.nodes[c];
    if n.kind == After && n.err.Some? && n.once == Unused {
      var u: Tid, k: nat :| u < |s.threads| && Cancelling(s.threads[u], k, c);
      OthersCancelling(s, t, s', c, u, k);
    }
  }

  lemma StartStepOnce(s: State, t: Tid, op: Op, s': State, c: Id)
    requires StartStep(s, t, op) == Some(s') && c < |s'.nodes| && OncesOk(s)
    ensures OnceOk(s', c)
  {
    if c < |s.nodes| {
      assert OnceOk(s, c);
      var n := s.nodes[c];
      if n.kind == After && n.err.Some? && n.once == Unused {
        var u: Tid, k: nat :| u < |s.threads| && Cancelling(s.threads[u], k, c);
        assert u != t;
        assert Cancelling(s'.threads[u], k, c);
      }
    }
  }

  lemma NextOnce(s: State, s': State)
    requires Inv(s) && OncesOk(s) && Next(s, s')
    ensures OncesOk(s')
  {
    hide OnceOk, CancelStep, AttachStep;
    if exists u: Tid, pick: Id :: RunStep(s, u, pick) == Some(s') {
      var u: Tid, pick: Id :| RunStep(s, u, pick) == Some(s');
      RunStepOnce(s, u, pick, s');
    } else {
      var u: Tid, op: Op :| StartStep(s, u, op) == Some(s');
      forall c: Id | c < |s'.nodes|
        ensures OnceOk(s', c)
      {
        StartStepOnce(s, u, op, s', c);
      }
    }
  }

  lemma RunStepOnce(s: State, t: Tid, pick: Id, s': State)
    requires Inv(s) && OncesOk(s) && RunStep(s, t, pick) == Some(s')
    ensures OncesOk(s')
  {
    hide OnceOk, CancelStep, AttachStep, NodeOk;
    TopOk(s, t);
    var f := Top(s, t);
    if f.Cancel? { CancelOnlyTop(s, t, pick, s'); } else { AttachOnlyTop(s, t, s'); }
    forall c: Id | c < |s.nodes|
      ensures OnceOk(s', c)
    {
      if f.Cancel? { CancelStepOnce(s, t, pick, s', c); } else { AttachStepOnce(s, t, s', c); }
    }
  }

  lemma {:induction false} RunOnces(run: seq<State>, i: nat)
    requires Run(run) && i < |run|
    ensures OncesOk(run[i])
  {
    hide Inv, OncesOk, Next, Init;
    if i == 0 {
      InitOnces(run[0]);
    } else {
      RunOnces(run, i - 1);
      RunInv(run, i - 1);
      assert Next(run[i - 1], run[i - 1 + 1]);
      NextOnce(run[i - 1], run[i]);
    }
  }

  lemma InitOnces(s: State)
    requires Init(s)
    ensures OncesOk(s)
  {
  }

  /** When all calls have returned, f has been started once if the parent is cancelled and stop has not
      returned true, and has not been started otherwise. */
  lemma AfterFuncRuns(run: seq<State>, i: nat, c: Id)
    requires Run(run) && i < |run| && Idle(run[i]) && c < |run[i].nodes|
    requires run[i].nodes[c].kind == After && run[i].nodes[c].ready
    ensures var n := run[i].nodes[c];
            var parentDone := n.parent.Some? && n.parent.value < c && run[i].nodes[n.parent.value].err.Some?;
            n.starts == if parentDone && n.once != Stopped then 1 else 0
  {
    hide Inv, Run;
    RunInv(run, i);
    RunOnces(run, i);
    assert OnceOk(run[i], c);
    var n := run[i].nodes[c];
    NodeFacts(run[i], c);
    if n.parent.Some? {
      var p := n.parent.value;
      if run[i].nodes[p].err.Some? {
        IdleUnlocked(run[i], p);
        NoLostCancel(run, i, p);
      }
    }
  }
}
