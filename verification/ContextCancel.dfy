/** The steps of cancel and removeChild keep the invariant. */
module ContextCancel {
  import opened Basics
  import opened Contexts
  import opened ContextInvariant
  import opened ContextSteps

  lemma TopOk(s: State, t: Tid)
    requires Inv(s) && Live(s, t)
    ensures FrameOk(s.nodes, s.requests, t, Top(s, t), |s.threads[t]| == 1, true)
    ensures var f := Top(s, t);
            NodeOf(f) < |s.nodes| && NodeOk(s.nodes, s.requests, NodeOf(f))
            && (f.Attach? ==> f.parent < f.child < |s.nodes| && NodeOk(s.nodes, s.requests, f.child))
  {
    hide CancelOk, AttachOk, NodeOk;
    var st := s.threads[t];
    assert StackOk(s.nodes, s.requests, t, st);
    InRange(s.nodes, s.requests, t, st[|st| - 1], |st| == 1, true);
  }

  /** A node whose err, cause and identity are kept and whose children only shrink stays well-formed. */
  lemma NodeChanged(s: State, s': State, t: Tid, i: Id)
    requires Guarantee(s, s', t) && i < |s.nodes| && NodeOk(s.nodes, s.requests, i)
    requires var n, n' := s.nodes[i], s'.nodes[i];
             && n'.err == n.err && n'.cause == n.cause && Kids(n') <= Kids(n)
             && (IsClosed(n'.done) ==> n'.err.Some?) && (n'.err.Some? && n'.lock.None? ==> Settled(n'))
             && (n'.ready ==> n'.attached) && n'.starts == (if n'.once == Started then 1 else 0)
    ensures NodeOk(s'.nodes, s'.requests, i)
  {
    hide Caused;
    var n := s.nodes[i];
    assert NodeStep(n, s'.nodes[i], t);
    forall j: Id | j in Kids(s'.nodes[i])
      ensures j < |s'.nodes| && s'.nodes[j].parent == Some(i)
    {
      assert NodeStep(s.nodes[j], s'.nodes[j], t);
    }
    if n.err.Some? { CausedStable(s, s', t, i, n.err.value, n.cause.value); }
  }

  /** Only the activation's program counter moves. */
  lemma MoveOnly(s: State, t: Tid, f: Frame)
    requires Inv(s) && Live(s, t) && SameJob(Top(s, t), f) && !Covering(Top(s, t))
    requires Holds(Top(s, t), NodeOf(f)) ==> Holds(f, NodeOf(f))
    requires FrameOk(s.nodes, s.requests, t, f, |s.threads[t]| == 1, true)
    ensures Inv(WithTop(s, t, f)) && Guarantee(s, WithTop(s, t, f), t)
  {
    hide CancelOk, AttachOk, NodeOk;
    TopOk(s, t);
    var i := NodeOf(f);
    assert s.nodes[i := s.nodes[i]] == s.nodes;
    NodeStepSelf(s.nodes[i], t);
    UpdateInv(s, t, i, s.nodes[i], f);
  }

  /** Locking and unlocking, and anything else that leaves err, cause and children alone. */
  lemma MoveNode(s: State, t: Tid, i: Id, n: Node, f: Frame)
    requires Inv(s) && Live(s, t) && i < |s.nodes| && Allowed(s, t, i, n, f) && !Covering(Top(s, t))
    requires n.err == s.nodes[i].err && n.cause == s.nodes[i].cause
    requires Kids(n) <= Kids(s.nodes[i])
    requires forall c: Id :: c in Kids(s.nodes[i]) && c < |s.nodes| && s.nodes[c].err.None? ==> c in Kids(n)
    requires (n.attached ==> s.nodes[i].attached || n.err.Some?) && (n.ready ==> n.attached)
    requires IsClosed(n.done) ==> n.err.Some?
    requires n.err.Some? && n.lock.None? ==> Settled(n)
    requires n.starts == if n.once == Started then 1 else 0
    requires var s' := Update(s, t, i, n, f); FrameOk(s'.nodes, s'.requests, t, f, |s.threads[t]| == 1, true)
    ensures Inv(Update(s, t, i, n, f)) && Guarantee(s, Update(s, t, i, n, f), t)
  {
    hide CancelOk, AttachOk, NodeOk, NodeStep, Allowed;
    UpdateGuarantee(s, t, i, n, f);
    assert NodeOk(s.nodes, s.requests, i);
    NodeChanged(s, Update(s, t, i, n, f), t, i);
    UpdateInv(s, t, i, n, f);
  }

  ghost predicate OnTop(s: State, t: Tid, f: Frame) {
    Inv(s) && Live(s, t) && f == Top(s, t)
  }

  ghost predicate Keeps(s: State, t: Tid, s': State) {
    Inv(s') && Guarantee(s, s', t)
  }

  lemma StepWant(s: State, t: Tid, f: Frame, s': State)
    requires OnTop(s, t, f) && f.Cancel? && f.n < |s.nodes| && f.pc == Want
    requires CancelStep(s, t, f, 0) == Some(s')
    ensures Keeps(s, t, s')
  {
    hide Inv, Guarantee, NodeOk, Caused;
    TopOk(s, t);
    assert CancelOk(s.nodes, s.requests, t, f, |s.threads[t]| == 1, true);
    var n, g := s.nodes[f.n].(lock := Some(t)), f.(pc := Check);
    UpdateGuarantee(s, t, f.n, n, g);
    CausedStable(s, s', t, f.n, f.err, f.cause);
    NodeFacts(s, f.n);
    MoveNode(s, t, f.n, n, g);
  }

  lemma NodeFacts(s: State, i: Id)
    requires Inv(s) && i < |s.nodes|
    ensures var n := s.nodes[i];
            && (IsClosed(n.done) ==> n.err.Some?) && (n.err.Some? && n.lock.None? ==> Settled(n))
            && (n.err.Some? <==> n.cause.Some?)
            && (n.ready ==> n.attached) && n.starts == (if n.once == Started then 1 else 0)
            && (n.parent.Some? ==> n.parent.value < i)
            && (forall j: Id :: j in Kids(n) ==> j < |s.nodes| && s.nodes[j].parent == Some(i))
            && (n.err.Some? ==> Caused(s.nodes, s.requests, i, n.err.value, n.cause.value))
  {
    assert NodeOk(s.nodes, s.requests, i);
  }

  /** mu held and err already set: unlock and go on to the tail. */
  lemma StepAlready(s: State, t: Tid, f: Frame, s': State)
    requires OnTop(s, t, f) && f.Cancel? && f.n < |s.nodes| && f.pc == Check && s.nodes[f.n].err.Some?
    requires CancelStep(s, t, f, 0) == Some(s')
    ensures Keeps(s, t, s')
  {
    hide Inv, Guarantee, NodeOk, Caused;
    TopOk(s, t);
    assert CancelOk(s.nodes, s.requests, t, f, |s.threads[t]| == 1, true);
    var n, g := s.nodes[f.n].(lock := None), f.(pc := AfterInner(s.nodes[f.n].kind, f.remove, true));
    UpdateGuarantee(s, t, f.n, n, g);
    CausedStable(s, s', t, f.n, f.err, f.cause);
    NodeFacts(s, f.n);
    MoveNode(s, t, f.n, n, g);
  }

  lemma StepUnlock(s: State, t: Tid, f: Frame, s': State)
    requires OnTop(s, t, f) && f.Cancel? && f.n < |s.nodes| && f.pc == Unlock
    requires CancelStep(s, t, f, 0) == Some(s')
    ensures Keeps(s, t, s')
  {
    hide Inv, Guarantee, NodeOk, Caused;
    TopOk(s, t);
    assert CancelOk(s.nodes, s.requests, t, f, |s.threads[t]| == 1, true);
    var n, g := s.nodes[f.n].(lock := None), f.(pc := AfterInner(s.nodes[f.n].kind, f.remove, false));
    UpdateGuarantee(s, t, f.n, n, g);
    CausedStable(s, s', t, f.n, f.err, f.cause);
    NodeFacts(s, f.n);
    MoveNode(s, t, f.n, n, g);
  }

  lemma StepUnlinkLoad(s: State, t: Tid, f: Frame, s': State)
    requires OnTop(s, t, f) && f.Cancel? && f.n < |s.nodes| && f.pc == UnlinkLoad
    requires CancelStep(s, t, f, 0) == Some(s')
    ensures Keeps(s, t, s')
  {
    hide Inv, Guarantee, NodeOk, Caused;
    TopOk(s, t);
    assert CancelOk(s.nodes, s.requests, t, f, |s.threads[t]| == 1, true);
    NodeFacts(s, f.n);
    var n := s.nodes[f.n];
    var g := if n.parent.None? then f.(pc := Tail(n.kind))
             else var p := s.nodes[n.parent.value];
                  f.(pc := if p.done == NoChan then UnlinkDone else if p.done == Shared then Tail(n.kind) else Unlink);
    MoveOnly(s, t, g);
  }

  lemma StepUnlinkDone(s: State, t: Tid, f: Frame, s': State)
    requires OnTop(s, t, f) && f.Cancel? && f.n < |s.nodes| && f.pc == UnlinkDone
    requires CancelStep(s, t, f, 0) == Some(s')
    ensures Keeps(s, t, s')
  {
    hide Inv, Guarantee, NodeOk, Caused;
    TopOk(s, t);
    assert CancelOk(s.nodes, s.requests, t, f, |s.threads[t]| == 1, true);
    NodeFacts(s, f.n);
    var i := s.nodes[f.n].parent.value;
    var d := MakeChan(s.nodes[i].done);
    var n, g := s.nodes[i].(done := d), f.(pc := if d == Shared then Tail(s.nodes[f.n].kind) else Unlink);
    UpdateGuarantee(s, t, i, n, g);
    CausedStable(s, s', t, f.n, f.err, f.cause);
    NodeFacts(s, i);
    MoveNode(s, t, i, n, g);
  }

  lemma StepUnlink(s: State, t: Tid, f: Frame, s': State)
    requires OnTop(s, t, f) && f.Cancel? && f.n < |s.nodes| && f.pc == Unlink
    requires CancelStep(s, t, f, 0) == Some(s')
    ensures Keeps(s, t, s')
  {
    hide Inv, Guarantee, NodeOk, Caused;
    TopOk(s, t);
    assert CancelOk(s.nodes, s.requests, t, f, |s.threads[t]| == 1, true);
    NodeFacts(s, f.n);
    var i := s.nodes[f.n].parent.value;
    var kids := if s.nodes[i].children.Some? then Some(s.nodes[i].children.value - {f.n}) else None;
    var n, g := s.nodes[i].(children := kids), f.(pc := Tail(s.nodes[f.n].kind));
    UpdateGuarantee(s, t, i, n, g);
    CausedStable(s, s', t, f.n, f.err, f.cause);
    NodeFacts(s, i);
    MoveNode(s, t, i, n, g);
  }

  lemma StepStopTimer(s: State, t: Tid, f: Frame, s': State)
    requires OnTop(s, t, f) && f.Cancel? && f.n < |s.nodes| && f.pc == StopTimer
    requires CancelStep(s, t, f, 0) == Some(s')
    ensures Keeps(s, t, s')
  {
    hide Inv, Guarantee, NodeOk, Caused;
    TopOk(s, t);
    assert CancelOk(s.nodes, s.requests, t, f, |s.threads[t]| == 1, true);
    MoveOnly(s, t, f.(pc := Ret));
  }

  lemma StepRunOnce(s: State, t: Tid, f: Frame, s': State)
    requires OnTop(s, t, f) && f.Cancel? && f.n < |s.nodes| && f.pc == RunOnce
    requires CancelStep(s, t, f, 0) == Some(s')
    ensures Keeps(s, t, s')
  {
    hide Inv, Guarantee, NodeOk, Caused;
    TopOk(s, t);
    assert CancelOk(s.nodes, s.requests, t, f, |s.threads[t]| == 1, true);
    NodeFacts(s, f.n);
    var o := s.nodes[f.n];
    if o.once == Unused {
      var n, g := o.(once := Started, starts := o.starts + 1), f.(pc := Ret);
      UpdateGuarantee(s, t, f.n, n, g);
      CausedStable(s, s', t, f.n, f.err, f.cause);
      MoveNode(s, t, f.n, n, g);
    } else {
      MoveOnly(s, t, f.(pc := Ret));
    }
  }
}
