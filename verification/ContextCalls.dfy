/** The steps that make cancellation propagate: storing err, closing done, looping over the children,
    calling into a child and returning from it. */
module ContextCalls {
  import opened Basics
  import opened Contexts
  import opened ContextInvariant
  import opened ContextSteps
  import opened ContextCancel

  // ---- storing err and closing done ----

  lemma StepStore(s: State, t: Tid, f: Frame, s': State)
    requires OnTop(s, t, f) && f.Cancel? && f.n < |s.nodes| && f.pc == Check && s.nodes[f.n].err.None?
    requires CancelStep(s, t, f, 0) == Some(s')
    ensures Keeps(s, t, s')
  {
    hide Inv, Guarantee, Caused, NodeOk, Sound, Covered;
    TopOk(s, t);
    assert CancelOk(s.nodes, s.requests, t, f, |s.threads[t]| == 1, true);
    NodeFacts(s, f.n);
    var n, g := s.nodes[f.n].(err := Some(f.err), cause := Some(f.cause)), f.(pc := Publish);
    UpdateGuarantee(s, t, f.n, n, g);
    CausedStable(s, s', t, f.n, f.err, f.cause);
    StoreNode(s, t, f, s');
    UpdateSound(s, t, f.n, n, g);
    StoreCovered(s, t, f, s');
    Together(s');
  }

  lemma StoreNode(s: State, t: Tid, f: Frame, s': State)
    requires OnTop(s, t, f) && f.Cancel? && f.n < |s.nodes| && f.pc == Check && s.nodes[f.n].err.None?
    requires CancelStep(s, t, f, 0) == Some(s') && Guarantee(s, s', t)
    requires Caused(s'.nodes, s'.requests, f.n, f.err, f.cause) && s.nodes[f.n].lock == Some(t)
    ensures NodeOk(s'.nodes, s'.requests, f.n)
  {
    hide Inv, Caused;
    NodeFacts(s, f.n);
  }

  lemma StoreCovered(s: State, t: Tid, f: Frame, s': State)
    requires OnTop(s, t, f) && f.Cancel? && f.n < |s.nodes| && f.pc == Check && s.nodes[f.n].err.None?
    requires CancelStep(s, t, f, 0) == Some(s')
    ensures Covered(s')
  {
    hide StackOk, NodeOk, LockOwned;
    forall c: Id | c < |s'.nodes|
      ensures ChildCovered(s', c)
    {
      assert ChildCovered(s, c);
      var m := s'.nodes[c];
      if m.attached && m.parent.Some? && m.err.None? && m.parent.value < |s.nodes| {
        var p := m.parent.value;
        if p == f.n {
          assert Covers(s'.threads[t], |s.threads[t]| - 1, p, c);
        } else if s.nodes[p].err.Some? {
          CoveredElsewhere(s, t, f.(pc := Publish), s', p, c);
        }
      }
    }
  }

  /** Coverage by some stack survives a top activation that covered nothing moving on. */
  lemma CoveredElsewhere(s: State, t: Tid, g: Frame, s': State, p: Id, c: Id)
    requires Live(s, t) && !Covering(Top(s, t)) && SameJob(Top(s, t), g)
    requires s'.threads == WithTop(s, t, g).threads
    requires exists u: Tid, k: nat :: u < |s.threads| && Covers(s.threads[u], k, p, c)
    ensures exists u: Tid, k: nat :: u < |s'.threads| && Covers(s'.threads[u], k, p, c)
  {
    var u: Tid, k: nat :| u < |s.threads| && Covers(s.threads[u], k, p, c);
    assert Covers(s'.threads[u], k, p, c);
  }

  lemma StepPublish(s: State, t: Tid, f: Frame, s': State)
    requires OnTop(s, t, f) && f.Cancel? && f.n < |s.nodes| && f.pc == Publish
    requires CancelStep(s, t, f, 0) == Some(s')
    ensures Keeps(s, t, s')
  {
    hide Inv, Guarantee, Caused, NodeOk, Sound, Covered;
    TopOk(s, t);
    assert CancelOk(s.nodes, s.requests, t, f, |s.threads[t]| == 1, true);
    NodeFacts(s, f.n);
    var n := s.nodes[f.n].(done := CloseDone(s.nodes[f.n].done));
    var g := f.(pc := Loop, todo := Kids(s.nodes[f.n]));
    UpdateGuarantee(s, t, f.n, n, g);
    CausedStable(s, s', t, f.n, f.err, f.cause);
    NodeChanged(s, s', t, f.n);
    UpdateSound(s, t, f.n, n, g);
    LoopCovered(s, t, f, g, s');
    Together(s');
  }

  /** The covering top activation moves to a loop over everything it still owes. */
  lemma LoopCovered(s: State, t: Tid, f: Frame, g: Frame, s': State)
    requires OnTop(s, t, f) && f.Cancel? && f.n < |s.nodes| && SameJob(f, g)
    requires s'.threads == WithTop(s, t, g).threads && |s'.nodes| == |s.nodes|
    requires forall i: Id :: i < |s.nodes| ==>
               SameFamily(s.nodes[i], s'.nodes[i]) && s'.nodes[i].children == s.nodes[i].children
    requires f.pc == Publish && g.pc == Loop && g.todo == Kids(s.nodes[f.n])
    ensures Covered(s')
  {
    hide StackOk, NodeOk, LockOwned;
    forall c: Id | c < |s'.nodes|
      ensures ChildCovered(s', c)
    {
      assert ChildCovered(s, c);
      assert SameFamily(s.nodes[c], s'.nodes[c]);
      var m := s'.nodes[c];
      if m.attached && m.parent.Some? && m.err.None? && m.parent.value < |s.nodes| {
        var p := m.parent.value;
        assert SameFamily(s.nodes[p], s'.nodes[p]);
        if s'.nodes[p].err.Some? {
          var u: Tid, k: nat :| u < |s.threads| && Covers(s.threads[u], k, p, c);
          assert Covers(s'.threads[u], k, p, c);
        }
      }
    }
  }

  predicate SameFamily(n: Node, n': Node) {
    n'.parent == n.parent && n'.err == n.err && n'.attached == n.attached
  }

  // ---- the end of the loop ----

  /** Whoever covers a child of a node f is looping over is f itself. */
  lemma SoleCover(s: State, t: Tid, f: Frame, u: Tid, k: nat, c: Id)
    requires OnTop(s, t, f) && f.Cancel? && HoldsPc(f.pc)
    requires u < |s.threads| && Covers(s.threads[u], k, f.n, c)
    ensures u == t && k == |s.threads[t]| - 1
  {
    hide NodeOk, LockOwned, ChildCovered, Caused;
    TopOk(s, t);
    assert StackOk(s.nodes, s.requests, u, s.threads[u]);
    var h := s.threads[u][k];
    assert FrameOk(s.nodes, s.requests, u, h, k == 0, k == |s.threads[u]| - 1);
    if u == t && k < |s.threads[t]| - 1 {
      Increasing(s, t, k, |s.threads[t]| - 1);
    }
  }

  /** With nothing left to do, every attached child has been cancelled. */
  lemma LoopFinished(s: State, t: Tid, f: Frame, c: Id)
    requires OnTop(s, t, f) && f.Cancel? && f.n < |s.nodes| && f.pc == Loop && f.todo == {}
    requires c < |s.nodes| && s.nodes[c].parent == Some(f.n) && s.nodes[c].attached && s.nodes[f.n].err.Some?
    ensures s.nodes[c].err.Some?
  {
    hide NodeOk, LockOwned, StackOk;
    assert ChildCovered(s, c);
    if s.nodes[c].err.None? {
      var u: Tid, k: nat :| u < |s.threads| && Covers(s.threads[u], k, f.n, c);
      SoleCover(s, t, f, u, k, c);
    }
  }

  lemma StepLoopEnd(s: State, t: Tid, f: Frame, s': State)
    requires OnTop(s, t, f) && f.Cancel? && f.n < |s.nodes| && f.pc == Loop && f.todo == {}
    requires CancelStep(s, t, f, 0) == Some(s')
    ensures Keeps(s, t, s')
  {
    hide Inv, Guarantee, Caused, NodeOk, Sound, Covered;
    TopOk(s, t);
    assert CancelOk(s.nodes, s.requests, t, f, |s.threads[t]| == 1, true);
    NodeFacts(s, f.n);
    var n, g := s.nodes[f.n].(children := None), f.(pc := Unlock);
    UpdateGuarantee(s, t, f.n, n, g);
    CausedStable(s, s', t, f.n, f.err, f.cause);
    NodeChanged(s, s', t, f.n);
    UpdateSound(s, t, f.n, n, g);
    EndCovered(s, t, f, s');
    Together(s');
  }

  lemma EndCovered(s: State, t: Tid, f: Frame, s': State)
    requires OnTop(s, t, f) && f.Cancel? && f.n < |s.nodes| && f.pc == Loop && f.todo == {}
    requires s.nodes[f.n].err.Some? && CancelStep(s, t, f, 0) == Some(s')
    ensures Covered(s')
  {
    hide StackOk, NodeOk, LockOwned;
    forall c: Id | c < |s'.nodes|
      ensures ChildCovered(s', c)
    {
      assert ChildCovered(s, c);
      var m := s'.nodes[c];
      if m.attached && m.parent.Some? && m.err.None? && m.parent.value < |s.nodes| {
        var p := m.parent.value;
        if p == f.n {
          LoopFinished(s, t, f, c);
        } else if s.nodes[p].err.Some? {
          var u: Tid, k: nat :| u < |s.threads| && Covers(s.threads[u], k, p, c);
          assert Covers(s'.threads[u], k, p, c);
        }
      }
    }
  }

  // ---- calling a child's cancel ----

  /** Activation f becomes `caller` and calls g; no node changes. */
  function Call(s: State, t: Tid, caller: Frame, g: Frame): State
    requires Live(s, t)
  {
    Push(WithTop(s, t, caller), t, g)
  }

  lemma CallGuarantee(s: State, t: Tid, caller: Frame, g: Frame)
    requires Live(s, t)
    ensures Guarantee(s, Call(s, t, caller, g), t)
  {
  }

  lemma CallSound(s: State, t: Tid, caller: Frame, g: Frame)
    requires Inv(s) && Live(s, t) && SameJob(Top(s, t), caller)
    requires Holds(Top(s, t), NodeOf(caller)) ==> Holds(caller, NodeOf(caller))
    requires FrameOk(s.nodes, s.requests, t, caller, |s.threads[t]| == 1, false)
    requires FrameOk(s.nodes, s.requests, t, g, false, true)
    requires Calls(s.nodes, caller, g)
    ensures Sound(Call(s, t, caller, g))
  {
    hide CancelOk, AttachOk, NodeOk, ChildCovered, LockOwned, StackOk;
    var s' := Call(s, t, caller, g);
    CallGuarantee(s, t, caller, g);
    CallStack(s, t, caller, g);
    forall j: Id | j < |s'.nodes|
      ensures LockOwned(s', j)
    {
      CallLocks(s, t, caller, g, j);
    }
    forall u: Tid | u < |s'.threads|
      ensures StackOk(s'.nodes, s'.requests, u, s'.threads[u])
    {
      if u != t { StackStable(s, s', t, u); }
    }
  }

  lemma CallStack(s: State, t: Tid, caller: Frame, g: Frame)
    requires Inv(s) && Live(s, t) && SameJob(Top(s, t), caller)
    requires FrameOk(s.nodes, s.requests, t, caller, |s.threads[t]| == 1, false)
    requires FrameOk(s.nodes, s.requests, t, g, false, true)
    requires Calls(s.nodes, caller, g)
    ensures var s' := Call(s, t, caller, g); StackOk(s'.nodes, s'.requests, t, s'.threads[t])
  {
    hide CancelOk, AttachOk, NodeOk, ChildCovered, LockOwned;
    var st, st' := s.threads[t], Call(s, t, caller, g).threads[t];
    assert StackOk(s.nodes, s.requests, t, st);
    forall k: nat | k < |st'|
      ensures FrameOk(s.nodes, s.requests, t, st'[k], k == 0, k == |st'| - 1)
    {
      if k < |st| - 1 { assert st'[k] == st[k]; }
    }
    forall k: nat | k + 1 < |st'|
      ensures Calls(s.nodes, st'[k], st'[k + 1])
    {
      if k + 1 < |st| { assert Calls(s.nodes, st[k], st[k + 1]); }
    }
  }

  lemma CallLocks(s: State, t: Tid, caller: Frame, g: Frame, j: Id)
    requires Inv(s) && Live(s, t) && SameJob(Top(s, t), caller) && j < |s.nodes|
    requires Holds(Top(s, t), NodeOf(caller)) ==> Holds(caller, NodeOf(caller))
    ensures LockOwned(Call(s, t, caller, g), j)
  {
    hide NodeOk, ChildCovered, StackOk;
    var s' := Call(s, t, caller, g);
    assert LockOwned(s, j);
    if s.nodes[j].lock.Some? {
      var u := s.nodes[j].lock.value;
      var k: nat :| k < |s.threads[u]| && Holds(s.threads[u][k], j);
      assert Holds(s'.threads[u][k], j);
    }
  }

  /** The loop yields one child: it leaves todo and is being cancelled. */
  lemma StepLoopPick(s: State, t: Tid, f: Frame, pick: Id, s': State)
    requires OnTop(s, t, f) && f.Cancel? && f.n < |s.nodes| && f.pc == Loop && pick in f.todo
    requires CancelStep(s, t, f, pick) == Some(s')
    ensures Keeps(s, t, s')
  {
    hide Inv, Guarantee, NodeOk, Sound, Covered;
    TopOk(s, t);
    assert CancelOk(s.nodes, s.requests, t, f, |s.threads[t]| == 1, true);
    NodeFacts(s, f.n);
    var caller, g := f.(todo := f.todo - {pick}), Cancel(pick, false, f.err, f.cause, Want, {});
    CallGuarantee(s, t, caller, g);
    CallSound(s, t, caller, g);
    PickCovered(s, t, f, pick, s');
    Together(s');
  }

  lemma PickCovered(s: State, t: Tid, f: Frame, pick: Id, s': State)
    requires OnTop(s, t, f) && f.Cancel? && f.n < |s.nodes| && f.pc == Loop && pick in f.todo
    requires CancelStep(s, t, f, pick) == Some(s')
    ensures Covered(s')
  {
    hide StackOk, NodeOk, LockOwned;
    forall c: Id | c < |s'.nodes|
      ensures ChildCovered(s', c)
    {
      assert ChildCovered(s, c);
      var m := s'.nodes[c];
      if m.attached && m.parent.Some? && m.err.None? && m.parent.value < |s.nodes| {
        var p := m.parent.value;
        if s'.nodes[p].err.Some? {
          var u: Tid, k: nat :| u < |s.threads| && Covers(s.threads[u], k, p, c);
          assert Covers(s'.threads[u], k, p, c);
        }
      }
    }
  }

  /** A call that covers nothing itself keeps all coverage. */
  lemma CallCovered(s: State, t: Tid, caller: Frame, g: Frame)
    requires Inv(s) && Live(s, t) && SameJob(Top(s, t), caller) && !Covering(Top(s, t))
    ensures Covered(Call(s, t, caller, g))
  {
    hide StackOk, NodeOk, LockOwned;
    var s' := Call(s, t, caller, g);
    forall c: Id | c < |s'.nodes|
      ensures ChildCovered(s', c)
    {
      assert ChildCovered(s, c);
      var m := s'.nodes[c];
      if m.attached && m.parent.Some? && m.err.None? && m.parent.value < |s.nodes| {
        var p := m.parent.value;
        if s'.nodes[p].err.Some? {
          var u: Tid, k: nat :| u < |s.threads| && Covers(s.threads[u], k, p, c);
          assert Covers(s'.threads[u], k, p, c);
        }
      }
    }
  }

  // ---- returning ----

  lemma StepRet(s: State, t: Tid, f: Frame, s': State)
    requires OnTop(s, t, f) && f.Cancel? && f.n < |s.nodes| && f.pc == Ret
    requires CancelStep(s, t, f, 0) == Some(s')
    ensures Keeps(s, t, s')
  {
    hide Inv, Guarantee, NodeOk, Sound, Covered, Caused;
    TopOk(s, t);
    assert CancelOk(s.nodes, s.requests, t, f, |s.threads[t]| == 1, true);
    PopSound(s, t, f);
    PopCovered(s, t, f);
    Together(s');
  }

  lemma PopSound(s: State, t: Tid, f: Frame)
    requires OnTop(s, t, f) && f.Cancel? && f.n < |s.nodes| && f.pc == Ret && s.nodes[f.n].err.Some?
    ensures Guarantee(s, Pop(s, t), t) && Sound(Pop(s, t))
  {
    hide CancelOk, AttachOk, NodeOk, ChildCovered, LockOwned, StackOk;
    var s' := Pop(s, t);
    forall j: Id | j < |s'.nodes|
      ensures LockOwned(s', j)
    {
      PopLocks(s, t, f, j);
    }
    PopStack(s, t, f);
    forall u: Tid | u < |s'.threads|
      ensures StackOk(s'.nodes, s'.requests, u, s'.threads[u])
    {
      if u != t { StackStable(s, s', t, u); }
    }
  }

  lemma PopLocks(s: State, t: Tid, f: Frame, j: Id)
    requires OnTop(s, t, f) && f.Cancel? && f.pc == Ret && j < |s.nodes|
    ensures LockOwned(Pop(s, t), j)
  {
    hide NodeOk, ChildCovered, StackOk;
    var s' := Pop(s, t);
    assert LockOwned(s, j);
    if s.nodes[j].lock.Some? {
      var u := s.nodes[j].lock.value;
      var k: nat :| k < |s.threads[u]| && Holds(s.threads[u][k], j);
      assert Holds(s'.threads[u][k], j);
    }
  }

  lemma PopStack(s: State, t: Tid, f: Frame)
    requires OnTop(s, t, f) && f.Cancel? && f.n < |s.nodes| && f.pc == Ret && s.nodes[f.n].err.Some?
    ensures StackOk(s.nodes, s.requests, t, Below(s.threads[t]))
  {
    hide NodeOk, ChildCovered, LockOwned, Caused;
    var st, st' := s.threads[t], Below(s.threads[t]);
    assert StackOk(s.nodes, s.requests, t, st);
    forall k: nat | k < |st'|
      ensures FrameOk(s.nodes, s.requests, t, st'[k], k == 0, k == |st'| - 1)
    {
      assert FrameOk(s.nodes, s.requests, t, st[k], k == 0, false);
      assert Calls(s.nodes, st[k], st[k + 1]);
    }
    forall k: nat | k + 1 < |st'|
      ensures Calls(s.nodes, st'[k], st'[k + 1])
    {
      assert Calls(s.nodes, st[k], st[k + 1]);
    }
  }

  lemma PopCovered(s: State, t: Tid, f: Frame)
    requires OnTop(s, t, f) && f.Cancel? && f.n < |s.nodes| && f.pc == Ret && s.nodes[f.n].err.Some?
    ensures Covered(Pop(s, t))
  {
    hide StackOk, NodeOk, LockOwned;
    var s' := Pop(s, t);
    forall c: Id | c < |s'.nodes|
      ensures ChildCovered(s', c)
    {
      assert ChildCovered(s, c);
      var m := s'.nodes[c];
      if m.attached && m.parent.Some? && m.err.None? && m.parent.value < |s.nodes| {
        var p := m.parent.value;
        if s'.nodes[p].err.Some? {
          var u: Tid, k: nat :| u < |s.threads| && Covers(s.threads[u], k, p, c);
          assert Covers(s'.threads[u], k, p, c);
        }
      }
    }
  }

  // ---- all steps of cancel ----

  lemma CancelKeeps(s: State, t: Tid, f: Frame, pick: Id, s': State)
    requires OnTop(s, t, f) && f.Cancel? && f.n < |s.nodes|
    requires CancelStep(s, t, f, pick) == Some(s')
    ensures Keeps(s, t, s')
  {
    hide OnTop, Keeps;
    match f.pc
    case Want => StepWant(s, t, f, s');
    case Check => if s.nodes[f.n].err.Some? { StepAlready(s, t, f, s'); } else { StepStore(s, t, f, s'); }
    case Publish => StepPublish(s, t, f, s');
    case Loop => if f.todo == {} { StepLoopEnd(s, t, f, s'); } else { StepLoopPick(s, t, f, pick, s'); }
    case Unlock => StepUnlock(s, t, f, s');
    case UnlinkLoad => StepUnlinkLoad(s, t, f, s');
    case UnlinkDone => StepUnlinkDone(s, t, f, s');
    case Unlink => StepUnlink(s, t, f, s');
    case StopTimer => StepStopTimer(s, t, f, s');
    case RunOnce => StepRunOnce(s, t, f, s');
    case Ret => StepRet(s, t, f, s');
  }
}
