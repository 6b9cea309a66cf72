/** The steps of propagateCancel, and the operations goroutines begin, keep the invariant. */
module ContextAttach {
  import opened Basics
  import opened Contexts
  import opened ContextInvariant
  import opened ContextSteps
  import opened ContextCancel
  import opened ContextCalls

  lemma AttachTop(s: State, t: Tid, f: Frame)
    requires OnTop(s, t, f) && f.Attach?
    ensures |s.threads[t]| == 1 && AttachOk(s.nodes, t, f, true, true)
    ensures f.parent < f.child < |s.nodes|
  {
    hide Inv, AttachOk, NodeOk;
    TopOk(s, t);
    AttachFirst(s.nodes, t, f, |s.threads[t]| == 1);
  }

  lemma AttachFirst(ns: seq<Node>, t: Tid, f: Frame, first: bool)
    requires f.Attach? && AttachOk(ns, t, f, first, true)
    ensures first
  {
  }

  /** Steps that read the parent and only move the program counter. */
  lemma StepRead(s: State, t: Tid, f: Frame, s': State)
    requires OnTop(s, t, f) && f.Attach? && f.child < |s.nodes| && f.parent < |s.nodes|
    requires f.apc == LoadDone || f.apc == Select || f.apc == ReadErr || f.apc == Find
    requires AttachStep(s, t, f) == Some(s')
    ensures Keeps(s, t, s')
  {
    hide Inv, NodeOk, Guarantee;
    AttachTop(s, t, f);
    NodeFacts(s, f.parent);
    var g := s'.threads[t][0];
    assert s' == WithTop(s, t, g);
    MoveOnly(s, t, g);
  }

  lemma StepMakeDone(s: State, t: Tid, f: Frame, s': State)
    requires OnTop(s, t, f) && f.Attach? && f.child < |s.nodes| && f.parent < |s.nodes| && f.apc == MakeDone
    requires AttachStep(s, t, f) == Some(s')
    ensures Keeps(s, t, s')
  {
    hide Inv, NodeOk, Guarantee;
    AttachTop(s, t, f);
    NodeFacts(s, f.parent);
    var d := MakeChan(s.nodes[f.parent].done);
    MoveNode(s, t, f.parent, s.nodes[f.parent].(done := d), f.(apc := Select, shared := d == Shared));
  }

  lemma StepWantParent(s: State, t: Tid, f: Frame, s': State)
    requires OnTop(s, t, f) && f.Attach? && f.child < |s.nodes| && f.parent < |s.nodes| && f.apc == WantParent
    requires AttachStep(s, t, f) == Some(s')
    ensures Keeps(s, t, s')
  {
    hide Inv, NodeOk, Guarantee;
    AttachTop(s, t, f);
    NodeFacts(s, f.parent);
    MoveNode(s, t, f.parent, s.nodes[f.parent].(lock := Some(t)), f.(apc := Held));
  }

  lemma StepRelease(s: State, t: Tid, f: Frame, s': State)
    requires OnTop(s, t, f) && f.Attach? && f.child < |s.nodes| && f.parent < |s.nodes| && f.apc == Release
    requires AttachStep(s, t, f) == Some(s')
    ensures Keeps(s, t, s')
  {
    hide Inv, NodeOk, Guarantee;
    AttachTop(s, t, f);
    NodeFacts(s, f.parent);
    MoveNode(s, t, f.parent, s.nodes[f.parent].(lock := None), f.(apc := Attached));
  }

  /** The child's cancel has returned: the child is cancelled, so propagateCancel is done. */
  lemma StepReturned(s: State, t: Tid, f: Frame, s': State)
    requires OnTop(s, t, f) && f.Attach? && f.child < |s.nodes| && f.parent < |s.nodes|
    requires f.apc == CallHeld || f.apc == CallFree
    requires AttachStep(s, t, f) == Some(s')
    ensures Keeps(s, t, s')
  {
    hide Inv, NodeOk, Guarantee;
    AttachTop(s, t, f);
    NodeFacts(s, f.child);
    MoveNode(s, t, f.child, s.nodes[f.child].(attached := true),
             f.(apc := if f.apc == CallHeld then Release else Attached));
  }

  /** The parent is already cancelled: cancel the child with the parent's err and cause. */
  lemma StepCall(s: State, t: Tid, f: Frame, s': State)
    requires OnTop(s, t, f) && f.Attach? && f.child < |s.nodes| && f.parent < |s.nodes|
    requires f.apc == ReadCause || (f.apc == Held && s.nodes[f.parent].err.Some?)
    requires AttachStep(s, t, f) == Some(s')
    ensures Keeps(s, t, s')
  {
    hide Inv, NodeOk, Guarantee, Sound, Covered;
    AttachTop(s, t, f);
    NodeFacts(s, f.parent);
    var p := s.nodes[f.parent];
    var caller := f.(apc := if f.apc == Held then CallHeld else CallFree);
    var g := Cancel(f.child, false, p.err.value, p.cause.value, Want, {});
    assert s' == Call(s, t, caller, g);
    CallGuarantee(s, t, caller, g);
    CallSound(s, t, caller, g);
    CallCovered(s, t, caller, g);
    Together(s');
  }

  // ---- linking into the parent's children ----

  lemma StepLink(s: State, t: Tid, f: Frame, s': State)
    requires OnTop(s, t, f) && f.Attach? && f.child < |s.nodes| && f.parent < |s.nodes|
    requires f.apc == Held && s.nodes[f.parent].err.None?
    requires AttachStep(s, t, f) == Some(s')
    ensures Keeps(s, t, s')
  {
    hide Inv, NodeOk, Sound, Covered, Guarantee, AttachOk, OnTop, NodeStep;
    var s1 := LinkParent(s, t, f);
    var n, g := s1.nodes[f.child].(attached := true), f.(apc := Release);
    assert s' == Update(s1, t, f.child, n, g);
    LinkChild(s1, t, f, s');
    GuaranteeTrans(s, s1, s', t);
  }

  function Linked(s: State, f: Frame): Node
    requires f.Attach? && f.parent < |s.nodes|
  {
    s.nodes[f.parent].(children := Some(Kids(s.nodes[f.parent]) + {f.child}))
  }

  lemma LinkParent(s: State, t: Tid, f: Frame) returns (s1: State)
    requires OnTop(s, t, f) && f.Attach? && f.child < |s.nodes| && f.parent < |s.nodes|
    requires f.apc == Held && s.nodes[f.parent].err.None?
    ensures s1 == WithNode(s, f.parent, Linked(s, f))
    ensures OnTop(s1, t, f) && Guarantee(s, s1, t) && Live(s1, t)
    ensures f.child in Kids(s1.nodes[f.parent]) && s1.nodes[f.parent].err.None?
  {
    hide Inv, Guarantee;
    AttachTop(s, t, f);
    NodeFacts(s, f.parent);
    s1 := WithNode(s, f.parent, Linked(s, f));
    assert Below(s.threads[t]) + [f] == s.threads[t];
    assert s.threads[t := s.threads[t]] == s.threads;
    UpdateGuarantee(s, t, f.parent, Linked(s, f), f);
    LinkedOk(s, t, f, s1);
    UpdateInv(s, t, f.parent, Linked(s, f), f);
  }

  lemma LinkedOk(s: State, t: Tid, f: Frame, s1: State)
    requires OnTop(s, t, f) && f.Attach? && f.parent < f.child < |s.nodes|
    requires s.nodes[f.parent].err.None? && s1 == WithNode(s, f.parent, Linked(s, f))
    requires s.nodes[f.child].parent == Some(f.parent)
    ensures NodeOk(s1.nodes, s1.requests, f.parent)
  {
    hide Inv;
    NodeFacts(s, f.parent);
  }

  lemma GuaranteeTrans(s: State, s1: State, s': State, t: Tid)
    requires Guarantee(s, s1, t) && Guarantee(s1, s', t)
    ensures Guarantee(s, s', t)
  {
    forall i: Id | i < |s.nodes|
      ensures NodeStep(s.nodes[i], s'.nodes[i], t)
    {
      assert NodeStep(s.nodes[i], s1.nodes[i], t) && NodeStep(s1.nodes[i], s'.nodes[i], t);
    }
  }

  lemma LinkChild(s: State, t: Tid, f: Frame, s': State)
    requires OnTop(s, t, f) && f.Attach? && f.child < |s.nodes| && f.parent < |s.nodes| && f.apc == Held
    requires f.child in Kids(s.nodes[f.parent]) && s.nodes[f.parent].err.None?
    requires s' == Update(s, t, f.child, s.nodes[f.child].(attached := true), f.(apc := Release))
    ensures Keeps(s, t, s')
  {
    hide Inv, Guarantee, NodeOk, Sound, Covered;
    AttachTop(s, t, f);
    NodeFacts(s, f.child);
    var n, g := s.nodes[f.child].(attached := true), f.(apc := Release);
    UpdateGuarantee(s, t, f.child, n, g);
    NodeOfTop(s, f.child);
    NodeChanged(s, s', t, f.child);
    UpdateSound(s, t, f.child, n, g);
    LinkCovered(s, t, f, s');
    Together(s');
  }

  lemma NodeOfTop(s: State, i: Id)
    requires Inv(s) && i < |s.nodes|
    ensures NodeOk(s.nodes, s.requests, i)
  {
  }

  lemma LinkCovered(s: State, t: Tid, f: Frame, s': State)
    requires OnTop(s, t, f) && f.Attach? && f.parent < f.child < |s.nodes|
    requires s.nodes[f.child].parent == Some(f.parent)
    requires f.child in Kids(s.nodes[f.parent]) && s.nodes[f.parent].err.None?
    requires s' == Update(s, t, f.child, s.nodes[f.child].(attached := true), f.(apc := Release))
    ensures Covered(s')
  {
    hide StackOk, NodeOk, LockOwned;
    forall c: Id | c < |s'.nodes|
      ensures ChildCovered(s', c)
    {
      assert ChildCovered(s, c);
      var m := s'.nodes[c];
      if c != f.child && m.attached && m.parent.Some? && m.err.None? && m.parent.value < |s.nodes| {
        var p := m.parent.value;
        if s'.nodes[p].err.Some? {
          CoveredElsewhere(s, t, f.(apc := Release), s', p, c);
        }
      }
    }
  }

  // ---- returning from the constructor ----

  lemma StepAttached(s: State, t: Tid, f: Frame, s': State)
    requires OnTop(s, t, f) && f.Attach? && f.child < |s.nodes| && f.parent < |s.nodes| && f.apc == Attached
    requires AttachStep(s, t, f) == Some(s')
    ensures Keeps(s, t, s')
  {
    hide Inv, Guarantee, NodeOk, Sound, Covered;
    AttachTop(s, t, f);
    NodeFacts(s, f.child);
    var n := s.nodes[f.child].(ready := true);
    var s1 := Update(s, t, f.child, n, f);
    MoveNode(s, t, f.child, n, f);
    assert s1.threads == s.threads by { assert s.threads[t] == Below(s.threads[t]) + [f]; }
    PopAttach(s1, t, f);
    assert s' == Pop(s1, t);
    GuaranteeTrans(s, s1, s', t);
  }

  lemma PopAttach(s: State, t: Tid, f: Frame)
    requires OnTop(s, t, f) && f.Attach? && |s.threads[t]| == 1 && f.apc == Attached
    ensures Keeps(s, t, Pop(s, t))
  {
    hide NodeOk, AttachOk, CancelOk;
    var s' := Pop(s, t);
    assert Guarantee(s, s', t);
    forall j: Id | j < |s'.nodes|
      ensures LockOwned(s', j) && ChildCovered(s', j)
    {
      assert LockOwned(s, j) && ChildCovered(s, j);
      SamePlaces(s, t, s', j);
    }
    forall u: Tid | u < |s'.threads|
      ensures StackOk(s'.nodes, s'.requests, u, s'.threads[u])
    {
      if u != t { StackStable(s, s', t, u); }
    }
  }

  /** A goroutine whose only activation neither holds a lock nor covers a child can go idle. */
  lemma SamePlaces(s: State, t: Tid, s': State, j: Id)
    requires Live(s, t) && Top(s, t).Attach? && |s.threads[t]| == 1 && Top(s, t).apc == Attached
    requires s' == Pop(s, t) && j < |s.nodes| && LockOwned(s, j) && ChildCovered(s, j)
    ensures LockOwned(s', j) && ChildCovered(s', j)
  {
    hide Inv;
    if s.nodes[j].lock.Some? {
      var u := s.nodes[j].lock.value;
      var k: nat :| k < |s.threads[u]| && Holds(s.threads[u][k], j);
      assert Holds(s'.threads[u][k], j);
    }
    var m := s'.nodes[j];
    if m.attached && m.parent.Some? && m.err.None? && m.parent.value < |s.nodes| {
      var p := m.parent.value;
      if s.nodes[p].err.Some? {
        var u: Tid, k: nat :| u < |s.threads| && Covers(s.threads[u], k, p, j);
        assert Covers(s'.threads[u], k, p, j);
      }
    }
  }

  lemma AttachKeeps(s: State, t: Tid, f: Frame, s': State)
    requires OnTop(s, t, f) && f.Attach? && f.child < |s.nodes| && f.parent < |s.nodes|
    requires AttachStep(s, t, f) == Some(s')
    ensures Keeps(s, t, s')
  {
    hide OnTop, Keeps;
    match f.apc
    case LoadDone => StepRead(s, t, f, s');
    case MakeDone => StepMakeDone(s, t, f, s');
    case Select => StepRead(s, t, f, s');
    case ReadErr => StepRead(s, t, f, s');
    case ReadCause => StepCall(s, t, f, s');
    case CallFree => StepReturned(s, t, f, s');
    case Find => StepRead(s, t, f, s');
    case WantParent => StepWantParent(s, t, f, s');
    case Held => if s.nodes[f.parent].err.Some? { StepCall(s, t, f, s'); } else { StepLink(s, t, f, s'); }
    case CallHeld => StepReturned(s, t, f, s');
    case Release => StepRelease(s, t, f, s');
    case Attached => StepAttached(s, t, f, s');
    case Panic =>
    case Fallback =>
  }

  // ---- operations begun by an idle goroutine ----

  /** t was idle; afterwards it runs at most one activation, which holds no lock; locks, children, err
      and attachment of old nodes are as before, and new nodes have neither. */
  ghost predicate Began(s: State, s': State, t: Tid) {
    && t < |s.threads| && s.threads[t] == [] && Guarantee(s, s', t)
    && |s'.threads[t]| <= 1
    && (forall i: Id :: i < |s.nodes| ==> Untouched(s.nodes[i], s'.nodes[i]))
    && (forall i: Id :: |s.nodes| <= i < |s'.nodes| ==> Newborn(s'.nodes[i], i))
  }

  predicate Untouched(n: Node, n': Node) {
    && n'.parent == n.parent && n'.lock == n.lock && n'.err == n.err && n'.cause == n.cause
    && n'.children == n.children && n'.attached == n.attached && n'.ready == n.ready
    && (IsClosed(n'.done) <==> IsClosed(n.done))
    && n'.starts == n.starts && (n'.once == Started <==> n.once == Started)
  }

  predicate Newborn(n: Node, i: Id) {
    && (n.parent.Some? ==> n.parent.value < i && !n.attached && !n.ready)
    && n.lock.None? && n.err.None? && n.cause.None? && n.children.None? && n.done == NoChan
    && (n.ready ==> n.attached) && n.once == Unused && n.starts == 0
  }

  lemma BeganInv(s: State, s': State, t: Tid)
    requires Inv(s) && Began(s, s', t)
    requires StackOk(s'.nodes, s'.requests, t, s'.threads[t])
    ensures Inv(s')
  {
    hide NodeOk, StackOk, LockOwned, ChildCovered, Guarantee, Untouched, Newborn;
    forall i: Id | i < |s'.nodes|
      ensures NodeOk(s'.nodes, s'.requests, i) && LockOwned(s', i) && ChildCovered(s', i)
    {
      BeganNode(s, s', t, i);
      BeganCovered(s, s', t, i);
    }
    forall u: Tid | u < |s'.threads|
      ensures StackOk(s'.nodes, s'.requests, u, s'.threads[u])
    {
      SameThreads(s, s', t);
      if u != t { StackStable(s, s', t, u); }
    }
  }

  lemma SameThreads(s: State, s': State, t: Tid)
    requires Guarantee(s, s', t)
    ensures |s'.threads| == |s.threads| && |s.nodes| <= |s'.nodes|
    ensures forall u: Tid :: u < |s.threads| && u != t ==> s'.threads[u] == s.threads[u]
  {
  }

  lemma BeganNode(s: State, s': State, t: Tid, i: Id)
    requires Inv(s) && Began(s, s', t) && i < |s'.nodes|
    ensures NodeOk(s'.nodes, s'.requests, i) && LockOwned(s', i)
  {
    hide StackOk, ChildCovered, Caused;
    if i < |s.nodes| {
      assert NodeOk(s.nodes, s.requests, i) && LockOwned(s, i);
      assert Untouched(s.nodes[i], s'.nodes[i]);
      NodeChanged(s, s', t, i);
      if s.nodes[i].lock.Some? {
        var u := s.nodes[i].lock.value;
        var k: nat :| k < |s.threads[u]| && Holds(s.threads[u][k], i);
        assert Holds(s'.threads[u][k], i);
      }
    } else {
      assert Newborn(s'.nodes[i], i);
    }
  }

  lemma BeganCovered(s: State, s': State, t: Tid, i: Id)
    requires Inv(s) && Began(s, s', t) && i < |s'.nodes|
    ensures ChildCovered(s', i)
  {
    hide StackOk, NodeOk, LockOwned;
    var m := s'.nodes[i];
    if i >= |s.nodes| {
      assert Newborn(m, i);
    } else {
      assert ChildCovered(s, i) && Untouched(s.nodes[i], m);
      if m.attached && m.parent.Some? && m.err.None? && m.parent.value < |s'.nodes| {
        var p := m.parent.value;
        NodeFacts(s, i);
        assert Untouched(s.nodes[p], s'.nodes[p]);
        if s'.nodes[p].err.Some? {
          var u: Tid, k: nat :| u < |s.threads| && Covers(s.threads[u], k, p, i);
          assert Covers(s'.threads[u], k, p, i);
        }
      }
    }
  }

  lemma StartKeeps(s: State, t: Tid, op: Op, s': State)
    requires Inv(s) && StartStep(s, t, op) == Some(s')
    ensures Keeps(s, t, s')
  {
    hide Inv, NodeOk, Guarantee, NodeStep;
    match op
    case NewRoot(k) => StartRoot(s, t, k, s');
    case NewChild(k, p) => StartChild(s, t, k, p, s');
    case CancelCall(n, remove, e, c) => StartCancel(s, t, op, s');
    case StopCall(n) => StartStop(s, t, n, s');
    case DoneCall(n) => StartDone(s, t, n, s');
  }

  lemma StartRoot(s: State, t: Tid, k: Kind, s': State)
    requires Inv(s) && StartStep(s, t, NewRoot(k)) == Some(s')
    ensures Keeps(s, t, s')
  {
    hide Inv;
    BeganInv(s, s', t);
  }

  lemma StartChild(s: State, t: Tid, k: Kind, p: Id, s': State)
    requires Inv(s) && StartStep(s, t, NewChild(k, p)) == Some(s')
    ensures Keeps(s, t, s')
  {
    hide Inv;
    BeganInv(s, s', t);
  }

  lemma StartCancel(s: State, t: Tid, op: Op, s': State)
    requires Inv(s) && op.CancelCall? && StartStep(s, t, op) == Some(s')
    ensures Keeps(s, t, s')
  {
    hide Inv;
    BeganInv(s, s', t);
  }

  lemma StartStop(s: State, t: Tid, n: Id, s': State)
    requires Inv(s) && StartStep(s, t, StopCall(n)) == Some(s')
    ensures Keeps(s, t, s')
  {
    hide Inv;
    NodeFacts(s, n);
    BeganInv(s, s', t);
  }

  lemma StartDone(s: State, t: Tid, n: Id, s': State)
    requires Inv(s) && StartStep(s, t, DoneCall(n)) == Some(s')
    ensures Keeps(s, t, s')
  {
    hide Inv;
    BeganInv(s, s', t);
  }
}
