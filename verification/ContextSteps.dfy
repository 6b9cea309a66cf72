/** Every step of every goroutine keeps the invariant of the cancellation tree. */
module ContextSteps {
  import opened Basics
  import opened Contexts
  import opened ContextInvariant

  function NodeOf(f: Frame): Id {
    if f.Cancel? then f.n else f.parent
  }

  /** Activations lower on a stack work on nodes with smaller ids. */
  lemma {:induction false} Increasing(s: State, t: Tid, j: nat, k: nat)
    requires Inv(s) && t < |s.threads| && j < k < |s.threads[t]|
    ensures NodeOf(s.threads[t][j]) < NodeOf(s.threads[t][k]) < |s.nodes|
    decreases k
  {
    hide CancelOk, NodeOk;
    var st := s.threads[t];
    assert Calls(s.nodes, st[k - 1], st[k]);
    assert FrameOk(s.nodes, s.requests, t, st[k - 1], k - 1 == 0, false);
    assert FrameOk(s.nodes, s.requests, t, st[k], false, k == |st| - 1);
    InRange(s.nodes, s.requests, t, st[k], false, k == |st| - 1);
    ParentSmaller(s, st[k].n);
    if j < k - 1 { Increasing(s, t, j, k - 1); }
  }

  lemma InRange(ns: seq<Node>, req: set<(Id, Err, Err)>, t: Tid, f: Frame, first: bool, top: bool)
    requires FrameOk(ns, req, t, f, first, top)
    ensures NodeOf(f) < |ns| && (f.Attach? ==> f.parent < f.child < |ns| && ns[f.child].parent == Some(f.parent))
  {
  }

  lemma ParentSmaller(s: State, i: Id)
    requires Inv(s) && i < |s.nodes|
    ensures s.nodes[i].parent.Some? ==> s.nodes[i].parent.value < i
  {
    assert NodeOk(s.nodes, s.requests, i);
  }

  /** A node that was not touched is as it should be in the new state. */
  lemma NodeStable(s: State, s': State, t: Tid, i: Id)
    requires Guarantee(s, s', t) && i < |s.nodes| && NodeOk(s.nodes, s.requests, i)
    requires s'.nodes[i] == s.nodes[i]
    ensures NodeOk(s'.nodes, s'.requests, i)
  {
    hide Caused;
    var n := s.nodes[i];
    forall j: Id | j in Kids(n)
      ensures j < |s'.nodes| && s'.nodes[j].parent == Some(i)
    {
      assert NodeStep(s.nodes[j], s'.nodes[j], t);
    }
    if n.err.Some? { CausedStable(s, s', t, i, n.err.value, n.cause.value); }
  }

  /** The part of the invariant about nodes, locks and stacks; ChildCovered is shown separately. */
  ghost predicate Sound(s: State) {
    && (forall i: Id :: i < |s.nodes| ==> NodeOk(s.nodes, s.requests, i))
    && (forall i: Id :: i < |s.nodes| ==> LockOwned(s, i))
    && (forall t: Tid :: t < |s.threads| ==> StackOk(s.nodes, s.requests, t, s.threads[t]))
  }

  ghost predicate Covered(s: State) {
    forall c: Id :: c < |s.nodes| ==> ChildCovered(s, c)
  }

  /** An activation below the top does not notice changes to nodes above its own. */
  lemma LowerFrame(s: State, s': State, t: Tid, f: Frame, first: bool)
    requires Guarantee(s, s', t) && FrameOk(s.nodes, s.requests, t, f, first, false)
    requires NodeOf(f) < |s.nodes| && s'.nodes[NodeOf(f)] == s.nodes[NodeOf(f)]
    ensures FrameOk(s'.nodes, s'.requests, t, f, first, false)
  {
    hide Caused;
    if f.Cancel? {
      CausedStable(s, s', t, f.n, f.err, f.cause);
    } else {
      assert NodeStep(s.nodes[f.child], s'.nodes[f.child], t);
    }
  }

  // ---- one activation changes one node ----

  /** The state after the top activation of t becomes f and node i becomes n. */
  function Update(s: State, t: Tid, i: Id, n: Node, f: Frame): State
    requires Live(s, t) && i < |s.nodes|
  {
    WithTop(WithNode(s, i, n), t, f)
  }

  ghost predicate SameJob(f: Frame, g: Frame) {
    if f.Cancel? then g.Cancel? && g.n == f.n else g.Attach? && g.child == f.child && g.parent == f.parent
  }

  /** What an update must meet: the node moves as allowed, the activation stays on the same job, and
      locks are taken and released by activations that hold them. */
  ghost predicate Allowed(s: State, t: Tid, i: Id, n: Node, f: Frame)
    requires Live(s, t)
  {
    var old_ := Top(s, t);
    && i < |s.nodes| && NodeStep(s.nodes[i], n, t) && SameJob(old_, f)
    && (|s.threads[t]| == 1 || i == NodeOf(old_))
    && (n.lock == s.nodes[i].lock || n.lock.None? || (n.lock == Some(t) && Holds(f, i)))
    && (Holds(old_, NodeOf(old_)) ==> Holds(f, NodeOf(old_)) || (i == NodeOf(old_) && n.lock.None?))
  }

  lemma NodeStepSelf(n: Node, t: Tid)
    ensures NodeStep(n, n, t)
  {
  }

  lemma UpdateGuarantee(s: State, t: Tid, i: Id, n: Node, f: Frame)
    requires Live(s, t) && Allowed(s, t, i, n, f)
    ensures Guarantee(s, Update(s, t, i, n, f), t)
  {
    hide NodeStep;
    var s' := Update(s, t, i, n, f);
    forall j: Id | j < |s.nodes|
      ensures NodeStep(s.nodes[j], s'.nodes[j], t)
    {
      NodeStepSelf(s.nodes[j], t);
    }
  }

  lemma UpdateStack(s: State, t: Tid, i: Id, n: Node, f: Frame)
    requires Inv(s) && Live(s, t) && i < |s.nodes| && Allowed(s, t, i, n, f)
    requires var s' := Update(s, t, i, n, f); FrameOk(s'.nodes, s'.requests, t, f, |s.threads[t]| == 1, true)
    ensures var s' := Update(s, t, i, n, f); StackOk(s'.nodes, s'.requests, t, s'.threads[t])
  {
    hide CancelOk, AttachOk, NodeStep, NodeOk, ChildCovered, LockOwned;
    var s' := Update(s, t, i, n, f);
    UpdateGuarantee(s, t, i, n, f);
    var st, st' := s.threads[t], s'.threads[t];
    var top := |st| - 1;
    assert StackOk(s.nodes, s.requests, t, st);
    forall k: nat | k < |st'|
      ensures FrameOk(s'.nodes, s'.requests, t, st'[k], k == 0, k == top)
    {
      if k < top {
        Increasing(s, t, k, top);
        LowerFrame(s, s', t, st[k], k == 0);
      }
    }
    forall k: nat | k + 1 < |st'|
      ensures Calls(s'.nodes, st'[k], st'[k + 1])
    {
      CallsStable(s, s', t, st[k], st[k + 1]);
    }
  }

  lemma UpdateLocks(s: State, t: Tid, i: Id, n: Node, f: Frame, j: Id)
    requires Inv(s) && Live(s, t) && i < |s.nodes| && Allowed(s, t, i, n, f) && j < |s.nodes|
    ensures LockOwned(Update(s, t, i, n, f), j)
  {
    hide CancelOk, AttachOk, NodeStep, NodeOk, ChildCovered, StackOk;
    var s' := Update(s, t, i, n, f);
    assert LockOwned(s, j);
    var st, st' := s.threads[t], s'.threads[t];
    if s'.nodes[j].lock == Some(t) {
      if s.nodes[j].lock == Some(t) {
        var k: nat :| k < |st| && Holds(st[k], j);
        if k < |st| - 1 { assert st'[k] == st[k]; } else { assert Holds(st'[k], j); }
      } else {
        assert Holds(st'[|st| - 1], j);
      }
    } else if s'.nodes[j].lock.Some? {
      var u := s.nodes[j].lock.value;
      var k: nat :| k < |s.threads[u]| && Holds(s.threads[u][k], j);
      assert Holds(s'.threads[u][k], j);
    }
  }

  lemma UpdateSound(s: State, t: Tid, i: Id, n: Node, f: Frame)
    requires Inv(s) && Live(s, t) && i < |s.nodes| && Allowed(s, t, i, n, f)
    requires var s' := Update(s, t, i, n, f);
             FrameOk(s'.nodes, s'.requests, t, f, |s.threads[t]| == 1, true) && NodeOk(s'.nodes, s'.requests, i)
    ensures Sound(Update(s, t, i, n, f))
  {
    hide CancelOk, AttachOk, NodeStep, NodeOk, ChildCovered, StackOk, LockOwned, Allowed;
    var s' := Update(s, t, i, n, f);
    UpdateGuarantee(s, t, i, n, f);
    UpdateStack(s, t, i, n, f);
    forall j: Id | j < |s'.nodes|
      ensures NodeOk(s'.nodes, s'.requests, j) && LockOwned(s', j)
    {
      UpdateLocks(s, t, i, n, f, j);
      if j != i { NodeStable(s, s', t, j); }
    }
    forall u: Tid | u < |s'.threads|
      ensures StackOk(s'.nodes, s'.requests, u, s'.threads[u])
    {
      if u != t { StackStable(s, s', t, u); }
    }
  }

  // ---- coverage ----

  predicate Covering(f: Frame) {
    f.Cancel? && (f.pc == Publish || f.pc == Loop)
  }

  /** Node i changes without being newly attached, newly cancelled or losing an uncancelled child, and
      the stack keeps what it covers: then every child stays covered. */
  lemma UpdateCovered(s: State, t: Tid, i: Id, n: Node, f: Frame)
    requires Inv(s) && Live(s, t) && i < |s.nodes|
    requires !Covering(Top(s, t)) && SameJob(Top(s, t), f)
    requires NodeStep(s.nodes[i], n, t)
    requires n.err == s.nodes[i].err && (n.attached ==> s.nodes[i].attached || n.err.Some?)
    requires forall c: Id :: c in Kids(s.nodes[i]) && c < |s.nodes| && s.nodes[c].err.None? ==> c in Kids(n)
    ensures Covered(Update(s, t, i, n, f))
  {
    hide StackOk, NodeOk, LockOwned;
    var s' := Update(s, t, i, n, f);
    forall c: Id | c < |s'.nodes|
      ensures ChildCovered(s', c)
    {
      assert ChildCovered(s, c);
      var m := s'.nodes[c];
      if m.attached && m.parent.Some? && m.err.None? && m.parent.value < |s.nodes| {
        var p := m.parent.value;
        if s'.nodes[p].err.Some? {
          var u: Tid, k: nat :| u < |s.threads| && Covers(s.threads[u], k, p, c);
          assert Covers(s'.threads[u], k, p, c);
        }
      }
    }
  }

  lemma Together(s: State)
    requires Sound(s) && Covered(s)
    ensures Inv(s)
  {
  }

  /** The update in one: sound and covered. */
  lemma UpdateInv(s: State, t: Tid, i: Id, n: Node, f: Frame)
    requires Inv(s) && Live(s, t) && i < |s.nodes| && Allowed(s, t, i, n, f) && !Covering(Top(s, t))
    requires var s' := Update(s, t, i, n, f);
             FrameOk(s'.nodes, s'.requests, t, f, |s.threads[t]| == 1, true) && NodeOk(s'.nodes, s'.requests, i)
    requires n.err == s.nodes[i].err && (n.attached ==> s.nodes[i].attached || n.err.Some?)
    requires forall c: Id :: c in Kids(s.nodes[i]) && c < |s.nodes| && s.nodes[c].err.None? ==> c in Kids(n)
    ensures Inv(Update(s, t, i, n, f)) && Guarantee(s, Update(s, t, i, n, f), t)
  {
    hide CancelOk, AttachOk, NodeStep, NodeOk, Inv, Sound, Covered, Allowed, Guarantee, Update;
    UpdateGuarantee(s, t, i, n, f);
    UpdateSound(s, t, i, n, f);
    UpdateCoveredA(s, t, i, n, f);
    Together(Update(s, t, i, n, f));
  }

  lemma UpdateCoveredA(s: State, t: Tid, i: Id, n: Node, f: Frame)
    requires Inv(s) && Live(s, t) && i < |s.nodes| && Allowed(s, t, i, n, f) && !Covering(Top(s, t))
    requires n.err == s.nodes[i].err && (n.attached ==> s.nodes[i].attached || n.err.Some?)
    requires forall c: Id :: c in Kids(s.nodes[i]) && c < |s.nodes| && s.nodes[c].err.None? ==> c in Kids(n)
    ensures Covered(Update(s, t, i, n, f))
  {
    hide Inv, Covered, NodeStep;
    UpdateCovered(s, t, i, n, f);
  }
}
