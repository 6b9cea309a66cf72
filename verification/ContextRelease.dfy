/** removeChild: a cancelled context does not stay in its parent's children map. */
module ContextRelease {
  import opened Basics
  import opened Contexts
  import opened ContextInvariant
  import opened ContextSteps
  import opened ContextCancel
  import opened ContextAfterFunc
  import opened ContextTheorems

  /** Activation k of the stack is going to take c out of its parent's children. */
  ghost predicate Removing(st: seq<Frame>, k: nat, c: Id) {
    && k < |st| && st[k].Cancel? && st[k].n == c && st[k].remove
    && (st[k].pc == Publish || st[k].pc == Loop || st[k].pc == Unlock
        || st[k].pc == UnlinkLoad || st[k].pc == UnlinkDone || st[k].pc == Unlink)
  }

  /** The goroutine is still inside the constructor of c. */
  ghost predicate Constructing(st: seq<Frame>, c: Id) {
    st != [] && st[0].Attach? && st[0].child == c
  }

  /** The child is attached. */
  predicate Done(pc: AttachPc) { pc == Release || pc == Attached }

  /** The child is being cancelled. */
  predicate Waiting(pc: AttachPc) { pc == CallFree || pc == CallHeld }

  /** Only attached nodes are cancelled, except by their own constructor; the call that cancels a node
      first also removes it; a node is attached by its constructor, before which nobody cancels it. */
  ghost predicate Fine(ns: seq<Node>, st: seq<Frame>, k: nat)
    requires k < |st|
  {
    var f := st[k];
    if f.Cancel? then
      && f.n < |ns| && (ns[f.n].attached || (k == 1 && Constructing(st, f.n)))
      && (k == 0 ==> f.remove || ns[f.n].err.Some?)
    else
      && f.child < |ns|
      && (!Done(f.apc) ==> !ns[f.child].attached)
      && (!Done(f.apc) && !Waiting(f.apc) ==> ns[f.child].err.None?)
  }

  ghost predicate AllFine(s: State, t: Tid)
    requires t < |s.threads|
  {
    forall k: nat :: k < |s.threads[t]| ==> Fine(s.nodes, s.threads[t], k)
  }

  /** A node has one constructor. */
  ghost predicate Alone(s: State, c: Id) {
    forall t: Tid, u: Tid ::
      (t < |s.threads| && u < |s.threads| && Constructing(s.threads[t], c) && Constructing(s.threads[u], c)) ==> t == u
  }

  /** The children of p are attached; those cancelled before p are being removed. And a node that is not
      ready yet is being constructed. */
  ghost predicate KidsOk(s: State, p: Id)
    requires p < |s.nodes|
  {
    && (forall c: Id :: c in Kids(s.nodes[p]) ==> c < |s.nodes| && s.nodes[c].attached)
    && (forall c: Id :: c in Kids(s.nodes[p]) && c < |s.nodes| && s.nodes[c].err.Some? && s.nodes[p].err.None? ==>
          exists t: Tid, k: nat :: t < |s.threads| && Removing(s.threads[t], k, c))
    && (s.nodes[p].ready || exists t: Tid :: t < |s.threads| && Constructing(s.threads[t], p))
  }

  ghost predicate Tidy(s: State) {
    && (forall t: Tid :: t < |s.threads| ==> AllFine(s, t))
    && (forall c: Id :: Alone(s, c))
    && (forall p: Id :: p < |s.nodes| ==> KidsOk(s, p))
  }

  // ---- what steps do to the parts of a node this is about ----

  /** Node c after a step of cancel. */
  lemma CancelNodes(s: State, t: Tid, pick: Id, s': State, c: Id)
    requires Live(s, t) && Top(s, t).Cancel? && Top(s, t).n < |s.nodes| && c < |s.nodes|
    requires CancelStep(s, t, Top(s, t), pick) == Some(s')
    ensures |s'.nodes| == |s.nodes|
    ensures var f, n, n' := Top(s, t), s.nodes[c], s'.nodes[c];
            && n'.attached == n.attached && n'.ready == n.ready && Kids(n') <= Kids(n)
            && (n.err.Some? ==> n'.err == n.err)
            && (n'.err != n.err ==> f.n == c && f.pc == Check)
  {
  }

  /** The stack after a step of cancel: the activation gone, moved on, or calling a child's cancel. */
  lemma CancelStack(s: State, t: Tid, pick: Id, s': State)
    requires Live(s, t) && Top(s, t).Cancel? && Top(s, t).n < |s.nodes|
    requires CancelStep(s, t, Top(s, t), pick) == Some(s')
    ensures |s'.threads| == |s.threads|
    ensures var f, k, st' := Top(s, t), |s.threads[t]| - 1, s'.threads[t];
            && k <= |st'| <= k + 2 && (|st'| == k ==> f.pc == Ret)
            && (k < |st'| ==> Moved(f, st'[k]))
            && (k + 1 < |st'| ==> f.pc == Loop && pick in f.todo && st'[k + 1].Cancel? && st'[k + 1].n == pick)
  {
    hide Kids, MakeChan, CloseDone, AfterInner, Tail;
    var f := Top(s, t);
    if f.pc == Loop || f.pc == Ret {
    } else {
      OneMoves(s, t, pick, s');
    }
  }

  lemma OneMoves(s: State, t: Tid, pick: Id, s': State)
    requires Live(s, t) && Top(s, t).Cancel? && Top(s, t).n < |s.nodes| && Top(s, t).pc != Loop && Top(s, t).pc != Ret
    requires CancelStep(s, t, Top(s, t), pick) == Some(s')
    ensures |s'.threads| == |s.threads| && |s'.threads[t]| == |s.threads[t]|
    ensures Moved(Top(s, t), s'.threads[t][|s.threads[t]| - 1])
  {
    hide Kids, MakeChan, CloseDone, AfterInner, Tail;
  }

  predicate Moved(f: Frame, f': Frame) {
    f.Cancel? && f'.Cancel? && f'.n == f.n && f'.remove == f.remove
  }

  /** A removing activation stays one until the child is out of the map. */
  lemma RemovingGoesOn(s: State, t: Tid, pick: Id, s': State, p: Id)
    requires Live(s, t) && Top(s, t).Cancel? && Top(s, t).n < |s.nodes|
    requires Removing(s.threads[t], |s.threads[t]| - 1, Top(s, t).n)
    requires CancelStep(s, t, Top(s, t), pick) == Some(s')
    requires p < |s.nodes| && s.nodes[Top(s, t).n].parent == Some(p) && s.nodes[p].done != Shared
    ensures |s'.nodes| == |s.nodes| && |s'.threads| == |s.threads|
    ensures Top(s, t).n !in Kids(s'.nodes[p]) || Removing(s'.threads[t], |s.threads[t]| - 1, Top(s, t).n)
  {
  }

  /** Who called the cancel on top: the cancel of its parent, already cancelled, or its constructor. */
  lemma Caller(s: State, t: Tid)
    requires Inv(s) && t < |s.threads| && AllFine(s, t) && |s.threads[t]| > 1 && Top(s, t).Cancel?
    ensures var f, g := Top(s, t), s.threads[t][|s.threads[t]| - 2];
            && f.n < |s.nodes|
            && (g.Cancel? ==> g.n < |s.nodes| && s.nodes[f.n].parent == Some(g.n) && s.nodes[g.n].err.Some?)
            && (g.Attach? ==> g.child == f.n && !s.nodes[f.n].attached)
  {
    hide NodeOk, LockOwned, ChildCovered, Caused;
    var st, k := s.threads[t], |s.threads[t]| - 1;
    assert StackOk(s.nodes, s.requests, t, st);
    assert Calls(s.nodes, st[k - 1], st[k - 1 + 1]);
    assert FrameOk(s.nodes, s.requests, t, st[k - 1], k - 1 == 0, k - 1 == |st| - 1);
    assert AllFine(s, t);
    assert Fine(s.nodes, st, k - 1) && Fine(s.nodes, st, k);
  }

  /** Being the first to cancel a child of p that nobody has cancelled: only a removing call does that
      while p is not cancelled. */
  lemma FirstRemoves(s: State, t: Tid, p: Id)
    requires Inv(s) && Tidy(s) && Live(s, t) && Top(s, t).Cancel? && Top(s, t).n < |s.nodes| && p < |s.nodes|
    requires Top(s, t).n in Kids(s.nodes[p]) && s.nodes[p].err.None? && s.nodes[Top(s, t).n].err.None?
    ensures Top(s, t).remove
  {
    hide Inv, KidsOk;
    NodeFacts(s, p);
    KidAttached(s, p, Top(s, t).n);
    assert AllFine(s, t);
    assert Fine(s.nodes, s.threads[t], |s.threads[t]| - 1);
    if |s.threads[t]| > 1 { Caller(s, t); }
  }

  lemma KidAttached(s: State, p: Id, c: Id)
    requires p < |s.nodes| && KidsOk(s, p) && c in Kids(s.nodes[p])
    ensures c < |s.nodes| && s.nodes[c].attached
  {
  }

  // ---- steps of cancel ----

  lemma CancelKids(s: State, t: Tid, pick: Id, s': State, p: Id)
    requires Inv(s) && Tidy(s) && Live(s, t) && Top(s, t).Cancel? && Top(s, t).n < |s.nodes| && p < |s.nodes|
    requires CancelStep(s, t, Top(s, t), pick) == Some(s')
    ensures |s'.nodes| == |s.nodes| && KidsOk(s', p)
  {
    hide Inv, CancelStep, OnlyTop, AllFine, Alone;
    var f, top := Top(s, t), |s.threads[t]| - 1;
    CancelOnlyTop(s, t, pick, s');
    CancelNodes(s, t, pick, s', p);
    assert KidsOk(s, p);
    NodeFacts(s, p);
    if !s.nodes[p].ready {
      var u: Tid :| u < |s.threads| && Constructing(s.threads[u], p);
      ConstructingStays(s, t, s', u, p);
    }
    forall c: Id | c in Kids(s'.nodes[p])
      ensures c < |s'.nodes| && s'.nodes[c].attached
      ensures s'.nodes[c].err.Some? && s'.nodes[p].err.None? ==>
                exists u: Tid, k: nat :: u < |s'.threads| && Removing(s'.threads[u], k, c)
    {
      assert c in Kids(s.nodes[p]);
      CancelNodes(s, t, pick, s', c);
      if s'.nodes[c].err.Some? && s'.nodes[p].err.None? {
        CancelledKid(s, t, pick, s', p, c);
      }
    }
  }

  lemma ConstructingStays(s: State, t: Tid, s': State, u: Tid, c: Id)
    requires OnlyTop(s, t, s') && u < |s.threads| && Constructing(s.threads[u], c) && Top(s, t).Cancel?
    ensures Constructing(s'.threads[u], c)
  {
    if u == t { assert Below(s.threads[t])[0] == s'.threads[t][0]; }
  }

  lemma CancelledKid(s: State, t: Tid, pick: Id, s': State, p: Id, c: Id)
    requires Inv(s) && Tidy(s) && Live(s, t) && Top(s, t).Cancel? && Top(s, t).n < |s.nodes| && p < |s.nodes|
    requires CancelStep(s, t, Top(s, t), pick) == Some(s')
    requires c < |s.nodes| && |s'.nodes| == |s.nodes| && c in Kids(s.nodes[p]) && c in Kids(s'.nodes[p])
    requires s'.nodes[c].err.Some? && s'.nodes[p].err.None?
    ensures exists u: Tid, k: nat :: u < |s'.threads| && Removing(s'.threads[u], k, c)
  {
    hide Inv, CancelStep, OnlyTop, AllFine, Alone;
    var f, top := Top(s, t), |s.threads[t]| - 1;
    CancelOnlyTop(s, t, pick, s');
    CancelNodes(s, t, pick, s', p);
    CancelNodes(s, t, pick, s', c);
    NodeFacts(s, p);
    assert KidsOk(s, p);
    if s.nodes[c].err.None? {
      FirstRemoves(s, t, p);
      FirstStep(s, t, pick, s');
      assert Removing(s'.threads[t], top, c);
    } else {
      var u: Tid, k: nat :| u < |s.threads| && Removing(s.threads[u], k, c);
      if u == t && k == top {
        RemovingGoesOn(s, t, pick, s', p);
        assert Removing(s'.threads[t], top, c);
      } else {
        OtherActivation(s, t, s', u, k);
        assert Removing(s'.threads[u], k, c);
      }
    }
  }

  lemma FirstStep(s: State, t: Tid, pick: Id, s': State)
    requires Live(s, t) && Top(s, t).Cancel? && Top(s, t).n < |s.nodes| && Top(s, t).remove
    requires CancelStep(s, t, Top(s, t), pick) == Some(s') && Top(s, t).pc == Check && s.nodes[Top(s, t).n].err.None?
    ensures t < |s'.threads| && Removing(s'.threads[t], |s.threads[t]| - 1, Top(s, t).n)
  {
  }

  /** Activations other than the top one of t stay where they are. */
  lemma OtherActivation(s: State, t: Tid, s': State, u: Tid, k: nat)
    requires OnlyTop(s, t, s') && u < |s.threads| && k < |s.threads[u]| && (u != t || k < |s.threads[t]| - 1)
    ensures k < |s'.threads[u]| && s'.threads[u][k] == s.threads[u][k]
  {
    if u == t { assert Below(s.threads[t])[k] == s'.threads[t][k]; }
  }

  /** An activation that stays where it is, while nodes change as cancel changes them. */
  lemma CancelKeepsFine(s: State, t: Tid, pick: Id, s': State, u: Tid, k: nat)
    requires Inv(s) && Tidy(s) && Live(s, t) && Top(s, t).Cancel? && Top(s, t).n < |s.nodes|
    requires CancelStep(s, t, Top(s, t), pick) == Some(s')
    requires u < |s.threads| && k < |s.threads[u]| && (u != t || k < |s.threads[t]| - 1)
    ensures |s'.threads| == |s.threads| && k < |s'.threads[u]| && Fine(s'.nodes, s'.threads[u], k)
  {
    hide Inv, CancelStep, OnlyTop, KidsOk;
    CancelOnlyTop(s, t, pick, s');
    SameThreadCount(s, t, s');
    OtherActivation(s, t, s', u, k);
    var g, f := s.threads[u][k], Top(s, t);
    assert AllFine(s, u) && AllFine(s, t);
    assert Fine(s.nodes, s.threads[u], k) && Fine(s.nodes, s.threads[t], |s.threads[t]| - 1);
    CancelNodes(s, t, pick, s', if g.Cancel? then g.n else g.child);
    if k >= 1 { OtherActivation(s, t, s', u, 0); }
    if g.Attach? {
      assert Alone(s, g.child);
      AttachAlone(s, u, k);
      if f.n == g.child && u == t { Caller(s, t); }
    }
  }

  lemma SameThreadCount(s: State, t: Tid, s': State)
    requires OnlyTop(s, t, s')
    ensures |s'.threads| == |s.threads| && t < |s.threads| && s.threads[t] != []
    ensures forall u: Tid :: u < |s.threads| && u != t ==> s'.threads[u] == s.threads[u]
  {
  }

  /** A constructor is the only activation under a cancel, and is waiting for it. */
  lemma AttachAlone(s: State, u: Tid, k: nat)
    requires Inv(s) && u < |s.threads| && k < |s.threads[u]| && s.threads[u][k].Attach?
    ensures k == 0
    ensures |s.threads[u]| > 1 ==> Waiting(s.threads[u][k].apc)
  {
    hide NodeOk, LockOwned, ChildCovered, Caused;
    assert StackOk(s.nodes, s.requests, u, s.threads[u]);
    assert FrameOk(s.nodes, s.requests, u, s.threads[u][k], k == 0, k == |s.threads[u]| - 1);
  }

  lemma CancelFine(s: State, t: Tid, pick: Id, s': State, u: Tid)
    requires Inv(s) && Tidy(s) && Live(s, t) && Top(s, t).Cancel? && Top(s, t).n < |s.nodes| && u < |s.threads|
    requires CancelStep(s, t, Top(s, t), pick) == Some(s')
    ensures |s'.threads| == |s.threads| && AllFine(s', u)
  {
    hide Inv, CancelStep, OnlyTop, KidsOk, Fine;
    CancelOnlyTop(s, t, pick, s');
    SameThreadCount(s, t, s');
    CancelStack(s, t, pick, s');
    forall k: nat | k < |s'.threads[u]|
      ensures Fine(s'.nodes, s'.threads[u], k)
    {
      if u != t || k < |s.threads[t]| - 1 {
        CancelKeepsFine(s, t, pick, s', u, k);
      } else if k == |s.threads[t]| - 1 {
        MovedFine(s, t, pick, s');
      } else {
        CalledFine(s, t, pick, s');
      }
    }
  }

  lemma MovedFine(s: State, t: Tid, pick: Id, s': State)
    requires Inv(s) && Tidy(s) && Live(s, t) && Top(s, t).Cancel? && Top(s, t).n < |s.nodes|
    requires CancelStep(s, t, Top(s, t), pick) == Some(s')
    requires t < |s'.threads| && |s.threads[t]| <= |s'.threads[t]|
    ensures Fine(s'.nodes, s'.threads[t], |s.threads[t]| - 1)
  {
    hide Inv, CancelStep, OnlyTop, KidsOk;
    CancelOnlyTop(s, t, pick, s');
    CancelStack(s, t, pick, s');
    CancelNodes(s, t, pick, s', Top(s, t).n);
    assert AllFine(s, t) && Fine(s.nodes, s.threads[t], |s.threads[t]| - 1);
    if |s.threads[t]| > 1 { OtherActivation(s, t, s', t, 0); }
  }

  lemma CalledFine(s: State, t: Tid, pick: Id, s': State)
    requires Inv(s) && Tidy(s) && Live(s, t) && Top(s, t).Cancel? && Top(s, t).n < |s.nodes|
    requires CancelStep(s, t, Top(s, t), pick) == Some(s')
    requires t < |s'.threads| && |s'.threads[t]| == |s.threads[t]| + 1
    ensures Fine(s'.nodes, s'.threads[t], |s.threads[t]|)
  {
    hide Inv, CancelStep, KidsOk, NodeOk, AllFine, Alone;
    CancelStack(s, t, pick, s');
    TopOk(s, t);
    assert KidsOk(s, Top(s, t).n);
    KidAttached(s, Top(s, t).n, pick);
    CancelNodes(s, t, pick, s', pick);
  }

  lemma CancelAlone(s: State, t: Tid, pick: Id, s': State, c: Id)
    requires Live(s, t) && Top(s, t).Cancel? && Top(s, t).n < |s.nodes| && Alone(s, c)
    requires CancelStep(s, t, Top(s, t), pick) == Some(s')
    ensures Alone(s', c)
  {
    hide CancelStep, OnlyTop;
    CancelOnlyTop(s, t, pick, s');
    SameThreadCount(s, t, s');
    CancelStack(s, t, pick, s');
    forall u: Tid | u < |s'.threads| && Constructing(s'.threads[u], c)
      ensures Constructing(s.threads[u], c)
    {
      if u == t && |s.threads[t]| > 1 { OtherActivation(s, t, s', t, 0); }
    }
  }

  lemma CancelTidy(s: State, t: Tid, pick: Id, s': State)
    requires Inv(s) && Tidy(s) && Live(s, t) && Top(s, t).Cancel? && Top(s, t).n < |s.nodes|
    requires CancelStep(s, t, Top(s, t), pick) == Some(s')
    ensures Tidy(s')
  {
    hide Inv, CancelStep, KidsOk, AllFine, Alone;
    CancelNodes(s, t, pick, s', Top(s, t).n);
    CancelStack(s, t, pick, s');
    forall u: Tid | u < |s'.threads| ensures AllFine(s', u) { CancelFine(s, t, pick, s', u); }
    forall c: Id ensures Alone(s', c) { CancelAlone(s, t, pick, s', c); }
    forall p: Id | p < |s'.nodes| ensures KidsOk(s', p) { CancelKids(s, t, pick, s', p); }
  }

  // ---- steps of propagateCancel ----

  lemma AttachNodes(s: State, t: Tid, s': State, c: Id)
    requires Live(s, t) && Top(s, t).Attach? && Top(s, t).child < |s.nodes| && Top(s, t).parent < |s.nodes|
    requires AttachStep(s, t, Top(s, t)) == Some(s') && c < |s.nodes|
    ensures |s'.nodes| == |s.nodes|
    ensures var f, n, n' := Top(s, t), s.nodes[c], s'.nodes[c];
            && n'.err == n.err && (n.attached ==> n'.attached) && (n.ready ==> n'.ready)
            && (c != f.child ==> n'.attached == n.attached)
            && (f.apc == Attached && c == f.child ==> n'.ready)
            && (Kids(n') <= Kids(n) + (if f.apc == Held then {f.child} else {}))
    ensures var f := Top(s, t);
            f.apc == Held && s.nodes[f.parent].err.None? ==> s'.nodes[f.child].attached
    ensures var f := Top(s, t);
            f.apc == Held && s.nodes[f.parent].err.Some? ==> Kids(s'.nodes[c]) <= Kids(s.nodes[c])
  {
  }

  /** The constructor gone on, calling cancel, or finished. */
  lemma AttachStack(s: State, t: Tid, s': State)
    requires Live(s, t) && Top(s, t).Attach? && Top(s, t).child < |s.nodes| && Top(s, t).parent < |s.nodes|
    requires AttachStep(s, t, Top(s, t)) == Some(s') && |s.threads[t]| == 1
    ensures |s'.threads| == |s.threads| && |s'.nodes| == |s.nodes|
    ensures s'.threads[t] == [] <==> Top(s, t).apc == Attached
    ensures s'.threads[t] != [] ==> s'.threads[t][0].Attach? && s'.threads[t][0].child == Top(s, t).child
    ensures |s'.threads[t]| > 1 ==>
              |s'.threads[t]| == 2 && s'.threads[t][1].Cancel? && s'.threads[t][1].n == Top(s, t).child
  {
    hide Kids, MakeChan;
    var pc := Top(s, t).apc;
    if pc != Attached && pc != ReadCause && pc != Held { AttachMoves(s, t, s'); }
  }

  lemma AttachMoves(s: State, t: Tid, s': State)
    requires Live(s, t) && Top(s, t).Attach? && Top(s, t).child < |s.nodes| && Top(s, t).parent < |s.nodes|
    requires AttachStep(s, t, Top(s, t)) == Some(s') && |s.threads[t]| == 1
    requires Top(s, t).apc != Attached && Top(s, t).apc != ReadCause && Top(s, t).apc != Held
    ensures |s'.threads| == |s.threads| && |s'.nodes| == |s.nodes| && |s'.threads[t]| == 1
    ensures s'.threads[t][0].Attach? && s'.threads[t][0].child == Top(s, t).child
  {
    hide Kids, MakeChan;
  }

  lemma AttachPcs(s: State, t: Tid, s': State)
    requires Live(s, t) && Top(s, t).Attach? && Top(s, t).child < |s.nodes| && Top(s, t).parent < |s.nodes|
    requires AttachStep(s, t, Top(s, t)) == Some(s') && |s.threads[t]| == 1
    requires |s'.threads| == |s.threads| && |s'.nodes| == |s.nodes|
    requires s'.threads[t] != [] && s'.threads[t][0].Attach? && !Done(s'.threads[t][0].apc)
    ensures !Done(Top(s, t).apc) && s'.nodes[Top(s, t).child].attached == s.nodes[Top(s, t).child].attached
    ensures !Waiting(s'.threads[t][0].apc) ==> !Waiting(Top(s, t).apc)
  {
    hide Kids, MakeChan;
  }

  lemma AttachFine(s: State, t: Tid, s': State, u: Tid)
    requires Inv(s) && Tidy(s) && Live(s, t) && Top(s, t).Attach? && |s.threads[t]| == 1
    requires Top(s, t).child < |s.nodes| && Top(s, t).parent < |s.nodes| && u < |s.threads|
    requires AttachStep(s, t, Top(s, t)) == Some(s')
    ensures |s'.threads| == |s.threads| && AllFine(s', u)
  {
    hide Inv, AttachStep, OnlyTop, KidsOk;
    AttachOnlyTop(s, t, s');
    SameThreadCount(s, t, s');
    AttachStack(s, t, s');
    var f := Top(s, t);
    AttachNodes(s, t, s', f.child);
    if s'.threads[t] != [] && !Done(s'.threads[t][0].apc) { AttachPcs(s, t, s'); }
    assert AllFine(s, u) && AllFine(s, t) && Fine(s.nodes, s.threads[t], 0);
    assert Alone(s, f.child);
    forall k: nat | k < |s'.threads[u]|
      ensures Fine(s'.nodes, s'.threads[u], k)
    {
      if u != t {
        var g := s.threads[u][k];
        assert Fine(s.nodes, s.threads[u], k);
        AttachNodes(s, t, s', if g.Cancel? then g.n else g.child);
        if g.Attach? { AttachAlone(s, u, k); }
      }
    }
  }

  lemma AttachAlones(s: State, t: Tid, s': State, c: Id)
    requires Live(s, t) && Top(s, t).Attach? && |s.threads[t]| == 1 && Alone(s, c)
    requires Top(s, t).child < |s.nodes| && Top(s, t).parent < |s.nodes|
    requires AttachStep(s, t, Top(s, t)) == Some(s')
    ensures Alone(s', c)
  {
    hide AttachStep, OnlyTop;
    AttachOnlyTop(s, t, s');
    SameThreadCount(s, t, s');
    AttachStack(s, t, s');
    forall u: Tid | u < |s'.threads| && Constructing(s'.threads[u], c)
      ensures Constructing(s.threads[u], c)
    {
    }
  }

  lemma AttachKids(s: State, t: Tid, s': State, p: Id)
    requires Inv(s) && Tidy(s) && Live(s, t) && Top(s, t).Attach? && |s.threads[t]| == 1
    requires Top(s, t).child < |s.nodes| && Top(s, t).parent < |s.nodes| && p < |s.nodes|
    requires AttachStep(s, t, Top(s, t)) == Some(s')
    ensures |s'.nodes| == |s.nodes| && KidsOk(s', p)
  {
    hide Inv, AttachStep, OnlyTop, Alone;
    AttachOnlyTop(s, t, s');
    SameThreadCount(s, t, s');
    AttachStack(s, t, s');
    var f := Top(s, t);
    AttachNodes(s, t, s', p);
    assert KidsOk(s, p);
    assert AllFine(s, t) && Fine(s.nodes, s.threads[t], 0);
    if !s.nodes[p].ready && !s'.nodes[p].ready {
      var u: Tid :| u < |s.threads| && Constructing(s.threads[u], p);
      assert Constructing(s'.threads[u], p);
    }
    forall c: Id | c in Kids(s'.nodes[p])
      ensures c < |s'.nodes| && s'.nodes[c].attached
      ensures s'.nodes[c].err.Some? && s'.nodes[p].err.None? ==>
                exists u: Tid, k: nat :: u < |s'.threads| && Removing(s'.threads[u], k, c)
    {
      AttachNodes(s, t, s', c);
      if s'.nodes[c].err.Some? && s'.nodes[p].err.None? {
        var u: Tid, k: nat :| u < |s.threads| && Removing(s.threads[u], k, c);
        assert u != t;
        assert Removing(s'.threads[u], k, c);
      }
    }
  }

  lemma AttachTidy(s: State, t: Tid, s': State)
    requires Inv(s) && Tidy(s) && Live(s, t) && Top(s, t).Attach? && |s.threads[t]| == 1
    requires Top(s, t).child < |s.nodes| && Top(s, t).parent < |s.nodes|
    requires AttachStep(s, t, Top(s, t)) == Some(s')
    ensures Tidy(s')
  {
    hide Inv, AttachStep, KidsOk, AllFine, Alone;
    AttachNodes(s, t, s', Top(s, t).child);
    AttachStack(s, t, s');
    forall u: Tid | u < |s'.threads| ensures AllFine(s', u) { AttachFine(s, t, s', u); }
    forall c: Id ensures Alone(s', c) { AttachAlones(s, t, s', c); }
    forall p: Id | p < |s'.nodes| ensures KidsOk(s', p) { AttachKids(s, t, s', p); }
  }

  // ---- beginning a call ----

  lemma StartFine(s: State, t: Tid, op: Op, s': State, u: Tid)
    requires Inv(s) && Tidy(s) && StartStep(s, t, op) == Some(s') && u < |s.threads|
    ensures |s'.threads| == |s.threads| && AllFine(s', u)
  {
    hide LockOwned, ChildCovered, Caused, StackOk, KidsOk, Alone;
    assert AllFine(s, u);
    if u == t && (op.CancelCall? || op.StopCall?) { assert NodeOk(s.nodes, s.requests, op.n); }
    forall k: nat | k < |s'.threads[u]|
      ensures Fine(s'.nodes, s'.threads[u], k)
    {
      if u != t { assert Fine(s.nodes, s.threads[u], k); }
    }
  }

  lemma StartAlone(s: State, t: Tid, op: Op, s': State, c: Id)
    requires Tidy(s) && StartStep(s, t, op) == Some(s')
    ensures Alone(s', c)
  {
    hide KidsOk;
    assert Alone(s, c);
    forall u: Tid | u < |s'.threads| && Constructing(s'.threads[u], c) && u != t
      ensures u < |s.threads| && Constructing(s.threads[u], c) && c < |s.nodes|
    {
      assert AllFine(s, u) && Fine(s.nodes, s.threads[u], 0);
    }
  }

  lemma StartKids(s: State, t: Tid, op: Op, s': State, p: Id)
    requires Tidy(s) && StartStep(s, t, op) == Some(s') && p < |s'.nodes|
    ensures KidsOk(s', p)
  {
    hide AllFine, Alone;
    if p < |s.nodes| {
      assert KidsOk(s, p);
      if !s.nodes[p].ready {
        var u: Tid :| u < |s.threads| && Constructing(s.threads[u], p);
        assert Constructing(s'.threads[u], p);
      }
      forall c: Id | c in Kids(s.nodes[p]) && s.nodes[c].err.Some? && s.nodes[p].err.None?
        ensures exists u: Tid, k: nat :: u < |s'.threads| && Removing(s'.threads[u], k, c)
      {
        var u: Tid, k: nat :| u < |s.threads| && Removing(s.threads[u], k, c);
        assert Removing(s'.threads[u], k, c);
      }
    } else if op.NewChild? {
      assert Constructing(s'.threads[t], p);
    }
  }

  // ---- runs ----

  lemma NextTidy(s: State, s': State)
    requires Inv(s) && Tidy(s) && Next(s, s')
    ensures Tidy(s')
  {
    hide Inv, CancelStep, AttachStep, StartStep, KidsOk, AllFine, Alone;
    if exists u: Tid, pick: Id :: RunStep(s, u, pick) == Some(s') {
      var u: Tid, pick: Id :| RunStep(s, u, pick) == Some(s');
      if Top(s, u).Cancel? {
        CancelTidy(s, u, pick, s');
      } else {
        AttachAlone(s, u, |s.threads[u]| - 1);
        AttachTidy(s, u, s');
      }
    } else {
      var u: Tid, op: Op :| StartStep(s, u, op) == Some(s');
      SameCount(s, u, op, s');
      forall v: Tid | v < |s'.threads| ensures AllFine(s', v) { StartFine(s, u, op, s', v); }
      forall c: Id ensures Alone(s', c) { StartAlone(s, u, op, s', c); }
      forall p: Id | p < |s'.nodes| ensures KidsOk(s', p) { StartKids(s, u, op, s', p); }
    }
  }

  lemma SameCount(s: State, t: Tid, op: Op, s': State)
    requires StartStep(s, t, op) == Some(s')
    ensures |s'.threads| == |s.threads|
  {
  }

  lemma InitTidy(s: State)
    requires Init(s)
    ensures Tidy(s)
  {
  }

  lemma {:induction false} RunTidy(run: seq<State>, i: nat)
    requires Run(run) && i < |run|
    ensures Tidy(run[i])
  {
    hide Inv, Tidy, Next, Init;
    if i == 0 {
      InitTidy(run[0]);
    } else {
      RunTidy(run, i - 1);
      RunInv(run, i - 1);
      assert Next(run[i - 1], run[i - 1 + 1]);
      NextTidy(run[i - 1], run[i]);
    }
  }

  /** When all calls have returned, every constructor has attached its context, and children maps hold
      live contexts only: whoever was cancelled, by whom and when, its parent has let go of it. */
  lemma Released(run: seq<State>, i: nat, p: Id)
    requires Run(run) && i < |run| && Idle(run[i]) && p < |run[i].nodes|
    ensures run[i].nodes[p].ready && run[i].nodes[p].attached
    ensures forall c: Id :: c in Kids(run[i].nodes[p]) ==>
              c < |run[i].nodes| && run[i].nodes[c].parent == Some(p) && run[i].nodes[c].err.None?
    ensures run[i].nodes[p].err.Some? ==> run[i].nodes[p].children.None?
  {
    hide Inv, Run, AllFine, Alone;
    RunInv(run, i);
    RunTidy(run, i);
    NodeFacts(run[i], p);
    IdleUnlocked(run[i], p);
    assert KidsOk(run[i], p);
  }
}
