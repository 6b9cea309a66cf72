/** What every reachable state of the cancellation tree satisfies. */
module ContextInvariant {
  import opened Basics
  import opened Contexts

  // ---- the parts of the invariant ----

  /** p has been cancelled with exactly this err and cause. */
  ghost predicate Has(ns: seq<Node>, p: Id, e: Err, c: Err) {
    p < |ns| && ns[p].err == Some(e) && ns[p].cause == Some(c)
  }

  /** (n, e, c) came from a direct cancel of n, or n's parent is cancelled with it. */
  ghost predicate Caused(ns: seq<Node>, req: set<(Id, Err, Err)>, n: Id, e: Err, c: Err) {
    (n, e, c) in req || (n < |ns| && ns[n].parent.Some? && Has(ns, ns[n].parent.value, e, c))
  }

  /** A cancelled node nobody is working on: done is closed and children is nil. */
  predicate Settled(n: Node) {
    IsClosed(n.done) && n.children.None?
  }

  ghost predicate NodeOk(ns: seq<Node>, req: set<(Id, Err, Err)>, i: Id)
    requires i < |ns|
  {
    var n := ns[i];
    && (n.parent.Some? ==> n.parent.value < i)
    && (forall j: Id :: j in Kids(n) ==> j < |ns| && ns[j].parent == Some(i))
    && (n.err.Some? <==> n.cause.Some?)
    && (n.err.Some? ==> Caused(ns, req, i, n.err.value, n.cause.value))
    && (IsClosed(n.done) ==> n.err.Some?)
    && (n.err.Some? && n.lock.None? ==> Settled(n))
    && (n.ready ==> n.attached)
    && (n.starts == if n.once == Started then 1 else 0)
  }

  predicate HoldsPc(pc: CancelPc) {
    pc == Check || pc == Publish || pc == Loop || pc == Unlock
  }

  predicate HeldPc(pc: AttachPc) {
    pc == Held || pc == CallHeld || pc == Release
  }

  /** The lock an activation holds. */
  predicate Holds(f: Frame, i: Id) {
    if f.Cancel? then HoldsPc(f.pc) && f.n == i else HeldPc(f.apc) && f.parent == i
  }

  ghost predicate CancelOk(ns: seq<Node>, req: set<(Id, Err, Err)>, t: Tid, f: Frame, first: bool, top: bool)
    requires f.Cancel?
  {
    && f.n < |ns|
    && var n := ns[f.n];
    && (f.remove ==> first)
    && Caused(ns, req, f.n, f.err, f.cause)
    && (HoldsPc(f.pc) ==> n.lock == Some(t))
    && (f.pc == Check && n.err.Some? ==> Settled(n))
    && (f.pc == Publish || f.pc == Loop || f.pc == Unlock ==> Has(ns, f.n, f.err, f.cause))
    && (f.pc == Loop || f.pc == Unlock ==> IsClosed(n.done))
    && (f.pc == Loop ==> f.todo <= Kids(n))
    && (f.pc == Unlock ==> n.children.None?)
    && (f.pc != Want && f.pc != Check ==> n.err.Some?)
    && (f.pc == UnlinkLoad || f.pc == UnlinkDone || f.pc == Unlink ==> f.remove)
    && (f.pc == UnlinkDone || f.pc == Unlink ==> n.parent.Some?)
    && (!top ==> f.pc == Loop)
  }

  ghost predicate AttachOk(ns: seq<Node>, t: Tid, f: Frame, first: bool, top: bool)
    requires f.Attach?
  {
    && first && f.parent < f.child < |ns|
    && ns[f.child].parent == Some(f.parent)
    && var p := ns[f.parent];
    && (HeldPc(f.apc) ==> p.lock == Some(t))
    && (HeldPc(f.apc) && p.err.Some? ==> Settled(p))
    && (f.apc != LoadDone && f.apc != MakeDone ==> p.done != NoChan && (f.shared <==> p.done == Shared))
    && (f.apc == Find || f.apc == WantParent || HeldPc(f.apc) ==> !f.shared)
    && (f.apc == ReadErr || f.apc == ReadCause || f.apc == CallFree || f.apc == CallHeld ==> p.err.Some?)
    && (f.apc == ReadCause ==> p.err == Some(f.perr))
    && (f.apc == Release || f.apc == Attached ==> ns[f.child].attached)
    && (top && (f.apc == CallFree || f.apc == CallHeld) ==> ns[f.child].err.Some?)
    && (!top ==> f.apc == CallFree || f.apc == CallHeld)
    && f.apc != Panic && f.apc != Fallback
  }

  ghost predicate FrameOk(ns: seq<Node>, req: set<(Id, Err, Err)>, t: Tid, f: Frame, first: bool, top: bool) {
    if f.Cancel? then CancelOk(ns, req, t, f, first, top) else AttachOk(ns, t, f, first, top)
  }

  /** f called g: g cancels a child of f's node, or the child f is attaching. */
  ghost predicate Calls(ns: seq<Node>, f: Frame, g: Frame) {
    && g.Cancel?
    && if f.Cancel? then g.n < |ns| && ns[g.n].parent == Some(f.n) else g.n == f.child
  }

  ghost predicate StackOk(ns: seq<Node>, req: set<(Id, Err, Err)>, t: Tid, st: seq<Frame>) {
    && (forall k: nat :: k < |st| ==> FrameOk(ns, req, t, st[k], k == 0, k == |st| - 1))
    && (forall k: nat :: k + 1 < |st| ==> Calls(ns, st[k], st[k + 1]))
  }

  /** The owner recorded in a lock is a goroutine with an activation holding it. */
  ghost predicate LockOwned(s: State, i: Id)
    requires i < |s.nodes|
  {
    s.nodes[i].lock.Some? ==>
      var t := s.nodes[i].lock.value;
      t < |s.threads| && exists k: nat :: k < |s.threads[t]| && Holds(s.threads[t][k], i)
  }

  /** Activation k of the stack is going to cancel child c of p, or is doing so. */
  ghost predicate Covers(st: seq<Frame>, k: nat, p: Id, c: Id) {
    && k < |st| && st[k].Cancel? && st[k].n == p
    && (st[k].pc == Publish
        || (st[k].pc == Loop && (c in st[k].todo || (k + 1 < |st| && st[k + 1].Cancel? && st[k + 1].n == c))))
  }

  /** An attached child that is not cancelled is in its parent's children, and if the parent is
      cancelled then the goroutine cancelling it has the child still to do. */
  ghost predicate ChildCovered(s: State, c: Id)
    requires c < |s.nodes|
  {
    var n := s.nodes[c];
    n.attached && n.parent.Some? && n.err.None? && n.parent.value < |s.nodes| ==>
      var p := s.nodes[n.parent.value];
      && c in Kids(p)
      && (p.err.Some? ==> exists t: Tid, k: nat :: t < |s.threads| && Covers(s.threads[t], k, n.parent.value, c))
  }

  ghost predicate Inv(s: State) {
    && (forall i: Id :: i < |s.nodes| ==> NodeOk(s.nodes, s.requests, i))
    && (forall i: Id :: i < |s.nodes| ==> LockOwned(s, i))
    && (forall i: Id :: i < |s.nodes| ==> ChildCovered(s, i))
    && (forall t: Tid :: t < |s.threads| ==> StackOk(s.nodes, s.requests, t, s.threads[t]))
  }

  // ---- what one goroutine may do to the others' data ----

  ghost predicate DoneStep(d: Done, d': Done) {
    d' == d || d == NoChan || (d == Open && d' == Closed)
  }

  /** How a step of t may change a node: identity is fixed, err, cause and a closed done are final,
      and what another goroutine's lock protects is untouched. */
  ghost predicate NodeStep(n: Node, n': Node, t: Tid) {
    && n'.kind == n.kind && n'.parent == n.parent
    && (n.err.Some? ==> n'.err == n.err && n'.cause == n.cause)
    && DoneStep(n.done, n'.done)
    && (n.attached ==> n'.attached) && (n.ready ==> n'.ready)
    && (n.once != Unused ==> n'.once == n.once) && n.starts <= n'.starts
    && (n.lock.Some? && n.lock.value != t ==>
          n'.lock == n.lock && n'.err == n.err && n'.cause == n.cause && n'.children == n.children && n'.done == n.done)
  }

  ghost predicate Guarantee(s: State, s': State, t: Tid) {
    && |s.nodes| <= |s'.nodes| && s.requests <= s'.requests
    && (forall i: Id :: i < |s.nodes| ==> NodeStep(s.nodes[i], s'.nodes[i], t))
    && |s'.threads| == |s.threads|
    && (forall u: Tid :: u < |s.threads| && u != t ==> s'.threads[u] == s.threads[u])
  }

  lemma CausedStable(s: State, s': State, t: Tid, n: Id, e: Err, c: Err)
    requires Guarantee(s, s', t) && Caused(s.nodes, s.requests, n, e, c)
    ensures Caused(s'.nodes, s'.requests, n, e, c)
  {
    if (n, e, c) !in s.requests {
      var p := s.nodes[n].parent.value;
      assert NodeStep(s.nodes[n], s'.nodes[n], t) && NodeStep(s.nodes[p], s'.nodes[p], t);
    }
  }

  /** A goroutine's activations stay as they should be while another goroutine steps. */
  lemma StackStable(s: State, s': State, t: Tid, u: Tid)
    requires Guarantee(s, s', t) && u != t && u < |s.threads|
    requires StackOk(s.nodes, s.requests, u, s.threads[u])
    ensures StackOk(s'.nodes, s'.requests, u, s'.threads[u])
  {
    hide CancelOk, AttachOk, NodeStep;
    var st := s.threads[u];
    forall k: nat | k < |st|
      ensures FrameOk(s'.nodes, s'.requests, u, st[k], k == 0, k == |st| - 1)
    {
      FrameStable(s, s', t, u, st[k], k == 0, k == |st| - 1);
    }
    forall k: nat | k + 1 < |st|
      ensures Calls(s'.nodes, st[k], st[k + 1])
    {
      CallsStable(s, s', t, st[k], st[k + 1]);
    }
  }

  lemma CallsStable(s: State, s': State, t: Tid, f: Frame, g: Frame)
    requires Guarantee(s, s', t) && Calls(s.nodes, f, g)
    ensures Calls(s'.nodes, f, g)
  {
    if f.Cancel? { assert NodeStep(s.nodes[g.n], s'.nodes[g.n], t); }
  }

  lemma FrameStable(s: State, s': State, t: Tid, u: Tid, f: Frame, first: bool, top: bool)
    requires Guarantee(s, s', t) && u != t
    requires FrameOk(s.nodes, s.requests, u, f, first, top)
    ensures FrameOk(s'.nodes, s'.requests, u, f, first, top)
  {
    if f.Cancel? {
      CausedStable(s, s', t, f.n, f.err, f.cause);
      assert NodeStep(s.nodes[f.n], s'.nodes[f.n], t);
    } else {
      assert NodeStep(s.nodes[f.parent], s'.nodes[f.parent], t);
      assert NodeStep(s.nodes[f.child], s'.nodes[f.child], t);
    }
  }
}
