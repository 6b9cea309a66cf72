/** The cancellation tree of package context (context/context.go) as a state machine over goroutine
    steps. A goroutine is a stack of activations; locks, the done channel and the atomic err field
    are explicit, and each step is one lock operation or one access another goroutine can see. */
module Contexts {
  import opened Basics

  type Id = nat
  type Tid = nat

  datatype Err = Canceled | DeadlineExceeded | Custom(code: nat)

  /** The done field: nil, an own channel, or the package's shared closedchan. */
  datatype Done = NoChan | Open | Closed | Shared

  /** cancelCtx, timerCtx and afterFuncCtx. */
  datatype Kind = Plain | Timer | After

  /** The once of an afterFuncCtx: unused, used to start f, used by stop. */
  datatype Once = Unused | Started | Stopped

  /** A cancelCtx. `ready` says the constructor has returned; `attached` says propagateCancel has
      done its job for this node. `starts` counts how often f was started. */
  datatype Node = Node(
    kind: Kind, parent: Option<Id>, lock: Option<Tid>, done: Done, children: Option<set<Id>>,
    err: Option<Err>, cause: Option<Err>, once: Once, starts: nat, attached: bool, ready: bool)

  datatype CancelPc =
    | Want        // about to lock mu
    | Check       // mu held, err not yet looked at
    | Publish     // err and cause stored, done not yet closed
    | Loop        // done closed, cancelling the children in todo
    | Unlock      // children set to nil, mu still held
    | UnlinkLoad  // removeChild: loading the parent's done
    | UnlinkDone  // removeChild: waiting for the parent's mu to create done
    | Unlink      // removeChild: waiting for the parent's mu to delete
    | StopTimer   // timerCtx: waiting for mu to stop the timer
    | RunOnce     // afterFuncCtx: about to use the once
    | Ret         // about to return

  datatype AttachPc =
    | LoadDone    // parent.Done(), atomic load
    | MakeDone    // parent.Done(), waiting for mu to create the channel
    | Select      // select on the channel
    | ReadErr     // channel closed: parent.Err()
    | ReadCause   // Cause(parent): waiting for mu
    | CallFree    // child.cancel called without a lock
    | Find        // parentCancelCtx
    | WantParent  // waiting for p.mu
    | Held        // p.mu held
    | CallHeld    // child.cancel called with p.mu held
    | Release     // about to unlock p.mu
    | Attached    // about to return
    | Panic       // "missing cancel error"
    | Fallback    // the goroutine fallback

  datatype Frame =
    | Cancel(n: Id, remove: bool, err: Err, cause: Err, pc: CancelPc, todo: set<Id>)
    | Attach(child: Id, parent: Id, apc: AttachPc, shared: bool, perr: Err)

  /** requests records every direct cancel call ever made: node, err, cause. */
  datatype State = State(nodes: seq<Node>, threads: seq<seq<Frame>>, requests: set<(Id, Err, Err)>)

  // ---- building blocks ----

  function Kids(n: Node): set<Id> {
    if n.children.Some? then n.children.value else {}
  }

  predicate IsClosed(d: Done) { d == Closed || d == Shared }

  function CloseDone(d: Done): Done {
    if d == NoChan then Shared else if d == Open then Closed else d
  }

  function MakeChan(d: Done): Done {
    if d == NoChan then Open else d
  }

  predicate Live(s: State, t: Tid) {
    t < |s.threads| && s.threads[t] != []
  }

  function Top(s: State, t: Tid): Frame
    requires Live(s, t)
  {
    s.threads[t][|s.threads[t]| - 1]
  }

  function Below(st: seq<Frame>): seq<Frame>
    requires st != []
  {
    st[..|st| - 1]
  }

  function WithTop(s: State, t: Tid, f: Frame): State
    requires Live(s, t)
  {
    s.(threads := s.threads[t := Below(s.threads[t]) + [f]])
  }

  function Push(s: State, t: Tid, f: Frame): State
    requires t < |s.threads|
  {
    s.(threads := s.threads[t := s.threads[t] + [f]])
  }

  function Pop(s: State, t: Tid): State
    requires Live(s, t)
  {
    s.(threads := s.threads[t := Below(s.threads[t])])
  }

  function WithNode(s: State, i: Id, n: Node): State
    requires i < |s.nodes|
  {
    s.(nodes := s.nodes[i := n])
  }

  // ---- steps of cancel ----

  /** What follows cancelCtx.cancel and removeChild in each kind's cancel method. */
  function Tail(k: Kind): CancelPc {
    match k
    case Plain => Ret
    case Timer => StopTimer
    case After => RunOnce
  }

  /** Where cancel goes after the embedded cancelCtx.cancel has released mu. */
  function AfterInner(k: Kind, remove: bool, already: bool): CancelPc {
    if k == Plain then (if remove && !already then UnlinkLoad else Ret)
    else if remove then UnlinkLoad else Tail(k)
  }

  /** One step of the cancel activation f on top of t's stack; pick is the child the range loop yields. */
  function CancelStep(s: State, t: Tid, f: Frame, pick: Id): Option<State>
    requires Live(s, t) && f.Cancel? && f.n < |s.nodes|
  {
    var n := s.nodes[f.n];
    match f.pc
    case Want =>
      if n.lock.Some? then None
      else Some(WithTop(WithNode(s, f.n, n.(lock := Some(t))), t, f.(pc := Check)))
    case Check =>
      if n.err.Some? then
        Some(WithTop(WithNode(s, f.n, n.(lock := None)), t, f.(pc := AfterInner(n.kind, f.remove, true))))
      else
        Some(WithTop(WithNode(s, f.n, n.(err := Some(f.err), cause := Some(f.cause))), t, f.(pc := Publish)))
    case Publish =>
      Some(WithTop(WithNode(s, f.n, n.(done := CloseDone(n.done))), t, f.(pc := Loop, todo := Kids(n))))
    case Loop =>
      if f.todo == {} then
        Some(WithTop(WithNode(s, f.n, n.(children := None)), t, f.(pc := Unlock)))
      else if pick !in f.todo then None
      else
        Some(Push(WithTop(s, t, f.(todo := f.todo - {pick})), t, Cancel(pick, false, f.err, f.cause, Want, {})))
    case Unlock =>
      Some(WithTop(WithNode(s, f.n, n.(lock := None)), t, f.(pc := AfterInner(n.kind, f.remove, false))))
    case UnlinkLoad =>
      if n.parent.None? || n.parent.value >= |s.nodes| then Some(WithTop(s, t, f.(pc := Tail(n.kind))))
      else
        var p := s.nodes[n.parent.value];
        Some(WithTop(s, t, f.(pc := if p.done == NoChan then UnlinkDone
                                    else if p.done == Shared then Tail(n.kind) else Unlink)))
    case UnlinkDone =>
      if n.parent.None? || n.parent.value >= |s.nodes| || s.nodes[n.parent.value].lock.Some? then None
      else
        var p := s.nodes[n.parent.value];
        var d := MakeChan(p.done);
        Some(WithTop(WithNode(s, n.parent.value, p.(done := d)), t,
                     f.(pc := if d == Shared then Tail(n.kind) else Unlink)))
    case Unlink =>
      if n.parent.None? || n.parent.value >= |s.nodes| || s.nodes[n.parent.value].lock.Some? then None
      else
        var p := s.nodes[n.parent.value];
        var kids := if p.children.Some? then Some(p.children.value - {f.n}) else None;
        Some(WithTop(WithNode(s, n.parent.value, p.(children := kids)), t, f.(pc := Tail(n.kind))))
    case StopTimer =>
      if n.lock.Some? then None else Some(WithTop(s, t, f.(pc := Ret)))
    case RunOnce =>
      Some(WithTop(if n.once == Unused
                   then WithNode(s, f.n, n.(once := Started, starts := n.starts + 1)) else s,
                   t, f.(pc := Ret)))
    case Ret =>
      Some(Pop(s, t))
  }

  // ---- steps of propagateCancel ----

  function AttachStep(s: State, t: Tid, f: Frame): Option<State>
    requires Live(s, t) && f.Attach? && f.child < |s.nodes| && f.parent < |s.nodes|
  {
    var p := s.nodes[f.parent];
    match f.apc
    case LoadDone =>
      Some(WithTop(s, t, f.(apc := if p.done == NoChan then MakeDone else Select, shared := p.done == Shared)))
    case MakeDone =>
      if p.lock.Some? then None
      else
        var d := MakeChan(p.done);
        Some(WithTop(WithNode(s, f.parent, p.(done := d)), t, f.(apc := Select, shared := d == Shared)))
    case Select =>
      Some(WithTop(s, t, f.(apc := if f.shared || p.done == Closed then ReadErr else Find)))
    case ReadErr =>
      Some(WithTop(s, t, if p.err.Some? then f.(apc := ReadCause, perr := p.err.value) else f.(apc := Panic)))
    case ReadCause =>
      if p.lock.Some? then None
      else
        var c := if p.cause.Some? then p.cause.value else f.perr;
        Some(Push(WithTop(s, t, f.(apc := CallFree)), t, Cancel(f.child, false, f.perr, c, Want, {})))
    case Find =>
      Some(WithTop(s, t, f.(apc := if p.done == NoChan || p.done == Shared then Fallback else WantParent)))
    case WantParent =>
      if p.lock.Some? then None
      else Some(WithTop(WithNode(s, f.parent, p.(lock := Some(t))), t, f.(apc := Held)))
    case Held =>
      if p.err.Some? then
        var c := if p.cause.Some? then p.cause.value else p.err.value;
        Some(Push(WithTop(s, t, f.(apc := CallHeld)), t, Cancel(f.child, false, p.err.value, c, Want, {})))
      else
        var linked := WithNode(s, f.parent, p.(children := Some(Kids(p) + {f.child})));
        Some(WithTop(WithNode(linked, f.child, linked.nodes[f.child].(attached := true)), t, f.(apc := Release)))
    case CallHeld =>
      Some(WithTop(WithNode(s, f.child, s.nodes[f.child].(attached := true)), t, f.(apc := Release)))
    case CallFree =>
      Some(WithTop(WithNode(s, f.child, s.nodes[f.child].(attached := true)), t, f.(apc := Attached)))
    case Release =>
      Some(WithTop(WithNode(s, f.parent, p.(lock := None)), t, f.(apc := Attached)))
    case Attached =>
      Some(Pop(WithNode(s, f.child, s.nodes[f.child].(ready := true)), t))
    case Panic => None
    case Fallback => None
  }

  /** One step of a running goroutine; None when it is blocked. */
  function RunStep(s: State, t: Tid, pick: Id): Option<State> {
    if !Live(s, t) then None
    else
      var f := Top(s, t);
      if f.Cancel? then (if f.n < |s.nodes| then CancelStep(s, t, f, pick) else None)
      else if f.child < |s.nodes| && f.parent < |s.nodes| then AttachStep(s, t, f) else None
  }

  // ---- operations an idle goroutine can begin ----

  datatype Op =
    | NewRoot(kind: Kind)                                  // a context under Background
    | NewChild(kind: Kind, parent: Id)                     // WithCancel, WithDeadline, AfterFunc
    | CancelCall(n: Id, remove: bool, err: Err, cause: Option<Err>)  // CancelFunc or a timer firing
    | StopCall(n: Id)                                      // the stop function of AfterFunc
    | DoneCall(n: Id)                                      // ctx.Done()

  function FreshNode(k: Kind, parent: Option<Id>): Node {
    Node(k, parent, None, NoChan, None, None, None, Unused, 0, parent.None?, parent.None?)
  }

  /** The constructor has handed out the CancelFunc, or the constructor or timer of a timerCtx cancels it.
      The one CancelFunc that leaves the parent's reference alone is that of a context whose deadline had
      already passed, and it is handed out after that cancellation. */
  predicate Cancellable(n: Node, remove: bool) {
    && ((n.ready && n.kind == Plain) || (n.attached && n.kind == Timer))
    && (remove || (n.kind == Timer && n.err.Some?))
  }

  function StartStep(s: State, t: Tid, op: Op): Option<State> {
    if t >= |s.threads| || s.threads[t] != [] then None
    else match op
      case NewRoot(k) =>
        Some(s.(nodes := s.nodes + [FreshNode(k, None)]))
      case NewChild(k, p) =>
        if p >= |s.nodes| || !s.nodes[p].ready || s.nodes[p].kind == After then None
        else
          Some(Push(s.(nodes := s.nodes + [FreshNode(k, Some(p))]), t,
                    Attach(|s.nodes|, p, LoadDone, false, Canceled)))
      case CancelCall(n, remove, e, c) =>
        if n >= |s.nodes| || !Cancellable(s.nodes[n], remove) then None
        else
          var cause := if c.Some? then c.value else e;
          Some(Push(s.(requests := s.requests + {(n, e, cause)}), t, Cancel(n, remove, e, cause, Want, {})))
      case StopCall(n) =>
        if n >= |s.nodes| || !s.nodes[n].ready || s.nodes[n].kind != After || s.nodes[n].once != Unused then None
        else
          Some(Push(WithNode(s.(requests := s.requests + {(n, Canceled, Canceled)}), n, s.nodes[n].(once := Stopped)),
                    t, Cancel(n, true, Canceled, Canceled, Want, {})))
      case DoneCall(n) =>
        if n >= |s.nodes| || !s.nodes[n].ready || s.nodes[n].kind == After || s.nodes[n].lock.Some? then None
        else Some(WithNode(s, n, s.nodes[n].(done := MakeChan(s.nodes[n].done))))
  }

  ghost predicate Next(s: State, s': State) {
    || (exists t: Tid, pick: Id :: RunStep(s, t, pick) == Some(s'))
    || (exists t: Tid, op: Op :: StartStep(s, t, op) == Some(s'))
  }

  ghost predicate Init(s: State) {
    s.nodes == [] && s.requests == {} && forall t: Tid :: t < |s.threads| ==> s.threads[t] == []
  }

  ghost predicate Run(run: seq<State>) {
    && |run| > 0 && Init(run[0])
    && forall i: nat :: i + 1 < |run| ==> Next(run[i], run[i + 1])
  }
}
