/** io.Pipe (io/pipe.go): any number of concurrent readers, writers and closers over two unbuffered
    channels and a done channel. A select with several ready cases may take any of them. */
module Pipe {
  import opened Basics

  type Tid = nat

  datatype Err = EOF | ErrClosedPipe | Custom(code: nat)

  datatype Side = ReadSide | WriteSide

  /** One goroutine: idle, inside a call, or holding a call's result. `rec` is the write's place in wrMu order. */
  datatype Thread =
    | Idle
    // read(b) with len(b) == size
    | RCheck(size: nat)                    // first select
    | RSelect(size: nat)                   // second select
    | RCopy(size: nat, bw: seq<Byte>)      // received bw from wrCh
    | RAck(chunk: seq<Byte>, slot: nat)    // copied as the slot-th chunk; sending len(chunk) on rdCh
    | RErr                                 // readCloseError: about to load rerr
    | RErr2(rerr: Option<Err>)             // about to load werr
    | RDone(got: seq<Byte>, rres: Option<Err>, at: Option<nat>)
    // write(data)
    | WCheck(data: seq<Byte>)              // first select
    | WLock(data: seq<Byte>)               // waiting for wrMu
    | WSelect(data: seq<Byte>, n: nat)     // offering data[n..] on wrCh
    | WAwait(data: seq<Byte>, n: nat)      // receiving from rdCh
    | WErr(data: seq<Byte>, n: nat, locked: bool)                      // about to load werr
    | WErr2(data: seq<Byte>, n: nat, locked: bool, werr: Option<Err>)  // about to load rerr
    | WUnlock(data: seq<Byte>, n: nat, wres: Option<Err>)
    | WDone(data: seq<Byte>, n: nat, wres: Option<Err>, rec: Option<nat>)
    // closeRead / closeWrite
    | CStore(side: Side, err: Err)
    | CClose(side: Side)
    | CDone

  /** A write that got wrMu, and how many of its bytes have been copied to readers. */
  datatype Write = Write(data: seq<Byte>, sent: nat)

  /** The pipe, its goroutines, and two histories: the chunks copied to readers in order, and the
      writes in wrMu order. */
  datatype State = State(
    done: bool, rerr: Option<Err>, werr: Option<Err>, holder: Option<Tid>, threads: seq<Thread>,
    copied: seq<seq<Byte>>, writes: seq<Write>)

  predicate Returned(th: Thread) {
    th.Idle? || th.RDone? || th.WDone? || th.CDone?
  }

  function Set(s: State, t: Tid, th: Thread): State
    requires t < |s.threads|
  {
    s.(threads := s.threads[t := th])
  }

  function StoreOnce(old_: Option<Err>, e: Err): Option<Err> {
    if old_.Some? then old_ else Some(e)
  }

  /** Adds n copied bytes to the newest write. */
  function Count(ws: seq<Write>, n: nat): seq<Write> {
    if ws == [] then ws else ws[|ws| - 1 := ws[|ws| - 1].(sent := ws[|ws| - 1].sent + n)]
  }

  // ---- steps ----

  /** A step of goroutine t alone; None when it is blocked or needs a partner. */
  function LocalStep(s: State, t: Tid): Option<State>
    requires t < |s.threads|
  {
    match s.threads[t]
    case Idle => None
    case RCheck(size) => Some(Set(s, t, if s.done then RErr else RSelect(size)))
    case RSelect(size) => if s.done then Some(Set(s, t, RErr)) else None
    case RCopy(size, bw) =>
      var chunk := bw[..Min(size, |bw|)];
      Some(Set(s.(copied := s.copied + [chunk], writes := Count(s.writes, |chunk|)), t,
               RAck(chunk, |s.copied|)))
    case RAck(chunk, slot) => None
    case RErr => Some(Set(s, t, RErr2(s.rerr)))
    case RErr2(rerr) =>
      Some(Set(s, t, RDone([], if rerr.None? && s.werr.Some? then s.werr else Some(ErrClosedPipe), None)))
    case RDone(got, e, at) => None
    case WCheck(data) => Some(Set(s, t, if s.done then WErr(data, 0, false) else WLock(data)))
    case WLock(data) =>
      if s.holder.Some? then None
      else Some(Set(s.(holder := Some(t), writes := s.writes + [Write(data, 0)]), t, WSelect(data, 0)))
    case WSelect(data, n) => if s.done then Some(Set(s, t, WErr(data, n, true))) else None
    case WAwait(data, n) => None
    case WErr(data, n, locked) => Some(Set(s, t, WErr2(data, n, locked, s.werr)))
    case WErr2(data, n, locked, werr) =>
      var e := if werr.None? && s.rerr.Some? then s.rerr else Some(ErrClosedPipe);
      Some(Set(s, t, if locked then WUnlock(data, n, e) else WDone(data, n, e, None)))
    case WUnlock(data, n, e) =>
      Some(Set(s.(holder := None), t, WDone(data, n, e, if s.writes == [] then None else Some(|s.writes| - 1))))
    case WDone(data, n, e, rec) => None
    case CStore(side, e) =>
      Some(Set(if side == ReadSide then s.(rerr := StoreOnce(s.rerr, e)) else s.(werr := StoreOnce(s.werr, e)),
               t, CClose(side)))
    case CClose(side) => Some(Set(s.(done := true), t, CDone))
    case CDone => None
  }

  /** wrCh: reader t receives what writer u offers. Possible even after done is closed. */
  function TransferStep(s: State, t: Tid, u: Tid): Option<State>
    requires t < |s.threads| && u < |s.threads|
  {
    if s.threads[t].RSelect? && s.threads[u].WSelect? && s.threads[u].n <= |s.threads[u].data| then
      var w := s.threads[u];
      Some(Set(Set(s, t, RCopy(s.threads[t].size, w.data[w.n..])), u, WAwait(w.data, w.n)))
    else None
  }

  /** rdCh: writer u receives reader t's count and goes round its loop or leaves it. */
  function AckStep(s: State, t: Tid, u: Tid): Option<State>
    requires t < |s.threads| && u < |s.threads|
  {
    if s.threads[t].RAck? && s.threads[u].WAwait? then
      var w, nr := s.threads[u], |s.threads[t].chunk|;
      var n := w.n + nr;
      Some(Set(Set(s, t, RDone(s.threads[t].chunk, None, Some(s.threads[t].slot))), u,
               if n < |w.data| then WSelect(w.data, n) else WUnlock(w.data, n, None)))
    else None
  }

  datatype Call = Read(size: nat) | WriteCall(data: seq<Byte>) | CloseCall(side: Side, cerr: Option<Err>)

  function StartStep(s: State, t: Tid, call: Call): Option<State>
    requires t < |s.threads|
  {
    if !Returned(s.threads[t]) then None
    else match call
      case Read(size) => Some(Set(s, t, RCheck(size)))
      case WriteCall(data) => Some(Set(s, t, WCheck(data)))
      case CloseCall(side, e) =>
        var e' := if e.Some? then e.value else if side == ReadSide then ErrClosedPipe else EOF;
        Some(Set(s, t, CStore(side, e')))
  }

  ghost predicate Progress(s: State, s': State) {
    || (exists t: Tid :: t < |s.threads| && LocalStep(s, t) == Some(s'))
    || (exists t: Tid, u: Tid :: t < |s.threads| && u < |s.threads| && TransferStep(s, t, u) == Some(s'))
    || (exists t: Tid, u: Tid :: t < |s.threads| && u < |s.threads| && AckStep(s, t, u) == Some(s'))
  }

  ghost predicate Next(s: State, s': State) {
    Progress(s, s') || (exists t: Tid, call: Call :: t < |s.threads| && StartStep(s, t, call) == Some(s'))
  }

  ghost predicate Init(s: State) {
    && !s.done && s.rerr.None? && s.werr.None? && s.holder.None? && s.copied == [] && s.writes == []
    && forall t: Tid :: t < |s.threads| ==> s.threads[t] == Idle
  }

  ghost predicate Run(run: seq<State>) {
    && |run| > 0 && Init(run[0])
    && forall i: nat :: i + 1 < |run| ==> Next(run[i], run[i + 1])
  }

  // ---- what the histories add up to ----

  /** The delivered prefixes of all writes, in wrMu order. */
  function Delivered(ws: seq<Write>): seq<Byte> {
    if ws == [] then []
    else
      var w := ws[|ws| - 1];
      Delivered(ws[..|ws| - 1]) + w.data[..Min(w.sent, |w.data|)]
  }

  // ---- the invariant ----

  /** Inside the critical section of wrMu. */
  predicate InSection(th: Thread) {
    th.WSelect? || th.WAwait? || ((th.WErr? || th.WErr2?) && th.locked) || th.WUnlock?
  }

  /** Between the receive from wrCh and the send on rdCh. */
  predicate Copying(th: Thread) {
    th.RCopy? || th.RAck?
  }

  ghost predicate HolderOk(s: State) {
    && (s.holder.Some? ==> s.holder.value < |s.threads| && InSection(s.threads[s.holder.value]))
    && (forall t: Tid :: t < |s.threads| && InSection(s.threads[t]) ==> s.holder == Some(t))
  }

  /** The newest write belongs to the holder, which has counted n of its bytes; a reader that has copied
      but not acknowledged accounts for the rest. */
  ghost predicate WriterOk(s: State, u: Tid)
    requires u < |s.threads|
  {
    InSection(s.threads[u]) ==>
      var w := s.threads[u];
      && s.writes != [] && s.writes[|s.writes| - 1].data == w.data && w.n <= |w.data|
      && (!w.WAwait? ==> s.writes[|s.writes| - 1].sent == w.n)
      && (w.WAwait? ==> exists t: Tid :: t < |s.threads| && Copying(s.threads[t]))
      && (w.WUnlock? && w.wres.None? ==> w.n == |w.data|)
  }

  /** A copying reader works on exactly what the one waiting writer offered. */
  ghost predicate ReaderOk(s: State, t: Tid)
    requires t < |s.threads|
  {
    Copying(s.threads[t]) ==>
      && s.holder.Some? && s.holder.value < |s.threads| && s.threads[s.holder.value].WAwait?
      && s.writes != []
      && var w := s.threads[s.holder.value];
      && w.n <= |w.data|
      && (s.threads[t].RCopy? ==> s.threads[t].bw == w.data[w.n..] && s.writes[|s.writes| - 1].sent == w.n)
      && (s.threads[t].RAck? ==>
            && w.n + |s.threads[t].chunk| <= |w.data|
            && s.threads[t].chunk == w.data[w.n..w.n + |s.threads[t].chunk|]
            && s.writes[|s.writes| - 1].sent == w.n + |s.threads[t].chunk|)
  }

  ghost predicate OneCopying(s: State) {
    forall t: Tid, u: Tid :: t < |s.threads| && u < |s.threads| && Copying(s.threads[t]) && Copying(s.threads[u]) ==> t == u
  }

  /** The result of a finished write agrees with the history. */
  ghost predicate WrittenOk(s: State, t: Tid)
    requires t < |s.threads|
  {
    var w := s.threads[t];
    w.WDone? ==>
      && (w.rec.None? ==> w.n == 0 && w.wres.Some?)
      && (w.rec.Some? ==>
            && w.rec.value < |s.writes| && (s.holder.Some? ==> w.rec.value < |s.writes| - 1)
            && s.writes[w.rec.value] == Write(w.data, w.n)
            && w.n <= |w.data| && (w.wres.None? ==> w.n == |w.data|))
  }

  /** The place of a successful read in the history. */
  function Slot(th: Thread): Option<nat> {
    if th.RAck? then Some(th.slot) else if th.RDone? then th.at else None
  }

  /** A successful read returns its own chunk of the history. */
  ghost predicate ReadOk(s: State, t: Tid)
    requires t < |s.threads|
  {
    var th := s.threads[t];
    && (th.RAck? ==> th.slot < |s.copied| && s.copied[th.slot] == th.chunk)
    && (th.RDone? ==> (th.at.Some? <==> th.rres.None?)
                      && (th.at.Some? ==> th.at.value < |s.copied| && s.copied[th.at.value] == th.got))
  }

  predicate SameSlot(a: Thread, b: Thread) {
    Slot(a).Some? && Slot(a) == Slot(b)
  }

  ghost predicate SlotsDistinct(s: State) {
    forall t: Tid, u: Tid ::
      t < |s.threads| && u < |s.threads| && SameSlot(s.threads[t], s.threads[u]) ==> t == u
  }

  /** Errors: an end that reports ErrClosedPipe was itself closed, otherwise it reports the other end's error. */
  ghost predicate ErrOk(s: State, t: Tid)
    requires t < |s.threads|
  {
    var th := s.threads[t];
    && (th.RErr? || th.WErr? ==> s.done)
    && (th.RErr2? ==> (th.rerr.None? ==> s.werr.Some?) && (th.rerr.Some? ==> s.rerr.Some?))
    && (th.WErr2? ==> (th.werr.None? ==> s.rerr.Some?) && (th.werr.Some? ==> s.werr.Some?))
    && (th.RDone? && th.rres.Some? ==> th.got == [] && (s.werr == th.rres || (s.rerr.Some? && th.rres == Some(ErrClosedPipe))))
    && ((th.WUnlock? || th.WDone?) && th.wres.Some? ==>
          s.rerr == th.wres || (s.werr.Some? && th.wres == Some(ErrClosedPipe)))
    && (th.CClose? ==> if th.side == ReadSide then s.rerr.Some? else s.werr.Some?)
    && (th.WErr? && !th.locked ==> th.n == 0) && (th.WErr2? && !th.locked ==> th.n == 0)
  }

  ghost predicate Inv(s: State) {
    && HolderOk(s) && OneCopying(s)
    && (forall t: Tid :: t < |s.threads| ==> WriterOk(s, t))
    && (forall t: Tid :: t < |s.threads| ==> ReaderOk(s, t))
    && (forall t: Tid :: t < |s.threads| ==> WrittenOk(s, t))
    && (forall t: Tid :: t < |s.threads| ==> ErrOk(s, t))
    && (forall t: Tid :: t < |s.threads| ==> ReadOk(s, t)) && SlotsDistinct(s)
    && (s.done ==> s.rerr.Some? || s.werr.Some?)
    && (forall i: nat :: i < |s.writes| ==> s.writes[i].sent <= |s.writes[i].data|)
    && Flatten(s.copied) == Delivered(s.writes)
  }
}
