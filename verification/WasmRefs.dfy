/** The table of JavaScript values a Go program running in WebAssembly holds references to
    (lib/wasm/wasm_exec.js): ids with reference counts, and a pool of ids to use again. */
module WasmRefs {

  /** A JavaScript value. `Number` is any float but the zeros and NaN, by its two 32-bit halves; `Other`
      is an object, string, symbol or function, told apart as a Map tells its keys apart. */
  datatype Value =
    | Undefined | Null | True | False | Zero | NegativeZero | NaN
    | Number(hi: nat, lo: nat)
    | Other(kind: Kind, key: nat)

  datatype Kind = Object | String | Symbol | Function

  const TWO32: nat := 0x1_0000_0000
  const NAN_HEAD: nat := 0x7FF8_0000
  const RESERVED: nat := 7

  /** The halves of a float that is NaN: exponent all ones, fraction not zero. */
  predicate NaNBits(hi: nat, lo: nat) {
    hi / 0x10_0000 % 0x800 == 0x7FF && (hi % 0x10_0000 != 0 || lo != 0)
  }

  predicate ZeroBits(hi: nat, lo: nat) { hi % 0x8000_0000 == 0 && lo == 0 }

  predicate WellFormed(v: Value) {
    v.Number? ==> v.hi < TWO32 && v.lo < TWO32 && !NaNBits(v.hi, v.lo) && !ZeroBits(v.hi, v.lo)
  }

  /** Map keys do not tell -0 from 0. */
  function Key(v: Value): Value {
    if v == NegativeZero then Zero else v
  }

  /** Values passed by reference: all but undefined, NaN and the numbers other than 0. */
  predicate ByRef(v: Value) {
    !v.Number? && v != NaN && v != Undefined
  }

  function TypeFlag(v: Value): (f: nat)
    ensures f <= 4
  {
    if !v.Other? then 0
    else match v.kind
      case Object => 1
      case String => 2
      case Symbol => 3
      case Function => 4
  }

  /** A reference count; the predefined values have infinitely many. */
  datatype Count = Infinite | Finite(n: nat)

  function Inc(c: Count): Count {
    if c.Infinite? then c else Finite(c.n + 1)
  }

  function Dec(c: Count): Count
    requires c != Finite(0)
  {
    if c.Infinite? then c else Finite(c.n - 1)
  }

  /** The eight bytes Go sees (syscall/js/js.go): 0 for undefined, a NaN with the kind of value in its low
      bits and the id below, and fixed ids for the values Go knows by itself. */
  predicate Represents(v: Value, hi: nat, lo: nat) {
    match v
    case Undefined => hi == 0 && lo == 0
    case Number(h, l) => hi == h && lo == l
    case NaN => hi == 0x7FF8_0000 && lo == 0
    case Zero => hi == 0x7FF8_0000 && lo == 1
    case NegativeZero => hi == 0x7FF8_0000 && lo == 1
    case Null => hi == 0x7FF8_0000 && lo == 2
    case True => hi == 0x7FF8_0000 && lo == 3
    case False => hi == 0x7FF8_0000 && lo == 4
    case Other(Object, _) => hi == 0x7FF8_0001 && lo >= 5
    case Other(String, _) => hi == 0x7FF8_0002 && lo >= 5
    case Other(Symbol, _) => hi == 0x7FF8_0003 && lo >= 5
    case Other(Function, _) => hi == 0x7FF8_0004 && lo >= 5
  }

  // ---- the table as a value ----

  datatype Table = Table(values: seq<Value>, counts: seq<Count>, ids: map<Value, nat>, pool: seq<nat>)

  predicate Live(t: Table, id: nat) {
    id < |t.counts| && t.counts[id] != Finite(0)
  }

  ghost predicate IdsOk(t: Table) {
    && (forall id: nat :: id < |t.values| && Live(t, id) && id > 0 ==>
          ByRef(t.values[id]) && t.values[id] in t.ids && t.ids[t.values[id]] == id)
    && (forall v :: v in t.ids ==>
          Key(v) == v && 0 < t.ids[v] < |t.values| && Live(t, t.ids[v]) && t.values[t.ids[v]] == v)
  }

  ghost predicate PoolOk(t: Table) {
    && (forall i :: 0 <= i < |t.pool| ==> t.pool[i] < |t.values| && !Live(t, t.pool[i]))
    && (forall i, j :: 0 <= i < j < |t.pool| ==> t.pool[i] != t.pool[j])
    && (forall id: nat :: id < |t.values| && !Live(t, id) ==> id in t.pool)
  }

  /** The values Go knows by their ids. */
  predicate FixedOk(t: Table)
    requires RESERVED <= |t.values|
  {
    t.values[0] == NaN && t.values[1] == Zero && t.values[2] == Null && t.values[3] == True && t.values[4] == False
  }

  /** Live ids and interned values correspond one to one (NaN, id 0, is never interned); the pool holds
      exactly the dead ids, each once; the predefined ids never die. */
  ghost predicate Ok(t: Table) {
    && RESERVED <= |t.values| == |t.counts|
    && (forall id: nat :: id < |t.values| ==> (t.counts[id].Infinite? <==> id < RESERVED))
    && FixedOk(t)
    && IdsOk(t) && PoolOk(t)
  }

  function Initial(globalThis: nat, go: nat): Table {
    Table([NaN, Zero, Null, True, False, Other(Object, globalThis), Other(Object, go)],
          [Infinite, Infinite, Infinite, Infinite, Infinite, Infinite, Infinite],
          map[Zero := 1, Null := 2, True := 3, False := 4, Other(Object, globalThis) := 5, Other(Object, go) := 6],
          [])
  }

  lemma InitialOk(globalThis: nat, go: nat)
    requires globalThis != go
    ensures Ok(Initial(globalThis, go))
  {
    hide IdsOk, PoolOk;
    var t := Initial(globalThis, go);
    assert IdsOk(t) by { InitialIds(globalThis, go); }
    assert PoolOk(t) by { InitialPool(globalThis, go); }
  }

  lemma InitialIds(globalThis: nat, go: nat)
    requires globalThis != go
    ensures IdsOk(Initial(globalThis, go))
  {
    var t := Initial(globalThis, go);
    var vs, m := t.values, t.ids;
    assert vs[1] == Zero && m[vs[1]] == 1;
    assert vs[2] == Null && m[vs[2]] == 2;
    assert vs[3] == True && m[vs[3]] == 3;
    assert vs[4] == False && m[vs[4]] == 4;
    assert vs[5] == Other(Object, globalThis) && m[vs[5]] == 5;
    assert vs[6] == Other(Object, go) && m[vs[6]] == 6;
    assert m.Keys == {vs[1], vs[2], vs[3], vs[4], vs[5], vs[6]};
    assert |vs| == 7 && forall id: nat :: Live(t, id) <==> id < 7;
    hide Initial, Live;
  }

  lemma InitialPool(globalThis: nat, go: nat)
    ensures PoolOk(Initial(globalThis, go))
  {
    var t := Initial(globalThis, go);
    assert forall id: nat :: id < RESERVED ==> t.counts[id] == Infinite;
  }

  /** The id for a value that has none: the last one returned to the pool, or a new one. */
  function NewId(t: Table): nat {
    if t.pool != [] then t.pool[|t.pool| - 1] else |t.values|
  }

  /** A reference to k is handed to Go. */
  function Stored(t: Table, k: Value): (Table, nat)
    requires |t.values| == |t.counts|
    requires k in t.ids ==> t.ids[k] < |t.values|
    requires t.pool != [] ==> t.pool[|t.pool| - 1] < |t.values|
  {
    if k in t.ids then
      var id := t.ids[k];
      (t.(counts := t.counts[id := Inc(t.counts[id])]), id)
    else
      var id := NewId(t);
      if t.pool != [] then
        (Table(t.values[id := k], t.counts[id := Finite(1)], t.ids[k := id], t.pool[..|t.pool| - 1]), id)
      else
        (Table(t.values + [k], t.counts + [Finite(1)], t.ids[k := id], t.pool), id)
  }

  /** Go gives one reference back. */
  function Finalized(t: Table, id: nat): Table
    requires |t.values| == |t.counts| && Live(t, id)
  {
    var counts := t.counts[id := Dec(t.counts[id])];
    if counts[id] != Finite(0) then t.(counts := counts)
    else Table(t.values[id := Null], counts, t.ids - {t.values[id]}, t.pool + [id])
  }

  lemma StoreKnown(t: Table, k: Value)
    requires Ok(t) && k in t.ids
    ensures Ok(Stored(t, k).0)
  {
    var t', id := Stored(t, k).0, t.ids[k];
    assert forall i: nat :: Live(t', i) <==> Live(t, i);
  }

  lemma StoreReused(t: Table, k: Value)
    requires Ok(t) && ByRef(k) && Key(k) == k && k !in t.ids && t.pool != []
    ensures Ok(Stored(t, k).0)
  {
    Bounds(t);
    hide IdsOk, PoolOk;
    ReusedIds(t, k);
    ReusedPool(t, k);
  }

  lemma ReusedIds(t: Table, k: Value)
    requires Ok(t) && ByRef(k) && Key(k) == k && k !in t.ids && t.pool != []
    ensures IdsOk(Stored(t, k).0) && NewId(t) >= RESERVED
  {
    var t', id := Stored(t, k).0, NewId(t);
    assert !Live(t, id);
    assert forall i: nat :: Live(t', i) <==> Live(t, i) || i == id;
  }

  lemma ReusedPool(t: Table, k: Value)
    requires Ok(t) && k !in t.ids && t.pool != []
    ensures PoolOk(Stored(t, k).0)
  {
    hide IdsOk;
    var t', id := Stored(t, k).0, NewId(t);
    assert forall i: nat :: Live(t', i) <==> Live(t, i) || i == id;
    assert forall i :: 0 <= i < |t'.pool| ==> t'.pool[i] == t.pool[i] && t.pool[i] != id;
    forall i: nat | i < |t'.values| && !Live(t', i)
      ensures i in t'.pool
    {
      var j :| 0 <= j < |t.pool| && t.pool[j] == i;
      assert t'.pool[j] == i;
    }
  }

  lemma StoreFresh(t: Table, k: Value)
    requires Ok(t) && ByRef(k) && Key(k) == k && k !in t.ids && t.pool == []
    ensures Ok(Stored(t, k).0)
  {
    var t', id := Stored(t, k).0, |t.values|;
    assert forall i: nat :: Live(t', i) <==> Live(t, i) || i == id;
  }

  /** The predefined values keep the ids Go uses for them. */
  lemma FixedIds(t: Table, v: Value)
    requires Ok(t) && ByRef(v) && Key(v) in t.ids
    ensures Represents(v, NAN_HEAD + TypeFlag(v), t.ids[Key(v)])
  {
    assert forall i: nat :: i < 5 ==> Live(t, i);
  }

  /** How NaN and undefined are written. */
  lemma Constants()
    ensures NaNBits(NAN_HEAD, 0) && !ZeroBits(NAN_HEAD, 0) && ZeroBits(0, 0)
  {
  }

  lemma Bounds(t: Table)
    requires Ok(t)
    ensures RESERVED <= |t.values| == |t.counts| && Zero in t.ids && t.values[0] == NaN
    ensures forall k :: k in t.ids ==> t.ids[k] < |t.values|
    ensures forall i :: 0 <= i < |t.pool| ==> t.pool[i] < |t.values|
  {
  }

  /** Storing keeps the table in order, counts one more reference, and leaves every live id to its value. */
  lemma StoreKeeps(t: Table, k: Value)
    requires Ok(t) && ByRef(k) && Key(k) == k
    ensures var (t', id) := Stored(t, k);
            && Ok(t') && k in t'.ids && t'.ids[k] == id && t'.values[id] == k
            && t'.counts[id] == (if k in t.ids then Inc(t.counts[id]) else Finite(1))
            && (k !in t.ids ==> !Live(t, id))
            && (forall i: nat :: Live(t, i) ==> i < |t'.values| && t'.values[i] == t.values[i] && Live(t', i))
            && (forall i: nat :: Live(t, i) && i != id ==> t'.counts[i] == t.counts[i])
  {
    if k in t.ids { StoreKnown(t, k); } else if t.pool != [] { StoreReused(t, k); } else { StoreFresh(t, k); }
  }

  /** Which ids are live afterwards. */
  lemma FinalizedLive(t: Table, id: nat)
    requires |t.values| == |t.counts| && Live(t, id)
    ensures forall i: nat :: Live(Finalized(t, id), i) <==> Live(t, i) && (i != id || t.counts[id] != Finite(1))
  {
  }

  lemma FinalizedIds(t: Table, id: nat)
    requires Ok(t) && Live(t, id)
    ensures IdsOk(Finalized(t, id))
  {
    hide PoolOk;
    FinalizedLive(t, id);
  }

  lemma FinalizedPool(t: Table, id: nat)
    requires Ok(t) && Live(t, id)
    ensures PoolOk(Finalized(t, id))
  {
    hide IdsOk;
    FinalizedLive(t, id);
    var t' := Finalized(t, id);
    if t.counts[id] == Finite(1) {
      assert t'.pool[|t.pool|] == id;
      forall i: nat | i < |t'.values| && !Live(t', i)
        ensures i in t'.pool
      {
        if i != id {
          var j :| 0 <= j < |t.pool| && t.pool[j] == i;
          assert t'.pool[j] == i;
        }
      }
    }
  }

  lemma FinalizedFixed(t: Table, id: nat)
    requires Ok(t) && Live(t, id)
    ensures FixedOk(Finalized(t, id))
  {
    hide IdsOk, PoolOk;
  }

  /** Giving back keeps the table in order: at the last reference the id and its value part, and only then. */
  lemma FinalizeKeeps(t: Table, id: nat)
    requires Ok(t) && Live(t, id)
    ensures var t' := Finalized(t, id);
            && Ok(t') && |t'.values| == |t.values| && t'.counts == t.counts[id := Dec(t.counts[id])]
            && (forall i: nat :: i < |t.values| && (i != id || Live(t', id)) ==> t'.values[i] == t.values[i])
            && (!Live(t', id) ==> t.counts[id] == Finite(1) && t.values[id] !in t'.ids && id in t'.pool)
            && (Live(t', id) ==> t'.ids == t.ids && t'.pool == t.pool)
  {
    FinalizedLive(t, id);
    FinalizedIds(t, id);
    FinalizedPool(t, id);
    FinalizedFixed(t, id);
    var t' := Finalized(t, id);
    hide IdsOk, PoolOk, FixedOk, Live;
    assert t.counts[id] == Finite(1) ==> t'.pool[|t.pool|] == id;
  }

  // ---- the object ----

  class Go {
    var values: seq<Value>
    var goRefCounts: seq<Count>
    var ids: map<Value, nat>
    var idPool: seq<nat>
    /** Linear memory, eight bytes at a time: high and low word. */
    var mem: map<nat, (nat, nat)>

    ghost function Contents(): Table
      reads this
    {
      Table(values, goRefCounts, ids, idPool)
    }

    ghost predicate Valid()
      reads this
    {
      Ok(Contents())
    }

    /** The table set-up in run. */
    constructor (globalThis: nat, go: nat)
      requires globalThis != go
      ensures Valid() && Contents() == Initial(globalThis, go) && mem == map[]
    {
      values := [NaN, Zero, Null, True, False, Other(Object, globalThis), Other(Object, go)];
      goRefCounts := [Infinite, Infinite, Infinite, Infinite, Infinite, Infinite, Infinite];
      ids := map[Zero := 1, Null := 2, True := 3, False := 4, Other(Object, globalThis) := 5, Other(Object, go) := 6];
      idPool := [];
      mem := map[];
      new;
      InitialOk(globalThis, go);
    }

    /** loadValue; an id beyond the table reads as undefined. */
    function LoadValue(addr: nat): Value
      requires addr in mem
      reads this
    {
      var hi, lo := mem[addr].0, mem[addr].1;
      if ZeroBits(hi, lo) then Undefined
      else if !NaNBits(hi, lo) then Number(hi, lo)
      else if lo < |values| then values[lo] else Undefined
    }

    /** storeValue: what loadValue then reads at addr is v, except that -0 becomes 0. */
    method StoreValue(addr: nat, v: Value)
      requires Valid() && WellFormed(v)
      modifies this
      ensures Valid() && addr in mem && LoadValue(addr) == Key(v)
      ensures Contents() == if ByRef(v) then Stored(old(Contents()), Key(v)).0 else old(Contents())
      ensures ByRef(v) ==> Key(v) in ids && mem == old(mem)[addr := (NAN_HEAD + TypeFlag(v), ids[Key(v)])]
      ensures mem == old(mem)[addr := mem[addr]] && Represents(v, mem[addr].0, mem[addr].1)
    {
      hide Ok, NaNBits, ZeroBits;
      Bounds(Contents());
      Constants();
      if v.Number? || v == NaN {
        if v == NaN {
          mem := mem[addr := (NAN_HEAD, 0)];
          return;
        }
        mem := mem[addr := (v.hi, v.lo)];
        return;
      }
      if v == Undefined {
        mem := mem[addr := (0, 0)];
        return;
      }
      StoreKeeps(Contents(), Key(v));
      RefBits(v, Stored(Contents(), Key(v)).1);
      var id := Intern(v);
      FixedIds(Contents(), v);
      mem := mem[addr := (NAN_HEAD + TypeFlag(v), id)];
    }

    /** The id of v, or a new one, with one more reference. */
    method Intern(v: Value) returns (id: nat)
      requires Valid() && ByRef(v)
      modifies this`values, this`goRefCounts, this`ids, this`idPool
      ensures Contents() == Stored(old(Contents()), Key(v)).0 && id == Stored(old(Contents()), Key(v)).1
    {
      hide Ok;
      Bounds(Contents());
      if Key(v) in ids {
        id := ids[Key(v)];
      } else {
        if |idPool| > 0 {
          id := idPool[|idPool| - 1];
          idPool := idPool[..|idPool| - 1];
          values := values[id := v];
          goRefCounts := goRefCounts[id := Finite(0)];
        } else {
          id := |values|;
          values := values + [v];
          goRefCounts := goRefCounts + [Finite(0)];
        }
        ids := ids[v := id];
      }
      goRefCounts := goRefCounts[id := Inc(goRefCounts[id])];
    }

    /** syscall/js.finalizeRef, for a reference Go holds. */
    method FinalizeRef(id: nat)
      requires Valid() && Live(Contents(), id)
      modifies this`values, this`goRefCounts, this`ids, this`idPool
      ensures Valid() && Contents() == Finalized(old(Contents()), id)
    {
      FinalizeKeeps(Contents(), id);
      goRefCounts := goRefCounts[id := Dec(goRefCounts[id])];
      if goRefCounts[id] == Finite(0) {
        var v := values[id];
        values := values[id := Null];
        ids := ids - {v};
        idPool := idPool + [id];
      }
    }
  }

  // ---- runs ----

  datatype Op = Store(addr: nat, v: Value) | Finalize(id: nat)

  /** References to k handed out, less those given back, in a sequence of operations. */
  function Balance(ops: seq<Op>, k: Value, id: nat): int {
    if ops == [] then 0
    else
      var op := ops[|ops| - 1];
      Balance(ops[..|ops| - 1], k, id)
      + (if op.Store? && Key(op.v) == k then 1 else if op.Finalize? && op.id == id then -1 else 0)
  }

  ghost predicate Harmless(ops: seq<Op>, addr: nat) {
    forall i :: 0 <= i < |ops| && ops[i].Store? ==> ops[i].addr != addr && WellFormed(ops[i].v)
  }

  /** k is interned under id, with b references more than when it was stored. */
  ghost predicate Holds(t: Table, k: Value, id: nat, b: int) {
    && k in t.ids && t.ids[k] == id && id < |t.values| && id < |t.counts| && t.values[id] == k
    && (t.counts[id].Infinite? || t.counts[id].n >= 1 + b)
  }

  lemma StoreHolds(t: Table, k: Value, id: nat, b: int, v: Value)
    requires Ok(t) && Holds(t, k, id, b) && b >= 0
    ensures Holds(if ByRef(v) then Stored(t, Key(v)).0 else t, k, id, b + if Key(v) == k then 1 else 0)
  {
    HeldByRef(t, k, id, b);
    Bounds(t);
    OtherIds(t, k, Key(v));
    hide IdsOk, PoolOk, FixedOk;
  }

  /** A new reference goes to the id of the value itself or to one that is not live. */
  lemma OtherIds(t: Table, k: Value, j: Value)
    requires Ok(t) && k in t.ids
    ensures j in t.ids && j != k ==> t.ids[j] != t.ids[k]
    ensures t.pool != [] ==> t.pool[|t.pool| - 1] != t.ids[k]
  {
  }

  lemma HeldByRef(t: Table, k: Value, id: nat, b: int)
    requires Ok(t) && Holds(t, k, id, b)
    ensures ByRef(k) && Key(k) == k
  {
  }

  lemma FinalizeHolds(t: Table, k: Value, id: nat, b: int, j: nat)
    requires Ok(t) && Holds(t, k, id, b) && b >= 0 && Live(t, j)
    requires j == id ==> b >= 1
    ensures Holds(Finalized(t, j), k, id, b - if j == id then 1 else 0)
  {
    FinalizeKeeps(t, j);
    assert t.values[j] == k ==> j == id;
  }

  lemma NextBalance(ops: seq<Op>, k: Value, id: nat)
    requires ops != []
    ensures var op := ops[|ops| - 1];
            Balance(ops, k, id) == Balance(ops[..|ops| - 1], k, id)
              + if op.Store? && Key(op.v) == k then 1 else if op.Finalize? && op.id == id then -1 else 0
  {
  }

  lemma NoBalance(k: Value, id: nat)
    ensures Balance([], k, id) == 0
  {
  }

  lemma RefBits(v: Value, id: nat)
    ensures NaNBits(NAN_HEAD + TypeFlag(v), id) && !ZeroBits(NAN_HEAD + TypeFlag(v), id)
  {
  }

  lemma StoredHolds(t: Table, k: Value)
    requires Ok(t) && ByRef(k) && Key(k) == k
    ensures var t' := Stored(t, k).0; k in t'.ids && Holds(t', k, t'.ids[k], 0)
  {
    StoreKeeps(t, k);
  }

  /** A value stored at addr reads the same after any operations elsewhere, as long as Go has not given its
      id back as often as it was handed out - whatever else is stored, freed and reused meanwhile. */
  method StoreRunLoad(g: Go, addr: nat, v: Value, ops: seq<Op>) returns (id: nat, w: Value)
    requires g.Valid() && WellFormed(v) && ByRef(v) && Harmless(ops, addr)
    modifies g
    ensures g.Valid()
    ensures Kept(ops, Key(v), id) ==> w == Key(v)
  {
    hide Ok, Stored, Finalized, Balance, NaNBits, Holds, Live;
    ghost var k := Key(v);
    StoredHolds(g.Contents(), k);
    g.StoreValue(addr, v);
    id := g.ids[Key(v)];
    NoBalance(k, id);
    for i := 0 to |ops|
      invariant g.Valid() && addr in g.mem && g.mem[addr] == (NAN_HEAD + TypeFlag(v), id)
      invariant Kept(ops[..i], k, id) ==> Holds(g.Contents(), k, id, Balance(ops[..i], k, id))
    {
      ghost var t, b := g.Contents(), Balance(ops[..i], k, id);
      KeptBefore(ops[..i + 1], k, id);
      assert ops[..i + 1][..i] == ops[..i];
      match ops[i] {
        case Store(a, x) =>
          g.StoreValue(a, x);
          if Kept(ops[..i + 1], k, id) { StoreHolds(t, k, id, b, x); }
        case Finalize(j) =>
          if j < |g.goRefCounts| && g.goRefCounts[j] != Finite(0) {
            LiveId(t, j);
            g.FinalizeRef(j);
            if Kept(ops[..i + 1], k, id) { FinalizeHolds(t, k, id, b, j); }
          } else if Kept(ops[..i + 1], k, id) {
            HeldIsLive(t, k, id, b);
          }
      }
    }
    assert ops[..|ops|] == ops;
    RefBits(v, id);
    w := g.LoadValue(addr);
    if Kept(ops, k, id) { HeldIsLive(g.Contents(), k, id, Balance(ops, k, id)); }
  }

  /** Never more given back than handed out. */
  ghost predicate Kept(ops: seq<Op>, k: Value, id: nat) {
    forall n :: 0 <= n <= |ops| ==> Balance(ops[..n], k, id) >= 0
  }

  lemma KeptBefore(ops: seq<Op>, k: Value, id: nat)
    requires ops != []
    ensures var before, op := ops[..|ops| - 1], ops[|ops| - 1];
            && Balance(ops, k, id) == Balance(before, k, id)
                 + (if op.Store? && Key(op.v) == k then 1 else if op.Finalize? && op.id == id then -1 else 0)
            && (Kept(ops, k, id) ==> Kept(before, k, id) && Balance(before, k, id) >= 0 && Balance(ops, k, id) >= 0)
  {
    hide Balance;
    var before := ops[..|ops| - 1];
    NextBalance(ops, k, id);
    assert forall n :: 0 <= n <= |before| ==> before[..n] == ops[..n];
    assert ops[..|ops|] == ops && ops[..|before|] == before;
  }

  lemma LiveId(t: Table, j: nat)
    requires j < |t.counts| && t.counts[j] != Finite(0)
    ensures Live(t, j)
  {
  }

  lemma HeldIsLive(t: Table, k: Value, id: nat, b: int)
    requires Holds(t, k, id, b) && b >= 0
    ensures id < |t.counts| && t.counts[id] != Finite(0) && id < |t.values| && t.values[id] == k
  {
  }
}
