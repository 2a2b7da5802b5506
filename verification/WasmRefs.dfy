/**
 * The reference table of lib/wasm/wasm_exec.js: storeValue, loadValue and finalizeRef over
 * the tables _values, _goRefCounts, _ids and _idPool.
 *
 * held is the multiset of references Go currently holds, each with the value it was made
 * for. The invariant ties the four tables to it, so over any sequence of calls that only
 * releases held references, a held reference keeps loading its own value although ids are
 * recycled all the time.
 */
module WasmRefs {
  import opened Prelude

  /** JavaScript values, as far as the code tells them apart. */
  datatype Value =
    | Undefined | NaN | Zero | NonZero(number: real) | Null | Bool(b: bool)
    | Object(o: nat) | Str(s: string) | Symbol(y: nat) | Function(f: nat)

  /** A number that is not zero carries a number that is not zero. */
  predicate Proper(v: Value) { v.NonZero? ==> v.number != 0.0 }

  /** Infinity, or a number of references. */
  datatype Count = Infinite | Finite(n: nat)

  /** An eight-byte cell: a float, or a NaN whose low word is an id and whose high word
      carries a type flag. */
  datatype Cell = Float(x: real) | Box(id: nat, flag: nat)

  const TWO_32: nat := 0x1_0000_0000
  const GLOBAL: Value := Object(0)
  const THIS: Value := Object(1)
  const PRESET: seq<Value> := [NaN, Zero, Null, Bool(true), Bool(false), GLOBAL, THIS]
  const PRESET_COUNTS: seq<Count> := [Infinite, Infinite, Infinite, Infinite, Infinite, Infinite, Infinite]
  const PRESET_IDS: map<Value, nat> :=
    map[Zero := 1, Null := 2, Bool(true) := 3, Bool(false) := 4, GLOBAL := 5, THIS := 6]

  /** typeof v, as storeValue encodes it. */
  function TypeFlag(v: Value): nat {
    match v
    case Object(_) => 1
    case Str(_) => 2
    case Symbol(_) => 3
    case Function(_) => 4
    case _ => 0
  }

  /** Values that live in the tables rather than in the cell itself. */
  predicate Tabled(v: Value) { !v.Undefined? && !v.NaN? && !v.NonZero? }

  datatype State = State(
    values: seq<Value>, counts: seq<Count>, ids: map<Value, nat>, pool: seq<nat>,
    held: multiset<(nat, Value)>)

  predicate Live(s: State, i: nat) {
    7 <= i < |s.counts| && s.counts[i].Finite? && s.counts[i].n > 0
  }

  /** Each id is preset for ever, in use with its exact count, or in the pool. */
  ghost predicate CountsOk(s: State) {
    && |s.values| == |s.counts| && |s.values| >= 7
    && s.values[..7] == PRESET
    && (forall i :: 0 <= i < 7 ==> s.counts[i].Infinite?)
    && (forall i :: 7 <= i < |s.counts| ==> s.counts[i] == Finite(s.held[(i, s.values[i])]))
  }

  /** _ids and _values are inverse to each other on preset and live ids. */
  ghost predicate IdsOk(s: State) {
    && |s.values| == |s.counts| && |s.values| >= 7
    && (forall v :: v in s.ids ==> Tabled(v) && (1 <= s.ids[v] < 7 || Live(s, s.ids[v])) && s.values[s.ids[v]] == v)
    && (forall v :: v in PRESET_IDS ==> v in s.ids && s.ids[v] == PRESET_IDS[v])
    && (forall i: nat :: Live(s, i) ==> s.values[i] in s.ids && s.ids[s.values[i]] == i)
  }

  /** The pool holds every free id once, and no other. */
  ghost predicate PoolOk(s: State) {
    && (forall k :: 0 <= k < |s.pool| ==> 7 <= s.pool[k] < |s.counts| && s.counts[s.pool[k]] == Finite(0))
    && (forall j, k :: 0 <= j < k < |s.pool| ==> s.pool[j] != s.pool[k])
    && (forall i :: 7 <= i < |s.counts| && s.counts[i] == Finite(0) ==> i in s.pool)
  }

  /** A held reference is to a table entry that still has its value. */
  ghost predicate HeldOk(s: State) {
    forall i: nat, v :: (i, v) in s.held ==> i < |s.values| && s.values[i] == v
  }

  ghost predicate Inv(s: State) {
    CountsOk(s) && IdsOk(s) && PoolOk(s) && HeldOk(s)
  }

  // ------------------------------------------------ what each update does to the state

  function AfterRecycle(s: State, v: Value): State
    requires s.pool != [] && s.pool[|s.pool| - 1] < |s.values| == |s.counts|
  {
    var id := s.pool[|s.pool| - 1];
    State(s.values[id := v], s.counts[id := Finite(1)], s.ids[v := id], s.pool[..|s.pool| - 1],
          s.held + multiset{(id, v)})
  }

  function AfterExtend(s: State, v: Value): State {
    State(s.values + [v], s.counts + [Finite(1)], s.ids[v := |s.values|], s.pool, s.held + multiset{(|s.values|, v)})
  }

  function AfterReference(s: State, v: Value): State
    requires v in s.ids && s.ids[v] < |s.counts|
  {
    var id := s.ids[v];
    s.(counts := if s.counts[id].Finite? then s.counts[id := Finite(s.counts[id].n + 1)] else s.counts,
       held := s.held + multiset{(id, v)})
  }

  function AfterRelease(s: State, id: nat): State
    requires Releasable(s, id)
  {
    var held := s.held - multiset{(id, s.values[id])};
    if s.counts[id].Infinite? then s.(held := held)
    else if s.counts[id].n > 1 then s.(counts := s.counts[id := Finite(s.counts[id].n - 1)], held := held)
    else State(s.values[id := Null], s.counts[id := Finite(0)], s.ids - {s.values[id]}, s.pool + [id], held)
  }

  /** An id from the pool takes a new value. */
  lemma Recycled(s: State, v: Value)
    requires Inv(s) && Tabled(v) && v !in s.ids && s.pool != []
    ensures s.pool[|s.pool| - 1] < |s.values| == |s.counts| && Inv(AfterRecycle(s, v))
  {
    hide CountsOk, IdsOk, PoolOk, HeldOk;
    PoolEnd(s);
    RecycledCounts(s, v);
    RecycledIds(s, v);
    RecycledPool(s, v);
    RecycledHeld(s, v);
  }

  lemma PoolEnd(s: State)
    requires CountsOk(s) && PoolOk(s) && s.pool != []
    ensures var id := s.pool[|s.pool| - 1];
            7 <= id < |s.values| == |s.counts| && s.counts[id] == Finite(0) && id !in s.pool[..|s.pool| - 1]
  {
  }

  lemma RecycledCounts(s: State, v: Value)
    requires Inv(s) && Tabled(v) && v !in s.ids && s.pool != [] && s.pool[|s.pool| - 1] < |s.values| == |s.counts|
    ensures CountsOk(AfterRecycle(s, v))
  {
  }

  lemma RecycledIds(s: State, v: Value)
    requires Inv(s) && Tabled(v) && v !in s.ids && s.pool != [] && s.pool[|s.pool| - 1] < |s.values| == |s.counts|
    ensures IdsOk(AfterRecycle(s, v))
  {
  }

  lemma RecycledPool(s: State, v: Value)
    requires Inv(s) && Tabled(v) && v !in s.ids && s.pool != [] && s.pool[|s.pool| - 1] < |s.values| == |s.counts|
    ensures PoolOk(AfterRecycle(s, v))
  {
  }

  lemma RecycledHeld(s: State, v: Value)
    requires Inv(s) && Tabled(v) && v !in s.ids && s.pool != [] && s.pool[|s.pool| - 1] < |s.values| == |s.counts|
    ensures HeldOk(AfterRecycle(s, v))
  {
  }

  /** The tables grow by one entry. */
  lemma Extended(s: State, v: Value)
    requires Inv(s) && Tabled(v) && v !in s.ids && s.pool == []
    ensures Inv(AfterExtend(s, v))
  {
    hide CountsOk, IdsOk, PoolOk, HeldOk;
    ExtendedCounts(s, v);
    ExtendedIds(s, v);
    ExtendedPool(s, v);
    ExtendedHeld(s, v);
  }

  lemma ExtendedCounts(s: State, v: Value)
    requires Inv(s) && Tabled(v) && v !in s.ids && s.pool == []
    ensures CountsOk(AfterExtend(s, v))
  {
  }

  lemma ExtendedIds(s: State, v: Value)
    requires Inv(s) && Tabled(v) && v !in s.ids && s.pool == []
    ensures IdsOk(AfterExtend(s, v))
  {
  }

  lemma ExtendedPool(s: State, v: Value)
    requires Inv(s) && Tabled(v) && v !in s.ids && s.pool == []
    ensures PoolOk(AfterExtend(s, v))
  {
  }

  lemma ExtendedHeld(s: State, v: Value)
    requires Inv(s) && Tabled(v) && v !in s.ids && s.pool == []
    ensures HeldOk(AfterExtend(s, v))
  {
  }

  /** One more reference to a value already in the tables. */
  lemma Referenced(s: State, v: Value)
    requires Inv(s) && v in s.ids
    ensures s.ids[v] < |s.counts| && Inv(AfterReference(s, v))
  {
    assert s.ids[v] < |s.counts|;
    hide CountsOk, IdsOk, PoolOk, HeldOk;
    ReferencedCounts(s, v);
    ReferencedIds(s, v);
    ReferencedPool(s, v);
    ReferencedHeld(s, v);
  }

  lemma ReferencedCounts(s: State, v: Value)
    requires Inv(s) && v in s.ids && s.ids[v] < |s.counts|
    ensures CountsOk(AfterReference(s, v))
  {
  }

  lemma ReferencedIds(s: State, v: Value)
    requires Inv(s) && v in s.ids && s.ids[v] < |s.counts|
    ensures IdsOk(AfterReference(s, v))
  {
  }

  lemma ReferencedPool(s: State, v: Value)
    requires Inv(s) && v in s.ids && s.ids[v] < |s.counts|
    ensures PoolOk(AfterReference(s, v))
  {
  }

  lemma ReferencedHeld(s: State, v: Value)
    requires Inv(s) && v in s.ids && s.ids[v] < |s.counts|
    ensures HeldOk(AfterReference(s, v))
  {
  }

  /** One reference less; the last one frees the id. */
  lemma Released(s: State, id: nat)
    requires Inv(s) && id < |s.values| && (id, s.values[id]) in s.held
    ensures Releasable(s, id) && Inv(AfterRelease(s, id))
  {
    ReleaseReady(s, id);
    hide CountsOk, IdsOk, PoolOk, HeldOk;
    ReleasedCounts(s, id);
    ReleasedIds(s, id);
    ReleasedPool(s, id);
    ReleasedHeld(s, id);
  }

  lemma ReleaseReady(s: State, id: nat)
    requires Inv(s) && id < |s.values| && (id, s.values[id]) in s.held
    ensures Releasable(s, id)
  {
  }

  predicate Releasable(s: State, id: nat) {
    && id < |s.values| == |s.counts| && (id, s.values[id]) in s.held
    && (s.counts[id].Finite? ==> id >= 7 && s.counts[id].n == s.held[(id, s.values[id])])
  }

  lemma ReleasedCounts(s: State, id: nat)
    requires Inv(s) && Releasable(s, id)
    ensures CountsOk(AfterRelease(s, id))
  {
  }

  lemma ReleasedIds(s: State, id: nat)
    requires Inv(s) && Releasable(s, id)
    ensures IdsOk(AfterRelease(s, id))
  {
    if s.counts[id] == Finite(1) {
      assert Live(s, id);
      FreedIds(s, id);
    }
  }

  lemma FreedIds(s: State, id: nat)
    requires IdsOk(s) && Live(s, id) && s.counts[id] == Finite(1)
    ensures IdsOk(State(s.values[id := Null], s.counts[id := Finite(0)], s.ids - {s.values[id]}, s.pool + [id],
                        s.held - multiset{(id, s.values[id])}))
  {
    var r := State(s.values[id := Null], s.counts[id := Finite(0)], s.ids - {s.values[id]}, s.pool + [id],
                   s.held - multiset{(id, s.values[id])});
    forall v | v in r.ids
      ensures Tabled(v) && (1 <= r.ids[v] < 7 || Live(r, r.ids[v])) && r.values[r.ids[v]] == v
    {
      FreedValue(s, id, v);
    }
    forall i: nat | Live(r, i)
      ensures r.values[i] in r.ids && r.ids[r.values[i]] == i
    {
      FreedOther(s, id, i);
    }
    forall v | v in PRESET_IDS
      ensures v in r.ids && r.ids[v] == PRESET_IDS[v]
    {
      FreedPreset(s, id, v);
    }
  }

  /** Freeing an id leaves the entry of any other value alone. */
  lemma FreedValue(s: State, id: nat, v: Value)
    requires IdsOk(s) && Live(s, id) && v in s.ids && v != s.values[id]
    ensures s.ids[v] != id && Tabled(v) && s.ids[v] < |s.values| && s.values[s.ids[v]] == v
    ensures 1 <= s.ids[v] < 7 || Live(s, s.ids[v])
  {
  }

  lemma FreedOther(s: State, id: nat, i: nat)
    requires IdsOk(s) && Live(s, id) && Live(s, i) && i != id
    ensures s.values[i] in s.ids && s.ids[s.values[i]] == i && s.values[i] != s.values[id]
  {
  }

  lemma FreedPreset(s: State, id: nat, v: Value)
    requires IdsOk(s) && Live(s, id) && v in PRESET_IDS
    ensures v in s.ids && s.ids[v] == PRESET_IDS[v] && v != s.values[id]
  {
    assert s.ids[s.values[id]] == id;
  }

  lemma ReleasedPool(s: State, id: nat)
    requires Inv(s) && Releasable(s, id)
    ensures PoolOk(AfterRelease(s, id))
  {
    hide IdsOk, HeldOk;
  }

  lemma ReleasedHeld(s: State, id: nat)
    requires Inv(s) && Releasable(s, id)
    ensures HeldOk(AfterRelease(s, id))
  {
  }

  // ------------------------------------------------------------------- histories

  datatype Op = Store(v: Value) | Finalize(id: nat)

  /** Any value may be stored; only a held reference may be released. */
  predicate Legal(s: State, op: Op) {
    match op
    case Store(v) => Proper(v)
    case Finalize(id) => id < |s.values| && (id, s.values[id]) in s.held
  }

  function Apply(s: State, op: Op): State {
    match op
    case Store(v) =>
      if !Tabled(v) then s
      else if v in s.ids then (if s.ids[v] < |s.counts| then AfterReference(s, v) else s)
      else if s.pool == [] then AfterExtend(s, v)
      else if s.pool[|s.pool| - 1] < |s.values| == |s.counts| then AfterRecycle(s, v) else s
    case Finalize(id) => if Releasable(s, id) then AfterRelease(s, id) else s
  }

  predicate Happens(ops: seq<Op>) {
    ops == [] || (Happens(ops[..|ops| - 1]) && Legal(Run(ops[..|ops| - 1]), ops[|ops| - 1]))
  }

  function Run(ops: seq<Op>): State {
    if ops == [] then INITIAL else Apply(Run(ops[..|ops| - 1]), ops[|ops| - 1])
  }

  lemma ApplyKeeps(s: State, op: Op)
    requires Inv(s) && Legal(s, op)
    ensures Inv(Apply(s, op))
  {
    hide CountsOk, IdsOk, PoolOk, HeldOk;
    match op
    case Store(v) =>
      if Tabled(v) {
        if v in s.ids {
          Referenced(s, v);
        } else if s.pool == [] {
          Extended(s, v);
        } else {
          Recycled(s, v);
        }
      }
    case Finalize(id) => Released(s, id);
  }

  /** After every history a held reference loads the value it was made for, every finite
      count is the number of references held, ids and values are inverse on live ids, and the
      pool holds each free id once. */
  lemma {:induction false} Always(ops: seq<Op>)
    requires Happens(ops)
    ensures Inv(Run(ops))
  {
    if ops == [] {
      InitialInv();
    } else {
      Always(ops[..|ops| - 1]);
      ApplyKeeps(Run(ops[..|ops| - 1]), ops[|ops| - 1]);
    }
  }

  /** Two live ids never share a value, and no live id is free to be handed out again. */
  lemma LiveIdsDistinct(ops: seq<Op>, i: nat, j: nat)
    requires Happens(ops) && Live(Run(ops), i) && Live(Run(ops), j)
    ensures |Run(ops).values| == |Run(ops).counts|
    ensures Run(ops).values[i] == Run(ops).values[j] ==> i == j
    ensures forall k :: 0 <= k < |Run(ops).pool| ==> Run(ops).pool[k] != i
  {
    Always(ops);
  }

  const INITIAL: State := State(PRESET, PRESET_COUNTS, PRESET_IDS, [], multiset{})

  lemma InitialInv()
    ensures Inv(INITIAL)
  {
    assert INITIAL.values[..7] == PRESET;
    forall v | v in PRESET_IDS
      ensures Tabled(v) && 1 <= PRESET_IDS[v] < 7 && PRESET[PRESET_IDS[v]] == v
    {
    }
  }

  lemma PresetNaN(s: State)
    requires Inv(s)
    ensures |s.values| >= 7 && s.values[0] == NaN
  {
    assert s.values[..7][0] == NaN;
  }

  lemma TablesEven(s: State)
    requires Inv(s)
    ensures |s.values| == |s.counts|
  {
  }

  lemma StillHeld(s: State)
    requires Inv(s)
    ensures forall i: nat, w :: (i, w) in s.held ==> i < |s.values| && s.values[i] == w
  {
  }

  lemma Stored(s: State, v: Value)
    requires Inv(s) && v in s.ids
    ensures s.ids[v] < |s.values| && s.values[s.ids[v]] == v
  {
  }

  lemma Untabled(s: State, v: Value)
    ensures !Tabled(v) ==> Apply(s, Store(v)) == s
  {
  }

  lemma Narrow(id: nat, length: nat)
    requires id < length
    ensures length <= TWO_32 ==> id % TWO_32 == id
  {
  }

  // ------------------------------------------------------------- the types Go sees

  datatype Type = TUndefined | TNull | TBoolean | TNumber | TObject | TString | TSymbol | TFunction

  /** What kind of value it is in JavaScript. */
  function TypeOf(v: Value): Type {
    match v
    case Undefined => TUndefined
    case Null => TNull
    case Bool(_) => TBoolean
    case NaN => TNumber
    case Zero => TNumber
    case NonZero(_) => TNumber
    case Object(_) => TObject
    case Str(_) => TString
    case Symbol(_) => TSymbol
    case Function(_) => TFunction
  }

  /** Value.Type in syscall/js: some cells are predefined, the others are told by being a float or by
      their flag. */
  function GoType(c: Cell): Option<Type> {
    match c
    case Float(x) => Some(if x == 0.0 then TUndefined else TNumber)
    case Box(id, flag) =>
      if flag == 0 then
        if id == 2 then Some(TNull)
        else if id == 3 || id == 4 then Some(TBoolean)
        else if id == 0 || id == 1 then Some(TNumber) else None
      else if flag == 1 then Some(TObject)
      else if flag == 2 then Some(TString)
      else if flag == 3 then Some(TSymbol)
      else if flag == 4 then Some(TFunction) else None
  }

  /** The id and the flag together tell Go the type of the value. */
  lemma TypeKept(s: State, v: Value)
    requires Inv(s) && v in s.ids
    ensures GoType(Box(s.ids[v], TypeFlag(v))) == Some(TypeOf(v))
  {
    assert v.Zero? ==> PRESET_IDS[v] == 1;
    assert v.Null? ==> PRESET_IDS[v] == 2;
    assert v == Bool(true) ==> PRESET_IDS[v] == 3;
    assert v == Bool(false) ==> PRESET_IDS[v] == 4;
    assert Tabled(v);
  }

  class Table {
    var values: seq<Value>
    var counts: seq<Count>
    var ids: map<Value, nat>
    var pool: seq<nat>
    ghost var held: multiset<(nat, Value)>

    ghost function Now(): State
      reads this
    {
      State(values, counts, ids, pool, held)
    }

    constructor ()
      ensures Now() == INITIAL && Inv(Now())
    {
      values := PRESET;
      counts := PRESET_COUNTS;
      ids := PRESET_IDS;
      pool, held := [], multiset{};
      InitialInv();
    }

    function LoadValue(c: Cell): Value
      requires c.Box? ==> c.id < |values|
      reads this
    {
      match c
      case Float(x) => if x == 0.0 then Undefined else NonZero(x)
      case Box(id, _) => values[id]
    }

    /** storeValue: the cell written for v. */
    method StoreValue(v: Value) returns (c: Cell)
      requires Inv(Now()) && Proper(v)
      modifies this
      ensures Inv(Now()) && Now() == Apply(old(Now()), Store(v))
      ensures Tabled(v) ==> v in ids && c == Box(ids[v] % TWO_32, TypeFlag(v))
      ensures Tabled(v) ==> held == old(held) + multiset{(ids[v], v)}
      ensures |values| <= TWO_32 ==> (c.Box? ==> c.id < |values|) && LoadValue(c) == v
      ensures |values| <= TWO_32 ==> GoType(c) == Some(TypeOf(v))
      ensures forall i: nat, w :: (i, w) in old(held) ==> i < |values| && values[i] == w
    {
      StillHeld(Now());
      Untabled(Now(), v);
      hide Inv, Apply, CountsOk, IdsOk, PoolOk, HeldOk;
      if v.NaN? {
        PresetNaN(Now());
        return Box(0, 0);
      }
      if v.NonZero? {
        return Float(v.number);
      }
      if v.Undefined? {
        return Float(0.0);
      }
      if v !in ids {
        Insert(v);
      } else {
        AddReference(v);
      }
      StillHeld(Now());
      Stored(Now(), v);
      Narrow(ids[v], |values|);
      TypeKept(Now(), v);
      return Box(ids[v] % TWO_32, TypeFlag(v));
    }

    /** A value not in the tables yet: take a free id, or a new one. */
    method Insert(v: Value)
      requires Inv(Now()) && Tabled(v) && v !in ids
      modifies this
      ensures Inv(Now()) && v in ids && held == old(held) + multiset{(ids[v], v)}
      ensures Now() == Apply(old(Now()), Store(v))
    {
      hide CountsOk, IdsOk, PoolOk, HeldOk;
      ghost var before := Now();
      var id;
      if |pool| > 0 {
        Recycled(before, v);
        id := pool[|pool| - 1];
        pool := pool[..|pool| - 1];
        values, counts := values[id := v], counts[id := Finite(0)];
      } else {
        Extended(before, v);
        TablesEven(before);
        id := |values|;
        values, counts := values + [v], counts + [Finite(0)];
      }
      ids := ids[v := id];
      counts := counts[id := Finite(counts[id].n + 1)];
      held := held + multiset{(id, v)};
      assert Now() == if before.pool != [] then AfterRecycle(before, v) else AfterExtend(before, v);
    }

    method AddReference(v: Value)
      requires Inv(Now()) && Tabled(v) && v in ids
      modifies this
      ensures Now() == Apply(old(Now()), Store(v))
      ensures Inv(Now()) && ids == old(ids) && held == old(held) + multiset{(ids[v], v)}
    {
      hide CountsOk, IdsOk, PoolOk, HeldOk;
      ghost var before := Now();
      Referenced(before, v);
      var id := ids[v];
      if counts[id].Finite? {
        counts := counts[id := Finite(counts[id].n + 1)];
      }
      held := held + multiset{(id, v)};
      assert Now() == AfterReference(before, v);
    }

    /** finalizeRef: give one held reference back. */
    method FinalizeRef(id: nat)
      requires Inv(Now()) && id < |values| && (id, values[id]) in held
      modifies this
      ensures Now() == Apply(old(Now()), Finalize(id))
      ensures Inv(Now()) && held == old(held) - multiset{(id, old(values)[id])}
      ensures |values| == |old(values)|
      ensures forall i: nat, w :: (i, w) in held ==> i < |values| && values[i] == w == old(values)[i]
    {
      hide CountsOk, IdsOk, PoolOk, HeldOk;
      ghost var before := Now();
      Released(before, id);
      StillHeld(before);
      ghost var v0 := values[id];
      if counts[id].Finite? {
        counts := counts[id := Finite(counts[id].n - 1)];
      }
      if counts[id] == Finite(0) {
        var v := values[id];
        values := values[id := Null];
        ids := ids - {v};
        pool := pool + [id];
      }
      held := held - multiset{(id, v0)};
      assert Now() == AfterRelease(before, id);
      StillHeld(Now());
    }
  }
}
