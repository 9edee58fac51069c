/** The reference table of the Go/JS bridge as a value, and every run of it. */
module ReferenceTable {
  import opened MachineWords

  /** A JavaScript value. A number is its IEEE 754 binary64 pattern in two 32-bit halves;
      all NaN patterns are the one value NotANumber. Objects, symbols and functions are
      known by identity. */
  datatype JsValue =
    | Undefined
    | Null
    | Boolean(b: bool)
    | NotANumber
    | Number(hi: uint32, lo: uint32)
    | BigInt(n: int)
    | Text(units: seq<uint32>)
    | Object(id: nat)
    | Symbol(id: nat)
    | Function(id: nat)

  /** isNaN on a bit pattern (section 3.4 of IEEE 754-2008): exponent all ones, significand
      not zero. */
  predicate IsNaNWord(hi: uint32, lo: uint32) {
    hi % 0x8000_0000 / 0x10_0000 == 0x7FF && (hi % 0x10_0000 != 0 || lo != 0)
  }

  /** Both +0 and -0 compare equal to 0. */
  predicate IsZeroWord(hi: uint32, lo: uint32) {
    hi % 0x8000_0000 == 0 && lo == 0
  }

  type Value = v: JsValue | v.Number? ==> !IsNaNWord(v.hi, v.lo) witness Undefined

  const ZERO: Value := Number(0, 0)
  const GLOBAL: Value := Object(0)
  const GO: Value := Object(1)

  /** Map keys compare by SameValueZero: -0 and +0 are one key. */
  function Key(v: Value): Value {
    if v.Number? && IsZeroWord(v.hi, v.lo) then ZERO else v
  }

  /** Values that storeValue writes into the word itself. */
  predicate Inline(v: Value) {
    v.Undefined? || v.NotANumber? || (v.Number? && !IsZeroWord(v.hi, v.lo))
  }

  datatype Count = Infinite | Refs(n: nat)

  datatype Table = Table(values: seq<Value>, counts: seq<Count>, ids: map<Value, nat>, pool: seq<nat>)

  const PINNED: seq<Value> := [NotANumber, ZERO, Null, Boolean(true), Boolean(false), GLOBAL, GO]

  const PINNED_KEYS: set<Value> := {ZERO, Null, Boolean(true), Boolean(false), GLOBAL, GO}

  const FRESH_TABLE: Table :=
    Table(PINNED,
          [Infinite, Infinite, Infinite, Infinite, Infinite, Infinite, Infinite],
          map[ZERO := 1, Null := 2, Boolean(true) := 3, Boolean(false) := 4, GLOBAL := 5, GO := 6],
          [])

  // ---------------------------------------------------------------- operations

  function Increment(c: Count): Count {
    match c
    case Infinite => Infinite
    case Refs(n) => Refs(n + 1)
  }

  /** The id under which v will be stored. */
  function IdFor(t: Table, v: Value): nat {
    if Key(v) in t.ids then t.ids[Key(v)]
    else if t.pool != [] then t.pool[|t.pool| - 1]
    else |t.values|
  }

  predicate InRange(t: Table) {
    && |t.counts| == |t.values|
    && (forall v :: v in t.ids ==> t.ids[v] < |t.values|)
    && (forall i :: 0 <= i < |t.pool| ==> t.pool[i] < |t.values|)
  }

  /** The table part of storeValue: find or allocate a slot, then count the reference. */
  function Intern(t: Table, v: Value): Table
    requires InRange(t)
  {
    var id := IdFor(t, v);
    if Key(v) in t.ids then t.(counts := t.counts[id := Increment(t.counts[id])])
    else if t.pool != [] then
      Table(t.values[id := v], t.counts[id := Refs(1)], t.ids[Key(v) := id], t.pool[..|t.pool| - 1])
    else
      Table(t.values + [v], t.counts + [Refs(1)], t.ids[Key(v) := id], t.pool)
  }

  /** finalizeRef on a slot that is referenced. */
  function Release(t: Table, id: nat): Table
    requires InRange(t) && id < |t.values| && t.counts[id] != Refs(0)
  {
    match t.counts[id]
    case Infinite => t
    case Refs(n) =>
      if n == 1 then
        Table(t.values[id := Null], t.counts[id := Refs(0)], t.ids - {Key(t.values[id])}, t.pool + [id])
      else t.(counts := t.counts[id := Refs(n - 1)])
  }

  /** The tag that tells Go what kind of value a boxed word refers to. */
  function TypeFlag(v: Value): nat {
    match v
    case Object(_) => 1
    case Text(_) => 2
    case Symbol(_) => 3
    case Function(_) => 4
    case _ => 0
  }

  /** The word storeValue writes, high half first. */
  function Word(t: Table, v: Value): (uint32, uint32) {
    if v.Undefined? then (0, 0)
    else if v.NotANumber? then (0x7FF8_0000, 0)
    else if v.Number? && !IsZeroWord(v.hi, v.lo) then (v.hi, v.lo)
    else (0x7FF8_0000 + TypeFlag(v), IdFor(t, v) % WORD)
  }

  /** loadValue on a word. */
  function Load(t: Table, hi: uint32, lo: uint32): Value {
    if IsZeroWord(hi, lo) then Undefined
    else if !IsNaNWord(hi, lo) then Number(hi, lo)
    else if lo < |t.values| then t.values[lo]
    else Undefined
  }

  // ---------------------------------------------------------------- runs

  /** A reference handed to Go: the slot and the value it was stored for. */
  datatype Ref = Ref(id: nat, value: Value)

  datatype Op = Store(v: Value) | Finalize(ref: Ref)

  /** The table together with what Go holds, and the most distinct unpinned values that Go
      has held at any one time. */
  datatype World = World(table: Table, refs: multiset<Ref>, peak: nat)

  const START: World := World(FRESH_TABLE, multiset{}, 0)

  ghost function Held(refs: multiset<Ref>): set<Value> {
    set r | r in refs && r.value !in PINNED_KEYS :: r.value
  }

  function Max(a: nat, b: nat): nat {
    if a < b then b else a
  }

  /** A finalizer runs once per reference that Go received, so a Finalize of anything else
      is not a step. */
  ghost function Apply(w: World, op: Op): World
    requires Inv(w)
  {
    match op
    case Store(v) =>
      if Inline(v) then w
      else
        var refs := w.refs + multiset{Ref(IdFor(w.table, v), Key(v))};
        World(Intern(w.table, v), refs, Max(w.peak, |Held(refs)|))
    case Finalize(ref) =>
      if ref !in w.refs then w
      else
        var refs := w.refs - multiset{ref};
        World(Release(w.table, ref.id), refs, Max(w.peak, |Held(refs)|))
  }

  // ---------------------------------------------------------------- invariant

  ghost predicate PinsInPlace(t: Table) {
    && |t.values| >= 7 && |t.counts| == |t.values|
    && (forall i :: 0 <= i < 7 ==> t.values[i] == PINNED[i] && t.counts[i] == Infinite)
    && (forall i :: 1 <= i < 7 ==> PINNED[i] in t.ids && t.ids[PINNED[i]] == i)
  }

  ghost predicate InUse(t: Table, i: int)
    requires |t.counts| == |t.values|
  {
    7 <= i < |t.values| && t.counts[i] != Refs(0)
  }

  /** `ids` inverts `values` on the slots in use, and nothing else is in it. */
  ghost predicate IdsInvert(t: Table)
    requires PinsInPlace(t)
  {
    && (forall v :: v in t.ids && v !in PINNED_KEYS ==> InUse(t, t.ids[v]) && t.values[t.ids[v]] == v)
    && (forall i :: InUse(t, i) ==>
          t.values[i] !in PINNED_KEYS && Key(t.values[i]) == t.values[i]
          && t.values[i] in t.ids && t.ids[t.values[i]] == i)
  }

  /** The free pool lists every freed slot once. */
  ghost predicate PoolExact(t: Table)
    requires PinsInPlace(t)
  {
    && (forall i, j :: 0 <= i < j < |t.pool| ==> t.pool[i] != t.pool[j])
    && (forall k :: 0 <= k < |t.pool| ==> 7 <= t.pool[k] < |t.values| && !InUse(t, t.pool[k]))
    && (forall i :: 7 <= i < |t.values| && !InUse(t, i) ==> i in t.pool)
  }

  /** Every outstanding reference names the slot of its value, and unpinned slots count
      exactly the references to them. */
  ghost predicate RefsCounted(t: Table, refs: multiset<Ref>)
    requires PinsInPlace(t)
  {
    && (forall r :: r in refs ==> r.value in t.ids && t.ids[r.value] == r.id)
    && (forall i :: 7 <= i < |t.values| ==> t.counts[i] == Refs(refs[Ref(i, t.values[i])]))
  }

  /** Held values, free slots and pins fill the table, and it is as long as the peak needs. */
  ghost predicate SpaceExact(w: World) {
    |Held(w.refs)| + |w.table.pool| + 7 == |w.table.values| == 7 + w.peak
  }

  ghost predicate Inv(w: World) {
    && PinsInPlace(w.table) && InRange(w.table)
    && IdsInvert(w.table) && PoolExact(w.table)
    && RefsCounted(w.table, w.refs)
    && SpaceExact(w)
    && forall r :: r in w.refs ==> r.id < |w.table.values| && w.table.counts[r.id] != Refs(0)
  }

  /** What Go holds is what the id map names beyond the pins. */
  lemma HeldInTable(t: Table, refs: multiset<Ref>)
    requires PinsInPlace(t) && InRange(t) && IdsInvert(t) && RefsCounted(t, refs)
    ensures Held(refs) == t.ids.Keys - PINNED_KEYS
  {
    forall v | v in t.ids && v !in PINNED_KEYS ensures v in Held(refs) {
      var r := Ref(t.ids[v], v);
      assert InUse(t, r.id) && t.counts[r.id] == Refs(refs[r]);
      assert r in refs;
    }
  }

  lemma HeldByIds(w: World)
    requires PinsInPlace(w.table) && InRange(w.table) && IdsInvert(w.table) && RefsCounted(w.table, w.refs)
    ensures Held(w.refs) == w.table.ids.Keys - PINNED_KEYS
  {
    HeldInTable(w.table, w.refs);
  }

  /** One more key that may be new, or one key less, among those beyond the pins. */
  lemma StoreHeld(keys: set<Value>, held: set<Value>, held': set<Value>, key: Value)
    requires held == keys - PINNED_KEYS && held' == keys + {key} - PINNED_KEYS
    ensures key in keys ==> held' == held
    ensures key !in keys && key !in PINNED_KEYS ==> |held'| == |held| + 1
  {
    if key in keys {
      assert keys + {key} == keys;
    } else if key !in PINNED_KEYS {
      assert held' == held + {key};
    }
  }

  lemma FinalizeHeld(keys: set<Value>, held: set<Value>, held': set<Value>, key: Value)
    requires held == keys - PINNED_KEYS && held' == keys - {key} - PINNED_KEYS
    requires key in keys && key !in PINNED_KEYS
    ensures |held'| == |held| - 1
  {
    assert held' == held - {key};
  }

  lemma PinsIndexed(t: Table)
    requires PinsInPlace(t)
    ensures forall v :: v in PINNED_KEYS ==> v in t.ids && t.ids[v] < 7 && t.values[t.ids[v]] == v
  {
    assert PINNED[1] == ZERO && PINNED[2] == Null && PINNED[3] == Boolean(true);
    assert PINNED[4] == Boolean(false) && PINNED[5] == GLOBAL && PINNED[6] == GO;
    forall v | v in PINNED_KEYS ensures v in t.ids && t.ids[v] < 7 && t.values[t.ids[v]] == v {
      var i := if v == ZERO then 1 else if v == Null then 2 else if v == Boolean(true) then 3
               else if v == Boolean(false) then 4 else if v == GLOBAL then 5 else 6;
      assert PINNED[i] == v;
    }
  }

  ghost predicate TableOk(t: Table) {
    PinsInPlace(t) && InRange(t) && IdsInvert(t) && PoolExact(t)
  }

  lemma KnownTableOk(t: Table, v: Value)
    requires TableOk(t) && !Inline(v) && Key(v) in t.ids
    requires InUse(t, t.ids[Key(v)]) || t.ids[Key(v)] < 7
    ensures TableOk(Intern(t, v))
  {
    var t' := Intern(t, v);
    assert forall i :: InUse(t', i) <==> InUse(t, i);
  }

  lemma PooledTableOk(t: Table, v: Value)
    requires TableOk(t) && !Inline(v) && Key(v) !in t.ids && t.pool != []
    ensures TableOk(Intern(t, v)) && Key(v) == v && v !in PINNED_KEYS
  {
    PinsIndexed(t);
    var t', id := Intern(t, v), IdFor(t, v);
    assert !InUse(t, id);
    assert forall i :: InUse(t', i) <==> InUse(t, i) || i == id;
    PoolAfterPop(t, v);
    assert IdsInvert(t');
  }

  lemma PoolAfterPop(t: Table, v: Value)
    requires PinsInPlace(t) && InRange(t) && PoolExact(t)
    requires !Inline(v) && Key(v) !in t.ids && t.pool != []
    ensures PinsInPlace(Intern(t, v)) ==> PoolExact(Intern(t, v))
  {
    var t', id, last := Intern(t, v), IdFor(t, v), |t.pool| - 1;
    assert t.pool[last] == id;
    forall i | 7 <= i < |t'.values| && t'.counts[i] == Refs(0) ensures i in t'.pool {
      assert !InUse(t, i) && i in t.pool;
      var k :| 0 <= k < |t.pool| && t.pool[k] == i;
      assert t'.pool[k] == i;
    }
  }

  lemma FreshTableOk(t: Table, v: Value)
    requires TableOk(t) && !Inline(v) && Key(v) !in t.ids && t.pool == []
    ensures TableOk(Intern(t, v)) && Key(v) == v && v !in PINNED_KEYS
  {
    PinsIndexed(t);
    var t', id := Intern(t, v), IdFor(t, v);
    assert forall i :: InUse(t', i) <==> InUse(t, i) || i == id;
    assert IdsInvert(t');
  }

  lemma LastReleaseTableOk(t: Table, id: nat)
    requires TableOk(t) && 7 <= id < |t.values| && t.counts[id] == Refs(1)
    ensures TableOk(Release(t, id))
  {
    PinsIndexed(t);
    var t' := Release(t, id);
    assert InUse(t, id);
    assert forall i :: InUse(t', i) <==> InUse(t, i) && i != id;
    PoolAfterPush(t, t', id);
    assert IdsInvert(t');
  }

  lemma PoolAfterPush(t: Table, t': Table, id: nat)
    requires PinsInPlace(t) && PinsInPlace(t') && PoolExact(t) && InUse(t, id)
    requires |t'.values| == |t.values| && t'.pool == t.pool + [id]
    requires forall i :: InUse(t', i) <==> InUse(t, i) && i != id
    ensures PoolExact(t')
  {
    forall i | 7 <= i < |t'.values| && !InUse(t', i) ensures i in t'.pool {
      if i == id {
        assert t'.pool[|t.pool|] == i;
      } else {
        assert !InUse(t, i) && i in t.pool;
      }
    }
  }

  lemma ReleaseTableOk(t: Table, id: nat, n: nat)
    requires TableOk(t) && 7 <= id < |t.values| && n > 1 && t.counts[id] == Refs(n)
    ensures TableOk(Release(t, id))
  {
    assert forall i :: InUse(Release(t, id), i) <==> InUse(t, i);
  }

  lemma KnownCounted(t: Table, refs: multiset<Ref>, v: Value)
    requires TableOk(t) && RefsCounted(t, refs) && Key(v) in t.ids
    requires TableOk(Intern(t, v))
    ensures RefsCounted(Intern(t, v), refs + multiset{Ref(IdFor(t, v), Key(v))})
  {
    var id, t', refs' := IdFor(t, v), Intern(t, v), refs + multiset{Ref(IdFor(t, v), Key(v))};
    PinsIndexed(t);
    forall i | 7 <= i < |t'.values| ensures t'.counts[i] == Refs(refs'[Ref(i, t'.values[i])]) {
      assert t.counts[i] == Refs(refs[Ref(i, t.values[i])]);
    }
  }

  lemma NewCounted(t: Table, refs: multiset<Ref>, v: Value)
    requires TableOk(t) && RefsCounted(t, refs) && Key(v) !in t.ids && Key(v) == v
    requires TableOk(Intern(t, v))
    ensures RefsCounted(Intern(t, v), refs + multiset{Ref(IdFor(t, v), v)})
  {
    var id, t', refs' := IdFor(t, v), Intern(t, v), refs + multiset{Ref(IdFor(t, v), v)};
    assert Ref(id, v) !in refs;
    forall i | 7 <= i < |t'.values| ensures t'.counts[i] == Refs(refs'[Ref(i, t'.values[i])]) {
      if i != id {
        assert t.counts[i] == Refs(refs[Ref(i, t.values[i])]);
      }
    }
  }

  lemma ReleaseCounted(t: Table, refs: multiset<Ref>, ref: Ref)
    requires TableOk(t) && RefsCounted(t, refs) && ref in refs && 7 <= ref.id
    ensures ref.id < |t.values| && t.counts[ref.id] == Refs(refs[ref]) && t.values[ref.id] == ref.value
    ensures TableOk(Release(t, ref.id)) ==> RefsCounted(Release(t, ref.id), refs - multiset{ref})
  {
    PinsIndexed(t);
    var id := ref.id;
    assert t.values[id] == ref.value;
    assert t.counts[id] == Refs(refs[Ref(id, t.values[id])]);
    var t', refs' := Release(t, id), refs - multiset{ref};
    assert t.ids[Null] == 2 by { assert PINNED[2] == Null; }
    forall i | 7 <= i < |t'.values| ensures t'.counts[i] == Refs(refs'[Ref(i, t'.values[i])]) {
      assert t.counts[i] == Refs(refs[Ref(i, t.values[i])]);
      if i == id && refs[ref] == 1 {
        assert Ref(id, Null) !in refs;
      }
    }
    if TableOk(t') {
      forall r | r in refs' ensures r.value in t'.ids && t'.ids[r.value] == r.id {
        assert r in refs;
      }
    }
  }

  lemma RefsInUse(t: Table, refs: multiset<Ref>)
    requires TableOk(t) && RefsCounted(t, refs)
    ensures forall r :: r in refs ==> r.id < |t.values| && t.counts[r.id] != Refs(0)
  {
    PinsIndexed(t);
  }

  /** What storing a value that needs a slot does to the table and the references. */
  lemma StoreTable(w: World, v: Value)
    requires Inv(w) && !Inline(v)
    ensures var t, t' := w.table, Intern(w.table, v);
            && TableOk(t') && RefsCounted(t', w.refs + multiset{Ref(IdFor(t, v), Key(v))})
            && t'.ids.Keys == t.ids.Keys + {Key(v)}
            && if Key(v) in t.ids then |t'.values| == |t.values| && t'.pool == t.pool
               else Key(v) !in PINNED_KEYS
                    && |t'.values| - |t'.pool| == |t.values| - |t.pool| + 1
                    && (if t.pool == [] then t'.pool == [] else |t'.values| == |t.values|)
  {
    var t := w.table;
    PinsIndexed(t);
    if Key(v) in t.ids {
      KnownTableOk(t, v);
      KnownCounted(t, w.refs, v);
    } else {
      if t.pool == [] { FreshTableOk(t, v); } else { PooledTableOk(t, v); }
      NewCounted(t, w.refs, v);
    }
  }

  lemma StoreKeepsInv(w: World, v: Value)
    requires Inv(w)
    ensures Inv(Apply(w, Store(v)))
  {
    if !Inline(v) {
      var w' := Apply(w, Store(v));
      StoreTable(w, v);
      RefsInUse(w'.table, w'.refs);
      StoreSpace(w, v);
    }
  }

  lemma StoreSpace(w: World, v: Value)
    requires Inv(w) && !Inline(v)
    ensures SpaceExact(Apply(w, Store(v)))
  {
    var refs' := w.refs + multiset{Ref(IdFor(w.table, v), Key(v))};
    StoreTable(w, v);
    HeldByIds(w);
    HeldInTable(Intern(w.table, v), refs');
    StoreHeld(w.table.ids.Keys, Held(w.refs), Held(refs'), Key(v));
  }

  lemma FinalizePinCounted(t: Table, refs: multiset<Ref>, ref: Ref)
    requires TableOk(t) && RefsCounted(t, refs) && ref in refs && ref.id < 7
    ensures ref.value in PINNED_KEYS && t.counts[ref.id] == Infinite
    ensures RefsCounted(t, refs - multiset{ref})
  {
    assert t.ids[ref.value] == ref.id;
    forall i | 7 <= i < |t.values|
      ensures t.counts[i] == Refs((refs - multiset{ref})[Ref(i, t.values[i])])
    {
      assert t.counts[i] == Refs(refs[Ref(i, t.values[i])]);
    }
  }

  lemma FinalizePinKeepsInv(w: World, ref: Ref)
    requires Inv(w) && ref in w.refs && ref.id < 7
    ensures Inv(Apply(w, Finalize(ref)))
  {
    var w' := Apply(w, Finalize(ref));
    FinalizePinCounted(w.table, w.refs, ref);
    RefsInUse(w'.table, w'.refs);
    HeldByIds(w);
    HeldByIds(w');
  }

  /** What the last, or not the last, finalizer of an unpinned reference does to the table. */
  lemma FinalizeTable(w: World, ref: Ref)
    requires Inv(w) && ref in w.refs && ref.id >= 7
    ensures var t, t' := w.table, Release(w.table, ref.id);
            && TableOk(t') && RefsCounted(t', w.refs - multiset{ref})
            && |t'.values| == |t.values|
            && if w.refs[ref] == 1
               then t'.ids.Keys == t.ids.Keys - {ref.value} && |t'.pool| == |t.pool| + 1
               else t'.ids == t.ids && t'.pool == t.pool
  {
    ReleaseCounted(w.table, w.refs, ref);
    assert InUse(w.table, ref.id);
    if w.refs[ref] == 1 {
      LastReleaseTableOk(w.table, ref.id);
    } else {
      ReleaseTableOk(w.table, ref.id, w.refs[ref]);
    }
  }

  /** Held values, pool and peak after the finalizer of an unpinned reference. */
  lemma FinalizeSpace(w: World, ref: Ref)
    requires Inv(w) && ref in w.refs && ref.id >= 7
    ensures SpaceExact(Apply(w, Finalize(ref)))
  {
    FinalizeTable(w, ref);
    FinalizeHeldCount(w, ref);
  }

  lemma FinalizeHeldCount(w: World, ref: Ref)
    requires Inv(w) && ref in w.refs && ref.id >= 7
    ensures |Held(w.refs - multiset{ref})| == if w.refs[ref] == 1 then |Held(w.refs)| - 1 else |Held(w.refs)|
  {
    var t', refs' := Release(w.table, ref.id), w.refs - multiset{ref};
    FinalizeTable(w, ref);
    HeldByIds(w);
    HeldInTable(t', refs');
    assert ref.value in w.table.ids && ref.value !in PINNED_KEYS by {
      PinsIndexed(w.table);
    }
    if w.refs[ref] == 1 {
      FinalizeHeld(w.table.ids.Keys, Held(w.refs), Held(refs'), ref.value);
    }
  }

  lemma FinalizeKeepsInv(w: World, ref: Ref)
    requires Inv(w)
    ensures Inv(Apply(w, Finalize(ref)))
  {
    if ref in w.refs {
      if ref.id < 7 {
        FinalizePinKeepsInv(w, ref);
      } else {
        var w' := Apply(w, Finalize(ref));
        FinalizeTable(w, ref);
        FinalizeSpace(w, ref);
        RefsInUse(w'.table, w'.refs);
      }
    }
  }

  // ---------------------------------------------------------------- theorems

  ghost function Run(w: World, ops: seq<Op>): (w': World)
    requires Inv(w)
    ensures Inv(w')
    decreases |ops|
  {
    if ops == [] then w
    else
      assert Inv(Apply(w, ops[0])) by { ApplyKeepsInv(w, ops[0]); }
      Run(Apply(w, ops[0]), ops[1..])
  }

  lemma ApplyKeepsInv(w: World, op: Op)
    requires Inv(w)
    ensures Inv(Apply(w, op))
  {
    match op {
      case Store(v) => StoreKeepsInv(w, v);
      case Finalize(ref) => FinalizeKeepsInv(w, ref);
    }
  }

  lemma StartInv()
    ensures Inv(START)
  {
    assert Held(multiset{}) == {};
    assert PinsInPlace(FRESH_TABLE) by {
      assert PINNED[1] == ZERO && PINNED[2] == Null && PINNED[3] == Boolean(true);
      assert PINNED[4] == Boolean(false) && PINNED[5] == GLOBAL && PINNED[6] == GO;
    }
  }

  /** Boxed words are NaN patterns with the id in the low half. */
  lemma BoxedIsNaN(t: Table, v: Value)
    requires !Inline(v)
    ensures IsNaNWord(Word(t, v).0, Word(t, v).1) && !IsZeroWord(Word(t, v).0, Word(t, v).1)
    ensures Word(t, v).1 == IdFor(t, v) % WORD
  {
    var hi := 0x7FF8_0000 + TypeFlag(v);
    assert hi % 0x8000_0000 == hi;
    assert hi % 0x10_0000 == 0x8_0000 + TypeFlag(v);
  }

  /** No dangling references: an outstanding reference names an allocated slot that holds the
      value it was stored for. */
  lemma OutstandingLoads(w: World, ref: Ref)
    requires Inv(w) && ref in w.refs
    ensures ref.id < |w.table.values| && w.table.values[ref.id] == ref.value
  {
    PinsIndexed(w.table);
    assert w.table.ids[ref.value] == ref.id;
  }

  lemma InlineLoads(t: Table, v: Value, now: Table)
    requires Inline(v) && |t.values| >= 1 && t.values[0] == NotANumber
    ensures Load(t, Word(now, v).0, Word(now, v).1) == v == Key(v)
  {
  }

  lemma BoxedLoads(t: Table, v: Value, now: Table)
    requires !Inline(v) && IdFor(now, v) < WORD && IdFor(now, v) < |t.values|
    ensures Load(t, Word(now, v).0, Word(now, v).1) == t.values[IdFor(now, v)]
  {
    BoxedIsNaN(now, v);
  }

  /** A word written for v loads v for as long as it is not finalized, whatever Go stores and
      finalizes meanwhile; -0 comes back as +0, and inline values need no table at all. */
  lemma WordLoadsItsValue(w: World, v: Value, later: World)
    requires Inv(w) && Inv(later) && IdFor(w.table, v) < WORD
    requires Inline(v) || Ref(IdFor(w.table, v), Key(v)) in later.refs
    ensures Load(later.table, Word(w.table, v).0, Word(w.table, v).1) == Key(v)
  {
    if Inline(v) {
      assert later.table.values[0] == NotANumber by { assert PINNED[0] == NotANumber; }
      InlineLoads(later.table, v, w.table);
    } else {
      OutstandingLoads(later, Ref(IdFor(w.table, v), Key(v)));
      BoxedLoads(later.table, v, w.table);
    }
  }

  ghost function Reached(ops: seq<Op>): (w: World)
    ensures Inv(w)
  {
    StartInv();
    Run(START, ops)
  }

  /** Over every run: outstanding references load their values, unpinned slots count exactly
      the references to them, and the table is seven slots plus the peak number of distinct
      unpinned values held at once, all of them held, pooled or pinned. */
  lemma EveryRunIsSafeAndTight(ops: seq<Op>)
    ensures var w := Reached(ops);
            && (forall r :: r in w.refs ==>
                  r.id < |w.table.values| && w.table.values[r.id] == r.value)
            && (forall i :: 7 <= i < |w.table.values| ==>
                  w.table.counts[i] == Refs(w.refs[Ref(i, w.table.values[i])]))
            && |w.table.values| == 7 + w.peak == 7 + |Held(w.refs)| + |w.table.pool|
  {
    var w := Reached(ops);
    forall r | r in w.refs
      ensures r.id < |w.table.values| && w.table.values[r.id] == r.value
    {
      OutstandingLoads(w, r);
    }
  }

  // ---------------------------------------------------------------- what Go relies on

  /** The word for every kind of value: numbers other than zero are themselves, undefined is
      zero, and everything else is a NaN whose lowest bits tell Go the kind, with the id. */
  lemma WordsByKind(t: Table, v: Value)
    ensures var (hi, lo) := Word(t, v);
            match v
            case Undefined => hi == 0 && lo == 0
            case NotANumber => hi == 0x7FF8_0000 && lo == 0
            case Number(h, l) =>
              if (h == 0 || h == 0x8000_0000) && l == 0 then hi == 0x7FF8_0000 && lo == IdFor(t, v) % WORD
              else hi == h && lo == l
            case Object(_) => hi == 0x7FF8_0001 && lo == IdFor(t, v) % WORD
            case Text(_) => hi == 0x7FF8_0002 && lo == IdFor(t, v) % WORD
            case Symbol(_) => hi == 0x7FF8_0003 && lo == IdFor(t, v) % WORD
            case Function(_) => hi == 0x7FF8_0004 && lo == IdFor(t, v) % WORD
            case _ => hi == 0x7FF8_0000 && lo == IdFor(t, v) % WORD
  {
  }

  /** A word is a NaN exactly if, its sign apart, it lies above the pattern of infinity. */
  lemma NaNAboveInfinity(hi: uint32, lo: uint32)
    ensures IsNaNWord(hi, lo) <==>
              var magnitude := (if hi < 0x8000_0000 then hi else hi - 0x8000_0000) * WORD + lo;
              magnitude > 0x7FF0_0000 * WORD
  {
  }

  /** Whatever has been stored and finalized, the ids that Go has compiled in name the same
      values. */
  lemma PinsKeepTheirIds(w: World)
    requires Inv(w)
    ensures Load(w.table, 0x7FF8_0000, 0) == NotANumber && Load(w.table, 0x7FF8_0000, 1) == Number(0, 0)
    ensures Load(w.table, 0x7FF8_0000, 2) == Null
    ensures Load(w.table, 0x7FF8_0000, 3) == Boolean(true) && Load(w.table, 0x7FF8_0000, 4) == Boolean(false)
    ensures Load(w.table, 0x7FF8_0000, 5) == Object(0) && Load(w.table, 0x7FF8_0000, 6) == Object(1)
    ensures IdFor(w.table, Number(0, 0)) == 1 && IdFor(w.table, Number(0x8000_0000, 0)) == 1
    ensures IdFor(w.table, Null) == 2 && IdFor(w.table, Boolean(true)) == 3 && IdFor(w.table, Boolean(false)) == 4
    ensures IdFor(w.table, Object(0)) == 5 && IdFor(w.table, Object(1)) == 6
  {
    assert forall i :: 1 <= i < 7 ==> PINNED[i] in w.table.ids && w.table.ids[PINNED[i]] == i;
    assert forall i :: 0 <= i < 7 ==> w.table.values[i] == PINNED[i];
  }

  /** With the last reference to an unpinned value its slot is cleared, the value is forgotten,
      and the next new value gets that very slot. */
  lemma LastFinalizeFrees(w: World, ref: Ref, v: Value)
    requires Inv(w) && w.refs[ref] == 1 && ref.id >= 7
    ensures var t := Apply(w, Finalize(ref)).table;
            && ref.value !in t.ids
            && (ref.id < WORD ==> Load(t, 0x7FF8_0000, ref.id) == Null)
            && (Key(v) !in t.ids ==> IdFor(t, v) == ref.id)
  {
    var t := w.table;
    assert ref in w.refs && t.ids[ref.value] == ref.id;
    if ref.value in PINNED_KEYS {
      PinsIndexed(t);
    }
    assert t.values[ref.id] == ref.value && t.counts[ref.id] == Refs(1);
  }

  /** A key is the value itself, except that minus zero has the key of zero. */
  lemma KeyIsValue(v: Value)
    ensures Key(v) == if v == Number(0x8000_0000, 0) then Number(0, 0) else v
  {
  }

  /** A word that is zero, with either sign, is undefined; another that is no NaN is itself; a
      NaN is looked up in the table. */
  lemma WordsLoadByKind(t: Table, hi: uint32, lo: uint32)
    ensures lo == 0 && (hi == 0 || hi == 0x8000_0000) ==> Load(t, hi, lo) == Undefined
    ensures !(lo == 0 && (hi == 0 || hi == 0x8000_0000)) && !IsNaNWord(hi, lo) ==>
              Load(t, hi, lo) == Number(hi, lo)
    ensures IsNaNWord(hi, lo) ==> Load(t, hi, lo) == if lo < |t.values| then t.values[lo] else Undefined
  {
  }
}
