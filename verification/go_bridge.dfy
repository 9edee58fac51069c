/** The Go class of go-wasm.js: linear memory, the reference table, and starting a program. */
module GoBridge {
  import opened GoStrings
  import opened MachineWords
  import opened LinearMemory
  import opened ReferenceTable
  import opened ArgumentLayout

  class Go {
    const mem: array<byte>
    var values: seq<Value>
    var goRefCounts: seq<Count>
    var ids: map<Value, nat>
    var idPool: seq<nat>
    ghost var world: World

    ghost function View(): Table
      reads this
    {
      Table(values, goRefCounts, ids, idPool)
    }

    ghost predicate Valid()
      reads this
    {
      world.table == View() && Inv(world)
    }

    /** run() up to the point where the table is set up. */
    constructor (mem: array<byte>)
      ensures Valid() && world == START && this.mem == mem
    {
      this.mem := mem;
      values := PINNED;
      goRefCounts := seq(7, _ => Infinite);
      ids := map[ZERO := 1, Null := 2, Boolean(true) := 3, Boolean(false) := 4, GLOBAL := 5, GO := 6];
      idPool := [];
      world := START;
      StartInv();
    }

    method SetUint32(addr: nat, v: uint32)
      requires addr + 4 <= mem.Length
      modifies mem
      ensures mem[..] == Put(old(mem[..]), addr, U32Bytes(v))
    {
      mem[addr] := v % 0x100;
      mem[addr + 1] := v / 0x100 % 0x100;
      mem[addr + 2] := v / 0x1_0000 % 0x100;
      mem[addr + 3] := v / 0x100_0000;
    }

    /** Both halves of a 64-bit word, high half first as in storeValue. */
    method SetWord(addr: nat, hi: uint32, lo: uint32)
      requires addr + 8 <= mem.Length
      modifies mem
      ensures mem[..] == Put(old(mem[..]), addr, U32Bytes(lo) + U32Bytes(hi))
      ensures GetU32(mem[..], addr + 4) == hi && GetU32(mem[..], addr) == lo
    {
      ghost var m := mem[..];
      SetUint32(addr + 4, hi);
      SetUint32(addr, lo);
      WordWritten(m, addr, hi, lo);
    }

    method LoadValue(addr: nat) returns (v: Value)
      requires addr + 8 <= mem.Length
      ensures v == Load(View(), GetU32(mem[..], addr + 4), GetU32(mem[..], addr))
    {
      var hi, lo := GetU32(mem[..], addr + 4), GetU32(mem[..], addr);
      if IsZeroWord(hi, lo) {
        return Undefined;
      }
      if !IsNaNWord(hi, lo) {
        return Number(hi, lo);
      }
      v := if lo < |values| then values[lo] else Undefined;
    }

    /** The slot for v, found or allocated, with one more reference counted. */
    method Reference(v: Value) returns (id: nat)
      requires InRange(View()) && !Inline(v)
      modifies this`values, this`goRefCounts, this`ids, this`idPool
      ensures View() == Intern(old(View()), v) && id == IdFor(old(View()), v)
    {
      var key := Key(v);
      if key in ids {
        id := ids[key];
      } else {
        if |idPool| == 0 {
          id := |values|;
          values, goRefCounts := values + [v], goRefCounts + [Refs(0)];
        } else {
          id := idPool[|idPool| - 1];
          idPool := idPool[..|idPool| - 1];
          values, goRefCounts := values[id := v], goRefCounts[id := Refs(0)];
        }
        ids := ids[key := id];
      }
      goRefCounts := goRefCounts[id := Increment(goRefCounts[id])];
    }

    /** storeValue: afterwards the word at addr loads v, with -0 read as +0. */
    method StoreValue(addr: nat, v: Value)
      requires Valid() && addr + 8 <= mem.Length
      requires Inline(v) || IdFor(View(), v) < WORD
      modifies this, mem
      ensures Valid() && world == ReferenceTable.Apply(old(world), Store(v))
      ensures var word := Word(old(View()), v);
              mem[..] == Put(old(mem[..]), addr, U32Bytes(word.1) + U32Bytes(word.0))
      ensures Load(View(), GetU32(mem[..], addr + 4), GetU32(mem[..], addr))
              == if v == Number(0x8000_0000, 0) then Number(0, 0) else v
      ensures !Inline(v) ==>
                var flag: int := GetU32(mem[..], addr + 4) - 0x7FF8_0000;
                flag == if v.Object? then 1 else if v.Text? then 2 else if v.Symbol? then 3
                        else if v.Function? then 4 else 0
    {
      StoredWordLoads(world, v);
      WordsByKind(View(), v);
      KeyIsValue(v);
      WriteValue(addr, v);
      world := ReferenceTable.Apply(world, Store(v));
    }

    /** The branches of storeValue. */
    method WriteValue(addr: nat, v: Value)
      requires InRange(View()) && addr + 8 <= mem.Length
      requires Inline(v) || IdFor(View(), v) < WORD
      modifies this`values, this`goRefCounts, this`ids, this`idPool, mem
      ensures View() == if Inline(v) then old(View()) else Intern(old(View()), v)
      ensures var word := Word(old(View()), v);
              && mem[..] == Put(old(mem[..]), addr, U32Bytes(word.1) + U32Bytes(word.0))
              && GetU32(mem[..], addr + 4) == word.0 && GetU32(mem[..], addr) == word.1
    {
      var hi, lo := WordFor(v);
      SetWord(addr, hi, lo);
    }

    method WordFor(v: Value) returns (hi: uint32, lo: uint32)
      requires InRange(View()) && (Inline(v) || IdFor(View(), v) < WORD)
      modifies this`values, this`goRefCounts, this`ids, this`idPool
      ensures View() == if Inline(v) then old(View()) else Intern(old(View()), v)
      ensures (hi, lo) == Word(old(View()), v)
    {
      if v.NotANumber? {
        return 0x7FF8_0000, 0;
      }
      if v.Number? && !IsZeroWord(v.hi, v.lo) {
        return v.hi, v.lo;
      }
      if v.Undefined? {
        return 0, 0;
      }
      var id := Reference(v);
      hi, lo := 0x7FF8_0000 + TypeFlag(v), id;
    }

    /** finalizeRef for a reference that Go holds. */
    method FinalizeRef(sp: nat, ghost ref: Ref)
      requires Valid() && sp + 16 <= mem.Length
      requires ref in world.refs && GetU32(mem[..], sp + 8) == ref.id
      modifies this
      ensures Valid() && world == ReferenceTable.Apply(old(world), Finalize(ref))
    {
      FinalizeKeepsInv(world, ref);
      OutstandingLoads(world, ref);
      ReleaseSlot(GetU32(mem[..], sp + 8));
      world := ReferenceTable.Apply(world, Finalize(ref));
    }

    method ReleaseSlot(id: nat)
      requires InRange(View()) && id < |values| && goRefCounts[id] != Refs(0)
      modifies this`values, this`goRefCounts, this`ids, this`idPool
      ensures View() == Release(old(View()), id)
    {
      match goRefCounts[id] {
        case Infinite =>
        case Refs(n) =>
          goRefCounts := goRefCounts[id := Refs(n - 1)];
          if n - 1 == 0 {
            var v := values[id];
            values := values[id := Null];
            ids := ids - {Key(v)};
            idPool := idPool + [id];
          }
      }
    }

    // -------------------------------------------------------------- starting a program

    /** strPtr: None is the RangeError of a view that does not fit. */
    method StrPtr(offset: nat, str: Bytes) returns (next: Option<nat>)
      modifies mem
      ensures next.Some? <==> offset + |str| + 1 <= mem.Length
      ensures next.Some? ==> mem[..] == Put(old(mem[..]), offset, str + [0])
                             && next.value == Align8(offset + |str| + 1)
      ensures next.None? ==> mem[..] == old(mem[..])
    {
      var bytes := str + [0];
      if offset + |bytes| > mem.Length {
        return None;
      }
      forall k | 0 <= k < |bytes| {
        mem[offset + k] := bytes[k];
      }
      assert mem[..] == Put(old(mem[..]), offset, bytes);
      next := Some(Align8(offset + |bytes|));
    }

    /** Item i at its place, and where the next one goes. */
    method PutString(ghost items: seq<Bytes>, ghost i: nat, offset: nat, item: Bytes) returns (next: Option<nat>)
      requires i < |items| && item == items[i] && offset == Starts(items)[i]
      requires Laid(mem[..], items, Starts(items), i)
      modifies mem
      ensures next.Some? ==> Laid(mem[..], items, Starts(items), i + 1) && next.value == Starts(items)[i + 1]
      ensures next.None? ==> Starts(items)[|items|] > mem.Length
      ensures mem.Length >= STRINGS_AT ==> mem[..STRINGS_AT] == old(mem[..STRINGS_AT])
    {
      ghost var m := mem[..];
      StartsAligned(items, i);
      next := StrPtr(offset, item);
      if next.None? {
        StartsApart(items, i, |items|);
      } else {
        LaidNext(m, items, i);
        StartsNext(items, i);
      }
    }

    /** One of the two forEach loops: writes items lo, lo + 1, ... and collects pointers. */
    method PutStrings(items: seq<Bytes>, ghost starts: seq<nat>, start: nat, lo: nat, hi: nat)
        returns (next: Option<(nat, seq<nat>)>)
      requires lo <= hi <= |items| && starts == Starts(items) && start == starts[lo]
      requires Laid(mem[..], items, starts, lo)
      modifies mem
      ensures next.Some? ==>
                Laid(mem[..], items, starts, hi) && next.value == (starts[hi], starts[lo..hi])
      ensures next.None? ==> starts[|items|] > mem.Length
      ensures mem.Length >= STRINGS_AT ==> mem[..STRINGS_AT] == old(mem[..STRINGS_AT])
    {
      var offset, pointers := start, [];
      for i := lo to hi
        invariant offset == starts[i] && pointers == starts[lo..i]
        invariant Laid(mem[..], items, starts, i)
        invariant mem.Length >= STRINGS_AT ==> mem[..STRINGS_AT] == old(mem[..STRINGS_AT])
      {
        assert starts[lo..i + 1] == starts[lo..i] + [starts[i]];
        pointers := pointers + [offset];
        var after := PutString(items, i, offset, items[i]);
        if after.None? {
          return None;
        }
        offset := after.value;
      }
      next := Some((offset, pointers));
    }

    /** One 64-bit pointer cell of the table. */
    method PutPointer(ghost at: nat, ghost pointers: seq<nat>, ghost k: nat, offset: nat, pointer: nat,
                      ghost items: seq<Bytes>, ghost starts: seq<nat>)
      requires k < |pointers| && pointer == pointers[k] < WORD && offset == at + 8 * k
      requires offset + 8 <= mem.Length && at >= STRINGS_AT
      requires PointersAt(mem[..], at, pointers, k)
      requires |starts| >= |items| && Laid(mem[..], items, starts, |items|) && Below(items, starts, |items|, at)
      modifies mem
      ensures PointersAt(mem[..], at, pointers, k + 1)
      ensures Laid(mem[..], items, starts, |items|)
      ensures mem[..STRINGS_AT] == old(mem[..STRINGS_AT])
    {
      ghost var m, bytes := mem[..], U32Bytes(pointer) + U32Bytes(0);
      SetWord(offset, 0, pointer);
      PointersNext(m, at, pointers, k);
      LaidBelow(m, items, starts, |items|, offset, bytes);
      PutElsewhere(m, offset, bytes, 0, STRINGS_AT);
    }

    /** The last loop of run: the pointer table at `at`; false is a RangeError. */
    method PutPointers(at: nat, pointers: seq<nat>, ghost items: seq<Bytes>, ghost starts: seq<nat>)
        returns (ok: bool)
      requires at >= STRINGS_AT && forall k :: 0 <= k < |pointers| ==> pointers[k] < WORD
      requires |starts| >= |items| && Laid(mem[..], items, starts, |items|) && Below(items, starts, |items|, at)
      modifies mem
      ensures ok <==> at + 8 * |pointers| <= mem.Length || |pointers| == 0
      ensures ok ==> PointersAt(mem[..], at, pointers, |pointers|) && Laid(mem[..], items, starts, |items|)
      ensures mem.Length >= STRINGS_AT ==> mem[..STRINGS_AT] == old(mem[..STRINGS_AT])
    {
      var offset := at;
      for k := 0 to |pointers|
        invariant offset == at + 8 * k && (k > 0 ==> offset <= mem.Length)
        invariant PointersAt(mem[..], at, pointers, k)
        invariant Laid(mem[..], items, starts, |items|)
        invariant mem.Length >= STRINGS_AT ==> mem[..STRINGS_AT] == old(mem[..STRINGS_AT])
      {
        if offset + 8 > mem.Length {
          return false;
        }
        PutPointer(at, pointers, k, offset, pointers[k], items, starts);
        offset := offset + 8;
      }
      ok := true;
    }

    /** The layout part of run(), over encoded strings; None is a RangeError. */
    method LayOut(args: seq<Bytes>, envs: seq<Bytes>) returns (argv: Option<nat>)
      requires mem.Length <= WORD
      modifies mem
      ensures var items := args + envs;
              && (argv.Some? <==> Starts(items)[|items|] + 8 * (|items| + 2) <= mem.Length)
              && (argv.Some? ==> argv.value == Starts(items)[|items|] && InMemory(mem[..], items, |args|))
      ensures mem.Length >= STRINGS_AT ==> mem[..STRINGS_AT] == old(mem[..STRINGS_AT])
    {
      var items := args + envs;
      ghost var starts := Starts(items);
      StartsAligned(items, |items|);
      StartsBelow(items, |items|);
      FirstStart(items);
      var argvs := PutStrings(items, starts, STRINGS_AT, 0, |args|);
      if argvs.None? {
        return None;
      }
      var assignments := PutStrings(items, starts, argvs.value.0, |args|, |items|);
      if assignments.None? {
        return None;
      }
      var argvPtrs := argvs.value.1 + [0] + assignments.value.1 + [0];
      var at := assignments.value.0;
      assert argvPtrs == Pointers(starts, |args|);
      PointersFit(mem[..], items, starts, |args|);
      var ok := PutPointers(at, argvPtrs, items, starts);
      argv := if ok then Some(at) else None;
    }

    /** run(): passes the command line and the environment. The result is argc and argv; None
        is a RangeError, and happens only when the memory is too small. Unless a string
        contains a NUL, Go reads back exactly what was passed. */
    method PassArguments(encode: Encoder, argv: seq<JsString>, env: map<JsString, JsString>,
                         keys: seq<JsString>) returns (r: Option<(nat, nat)>)
      requires SortedKeys(keys, env) && mem.Length <= WORD
      modifies mem
      ensures var args, envs := EncodeAll(encode, argv), EncodeAll(encode, Assignments(env, keys));
              && (r.Some? <==> LayoutSize(args + envs) <= mem.Length)
              && (r.Some? ==> r.value.0 == |argv| && r.value.1 % 8 == 0 && r.value.1 >= 4096)
              && (r.Some? && (forall item :: item in args + envs ==> NulFree(item)) ==>
                    ReadsBack(mem[..], r.value.1, args, envs))
      ensures mem.Length >= 4096 ==> mem[..4096] == old(mem[..4096])
    {
      var args, envs := EncodeAll(encode, argv), EncodeAll(encode, Assignments(env, keys));
      var at := LayOut(args, envs);
      if at.None? {
        return None;
      }
      LaidOutReadsBack(mem[..], args, envs);
      r := Some((|argv|, at.value));
    }
  }

  ghost function LayoutSize(items: seq<Bytes>): nat {
    Starts(items)[|items|] + 8 * (|items| + 2)
  }

  lemma LaidOutReadsBack(m: Bytes, args: seq<Bytes>, envs: seq<Bytes>)
    requires InMemory(m, args + envs, |args|)
    ensures var items := args + envs;
            && Starts(items)[|items|] % 8 == 0 && Starts(items)[|items|] >= 4096
            && ((forall item :: item in items ==> NulFree(item)) ==>
                  ReadsBack(m, Starts(items)[|items|], args, envs))
  {
    var items := args + envs;
    StartsAligned(items, |items|);
    if forall item :: item in items ==> NulFree(item) {
      LayoutReadsBack(m, items, |args|);
      assert items[..|args|] == args && items[|args|..] == envs;
    }
  }

  lemma WordWritten(m: seq<byte>, addr: nat, hi: uint32, lo: uint32)
    requires addr + 8 <= |m|
    ensures var m' := Put(Put(m, addr + 4, U32Bytes(hi)), addr, U32Bytes(lo));
            && m' == Put(m, addr, U32Bytes(lo) + U32Bytes(hi))
            && GetU32(m', addr + 4) == hi && GetU32(m', addr) == lo
  {
    var m1 := Put(m, addr + 4, U32Bytes(hi));
    var m2 := Put(m1, addr, U32Bytes(lo));
    PutReads(m, addr + 4, U32Bytes(hi));
    PutReads(m1, addr, U32Bytes(lo));
    PutElsewhere(m1, addr, U32Bytes(lo), addr + 4, addr + 8);
    U32RoundTrip(m2, addr, lo);
    U32RoundTrip(m2, addr + 4, hi);
  }

  lemma StoredWordLoads(w: World, v: Value)
    requires Inv(w) && (Inline(v) || IdFor(w.table, v) < WORD)
    ensures Inv(ReferenceTable.Apply(w, Store(v)))
    ensures Load(ReferenceTable.Apply(w, Store(v)).table, Word(w.table, v).0, Word(w.table, v).1) == Key(v)
  {
    StoreKeepsInv(w, v);
    if Inline(v) {
      assert w.table.values[0] == NotANumber by { assert PINNED[0] == NotANumber; }
      InlineLoads(w.table, v, w.table);
    } else {
      WordLoadsItsValue(w, v, ReferenceTable.Apply(w, Store(v)));
    }
  }
}
