/** How command line and environment are laid out in linear memory, and how the Go runtime
    reads them back. */
module ArgumentLayout {
  import opened GoStrings
  import opened MachineWords
  import opened LinearMemory

  type uint16 = n: int | 0 <= n < 0x1_0000
  type JsString = seq<uint16>
  type Bytes = seq<byte>

  /** TextEncoder.encode: UTF-8, one string after the other. */
  type Encoder = JsString -> Bytes

  const STRINGS_AT: nat := 4096
  const EQUALS: uint16 := 61

  /** Default order of Array.prototype.sort on strings: by code units. */
  predicate Before(a: JsString, b: JsString) {
    if a == [] then b != []
    else b != [] && (a[0] < b[0] || (a[0] == b[0] && Before(a[1..], b[1..])))
  }

  /** The result of Object.keys(env).sort(). */
  ghost predicate SortedKeys(keys: seq<JsString>, env: map<JsString, JsString>) {
    && (forall k :: k in keys <==> k in env)
    && (forall i, j :: 0 <= i < j < |keys| ==> Before(keys[i], keys[j]))
  }

  function EncodeAll(encode: Encoder, strings: seq<JsString>): (items: seq<Bytes>)
    ensures |items| == |strings|
    ensures forall i :: 0 <= i < |items| ==> items[i] == encode(strings[i])
  {
    seq(|strings|, i requires 0 <= i < |strings| => encode(strings[i]))
  }

  /** `${key}=${env[key]}` for each key. */
  function Assignments(env: map<JsString, JsString>, keys: seq<JsString>): (strings: seq<JsString>)
    requires forall i :: 0 <= i < |keys| ==> keys[i] in env
    ensures |strings| == |keys|
    ensures forall i :: 0 <= i < |keys| ==> strings[i] == keys[i] + [EQUALS] + env[keys[i]]
  {
    seq(|keys|, i requires 0 <= i < |keys| => keys[i] + [EQUALS] + env[keys[i]])
  }

  // ---------------------------------------------------------------- writing

  function Align8(n: nat): (m: nat)
    ensures m % 8 == 0 && n <= m < n + 8
  {
    if n % 8 != 0 then n + (8 - n % 8) else n
  }

  /** Where each item starts, and at the end where the pointer table starts. */
  function Starts(items: seq<Bytes>): (starts: seq<nat>)
    ensures |starts| == |items| + 1
  {
    if items == [] then [STRINGS_AT]
    else
      var n := |items| - 1;
      var starts := Starts(items[..n]);
      starts + [Align8(starts[n] + |items[n]| + 1)]
  }

  lemma {:induction false} FirstStart(items: seq<Bytes>)
    ensures Starts(items)[0] == STRINGS_AT
  {
    if items != [] {
      FirstStart(items[..|items| - 1]);
    }
  }

  lemma {:induction false} StartsAligned(items: seq<Bytes>, i: nat)
    requires i <= |items|
    ensures Starts(items)[i] % 8 == 0 && Starts(items)[i] >= STRINGS_AT
  {
    if items != [] {
      StartsAligned(items[..|items| - 1], if i == |items| then i - 1 else i);
    }
  }

  /** Strings and pointer cells occupy disjoint ranges. */
  lemma {:induction false} StartsApart(items: seq<Bytes>, i: nat, j: nat)
    requires i < j <= |items|
    ensures Starts(items)[i] + |items[i]| + 1 <= Starts(items)[j]
  {
    var n := |items| - 1;
    var before := Starts(items[..n]);
    if i < n {
      StartsApart(items[..n], i, if j == |items| then n else j);
    }
  }

  /** The first n items are in memory, each followed by a NUL. */
  ghost predicate Laid(mem: Bytes, items: seq<Bytes>, starts: seq<nat>, n: nat)
    requires n <= |items| && n <= |starts|
  {
    forall i :: 0 <= i < n ==>
      && starts[i] + |items[i]| + 1 <= |mem|
      && mem[starts[i]..starts[i] + |items[i]| + 1] == items[i] + [0]
  }

  /** The first n pointers are in memory as 64-bit little-endian words from `at` on. */
  ghost predicate PointersAt(mem: Bytes, at: nat, pointers: seq<nat>, n: nat)
    requires n <= |pointers|
  {
    forall k :: 0 <= k < n ==>
      && pointers[k] < WORD && at + 8 * k + 8 <= |mem|
      && mem[at + 8 * k..at + 8 * k + 8] == U32Bytes(pointers[k]) + U32Bytes(0)
  }

  /** Pointers to the arguments, null, pointers to the assignments, null. */
  function Pointers(starts: seq<nat>, argc: nat): (pointers: seq<nat>)
    requires argc < |starts|
    ensures |pointers| == |starts| + 1
    ensures forall i :: 0 <= i < argc ==> pointers[i] == starts[i]
    ensures forall i :: argc <= i < |starts| - 1 ==> pointers[i + 1] == starts[i]
    ensures pointers[argc] == 0 && pointers[|starts|] == 0
  {
    starts[..argc] + [0] + starts[argc..|starts| - 1] + [0]
  }

  /** The first n strings end at or before `at`. */
  ghost predicate Below(items: seq<Bytes>, starts: seq<nat>, n: nat, at: nat)
    requires n <= |items| && n <= |starts|
  {
    forall i :: 0 <= i < n ==> starts[i] + |items[i]| + 1 <= at
  }

  lemma StartsBelow(items: seq<Bytes>, n: nat)
    requires n <= |items|
    ensures Below(items, Starts(items), n, Starts(items)[n])
  {
    forall i | 0 <= i < n ensures Starts(items)[i] + |items[i]| + 1 <= Starts(items)[n] {
      StartsApart(items, i, n);
    }
  }

  /** Bytes written above the strings laid so far leave them alone. */
  lemma LaidBelow(mem: Bytes, items: seq<Bytes>, starts: seq<nat>, n: nat, addr: nat, bytes: Bytes)
    requires n <= |items| && n <= |starts| && addr + |bytes| <= |mem|
    requires Laid(mem, items, starts, n) && Below(items, starts, n, addr)
    ensures Laid(Put(mem, addr, bytes), items, starts, n)
  {
    forall i | 0 <= i < n
      ensures Put(mem, addr, bytes)[starts[i]..starts[i] + |items[i]| + 1] == items[i] + [0]
    {
      PutElsewhere(mem, addr, bytes, starts[i], starts[i] + |items[i]| + 1);
    }
  }

  /** One more string at its place. */
  lemma LaidNext(mem: Bytes, items: seq<Bytes>, n: nat)
    requires n < |items| && Laid(mem, items, Starts(items), n)
    requires Starts(items)[n] + |items[n]| + 1 <= |mem|
    ensures Laid(Put(mem, Starts(items)[n], items[n] + [0]), items, Starts(items), n + 1)
  {
    var starts := Starts(items);
    StartsBelow(items, n);
    LaidBelow(mem, items, starts, n, starts[n], items[n] + [0]);
    PutReads(mem, starts[n], items[n] + [0]);
  }

  lemma {:induction false} StartsNext(items: seq<Bytes>, n: nat)
    requires n < |items|
    ensures Starts(items)[n + 1] == Align8(Starts(items)[n] + |items[n]| + 1)
  {
    if n + 1 < |items| {
      StartsNext(items[..|items| - 1], n);
    }
  }

  lemma PointersFit(mem: Bytes, items: seq<Bytes>, starts: seq<nat>, argc: nat)
    requires argc <= |items| && |starts| == |items| + 1 && |mem| <= WORD
    requires Laid(mem, items, starts, |items|)
    ensures forall k :: 0 <= k < |items| + 2 ==> Pointers(starts, argc)[k] < WORD
  {
    forall k | 0 <= k < |items| + 2 ensures Pointers(starts, argc)[k] < WORD {
      if k < argc {
        assert Pointers(starts, argc)[k] == starts[k];
      } else if argc < k < |items| + 1 {
        assert Pointers(starts, argc)[k - 1 + 1] == starts[k - 1];
      }
    }
  }

  /** One more pointer cell. */
  lemma PointersNext(mem: Bytes, at: nat, pointers: seq<nat>, n: nat)
    requires n < |pointers| && PointersAt(mem, at, pointers, n)
    requires pointers[n] < WORD && at + 8 * n + 8 <= |mem|
    ensures PointersAt(Put(mem, at + 8 * n, U32Bytes(pointers[n]) + U32Bytes(0)), at, pointers, n + 1)
  {
    var bytes := U32Bytes(pointers[n]) + U32Bytes(0);
    forall k | 0 <= k < n
      ensures Put(mem, at + 8 * n, bytes)[at + 8 * k..at + 8 * k + 8] == U32Bytes(pointers[k]) + U32Bytes(0)
    {
      PutElsewhere(mem, at + 8 * n, bytes, at + 8 * k, at + 8 * k + 8);
    }
    PutReads(mem, at + 8 * n, bytes);
  }

  // ---------------------------------------------------------------- reading back

  function GetInt64(mem: Bytes, addr: nat): int
    requires addr + 8 <= |mem|
  {
    var high := GetU32(mem, addr + 4);
    GetU32(mem, addr) + (if high < 0x8000_0000 then high else high - WORD) * WORD
  }

  /** The bytes up to the first NUL. */
  function CString(mem: Bytes, at: nat): Bytes
    requires at <= |mem|
    decreases |mem| - at
  {
    if at == |mem| || mem[at] == 0 then [] else [mem[at]] + CString(mem, at + 1)
  }

  /** Strings behind consecutive 64-bit pointers up to a null, and the address after it. */
  function ReadVector(mem: Bytes, at: nat): Option<(seq<Bytes>, nat)>
    decreases |mem| - at
  {
    if at + 8 > |mem| then None
    else
      var pointer := GetInt64(mem, at);
      if pointer == 0 then Some(([], at + 8))
      else if !(0 <= pointer <= |mem|) then None
      else match ReadVector(mem, at + 8)
        case None => None
        case Some(rest) => Some(([CString(mem, pointer)] + rest.0, rest.1))
  }

  ghost predicate NulFree(item: Bytes) {
    0 !in item
  }

  lemma {:induction false} CStringReads(mem: Bytes, at: nat, item: Bytes)
    requires at + |item| + 1 <= |mem| && mem[at..at + |item| + 1] == item + [0] && NulFree(item)
    ensures CString(mem, at) == item
    decreases |item|
  {
    assert mem[at] == (item + [0])[0];
    if item != [] {
      assert mem[at + 1..at + |item| + 1] == mem[at..at + |item| + 1][1..] == item[1..] + [0];
      CStringReads(mem, at + 1, item[1..]);
    }
  }

  lemma PointerReads(mem: Bytes, at: nat, pointers: seq<nat>, n: nat, k: nat)
    requires k < n <= |pointers| && PointersAt(mem, at, pointers, n)
    ensures at + 8 * k + 8 <= |mem| && GetInt64(mem, at + 8 * k) == pointers[k]
  {
    var cell, p := at + 8 * k, pointers[k];
    var bytes := mem[cell..cell + 8];
    assert mem[cell..cell + 4] == bytes[..4] == U32Bytes(p);
    assert mem[cell + 4..cell + 8] == bytes[4..] == U32Bytes(0);
    U32RoundTrip(mem, cell, p);
    U32RoundTrip(mem, cell + 4, 0);
  }

  /** The address of a pointer cell. */
  function Cell(at: nat, k: nat): nat {
    at + 8 * k
  }

  /** What the Go side sees in the pointer table and behind the pointers. */
  predicate CellReads(mem: Bytes, cell: nat, pointer: nat) {
    cell + 8 <= |mem| && GetInt64(mem, cell) == pointer
  }

  predicate StringReads(mem: Bytes, at: nat, item: Bytes) {
    0 < at <= |mem| && CString(mem, at) == item
  }

  lemma ReadOne(mem: Bytes, cell: nat, pointer: nat, item: Bytes, rest: seq<Bytes>, end: nat)
    requires CellReads(mem, cell, pointer) && StringReads(mem, pointer, item)
    requires ReadVector(mem, cell + 8) == Some((rest, end))
    ensures ReadVector(mem, cell) == Some(([item] + rest, end))
  {
  }

  /** Following the pointers from the cell of item lo on reads the items up to the null; the
      cells of the assignments are shifted by one. */
  lemma {:induction false} VectorReads(mem: Bytes, items: seq<Bytes>, starts: seq<nat>,
                                       pointers: seq<nat>, at: nat, shift: nat, lo: nat, hi: nat)
    requires lo <= hi <= |items| <= |starts| && hi + shift < |pointers| && pointers[hi + shift] == 0
    requires forall k :: 0 <= k < |pointers| ==> CellReads(mem, Cell(at, k), pointers[k])
    requires forall i :: 0 <= i < |items| ==> StringReads(mem, starts[i], items[i])
    requires forall i :: lo <= i < hi ==> pointers[i + shift] == starts[i]
    ensures ReadVector(mem, Cell(at, lo + shift)) == Some((items[lo..hi], Cell(at, hi + shift + 1)))
    decreases hi - lo
  {
    assert CellReads(mem, Cell(at, lo + shift), pointers[lo + shift]);
    if lo == hi {
      assert items[lo..hi] == [];
    } else {
      VectorReads(mem, items, starts, pointers, at, shift, lo + 1, hi);
      ReadOne(mem, Cell(at, lo + shift), starts[lo], items[lo], items[lo + 1..hi], Cell(at, hi + shift + 1));
      assert items[lo..hi] == [items[lo]] + items[lo + 1..hi];
    }
  }

  lemma AllCellsRead(mem: Bytes, at: nat, pointers: seq<nat>)
    requires PointersAt(mem, at, pointers, |pointers|)
    ensures forall k :: 0 <= k < |pointers| ==> CellReads(mem, Cell(at, k), pointers[k])
  {
    forall k | 0 <= k < |pointers| ensures CellReads(mem, Cell(at, k), pointers[k]) {
      PointerReads(mem, at, pointers, |pointers|, k);
    }
  }

  lemma AllStringsRead(mem: Bytes, items: seq<Bytes>, starts: seq<nat>)
    requires |starts| >= |items| && Laid(mem, items, starts, |items|)
    requires forall i :: 0 <= i < |items| ==> NulFree(items[i]) && starts[i] > 0
    ensures forall i :: 0 <= i < |items| ==> StringReads(mem, starts[i], items[i])
  {
    forall i | 0 <= i < |items| ensures StringReads(mem, starts[i], items[i]) {
      CStringReads(mem, starts[i], items[i]);
    }
  }

  /** Reading from the address handed to Go gives back exactly the arguments and, after
      their null, exactly the assignments. */
  ghost predicate ReadsBack(mem: Bytes, argv: nat, args: seq<Bytes>, envs: seq<Bytes>) {
    && ReadVector(mem, argv) == Some((args, Cell(argv, |args| + 1)))
    && ReadVector(mem, Cell(argv, |args| + 1)) == Some((envs, Cell(argv, |args| + |envs| + 2)))
  }

  ghost predicate InMemory(mem: Bytes, items: seq<Bytes>, argc: nat)
    requires argc <= |items|
  {
    var starts := Starts(items);
    && Laid(mem, items, starts, |items|)
    && PointersAt(mem, starts[|items|], Pointers(starts, argc), |items| + 2)
  }

  lemma TableReadsBack(mem: Bytes, items: seq<Bytes>, starts: seq<nat>, argc: nat, at: nat)
    requires argc <= |items| && |starts| == |items| + 1
    requires forall k :: 0 <= k < |items| + 2 ==>
               CellReads(mem, Cell(at, k), Pointers(starts, argc)[k])
    requires forall i :: 0 <= i < |items| ==> StringReads(mem, starts[i], items[i])
    ensures ReadsBack(mem, at, items[..argc], items[argc..])
  {
    var pointers := Pointers(starts, argc);
    assert items[0..argc] == items[..argc] && items[argc..|items|] == items[argc..];
    assert Cell(at, 0) == at;
    VectorReads(mem, items, starts, pointers, at, 0, 0, argc);
    VectorReads(mem, items, starts, pointers, at, 1, argc, |items|);
  }

  lemma LayoutReadsBack(mem: Bytes, items: seq<Bytes>, argc: nat)
    requires argc <= |items| && InMemory(mem, items, argc)
    requires forall i :: 0 <= i < |items| ==> NulFree(items[i])
    ensures ReadsBack(mem, Starts(items)[|items|], items[..argc], items[argc..])
  {
    var starts := Starts(items);
    forall i | 0 <= i < |items| ensures starts[i] > 0 {
      StartsAligned(items, i);
    }
    AllCellsRead(mem, starts[|items|], Pointers(starts, argc));
    AllStringsRead(mem, items, starts);
    TableReadsBack(mem, items, starts, argc, starts[|items|]);
  }

  // ---------------------------------------------------------------- constants and order

  /** The first string is at 4096, and each next thing at the first multiple of eight behind
      the NUL of the one before. */
  lemma StartsPacked(items: seq<Bytes>, i: nat)
    requires i < |items|
    ensures Starts(items)[0] == 4096
    ensures Starts(items)[i + 1] % 8 == 0
    ensures 0 <= Starts(items)[i + 1] - (Starts(items)[i] + |items[i]| + 1) < 8
  {
    FirstStart(items);
    StartsNext(items, i);
  }

  /** An assignment is the key, an equals sign, and the value. */
  lemma AssignmentText(env: map<JsString, JsString>, keys: seq<JsString>, i: nat)
    requires i < |keys| && forall j :: 0 <= j < |keys| ==> keys[j] in env
    ensures var s, n := Assignments(env, keys)[i], |keys[i]|;
            |s| > n && s[..n] == keys[i] && s[n] == '=' as int && s[n + 1..] == env[keys[i]]
  {
  }

  /** The strings agree on the first n characters; there the first one ends or is smaller. */
  ghost predicate FirstSmaller(a: JsString, b: JsString, n: nat) {
    n <= |a| && n < |b| && a[..n] == b[..n] && (n == |a| || a[n] < b[n])
  }

  /** One string comes before another if it is a proper prefix of it, or smaller where they
      first differ. */
  lemma {:induction false} BeforeIff(a: JsString, b: JsString)
    ensures Before(a, b) <==>
              exists n: nat :: FirstSmaller(a, b, n)
  {
    if a == [] || b == [] {
      assert a[..0] == b[..0];
      assert b != [] ==> FirstSmaller(a, b, 0);
    } else {
      BeforeIff(a[1..], b[1..]);
      BeforeStep(a, b);
    }
  }

  lemma BeforeStep(a: JsString, b: JsString)
    requires a != [] && b != []
    ensures (exists n: nat :: FirstSmaller(a, b, n)) <==>
              a[0] < b[0] || (a[0] == b[0] && exists n: nat :: FirstSmaller(a[1..], b[1..], n))
  {
    if n: nat :| FirstSmaller(a, b, n) {
      FirstSmallerTail(a, b, n);
    }
    if a[0] < b[0] {
      assert FirstSmaller(a, b, 0);
    } else if a[0] == b[0] {
      if n: nat :| FirstSmaller(a[1..], b[1..], n) {
        assert a[..n + 1] == [a[0]] + a[1..][..n] && b[..n + 1] == [b[0]] + b[1..][..n];
        assert FirstSmaller(a, b, n + 1);
      }
    }
  }

  lemma FirstSmallerTail(a: JsString, b: JsString, n: nat)
    requires a != [] && b != [] && FirstSmaller(a, b, n)
    ensures if n == 0 then a[0] < b[0] else a[0] == b[0] && FirstSmaller(a[1..], b[1..], n - 1)
  {
    if n > 0 {
      assert a[..n][0] == b[..n][0];
      assert a[1..][..n - 1] == a[..n][1..] && b[1..][..n - 1] == b[..n][1..];
    }
  }

  /** The two halves of a 64-bit word: the low one comes first, and the number is signed. */
  lemma Int64Halves(mem: Bytes, addr: nat)
    requires addr + 8 <= |mem|
    ensures var n := GetInt64(mem, addr);
            && -0x8000_0000_0000_0000 <= n < 0x8000_0000_0000_0000
            && n % WORD == GetU32(mem, addr)
            && (if n < 0 then n + WORD * WORD else n) / WORD == GetU32(mem, addr + 4)
  {
  }
}
