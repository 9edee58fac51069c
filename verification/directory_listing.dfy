/** The directory listing: two stable sorts in place, one after the other. */
module DirectoryListing {
  import opened GoStrings

  /** os.FileInfo; `other` stands for everything the order does not look at. */
  datatype FileInfo = FileInfo(name: string, isDir: bool, other: nat)

  type Less<!T> = (T, T) -> bool

  /** Go compares strings byte by byte. */
  predicate StringLess(a: string, b: string) {
    if b == [] then false
    else if a == [] then true
    else a[0] < b[0] || (a[0] == b[0] && StringLess(a[1..], b[1..]))
  }

  predicate ByName(a: FileInfo, b: FileInfo) {
    StringLess(a.name, b.name)
  }

  predicate DirsFirst(a: FileInfo, b: FileInfo) {
    a.isDir && !b.isDir
  }

  /** Directories before files, and by name within each group. */
  predicate DirsThenNames(a: FileInfo, b: FileInfo) {
    DirsFirst(a, b) || (!DirsFirst(b, a) && ByName(a, b))
  }

  ghost predicate StrictWeakOrder<T(!new)>(less: Less<T>) {
    && (forall x, y :: less(x, y) ==> !less(y, x))
    && (forall x, y, z :: !less(x, y) && !less(y, z) ==> !less(x, z))
  }

  /** t is s with element i taken from position from[i], in order, ties as in s. */
  ghost predicate StableSortOf<T>(less: Less<T>, s: seq<T>, t: seq<T>, from: seq<nat>) {
    && Rearranged(s, t, from)
    && (forall i, j :: 0 <= i < j < |t| ==> !less(t[j], t[i]))
    && (forall i, j :: 0 <= i < j < |t| && !less(t[i], t[j]) ==> from[i] < from[j])
  }

  ghost predicate Rearranged<T>(s: seq<T>, t: seq<T>, from: seq<nat>) {
    && |t| == |s| == |from|
    && (forall i :: 0 <= i < |t| ==> from[i] < |s| && t[i] == s[from[i]])
    && (forall i, j :: 0 <= i < j < |t| ==> from[i] != from[j])
  }

  // ---------------------------------------------------------------- the two orders

  lemma {:induction false} StringLessIsStrict(a: string, b: string, c: string)
    ensures StringLess(a, b) ==> !StringLess(b, a)
    ensures !StringLess(a, b) && !StringLess(b, c) ==> !StringLess(a, c)
  {
    if a != [] && b != [] {
      StringLessIsStrict(a[1..], b[1..], if c == [] then [] else c[1..]);
    }
  }

  /** The names agree on the first n bytes; there the first one ends or is smaller. */
  ghost predicate FirstSmaller(a: string, b: string, n: nat) {
    n <= |a| && n < |b| && a[..n] == b[..n] && (n == |a| || a[n] < b[n])
  }

  lemma {:induction false} StringLessIff(a: string, b: string)
    ensures StringLess(a, b) <==> exists n: nat :: FirstSmaller(a, b, n)
  {
    if a == [] || b == [] {
      assert a[..0] == b[..0];
      assert b != [] ==> FirstSmaller(a, b, 0);
    } else {
      StringLessIff(a[1..], b[1..]);
      StringLessStep(a, b);
    }
  }

  lemma StringLessStep(a: string, b: string)
    requires a != [] && b != []
    ensures (exists n: nat :: FirstSmaller(a, b, n)) <==>
              a[0] < b[0] || (a[0] == b[0] && exists n: nat :: FirstSmaller(a[1..], b[1..], n))
  {
    if n: nat :| FirstSmaller(a, b, n) {
      FirstSmallerTail(a, b, n);
    }
    if a[0] < b[0] {
      assert FirstSmaller(a, b, 0);
    } else if a[0] == b[0] {
      if n: nat :| FirstSmaller(a[1..], b[1..], n) {
        assert a[..n + 1] == [a[0]] + a[1..][..n] && b[..n + 1] == [b[0]] + b[1..][..n];
        assert FirstSmaller(a, b, n + 1);
      }
    }
  }

  lemma FirstSmallerTail(a: string, b: string, n: nat)
    requires a != [] && b != [] && FirstSmaller(a, b, n)
    ensures if n == 0 then a[0] < b[0] else a[0] == b[0] && FirstSmaller(a[1..], b[1..], n - 1)
  {
    if n > 0 {
      assert a[..n][0] == b[..n][0];
      assert a[1..][..n - 1] == a[..n][1..] && b[1..][..n - 1] == b[..n][1..];
    }
  }

  lemma OrdersAreStrict()
    ensures StrictWeakOrder(ByName) && StrictWeakOrder(DirsFirst)
  {
    forall x: FileInfo, y: FileInfo ensures ByName(x, y) ==> !ByName(y, x) {
      StringLessIsStrict(x.name, y.name, []);
    }
    forall x: FileInfo, y: FileInfo, z: FileInfo
      ensures !ByName(x, y) && !ByName(y, z) ==> !ByName(x, z)
    {
      StringLessIsStrict(x.name, y.name, z.name);
    }
  }

  function Through(first: seq<nat>, second: seq<nat>): (r: seq<nat>)
    requires forall i :: 0 <= i < |second| ==> second[i] < |first|
    ensures |r| == |second| && forall i :: 0 <= i < |r| ==> r[i] == first[second[i]]
  {
    seq(|second|, i requires 0 <= i < |second| => first[second[i]])
  }

  lemma RearrangedTwice<T>(s: seq<T>, t: seq<T>, u: seq<T>, first: seq<nat>, second: seq<nat>)
    requires Rearranged(s, t, first) && Rearranged(t, u, second)
    ensures Rearranged(s, u, Through(first, second))
  {
    forall i, j | 0 <= i < j < |u| ensures first[second[i]] != first[second[j]] {
      if second[i] < second[j] {
        assert first[second[i]] != first[second[j]];
      } else {
        assert second[j] < second[i];
      }
    }
  }

  /** A stable sort by name followed by a stable sort by kind is one stable sort by both. */
  lemma TwoStableSortsAreOne(s: seq<FileInfo>, t: seq<FileInfo>, u: seq<FileInfo>,
                             first: seq<nat>, second: seq<nat>)
    requires StableSortOf(ByName, s, t, first) && StableSortOf(DirsFirst, t, u, second)
    ensures StableSortOf(DirsThenNames, s, u, Through(first, second))
  {
    RearrangedTwice(s, t, u, first, second);
    forall i, j | 0 <= i < j < |u|
      ensures !DirsThenNames(u[j], u[i])
      ensures !DirsThenNames(u[i], u[j]) ==> first[second[i]] < first[second[j]]
    {
      assert !DirsFirst(u[j], u[i]);
      if !DirsFirst(u[i], u[j]) {
        assert second[i] < second[j];
        assert !ByName(t[second[j]], t[second[i]]);
      }
    }
  }

  // ---------------------------------------------------------------- sorting in place

  /** The first n elements are sorted, ties in original order, and come from the first n. */
  ghost predicate SortedUpTo<T>(less: Less<T>, s: seq<T>, t: seq<T>, from: seq<nat>, n: nat) {
    && Rearranged(s, t, from) && n <= |t|
    && (forall p, q :: 0 <= p < q < n ==> InOrder(less, t, from, p, q))
    && (forall k :: 0 <= k < n ==> from[k] < n)
    && (forall k :: n <= k < |t| ==> from[k] == k)
  }

  ghost predicate InOrder<T>(less: Less<T>, t: seq<T>, from: seq<nat>, p: nat, q: nat)
    requires p < |t| == |from| && q < |t|
  {
    !less(t[q], t[p]) && (!less(t[p], t[q]) ==> from[p] < from[q])
  }

  /** Element i is on its way down through the sorted first i and has reached position j. */
  ghost predicate Moving<T>(less: Less<T>, s: seq<T>, t: seq<T>, from: seq<nat>, i: nat, j: nat) {
    && Rearranged(s, t, from) && j <= i < |t| && from[j] == i
    && (forall p, q :: 0 <= p < q <= i && p != j && q != j ==> InOrder(less, t, from, p, q))
    && (forall k :: 0 <= k <= i && k != j ==> from[k] < i)
    && (forall k :: i < k < |t| ==> from[k] == k)
    && (forall k :: j < k <= i ==> less(t[j], t[k]))
  }

  function Swapped<T>(t: seq<T>, j: nat): seq<T>
    requires 0 < j < |t|
  {
    t[j := t[j - 1]][j - 1 := t[j]]
  }

  lemma RearrangedSwap<T>(s: seq<T>, t: seq<T>, from: seq<nat>, j: nat)
    requires Rearranged(s, t, from) && 0 < j < |t|
    ensures Rearranged(s, Swapped(t, j), Swapped(from, j))
  {
  }

  lemma MoveDown<T>(less: Less<T>, s: seq<T>, t: seq<T>, from: seq<nat>, i: nat, j: nat)
    requires Moving(less, s, t, from, i, j) && 0 < j && less(t[j], t[j - 1])
    ensures Moving(less, s, Swapped(t, j), Swapped(from, j), i, j - 1)
  {
    var t', from' := Swapped(t, j), Swapped(from, j);
    RearrangedSwap(s, t, from, j);
    forall p, q | 0 <= p < q <= i && p != j - 1 && q != j - 1
      ensures InOrder(less, t', from', p, q)
    {
      var p', q' := if p == j then j - 1 else p, if q == j then j - 1 else q;
      assert InOrder(less, t, from, p', q');
    }
  }

  lemma MoveEnds<T(!new)>(less: Less<T>, s: seq<T>, t: seq<T>, from: seq<nat>, i: nat, j: nat)
    requires StrictWeakOrder(less) && Moving(less, s, t, from, i, j)
    requires j > 0 ==> !less(t[j], t[j - 1])
    ensures SortedUpTo(less, s, t, from, i + 1)
  {
    forall p, q | 0 <= p < q < i + 1 ensures InOrder(less, t, from, p, q) {
      if p == j {
        assert less(t[j], t[q]);
      } else if q == j {
        if p < j - 1 {
          assert InOrder(less, t, from, p, j - 1);
          assert !less(t[j], t[p]);
        }
      }
    }
  }

  lemma NothingSortedYet<T>(less: Less<T>, s: seq<T>)
    ensures SortedUpTo(less, s, s, Identity(|s|), 0)
  {
  }

  function Identity(n: nat): (r: seq<nat>)
    ensures |r| == n && forall i :: 0 <= i < n ==> r[i] == i
  {
    seq(n, i requires 0 <= i < n => i)
  }

  lemma SortedIsStable<T>(less: Less<T>, s: seq<T>, t: seq<T>, from: seq<nat>)
    requires SortedUpTo(less, s, t, from, |t|)
    ensures StableSortOf(less, s, t, from)
  {
    forall i, j | 0 <= i < j < |t|
      ensures !less(t[j], t[i]) && (!less(t[i], t[j]) ==> from[i] < from[j])
    {
      assert InOrder(less, t, from, i, j);
    }
  }

  /** sort.SliceStable, as its insertion sort. */
  method SliceStable<T(!new)>(a: array<T>, less: Less<T>) returns (ghost from: seq<nat>)
    requires StrictWeakOrder(less)
    modifies a
    ensures StableSortOf(less, old(a[..]), a[..], from)
  {
    from := Identity(a.Length);
    NothingSortedYet(less, a[..]);
    for i := 0 to a.Length
      invariant SortedUpTo(less, old(a[..]), a[..], from, i)
    {
      from := InsertLast(a, less, i, from, old(a[..]));
    }
    SortedIsStable(less, old(a[..]), a[..], from);
  }

  /** Moves element i down to its place among the sorted first i. */
  method InsertLast<T(!new)>(a: array<T>, less: Less<T>, i: nat, ghost from0: seq<nat>, ghost s: seq<T>)
      returns (ghost from: seq<nat>)
    requires StrictWeakOrder(less) && i < a.Length && SortedUpTo(less, s, a[..], from0, i)
    modifies a
    ensures SortedUpTo(less, s, a[..], from, i + 1)
  {
    from := from0;
    var j: nat := i;
    while j > 0 && less(a[j], a[j - 1])
      invariant Moving(less, s, a[..], from, i, j)
    {
      MoveDown(less, s, a[..], from, i, j);
      ghost var t := a[..];
      a[j], a[j - 1] := a[j - 1], a[j];
      assert a[..] == Swapped(t, j);
      from := Swapped(from, j);
      j := j - 1;
    }
    MoveEnds(less, s, a[..], from, i, j);
  }

  /** What the sorted listing looks like: directories come first, no name within a kind is
      smaller than one before it, and files of one name and kind stay as they were. */
  lemma ListedInOrder(s: seq<FileInfo>, t: seq<FileInfo>, from: seq<nat>, i: nat, j: nat)
    requires StableSortOf(DirsThenNames, s, t, from) && i < j < |t|
    ensures multiset(s) == multiset(t)
    ensures t[j].isDir ==> t[i].isDir
    ensures t[i].isDir == t[j].isDir ==> forall n: nat :: !FirstSmaller(t[j].name, t[i].name, n)
    ensures t[i].isDir == t[j].isDir && t[i].name == t[j].name ==> from[i] < from[j]
  {
    RearrangedSame(s, t, from);
    assert !DirsThenNames(t[j], t[i]);
    if t[i].isDir == t[j].isDir {
      StringLessIff(t[j].name, t[i].name);
      if t[i].name == t[j].name {
        StringLessIsStrict(t[i].name, t[j].name, []);
      }
    }
  }

  /** Distinct positions, as many as there are elements: the same elements. */
  lemma {:induction false} RearrangedSame<T>(s: seq<T>, t: seq<T>, from: seq<nat>)
    requires Rearranged(s, t, from)
    ensures multiset(s) == multiset(t)
    decreases |s|
  {
    if s != [] {
      var n := |s| - 1;
      LastIsUsed(from, n);
      var k :| 0 <= k < |from| && from[k] == n;
      WithoutLast(s, t, from, k);
      RearrangedSame(s[..n], Omit(t, k), Omit(from, k));
      OmitOne(t, k);
      assert s == s[..n] + [s[n]];
    }
  }

  function Omit<T>(t: seq<T>, k: nat): (r: seq<T>)
    requires k < |t|
    ensures |r| == |t| - 1 && forall i :: 0 <= i < |r| ==> r[i] == if i < k then t[i] else t[i + 1]
  {
    t[..k] + t[k + 1..]
  }

  lemma OmitOne<T>(t: seq<T>, k: nat)
    requires k < |t|
    ensures multiset(t) == multiset(Omit(t, k)) + multiset{t[k]}
  {
    assert t == t[..k] + ([t[k]] + t[k + 1..]);
  }

  lemma WithoutLast<T>(s: seq<T>, t: seq<T>, from: seq<nat>, k: nat)
    requires Rearranged(s, t, from) && k < |from| && from[k] == |s| - 1
    ensures Rearranged(s[..|s| - 1], Omit(t, k), Omit(from, k))
  {
    var t', from' := Omit(t, k), Omit(from, k);
    forall i | 0 <= i < |t'| ensures from'[i] < |s| - 1 && t'[i] == s[from'[i]] {
      var i' := if i < k then i else i + 1;
      assert from[i'] != from[k];
    }
  }

  /** n + 1 different positions up to n include n. */
  lemma LastIsUsed(from: seq<nat>, n: nat)
    requires |from| == n + 1 && forall i :: 0 <= i < |from| ==> from[i] <= n
    requires forall i, j :: 0 <= i < j < |from| ==> from[i] != from[j]
    ensures n in from
  {
    if n !in from {
      Crowded(from, n);
      assert false;
    }
  }

  lemma CrowdedWithout(from: seq<nat>, n: nat, k: nat)
    requires forall i :: 0 <= i < |from| ==> from[i] < n
    requires forall i, j :: 0 <= i < j < |from| ==> from[i] != from[j]
    requires k < |from| && from[k] == n - 1
    ensures forall i :: 0 <= i < |from| - 1 ==> Omit(from, k)[i] < n - 1
    ensures forall i, j :: 0 <= i < j < |from| - 1 ==> Omit(from, k)[i] != Omit(from, k)[j]
  {
    forall i | 0 <= i < |from| - 1 ensures Omit(from, k)[i] < n - 1 {
      assert from[if i < k then i else i + 1] != from[k];
    }
  }

  lemma {:induction false} Crowded(from: seq<nat>, n: nat)
    requires forall i :: 0 <= i < |from| ==> from[i] < n
    requires forall i, j :: 0 <= i < j < |from| ==> from[i] != from[j]
    ensures |from| <= n
    decreases n
  {
    assert |from| > 0 ==> 0 <= from[0] < n;
    if n > 0 {
      if n - 1 in from {
        var k :| 0 <= k < |from| && from[k] == n - 1;
        CrowdedWithout(from, n, k);
        Crowded(Omit(from, k), n - 1);
      } else {
        assert forall i :: 0 <= i < |from| ==> from[i] in from;
        Crowded(from, n - 1);
      }
    }
  }

  /** One line of the listing: a file, or the link to the parent directory. */
  datatype Line = Parent | File(info: FileInfo)

  function Lines(files: seq<FileInfo>, uri: string): seq<Line> {
    (if uri != "." && uri != "/" then [Parent] else [])
    + seq(|files|, i requires 0 <= i < |files| => File(files[i]))
  }

  /** handleDir: sorts the files in place by name, then by kind, and lists them. */
  method HandleDir(files: array<FileInfo>, uri: string) returns (entries: seq<Line>, ghost from: seq<nat>)
    modifies files
    ensures StableSortOf(DirsThenNames, old(files[..]), files[..], from)
    ensures var up := if uri == "." || uri == "/" then 0 else 1;
            && |entries| == up + files.Length && (up == 1 ==> entries[0] == Parent)
            && forall i :: 0 <= i < files.Length ==> entries[up + i] == File(files[i])
  {
    OrdersAreStrict();
    ghost var first := SliceStable(files, ByName);
    ghost var byName := files[..];
    ghost var second := SliceStable(files, DirsFirst);
    TwoStableSortsAreOne(old(files[..]), byName, files[..], first, second);
    from := Through(first, second);
    entries := ListFiles(files, uri);
    LinesAre(files[..], uri);
  }

  lemma LinesAre(files: seq<FileInfo>, uri: string)
    ensures var lines, up := Lines(files, uri), if uri == "." || uri == "/" then 0 else 1;
            && |lines| == up + |files| && (up == 1 ==> lines[0] == Parent)
            && forall i :: 0 <= i < |files| ==> lines[up + i] == File(files[i])
  {
  }

  method ListFiles(files: array<FileInfo>, uri: string) returns (entries: seq<Line>)
    ensures entries == Lines(files[..], uri)
  {
    entries := [];
    if uri != "." && uri != "/" {
      entries := [Parent];
    }
    for i := 0 to files.Length
      invariant entries == Lines(files[..i], uri)
    {
      assert Lines(files[..i + 1], uri) == Lines(files[..i], uri) + [File(files[i])];
      entries := entries + [File(files[i])];
    }
    assert files[..files.Length] == files[..];
  }
}
