/** The router as it is: entry objects changed in place, a slice with spare capacity, and a
    path map. Every method is tied to the same operation on the router value. */
module Mux {
  import opened GoStrings
  import opened MachineWords
  import opened RouterModel

  class MuxEntry {
    const path: string
    const wildcard: bool
    const parts: seq<string>
    var handlers: seq<MuxHandler>
    var next: uint32

    ghost predicate Derived() {
      wildcard == IsWildcard(path) && parts == SplitSlash(path)
    }

    ghost function View(): Entry
      reads this
    {
      Entry(path, handlers, next)
    }

    constructor (path: string)
      ensures Derived() && View() == Entry(path, [], 0)
    {
      this.path := path;
      wildcard := IsWildcard(path);
      parts := SplitSlash(path);
      handlers := [];
      next := 0;
    }

    predicate Match(glob: Glob, request: string)
      requires Derived()
      ensures Match(glob, request) == Matches(glob, path, request)
    {
      if !wildcard then |request| >= |path| && HasPrefix(request, path)
      else
        var pieces := SplitSlash(request);
        |pieces| >= |parts| && glob(path, JoinSlash(pieces[..|parts|]))
    }

    method Add(handler: Handler, id: string)
      modifies this
      ensures View() == old(View()).(handlers := old(handlers) + [MuxHandler(handler, id)])
    {
      handlers := handlers + [MuxHandler(handler, id)];
    }

    method Remove(id: string)
      modifies this
      ensures View() == old(View()).(handlers := Without(old(handlers), id))
    {
      for i := 0 to |handlers|
        invariant handlers == old(handlers) && next == old(next)
        invariant forall j :: 0 <= j < i ==> handlers[j].id != id
      {
        if handlers[i].id == id {
          WithoutFirst(handlers, id, i);
          handlers := handlers[..i] + handlers[i + 1..];
          return;
        }
      }
      WithoutAbsent(handlers, id);
    }

    /** The next handler in rotation, or None without touching the counter. */
    method Handler() returns (handler: Option<Handler>)
      modifies this
      ensures !Serves(old(View())) ==> handler == None && View() == old(View())
      ensures Serves(old(View())) ==>
                && handler == Some(old(handlers)[Slot(old(View()))].handler)
                && View() == old(View()).(next := (old(next) + 1) % WORD)
    {
      var handlersCount := |handlers| % WORD;
      if handlersCount == 0 {
        return None;
      }
      next := (next + 1) % WORD;
      handler := Some(handlers[next % handlersCount].handler);
    }
  }

  lemma {:induction false} WithoutFirst(handlers: seq<MuxHandler>, id: string, i: nat)
    requires i < |handlers| && handlers[i].id == id
    requires forall j :: 0 <= j < i ==> handlers[j].id != id
    ensures Without(handlers, id) == handlers[..i] + handlers[i + 1..]
  {
    if i > 0 {
      WithoutFirst(handlers[1..], id, i - 1);
    }
  }

  lemma {:induction false} WithoutAbsent(handlers: seq<MuxHandler>, id: string)
    requires forall j :: 0 <= j < |handlers| ==> handlers[j].id != id
    ensures Without(handlers, id) == handlers
  {
    if handlers != [] {
      WithoutAbsent(handlers[1..], id);
    }
  }

  /** A Go slice of entries: a backing array and how much of it is in use. */
  class EntrySlice {
    var data: array<MuxEntry?>
    var len: nat
    ghost var contents: seq<MuxEntry>

    ghost predicate Valid()
      reads this, data
    {
      && len == |contents| <= data.Length
      && forall i :: 0 <= i < len ==> data[i] == contents[i]
    }

    constructor ()
      ensures Valid() && contents == [] && fresh(data)
    {
      data := new MuxEntry?[0];
      len := 0;
      contents := [];
    }

    /** append(s, e): reuses the backing array when it has room. */
    method Append(e: MuxEntry)
      requires Valid()
      modifies this, data
      ensures Valid() && contents == old(contents) + [e]
      ensures data == old(data) || fresh(data)
    {
      if len == data.Length {
        var grown := new MuxEntry?[2 * len + 1];
        forall k | 0 <= k < len {
          grown[k] := data[k];
        }
        data := grown;
      }
      data[len] := e;
      len := len + 1;
      contents := contents + [e];
    }

    /** append(s[:at+1], s[at:]...): the tail moves up by one. With room to spare it moves
        over itself, so it has to be moved from its far end. */
    method OpenGap(at: nat)
      requires Valid() && at < len
      modifies this`data, data
      ensures len < data.Length && (data == old(data) || fresh(data))
      ensures forall i :: 0 <= i < at ==> data[i] == contents[i]
      ensures forall i :: at < i <= len ==> data[i] == contents[i - 1]
    {
      if len < data.Length {
        var k := len;
        while k > at
          invariant at <= k <= len && data == old(data)
          invariant forall i :: 0 <= i < k ==> data[i] == contents[i]
          invariant forall i :: k < i <= len ==> data[i] == contents[i - 1]
        {
          data[k] := data[k - 1];
          k := k - 1;
        }
      } else {
        var grown := new MuxEntry?[2 * len + 1];
        forall k | 0 <= k <= at {
          grown[k] := data[k];
        }
        forall k | at < k <= len {
          grown[k] := data[k - 1];
        }
        data := grown;
      }
    }

    /** The tail moves up, then s[at] = e. */
    method Insert(at: nat, e: MuxEntry)
      requires Valid() && at < len
      modifies this, data
      ensures Valid() && contents == old(contents)[..at] + [e] + old(contents)[at..]
      ensures data == old(data) || fresh(data)
    {
      OpenGap(at);
      data[at] := e;
      len := len + 1;
      contents := contents[..at] + [e] + contents[at..];
    }
  }

  class Mux {
    const glob: Glob
    const entries: EntrySlice
    var entryMap: map<string, MuxEntry>
    ghost var objects: seq<MuxEntry>
    ghost var router: Router

    /** The slice points at the objects the router value says. */
    ghost predicate SliceLinked()
      reads this, entries, entries.data
    {
      && entries.Valid() && InBounds(router)
      && |objects| == |router.heap|
      && |entries.contents| == |router.order|
      && (forall i :: 0 <= i < |router.order| ==> entries.contents[i] == objects[router.order[i]])
    }

    ghost predicate IndexLinked()
      reads this
    {
      && InBounds(router) && |objects| == |router.heap|
      && entryMap.Keys == router.index.Keys
      && (forall p :: p in entryMap ==> entryMap[p] == objects[router.index[p]])
    }

    /** The objects are distinct and hold what the router value says. */
    ghost predicate Mirrored()
      reads this, objects
    {
      && |objects| == |router.heap|
      && (forall b, c :: 0 <= b < c < |objects| ==> objects[b] != objects[c])
      && forall b :: 0 <= b < |objects| ==>
           objects[b].Derived() && objects[b].View() == router.heap[b]
    }

    ghost predicate Linked()
      reads this, entries, entries.data, objects
    {
      SliceLinked() && IndexLinked() && Mirrored()
    }

    ghost predicate Valid()
      reads this, entries, entries.data, objects
    {
      Linked() && Inv(router)
    }

    constructor (glob: Glob)
      ensures Valid() && router == EMPTY && this.glob == glob
      ensures fresh(entries) && fresh(entries.data) && objects == []
    {
      this.glob := glob;
      entries := new EntrySlice();
      entryMap := map[];
      objects := [];
      router := EMPTY;
    }

    method Add(path: string, handler: Handler, id: string)
      requires Valid()
      modifies this, entries, entries.data, objects
      ensures Valid() && router == RouterModel.Add(old(router), path, handler, id)
      ensures entries.data == old(entries.data) || fresh(entries.data)
      ensures forall i :: 0 <= i < |objects| ==> objects[i] in old(objects) || fresh(objects[i])
    {
      AddKeepsInv(router, path, handler, id);
      if path in entryMap {
        AddToEntry(path, handler, id);
      } else {
        AddEntry(path, handler, id);
      }
    }

    method AddToEntry(path: string, handler: Handler, id: string)
      requires Linked() && path in entryMap
      modifies this, objects
      ensures Linked() && router == RouterModel.Add(old(router), path, handler, id)
      ensures entries.data == old(entries.data) && objects == old(objects)
    {
      var entry := entryMap[path];
      entry.Add(handler, id);
      router := RouterModel.Add(router, path, handler, id);
    }

    method AddEntry(path: string, handler: Handler, id: string)
      requires Linked() && path !in entryMap
      modifies this, entries, entries.data
      ensures Linked() && router == RouterModel.Add(old(router), path, handler, id)
      ensures entries.data == old(entries.data) || fresh(entries.data)
      ensures forall i :: 0 <= i < |objects| ==> objects[i] in old(objects) || fresh(objects[i])
    {
      var entry := NewEntry(path, handler, id);
      entryMap := entryMap[path := entry];
      assert SliceLinked() && Mirrored() && entry !in objects;
      PlaceInSlice(entry);
      Adopt(entry, handler, id, old(entries.contents));
    }

    static method NewEntry(path: string, handler: Handler, id: string) returns (entry: MuxEntry)
      ensures fresh(entry) && entry.Derived()
      ensures entry.View() == Entry(path, [MuxHandler(handler, id)], 0)
    {
      entry := new MuxEntry(path);
      entry.Add(handler, id);
    }

    /** Brings the ghost description up to date with a new entry that is in place. */
    ghost method Adopt(entry: MuxEntry, handler: Handler, id: string, was: seq<MuxEntry>)
      requires Mirrored() && InBounds(router) && |was| == |router.order|
      requires forall i :: 0 <= i < |router.order| ==> was[i] == objects[router.order[i]]
      requires entry !in objects && entry.Derived() && entry.path !in router.index
      requires entry.View() == Entry(entry.path, [MuxHandler(handler, id)], 0)
      requires entryMap.Keys == router.index.Keys + {entry.path} && entryMap[entry.path] == entry
      requires forall p :: p in router.index ==> entryMap[p] == objects[router.index[p]]
      requires entries.Valid()
      requires var at := InsertPosition(router, entry.path, 0);
               entries.contents == was[..at] + [entry] + was[at..]
      modifies this`objects, this`router
      ensures Linked() && router == RouterModel.Add(old(router), entry.path, handler, id)
      ensures objects == old(objects) + [entry]
    {
      InsertedLinks(was, objects, router.order, InsertPosition(router, entry.path, 0), entry);
      IndexedLinks(entryMap, objects, router.index, entry.path, entry);
      MirroredToo(entry);
      objects := objects + [entry];
      router := RouterModel.Add(router, entry.path, handler, id);
    }

    lemma MirroredToo(entry: MuxEntry)
      requires Mirrored() && entry !in objects && entry.Derived()
      ensures var objects', heap' := objects + [entry], router.heap + [entry.View()];
              && (forall b, c :: 0 <= b < c < |objects'| ==> objects'[b] != objects'[c])
              && forall b :: 0 <= b < |objects'| ==> objects'[b].Derived() && objects'[b].View() == heap'[b]
    {
    }

    /** The insertion loop of Add: in front of the first entry the new one has to precede. */
    method PlaceInSlice(entry: MuxEntry)
      requires SliceLinked() && Mirrored() && entry.Derived()
      modifies entries, entries.data
      ensures entries.Valid()
      ensures var at, was := InsertPosition(router, entry.path, 0), old(entries.contents);
              entries.contents == was[..at] + [entry] + was[at..]
      ensures entries.data == old(entries.data) || fresh(entries.data)
    {
      for i := 0 to entries.len
        invariant SliceLinked() && Mirrored()
        invariant entries.contents == old(entries.contents) && entries.data == old(entries.data)
        invariant InsertPosition(router, entry.path, 0) == InsertPosition(router, entry.path, i)
      {
        var other := entries.data[i];
        assert other.View() == router.heap[router.order[i]];
        if entry.wildcard && !other.wildcard {
          continue;
        }
        if |entry.path| > |other.path| {
          entries.Insert(i, entry);
          return;
        }
      }
      entries.Append(entry);
    }

    method Remove(path: string, id: string)
      requires Valid()
      modifies this, objects
      ensures Valid() && router == RouterModel.Remove(old(router), path, id)
      ensures entries.data == old(entries.data) && objects == old(objects)
    {
      RemoveKeepsInv(router, path, id);
      if path in entryMap {
        RemoveFromEntry(path, id);
      }
    }

    method RemoveFromEntry(path: string, id: string)
      requires Linked() && path in entryMap
      modifies this, objects
      ensures Linked() && router == RouterModel.Remove(old(router), path, id)
      ensures entries.data == old(entries.data) && objects == old(objects)
    {
      var entry := entryMap[path];
      entry.Remove(id);
      if |entry.handlers| == 0 {
        entryMap := entryMap - {path};
      }
      router := RouterModel.Remove(router, path, id);
    }

    method Handler(path: string) returns (handler: Option<Handler>)
      requires Valid()
      modifies this, objects
      ensures Valid() && router == AfterServing(glob, old(router), path)
      ensures handler == Served(glob, old(router), path)
      ensures entries.data == old(entries.data) && objects == old(objects)
    {
      ServingKeepsInv(glob, router, path);
      handler := ScanEntries(path);
    }

    method ScanEntries(path: string) returns (handler: Option<Handler>)
      requires Linked()
      modifies this, objects
      ensures Linked() && router == AfterServing(glob, old(router), path)
      ensures handler == Served(glob, old(router), path)
      ensures entries.data == old(entries.data) && objects == old(objects)
    {
      for i := 0 to entries.len
        invariant Linked() && router == old(router) && objects == old(objects)
        invariant entries.data == old(entries.data) && entries.len == old(entries.len)
        invariant Route(glob, router, path) == Scan(glob, router, path, i)
      {
        handler := TryEntry(i, path);
        if handler.Some? {
          return;
        }
      }
      handler := None;
    }

    /** One step of the scan: the entry at slice position i answers if it matches and serves. */
    method TryEntry(i: nat, path: string) returns (handler: Option<Handler>)
      requires Linked() && i < |router.order|
      modifies this, objects
      ensures Linked()
      ensures entries.data == old(entries.data) && objects == old(objects)
      ensures var r, b := old(router), old(router).order[i];
              if Matches(glob, r.heap[b].path, path) && Serves(r.heap[b])
              then handler == Some(Answer(r, b)) && router == Advance(r, b)
              else handler == None && router == r
    {
      var entry := entries.data[i];
      ghost var b := router.order[i];
      assert entry == objects[b] && entry.View() == router.heap[b];
      handler := None;
      if entry.Match(glob, path) {
        handler := entry.Handler();
        if handler.Some? {
          router := Advance(router, b);
        }
      }
    }
  }

  lemma IndexedLinks(entryMap: map<string, MuxEntry>, objects: seq<MuxEntry>, index: map<string, nat>,
                     path: string, e: MuxEntry)
    requires entryMap.Keys == index.Keys + {path} && entryMap[path] == e && path !in index
    requires forall p :: p in index ==> index[p] < |objects| && entryMap[p] == objects[index[p]]
    ensures var objects', index' := objects + [e], index[path := |objects|];
            entryMap.Keys == index'.Keys && forall p :: p in entryMap ==> entryMap[p] == objects'[index'[p]]
  {
  }

  /** Inserting into the slice and its description alike keeps them in correspondence. */
  lemma InsertedLinks(contents: seq<MuxEntry>, objects: seq<MuxEntry>, order: seq<nat>, at: nat, e: MuxEntry)
    requires |contents| == |order| && at <= |order|
    requires forall i :: 0 <= i < |order| ==> order[i] < |objects| && contents[i] == objects[order[i]]
    ensures var contents', objects' := contents[..at] + [e] + contents[at..], objects + [e];
            var order' := order[..at] + [|objects|] + order[at..];
            forall i :: 0 <= i < |order'| ==>
              order'[i] < |objects'| && contents'[i] == objects'[order'[i]]
  {
  }
}
