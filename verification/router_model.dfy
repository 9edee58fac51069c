/** The router as a value: what `Mux` holds, with pointers written as indices.
    `heap` lists the entry objects in creation order, `order` is the slice the requests
    scan, `index` is the path map. An object's identity is its position in `heap`. */
module RouterModel {
  import opened GoStrings
  import opened MachineWords

  /** An http.Handler: only its identity matters to the router. */
  type Handler(==, !new)

  /** filepath.Match(pattern, name), with a malformed pattern matching nothing. */
  type Glob = (string, string) -> bool

  datatype MuxHandler = MuxHandler(handler: Handler, id: string)

  datatype Entry = Entry(path: string, handlers: seq<MuxHandler>, next: uint32)

  datatype Router = Router(heap: seq<Entry>, order: seq<nat>, index: map<string, nat>)

  const EMPTY := Router([], [], map[])

  datatype Op =
    | Adding(path: string, handler: Handler, id: string)
    | Removing(path: string, id: string)
    | Serving(path: string)

  // ---------------------------------------------------------------- operations

  /** strings.ContainsAny(path, "*?[]"). */
  predicate IsWildcard(path: string) {
    exists i :: 0 <= i < |path| && path[i] in "*?[]"
  }

  predicate Matches(glob: Glob, pattern: string, path: string) {
    if !IsWildcard(pattern) then
      |pattern| <= |path| && HasPrefix(path, pattern)
    else
      var parts, n := SplitSlash(path), |SplitSlash(pattern)|;
      n <= |parts| && glob(pattern, JoinSlash(parts[..n]))
  }

  /** References point at entries that exist. */
  predicate InBounds(r: Router) {
    && (forall i :: 0 <= i < |r.order| ==> r.order[i] < |r.heap|)
    && (forall p :: p in r.index ==> r.index[p] < |r.heap|)
  }

  /** Where the insertion loop of Add stops, having reached position i. */
  function InsertPosition(r: Router, path: string, i: nat): (at: nat)
    requires InBounds(r) && i <= |r.order|
    ensures i <= at <= |r.order|
    decreases |r.order| - i
  {
    if i == |r.order| then i
    else
      var other := r.heap[r.order[i]].path;
      if !(IsWildcard(path) && !IsWildcard(other)) && |path| > |other| then i
      else InsertPosition(r, path, i + 1)
  }

  function Add(r: Router, path: string, handler: Handler, id: string): (r': Router)
    requires InBounds(r)
    ensures InBounds(r')
  {
    var h := MuxHandler(handler, id);
    if path in r.index then
      var b := r.index[path];
      r.(heap := r.heap[b := r.heap[b].(handlers := r.heap[b].handlers + [h])])
    else
      var b, at := |r.heap|, InsertPosition(r, path, 0);
      Router(r.heap + [Entry(path, [h], 0)],
             r.order[..at] + [b] + r.order[at..],
             r.index[path := b])
  }

  /** The handler list without the first handler carrying the id. */
  function Without(handlers: seq<MuxHandler>, id: string): seq<MuxHandler> {
    if handlers == [] then []
    else if handlers[0].id == id then handlers[1..]
    else [handlers[0]] + Without(handlers[1..], id)
  }

  function Remove(r: Router, path: string, id: string): (r': Router)
    requires InBounds(r)
    ensures InBounds(r')
  {
    if path !in r.index then r
    else
      var b := r.index[path];
      var rest := Without(r.heap[b].handlers, id);
      Router(r.heap[b := r.heap[b].(handlers := rest)],
             r.order,
             if rest == [] then r.index - {path} else r.index)
  }

  /** Go converts the handler count to uint32 before testing it. */
  predicate Serves(e: Entry) {
    |e.handlers| % WORD != 0
  }

  /** The slot the wrapping rotation counter selects once it has been incremented. */
  function Slot(e: Entry): (slot: nat)
    requires Serves(e)
    ensures slot < |e.handlers|
  {
    ((e.next + 1) % WORD) % (|e.handlers| % WORD)
  }

  /** The scan of Handler from slice position i: the entry object that answers. */
  function Scan(glob: Glob, r: Router, path: string, i: nat): (b: Option<nat>)
    requires InBounds(r) && i <= |r.order|
    ensures b.Some? ==> b.value < |r.heap| && Serves(r.heap[b.value])
    decreases |r.order| - i
  {
    if i == |r.order| then None
    else
      var e := r.heap[r.order[i]];
      if Matches(glob, e.path, path) && Serves(e) then Some(r.order[i])
      else Scan(glob, r, path, i + 1)
  }

  function Route(glob: Glob, r: Router, path: string): (b: Option<nat>)
    requires InBounds(r)
    ensures b.Some? ==> b.value < |r.heap| && Serves(r.heap[b.value])
  {
    Scan(glob, r, path, 0)
  }

  /** What entry b gives the next request, and the router after that: its counter moves. */
  function Answer(r: Router, b: nat): Handler
    requires b < |r.heap| && Serves(r.heap[b])
  {
    r.heap[b].handlers[Slot(r.heap[b])].handler
  }

  function Advance(r: Router, b: nat): (r': Router)
    requires InBounds(r) && b < |r.heap|
    ensures InBounds(r')
  {
    r.(heap := r.heap[b := r.heap[b].(next := (r.heap[b].next + 1) % WORD)])
  }

  function Served(glob: Glob, r: Router, path: string): Option<Handler>
    requires InBounds(r)
  {
    match Route(glob, r, path)
    case None => None
    case Some(b) => Some(Answer(r, b))
  }

  function AfterServing(glob: Glob, r: Router, path: string): (r': Router)
    requires InBounds(r)
    ensures InBounds(r')
  {
    match Route(glob, r, path)
    case None => r
    case Some(b) => Advance(r, b)
  }

  function Apply(glob: Glob, r: Router, op: Op): (r': Router)
    requires InBounds(r)
    ensures InBounds(r')
  {
    match op
    case Adding(path, handler, id) => Add(r, path, handler, id)
    case Removing(path, id) => Remove(r, path, id)
    case Serving(path) => AfterServing(glob, r, path)
  }

  function Run(glob: Glob, r: Router, ops: seq<Op>): (r': Router)
    requires InBounds(r)
    ensures InBounds(r')
    decreases |ops|
  {
    if ops == [] then r else Run(glob, Apply(glob, r, ops[0]), ops[1..])
  }

  lemma RunCons(glob: Glob, r: Router, op: Op, ops: seq<Op>)
    requires InBounds(r)
    ensures Run(glob, r, [op] + ops) == Run(glob, Apply(glob, r, op), ops)
  {
    assert ([op] + ops)[1..] == ops;
  }

  // ---------------------------------------------------------------- invariant

  /** May an entry for `front` stand before an entry for `back` in the slice? */
  predicate MayPrecede(front: string, back: string) {
    |front| >= |back| || (!IsWildcard(front) && IsWildcard(back))
  }

  /** The slice holds every entry object ever created, once. */
  ghost predicate EachOnce(r: Router)
    requires InBounds(r)
  {
    && (forall b: nat :: b < |r.heap| ==> b in r.order)
    && (forall i, j :: 0 <= i < j < |r.order| ==> r.order[i] != r.order[j])
  }

  ghost predicate SliceOrdered(r: Router)
    requires InBounds(r)
  {
    forall i, j :: 0 <= i < j < |r.order| ==>
      MayPrecede(r.heap[r.order[i]].path, r.heap[r.order[j]].path)
  }

  /** The map indexes exactly the entries that have a handler, under their own path. */
  ghost predicate IndexExact(r: Router)
    requires InBounds(r)
  {
    && (forall p :: p in r.index ==>
          r.heap[r.index[p]].path == p && r.heap[r.index[p]].handlers != [])
    && (forall b: nat :: b < |r.heap| && r.heap[b].handlers != [] ==>
          r.heap[b].path in r.index && r.index[r.heap[b].path] == b)
  }

  ghost predicate Inv(r: Router) {
    InBounds(r) && EachOnce(r) && SliceOrdered(r) && IndexExact(r)
  }

  /** Inserting a fresh reference into the slice keeps one reference to every object. */
  lemma InsertedOnce(order: seq<nat>, at: nat, b: nat)
    requires at <= |order|
    requires forall c: nat :: c < b <==> c in order
    requires forall i, j :: 0 <= i < j < |order| ==> order[i] != order[j]
    ensures var order' := order[..at] + [b] + order[at..];
            && (forall c: nat :: c < b + 1 <==> c in order')
            && (forall i, j :: 0 <= i < j < |order'| ==> order'[i] != order'[j])
  {
    var order' := order[..at] + [b] + order[at..];
    assert order == order[..at] + order[at..];
    assert forall c: nat :: c in order' <==> c == b || c in order;
    forall i, j | 0 <= i < j < |order'| ensures order'[i] != order'[j] {
      var i', j' := if i < at then i else i - 1, if j < at then j else j - 1;
      if i != at && j != at {
        assert order[i'] == order'[i] && order[j'] == order'[j];
      } else if i == at {
        assert order[j'] == order'[j] && order'[j] in order;
      } else {
        assert order[i'] == order'[i] && order'[i] in order;
      }
    }
  }

  lemma InsertedInOrder(r: Router, path: string, handler: Handler, id: string)
    requires Inv(r) && path !in r.index
    ensures SliceOrdered(Add(r, path, handler, id))
  {
    var r', at := Add(r, path, handler, id), InsertPosition(r, path, 0);
    InsertionFits(r, path, 0);
    forall i, j | 0 <= i < j < |r'.order|
      ensures MayPrecede(r'.heap[r'.order[i]].path, r'.heap[r'.order[j]].path)
    {
      if i == at {
        assert r'.order[j] == r.order[j - 1];
      } else if j == at {
        assert r'.order[i] == r.order[i];
      } else {
        var i', j' := if i < at then i else i - 1, if j < at then j else j - 1;
        assert r.order[i'] == r'.order[i] && r.order[j'] == r'.order[j];
        assert MayPrecede(r.heap[r.order[i']].path, r.heap[r.order[j']].path);
      }
    }
  }

  /** The position the insertion loop stops at suits the new path on both sides. */
  lemma {:induction false} InsertionFits(r: Router, path: string, i: nat)
    requires InBounds(r) && SliceOrdered(r) && i <= |r.order|
    ensures var at := InsertPosition(r, path, i);
            && (forall k :: i <= k < at ==> MayPrecede(r.heap[r.order[k]].path, path))
            && (forall k :: at <= k < |r.order| ==> MayPrecede(path, r.heap[r.order[k]].path))
    decreases |r.order| - i
  {
    if i < |r.order| {
      var other := r.heap[r.order[i]].path;
      if !(IsWildcard(path) && !IsWildcard(other)) && |path| > |other| {
        forall k | i < k < |r.order| ensures MayPrecede(path, r.heap[r.order[k]].path) {
          assert MayPrecede(other, r.heap[r.order[k]].path);
        }
      } else {
        InsertionFits(r, path, i + 1);
      }
    }
  }

  lemma AddKeepsInv(r: Router, path: string, handler: Handler, id: string)
    requires Inv(r)
    ensures Inv(Add(r, path, handler, id))
  {
    if path !in r.index {
      assert forall c: nat :: c in r.order ==> c < |r.heap|;
      InsertedOnce(r.order, InsertPosition(r, path, 0), |r.heap|);
      InsertedInOrder(r, path, handler, id);
    } else {
      SameSlice(r, Add(r, path, handler, id));
    }
  }

  lemma RemoveKeepsInv(r: Router, path: string, id: string)
    requires Inv(r)
    ensures Inv(Remove(r, path, id))
  {
    SameSlice(r, Remove(r, path, id));
  }

  lemma ServingKeepsInv(glob: Glob, r: Router, path: string)
    requires Inv(r)
    ensures Inv(AfterServing(glob, r, path))
  {
    SameSlice(r, AfterServing(glob, r, path));
  }

  lemma SameSlice(r: Router, r': Router)
    requires Inv(r) && InBounds(r') && r'.order == r.order && |r'.heap| == |r.heap|
    requires forall b :: 0 <= b < |r.heap| ==> r'.heap[b].path == r.heap[b].path
    ensures EachOnce(r') && SliceOrdered(r')
  {
    forall i, j | 0 <= i < j < |r'.order|
      ensures MayPrecede(r'.heap[r'.order[i]].path, r'.heap[r'.order[j]].path)
    {
      assert MayPrecede(r.heap[r.order[i]].path, r.heap[r.order[j]].path);
    }
  }

  lemma ApplyKeepsInv(glob: Glob, r: Router, op: Op)
    requires Inv(r)
    ensures Inv(Apply(glob, r, op))
  {
    match op {
      case Adding(path, handler, id) => AddKeepsInv(r, path, handler, id);
      case Removing(path, id) => RemoveKeepsInv(r, path, id);
      case Serving(path) => ServingKeepsInv(glob, r, path);
    }
  }

  lemma {:induction false} RunKeepsInv(glob: Glob, r: Router, ops: seq<Op>)
    requires Inv(r)
    ensures Inv(Run(glob, r, ops))
    decreases |ops|
  {
    if ops != [] {
      ApplyKeepsInv(glob, r, ops[0]);
      RunKeepsInv(glob, Apply(glob, r, ops[0]), ops[1..]);
    }
  }

  /** Whatever requests and updates arrive, the slice and index invariants hold. */
  lemma ReachableInv(glob: Glob, ops: seq<Op>)
    ensures Inv(Run(glob, EMPTY, ops))
  {
    RunKeepsInv(glob, EMPTY, ops);
  }
}
