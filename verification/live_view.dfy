/** The router seen from outside: a map from live paths to handler lists, plus what the
    entry objects never do. */
module LiveView {
  import opened GoStrings
  import opened RouterModel

  type LiveMap = map<string, seq<MuxHandler>>

  ghost function Live(r: Router): LiveMap
    requires InBounds(r)
  {
    map p | p in r.index :: r.heap[r.index[p]].handlers
  }

  function HandlersAt(m: LiveMap, path: string): seq<MuxHandler> {
    if path in m then m[path] else []
  }

  /** The same operation on a plain map: no slice, no dead entries, no counters. */
  ghost function ApplyToMap(m: LiveMap, op: Op): LiveMap {
    match op
    case Adding(path, handler, id) => m[path := HandlersAt(m, path) + [MuxHandler(handler, id)]]
    case Removing(path, id) =>
      var rest := Without(HandlersAt(m, path), id);
      if rest == [] then m - {path} else m[path := rest]
    case Serving(_) => m
  }

  ghost function RunOnMap(m: LiveMap, ops: seq<Op>): LiveMap
    decreases |ops|
  {
    if ops == [] then m else RunOnMap(ApplyToMap(m, ops[0]), ops[1..])
  }

  lemma AddRefinesMap(r: Router, path: string, handler: Handler, id: string)
    requires Inv(r)
    ensures Live(Add(r, path, handler, id))
            == Live(r)[path := HandlersAt(Live(r), path) + [MuxHandler(handler, id)]]
  {
    var r', m := Add(r, path, handler, id), Live(r);
    var m' := m[path := HandlersAt(m, path) + [MuxHandler(handler, id)]];
    forall p | p in r'.index ensures Live(r')[p] == m'[p] {
      if p != path && path in r.index {
        assert r.index[p] != r.index[path];
      } else if path !in r.index {
        assert HandlersAt(m, path) == [];
      }
    }
    assert r'.index.Keys == m'.Keys;
  }

  lemma RemoveRefinesMap(r: Router, path: string, id: string)
    requires Inv(r)
    ensures Live(Remove(r, path, id)) == ApplyToMap(Live(r), Removing(path, id))
  {
    if path in r.index {
      assert forall p :: p in r.index && p != path ==> r.index[p] != r.index[path];
    } else {
      assert Without([], id) == [];
    }
  }

  lemma ApplyRefinesMap(glob: Glob, r: Router, op: Op)
    requires Inv(r)
    ensures Live(Apply(glob, r, op)) == ApplyToMap(Live(r), op)
  {
    match op {
      case Adding(path, handler, id) => AddRefinesMap(r, path, handler, id);
      case Removing(path, id) => RemoveRefinesMap(r, path, id);
      case Serving(path) =>
    }
  }

  /** Slice, index and objects together behave as one map, over every history. */
  lemma {:induction false} RunRefinesMap(glob: Glob, r: Router, ops: seq<Op>)
    requires Inv(r)
    ensures Inv(Run(glob, r, ops))
    ensures Live(Run(glob, r, ops)) == RunOnMap(Live(r), ops)
    decreases |ops|
  {
    if ops != [] {
      ApplyKeepsInv(glob, r, ops[0]);
      ApplyRefinesMap(glob, r, ops[0]);
      RunRefinesMap(glob, Apply(glob, r, ops[0]), ops[1..]);
    }
  }

  // ---------------------------------------------------------------- entry objects

  /** The slice restricted to the first n objects created. */
  function OldPart(order: seq<nat>, n: nat): seq<nat> {
    if order == [] then []
    else (if order[0] < n then [order[0]] else []) + OldPart(order[1..], n)
  }

  lemma {:induction false} OldPartConcat(a: seq<nat>, b: seq<nat>, n: nat)
    ensures OldPart(a + b, n) == OldPart(a, n) + OldPart(b, n)
  {
    if a == [] {
      assert a + b == b;
    } else {
      assert (a + b)[0] == a[0] && (a + b)[1..] == a[1..] + b;
      OldPartConcat(a[1..], b, n);
      var head := if a[0] < n then [a[0]] else [];
      assert head + (OldPart(a[1..], n) + OldPart(b, n)) == OldPart(a, n) + OldPart(b, n);
    }
  }

  lemma {:induction false} OldPartNested(order: seq<nat>, n: nat, m: nat)
    requires n <= m
    ensures OldPart(OldPart(order, m), n) == OldPart(order, n)
  {
    if order != [] {
      OldPartNested(order[1..], n, m);
      var head := if order[0] < m then [order[0]] else [];
      OldPartConcat(head, OldPart(order[1..], m), n);
    }
  }

  lemma {:induction false} OldPartAll(order: seq<nat>, n: nat)
    requires forall i :: 0 <= i < |order| ==> order[i] < n
    ensures OldPart(order, n) == order
  {
    if order != [] {
      assert order == [order[0]] + order[1..];
      OldPartAll(order[1..], n);
    }
  }

  /** Entry objects keep their path and their relative slice position, and an object that
      has lost its last handler never gets another one. */
  ghost predicate Continues(r: Router, r': Router) {
    && |r.heap| <= |r'.heap|
    && OldPart(r'.order, |r.heap|) == r.order
    && forall b :: 0 <= b < |r.heap| ==>
         && r'.heap[b].path == r.heap[b].path
         && (r.heap[b].handlers == [] ==> r'.heap[b] == r.heap[b])
  }

  lemma OldPartNew(front: seq<nat>, n: nat)
    requires OldPart(front, n) == front
    ensures OldPart(front + [n], n) == front
  {
    OldPartConcat(front, [n], n);
    assert OldPart([n], n) == [];
    assert front + [] == front;
  }

  lemma InsertionContinues(order: seq<nat>, at: nat, n: nat)
    requires at <= |order| && forall i :: 0 <= i < |order| ==> order[i] < n
    ensures OldPart(order[..at] + [n] + order[at..], n) == order
  {
    var front, back := order[..at], order[at..];
    OldPartAll(front, n);
    OldPartAll(back, n);
    OldPartNew(front, n);
    OldPartConcat(front + [n], back, n);
    assert front + back == order;
  }

  lemma NewEntryContinues(r: Router, path: string, handler: Handler, id: string)
    requires Inv(r) && path !in r.index
    ensures Continues(r, Add(r, path, handler, id))
  {
    InsertionContinues(r.order, InsertPosition(r, path, 0), |r.heap|);
  }

  /** An operation on one entry that has handlers leaves the slice and the others alone. */
  lemma ChangedEntryContinues(r: Router, r': Router, b: nat)
    requires InBounds(r) && b < |r.heap| && r.heap[b].handlers != []
    requires r'.order == r.order && |r'.heap| == |r.heap| && r'.heap[b].path == r.heap[b].path
    requires forall c :: 0 <= c < |r.heap| && c != b ==> r'.heap[c] == r.heap[c]
    ensures Continues(r, r')
  {
    OldPartAll(r.order, |r.heap|);
  }

  lemma ServingContinues(glob: Glob, r: Router, path: string)
    requires Inv(r)
    ensures Continues(r, AfterServing(glob, r, path))
  {
    OldPartAll(r.order, |r.heap|);
    if Route(glob, r, path).Some? {
      ChangedEntryContinues(r, AfterServing(glob, r, path), Route(glob, r, path).value);
    }
  }

  lemma ApplyContinues(glob: Glob, r: Router, op: Op)
    requires Inv(r)
    ensures Continues(r, Apply(glob, r, op))
  {
    if op.Serving? {
      ServingContinues(glob, r, op.path);
    } else if op.path in r.index {
      ChangedEntryContinues(r, Apply(glob, r, op), r.index[op.path]);
    } else if op.Adding? {
      NewEntryContinues(r, op.path, op.handler, op.id);
    } else {
      OldPartAll(r.order, |r.heap|);
    }
  }

  lemma {:induction false} RunContinues(glob: Glob, r: Router, ops: seq<Op>)
    requires Inv(r)
    ensures Continues(r, Run(glob, r, ops))
    decreases |ops|
  {
    if ops == [] {
      OldPartAll(r.order, |r.heap|);
    } else {
      var next := Apply(glob, r, ops[0]);
      ApplyKeepsInv(glob, r, ops[0]);
      ApplyContinues(glob, r, ops[0]);
      RunContinues(glob, next, ops[1..]);
      OldPartNested(Run(glob, r, ops).order, |r.heap|, |next.heap|);
    }
  }

  // ---------------------------------------------------------------- copies of a pair

  function CountId(handlers: seq<MuxHandler>, id: string): nat {
    if handlers == [] then 0
    else (if handlers[0].id == id then 1 else 0) + CountId(handlers[1..], id)
  }

  /** How many live handlers a (path, id) pair has. */
  function Copies(r: Router, path: string, id: string): nat
    requires InBounds(r)
  {
    if path in r.index then CountId(r.heap[r.index[path]].handlers, id) else 0
  }

  lemma {:induction false} CountAppend(handlers: seq<MuxHandler>, h: MuxHandler, id: string)
    ensures CountId(handlers + [h], id) == CountId(handlers, id) + if h.id == id then 1 else 0
  {
    if handlers != [] {
      CountAppend(handlers[1..], h, id);
      assert (handlers + [h])[1..] == handlers[1..] + [h];
    }
  }

  lemma {:induction false} CountWithout(handlers: seq<MuxHandler>, gone: string, id: string)
    ensures CountId(Without(handlers, gone), id)
            == if gone == id && CountId(handlers, id) > 0 then CountId(handlers, id) - 1
               else CountId(handlers, id)
  {
    if handlers != [] && handlers[0].id != gone {
      CountWithout(handlers[1..], gone, id);
    }
  }

  lemma {:induction false} CountPositive(handlers: seq<MuxHandler>, i: nat)
    requires i < |handlers|
    ensures CountId(handlers, handlers[i].id) > 0
  {
    if i > 0 {
      CountPositive(handlers[1..], i - 1);
    }
  }

  lemma AddCopies(r: Router, path: string, handler: Handler, id: string, p: string, i: string)
    requires Inv(r)
    ensures Copies(Add(r, path, handler, id), p, i)
            == Copies(r, p, i) + if p == path && i == id then 1 else 0
  {
    var h := MuxHandler(handler, id);
    if path in r.index {
      CountAppend(r.heap[r.index[path]].handlers, h, i);
    } else {
      assert CountId([h], i) == if id == i then 1 else 0;
    }
  }

  lemma RemoveCopies(r: Router, path: string, id: string, p: string, i: string)
    requires Inv(r)
    ensures Copies(Remove(r, path, id), p, i)
            == if p == path && i == id && Copies(r, p, i) > 0 then Copies(r, p, i) - 1
               else Copies(r, p, i)
  {
    if path in r.index {
      CountWithout(r.heap[r.index[path]].handlers, id, i);
    }
  }

  /** A path is live exactly when one of its pairs has a copy. */
  lemma LiveIffSomeCopy(r: Router, path: string)
    requires Inv(r)
    ensures path in r.index <==> exists id :: Copies(r, path, id) > 0
  {
    if path in r.index {
      var handlers := r.heap[r.index[path]].handlers;
      CountPositive(handlers, 0);
      assert Copies(r, path, handlers[0].id) > 0;
    }
  }
}
