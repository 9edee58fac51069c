/** Which of several contenders answers: slice positions are settled when an entry is created
    and never change afterwards. */
module Precedence {
  import opened GoStrings
  import opened MachineWords
  import opened RouterModel
  import opened LiveView
  import opened Routing

  /** Entry a is scanned before entry b. */
  ghost predicate Before(order: seq<nat>, a: nat, b: nat) {
    exists i, j :: 0 <= i < j < |order| && order[i] == a && order[j] == b
  }

  /** Entry b matches the request and has a handler for it. */
  predicate Willing(glob: Glob, r: Router, path: string, b: nat) {
    b < |r.heap| && Matches(glob, r.heap[b].path, path) && Serves(r.heap[b])
  }

  lemma EitherIsBefore(r: Router, a: nat, b: nat)
    requires Inv(r) && a < |r.heap| && b < |r.heap| && a != b
    ensures Before(r.order, a, b) <==> !Before(r.order, b, a)
  {
    assert a in r.order && b in r.order;
    var i :| 0 <= i < |r.order| && r.order[i] == a;
    var j :| 0 <= j < |r.order| && r.order[j] == b;
    assert if i < j then Before(r.order, a, b) else Before(r.order, b, a);
  }

  /** The answer is the willing entry in front of all other willing entries. */
  lemma RouteIsFrontmost(glob: Glob, r: Router, path: string, b: nat)
    requires Inv(r)
    ensures Route(glob, r, path) == Some(b) <==>
              && Willing(glob, r, path, b)
              && forall c :: Willing(glob, r, path, c) && c != b ==> Before(r.order, b, c)
  {
    if Route(glob, r, path).Some? {
      var a := Route(glob, r, path).value;
      FrontmostFound(glob, r, path, a);
      if Willing(glob, r, path, b) && a != b {
        EitherIsBefore(r, a, b);
      }
    } else if Willing(glob, r, path, b) {
      RefusalMeansNoneWilling(glob, r, path, b);
      assert false;
    }
  }

  lemma RefusalMeansNoneWilling(glob: Glob, r: Router, path: string, b: nat)
    requires Inv(r) && Route(glob, r, path) == None
    ensures !Willing(glob, r, path, b)
  {
    ScanFindsFirst(glob, r, path, 0);
    if b < |r.heap| {
      assert b in r.order;
    }
  }

  lemma FrontmostFound(glob: Glob, r: Router, path: string, a: nat)
    requires Inv(r) && Route(glob, r, path) == Some(a)
    ensures Willing(glob, r, path, a)
    ensures forall c :: Willing(glob, r, path, c) && c != a ==> Before(r.order, a, c)
  {
    ScanFindsFirst(glob, r, path, 0);
    var j :| 0 <= j < |r.order| && r.order[j] == a
      && Matches(glob, r.heap[r.order[j]].path, path) && Serves(r.heap[r.order[j]])
      && forall k :: 0 <= k < j ==>
           !(Matches(glob, r.heap[r.order[k]].path, path) && Serves(r.heap[r.order[k]]));
    forall c | Willing(glob, r, path, c) && c != a ensures Before(r.order, a, c) {
      assert c in r.order;
      var k :| 0 <= k < |r.order| && r.order[k] == c;
      assert j < k;
    }
  }

  // ---------------------------------------------------------------- where a newcomer lands

  /** Does the insertion loop stop at an entry for `other`? A wildcard passes every literal. */
  predicate Yields(other: string, path: string) {
    |path| > |other| && (IsWildcard(path) ==> IsWildcard(other))
  }

  /** Some entry at or before c, live or dead, makes the insertion loop stop. */
  ghost predicate Overtakes(r: Router, path: string, c: nat)
    requires InBounds(r)
  {
    exists k, j :: 0 <= k <= j < |r.order| && r.order[j] == c && Yields(r.heap[r.order[k]].path, path)
  }

  lemma {:induction false} StopsByIff(r: Router, path: string, i: nat, j: nat)
    requires InBounds(r) && i <= j < |r.order|
    ensures InsertPosition(r, path, i) <= j
            <==> exists k :: i <= k <= j && Yields(r.heap[r.order[k]].path, path)
    decreases j - i
  {
    if !Yields(r.heap[r.order[i]].path, path) && i < j {
      StopsByIff(r, path, i + 1, j);
    }
  }

  lemma InsertKeepsBefore(order: seq<nat>, at: nat, n: nat, a: nat, b: nat)
    requires at <= |order| && a != n && b != n
    ensures Before(order[..at] + [n] + order[at..], a, b) <==> Before(order, a, b)
  {
    var order' := order[..at] + [n] + order[at..];
    if Before(order, a, b) {
      var i, j :| 0 <= i < j < |order| && order[i] == a && order[j] == b;
      var i', j' := if i < at then i else i + 1, if j < at then j else j + 1;
      assert order'[i'] == a && order'[j'] == b;
    }
    if Before(order', a, b) {
      var i, j :| 0 <= i < j < |order'| && order'[i] == a && order'[j] == b;
      var i', j' := if i < at then i else i - 1, if j < at then j else j - 1;
      assert order[i'] == a && order[j'] == b;
    }
  }

  lemma InsertedBeforeIff(order: seq<nat>, at: nat, n: nat, c: nat)
    requires at <= |order| && n !in order && c != n
    ensures Before(order[..at] + [n] + order[at..], n, c)
            <==> exists j :: at <= j < |order| && order[j] == c
  {
    var order' := order[..at] + [n] + order[at..];
    if j :| at <= j < |order| && order[j] == c {
      assert order'[at] == n && order'[j + 1] == c;
    }
    if Before(order', n, c) {
      var i, j :| 0 <= i < j < |order'| && order'[i] == n && order'[j] == c;
      assert order[j - 1] == c;
    }
  }

  lemma NewcomerBeforeIff(r: Router, path: string, handler: Handler, id: string, c: nat)
    requires Inv(r) && path !in r.index && c < |r.heap|
    ensures Before(Add(r, path, handler, id).order, |r.heap|, c) <==> Overtakes(r, path, c)
  {
    var at := InsertPosition(r, path, 0);
    assert |r.heap| !in r.order;
    InsertedBeforeIff(r.order, at, |r.heap|, c);
    if Overtakes(r, path, c) {
      var k, j :| 0 <= k <= j < |r.order| && r.order[j] == c && Yields(r.heap[r.order[k]].path, path);
      StopsByIff(r, path, 0, j);
    }
    if j :| at <= j < |r.order| && r.order[j] == c {
      StopsByIff(r, path, 0, j);
    }
  }

  lemma ApplyKeepsBefore(glob: Glob, r: Router, op: Op, a: nat, b: nat)
    requires Inv(r) && a < |r.heap| && b < |r.heap|
    ensures Before(Apply(glob, r, op).order, a, b) <==> Before(r.order, a, b)
    ensures |Apply(glob, r, op).heap| >= |r.heap|
  {
    if op.Adding? && op.path !in r.index {
      InsertKeepsBefore(r.order, InsertPosition(r, op.path, 0), |r.heap|, a, b);
    }
  }

  /** Two entries never change places. */
  lemma {:induction false} RunKeepsBefore(glob: Glob, r: Router, ops: seq<Op>, a: nat, b: nat)
    requires Inv(r) && a < |r.heap| && b < |r.heap|
    ensures Before(Run(glob, r, ops).order, a, b) <==> Before(r.order, a, b)
    decreases |ops|
  {
    if ops != [] {
      ApplyKeepsInv(glob, r, ops[0]);
      ApplyKeepsBefore(glob, r, ops[0], a, b);
      RunKeepsBefore(glob, Apply(glob, r, ops[0]), ops[1..], a, b);
    }
  }

  /** The router after a new path has been added to r and `ops` have followed. */
  function Later(glob: Glob, r: Router, path: string, handler: Handler, id: string, ops: seq<Op>): Router
    requires InBounds(r)
  {
    Run(glob, Add(r, path, handler, id), ops)
  }

  /** A new path stands in front of an older entry, then and for ever, exactly if it overtook
      it on arrival. */
  lemma NewcomerInFrontIff(glob: Glob, r: Router, path: string, handler: Handler, id: string,
                           ops: seq<Op>, c: nat)
    requires Inv(r) && path !in r.index && c < |r.heap|
    ensures Inv(Later(glob, r, path, handler, id, ops))
    ensures Before(Later(glob, r, path, handler, id, ops).order, |r.heap|, c) <==> Overtakes(r, path, c)
  {
    var r1 := Add(r, path, handler, id);
    AddKeepsInv(r, path, handler, id);
    RunKeepsInv(glob, r1, ops);
    NewcomerBeforeIff(r, path, handler, id, c);
    RunKeepsBefore(glob, r1, ops, |r.heap|, c);
  }

  /** Of two willing entries the one that is behind never answers, and the one in front does
      unless a third one is willing. */
  lemma ContestIsDecidedOnArrival(glob: Glob, r: Router, path: string, handler: Handler, id: string,
                                  ops: seq<Op>, request: string, c: nat)
    requires Inv(r) && path !in r.index && c < |r.heap|
    requires Willing(glob, Later(glob, r, path, handler, id, ops), request, |r.heap|)
    requires Willing(glob, Later(glob, r, path, handler, id, ops), request, c)
    ensures var r' := Later(glob, r, path, handler, id, ops);
            var winner, loser := if Overtakes(r, path, c) then |r.heap| else c,
                                 if Overtakes(r, path, c) then c else |r.heap|;
            && Route(glob, r', request) != Some(loser)
            && ((forall d :: Willing(glob, r', request, d) ==> d == winner || d == loser) ==>
                  Route(glob, r', request) == Some(winner))
  {
    var r' := Later(glob, r, path, handler, id, ops);
    NewcomerInFrontIff(glob, r, path, handler, id, ops, c);
    EitherIsBefore(r', |r.heap|, c);
    RouteIsFrontmost(glob, r', request, c);
    RouteIsFrontmost(glob, r', request, |r.heap|);
  }

  // ---------------------------------------------------------------- literal against wildcard

  /** Some shorter entry of the given kind is in front of c. */
  ghost predicate ShorterInFront(r: Router, path: string, wild: bool, c: nat)
    requires InBounds(r)
  {
    exists k: nat :: k < |r.heap| && IsWildcard(r.heap[k].path) == wild && |r.heap[k].path| < |path|
      && Before(r.order, k, c)
  }

  /** A newcomer overtakes an entry of the other kind exactly if a shorter entry of its own
      kind is in front of that one, or if it is a literal longer than that one. */
  lemma OvertakesOtherKindIff(r: Router, path: string, c: nat)
    requires Inv(r) && c < |r.heap| && IsWildcard(path) != IsWildcard(r.heap[c].path)
    ensures Overtakes(r, path, c) <==> BeatsOtherKind(r, path, c)
  {
    if Overtakes(r, path, c) {
      StoppedByOwnKind(r, path, c);
    }
    if ShorterInFront(r, path, IsWildcard(path), c) {
      var k: nat :| k < |r.heap| && IsWildcard(r.heap[k].path) == IsWildcard(path)
        && |r.heap[k].path| < |path| && Before(r.order, k, c);
      var i, j :| 0 <= i < j < |r.order| && r.order[i] == k && r.order[j] == c;
      assert Yields(r.heap[r.order[i]].path, path);
    } else if BeatsOtherKind(r, path, c) {
      assert c in r.order;
      var j :| 0 <= j < |r.order| && r.order[j] == c;
      assert Yields(r.heap[r.order[j]].path, path);
    }
  }

  ghost predicate BeatsOtherKind(r: Router, path: string, c: nat)
    requires InBounds(r) && c < |r.heap|
  {
    ShorterInFront(r, path, IsWildcard(path), c) || (!IsWildcard(path) && |path| > |r.heap[c].path|)
  }

  lemma StoppedByOwnKind(r: Router, path: string, c: nat)
    requires InBounds(r) && SliceOrdered(r) && c < |r.heap| && Overtakes(r, path, c)
    requires IsWildcard(path) != IsWildcard(r.heap[c].path)
    ensures BeatsOtherKind(r, path, c)
  {
    var k, j :| 0 <= k <= j < |r.order| && r.order[j] == c && Yields(r.heap[r.order[k]].path, path);
    if k < j {
      assert Before(r.order, r.order[k], c);
      assert MayPrecede(r.heap[r.order[k]].path, r.heap[c].path);
    }
  }

  /** Of a literal and a wildcard that could both answer, the younger one does only if, on its
      arrival, a shorter entry of its own kind stood in front of the older one, or it is a
      literal longer than the wildcard; otherwise only the older one can. */
  lemma LiteralAgainstWildcard(glob: Glob, r: Router, path: string, handler: Handler, id: string,
                               ops: seq<Op>, request: string, c: nat)
    requires Inv(r) && path !in r.index && c < |r.heap|
    requires IsWildcard(path) != IsWildcard(r.heap[c].path)
    requires Willing(glob, Later(glob, r, path, handler, id, ops), request, |r.heap|)
    requires Willing(glob, Later(glob, r, path, handler, id, ops), request, c)
    ensures var r' := Later(glob, r, path, handler, id, ops);
            var winner, loser := if BeatsOtherKind(r, path, c) then |r.heap| else c,
                                 if BeatsOtherKind(r, path, c) then c else |r.heap|;
            && Route(glob, r', request) != Some(loser)
            && ((forall d :: Willing(glob, r', request, d) ==> d == winner || d == loser) ==>
                  Route(glob, r', request) == Some(winner))
  {
    OvertakesOtherKindIff(r, path, c);
    ContestIsDecidedOnArrival(glob, r, path, handler, id, ops, request, c);
  }

  /** Between contenders the length of a literal does not matter: the wildcard is as long. */
  lemma ContendersByShorterEntry(glob: Glob, live: set<string>, request: string, r: Router, path: string, c: nat)
    requires InBounds(r) && c < |r.heap| && IsWildcard(path) != IsWildcard(r.heap[c].path)
    requires Contender(glob, live, request, path) && Contender(glob, live, request, r.heap[c].path)
    ensures BeatsOtherKind(r, path, c) <==> ShorterInFront(r, path, IsWildcard(path), c)
  {
    assert IsWildcard(r.heap[c].path) ==> |path| <= |r.heap[c].path|;
  }

  // ---------------------------------------------------------------- contenders of one kind

  predicate SameKind(p: string, q: string) {
    IsWildcard(p) == IsWildcard(q) && |p| == |q|
  }

  /** Entries of one kind and length stand in the order of their creation. */
  ghost predicate AgeOrdered(r: Router)
    requires InBounds(r)
  {
    forall i, j :: 0 <= i < j < |r.order| && SameKind(r.heap[r.order[i]].path, r.heap[r.order[j]].path) ==>
      r.order[i] < r.order[j]
  }

  lemma NewcomerBehindItsKind(r: Router, path: string, j: nat)
    requires Inv(r) && j < |r.order| && SameKind(r.heap[r.order[j]].path, path)
    ensures j < InsertPosition(r, path, 0)
  {
    StopsByIff(r, path, 0, j);
    if k :| 0 <= k <= j && Yields(r.heap[r.order[k]].path, path) {
      assert MayPrecede(r.heap[r.order[k]].path, r.heap[r.order[j]].path);
      assert false;
    }
  }

  lemma InsertionKeepsAge(r: Router, path: string, handler: Handler, id: string, i: nat, j: nat)
    requires Inv(r) && AgeOrdered(r) && path !in r.index
    requires var r' := Add(r, path, handler, id);
             i < j < |r'.order| && SameKind(r'.heap[r'.order[i]].path, r'.heap[r'.order[j]].path)
    ensures Add(r, path, handler, id).order[i] < Add(r, path, handler, id).order[j]
  {
    var order', at := Add(r, path, handler, id).order, InsertPosition(r, path, 0);
    if i < at {
      assert order'[i] == r.order[i];
    } else if i > at {
      assert order'[i] == r.order[i - 1];
    }
    if j < at {
      assert order'[j] == r.order[j];
    } else if j > at {
      assert order'[j] == r.order[j - 1];
    }
    if i == at {
      NewcomerBehindItsKind(r, path, j - 1);
      assert false;
    }
  }

  lemma AddKeepsAge(r: Router, path: string, handler: Handler, id: string)
    requires Inv(r) && AgeOrdered(r)
    ensures AgeOrdered(Add(r, path, handler, id))
  {
    var r' := Add(r, path, handler, id);
    if path !in r.index {
      forall i, j | 0 <= i < j < |r'.order|
                    && SameKind(r'.heap[r'.order[i]].path, r'.heap[r'.order[j]].path)
        ensures r'.order[i] < r'.order[j]
      {
        InsertionKeepsAge(r, path, handler, id, i, j);
      }
    }
  }

  lemma {:induction false} RunKeepsAge(glob: Glob, r: Router, ops: seq<Op>)
    requires Inv(r) && AgeOrdered(r)
    ensures Inv(Run(glob, r, ops)) && AgeOrdered(Run(glob, r, ops))
    decreases |ops|
  {
    if ops != [] {
      ApplyKeepsInv(glob, r, ops[0]);
      if ops[0].Adding? {
        AddKeepsAge(r, ops[0].path, ops[0].handler, ops[0].id);
      }
      RunKeepsAge(glob, Apply(glob, r, ops[0]), ops[1..]);
    }
  }

  /** Among contenders of one kind, always the one created first answers: whatever the
      history, the entry that answers is the oldest contender of its kind. */
  lemma OldestOfItsKindAnswers(glob: Glob, ops: seq<Op>, request: string, b: nat, c: nat)
    requires Route(glob, Run(glob, EMPTY, ops), request) == Some(b)
    requires var r := Run(glob, EMPTY, ops);
             && Willing(glob, r, request, c) && Contender(glob, Answering(r), request, r.heap[c].path)
             && IsWildcard(r.heap[c].path) == IsWildcard(r.heap[b].path)
    ensures b <= c
  {
    var r := Run(glob, EMPTY, ops);
    RunKeepsAge(glob, EMPTY, ops);
    RouteIsContender(glob, r, request);
    FrontmostFound(glob, r, request, b);
    if c != b {
      ContendersOfOneKind(glob, Answering(r), request, r.heap[b].path, r.heap[c].path);
      FrontIsOlder(r, b, c);
    }
  }

  lemma ContendersOfOneKind(glob: Glob, live: set<string>, request: string, p: string, q: string)
    requires Contender(glob, live, request, p) && Contender(glob, live, request, q)
    requires IsWildcard(p) == IsWildcard(q)
    ensures SameKind(p, q)
  {
  }

  lemma FrontIsOlder(r: Router, b: nat, c: nat)
    requires InBounds(r) && AgeOrdered(r) && Before(r.order, b, c)
    requires SameKind(r.heap[b].path, r.heap[c].path)
    ensures b < c
  {
    var i, j :| 0 <= i < j < |r.order| && r.order[i] == b && r.order[j] == c;
  }

  // ---------------------------------------------------------------- age is not enough

  lemma TwoContenders(glob: Glob)
    requires glob("a*", "ab")
    ensures IsWildcard("a*") && !IsWildcard("ab") && !IsWildcard("z")
    ensures Matches(glob, "a*", "ab") && Matches(glob, "ab", "ab") && !Matches(glob, "z", "ab")
    ensures Contender(glob, {"a*", "ab"}, "ab", "a*") && Contender(glob, {"a*", "ab"}, "ab", "ab")
  {
    assert "a*"[1] in "*?[]";
    OnePiece("ab");
    OnePiece("a*");
    assert ["ab"][..1] == ["ab"];
  }

  lemma {:induction false} OnePiece(s: string)
    requires forall i :: 0 <= i < |s| ==> s[i] != '/'
    ensures SplitSlash(s) == [s]
  {
    if s != [] {
      OnePiece(s[1..]);
      assert s == [s[0]] + s[1..];
    }
  }

  function Worn(a: MuxHandler, b: MuxHandler): Router {
    Router([Entry("z", [], 0), Entry("a*", [a], 0), Entry("ab", [b], 0)], [2, 0, 1],
           map["a*" := 1, "ab" := 2])
  }

  function Plain(a: MuxHandler, b: MuxHandler): Router {
    Router([Entry("a*", [a], 0), Entry("ab", [b], 0)], [0, 1], map["a*" := 0, "ab" := 1])
  }

  lemma WornHistory(glob: Glob, a: Handler, b: Handler)
    ensures Run(glob, EMPTY, [Adding("z", a, ""), Removing("z", ""), Adding("a*", a, ""), Adding("ab", b, "")])
            == Worn(MuxHandler(a, ""), MuxHandler(b, ""))
  {
    RunFour(glob, EMPTY, Adding("z", a, ""), Removing("z", ""), Adding("a*", a, ""), Adding("ab", b, ""));
    AddedAndRemoved(a);
    WildcardThenLiteral(a, b);
  }

  const DEAD := Router([Entry("z", [], 0)], [0], map[])

  lemma AddedAndRemoved(a: Handler)
    ensures Remove(Add(EMPTY, "z", a, ""), "z", "") == DEAD
  {
    assert Add(EMPTY, "z", a, "") == Router([Entry("z", [MuxHandler(a, "")], 0)], [0], map["z" := 0]);
  }

  lemma WildcardThenLiteral(a: Handler, b: Handler)
    ensures Add(Add(DEAD, "a*", a, ""), "ab", b, "") == Worn(MuxHandler(a, ""), MuxHandler(b, ""))
  {
    AddWildcard(DEAD, a);
    AddLiteral(Add(DEAD, "a*", a, ""), b);
  }

  lemma AddWildcard(r: Router, a: Handler)
    requires InBounds(r) && r.order == [0] && r.heap[0].path == "z" && "a*" !in r.index
    ensures Add(r, "a*", a, "")
            == Router(r.heap + [Entry("a*", [MuxHandler(a, "")], 0)], [0, |r.heap|], r.index["a*" := |r.heap|])
  {
    assert "a*"[1] in "*?[]";
    assert InsertPosition(r, "a*", 0) == InsertPosition(r, "a*", 1) == 1;
  }

  lemma AddLiteral(r: Router, b: Handler)
    requires InBounds(r) && r.order == [0, 1] && |r.heap| == 2 && r.heap[0].path == "z" && "ab" !in r.index
    ensures Add(r, "ab", b, "")
            == Router(r.heap + [Entry("ab", [MuxHandler(b, "")], 0)], [2, 0, 1], r.index["ab" := 2])
  {
    assert InsertPosition(r, "ab", 0) == 0;
  }

  lemma RunTwo(glob: Glob, r: Router, a: Op, b: Op)
    requires InBounds(r)
    ensures Run(glob, r, [a, b]) == Apply(glob, Apply(glob, r, a), b)
  {
    assert [a, b][1..] == [b] && [b][1..] == [];
    assert Run(glob, Apply(glob, r, a), [b]) == Run(glob, Apply(glob, Apply(glob, r, a), b), []);
  }

  lemma RunTwoMore(glob: Glob, r: Router, a: Op, b: Op, rest: seq<Op>)
    requires InBounds(r)
    ensures Run(glob, r, [a] + ([b] + rest)) == Run(glob, Apply(glob, Apply(glob, r, a), b), rest)
  {
    RunCons(glob, r, a, [b] + rest);
    RunCons(glob, Apply(glob, r, a), b, rest);
  }

  lemma RunFour(glob: Glob, r: Router, a: Op, b: Op, c: Op, d: Op)
    requires InBounds(r)
    ensures Run(glob, r, [a, b, c, d])
            == Apply(glob, Apply(glob, Apply(glob, Apply(glob, r, a), b), c), d)
  {
    assert [a, b, c, d] == [a] + ([b] + [c, d]);
    RunTwoMore(glob, r, a, b, [c, d]);
    RunTwo(glob, Apply(glob, Apply(glob, r, a), b), c, d);
  }

  lemma PlainHistory(glob: Glob, a: Handler, b: Handler)
    ensures Run(glob, EMPTY, [Adding("a*", a, ""), Adding("ab", b, "")])
            == Plain(MuxHandler(a, ""), MuxHandler(b, ""))
  {
    var h := MuxHandler(a, "");
    var r1 := Add(EMPTY, "a*", a, "");
    assert r1 == Router([Entry("a*", [h], 0)], [0], map["a*" := 0]);
    assert InsertPosition(r1, "ab", 0) == 1;
    assert Add(r1, "ab", b, "") == Plain(h, MuxHandler(b, ""));
    RunTwo(glob, EMPTY, Adding("a*", a, ""), Adding("ab", b, ""));
  }

  /** The older contender can lose, and to an entry nobody sees any more: the same two paths
      are added in the same order and are the only live ones, but where "z" once was, the
      younger one answers. */
  lemma DeadEntryDecides(glob: Glob, a: Handler, b: Handler)
    requires glob("a*", "ab")
    ensures var plain := Run(glob, EMPTY, [Adding("a*", a, ""), Adding("ab", b, "")]);
            var worn := Run(glob, EMPTY, [Adding("z", a, ""), Removing("z", ""),
                                          Adding("a*", a, ""), Adding("ab", b, "")]);
            && Live(plain) == Live(worn) && Answering(plain) == Answering(worn)
            && (forall p :: p in ["a*", "ab"] ==> Contender(glob, Answering(plain), "ab", p))
            && Served(glob, plain, "ab") == Some(a) && Served(glob, worn, "ab") == Some(b)
  {
    var h, g := MuxHandler(a, ""), MuxHandler(b, "");
    TwoContenders(glob);
    PlainHistory(glob, a, b);
    WornHistory(glob, a, b);
    PlainAnswers(glob, h, g);
    WornAnswers(glob, h, g);
    SameLivePaths(h, g);
  }

  lemma OneHandlerServes(e: Entry)
    requires |e.handlers| == 1
    ensures Serves(e) && Slot(e) == 0
  {
  }

  lemma PlainAnswers(glob: Glob, h: MuxHandler, g: MuxHandler)
    requires glob("a*", "ab")
    ensures Served(glob, Plain(h, g), "ab") == Some(h.handler)
  {
    var r := Plain(h, g);
    assert Matches(glob, "a*", "ab") by {
      TwoContenders(glob);
    }
    OneHandlerServes(r.heap[0]);
    ScanSkips(glob, r, "ab", 0, 0);
  }

  lemma WornAnswers(glob: Glob, h: MuxHandler, g: MuxHandler)
    requires glob("a*", "ab")
    ensures Served(glob, Worn(h, g), "ab") == Some(g.handler)
  {
    var r := Worn(h, g);
    assert Matches(glob, "ab", "ab") by {
      TwoContenders(glob);
    }
    OneHandlerServes(r.heap[2]);
    ScanSkips(glob, r, "ab", 0, 0);
  }

  lemma SameLivePaths(h: MuxHandler, g: MuxHandler)
    ensures Live(Plain(h, g)) == Live(Worn(h, g))
    ensures Answering(Plain(h, g)) == Answering(Worn(h, g)) == {"a*", "ab"}
  {
    var plain, worn := Plain(h, g), Worn(h, g);
    var wild, literal := plain.heap[0], plain.heap[1];
    OneHandlerServes(wild);
    OneHandlerServes(literal);
    assert worn.heap[1] == wild && worn.heap[2] == literal;
    assert plain.index.Keys == worn.index.Keys == {"a*", "ab"};
  }
}
