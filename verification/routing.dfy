/** What a request gets, in terms of the set of live paths only. */
module Routing {
  import opened GoStrings
  import opened RouterModel

  /** A live path whose entry is willing to answer. */
  ghost predicate Answers(r: Router, path: string)
    requires InBounds(r)
  {
    path in r.index && Serves(r.heap[r.index[path]])
  }

  /** May `best` answer a request for `path` when exactly the paths `live` are live? A literal
      has to be the longest matching literal; a wildcard has to be at least as long as
      every matching path, literal or wildcard. */
  ghost predicate Contender(glob: Glob, live: set<string>, path: string, best: string) {
    && best in live
    && Matches(glob, best, path)
    && forall p :: p in live && Matches(glob, p, path) && (IsWildcard(best) || !IsWildcard(p)) ==>
         |p| <= |best|
  }

  ghost function Answering(r: Router): set<string>
    requires InBounds(r)
  {
    set p | p in r.index && Serves(r.heap[r.index[p]])
  }

  /** The scan stops at the first entry that matches and serves. */
  lemma {:induction false} ScanFindsFirst(glob: Glob, r: Router, path: string, i: nat)
    requires InBounds(r) && i <= |r.order|
    ensures var found := Scan(glob, r, path, i);
            if found.None? then
              forall k :: i <= k < |r.order| ==>
                !(Matches(glob, r.heap[r.order[k]].path, path) && Serves(r.heap[r.order[k]]))
            else
              exists j :: i <= j < |r.order| && r.order[j] == found.value
                && Matches(glob, r.heap[r.order[j]].path, path) && Serves(r.heap[r.order[j]])
                && forall k :: i <= k < j ==>
                     !(Matches(glob, r.heap[r.order[k]].path, path) && Serves(r.heap[r.order[k]]))
    decreases |r.order| - i
  {
    if i < |r.order| {
      ScanFindsFirst(glob, r, path, i + 1);
      var e := r.heap[r.order[i]];
      if Matches(glob, e.path, path) && Serves(e) {
        assert r.order[i] == Scan(glob, r, path, i).value;
      }
    }
  }

  /** The entry the scan stops at is a contender: whatever comes earlier does not answer, and
      whatever comes later may not be preferred. */
  lemma FirstAnswerIsContender(glob: Glob, r: Router, path: string, j: nat)
    requires Inv(r) && j < |r.order|
    requires Matches(glob, r.heap[r.order[j]].path, path) && Serves(r.heap[r.order[j]])
    requires forall k :: 0 <= k < j ==>
               !(Matches(glob, r.heap[r.order[k]].path, path) && Serves(r.heap[r.order[k]]))
    ensures Contender(glob, Answering(r), path, r.heap[r.order[j]].path)
  {
    var best := r.heap[r.order[j]].path;
    assert r.heap[r.order[j]].handlers != [];
    forall p | p in Answering(r) && Matches(glob, p, path) && (IsWildcard(best) || !IsWildcard(p))
      ensures |p| <= |best|
    {
      assert r.index[p] in r.order;
      var k :| 0 <= k < |r.order| && r.order[k] == r.index[p];
      assert k >= j;
      assert k > j ==> MayPrecede(best, p);
    }
  }

  lemma AnsweredByContender(glob: Glob, r: Router, path: string)
    requires Inv(r) && Route(glob, r, path).Some?
    ensures var b := Route(glob, r, path).value;
            && Contender(glob, Answering(r), path, r.heap[b].path)
            && r.index[r.heap[b].path] == b
  {
    ScanFindsFirst(glob, r, path, 0);
    var b := Route(glob, r, path).value;
    var j :| 0 <= j < |r.order| && r.order[j] == b
      && Matches(glob, r.heap[r.order[j]].path, path) && Serves(r.heap[r.order[j]])
      && forall k :: 0 <= k < j ==>
           !(Matches(glob, r.heap[r.order[k]].path, path) && Serves(r.heap[r.order[k]]));
    FirstAnswerIsContender(glob, r, path, j);
    assert r.heap[b].handlers != [];
  }

  lemma RefusedIfNoneMatches(glob: Glob, r: Router, path: string, p: string)
    requires Inv(r) && Route(glob, r, path).None? && Answers(r, p)
    ensures !Matches(glob, p, path)
  {
    ScanFindsFirst(glob, r, path, 0);
    assert r.index[p] in r.order;
  }

  /** A request is refused exactly when no answering path matches it; otherwise it is
      answered by the indexed entry of a contender. */
  lemma RouteIsContender(glob: Glob, r: Router, path: string)
    requires Inv(r)
    ensures Route(glob, r, path).None? <==> forall p :: Answers(r, p) ==> !Matches(glob, p, path)
    ensures Route(glob, r, path).Some? ==>
              var b := Route(glob, r, path).value;
              && Contender(glob, Answering(r), path, r.heap[b].path)
              && r.index[r.heap[b].path] == b
  {
    if Route(glob, r, path).Some? {
      AnsweredByContender(glob, r, path);
      assert Answers(r, r.heap[Route(glob, r, path).value].path);
    } else {
      forall p | Answers(r, p) ensures !Matches(glob, p, path) {
        RefusedIfNoneMatches(glob, r, path, p);
      }
    }
  }

  /** Two literal prefixes of one path with the same length are the same, so without a
      matching wildcard there is one contender: history, dead entries and handler lists
      cannot change which path answers. */
  lemma LiteralRouteNeedsOnlyLiveSet(glob: Glob, r1: Router, r2: Router, path: string)
    requires Inv(r1) && Inv(r2) && Answering(r1) == Answering(r2)
    requires forall p :: p in Answering(r1) && IsWildcard(p) ==> !Matches(glob, p, path)
    ensures Route(glob, r1, path).Some? <==> Route(glob, r2, path).Some?
    ensures Route(glob, r1, path).Some? ==>
              r1.heap[Route(glob, r1, path).value].path == r2.heap[Route(glob, r2, path).value].path
  {
    RouteIsContender(glob, r1, path);
    RouteIsContender(glob, r2, path);
    assert forall p :: Answers(r1, p) <==> p in Answering(r1);
    assert forall p :: Answers(r2, p) <==> p in Answering(r2);
  }

  // ------------------------------------------------- which history gives which route

  /** Is entry c a legitimate predecessor of the unbeaten b? */
  ghost predicate Beats(r: Router, c: nat, b: nat)
    requires c < |r.heap| && b < |r.heap|
  {
    && |r.heap[c].path| > |r.heap[b].path|
    && (IsWildcard(r.heap[b].path) || !IsWildcard(r.heap[c].path))
  }

  /** Everything in front of entry b is strictly longer, and literal if b is literal. */
  ghost predicate Unbeaten(r: Router, b: nat)
    requires InBounds(r)
  {
    b < |r.heap| && forall i, j :: 0 <= i < j < |r.order| && r.order[j] == b ==>
      Beats(r, r.order[i], b)
  }

  lemma {:induction false} LaterEntryStaysBehind(r: Router, path: string, i: nat, at: nat)
    requires InBounds(r) && i <= |r.order| && at == InsertPosition(r, path, i)
    ensures at < |r.order| ==>
              && |path| > |r.heap[r.order[at]].path|
              && (!IsWildcard(path) || IsWildcard(r.heap[r.order[at]].path))
    decreases |r.order| - i
  {
    if i < |r.order| && at != i {
      LaterEntryStaysBehind(r, path, i + 1, at);
    }
  }

  lemma AddKeepsUnbeaten(r: Router, path: string, handler: Handler, id: string, b: nat)
    requires Inv(r) && Unbeaten(r, b)
    ensures Unbeaten(Add(r, path, handler, id), b)
  {
    var r' := Add(r, path, handler, id);
    if path !in r.index {
      forall i, j | 0 <= i < j < |r'.order| && r'.order[j] == b
        ensures Beats(r', r'.order[i], b)
      {
        InsertedBeats(r, path, handler, id, b, i, j);
      }
    }
  }

  lemma InsertedBeats(r: Router, path: string, handler: Handler, id: string, b: nat, i: nat, j: nat)
    requires InBounds(r) && Unbeaten(r, b) && path !in r.index
    requires var r' := Add(r, path, handler, id); i < j < |r'.order| && r'.order[j] == b
    ensures var r' := Add(r, path, handler, id); Beats(r', r'.order[i], b)
  {
    var at := InsertPosition(r, path, 0);
    LaterEntryStaysBehind(r, path, 0, at);
    var j' := if j < at then j else j - 1;
    assert r.order[j'] == b;
    if i == at {
      if at < j' {
        assert Beats(r, r.order[at], b);
      }
    } else {
      var i' := if i < at then i else i - 1;
      assert i' < j' && Beats(r, r.order[i'], b);
    }
  }

  lemma ApplyKeepsUnbeaten(glob: Glob, r: Router, op: Op, b: nat)
    requires Inv(r) && Unbeaten(r, b)
    ensures Unbeaten(Apply(glob, r, op), b)
    ensures Apply(glob, r, op).heap[b].path == r.heap[b].path
  {
    match op {
      case Adding(path, handler, id) => AddKeepsUnbeaten(r, path, handler, id, b);
      case Removing(path, id) =>
      case Serving(path) =>
    }
  }

  lemma {:induction false} RunKeepsUnbeaten(glob: Glob, r: Router, ops: seq<Op>, b: nat)
    requires Inv(r) && Unbeaten(r, b)
    ensures Inv(Run(glob, r, ops)) && Unbeaten(Run(glob, r, ops), b)
    ensures Run(glob, r, ops).heap[b].path == r.heap[b].path
    decreases |ops|
  {
    if ops != [] {
      ApplyKeepsInv(glob, r, ops[0]);
      ApplyKeepsUnbeaten(glob, r, ops[0], b);
      RunKeepsUnbeaten(glob, Apply(glob, r, ops[0]), ops[1..], b);
    }
  }

  /** An entry in front of an unbeaten contender has nothing to say. */
  lemma NoAnswerInFront(glob: Glob, r: Router, path: string, c: nat, b: nat)
    requires InBounds(r) && IndexExact(r) && c < |r.heap| && b < |r.heap| && Beats(r, c, b)
    requires Contender(glob, Answering(r), path, r.heap[b].path)
    ensures !(Matches(glob, r.heap[c].path, path) && Serves(r.heap[c]))
  {
    if Serves(r.heap[c]) {
      assert r.heap[c].handlers != [];
      assert r.heap[c].path in Answering(r);
    }
  }

  lemma UnbeatenContenderWins(glob: Glob, r: Router, path: string, b: nat)
    requires Inv(r) && Unbeaten(r, b) && Serves(r.heap[b])
    requires Contender(glob, Answering(r), path, r.heap[b].path)
    ensures Route(glob, r, path) == Some(b)
  {
    assert b in r.order;
    var j :| 0 <= j < |r.order| && r.order[j] == b;
    forall i | 0 <= i < j
      ensures !(Matches(glob, r.heap[r.order[i]].path, path) && Serves(r.heap[r.order[i]]))
    {
      assert Beats(r, r.order[i], b);
      NoAnswerInFront(glob, r, path, r.order[i], b);
    }
    ScanSkips(glob, r, path, 0, j);
  }

  lemma {:induction false} ScanSkips(glob: Glob, r: Router, path: string, i: nat, j: nat)
    requires InBounds(r) && i <= j < |r.order|
    requires forall k :: i <= k < j ==>
               !(Matches(glob, r.heap[r.order[k]].path, path) && Serves(r.heap[r.order[k]]))
    requires Matches(glob, r.heap[r.order[j]].path, path) && Serves(r.heap[r.order[j]])
    ensures Scan(glob, r, path, i) == Some(r.order[j])
    decreases j - i
  {
    if i < j {
      ScanSkips(glob, r, path, i + 1, j);
    }
  }

  /** The very first entry of the router answers whenever it is a contender. Of two later
      ones the older can lose, see Precedence. */
  lemma FirstEntryEverWins(glob: Glob, best: string, handler: Handler, id: string,
                           ops: seq<Op>, path: string)
    ensures var r := Run(glob, Add(EMPTY, best, handler, id), ops);
            && Inv(r) && |r.heap| > 0 && r.heap[0].path == best
            && (Serves(r.heap[0]) && Contender(glob, Answering(r), path, best) ==>
                  Route(glob, r, path) == Some(0))
  {
    var r0 := Add(EMPTY, best, handler, id);
    AddKeepsInv(EMPTY, best, handler, id);
    assert r0.heap == [Entry(best, [MuxHandler(handler, id)], 0)];
    var r := Run(glob, r0, ops);
    RunKeepsUnbeaten(glob, r0, ops, 0);
    if Serves(r.heap[0]) && Contender(glob, Answering(r), path, best) {
      UnbeatenContenderWins(glob, r, path, 0);
    }
  }

  function Additions(paths: seq<string>, handler: Handler): seq<Op> {
    if paths == [] then [] else [Adding(paths[0], handler, "")] + Additions(paths[1..], handler)
  }

  ghost predicate OneHandlerEach(r: Router) {
    forall b :: 0 <= b < |r.heap| ==> |r.heap[b].handlers| == 1
  }

  lemma {:induction false} AdditionsMakeLive(glob: Glob, r: Router, paths: seq<string>, handler: Handler)
    requires InBounds(r) && OneHandlerEach(r)
    requires forall p :: p in paths ==> p !in r.index
    requires forall i, j :: 0 <= i < j < |paths| ==> paths[i] != paths[j]
    ensures var r' := Run(glob, r, Additions(paths, handler));
            r'.index.Keys == r.index.Keys + (set p | p in paths) && OneHandlerEach(r')
    decreases |paths|
  {
    if paths != [] {
      var next := Add(r, paths[0], handler, "");
      assert Additions(paths, handler)[1..] == Additions(paths[1..], handler);
      assert next.index.Keys == r.index.Keys + {paths[0]};
      AdditionsMakeLive(glob, next, paths[1..], handler);
      assert paths == [paths[0]] + paths[1..];
    }
  }

  lemma {:induction false} Enumeration(paths: set<string>) returns (list: seq<string>)
    ensures forall p :: p in list <==> p in paths
    ensures forall i, j :: 0 <= i < j < |list| ==> list[i] != list[j]
    decreases |paths|
  {
    if paths == {} {
      list := [];
    } else {
      var p :| p in paths;
      var rest := Enumeration(paths - {p});
      list := [p] + rest;
    }
  }

  /** Does some history make exactly `live` live and answer `path` through `best`? */
  ghost predicate SomeHistoryRoutes(glob: Glob, live: set<string>, path: string, best: string) {
    exists ops: seq<Op> ::
      var r := Run(glob, EMPTY, ops);
      && Answering(r) == live
      && Route(glob, r, path).Some?
      && r.heap[Route(glob, r, path).value].path == best
  }

  lemma OneHandlerAnswers(r: Router)
    requires InBounds(r) && OneHandlerEach(r)
    ensures Answering(r) == r.index.Keys
  {
  }

  lemma BestThenOthers(glob: Glob, live: set<string>, best: string, others: seq<string>, handler: Handler)
    requires best in live && forall p :: p in others <==> p in live && p != best
    requires forall i, j :: 0 <= i < j < |others| ==> others[i] != others[j]
    ensures var r := Run(glob, Add(EMPTY, best, handler, ""), Additions(others, handler));
            Answering(r) == live && OneHandlerEach(r)
  {
    var r0 := Add(EMPTY, best, handler, "");
    OnlyOneLive(best, handler);
    assert {best} + (set p | p in others) == live;
    AdditionsMakeLive(glob, r0, others, handler);
    OneHandlerAnswers(Run(glob, r0, Additions(others, handler)));
  }

  lemma OnlyOneLive(path: string, handler: Handler)
    ensures var r := Add(EMPTY, path, handler, ""); r.index.Keys == {path} && OneHandlerEach(r)
  {
    assert Add(EMPTY, path, handler, "").heap == [Entry(path, [MuxHandler(handler, "")], 0)];
  }

  /** A history that makes exactly `live` live and creates `best` first. */
  lemma HistoryForContender(glob: Glob, live: set<string>, path: string, best: string, handler: Handler)
    requires Contender(glob, live, path, best)
    ensures SomeHistoryRoutes(glob, live, path, best)
  {
    var others := Enumeration(live - {best});
    var r0, later := Add(EMPTY, best, handler, ""), Additions(others, handler);
    var r := Run(glob, r0, later);
    BestThenOthers(glob, live, best, others, handler);
    var ops := [Adding(best, handler, "")] + later;
    assert r == Run(glob, EMPTY, ops) by {
      RunCons(glob, EMPTY, Adding(best, handler, ""), later);
    }
    FirstEntryEverWins(glob, best, handler, "", later, path);
    assert |r.heap[0].handlers| == 1;
  }

  /** The contenders are exactly the answers that some history produces, so the live set
      decides the answer if and only if there is at most one contender. */
  lemma RoutesAreExactlyContenders(glob: Glob, live: set<string>, path: string, best: string,
                                   handler: Handler)
    ensures SomeHistoryRoutes(glob, live, path, best) <==> Contender(glob, live, path, best)
  {
    if SomeHistoryRoutes(glob, live, path, best) {
      var ops: seq<Op> :|
        var r := Run(glob, EMPTY, ops);
        && Answering(r) == live
        && Route(glob, r, path).Some?
        && r.heap[Route(glob, r, path).value].path == best;
      ReachableInv(glob, ops);
      RouteIsContender(glob, Run(glob, EMPTY, ops), path);
    }
    if Contender(glob, live, path, best) {
      HistoryForContender(glob, live, path, best, handler);
    }
  }
}
