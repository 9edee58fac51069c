/** Reloading under traffic: requests may be served between any two events of a batch. */
module MakeBeforeBreak {
  import opened GoStrings
  import opened MachineWords
  import opened RouterModel
  import opened LiveView
  import opened RoundRobin
  import opened ConfigModel
  import opened Reload

  function EventOps(factory: Factory, events: seq<ConfigEvent>): seq<Op> {
    if events == [] then []
    else
      var e := events[0].entry;
      (if !events[0].up then [Removing(e.hostname, e.target)]
       else match factory(e)
         case None => []
         case Some(handler) => [Adding(e.hostname, handler, e.target)])
      + EventOps(factory, events[1..])
  }

  /** The history without its requests. */
  function Updates(ops: seq<Op>): seq<Op> {
    if ops == [] then []
    else (if ops[0].Serving? then [] else [ops[0]]) + Updates(ops[1..])
  }

  lemma {:induction false} RequestsInvisible(m: LiveMap, ops: seq<Op>)
    ensures RunOnMap(m, ops) == RunOnMap(m, Updates(ops))
    decreases |ops|
  {
    if ops != [] {
      RequestsInvisible(ApplyToMap(m, ops[0]), ops[1..]);
      if !ops[0].Serving? {
        assert Updates(ops) == [ops[0]] + Updates(ops[1..]);
        assert Updates(ops)[1..] == Updates(ops[1..]);
      } else {
        assert Updates(ops) == Updates(ops[1..]);
      }
    }
  }

  lemma ProcessOnMap(factory: Factory, r: Router, e: ConfigEvent)
    requires Inv(r)
    ensures Live(Process(factory, r, e)) == RunOnMap(Live(r), EventOps(factory, [e]))
  {
    if !e.up {
      RemoveRefinesMap(r, e.entry.hostname, e.entry.target);
    } else if factory(e.entry).Some? {
      AddRefinesMap(r, e.entry.hostname, factory(e.entry).value, e.entry.target);
    }
    assert [e][1..] == [];
  }

  lemma {:induction false} RunOnMapConcat(m: LiveMap, a: seq<Op>, b: seq<Op>)
    ensures RunOnMap(m, a + b) == RunOnMap(RunOnMap(m, a), b)
    decreases |a|
  {
    if a == [] {
      assert a + b == b;
    } else {
      RunOnMapConcat(ApplyToMap(m, a[0]), a[1..], b);
      assert (a + b)[1..] == a[1..] + b && (a + b)[0] == a[0];
    }
  }

  lemma {:induction false} ReplayOnMap(factory: Factory, r: Router, events: seq<ConfigEvent>)
    requires Inv(r)
    ensures Live(Replay(factory, r, events)) == RunOnMap(Live(r), EventOps(factory, events))
    decreases |events|
  {
    if events != [] {
      var next := Process(factory, r, events[0]);
      ProcessKeepsInv(factory, r, events[0]);
      ProcessOnMap(factory, r, events[0]);
      ReplayOnMap(factory, next, events[1..]);
      RunOnMapConcat(Live(r), EventOps(factory, [events[0]]), EventOps(factory, events[1..]));
    }
  }

  /** Requests in between do not change what a batch does: the same paths are live with the
      same handler lists, so the same pairs have the same number of copies. */
  lemma TrafficDoesNotDisturbReload(glob: Glob, factory: Factory, r: Router,
                                    events: seq<ConfigEvent>, ops: seq<Op>)
    requires Inv(r) && Updates(ops) == EventOps(factory, events)
    ensures Live(Run(glob, r, ops)) == Live(Replay(factory, r, events))
    ensures forall e :: EntryCopies(Run(glob, r, ops), e) == EntryCopies(Replay(factory, r, events), e)
  {
    RunRefinesMap(glob, r, ops);
    RequestsInvisible(Live(r), ops);
    ReplayOnMap(factory, r, events);
    forall e ensures EntryCopies(Run(glob, r, ops), e) == EntryCopies(Replay(factory, r, events), e) {
      CopiesFromLive(Run(glob, r, ops), e);
      CopiesFromLive(Replay(factory, r, events), e);
    }
  }

  lemma CopiesFromLive(r: Router, e: ConfigEntry)
    requires InBounds(r)
    ensures EntryCopies(r, e) == CountId(HandlersAt(Live(r), e.hostname), e.target)
  {
  }

  // ---------------------------------------------------------------- no interruption

  /** The path is live before the run and after each of its steps. */
  ghost predicate StaysLive(glob: Glob, r: Router, ops: seq<Op>, path: string)
    requires InBounds(r)
    decreases |ops|
  {
    path in r.index && (ops == [] || StaysLive(glob, Apply(glob, r, ops[0]), ops[1..], path))
  }

  lemma ServingKeepsCopies(glob: Glob, r: Router, path: string, e: ConfigEntry)
    requires InBounds(r)
    ensures EntryCopies(AfterServing(glob, r, path), e) == EntryCopies(r, e)
  {
  }

  /** While ups are replayed `old_` keeps the host alive until `new_` is up; downs never take
      `new_` away. */
  lemma {:induction false} HostNeverDown(glob: Glob, factory: Factory, r: Router, ops: seq<Op>,
                                         ups: seq<ConfigEntry>, downs: seq<ConfigEntry>,
                                         old_: ConfigEntry, new_: ConfigEntry)
    requires Inv(r)
    requires Updates(ops) == EventOps(factory, Events(ups, true) + Events(downs, false))
    requires old_.hostname == new_.hostname && factory(new_).Some? && new_ !in downs
    requires EntryCopies(r, new_) > 0 || (new_ in ups && EntryCopies(r, old_) > 0)
    ensures StaysLive(glob, r, ops, new_.hostname)
    decreases |ops|, |ups|
  {
    if ops == [] {
    } else if ops[0].Serving? {
      ServingKeepsInv(glob, r, ops[0].path);
      ServingKeepsCopies(glob, r, ops[0].path, old_);
      ServingKeepsCopies(glob, r, ops[0].path, new_);
      HostNeverDown(glob, factory, Apply(glob, r, ops[0]), ops[1..], ups, downs, old_, new_);
    } else if ups != [] {
      HostNeverDownUp(glob, factory, r, ops, ups, downs, old_, new_);
    } else {
      HostNeverDownDown(glob, factory, r, ops, downs, old_, new_);
    }
  }

  lemma {:induction false} HostNeverDownUp(glob: Glob, factory: Factory, r: Router, ops: seq<Op>,
                                           ups: seq<ConfigEntry>, downs: seq<ConfigEntry>,
                                           old_: ConfigEntry, new_: ConfigEntry)
    requires Inv(r) && ops != [] && !ops[0].Serving? && ups != []
    requires Updates(ops) == EventOps(factory, Events(ups, true) + Events(downs, false))
    requires old_.hostname == new_.hostname && factory(new_).Some? && new_ !in downs
    requires EntryCopies(r, new_) > 0 || (new_ in ups && EntryCopies(r, old_) > 0)
    ensures StaysLive(glob, r, ops, new_.hostname)
    decreases |ops|, |ups|, 0
  {
    var events, later := Events(ups, true) + Events(downs, false), Events(ups[1..], true) + Events(downs, false);
    assert events[0] == ConfigEvent(ups[0], true) && events[1..] == later;
    assert ups == [ups[0]] + ups[1..];
    match factory(ups[0]) {
      case None =>
        HostNeverDown(glob, factory, r, ops, ups[1..], downs, old_, new_);
      case Some(handler) =>
        var op := Adding(ups[0].hostname, handler, ups[0].target);
        assert EventOps(factory, events) == [op] + EventOps(factory, later);
        assert Updates(ops) == [ops[0]] + Updates(ops[1..]);
        SameHeadAndTail(ops[0], Updates(ops[1..]), op, EventOps(factory, later));
        UpKeepsHostUp(r, ups[0], ups[1..], handler, old_, new_);
        HostNeverDown(glob, factory, Apply(glob, r, op), ops[1..], ups[1..], downs, old_, new_);
    }
  }

  lemma UpKeepsHostUp(r: Router, up: ConfigEntry, later: seq<ConfigEntry>, handler: Handler,
                      old_: ConfigEntry, new_: ConfigEntry)
    requires Inv(r)
    requires EntryCopies(r, new_) > 0 || ((new_ == up || new_ in later) && EntryCopies(r, old_) > 0)
    ensures var r' := Add(r, up.hostname, handler, up.target);
            Inv(r') && (EntryCopies(r', new_) > 0 || (new_ in later && EntryCopies(r', old_) > 0))
  {
    AddKeepsInv(r, up.hostname, handler, up.target);
    AddCopies(r, up.hostname, handler, up.target, old_.hostname, old_.target);
    AddCopies(r, up.hostname, handler, up.target, new_.hostname, new_.target);
  }

  lemma {:induction false} HostNeverDownDown(glob: Glob, factory: Factory, r: Router, ops: seq<Op>,
                                             downs: seq<ConfigEntry>,
                                             old_: ConfigEntry, new_: ConfigEntry)
    requires Inv(r) && ops != [] && !ops[0].Serving?
    requires Updates(ops) == EventOps(factory, Events([], true) + Events(downs, false))
    requires old_.hostname == new_.hostname && factory(new_).Some? && new_ !in downs
    requires EntryCopies(r, new_) > 0
    ensures StaysLive(glob, r, ops, new_.hostname)
    decreases |ops|, 0, 0
  {
    assert Events([], true) + Events(downs, false) == Events(downs, false);
    assert Updates(ops) == [ops[0]] + Updates(ops[1..]);
    assert downs != [];
    var op := Removing(downs[0].hostname, downs[0].target);
    assert Events(downs, false)[1..] == Events(downs[1..], false);
    assert EventOps(factory, Events(downs, false)) == [op] + EventOps(factory, Events(downs[1..], false));
    SameHeadAndTail(ops[0], Updates(ops[1..]), op, EventOps(factory, Events(downs[1..], false)));
    assert Events([], true) + Events(downs[1..], false) == Events(downs[1..], false);
    RemoveKeepsInv(r, op.path, op.id);
    RemoveCopies(r, op.path, op.id, new_.hostname, new_.target);
    HostNeverDown(glob, factory, Apply(glob, r, op), ops[1..], [], downs[1..], old_, new_);
  }

  lemma SameHeadAndTail<T>(x: T, xs: seq<T>, y: T, ys: seq<T>)
    requires [x] + xs == [y] + ys
    ensures x == y && xs == ys
  {
    assert ([x] + xs)[0] == ([y] + ys)[0];
    assert ([x] + xs)[1..] == ([y] + ys)[1..];
  }

  lemma MissingMember(xs: seq<ConfigEntry>, from: seq<ConfigEntry>, e: ConfigEntry)
    ensures e in Missing(xs, from) <==> e in xs && e !in from
  {
    MissingCount(xs, from, e);
    assert e in Missing(xs, from) <==> e in multiset(Missing(xs, from));
    assert e in xs <==> e in multiset(xs);
  }

  ghost predicate SameObject(r: Router, r': Router, path: string) {
    && path in r.index && path in r'.index && r'.index[path] == r.index[path]
    && Continues(r, r')
  }

  /** A path that stays live keeps its entry object, and the object keeps its place relative
      to all the others. */
  lemma {:induction false} StaysSameObject(glob: Glob, r: Router, ops: seq<Op>, path: string, k: nat)
    requires Inv(r) && StaysLive(glob, r, ops, path) && k <= |ops|
    ensures SameObject(r, Run(glob, r, ops[..k]), path)
    decreases |ops|
  {
    RunContinues(glob, r, ops[..k]);
    if k > 0 {
      ApplyKeepsInv(glob, r, ops[0]);
      assert ops[..k][1..] == ops[1..][..k - 1];
      StaysSameObject(glob, Apply(glob, r, ops[0]), ops[1..], path, k - 1);
      KeepsIndex(glob, r, ops[0], path);
    }
  }

  lemma KeepsIndex(glob: Glob, r: Router, op: Op, path: string)
    requires InBounds(r) && path in r.index && path in Apply(glob, r, op).index
    ensures Apply(glob, r, op).index[path] == r.index[path]
  {
  }

  lemma CounterStep(glob: Glob, r: Router, op: Op, b: nat, later: nat)
    requires InBounds(r) && b < |r.heap|
    ensures b < |Apply(glob, r, op).heap|
    ensures (Apply(glob, r, op).heap[b].next + later) % WORD
            == (r.heap[b].next + if IsTurn(glob, r, op, b) then later + 1 else later) % WORD
  {
    OneOperation(glob, r, op, b);
    WrappedStep(r.heap[b].next, later + 1);
  }

  lemma {:induction false} CounterCountsTurns(glob: Glob, r: Router, ops: seq<Op>, b: nat)
    requires InBounds(r) && b < |r.heap|
    ensures b < |Run(glob, r, ops).heap|
    ensures Run(glob, r, ops).heap[b].next == (r.heap[b].next + Turns(glob, r, ops, b, None)) % WORD
    decreases |ops|
  {
    if ops != [] {
      var later := Turns(glob, Apply(glob, r, ops[0]), ops[1..], b, None);
      TurnsUnfold(glob, r, ops, b, None);
      CounterStep(glob, r, ops[0], b, later);
      CounterCountsTurns(glob, Apply(glob, r, ops[0]), ops[1..], b);
    }
  }

  lemma ReloadStaysLive(glob: Glob, factory: Factory, r: Router,
                        prev: seq<ConfigEntry>, new_: seq<ConfigEntry>, ops: seq<Op>,
                        before: ConfigEntry, after: ConfigEntry)
    requires Inv(r) && Covers(factory, r, prev)
    requires Updates(ops) == EventOps(factory, Batch(prev, new_))
    requires before in prev && after in new_ && before.hostname == after.hostname
    requires factory(before).Some? && factory(after).Some?
    ensures StaysLive(glob, r, ops, before.hostname)
  {
    MissingMember(prev, new_, after);
    MissingMember(new_, prev, after);
    HostNeverDown(glob, factory, r, ops, Missing(new_, prev), Missing(prev, new_), before, after);
  }

  /** After the history `ops` the path is still served by the same entry object, whose place
      among the others is unchanged and whose counter has moved with its requests only. */
  ghost predicate Uninterrupted(glob: Glob, r: Router, ops: seq<Op>, path: string)
    requires InBounds(r) && path in r.index
  {
    var r', b := Run(glob, r, ops), r.index[path];
    && SameObject(r, r', path)
    && b < |r'.heap| && r'.heap[b].next == (r.heap[b].next + Turns(glob, r, ops, b, None)) % WORD
  }

  lemma SameObjectUninterrupted(glob: Glob, r: Router, ops: seq<Op>, path: string)
    requires InBounds(r) && SameObject(r, Run(glob, r, ops), path)
    ensures Uninterrupted(glob, r, ops, path)
  {
    CounterCountsTurns(glob, r, ops, r.index[path]);
  }

  lemma StaysUninterrupted(glob: Glob, r: Router, ops: seq<Op>, path: string, k: nat)
    requires Inv(r) && StaysLive(glob, r, ops, path) && k <= |ops|
    ensures Uninterrupted(glob, r, ops[..k], path)
  {
    StaysSameObject(glob, r, ops, path, k);
    SameObjectUninterrupted(glob, r, ops[..k], path);
  }

  /** A hostname with a servable entry in the old and in the new config is served without
      interruption at every moment of the reload, requests in between included. */
  lemma ReloadWithoutInterruption(glob: Glob, factory: Factory, r: Router,
                                  prev: seq<ConfigEntry>, new_: seq<ConfigEntry>, ops: seq<Op>,
                                  before: ConfigEntry, after: ConfigEntry, k: nat)
    requires Inv(r) && Covers(factory, r, prev)
    requires Updates(ops) == EventOps(factory, Batch(prev, new_))
    requires before in prev && after in new_ && before.hostname == after.hostname
    requires factory(before).Some? && factory(after).Some? && k <= |ops|
    ensures before.hostname in r.index && Uninterrupted(glob, r, ops[..k], before.hostname)
  {
    ReloadStaysLive(glob, factory, r, prev, new_, ops, before, after);
    StaysUninterrupted(glob, r, ops, before.hostname, k);
  }

  // ---------------------------------------------------------------- which handlers

  /** Every registered handler is the one the factory makes for its pair. */
  ghost predicate FromFactory(factory: Factory, r: Router) {
    forall b, i :: 0 <= b < |r.heap| && 0 <= i < |r.heap[b].handlers| ==>
      factory(ConfigEntry(r.heap[b].path, r.heap[b].handlers[i].id))
      == Some(r.heap[b].handlers[i].handler)
  }

  lemma {:induction false} WithoutPicks(handlers: seq<MuxHandler>, id: string, i: nat) returns (j: nat)
    requires i < |Without(handlers, id)|
    ensures j < |handlers| && Without(handlers, id)[i] == handlers[j]
  {
    if handlers[0].id == id {
      j := i + 1;
    } else if i == 0 {
      j := 0;
    } else {
      j := WithoutPicks(handlers[1..], id, i - 1);
      j := j + 1;
    }
  }

  lemma ProcessFromFactory(factory: Factory, r: Router, e: ConfigEvent)
    requires Inv(r) && FromFactory(factory, r)
    ensures FromFactory(factory, Process(factory, r, e))
  {
    var r' := Process(factory, r, e);
    forall b, i | 0 <= b < |r'.heap| && 0 <= i < |r'.heap[b].handlers|
      ensures factory(ConfigEntry(r'.heap[b].path, r'.heap[b].handlers[i].id))
              == Some(r'.heap[b].handlers[i].handler)
    {
      if !e.up && e.entry.hostname in r.index && r.index[e.entry.hostname] == b {
        var j := WithoutPicks(r.heap[b].handlers, e.entry.target, i);
      }
    }
  }

  /** A live host is served by the handlers the factory made for its own targets. */
  lemma {:induction false} ReplayFromFactory(factory: Factory, r: Router, events: seq<ConfigEvent>)
    requires Inv(r) && FromFactory(factory, r)
    ensures FromFactory(factory, Replay(factory, r, events))
    decreases |events|
  {
    if events != [] {
      ProcessKeepsInv(factory, r, events[0]);
      ProcessFromFactory(factory, r, events[0]);
      ReplayFromFactory(factory, Process(factory, r, events[0]), events[1..]);
    }
  }
}
