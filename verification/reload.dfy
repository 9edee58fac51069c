/** Live reload: event batches replayed on the router. */
module Reload {
  import opened GoStrings
  import opened RouterModel
  import opened LiveView
  import opened ConfigModel

  /** HandlerFactory.Handler: None is the error return. */
  type Factory = ConfigEntry -> Option<Handler>

  /** What ProcessEvent does to the router. */
  function Process(factory: Factory, r: Router, e: ConfigEvent): (r': Router)
    requires InBounds(r)
    ensures InBounds(r')
  {
    if !e.up then Remove(r, e.entry.hostname, e.entry.target)
    else match factory(e.entry)
      case None => r
      case Some(handler) => Add(r, e.entry.hostname, handler, e.entry.target)
  }

  function Replay(factory: Factory, r: Router, events: seq<ConfigEvent>): (r': Router)
    requires InBounds(r)
    ensures InBounds(r')
    decreases |events|
  {
    if events == [] then r else Replay(factory, Process(factory, r, events[0]), events[1..])
  }

  lemma {:induction false} ReplayConcat(factory: Factory, r: Router, a: seq<ConfigEvent>, b: seq<ConfigEvent>)
    requires InBounds(r)
    ensures Replay(factory, r, a + b) == Replay(factory, Replay(factory, r, a), b)
    decreases |a|
  {
    if a == [] {
      assert a + b == b;
    } else {
      assert (a + b)[1..] == a[1..] + b && (a + b)[0] == a[0];
      ReplayConcat(factory, Process(factory, r, a[0]), a[1..], b);
    }
  }

  lemma ProcessKeepsInv(factory: Factory, r: Router, e: ConfigEvent)
    requires Inv(r)
    ensures Inv(Process(factory, r, e))
  {
    if !e.up {
      RemoveKeepsInv(r, e.entry.hostname, e.entry.target);
    } else if factory(e.entry).Some? {
      AddKeepsInv(r, e.entry.hostname, factory(e.entry).value, e.entry.target);
    }
  }

  lemma {:induction false} ReplayKeepsInv(factory: Factory, r: Router, events: seq<ConfigEvent>)
    requires Inv(r)
    ensures Inv(Replay(factory, r, events))
    decreases |events|
  {
    if events != [] {
      ProcessKeepsInv(factory, r, events[0]);
      ReplayKeepsInv(factory, Process(factory, r, events[0]), events[1..]);
    }
  }

  // ---------------------------------------------------------------- counting handlers

  function EntryCopies(r: Router, e: ConfigEntry): nat
    requires InBounds(r)
  {
    Copies(r, e.hostname, e.target)
  }

  /** How many handlers a configuration asks for at a pair: none if the factory fails. */
  function Wanted(factory: Factory, config: seq<ConfigEntry>, e: ConfigEntry): nat {
    if factory(e).Some? then multiset(config)[e] else 0
  }

  /** The live pairs, with their multiplicities, are the servable entries of the config. */
  ghost predicate Exact(factory: Factory, r: Router, config: seq<ConfigEntry>)
    requires InBounds(r)
  {
    forall e :: EntryCopies(r, e) == Wanted(factory, config, e)
  }

  /** Every servable entry of the config has a live handler. */
  ghost predicate Covers(factory: Factory, r: Router, config: seq<ConfigEntry>)
    requires InBounds(r)
  {
    forall e :: e in config && factory(e).Some? ==> EntryCopies(r, e) > 0
  }

  function Less(n: nat, m: nat): nat {
    if n < m then 0 else n - m
  }

  lemma {:induction false} UpsAddCopies(factory: Factory, r: Router, xs: seq<ConfigEntry>, e: ConfigEntry)
    requires Inv(r)
    ensures EntryCopies(Replay(factory, r, Events(xs, true)), e)
            == EntryCopies(r, e) + Wanted(factory, xs, e)
    decreases |xs|
  {
    if xs != [] {
      var event := ConfigEvent(xs[0], true);
      ProcessKeepsInv(factory, r, event);
      assert Events(xs, true)[1..] == Events(xs[1..], true);
      UpsAddCopies(factory, Process(factory, r, event), xs[1..], e);
      assert xs == [xs[0]] + xs[1..];
      if factory(xs[0]).Some? {
        AddCopies(r, xs[0].hostname, factory(xs[0]).value, xs[0].target, e.hostname, e.target);
      }
    }
  }

  lemma {:induction false} DownsTakeCopies(factory: Factory, r: Router, xs: seq<ConfigEntry>, e: ConfigEntry)
    requires Inv(r)
    ensures EntryCopies(Replay(factory, r, Events(xs, false)), e)
            == Less(EntryCopies(r, e), multiset(xs)[e])
    decreases |xs|
  {
    if xs != [] {
      var event := ConfigEvent(xs[0], false);
      ProcessKeepsInv(factory, r, event);
      assert Events(xs, false)[1..] == Events(xs[1..], false);
      assert xs == [xs[0]] + xs[1..];
      DownsTakeCopies(factory, Process(factory, r, event), xs[1..], e);
      assert EntryCopies(Process(factory, r, event), e)
             == Less(EntryCopies(r, e), if xs[0] == e then 1 else 0) by {
        RemoveCopies(r, xs[0].hostname, xs[0].target, e.hostname, e.target);
      }
    }
  }

  /** The effect of one reload on one pair, for any two configurations. */
  lemma BatchCopies(factory: Factory, r: Router, prev: seq<ConfigEntry>, new_: seq<ConfigEntry>, e: ConfigEntry)
    requires Inv(r)
    ensures EntryCopies(Replay(factory, r, Batch(prev, new_)), e)
            == if e in prev then
                 if e in new_ then EntryCopies(r, e) else Less(EntryCopies(r, e), multiset(prev)[e])
               else EntryCopies(r, e) + Wanted(factory, new_, e)
  {
    var middle := Replay(factory, r, Events(Missing(new_, prev), true));
    ReplayConcat(factory, r, Events(Missing(new_, prev), true), Events(Missing(prev, new_), false));
    ReplayKeepsInv(factory, r, Events(Missing(new_, prev), true));
    BatchUps(factory, r, prev, new_, e);
    BatchDowns(factory, middle, prev, new_, e);
  }

  lemma BatchUps(factory: Factory, r: Router, prev: seq<ConfigEntry>, new_: seq<ConfigEntry>, e: ConfigEntry)
    requires Inv(r)
    ensures EntryCopies(Replay(factory, r, Events(Missing(new_, prev), true)), e)
            == EntryCopies(r, e) + if e in prev then 0 else Wanted(factory, new_, e)
  {
    UpsAddCopies(factory, r, Missing(new_, prev), e);
    MissingCount(new_, prev, e);
  }

  lemma BatchDowns(factory: Factory, r: Router, prev: seq<ConfigEntry>, new_: seq<ConfigEntry>, e: ConfigEntry)
    requires Inv(r)
    ensures EntryCopies(Replay(factory, r, Events(Missing(prev, new_), false)), e)
            == if e in prev && e !in new_ then Less(EntryCopies(r, e), multiset(prev)[e]) else EntryCopies(r, e)
  {
    DownsTakeCopies(factory, r, Missing(prev, new_), e);
    MissingCount(prev, new_, e);
  }

  // ---------------------------------------------------------------- whole runs

  ghost predicate NoDuplicates(config: seq<ConfigEntry>) {
    forall e :: multiset(config)[e] <= 1
  }

  /** Entries that stay from one config to the next keep their multiplicity. The diff only
      sees presence, so this is what a reload cannot follow. */
  ghost predicate SameMultiplicity(factory: Factory, prev: seq<ConfigEntry>, new_: seq<ConfigEntry>) {
    forall e :: e in prev && e in new_ && factory(e).Some? ==>
      multiset(prev)[e] == multiset(new_)[e]
  }

  /** One reload from an exact router is exact if and only if no staying entry changes its
      multiplicity. */
  lemma ReloadExactIff(factory: Factory, r: Router, prev: seq<ConfigEntry>, new_: seq<ConfigEntry>)
    requires Inv(r) && Exact(factory, r, prev)
    ensures Inv(Replay(factory, r, Batch(prev, new_)))
    ensures Exact(factory, Replay(factory, r, Batch(prev, new_)), new_)
            <==> SameMultiplicity(factory, prev, new_)
  {
    var r' := Replay(factory, r, Batch(prev, new_));
    ReplayKeepsInv(factory, r, Batch(prev, new_));
    forall e
      ensures EntryCopies(r', e) == Wanted(factory, new_, e) <==>
              (e in prev && e in new_ && factory(e).Some? ==> multiset(prev)[e] == multiset(new_)[e])
    {
      BatchCopies(factory, r, prev, new_, e);
      assert EntryCopies(r, e) == Wanted(factory, prev, e);
    }
    if SameMultiplicity(factory, prev, new_) {
      assert forall e :: EntryCopies(r', e) == Wanted(factory, new_, e);
    }
  }

  /** The router after the initial batch and one reload per further config. */
  function Reloaded(factory: Factory, r: Router, prev: seq<ConfigEntry>, configs: seq<seq<ConfigEntry>>): (r': Router)
    requires InBounds(r)
    ensures InBounds(r')
    decreases |configs|
  {
    if configs == [] then r
    else Reloaded(factory, Replay(factory, r, Batch(prev, configs[0])), configs[0], configs[1..])
  }

  function Started(factory: Factory, config: seq<ConfigEntry>): Router {
    Replay(factory, EMPTY, Events(config, true))
  }

  lemma StartedExact(factory: Factory, config: seq<ConfigEntry>)
    ensures Inv(Started(factory, config)) && Exact(factory, Started(factory, config), config)
  {
    ReplayKeepsInv(factory, EMPTY, Events(config, true));
    forall e ensures EntryCopies(Started(factory, config), e) == Wanted(factory, config, e) {
      UpsAddCopies(factory, EMPTY, config, e);
    }
  }

  ghost predicate ExactThroughout(factory: Factory, r: Router, prev: seq<ConfigEntry>, configs: seq<seq<ConfigEntry>>)
    requires InBounds(r)
    decreases |configs|
  {
    && Exact(factory, r, prev)
    && (configs == [] ||
        ExactThroughout(factory, Replay(factory, r, Batch(prev, configs[0])), configs[0], configs[1..]))
  }

  ghost predicate SteadyMultiplicity(factory: Factory, prev: seq<ConfigEntry>, configs: seq<seq<ConfigEntry>>)
    decreases |configs|
  {
    configs == [] ||
    (SameMultiplicity(factory, prev, configs[0]) && SteadyMultiplicity(factory, configs[0], configs[1..]))
  }

  lemma {:induction false} ExactRunIff(factory: Factory, r: Router, prev: seq<ConfigEntry>, configs: seq<seq<ConfigEntry>>)
    requires Inv(r) && Exact(factory, r, prev)
    ensures ExactThroughout(factory, r, prev, configs) <==> SteadyMultiplicity(factory, prev, configs)
    decreases |configs|
  {
    if configs != [] {
      ReloadExactIff(factory, r, prev, configs[0]);
      if SameMultiplicity(factory, prev, configs[0]) {
        ExactRunIff(factory, Replay(factory, r, Batch(prev, configs[0])), configs[0], configs[1..]);
      }
    }
  }

  /** From the initial batch on, the router follows every config of a run exactly if and
      only if no entry changes its multiplicity while it stays configured. */
  lemma LiveReloadExactIff(factory: Factory, first: seq<ConfigEntry>, configs: seq<seq<ConfigEntry>>)
    ensures ExactThroughout(factory, Started(factory, first), first, configs)
            <==> SteadyMultiplicity(factory, first, configs)
  {
    StartedExact(factory, first);
    ExactRunIff(factory, Started(factory, first), first, configs);
  }

  lemma {:induction false} ExactAtEnd(factory: Factory, r: Router, prev: seq<ConfigEntry>, configs: seq<seq<ConfigEntry>>)
    requires InBounds(r) && ExactThroughout(factory, r, prev, configs)
    ensures Exact(factory, Reloaded(factory, r, prev, configs),
                  if configs == [] then prev else configs[|configs| - 1])
    decreases |configs|
  {
    if configs != [] {
      ExactAtEnd(factory, Replay(factory, r, Batch(prev, configs[0])), configs[0], configs[1..]);
    }
  }

  lemma {:induction false} NoDuplicatesIsSteady(factory: Factory, prev: seq<ConfigEntry>, configs: seq<seq<ConfigEntry>>)
    requires NoDuplicates(prev) && forall c :: c in configs ==> NoDuplicates(c)
    ensures SteadyMultiplicity(factory, prev, configs)
    decreases |configs|
  {
    if configs != [] {
      assert configs[0] in configs;
      assert forall c :: c in configs[1..] ==> c in configs;
      NoDuplicatesIsSteady(factory, configs[0], configs[1..]);
      forall e | e in prev && e in configs[0]
        ensures multiset(prev)[e] == multiset(configs[0])[e]
      {
        assert multiset(prev)[e] <= 1 && multiset(configs[0])[e] <= 1;
      }
    }
  }

  /** Live reload is exact for duplicate-free configs, whatever order they come in. */
  lemma LiveReloadExact(factory: Factory, first: seq<ConfigEntry>, configs: seq<seq<ConfigEntry>>)
    requires NoDuplicates(first) && forall c :: c in configs ==> NoDuplicates(c)
    ensures Exact(factory, Reloaded(factory, Started(factory, first), first, configs),
                  if configs == [] then first else configs[|configs| - 1])
  {
    NoDuplicatesIsSteady(factory, first, configs);
    LiveReloadExactIff(factory, first, configs);
    ExactAtEnd(factory, Started(factory, first), first, configs);
  }

  /** With duplicates a handler can stay behind: the second of two equal lines goes away
      unnoticed, and removing the first then takes only one handler. */
  lemma DuplicateStaysBehind(factory: Factory, a: ConfigEntry)
    requires factory(a).Some?
    ensures EntryCopies(Reloaded(factory, Started(factory, [a, a]), [a, a], [[a], []]), a) == 1
  {
    var r0 := Started(factory, [a, a]);
    StartedExact(factory, [a, a]);
    BatchCopies(factory, r0, [a, a], [a], a);
    var r1 := Replay(factory, r0, Batch([a, a], [a]));
    ReplayKeepsInv(factory, r0, Batch([a, a], [a]));
    BatchCopies(factory, r1, [a], [], a);
    var last: seq<seq<ConfigEntry>> := [[]];
    assert [[a], []][1..] == last;
    assert Reloaded(factory, r0, [a, a], [[a], []]) == Reloaded(factory, r1, [a], last);
    assert last[1..] == [];
  }

  /** For arbitrary configs, duplicates or not, no configured servable entry is ever lost. */
  lemma {:induction false} NeverLost(factory: Factory, r: Router, prev: seq<ConfigEntry>, configs: seq<seq<ConfigEntry>>)
    requires Inv(r) && Covers(factory, r, prev)
    ensures Covers(factory, Reloaded(factory, r, prev, configs),
                   if configs == [] then prev else configs[|configs| - 1])
    decreases |configs|
  {
    if configs != [] {
      var r' := Replay(factory, r, Batch(prev, configs[0]));
      ReplayKeepsInv(factory, r, Batch(prev, configs[0]));
      forall e | e in configs[0] && factory(e).Some? ensures EntryCopies(r', e) > 0 {
        BatchCopies(factory, r, prev, configs[0], e);
      }
      NeverLost(factory, r', configs[0], configs[1..]);
    }
  }

  /** A down event for a pair that has no handler changes nothing. */
  lemma {:induction false} DownOfAbsentIsNoop(r: Router, e: ConfigEntry)
    requires Inv(r) && EntryCopies(r, e) == 0
    ensures Remove(r, e.hostname, e.target) == r
  {
    if e.hostname in r.index {
      var b := r.index[e.hostname];
      WithoutUncounted(r.heap[b].handlers, e.target);
      assert r.heap[b := r.heap[b]] == r.heap;
    }
  }

  lemma {:induction false} WithoutUncounted(handlers: seq<MuxHandler>, id: string)
    requires CountId(handlers, id) == 0
    ensures Without(handlers, id) == handlers
  {
    if handlers != [] {
      WithoutUncounted(handlers[1..], id);
    }
  }
}
