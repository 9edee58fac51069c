/** Delivery of the emitted batches: each one is sent by a goroutine of its own, so after the
    initial batch they may arrive in any order. */
module Delivery {
  import opened GoStrings
  import opened RouterModel
  import opened LiveView
  import opened ConfigModel
  import opened Reload
  import opened UpdateProtocol
  import opened LastContent

  // ---------------------------------------------------------------- two batches swapped

  lemma SwapCopies(factory: Factory, r: Router, c0: Entries, c1: Entries, c2: Entries, e: ConfigEntry)
    requires Inv(r) && Exact(factory, r, c0)
    requires NoDuplicates(c0) && NoDuplicates(c1) && NoDuplicates(c2)
    ensures EntryCopies(Replay(factory, r, Batch(c1, c2) + Batch(c0, c1)), e)
            == Wanted(factory, c2, e)
               + if factory(e).Some? && e in c1 && e !in c0 && e !in c2 then 1 else 0
  {
    var middle := Replay(factory, r, Batch(c1, c2));
    ReplayConcat(factory, r, Batch(c1, c2), Batch(c0, c1));
    ReplayKeepsInv(factory, r, Batch(c1, c2));
    assert EntryCopies(r, e) == Wanted(factory, c0, e);
    OneOrNone(c0, e);
    OneOrNone(c1, e);
    OneOrNone(c2, e);
    BatchCopies(factory, r, c1, c2, e);
    BatchCopies(factory, middle, c0, c1, e);
  }

  lemma OneOrNone(c: Entries, e: ConfigEntry)
    requires NoDuplicates(c)
    ensures multiset(c)[e] == if e in c then 1 else 0
  {
  }

  /** If two consecutive batches swap places, the outcome is exact if and only if no servable
      entry came with the first reload and went with the second. */
  lemma SwapExactIff(factory: Factory, r: Router, c0: Entries, c1: Entries, c2: Entries)
    requires Inv(r) && Exact(factory, r, c0)
    requires NoDuplicates(c0) && NoDuplicates(c1) && NoDuplicates(c2)
    ensures Exact(factory, Replay(factory, r, Batch(c1, c2) + Batch(c0, c1)), c2)
            <==> forall e :: e in c1 && factory(e).Some? ==> e in c0 || e in c2
  {
    var r' := Replay(factory, r, Batch(c1, c2) + Batch(c0, c1));
    forall e
      ensures EntryCopies(r', e) == Wanted(factory, c2, e)
              <==> (e in c1 && factory(e).Some? ==> e in c0 || e in c2)
    {
      SwapCopies(factory, r, c0, c1, c2, e);
    }
    if forall e :: e in c1 && factory(e).Some? ==> e in c0 || e in c2 {
      assert forall e :: EntryCopies(r', e) == Wanted(factory, c2, e);
    }
  }

  // ---------------------------------------------------------------- any order

  /** Up events less down events of a pair. */
  function Net(events: seq<ConfigEvent>, e: ConfigEntry): int {
    var ups: int, downs: int := multiset(events)[ConfigEvent(e, true)], multiset(events)[ConfigEvent(e, false)];
    ups - downs
  }

  function Change(event: ConfigEvent, e: ConfigEntry): int {
    if event.entry != e then 0 else if event.up then 1 else -1
  }

  lemma NetCons(event: ConfigEvent, events: seq<ConfigEvent>, e: ConfigEntry)
    ensures Net([event] + events, e) == Change(event, e) + Net(events, e)
  {
  }

  lemma ProcessCopies(factory: Factory, r: Router, event: ConfigEvent, e: ConfigEntry)
    requires Inv(r) && factory(e).Some?
    ensures EntryCopies(Process(factory, r, event), e)
            == if EntryCopies(r, e) + Change(event, e) < 0 then 0 else EntryCopies(r, e) + Change(event, e)
  {
    var entry := event.entry;
    if !event.up {
      RemoveCopies(r, entry.hostname, entry.target, e.hostname, e.target);
    } else if factory(entry).Some? {
      AddCopies(r, entry.hostname, factory(entry).value, entry.target, e.hostname, e.target);
    }
  }

  /** How many down events find no handler of the pair to remove. */
  ghost function Missed(factory: Factory, r: Router, events: seq<ConfigEvent>, e: ConfigEntry): nat
    requires InBounds(r)
    decreases |events|
  {
    if events == [] then 0
    else
      (if EntryCopies(r, e) + Change(events[0], e) < 0 then 1 else 0)
      + Missed(factory, Process(factory, r, events[0]), events[1..], e)
  }

  /** The handlers of a pair are those it had, plus ups, less downs, plus the downs that came
      to nothing. */
  lemma {:induction false} CopiesBalance(factory: Factory, r: Router, events: seq<ConfigEvent>, e: ConfigEntry)
    requires Inv(r) && factory(e).Some?
    ensures EntryCopies(Replay(factory, r, events), e)
            == EntryCopies(r, e) + Net(events, e) + Missed(factory, r, events, e)
    decreases |events|
  {
    if events != [] {
      assert events == [events[0]] + events[1..];
      NetCons(events[0], events[1..], e);
      ProcessCopies(factory, r, events[0], e);
      ProcessKeepsInv(factory, r, events[0]);
      CopiesBalance(factory, Process(factory, r, events[0]), events[1..], e);
    }
  }

  /** Starting from n, the downs of a pair never outnumber what was there and came before. */
  ghost predicate NeverShort(n: int, events: seq<ConfigEvent>, e: ConfigEntry) {
    forall k :: 0 <= k <= |events| ==> n + Net(events[..k], e) >= 0
  }

  lemma NeverShortCons(n: int, events: seq<ConfigEvent>, e: ConfigEntry)
    requires events != []
    ensures NeverShort(n, events, e) <==> n >= 0 && NeverShort(n + Change(events[0], e), events[1..], e)
  {
    forall k | 1 <= k <= |events|
      ensures Net(events[..k], e) == Change(events[0], e) + Net(events[1..][..k - 1], e)
    {
      assert events[..k] == [events[0]] + events[1..][..k - 1];
      NetCons(events[0], events[1..][..k - 1], e);
    }
    if NeverShort(n, events, e) {
      assert n + Net(events[..0], e) >= 0;
      forall k | 0 <= k <= |events[1..]|
        ensures n + Change(events[0], e) + Net(events[1..][..k], e) >= 0
      {
        assert n + Net(events[..k + 1], e) >= 0;
      }
    }
    if n >= 0 && NeverShort(n + Change(events[0], e), events[1..], e) {
      forall k | 0 <= k <= |events| ensures n + Net(events[..k], e) >= 0 {
        if k > 0 {
          assert n + Change(events[0], e) + Net(events[1..][..k - 1], e) >= 0;
        }
      }
    }
  }

  /** No down is missed exactly if, counted from the copies there are, downs never run ahead. */
  lemma {:induction false} NoneMissedIff(factory: Factory, r: Router, events: seq<ConfigEvent>, e: ConfigEntry)
    requires Inv(r) && factory(e).Some?
    ensures Missed(factory, r, events, e) == 0 <==> NeverShort(EntryCopies(r, e), events, e)
    decreases |events|
  {
    if events == [] {
      assert forall k :: 0 <= k <= |events| ==> events[..k] == [];
    } else {
      NeverShortCons(EntryCopies(r, e), events, e);
      ProcessCopies(factory, r, events[0], e);
      ProcessKeepsInv(factory, r, events[0]);
      if EntryCopies(r, e) + Change(events[0], e) >= 0 {
        NoneMissedIff(factory, Process(factory, r, events[0]), events[1..], e);
      } else {
        assert events[1..][..0] == [];
        assert Net(events[1..][..0], e) == 0;
      }
    }
  }

  lemma {:induction false} UnservableStaysOut(factory: Factory, r: Router, events: seq<ConfigEvent>, e: ConfigEntry)
    requires Inv(r) && factory(e).None? && EntryCopies(r, e) == 0
    ensures EntryCopies(Replay(factory, r, events), e) == 0
    decreases |events|
  {
    if events != [] {
      var entry := events[0].entry;
      if !events[0].up {
        RemoveCopies(r, entry.hostname, entry.target, e.hostname, e.target);
      } else if factory(entry).Some? {
        AddCopies(r, entry.hostname, factory(entry).value, entry.target, e.hostname, e.target);
      }
      ProcessKeepsInv(factory, r, events[0]);
      UnservableStaysOut(factory, Process(factory, r, events[0]), events[1..], e);
    }
  }

  // ---------------------------------------------------------------- what the batches add up to

  lemma {:induction false} EventsCount(xs: Entries, up: bool, e: ConfigEntry, u: bool)
    ensures multiset(Events(xs, up))[ConfigEvent(e, u)] == if u == up then multiset(xs)[e] else 0
  {
    if xs != [] {
      EventsCount(xs[1..], up, e, u);
      assert xs == [xs[0]] + xs[1..];
    }
  }

  lemma BatchNet(prev: Entries, new_: Entries, e: ConfigEntry)
    requires NoDuplicates(prev) && NoDuplicates(new_)
    ensures multiset(prev)[e] + Net(Batch(prev, new_), e) == multiset(new_)[e]
  {
    var up, down := Missing(new_, prev), Missing(prev, new_);
    EventsCount(up, true, e, true);
    EventsCount(up, true, e, false);
    EventsCount(down, false, e, true);
    EventsCount(down, false, e, false);
    MissingCount(new_, prev, e);
    MissingCount(prev, new_, e);
    OneOrNone(prev, e);
    OneOrNone(new_, e);
  }

  lemma LinkNet(prev: Entries, new_: Entries, batch: seq<ConfigEvent>, e: ConfigEntry)
    requires IsBatch(prev, new_, batch) && NoDuplicates(prev) && NoDuplicates(new_)
    ensures multiset(prev)[e] + Net(batch, e) == multiset(new_)[e]
  {
    BatchNet(prev, new_, e);
  }

  lemma ContentAtEnd(prev: Entries, committed: seq<Entries>)
    requires committed != []
    ensures ContentAt(committed[0], committed[1..], |committed| - 1) == ContentAt(prev, committed, |committed|)
  {
  }

  lemma NetConcat(a: seq<ConfigEvent>, b: seq<ConfigEvent>, e: ConfigEntry)
    ensures Net(a + b, e) == Net(a, e) + Net(b, e)
  {
  }

  ghost predicate NoneRepeats(committed: seq<Entries>) {
    forall i :: 0 <= i < |committed| ==> NoDuplicates(committed[i])
  }

  lemma NoneRepeatsTail(committed: seq<Entries>)
    requires NoneRepeats(committed) && committed != []
    ensures NoDuplicates(committed[0]) && NoneRepeats(committed[1..])
  {
  }

  lemma FlattenNet(emitted: seq<seq<ConfigEvent>>, e: ConfigEntry)
    requires emitted != []
    ensures Net(Flatten(emitted), e) == Net(emitted[0], e) + Net(Flatten(emitted[1..]), e)
  {
    NetConcat(emitted[0], Flatten(emitted[1..]), e);
  }

  lemma {:induction false} ChainNet(prev: Entries, committed: seq<Entries>, emitted: seq<seq<ConfigEvent>>,
                                    e: ConfigEntry)
    requires Chained(prev, committed, emitted)
    requires NoDuplicates(prev) && NoneRepeats(committed)
    ensures multiset(prev)[e] + Net(Flatten(emitted), e)
            == multiset(ContentAt(prev, committed, |emitted|))[e]
    decreases |emitted|
  {
    if emitted != [] {
      ChainTail(IsBatch, prev, committed, emitted);
      NoneRepeatsTail(committed);
      ContentAtEnd(prev, committed);
      LinkNet(prev, committed[0], emitted[0], e);
      FlattenNet(emitted, e);
      ChainNet(committed[0], committed[1..], emitted[1..], e);
    }
  }

  lemma {:induction false} FlattenConcat(a: seq<seq<ConfigEvent>>, b: seq<seq<ConfigEvent>>)
    ensures Flatten(a + b) == Flatten(a) + Flatten(b)
  {
    if a == [] {
      assert a + b == b;
    } else {
      assert (a + b)[0] == a[0] && (a + b)[1..] == a[1..] + b;
      FlattenConcat(a[1..], b);
    }
  }

  lemma FlattenAround(x: seq<seq<ConfigEvent>>, batch: seq<ConfigEvent>, y: seq<seq<ConfigEvent>>)
    ensures multiset(x + [batch] + y) == multiset(x + y) + multiset{batch}
    ensures multiset(Flatten(x + [batch] + y)) == multiset(Flatten(x + y)) + multiset(batch)
  {
    FlattenConcat(x + [batch], y);
    FlattenConcat(x, [batch]);
    FlattenConcat(x, y);
    assert [batch][1..] == [] && Flatten([batch]) == batch + Flatten([]);
  }

  lemma TakeOut(m: multiset<seq<ConfigEvent>>, n: multiset<seq<ConfigEvent>>, batch: seq<ConfigEvent>)
    requires m + multiset{batch} == n + multiset{batch}
    ensures m == n
  {
    assert m == m + multiset{batch} - multiset{batch};
    assert n == n + multiset{batch} - multiset{batch};
  }

  lemma FindBatch(a: seq<seq<ConfigEvent>>, batch: seq<ConfigEvent>)
      returns (x: seq<seq<ConfigEvent>>, y: seq<seq<ConfigEvent>>)
    requires batch in multiset(a)
    ensures a == x + [batch] + y
  {
    assert batch in a;
    var i :| 0 <= i < |a| && a[i] == batch;
    x, y := a[..i], a[i + 1..];
  }

  /** Permuting the batches permutes the events. */
  lemma {:induction false} FlattenPermuted(a: seq<seq<ConfigEvent>>, b: seq<seq<ConfigEvent>>)
    requires multiset(a) == multiset(b)
    ensures multiset(Flatten(a)) == multiset(Flatten(b))
    decreases |b|
  {
    if b == [] {
      EmptyBatches(a);
    } else {
      var batch, rest := b[0], b[1..];
      assert b == [] + [batch] + rest && rest == [] + rest;
      FlattenAround([], batch, rest);
      assert batch in multiset(b);
      var x, y := FindBatch(a, batch);
      FlattenAround(x, batch, y);
      TakeOut(multiset(x + y), multiset(rest), batch);
      FlattenPermuted(x + y, rest);
    }
  }

  lemma EmptyBatches(a: seq<seq<ConfigEvent>>)
    requires multiset(a) == multiset{}
    ensures a == []
  {
    assert |a| == |multiset(a)|;
  }

  // ---------------------------------------------------------------- the guarantee

  /** `arrived` are the batches of the run in some order. */
  ghost predicate Delivered(s: State, arrived: seq<seq<ConfigEvent>>) {
    multiset(arrived) == multiset(s.emitted)
  }

  function Received(factory: Factory, first: Entries, arrived: seq<seq<ConfigEvent>>): (r: Router)
    ensures InBounds(r)
  {
    StartedInBounds(factory, first);
    Replay(factory, Started(factory, first), Flatten(arrived))
  }

  lemma RunNet(first: Entries, steps: seq<Step>, arrived: seq<seq<ConfigEvent>>, e: ConfigEntry)
    requires NoDuplicates(first) && AllContents(steps, NoDuplicates)
    requires Delivered(Exec(Init(first), steps), arrived)
    ensures NoDuplicates(Exec(Init(first), steps).prev)
    ensures multiset(first)[e] + Net(Flatten(arrived), e) == multiset(Exec(Init(first), steps).prev)[e]
  {
    var s := Exec(Init(first), steps);
    ExecTelescopes(first, Init(first), steps);
    ExecKeepsContents(Init(first), steps, NoDuplicates);
    FlattenPermuted(arrived, s.emitted);
    assert NoneRepeats(s.committed);
    ChainNet(first, s.committed, s.emitted, e);
  }

  /** Whatever the order of arrival: a servable pair has the handlers the last configuration
      asks for, and one more for each down event that came too early. */
  lemma AnyOrderCopies(factory: Factory, first: Entries, steps: seq<Step>,
                       arrived: seq<seq<ConfigEvent>>, e: ConfigEntry)
    requires NoDuplicates(first) && AllContents(steps, NoDuplicates)
    requires Delivered(Exec(Init(first), steps), arrived)
    ensures EntryCopies(Received(factory, first, arrived), e)
            == if factory(e).None? then 0
               else multiset(Exec(Init(first), steps).prev)[e]
                    + Missed(factory, Started(factory, first), Flatten(arrived), e)
  {
    StartedExact(factory, first);
    assert EntryCopies(Started(factory, first), e) == Wanted(factory, first, e);
    if factory(e).None? {
      UnservableStaysOut(factory, Started(factory, first), Flatten(arrived), e);
    } else {
      RunNet(first, steps, arrived, e);
      CopiesBalance(factory, Started(factory, first), Flatten(arrived), e);
    }
  }

  /** Ups outnumber downs, with what was there counted in, or do so from some point on. */
  ghost predicate Ahead(n: int, events: seq<ConfigEvent>, e: ConfigEntry) {
    n + Net(events, e) > 0 || exists k :: 0 <= k <= |events| && Net(events[k..], e) > 0
  }

  lemma AheadCons(n: nat, m: nat, events: seq<ConfigEvent>, e: ConfigEntry)
    requires events != []
    requires m == if n + Change(events[0], e) < 0 then 0 else n + Change(events[0], e)
    ensures Ahead(n, events, e) <==> Ahead(m, events[1..], e)
  {
    assert events == [events[0]] + events[1..];
    NetCons(events[0], events[1..], e);
    assert events[0..] == events && events[1..][0..] == events[1..];
    if k :| 1 <= k <= |events| && Net(events[k..], e) > 0 {
      assert events[1..][k - 1..] == events[k..];
    }
    if k :| 0 <= k <= |events[1..]| && Net(events[1..][k..], e) > 0 {
      assert events[k + 1..] == events[1..][k..];
    }
  }

  /** Removals take nothing where there is nothing, so a pair ends up with a handler exactly if
      it is ahead. */
  lemma {:induction false} SomeCopyIff(factory: Factory, r: Router, events: seq<ConfigEvent>, e: ConfigEntry)
    requires Inv(r) && factory(e).Some?
    ensures EntryCopies(Replay(factory, r, events), e) > 0 <==> Ahead(EntryCopies(r, e), events, e)
    decreases |events|
  {
    if events == [] {
      assert forall k :: 0 <= k <= |events| ==> events[k..] == [];
    } else {
      var r' := Process(factory, r, events[0]);
      ProcessCopies(factory, r, events[0], e);
      ProcessKeepsInv(factory, r, events[0]);
      AheadCons(EntryCopies(r, e), EntryCopies(r', e), events, e);
      SomeCopyIff(factory, r', events[1..], e);
    }
  }

  /** For arbitrary contents and any order of arrival: the handlers of a servable pair are
      balanced, and the last configuration is covered exactly if each of its servable entries
      is ahead. */
  lemma AnyOrderBalance(factory: Factory, first: Entries, steps: seq<Step>, arrived: seq<seq<ConfigEvent>>)
    requires Delivered(Exec(Init(first), steps), arrived)
    ensures var s, r := Exec(Init(first), steps), Received(factory, first, arrived);
            && (forall e :: factory(e).Some? ==>
                  EntryCopies(r, e)
                  == multiset(first)[e] + Net(Flatten(s.emitted), e)
                     + Missed(factory, Started(factory, first), Flatten(arrived), e))
            && (Covers(factory, r, s.prev) <==>
                  forall e :: e in s.prev && factory(e).Some? ==> Ahead(multiset(first)[e], Flatten(arrived), e))
  {
    var s, r := Exec(Init(first), steps), Received(factory, first, arrived);
    FlattenPermuted(arrived, s.emitted);
    forall e | factory(e).Some?
      ensures EntryCopies(r, e) == multiset(first)[e] + Net(Flatten(s.emitted), e)
                                   + Missed(factory, Started(factory, first), Flatten(arrived), e)
      ensures EntryCopies(r, e) > 0 <==> Ahead(multiset(first)[e], Flatten(arrived), e)
    {
      StartedExact(factory, first);
      assert EntryCopies(Started(factory, first), e) == Wanted(factory, first, e);
      CopiesBalance(factory, Started(factory, first), Flatten(arrived), e);
      SomeCopyIff(factory, Started(factory, first), Flatten(arrived), e);
    }
  }

  lemma RemovalOvertaken(factory: Factory, r: Router, a: ConfigEntry)
    requires Inv(r) && factory(a).Some? && EntryCopies(r, a) == 1
    ensures var gone, back := Batch([a, a], []), Batch([], [a]);
            && EntryCopies(Replay(factory, Replay(factory, r, gone), back), a) == 1
            && EntryCopies(Replay(factory, Replay(factory, r, back), gone), a) == 0
  {
    var gone, back := Batch([a, a], []), Batch([], [a]);
    ReplayKeepsInv(factory, r, gone);
    ReplayKeepsInv(factory, r, back);
    BatchCopies(factory, r, [a, a], [], a);
    BatchCopies(factory, Replay(factory, r, gone), [], [a], a);
    BatchCopies(factory, r, [], [a], a);
    BatchCopies(factory, Replay(factory, r, back), [a, a], [], a);
  }

  lemma AddedOnce(factory: Factory, a: ConfigEntry)
    requires factory(a).Some?
    ensures var r := Replay(factory, EMPTY, Batch([], [a]) + Batch([a], [a, a]));
            Inv(r) && EntryCopies(r, a) == 1
  {
    var b1, b2 := Batch([], [a]), Batch([a], [a, a]);
    ReplayConcat(factory, EMPTY, b1, b2);
    BatchCopies(factory, EMPTY, [], [a], a);
    ReplayKeepsInv(factory, EMPTY, b1);
    SecondGoesUnnoticed(factory, Replay(factory, EMPTY, b1), a);
  }

  lemma SecondGoesUnnoticed(factory: Factory, r: Router, a: ConfigEntry)
    requires Inv(r)
    ensures Inv(Replay(factory, r, Batch([a], [a, a])))
    ensures EntryCopies(Replay(factory, r, Batch([a], [a, a])), a) == EntryCopies(r, a)
  {
    ReplayKeepsInv(factory, r, Batch([a], [a, a]));
    BatchCopies(factory, r, [a], [a, a], a);
  }

  /** With duplicates a reordered run can lose an entry for good: after [], [A], [A, A], [] and
      [A] the last addition arrives before the double removal. */
  lemma DuplicateLostOutOfOrder(factory: Factory, a: ConfigEntry)
    requires factory(a).Some?
    ensures var start, gone, back := Batch([], [a]) + Batch([a], [a, a]), Batch([a, a], []), Batch([], [a]);
            && EntryCopies(Replay(factory, EMPTY, start + gone + back), a) == 1
            && EntryCopies(Replay(factory, EMPTY, start + back + gone), a) == 0
  {
    var start, gone, back := Batch([], [a]) + Batch([a], [a, a]), Batch([a, a], []), Batch([], [a]);
    var r := Replay(factory, EMPTY, start);
    AddedOnce(factory, a);
    RemovalOvertaken(factory, r, a);
    TwoMore(factory, r, start, gone, back);
    TwoMore(factory, r, start, back, gone);
  }

  lemma TwoMore(factory: Factory, r: Router, start: seq<ConfigEvent>, x: seq<ConfigEvent>, y: seq<ConfigEvent>)
    requires InBounds(r) && r == Replay(factory, EMPTY, start)
    ensures Replay(factory, EMPTY, start + x + y) == Replay(factory, Replay(factory, r, x), y)
  {
    ReplayConcat(factory, EMPTY, start + x, y);
    ReplayConcat(factory, EMPTY, start, x);
  }

  /** For duplicate-free contents and any order of arrival, every servable entry of the last
      configuration has a handler in the end. */
  lemma AnyOrderCovers(factory: Factory, first: Entries, steps: seq<Step>, arrived: seq<seq<ConfigEvent>>)
    requires NoDuplicates(first) && AllContents(steps, NoDuplicates)
    requires Delivered(Exec(Init(first), steps), arrived)
    ensures Covers(factory, Received(factory, first, arrived), Exec(Init(first), steps).prev)
  {
    var last := Exec(Init(first), steps).prev;
    forall e | e in last && factory(e).Some?
      ensures EntryCopies(Received(factory, first, arrived), e) > 0
    {
      AnyOrderCopies(factory, first, steps, arrived, e);
      assert e in multiset(last);
    }
  }

  /** And it is exact if and only if, for no servable entry, removals ran ahead of what was
      configured at the start and of the additions that had arrived. */
  lemma AnyOrderExactIff(factory: Factory, first: Entries, steps: seq<Step>, arrived: seq<seq<ConfigEvent>>)
    requires NoDuplicates(first) && AllContents(steps, NoDuplicates)
    requires Delivered(Exec(Init(first), steps), arrived)
    ensures Exact(factory, Received(factory, first, arrived), Exec(Init(first), steps).prev)
            <==> forall e :: factory(e).Some? ==> NeverShort(multiset(first)[e], Flatten(arrived), e)
  {
    var r, last := Received(factory, first, arrived), Exec(Init(first), steps).prev;
    forall e
      ensures EntryCopies(r, e) == Wanted(factory, last, e)
              <==> (factory(e).Some? ==> NeverShort(multiset(first)[e], Flatten(arrived), e))
    {
      StartedExact(factory, first);
      assert EntryCopies(Started(factory, first), e) == Wanted(factory, first, e);
      AnyOrderCopies(factory, first, steps, arrived, e);
      if factory(e).Some? {
        NoneMissedIff(factory, Started(factory, first), Flatten(arrived), e);
      }
    }
    if forall e :: factory(e).Some? ==> NeverShort(multiset(first)[e], Flatten(arrived), e) {
      assert forall e :: EntryCopies(r, e) == Wanted(factory, last, e);
    }
  }

  /** From the file to the router: when reads and commits are prompt, an event follows the last
      change, all goroutines are done and all batches have arrived, in whatever order, every
      servable line of the file has a handler; and there are no others exactly if no removal
      overtook its addition. */
  lemma FileIsServed(factory: Factory, first: Entries, steps: seq<Step>, arrived: seq<seq<ConfigEvent>>)
    requires NoDuplicates(first) && AllContents(steps, NoDuplicates)
    requires Prompt(Init(first), steps) && Quiet(Exec(Init(first), steps))
    requires Exec(Init(first), steps).file.Some?
    requires var h := Recall(Init(first), START, steps); h.changedAt == 0 || h.eventAt > h.changedAt
    requires Delivered(Exec(Init(first), steps), arrived)
    ensures var content := Exec(Init(first), steps).file.value;
            var r := Received(factory, first, arrived);
            && Covers(factory, r, content)
            && (Exact(factory, r, content)
                <==> forall e :: factory(e).Some? ==> NeverShort(multiset(first)[e], Flatten(arrived), e))
  {
    LastUpdateWins(first, steps);
    AnyOrderCovers(factory, first, steps, arrived);
    AnyOrderExactIff(factory, first, steps, arrived);
  }
}
