/** Configurations, the difference between two of them, and the event batch it becomes. */
module ConfigModel {

  /** The source tells targets apart by their printed form only, so that is what is kept. */
  datatype ConfigEntry = ConfigEntry(hostname: string, target: string)

  datatype ConfigEvent = ConfigEvent(entry: ConfigEntry, up: bool)

  /** The entries of `xs` that `from` does not contain: order and repeats are kept. */
  function Missing(xs: seq<ConfigEntry>, from: seq<ConfigEntry>): seq<ConfigEntry> {
    if xs == [] then []
    else (if xs[0] in from then [] else [xs[0]]) + Missing(xs[1..], from)
  }

  function Events(xs: seq<ConfigEntry>, up: bool): seq<ConfigEvent> {
    if xs == [] then [] else [ConfigEvent(xs[0], up)] + Events(xs[1..], up)
  }

  /** All ups, then all downs. */
  function Batch(prev: seq<ConfigEntry>, new_: seq<ConfigEntry>): seq<ConfigEvent> {
    Events(Missing(new_, prev), true) + Events(Missing(prev, new_), false)
  }

  lemma {:induction false} MissingAppend(xs: seq<ConfigEntry>, x: ConfigEntry, from: seq<ConfigEntry>)
    ensures Missing(xs + [x], from) == Missing(xs, from) + if x in from then [] else [x]
  {
    if xs == [] {
      assert xs + [x] == [x];
    } else {
      MissingAppend(xs[1..], x, from);
      assert (xs + [x])[1..] == xs[1..] + [x];
    }
  }

  lemma {:induction false} EventsAppend(xs: seq<ConfigEntry>, x: ConfigEntry, up: bool)
    ensures Events(xs + [x], up) == Events(xs, up) + [ConfigEvent(x, up)]
  {
    if xs == [] {
      assert xs + [x] == [x];
    } else {
      EventsAppend(xs[1..], x, up);
      assert (xs + [x])[1..] == xs[1..] + [x];
    }
  }

  /** Missing drops the shared entries and keeps every occurrence of the others. */
  lemma {:induction false} MissingCount(xs: seq<ConfigEntry>, from: seq<ConfigEntry>, e: ConfigEntry)
    ensures multiset(Missing(xs, from))[e] == if e in from then 0 else multiset(xs)[e]
  {
    if xs != [] {
      MissingCount(xs[1..], from, e);
      assert xs == [xs[0]] + xs[1..];
    }
  }

  method Contains(entries: seq<ConfigEntry>, other: ConfigEntry) returns (found: bool)
    ensures found <==> other in entries
  {
    for i := 0 to |entries|
      invariant other !in entries[..i]
    {
      if entries[i].hostname == other.hostname && entries[i].target == other.target {
        return true;
      }
    }
    found := false;
  }

  method ToEvents(entries: seq<ConfigEntry>, up: bool) returns (events: seq<ConfigEvent>)
    ensures events == Events(entries, up)
  {
    events := [];
    for i := 0 to |entries|
      invariant events == Events(entries[..i], up)
    {
      EventsAppend(entries[..i], entries[i], up);
      assert entries[..i + 1] == entries[..i] + [entries[i]];
      events := events + [ConfigEvent(entries[i], up)];
    }
    assert entries[..|entries|] == entries;
  }

  /** The part of Config that handleUpdate changes while it holds the lock. */
  class Config {
    var prevEntries: seq<ConfigEntry>

    constructor (entries: seq<ConfigEntry>)
      ensures prevEntries == entries
    {
      prevEntries := entries;
    }

    method GetConfigChange(newEntries: seq<ConfigEntry>) returns (up: seq<ConfigEntry>, down: seq<ConfigEntry>)
      ensures up == Missing(newEntries, prevEntries) && down == Missing(prevEntries, newEntries)
    {
      up := MissingFrom(newEntries, prevEntries);
      down := MissingFrom(prevEntries, newEntries);
    }

    /** One of the two append loops of getConfigChange. */
    static method MissingFrom(xs: seq<ConfigEntry>, from: seq<ConfigEntry>) returns (missing: seq<ConfigEntry>)
      ensures missing == Missing(xs, from)
    {
      missing := [];
      for i := 0 to |xs|
        invariant missing == Missing(xs[..i], from)
      {
        MissingAppend(xs[..i], xs[i], from);
        assert xs[..i + 1] == xs[..i] + [xs[i]];
        var found := Contains(from, xs[i]);
        if !found {
          missing := missing + [xs[i]];
        }
      }
      assert xs[..|xs|] == xs;
    }

    /** The critical section: diff, remember, and hand the batch to a sender. */
    method Update(newEntries: seq<ConfigEntry>) returns (batch: seq<ConfigEvent>)
      modifies this
      ensures prevEntries == newEntries
      ensures batch == Batch(old(prevEntries), newEntries)
    {
      var up, down := GetConfigChange(newEntries);
      prevEntries := newEntries;
      var ups := ToEvents(up, true);
      var downs := ToEvents(down, false);
      batch := ups + downs;
    }
  }
}
