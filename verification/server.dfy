/** The server's event loop and request lookup on the real router. */
module Server {
  import opened GoStrings
  import opened RouterModel
  import opened ConfigModel
  import opened Reload
  import opened Mux

  class Server {
    const mux: Mux
    const factory: Factory

    ghost predicate Valid()
      reads mux, mux.entries, mux.entries.data, mux.objects
    {
      mux.Valid()
    }

    constructor (glob: Glob, factory: Factory)
      ensures Valid() && mux.router == EMPTY && mux.glob == glob && this.factory == factory
      ensures fresh(mux) && fresh(mux.entries) && fresh(mux.entries.data) && mux.objects == []
    {
      mux := new Mux(glob);
      this.factory := factory;
    }

    method ProcessEvent(e: ConfigEvent)
      requires Valid()
      modifies mux, mux.entries, mux.entries.data, mux.objects
      ensures Valid() && mux.router == Process(factory, old(mux.router), e)
      ensures mux.entries.data == old(mux.entries.data) || fresh(mux.entries.data)
      ensures forall i :: 0 <= i < |mux.objects| ==> mux.objects[i] in old(mux.objects) || fresh(mux.objects[i])
    {
      if !e.up {
        mux.Remove(e.entry.hostname, e.entry.target);
        return;
      }
      var handler := factory(e.entry);
      if handler.None? {
        return;
      }
      mux.Add(e.entry.hostname, handler.value, e.entry.target);
    }

    method ProcessEvents(events: seq<ConfigEvent>)
      requires Valid()
      modifies mux, mux.entries, mux.entries.data, mux.objects
      ensures Valid() && mux.router == Replay(factory, old(mux.router), events)
      ensures mux.entries.data == old(mux.entries.data) || fresh(mux.entries.data)
      ensures forall i :: 0 <= i < |mux.objects| ==> mux.objects[i] in old(mux.objects) || fresh(mux.objects[i])
    {
      for i := 0 to |events|
        invariant Valid() && InBounds(old(mux.router))
        invariant mux.entries.data == old(mux.entries.data) || fresh(mux.entries.data)
        invariant forall i :: 0 <= i < |mux.objects| ==> mux.objects[i] in old(mux.objects) || fresh(mux.objects[i])
        invariant mux.router == Replay(factory, old(mux.router), events[..i])
      {
        ReplayOneMore(factory, old(mux.router), events, i);
        ProcessEvent(events[i]);
      }
      assert events[..|events|] == events;
    }

    /** The lookup of ServeHTTP: host and path together are what the mux matches. */
    method Lookup(host: string, path: string) returns (handler: Option<Handler>)
      requires Valid()
      modifies mux, mux.objects
      ensures Valid() && mux.router == AfterServing(mux.glob, old(mux.router), host + path)
      ensures handler == Served(mux.glob, old(mux.router), host + path)
    {
      handler := mux.Handler(host + path);
    }
  }

  lemma ReplayOne(factory: Factory, r: Router, e: ConfigEvent)
    requires InBounds(r)
    ensures Replay(factory, r, [e]) == Process(factory, r, e)
  {
    var one := [e];
    assert one[1..] == [];
    ReplayNone(factory, Process(factory, r, one[0]));
  }

  lemma ReplayNone(factory: Factory, r: Router)
    requires InBounds(r)
    ensures Replay(factory, r, []) == r
  {
  }

  lemma ReplayOneMore(factory: Factory, r: Router, events: seq<ConfigEvent>, i: nat)
    requires InBounds(r) && i < |events|
    ensures Replay(factory, r, events[..i + 1])
            == Process(factory, Replay(factory, r, events[..i]), events[i])
  {
    assert events[..i + 1] == events[..i] + [events[i]];
    ReplayConcat(factory, r, events[..i], [events[i]]);
    var before := Replay(factory, r, events[..i]);
    ReplayOne(factory, before, events[i]);
  }
}
