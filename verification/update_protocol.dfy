/** The goroutines that follow file events: each takes a number, sleeps, gives up unless its
    number is still the last, reads the file and, under the lock, emits the difference.
    A run is any interleaving of their steps with changes of the file. */
module UpdateProtocol {
  import opened GoStrings
  import opened MachineWords
  import opened RouterModel
  import opened ConfigModel
  import opened Reload

  type Entries = seq<ConfigEntry>

  /** `birth` counts increments without wrapping; the code only has `number`. */
  datatype Worker =
    | Spawned
    | Sleeping(number: uint32, birth: nat)
    | Awake(birth: nat)
    | Loaded(entries: Entries)
    | Finished

  datatype Step =
    | FileEvent
    | FileChange(content: Option<Entries>)
    | Increment(w: nat)
    | Check(w: nat)
    | ReadFile(w: nat)
    | Commit(w: nat)

  datatype Note =
    | Incremented(birth: nat)
    | Passed(birth: nat)
    | Dropped(birth: nat)

  /** counter and prev are the shared fields; the rest is the environment and the record of
      the run: increments made, notes in time order, contents and batches in lock order. */
  datatype State = State(
    counter: uint32, prev: Entries,
    workers: seq<Worker>, file: Option<Entries>,
    increments: nat, notes: seq<Note>, committed: seq<Entries>, emitted: seq<seq<ConfigEvent>>)

  function Init(first: Entries): State {
    State(0, first, [], Some(first), 0, [], [], [])
  }

  /** One step; a step that is not possible now leaves the state as it is. */
  function Take(s: State, step: Step): State {
    match step
    case FileEvent => s.(workers := s.workers + [Spawned])
    case FileChange(content) => s.(file := content)
    case Increment(w) =>
      if w < |s.workers| && s.workers[w].Spawned? then
        var number, birth := (s.counter + 1) % WORD, s.increments + 1;
        s.(counter := number, increments := birth,
           workers := s.workers[w := Sleeping(number, birth)],
           notes := s.notes + [Incremented(birth)])
      else s
    case Check(w) =>
      if w < |s.workers| && s.workers[w].Sleeping? then
        var birth := s.workers[w].birth;
        if s.counter != s.workers[w].number then
          s.(workers := s.workers[w := Finished], notes := s.notes + [Dropped(birth)])
        else
          s.(workers := s.workers[w := Awake(birth)], notes := s.notes + [Passed(birth)])
      else s
    case ReadFile(w) =>
      if w < |s.workers| && s.workers[w].Awake? then
        s.(workers := s.workers[w := if s.file.None? then Finished else Loaded(s.file.value)])
      else s
    case Commit(w) =>
      if w < |s.workers| && s.workers[w].Loaded? then
        var entries := s.workers[w].entries;
        s.(prev := entries, workers := s.workers[w := Finished],
           committed := s.committed + [entries], emitted := s.emitted + [Batch(s.prev, entries)])
      else s
  }

  function Exec(s: State, steps: seq<Step>): State
    decreases |steps|
  {
    if steps == [] then s else Exec(Take(s, steps[0]), steps[1..])
  }

  // ---------------------------------------------------------------- debounce

  function Increments(notes: seq<Note>): nat {
    if notes == [] then 0
    else Increments(notes[..|notes| - 1]) + if notes[|notes| - 1].Incremented? then 1 else 0
  }

  lemma {:induction false} IncrementsMonotone(notes: seq<Note>, p: nat)
    requires p <= |notes|
    ensures Increments(notes[..p]) <= Increments(notes)
    decreases |notes| - p
  {
    if p == |notes| {
      assert notes[..p] == notes;
    } else {
      IncrementsMonotone(notes, p + 1);
      assert notes[..p + 1][..p] == notes[..p];
    }
  }

  lemma CountedBefore(notes: seq<Note>, q: nat, p: nat)
    requires q < p <= |notes| && notes[q].Incremented?
    ensures Increments(notes[..q]) + 1 <= Increments(notes[..p])
  {
    IncrementsMonotone(notes[..p], q + 1);
    assert notes[..p][..q + 1] == notes[..q + 1];
    assert notes[..q + 1][..q] == notes[..q];
  }

  /** What each note says about the increments before it. */
  ghost predicate NoteTrue(notes: seq<Note>, p: nat)
    requires p < |notes|
  {
    match notes[p]
    case Incremented(birth) => birth == Increments(notes[..p]) + 1
    case Passed(birth) =>
      birth <= Increments(notes[..p]) && (Increments(notes[..p]) - birth) % WORD == 0
    case Dropped(birth) => birth < Increments(notes[..p])
  }

  ghost predicate NotesTrue(notes: seq<Note>) {
    forall p :: 0 <= p < |notes| ==> NoteTrue(notes, p)
  }

  ghost predicate CountersAgree(s: State) {
    && s.counter == s.increments % WORD
    && s.increments == Increments(s.notes)
    && forall w :: 0 <= w < |s.workers| && s.workers[w].Sleeping? ==>
         s.workers[w].number == s.workers[w].birth % WORD && s.workers[w].birth <= s.increments
  }

  lemma AppendNote(notes: seq<Note>, note: Note)
    ensures Increments(notes + [note]) == Increments(notes) + if note.Incremented? then 1 else 0
    ensures NotesTrue(notes) && NoteTrue(notes + [note], |notes|) ==> NotesTrue(notes + [note])
  {
    var more := notes + [note];
    assert more[..|notes|] == notes;
    if NotesTrue(notes) && NoteTrue(more, |notes|) {
      forall p | 0 <= p < |more| ensures NoteTrue(more, p) {
        if p < |notes| {
          SameNote(notes, more, p);
        }
      }
    }
  }

  lemma SameNote(notes: seq<Note>, more: seq<Note>, p: nat)
    requires p < |notes| <= |more| && more[..|notes|] == notes
    ensures NoteTrue(notes, p) <==> NoteTrue(more, p)
  {
    assert more[..p] == more[..|notes|][..p] && more[p] == more[..|notes|][p];
  }

  lemma SameResidue(n: nat, m: nat)
    requires m <= n
    ensures n % WORD == m % WORD <==> (n - m) % WORD == 0
    ensures n - m < WORD ==> (n % WORD == m % WORD <==> n == m)
  {
  }

  lemma PassesByResidue(s: State, w: nat)
    requires CountersAgree(s) && w < |s.workers| && s.workers[w].Sleeping?
    ensures Take(s, Check(w)).workers[w].Awake?
            <==> (s.increments - s.workers[w].birth) % WORD == 0
    ensures s.increments - s.workers[w].birth < WORD ==>
              (Take(s, Check(w)).workers[w].Awake? <==> s.increments == s.workers[w].birth)
  {
    SameResidue(s.increments, s.workers[w].birth);
  }

  lemma NextCounter(n: nat)
    ensures (n % WORD + 1) % WORD == (n + 1) % WORD
  {
  }

  lemma IncrementKeepsCounters(s: State, w: nat)
    requires CountersAgree(s) && w < |s.workers| && s.workers[w].Spawned?
    ensures CountersAgree(Take(s, Increment(w)))
  {
    AppendNote(s.notes, Incremented(s.increments + 1));
    NextCounter(s.increments);
    var s', n := Take(s, Increment(w)), s.increments;
    assert s'.counter == (n + 1) % WORD;
    forall v | 0 <= v < |s'.workers| && s'.workers[v].Sleeping?
      ensures s'.workers[v].number == s'.workers[v].birth % WORD && s'.workers[v].birth <= n + 1
    {
      if v != w {
        assert s'.workers[v] == s.workers[v];
      }
    }
  }

  /** The wrapping counter and the numbers taken from it agree with the increments made. */
  lemma TakeKeepsCounters(s: State, step: Step)
    requires CountersAgree(s)
    ensures CountersAgree(Take(s, step))
  {
    match step {
      case Increment(w) =>
        if w < |s.workers| && s.workers[w].Spawned? {
          IncrementKeepsCounters(s, w);
        }
      case Check(w) =>
        if w < |s.workers| && s.workers[w].Sleeping? {
          var birth := s.workers[w].birth;
          AppendNote(s.notes, if s.counter != s.workers[w].number then Dropped(birth) else Passed(birth));
        }
      case _ =>
    }
  }

  lemma {:induction false} ExecKeepsCounters(s: State, steps: seq<Step>)
    requires CountersAgree(s)
    ensures CountersAgree(Exec(s, steps))
    decreases |steps|
  {
    if steps != [] {
      TakeKeepsCounters(s, steps[0]);
      ExecKeepsCounters(Take(s, steps[0]), steps[1..]);
    }
  }

  /** In every run, however many events there were: a sleeping worker passes exactly when the
      increments since its own are a multiple of 2^32; with fewer than that, exactly when
      there were none. */
  lemma CheckPassesIff(first: Entries, steps: seq<Step>, w: nat)
    requires w < |Exec(Init(first), steps).workers| && Exec(Init(first), steps).workers[w].Sleeping?
    ensures var s := Exec(Init(first), steps);
            var since := s.increments - s.workers[w].birth;
            && since >= 0
            && (Take(s, Check(w)).workers[w].Awake? <==> since % WORD == 0)
            && (since < WORD ==> (Take(s, Check(w)).workers[w].Awake? <==> since == 0))
  {
    ExecKeepsCounters(Init(first), steps);
    PassesByResidue(Exec(Init(first), steps), w);
  }

  lemma IncrementKeepsNotes(s: State, w: nat)
    requires CountersAgree(s) && NotesTrue(s.notes) && w < |s.workers| && s.workers[w].Spawned?
    ensures NotesTrue(Take(s, Increment(w)).notes)
  {
    var note := Incremented(s.increments + 1);
    AppendNote(s.notes, note);
    assert (s.notes + [note])[..|s.notes|] == s.notes;
  }

  lemma CheckKeepsNotes(s: State, w: nat)
    requires CountersAgree(s) && NotesTrue(s.notes)
    requires w < |s.workers| && s.workers[w].Sleeping?
    ensures NotesTrue(Take(s, Check(w)).notes)
  {
    var birth := s.workers[w].birth;
    PassesByResidue(s, w);
    var note := if s.counter != s.workers[w].number then Dropped(birth) else Passed(birth);
    AppendNote(s.notes, note);
    assert (s.notes + [note])[..|s.notes|] == s.notes;
  }

  lemma TakeKeepsNotes(s: State, step: Step)
    requires CountersAgree(s) && NotesTrue(s.notes)
    ensures NotesTrue(Take(s, step).notes)
  {
    match step {
      case Increment(w) =>
        if w < |s.workers| && s.workers[w].Spawned? {
          IncrementKeepsNotes(s, w);
        }
      case Check(w) =>
        if w < |s.workers| && s.workers[w].Sleeping? {
          CheckKeepsNotes(s, w);
        }
      case _ =>
    }
  }

  lemma {:induction false} ExecKeepsNotes(s: State, steps: seq<Step>)
    requires CountersAgree(s) && NotesTrue(s.notes)
    ensures NotesTrue(Exec(s, steps).notes)
    decreases |steps|
  {
    if steps != [] {
      TakeKeepsCounters(s, steps[0]);
      TakeKeepsNotes(s, steps[0]);
      ExecKeepsNotes(Take(s, steps[0]), steps[1..]);
    }
  }

  /** The goroutine holding the last number is never turned away, however many events there
      were: whoever is dropped has a later number behind it. */
  lemma LastNumberPasses(first: Entries, steps: seq<Step>, p: nat)
    requires var s := Exec(Init(first), steps);
             p < |s.notes| && s.notes[p].Dropped?
    ensures var s := Exec(Init(first), steps);
            s.notes[p].birth < Increments(s.notes[..p]) <= s.increments
  {
    var s := Exec(Init(first), steps);
    ExecKeepsCounters(Init(first), steps);
    ExecKeepsNotes(Init(first), steps);
    assert NoteTrue(s.notes, p);
    IncrementsMonotone(s.notes, p);
  }

  /** If numbers i < j both pass, i's check came before j even took its number, or 2^32
      increments after its own. */
  lemma PassesAreSpacedOut(first: Entries, steps: seq<Step>, p: nat, q: nat)
    requires var s := Exec(Init(first), steps);
             && p < |s.notes| && q < |s.notes| && s.notes[p].Passed? && s.notes[q].Incremented?
             && s.notes[p].birth < s.notes[q].birth
    ensures var s := Exec(Init(first), steps);
            p < q || Increments(s.notes[..p]) >= s.notes[p].birth + WORD
    ensures Exec(Init(first), steps).increments < WORD ==> p < q
  {
    var s := Exec(Init(first), steps);
    ExecKeepsCounters(Init(first), steps);
    ExecKeepsNotes(Init(first), steps);
    assert NoteTrue(s.notes, p) && NoteTrue(s.notes, q);
    IncrementsMonotone(s.notes, p);
    if q < p {
      CountedBefore(s.notes, q, p);
      PositiveMultiple(Increments(s.notes[..p]) - s.notes[p].birth);
    }
  }

  lemma PositiveMultiple(n: nat)
    requires n > 0 && n % WORD == 0
    ensures n >= WORD
  {
  }

  // ---------------------------------------------------------------- emitted batches

  /** Each element of `emitted` is linked to the content before and the content after it. */
  ghost predicate ChainedBy(link: (Entries, Entries, seq<ConfigEvent>) -> bool, first: Entries,
                            committed: seq<Entries>, emitted: seq<seq<ConfigEvent>>) {
    && |emitted| == |committed|
    && forall i :: 0 <= i < |emitted| ==> link(ContentAt(first, committed, i), committed[i], emitted[i])
  }

  predicate IsBatch(prev: Entries, new_: Entries, batch: seq<ConfigEvent>) {
    batch == Batch(prev, new_)
  }

  /** Each batch leads from one committed content to the next. */
  ghost predicate Chained(first: Entries, committed: seq<Entries>, emitted: seq<seq<ConfigEvent>>) {
    ChainedBy(IsBatch, first, committed, emitted)
  }

  ghost predicate Telescopes(first: Entries, s: State) {
    Chained(first, s.committed, s.emitted) && s.prev == ContentAt(first, s.committed, |s.committed|)
  }

  /** The configuration after the first k commits. */
  function ContentAt(first: Entries, committed: seq<Entries>, k: nat): Entries
    requires k <= |committed|
  {
    if k == 0 then first else committed[k - 1]
  }

  lemma ChainGrows(link: (Entries, Entries, seq<ConfigEvent>) -> bool, first: Entries,
                   committed: seq<Entries>, emitted: seq<seq<ConfigEvent>>,
                   entries: Entries, batch: seq<ConfigEvent>)
    requires ChainedBy(link, first, committed, emitted)
    requires link(ContentAt(first, committed, |committed|), entries, batch)
    ensures ChainedBy(link, first, committed + [entries], emitted + [batch])
  {
    forall i | 0 <= i < |emitted| + 1
      ensures link(ContentAt(first, committed + [entries], i), (committed + [entries])[i], (emitted + [batch])[i])
    {
      assert ContentAt(first, committed + [entries], i) == ContentAt(first, committed, i);
    }
  }

  lemma ChainTaken(link: (Entries, Entries, seq<ConfigEvent>) -> bool, first: Entries,
                   committed: seq<Entries>, emitted: seq<seq<ConfigEvent>>, k: nat)
    requires ChainedBy(link, first, committed, emitted) && k <= |emitted|
    ensures ChainedBy(link, first, committed[..k], emitted[..k])
  {
    forall i | 0 <= i < k
      ensures link(ContentAt(first, committed[..k], i), committed[..k][i], emitted[..k][i])
    {
      assert ContentAt(first, committed[..k], i) == ContentAt(first, committed, i);
    }
  }

  lemma ChainTail(link: (Entries, Entries, seq<ConfigEvent>) -> bool, first: Entries,
                  committed: seq<Entries>, emitted: seq<seq<ConfigEvent>>)
    requires ChainedBy(link, first, committed, emitted) && emitted != []
    ensures link(first, committed[0], emitted[0])
    ensures ChainedBy(link, committed[0], committed[1..], emitted[1..])
  {
    assert link(ContentAt(first, committed, 0), committed[0], emitted[0]);
    forall i | 0 <= i < |emitted| - 1
      ensures link(ContentAt(committed[0], committed[1..], i), committed[1..][i], emitted[1..][i])
    {
      assert link(ContentAt(first, committed, i + 1), committed[i + 1], emitted[i + 1]);
    }
  }

  lemma OnlyCommitEmits(s: State, step: Step)
    requires !(step.Commit? && step.w < |s.workers| && s.workers[step.w].Loaded?)
    ensures var s' := Take(s, step);
            s'.prev == s.prev && s'.committed == s.committed && s'.emitted == s.emitted
  {
  }

  lemma TakeTelescopes(first: Entries, s: State, step: Step)
    requires Telescopes(first, s)
    ensures Telescopes(first, Take(s, step))
  {
    if step.Commit? && step.w < |s.workers| && s.workers[step.w].Loaded? {
      var entries := s.workers[step.w].entries;
      ChainGrows(IsBatch, first, s.committed, s.emitted, entries, Batch(s.prev, entries));
    } else {
      OnlyCommitEmits(s, step);
    }
  }

  lemma {:induction false} ExecTelescopes(first: Entries, s: State, steps: seq<Step>)
    requires Telescopes(first, s)
    ensures Telescopes(first, Exec(s, steps))
    decreases |steps|
  {
    if steps != [] {
      TakeTelescopes(first, s, steps[0]);
      ExecTelescopes(first, Take(s, steps[0]), steps[1..]);
    }
  }

  function Flatten(batches: seq<seq<ConfigEvent>>): seq<ConfigEvent> {
    if batches == [] then [] else batches[0] + Flatten(batches[1..])
  }

  lemma {:induction false} ReplayTelescoped(factory: Factory, r: Router, prev: Entries,
                                            committed: seq<Entries>, emitted: seq<seq<ConfigEvent>>)
    requires InBounds(r) && Chained(prev, committed, emitted)
    ensures Replay(factory, r, Flatten(emitted)) == Reloaded(factory, r, prev, committed)
    decreases |emitted|
  {
    if emitted != [] {
      var next := Replay(factory, r, emitted[0]);
      ChainTail(IsBatch, prev, committed, emitted);
      ReplayTelescoped(factory, next, committed[0], committed[1..], emitted[1..]);
      ReplayConcat(factory, r, emitted[0], Flatten(emitted[1..]));
    }
  }

  /** Contents ever offered by the file along the run. */
  ghost predicate AllContents(steps: seq<Step>, ok: Entries -> bool) {
    forall i :: 0 <= i < |steps| && steps[i].FileChange? && steps[i].content.Some? ==>
      ok(steps[i].content.value)
  }

  ghost predicate OnlyGoodContents(s: State, ok: Entries -> bool) {
    && (s.file.Some? ==> ok(s.file.value))
    && (forall w :: 0 <= w < |s.workers| && s.workers[w].Loaded? ==> ok(s.workers[w].entries))
    && (forall i :: 0 <= i < |s.committed| ==> ok(s.committed[i]))
  }

  lemma {:induction false} ExecKeepsContents(s: State, steps: seq<Step>, ok: Entries -> bool)
    requires OnlyGoodContents(s, ok) && AllContents(steps, ok)
    ensures OnlyGoodContents(Exec(s, steps), ok)
    decreases |steps|
  {
    if steps != [] {
      assert steps[0].FileChange? && steps[0].content.Some? ==> ok(steps[0].content.value);
      forall i | 0 <= i < |steps[1..]| && steps[1..][i].FileChange? && steps[1..][i].content.Some?
        ensures ok(steps[1..][i].content.value)
      {
        assert steps[i + 1] == steps[1..][i];
      }
      ExecKeepsContents(Take(s, steps[0]), steps[1..], ok);
    }
  }

  /** The router of a server that has received the initial batch and the first k emitted
      batches, in lock order. */
  function RouterAfter(factory: Factory, first: Entries, s: State, k: nat): Router
    requires k <= |s.emitted|
  {
    StartedInBounds(factory, first);
    Replay(factory, Started(factory, first), Flatten(s.emitted[..k]))
  }

  lemma StartedInBounds(factory: Factory, first: Entries)
    ensures InBounds(Started(factory, first))
  {
    StartedExact(factory, first);
  }

  lemma RouterAfterReloads(factory: Factory, first: Entries, steps: seq<Step>, k: nat)
    requires k <= |Exec(Init(first), steps).emitted|
    ensures var s := Exec(Init(first), steps);
            && InBounds(Started(factory, first)) && |s.committed| == |s.emitted|
            && RouterAfter(factory, first, s, k)
               == Reloaded(factory, Started(factory, first), first, s.committed[..k])
            && s.prev == ContentAt(first, s.committed, |s.committed|)
  {
    var s := Exec(Init(first), steps);
    StartedInBounds(factory, first);
    ExecTelescopes(first, Init(first), steps);
    ChainTaken(IsBatch, first, s.committed, s.emitted, k);
    ReplayTelescoped(factory, Started(factory, first), first, s.committed[..k], s.emitted[..k]);
  }

  lemma DuplicateFreeCommits(first: Entries, steps: seq<Step>, k: nat)
    requires NoDuplicates(first) && AllContents(steps, NoDuplicates)
    requires k <= |Exec(Init(first), steps).committed|
    ensures forall c :: c in Exec(Init(first), steps).committed[..k] ==> NoDuplicates(c)
  {
    var s := Exec(Init(first), steps);
    ExecKeepsContents(Init(first), steps, NoDuplicates);
    forall c | c in s.committed[..k] ensures NoDuplicates(c) {
      var i :| 0 <= i < k && s.committed[..k][i] == c;
      assert s.committed[i] == c;
    }
  }

  /** Whatever the goroutines do, stale reads included: a server that has received the first
      k batches in lock order serves exactly the k-th committed configuration, and all
      batches together lead to prevEntries. */
  lemma ConcurrentReloadExact(factory: Factory, first: Entries, steps: seq<Step>, k: nat)
    requires NoDuplicates(first) && AllContents(steps, NoDuplicates)
    requires k <= |Exec(Init(first), steps).emitted|
    ensures var s := Exec(Init(first), steps);
            && |s.committed| == |s.emitted|
            && Exact(factory, RouterAfter(factory, first, s, k), ContentAt(first, s.committed, k))
            && s.prev == ContentAt(first, s.committed, |s.emitted|)
  {
    RouterAfterReloads(factory, first, steps, k);
    CommitsReloadExactly(factory, first, steps, k);
  }

  lemma CommitsReloadExactly(factory: Factory, first: Entries, steps: seq<Step>, k: nat)
    requires NoDuplicates(first) && AllContents(steps, NoDuplicates)
    requires k <= |Exec(Init(first), steps).committed|
    ensures InBounds(Started(factory, first))
    ensures var s := Exec(Init(first), steps);
            Exact(factory, Reloaded(factory, Started(factory, first), first, s.committed[..k]),
                  ContentAt(first, s.committed, k))
  {
    var committed := Exec(Init(first), steps).committed;
    StartedInBounds(factory, first);
    DuplicateFreeCommits(first, steps, k);
    LiveReloadExact(factory, first, committed[..k]);
    LastOfFirst(first, committed, k);
  }

  lemma LastOfFirst(first: Entries, committed: seq<Entries>, k: nat)
    requires k <= |committed|
    ensures ContentAt(first, committed, k)
            == if committed[..k] == [] then first else committed[..k][|committed[..k]| - 1]
  {
  }

  /** With arbitrary contents no configured servable entry is ever without a handler. */
  lemma ConcurrentReloadCovers(factory: Factory, first: Entries, steps: seq<Step>, k: nat)
    requires k <= |Exec(Init(first), steps).emitted|
    ensures var s := Exec(Init(first), steps);
            && |s.committed| == |s.emitted|
            && Covers(factory, RouterAfter(factory, first, s, k), ContentAt(first, s.committed, k))
  {
    var s := Exec(Init(first), steps);
    RouterAfterReloads(factory, first, steps, k);
    StartedExact(factory, first);
    forall e | e in first && factory(e).Some?
      ensures EntryCopies(Started(factory, first), e) > 0
    {
      assert e in multiset(first);
    }
    NeverLost(factory, Started(factory, first), first, s.committed[..k]);
  }

  // ---------------------------------------------------------------- what can go wrong

  lemma {:induction false} ExecConcat(s: State, a: seq<Step>, b: seq<Step>)
    ensures Exec(s, a + b) == Exec(Exec(s, a), b)
    decreases |a|
  {
    if a == [] {
      assert a + b == b;
    } else {
      ExecConcat(Take(s, a[0]), a[1..], b);
      assert (a + b)[1..] == a[1..] + b && (a + b)[0] == a[0];
    }
  }

  lemma ExecOne(s: State, step: Step)
    ensures Exec(s, [step]) == Take(s, step)
  {
    assert [step][1..] == [];
    assert Exec(Take(s, step), []) == Take(s, step);
  }

  function ReadBy(w: nat): seq<Step> {
    [FileEvent, Increment(w), Check(w), ReadFile(w)]
  }

  lemma ReadByNewWorker(s: State, w: nat)
    requires w == |s.workers| && s.file.Some?
    ensures var s' := Exec(s, ReadBy(w));
            s'.workers == s.workers + [Loaded(s.file.value)] && s'.file == s.file && s'.prev == s.prev
  {
    var s1 := Take(s, FileEvent);
    var s2 := Take(s1, Increment(w));
    var s3 := Take(s2, Check(w));
    var s4 := Take(s3, ReadFile(w));
    assert ReadBy(w)[1..] == [Increment(w), Check(w), ReadFile(w)];
    assert [Increment(w), Check(w), ReadFile(w)][1..] == [Check(w), ReadFile(w)];
    assert [Check(w), ReadFile(w)][1..] == [ReadFile(w)];
    assert Exec(s2, [Check(w), ReadFile(w)]) == Exec(s3, [ReadFile(w)]) == s4;
    assert s4.workers == s.workers + [Loaded(s.file.value)];
  }

  lemma CommitsInReverse(s: State, old_: Entries, new_: Entries)
    requires s.workers == [Loaded(old_), Loaded(new_)]
    ensures var s' := Exec(s, [Commit(1), Commit(0)]);
            s'.file == s.file && s'.prev == old_ && s'.workers == [Finished, Finished]
  {
    var s1 := Take(s, Commit(1));
    assert s1.workers == [Loaded(old_), Finished];
    assert [Commit(1), Commit(0)][1..] == [Commit(0)];
    ExecOne(s1, Commit(0));
  }

  /** The lock does not order reads: a goroutine that read the old content may commit after
      one that read the new content, and the old content then stays configured although
      every goroutine has finished. */
  lemma StaleReadCanWin(old_: Entries, new_: Entries) returns (steps: seq<Step>)
    ensures var s := Exec(Init(old_), steps);
            && s.file == Some(new_) && s.prev == old_
            && s.workers == [Finished, Finished]
  {
    var change, commits := [FileChange(Some(new_))], [Commit(1), Commit(0)];
    var s1 := Exec(Init(old_), ReadBy(0));
    ReadByNewWorker(Init(old_), 0);
    var s2 := Exec(s1, change);
    ExecOne(s1, FileChange(Some(new_)));
    var s3 := Exec(s2, ReadBy(1));
    ReadByNewWorker(s2, 1);
    CommitsInReverse(s3, old_, new_);
    steps := ReadBy(0) + (change + (ReadBy(1) + commits));
    ExecConcat(Init(old_), ReadBy(0), change + (ReadBy(1) + commits));
    ExecConcat(s1, change, ReadBy(1) + commits);
    ExecConcat(s2, ReadBy(1), commits);
  }

  /** No goroutine hangs: once it has had its four turns, whatever happened before and whether
      or not the file could be read, it is done. */
  lemma FourTurnsFinish(s: State, w: nat)
    requires w < |s.workers|
    ensures var s' := Exec(s, [Increment(w), Check(w), ReadFile(w), Commit(w)]);
            |s'.workers| == |s.workers| && s'.workers[w].Finished?
  {
    var s1 := Take(s, Increment(w));
    var s2 := Take(s1, Check(w));
    var s3 := Take(s2, ReadFile(w));
    ExecConcat(s, [Increment(w)], [Check(w), ReadFile(w), Commit(w)]);
    ExecConcat(s1, [Check(w)], [ReadFile(w), Commit(w)]);
    ExecConcat(s2, [ReadFile(w)], [Commit(w)]);
    ExecOne(s, Increment(w));
    ExecOne(s1, Check(w));
    ExecOne(s2, ReadFile(w));
    ExecOne(s3, Commit(w));
    assert [Increment(w), Check(w), ReadFile(w), Commit(w)] == [Increment(w)] + [Check(w), ReadFile(w), Commit(w)];
    assert [Check(w), ReadFile(w), Commit(w)] == [Check(w)] + [ReadFile(w), Commit(w)];
    assert [ReadFile(w), Commit(w)] == [ReadFile(w)] + [Commit(w)];
  }

  /** An unreadable file leaves the configuration as it was and sends nothing. */
  lemma UnreadableChangesNothing(s: State, w: nat)
    requires w < |s.workers| && s.workers[w].Awake? && s.file.None?
    ensures var s' := Exec(s, [ReadFile(w), Commit(w)]);
            && s'.prev == s.prev && s'.emitted == s.emitted && s'.committed == s.committed
            && s'.workers == s.workers[w := Finished]
  {
    var s1 := Take(s, ReadFile(w));
    assert [ReadFile(w), Commit(w)] == [ReadFile(w)] + [Commit(w)];
    ExecConcat(s, [ReadFile(w)], [Commit(w)]);
    ExecOne(s, ReadFile(w));
    ExecOne(s1, Commit(w));
  }
}
