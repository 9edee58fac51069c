/** Which content of the file ends up configured: the times of changes, reads and commits in
    a run of the update goroutines, and the schedules in which the last content wins. */
module LastContent {
  import opened GoStrings
  import opened MachineWords
  import opened UpdateProtocol

  /** Steps are timed 1, 2, ...; the read at start-up is at time 0. `past` are the contents the
      file had before its last change, `readAt` says when a goroutine read the file, and
      `prevReadAt` when the content now configured was read. */
  datatype History = History(
    clock: nat, changedAt: nat, eventAt: nat, past: set<Option<Entries>>,
    readAt: map<nat, nat>, prevReadAt: nat)

  const START := History(0, 0, 0, {}, map[], 0)

  predicate CanRead(s: State, w: nat) {
    w < |s.workers| && s.workers[w].Awake? && s.file.Some?
  }

  predicate CanCommit(s: State, w: nat) {
    w < |s.workers| && s.workers[w].Loaded?
  }

  function Observe(s: State, h: History, step: Step): History {
    var t := h.clock + 1;
    match step
    case FileEvent => h.(clock := t, eventAt := t)
    case FileChange(_) => h.(clock := t, changedAt := t, past := h.past + {s.file})
    case ReadFile(w) => if CanRead(s, w) then h.(clock := t, readAt := h.readAt[w := t]) else h.(clock := t)
    case Commit(w) =>
      if CanCommit(s, w) && w in h.readAt then h.(clock := t, prevReadAt := h.readAt[w]) else h.(clock := t)
    case _ => h.(clock := t)
  }

  function Recall(s: State, h: History, steps: seq<Step>): History
    decreases |steps|
  {
    if steps == [] then h else Recall(Take(s, steps[0]), Observe(s, h, steps[0]), steps[1..])
  }

  // ---------------------------------------------------------------- what a time tells

  /** A content read at time t is the file's content if nothing changed since, and one of its
      former contents otherwise. */
  predicate ReadThen(s: State, h: History, content: Entries, t: nat) {
    t <= h.clock && if t >= h.changedAt then s.file == Some(content) else Some(content) in h.past
  }

  ghost predicate TimesTrue(s: State, h: History) {
    && h.changedAt <= h.clock && h.eventAt <= h.clock
    && (forall w :: w in h.readAt ==> h.readAt[w] <= h.clock)
    && (forall w :: 0 <= w < |s.workers| && s.workers[w].Loaded? ==>
          w in h.readAt && ReadThen(s, h, s.workers[w].entries, h.readAt[w]))
    && ReadThen(s, h, s.prev, h.prevReadAt)
  }

  lemma ObserveKeepsTimes(s: State, h: History, step: Step)
    requires TimesTrue(s, h)
    ensures TimesTrue(Take(s, step), Observe(s, h, step))
  {
  }

  lemma {:induction false} RecallKeepsTimes(s: State, h: History, steps: seq<Step>)
    requires TimesTrue(s, h)
    ensures TimesTrue(Exec(s, steps), Recall(s, h, steps))
    decreases |steps|
  {
    if steps != [] {
      ObserveKeepsTimes(s, h, steps[0]);
      RecallKeepsTimes(Take(s, steps[0]), Observe(s, h, steps[0]), steps[1..]);
    }
  }

  /** At every point of every run, the content configured is the file's if it was read after
      the last change; and if the file's content was never there before, only then. */
  lemma LastContentIff(first: Entries, steps: seq<Step>)
    ensures var s, h := Exec(Init(first), steps), Recall(Init(first), START, steps);
            && (h.prevReadAt >= h.changedAt ==> s.file == Some(s.prev))
            && (s.file !in h.past ==> (s.file == Some(s.prev) <==> h.prevReadAt >= h.changedAt))
  {
    RecallKeepsTimes(Init(first), START, steps);
  }

  // ---------------------------------------------------------------- commits in read order

  /** Nobody commits what was read before the content that is already configured. */
  ghost predicate InReadOrder(s: State, h: History, steps: seq<Step>)
    decreases |steps|
  {
    steps == [] ||
    (&& (steps[0].Commit? && CanCommit(s, steps[0].w) && steps[0].w in h.readAt ==>
           h.readAt[steps[0].w] >= h.prevReadAt)
     && InReadOrder(Take(s, steps[0]), Observe(s, h, steps[0]), steps[1..]))
  }

  /** The content configured was read at start-up or by some goroutine, and everything read
      later is still to be committed. */
  ghost predicate LatestCommitted(s: State, h: History) {
    && (h.prevReadAt == 0 || exists w :: w in h.readAt && h.readAt[w] == h.prevReadAt)
    && (forall w :: w in h.readAt ==> 0 < h.readAt[w] && w < |s.workers|)
    && (forall w :: w in h.readAt ==> s.workers[w].Loaded? || s.workers[w].Finished?)
    && (forall w :: w in h.readAt && h.readAt[w] > h.prevReadAt ==> s.workers[w].Loaded?)
  }

  lemma CommitKeepsLatest(s: State, h: History, w: nat)
    requires LatestCommitted(s, h) && CanCommit(s, w) && w in h.readAt && h.readAt[w] >= h.prevReadAt
    ensures LatestCommitted(Take(s, Commit(w)), Observe(s, h, Commit(w)))
  {
    var s', h' := Take(s, Commit(w)), Observe(s, h, Commit(w));
    assert h'.readAt == h.readAt && h'.prevReadAt == h.readAt[w];
    assert forall v :: 0 <= v < |s.workers| && v != w ==> s'.workers[v] == s.workers[v];
  }

  lemma ObserveKeepsLatest(s: State, h: History, step: Step)
    requires TimesTrue(s, h) && LatestCommitted(s, h) && InReadOrder(s, h, [step])
    ensures LatestCommitted(Take(s, step), Observe(s, h, step))
  {
    if step.Commit? && CanCommit(s, step.w) {
      CommitKeepsLatest(s, h, step.w);
    } else if step.ReadFile? && CanRead(s, step.w) {
      ReadKeepsLatest(s, h, step.w);
    } else {
      assert Observe(s, h, step).prevReadAt == h.prevReadAt && Observe(s, h, step).readAt == h.readAt;
    }
  }

  lemma ReadKeepsLatest(s: State, h: History, w: nat)
    requires LatestCommitted(s, h) && CanRead(s, w)
    ensures LatestCommitted(Take(s, ReadFile(w)), Observe(s, h, ReadFile(w)))
  {
    var s', h' := Take(s, ReadFile(w)), Observe(s, h, ReadFile(w));
    assert w !in h.readAt && s'.workers[w].Loaded?;
    assert forall v :: 0 <= v < |s.workers| && v != w ==> s'.workers[v] == s.workers[v];
    if h.prevReadAt != 0 {
      var v :| v in h.readAt && h.readAt[v] == h.prevReadAt;
      assert h'.readAt[v] == h'.prevReadAt;
    }
  }

  lemma {:induction false} RecallKeepsLatest(s: State, h: History, steps: seq<Step>)
    requires TimesTrue(s, h) && LatestCommitted(s, h) && InReadOrder(s, h, steps)
    ensures LatestCommitted(Exec(s, steps), Recall(s, h, steps))
    decreases |steps|
  {
    if steps != [] {
      ObserveKeepsTimes(s, h, steps[0]);
      assert InReadOrder(s, h, [steps[0]]);
      ObserveKeepsLatest(s, h, steps[0]);
      RecallKeepsLatest(Take(s, steps[0]), Observe(s, h, steps[0]), steps[1..]);
    }
  }

  predicate Quiet(s: State) {
    forall w :: 0 <= w < |s.workers| ==> s.workers[w].Finished?
  }

  /** Was the file read after its last change, or never changed? */
  ghost predicate ReadAgain(h: History) {
    h.changedAt == 0 || exists w :: w in h.readAt && h.readAt[w] >= h.changedAt
  }

  /** If commits come in the order of the reads, then once all goroutines are done the file's
      content is configured if some goroutine read it after the last change; and if that
      content is new, only then. */
  lemma OrderedCommitsIff(first: Entries, steps: seq<Step>)
    requires InReadOrder(Init(first), START, steps) && Quiet(Exec(Init(first), steps))
    ensures var s, h := Exec(Init(first), steps), Recall(Init(first), START, steps);
            && (ReadAgain(h) ==> s.file == Some(s.prev))
            && (s.file !in h.past ==> (s.file == Some(s.prev) <==> ReadAgain(h)))
  {
    var s, h := Exec(Init(first), steps), Recall(Init(first), START, steps);
    LastContentIff(first, steps);
    RecallKeepsLatest(Init(first), START, steps);
    forall w | w in h.readAt ensures h.readAt[w] <= h.prevReadAt {
      assert !s.workers[w].Loaded?;
    }
  }

  // ---------------------------------------------------------------- the debounce at work

  predicate Active(worker: Worker) {
    worker.Awake? || worker.Loaded?
  }

  /** No goroutine passes its check while another is between its check and its commit. The
      second of sleep makes this so as long as reading and committing take less. */
  ghost predicate Prompt(s: State, steps: seq<Step>)
    decreases |steps|
  {
    steps == [] ||
    (&& (steps[0].Check? && steps[0].w < |s.workers| && Take(s, steps[0]).workers[steps[0].w].Awake? ==>
           forall w :: 0 <= w < |s.workers| ==> !Active(s.workers[w]))
     && Prompt(Take(s, steps[0]), steps[1..]))
  }

  ghost predicate OneActive(s: State, h: History) {
    && (forall v, w :: 0 <= v < w < |s.workers| ==> !(Active(s.workers[v]) && Active(s.workers[w])))
    && (forall w :: 0 <= w < |s.workers| && s.workers[w].Loaded? ==>
          w in h.readAt && h.readAt[w] >= h.prevReadAt)
    && h.prevReadAt <= h.clock
    && (forall w :: w in h.readAt ==> h.readAt[w] <= h.clock)
  }

  lemma ObserveKeepsOneActive(s: State, h: History, step: Step)
    requires OneActive(s, h) && Prompt(s, [step])
    ensures OneActive(Take(s, step), Observe(s, h, step))
  {
  }

  lemma {:induction false} PromptInReadOrder(s: State, h: History, steps: seq<Step>)
    requires OneActive(s, h) && Prompt(s, steps)
    ensures InReadOrder(s, h, steps)
    decreases |steps|
  {
    if steps != [] {
      assert Prompt(s, [steps[0]]);
      ObserveKeepsOneActive(s, h, steps[0]);
      PromptInReadOrder(Take(s, steps[0]), Observe(s, h, steps[0]), steps[1..]);
    }
  }

  /** Somebody has read the file after its last change or is certain to. */
  ghost predicate OnTheWay(s: State, h: History, w: nat) {
    || (w < |s.workers|
        && match s.workers[w]
           case Spawned => true
           case Sleeping(_, birth) => birth == s.increments
           case Awake(_) => true
           case _ => false)
    || (w in h.readAt && h.readAt[w] > h.changedAt)
  }

  ghost predicate FollowedUp(s: State, h: History) {
    h.eventAt > h.changedAt && s.file.Some? ==> exists w :: OnTheWay(s, h, w)
  }

  lemma ObserveKeepsFollowUp(s: State, h: History, step: Step)
    requires CountersAgree(s) && TimesTrue(s, h) && FollowedUp(s, h)
    ensures FollowedUp(Take(s, step), Observe(s, h, step))
  {
    var s', h' := Take(s, step), Observe(s, h, step);
    if h'.eventAt > h'.changedAt && s'.file.Some? {
      if step.FileEvent? {
        assert OnTheWay(s', h', |s.workers|);
      } else {
        var w :| OnTheWay(s, h, w);
        if step.Increment? && step.w < |s.workers| && s.workers[step.w].Spawned? {
          assert OnTheWay(s', h', step.w);
        } else {
          assert OnTheWay(s', h', w);
        }
      }
    }
  }

  lemma {:induction false} RecallKeepsFollowUp(s: State, h: History, steps: seq<Step>)
    requires CountersAgree(s) && TimesTrue(s, h) && FollowedUp(s, h)
    ensures FollowedUp(Exec(s, steps), Recall(s, h, steps))
    decreases |steps|
  {
    if steps != [] {
      TakeKeepsCounters(s, steps[0]);
      ObserveKeepsTimes(s, h, steps[0]);
      ObserveKeepsFollowUp(s, h, steps[0]);
      RecallKeepsFollowUp(Take(s, steps[0]), Observe(s, h, steps[0]), steps[1..]);
    }
  }

  /** Only the last update counts: if reads and commits are prompt, every goroutine is done,
      and an event came after the last change of a readable file, then the file's content is
      configured, however many events there were and whoever was turned away. */
  lemma LastUpdateWins(first: Entries, steps: seq<Step>)
    requires Prompt(Init(first), steps) && Quiet(Exec(Init(first), steps))
    requires Exec(Init(first), steps).file.Some?
    requires var h := Recall(Init(first), START, steps); h.changedAt == 0 || h.eventAt > h.changedAt
    ensures Exec(Init(first), steps).file == Some(Exec(Init(first), steps).prev)
  {
    var s, h := Exec(Init(first), steps), Recall(Init(first), START, steps);
    PromptInReadOrder(Init(first), START, steps);
    OrderedCommitsIff(first, steps);
    RecallKeepsFollowUp(Init(first), START, steps);
    if h.changedAt > 0 {
      var w :| OnTheWay(s, h, w);
      assert w in h.readAt && h.readAt[w] > h.changedAt;
    }
  }
}
