/** The rewriting response writer: a handler that writes, a pipe, and a copier goroutine that
    streams re-printed HTML to the underlying writer. A run is any interleaving of their
    steps; the underlying writer never fails. */
module ResponseWriter {
  import opened GoStrings
  import opened HtmlTokens
  import opened HtmlStreamer

  /** What a handler does with the response; `contentType` is the header set by then. */
  datatype Action =
    | WriteHeader(contentType: string)
    | Write(p: string)

  datatype Phase = Handling | Waiting | Closed

  /** `pending` is the unread rest of a pipe write in progress, which blocks the handler.
      `received` is what the tokenizer has read, `taken` how many tokens the streamer has
      printed. `out` is the body at the underlying writer; `piped`, `plain` and `copied`
      record what went through the pipe, around it, and out of the copier. */
  datatype State = State(
    script: seq<Action>, phase: Phase,
    headerSent: bool, isHTML: bool,
    pending: Option<string>, pipeClosed: bool,
    received: string, taken: nat, buffer: string, noEscape: int, copierDone: bool,
    out: string, piped: string, plain: string, copied: string)

  datatype Step =
    | Handle
    | PipeRead(n: nat)
    | TakeToken
    | Copy(n: nat)
    | CopierEnds
    | CloseWriter
    | CloseReturns

  /** The library functions and the token rewriting: the tokens complete after the given
      bytes, with or without the end of the input, and http.DetectContentType. */
  datatype Env = Env(tokenize: (string, bool) -> seq<Token>, detect: string -> string, alter: Modifier)

  /** More input, or its end, never takes back a token; no input is no token. */
  ghost predicate Incremental(env: Env) {
    && (forall b, c :: env.tokenize(b, false) <= env.tokenize(b + c, false))
    && (forall b :: env.tokenize(b, false) <= env.tokenize(b, true))
    && env.tokenize("", true) == []
  }

  function Init(script: seq<Action>): State {
    State(script, Handling, false, false, None, false, "", 0, "", 0, false, "", "", "", "")
  }

  // ---------------------------------------------------------------- steps

  predicate IsHtmlType(contentType: string) {
    HasPrefix(contentType, "text/html")
  }

  function AfterHeader(s: State, contentType: string): State {
    s.(headerSent := true, isHTML := s.isHTML || IsHtmlType(contentType))
  }

  function AfterAction(env: Env, s: State, action: Action): State {
    match action
    case WriteHeader(contentType) => AfterHeader(s, contentType)
    case Write(p) =>
      var s' := if s.headerSent then s else AfterHeader(s, env.detect(p));
      if s'.isHTML then s'.(pending := Some(p), piped := s.piped + p)
      else s'.(out := s.out + p, plain := s.plain + p)
  }

  /** Has the reader of the pipe seen the end of the input? */
  predicate Eof(s: State) {
    s.pipeClosed && s.pending.None?
  }

  function Tokens(env: Env, s: State): seq<Token> {
    env.tokenize(s.received, Eof(s))
  }

  predicate Enabled(env: Env, s: State, step: Step) {
    match step
    case Handle => s.phase.Handling? && s.script != [] && s.pending.None?
    case PipeRead(n) =>
      s.pending.Some? && s.buffer == "" && n <= |s.pending.value| && (n > 0 || s.pending.value == "")
    case TakeToken => s.buffer == "" && !s.copierDone && s.taken < |Tokens(env, s)|
    case Copy(n) => 0 < n <= |s.buffer|
    case CopierEnds => s.buffer == "" && !s.copierDone && Eof(s) && s.taken >= |Tokens(env, s)|
    case CloseWriter => s.phase.Handling? && s.script == [] && s.pending.None?
    case CloseReturns => s.phase.Waiting? && s.copierDone
  }

  function Next(env: Env, s: State, step: Step): State
    requires Enabled(env, s, step)
  {
    match step
    case Handle => AfterAction(env, s, s.script[0]).(script := s.script[1..])
    case PipeRead(n) =>
      var p := s.pending.value;
      s.(received := s.received + p[..n], pending := if n == |p| then None else Some(p[n..]))
    case TakeToken =>
      var t := env.alter(Tokens(env, s)[s.taken]);
      var depth := NextDepth(s.noEscape, t);
      s.(taken := s.taken + 1, buffer := Printed(depth, t), noEscape := depth)
    case Copy(n) =>
      s.(buffer := s.buffer[n..], out := s.out + s.buffer[..n], copied := s.copied + s.buffer[..n])
    case CopierEnds => s.(copierDone := true)
    case CloseWriter => s.(pipeClosed := true, phase := Waiting)
    case CloseReturns => s.(phase := Closed)
  }

  // ---------------------------------------------------------------- invariants

  function Rest(s: State): string {
    if s.pending.None? then "" else s.pending.value
  }

  /** The copier's side: printed tokens are out or buffered, and input is read or pending. */
  ghost predicate Streaming(env: Env, s: State) {
    && s.piped == s.received + Rest(s)
    && s.taken <= |Tokens(env, s)|
    && s.copied + s.buffer == Render(Modified(env.alter, Tokens(env, s)[..s.taken]))
    && s.noEscape == Depth(Modified(env.alter, Tokens(env, s)[..s.taken]))
    && (s.copierDone ==> Eof(s) && s.buffer == "" && s.taken == |Tokens(env, s)|)
  }

  ghost predicate PhaseOk(s: State) {
    && (s.phase.Handling? <==> !s.pipeClosed)
    && (!s.phase.Handling? ==> s.script == [] && s.pending.None?)
    && (s.phase.Closed? ==> s.copierDone)
  }

  /** WriteHeader is called at most once, explicitly first or implicitly by a write. */
  predicate OneHeader(script: seq<Action>) {
    forall i :: 0 < i < |script| ==> script[i].Write?
  }

  function Body(script: seq<Action>): string {
    if script == [] then ""
    else (if script[0].Write? then script[0].p else "") + Body(script[1..])
  }

  /** The content type the single header goes out with. */
  function HeaderType(env: Env, script: seq<Action>): string {
    if script == [] then ""
    else match script[0]
      case WriteHeader(contentType) => contentType
      case Write(p) => env.detect(p)
  }

  /** The header decides once and for all whether the body is HTML. */
  ghost predicate Decided(env: Env, s: State, html: bool) {
    if s.headerSent then
      s.isHTML == html && forall i :: 0 <= i < |s.script| ==> s.script[i].Write?
    else
      !s.isHTML && html == IsHtmlType(HeaderType(env, s.script)) && OneHeader(s.script)
  }

  /** The body so far is in one sink, in order; `whole` is what the handler writes in all. */
  ghost predicate OneSink(s: State, whole: string) {
    && (if s.isHTML then s.plain == "" else s.piped == "")
    && (!s.headerSent ==> s.plain == "")
    && s.out == s.plain + s.copied
    && s.plain + s.piped + Body(s.script) == whole
  }

  lemma StreamingNext(env: Env, s: State, step: Step)
    requires Incremental(env) && PhaseOk(s) && Streaming(env, s) && Enabled(env, s, step)
    ensures Streaming(env, Next(env, s, step))
  {
    var s' := Next(env, s, step);
    match step {
      case Handle => StreamingHandle(env, s);
      case PipeRead(n) => StreamingPipeRead(env, s, n);
      case TakeToken => StreamingTakeToken(env, s);
      case Copy(n) => StreamingCopy(env, s, n);
      case CopierEnds =>
      case CloseWriter => StreamingCloseWriter(env, s);
      case CloseReturns =>
    }
  }

  lemma PrefixTokens(a: seq<Token>, b: seq<Token>, k: nat)
    requires a <= b && k <= |a|
    ensures a[..k] == b[..k]
  {
  }

  lemma StreamingHandle(env: Env, s: State)
    requires Incremental(env) && PhaseOk(s) && Streaming(env, s) && Enabled(env, s, Handle)
    ensures Streaming(env, Next(env, s, Handle))
  {
    var s' := Next(env, s, Handle);
    assert s.received + "" == s.received;
    assert Tokens(env, s') == Tokens(env, s);
  }

  lemma StreamingTakeToken(env: Env, s: State)
    requires Streaming(env, s) && Enabled(env, s, TakeToken)
    ensures Streaming(env, Next(env, s, TakeToken))
  {
    var tokens := Tokens(env, s);
    ModifiedNext(env.alter, tokens, s.taken);
    RenderNext(Modified(env.alter, tokens[..s.taken]), env.alter(tokens[s.taken]));
    assert s.copied + s.buffer == s.copied;
    assert Tokens(env, Next(env, s, TakeToken)) == tokens;
  }

  lemma StreamingCopy(env: Env, s: State, n: nat)
    requires Streaming(env, s) && Enabled(env, s, Copy(n))
    ensures Streaming(env, Next(env, s, Copy(n)))
  {
    assert s.buffer == s.buffer[..n] + s.buffer[n..];
    assert s.copied + s.buffer == s.copied + s.buffer[..n] + s.buffer[n..];
    assert Tokens(env, Next(env, s, Copy(n))) == Tokens(env, s);
  }

  lemma StreamingCloseWriter(env: Env, s: State)
    requires Incremental(env) && PhaseOk(s) && Streaming(env, s) && Enabled(env, s, CloseWriter)
    ensures Streaming(env, Next(env, s, CloseWriter))
  {
    PrefixTokens(env.tokenize(s.received, false), env.tokenize(s.received, true), s.taken);
  }

  lemma StreamingPipeRead(env: Env, s: State, n: nat)
    requires Incremental(env) && PhaseOk(s) && Streaming(env, s) && Enabled(env, s, PipeRead(n))
    ensures Streaming(env, Next(env, s, PipeRead(n)))
  {
    var s', p := Next(env, s, PipeRead(n)), s.pending.value;
    assert p == p[..n] + p[n..];
    assert s.received + p == s.received + p[..n] + p[n..];
    assert !s.pipeClosed;
    PrefixTokens(env.tokenize(s.received, false), env.tokenize(s.received + p[..n], false), s.taken);
    if n == |p| {
      assert s.received + p[..n] + "" == s.received + p;
    }
  }

  lemma PhaseNext(env: Env, s: State, step: Step)
    requires PhaseOk(s) && Streaming(env, s) && Enabled(env, s, step)
    ensures PhaseOk(Next(env, s, step))
  {
  }

  lemma DecidedNext(env: Env, s: State, step: Step, html: bool)
    requires Decided(env, s, html) && Enabled(env, s, step)
    ensures Decided(env, Next(env, s, step), html)
  {
    if step.Handle? {
      var rest := s.script[1..];
      assert forall i :: 0 <= i < |rest| ==> rest[i] == s.script[i + 1];
    }
  }

  lemma OneSinkWrite(env: Env, s: State, p: string, whole: string, html: bool)
    requires OneSink(s, whole) && Decided(env, s, html) && s.phase.Handling? && s.pending.None?
    requires s.script != [] && s.script[0] == Write(p)
    requires s.piped == "" ==> s.copied == ""
    ensures OneSink(Next(env, s, Handle), whole)
  {
    var s', rest := Next(env, s, Handle), Body(s.script[1..]);
    assert Body(s.script) == p + rest;
    assert s'.plain + s'.piped == s.plain + s.piped + p;
    assert s.plain + s.piped + (p + rest) == s.plain + s.piped + p + rest;
    if !s'.isHTML {
      assert s'.out == s'.plain + "";
    }
  }

  lemma OneSinkHandle(env: Env, s: State, whole: string, html: bool)
    requires OneSink(s, whole) && Streaming(env, s) && Incremental(env) && PhaseOk(s)
    requires Decided(env, s, html) && Enabled(env, s, Handle)
    ensures OneSink(Next(env, s, Handle), whole)
  {
    NothingPipedNothingCopied(env, s);
    match s.script[0] {
      case Write(p) => OneSinkWrite(env, s, p, whole, html);
      case WriteHeader(_) => assert "" + Body(s.script[1..]) == Body(s.script[1..]);
    }
  }

  lemma NothingPipedNothingCopied(env: Env, s: State)
    requires Incremental(env) && Streaming(env, s)
    ensures s.piped == "" ==> s.copied == "" && s.buffer == ""
  {
    if s.piped == "" {
      assert s.received == "";
      assert env.tokenize("", false) <= env.tokenize("", true);
      assert Tokens(env, s)[..s.taken] == [];
    }
  }

  lemma OneSinkCopy(env: Env, s: State, n: nat, whole: string)
    requires OneSink(s, whole) && Enabled(env, s, Copy(n))
    ensures OneSink(Next(env, s, Copy(n)), whole)
  {
    assert s.plain + s.copied + s.buffer[..n] == s.plain + (s.copied + s.buffer[..n]);
  }

  lemma OnlyHandleAndCopySend(env: Env, s: State, step: Step)
    requires Enabled(env, s, step) && !step.Handle? && !step.Copy?
    ensures var s' := Next(env, s, step);
            && s'.out == s.out && s'.plain == s.plain && s'.piped == s.piped && s'.copied == s.copied
            && s'.script == s.script && s'.isHTML == s.isHTML && s'.headerSent == s.headerSent
  {
  }

  lemma OneSinkNext(env: Env, s: State, step: Step, whole: string, html: bool)
    requires OneSink(s, whole) && Streaming(env, s) && Incremental(env) && PhaseOk(s)
    requires Decided(env, s, html) && Enabled(env, s, step)
    ensures OneSink(Next(env, s, step), whole)
  {
    match step {
      case Handle => OneSinkHandle(env, s, whole, html);
      case Copy(n) => OneSinkCopy(env, s, n, whole);
      case _ => OnlyHandleAndCopySend(env, s, step);
    }
  }

  // ---------------------------------------------------------------- whole runs

  /** s' is reached from s by enabled steps. */
  ghost predicate Reaches(env: Env, s: State, steps: seq<Step>, s': State)
    decreases |steps|
  {
    if steps == [] then s == s'
    else Enabled(env, s, steps[0]) && Reaches(env, Next(env, s, steps[0]), steps[1..], s')
  }

  ghost predicate Good(env: Env, s: State, whole: string, html: bool) {
    PhaseOk(s) && Streaming(env, s) && OneSink(s, whole) && Decided(env, s, html)
  }

  lemma NextGood(env: Env, s: State, step: Step, whole: string, html: bool)
    requires Incremental(env) && Good(env, s, whole, html) && Enabled(env, s, step)
    ensures Good(env, Next(env, s, step), whole, html)
  {
    PhaseNext(env, s, step);
    StreamingNext(env, s, step);
    OneSinkNext(env, s, step, whole, html);
    DecidedNext(env, s, step, html);
  }

  lemma {:induction false} ReachesKeeps(env: Env, s: State, steps: seq<Step>, s': State,
                                        whole: string, html: bool)
    requires Incremental(env) && Good(env, s, whole, html) && Reaches(env, s, steps, s')
    ensures Good(env, s', whole, html)
    decreases |steps|
  {
    if steps != [] {
      NextGood(env, s, steps[0], whole, html);
      ReachesKeeps(env, Next(env, s, steps[0]), steps[1..], s', whole, html);
    }
  }

  lemma InitHolds(env: Env, script: seq<Action>)
    requires Incremental(env) && OneHeader(script)
    ensures Good(env, Init(script), Body(script), IsHtmlType(HeaderType(env, script)))
  {
    var s := Init(script);
    assert Tokens(env, s)[..0] == [];
    assert "" + "" + Body(script) == Body(script);
  }

  /** What the underlying writer holds in the end. */
  function Sent(env: Env, isHTML: bool, body: string): string {
    if isHTML then Render(Modified(env.alter, env.tokenize(body, true))) else body
  }

  lemma ClosedIsComplete(env: Env, s: State, whole: string)
    requires Incremental(env) && PhaseOk(s) && Streaming(env, s) && OneSink(s, whole)
    requires s.phase.Closed?
    ensures s.out == Sent(env, s.isHTML, whole)
  {
    NothingPipedNothingCopied(env, s);
    assert s.piped == s.received;
    assert s.plain + s.piped == whole;
    if s.isHTML {
      assert s.piped == whole;
      assert Tokens(env, s)[..s.taken] == Tokens(env, s) == env.tokenize(whole, true);
      assert s.copied + s.buffer == s.copied;
      assert s.plain + s.copied == s.copied;
    } else {
      assert s.plain + s.copied == s.plain == whole;
    }
  }

  /** Without any header or write nothing is sent, and nothing is HTML. */
  lemma ClosedDecided(env: Env, s: State, html: bool, whole: string)
    requires Good(env, s, whole, html) && s.phase.Closed?
    ensures s.isHTML == html
  {
    assert !IsHtmlType("");
  }

  /** Drain on close: when Close has returned, the underlying writer holds the whole body as
      the handler wrote it, or, for HTML, the complete rendering of the whole body. */
  lemma CloseDrains(env: Env, script: seq<Action>, steps: seq<Step>, s: State)
    requires Incremental(env) && OneHeader(script)
    requires Reaches(env, Init(script), steps, s) && s.phase.Closed?
    ensures s.out == Sent(env, IsHtmlType(HeaderType(env, script)), Body(script))
  {
    var html := IsHtmlType(HeaderType(env, script));
    InitHolds(env, script);
    ReachesKeeps(env, Init(script), steps, s, Body(script), html);
    ClosedIsComplete(env, s, Body(script));
    ClosedDecided(env, s, html, Body(script));
  }

  // ---------------------------------------------------------------- progress

  /** No deadlock: as long as Close has not returned, somebody can move. */
  lemma SomeStepEnabled(env: Env, s: State) returns (step: Step)
    requires PhaseOk(s) && Streaming(env, s) && !s.phase.Closed?
    ensures Enabled(env, s, step)
  {
    if s.buffer != "" {
      step := Copy(1);
    } else if s.pending.Some? {
      step := PipeRead(|s.pending.value|);
    } else if s.phase.Handling? {
      step := if s.script != [] then Handle else CloseWriter;
    } else if s.copierDone {
      step := CloseReturns;
    } else if s.taken < |Tokens(env, s)| {
      step := TakeToken;
    } else {
      step := CopierEnds;
    }
  }

  /** A rank in the lexicographic order of six counters. */
  datatype Rank = Rank(actions: nat, phases: nat, unread: nat, tokens: nat, bytes: nat, copier: nat)

  predicate Lower(a: Rank, b: Rank) {
    || a.actions < b.actions
    || (a.actions == b.actions
        && (|| a.phases < b.phases
            || (a.phases == b.phases
                && (|| a.unread < b.unread
                    || (a.unread == b.unread
                        && (|| a.tokens < b.tokens
                            || (a.tokens == b.tokens
                                && (|| a.bytes < b.bytes
                                    || (a.bytes == b.bytes && a.copier < b.copier)))))))))
  }

  function RankOf(env: Env, s: State): Rank {
    Rank(|s.script|,
         match s.phase case Handling => 2 case Waiting => 1 case Closed => 0,
         if s.pending.None? then 0 else |s.pending.value| + 1,
         if s.taken < |Tokens(env, s)| then |Tokens(env, s)| - s.taken else 0,
         |s.buffer|,
         if s.copierDone then 0 else 1)
  }

  /** Every step lowers the rank. */
  lemma EveryStepDescends(env: Env, s: State, step: Step)
    requires Enabled(env, s, step)
    ensures Lower(RankOf(env, Next(env, s, step)), RankOf(env, s))
  {
  }

  /** A schedule is obeyed at time j if its step is possible there and leads to the next state. */
  predicate Obeyed(env: Env, run: nat -> State, schedule: nat -> Step, j: nat) {
    Enabled(env, run(j), schedule(j)) && run(j + 1) == Next(env, run(j), schedule(j))
  }

  /** No run is infinite: whoever is scheduled, from any time on there comes one at which no
      step is made any more. */
  lemma {:induction false} EveryRunStops(env: Env, run: nat -> State, schedule: nat -> Step, i: nat)
      returns (j: nat)
    ensures i <= j && !Obeyed(env, run, schedule, j)
    decreases RankOf(env, run(i)).actions, RankOf(env, run(i)).phases, RankOf(env, run(i)).unread,
              RankOf(env, run(i)).tokens, RankOf(env, run(i)).bytes, RankOf(env, run(i)).copier
  {
    if Obeyed(env, run, schedule, i) {
      EveryStepDescends(env, run(i), schedule(i));
      j := EveryRunStops(env, run, schedule, i + 1);
    } else {
      j := i;
    }
  }

  /** And no run is stuck short of the end: from every state on the way some steps lead to one
      in which Close has returned. */
  lemma {:induction false} CloseCanBeReached(env: Env, s: State, whole: string, html: bool)
      returns (steps: seq<Step>, s': State)
    requires Incremental(env) && Good(env, s, whole, html)
    ensures Reaches(env, s, steps, s') && s'.phase.Closed?
    decreases RankOf(env, s).actions, RankOf(env, s).phases, RankOf(env, s).unread,
              RankOf(env, s).tokens, RankOf(env, s).bytes, RankOf(env, s).copier
  {
    if s.phase.Closed? {
      steps, s' := [], s;
    } else {
      var step := SomeStepEnabled(env, s);
      EveryStepDescends(env, s, step);
      NextGood(env, s, step, whole, html);
      var rest;
      rest, s' := CloseCanBeReached(env, Next(env, s, step), whole, html);
      steps := [step] + rest;
      assert steps[1..] == rest;
    }
  }

  /** Every run from the start that cannot go on has delivered everything. */
  lemma StuckMeansDelivered(env: Env, script: seq<Action>, steps: seq<Step>, s: State)
    requires Incremental(env) && OneHeader(script) && Reaches(env, Init(script), steps, s)
    requires forall step :: !Enabled(env, s, step)
    ensures s.phase.Closed? && s.out == Sent(env, IsHtmlType(HeaderType(env, script)), Body(script))
  {
    InitHolds(env, script);
    ReachesKeeps(env, Init(script), steps, s, Body(script), IsHtmlType(HeaderType(env, script)));
    if !s.phase.Closed? {
      var step := SomeStepEnabled(env, s);
      assert false;
    }
    CloseDrains(env, script, steps, s);
  }

  /** The bytes written, write by write. */
  lemma BodyOfWrites(action: Action, rest: seq<Action>)
    ensures Body([]) == ""
    ensures Body([action] + rest) == (match action case WriteHeader(_) => "" case Write(p) => p) + Body(rest)
  {
    assert ([action] + rest)[1..] == rest;
  }

  /** Drain on close, by the first thing the handler does: a header whose content type starts
      with "text/html" has the body re-printed, and so has a first write that is detected as
      such; any other body goes out as it is. */
  lemma CloseDrainsByType(env: Env, script: seq<Action>, steps: seq<Step>, s: State)
    requires Incremental(env) && OneHeader(script)
    requires Reaches(env, Init(script), steps, s) && s.phase.Closed?
    ensures var printed := Render(Modified(env.alter, env.tokenize(Body(script), true)));
            if script == [] then s.out == ""
            else match script[0]
              case WriteHeader(contentType) =>
                s.out == if "text/html" <= contentType then printed else Body(script)
              case Write(p) =>
                s.out == if "text/html" <= env.detect(p) then printed else Body(script)
  {
    CloseDrains(env, script, steps, s);
    assert !("text/html" <= "");
  }
}
