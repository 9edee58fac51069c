/** Load balancing: the 32-bit rotation counter that every request to an entry advances. */
module RoundRobin {
  import opened GoStrings
  import opened MachineWords
  import opened RouterModel

  /** Of the n requests after the counter stood at `next`, how many went to handler `slot`
      out of k. */
  function Tally(next: uint32, k: nat, n: nat, slot: nat): nat
    requires 0 < k < WORD
  {
    if n == 0 then 0
    else Tally(next, k, n - 1, slot) + if ((next + n) % WORD) % k == slot then 1 else 0
  }

  /** How often the counter wraps during those requests. */
  function Wraps(next: uint32, n: nat): nat {
    (next + n) / WORD
  }

  /** Lead of slot a over slot b when 0, 1, ..., m - 1 are dealt round k slots. */
  function Lead(k: nat, a: nat, b: nat, m: nat): int
    requires a < b < k
  {
    if a < m % k <= b then 1 else 0
  }

  lemma NextResidue(m: nat, k: nat)
    requires k > 0
    ensures (m + 1) % k == if m % k + 1 == k then 0 else m % k + 1
  {
    var q := m / k;
    assert m == q * k + m % k;
    if m % k + 1 == k {
      assert m + 1 == (q + 1) * k;
      ResidueOf(m + 1, q + 1, 0, k);
    } else {
      ResidueOf(m + 1, q, m % k + 1, k);
    }
  }

  lemma NonzeroMultiple(x: int, k: int)
    requires x != 0 && k > 0
    ensures x * k >= k || x * k <= -k
  {
    if x > 0 {
      assert (x - 1) * k >= 0;
    } else {
      assert (-x - 1) * k >= 0;
    }
  }

  lemma ResidueOf(m: nat, q: nat, rest: nat, k: nat)
    requires k > 0 && m == q * k + rest && rest < k
    ensures m / k == q && m % k == rest
  {
    var x := m / k - q;
    assert x * k == rest - m % k;
    if x != 0 {
      NonzeroMultiple(x, k);
      assert false;
    }
  }

  lemma DealOne(k: nat, a: nat, b: nat, m: nat)
    requires a < b < k
    ensures Lead(k, a, b, m + 1)
            == Lead(k, a, b, m) + (if m % k == a then 1 else 0) - (if m % k == b then 1 else 0)
  {
    NextResidue(m, k);
  }

  /** The lead of a over b since counter value 0, as a closed form in the number of wraps. */
  ghost function TotalLead(k: nat, a: nat, b: nat, m: nat): int
    requires a < b < k
  {
    (if Lead(k, a, b, WORD) == 1 then m / WORD else 0) + Lead(k, a, b, m % WORD + 1)
  }

  lemma NextQuotient(m: nat)
    ensures if m % WORD + 1 == WORD then (m + 1) % WORD == 0 && (m + 1) / WORD == m / WORD + 1
            else (m + 1) % WORD == m % WORD + 1 && (m + 1) / WORD == m / WORD
  {
  }

  lemma TotalLeadStep(k: nat, a: nat, b: nat, m: nat)
    requires a < b < k
    ensures var x := (m + 1) % WORD;
            TotalLead(k, a, b, m + 1)
            == TotalLead(k, a, b, m) + (if x % k == a then 1 else 0) - (if x % k == b then 1 else 0)
  {
    NextQuotient(m);
    DealOne(k, a, b, (m + 1) % WORD);
    if m % WORD + 1 == WORD {
      assert Lead(k, a, b, 0) == 0;
    }
  }

  lemma {:induction false} TallyLead(next: uint32, k: nat, n: nat, a: nat, b: nat)
    requires a < b < k < WORD
    ensures Tally(next, k, n, a) - Tally(next, k, n, b)
            == TotalLead(k, a, b, next + n) - TotalLead(k, a, b, next)
  {
    if n > 0 {
      TallyLead(next, k, n - 1, a, b);
      TotalLeadStep(k, a, b, next + n - 1);
    }
  }

  /** Over any run of n requests, two handlers differ by at most one turn, plus one for
      each wrap of the counter; wraps cost nothing when k divides 2^32. */
  lemma Fairness(next: uint32, k: nat, n: nat, a: nat, b: nat)
    requires a < k && b < k && k < WORD
    ensures Tally(next, k, n, a) - Tally(next, k, n, b) <= 1 + Wraps(next, n)
    ensures WORD % k == 0 ==> Tally(next, k, n, a) - Tally(next, k, n, b) <= 1
  {
    if a < b {
      TallyLead(next, k, n, a, b);
    } else if b < a {
      TallyLead(next, k, n, b, a);
    }
  }

  lemma ResidueBelow(k: nat)
    requires 0 < k < WORD && WORD % k > 0
    ensures (WORD - WORD % k) % k == 0
  {
    var q := WORD / k;
    assert WORD - WORD % k == q * k;
    ResidueOf(WORD - WORD % k, q, 0, k);
  }

  /** Around a wrap: with r handlers left over, the r + 1 requests from the counter value
      2^32 - r - 1 on give handler 0 two turns more than handler r. */
  lemma WrapRepeatsFirst(k: nat)
    requires 0 < k < WORD && WORD % k > 0
    ensures var r := WORD % k;
            Tally(WORD - r - 1, k, r + 1, 0) - Tally(WORD - r - 1, k, r + 1, r) == 2
  {
    var r := WORD % k;
    LeadBeforeWrap(k, r);
    LeadAfterWrap(k, r);
    TallyLead(WORD - r - 1, k, r + 1, 0, r);
  }

  lemma LeadBeforeWrap(k: nat, r: nat)
    requires 0 < r < k < WORD && r == WORD % k
    ensures TotalLead(k, 0, r, WORD - r - 1) == 0
  {
    var m := WORD - r - 1;
    ResidueBelow(k);
    assert m / WORD == 0 && m % WORD + 1 == WORD - r;
    assert Lead(k, 0, r, WORD - r) == 0;
  }

  lemma LeadAfterWrap(k: nat, r: nat)
    requires 0 < r < k < WORD && r == WORD % k
    ensures TotalLead(k, 0, r, WORD) == 2
  {
    ResidueOf(1, 0, 1, k);
    assert Lead(k, 0, r, WORD) == 1 && Lead(k, 0, r, 1) == 1;
    assert WORD / WORD == 1 && WORD % WORD + 1 == 1;
  }

  /** Every further turn of the whole counter costs handler r one turn more, so the bound of
      one plus the number of wraps is reached for every number of wraps. */
  lemma WrapsAreTight(k: nat, w: nat)
    requires 0 < k < WORD && WORD % k > 0 && w > 0
    ensures var r := WORD % k;
            var next, n := WORD - r - 1, r + 1 + (w - 1) * WORD;
            && Wraps(next, n) == w
            && Tally(next, k, n, 0) - Tally(next, k, n, r) == 1 + w
  {
    var r := WORD % k;
    LeadBeforeWrap(k, r);
    LeadAfterWraps(k, r, w);
    TallyLead(WORD - r - 1, k, r + 1 + (w - 1) * WORD, 0, r);
    assert WORD - r - 1 + (r + 1 + (w - 1) * WORD) == w * WORD;
  }

  lemma LeadAfterWraps(k: nat, r: nat, w: nat)
    requires 0 < r < k < WORD && r == WORD % k && w > 0
    ensures TotalLead(k, 0, r, w * WORD) == 1 + w && w * WORD / WORD == w
  {
    ResidueOf(1, 0, 1, k);
    ResidueOf(w * WORD, w, 0, WORD);
    assert Lead(k, 0, r, WORD) == 1 && Lead(k, 0, r, 1) == 1;
  }

  /** Turns differ by at most one over every run from every counter value. */
  ghost predicate AlwaysFair(k: nat)
    requires 0 < k < WORD
  {
    forall next: uint32, n: nat, a: nat, b: nat :: a < k && b < k ==>
      Tally(next, k, n, a) - Tally(next, k, n, b) <= 1
  }

  /** The wrap costs nothing if and only if the handler count divides 2^32. */
  lemma FairIffDivides(k: nat)
    requires 0 < k < WORD
    ensures AlwaysFair(k) <==> WORD % k == 0
  {
    if WORD % k == 0 {
      forall next: uint32, n: nat, a: nat, b: nat | a < k && b < k
        ensures Tally(next, k, n, a) - Tally(next, k, n, b) <= 1
      {
        Fairness(next, k, n, a, b);
      }
    } else {
      WrapRepeatsFirst(k);
      var r := WORD % k;
      assert Tally(WORD - r - 1, k, r + 1, 0) - Tally(WORD - r - 1, k, r + 1, r) == 2;
    }
  }

  /** With three handlers, for instance, the two requests around a wrap go to the same one. */
  lemma WrapRepeatsHandler()
    ensures Tally(WORD - 2, 3, 2, 0) == 2 && Tally(WORD - 2, 3, 2, 1) == 0
  {
    WrapRepeatsFirst(3);
    AtMostEveryTurn(WORD - 2, 3, 2, 0);
  }

  lemma {:induction false} AtMostEveryTurn(next: uint32, k: nat, n: nat, slot: nat)
    requires 0 < k < WORD
    ensures Tally(next, k, n, slot) <= n
  {
    if n > 0 {
      AtMostEveryTurn(next, k, n - 1, slot);
    }
  }

  // ---------------------------------------------------------------- inside a run

  predicate IsTurn(glob: Glob, r: Router, op: Op, b: nat)
    requires InBounds(r)
  {
    op.Serving? && Route(glob, r, op.path) == Some(b)
  }

  /** The requests of a run that entry b answers with handler `slot` (any handler if None). */
  ghost function Turns(glob: Glob, r: Router, ops: seq<Op>, b: nat, slot: Option<nat>): nat
    requires InBounds(r) && b < |r.heap|
    decreases |ops|
  {
    if ops == [] then 0
    else
      Turns(glob, Apply(glob, r, ops[0]), ops[1..], b, slot)
      + if IsTurn(glob, r, ops[0], b) && (slot.None? || Slot(r.heap[b]) == slot.value)
        then 1 else 0
  }

  /** Entry b keeps its handlers at every point of the run. */
  ghost predicate Steady(glob: Glob, r: Router, ops: seq<Op>, b: nat)
    requires InBounds(r) && b < |r.heap|
    decreases |ops|
  {
    ops == [] ||
    (Apply(glob, r, ops[0]).heap[b].handlers == r.heap[b].handlers
     && Steady(glob, Apply(glob, r, ops[0]), ops[1..], b))
  }

  lemma WrappedStep(next: uint32, n: nat)
    requires n > 0
    ensures (next + n) % WORD == ((next + 1) % WORD + (n - 1)) % WORD
  {
  }

  lemma {:induction false} TallyFromFirst(next: uint32, k: nat, n: nat, slot: nat)
    requires 0 < k < WORD && n > 0
    ensures Tally(next, k, n, slot)
            == (if ((next + 1) % WORD) % k == slot then 1 else 0)
               + Tally((next + 1) % WORD, k, n - 1, slot)
  {
    if n > 1 {
      TallyFromFirst(next, k, n - 1, slot);
      WrappedStep(next, n);
    }
  }

  /** Requests answered by others, and changes to others, leave an entry's counter alone. */
  lemma OneOperation(glob: Glob, r: Router, op: Op, b: nat)
    requires InBounds(r) && b < |r.heap|
    ensures Apply(glob, r, op).heap[b].next
            == if op.Serving? && Route(glob, r, op.path) == Some(b) then (r.heap[b].next + 1) % WORD
               else r.heap[b].next
  {
  }

  lemma TurnsUnfold(glob: Glob, r: Router, ops: seq<Op>, b: nat, slot: Option<nat>)
    requires InBounds(r) && b < |r.heap| && ops != []
    ensures Turns(glob, r, ops, b, slot)
            == Turns(glob, Apply(glob, r, ops[0]), ops[1..], b, slot)
               + if IsTurn(glob, r, ops[0], b) && (slot.None? || Slot(r.heap[b]) == slot.value)
                 then 1 else 0
  {
  }

  lemma SlotByCounter(e: Entry)
    requires 0 < |e.handlers| < WORD
    ensures Serves(e) && Slot(e) == ((e.next + 1) % WORD) % |e.handlers|
  {
  }

  lemma OneTurnTallied(glob: Glob, r: Router, op: Op, b: nat, k: nat, slot: nat, later: nat)
    requires InBounds(r) && b < |r.heap| && 0 < k < WORD && k == |r.heap[b].handlers|
    ensures var turn := IsTurn(glob, r, op, b);
            Tally(r.heap[b].next, k, if turn then later + 1 else later, slot)
            == Tally(Apply(glob, r, op).heap[b].next, k, later, slot)
               + if turn && Slot(r.heap[b]) == slot then 1 else 0
  {
    var e := r.heap[b];
    OneOperation(glob, r, op, b);
    if IsTurn(glob, r, op, b) {
      SlotByCounter(e);
      TallyFromFirst(e.next, k, later + 1, slot);
      assert Apply(glob, r, op).heap[b].next == (e.next + 1) % WORD;
    } else {
      assert Apply(glob, r, op).heap[b].next == e.next;
    }
  }

  /** Whatever else happens in between, an entry whose handlers stay put deals its requests
      by the rotation counter alone. */
  lemma {:induction false} TurnsAreTallied(glob: Glob, r: Router, ops: seq<Op>, b: nat,
                                           k: nat, slot: nat)
    requires InBounds(r) && b < |r.heap| && 0 < k < WORD && k == |r.heap[b].handlers|
    requires Steady(glob, r, ops, b)
    ensures Turns(glob, r, ops, b, Some(slot))
            == Tally(r.heap[b].next, k, Turns(glob, r, ops, b, None), slot)
    decreases |ops|
  {
    if ops != [] {
      var r' := Apply(glob, r, ops[0]);
      var later, mine := Turns(glob, r', ops[1..], b, None), Turns(glob, r', ops[1..], b, Some(slot));
      SteadyUnfold(glob, r, ops, b);
      TurnsAreTallied(glob, r', ops[1..], b, k, slot);
      assert mine == Tally(r'.heap[b].next, k, later, slot);
      TurnsUnfold(glob, r, ops, b, None);
      TurnsUnfold(glob, r, ops, b, Some(slot));
      OneTurnTallied(glob, r, ops[0], b, k, slot, later);
    }
  }

  lemma SteadyUnfold(glob: Glob, r: Router, ops: seq<Op>, b: nat)
    requires InBounds(r) && b < |r.heap| && ops != [] && Steady(glob, r, ops, b)
    ensures var r' := Apply(glob, r, ops[0]);
            b < |r'.heap| && r'.heap[b].handlers == r.heap[b].handlers && Steady(glob, r', ops[1..], b)
  {
  }

  /** Load balancing is fair in every run of requests and updates. */
  lemma RunIsFair(glob: Glob, r: Router, ops: seq<Op>, b: nat, i: nat, j: nat)
    requires InBounds(r) && b < |r.heap| && i < |r.heap[b].handlers| && j < |r.heap[b].handlers|
    requires |r.heap[b].handlers| < WORD
    requires Steady(glob, r, ops, b)
    ensures var ti, tj := Turns(glob, r, ops, b, Some(i)), Turns(glob, r, ops, b, Some(j));
            && ti - tj <= 1 + Wraps(r.heap[b].next, Turns(glob, r, ops, b, None))
            && (WORD % |r.heap[b].handlers| == 0 ==> ti - tj <= 1)
  {
    TurnsAreTallied(glob, r, ops, b, |r.heap[b].handlers|, i);
    TurnsAreTallied(glob, r, ops, b, |r.heap[b].handlers|, j);
    Fairness(r.heap[b].next, |r.heap[b].handlers|, Turns(glob, r, ops, b, None), i, j);
  }

  // ---------------------------------------------------------------- the handlers returned

  /** What the requests of a run that entry b answers are given, in order. */
  ghost function Replies(glob: Glob, r: Router, ops: seq<Op>, b: nat): seq<Option<Handler>>
    requires InBounds(r) && b < |r.heap|
    decreases |ops|
  {
    if ops == [] then []
    else
      (if IsTurn(glob, r, ops[0], b) then [Served(glob, r, ops[0].path)] else [])
      + Replies(glob, Apply(glob, r, ops[0]), ops[1..], b)
  }

  /** The handler at the wrapping counter plus n + 1, modulo the number of handlers. */
  function Dealt(handlers: seq<MuxHandler>, next: uint32, n: nat): Option<Handler>
    requires 0 < |handlers| < WORD
  {
    Some(handlers[((next + n + 1) % WORD) % |handlers|].handler)
  }

  lemma ReplyIsDealt(glob: Glob, r: Router, op: Op, b: nat)
    requires InBounds(r) && b < |r.heap| && IsTurn(glob, r, op, b) && 0 < |r.heap[b].handlers| < WORD
    ensures Served(glob, r, op.path) == Dealt(r.heap[b].handlers, r.heap[b].next, 0)
  {
    SlotByCounter(r.heap[b]);
  }

  lemma LaterDealt(handlers: seq<MuxHandler>, next: uint32, n: nat)
    requires 0 < |handlers| < WORD
    ensures Dealt(handlers, (next + 1) % WORD, n) == Dealt(handlers, next, n + 1)
  {
    WrappedStep(next, n + 2);
  }

  lemma RepliesUnfold(glob: Glob, r: Router, ops: seq<Op>, b: nat, n: nat)
    requires InBounds(r) && b < |r.heap| && ops != [] && n < |Replies(glob, r, ops, b)|
    ensures var rest := Replies(glob, Apply(glob, r, ops[0]), ops[1..], b);
            if !IsTurn(glob, r, ops[0], b) then n < |rest| && Replies(glob, r, ops, b)[n] == rest[n]
            else if n == 0 then Replies(glob, r, ops, b)[n] == Served(glob, r, ops[0].path)
            else n <= |rest| && Replies(glob, r, ops, b)[n] == rest[n - 1]
  {
    var rest := Replies(glob, Apply(glob, r, ops[0]), ops[1..], b);
    if IsTurn(glob, r, ops[0], b) {
      FrontOrLater(Served(glob, r, ops[0].path), rest, n);
    } else {
      assert [] + rest == rest;
    }
  }

  lemma FrontOrLater(front: Option<Handler>, rest: seq<Option<Handler>>, n: nat)
    requires n <= |rest|
    ensures ([front] + rest)[n] == if n == 0 then front else rest[n - 1]
  {
  }

  lemma {:induction false} ReplyDealt(glob: Glob, r: Router, ops: seq<Op>, b: nat, n: nat)
    requires InBounds(r) && b < |r.heap| && 0 < |r.heap[b].handlers| < WORD && Steady(glob, r, ops, b)
    requires n < |Replies(glob, r, ops, b)|
    ensures Replies(glob, r, ops, b)[n] == Dealt(r.heap[b].handlers, r.heap[b].next, n)
    decreases |ops|
  {
    var r', rest := Apply(glob, r, ops[0]), ops[1..];
    RepliesUnfold(glob, r, ops, b, n);
    OneOperation(glob, r, ops[0], b);
    if !IsTurn(glob, r, ops[0], b) {
      ReplyDealt(glob, r', rest, b, n);
    } else if n == 0 {
      ReplyIsDealt(glob, r, ops[0], b);
    } else {
      ReplyDealt(glob, r', rest, b, n - 1);
      LaterDealt(r.heap[b].handlers, r.heap[b].next, n - 1);
    }
  }

  /** Over any run, the n-th request that a steady entry answers, counted from 0, is given the
      handler at the wrapping counter plus n + 1, modulo the number of handlers. */
  lemma NthReply(glob: Glob, r: Router, ops: seq<Op>, b: nat, n: nat)
    requires InBounds(r) && b < |r.heap| && 0 < |r.heap[b].handlers| < WORD && Steady(glob, r, ops, b)
    requires n < |Replies(glob, r, ops, b)|
    ensures var e := r.heap[b];
            Replies(glob, r, ops, b)[n] == Some(e.handlers[((e.next + n + 1) % WORD) % |e.handlers|].handler)
  {
    ReplyDealt(glob, r, ops, b, n);
  }

  /** How often a handler was returned. */
  function Returned(replies: seq<Option<Handler>>, h: Handler): nat {
    multiset(replies)[Some(h)]
  }

  /** The handler at index i occurs nowhere else in the list. */
  predicate OnlyAt(handlers: seq<MuxHandler>, i: nat)
    requires i < |handlers|
  {
    forall j :: 0 <= j < |handlers| && handlers[j].handler == handlers[i].handler ==> j == i
  }

  lemma {:induction false} DealtTally(replies: seq<Option<Handler>>, handlers: seq<MuxHandler>, next: uint32, i: nat)
    requires 0 < |handlers| < WORD && i < |handlers| && OnlyAt(handlers, i)
    requires forall n :: 0 <= n < |replies| ==> replies[n] == Dealt(handlers, next, n)
    ensures Returned(replies, handlers[i].handler) == Tally(next, |handlers|, |replies|, i)
    decreases |replies|
  {
    if replies != [] {
      var last := |replies| - 1;
      DealtTally(replies[..last], handlers, next, i);
      assert replies == replies[..last] + [replies[last]];
      DealtIff(handlers, next, last, i);
    }
  }

  lemma DealtIff(handlers: seq<MuxHandler>, next: uint32, n: nat, i: nat)
    requires 0 < |handlers| < WORD && i < |handlers| && OnlyAt(handlers, i)
    ensures Dealt(handlers, next, n) == Some(handlers[i].handler) <==> ((next + n + 1) % WORD) % |handlers| == i
  {
  }

  lemma RepliesTally(glob: Glob, r: Router, ops: seq<Op>, b: nat, i: nat)
    requires InBounds(r) && b < |r.heap| && i < |r.heap[b].handlers| < WORD && OnlyAt(r.heap[b].handlers, i)
    requires Steady(glob, r, ops, b)
    ensures var replies, e := Replies(glob, r, ops, b), r.heap[b];
            Returned(replies, e.handlers[i].handler) == Tally(e.next, |e.handlers|, |replies|, i)
  {
    var replies, e := Replies(glob, r, ops, b), r.heap[b];
    forall n | 0 <= n < |replies| ensures replies[n] == Dealt(e.handlers, e.next, n) {
      ReplyDealt(glob, r, ops, b, n);
    }
    DealtTally(replies, e.handlers, e.next, i);
  }

  /** Load balancing is fair in what it returns: over any run, two handlers of a steady entry
      are returned equally often, up to one plus the number of counter wraps. */
  lemma RepliesAreFair(glob: Glob, r: Router, ops: seq<Op>, b: nat, i: nat, j: nat)
    requires InBounds(r) && b < |r.heap| && i < |r.heap[b].handlers| && j < |r.heap[b].handlers|
    requires |r.heap[b].handlers| < WORD && OnlyAt(r.heap[b].handlers, i) && OnlyAt(r.heap[b].handlers, j)
    requires Steady(glob, r, ops, b)
    ensures var replies, e := Replies(glob, r, ops, b), r.heap[b];
            var more: int, less: int := Returned(replies, e.handlers[i].handler), Returned(replies, e.handlers[j].handler);
            && more - less <= 1 + Wraps(e.next, |replies|)
            && (WORD % |e.handlers| == 0 ==> more - less <= 1)
  {
    RepliesTally(glob, r, ops, b, i);
    RepliesTally(glob, r, ops, b, j);
    Fairness(r.heap[b].next, |r.heap[b].handlers|, |Replies(glob, r, ops, b)|, i, j);
  }
}
