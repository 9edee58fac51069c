/** The streamer that re-prints HTML token by token, handing it out in pieces of any size. */
module HtmlStreamer {
  import opened GoStrings
  import opened HtmlTokens

  type Modifier = Token -> Token

  // ---------------------------------------------------------------- one-shot rendering

  predicate IsRawElement(t: Token) {
    !t.atom.OtherAtom?
  }

  /** Start tags minus end tags of textarea, title, script and style. */
  function Depth(tokens: seq<Token>): int {
    if tokens == [] then 0
    else
      var last := tokens[|tokens| - 1];
      Depth(tokens[..|tokens| - 1])
      + (if IsRawElement(last) && last.kind.StartTagToken? then 1 else 0)
      - (if IsRawElement(last) && last.kind.EndTagToken? then 1 else 0)
  }

  /** The text of the last token: character data is escaped iff the depth there is <= 0. */
  function LastRendered(tokens: seq<Token>): string
    requires tokens != []
  {
    var t := tokens[|tokens| - 1];
    TokenText(if t.kind.TextToken? && Depth(tokens) <= 0 then t.(data := EscapeString(t.data)) else t)
  }

  function Render(tokens: seq<Token>): string {
    if tokens == [] then "" else Render(tokens[..|tokens| - 1]) + LastRendered(tokens)
  }

  function Modified(alter: Modifier, tokens: seq<Token>): (r: seq<Token>)
    ensures |r| == |tokens| && forall i :: 0 <= i < |r| ==> r[i] == alter(tokens[i])
  {
    seq(|tokens|, i requires 0 <= i < |tokens| => alter(tokens[i]))
  }

  // ---------------------------------------------------------------- one read

  /** `rest` is what the tokenizer still has to deliver. */
  datatype Stream = Stream(rest: seq<Token>, buffer: string, noEscape: int)

  function NextDepth(noEscape: int, t: Token): int {
    if IsRawElement(t) && t.kind.StartTagToken? then noEscape + 1
    else if IsRawElement(t) && t.kind.EndTagToken? then noEscape - 1
    else noEscape
  }

  function Printed(noEscape: int, t: Token): string {
    TokenText(if t.kind.TextToken? && noEscape <= 0 then t.(data := EscapeString(t.data)) else t)
  }

  function Refill(alter: Modifier, s: Stream): Stream {
    if s.buffer != "" || s.rest == [] then s
    else
      var t := alter(s.rest[0]);
      var depth := NextDepth(s.noEscape, t);
      Stream(s.rest[1..], Printed(depth, t), depth)
  }

  predicate AtEnd(s: Stream) {
    s.buffer == "" && s.rest == []
  }

  function Min(a: nat, b: nat): nat {
    if a < b then a else b
  }

  /** What a read of the given size hands out. */
  function Chunk(alter: Modifier, s: Stream, size: nat): string {
    var buffer := Refill(alter, s).buffer;
    buffer[..Min(size, |buffer|)]
  }

  function AfterRead(alter: Modifier, s: Stream, size: nat): Stream {
    var s' := Refill(alter, s);
    s'.(buffer := s'.buffer[Min(size, |s'.buffer|)..])
  }

  /** io.Reader over the printed tokens. */
  class HTMLStreamer<E> {
    const alter: Modifier
    const failure: E
    var z: seq<Token>
    var buffer: string
    var noEscape: int

    ghost function View(): Stream
      reads this
    {
      Stream(z, buffer, noEscape)
    }

    /** `failure` is what the tokenizer reports after its last token, io.EOF or a read error. */
    constructor (alter: Modifier, tokens: seq<Token>, failure: E)
      ensures View() == Stream(tokens, "", 0) && this.alter == alter && this.failure == failure
    {
      this.alter, this.failure := alter, failure;
      z, buffer, noEscape := tokens, "", 0;
    }

    method Read(p: array<char>) returns (n: nat, err: Option<E>)
      modifies this, p
      ensures View() == AfterRead(alter, old(View()), p.Length)
      ensures n <= p.Length && p[..n] == Chunk(alter, old(View()), p.Length)
      ensures p[n..] == old(p[..])[n..]
      ensures err == if AtEnd(old(View())) then Some(failure) else None
    {
      if |buffer| == 0 {
        if |z| == 0 {
          return 0, Some(failure);
        }
        PrintNext();
      }
      n := Min(p.Length, |buffer|);
      forall i | 0 <= i < n {
        p[i] := buffer[i];
      }
      buffer := buffer[n..];
      err := None;
    }

    /** Takes the next token and prints it into the empty buffer. */
    method PrintNext()
      requires buffer == "" && z != []
      modifies this
      ensures View() == Refill(alter, old(View()))
    {
      var token := alter(z[0]);
      z := z[1..];
      match token.atom {
        case Textarea | Title | Script | Style =>
          if token.kind == StartTagToken {
            noEscape := noEscape + 1;
          }
          if token.kind == EndTagToken {
            noEscape := noEscape - 1;
          }
        case OtherAtom =>
      }
      if token.kind == TextToken && noEscape <= 0 {
        token := token.(data := EscapeString(token.data));
      }
      buffer := TokenToString(token);
    }
  }

  // ---------------------------------------------------------------- runs of reads

  function Delivered(alter: Modifier, s: Stream, sizes: seq<nat>): string
    decreases |sizes|
  {
    if sizes == [] then ""
    else Chunk(alter, s, sizes[0]) + Delivered(alter, AfterRead(alter, s, sizes[0]), sizes[1..])
  }

  function AfterReads(alter: Modifier, s: Stream, sizes: seq<nat>): Stream
    decreases |sizes|
  {
    if sizes == [] then s else AfterReads(alter, AfterRead(alter, s, sizes[0]), sizes[1..])
  }

  /** After k of the tokens: what has been handed out and what is buffered is their rendering. */
  ghost predicate Consistent(alter: Modifier, tokens: seq<Token>, s: Stream, out: string, k: nat) {
    && k <= |tokens| && s.rest == tokens[k..]
    && out + s.buffer == Render(Modified(alter, tokens[..k]))
    && s.noEscape == Depth(Modified(alter, tokens[..k]))
  }

  lemma ModifiedNext(alter: Modifier, tokens: seq<Token>, k: nat)
    requires k < |tokens|
    ensures Modified(alter, tokens[..k + 1]) == Modified(alter, tokens[..k]) + [alter(tokens[k])]
  {
  }

  lemma RenderNext(tokens: seq<Token>, t: Token)
    ensures Depth(tokens + [t]) == NextDepth(Depth(tokens), t)
    ensures Render(tokens + [t]) == Render(tokens) + Printed(NextDepth(Depth(tokens), t), t)
  {
    assert (tokens + [t])[..|tokens|] == tokens;
  }

  lemma RefillConsistent(alter: Modifier, tokens: seq<Token>, s: Stream, out: string, k: nat) returns (k': nat)
    requires Consistent(alter, tokens, s, out, k)
    ensures Consistent(alter, tokens, Refill(alter, s), out, k') && k <= k'
  {
    k' := k;
    if s.buffer == "" && s.rest != [] {
      k' := k + 1;
      ModifiedNext(alter, tokens, k);
      RenderNext(Modified(alter, tokens[..k]), alter(tokens[k]));
      assert s.rest[0] == tokens[k] && s.rest[1..] == tokens[k'..];
      assert out + s.buffer == out;
    }
  }

  lemma ReadConsistent(alter: Modifier, tokens: seq<Token>, s: Stream, out: string, k: nat, size: nat)
      returns (k': nat)
    requires Consistent(alter, tokens, s, out, k)
    ensures Consistent(alter, tokens, AfterRead(alter, s, size), out + Chunk(alter, s, size), k')
    ensures k <= k'
  {
    k' := RefillConsistent(alter, tokens, s, out, k);
    var buffer := Refill(alter, s).buffer;
    var n := Min(size, |buffer|);
    assert buffer == buffer[..n] + buffer[n..];
    assert out + buffer == out + buffer[..n] + buffer[n..];
  }

  lemma DeliveredFirst(alter: Modifier, s: Stream, sizes: seq<nat>, out: string)
    requires sizes != []
    ensures var next := AfterRead(alter, s, sizes[0]);
            && AfterReads(alter, s, sizes) == AfterReads(alter, next, sizes[1..])
            && out + Delivered(alter, s, sizes)
               == out + Chunk(alter, s, sizes[0]) + Delivered(alter, next, sizes[1..])
  {
  }

  lemma {:induction false} ReadsConsistent(alter: Modifier, tokens: seq<Token>, s: Stream, out: string,
                                           k: nat, sizes: seq<nat>) returns (k': nat)
    requires Consistent(alter, tokens, s, out, k)
    ensures Consistent(alter, tokens, AfterReads(alter, s, sizes), out + Delivered(alter, s, sizes), k')
    ensures k <= k'
    decreases |sizes|
  {
    if sizes == [] {
      k' := k;
      assert out + "" == out;
    } else {
      DeliveredFirst(alter, s, sizes, out);
      var j := ReadConsistent(alter, tokens, s, out, k, sizes[0]);
      k' := ReadsConsistent(alter, tokens, AfterRead(alter, s, sizes[0]),
                            out + Chunk(alter, s, sizes[0]), j, sizes[1..]);
    }
  }

  /** The stream before the first read. */
  function Fresh(tokens: seq<Token>): Stream {
    Stream(tokens, "", 0)
  }

  /** However the reads are sized, what came out plus what is buffered is the one-shot
      rendering of the tokens taken so far. */
  lemma ChunkIndependent(alter: Modifier, tokens: seq<Token>, sizes: seq<nat>)
    ensures var s := AfterReads(alter, Fresh(tokens), sizes);
            && |s.rest| <= |tokens|
            && Delivered(alter, Fresh(tokens), sizes) + s.buffer
               == Render(Modified(alter, tokens[..|tokens| - |s.rest|]))
  {
    assert tokens[..0] == [] && tokens[0..] == tokens;
    var k := ReadsConsistent(alter, tokens, Fresh(tokens), "", 0, sizes);
    assert "" + Delivered(alter, Fresh(tokens), sizes) == Delivered(alter, Fresh(tokens), sizes);
  }

  /** The end is reported only when the whole rendering is out. */
  lemma EndMeansComplete(alter: Modifier, tokens: seq<Token>, sizes: seq<nat>)
    requires AtEnd(AfterReads(alter, Fresh(tokens), sizes))
    ensures Delivered(alter, Fresh(tokens), sizes) == Render(Modified(alter, tokens))
  {
    ChunkIndependent(alter, tokens, sizes);
    var delivered := Delivered(alter, Fresh(tokens), sizes);
    assert tokens[..|tokens|] == tokens && delivered + "" == delivered;
  }

  // ---------------------------------------------------------------- progress

  ghost predicate NoEmptyTokens(alter: Modifier, tokens: seq<Token>) {
    forall k :: 1 <= k <= |tokens| ==> LastRendered(Modified(alter, tokens[..k])) != ""
  }

  lemma ReadProgresses(alter: Modifier, tokens: seq<Token>, s: Stream, out: string, k: nat, size: nat)
    requires Consistent(alter, tokens, s, out, k) && NoEmptyTokens(alter, tokens)
    requires size > 0 && !AtEnd(s)
    ensures Chunk(alter, s, size) != ""
  {
    if s.buffer == "" {
      ModifiedNext(alter, tokens, k);
      var taken := Modified(alter, tokens[..k]);
      RenderNext(taken, alter(tokens[k]));
      assert s.rest[0] == tokens[k];
      assert LastRendered(Modified(alter, tokens[..k + 1])) != "";
      assert (taken + [alter(tokens[k])])[..|taken|] == taken;
    }
  }

  lemma {:induction false} ReadsProgress(alter: Modifier, tokens: seq<Token>, s: Stream, out: string,
                                         k: nat, sizes: seq<nat>)
    requires Consistent(alter, tokens, s, out, k) && NoEmptyTokens(alter, tokens)
    requires forall i :: 0 <= i < |sizes| ==> sizes[i] > 0
    requires !AtEnd(AfterReads(alter, s, sizes))
    ensures |Delivered(alter, s, sizes)| >= |sizes|
    decreases |sizes|
  {
    if sizes != [] {
      if AtEnd(s) {
        EndStays(alter, s, sizes);
        assert false;
      }
      ReadProgresses(alter, tokens, s, out, k, sizes[0]);
      var j := ReadConsistent(alter, tokens, s, out, k, sizes[0]);
      ReadsProgress(alter, tokens, AfterRead(alter, s, sizes[0]), out + Chunk(alter, s, sizes[0]), j, sizes[1..]);
    }
  }

  lemma {:induction false} EndStays(alter: Modifier, s: Stream, sizes: seq<nat>)
    requires AtEnd(s)
    ensures AfterReads(alter, s, sizes) == s
    decreases |sizes|
  {
    if sizes != [] {
      EndStays(alter, s, sizes[1..]);
    }
  }

  lemma {:induction false} RenderGrows(tokens: seq<Token>, k: nat)
    requires k <= |tokens|
    ensures |Render(tokens[..k])| <= |Render(tokens)|
    decreases |tokens| - k
  {
    if k == |tokens| {
      assert tokens[..k] == tokens;
    } else {
      RenderGrows(tokens, k + 1);
      assert tokens[..k + 1][..k] == tokens[..k];
    }
  }

  /** Before the end, less than the whole rendering is out. */
  lemma UnfinishedIsShorter(alter: Modifier, tokens: seq<Token>, s: Stream, out: string, k: nat)
    requires Consistent(alter, tokens, s, out, k) && NoEmptyTokens(alter, tokens) && !AtEnd(s)
    ensures |out| < |Render(Modified(alter, tokens))|
  {
    var all := Modified(alter, tokens);
    assert all[..k] == Modified(alter, tokens[..k]);
    RenderGrows(all, k);
    if s.buffer == "" {
      assert all[..k + 1] == Modified(alter, tokens[..k + 1]);
      RenderGrows(all, k + 1);
      assert all[..k + 1][..k] == all[..k];
      assert LastRendered(all[..k + 1]) != "";
    }
  }

  /** With room for at least one byte per read, and no token that prints as nothing, as many
      reads as the rendering has bytes exhaust the stream: the next read reports the end. */
  lemma ReadsAreBounded(alter: Modifier, tokens: seq<Token>, sizes: seq<nat>)
    requires NoEmptyTokens(alter, tokens)
    requires forall i :: 0 <= i < |sizes| ==> sizes[i] > 0
    requires |sizes| >= |Render(Modified(alter, tokens))|
    ensures AtEnd(AfterReads(alter, Fresh(tokens), sizes))
  {
    var s, out := AfterReads(alter, Fresh(tokens), sizes), Delivered(alter, Fresh(tokens), sizes);
    if !AtEnd(s) {
      assert tokens[..0] == [] && tokens[0..] == tokens;
      ReadsProgress(alter, tokens, Fresh(tokens), "", 0, sizes);
      var k := ReadsConsistent(alter, tokens, Fresh(tokens), "", 0, sizes);
      assert "" + out == out;
      UnfinishedIsShorter(alter, tokens, s, out, k);
      assert false;
    }
  }

  /** A read stops short of the size asked for only at the end of a token, and takes a new
      token only when nothing of the last one is left. */
  lemma ReadIsGreedy(alter: Modifier, s: Stream, size: nat)
    ensures |Chunk(alter, s, size)| == size || AfterRead(alter, s, size).buffer == ""
    ensures |Chunk(alter, s, size)| <= size
    ensures AfterRead(alter, s, size).rest == if s.buffer == "" && s.rest != [] then s.rest[1..] else s.rest
  {
  }
}
