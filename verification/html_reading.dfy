/** Reading printed HTML back: the pieces a tokenizer after section 13.2.5 of the HTML Living
    Standard makes of a whole stream of texts, tags, comments and doctypes. */
module HtmlReading {
  import opened GoStrings
  import opened HtmlTokens
  import opened HtmlStreamer

  datatype Piece =
    | TagPiece(tag: Tag)
    | TextPiece(text: string)
    | CommentPiece(text: string)
    | DoctypePiece(text: string)

  // ---------------------------------------------------------------- reading

  /** The elements whose text is not markup. In the first two it may hold references. */
  predicate IsRcdata(name: string) {
    name == "textarea" || name == "title"
  }

  predicate IsRawtext(name: string) {
    || name == "script" || name == "style" || name == "iframe"
    || name == "noembed" || name == "noframes" || name == "xmp"
  }

  /** The name of the element whose text follows a tag, or none for ordinary text. */
  function Opened(tag: Tag): string {
    if !tag.isEnd && (IsRcdata(tag.name) || IsRawtext(tag.name)) then tag.name else ""
  }

  /** Does an end tag for the element start here, whatever its case? */
  predicate ClosesHere(s: string, name: string) {
    && |s| > |name| + 2 && s[0] == '<' && s[1] == '/'
    && (forall i :: 0 <= i < |name| ==> NameChar(s[i + 2]) == name[i])
    && (IsSpace(s[|name| + 2]) || s[|name| + 2] == '/' || s[|name| + 2] == '>')
  }

  /** How much of the input is text of the element. */
  function RawLength(s: string, name: string): (n: nat)
    ensures n <= |s|
  {
    if s == [] || ClosesHere(s, name) then 0 else 1 + RawLength(s[1..], name)
  }

  /** How much of the input is ordinary text. */
  function TextLength(s: string): (n: nat)
    ensures n <= |s|
  {
    if s == [] || s[0] == '<' then 0 else 1 + TextLength(s[1..])
  }

  /** Newlines are normalized before anything is read. */
  function Newlines(s: string): string {
    if s == [] then []
    else if s[0] == '\r' then
      if |s| >= 2 && s[1] == '\n' then Newlines(s[1..]) else ['\n'] + Newlines(s[1..])
    else [s[0]] + Newlines(s[1..])
  }

  function Unescape(s: string): string {
    if s == [] then []
    else if s[0] == '&' then
      var (c, n) := ReadReference(s);
      [c] + Unescape(s[n..])
    else [s[0]] + Unescape(s[1..])
  }

  /** The text of an element as it is read. */
  function Content(s: string, name: string): string {
    var clean := Clean(Newlines(s));
    if IsRcdata(name) then Unescape(clean) else clean
  }

  /** "-->" */
  predicate Arrow(s: string) {
    |s| >= 3 && s[0] == '-' && s[1] == '-' && s[2] == '>'
  }

  /** "--!>" */
  predicate BangArrow(s: string) {
    |s| >= 4 && s[0] == '-' && s[1] == '-' && s[2] == '!' && s[3] == '>'
  }

  predicate EndsComment(s: string) {
    Arrow(s) || BangArrow(s)
  }

  /** ">" or "->" at the start of a comment. */
  predicate AbruptEnd(s: string) {
    s != "" && (s[0] == '>' || (s[0] == '-' && |s| >= 2 && s[1] == '>'))
  }

  /** How much of the input is the data of a comment. */
  function CommentLength(s: string): (n: nat)
    ensures n <= |s| && (n < |s| ==> EndsComment(s[n..]))
  {
    if s == [] || EndsComment(s) then 0 else 1 + CommentLength(s[1..])
  }

  /** Comment start state, behind "<!--", and the states it leads to: the data, and the input
      behind the comment. A comment that opens with its end is empty. */
  function ReadComment(s: string): (r: Option<(string, string)>)
    ensures r.Some? ==> |r.value.1| < |s|
  {
    if AbruptEnd(s) then Some(("", s[if s[0] == '>' then 1 else 2..]))
    else
      var n := CommentLength(s);
      if n == |s| then None
      else Some((Clean(Newlines(s[..n])), s[n + (if Arrow(s[n..]) then 3 else 4)..]))
  }

  function DoctypeLength(s: string): (n: nat)
    ensures n <= |s|
  {
    if s == [] || s[0] == '>' then 0 else 1 + DoctypeLength(s[1..])
  }

  function SkipSpace(s: string): (r: string)
    ensures |r| <= |s|
  {
    if s != [] && (IsSpace(s[0]) || s[0] == '\r') then SkipSpace(s[1..]) else s
  }

  /** DOCTYPE state, behind the keyword: the name and identifiers as they are written. In each
      of the states it leads to, '>' ends the token. */
  function ReadDoctype(s: string): (r: Option<(string, string)>)
    ensures r.Some? ==> |r.value.1| < |s|
  {
    var body := SkipSpace(s);
    var n := DoctypeLength(body);
    if n == |body| then None else Some((Clean(Newlines(body[..n])), body[n + 1..]))
  }

  predicate OpensDoctype(s: string) {
    && |s| >= 9 && s[0] == '<' && s[1] == '!'
    && forall i :: 0 <= i < 7 ==> NameChar(s[i + 2]) == "doctype"[i]
  }

  function Cons(piece: Piece, rest: Option<seq<Piece>>): Option<seq<Piece>> {
    match rest
    case None => None
    case Some(pieces) => Some([piece] + pieces)
  }

  /** All pieces of the input; `name` is the element whose text comes first, if any. Other
      markup is not read. */
  function ReadAll(s: string, name: string): Option<seq<Piece>>
    decreases |s|, |name|
  {
    if name != "" then
      var n := RawLength(s, name);
      if n == 0 then ReadAll(s, "")
      else Cons(TextPiece(Content(s[..n], name)), ReadAll(s[n..], ""))
    else if s == [] then Some([])
    else if "<!--" <= s then
      match ReadComment(s[4..])
      case None => None
      case Some(r) => Cons(CommentPiece(r.0), ReadAll(r.1, ""))
    else if OpensDoctype(s) then
      match ReadDoctype(s[9..])
      case None => None
      case Some(r) => Cons(DoctypePiece(r.0), ReadAll(r.1, ""))
    else if s[0] == '<' then
      match ReadTag(s)
      case None => None
      case Some(r) => Cons(TagPiece(r.0), ReadAll(r.1, Opened(r.0)))
    else
      var n := TextLength(s);
      Cons(TextPiece(Unescape(s[..n])), ReadAll(s[n..], ""))
  }

  // ---------------------------------------------------------------- printing

  /** The rendering from a given depth on. */
  function RenderFrom(depth: int, tokens: seq<Token>): string
    decreases |tokens|
  {
    if tokens == [] then ""
    else
      var next := NextDepth(depth, tokens[0]);
      Printed(next, tokens[0]) + RenderFrom(next, tokens[1..])
  }

  function DepthFrom(depth: int, tokens: seq<Token>): int
    decreases |tokens|
  {
    if tokens == [] then depth else DepthFrom(NextDepth(depth, tokens[0]), tokens[1..])
  }

  lemma RenderCons(depth: int, t: Token, tokens: seq<Token>)
    ensures RenderFrom(depth, [t] + tokens)
            == Printed(NextDepth(depth, t), t) + RenderFrom(NextDepth(depth, t), tokens)
    ensures DepthFrom(depth, [t] + tokens) == DepthFrom(NextDepth(depth, t), tokens)
  {
    assert ([t] + tokens)[1..] == tokens;
  }

  lemma RegroupThree(a: string, b: string, c: string)
    ensures a + (b + c) == a + b + c
  {
  }

  lemma {:induction false} RenderFromAppend(depth: int, tokens: seq<Token>, t: Token)
    ensures DepthFrom(depth, tokens + [t]) == NextDepth(DepthFrom(depth, tokens), t)
    ensures RenderFrom(depth, tokens + [t])
            == RenderFrom(depth, tokens) + Printed(NextDepth(DepthFrom(depth, tokens), t), t)
    decreases |tokens|
  {
    if tokens == [] {
      assert tokens + [t] == [t] + [];
      RenderCons(depth, t, []);
    } else {
      var first, rest := tokens[0], tokens[1..];
      var next := NextDepth(depth, first);
      assert tokens == [first] + rest && tokens + [t] == [first] + (rest + [t]);
      RenderCons(depth, first, rest);
      RenderCons(depth, first, rest + [t]);
      RenderFromAppend(next, rest, t);
      RegroupThree(Printed(next, first), RenderFrom(next, rest), Printed(NextDepth(DepthFrom(next, rest), t), t));
    }
  }

  lemma RenderedNext(front: seq<Token>, last: Token)
    requires Render(front) == RenderFrom(0, front) && Depth(front) == DepthFrom(0, front)
    ensures Render(front + [last]) == RenderFrom(0, front + [last])
    ensures Depth(front + [last]) == DepthFrom(0, front + [last])
  {
    RenderFromAppend(0, front, last);
    RenderNext(front, last);
  }

  lemma {:induction false} RenderedFromStart(tokens: seq<Token>)
    ensures Render(tokens) == RenderFrom(0, tokens) && Depth(tokens) == DepthFrom(0, tokens)
    decreases |tokens|
  {
    if tokens != [] {
      var front, last := tokens[..|tokens| - 1], tokens[|tokens| - 1];
      assert tokens == front + [last];
      RenderedFromStart(front);
      RenderedNext(front, last);
    }
  }

  // ---------------------------------------------------------------- which streams

  function AtomOf(name: string): Atom {
    if name == "textarea" then Textarea
    else if name == "title" then Title
    else if name == "script" then Script
    else if name == "style" then Style
    else OtherAtom
  }

  function TagOf(t: Token): Tag {
    Tag(t.kind.EndTagToken?, Clean(t.data), Kept([], t.attrs), t.kind.SelfClosingTagToken?)
  }

  predicate TagOk(t: Token) {
    && (t.kind.StartTagToken? || t.kind.EndTagToken? || t.kind.SelfClosingTagToken?)
    && TagNameOk(t.data) && t.atom == AtomOf(t.data) && t.data != "plaintext"
    && forall i :: 0 <= i < |t.attrs| ==> KeyOk(t.attrs[i].key)
  }

  /** Tokens as a tokenizer delivers them: texts are not empty and not adjacent, and the text of
      an element is followed by its end tag. `name` is the element that is open, if its
      text is not markup, and `afterText` says that a text has just been. */
  predicate Shaped(tokens: seq<Token>, name: string, afterText: bool)
    decreases |tokens|
  {
    tokens == [] ||
    var t := tokens[0];
    if t.kind.TextToken? then !afterText && t.data != "" && Shaped(tokens[1..], name, true)
    else if t.kind.CommentToken? || t.kind.DoctypeToken? then name == "" && Shaped(tokens[1..], "", false)
    else
      && TagOk(t) && (name != "" ==> t.kind.EndTagToken? && t.data == name)
      && Shaped(tokens[1..], Opened(TagOf(t)), false)
  }

  function PieceOf(t: Token): Piece {
    if t.kind.TextToken? then TextPiece(t.data)
    else if t.kind.CommentToken? then CommentPiece(t.data)
    else if t.kind.DoctypeToken? then DoctypePiece(t.data)
    else TagPiece(TagOf(t))
  }

  function Pieces(tokens: seq<Token>): seq<Piece> {
    if tokens == [] then [] else [PieceOf(tokens[0])] + Pieces(tokens[1..])
  }

  // ---------------------------------------------------------------- which texts

  predicate NoEndTag(text: string, name: string) {
    forall i :: 0 <= i < |text| ==> !ClosesHere(text[i..], name)
  }

  predicate NoReference(text: string) {
    forall i :: 0 <= i < |text| && text[i] == '&' ==> ReadReference(text[i..]).1 == 1
  }

  predicate NothingToEscape(text: string) {
    forall i :: 0 <= i < |text| ==> text[i] !in "&<>\"'\r"
  }

  /** What the text of an element must be like to come back: where it is printed as it is, it
      may not hold an end tag of the element, a carriage return, or, if references count, a
      reference; where it is escaped although references do not count, nothing to escape. */
  predicate Survives(text: string, name: string, depth: int) {
    && '\0' !in text
    && if depth > 0 then
         '\r' !in text && NoEndTag(text, name) && (IsRcdata(name) ==> NoReference(text))
       else
         IsRcdata(name) || NothingToEscape(text)
  }

  /** A comment comes back unless it ends early: it may not begin like the end of an empty one,
      nor hold an end; and like any text it may not hold what is replaced on reading. */
  predicate CommentSurvives(data: string) {
    '\0' !in data && '\r' !in data && !AbruptEnd(data) && NoCommentEnd(data)
  }

  predicate NoCommentEnd(data: string) {
    forall i :: 0 <= i < |data| ==> !EndsComment(data[i..])
  }

  predicate DoctypeSurvives(data: string) {
    && '\0' !in data && '\r' !in data && '>' !in data
    && (data != "" ==> !IsSpace(data[0]))
  }

  predicate AllSurvive(depth: int, tokens: seq<Token>, name: string)
    decreases |tokens|
  {
    tokens == [] ||
    var t := tokens[0];
    if t.kind.TextToken? then
      (name != "" ==> Survives(t.data, name, depth)) && AllSurvive(depth, tokens[1..], "")
    else if t.kind.CommentToken? then CommentSurvives(t.data) && AllSurvive(depth, tokens[1..], "")
    else if t.kind.DoctypeToken? then DoctypeSurvives(t.data) && AllSurvive(depth, tokens[1..], "")
    else AllSurvive(NextDepth(depth, t), tokens[1..], Opened(TagOf(t)))
  }

  lemma {:induction false} RawLengthWhole(s: string, name: string)
    ensures RawLength(s, name) == |s| <==> NoEndTag(s, name)
  {
    if s != [] {
      RawLengthWhole(s[1..], name);
      assert s[0..] == s;
      if NoEndTag(s, name) {
        forall i | 0 <= i < |s[1..]| ensures !ClosesHere(s[1..][i..], name) {
          assert s[1..][i..] == s[i + 1..];
        }
      }
      if !ClosesHere(s, name) && NoEndTag(s[1..], name) {
        forall i | 0 <= i < |s| ensures !ClosesHere(s[i..], name) {
          if i > 0 {
            assert s[1..][i - 1..] == s[i..];
          }
        }
      }
    }
  }

  predicate LowerCase(name: string) {
    forall i :: 0 <= i < |name| ==> IsLower(name[i])
  }

  /** No end tag begins in one text and ends in the next. */
  lemma {:induction false} RawLengthConcat(x: string, rest: string, name: string)
    requires LowerCase(name) && (rest == "" || ClosesHere(rest, name))
    ensures RawLength(x + rest, name) == RawLength(x, name)
  {
    if x == "" {
      assert x + rest == rest;
    } else {
      RawLengthConcat(x[1..], rest, name);
      assert (x + rest)[1..] == x[1..] + rest;
      ClosesInFront(x, rest, name);
    }
  }

  lemma ClosesInFront(x: string, rest: string, name: string)
    requires LowerCase(name) && x != "" && (rest == "" || rest[0] == '<')
    ensures ClosesHere(x + rest, name) <==> ClosesHere(x, name)
  {
    if ClosesHere(x + rest, name) && |x| <= |name| + 2 {
      OneBracket(x + rest, name, |x|);
      assert false;
    }
  }

  lemma OneBracket(s: string, name: string, j: nat)
    requires LowerCase(name) && ClosesHere(s, name) && 1 <= j <= |name| + 2
    ensures j < |s| && s[j] != '<'
  {
    if 2 <= j < |name| + 2 {
      assert NameChar(s[(j - 2) + 2]) == name[j - 2];
    }
  }

  // ---------------------------------------------------------------- content

  lemma {:induction false} NewlinesShorter(s: string)
    ensures |Newlines(s)| <= |s| && '\r' !in Newlines(s)
    ensures '\r' !in s ==> Newlines(s) == s
  {
    if s != [] {
      NewlinesShorter(s[1..]);
      assert s == [s[0]] + s[1..];
    }
  }

  lemma {:induction false} UnescapeShorter(s: string)
    ensures |Unescape(s)| <= |s|
    ensures |Unescape(s)| == |s| <==> NoReference(s)
    ensures NoReference(s) ==> Unescape(s) == s
  {
    if s != [] {
      var n := if s[0] == '&' then ReadReference(s).1 else 1;
      UnescapeShorter(s[n..]);
      assert s == [s[0]] + s[1..] && s[0..] == s;
      if n == 1 {
        NoReferenceCons(s);
        ReadsItself(s);
      } else {
        assert !NoReference(s) by {
          assert s[0] == '&' && ReadReference(s[0..]).1 != 1;
        }
      }
    }
  }

  lemma ReadsItself(s: string)
    requires s != [] && (s[0] == '&' ==> ReadReference(s).1 == 1)
    ensures Unescape(s) == [s[0]] + Unescape(s[1..])
  {
  }

  lemma NoReferenceCons(s: string)
    requires s != [] && (s[0] == '&' ==> ReadReference(s).1 == 1)
    ensures NoReference(s) <==> NoReference(s[1..])
  {
    assert s[0..] == s;
    forall i | 0 <= i < |s[1..]| ensures s[1..][i..] == s[i + 1..] {
    }
    if NoReference(s[1..]) {
      forall i | 0 <= i < |s| && s[i] == '&' ensures ReadReference(s[i..]).1 == 1 {
        if i > 0 {
          assert s[1..][i - 1] == '&' && s[1..][i - 1..] == s[i..];
        }
      }
    }
    if NoReference(s) {
      forall i | 0 <= i < |s[1..]| && s[1..][i] == '&' ensures ReadReference(s[1..][i..]).1 == 1 {
        assert s[i + 1] == '&';
      }
    }
  }

  lemma CleanIff(s: string)
    ensures |Clean(s)| == |s| && (Clean(s) == s <==> '\0' !in s)
  {
    if Clean(s) == s {
      forall i | 0 <= i < |s| ensures s[i] != '\0' {
        assert Clean(s)[i] == CleanChar(s[i]);
      }
    }
  }

  /** Text printed as it is comes back whole exactly if nothing in it is read as something else. */
  lemma ContentIff(s: string, name: string)
    ensures |Content(s, name)| <= |s|
    ensures Content(s, name) == s <==> '\0' !in s && '\r' !in s && (IsRcdata(name) ==> NoReference(s))
  {
    var clean := Clean(Newlines(s));
    NewlinesShorter(s);
    CleanIff(Newlines(s));
    UnescapeShorter(clean);
    CleanBringsNo(Newlines(s));
    if Content(s, name) == s {
      assert |clean| == |s| && Content(s, name) == clean;
    }
  }

  lemma CleanBringsNo(s: string)
    requires '\r' !in s
    ensures '\r' !in Clean(s) && '\0' !in Clean(s)
  {
  }

  lemma {:induction false} UnescapeEscaped(s: string, rest: string)
    ensures Unescape(EscapeString(s) + rest) == s + Unescape(rest)
  {
    if s == "" {
      assert EscapeString(s) + rest == rest && s + Unescape(rest) == Unescape(rest);
    } else {
      var tail := EscapeString(s[1..]) + rest;
      UnescapeEscaped(s[1..], rest);
      RegroupThree(EscapeChar(s[0]), EscapeString(s[1..]), rest);
      UnescapeEscapedChar(s[0], tail);
      RegroupThree([s[0]], s[1..], Unescape(rest));
      assert s == [s[0]] + s[1..];
    }
  }

  lemma UnescapeEscapedChar(c: char, tail: string)
    ensures Unescape(EscapeChar(c) + tail) == [c] + Unescape(tail)
  {
    EscapedCharReadsBack(c, tail);
    UnescapeOne(EscapeChar(c) + tail, c, |EscapeChar(c)|);
  }

  lemma UnescapeOne(text: string, c: char, n: nat)
    requires text != "" && 1 <= n <= |text|
    requires if text[0] == '&' then ReadReference(text) == (c, n) else text[0] == c && n == 1
    ensures Unescape(text) == [c] + Unescape(text[n..])
  {
  }

  lemma {:induction false} CleanEscaped(s: string)
    ensures Clean(EscapeString(s)) == EscapeString(Clean(s))
  {
    if s != "" {
      CleanEscaped(s[1..]);
      CleanFirst(s);
      CleanConcat(EscapeChar(s[0]), EscapeString(s[1..]));
      assert Clean(EscapeChar(s[0])) == EscapeChar(CleanChar(s[0]));
      assert Clean(s)[1..] == Clean(s[1..]);
    }
  }

  lemma CleanConcat(a: string, b: string)
    ensures Clean(a + b) == Clean(a) + Clean(b)
  {
  }

  lemma {:induction false} EscapedLonger(s: string)
    ensures |EscapeString(s)| >= |s|
    ensures |EscapeString(s)| == |s| <==> NothingToEscape(s)
    ensures NothingToEscape(s) ==> EscapeString(s) == s
  {
    if s != "" {
      EscapedLonger(s[1..]);
      assert s == [s[0]] + s[1..];
      assert NothingToEscape(s) <==> s[0] !in "&<>\"'\r" && NothingToEscape(s[1..]);
      assert |EscapeChar(s[0])| == 1 <==> s[0] !in "&<>\"'\r";
    }
  }

  /** Escaped text comes back where references count, and elsewhere if it needed no escaping. */
  lemma EscapedContentIff(s: string, name: string)
    ensures Content(EscapeString(s), name) == s
            <==> '\0' !in s && (IsRcdata(name) || NothingToEscape(s))
  {
    EscapedHasNoMarkup(s);
    NewlinesShorter(EscapeString(s));
    CleanEscaped(s);
    CleanIff(s);
    UnescapeEscaped(Clean(s), "");
    assert EscapeString(Clean(s)) + "" == EscapeString(Clean(s)) && Clean(s) + Unescape("") == Clean(s);
    EscapedLonger(Clean(s));
  }

  // ---------------------------------------------------------------- one token

  /** The element whose text may be printed as it is: only these are counted. */
  predicate DepthFits(depth: int, name: string) {
    depth <= if AtomOf(name).OtherAtom? then 0 else 1
  }

  predicate IsOpen(name: string) {
    name == "" || IsRcdata(name) || IsRawtext(name)
  }

  lemma OpenNames(name: string)
    requires IsOpen(name)
    ensures LowerCase(name)
  {
  }

  lemma CleanNamesAreExact(s: string, name: string)
    requires Clean(s) == name && '\U{FFFD}' !in name
    ensures s == name
  {
    forall i | 0 <= i < |s| ensures s[i] == name[i] {
      assert Clean(s)[i] == CleanChar(s[i]) && name[i] in name;
    }
  }

  lemma CountedNames(name: string)
    requires !AtomOf(name).OtherAtom?
    ensures Clean(name) == name && (IsRcdata(name) || IsRawtext(name))
  {
    CleanIff(name);
  }

  lemma OpenedIsItself(t: Token)
    requires TagOk(t)
    ensures Opened(TagOf(t)) != "" ==> Opened(TagOf(t)) == t.data
    ensures IsOpen(Opened(TagOf(t))) && (t.kind.EndTagToken? ==> Opened(TagOf(t)) == "")
  {
    if Opened(TagOf(t)) != "" {
      CleanNamesAreExact(t.data, Opened(TagOf(t)));
    }
  }

  lemma CountedOpens(t: Token)
    requires TagOk(t) && !t.kind.EndTagToken? && !t.atom.OtherAtom?
    ensures Opened(TagOf(t)) == t.data
  {
    CountedNames(t.data);
  }

  /** What follows a tag token, and the depth there. */
  lemma TagMovesOn(depth: int, t: Token, name: string)
    requires TagOk(t) && IsOpen(name) && DepthFits(depth, name)
    requires name != "" ==> t.kind.EndTagToken? && t.data == name
    ensures IsOpen(Opened(TagOf(t))) && DepthFits(NextDepth(depth, t), Opened(TagOf(t)))
  {
    OpenedIsItself(t);
    if !t.kind.EndTagToken? && !t.atom.OtherAtom? {
      CountedOpens(t);
    }
  }

  lemma EndTagCloses(t: Token, rest: string)
    requires TagOk(t) && t.kind.EndTagToken? && LowerCase(t.data)
    ensures ClosesHere(TokenText(t) + rest, t.data)
  {
    var tail := AttrsText(t.attrs) + (">" + rest);
    AfterName(t.attrs, ">" + rest);
    EndTagText(t, rest);
    NameCloses(t.data, tail);
  }

  lemma EndTagText(t: Token, rest: string)
    requires t.kind.EndTagToken?
    ensures TokenText(t) + rest == "</" + (t.data + (AttrsText(t.attrs) + (">" + rest)))
  {
  }

  lemma NameCloses(name: string, tail: string)
    requires LowerCase(name) && tail != "" && (IsSpace(tail[0]) || tail[0] == '/' || tail[0] == '>')
    ensures ClosesHere("</" + (name + tail), name)
  {
    var s := "</" + (name + tail);
    assert s[|name| + 2] == tail[0];
    forall i | 0 <= i < |name| ensures NameChar(s[i + 2]) == name[i] {
      assert s[i + 2] == name[i] && IsLower(name[i]);
    }
  }

  lemma TagIsRead(t: Token, rest: string, name: string)
    requires TagOk(t) && IsOpen(name) && (name != "" ==> t.kind.EndTagToken? && t.data == name)
    ensures ReadAll(TokenText(t) + rest, name) == Cons(TagPiece(TagOf(t)), ReadAll(rest, Opened(TagOf(t))))
  {
    var s := TokenText(t) + rest;
    TagReadsBack(t, rest);
    assert s[0] == '<';
    assert ReadAll(s, "") == Cons(TagPiece(TagOf(t)), ReadAll(rest, Opened(TagOf(t))));
    if name != "" {
      OpenNames(name);
      EndTagCloses(t, rest);
    }
  }

  lemma {:induction false} TextLengthConcat(x: string, rest: string)
    requires '<' !in x && (rest == "" || rest[0] == '<')
    ensures TextLength(x + rest) == |x|
  {
    if x == "" {
      assert x + rest == rest;
    } else {
      assert x[0] in x;
      TextLengthConcat(x[1..], rest);
      assert (x + rest)[1..] == x[1..] + rest;
    }
  }

  lemma TextIsRead(text: string, rest: string)
    requires text != "" && (rest == "" || rest[0] == '<')
    ensures ReadAll(EscapeString(text) + rest, "") == Cons(TextPiece(text), ReadAll(rest, ""))
  {
    var x := EscapeString(text);
    EscapedHasNoMarkup(text);
    EscapedLonger(text);
    TextLengthConcat(x, rest);
    assert (x + rest)[..|x|] == x && (x + rest)[|x|..] == rest;
    UnescapeEscaped(text, "");
    assert x + "" == x && text + Unescape("") == text;
    assert (x + rest)[0] == x[0] && x[0] in x;
  }

  /** The text of an element, printed as x: it is read as x up to the first end tag in it. */
  lemma ElementTextIsRead(x: string, rest: string, name: string)
    requires name != "" && LowerCase(name) && x != "" && (rest == "" || ClosesHere(rest, name))
    ensures RawLength(x, name) == 0 ==> x[0] == '<' && ReadAll(x + rest, name) == ReadAll(x + rest, "")
    ensures RawLength(x, name) > 0 ==>
              var n := RawLength(x, name);
              ReadAll(x + rest, name) == Cons(TextPiece(Content(x[..n], name)), ReadAll(x[n..] + rest, ""))
  {
    var n := RawLength(x, name);
    RawLengthConcat(x, rest, name);
    CutFront(x, rest, n);
    assert (x + rest)[0] == x[0];
  }

  lemma CutFront(x: string, rest: string, n: nat)
    requires n <= |x|
    ensures (x + rest)[..n] == x[..n] && (x + rest)[n..] == x[n..] + rest
  {
  }

  /** Printed as x, the text comes back at once exactly if it survives. */
  lemma ElementTextIff(text: string, name: string, depth: int)
    requires text != "" && LowerCase(name)
    ensures var x := if depth <= 0 then EscapeString(text) else text;
            var n := RawLength(x, name);
            && x != ""
            && (n > 0 && Content(x[..n], name) == text <==> Survives(text, name, depth))
            && (Survives(text, name, depth) ==> n == |x|)
  {
    var x := if depth <= 0 then EscapeString(text) else text;
    var n := RawLength(x, name);
    RawLengthWhole(x, name);
    assert x[..|x|] == x;
    ContentIff(x[..n], name);
    if depth <= 0 {
      EscapedLonger(text);
      EscapedHasNoMarkup(text);
      assert NoEndTag(x, name);
      EscapedContentIff(text, name);
    }
  }

  lemma ConsIs(piece: Piece, rest: Option<seq<Piece>>, first: Piece, later: seq<Piece>)
    ensures Cons(piece, rest) == Some([first] + later) <==> piece == first && rest == Some(later)
  {
    if Cons(piece, rest) == Some([first] + later) {
      assert ([piece] + rest.value)[0] == piece && ([first] + later)[0] == first;
      assert rest.value == ([piece] + rest.value)[1..] && later == ([first] + later)[1..];
    }
  }

  lemma MarkupIsNoText(s: string, text: string, later: seq<Piece>)
    requires s != "" && s[0] == '<'
    ensures ReadAll(s, "") != Some([TextPiece(text)] + later)
  {
    if r :| ReadAll(s, "") == Some(r) && r == [TextPiece(text)] + later {
      assert r[0] == TextPiece(text);
      MarkupFirst(s, r);
      assert false;
    }
  }

  lemma MarkupFirst(s: string, r: seq<Piece>)
    requires s != "" && s[0] == '<' && ReadAll(s, "") == Some(r)
    ensures r != [] && !r[0].TextPiece?
  {
  }

  lemma ElementTextStep(text: string, name: string, depth: int, rest: string, later: seq<Piece>)
    requires text != "" && name != "" && LowerCase(name) && (rest == "" || ClosesHere(rest, name))
    ensures var x := if depth <= 0 then EscapeString(text) else text;
            ReadAll(x + rest, name) == Some([TextPiece(text)] + later)
            <==> Survives(text, name, depth) && ReadAll(rest, "") == Some(later)
  {
    var x := if depth <= 0 then EscapeString(text) else text;
    var n := RawLength(x, name);
    ElementTextIff(text, name, depth);
    ElementTextIsRead(x, rest, name);
    if n == 0 {
      assert (x + rest)[0] == x[0];
      MarkupIsNoText(x + rest, text, later);
    } else {
      ConsIs(TextPiece(Content(x[..n], name)), ReadAll(x[n..] + rest, ""), TextPiece(text), later);
      if n == |x| {
        assert x[n..] + rest == rest;
      }
    }
  }

  // ---------------------------------------------------------------- comments and doctypes

  lemma NoCommentEndCons(x: string)
    requires x != ""
    ensures NoCommentEnd(x) <==> !EndsComment(x) && NoCommentEnd(x[1..])
  {
    assert x[0..] == x;
    forall i | 1 <= i < |x| ensures x[i..] == x[1..][i - 1..] {
    }
    if NoCommentEnd(x) {
      forall i | 0 <= i < |x[1..]| ensures !EndsComment(x[1..][i..]) {
        assert x[1..][i..] == x[i + 1..];
      }
    }
  }

  /** The end of a printed comment is the first one if its data holds none. */
  lemma {:induction false} CommentLengthConcat(x: string, rest: string)
    ensures CommentLength(x + ("-->" + rest)) <= |x|
    ensures CommentLength(x + ("-->" + rest)) == |x| <==> NoCommentEnd(x)
  {
    var tail := "-->" + rest;
    if x == "" {
      assert x + tail == tail && Arrow(tail);
    } else {
      CommentLengthConcat(x[1..], rest);
      assert (x + tail)[1..] == x[1..] + tail;
      EndsInFront(x, rest);
      NoCommentEndCons(x);
    }
  }

  /** No end of a comment begins in its data and ends in the printed end. */
  lemma EndsInFront(x: string, rest: string)
    requires x != ""
    ensures EndsComment(x + ("-->" + rest)) <==> EndsComment(x)
  {
    var s := x + ("-->" + rest);
    if |x| == 1 {
      assert s[1] == '-' && s[2] == '-';
    } else if |x| == 2 {
      assert s[2] == '-';
    } else if |x| == 3 {
      assert s[3] == '-' && s[..3] == x;
    }
  }

  lemma CommentOpening(x: string, rest: string)
    ensures AbruptEnd(x + ("-->" + rest)) <==> AbruptEnd(x)
  {
    var s := x + ("-->" + rest);
    if x == "" {
      assert s[0] == '-' && s[1] == '-';
    } else {
      assert s[0] == x[0];
      assert s[1] == if |x| == 1 then '-' else x[1];
    }
  }

  lemma CommentIff(data: string, rest: string)
    ensures ReadComment(data + ("-->" + rest)).Some?
    ensures ReadComment(data + ("-->" + rest)).value.0 == data <==> CommentSurvives(data)
    ensures CommentSurvives(data) ==> ReadComment(data + ("-->" + rest)).value.1 == rest
  {
    var s := data + ("-->" + rest);
    CommentOpening(data, rest);
    if !AbruptEnd(data) {
      CommentLengthConcat(data, rest);
      var n := CommentLength(s);
      CutFront(data, "-->" + rest, n);
      CommentRead(s, n, data[..n]);
      ContentIff(data[..n], "");
      if n == |data| {
        assert data[..n] == data && Arrow(s[n..]) && s[n + 3..] == rest;
      }
    }
  }

  lemma CommentRead(s: string, n: nat, text: string)
    requires !AbruptEnd(s) && n == CommentLength(s) < |s| && text == s[..n]
    ensures ReadComment(s).Some? && ReadComment(s).value.0 == Content(text, "")
    ensures Arrow(s[n..]) ==> ReadComment(s).value.1 == s[n + 3..]
  {
  }

  lemma {:induction false} DoctypeLengthConcat(x: string, rest: string)
    ensures DoctypeLength(x + (">" + rest)) <= |x|
    ensures DoctypeLength(x + (">" + rest)) == |x| <==> '>' !in x
  {
    if x == "" {
      assert x + (">" + rest) == ">" + rest;
    } else {
      DoctypeLengthConcat(x[1..], rest);
      assert (x + (">" + rest))[1..] == x[1..] + (">" + rest);
      assert x == [x[0]] + x[1..];
    }
  }

  lemma {:induction false} SkipSpaceConcat(x: string, rest: string)
    ensures exists k :: 0 <= k <= |x| && SkipSpace(x + (">" + rest)) == x[k..] + (">" + rest)
              && (k == 0 <==> x == "" || !(IsSpace(x[0]) || x[0] == '\r'))
  {
    var s := x + (">" + rest);
    if x == "" {
      assert s == ">" + rest;
      assert SkipSpace(s) == x[0..] + (">" + rest);
    } else if IsSpace(x[0]) || x[0] == '\r' {
      SkipSpaceConcat(x[1..], rest);
      assert s[1..] == x[1..] + (">" + rest);
      var k :| 0 <= k <= |x[1..]| && SkipSpace(s[1..]) == x[1..][k..] + (">" + rest);
      assert x[1..][k..] == x[k + 1..];
    } else {
      assert SkipSpace(s) == x[0..] + (">" + rest);
    }
  }

  lemma DoctypeIff(data: string, rest: string)
    ensures ReadDoctype(" " + (data + (">" + rest))).Some?
    ensures ReadDoctype(" " + (data + (">" + rest))).value.0 == data <==> DoctypeSurvives(data)
    ensures DoctypeSurvives(data) ==> ReadDoctype(" " + (data + (">" + rest))).value.1 == rest
  {
    var s := data + (">" + rest);
    assert (" " + s)[1..] == s;
    SkipSpaceConcat(data, rest);
    var k :| 0 <= k <= |data| && SkipSpace(s) == data[k..] + (">" + rest)
      && (k == 0 <==> data == "" || !(IsSpace(data[0]) || data[0] == '\r'));
    DoctypeFrom(data, data[k..], rest, k);
  }

  lemma DoctypeFrom(data: string, body: string, rest: string, k: nat)
    requires k <= |data| && body == data[k..] && SkipSpace(" " + (data + (">" + rest))) == body + (">" + rest)
    requires k == 0 <==> data == "" || !(IsSpace(data[0]) || data[0] == '\r')
    ensures ReadDoctype(" " + (data + (">" + rest))).Some?
    ensures ReadDoctype(" " + (data + (">" + rest))).value.0 == data <==> DoctypeSurvives(data)
    ensures DoctypeSurvives(data) ==> ReadDoctype(" " + (data + (">" + rest))).value.1 == rest
  {
    var s := body + (">" + rest);
    DoctypeLengthConcat(body, rest);
    var n := DoctypeLength(s);
    assert s[..n] == body[..n];
    ContentIff(body[..n], "");
    if k > 0 {
      assert data[0] in data;
    } else {
      assert body == data;
    }
    if n == |body| {
      assert body[..n] == body && s[n + 1..] == rest;
    }
  }

  lemma CommentStep(data: string, rest: string, later: seq<Piece>)
    ensures ReadAll("<!--" + data + "-->" + rest, "") == Some([CommentPiece(data)] + later)
            <==> CommentSurvives(data) && ReadAll(rest, "") == Some(later)
  {
    var s, body := "<!--" + data + "-->" + rest, data + ("-->" + rest);
    assert s == "<!--" + body && s[4..] == body;
    CommentIff(data, rest);
    var r := ReadComment(body).value;
    ConsIs(CommentPiece(r.0), ReadAll(r.1, ""), CommentPiece(data), later);
  }

  lemma DoctypeStep(data: string, rest: string, later: seq<Piece>)
    ensures ReadAll("<!DOCTYPE " + data + ">" + rest, "") == Some([DoctypePiece(data)] + later)
            <==> DoctypeSurvives(data) && ReadAll(rest, "") == Some(later)
  {
    var s, body := "<!DOCTYPE " + data + ">" + rest, " " + (data + (">" + rest));
    DoctypeOpens(body);
    assert s == "<!DOCTYPE" + body;
    DoctypeIff(data, rest);
    var r := ReadDoctype(body).value;
    ConsIs(DoctypePiece(r.0), ReadAll(r.1, ""), DoctypePiece(data), later);
  }

  lemma DoctypeOpens(body: string)
    ensures var s := "<!DOCTYPE" + body; OpensDoctype(s) && !("<!--" <= s) && s[9..] == body
  {
    var s := "<!DOCTYPE" + body;
    assert s[2] == 'D' && s[3] == 'O' && s[4] == 'C' && s[5] == 'T' && s[6] == 'Y' && s[7] == 'P' && s[8] == 'E';
    assert "<!--"[2] == '-';
  }

  // ---------------------------------------------------------------- the whole stream

  lemma RestStarts(depth: int, tokens: seq<Token>, name: string)
    requires Shaped(tokens, name, true) && IsOpen(name)
    ensures var rest := RenderFrom(depth, tokens);
            && (rest == "" || rest[0] == '<')
            && (name != "" ==> rest == "" || ClosesHere(rest, name))
  {
    if tokens != [] {
      var t := tokens[0];
      assert TokenText(t)[0] == '<';
      if name != "" {
        OpenNames(name);
        EndTagCloses(t, RenderFrom(NextDepth(depth, t), tokens[1..]));
      }
    }
  }

  lemma {:induction false} ReadsBackIff(depth: int, tokens: seq<Token>, name: string, afterText: bool)
    requires Shaped(tokens, name, afterText) && IsOpen(name) && DepthFits(depth, name)
    ensures var mode := if afterText then "" else name;
            ReadAll(RenderFrom(depth, tokens), mode) == Some(Pieces(tokens))
            <==> AllSurvive(depth, tokens, mode)
    decreases |tokens|
  {
    if tokens == [] {
      NothingIsRead(name);
    } else if tokens[0].kind.TextToken? {
      ReadsBackIff(depth, tokens[1..], name, true);
      TextStep(depth, tokens, name);
    } else if tokens[0].kind.CommentToken? || tokens[0].kind.DoctypeToken? {
      ReadsBackIff(depth, tokens[1..], "", false);
      DeclarationStep(depth, tokens);
    } else {
      TagStep(depth, tokens, name, afterText);
      TagMovesOn(depth, tokens[0], name);
      ReadsBackIff(NextDepth(depth, tokens[0]), tokens[1..], Opened(TagOf(tokens[0])), false);
    }
  }

  lemma NothingIsRead(name: string)
    ensures ReadAll("", name) == Some([])
  {
    assert ReadAll("", "") == Some([]);
  }

  lemma TextStep(depth: int, tokens: seq<Token>, name: string)
    requires tokens != [] && tokens[0].kind.TextToken? && Shaped(tokens, name, false) && IsOpen(name)
    requires DepthFits(depth, name)
    ensures ReadAll(RenderFrom(depth, tokens), name) == Some(Pieces(tokens))
            <==> (name != "" ==> Survives(tokens[0].data, name, depth))
                 && ReadAll(RenderFrom(depth, tokens[1..]), "") == Some(Pieces(tokens[1..]))
  {
    var text, rest, later := tokens[0].data, RenderFrom(depth, tokens[1..]), Pieces(tokens[1..]);
    RestStarts(depth, tokens[1..], name);
    OpenNames(name);
    if name == "" {
      TextIsRead(text, rest);
      ConsIs(TextPiece(text), ReadAll(rest, ""), TextPiece(text), later);
    } else {
      ElementTextStep(text, name, depth, rest, later);
    }
  }

  lemma DeclarationStep(depth: int, tokens: seq<Token>)
    requires tokens != [] && (tokens[0].kind.CommentToken? || tokens[0].kind.DoctypeToken?)
    ensures ReadAll(RenderFrom(depth, tokens), "") == Some(Pieces(tokens))
            <==> (if tokens[0].kind.CommentToken? then CommentSurvives(tokens[0].data) else DoctypeSurvives(tokens[0].data))
                 && ReadAll(RenderFrom(depth, tokens[1..]), "") == Some(Pieces(tokens[1..]))
  {
    var t, rest, later := tokens[0], RenderFrom(depth, tokens[1..]), Pieces(tokens[1..]);
    assert RenderFrom(depth, tokens) == TokenText(t) + rest;
    if t.kind.CommentToken? {
      CommentStep(t.data, rest, later);
    } else {
      DoctypeStep(t.data, rest, later);
    }
  }

  lemma TagStep(depth: int, tokens: seq<Token>, name: string, afterText: bool)
    requires tokens != [] && TagOk(tokens[0]) && Shaped(tokens, name, afterText) && IsOpen(name)
    ensures var element := Opened(TagOf(tokens[0]));
            ReadAll(RenderFrom(depth, tokens), if afterText then "" else name) == Some(Pieces(tokens))
            <==> ReadAll(RenderFrom(NextDepth(depth, tokens[0]), tokens[1..]), element) == Some(Pieces(tokens[1..]))
  {
    var t := tokens[0];
    var rest := RenderFrom(NextDepth(depth, t), tokens[1..]);
    TagIsRead(t, rest, if afterText then "" else name);
    ConsIs(TagPiece(TagOf(t)), ReadAll(rest, Opened(TagOf(t))), TagPiece(TagOf(t)), Pieces(tokens[1..]));
  }

  /** The whole rendering reads back as the same texts, tags, comments and doctypes if and only
      if every comment and doctype survives, and every text of an element whose text is not
      markup; other texts and tags always do. */
  lemma StreamReadsBackIff(tokens: seq<Token>)
    requires Shaped(tokens, "", false)
    ensures ReadAll(Render(tokens), "") == Some(Pieces(tokens)) <==> AllSurvive(0, tokens, "")
  {
    RenderedFromStart(tokens);
    ReadsBackIff(0, tokens, "", false);
  }

  // ---------------------------------------------------------------- single elements

  function StartTag(name: string): Token {
    Token(StartTagToken, AtomOf(name), name, [])
  }

  function EndTag(name: string): Token {
    Token(EndTagToken, AtomOf(name), name, [])
  }

  function Element(name: string, text: string): seq<Token> {
    [StartTag(name), Token(TextToken, OtherAtom, text, []), EndTag(name)]
  }

  lemma ElementShaped(depth: int, name: string, text: string)
    requires (IsRcdata(name) || IsRawtext(name)) && TagNameOk(name) && Clean(name) == name && text != ""
    ensures Shaped(Element(name, text), "", false)
    ensures AllSurvive(depth, Element(name, text), "")
            <==> Survives(text, name, if AtomOf(name).OtherAtom? then depth else depth + 1)
  {
    var tokens := Element(name, text);
    assert TagOk(tokens[0]) && TagOk(tokens[2]);
    assert Opened(TagOf(tokens[0])) == name && Opened(TagOf(tokens[2])) == "";
    assert tokens[1..] == [tokens[1], tokens[2]] && [tokens[1], tokens[2]][1..] == [tokens[2]] && [tokens[2]][1..] == [];
    assert Shaped([tokens[2]], name, true) && AllSurvive(NextDepth(depth, tokens[0]), [tokens[2]], "");
  }

  lemma RawNamesAreClean(name: string)
    requires IsRcdata(name) || IsRawtext(name)
    ensures TagNameOk(name) && Clean(name) == name
  {
    OpenNames(name);
    CleanIff(name);
  }

  /** One element at the start of a document, or after a stray end tag of another. At the start
      a title does not come back if its text holds "</title>" or "&lt;", which it does once the
      tokenizer has unescaped it; behind the stray tag a title always comes back, but a style
      sheet with a "child > selector" in it is escaped and broken. So is, anywhere, the text of
      an element that the code does not count, such as xmp, with markup in it. */
  lemma ElementReadsBackIff(stray: bool, name: string, text: string)
    requires (IsRcdata(name) || IsRawtext(name)) && text != ""
    ensures var tokens := (if stray then [EndTag("title")] else []) + Element(name, text);
            ReadAll(Render(tokens), "") == Some(Pieces(tokens))
            <==> Survives(text, name, (if stray then -1 else 0) + if AtomOf(name).OtherAtom? then 0 else 1)
  {
    var tokens := (if stray then [EndTag("title")] else []) + Element(name, text);
    RawNamesAreClean(name);
    if stray {
      RawNamesAreClean("title");
      assert tokens[1..] == Element(name, text);
      assert TagOk(tokens[0]) && Opened(TagOf(tokens[0])) == "";
      ElementShaped(-1, name, text);
    } else {
      assert tokens == Element(name, text);
      ElementShaped(0, name, text);
    }
    StreamReadsBackIff(tokens);
  }
}
