/** HTML tokens, their printed form, and a reader for tags after section 13.2.5 of the HTML
    Living Standard. */
module HtmlTokens {
  import opened GoStrings

  datatype TokenType =
    | ErrorToken | TextToken | StartTagToken | EndTagToken
    | SelfClosingTagToken | CommentToken | DoctypeToken

  datatype Attr = Attr(key: string, val: string)

  /** DataAtom, as far as the streamer looks at it. */
  datatype Atom = Textarea | Title | Script | Style | OtherAtom

  datatype Token = Token(kind: TokenType, atom: Atom, data: string, attrs: seq<Attr>)

  // ---------------------------------------------------------------- printing

  /** html.EscapeString of golang.org/x/net/html, one character. */
  function EscapeChar(c: char): string {
    if c == '&' then "&amp;"
    else if c == '\'' then "&#39;"
    else if c == '<' then "&lt;"
    else if c == '>' then "&gt;"
    else if c == '\"' then "&#34;"
    else if c == '\r' then "&#13;"
    else [c]
  }

  function EscapeString(s: string): string {
    if s == [] then [] else EscapeChar(s[0]) + EscapeString(s[1..])
  }

  function AttrText(a: Attr): string {
    " " + a.key + "=\"" + EscapeString(a.val) + "\""
  }

  function AttrsText(attrs: seq<Attr>): string {
    if attrs == [] then "" else AttrText(attrs[0]) + AttrsText(attrs[1..])
  }

  function TokenText(t: Token): string {
    match t.kind
    case ErrorToken => ""
    case TextToken => t.data
    case StartTagToken => "<" + t.data + AttrsText(t.attrs) + ">"
    case EndTagToken => "</" + t.data + AttrsText(t.attrs) + ">"
    case SelfClosingTagToken => "<" + t.data + AttrsText(t.attrs) + "/>"
    case CommentToken => "<!--" + t.data + "-->"
    case DoctypeToken => "<!DOCTYPE " + t.data + ">"
  }

  lemma {:induction false} AttrsTextAppend(attrs: seq<Attr>, a: Attr)
    ensures AttrsText(attrs + [a]) == AttrsText(attrs) + AttrText(a)
  {
    if attrs == [] {
      assert attrs + [a] == [a];
    } else {
      var first, more := AttrText(attrs[0]), AttrsText(attrs[1..]);
      assert (attrs + [a])[0] == attrs[0] && (attrs + [a])[1..] == attrs[1..] + [a];
      AttrsTextAppend(attrs[1..], a);
      assert first + (more + AttrText(a)) == first + more + AttrText(a);
    }
  }

  lemma AttrsTextNext(name: string, attrs: seq<Attr>, i: nat)
    requires i < |attrs|
    ensures name + AttrsText(attrs[..i + 1]) == name + AttrsText(attrs[..i]) + AttrText(attrs[i])
  {
    AttrsTextAppend(attrs[..i], attrs[i]);
    assert attrs[..i + 1] == attrs[..i] + [attrs[i]];
  }

  /** tagString of tokenToString: the attributes go through a byte buffer. */
  method TagString(t: Token) returns (s: string)
    ensures s == t.data + AttrsText(t.attrs)
  {
    if |t.attrs| == 0 {
      return t.data;
    }
    var buf := t.data;
    for i := 0 to |t.attrs|
      invariant buf == t.data + AttrsText(t.attrs[..i])
    {
      AttrsTextNext(t.data, t.attrs, i);
      buf := WriteAttr(buf, t.attrs[i]);
    }
    assert t.attrs[..|t.attrs|] == t.attrs;
    s := buf;
  }

  method WriteAttr(buf: string, a: Attr) returns (buf': string)
    ensures buf' == buf + AttrText(a)
  {
    buf' := buf + " ";
    buf' := buf' + a.key;
    buf' := buf' + "=\"";
    buf' := buf' + EscapeString(a.val);
    buf' := buf' + "\"";
  }

  lemma Bracketed(open: string, t: Token, close: string)
    ensures open + (t.data + AttrsText(t.attrs)) + close == open + t.data + AttrsText(t.attrs) + close
  {
  }

  method TokenToString(t: Token) returns (s: string)
    ensures s == TokenText(t)
  {
    match t.kind {
      case ErrorToken => s := "";
      case TextToken => s := t.data;
      case StartTagToken =>
        var tag := TagString(t);
        s := "<" + tag + ">";
        Bracketed("<", t, ">");
      case EndTagToken =>
        var tag := TagString(t);
        s := "</" + tag + ">";
        Bracketed("</", t, ">");
      case SelfClosingTagToken =>
        var tag := TagString(t);
        s := "<" + tag + "/>";
        Bracketed("<", t, "/>");
      case CommentToken => s := "<!--" + t.data + "-->";
      case DoctypeToken => s := "<!DOCTYPE " + t.data + ">";
    }
  }

  /** Escaped text cannot open a tag or close an attribute value. */
  lemma {:induction false} EscapedHasNoMarkup(s: string)
    ensures forall i :: 0 <= i < |EscapeString(s)| ==> EscapeString(s)[i] !in "<>\"'\r"
  {
    if s != [] {
      EscapedHasNoMarkup(s[1..]);
    }
  }

  // ---------------------------------------------------------------- reading a tag

  /** A tag as the tree builder gets it. */
  datatype Tag = Tag(isEnd: bool, name: string, attrs: seq<Attr>, selfClosing: bool)

  predicate IsSpace(c: char) {
    c == '\t' || c == '\n' || c == '\U{000C}' || c == ' '
  }

  predicate IsUpper(c: char) {
    'A' <= c <= 'Z'
  }

  predicate IsLower(c: char) {
    'a' <= c <= 'z'
  }

  /** Appending a character to a name: ASCII lower case, NUL replaced. */
  function NameChar(c: char): char {
    if c == '\0' then '\U{FFFD}' else if IsUpper(c) then ((c as int) + 0x20) as char else c
  }

  /** Tag name state, up to the character that ends it. */
  function ReadName(s: string): (r: Option<(string, string)>)
    ensures r.Some? ==> |r.value.1| <= |s|
  {
    if s == [] then None
    else if IsSpace(s[0]) || s[0] == '/' || s[0] == '>' then Some(("", s))
    else match ReadName(s[1..])
      case None => None
      case Some(r) => Some(([NameChar(s[0])] + r.0, r.1))
  }

  /** Attribute name state, up to the character that ends it. */
  function ReadKey(s: string): (r: Option<(string, string)>)
    ensures r.Some? ==> |r.value.1| <= |s|
  {
    if s == [] then None
    else if IsSpace(s[0]) || s[0] == '/' || s[0] == '>' || s[0] == '=' then Some(("", s))
    else match ReadKey(s[1..])
      case None => None
      case Some(r) => Some(([NameChar(s[0])] + r.0, r.1))
  }

  /** Character reference state on the references that matter here: the character and how
      much input it takes. Any other ampersand stands for itself. */
  function ReadReference(s: string): (char, nat)
    requires s != [] && s[0] == '&'
    ensures 1 <= ReadReference(s).1 <= |s|
  {
    if "&amp;" <= s then ('&', 5)
    else if "&lt;" <= s then ('<', 4)
    else if "&gt;" <= s then ('>', 4)
    else if "&quot;" <= s then ('\"', 6)
    else if |s| >= 5 && s[1] == '#' && '1' <= s[2] <= '9' && '0' <= s[3] <= '9' && s[4] == ';' then
      ((((s[2] as int) - 48) * 10 + ((s[3] as int) - 48)) as char, 5)
    else ('&', 1)
  }

  /** Attribute value (double-quoted) state, up to and including the closing quote. */
  function ReadValue(s: string): (r: Option<(string, string)>)
    ensures r.Some? ==> |r.value.1| < |s|
  {
    if s == [] then None
    else if s[0] == '\"' then Some(("", s[1..]))
    else
      var (c, n) := if s[0] == '&' then ReadReference(s) else (if s[0] == '\0' then '\U{FFFD}' else s[0], 1);
      match ReadValue(s[n..])
      case None => None
      case Some(r) => Some(([c] + r.0, r.1))
  }

  predicate HasKey(attrs: seq<Attr>, key: string) {
    exists i :: 0 <= i < |attrs| && attrs[i].key == key
  }

  /** A second attribute of the same name is dropped. */
  function WithAttr(attrs: seq<Attr>, a: Attr): seq<Attr> {
    if HasKey(attrs, a.key) then attrs else attrs + [a]
  }

  /** Before attribute name state, with the states that come back to it. Attributes without a
      double-quoted value are not read: the printer does not write any. */
  function ReadAttrs(s: string, isEnd: bool, name: string, attrs: seq<Attr>): (r: Option<(Tag, string)>)
    ensures r.Some? ==> |r.value.1| < |s|
    decreases |s|
  {
    if s == [] then None
    else if IsSpace(s[0]) then ReadAttrs(s[1..], isEnd, name, attrs)
    else if s[0] == '>' then Some((Tag(isEnd, name, attrs, false), s[1..]))
    else if s[0] == '/' then
      if |s| >= 2 && s[1] == '>' then Some((Tag(isEnd, name, attrs, true), s[2..]))
      else ReadAttrs(s[1..], isEnd, name, attrs)
    else match ReadKey(s[1..])
      case None => None
      case Some(k) =>
        if !("=\"" <= k.1) then None
        else match ReadValue(k.1[2..])
          case None => None
          case Some(v) =>
            ReadAttrs(v.1, isEnd, name, WithAttr(attrs, Attr([NameChar(s[0])] + k.0, v.0)))
  }

  /** Tag open state: the tag at the front of the input, and the input behind it. */
  function ReadTag(s: string): (r: Option<(Tag, string)>)
    ensures r.Some? ==> |r.value.1| < |s|
  {
    if !("<" <= s) then None
    else
      var isEnd := "</" <= s;
      var body := if isEnd then s[2..] else s[1..];
      if body == [] || !(IsLower(body[0]) || IsUpper(body[0])) then None
      else match ReadName(body)
        case None => None
        case Some(r) => ReadAttrs(r.1, isEnd, r.0, [])
  }

  // ---------------------------------------------------------------- round trip

  /** Characters of names coming out of the tokenizer: it lower-cases them and stops at white
      space, '/' and '>'. */
  predicate NameAlphabet(c: char) {
    !IsSpace(c) && c != '\r' && c != '/' && c != '>' && !IsUpper(c)
  }

  predicate TagNameOk(name: string) {
    name != [] && IsLower(name[0]) && forall i :: 0 <= i < |name| ==> NameAlphabet(name[i])
  }

  /** The tokenizer accepts '=' only as the first character of a key. */
  predicate KeyOk(key: string) {
    && key != []
    && (forall i :: 0 <= i < |key| ==> NameAlphabet(key[i]))
    && (forall i :: 1 <= i < |key| ==> key[i] != '=')
  }

  function CleanChar(c: char): char {
    if c == '\0' then '\U{FFFD}' else c
  }

  function Clean(s: string): string {
    seq(|s|, i requires 0 <= i < |s| => CleanChar(s[i]))
  }

  /** The attributes a reader keeps: first of each name, NUL replaced. */
  function Kept(before: seq<Attr>, attrs: seq<Attr>): seq<Attr>
    decreases |attrs|
  {
    if attrs == [] then before
    else Kept(WithAttr(before, Attr(Clean(attrs[0].key), Clean(attrs[0].val))), attrs[1..])
  }

  lemma {:induction false} NameReadsBack(name: string, rest: string)
    requires forall i :: 0 <= i < |name| ==> NameAlphabet(name[i])
    requires rest != [] && (IsSpace(rest[0]) || rest[0] == '/' || rest[0] == '>')
    ensures ReadName(name + rest) == Some((Clean(name), rest))
  {
    if name == [] {
      assert name + rest == rest;
    } else {
      NameReadsBack(name[1..], rest);
      assert (name + rest)[1..] == name[1..] + rest;
      assert Clean(name) == [NameChar(name[0])] + Clean(name[1..]);
    }
  }

  lemma {:induction false} KeyReadsBack(key: string, rest: string)
    requires forall i :: 0 <= i < |key| ==> NameAlphabet(key[i]) && key[i] != '='
    requires rest != [] && rest[0] == '='
    ensures ReadKey(key + rest) == Some((Clean(key), rest))
  {
    if key == [] {
      assert key + rest == rest;
    } else {
      KeyReadsBack(key[1..], rest);
      assert (key + rest)[1..] == key[1..] + rest;
      assert Clean(key) == [NameChar(key[0])] + Clean(key[1..]);
    }
  }

  lemma EscapedCharReadsBack(c: char, rest: string)
    ensures EscapeChar(c) != [] && EscapeChar(c)[0] != '\"'
    ensures var s := EscapeChar(c) + rest;
            && s[|EscapeChar(c)|..] == rest
            && (s[0] == '&' ==> ReadReference(s) == (c, |EscapeChar(c)|))
            && (s[0] != '&' ==> EscapeChar(c) == [c])
  {
    var e, s := EscapeChar(c), EscapeChar(c) + rest;
    if c == '\'' || c == '\"' || c == '\r' {
      assert s[1] == '#' && s[2] == e[2] && s[3] == e[3] && s[4] == ';';
      assert !("&amp;" <= s) by { assert "&amp;"[1] != s[1]; }
      assert !("&lt;" <= s) by { assert "&lt;"[1] != s[1]; }
      assert !("&gt;" <= s) by { assert "&gt;"[1] != s[1]; }
      assert !("&quot;" <= s) by { assert "&quot;"[1] != s[1]; }
    } else if c == '<' {
      assert !("&amp;" <= s) by { assert "&amp;"[1] != s[1]; }
    } else if c == '>' {
      assert !("&amp;" <= s) by { assert "&amp;"[1] != s[1]; }
      assert !("&lt;" <= s) by { assert "&lt;"[1] != s[1]; }
    }
  }

  lemma CharReadsBack(c: char, tail: string, val: string, rest: string)
    requires ReadValue(tail) == Some((val, rest))
    ensures ReadValue(EscapeChar(c) + tail) == Some(([CleanChar(c)] + val, rest))
  {
    EscapedCharReadsBack(c, tail);
    var s := EscapeChar(c) + tail;
    assert s[0] == EscapeChar(c)[0];
  }

  lemma Regroup(a: string, b: string, c: string, d: string)
    ensures a + b + c + d == a + (b + c + d)
  {
  }

  lemma CleanFirst(val: string)
    requires val != []
    ensures Clean(val) == [CleanChar(val[0])] + Clean(val[1..])
  {
  }

  /** Escaped values contain no quote, and unescaping gives the value back. */
  lemma {:induction false} ValueReadsBack(val: string, rest: string)
    ensures ReadValue(EscapeString(val) + "\"" + rest) == Some((Clean(val), rest))
  {
    if val == [] {
      assert EscapeString(val) + "\"" + rest == "\"" + rest;
      assert Clean(val) == "";
    } else {
      var tail := EscapeString(val[1..]) + "\"" + rest;
      ValueReadsBack(val[1..], rest);
      CharReadsBack(val[0], tail, Clean(val[1..]), rest);
      Regroup(EscapeChar(val[0]), EscapeString(val[1..]), "\"", rest);
      CleanFirst(val);
    }
  }

  lemma KeyWithFirst(key: string, rest: string)
    requires KeyOk(key) && rest != [] && rest[0] == '='
    ensures ReadKey((key + rest)[1..]) == Some((Clean(key[1..]), rest))
    ensures [NameChar(key[0])] + Clean(key[1..]) == Clean(key)
  {
    assert (key + rest)[1..] == key[1..] + rest;
    KeyReadsBack(key[1..], rest);
  }

  lemma AttrTextParts(a: Attr, rest: string)
    ensures AttrText(a) + rest == " " + (a.key + ("=\"" + (EscapeString(a.val) + "\"" + rest)))
  {
  }

  /** One printed attribute is read as one attribute, whatever follows. */
  lemma AttrReadsBack(a: Attr, isEnd: bool, name: string, before: seq<Attr>, rest: string)
    requires KeyOk(a.key)
    ensures ReadAttrs(AttrText(a) + rest, isEnd, name, before)
            == ReadAttrs(rest, isEnd, name, WithAttr(before, Attr(Clean(a.key), Clean(a.val))))
  {
    var value := EscapeString(a.val) + "\"" + rest;
    var afterKey := "=\"" + value;
    var text := a.key + afterKey;
    AttrTextParts(a, rest);
    assert (" " + text)[1..] == text;
    KeyWithFirst(a.key, afterKey);
    assert "=\"" <= afterKey && afterKey[2..] == value;
    ValueReadsBack(a.val, rest);
    assert text[0] == a.key[0];
    ReadsOneAttr(text, isEnd, name, before, Clean(a.key[1..]), afterKey, Clean(a.val), rest);
  }

  lemma ReadsOneAttr(s: string, isEnd: bool, name: string, before: seq<Attr>,
                     key: string, afterKey: string, val: string, rest: string)
    requires s != [] && NameAlphabet(s[0]) && ReadKey(s[1..]) == Some((key, afterKey))
    requires "=\"" <= afterKey && ReadValue(afterKey[2..]) == Some((val, rest))
    ensures ReadAttrs(s, isEnd, name, before)
            == ReadAttrs(rest, isEnd, name, WithAttr(before, Attr([NameChar(s[0])] + key, val)))
  {
  }

  lemma {:induction false} AttrsReadBack(attrs: seq<Attr>, isEnd: bool, name: string, before: seq<Attr>, rest: string)
    requires forall i :: 0 <= i < |attrs| ==> KeyOk(attrs[i].key)
    ensures ReadAttrs(AttrsText(attrs) + rest, isEnd, name, before)
            == ReadAttrs(rest, isEnd, name, Kept(before, attrs))
    decreases |attrs|
  {
    if attrs == [] {
      assert AttrsText(attrs) + rest == rest;
    } else {
      var a := attrs[0];
      var more := AttrsText(attrs[1..]) + rest;
      assert AttrsText(attrs) + rest == AttrText(a) + more;
      AttrReadsBack(a, isEnd, name, before, more);
      AttrsReadBack(attrs[1..], isEnd, name, WithAttr(before, Attr(Clean(a.key), Clean(a.val))), rest);
    }
  }

  /** The text between the name and the closing of a tag starts with something that ends a name. */
  lemma AfterName(attrs: seq<Attr>, rest: string)
    requires rest != [] && (rest[0] == '/' || rest[0] == '>')
    ensures var s := AttrsText(attrs) + rest;
            s != [] && (IsSpace(s[0]) || s[0] == '/' || s[0] == '>')
  {
    if attrs != [] {
      assert AttrsText(attrs)[0] == AttrText(attrs[0])[0] == ' ';
    }
  }

  lemma BodyReadsBack(name: string, attrs: seq<Attr>, isEnd: bool, rest: string)
    requires TagNameOk(name) && forall i :: 0 <= i < |attrs| ==> KeyOk(attrs[i].key)
    requires rest != [] && (rest[0] == '/' || rest[0] == '>')
    ensures var s := (if isEnd then "</" else "<") + name + AttrsText(attrs) + rest;
            ReadTag(s) == ReadAttrs(rest, isEnd, Clean(name), Kept([], attrs))
  {
    var body := name + (AttrsText(attrs) + rest);
    var s := (if isEnd then "</" else "<") + name + AttrsText(attrs) + rest;
    assert s == (if isEnd then "</" else "<") + body;
    assert body[0] == name[0];
    AfterName(attrs, rest);
    NameReadsBack(name, AttrsText(attrs) + rest);
    AttrsReadBack(attrs, isEnd, Clean(name), [], rest);
    if !isEnd {
      assert s[1] == body[0];
      assert !("</" <= s) by { assert "</"[1] != s[1]; }
      assert s[1..] == body;
    } else {
      assert s[2..] == body;
    }
  }

  /** Printing a tag and reading it back are inverse: kind, name, and every attribute key and
      unescaped value in order, with nothing of the following input touched. */
  lemma TagReadsBack(t: Token, rest: string)
    requires t.kind.StartTagToken? || t.kind.EndTagToken? || t.kind.SelfClosingTagToken?
    requires TagNameOk(t.data) && forall i :: 0 <= i < |t.attrs| ==> KeyOk(t.attrs[i].key)
    ensures ReadTag(TokenText(t) + rest)
            == Some((Tag(t.kind.EndTagToken?, Clean(t.data), Kept([], t.attrs), t.kind.SelfClosingTagToken?), rest))
  {
    var isEnd := t.kind.EndTagToken?;
    var tail := (if t.kind.SelfClosingTagToken? then "/>" else ">") + rest;
    assert TokenText(t) + rest == (if isEnd then "</" else "<") + t.data + AttrsText(t.attrs) + tail;
    BodyReadsBack(t.data, t.attrs, isEnd, tail);
    if t.kind.SelfClosingTagToken? {
      assert tail[2..] == rest;
    } else {
      assert tail[1..] == rest;
    }
  }

  /** With distinct keys and no NUL nothing is dropped or replaced. */
  lemma {:induction false} DistinctAttrsKept(before: seq<Attr>, attrs: seq<Attr>)
    requires forall i, j :: 0 <= i < j < |before + attrs| ==> (before + attrs)[i].key != (before + attrs)[j].key
    requires forall i :: 0 <= i < |attrs| ==> '\0' !in attrs[i].key && '\0' !in attrs[i].val
    ensures Kept(before, attrs) == before + attrs
    decreases |attrs|
  {
    if attrs == [] {
      assert before + attrs == before;
    } else {
      var a := attrs[0];
      assert Clean(a.key) == a.key && Clean(a.val) == a.val;
      assert (before + attrs)[|before|] == a;
      forall i | 0 <= i < |before| ensures before[i].key != a.key {
        assert (before + attrs)[i] == before[i];
      }
      assert before + [a] + attrs[1..] == before + attrs;
      DistinctAttrsKept(before + [a], attrs[1..]);
    }
  }
}
