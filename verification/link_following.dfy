/** What becomes of a rewritten location when it is followed: the server decodes the request,
    finds the entry by the decoded path, and strips path and raw path. */
module LinkFollowing {
  import opened GoStrings
  import opened UrlPaths
  import opened PathRewriting
  import RouterModel

  // ---------------------------------------------------------------- requests

  /** The front of s up to the first of the characters in `stops`. */
  function Before(s: string, stops: string): string {
    if s == [] || s[0] in stops then [] else [s[0]] + Before(s[1..], stops)
  }

  function PathText(loc: string): string {
    Before(loc, "?#")
  }

  lemma {:induction false} BeforeIsPrefix(s: string, stops: string)
    ensures HasPrefix(s, Before(s, stops))
  {
    if s != [] && s[0] !in stops {
      BeforeIsPrefix(s[1..], stops);
      assert s == [s[0]] + s[1..];
    }
  }

  /** The query with its question mark; the fragment stays with the client. */
  function QueryText(loc: string): string {
    BeforeIsPrefix(loc, "?#");
    Before(loc[|PathText(loc)|..], "#")
  }

  /** A url.URL as the server sees it. */
  datatype Request = Request(path: string, rawPath: string, query: string)

  /** url.Parse sets the raw path only if the text is not the default encoding of the path. */
  function Parsed(loc: string): Option<Request> {
    match Decode(PathText(loc))
    case None => None
    case Some(path) =>
      Some(Request(path, if EscapePath(path) == PathText(loc) then "" else PathText(loc), QueryText(loc)))
  }

  /** The request for a location found on this host; None if it goes to another host or is
      refused as malformed. */
  function Requested(loc: string): Option<Request> {
    if HasPrefix(loc, "/") && !NamesHost(loc) then Parsed(loc) else None
  }

  /** The request part of handlePathCombinations. */
  function StrippedRequest(r: Request, hostPath: string): Request {
    Request(Stripped(r.path, hostPath), StrippedRaw(r.path, r.rawPath, hostPath), r.query)
  }

  /** What a handler behind that sees: the path, its encoding, and the query. */
  datatype Seen = Seen(path: string, escaped: string, query: string)

  function View(r: Request): Seen {
    Seen(r.path, EscapedPath(r.path, r.rawPath), r.query)
  }

  /** With which view a request for the location arrives at the upstream served under the host
      path; None if it does not get there. */
  function Arriving(loc: string, hostPath: string): Option<Seen> {
    match Requested(loc)
    case None => None
    case Some(r) => if HasPrefix(r.path, hostPath) then Some(View(StrippedRequest(r, hostPath))) else None
  }

  /** The view of a request sent to the upstream itself. */
  function AsSent(p: string): Option<Seen> {
    match Parsed(p)
    case None => None
    case Some(r) => Some(View(r))
  }

  // ---------------------------------------------------------------- text and path

  predicate Plain(hostPath: string) {
    '%' !in hostPath && '?' !in hostPath && '#' !in hostPath
  }

  lemma {:induction false} BeforeConcat(a: string, b: string, stops: string)
    requires forall i :: 0 <= i < |a| ==> a[i] !in stops
    ensures Before(a + b, stops) == a + Before(b, stops)
  {
    if a == [] {
      assert a + b == b;
    } else {
      BeforeConcat(a[1..], b, stops);
      assert (a + b)[1..] == a[1..] + b;
    }
  }

  lemma PlainFront(front: string, rest: string)
    requires '?' !in front && '#' !in front
    ensures PathText(front + rest) == front + PathText(rest)
    ensures QueryText(front + rest) == QueryText(rest)
  {
    forall i | 0 <= i < |front| ensures front[i] !in "?#" {
      assert front[i] in front;
    }
    BeforeConcat(front, rest, "?#");
    BeforeIsPrefix(rest, "?#");
    assert (front + rest)[|front + PathText(rest)|..] == rest[|PathText(rest)|..];
  }

  lemma {:induction false} StoppedShort(front: string, rest: string)
    requires '?' in front || '#' in front
    ensures |PathText(front + rest)| < |front|
  {
    if front[0] != '?' && front[0] != '#' {
      assert front == [front[0]] + front[1..];
      StoppedShort(front[1..], rest);
      assert (front + rest)[1..] == front[1..] + rest;
    }
  }

  lemma {:induction false} DecodeNoLonger(s: string)
    ensures Decode(s).Some? ==> |Decode(s).value| <= |s|
  {
    if s != [] {
      if s[0] != '%' {
        DecodeNoLonger(s[1..]);
      } else if |s| >= 3 {
        DecodeNoLonger(s[3..]);
      }
    }
  }

  /** In front of something that is no hex digit, a text is cut between two pieces. */
  lemma {:induction false} DecodeCut(front: string, rest: string)
    requires Decode(front + rest).Some? && (rest == "" || !IsHex(rest[0]))
    ensures Decode(front).Some? && Decode(rest).Some?
    ensures Decode(front + rest) == Some(Decode(front).value + Decode(rest).value)
  {
    var n := if front != "" && front[0] == '%' then 3 else 1;
    if front == "" {
      assert front + rest == rest && "" + Decode(rest).value == Decode(rest).value;
    } else if |front| < n {
      EscapeIsHex(front + rest, |front|);
      assert false;
    } else {
      CutConcat(front, rest, n);
      DecodeCut(front[n..], rest);
      PieceDecodes(front, n);
      DecodeConcat(front, rest);
    }
  }

  lemma PieceDecodes(s: string, n: nat)
    requires s != "" && n == (if s[0] == '%' then 3 else 1) && n <= |s| && Decode(s[n..]).Some?
    requires s[0] == '%' ==> IsHex(s[1]) && IsHex(s[2])
    ensures Decode(s).Some?
  {
  }

  /** A slash at text position q comes from a front with an escape in it, so it stands further
      left in the path; if path and text agree, there is a slash at that position of the text
      as well, and so on without end. */
  lemma {:induction false} EscapesMoveSlashes(text: string, hostPath: string, q: nat)
    requires Decode(text).Some? && hostPath <= text && q < |text| && q <= |hostPath|
    requires text[q] == '/' && '%' in text[..q]
    ensures !HasPrefix(Decode(text).value, hostPath)
    decreases q
  {
    var path, front := Decode(text).value, text[..q];
    assert text == front + text[q..];
    DecodeCut(front, text[q..]);
    var q' := |Decode(front).value|;
    EscapedFrontShrinks(front);
    assert path[q'] == '/' by {
      assert path == Decode(front).value + Decode(text[q..]).value;
      assert Decode(text[q..]).value[0] == '/';
    }
    if HasPrefix(path, hostPath) {
      assert text[q'] == hostPath[q'] == path[q'];
      if '%' in text[..q'] {
        EscapesMoveSlashes(text, hostPath, q');
      } else {
        assert front == text[..q'] + text[q'..q];
        LiteralFrontGrows(text[..q'], text[q'..q]);
      }
      assert false;
    }
  }

  lemma {:induction false} EscapedFrontShrinks(s: string)
    requires '%' in s && Decode(s).Some?
    ensures |Decode(s).value| < |s|
  {
    assert s + "" == s;
    DecodeRestLonger(s, "");
  }

  lemma LiteralFrontGrows(front: string, rest: string)
    requires '%' !in front && rest != "" && Decode(front + rest).Some?
    ensures |Decode(front + rest).value| > |front|
  {
    DecodeLiteralFront(front, rest);
  }

  /** A request for a text under the host path is under the host path as the server decodes it
      exactly if the host path is plain. */
  lemma UnderHostPathIff(hostPath: string, rest: string)
    requires PathOk(hostPath) && (HasSuffix(hostPath, "/") || HasPrefix(rest, "/"))
    requires Parsed(hostPath + rest).Some?
    ensures HasPrefix(Parsed(hostPath + rest).value.path, hostPath) <==> Plain(hostPath)
  {
    var loc := hostPath + rest;
    if '?' in hostPath || '#' in hostPath {
      StoppedShort(hostPath, rest);
      DecodeNoLonger(PathText(loc));
    } else {
      PlainFront(hostPath, rest);
      if '%' in hostPath {
        EscapedHostPathMissed(hostPath, PathText(rest));
      } else {
        DecodeLiteralFront(hostPath, PathText(rest));
      }
    }
  }

  lemma EscapedHostPathMissed(hostPath: string, rest: string)
    requires '%' in hostPath && (HasSuffix(hostPath, "/") || HasPrefix(rest, "/"))
    requires Decode(hostPath + rest).Some?
    ensures !HasPrefix(Decode(hostPath + rest).value, hostPath)
  {
    var text := hostPath + rest;
    if HasSuffix(hostPath, "/") {
      var q := |hostPath| - 1;
      assert hostPath == text[..q] + "/";
      EscapesMoveSlashes(text, hostPath, q);
    } else {
      assert text[..|hostPath|] == hostPath;
      EscapesMoveSlashes(text, hostPath, |hostPath|);
    }
  }

  // ---------------------------------------------------------------- where the seam cuts

  /** How many slashes of an upstream path a rewritten location loses at the seams. */
  function Lost(layer: Layer, p: string): nat {
    if HasSuffix(layer.hostPath, "/") then
      if HasSuffix(layer.targetPath, "/") && HasPrefix(p, "//") then 2 else 1
    else
      if HasSuffix(layer.targetPath, "/") && HasPrefix(p, "//") then 1 else 0
  }

  lemma LostFits(layer: Layer, p: string)
    requires HasPrefix(p, "/")
    ensures Lost(layer, p) <= |p| && forall i :: 0 <= i < Lost(layer, p) ==> p[i] == '/'
  {
  }

  lemma DropSlash(p: string)
    requires HasPrefix(p, "/")
    ensures p == "/" + p[1..] && (HasPrefix(p, "//") <==> HasPrefix(p[1..], "/"))
    ensures HasPrefix(p, "//") ==> p[1..][1..] == p[2..]
  {
  }

  lemma JoinedText(hostPath: string, inner: string)
    ensures SingleJoiningSlash(hostPath, inner)
            == hostPath + if HasSuffix(hostPath, "/") then TrimPrefix(inner, "/")
                          else if HasPrefix(inner, "/") then inner else "/" + inner
  {
    JoinLeavesSecond(hostPath, inner);
  }

  lemma RewrittenText(parse: UrlParser, loc: string, layer: Layer, p: string)
    requires PathOk(layer.targetPath) && HasPrefix(p, "/")
    requires Local(parse, loc, SingleJoiningSlash(layer.targetPath, p), layer)
    ensures Lost(layer, p) <= |p|
    ensures NewLocation(parse, loc, layer) == layer.hostPath + p[Lost(layer, p)..]
  {
    LocalLocation(parse, loc, layer, p);
    LostFits(layer, p);
    DropSlash(p);
    JoinedText(layer.hostPath, Inner(layer.targetPath, p));
    assert p[0..] == p;
  }

  /** The path of a text without its first slashes. */
  lemma LostDecodes(p: string, k: nat)
    requires k <= |p| && forall i :: 0 <= i < k ==> p[i] == '/'
    ensures k <= |PathText(p)| && PathText(p[k..]) == PathText(p)[k..] && QueryText(p[k..]) == QueryText(p)
    ensures Decode(PathText(p)).Some? <==> Decode(PathText(p)[k..]).Some?
    ensures Decode(PathText(p)).Some? ==>
              k <= |Decode(PathText(p)).value|
              && Decode(PathText(p)[k..]) == Some(Decode(PathText(p)).value[k..])
              && p[..k] <= Decode(PathText(p)).value
  {
    var front, rest := p[..k], p[k..];
    assert p == front + rest;
    PlainFront(front, rest);
    assert PathText(p)[k..] == PathText(rest);
    DecodeLiteralFront(front, PathText(rest));
    if Decode(PathText(rest)).Some? {
      assert (front + Decode(PathText(rest)).value)[k..] == Decode(PathText(rest)).value;
    }
  }

  // ---------------------------------------------------------------- stripping the request

  /** `rawPath` is what url.Parse may have set for a path given by `text`. */
  predicate Spells(path: string, rawPath: string, text: string) {
    && Decode(text) == Some(path)
    && (rawPath == text || (rawPath == "" && EscapePath(path) == text))
  }

  /** The one encoding that all of them stand for. */
  lemma SpellingsAgree(path: string, rawPath: string, text: string)
    requires Spells(path, rawPath, text) && text != "" && path != "*"
    ensures EscapedPath(path, rawPath) == if ValidEncoding(text) then text else EscapePath(path)
  {
    if rawPath == "" || EscapePath(path) == text {
      DefaultIsValid(path);
    }
  }

  lemma {:induction false} DefaultIsValid(path: string)
    ensures ValidEncoding(EscapePath(path))
  {
    if path != [] {
      DefaultIsValid(path[1..]);
    }
  }

  /** Stripping a request for the host path and k slashes less of a text that starts with a
      slash gives back the path exactly if no slash that counts was lost; and if so, the
      encoding is that of the text as well. */
  lemma StripsBackIff(r: Request, hostPath: string, text: string, k: nat)
    requires '%' !in hostPath && k <= 2 && k <= |text| && HasPrefix(text, "/")
    requires forall i :: 0 <= i < k ==> text[i] == '/'
    requires Decode(text).Some? && k <= |Decode(text).value| && Decode(text[k..]) == Some(Decode(text).value[k..])
    requires Spells(r.path, r.rawPath, hostPath + text[k..]) && HasPrefix(Decode(text).value, "/")
    ensures var path, r' := Decode(text).value, StrippedRequest(r, hostPath);
            && (r'.path == path <==> k == 0 || (k == 1 && !HasPrefix(path, "//")))
            && (r'.path == path ==> EscapedPath(path, r'.rawPath) == if ValidEncoding(text) then text else EscapePath(path))
  {
    var path, rest := Decode(text).value, text[k..];
    var r' := StrippedRequest(r, hostPath);
    DecodeLiteralFront(hostPath, rest);
    assert r.path == hostPath + path[k..];
    assert TrimPrefix(r.path, hostPath) == path[k..];
    assert path == "/" + path[1..];
    assert HasPrefix(path, "//") <==> HasPrefix(path[1..], "/");
    if r'.path == path {
      StrippedSpells(r, hostPath, text, path, k);
    }
  }

  lemma StrippedSpells(r: Request, hostPath: string, text: string, path: string, k: nat)
    requires '%' !in hostPath && k <= 1 && k <= |text| && HasPrefix(text, "/") && HasPrefix(path, "/")
    requires Decode(text) == Some(path) && r.path == hostPath + path[k..]
    requires Spells(r.path, r.rawPath, hostPath + text[k..]) && StrippedRequest(r, hostPath).path == path
    requires k == 1 ==> !HasPrefix(path, "//")
    ensures EscapedPath(path, StrippedRequest(r, hostPath).rawPath)
            == if ValidEncoding(text) then text else EscapePath(path)
  {
    var raw := StrippedRequest(r, hostPath).rawPath;
    assert path == "/" + path[1..] && text == "/" + text[1..];
    assert TrimPrefix(r.path, hostPath) == path[k..];
    if r.rawPath == hostPath + text[k..] {
      assert TrimPrefix(r.rawPath, hostPath) == text[k..];
      assert raw == text;
    } else {
      EscapePathConcat(hostPath, path[k..]);
      EscapedFront(hostPath, EscapePath(path[k..]), text[k..]);
      DefaultOfSlash(path);
      assert EscapePath(path) == text;
      DefaultIsValid(path);
      assert TrimPrefix("", hostPath) == "";
      assert raw == if k == 0 then "" else "/";
    }
    SpellingsAgreeOrSlash(path, raw, text);
  }

  lemma DefaultOfSlash(path: string)
    requires HasPrefix(path, "/")
    ensures EscapePath(path) == "/" + EscapePath(path[1..])
  {
  }

  lemma SpellingsAgreeOrSlash(path: string, rawPath: string, text: string)
    requires Decode(text) == Some(path) && HasPrefix(path, "/") && text != ""
    requires rawPath == text || (EscapePath(path) == text && (rawPath == "" || rawPath == "/"))
    ensures EscapedPath(path, rawPath) == if ValidEncoding(text) then text else EscapePath(path)
  {
    if rawPath == "/" && Decode(rawPath) == Some(path) {
      DecodeLiteralFront("/", "");
      assert path == "/";
      DefaultOfSlash(path);
    } else {
      assert path[0] == '/';
      SpellingsAgree(path, if rawPath == "/" && rawPath != text then "" else rawPath, text);
    }
  }

  // ---------------------------------------------------------------- following a link

  /** No slash is lost that counts: none of the two at the front of the text where the target
      path is taken off, and none of the two at the front of the path, written out or escaped,
      where the host path is. */
  predicate SeamsKept(layer: Layer, p: string) {
    && !(HasSuffix(layer.targetPath, "/") && HasPrefix(p, "//"))
    && !(HasSuffix(layer.hostPath, "/")
         && Decode(PathText(p)).Some? && HasPrefix(Decode(PathText(p)).value, "//"))
  }

  lemma LostCountsIff(layer: Layer, p: string)
    requires HasPrefix(p, "/") && Decode(PathText(p)).Some?
    ensures var k, path := Lost(layer, p), Decode(PathText(p)).value;
            HasPrefix(path, "/") && ((k == 0 || (k == 1 && !HasPrefix(path, "//"))) <==> SeamsKept(layer, p))
  {
    LostDecodes(p, 1);
    assert p[..1] == "/";
    if HasPrefix(p, "//") {
      LostDecodes(p, 2);
      assert p[..2] == "//";
    }
  }

  /** A request that spells the host path and what is left of p shows the upstream, once it is
      stripped, exactly what a request for p itself would, iff the seams are kept. */
  lemma SeenAsSentIff(r: Request, layer: Layer, p: string)
    requires HasPrefix(p, "/") && Decode(PathText(p)).Some? && '%' !in layer.hostPath
    requires Lost(layer, p) <= |PathText(p)|
    requires Spells(r.path, r.rawPath, layer.hostPath + PathText(p)[Lost(layer, p)..])
    requires r.query == QueryText(p)
    ensures Some(View(StrippedRequest(r, layer.hostPath))) == AsSent(p) <==> SeamsKept(layer, p)
  {
    var text, k := PathText(p), Lost(layer, p);
    var path := Decode(text).value;
    LostFits(layer, p);
    LostDecodes(p, k);
    LostCountsIff(layer, p);
    TextStartsWithSlash(p);
    BeforeIsPrefix(p, "?#");
    assert path[0] == '/';
    StripsBackIff(r, layer.hostPath, text, k);
    SpellingsAgree(path, Parsed(p).value.rawPath, text);
  }

  lemma TextStartsWithSlash(p: string)
    requires HasPrefix(p, "/")
    ensures HasPrefix(PathText(p), "/")
  {
  }

  /** The request for a rewritten location, when it stays on the host and the host path is plain. */
  lemma PlainRequest(hostPath: string, p: string, k: nat)
    requires Plain(hostPath) && k <= |p| && forall i :: 0 <= i < k ==> p[i] == '/'
    ensures k <= |PathText(p)|
    ensures Parsed(hostPath + p[k..]).Some? <==> Decode(PathText(p)).Some?
    ensures Parsed(hostPath + p[k..]).Some? ==>
              var r := Parsed(hostPath + p[k..]).value;
              Spells(r.path, r.rawPath, hostPath + PathText(p)[k..]) && r.query == QueryText(p)
  {
    PlainFront(hostPath, p[k..]);
    LostDecodes(p, k);
    DecodeLiteralFront(hostPath, PathText(p)[k..]);
  }

  lemma RestMeetsHostPath(layer: Layer, p: string)
    requires HasPrefix(p, "/")
    ensures Lost(layer, p) <= |p|
    ensures HasSuffix(layer.hostPath, "/") || HasPrefix(p[Lost(layer, p)..], "/")
  {
    LostFits(layer, p);
    DropSlash(p);
    assert p[0..] == p;
  }

  /** When a rewritten location leads back to this host and to a path under the host path. */
  predicate ComesBack(layer: Layer, p: string) {
    && Decode(PathText(p)).Some? && Plain(layer.hostPath) && !NamesHost(layer.hostPath)
    && !((layer.hostPath == "" || layer.hostPath == "/") && DoubleSlashed(p, layer.targetPath))
  }

  lemma ComesBackIff(parse: UrlParser, loc: string, layer: Layer, p: string)
    requires PathOk(layer.hostPath) && PathOk(layer.targetPath) && HasPrefix(p, "/")
    requires Local(parse, loc, SingleJoiningSlash(layer.targetPath, p), layer)
    ensures var r := Requested(NewLocation(parse, loc, layer));
            r.Some? && HasPrefix(r.value.path, layer.hostPath) <==> ComesBack(layer, p)
  {
    var updated := NewLocation(parse, loc, layer);
    RewrittenText(parse, loc, layer, p);
    RewrittenNamesHostIff(parse, loc, layer, p);
    LocalLocation(parse, loc, layer, p);
    JoinStartsWithSlash(layer.hostPath, Inner(layer.targetPath, p));
    RestMeetsHostPath(layer, p);
    LostFits(layer, p);
    if Parsed(updated).Some? {
      UnderHostPathIff(layer.hostPath, p[Lost(layer, p)..]);
    }
    if Plain(layer.hostPath) {
      PlainRequest(layer.hostPath, p, Lost(layer, p));
    }
  }

  lemma ArrivesFromHere(parse: UrlParser, loc: string, layer: Layer, p: string)
    requires PathOk(layer.hostPath) && PathOk(layer.targetPath) && HasPrefix(p, "/")
    requires Local(parse, loc, SingleJoiningSlash(layer.targetPath, p), layer) && ComesBack(layer, p)
    ensures Arriving(NewLocation(parse, loc, layer), layer.hostPath).Some?
    ensures Arriving(NewLocation(parse, loc, layer), layer.hostPath) == AsSent(p) <==> SeamsKept(layer, p)
  {
    ComesBackIff(parse, loc, layer, p);
    RewrittenText(parse, loc, layer, p);
    ArrivesIff(NewLocation(parse, loc, layer), layer, p);
  }

  lemma ArrivesIff(updated: string, layer: Layer, p: string)
    requires HasPrefix(p, "/") && Plain(layer.hostPath) && Lost(layer, p) <= |p|
    requires updated == layer.hostPath + p[Lost(layer, p)..]
    requires Requested(updated).Some? && HasPrefix(Requested(updated).value.path, layer.hostPath)
    ensures Arriving(updated, layer.hostPath).Some?
    ensures Arriving(updated, layer.hostPath) == AsSent(p) <==> SeamsKept(layer, p)
  {
    RequestSpells(Requested(updated).value, layer, p);
    SeenAsSentIff(Requested(updated).value, layer, p);
  }

  lemma RequestSpells(r: Request, layer: Layer, p: string)
    requires HasPrefix(p, "/") && Plain(layer.hostPath) && Lost(layer, p) <= |p|
    requires Parsed(layer.hostPath + p[Lost(layer, p)..]) == Some(r)
    ensures Decode(PathText(p)).Some? && r.query == QueryText(p) && Lost(layer, p) <= |PathText(p)|
    ensures Spells(r.path, r.rawPath, layer.hostPath + PathText(p)[Lost(layer, p)..])
  {
    LostFits(layer, p);
    PlainRequest(layer.hostPath, p, Lost(layer, p));
  }

  lemma SlashesDecode(p: string)
    requires HasPrefix(p, "//") && Decode(PathText(p)).Some?
    ensures HasPrefix(Decode(PathText(p)).value, "//")
  {
    LostDecodes(p, 2);
    assert p[..2] == "//";
  }

  /** A link to an upstream path p, rewritten and followed: the request comes back to this host
      and shows the upstream what a request for p itself shows it, path, encoding and query,
      if and only if p is well formed, the host path is plain and names no host, a location
      without host path does not start with two slashes, and the seams are kept. */
  lemma RewriteStripIff(parse: UrlParser, loc: string, layer: Layer, p: string)
    requires PathOk(layer.hostPath) && PathOk(layer.targetPath) && HasPrefix(p, "/")
    requires Local(parse, loc, SingleJoiningSlash(layer.targetPath, p), layer)
    ensures var arriving := Arriving(NewLocation(parse, loc, layer), layer.hostPath);
            arriving.Some? && arriving == AsSent(p) <==>
              && Decode(PathText(p)).Some? && Plain(layer.hostPath) && !NamesHost(layer.hostPath)
              && !(layer.hostPath == "" && HasPrefix(p, "//")) && SeamsKept(layer, p)
  {
    if ComesBack(layer, p) {
      ArrivesFromHere(parse, loc, layer, p);
    } else {
      ComesBackIff(parse, loc, layer, p);
    }
    if HasPrefix(p, "//") && Decode(PathText(p)).Some? {
      SlashesDecode(p);
    }
  }

  lemma LiteralMatchIff(glob: RouterModel.Glob, hostname: string, hostPath: string, path: string)
    requires !RouterModel.IsWildcard(hostname + hostPath)
    ensures RouterModel.Matches(glob, hostname + hostPath, hostname + path) <==> HasPrefix(path, hostPath)
  {
    if HasPrefix(path, hostPath) {
      assert hostname + path == hostname + hostPath + path[|hostPath|..];
    }
    if HasPrefix(hostname + path, hostname + hostPath) {
      assert path == (hostname + path)[|hostname|..];
      assert hostPath == (hostname + hostPath)[|hostname|..];
    }
  }

  /** The request for a rewritten location reaches the literal mux entry it came from, which is
      asked for the decoded path, exactly if it comes back under the host path. */
  lemma RewrittenReachesEntryIff(glob: RouterModel.Glob, parse: UrlParser, loc: string, layer: Layer, p: string)
    requires PathOk(layer.hostPath) && PathOk(layer.targetPath) && HasPrefix(p, "/")
    requires Local(parse, loc, SingleJoiningSlash(layer.targetPath, p), layer)
    requires !RouterModel.IsWildcard(layer.hostname + layer.hostPath)
    ensures var r := Requested(NewLocation(parse, loc, layer));
            r.Some? && RouterModel.Matches(glob, layer.hostname + layer.hostPath, layer.hostname + r.value.path)
            <==>
            && Decode(PathText(p)).Some? && Plain(layer.hostPath) && !NamesHost(layer.hostPath)
            && !((layer.hostPath == "" || layer.hostPath == "/") && DoubleSlashed(p, layer.targetPath))
  {
    ComesBackIff(parse, loc, layer, p);
    var r := Requested(NewLocation(parse, loc, layer));
    if r.Some? {
      LiteralMatchIff(glob, layer.hostname, layer.hostPath, r.value.path);
    }
  }

  // ---------------------------------------------------------------- the debug listener

  /** The debug listener takes the host from the first segment and off both paths. */
  function DebugRequest(r: Request): Option<(string, Request)> {
    var uri := SplitSlash(r.path);
    if |uri| < 2 then None
    else
      var host := "/" + uri[1];
      Some((uri[1], Request(TrimPrefix(r.path, host), TrimPrefix(r.rawPath, host), r.query)))
  }

  /** Its response writer: no hostname of its own, serving under "/host". */
  function DebugLayer(host: string): Layer {
    Layer("", "/" + host, "")
  }

  predicate IsSegment(host: string) {
    host != "" && '/' !in host
  }

  lemma {:induction false} FirstSegment(host: string, rest: string)
    requires '/' !in host && HasPrefix(rest, "/")
    ensures |SplitSlash(host + rest)| >= 2 && SplitSlash(host + rest)[0] == host
  {
    if host == [] {
      assert host + rest == rest;
    } else {
      assert host[0] in host;
      FirstSegment(host[1..], rest);
      assert (host + rest)[1..] == host[1..] + rest;
    }
  }

  /** The second piece of a path is what follows its leading slash. */
  lemma {:induction false} FirstPieceIsPrefix(s: string)
    ensures HasPrefix(s, SplitSlash(s)[0])
  {
    if s != [] {
      FirstPieceIsPrefix(s[1..]);
      assert s == [s[0]] + s[1..];
    }
  }

  lemma DebugTakesHost(r: Request, host: string)
    requires IsSegment(host) && HasPrefix(r.path, "/")
    ensures DebugRequest(r).Some? && DebugRequest(r).value.0 == host ==> HasPrefix(r.path, "/" + host)
    ensures HasPrefix(r.path, "/" + host + "/") ==> DebugRequest(r).Some? && DebugRequest(r).value.0 == host
  {
    assert r.path == "/" + r.path[1..];
    assert SplitSlash(r.path) == [""] + SplitSlash(r.path[1..]);
    FirstPieceIsPrefix(r.path[1..]);
    if HasPrefix(r.path, "/" + host + "/") {
      var rest := r.path[|host| + 1..];
      assert r.path[1..] == host + rest && rest[0] == '/';
      FirstSegment(host, rest);
    }
  }

  lemma ShownText(parse: UrlParser, host: string, loc: string)
    requires IsSegment(host) && HasPrefix(loc, "/") && parse(loc).Some? && parse(loc).value.host == ""
    ensures NewLocation(parse, loc, DebugLayer(host)) == "/" + host + loc
    ensures HasPrefix("/" + host + loc, "/") && !NamesHost("/" + host + loc)
  {
    var front := "/" + host;
    assert TrimPrefix(loc, "") == loc;
    assert host[0] in host && host[|host| - 1] in host;
    assert front[|front| - 1] == host[|host| - 1];
    assert (front + loc)[1] == host[0];
  }

  /** A location passed on by the inner layer and rewritten for the debug listener stays there,
      and comes back to the same host with its own path, raw path and query, exactly if the
      host is plain and the location well formed. */
  lemma DebugRoundTripIff(parse: UrlParser, host: string, loc: string)
    requires IsSegment(host) && HasPrefix(loc, "/") && parse(loc).Some? && parse(loc).value.host == ""
    ensures var r := Requested(NewLocation(parse, loc, DebugLayer(host)));
            var back := if r.None? then None else DebugRequest(r.value);
            && (back.Some? && back.value.0 == host <==> Plain(host) && Decode(PathText(loc)).Some?)
            && (back.Some? && back.value.0 == host ==>
                  && Spells(back.value.1.path, back.value.1.rawPath, PathText(loc))
                  && back.value.1.query == QueryText(loc))
  {
    var front := "/" + host;
    ShownText(parse, host, loc);
    if Parsed(front + loc).Some? {
      UnderHostPathIff(front, loc);
      ParsedSlash(front + loc);
      DebugTakesHost(Parsed(front + loc).value, host);
    }
    if Plain(host) {
      PlainDebugRequest(host, loc);
    }
  }

  lemma ParsedSlash(loc: string)
    requires HasPrefix(loc, "/") && Parsed(loc).Some?
    ensures HasPrefix(Parsed(loc).value.path, "/")
  {
    LostDecodes(loc, 1);
    assert loc[..1] == "/";
  }

  lemma PlainDebugRequest(host: string, loc: string)
    requires IsSegment(host) && Plain(host) && HasPrefix(loc, "/")
    ensures Parsed("/" + host + loc).Some? <==> Decode(PathText(loc)).Some?
    ensures Parsed("/" + host + loc).Some? ==>
              var back := DebugRequest(Parsed("/" + host + loc).value);
              && back.Some? && back.value.0 == host && back.value.1.query == QueryText(loc)
              && Spells(back.value.1.path, back.value.1.rawPath, PathText(loc))
  {
    var front, text := "/" + host, PathText(loc);
    PlainRequest(front, loc, 0);
    assert loc[0..] == loc && text[0..] == text;
    if Parsed(front + loc).Some? {
      var r := Parsed(front + loc).value;
      ParsedSlash(loc);
      DecodeLiteralFront(front, text);
      assert r.path == front + Decode(text).value;
      assert HasPrefix(r.path, "/" + host + "/");
      DebugTakesHost(r, host);
      assert TrimPrefix(r.path, front) == Decode(text).value;
      if r.rawPath == "" {
        EscapePathConcat(front, Decode(text).value);
        EscapedFront(front, EscapePath(Decode(text).value), text);
      } else {
        assert TrimPrefix(r.rawPath, front) == text;
      }
    }
  }

  /** With which view a request for a location shown by the debug listener arrives behind the
      literal mux entry of the layer. */
  function ThroughDebug(shown: string, layer: Layer): Option<Seen> {
    match Requested(shown)
    case None => None
    case Some(r) =>
      match DebugRequest(r)
      case None => None
      case Some(back) =>
        if back.0 == layer.hostname && HasPrefix(back.1.path, layer.hostPath)
        then Some(View(StrippedRequest(back.1, layer.hostPath))) else None
  }

  /** Both layers together: a link to an upstream path p, followed through the debug listener,
      reaches its own entry and shows the upstream what a request for p itself does, if and
      only if p is well formed, hostname and host path are plain, and the seams are kept. */
  lemma LinkFollowedThroughDebugIff(parse: UrlParser, loc: string, layer: Layer, p: string)
    requires PathOk(layer.hostPath) && PathOk(layer.targetPath) && HasPrefix(p, "/") && IsSegment(layer.hostname)
    requires Local(parse, loc, SingleJoiningSlash(layer.targetPath, p), layer)
    requires var updated := NewLocation(parse, loc, layer);
             parse(updated).Some? && parse(updated).value.host == ""
    ensures var seen := ThroughDebug(NewLocation(parse, NewLocation(parse, loc, layer), DebugLayer(layer.hostname)), layer);
            seen.Some? && seen == AsSent(p) <==>
              && Decode(PathText(p)).Some? && Plain(layer.hostname) && Plain(layer.hostPath) && SeamsKept(layer, p)
  {
    var updated, k := NewLocation(parse, loc, layer), Lost(layer, p);
    RewrittenText(parse, loc, layer, p);
    LocalLocation(parse, loc, layer, p);
    JoinStartsWithSlash(layer.hostPath, Inner(layer.targetPath, p));
    DebugRoundTripIff(parse, layer.hostname, updated);
    RestMeetsHostPath(layer, p);
    LostFits(layer, p);
    if Parsed(updated).Some? {
      UnderHostPathIff(layer.hostPath, p[k..]);
    }
    if Plain(layer.hostPath) {
      PlainRequest(layer.hostPath, p, k);
    }
    var r := Requested(NewLocation(parse, updated, DebugLayer(layer.hostname)));
    if r.Some? && DebugRequest(r.value).Some? && DebugRequest(r.value).value.0 == layer.hostname && Plain(layer.hostPath) {
      DebugSeenIff(DebugRequest(r.value).value.1, layer, p);
    }
  }

  lemma DebugSeenIff(r: Request, layer: Layer, p: string)
    requires HasPrefix(p, "/") && Decode(PathText(p)).Some? && Plain(layer.hostPath)
    requires Lost(layer, p) <= |p|
    requires Spells(r.path, r.rawPath, PathText(layer.hostPath + p[Lost(layer, p)..]))
    requires r.query == QueryText(layer.hostPath + p[Lost(layer, p)..])
    ensures Some(View(StrippedRequest(r, layer.hostPath))) == AsSent(p) <==> SeamsKept(layer, p)
  {
    LostFits(layer, p);
    PlainFront(layer.hostPath, p[Lost(layer, p)..]);
    LostDecodes(p, Lost(layer, p));
    SeenAsSentIff(r, layer, p);
  }

  // ---------------------------------------------------------------- links that fail

  lemma ConcreteText(s: string)
    requires '?' !in s && '#' !in s
    ensures PathText(s) == s && QueryText(s) == ""
  {
    PlainFront(s, "");
    assert s + "" == s;
  }

  lemma {:induction false} KeptStays(s: string)
    requires forall i :: 0 <= i < |s| ==> KeptInPath(s[i])
    ensures EscapePath(s) == s
  {
    if s != [] {
      KeptStays(s[1..]);
      assert s == [s[0]] + s[1..];
    }
  }

  predicate AllKept(s: string) {
    forall i :: 0 <= i < |s| ==> KeptInPath(s[i])
  }

  lemma KeptIsPlain(s: string)
    requires AllKept(s)
    ensures Plain(s)
  {
  }

  lemma EscapeDecodes(front: string, a: char, b: char, rest: string)
    requires '%' !in front && '%' !in rest && IsHex(a) && IsHex(b)
    ensures Decode(front + (['%', a, b] + rest)) == Some(front + ([(16 * HexValue(a) + HexValue(b)) as char] + rest))
  {
    var tail := ['%', a, b] + rest;
    assert tail[3..] == rest && rest + "" == rest;
    DecodeLiteralFront(rest, "");
    DecodeLiteralFront(front, tail);
  }

  /** A text with a needless escape in it is kept as the raw path. */
  lemma ParsedEscape(front: string, a: char, b: char, rest: string, c: char)
    requires AllKept(front) && AllKept(rest) && IsHex(a) && IsHex(b)
    requires c == (16 * HexValue(a) + HexValue(b)) as char && KeptInPath(c)
    ensures var text := front + (['%', a, b] + rest);
            Parsed(text) == Some(Request(front + ([c] + rest), text, ""))
  {
    var text, path := front + (['%', a, b] + rest), front + ([c] + rest);
    KeptIsPlain(front);
    KeptIsPlain(rest);
    ConcreteText(text);
    EscapeDecodes(front, a, b, rest);
    KeptStays(path);
    assert |path| < |text|;
  }

  lemma RelativeLink(parse: UrlParser, layer: Layer, p: string)
    requires layer.targetPath == "" && HasPrefix(p, "/") && parse(p) == Some(ParsedUrl("", p))
    ensures NewLocation(parse, p, layer)
            == if HasSuffix(layer.hostPath, "/") then layer.hostPath + p[1..] else layer.hostPath + p
  {
    assert TrimPrefix(p, "") == p;
    JoinedText(layer.hostPath, p);
  }

  lemma StaysOnHost(front: string, rest: string)
    requires HasPrefix(front, "/") && front != "/" && !NamesHost(front)
    ensures HasPrefix(front + rest, "/") && !NamesHost(front + rest)
  {
    assert (front + rest)[1] == front[1];
  }

  /** An escaped slash behind a host path that ends with one, as in "/app/%2Fx": the server
      decodes the request, sees a slash where it would otherwise put one, and strips it to "/x"
      and "%2Fx", where the upstream path was "//x" and "/%2Fx". */
  lemma EscapedSlashIsLost(parse: UrlParser, layer: Layer, x: string)
    requires AllKept(layer.hostPath) && HasPrefix(layer.hostPath, "/") && HasSuffix(layer.hostPath, "/")
    requires !NamesHost(layer.hostPath) && layer.hostPath != "/" && layer.targetPath == "" && AllKept(x)
    requires var p := "/" + ("%2F" + x); parse(p) == Some(ParsedUrl("", p))
    ensures var p := "/" + ("%2F" + x);
            var updated := NewLocation(parse, p, layer);
            && updated == layer.hostPath + ("%2F" + x)
            && Requested(updated) == Some(Request(layer.hostPath + ("/" + x), updated, ""))
            && StrippedRequest(Requested(updated).value, layer.hostPath) == Request("/" + x, "%2F" + x, "")
            && Parsed(p) == Some(Request("/" + ("/" + x), p, ""))
  {
    var h, rest := layer.hostPath, "%2F" + x;
    assert ("/" + rest)[1..] == rest;
    RelativeLink(parse, layer, "/" + rest);
    StaysOnHost(h, rest);
    EscapedSlashDecodes(h, x);
    EscapedSlashDecodes("/", x);
    StrippedTexts(h, "/" + x, rest);
  }

  lemma EscapedSlashDecodes(front: string, x: string)
    requires AllKept(front) && AllKept(x)
    ensures Parsed(front + ("%2F" + x)) == Some(Request(front + ("/" + x), front + ("%2F" + x), ""))
  {
    ParsedEscape(front, '2', 'F', x, '/');
  }

  lemma StrippedTexts(hostPath: string, rest: string, rawRest: string)
    requires HasPrefix(rest, "/")
    ensures StrippedRequest(Request(hostPath + rest, hostPath + rawRest, ""), hostPath) == Request(rest, rawRest, "")
  {
    assert TrimPrefix(hostPath + rest, hostPath) == rest;
    assert TrimPrefix(hostPath + rawRest, hostPath) == rawRest;
  }

  /** A host path with an escape in it, as in "/a%20b": the request for a link under it decodes
      to "/a b/x", which is neither matched nor stripped. */
  lemma EscapedHostPathIsMissed(parse: UrlParser, layer: Layer, front: string, back: string, p: string)
    requires AllKept(front) && HasPrefix(front, "/") && !NamesHost(front) && front != "/" && AllKept(back)
    requires layer.hostPath == front + ("%20" + back) && !HasSuffix(layer.hostPath, "/") && layer.targetPath == ""
    requires AllKept(p) && HasPrefix(p, "/") && parse(p) == Some(ParsedUrl("", p))
    ensures var updated := NewLocation(parse, p, layer);
            && Requested(updated).Some? && Requested(updated).value.path == front + (" " + (back + p))
            && Arriving(updated, layer.hostPath) == None
  {
    RelativeLink(parse, layer, p);
    Regrouped(front, "%20" + back, p);
    Regrouped("%20", back, p);
    StaysOnHost(front, "%20" + (back + p));
    EscapedSpaceDecodes(front, back + p);
    var path := front + (" " + (back + p));
    assert path[|front|] == ' ' && layer.hostPath[|front|] == '%';
  }

  lemma EscapedSpaceDecodes(front: string, rest: string)
    requires AllKept(front) && AllKept(rest)
    ensures Parsed(front + ("%20" + rest)).Some?
    ensures Parsed(front + ("%20" + rest)).value.path == front + (" " + rest)
  {
    KeptIsPlain(front);
    KeptIsPlain(rest);
    ConcreteText(front + ("%20" + rest));
    EscapeDecodes(front, '2', '0', rest);
  }

  /** No host path and two slashes: what used to be a path, as in "/a//x", now names a host. */
  lemma DoubleSlashLeaves(parse: UrlParser, layer: Layer, x: string)
    requires layer.hostPath == "" && PathOk(layer.targetPath) && !HasSuffix(layer.targetPath, "/")
    requires var loc := layer.targetPath + ("//" + x); parse(loc) == Some(ParsedUrl("", loc))
    ensures var updated := NewLocation(parse, layer.targetPath + ("//" + x), layer);
            updated == "//" + x && NamesHost(updated) && Arriving(updated, layer.hostPath) == None
  {
    var loc := layer.targetPath + ("//" + x);
    assert HasPrefix(loc, "/") && TrimPrefix(loc, layer.targetPath) == "//" + x;
  }

  /** The target path is taken off as it is configured, so where a link has to escape it, it
      stays in, and the followed link carries it twice. */
  lemma EscapedTargetStays(parse: UrlParser, loc: string, layer: Layer, rest: string)
    requires HasPrefix(layer.targetPath, "/") && '%' !in layer.targetPath
    requires EscapePath(layer.targetPath) != layer.targetPath
    requires Local(parse, loc, EscapePath(layer.targetPath) + rest, layer)
    ensures NewLocation(parse, loc, layer)
            == SingleJoiningSlash(layer.hostPath, EscapePath(layer.targetPath) + rest)
  {
    var uri := EscapePath(layer.targetPath) + rest;
    DefaultOfSlash(layer.targetPath);
    assert uri[0] == '/';
    EscapedTargetMissed(layer.targetPath, rest);
  }

  lemma EscapedTargetMissed(target: string, rest: string)
    requires '%' !in target && EscapePath(target) != target
    ensures !HasPrefix(EscapePath(target) + rest, target)
  {
    var uri := EscapePath(target) + rest;
    if HasPrefix(uri, target) {
      EscapedFront(target, rest, uri[|target|..]);
      assert false;
    }
  }

  // ---------------------------------------------------------------- what stays as it is

  /** The debug listener has no hostname of its own, so it leaves every location with a host. */
  lemma DebugLeavesHosts(parse: UrlParser, host: string, loc: string)
    requires parse(loc).Some? && parse(loc).value.host != ""
    ensures NewLocation(parse, loc, DebugLayer(host)) == loc
  {
  }

  lemma {:induction false} EscapedIsPathText(path: string)
    ensures '?' !in EscapePath(path) && '#' !in EscapePath(path)
  {
    if path != [] {
      EscapedIsPathText(path[1..]);
      EscapedByteIsPathText(path[0]);
    }
  }

  lemma EscapedByteIsPathText(c: char)
    ensures '?' !in EscapeByte(c) && '#' !in EscapeByte(c)
  {
  }

  /** A path written out and parsed again is the same path, and needs no raw path. */
  lemma EscapedParsesBack(path: string)
    requires forall i :: 0 <= i < |path| ==> (path[i] as int) < 256
    ensures Parsed(EscapePath(path)) == Some(Request(path, "", ""))
  {
    EscapePathDecodes(path);
    EscapedIsPathText(path);
    ConcreteText(EscapePath(path));
  }
}
