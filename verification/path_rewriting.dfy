/** Stripping the host path from requests and putting it back into links and locations. */
module PathRewriting {
  import opened GoStrings
  import opened HtmlTokens
  import opened UrlPaths

  /** url.Parse as far as it is used: Host and RequestURI(); None is a parse error. */
  datatype ParsedUrl = ParsedUrl(host: string, requestUri: string)

  type UrlParser = string -> Option<ParsedUrl>

  /** One layer of rewriting: what the proxy is called, where it serves, what it forwards to. */
  datatype Layer = Layer(hostname: string, hostPath: string, targetPath: string)

  // ---------------------------------------------------------------- responses

  function Prefixed(loc: string, layer: Layer): string {
    if HasPrefix(loc, "/") then SingleJoiningSlash(layer.hostPath, TrimPrefix(loc, layer.targetPath))
    else loc
  }

  function NewLocation(parse: UrlParser, loc: string, layer: Layer): string {
    match parse(loc)
    case None => loc
    case Some(u) =>
      if u.host == "" then Prefixed(loc, layer)
      else if u.host != layer.hostname then loc
      else Prefixed(u.requestUri, layer)
  }

  method UpdateLocation(parse: UrlParser, loc: string, layer: Layer) returns (updated: string)
    ensures updated == NewLocation(parse, loc, layer)
  {
    updated := loc;
    var u := parse(loc);
    if u.None? {
      return;
    }
    if |u.value.host| > 0 {
      if u.value.host != layer.hostname {
        return;
      }
      updated := u.value.requestUri;
    }
    if HasPrefix(updated, "/") {
      updated := SingleJoiningSlash(layer.hostPath, TrimPrefix(updated, layer.targetPath));
    }
  }

  predicate IsLinkKey(key: string) {
    key == "href" || key == "src" || key == "action" || key == "formaction"
  }

  function NewAttr(parse: UrlParser, a: Attr, layer: Layer): Attr {
    if IsLinkKey(a.key) then a.(val := NewLocation(parse, a.val, layer)) else a
  }

  /** modifyToken: link attributes of start and self-closing tags are rewritten in place. */
  method ModifyToken(parse: UrlParser, kind: TokenType, attrs: array<Attr>, layer: Layer)
    modifies attrs
    ensures forall i :: 0 <= i < attrs.Length ==>
              attrs[i] == if kind.StartTagToken? || kind.SelfClosingTagToken?
                          then NewAttr(parse, old(attrs[i]), layer) else old(attrs[i])
  {
    if kind != StartTagToken && kind != SelfClosingTagToken {
      return;
    }
    for i := 0 to attrs.Length
      invariant forall j :: 0 <= j < i ==> attrs[j] == NewAttr(parse, old(attrs[j]), layer)
      invariant forall j :: i <= j < attrs.Length ==> attrs[j] == old(attrs[j])
    {
      if IsLinkKey(attrs[i].key) {
        var val := UpdateLocation(parse, attrs[i].val, layer);
        attrs[i] := attrs[i].(val := val);
      }
    }
  }

  // ---------------------------------------------------------------- requests

  function Stripped(path: string, hostPath: string): string {
    var trimmed := TrimPrefix(path, hostPath);
    if HasPrefix(trimmed, "/") then trimmed else "/" + trimmed
  }

  class RequestUrl {
    var path: string
    var rawPath: string

    constructor (path: string, rawPath: string)
      ensures this.path == path && this.rawPath == rawPath
    {
      this.path, this.rawPath := path, rawPath;
    }

    /** The request part of handlePathCombinations. */
    method Strip(hostPath: string)
      modifies this
      ensures path == Stripped(old(path), hostPath)
      ensures rawPath == StrippedRaw(old(path), old(rawPath), hostPath)
    {
      path := TrimPrefix(path, hostPath);
      rawPath := TrimPrefix(rawPath, hostPath);
      if !HasPrefix(path, "/") {
        path := "/" + path;
        rawPath := "/" + rawPath;
      }
    }
  }

  /** The raw path follows the decoded one: it gets a slash when that one does. */
  function StrippedRaw(path: string, rawPath: string, hostPath: string): string {
    var trimmed := TrimPrefix(rawPath, hostPath);
    if HasPrefix(TrimPrefix(path, hostPath), "/") then trimmed else "/" + trimmed
  }

  /** A request URL carries no raw path unless the plain encoding of the path differs from it. */
  predicate InStep(path: string, rawPath: string) {
    rawPath == "" || Decode(rawPath) == Some(path)
  }

  /** What stripping needs to keep the two fields in step. A request without a raw path must
      leave the code no slash to add, or nothing but that slash; one with a raw path must
      spell the host path in both fields alike or in neither, or be all used up. */
  predicate KeepsStep(path: string, rawPath: string, hostPath: string) {
    if rawPath == "" then
      var trimmed := TrimPrefix(path, hostPath);
      trimmed == "" || HasPrefix(trimmed, "/")
    else if HasPrefix(path, hostPath) then
      HasPrefix(rawPath, hostPath) && '%' !in hostPath
    else
      HasPrefix(rawPath, hostPath) ==> rawPath == hostPath
  }

  /** Stripping keeps an escaped path in step with the decoded one exactly in those cases. */
  lemma StripInStepIff(path: string, rawPath: string, hostPath: string)
    requires PathOk(hostPath) && InStep(path, rawPath)
    ensures InStep(Stripped(path, hostPath), StrippedRaw(path, rawPath, hostPath))
            <==> KeepsStep(path, rawPath, hostPath)
  {
    if rawPath == "" {
      assert TrimPrefix("", hostPath) == "";
      DecodeLiteralFront("/", "");
    } else if HasPrefix(rawPath, hostPath) {
      StripSpelled(path, rawPath, hostPath);
    } else {
      DecodeLiteralFront("/", rawPath);
    }
  }

  lemma StripSpelled(path: string, rawPath: string, hostPath: string)
    requires PathOk(hostPath) && Decode(rawPath) == Some(path) && rawPath != "" && HasPrefix(rawPath, hostPath)
    ensures InStep(Stripped(path, hostPath), StrippedRaw(path, rawPath, hostPath))
            <==> KeepsStep(path, rawPath, hostPath)
  {
    var rawRest := rawPath[|hostPath|..];
    assert rawPath == hostPath + rawRest;
    DecodeLiteralFront("/", rawRest);
    if '%' !in hostPath {
      DecodeLiteralFront(hostPath, rawRest);
      assert (hostPath + Decode(rawRest).value)[|hostPath|..] == Decode(rawRest).value;
    } else {
      DecodeRestLonger(hostPath, rawRest);
      if !HasPrefix(path, hostPath) {
        DecodeRestDiffers(hostPath, rawRest);
      }
    }
  }

  /** Cutting the text of a path with an escape in it cuts off more text than path. */
  lemma {:induction false} DecodeRestLonger(front: string, rest: string)
    requires Decode(front + rest).Some?
    ensures Decode(rest).Some?
    ensures |Decode(rest).value| + |front| >= |Decode(front + rest).value| + if '%' in front then 1 else 0
  {
    if front == [] {
      assert front + rest == rest;
    } else if front[0] != '%' {
      assert (front + rest)[1..] == front[1..] + rest && front == [front[0]] + front[1..];
      DecodeRestLonger(front[1..], rest);
    } else if |front| >= 3 {
      assert (front + rest)[3..] == front[3..] + rest;
      DecodeRestLonger(front[3..], rest);
    } else {
      var split := 3 - |front|;
      assert (front + rest)[3..] == rest[split..];
      assert forall i :: 0 <= i < split ==> rest[i] == (front + rest)[|front| + i];
      assert split == 2 ==> rest[1..][1..] == rest[2..];
    }
  }

  /** Where the cut does not go through an escape, the rest decodes to a proper tail. */
  lemma {:induction false} DecodeRestShorter(front: string, rest: string)
    requires Decode(front + rest).Some? && front != "" && (rest == "" || !IsHex(rest[0]))
    ensures Decode(rest).Some? && |Decode(rest).value| < |Decode(front + rest).value|
  {
    var n := if front[0] == '%' then 3 else 1;
    if |front| < n {
      EscapeIsHex(front + rest, |front|);
      assert false;
    } else if |front| == n {
      assert (front + rest)[n..] == rest;
    } else {
      assert (front + rest)[n..] == front[n..] + rest;
      DecodeRestShorter(front[n..], rest);
    }
  }

  lemma EscapeIsHex(s: string, i: nat)
    requires Decode(s).Some? && s != "" && s[0] == '%' && 1 <= i < 3
    ensures i < |s| && IsHex(s[i])
  {
  }

  lemma DecodeRestDiffers(front: string, rest: string)
    requires HasPrefix(front, "/") && Decode(front + rest).Some?
    ensures Decode(rest) != Decode(front + rest)
  {
    assert (front + rest)[0] == '/';
    if rest == "" || !IsHex(rest[0]) {
      DecodeRestShorter(front, rest);
    }
  }

  /** In the usual case, no raw path and a host path with a slash at its end, stripping breaks
      step although the request spells the host path as it is. */
  lemma StripAddsRawSlash()
    ensures KeepsStep("/app/foo", "/app/foo", "/app/") && !KeepsStep("/app/foo", "", "/app/")
    ensures Stripped("/app/foo", "/app/") == "/foo" && StrippedRaw("/app/foo", "", "/app/") == "/"
  {
    assert "/app/foo" == "/app/" + "foo";
    var trimmed := TrimPrefix("/app/foo", "/app/");
    assert trimmed == "foo" && trimmed[0] == 'f';
  }

  // ---------------------------------------------------------------- rewritten locations

  /** hostPath and targetPath are empty or start with a slash; both may end with one. */
  predicate PathOk(path: string) {
    path == "" || HasPrefix(path, "/")
  }

  /** The location is relative to the upstream host, or absolute on the proxied hostname. */
  predicate Local(parse: UrlParser, loc: string, uri: string, layer: Layer) {
    match parse(loc)
    case None => false
    case Some(u) => (u.host == "" && loc == uri) || (u.host != "" && u.host == layer.hostname && u.requestUri == uri)
  }

  /** What is left of an upstream location once the target path is off. */
  function Inner(targetPath: string, p: string): string
    requires p != ""
  {
    if HasSuffix(targetPath, "/") then p[1..] else p
  }

  lemma LocalLocation(parse: UrlParser, loc: string, layer: Layer, p: string)
    requires PathOk(layer.targetPath) && HasPrefix(p, "/")
    requires Local(parse, loc, SingleJoiningSlash(layer.targetPath, p), layer)
    ensures NewLocation(parse, loc, layer)
            == SingleJoiningSlash(layer.hostPath, Inner(layer.targetPath, p))
  {
    JoinLeavesSecond(layer.targetPath, p);
    assert HasPrefix(SingleJoiningSlash(layer.targetPath, p), "/");
  }

  /** A location that starts with two slashes names another host, by section 4.2 of RFC 3986;
      one that starts with a single slash is a path of the host it was found on. */
  predicate NamesHost(loc: string) {
    HasPrefix(loc, "//")
  }

  predicate DoubleSlashed(p: string, targetPath: string) {
    HasPrefix(p, if HasSuffix(targetPath, "/") then "///" else "//")
  }

  lemma JoinNamesHostIff(hostPath: string, inner: string)
    requires PathOk(hostPath)
    ensures NamesHost(SingleJoiningSlash(hostPath, inner)) <==>
              NamesHost(hostPath) || ((hostPath == "" || hostPath == "/") && NamesHost(inner))
  {
    var joined := SingleJoiningSlash(hostPath, inner);
    JoinLeavesSecond(hostPath, inner);
    if |hostPath| >= 2 {
      assert joined[0] == hostPath[0] && joined[1] == hostPath[1];
    } else if hostPath == "/" && HasPrefix(inner, "/") {
      assert joined == "/" + inner[1..] == inner;
    } else if !HasPrefix(inner, "/") {
      assert joined == "/" + inner;
      assert inner != "" ==> joined[1] == inner[0];
    }
  }

  lemma InnerNamesHostIff(targetPath: string, p: string)
    requires HasPrefix(p, "/")
    ensures NamesHost(Inner(targetPath, p)) <==> DoubleSlashed(p, targetPath)
  {
    assert p == "/" + p[1..];
    if HasSuffix(targetPath, "/") && NamesHost(p[1..]) {
      assert p[1] == '/' && p[2] == '/';
    }
  }

  /** Exactly when the rewritten form of an upstream path names another host: the host path
      does, or there is next to no host path and the upstream path has slashes to spare. */
  lemma RewrittenNamesHostIff(parse: UrlParser, loc: string, layer: Layer, p: string)
    requires PathOk(layer.hostPath) && PathOk(layer.targetPath) && HasPrefix(p, "/")
    requires Local(parse, loc, SingleJoiningSlash(layer.targetPath, p), layer)
    ensures NamesHost(NewLocation(parse, loc, layer)) <==>
              || NamesHost(layer.hostPath)
              || ((layer.hostPath == "" || layer.hostPath == "/") && DoubleSlashed(p, layer.targetPath))
  {
    LocalLocation(parse, loc, layer, p);
    JoinNamesHostIff(layer.hostPath, Inner(layer.targetPath, p));
    InnerNamesHostIff(layer.targetPath, p);
  }

  lemma JoinStartsWithSlash(hostPath: string, inner: string)
    requires PathOk(hostPath)
    ensures HasPrefix(SingleJoiningSlash(hostPath, inner), hostPath)
    ensures HasPrefix(SingleJoiningSlash(hostPath, inner), "/")
  {
    JoinLeavesSecond(hostPath, inner);
  }

  /** The path and query of a location that is relative or on the proxied host, if it has one. */
  function LocalPath(parse: UrlParser, loc: string, hostname: string): Option<string> {
    match parse(loc)
    case None => None
    case Some(u) =>
      var uri := if u.host == "" then loc else u.requestUri;
      if (u.host == "" || u.host == hostname) && HasPrefix(uri, "/") then Some(uri) else None
  }

  /** Only relative locations and those on the proxied host change. What they become is a path
      under the host path, and names another host exactly if the host path does or, with next
      to no host path, the part after the target path does; a request URI that is no path is
      passed on as it is. */
  lemma OnlyLocalLinksChange(parse: UrlParser, loc: string, layer: Layer)
    requires PathOk(layer.hostPath)
    ensures var updated, local := NewLocation(parse, loc, layer), LocalPath(parse, loc, layer.hostname);
            if local.None? then
              updated == loc ||
              (parse(loc).Some? && parse(loc).value.host == layer.hostname
               && updated == parse(loc).value.requestUri && !HasPrefix(updated, "/"))
            else
              && HasPrefix(updated, layer.hostPath) && HasPrefix(updated, "/")
              && (NamesHost(updated) <==>
                    || NamesHost(layer.hostPath)
                    || ((layer.hostPath == "" || layer.hostPath == "/")
                        && NamesHost(TrimPrefix(local.value, layer.targetPath))))
  {
    if LocalPath(parse, loc, layer.hostname).Some? {
      var inner := TrimPrefix(LocalPath(parse, loc, layer.hostname).value, layer.targetPath);
      JoinStartsWithSlash(layer.hostPath, inner);
      JoinNamesHostIff(layer.hostPath, inner);
    }
  }

  /** Of an element's attributes only links change, and of a link only the value. */
  lemma OnlyLinkAttrsChange(parse: UrlParser, a: Attr, layer: Layer)
    ensures var changed := NewAttr(parse, a, layer);
            && changed.key == a.key
            && changed.val == if a.key in ["href", "src", "action", "formaction"]
                              then NewLocation(parse, a.val, layer) else a.val
  {
  }
}
