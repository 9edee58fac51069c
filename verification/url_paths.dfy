/** Joining URL paths in their decoded and their escaped form at the same time. */
module UrlPaths {
  import opened GoStrings

  predicate IsHex(c: char) {
    '0' <= c <= '9' || 'a' <= c <= 'f' || 'A' <= c <= 'F'
  }

  function HexValue(c: char): (v: nat)
    requires IsHex(c)
    ensures v < 16
  {
    if '0' <= c <= '9' then (c as int) - 48
    else if 'a' <= c <= 'f' then (c as int) - 87
    else (c as int) - 55
  }

  /** Percent-decoding after section 2.1 of RFC 3986; None if an escape is malformed. */
  function Decode(s: string): Option<string> {
    if s == [] then Some("")
    else if s[0] == '%' then
      if |s| >= 3 && IsHex(s[1]) && IsHex(s[2]) then
        match Decode(s[3..])
        case None => None
        case Some(rest) => Some([(16 * HexValue(s[1]) + HexValue(s[2])) as char] + rest)
      else None
    else match Decode(s[1..])
      case None => None
      case Some(rest) => Some([s[0]] + rest)
  }

  /** Two strings with the same front piece decode to the same first byte. */
  lemma SamePiece(s: string, t: string, n: nat)
    requires s != [] && n == (if s[0] == '%' then 3 else 1) && n <= |s| && n <= |t| && s[..n] == t[..n]
    requires Decode(s).Some? && Decode(t[n..]).Some?
    ensures Decode(s[n..]).Some? && Decode(s).value == [Decode(s).value[0]] + Decode(s[n..]).value
    ensures Decode(t) == Some([Decode(s).value[0]] + Decode(t[n..]).value)
  {
    assert s[0] == s[..n][0] == t[0];
    if n == 3 {
      assert s[1] == s[..n][1] == t[1] && s[2] == s[..n][2] == t[2];
    }
  }

  lemma PieceFits(s: string, n: nat)
    requires s != [] && n == (if s[0] == '%' then 3 else 1) && Decode(s).Some?
    ensures n <= |s| && Decode(s[n..]).Some?
  {
  }

  lemma CutConcat(a: string, b: string, n: nat)
    requires n <= |a|
    ensures (a + b)[..n] == a[..n] && (a + b)[n..] == a[n..] + b
  {
  }

  lemma Regrouped(c: string, x: string, y: string)
    ensures c + (x + y) == c + x + y
  {
  }

  lemma ConcatPieces(a: string, whole: string, n: nat, x: string, y: string)
    requires a != [] && n == (if a[0] == '%' then 3 else 1) && n <= |a| && n <= |whole|
    requires whole[..n] == a[..n]
    requires Decode(a).Some? && Decode(a[n..]) == Some(x) && Decode(whole[n..]) == Some(x + y)
    ensures Decode(whole) == Some(Decode(a).value + y)
  {
    SamePiece(a, whole, n);
    Regrouped([Decode(a).value[0]], x, y);
  }

  /** Decoding distributes over the concatenation of well-formed pieces. */
  lemma {:induction false} DecodeConcat(a: string, b: string)
    requires Decode(a).Some? && Decode(b).Some?
    ensures Decode(a + b) == Some(Decode(a).value + Decode(b).value)
  {
    if a == [] {
      assert a + b == b && Decode(a).value + Decode(b).value == Decode(b).value;
    } else {
      var n := if a[0] == '%' then 3 else 1;
      PieceFits(a, n);
      DecodeConcat(a[n..], b);
      CutConcat(a, b, n);
      ConcatPieces(a, a + b, n, Decode(a[n..]).value, Decode(b).value);
    }
  }

  /** A literal front decodes to itself and can be taken off. */
  lemma {:induction false} DecodeLiteralFront(front: string, rest: string)
    requires forall i :: 0 <= i < |front| ==> front[i] != '%'
    ensures Decode(front + rest).Some? <==> Decode(rest).Some?
    ensures Decode(rest).Some? ==> Decode(front + rest) == Some(front + Decode(rest).value)
  {
    if front == [] {
      assert front + rest == rest;
      assert Decode(rest).Some? ==> front + Decode(rest).value == Decode(rest).value;
    } else {
      DecodeLiteralFront(front[1..], rest);
      assert (front + rest)[1..] == front[1..] + rest;
      if Decode(rest).Some? {
        assert [front[0]] + (front[1..] + Decode(rest).value) == front + Decode(rest).value;
      }
    }
  }

  // ---------------------------------------------------------------- escaping

  /** The bytes of a path that url.URL leaves as they are. */
  predicate KeptInPath(c: char) {
    'a' <= c <= 'z' || 'A' <= c <= 'Z' || '0' <= c <= '9' || c in "-_.~$&+,/:;=@"
  }

  function HexDigit(v: nat): (c: char)
    requires v < 16
    ensures IsHex(c) && HexValue(c) == v
  {
    if v < 10 then (48 + v) as char else (55 + v) as char
  }

  function EscapeByte(c: char): string {
    if KeptInPath(c) then [c] else ['%', HexDigit((c as int) / 16 % 16), HexDigit((c as int) % 16)]
  }

  /** The default encoding of a path. */
  function EscapePath(path: string): string {
    if path == [] then [] else EscapeByte(path[0]) + EscapePath(path[1..])
  }

  /** The bytes a given encoding may use besides. */
  predicate ValidEncoding(rawPath: string) {
    forall i :: 0 <= i < |rawPath| ==> KeptInPath(rawPath[i]) || rawPath[i] in "!'()*[]%"
  }

  /** EscapedPath() of a url.URL: the raw path if that is an encoding of the path, and the
      default encoding otherwise. */
  function EscapedPath(path: string, rawPath: string): string {
    if rawPath != "" && ValidEncoding(rawPath) && Decode(rawPath) == Some(path) then rawPath
    else if path == "*" then "*"
    else EscapePath(path)
  }

  lemma EscapeByteDecodes(c: char, rest: string)
    requires (c as int) < 256 && Decode(rest).Some?
    ensures Decode(EscapeByte(c) + rest) == Some([c] + Decode(rest).value)
  {
    var s := EscapeByte(c) + rest;
    if KeptInPath(c) {
      assert s[0] == c && s[1..] == rest;
    } else {
      HexSplits(c as int);
      DecodeEscape(HexDigit((c as int) / 16 % 16), HexDigit((c as int) % 16), rest);
    }
  }

  lemma HexSplits(v: nat)
    requires v < 256
    ensures 16 * (v / 16 % 16) + v % 16 == v
  {
  }

  lemma DecodeEscape(a: char, b: char, rest: string)
    requires IsHex(a) && IsHex(b) && Decode(rest).Some?
    ensures Decode(['%', a, b] + rest) == Some([(16 * HexValue(a) + HexValue(b)) as char] + Decode(rest).value)
  {
    assert (['%', a, b] + rest)[3..] == rest;
  }

  lemma {:induction false} EscapePathDecodes(path: string)
    requires forall i :: 0 <= i < |path| ==> (path[i] as int) < 256
    ensures Decode(EscapePath(path)) == Some(path)
  {
    if path != [] {
      EscapePathDecodes(path[1..]);
      EscapeByteDecodes(path[0], EscapePath(path[1..]));
      assert path == [path[0]] + path[1..];
    }
  }

  /** Whatever the raw path holds, the escaped path is an encoding of the path. */
  lemma EscapedPathInStep(path: string, rawPath: string)
    requires forall i :: 0 <= i < |path| ==> (path[i] as int) < 256
    ensures EscapedInStep(UrlPath(path, rawPath, EscapedPath(path, rawPath)))
  {
    EscapePathDecodes(path);
    DecodeLiteralFront("*", "");
    assert "*" + "" == "*";
  }

  lemma {:induction false} EscapePathConcat(a: string, b: string)
    ensures EscapePath(a + b) == EscapePath(a) + EscapePath(b)
  {
    if a == [] {
      assert a + b == b;
    } else {
      EscapePathConcat(a[1..], b);
      assert a == [a[0]] + a[1..] && a + b == [a[0]] + (a[1..] + b);
      EscapePathCons(a[0], a[1..]);
      EscapePathCons(a[0], a[1..] + b);
      Regrouped(EscapeByte(a[0]), EscapePath(a[1..]), EscapePath(b));
    }
  }

  lemma EscapePathCons(c: char, rest: string)
    ensures EscapePath([c] + rest) == EscapeByte(c) + EscapePath(rest)
  {
    assert ([c] + rest)[1..] == rest;
  }

  /** A front without a percent sign is either escaped to itself or to something that differs
      from it in some place, so if it agrees here it can be taken off both sides. */
  lemma {:induction false} EscapedFront(front: string, x: string, y: string)
    requires '%' !in front && EscapePath(front) + x == front + y
    ensures x == y && EscapePath(front) == front
  {
    if front == [] {
      assert EscapePath(front) + x == x && front + y == y;
    } else {
      var rest := EscapePath(front[1..]);
      assert front[0] in front;
      assert EscapeByte(front[0]) == [front[0]] by {
        assert (EscapePath(front) + x)[0] == (front + y)[0];
      }
      assert (EscapePath(front) + x)[1..] == rest + x && (front + y)[1..] == front[1..] + y;
      EscapedFront(front[1..], x, y);
    }
  }

  // ---------------------------------------------------------------- joinURLPath

  /** The path part of a url.URL. `escaped` is what EscapedPath() returns. */
  datatype UrlPath = UrlPath(path: string, rawPath: string, escaped: string)

  /** The promise of EscapedPath(), kept by EscapedPathInStep. */
  predicate EscapedInStep(u: UrlPath) {
    Decode(u.escaped) == Some(u.path)
  }

  function SingleJoiningSlash(a: string, b: string): string {
    var aslash, bslash := HasSuffix(a, "/"), HasPrefix(b, "/");
    if aslash && bslash then a + b[1..]
    else if !aslash && !bslash then a + "/" + b
    else a + b
  }

  /** An escaped path that starts with a slash belongs to a path that does, so dropping the
      first character of both is safe. */
  lemma SlashDecodes(u: UrlPath)
    requires EscapedInStep(u) && HasPrefix(u.escaped, "/")
    ensures HasPrefix(u.path, "/") && Decode(u.escaped[1..]) == Some(u.path[1..])
  {
  }

  function JoinURLPath(a: UrlPath, b: UrlPath): (r: (string, string))
    requires EscapedInStep(a) && EscapedInStep(b)
  {
    if a.rawPath == "" && b.rawPath == "" then (SingleJoiningSlash(a.path, b.path), "")
    else
      var aslash, bslash := HasSuffix(a.escaped, "/"), HasPrefix(b.escaped, "/");
      if aslash && bslash then
        SlashDecodes(b);
        (a.path + b.path[1..], a.escaped + b.escaped[1..])
      else if !aslash && !bslash then (a.path + "/" + b.path, a.escaped + "/" + b.escaped)
      else (a.path + b.path, a.escaped + b.escaped)
  }

  lemma SlashBetween(a: UrlPath, b: UrlPath)
    requires EscapedInStep(a) && EscapedInStep(b)
    ensures Decode(a.escaped + "/" + b.escaped) == Some(a.path + "/" + b.path)
  {
    DecodeLiteralFront("/", b.escaped);
    DecodeConcat(a.escaped, "/" + b.escaped);
    Regrouped(a.escaped, "/", b.escaped);
    Regrouped(a.path, "/", b.path);
  }

  /** Whatever is escaped in either path, a slash at the seam included, a non-empty raw result
      still encodes the returned path. */
  lemma JoinedInStep(a: UrlPath, b: UrlPath)
    requires EscapedInStep(a) && EscapedInStep(b)
    ensures var r := JoinURLPath(a, b);
            r.1 != "" ==> Decode(r.1) == Some(r.0)
  {
    if HasPrefix(b.escaped, "/") {
      SlashDecodes(b);
      DecodeConcat(a.escaped, b.escaped[1..]);
    }
    DecodeConcat(a.escaped, b.escaped);
    SlashBetween(a, b);
  }

  /** The result has a raw path exactly when one of the inputs has one, and its path is the
      first path followed by the second, give or take one slash at the seam. */
  lemma JoinKeepsPaths(a: UrlPath, b: UrlPath)
    requires EscapedInStep(a) && EscapedInStep(b)
    ensures var r := JoinURLPath(a, b);
            && (r.1 == "" <==> a.rawPath == "" && b.rawPath == "")
            && HasPrefix(r.0, a.path)
            && var rest := TrimPrefix(r.0, a.path);
               rest == b.path || rest == "/" + b.path || "/" + rest == b.path
  {
    assert a.path + "/" + b.path == a.path + ("/" + b.path);
    if HasPrefix(b.escaped, "/") {
      SlashDecodes(b);
      assert "/" + b.path[1..] == b.path;
    }
    if HasPrefix(b.path, "/") {
      assert "/" + b.path[1..] == b.path;
    }
  }

  /** A join starts with the first path. Taking that off leaves the second path with a slash in
      front, or, if the first one brings a slash itself, the second path less one slash. */
  lemma JoinLeavesSecond(a: string, b: string)
    ensures HasPrefix(SingleJoiningSlash(a, b), a)
    ensures var rest := TrimPrefix(SingleJoiningSlash(a, b), a);
            rest == if HasSuffix(a, "/") then TrimPrefix(b, "/")
                    else if HasPrefix(b, "/") then b else "/" + b
  {
    assert a + "/" + b == a + ("/" + b);
  }

  /** One slash at the seam. Without raw paths it is put there in the paths; with one it is put
      there in the escaped paths, and the path loses or gains exactly the slash they do. */
  lemma JoinSeam(a: UrlPath, b: UrlPath)
    requires EscapedInStep(a) && EscapedInStep(b)
    ensures var r := JoinURLPath(a, b);
            if a.rawPath == "" && b.rawPath == "" then
              r.1 == "" && HasPrefix(r.0, a.path)
              && TrimPrefix(r.0, a.path) == if HasSuffix(a.path, "/") then TrimPrefix(b.path, "/")
                                            else if HasPrefix(b.path, "/") then b.path else "/" + b.path
            else
              && HasPrefix(r.1, a.escaped) && HasPrefix(r.0, a.path)
              && TrimPrefix(r.1, a.escaped) == (if HasSuffix(a.escaped, "/") then TrimPrefix(b.escaped, "/")
                                                else if HasPrefix(b.escaped, "/") then b.escaped else "/" + b.escaped)
              && var rest := TrimPrefix(r.0, a.path);
                 if HasSuffix(a.escaped, "/") && HasPrefix(b.escaped, "/") then "/" + rest == b.path
                 else if HasSuffix(a.escaped, "/") || HasPrefix(b.escaped, "/") then rest == b.path
                 else rest == "/" + b.path
  {
    JoinLeavesSecond(a.path, b.path);
    Regrouped(a.path, "/", b.path);
    Regrouped(a.escaped, "/", b.escaped);
    if HasPrefix(b.escaped, "/") {
      SlashDecodes(b);
      assert b.path == "/" + b.path[1..];
    }
  }
}
