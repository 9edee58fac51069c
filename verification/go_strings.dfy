/** The part of Go's `strings` package that routing and rewriting rely on.
    A `char` stands for one byte of a Go string, so `|s|` is Go's `len(s)`. */
module GoStrings {

  datatype Option<+T> = None | Some(value: T)

  predicate HasPrefix(s: string, prefix: string) {
    prefix <= s
  }

  predicate HasSuffix(s: string, suffix: string) {
    |suffix| <= |s| && s[|s| - |suffix|..] == suffix
  }

  function TrimPrefix(s: string, prefix: string): string {
    if prefix <= s then s[|prefix|..] else s
  }

  /** strings.Split(s, "/"): always at least one piece. */
  function SplitSlash(s: string): (parts: seq<string>)
    ensures |parts| >= 1
  {
    if s == [] then [""]
    else
      var rest := SplitSlash(s[1..]);
      if s[0] == '/' then [""] + rest else [[s[0]] + rest[0]] + rest[1..]
  }

  /** strings.Join(parts, "/"). */
  function JoinSlash(parts: seq<string>): string {
    if parts == [] then ""
    else if |parts| == 1 then parts[0]
    else parts[0] + "/" + JoinSlash(parts[1..])
  }

  /** Cutting a path into pieces and gluing the first n of them gives a prefix of the path
      that stops exactly at the end or in front of a slash, and holds n - 1 slashes. */
  lemma {:induction false} JoinedPiecesEndAtSlash(s: string, n: nat)
    requires 1 <= n <= |SplitSlash(s)|
    ensures HasPrefix(s, JoinSlash(SplitSlash(s)[..n]))
    ensures var cut := |JoinSlash(SplitSlash(s)[..n])|;
            if n == |SplitSlash(s)| then cut == |s| else cut < |s| && s[cut] == '/'
    ensures Slashes(JoinSlash(SplitSlash(s)[..n])) == n - 1
  {
    if s == [] {
      assert SplitSlash(s)[..n] == [""];
    } else {
      var rest := SplitSlash(s[1..]);
      if s[0] == '/' {
        if n == 1 {
          assert SplitSlash(s)[..n] == [""];
        } else {
          JoinedPiecesEndAtSlash(s[1..], n - 1);
          assert SplitSlash(s)[..n] == [""] + rest[..n - 1];
          assert SplitSlash(s)[..n][1..] == rest[..n - 1];
          var tail := JoinSlash(rest[..n - 1]);
          assert JoinSlash(SplitSlash(s)[..n]) == "/" + tail;
          assert ("/" + tail)[1..] == tail;
        }
      } else {
        JoinedPiecesEndAtSlash(s[1..], n);
        PrependToFirst(s[0], rest[..n]);
        assert SplitSlash(s)[..n] == [[s[0]] + rest[..n][0]] + rest[..n][1..];
        var tail := JoinSlash(rest[..n]);
        assert ([s[0]] + tail)[1..] == tail;
      }
    }
  }

  function Slashes(s: string): nat {
    if s == [] then 0 else (if s[0] == '/' then 1 else 0) + Slashes(s[1..])
  }

  lemma PrependToFirst(c: char, parts: seq<string>)
    requires |parts| >= 1
    ensures JoinSlash([[c] + parts[0]] + parts[1..]) == [c] + JoinSlash(parts)
  {
    var changed := [[c] + parts[0]] + parts[1..];
    if |parts| == 1 {
      assert changed == [[c] + parts[0]];
    } else {
      assert changed[1..] == parts[1..];
    }
  }
}
