/** When an entry answers a request, said of the texts alone: no pieces, no joining. */
module Matching {
  import opened GoStrings
  import opened MachineWords
  import opened RouterModel
  import opened Routing

  lemma {:induction false} SlashesConcat(a: string, b: string)
    ensures Slashes(a + b) == Slashes(a) + Slashes(b)
  {
    if a == [] {
      assert a + b == b;
    } else {
      SlashesConcat(a[1..], b);
      assert (a + b)[1..] == a[1..] + b;
    }
  }

  lemma {:induction false} PiecesBySlashes(s: string)
    ensures |SplitSlash(s)| == Slashes(s) + 1
  {
    if s != [] {
      PiecesBySlashes(s[1..]);
    }
  }

  /** A cut that ends at a slash, or at the end, is told by the slashes in front of it. */
  predicate CutAt(path: string, cut: nat, slashes: nat) {
    && cut <= |path| && (cut == |path| || path[cut] == '/')
    && Slashes(path[..cut]) == slashes
  }

  lemma CutGrows(path: string, c: nat, d: nat)
    requires c < d <= |path|
    ensures Slashes(path[..d]) >= Slashes(path[..c]) + if path[c] == '/' then 1 else 0
  {
    assert path[..d] == path[..c] + path[c..d];
    SlashesConcat(path[..c], path[c..d]);
    assert path[c..d][0] == path[c];
  }

  lemma OneCut(path: string, c: nat, d: nat, slashes: nat)
    requires CutAt(path, c, slashes) && CutAt(path, d, slashes)
    ensures c == d
  {
    if c < d {
      CutGrows(path, c, d);
    } else if d < c {
      CutGrows(path, d, c);
    }
  }

  lemma CutOfPieces(path: string, n: nat)
    requires 1 <= n <= |SplitSlash(path)|
    ensures var joined := JoinSlash(SplitSlash(path)[..n]);
            CutAt(path, |joined|, n - 1) && path[..|joined|] == joined
  {
    JoinedPiecesEndAtSlash(path, n);
    var joined := JoinSlash(SplitSlash(path)[..n]);
    assert path[..|joined|] == joined;
  }

  lemma WildcardIff(path: string)
    ensures IsWildcard(path) <==> '*' in path || '?' in path || '[' in path || ']' in path
  {
    forall i | 0 <= i < |path| ensures path[i] in "*?[]" <==> path[i] in ['*', '?', '[', ']'] {
    }
    if IsWildcard(path) {
      var i :| 0 <= i < |path| && path[i] in "*?[]";
      assert path[i] in path;
    }
    if c :| c in ['*', '?', '[', ']'] && c in path {
      var i :| 0 <= i < |path| && path[i] == c;
      assert path[i] in "*?[]";
    }
  }

  /** A literal matches every request it is a prefix of. A wildcard is matched against as many
      whole segments of the request as it has itself, and against nothing else. */
  lemma MatchesIff(glob: Glob, pattern: string, path: string)
    ensures Matches(glob, pattern, path) <==>
              if '*' in pattern || '?' in pattern || '[' in pattern || ']' in pattern then
                exists cut: nat ::
                  && cut <= |path| && (cut == |path| || path[cut] == '/')
                  && Slashes(path[..cut]) == Slashes(pattern) && glob(pattern, path[..cut])
              else
                |pattern| <= |path| && path[..|pattern|] == pattern
  {
    WildcardIff(pattern);
    if IsWildcard(pattern) {
      WildcardMatchesIff(glob, pattern, path);
    }
  }

  lemma WildcardMatchesIff(glob: Glob, pattern: string, path: string)
    requires IsWildcard(pattern)
    ensures Matches(glob, pattern, path) <==>
              exists cut: nat :: CutAt(path, cut, Slashes(pattern)) && glob(pattern, path[..cut])
  {
    var n := |SplitSlash(pattern)|;
    PiecesBySlashes(pattern);
    PiecesBySlashes(path);
    if n <= |SplitSlash(path)| {
      CutOfPieces(path, n);
      var joined := JoinSlash(SplitSlash(path)[..n]);
      if cut: nat :| CutAt(path, cut, Slashes(pattern)) && glob(pattern, path[..cut]) {
        OneCut(path, cut, |joined|, Slashes(pattern));
      }
    } else if cut: nat :| CutAt(path, cut, Slashes(pattern)) {
      assert path == path[..cut] + path[cut..];
      SlashesConcat(path[..cut], path[cut..]);
      assert false;
    }
  }

  lemma ServesIff(e: Entry)
    requires |e.handlers| < WORD
    ensures Serves(e) <==> e.handlers != []
  {
  }

  /** A request is refused exactly if no path of the map matches it, as long as no path has
      2^32 handlers. */
  lemma RefusedIff(glob: Glob, r: Router, path: string)
    requires Inv(r) && forall b :: 0 <= b < |r.heap| ==> |r.heap[b].handlers| < WORD
    ensures Route(glob, r, path) == None <==> forall p :: p in r.index ==> !Matches(glob, p, path)
  {
    RouteIsContender(glob, r, path);
    forall p | p in r.index ensures Answers(r, p) {
      ServesIff(r.heap[r.index[p]]);
    }
  }
}
