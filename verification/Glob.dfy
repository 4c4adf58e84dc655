/** The wildcard matcher used for file and URI patterns. */
module Glob {
  function At(s: string, i: nat): char {
    if i < |s| then s[i] else '\0'
  }

  ghost predicate NulFree(s: string) {
    forall k :: 0 <= k < |s| ==> s[k] != '\0'
  }

  // ----- what a pattern without '|' means

  predicate IsDeepStar(p: string) {
    |p| >= 2 && p[0] == '*' && p[1] == '*'
  }

  /** What follows the leading star or stars. */
  function AfterStar(p: string): string
    requires p != "" && p[0] == '*'
  {
    if IsDeepStar(p) then p[2..] else p[1..]
  }

  /** A star may stand for the first k characters of s; a single one not for a '/'. */
  ghost predicate StarMatches(p: string, s: string, k: nat) {
    k <= |s| && (IsDeepStar(p) || forall i :: 0 <= i < k ==> s[i] != '/')
  }

  /** Pattern p matches the first n characters of s.  `$` demands the end of s, and
      whatever follows it in the pattern is not looked at. */
  ghost predicate Matches(p: string, s: string, n: nat)
    decreases |p|
  {
    if p == "" then n == 0
    else if p[0] == '$' then s == "" && n == 0
    else if |p| >= 2 && p[0] == '*' && p[1] == '*' then
      exists k :: 0 <= k <= n && k <= |s| && Matches(p[2..], s[k..], n - k)
    else if p[0] == '*' then
      exists k :: 0 <= k <= n && k <= |s| && '/' !in s[..k] && Matches(p[1..], s[k..], n - k)
    else s != "" && n >= 1 && (p[0] == '?' || p[0] == s[0]) && Matches(p[1..], s[1..], n - 1)
  }

  /** A leading star or two, either way. */
  lemma {:induction false} StarMeans(p: string, s: string, n: nat, k: nat)
    requires p != "" && p[0] == '*' && k <= n && StarMatches(p, s, k) && Matches(AfterStar(p), s[k..], n - k)
    ensures Matches(p, s, n)
  {
    if !IsDeepStar(p) { assert '/' !in s[..k]; }
  }

  lemma {:induction false} StarNeeds(p: string, s: string, n: nat) returns (k: nat)
    requires p != "" && p[0] == '*' && Matches(p, s, n)
    ensures k <= n && StarMatches(p, s, k) && Matches(AfterStar(p), s[k..], n - k)
  {
    if IsDeepStar(p) {
      k :| k <= n && k <= |s| && Matches(p[2..], s[k..], n - k);
    } else {
      k :| k <= n && k <= |s| && '/' !in s[..k] && Matches(p[1..], s[k..], n - k);
      forall i | 0 <= i < k ensures s[i] != '/' { assert s[..k][i] == s[i]; }
    }
  }

  // ----- what the matcher computes

  /** The most a leading star may stand for. */
  function StarReach(p: string, s: string): (len: nat)
    ensures len <= |s| && StarMatches(p, s, len)
    ensures len < |s| ==> !IsDeepStar(p) && s[len] == '/'
  {
    if s == "" || (!IsDeepStar(p) && s[0] == '/') then 0
    else
      var n := StarReach(p, s[1..]);
      assert forall i :: 1 <= i < |s| ==> s[i] == s[1..][i - 1];
      n + 1
  }

  function Plus(k: nat, r: int): int {
    if r == -1 then -1 else k + r
  }

  /** How much of s the pattern matches, or -1. */
  function Match(p: string, s: string): (r: int)
    ensures -1 <= r <= |s|
    decreases |p|, 1, 0
  {
    if p == "" then 0
    else if p[0] == '$' then if s == "" then 0 else -1
    else if p[0] == '*' then MatchAfter(p, s, StarReach(p, s))
    else if s == "" || (p[0] != '?' && p[0] != s[0]) then -1
    else Plus(1, Match(p[1..], s[1..]))
  }

  /** Lets the leading star stand for k characters, and fewer if that fails. */
  function MatchAfter(p: string, s: string, k: nat): (r: int)
    requires p != "" && p[0] == '*' && k <= |s|
    ensures -1 <= r <= |s|
    decreases |p|, 0, k
  {
    assert |AfterStar(p)| < |p|;
    var r := Match(AfterStar(p), s[k..]);
    if r != -1 then k + r else if k == 0 then -1 else MatchAfter(p, s, k - 1)
  }

  /** The stretch the star ends up standing for: the longest that lets the rest match. */
  lemma {:induction false} StarChoice(p: string, s: string, k: nat) returns (i: nat)
    requires p != "" && p[0] == '*' && k <= |s| && MatchAfter(p, s, k) != -1
    ensures i <= k && Match(AfterStar(p), s[i..]) != -1
    ensures MatchAfter(p, s, k) == i + Match(AfterStar(p), s[i..])
    ensures forall m :: i < m <= k ==> Match(AfterStar(p), s[m..]) == -1
    decreases k
  {
    i := k;
    if Match(AfterStar(p), s[k..]) == -1 { i := StarChoice(p, s, k - 1); }
  }

  lemma {:induction false} NoStarChoice(p: string, s: string, k: nat, i: nat)
    requires p != "" && p[0] == '*' && i <= k <= |s| && MatchAfter(p, s, k) == -1
    ensures Match(AfterStar(p), s[i..]) == -1
    decreases k
  {
    if i < k { NoStarChoice(p, s, k - 1, i); }
  }

  /** Soundness: a length the matcher returns is one the pattern matches. */
  lemma {:induction false} MatchIsSound(p: string, s: string)
    requires Match(p, s) != -1
    ensures Matches(p, s, Match(p, s))
    decreases |p|
  {
    if p == "" || p[0] == '$' {
    } else if p[0] == '*' {
      var k, n := StarIsSound(p, s);
      StarMeans(p, s, k + n, k);
    } else {
      MatchIsSound(p[1..], s[1..]);
    }
  }

  lemma {:induction false} StarIsSound(p: string, s: string) returns (k: nat, n: nat)
    requires p != "" && p[0] == '*' && Match(p, s) != -1
    ensures StarMatches(p, s, k) && Matches(AfterStar(p), s[k..], n) && Match(p, s) == k + n
    decreases |p|, 0
  {
    k := StarChoice(p, s, StarReach(p, s));
    n := Match(AfterStar(p), s[k..]);
    MatchIsSound(AfterStar(p), s[k..]);
    WithinReach(p, s, k);
  }

  lemma {:induction false} WithinReach(p: string, s: string, k: nat)
    requires k <= StarReach(p, s)
    ensures StarMatches(p, s, k)
  {
  }

  /** Completeness: -1 means that the pattern matches no prefix at all. */
  lemma {:induction false} MatchIsComplete(p: string, s: string, n: nat)
    requires Match(p, s) == -1
    ensures !Matches(p, s, n)
    decreases |p|
  {
    if p == "" || p[0] == '$' {
    } else if p[0] == '*' {
      if Matches(p, s, n) {
        var k := StarNeeds(p, s, n);
        assert k <= StarReach(p, s);
        NoStarChoice(p, s, StarReach(p, s), k);
        MatchIsComplete(AfterStar(p), s[k..], n - k);
      }
    } else if s != "" && n >= 1 && (p[0] == '?' || p[0] == s[0]) {
      MatchIsComplete(p[1..], s[1..], n - 1);
    }
  }

  /** The matcher finds a length exactly when the pattern matches some prefix, and the
      length it finds is one of those. */
  lemma {:induction false} MatchIsRight(p: string, s: string)
    ensures Match(p, s) != -1 <==> exists n: nat :: Matches(p, s, n)
    ensures Match(p, s) != -1 ==> Matches(p, s, Match(p, s))
  {
    if Match(p, s) != -1 {
      MatchIsSound(p, s);
      var n: nat := Match(p, s);
      assert Matches(p, s, n);
    } else {
      forall n: nat ensures !Matches(p, s, n) { MatchIsComplete(p, s, n); }
    }
  }

  /** Stars are greedy: the first one stands for as much as lets the rest match. */
  lemma {:induction false} StarIsGreedy(p: string, s: string) returns (k: nat)
    requires p != "" && p[0] == '*' && Match(p, s) != -1
    ensures StarMatches(p, s, k) && Match(p, s) == k + Match(AfterStar(p), s[k..])
    ensures forall m, n: nat :: k < m && StarMatches(p, s, m) ==> !Matches(AfterStar(p), s[m..], n)
  {
    var reach := StarReach(p, s);
    k := StarChoice(p, s, reach);
    forall m, n: nat | k < m && StarMatches(p, s, m) ensures !Matches(AfterStar(p), s[m..], n) {
      assert m <= reach;
      MatchIsComplete(AfterStar(p), s[m..], n);
    }
  }

  // ----- alternatives

  /** memchr(s, c), or -1. */
  function IndexOf(s: string, c: char): (i: int)
    ensures -1 <= i < |s|
    ensures i >= 0 ==> s[i] == c && forall k :: 0 <= k < i ==> s[k] != c
    ensures i == -1 ==> forall k :: 0 <= k < |s| ==> s[k] != c
  {
    if s == "" then -1
    else if s[0] == c then 0
    else
      var i := IndexOf(s[1..], c);
      assert forall k :: 1 <= k < |s| ==> s[k] == s[1..][k - 1];
      if i == -1 then -1 else i + 1
  }

  /** The pattern cut at every bar. */
  function Alternatives(p: string): (alts: seq<string>)
    ensures |alts| >= 1
    decreases |p|
  {
    var i := IndexOf(p, '|');
    if i == -1 then [p] else [p[..i]] + Alternatives(p[i + 1..])
  }

  function Join(alts: seq<string>): string
    requires alts != []
  {
    if |alts| == 1 then alts[0] else alts[0] + "|" + Join(alts[1..])
  }

  /** Cutting loses nothing and leaves no bar behind. */
  lemma {:induction false} AlternativesJoin(p: string)
    ensures Join(Alternatives(p)) == p
    ensures forall k :: 0 <= k < |Alternatives(p)| ==> IndexOf(Alternatives(p)[k], '|') == -1
    decreases |p|
  {
    var i := IndexOf(p, '|');
    if i != -1 {
      assert IndexOf(p[..i], '|') == -1;
      AlternativesJoin(p[i + 1..]);
      assert p == p[..i] + "|" + p[i + 1..];
      assert Alternatives(p)[1..] == Alternatives(p[i + 1..]);
    }
  }

  /** The first alternative that matches a non-empty prefix, else the last one. */
  function AnyOf(alts: seq<string>, s: string): int
    requires alts != []
  {
    if |alts| == 1 then Match(alts[0], s)
    else
      var r := Match(alts[0], s);
      if r > 0 then r else AnyOf(alts[1..], s)
  }

  function MatchAny(p: string, s: string): int {
    AnyOf(Alternatives(p), s)
  }

  /** Alternative i decides: it matches something or is the last one, and none before
      it matches anything. */
  ghost predicate Decides(alts: seq<string>, s: string, i: nat) {
    && i < |alts|
    && (i == |alts| - 1 || Match(alts[i], s) > 0)
    && forall k :: 0 <= k < i ==> Match(alts[k], s) <= 0
  }

  /** Exactly one alternative decides, and its answer is the answer.  An earlier
      alternative that matches only the empty string is passed over. */
  lemma {:induction false} OneDecides(alts: seq<string>, s: string) returns (i: nat)
    requires alts != []
    ensures Decides(alts, s, i) && AnyOf(alts, s) == Match(alts[i], s)
    ensures forall j :: Decides(alts, s, j) ==> j == i
  {
    i := 0;
    if |alts| > 1 && Match(alts[0], s) <= 0 {
      i := OneDecides(alts[1..], s);
      i := i + 1;
      assert alts[i] == alts[1..][i - 1];
      assert forall k :: 1 <= k < |alts| ==> alts[k] == alts[1..][k - 1];
    }
    DecidesAlone(alts, s, i);
  }

  lemma {:induction false} DecidesAlone(alts: seq<string>, s: string, i: nat)
    requires Decides(alts, s, i)
    ensures forall j :: Decides(alts, s, j) ==> j == i
  {
  }

  lemma {:induction false} FirstBar(p: string, s: string)
    requires IndexOf(p, '|') != -1
    ensures var i := IndexOf(p, '|');
            var r := MatchAny(p[..i], s);
            MatchAny(p, s) == if r > 0 then r else MatchAny(p[i + 1..], s)
  {
    var i := IndexOf(p, '|');
    assert IndexOf(p[..i], '|') == -1;
    assert Alternatives(p)[1..] == Alternatives(p[i + 1..]);
  }

  // ----- the matcher

  /** strcspn(s + from, "/"), or strlen(s + from) for a double star. */
  method StarLength(s: string, from: nat, deep: bool) returns (len: nat)
    requires from <= |s|
    ensures from + len <= |s|
    ensures deep || forall i :: from <= i < from + len ==> s[i] != '/'
    ensures from + len < |s| ==> !deep && s[from + len] == '/'
  {
    len := 0;
    while from + len < |s| && (deep || s[from + len] != '/')
      invariant from + len <= |s|
      invariant deep || forall i :: from <= i < from + len ==> s[i] != '/'
    {
      len := len + 1;
    }
  }

  lemma {:induction false} ReachIs(p: string, s: string, len: nat)
    requires StarMatches(p, s, len)
    requires len < |s| ==> !IsDeepStar(p) && s[len] == '/'
    ensures len == StarReach(p, s)
  {
    assert StarMatches(p, s, StarReach(p, s));
  }

  lemma {:induction false} OneMore(p: string, s: string, i: nat, j: nat)
    requires i < |p| && j < |s| && p[i] != '*' && p[i] != '$' && (p[i] == '?' || p[i] == s[j])
    ensures Plus(j, Match(p[i..], s[j..])) == Plus(j + 1, Match(p[i + 1..], s[j + 1..]))
  {
    assert p[i..][1..] == p[i + 1..] && s[j..][1..] == s[j + 1..];
  }

  method MatchPrefix(pattern: string, str: string) returns (res: int)
    requires NulFree(pattern) && NulFree(str)
    ensures res == MatchAny(pattern, str)
    decreases |pattern|, 2
  {
    var or := IndexOf(pattern, '|');
    if or != -1 {
      FirstBar(pattern, str);
      res := MatchPrefix(pattern[..or], str);
      if res <= 0 {
        res := MatchPrefix(pattern[or + 1..], str);
      }
    } else {
      res := MatchOne(pattern, str);
    }
  }

  /** The loop of the matcher, for a pattern without bars. */
  method MatchOne(pattern: string, str: string) returns (res: int)
    requires NulFree(pattern) && NulFree(str) && IndexOf(pattern, '|') == -1
    ensures res == Match(pattern, str)
    decreases |pattern|, 1
  {
    var i, j := 0, 0;
    while i < |pattern|
      invariant i <= |pattern| && j <= |str|
      invariant Match(pattern, str) == Plus(j, Match(pattern[i..], str[j..]))
    {
      ghost var p := pattern[i..];
      if pattern[i] == '?' && At(str, j) != '\0' {
        OneMore(pattern, str, i, j);
      } else if pattern[i] == '$' {
        return if At(str, j) == '\0' then j else -1;
      } else if pattern[i] == '*' {
        i := i + 1;
        var deep := At(pattern, i) == '*';
        if deep {
          i := i + 1;
        }
        assert pattern[i..] == AfterStar(p);
        res := MatchStar(pattern[i..], str, j, deep, p);
        return;
      } else if pattern[i] != At(str, j) {
        return -1;
      } else {
        OneMore(pattern, str, i, j);
      }
      i, j := i + 1, j + 1;
    }
    res := j;
  }

  /** Tries the longest stretch the star may stand for, then shorter ones. */
  method MatchStar(rest: string, str: string, j: nat, deep: bool, ghost p: string) returns (res: int)
    requires NulFree(rest) && NulFree(str) && j <= |str| && IndexOf(rest, '|') == -1
    requires p != "" && p[0] == '*' && rest == AfterStar(p) && deep == IsDeepStar(p)
    ensures res == Plus(j, Match(p, str[j..]))
    decreases |rest|, 3
  {
    ghost var s := str[j..];
    var len := StarLength(str, j, deep);
    assert len == StarReach(p, s) by {
      assert forall i :: 0 <= i < |s| ==> s[i] == str[j + i];
      ReachIs(p, s, len);
    }
    if rest == "" {
      assert MatchAfter(p, s, len) == len;
      return j + len;
    }
    assert s[len..] == str[j + len..];
    res := MatchPrefix(rest, str[j + len..]);
    while res == -1 && len > 0
      invariant len <= |s| && res == Match(rest, s[len..])
      invariant MatchAfter(p, s, len) == MatchAfter(p, s, StarReach(p, s))
    {
      len := len - 1;
      assert s[len..] == str[j + len..];
      res := MatchPrefix(rest, str[j + len..]);
    }
    res := if res == -1 then -1 else j + res + len;
  }
}
