/** Looking values up in a parsed text.  The lookups walk the flat token array and
    write NULs into the text itself, so that keys and values become C strings. */
module JsonLookup {
  import opened JsmnSpec
  import opened JsonForest
  import opened JsonGrammar
  import opened Numbers

  // ----- navigation

  /** The listing of t begins at index i of toks. */
  ghost predicate ListedAt(toks: seq<Token>, i: nat, t: Tree) {
    var f := Flatten(t);
    i + |f| <= |toks| && forall k :: 0 <= k < |f| ==> toks[i + k] == f[k]
  }

  /** The index, relative to its parent, of child n. */
  ghost function KidOffset(t: Tree, n: nat): nat
    requires n <= |t.kids|
  {
    1 + |FlattenAll(t.kids[..n])|
  }

  lemma {:induction false} KidListed(toks: seq<Token>, i: nat, t: Tree, n: nat)
    requires ListedAt(toks, i, t) && n < |t.kids|
    ensures ListedAt(toks, i + KidOffset(t, n), t.kids[n])
    ensures KidOffset(t, n + 1) == KidOffset(t, n) + |Flatten(t.kids[n])|
    ensures i + KidOffset(t, n + 1) <= i + |Flatten(t)| <= |toks|
  {
    var before, kid, after := t.kids[..n], t.kids[n], t.kids[n + 1..];
    assert t.kids == before + ([kid] + after) && t.kids[..n + 1] == before + [kid];
    FlattenAllAppend(before, [kid] + after);
    FlattenAllAppend([kid], after);
    FlattenAllAppend(before, [kid]);
    FlattenOne(kid);
    var f := Flatten(t);
    assert f == [Root(t)] + (FlattenAll(before) + (Flatten(kid) + FlattenAll(after)));
    forall k | 0 <= k < |Flatten(kid)|
      ensures toks[i + KidOffset(t, n) + k] == Flatten(kid)[k]
    {
      assert f[KidOffset(t, n) + k] == Flatten(kid)[k];
    }
  }

  lemma {:induction false} KidRoot(toks: seq<Token>, i: nat, t: Tree, n: nat)
    requires ListedAt(toks, i, t) && n < |t.kids|
    ensures i + KidOffset(t, n) < |toks| && toks[i + KidOffset(t, n)] == Root(t.kids[n])
  {
    KidListed(toks, i, t, n);
    assert toks[i + KidOffset(t, n) + 0] == Flatten(t.kids[n])[0];
  }

  /** The value whose token has index i. */
  function SubtreeAt(ts: seq<Tree>, i: nat): Tree
    requires i < |FlattenAll(ts)|
    decreases ts
  {
    var n := |Flatten(ts[0])|;
    if i == 0 then ts[0]
    else if i < n then SubtreeAt(ts[0].kids, i - 1)
    else SubtreeAt(ts[1..], i - n)
  }

  /** What is listed in a part of the tokens is listed in the whole. */
  lemma {:induction false} ListedInside(before: seq<Token>, part: seq<Token>, after: seq<Token>, i: nat, t: Tree)
    requires ListedAt(part, i, t)
    ensures ListedAt(before + (part + after), |before| + i, t)
  {
  }

  lemma {:induction false} SubtreeListed(ts: seq<Tree>, i: nat)
    requires i < |FlattenAll(ts)|
    ensures ListedAt(FlattenAll(ts), i, SubtreeAt(ts, i))
    decreases ts
  {
    var first, rest := Flatten(ts[0]), FlattenAll(ts[1..]);
    if i == 0 {
      ListedInside([], first, rest, 0, ts[0]);
      assert first + rest == [] + (first + rest);
    } else if i < |first| {
      SubtreeListed(ts[0].kids, i - 1);
      ListedInKids(ts[0], rest, i - 1, SubtreeAt(ts, i));
    } else {
      SubtreeListed(ts[1..], i - |first|);
      ListedInside(first, rest, [], i - |first|, SubtreeAt(ts, i));
      assert first + rest == first + (rest + []);
    }
  }

  lemma {:induction false} ListedInKids(parent: Tree, rest: seq<Token>, i: nat, t: Tree)
    requires ListedAt(FlattenAll(parent.kids), i, t)
    ensures ListedAt(Flatten(parent) + rest, i + 1, t)
  {
    var kids := FlattenAll(parent.kids);
    ListedInside([Root(parent)], kids, rest, i, t);
    assert Flatten(parent) + rest == [Root(parent)] + (kids + rest);
  }

  /** Skipping the item at i lands just past everything in it. */
  method SkipItem(tokens: array<Token>, i: nat, ghost t: Tree) returns (j: nat)
    requires ListedAt(tokens[..], i, t)
    ensures j == i + |Flatten(t)| <= tokens.Length
    decreases t
  {
    ghost var toks := tokens[..];
    assert toks[i + 0] == Flatten(t)[0];
    var n := tokens[i].size;
    j := i + 1;
    if n == 0 {
      return j;
    }
    for k := 0 to n
      invariant j == i + KidOffset(t, k)
    {
      KidListed(toks, i, t, k);
      j := SkipItem(tokens, j, t.kids[k]);
    }
    assert t.kids[..n] == t.kids;
  }

  // ----- the text being carved up

  predicate IsLeaf(k: Kind) {
    k == String || k == Primitive
  }

  /** The characters a lookup may overwrite: those just behind a string or primitive. */
  ghost predicate LeafEnd(toks: seq<Token>, p: int) {
    exists i :: 0 <= i < |toks| && IsLeaf(toks[i].kind) && toks[i].end == p
  }

  /** The result of a successful parse. */
  ghost predicate Parsed(js: string, ts: seq<Tree>) {
    SpellsAll(js, ts, 0, |js|) && forall k :: 0 <= k < |js| ==> js[k] != '\0'
  }

  /** The buffer still holds the text, but for NULs behind some leaves. */
  ghost predicate Intact(b: seq<char>, js: string, toks: seq<Token>) {
    && |b| > |js| && b[|js|] == '\0'
    && forall p :: 0 <= p < |js| ==> b[p] == js[p] || (b[p] == '\0' && LeafEnd(toks, p))
  }

  /** Going from a to b, characters only ever became NUL. */
  ghost predicate Carved(a: seq<char>, b: seq<char>) {
    |a| == |b| && forall p :: 0 <= p < |a| ==> b[p] == a[p] || b[p] == '\0'
  }

  function TokenLo(t: Token): int {
    LoOf(t.kind, t.start)
  }

  function TokenHi(t: Token): int {
    HiOf(t.kind, t.end)
  }

  ghost predicate SpellsLeaf(js: string, t: Token) {
    IsLeaf(t.kind) ==> t.start >= 0 && t.end >= 0 && Spells(js, Tree(t.kind, t.start, t.end, []))
  }

  ghost predicate Within(js: string, toks: seq<Token>, lo: int, hi: int) {
    forall i :: 0 <= i < |toks| ==>
      lo <= TokenLo(toks[i]) && TokenHi(toks[i]) <= hi && toks[i].start <= toks[i].end && SpellsLeaf(js, toks[i])
  }

  /** Everything listed after a leaf lies behind it in the text. */
  ghost predicate LeavesInOrder(toks: seq<Token>) {
    forall i, j :: 0 <= i < j < |toks| && IsLeaf(toks[i].kind) ==> TokenHi(toks[i]) <= TokenLo(toks[j])
  }

  lemma {:induction false} ListingOrdered(js: string, t: Tree)
    requires Spells(js, t)
    ensures Within(js, Flatten(t), Lo(t), Hi(t)) && LeavesInOrder(Flatten(t))
    decreases t
  {
    SpellsOrdered(js, t);
    if IsLeaf(t.kind) {
      assert Flatten(t) == [Root(t)];
    } else {
      ForestOrdered(js, t.kids, t.start + 1, t.end - 1);
    }
  }

  lemma {:induction false} ForestOrdered(js: string, ts: seq<Tree>, lo: int, hi: int)
    requires SpellsAll(js, ts, lo, hi)
    ensures Within(js, FlattenAll(ts), lo, hi) && LeavesInOrder(FlattenAll(ts))
    decreases ts
  {
    if ts != [] {
      SpellsOrdered(js, ts[0]);
      SpellsAllBounds(js, ts[1..], Hi(ts[0]), hi);
      ListingOrdered(js, ts[0]);
      ForestOrdered(js, ts[1..], Hi(ts[0]), hi);
    }
  }

  /** A leaf listed before another ends before the other begins. */
  lemma {:induction false} LeavesApart(js: string, b: Token, a: Token)
    requires IsLeaf(a.kind) && IsLeaf(b.kind) && SpellsLeaf(js, a) && SpellsLeaf(js, b)
    requires TokenHi(b) <= TokenLo(a)
    ensures b.end < a.start
  {
    assert b.kind == Primitive ==> IsDelimiter(At(js, b.end)) || At(js, b.end) == '\0';
    assert a.kind == Primitive ==> StartsPrimitive(At(js, a.start));
  }

  /** No write of one lookup falls inside the text of any string or primitive. */
  lemma {:induction false} WritesMissLeaves(js: string, ts: seq<Tree>, a: nat, p: int)
    requires Parsed(js, ts) && a < |FlattenAll(ts)|
    requires IsLeaf(FlattenAll(ts)[a].kind) && LeafEnd(FlattenAll(ts), p)
    ensures var t := FlattenAll(ts)[a]; 0 <= t.start <= t.end <= |js| && !(t.start <= p < t.end)
  {
    var toks := FlattenAll(ts);
    ForestOrdered(js, ts, 0, |js|);
    var b :| 0 <= b < |toks| && IsLeaf(toks[b].kind) && toks[b].end == p;
    assert SpellsLeaf(js, toks[a]) && SpellsLeaf(js, toks[b]);
    if b < a { LeavesApart(js, toks[b], toks[a]); }
  }

  // ----- C strings in the buffer

  function CString(b: seq<char>, i: nat): string
    decreases |b| - i
  {
    if i >= |b| || b[i] == '\0' then "" else [b[i]] + CString(b, i + 1)
  }

  lemma {:induction false} CStringIs(b: seq<char>, i: nat, e: nat)
    requires i <= e < |b| && b[e] == '\0' && forall k :: i <= k < e ==> b[k] != '\0'
    ensures CString(b, i) == b[i..e]
    decreases e - i
  {
    if i < e {
      CStringIs(b, i + 1, e);
      assert b[i..e] == [b[i]] + b[i + 1..e];
    }
  }

  /** The text of a leaf, ended by a NUL, reads back as it was in the original text. */
  lemma {:induction false} LeafReadsBack(b: seq<char>, js: string, ts: seq<Tree>, a: nat)
    requires Parsed(js, ts) && Intact(b, js, FlattenAll(ts)) && a < |FlattenAll(ts)|
    requires IsLeaf(FlattenAll(ts)[a].kind)
    ensures var t := FlattenAll(ts)[a];
            && 0 <= t.start <= t.end <= |js|
            && (b[t.end] == '\0' ==> CString(b, t.start) == js[t.start..t.end])
  {
    var toks := FlattenAll(ts);
    var t := toks[a];
    assert LeafEnd(toks, t.end);
    WritesMissLeaves(js, ts, a, t.end);
    forall p | t.start <= p < t.end
      ensures b[p] == js[p]
    {
      if LeafEnd(toks, p) { WritesMissLeaves(js, ts, a, p); }
    }
    if b[t.end] == '\0' {
      CStringIs(b, t.start, t.end);
      assert b[t.start..t.end] == js[t.start..t.end];
    }
  }

  /** strcmp, as a test for equality. */
  method SameString(key: string, buf: array<char>, start: nat) returns (same: bool)
    requires forall k :: 0 <= k < |key| ==> key[k] != '\0'
    requires exists e :: start <= e < buf.Length && buf[e] == '\0'
    ensures same <==> key == CString(buf[..], start)
  {
    var k := 0;
    while true
      invariant k <= |key| && start + k < buf.Length
      invariant exists e :: start + k <= e < buf.Length && buf[e] == '\0'
      invariant key == CString(buf[..], start) <==> key[k..] == CString(buf[..], start + k)
      decreases |key| - k
    {
      var c := buf[start + k];
      if k == |key| || c == '\0' {
        return k == |key| && c == '\0';
      }
      if key[k] != c {
        assert key[k..][0] != CString(buf[..], start + k)[0];
        return false;
      }
      assert key[k..] == [c] + key[k + 1..];
      k := k + 1;
    }
  }

  /** Ends the leaf with index a with a NUL. */
  method Terminate(tokens: array<Token>, a: nat, buf: array<char>, ghost js: string, ghost ts: seq<Tree>)
    requires Parsed(js, ts) && FlattenAll(ts) <= tokens[..] && a < |FlattenAll(ts)|
    requires IsLeaf(tokens[a].kind) && Intact(buf[..], js, FlattenAll(ts))
    modifies buf
    ensures Intact(buf[..], js, FlattenAll(ts))
    ensures Carved(old(buf[..]), buf[..])
    ensures 0 <= tokens[a].start <= tokens[a].end <= |js| && buf[tokens[a].end] == '\0'
    ensures CString(buf[..], tokens[a].start) == js[tokens[a].start..tokens[a].end]
  {
    ghost var toks := FlattenAll(ts);
    assert toks[a] == tokens[a];
    LeafReadsBack(buf[..], js, ts, a);
    assert LeafEnd(toks, tokens[a].end);
    buf[tokens[a].end] := '\0';
    LeafReadsBack(buf[..], js, ts, a);
  }

  // ----- the lookups

  /** Member m of an object answers a query: its key is a string with the text
      asked for, and its value is of the kind asked for. */
  predicate Hit(js: string, kids: seq<Tree>, m: nat, key: string, kind: Kind)
    requires 2 * m + 1 < |kids|
  {
    var k := kids[2 * m];
    k.kind == String && k.start <= k.end <= |js| && js[k.start..k.end] == key && kids[2 * m + 1].kind == kind
  }

  /** The first member at or after m that answers the query. */
  function FirstHit(js: string, kids: seq<Tree>, m: nat, key: string, kind: Kind): (r: int)
    requires m <= |kids| / 2
    ensures -1 <= r < |kids| / 2
    ensures r == -1 <==> forall n :: m <= n < |kids| / 2 ==> !Hit(js, kids, n, key, kind)
    ensures r != -1 ==> m <= r && Hit(js, kids, r, key, kind) && forall n :: m <= n < r ==> !Hit(js, kids, n, key, kind)
    decreases |kids| - m
  {
    if m == |kids| / 2 then -1
    else if Hit(js, kids, m, key, kind) then m
    else FirstHit(js, kids, m + 1, key, kind)
  }

  /** What looking `key` up in the object at index i means on the untouched text:
      the index of the value of the first member that answers, or -1. */
  ghost function Lookup(js: string, ts: seq<Tree>, i: nat, key: string, kind: Kind): (r: int)
    requires i < |FlattenAll(ts)|
    ensures r == -1 || 0 <= r < |FlattenAll(ts)|
    ensures r != -1 ==> FlattenAll(ts)[r].kind == kind
  {
    var t := SubtreeAt(ts, i);
    if t.kind != Object then -1
    else
      var m := FirstHit(js, t.kids, 0, key, kind);
      if m == -1 then -1
      else
        SubtreeListed(ts, i);
        KidRoot(FlattenAll(ts), i, t, 2 * m + 1);
        i + KidOffset(t, 2 * m + 1)
  }

  ghost predicate ValidKey(key: string) {
    forall k :: 0 <= k < |key| ==> key[k] != '\0'
  }

  /** Where member m of the object at index i is listed. */
  lemma {:induction false} MemberListed(toks: seq<Token>, tokens: seq<Token>, i: nat, t: Tree, m: nat)
    requires toks <= tokens && ListedAt(toks, i, t) && 2 * m + 1 < |t.kids|
    ensures var j, k, v := i + KidOffset(t, 2 * m), t.kids[2 * m], t.kids[2 * m + 1];
            && ListedAt(tokens, j, k) && ListedAt(tokens, j + |Flatten(k)|, v)
            && j + |Flatten(k)| < |toks|
            && tokens[j] == Root(k) && tokens[j + |Flatten(k)|] == Root(v)
            && j + |Flatten(k)| + |Flatten(v)| == i + KidOffset(t, 2 * (m + 1))
  {
    var j, k, v := i + KidOffset(t, 2 * m), t.kids[2 * m], t.kids[2 * m + 1];
    KidListed(toks, i, t, 2 * m);
    KidListed(toks, i, t, 2 * m + 1);
    assert toks[j + 0] == Flatten(k)[0];
    assert toks[j + |Flatten(k)| + 0] == Flatten(v)[0];
  }

  /** Tests the member whose key is listed at index j. */
  method TryMember(tokens: array<Token>, j: nat, buf: array<char>, key: string, kind: Kind,
                   ghost js: string, ghost ts: seq<Tree>, ghost i: nat, ghost m: nat) returns (hit: bool)
    requires Parsed(js, ts) && FlattenAll(ts) <= tokens[..] && i < |FlattenAll(ts)|
    requires ValidKey(key) && Intact(buf[..], js, FlattenAll(ts))
    requires var t := SubtreeAt(ts, i);
             t.kind == Object && 2 * m + 1 < |t.kids| && j == i + KidOffset(t, 2 * m)
    modifies buf
    ensures Intact(buf[..], js, FlattenAll(ts))
    ensures Carved(old(buf[..]), buf[..])
    ensures hit <==> Hit(js, SubtreeAt(ts, i).kids, m, key, kind)
  {
    ghost var t := SubtreeAt(ts, i);
    SubtreeListed(ts, i);
    MemberListed(FlattenAll(ts), tokens[..], i, t, m);
    if tokens[j].kind != String {
      return false;
    }
    StringIsLeaf(js, ts, i, 2 * m);
    assert Flatten(t.kids[2 * m]) == [Root(t.kids[2 * m])];
    Terminate(tokens, j, buf, js, ts);
    var same := SameString(key, buf, tokens[j].start);
    return same && tokens[j + 1].kind == kind;
  }

  method SkipMember(tokens: array<Token>, j: nat, ghost toks: seq<Token>, ghost i: nat, ghost t: Tree, ghost m: nat)
      returns (next: nat)
    requires toks <= tokens[..] && ListedAt(toks, i, t) && 2 * m + 1 < |t.kids| && j == i + KidOffset(t, 2 * m)
    ensures next == i + KidOffset(t, 2 * (m + 1))
  {
    MemberListed(toks, tokens[..], i, t, m);
    next := SkipItem(tokens, j, t.kids[2 * m]);
    next := SkipItem(tokens, next, t.kids[2 * m + 1]);
  }

  /** The token at j is a string that reads `key` in the text, and the one behind it is of
      the kind asked for. */
  ghost predicate PairAt(js: string, tokens: seq<Token>, j: int, key: string, kind: Kind) {
    && 0 <= j && j + 1 < |tokens| && tokens[j].kind == String && tokens[j + 1].kind == kind
    && 0 <= tokens[j].start <= tokens[j].end <= |js| && js[tokens[j].start..tokens[j].end] == key
  }

  /** On the tokens and the text alone: member m answers if its key's token and the one
      behind that are such a pair. */
  lemma {:induction false} HitIsPair(js: string, ts: seq<Tree>, i: nat, m: nat, key: string, kind: Kind)
    requires Parsed(js, ts) && i < |FlattenAll(ts)| && SubtreeAt(ts, i).kind == Object && 2 * m + 1 < |SubtreeAt(ts, i).kids|
    ensures var t := SubtreeAt(ts, i);
            Hit(js, t.kids, m, key, kind) <==> PairAt(js, FlattenAll(ts), i + KidOffset(t, 2 * m), key, kind)
  {
    var toks, t := FlattenAll(ts), SubtreeAt(ts, i);
    SubtreeListed(ts, i);
    MemberListed(toks, toks, i, t, m);
    if t.kids[2 * m].kind == String {
      StringIsLeaf(js, ts, i, 2 * m);
      assert Flatten(t.kids[2 * m]) == [Root(t.kids[2 * m])];
    }
  }

  lemma {:induction false} HitListed(js: string, ts: seq<Tree>, i: nat, m: nat, key: string, kind: Kind)
    requires Parsed(js, ts) && i < |FlattenAll(ts)|
    requires var t := SubtreeAt(ts, i);
             t.kind == Object && m < |t.kids| / 2 && m == FirstHit(js, t.kids, 0, key, kind)
    ensures var j := i + KidOffset(SubtreeAt(ts, i), 2 * m);
            Lookup(js, ts, i, key, kind) == j + 1 && PairAt(js, FlattenAll(ts), j, key, kind)
  {
    HitIsPair(js, ts, i, m, key, kind);
    var t := SubtreeAt(ts, i);
    StringIsLeaf(js, ts, i, 2 * m);
    assert Flatten(t.kids[2 * m]) == [Root(t.kids[2 * m])];
    SubtreeListed(ts, i);
    KidListed(FlattenAll(ts), i, t, 2 * m);
  }

  lemma {:induction false} HitsArePairs(js: string, ts: seq<Tree>, i: nat, key: string, kind: Kind)
    requires Parsed(js, ts) && i < |FlattenAll(ts)| && SubtreeAt(ts, i).kind == Object
    ensures var toks, t := FlattenAll(ts), SubtreeAt(ts, i);
            forall m :: 0 <= m < |t.kids| / 2 ==>
              (Hit(js, t.kids, m, key, kind) <==> PairAt(js, toks, i + KidOffset(t, 2 * m), key, kind))
  {
    var toks, t := FlattenAll(ts), SubtreeAt(ts, i);
    forall m | 0 <= m < |t.kids| / 2
      ensures Hit(js, t.kids, m, key, kind) <==> PairAt(js, toks, i + KidOffset(t, 2 * m), key, kind)
    {
      HitIsPair(js, ts, i, m, key, kind);
    }
  }

  /** The tokens of member m are the first such pair among those of t, the object listed at i. */
  ghost predicate FirstPair(js: string, toks: seq<Token>, i: nat, t: Tree, key: string, kind: Kind, m: int) {
    && 0 <= m < |t.kids| / 2 && PairAt(js, toks, i + KidOffset(t, 2 * m), key, kind)
    && forall n :: 0 <= n < m ==> !PairAt(js, toks, i + KidOffset(t, 2 * n), key, kind)
  }

  ghost predicate NoPair(js: string, toks: seq<Token>, i: nat, t: Tree, key: string, kind: Kind) {
    forall n :: 0 <= n < |t.kids| / 2 ==> !PairAt(js, toks, i + KidOffset(t, 2 * n), key, kind)
  }

  /** On the tokens and the text alone: r is the index of the second token of the first such
      pair in t; -1 if there is none, or t is not an object. */
  ghost predicate AnswersFirst(js: string, toks: seq<Token>, i: nat, t: Tree, key: string, kind: Kind, r: int) {
    if r == -1 then t.kind != Object || NoPair(js, toks, i, t, key, kind)
    else t.kind == Object && exists m :: FirstPair(js, toks, i, t, key, kind, m) && r == i + KidOffset(t, 2 * m) + 1
  }

  lemma {:induction false} FirstHitIsPair(js: string, ts: seq<Tree>, i: nat, key: string, kind: Kind)
    requires Parsed(js, ts) && i < |FlattenAll(ts)| && SubtreeAt(ts, i).kind == Object
    ensures var toks, t := FlattenAll(ts), SubtreeAt(ts, i);
            var m := FirstHit(js, t.kids, 0, key, kind);
            if m == -1 then NoPair(js, toks, i, t, key, kind) else FirstPair(js, toks, i, t, key, kind, m)
  {
    HitsArePairs(js, ts, i, key, kind);
  }

  /** A lookup in the tree answers so. */
  lemma {:induction false} LookupIsFirstPair(js: string, ts: seq<Tree>, i: nat, key: string, kind: Kind)
    requires Parsed(js, ts) && i < |FlattenAll(ts)|
    ensures AnswersFirst(js, FlattenAll(ts), i, SubtreeAt(ts, i), key, kind, Lookup(js, ts, i, key, kind))
  {
    var t := SubtreeAt(ts, i);
    if t.kind == Object {
      FirstHitIsPair(js, ts, i, key, kind);
      var m := FirstHit(js, t.kids, 0, key, kind);
      if m != -1 { HitListed(js, ts, i, m, key, kind); }
    }
  }

  /** The loop of find_key, over the members of the object at i. */
  method SearchMembers(tokens: array<Token>, i: nat, buf: array<char>, key: string, kind: Kind,
                       ghost js: string, ghost ts: seq<Tree>) returns (r: int)
    requires Parsed(js, ts) && FlattenAll(ts) <= tokens[..] && i < |FlattenAll(ts)| && SubtreeAt(ts, i).kind == Object
    requires tokens[i] == Root(SubtreeAt(ts, i))
    requires ValidKey(key) && Intact(buf[..], js, FlattenAll(ts))
    modifies buf
    ensures Intact(buf[..], js, FlattenAll(ts))
    ensures Carved(old(buf[..]), buf[..])
    ensures r == Lookup(js, ts, i, key, kind)
  {
    ghost var toks, t := FlattenAll(ts), SubtreeAt(ts, i);
    SubtreeListed(ts, i);
    var numKeys := tokens[i].size / 2;
    var j := i + 1;
    ghost var m := 0;
    while numKeys > 0
      invariant 0 <= numKeys && m + numKeys == |t.kids| / 2
      invariant j == i + KidOffset(t, 2 * m)
      invariant FirstHit(js, t.kids, 0, key, kind) == FirstHit(js, t.kids, m, key, kind)
      invariant Intact(buf[..], js, toks)
      invariant Carved(old(buf[..]), buf[..])
    {
      var hit := TryMember(tokens, j, buf, key, kind, js, ts, i, m);
      if hit {
        HitListed(js, ts, i, m, key, kind);
        return j + 1;
      }
      j := SkipMember(tokens, j, toks, i, t, m);
      numKeys := numKeys - 1;
      m := m + 1;
    }
    r := -1;
  }

  method FindKey(tokens: array<Token>, i: nat, buf: array<char>, key: string, kind: Kind,
                 ghost js: string, ghost ts: seq<Tree>) returns (r: int)
    requires Parsed(js, ts) && FlattenAll(ts) <= tokens[..] && i < |FlattenAll(ts)|
    requires ValidKey(key) && Intact(buf[..], js, FlattenAll(ts))
    modifies buf
    ensures Intact(buf[..], js, FlattenAll(ts))
    ensures Carved(old(buf[..]), buf[..])
    ensures r == Lookup(js, ts, i, key, kind)
    ensures AnswersFirst(js, FlattenAll(ts), i, SubtreeAt(ts, i), key, kind, r)
  {
    RootListed(ts, i);
    LookupIsFirstPair(js, ts, i, key, kind);
    assert FlattenAll(ts)[i] == tokens[i];
    if tokens[i].kind != Object {
      return -1;
    }
    r := SearchMembers(tokens, i, buf, key, kind, js, ts);
  }

  lemma {:induction false} RootListed(ts: seq<Tree>, i: nat)
    requires i < |FlattenAll(ts)|
    ensures FlattenAll(ts)[i] == Root(SubtreeAt(ts, i))
  {
    SubtreeListed(ts, i);
    assert FlattenAll(ts)[i + 0] == Flatten(SubtreeAt(ts, i))[0];
  }

  lemma {:induction false} SubtreeSpells(js: string, ts: seq<Tree>, i: nat, lo: int, hi: int)
    requires SpellsAll(js, ts, lo, hi) && i < |FlattenAll(ts)|
    ensures Spells(js, SubtreeAt(ts, i))
    decreases ts
  {
    var n := |Flatten(ts[0])|;
    assert |Flatten(ts[0])| == 1 + |FlattenAll(ts[0].kids)|;
    assert ts[0].kids == [] ==> FlattenAll(ts[0].kids) == [];
    if i == 0 {
    } else if i < n {
      SubtreeSpells(js, ts[0].kids, i - 1, ts[0].start + 1, ts[0].end - 1);
    } else {
      SubtreeSpells(js, ts[1..], i - n, Hi(ts[0]), hi);
    }
  }

  lemma {:induction false} KidSpells(js: string, ts: seq<Tree>, n: nat, lo: int, hi: int)
    requires SpellsAll(js, ts, lo, hi) && n < |ts|
    ensures Spells(js, ts[n])
    decreases n
  {
    if n > 0 { KidSpells(js, ts[1..], n - 1, Hi(ts[0]), hi); }
  }

  lemma {:induction false} StringIsLeaf(js: string, ts: seq<Tree>, i: nat, n: nat)
    requires Parsed(js, ts) && i < |FlattenAll(ts)|
    requires var t := SubtreeAt(ts, i); t.kind == Object && n < |t.kids| && t.kids[n].kind == String
    ensures var k := SubtreeAt(ts, i).kids[n]; k.kids == [] && k.start <= k.end <= |js|
  {
    var t := SubtreeAt(ts, i);
    SubtreeSpells(js, ts, i, 0, |js|);
    KidSpells(js, t.kids, n, t.start + 1, t.end - 1);
    SpellsOrdered(js, t.kids[n]);
  }

  // ----- typed lookups

  /** The original text of the leaf with index a. */
  ghost function LeafText(js: string, ts: seq<Tree>, a: nat): string
    requires a < |FlattenAll(ts)|
  {
    var t := FlattenAll(ts)[a];
    if 0 <= t.start <= t.end <= |js| then js[t.start..t.end] else ""
  }

  /** Reads the C string at `start`. */
  method ReadString(buf: array<char>, start: nat) returns (s: string)
    requires start <= buf.Length
    ensures s == CString(buf[..], start)
  {
    var k := start;
    s := "";
    while k < buf.Length && buf[k] != '\0'
      invariant start <= k <= buf.Length
      invariant s + CString(buf[..], k) == CString(buf[..], start)
    {
      s := s + [buf[k]];
      k := k + 1;
    }
  }

  method FindString(tokens: array<Token>, i: nat, buf: array<char>, key: string,
                    ghost js: string, ghost ts: seq<Tree>) returns (found: bool, at: int)
    requires Parsed(js, ts) && FlattenAll(ts) <= tokens[..] && i < |FlattenAll(ts)|
    requires ValidKey(key) && Intact(buf[..], js, FlattenAll(ts))
    modifies buf
    ensures Intact(buf[..], js, FlattenAll(ts)) && Carved(old(buf[..]), buf[..])
    ensures var a := Lookup(js, ts, i, key, String);
            && found == (a != -1)
            && if found then 0 <= at < buf.Length && PointsTo(buf[..], at, FlattenAll(ts)[a], LeafText(js, ts, a))
               else at == -1
  {
    var k := FindKey(tokens, i, buf, key, String, js, ts);
    if k == -1 {
      return false, -1;
    }
    Terminate(tokens, k, buf, js, ts);
    return true, tokens[k].start;
  }

  /** A pointer handed out for leaf t: the text there is `text`, ended by a NUL. */
  ghost predicate PointsTo(b: seq<char>, at: nat, t: Token, text: string) {
    t.start == at && at <= t.end < |b| && b[t.end] == '\0' && CString(b, at) == text
  }

  method FindInt(tokens: array<Token>, i: nat, buf: array<char>, key: string,
                 ghost js: string, ghost ts: seq<Tree>) returns (found: bool, n: int)
    requires Parsed(js, ts) && FlattenAll(ts) <= tokens[..] && i < |FlattenAll(ts)|
    requires ValidKey(key) && Intact(buf[..], js, FlattenAll(ts))
    modifies buf
    ensures Intact(buf[..], js, FlattenAll(ts)) && Carved(old(buf[..]), buf[..])
    ensures var a := Lookup(js, ts, i, key, Primitive);
            found == (a != -1) && n == if found then Strtoll(LeafText(js, ts, a)) else 0
  {
    var k := FindKey(tokens, i, buf, key, Primitive, js, ts);
    if k == -1 {
      return false, 0;
    }
    Terminate(tokens, k, buf, js, ts);
    var s := ReadString(buf, tokens[k].start);
    return true, Strtoll(s);
  }

  method FindBool(tokens: array<Token>, i: nat, buf: array<char>, key: string,
                  ghost js: string, ghost ts: seq<Tree>) returns (b: bool)
    requires Parsed(js, ts) && FlattenAll(ts) <= tokens[..] && i < |FlattenAll(ts)|
    requires ValidKey(key) && Intact(buf[..], js, FlattenAll(ts))
    modifies buf
    ensures Intact(buf[..], js, FlattenAll(ts)) && Carved(old(buf[..]), buf[..])
    ensures var a := Lookup(js, ts, i, key, Primitive); b <==> a != -1 && LeafText(js, ts, a) == "true"
  {
    var k := FindKey(tokens, i, buf, key, Primitive, js, ts);
    if k == -1 {
      return false;
    }
    Terminate(tokens, k, buf, js, ts);
    b := SameString("true", buf, tokens[k].start);
  }

  // ----- sequences of lookups

  datatype Query =
    | AskToken(i: nat, key: string, kind: Kind)
    | AskString(i: nat, key: string)
    | AskInt(i: nat, key: string)
    | AskBool(i: nat, key: string)

  /** `at` is where the text of a string answer begins in the buffer, or -1. */
  datatype Answer =
    | IsToken(index: int)
    | IsString(at: int)
    | IsInt(found: bool, n: int)
    | IsBool(b: bool)

  /** The answer on the untouched text; it depends on nothing asked before. */
  ghost function Expected(js: string, ts: seq<Tree>, q: Query): Answer
    requires q.i < |FlattenAll(ts)|
  {
    match q
    case AskToken(i, key, kind) => IsToken(Lookup(js, ts, i, key, kind))
    case AskString(i, key) =>
      var a := Lookup(js, ts, i, key, String);
      IsString(if a == -1 then -1 else FlattenAll(ts)[a].start)
    case AskInt(i, key) =>
      var a := Lookup(js, ts, i, key, Primitive);
      IsInt(a != -1, if a == -1 then 0 else Strtoll(LeafText(js, ts, a)))
    case AskBool(i, key) =>
      var a := Lookup(js, ts, i, key, Primitive);
      IsBool(a != -1 && LeafText(js, ts, a) == "true")
  }

  /** A string answer still points at the original text of the value it was given for. */
  ghost predicate StillReads(b: seq<char>, js: string, ts: seq<Tree>, q: Query)
    requires q.i < |FlattenAll(ts)|
  {
    q.AskString? ==>
      var a := Lookup(js, ts, q.i, q.key, String);
      a != -1 ==>
        var t := FlattenAll(ts)[a];
        t.start >= 0 && PointsTo(b, t.start, t, LeafText(js, ts, a))
  }

  lemma {:induction false} StillReadsLater(a: seq<char>, b: seq<char>, js: string, ts: seq<Tree>, q: Query)
    requires Parsed(js, ts) && q.i < |FlattenAll(ts)| && StillReads(a, js, ts, q)
    requires Carved(a, b) && Intact(b, js, FlattenAll(ts))
    ensures StillReads(b, js, ts, q)
  {
    if q.AskString? {
      var k := Lookup(js, ts, q.i, q.key, String);
      if k != -1 { LeafReadsBack(b, js, ts, k); }
    }
  }

  ghost predicate ValidQueries(ts: seq<Tree>, qs: seq<Query>) {
    forall q :: q in qs ==> q.i < |FlattenAll(ts)| && ValidKey(q.key)
  }

  method AskOne(tokens: array<Token>, buf: array<char>, q: Query, ghost js: string, ghost ts: seq<Tree>)
      returns (r: Answer)
    requires Parsed(js, ts) && FlattenAll(ts) <= tokens[..] && q.i < |FlattenAll(ts)|
    requires ValidKey(q.key) && Intact(buf[..], js, FlattenAll(ts))
    modifies buf
    ensures Intact(buf[..], js, FlattenAll(ts)) && Carved(old(buf[..]), buf[..])
    ensures r == Expected(js, ts, q) && StillReads(buf[..], js, ts, q)
  {
    match q
    case AskToken(i, key, kind) =>
      var k := FindKey(tokens, i, buf, key, kind, js, ts);
      r := IsToken(k);
    case AskString(i, key) =>
      var found, at := FindString(tokens, i, buf, key, js, ts);
      r := IsString(at);
    case AskInt(i, key) =>
      var found, n := FindInt(tokens, i, buf, key, js, ts);
      r := IsInt(found, n);
    case AskBool(i, key) =>
      var b := FindBool(tokens, i, buf, key, js, ts);
      r := IsBool(b);
  }

  /** Destructive lookups do not interfere: in any order, on any of the objects in
      the text, each is answered as on the untouched text, and every string handed
      out stays what it was. */
  method AskAll(tokens: array<Token>, buf: array<char>, qs: seq<Query>, ghost js: string, ghost ts: seq<Tree>)
      returns (rs: seq<Answer>)
    requires Parsed(js, ts) && FlattenAll(ts) <= tokens[..] && ValidQueries(ts, qs)
    requires Intact(buf[..], js, FlattenAll(ts))
    modifies buf
    ensures Intact(buf[..], js, FlattenAll(ts)) && |rs| == |qs|
    ensures forall k :: 0 <= k < |qs| ==> rs[k] == Expected(js, ts, qs[k]) && StillReads(buf[..], js, ts, qs[k])
  {
    rs := [];
    for n := 0 to |qs|
      invariant Intact(buf[..], js, FlattenAll(ts)) && |rs| == n
      invariant forall k :: 0 <= k < n ==> rs[k] == Expected(js, ts, qs[k]) && StillReads(buf[..], js, ts, qs[k])
    {
      ghost var before := buf[..];
      var r := AskOne(tokens, buf, qs[n], js, ts);
      forall k | 0 <= k < n ensures StillReads(buf[..], js, ts, qs[k]) {
        StillReadsLater(before, buf[..], js, ts, qs[k]);
      }
      rs := rs + [r];
    }
  }

  /** After a successful call of the tokenizer, its tokens list a forest the text spells. */
  lemma {:induction false} SuccessIsParsed(js: string, cap: nat)
    requires forall k :: 0 <= k < |js| ==> js[k] != '\0'
    requires Run(js, cap, Init).1 == Success
    ensures exists ts :: Parsed(js, ts) && Run(js, cap, Init).0.toks == FlattenAll(ts)
  {
    TokenizesExactlySpellings(js, |js|, cap);
    var ts :| SpellsAll(js, ts, 0, |js|) && |FlattenAll(ts)| <= cap;
    assert Parsed(js, ts);
  }

  /** A fresh copy of the text, NUL at its end, is intact. */
  lemma {:induction false} FreshIsIntact(b: seq<char>, js: string, toks: seq<Token>)
    requires |b| > |js| && b[..|js|] == js && b[|js|] == '\0'
    ensures Intact(b, js, toks)
  {
    forall p | 0 <= p < |js| ensures b[p] == js[p] { assert b[..|js|][p] == b[p]; }
  }
}
