/** What holds of the flat token array in every state the tokenizer reaches, for
    any input text, stated on the array alone. */
module JsmnInvariant {
  import opened JsmnSpec

  predicate IsContainer(k: Kind) {
    k == Object || k == Array
  }

  /** Position x, at or after the token's start, lies inside the container t. */
  predicate Encloses(t: Token, x: int) {
    IsContainer(t.kind) && (t.end == -1 || x < t.end)
  }

  /** The nearest of the first n tokens that encloses position x, or -1. */
  function ParentAt(toks: seq<Token>, n: nat, x: int): (p: int)
    requires n <= |toks|
    ensures -1 <= p < n
    ensures p >= 0 ==> Encloses(toks[p], x)
    ensures forall k :: p < k < n ==> !Encloses(toks[k], x)
  {
    if n == 0 then -1
    else if Encloses(toks[n - 1], x) then n - 1
    else ParentAt(toks, n - 1, x)
  }

  function Parent(toks: seq<Token>, j: nat): int
    requires j < |toks|
  {
    ParentAt(toks, j, toks[j].start)
  }

  /** How many of the first n tokens have token i as their parent. */
  function KidCount(toks: seq<Token>, i: nat, n: nat): nat
    requires n <= |toks|
  {
    if n == 0 then 0
    else KidCount(toks, i, n - 1) + if Parent(toks, n - 1) == i then 1 else 0
  }

  /** Later tokens start later, and lie wholly inside or wholly after earlier ones. */
  ghost predicate NestedOrDisjoint(toks: seq<Token>) {
    forall i, j :: 0 <= i < j < |toks| ==>
      && toks[i].start < toks[j].start
      && (|| toks[i].end == -1
          || (toks[i].end != -1 && toks[i].end <= toks[j].start)
          || (IsContainer(toks[i].kind) && toks[j].end != -1 && toks[j].end <= toks[i].end))
  }

  /** Tokens start behind the current position; closed ones also end behind it. */
  ghost predicate Bounded(toks: seq<Token>, pos: nat) {
    forall i :: 0 <= i < |toks| ==>
      && 0 <= toks[i].start < pos
      && (if toks[i].end == -1 then IsContainer(toks[i].kind) else toks[i].start <= toks[i].end <= pos)
  }

  ghost predicate SizesCountKids(toks: seq<Token>) {
    forall i :: 0 <= i < |toks| ==> toks[i].size == KidCount(toks, i, |toks|)
  }

  /** `super` is the innermost container enclosing the current position: by
      `Bounded`, the containers enclosing it are exactly the unclosed tokens. */
  ghost predicate Invariant(s: State) {
    && Bounded(s.toks, s.pos)
    && NestedOrDisjoint(s.toks)
    && SizesCountKids(s.toks)
    && s.super == ParentAt(s.toks, |s.toks|, s.pos)
  }

  ghost predicate SameShape(a: seq<Token>, b: seq<Token>, n: nat) {
    n <= |a| && n <= |b| && forall k :: 0 <= k < n ==> a[k].(size := 0) == b[k].(size := 0)
  }

  lemma {:induction false} ParentAtShape(a: seq<Token>, b: seq<Token>, n: nat, x: int)
    requires SameShape(a, b, n)
    ensures ParentAt(a, n, x) == ParentAt(b, n, x)
  {
    if n > 0 { ParentAtShape(a, b, n - 1, x); }
  }

  lemma {:induction false} KidCountShape(a: seq<Token>, b: seq<Token>, i: nat, n: nat)
    requires SameShape(a, b, n)
    ensures KidCount(a, i, n) == KidCount(b, i, n)
  {
    if n > 0 {
      KidCountShape(a, b, i, n - 1);
      ParentAtShape(a, b, n - 1, a[n - 1].start);
    }
  }

  lemma {:induction false} NoKidsYet(toks: seq<Token>, i: nat, n: nat)
    requires n <= |toks| && n <= i
    ensures KidCount(toks, i, n) == 0
  {
    if n > 0 { NoKidsYet(toks, i, n - 1); }
  }

  /** Closing container c at `end`, past every start, changes no token's parent. */
  lemma {:induction false} ParentAtClosed(a: seq<Token>, c: nat, end: int, n: nat, x: int)
    requires n <= |a| && c < |a| && a[c].end == -1 && 0 <= x < end
    ensures ParentAt(a[c := a[c].(end := end)], n, x) == ParentAt(a, n, x)
  {
    if n > 0 { ParentAtClosed(a, c, end, n - 1, x); }
  }

  lemma {:induction false} KidCountClosed(a: seq<Token>, c: nat, end: int, i: nat, n: nat)
    requires n <= |a| && c < |a| && a[c].end == -1
    requires forall k :: 0 <= k < |a| ==> 0 <= a[k].start < end
    ensures KidCount(a[c := a[c].(end := end)], i, n) == KidCount(a, i, n)
  {
    if n > 0 {
      KidCountClosed(a, c, end, i, n - 1);
      ParentAtClosed(a, c, end, n - 1, a[n - 1].start);
    }
  }

  /** With every closed token behind x, the nearest encloser is the innermost open token. */
  lemma {:induction false} ParentIsInnermostOpen(toks: seq<Token>, n: nat, x: int)
    requires n <= |toks|
    requires forall k :: 0 <= k < n ==> toks[k].start >= 0
    requires forall k :: 0 <= k < n ==> if toks[k].end == -1 then IsContainer(toks[k].kind) else toks[k].end <= x
    ensures ParentAt(toks, n, x) == InnermostOpen(toks, n)
  {
    if n > 0 { ParentIsInnermostOpen(toks, n - 1, x); }
  }

  lemma {:induction false} AppendSizes(toks: seq<Token>, super: int, t: Token)
    requires -1 <= super < |toks| && t.size == 0
    requires SizesCountKids(toks) && super == ParentAt(toks, |toks|, t.start)
    ensures SizesCountKids(Bump(toks, super) + [t])
  {
    var n := |toks|;
    var toks' := Bump(toks, super) + [t];
    assert SameShape(toks', toks, n);
    ParentAtShape(toks', toks, n, t.start);
    forall i | 0 <= i < |toks'|
      ensures toks'[i].size == KidCount(toks', i, |toks'|)
    {
      if i < n { KidCountShape(toks', toks, i, n); } else { NoKidsYet(toks', i, n); }
    }
  }

  /** At or past the current position, the nearest encloser is the innermost open token. */
  lemma {:induction false} SuperIsInnermost(toks: seq<Token>, pos: nat, x: int)
    requires Bounded(toks, pos) && pos <= x
    ensures ParentAt(toks, |toks|, x) == InnermostOpen(toks, |toks|)
  {
    ParentIsInnermostOpen(toks, |toks|, x);
  }

  lemma {:induction false} AppendBounded(toks: seq<Token>, super: int, t: Token, pos: nat, pos': nat)
    requires -1 <= super < |toks| && Bounded(toks, pos) && pos <= t.start < pos'
    requires if t.end == -1 then IsContainer(t.kind) else t.start <= t.end <= pos'
    ensures Bounded(Bump(toks, super) + [t], pos')
  {
  }

  lemma {:induction false} AppendNesting(toks: seq<Token>, super: int, t: Token, pos: nat)
    requires -1 <= super < |toks| && Bounded(toks, pos) && NestedOrDisjoint(toks) && pos <= t.start
    ensures NestedOrDisjoint(Bump(toks, super) + [t])
  {
  }

  /** A token that may be appended: an open container, which becomes the innermost
      one, or a closed leaf. */
  ghost predicate Appendable(s: State, t: Token, pos: nat, super: int) {
    && s.pos <= t.start < pos && t.size == 0
    && if t.end == -1 then IsContainer(t.kind) && super == |s.toks|
       else t.start <= t.end <= pos && !IsContainer(t.kind) && super == s.super
  }

  /** A new last token is counted by the innermost open container and by no other. */
  lemma {:induction false} AppendKeeps(s: State, t: Token, pos: nat, super: int)
    requires Invariant(s) && Appendable(s, t, pos, super)
    ensures Invariant(Push(s, t, pos, super))
  {
    SuperIsInnermost(s.toks, s.pos, s.pos);
    SuperIsInnermost(s.toks, s.pos, t.start);
    AppendBounded(s.toks, s.super, t, s.pos, pos);
    AppendNesting(s.toks, s.super, t, s.pos);
    AppendSizes(s.toks, s.super, t);
    AppendSuper(s, t, pos, super);
  }

  lemma {:induction false} AppendSuper(s: State, t: Token, pos: nat, super: int)
    requires Bounded(s.toks, s.pos) && s.super == ParentAt(s.toks, |s.toks|, s.pos) && s.pos < pos
    requires if t.end == -1 then IsContainer(t.kind) && super == |s.toks|
             else t.end <= pos && super == s.super
    ensures super == ParentAt(Bump(s.toks, s.super) + [t], |s.toks| + 1, pos)
  {
    var n := |s.toks|;
    var toks := Bump(s.toks, s.super) + [t];
    if t.end != -1 {
      SuperIsInnermost(s.toks, s.pos, s.pos);
      SuperIsInnermost(s.toks, s.pos, pos);
      assert SameShape(toks, s.toks, n);
      ParentAtShape(toks, s.toks, n, pos);
    }
  }

  lemma {:induction false} CloseSizes(s: State, c: nat)
    requires c < |s.toks| && s.toks[c].end == -1 && Bounded(s.toks, s.pos) && SizesCountKids(s.toks)
    ensures SizesCountKids(Shut(s, c).toks)
  {
    var toks := Shut(s, c).toks;
    forall i | 0 <= i < |toks|
      ensures toks[i].size == KidCount(toks, i, |toks|)
    {
      KidCountClosed(s.toks, c, s.pos + 1, i, |toks|);
    }
  }

  lemma {:induction false} CloseSuper(s: State, c: nat)
    requires c < |s.toks| && Bounded(s.toks, s.pos) && c == InnermostOpen(s.toks, |s.toks|)
    ensures var s' := Shut(s, c);
            Bounded(s'.toks, s'.pos) && s'.super == ParentAt(s'.toks, |s'.toks|, s'.pos)
  {
    var s' := Shut(s, c);
    SuperIsInnermost(s'.toks, s'.pos, s'.pos);
    OpenPastClosed(s'.toks, c, |s'.toks|);
  }

  lemma {:induction false} CloseNesting(s: State, c: nat)
    requires c < |s.toks| && Bounded(s.toks, s.pos) && NestedOrDisjoint(s.toks) && c == InnermostOpen(s.toks, |s.toks|)
    ensures NestedOrDisjoint(Shut(s, c).toks)
  {
  }

  lemma {:induction false} CloseKeeps(s: State, c: nat)
    requires Invariant(s) && c == InnermostOpen(s.toks, |s.toks|)
    ensures Invariant(Shut(s, c))
  {
    CloseSizes(s, c);
    CloseSuper(s, c);
    CloseNesting(s, c);
  }

  lemma {:induction false} BlankKeeps(s: State)
    requires Invariant(s)
    ensures Invariant(s.(pos := s.pos + 1))
  {
    SuperIsInnermost(s.toks, s.pos, s.pos);
    SuperIsInnermost(s.toks, s.pos, s.pos + 1);
  }

  /** A turn moves on, closes the innermost container, or appends one token. */
  lemma {:induction false} StepShape(js: string, cap: nat, s: State) returns (t: Token, pos: nat, super: int)
    requires s.Valid(js) && At(js, s.pos) != '\0' && Step(js, cap, s).Next?
    ensures var s' := Step(js, cap, s).s;
            var i := InnermostOpen(s.toks, |s.toks|);
            || s' == s.(pos := s.pos + 1)
            || (i != -1 && s' == Shut(s, i))
            || (Appendable(s, t, pos, super) && s' == Push(s, t, pos, super))
  {
    var c := js[s.pos];
    if c == '\"' {
      var q := ScanString(js, s.pos + 1).quote;
      t, pos, super := Token(String, s.pos + 1, q, 0), q + 1, s.super;
    } else if IsOpening(c) {
      t, pos, super := Token(KindOf(c), s.pos, -1, 0), s.pos + 1, |s.toks|;
    } else if IsClosing(c) || IsBlank(c) || c == ':' || c == ',' {
      t, pos, super := FREE, 0, -1;
    } else {
      var e := PrimitiveEnd(js, s.pos);
      t, pos, super := Token(Primitive, s.pos, e, 0), e, s.super;
    }
  }

  lemma {:induction false} StepKeepsInvariant(js: string, cap: nat, s: State)
    requires s.Valid(js) && At(js, s.pos) != '\0' && Invariant(s)
    requires Step(js, cap, s).Next?
    ensures Invariant(Step(js, cap, s).s)
  {
    var t, pos, super := StepShape(js, cap, s);
    var s' := Step(js, cap, s).s;
    if s' == s.(pos := s.pos + 1) {
      BlankKeeps(s);
    } else if InnermostOpen(s.toks, |s.toks|) != -1 && s' == Shut(s, InnermostOpen(s.toks, |s.toks|)) {
      CloseKeeps(s, InnermostOpen(s.toks, |s.toks|));
    } else {
      AppendKeeps(s, t, pos, super);
    }
  }

  /** Every call, on any text and with any number of tokens, keeps the invariant;
      a parser starts in it, so every reachable state has it. */
  lemma {:induction false} RunKeepsInvariant(js: string, cap: nat, s: State)
    requires s.Valid(js) && Invariant(s)
    ensures Invariant(Init) && Invariant(Run(js, cap, s).0)
    ensures Run(js, cap, s).0.pos >= s.pos
    ensures Run(js, cap, s).1 == Success <==>
              At(js, Run(js, cap, s).0.pos) == '\0' && Run(js, cap, s).0.super == -1
    decreases |js| - s.pos
  {
    if At(js, s.pos) == '\0' {
      SuperIsInnermost(s.toks, s.pos, s.pos);
    } else {
      var o := Step(js, cap, s);
      if o.Next? {
        StepKeepsInvariant(js, cap, s);
        RunKeepsInvariant(js, cap, o.s);
      }
    }
  }
}
