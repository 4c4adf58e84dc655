/** Calling the tokenizer again after it stopped early. */
module JsonResume {
  import opened JsmnSpec

  // ----- more tokens

  /** A state stopped by lack of tokens, continued with a larger array, ends as
      one call with the larger array would have ended from the start. */
  lemma {:induction false} MoreTokens(js: string, cap: nat, more: nat, s: State)
    requires s.Valid(js) && cap <= more && Run(js, cap, s).1 == NoMem
    ensures Run(js, more, Run(js, cap, s).0) == Run(js, more, s)
    decreases |js| - s.pos
  {
    var o := Step(js, cap, s);
    if o.Next? {
      assert Step(js, more, s) == o;
      MoreTokens(js, cap, more, o.s);
    }
  }

  /** A larger array never changes a result other than running out of tokens. */
  lemma {:induction false} SpareTokens(js: string, cap: nat, more: nat, s: State)
    requires s.Valid(js) && cap <= more && Run(js, cap, s).1 != NoMem
    ensures Run(js, more, s) == Run(js, cap, s)
    decreases |js| - s.pos
  {
    if At(js, s.pos) != '\0' {
      var o := Step(js, cap, s);
      if o.Next? { SpareTokens(js, cap, more, o.s); }
    }
  }

  // ----- more text

  ghost predicate NulFree(s: string) {
    forall k :: 0 <= k < |s| ==> s[k] != '\0'
  }

  /** The text so far ends inside a primitive, which is indistinguishable from a complete one. */
  ghost predicate EndsInPrimitive(toks: seq<Token>, n: nat) {
    exists i :: 0 <= i < |toks| && toks[i].kind == Primitive && toks[i].end == n
  }

  lemma {:induction false} ScanSame(js: string, more: string, p: nat)
    requires p <= |js| && ScanString(js, p).Closed?
    ensures ScanString(js + more, p) == ScanString(js, p)
    decreases |js| - p
  {
    assert (js + more)[p] == js[p];
    if js[p] == '\\' {
      assert (js + more)[p + 1] == js[p + 1];
      ScanSame(js, more, p + 2);
    } else if js[p] != '\"' {
      ScanSame(js, more, p + 1);
    }
  }

  lemma {:induction false} PrimitiveSame(js: string, more: string, p: nat)
    requires NulFree(js) && p <= |js| && -1 < PrimitiveEnd(js, p) < |js|
    ensures PrimitiveEnd(js + more, p) == PrimitiveEnd(js, p)
    decreases |js| - p
  {
    assert p < |js| ==> (js + more)[p] == js[p];
    if p < |js| && !IsDelimiter(js[p]) { PrimitiveSame(js, more, p + 1); }
  }

  lemma {:induction false} StepSame(js: string, more: string, cap: nat, s: State)
    requires NulFree(js) && s.Valid(js) && s.pos < |js|
    requires Step(js, cap, s).Next?
    requires !EndsInPrimitive(Step(js, cap, s).s.toks, |js|)
    ensures s.Valid(js + more) && Step(js + more, cap, s) == Step(js, cap, s)
  {
    var c := js[s.pos];
    assert (js + more)[s.pos] == c;
    if c == '\"' {
      ScanSame(js, more, s.pos + 1);
    } else if !IsOpening(c) && !IsClosing(c) && !(IsBlank(c) || c == ':' || c == ',') {
      var e := PrimitiveEnd(js, s.pos);
      var toks := Step(js, cap, s).s.toks;
      assert toks[|toks| - 1] == Token(Primitive, s.pos, e, 0);
      PrimitiveSame(js, more, s.pos);
    }
  }

  lemma {:induction false} PrimitiveEndStays(js: string, cap: nat, s: State, n: nat)
    requires s.Valid(js) && At(js, s.pos) != '\0' && Step(js, cap, s).Next? && EndsInPrimitive(s.toks, n)
    ensures EndsInPrimitive(Step(js, cap, s).s.toks, n)
  {
    var i :| 0 <= i < |s.toks| && s.toks[i].kind == Primitive && s.toks[i].end == n;
    var toks := Step(js, cap, s).s.toks;
    assert toks[i].kind == Primitive && toks[i].end == n;
  }

  lemma {:induction false} PrimitiveEndLasts(js: string, cap: nat, s: State, n: nat)
    requires s.Valid(js) && EndsInPrimitive(s.toks, n)
    ensures EndsInPrimitive(Run(js, cap, s).0.toks, n)
    decreases |js| - s.pos
  {
    if At(js, s.pos) != '\0' {
      var o := Step(js, cap, s);
      if o.Next? {
        PrimitiveEndStays(js, cap, s, n);
        PrimitiveEndLasts(js, cap, o.s, n);
      }
    }
  }

  /** Open tokens are containers, so closing one never makes a primitive end. */
  ghost predicate OnlyContainersOpen(toks: seq<Token>) {
    forall i :: 0 <= i < |toks| && toks[i].kind == Primitive ==> toks[i].end != -1
  }

  lemma {:induction false} NoPrimitiveEndsInside(js: string, cap: nat, s: State, n: nat)
    requires s.Valid(js) && At(js, n) != '\0' && !IsDelimiter(At(js, n))
    requires !EndsInPrimitive(s.toks, n) && OnlyContainersOpen(s.toks)
    ensures !EndsInPrimitive(Run(js, cap, s).0.toks, n)
    decreases |js| - s.pos
  {
    if At(js, s.pos) != '\0' {
      var o := Step(js, cap, s);
      if o.Next? {
        NoPrimitiveEndsHere(js, cap, s, n);
        NoPrimitiveEndsInside(js, cap, o.s, n);
      }
    }
  }

  lemma {:induction false} NoPrimitiveEndsHere(js: string, cap: nat, s: State, n: nat)
    requires s.Valid(js) && At(js, s.pos) != '\0' && At(js, n) != '\0' && !IsDelimiter(At(js, n))
    requires !EndsInPrimitive(s.toks, n) && OnlyContainersOpen(s.toks) && Step(js, cap, s).Next?
    ensures !EndsInPrimitive(Step(js, cap, s).s.toks, n) && OnlyContainersOpen(Step(js, cap, s).s.toks)
  {
    var toks := Step(js, cap, s).s.toks;
    forall i | 0 <= i < |toks| && toks[i].kind == Primitive
      ensures toks[i].end != n && toks[i].end != -1
    {
      if i < |s.toks| { assert s.toks[i].kind == Primitive && s.toks[i].end == toks[i].end; }
    }
  }

  lemma {:induction false} MoreTextFollows(js: string, more: string, cap: nat, s: State)
    requires NulFree(js) && s.Valid(js)
    requires Run(js, cap, s).1 == Part || Run(js, cap, s).1 == Success
    requires !EndsInPrimitive(Run(js, cap, s).0.toks, |js|)
    ensures Run(js, cap, s).0.Valid(js + more) && s.Valid(js + more)
    ensures Run(js + more, cap, Run(js, cap, s).0) == Run(js + more, cap, s)
    decreases |js| - s.pos
  {
    if s.pos < |js| {
      assert (js + more)[s.pos] == js[s.pos];
      var o := Step(js, cap, s);
      if o.Next? {
        if EndsInPrimitive(o.s.toks, |js|) { PrimitiveEndLasts(js, cap, o.s, |js|); }
        StepSame(js, more, cap, s);
        MoreTextFollows(js, more, cap, o.s);
      }
    }
  }

  /** A text that stopped short can be continued with more text exactly when it
      did not end inside a primitive: otherwise the half already read is reported
      as a value of its own, and the rest as another. */
  lemma {:induction false} MoreText(js: string, cap: nat)
    requires NulFree(js) && Run(js, cap, Init).1 == Part
    ensures forall more: string :: Run(js, cap, Init).0.Valid(js + more)
    ensures (forall more: string :: Run(js + more, cap, Run(js, cap, Init).0) == Run(js + more, cap, Init)) <==>
            !EndsInPrimitive(Run(js, cap, Init).0.toks, |js|)
  {
    var s := Run(js, cap, Init).0;
    if !EndsInPrimitive(s.toks, |js|) {
      forall more: string
        ensures Run(js + more, cap, s) == Run(js + more, cap, Init)
      {
        MoreTextFollows(js, more, cap, Init);
      }
    } else {
      var whole := js + "1";
      assert At(whole, |js|) == '1';
      PrimitiveEndLasts(whole, cap, s, |js|);
      NoPrimitiveEndsInside(whole, cap, Init, |js|);
      assert Run(js + "1", cap, s) != Run(js + "1", cap, Init);
    }
  }

  // ----- a text cut anywhere

  /** The text ends right after the backslash of an escape, in the string that opens at p. */
  ghost predicate EndsInEscape(js: string, p: nat) {
    p + 1 < |js| && js[p] == '\"' && BodyTo(js, p + 1, |js| - 1) && js[|js| - 1] == '\\'
  }

  lemma {:induction false} ScanOfPrefix(js: string, more: string, p: nat)
    requires NulFree(js) && p <= |js| && ScanString(js + more, p).Closed?
    ensures var q := ScanString(js + more, p).quote;
            if q < |js| then ScanString(js, p) == Closed(q)
            else ScanString(js, p) ==
                 if p < |js| && BodyTo(js, p, |js| - 1) && js[|js| - 1] == '\\' then BadEscape else Unclosed
    decreases |js| - p
  {
    if p < |js| {
      assert (js + more)[p] == js[p];
      if js[p] == '\\' {
        if p + 1 < |js| {
          assert (js + more)[p + 1] == js[p + 1];
          ScanOfPrefix(js, more, p + 2);
        }
      } else if js[p] != '\"' {
        ScanOfPrefix(js, more, p + 1);
      }
    }
  }

  lemma {:induction false} PrimitiveOfPrefix(js: string, more: string, p: nat)
    requires NulFree(js) && p <= |js| && PrimitiveEnd(js + more, p) != -1
    ensures var e := PrimitiveEnd(js + more, p);
            PrimitiveEnd(js, p) == if e < |js| then e else |js|
    decreases |js| - p
  {
    if p < |js| {
      assert (js + more)[p] == js[p];
      if !IsDelimiter(js[p]) { PrimitiveOfPrefix(js, more, p + 1); }
    }
  }

  /** A turn on the whole text, as it goes on the part of it. */
  lemma {:induction false} StepOfPrefix(js: string, more: string, cap: nat, s: State)
    requires NulFree(js) && s.Valid(js) && s.pos < |js| && s.Valid(js + more)
    requires At(js + more, s.pos) != '\0' && Step(js + more, cap, s).Next?
    ensures var o := Step(js, cap, s);
            || o == Step(js + more, cap, s)
            || (o.Next? && o.s.pos == |js|)
            || (o == Stop(if EndsInEscape(js, s.pos) then Inval else Part) && js[s.pos] == '\"')
  {
    var c := js[s.pos];
    assert (js + more)[s.pos] == c;
    if c == '\"' {
      ScanOfPrefix(js, more, s.pos + 1);
    } else if !IsOpening(c) && !IsClosing(c) && !(IsBlank(c) || c == ':' || c == ',') {
      PrimitiveOfPrefix(js, more, s.pos);
    }
  }

  lemma {:induction false} RunOfPrefix(js: string, more: string, cap: nat, s: State)
    requires NulFree(js) && s.Valid(js) && s.Valid(js + more) && Run(js + more, cap, s).1 == Success
    ensures var (t, code) := Run(js, cap, s);
            code != NoMem && (code == Inval <==> EndsInEscape(js, t.pos))
    decreases |js| - s.pos
  {
    if s.pos < |js| {
      assert (js + more)[s.pos] == js[s.pos];
      StepOfPrefix(js, more, cap, s);
      var o := Step(js, cap, s);
      if o == Step(js + more, cap, s) && o.Next? && o.s.pos <= |js| {
        RunOfPrefix(js, more, cap, o.s);
      }
    }
  }

  /** A text that is accepted, cut off anywhere, is reported as cut off, or as complete if
      what is left is, except when it is cut inside an escape: then, and only then, it is
      reported as invalid. */
  lemma {:induction false} CutAnywhere(js: string, more: string, cap: nat)
    requires NulFree(js) && Run(js + more, cap, Init).1 == Success
    ensures var (t, code) := Run(js, cap, Init);
            code == if EndsInEscape(js, t.pos) then Inval
                    else if t.pos == |js| && InnermostOpen(t.toks, |t.toks|) == -1 then Success
                    else Part
  {
    RunOfPrefix(js, more, cap, Init);
    SuccessMeans(js, cap, Init);
  }

  lemma {:induction false} SuccessMeans(js: string, cap: nat, s: State)
    requires NulFree(js) && s.Valid(js)
    ensures var (t, code) := Run(js, cap, s);
            code == Success <==> t.pos == |js| && InnermostOpen(t.toks, |t.toks|) == -1
    decreases |js| - s.pos
  {
    if s.pos < |js| {
      var o := Step(js, cap, s);
      if o.Next? { SuccessMeans(js, cap, o.s); }
    }
  }
}
