/** The language the tokenizer accepts, defined on the text alone, and the proof
    that it accepts exactly that language and reports exactly its one parse. */
module JsonGrammar {
  import opened JsmnSpec
  import opened JsonForest
  import opened Options

  /** Colons and commas separate values just as blanks do: their placement is not checked. */
  predicate IsSeparator(c: char) {
    IsBlank(c) || c == ':' || c == ','
  }

  ghost predicate Gap(js: string, a: int, b: int) {
    0 <= a <= b <= |js| && forall k :: a <= k < b ==> IsSeparator(js[k])
  }

  /** Where the text of a value begins and ends; a string token leaves out its quotes. */
  function LoOf(kind: Kind, start: int): int {
    if kind == String then start - 1 else start
  }

  function HiOf(kind: Kind, end: int): int {
    if kind == String then end + 1 else end
  }

  function Lo(t: Tree): int {
    LoOf(t.kind, t.start)
  }

  function Hi(t: Tree): int {
    HiOf(t.kind, t.end)
  }

  predicate StartsPrimitive(c: char) {
    c != '\0' && c != '\"' && !IsOpening(c) && !IsClosing(c) && !IsSeparator(c)
  }

  function First(ts: seq<Tree>): Option<Tree> {
    if ts == [] then None else Some(ts[0])
  }

  /** The text at [Lo(t), Hi(t)) spells the value t. */
  ghost predicate Spells(js: string, t: Tree)
    decreases t
  {
    match t.kind
    case String =>
      && t.kids == [] && 1 <= t.start <= |js| && js[t.start - 1] == '\"' && ScanString(js, t.start) == Closed(t.end)
    case Primitive =>
      && t.kids == [] && t.start < |js| && StartsPrimitive(js[t.start]) && PrimitiveEnd(js, t.start) == t.end
    case Object => Bracketed(js, t) && SpellsAll(js, t.kids, t.start + 1, t.end - 1)
    case Array => Bracketed(js, t) && SpellsAll(js, t.kids, t.start + 1, t.end - 1)
  }

  predicate Bracketed(js: string, t: Tree) {
    && t.start + 2 <= t.end <= |js|
    && IsOpening(js[t.start]) && KindOf(js[t.start]) == t.kind
    && IsClosing(js[t.end - 1]) && KindOf(js[t.end - 1]) == t.kind
  }

  /** The text at [lo, hi) spells the values ts, with separators around them. */
  ghost predicate SpellsAll(js: string, ts: seq<Tree>, lo: int, hi: int)
    decreases ts
  {
    match First(ts)
    case None => Gap(js, lo, hi)
    case Some(t) => Gap(js, lo, Lo(t)) && Spells(js, t) && SpellsAll(js, ts[1..], Hi(t), hi)
  }

  ghost predicate SpellsCtx(js: string, ctx: Ctx, pos: nat) {
    match ctx
    case Top(done) => SpellsAll(js, done, 0, pos)
    case In(outer, kind, start, kids) =>
      && start < pos <= |js| && IsOpening(js[start]) && KindOf(js[start]) == kind
      && SpellsCtx(js, outer, start)
      && SpellsAll(js, kids, start + 1, pos)
  }

  // ----- what is reported is there

  lemma {:induction false} SpellsOrdered(js: string, t: Tree)
    requires Spells(js, t)
    ensures 0 <= Lo(t) < Hi(t) <= |js| && Lo(t) <= t.start <= t.end <= Hi(t)
  {
  }

  lemma {:induction false} SpellsAllBounds(js: string, ts: seq<Tree>, lo: int, hi: int)
    requires SpellsAll(js, ts, lo, hi)
    ensures 0 <= lo <= hi <= |js|
  {
    if ts != [] {
      SpellsOrdered(js, ts[0]);
      SpellsAllBounds(js, ts[1..], Hi(ts[0]), hi);
    }
  }

  lemma {:induction false} SpellsMore(js: string, ts: seq<Tree>, lo: int, mid: int, hi: int)
    requires SpellsAll(js, ts, lo, mid) && Gap(js, mid, hi)
    ensures SpellsAll(js, ts, lo, hi)
  {
    if ts != [] { SpellsMore(js, ts[1..], Hi(ts[0]), mid, hi); }
  }

  lemma {:induction false} SpellsOneMore(js: string, ts: seq<Tree>, lo: int, t: Tree)
    requires SpellsAll(js, ts, lo, Lo(t)) && Spells(js, t)
    ensures SpellsAll(js, ts + [t], lo, Hi(t))
  {
    SpellsOrdered(js, t);
    if ts == [] {
      assert [t][1..] == [] && ts + [t] == [t];
    } else {
      assert (ts + [t])[1..] == ts[1..] + [t];
      SpellsOneMore(js, ts[1..], Hi(ts[0]), t);
    }
  }

  lemma {:induction false} SpellsAddKid(js: string, ctx: Ctx, t: Tree)
    requires Spells(js, t) && Lo(t) >= 0 && SpellsCtx(js, ctx, Lo(t))
    ensures SpellsCtx(js, AddKid(ctx, t), Hi(t))
  {
    SpellsOrdered(js, t);
    match ctx
    case Top(done) => SpellsOneMore(js, done, 0, t);
    case In(outer, kind, start, kids) => SpellsOneMore(js, kids, start + 1, t);
  }

  lemma {:induction false} SpellsSkip(js: string, ctx: Ctx, pos: nat)
    requires SpellsCtx(js, ctx, pos) && pos < |js| && IsSeparator(js[pos])
    ensures SpellsCtx(js, ctx, pos + 1)
  {
    match ctx
    case Top(done) => SpellsMore(js, done, 0, pos, pos + 1);
    case In(outer, kind, start, kids) => SpellsMore(js, kids, start + 1, pos, pos + 1);
  }

  lemma {:induction false} CloseReportsSpelling(js: string, pos: nat, ctx: Ctx)
    requires pos < |js| && IsClosing(js[pos]) && SpellsCtx(js, ctx, pos)
    requires ctx.In? && ctx.kind == KindOf(js[pos])
    ensures SpellsCtx(js, AddKid(ctx.outer, Tree(ctx.kind, ctx.start, pos + 1, ctx.kids)), pos + 1)
  {
    SpellsAddKid(js, ctx.outer, Tree(ctx.kind, ctx.start, pos + 1, ctx.kids));
  }

  /** A string or primitive read at pos. */
  lemma {:induction false} LeafReportsSpelling(js: string, pos: nat, ctx: Ctx, t: Tree)
    requires pos < |js| && SpellsCtx(js, ctx, pos) && Spells(js, t) && Lo(t) == pos
    ensures SpellsCtx(js, AddKid(ctx, t), Hi(t))
  {
    SpellsAddKid(js, ctx, t);
  }

  lemma {:induction false} StepReportsSpelling(js: string, cap: nat, pos: nat, ctx: Ctx)
    requires pos <= |js| && At(js, pos) != '\0' && SpellsCtx(js, ctx, pos)
    ensures var r := BuildStep(js, cap, pos, ctx); r.Go? ==> SpellsCtx(js, r.ctx, r.pos)
  {
    var c := js[pos];
    var r := BuildStep(js, cap, pos, ctx);
    if r.Go? {
      if IsOpening(c) {
      } else if IsClosing(c) {
        CloseReportsSpelling(js, pos, ctx);
      } else if c == '\"' {
        LeafReportsSpelling(js, pos, ctx, Tree(String, pos + 1, ScanString(js, pos + 1).quote, []));
      } else if IsSeparator(c) {
        SpellsSkip(js, ctx, pos);
      } else {
        LeafReportsSpelling(js, pos, ctx, Tree(Primitive, pos, PrimitiveEnd(js, pos), []));
      }
    }
  }

  lemma {:induction false} BuildReportsSpelling(js: string, cap: nat, pos: nat, ctx: Ctx)
    requires pos <= |js| && SpellsCtx(js, ctx, pos)
    ensures var b := Build(js, cap, pos, ctx); SpellsCtx(js, b.ctx, b.pos)
    decreases |js| - pos
  {
    if At(js, pos) != '\0' {
      var r := BuildStep(js, cap, pos, ctx);
      if r.Go? {
        StepReportsSpelling(js, cap, pos, ctx);
        BuildReportsSpelling(js, cap, r.pos, r.ctx);
      }
    }
  }

  lemma {:induction false} ListingAddKidLength(ctx: Ctx, t: Tree)
    ensures |Listing(AddKid(ctx, t), 0)| == |Listing(ctx, 0)| + |Flatten(t)|
  {
    ListingAddKid(ctx, t);
    ListingBump(ctx);
  }

  lemma {:induction false} BuildFits(js: string, cap: nat, pos: nat, ctx: Ctx)
    requires pos <= |js| && |Listing(ctx, 0)| <= cap
    ensures |Listing(Build(js, cap, pos, ctx).ctx, 0)| <= cap
    decreases |js| - pos
  {
    if At(js, pos) != '\0' {
      EncodeValid(js, pos, ctx);
      StepSimulates(js, cap, pos, ctx);
      var r := BuildStep(js, cap, pos, ctx);
      if r.Go? { BuildFits(js, cap, r.pos, r.ctx); }
    }
  }

  // ----- what is there is reported

  function AddKids(ctx: Ctx, ts: seq<Tree>): Ctx {
    match ctx
    case Top(done) => Top(done + ts)
    case In(outer, kind, start, kids) => In(outer, kind, start, kids + ts)
  }

  lemma {:induction false} SkipGap(js: string, cap: nat, a: nat, b: nat, ctx: Ctx)
    requires Gap(js, a, b)
    ensures Build(js, cap, a, ctx) == Build(js, cap, b, ctx)
    decreases b - a
  {
    if a < b { SkipGap(js, cap, a + 1, b, ctx); }
  }

  lemma {:induction false} BuildsLeaf(js: string, cap: nat, t: Tree, ctx: Ctx)
    requires Spells(js, t) && t.kids == [] && (t.kind == String || t.kind == Primitive)
    requires |Listing(ctx, 0)| < cap
    ensures 0 <= Lo(t) < Hi(t) <= |js|
    ensures Build(js, cap, Lo(t), ctx) == Build(js, cap, Hi(t), AddKid(ctx, t))
  {
    assert BuildStep(js, cap, Lo(t), ctx) == Go(Hi(t), AddKid(ctx, t));
  }

  lemma {:induction false} BuildsOpening(js: string, cap: nat, pos: nat, ctx: Ctx)
    requires pos < |js| && IsOpening(js[pos]) && |Listing(ctx, 0)| < cap
    ensures Build(js, cap, pos, ctx) == Build(js, cap, pos + 1, In(ctx, KindOf(js[pos]), pos, []))
    ensures |Listing(In(ctx, KindOf(js[pos]), pos, []), 0)| == |Listing(ctx, 0)| + 1
  {
    ListingBump(ctx);
    assert BuildStep(js, cap, pos, ctx) == Go(pos + 1, In(ctx, KindOf(js[pos]), pos, []));
  }

  lemma {:induction false} BuildsClosing(js: string, cap: nat, pos: nat, ctx: Ctx)
    requires pos < |js| && IsClosing(js[pos]) && ctx.In? && ctx.kind == KindOf(js[pos])
    ensures Build(js, cap, pos, ctx) ==
            Build(js, cap, pos + 1, AddKid(ctx.outer, Tree(ctx.kind, ctx.start, pos + 1, ctx.kids)))
  {
    assert BuildStep(js, cap, pos, ctx) == Go(pos + 1, AddKid(ctx.outer, Tree(ctx.kind, ctx.start, pos + 1, ctx.kids)));
  }

  lemma {:induction false} BuildsValue(js: string, cap: nat, t: Tree, ctx: Ctx)
    requires Spells(js, t) && |Listing(ctx, 0)| + |Flatten(t)| <= cap
    ensures 0 <= Lo(t) < Hi(t) <= |js|
    ensures Build(js, cap, Lo(t), ctx) == Build(js, cap, Hi(t), AddKid(ctx, t))
    decreases t, 2
  {
    if t.kind == String || t.kind == Primitive {
      BuildsLeaf(js, cap, t, ctx);
    } else {
      BuildsContainer(js, cap, t, ctx);
    }
  }

  lemma {:induction false} BuildsContainer(js: string, cap: nat, t: Tree, ctx: Ctx)
    requires Bracketed(js, t) && SpellsAll(js, t.kids, t.start + 1, t.end - 1)
    requires |Listing(ctx, 0)| + |Flatten(t)| <= cap
    ensures Build(js, cap, t.start, ctx) == Build(js, cap, t.end, AddKid(ctx, t))
    decreases t, 1
  {
    BuildsOpening(js, cap, t.start, ctx);
    BuildsInside(js, cap, t, ctx);
    BuildsClosing(js, cap, t.end - 1, In(ctx, t.kind, t.start, t.kids));
  }

  lemma {:induction false} BuildsInside(js: string, cap: nat, t: Tree, ctx: Ctx)
    requires 0 <= t.start + 1 <= t.end - 1 <= |js| && SpellsAll(js, t.kids, t.start + 1, t.end - 1)
    requires |Listing(ctx, 0)| + |Flatten(t)| <= cap
    ensures Build(js, cap, t.start + 1, In(ctx, t.kind, t.start, [])) ==
            Build(js, cap, t.end - 1, In(ctx, t.kind, t.start, t.kids))
    decreases t, 0
  {
    var inner := In(ctx, t.kind, t.start, []);
    ListingBump(ctx);
    BuildsValues(js, cap, t.kids, t.start + 1, t.end - 1, inner);
    assert [] + t.kids == t.kids;
  }

  lemma {:induction false} BuildsValues(js: string, cap: nat, ts: seq<Tree>, lo: nat, hi: nat, ctx: Ctx)
    requires SpellsAll(js, ts, lo, hi) && |Listing(ctx, 0)| + |FlattenAll(ts)| <= cap
    ensures lo <= hi <= |js|
    ensures Build(js, cap, lo, ctx) == Build(js, cap, hi, AddKids(ctx, ts))
    decreases ts
  {
    SpellsAllBounds(js, ts, lo, hi);
    if ts == [] {
      SkipGap(js, cap, lo, hi, ctx);
      assert AddKids(ctx, ts) == ctx;
    } else {
      var t, rest := ts[0], ts[1..];
      SkipGap(js, cap, lo, Lo(t), ctx);
      BuildsValue(js, cap, t, ctx);
      ListingAddKidLength(ctx, t);
      BuildsValues(js, cap, rest, Hi(t), hi, AddKid(ctx, t));
      AddKidsCons(ctx, t, rest);
      assert ts == [t] + rest;
    }
  }

  lemma {:induction false} AddKidsCons(ctx: Ctx, t: Tree, rest: seq<Tree>)
    ensures AddKids(AddKid(ctx, t), rest) == AddKids(ctx, [t] + rest)
  {
    match ctx
    case Top(done) => assert done + [t] + rest == done + ([t] + rest);
    case In(_, _, _, kids) => assert kids + [t] + rest == kids + ([t] + rest);
  }

  /** n is the length of the C string js. */
  ghost predicate IsLength(js: string, n: nat) {
    n <= |js| && At(js, n) == '\0' && forall k :: 0 <= k < n ==> js[k] != '\0'
  }

  lemma {:induction false} BuildStopsAtEnd(js: string, cap: nat, n: nat, pos: nat, ctx: Ctx)
    requires IsLength(js, n) && pos <= n
    ensures var b := Build(js, cap, pos, ctx); b.code == Success ==> b.pos == n && b.ctx.Top?
    decreases n - pos
  {
    if pos < n {
      var r := BuildStep(js, cap, pos, ctx);
      if r.Go? {
        StepStaysInString(js, cap, n, pos, ctx);
        BuildStopsAtEnd(js, cap, n, r.pos, r.ctx);
      }
    }
  }

  lemma {:induction false} StepStaysInString(js: string, cap: nat, n: nat, pos: nat, ctx: Ctx)
    requires IsLength(js, n) && pos < n
    ensures var r := BuildStep(js, cap, pos, ctx); r.Go? ==> r.pos <= n
  {
    ScanStaysInString(js, n, pos + 1);
    PrimitiveStaysInString(js, n, pos);
  }

  lemma {:induction false} ScanStaysInString(js: string, n: nat, p: nat)
    requires IsLength(js, n) && p <= n
    ensures var r := ScanString(js, p); r.Closed? ==> r.quote < n
    decreases n - p
  {
    if p < n && js[p] != '\"' {
      if js[p] != '\\' { ScanStaysInString(js, n, p + 1); }
      else if IsEscapable(At(js, p + 1)) { ScanStaysInString(js, n, p + 2); }
    }
  }

  lemma {:induction false} PrimitiveStaysInString(js: string, n: nat, p: nat)
    requires IsLength(js, n) && p <= n
    ensures PrimitiveEnd(js, p) <= n
    decreases n - p
  {
    if p < n && !IsDelimiter(js[p]) && IsPlain(js[p]) { PrimitiveStaysInString(js, n, p + 1); }
  }

  /** A text is accepted with the forest ts exactly when it spells ts and the
      tokens of ts fit; so the parse of a text is unique. */
  lemma {:induction false} AcceptsExactlySpellings(js: string, n: nat, cap: nat, ts: seq<Tree>)
    requires IsLength(js, n)
    ensures Build(js, cap, 0, Top([])) == Built(n, Top(ts), Success) <==>
            SpellsAll(js, ts, 0, n) && |FlattenAll(ts)| <= cap
  {
    var b := Build(js, cap, 0, Top([]));
    if SpellsAll(js, ts, 0, n) && |FlattenAll(ts)| <= cap {
      BuildsValues(js, cap, ts, 0, n, Top([]));
      assert [] + ts == ts;
    }
    BuildReportsSpelling(js, cap, 0, Top([]));
    BuildFits(js, cap, 0, Top([]));
  }

  /** The same of the tokenizer's own result: it succeeds exactly on the texts
      that spell some forest that fits, and then lists that forest in preorder. */
  lemma {:induction false} TokenizesExactlySpellings(js: string, n: nat, cap: nat)
    requires IsLength(js, n)
    ensures Init.Valid(js)
    ensures Run(js, cap, Init).1 == Success <==>
            exists ts :: SpellsAll(js, ts, 0, n) && |FlattenAll(ts)| <= cap
    ensures forall ts :: SpellsAll(js, ts, 0, n) && |FlattenAll(ts)| <= cap ==>
                           Run(js, cap, Init) == (State(n, FlattenAll(ts), -1), Success)
  {
    assert Encode(0, Top([])) == Init;
    TokenizerBuildsTrees(js, cap, 0, Top([]));
    var b := Build(js, cap, 0, Top([]));
    if Run(js, cap, Init).1 == Success {
      BuildStopsAtEnd(js, cap, n, 0, Top([]));
      AcceptsExactlySpellings(js, n, cap, b.ctx.done);
    }
    forall ts | SpellsAll(js, ts, 0, n) && |FlattenAll(ts)| <= cap
      ensures Run(js, cap, Init) == (State(n, FlattenAll(ts), -1), Success)
    {
      AcceptsExactlySpellings(js, n, cap, ts);
    }
  }
}
