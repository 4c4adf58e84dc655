/** What the flat token array means.

    A stack of half-built containers (`Ctx`) is parsed by the obvious
    tree-building machine `Build`.  Every state the tokenizer reaches is the
    preorder listing of such a stack, so its back-patched ends, sizes and
    `toksuper` are a faithful encoding of a forest, for every input text. */
module JsonForest {
  import opened JsmnSpec

  datatype Tree = Tree(kind: Kind, start: nat, end: nat, kids: seq<Tree>)

  /** `Top` is the level outside all containers. */
  datatype Ctx =
    | Top(done: seq<Tree>)
    | In(outer: Ctx, kind: Kind, start: nat, kids: seq<Tree>)

  function Root(t: Tree): Token {
    Token(t.kind, t.start, t.end, |t.kids|)
  }

  function Flatten(t: Tree): (toks: seq<Token>)
    ensures |toks| >= 1 && toks[0] == Root(t)
  {
    [Root(t)] + FlattenAll(t.kids)
  }

  function FlattenAll(ts: seq<Tree>): seq<Token> {
    if ts == [] then [] else Flatten(ts[0]) + FlattenAll(ts[1..])
  }

  /** The listing of a stack whose innermost level holds `extra` more open children. */
  function Listing(ctx: Ctx, extra: nat): seq<Token> {
    match ctx
    case Top(done) => FlattenAll(done)
    case In(outer, kind, start, kids) =>
      Listing(outer, 1) + [Token(kind, start, -1, |kids| + extra)] + FlattenAll(kids)
  }

  function SuperOf(ctx: Ctx): int {
    if ctx.Top? then -1 else |Listing(ctx.outer, 1)|
  }

  function Encode(pos: nat, ctx: Ctx): State {
    State(pos, Listing(ctx, 0), SuperOf(ctx))
  }

  function AddKid(ctx: Ctx, t: Tree): Ctx {
    match ctx
    case Top(done) => Top(done + [t])
    case In(outer, kind, start, kids) => In(outer, kind, start, kids + [t])
  }

  // ----- the tree builder

  datatype Turn = Go(pos: nat, ctx: Ctx) | Halt(code: Code)

  function BuildStep(js: string, cap: nat, pos: nat, ctx: Ctx): (r: Turn)
    requires pos <= |js| && At(js, pos) != '\0'
    ensures r.Go? ==> pos < r.pos <= |js|
  {
    var c := js[pos];
    var full := |Listing(ctx, 0)| >= cap;
    if IsOpening(c) then
      if full then Halt(NoMem) else Go(pos + 1, In(ctx, KindOf(c), pos, []))
    else if IsClosing(c) then
      if ctx.Top? || ctx.kind != KindOf(c) then Halt(Inval)
      else Go(pos + 1, AddKid(ctx.outer, Tree(ctx.kind, ctx.start, pos + 1, ctx.kids)))
    else if c == '\"' then
      match ScanString(js, pos + 1)
      case BadEscape => Halt(Inval)
      case Unclosed => Halt(Part)
      case Closed(q) => if full then Halt(NoMem) else Go(q + 1, AddKid(ctx, Tree(String, pos + 1, q, [])))
    else if IsBlank(c) || c == ':' || c == ',' then
      Go(pos + 1, ctx)
    else
      var e := PrimitiveEnd(js, pos);
      if e == -1 then Halt(Inval)
      else if full then Halt(NoMem)
      else Go(e, AddKid(ctx, Tree(Primitive, pos, e, [])))
  }

  datatype Built = Built(pos: nat, ctx: Ctx, code: Code)

  function Build(js: string, cap: nat, pos: nat, ctx: Ctx): (r: Built)
    requires pos <= |js|
    ensures r.pos <= |js|
    decreases |js| - pos
  {
    if At(js, pos) == '\0' then
      Built(pos, ctx, if ctx.In? then Part else Success)
    else
      match BuildStep(js, cap, pos, ctx)
      case Halt(code) => Built(pos, ctx, code)
      case Go(pos', ctx') => Build(js, cap, pos', ctx')
  }

  // ----- listings

  lemma {:induction false} FlattenAllAppend(ts: seq<Tree>, us: seq<Tree>)
    ensures FlattenAll(ts + us) == FlattenAll(ts) + FlattenAll(us)
  {
    if ts == [] {
      assert ts + us == us;
    } else {
      assert (ts + us)[1..] == ts[1..] + us;
      FlattenAllAppend(ts[1..], us);
    }
  }

  lemma {:induction false} FlattenOne(t: Tree)
    ensures FlattenAll([t]) == Flatten(t)
  {
    assert [t][1..] == [];
  }

  ghost predicate AllClosed(toks: seq<Token>) {
    forall k :: 0 <= k < |toks| ==> toks[k].end >= 0
  }

  lemma {:induction false} FlattenClosed(t: Tree)
    ensures AllClosed(Flatten(t))
    decreases t
  {
    FlattenAllClosed(t.kids);
  }

  lemma {:induction false} FlattenAllClosed(ts: seq<Tree>)
    ensures AllClosed(FlattenAll(ts))
    decreases ts
  {
    if ts != [] {
      FlattenClosed(ts[0]);
      FlattenAllClosed(ts[1..]);
    }
  }

  lemma {:induction false} ListingBump(ctx: Ctx)
    ensures SuperOf(ctx) < |Listing(ctx, 0)|
    ensures Bump(Listing(ctx, 0), SuperOf(ctx)) == Listing(ctx, 1)
  {
  }

  lemma {:induction false} ListingAddKid(ctx: Ctx, t: Tree)
    ensures Listing(AddKid(ctx, t), 0) == Listing(ctx, 1) + Flatten(t)
    ensures SuperOf(AddKid(ctx, t)) == SuperOf(ctx)
  {
    FlattenOne(t);
    match ctx
    case Top(done) => FlattenAllAppend(done, [t]);
    case In(outer, kind, start, kids) =>
      FlattenAllAppend(kids, [t]);
      assert Listing(AddKid(ctx, t), 0) ==
             Listing(outer, 1) + [Token(kind, start, -1, |kids| + 1)] + (FlattenAll(kids) + Flatten(t));
  }

  /** The innermost unclosed token of a listing is the root of the innermost container. */
  lemma {:induction false} ListingInnermost(ctx: Ctx, extra: nat, rest: seq<Token>)
    requires AllClosed(rest)
    ensures InnermostOpen(Listing(ctx, extra) + rest, |Listing(ctx, extra) + rest|) == SuperOf(ctx)
  {
    var toks := Listing(ctx, extra) + rest;
    match ctx
    case Top(done) =>
      FlattenAllClosed(done);
      OpenPastClosed(toks, 0, |toks|);
    case In(outer, kind, start, kids) =>
      FlattenAllClosed(kids);
      OpenPastClosed(toks, SuperOf(ctx) + 1, |toks|);
  }

  // ----- simulation

  lemma {:induction false} EncodeValid(js: string, pos: nat, ctx: Ctx)
    requires pos <= |js|
    ensures Encode(pos, ctx).Valid(js)
  {
    ListingBump(ctx);
  }

  lemma {:induction false} LeafStep(ctx: Ctx, t: Tree)
    requires t.kids == []
    ensures SuperOf(ctx) < |Listing(ctx, 0)|
    ensures Encode(t.end, AddKid(ctx, t)).toks == Bump(Listing(ctx, 0), SuperOf(ctx)) + [Root(t)]
    ensures SuperOf(AddKid(ctx, t)) == SuperOf(ctx)
  {
    ListingBump(ctx);
    ListingAddKid(ctx, t);
    assert Flatten(t) == [Root(t)];
  }

  lemma {:induction false} CloseStep(ctx: Ctx, end: nat)
    requires ctx.In?
    ensures var toks := Listing(ctx, 0);
            var i := InnermostOpen(toks, |toks|);
            var t := Tree(ctx.kind, ctx.start, end, ctx.kids);
            var toks' := Listing(AddKid(ctx.outer, t), 0);
            && i == SuperOf(ctx) && toks[i].kind == ctx.kind
            && toks' == toks[i := toks[i].(end := end)]
            && InnermostOpen(toks', i) == SuperOf(AddKid(ctx.outer, t))
  {
    var toks := Listing(ctx, 0);
    var i := SuperOf(ctx);
    var t := Tree(ctx.kind, ctx.start, end, ctx.kids);
    var toks' := Listing(AddKid(ctx.outer, t), 0);
    ListingInnermost(ctx, 0, []);
    assert toks + [] == toks;
    ListingAddKid(ctx.outer, t);
    assert toks' == toks[i := toks[i].(end := end)];
    ListingInnermost(ctx.outer, 1, []);
    assert Listing(ctx.outer, 1) + [] == Listing(ctx.outer, 1) == toks'[..i];
    OpenOfPrefix(toks', i, i);
  }

  /** One turn of the tokenizer is one turn of the tree builder. */
  lemma {:induction false} StepSimulates(js: string, cap: nat, pos: nat, ctx: Ctx)
    requires pos <= |js| && At(js, pos) != '\0'
    ensures Encode(pos, ctx).Valid(js)
    ensures Step(js, cap, Encode(pos, ctx)) ==
            match BuildStep(js, cap, pos, ctx)
            case Halt(code) => Stop(code)
            case Go(pos', ctx') => Next(Encode(pos', ctx'))
  {
    EncodeValid(js, pos, ctx);
    ListingBump(ctx);
    var c := js[pos];
    if IsOpening(c) {
      assert FlattenAll([]) == [];
    } else if IsClosing(c) {
      ListingInnermost(ctx, 0, []);
      assert Listing(ctx, 0) + [] == Listing(ctx, 0);
      if ctx.In? { CloseStep(ctx, pos + 1); }
    } else if c == '\"' {
      var r := ScanString(js, pos + 1);
      if r.Closed? { LeafStep(ctx, Tree(String, pos + 1, r.quote, [])); }
    } else if !(IsBlank(c) || c == ':' || c == ',') {
      var e := PrimitiveEnd(js, pos);
      if e != -1 { LeafStep(ctx, Tree(Primitive, pos, e, [])); }
    }
  }

  /** For every text and every number of tokens, the tokenizer's flat array is
      the preorder listing of what the tree builder has built. */
  lemma {:induction false} TokenizerBuildsTrees(js: string, cap: nat, pos: nat, ctx: Ctx)
    requires pos <= |js|
    ensures Encode(pos, ctx).Valid(js)
    ensures var b := Build(js, cap, pos, ctx);
            Run(js, cap, Encode(pos, ctx)) == (Encode(b.pos, b.ctx), b.code)
    decreases |js| - pos
  {
    EncodeValid(js, pos, ctx);
    if At(js, pos) == '\0' {
      ListingInnermost(ctx, 0, []);
      assert Listing(ctx, 0) + [] == Listing(ctx, 0);
    } else {
      StepSimulates(js, cap, pos, ctx);
      var r := BuildStep(js, cap, pos, ctx);
      if r.Go? { TokenizerBuildsTrees(js, cap, r.pos, r.ctx); }
    }
  }
}
