/** Single words and strings, character by character: which are read and which are refused. */
module JsonWords {
  import opened JsmnSpec
  import opened JsonForest
  import opened JsonGrammar
  import opened JsonPrint

  /** Any printable word without blanks, colons, commas and closing brackets that does not
      begin a string or a container is one primitive, whole. */
  lemma {:induction false} WordIsOneToken(lead: string, word: string, trail: string, cap: nat)
    requires cap >= 1 && word != "" && word[0] !in "\"{["
    requires forall k :: 0 <= k < |word| ==> ' ' <= word[k] <= '~' && word[k] !in " :,]}"
    requires forall k :: 0 <= k < |lead| ==> lead[k] in " \t\r\n"
    requires forall k :: 0 <= k < |trail| ==> trail[k] in " \t\r\n"
    ensures var js := lead + word + trail;
            Init.Valid(js) &&
            Run(js, cap, Init) == (State(|js|, [Token(Primitive, |lead|, |lead| + |word|, 0)], -1), Success)
  {
    assert Flatten(TreeOf(Prim(word), |lead|)) == [Token(Primitive, |lead|, |lead| + |word|, 0)];
    PrintThenParse(lead, Prim(word), trail, cap);
  }

  /** What the tokenizer makes of a text after blanks, from what the tree builder does. */
  lemma {:induction false} RunsBehindBlanks(js: string, cap: nat, lead: string)
    requires Has(js, 0, lead) && Blank(lead)
    ensures var b := Build(js, cap, |lead|, Top([])); Run(js, cap, Init) == (Encode(b.pos, b.ctx), b.code)
  {
    SeparatorGap(js, 0, lead);
    SkipGap(js, cap, 0, |lead|, Top([]));
    TokenizerBuildsTrees(js, cap, 0, Top([]));
  }

  /** What the tree builder stops at in the outermost level, after blanks, the tokenizer
      stops at without a token. */
  lemma {:induction false} StopsAtFirst(js: string, cap: nat, lead: string, code: Code)
    requires Has(js, 0, lead) && Blank(lead) && At(js, |lead|) != '\0'
    requires BuildStep(js, cap, |lead|, Top([])) == Halt(code)
    ensures Run(js, cap, Init) == (State(|lead|, [], -1), code)
  {
    RunsBehindBlanks(js, cap, lead);
  }

  lemma {:induction false} IllegalStops(js: string, p: nat, x: nat)
    requires p <= x < |js| && !(' ' <= js[x] <= '~') && js[x] !in "\0\t\r\n"
    requires forall k :: p <= k < x ==> IsBare(js[k])
    ensures PrimitiveEnd(js, p) == -1
    decreases x - p
  {
    if p < x { IllegalStops(js, p + 1, x); }
  }

  /** A word with any other character in it, before anything ends it, is refused, and so is
      such a character alone. */
  lemma {:induction false} WordIsRefused(lead: string, word: string, bad: char, more: string, cap: nat)
    requires word != "" ==> word[0] !in "\"{["
    requires forall k :: 0 <= k < |word| ==> ' ' <= word[k] <= '~' && word[k] !in " :,]}"
    requires !(' ' <= bad <= '~') && bad !in "\0\t\r\n"
    requires forall k :: 0 <= k < |lead| ==> lead[k] in " \t\r\n"
    ensures Run(lead + word + [bad] + more, cap, Init) == (State(|lead|, [], -1), Inval)
  {
    var js := lead + word + [bad] + more;
    assert js[|lead|] == if word == "" then bad else word[0];
    IllegalStops(js, |lead|, |lead| + |word|);
    StopsAtFirst(js, cap, lead, Inval);
  }

  lemma {:induction false} ScansOn(js: string, p: nat, raw: string)
    requires Has(js, p, raw) && WellEscaped(raw)
    ensures ScanString(js, p) == ScanString(js, p + |raw|)
    decreases |raw|
  {
    if raw != [] {
      var d := if raw[0] == '\\' then 2 else 1;
      HasAt(js, p, raw, 0);
      HasAt(js, p, raw, d - 1);
      HasParts(js, p, raw[..d], raw[d..]);
      assert raw == raw[..d] + raw[d..];
      ScansOn(js, p + d, raw[d..]);
    }
  }

  /** Where the parts of a text stand. */
  lemma {:induction false} PartsStand(lead: string, open: char, inside: string, end: string)
    ensures var js := lead + [open] + inside + end;
            && Has(js, 0, lead) && js[|lead|] == open && Has(js, |lead| + 1, inside)
            && forall k: nat :: At(js, |lead| + 1 + |inside| + k) == At(end, k)
  {
  }

  lemma {:induction false} StringStops(js: string, cap: nat, lead: string, raw: string)
    requires Has(js, 0, lead) && Blank(lead) && At(js, |lead|) == '\"' && Has(js, |lead| + 1, raw) && WellEscaped(raw)
    ensures var q := |lead| + 1 + |raw|;
            && (At(js, q) == '\0' ==> Run(js, cap, Init) == (State(|lead|, [], -1), Part))
            && (At(js, q) == '\\' && At(js, q + 1) !in "\"\\/bfnrtu" ==> Run(js, cap, Init) == (State(|lead|, [], -1), Inval))
  {
    ScansOn(js, |lead| + 1, raw);
    var q := |lead| + 1 + |raw|;
    if At(js, q) == '\0' { StopsAtFirst(js, cap, lead, Part); }
    if At(js, q) == '\\' && At(js, q + 1) !in "\"\\/bfnrtu" { StopsAtFirst(js, cap, lead, Inval); }
  }

  /** A string with no closing quote is reported as cut off; one with a backslash before
      anything but the nine letters of an escape is refused. */
  lemma {:induction false} BrokenStringIsReported(lead: string, raw: string, end: string, cap: nat)
    requires WellEscaped(raw) && forall k :: 0 <= k < |lead| ==> lead[k] in " \t\r\n"
    ensures end == "" ==> Run(lead + "\"" + raw + end, cap, Init) == (State(|lead|, [], -1), Part)
    ensures end != "" && end[0] == '\\' && (|end| == 1 || end[1] !in "\"\\/bfnrtu") ==>
              Run(lead + "\"" + raw + end, cap, Init) == (State(|lead|, [], -1), Inval)
  {
    PartsStand(lead, '\"', raw, end);
    StringStops(lead + "\"" + raw + end, cap, lead, raw);
  }

  /** The tree builder opens a container and reads the values in it. */
  lemma {:induction false} Opens(js: string, cap: nat, p: nat, trees: seq<Tree>, q: nat)
    requires p < |js| && q <= |js| && IsOpening(js[p]) && SpellsAll(js, trees, p + 1, q) && |FlattenAll(trees)| < cap
    ensures Build(js, cap, p, Top([])) == Build(js, cap, q, In(Top([]), KindOf(js[p]), p, trees))
  {
    BuildsOpening(js, cap, p, Top([]));
    BuildsValues(js, cap, trees, p + 1, q, In(Top([]), KindOf(js[p]), p, []));
    assert [] + trees == trees;
  }

  /** And stops where the text ends, or at a bracket that does not match. */
  lemma {:induction false} EndsWrongly(js: string, cap: nat, lead: string, trees: seq<Tree>, q: nat)
    requires Has(js, 0, lead) && Blank(lead) && |lead| < |js| && IsOpening(js[|lead|])
    requires q <= |js| && SpellsAll(js, trees, |lead| + 1, q) && |FlattenAll(trees)| < cap
    requires At(js, q) == '\0' || (IsClosing(At(js, q)) && KindOf(At(js, q)) != KindOf(js[|lead|]))
    ensures Run(js, cap, Init).1 == (if At(js, q) == '\0' then Part else Inval) && Run(js, cap, Init).0.pos == q
  {
    Opens(js, cap, |lead|, trees, q);
    RunsBehindBlanks(js, cap, lead);
  }

  /** Containers do not end with the wrong bracket, or with the text: once the items of an
      array or an object have been read behind its opening bracket, up to q, a closing bracket
      of the other kind is refused and the end of the text is reported as such. */
  lemma {:induction false} WrongEndIsReported(js: string, lead: string, keyed: bool, items: seq<Item>, inner: string,
                                              inside: string, q: nat, cap: nat)
    requires LegalItems(keyed, items) && Blank(inner) && inside == PrintItems(keyed, items) + inner
    requires |FlattenAll(ItemTrees(keyed, items, |lead| + 1))| < cap
    requires Blank(lead) && Has(js, 0, lead) && At(js, |lead|) == (if keyed then '{' else '[') && Has(js, |lead| + 1, inside)
    requires q == |lead| + 1 + |inside| && (At(js, q) == '\0' || At(js, q) == if keyed then ']' else '}')
    ensures Run(js, cap, Init).1 == (if At(js, q) == '\0' then Part else Inval) && Run(js, cap, Init).0.pos == q
  {
    BodySpells(js, |lead| + 1, keyed, items, inner);
    EndsWrongly(js, cap, lead, ItemTrees(keyed, items, |lead| + 1), q);
  }
}
