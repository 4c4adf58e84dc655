/** Printing a JSON value with any legal whitespace and tokenizing it again gives
    back exactly the value's tree. */
module JsonPrint {
  import opened JsmnSpec
  import opened JsonForest
  import opened JsonGrammar

  /** A JSON value (RFC 8259 sections 2 to 7) together with its whitespace.
      Strings are kept in their escaped form, primitives as they are spelled, and
      an object lists its keys and values in turn. */
  datatype Doc =
    | Prim(text: string)
    | Str(raw: string)
    | Arr(items: seq<Item>, inner: string)
    | Obj(items: seq<Item>, inner: string)

  datatype Item = Item(before: string, value: Doc, after: string)

  /** What follows an item: a key is followed by a colon, a value by a comma. */
  function Mark(keyed: bool, left: nat): string {
    if left == 0 then "" else if keyed && left % 2 == 1 then ":" else ","
  }

  function Print(d: Doc): string
    decreases d
  {
    match d
    case Prim(text) => text
    case Str(raw) => "\"" + raw + "\""
    case Arr(items, inner) => "[" + (PrintItems(false, items) + inner) + "]"
    case Obj(items, inner) => "{" + (PrintItems(true, items) + inner) + "}"
  }

  function PrintItems(keyed: bool, items: seq<Item>): string
    decreases items
  {
    if items == [] then ""
    else
      items[0].before + (Print(items[0].value) +
      ((items[0].after + Mark(keyed, |items| - 1)) + PrintItems(keyed, items[1..])))
  }

  ghost predicate Blank(s: string) {
    forall k :: 0 <= k < |s| ==> s[k] in " \t\r\n"
  }

  /** A character of an unquoted word: printable ASCII, and none that separates or closes. */
  predicate IsBare(c: char) {
    ' ' <= c <= '~' && c !in " :,]}"
  }

  ghost predicate LegalPrimitive(s: string) {
    s != "" && s[0] !in "\"{[" && forall k :: 0 <= k < |s| ==> IsBare(s[k])
  }

  /** No bare quote, no NUL, and every backslash begins an escape. */
  predicate WellEscaped(s: string) {
    if s == [] then true
    else if s[0] == '\\' then |s| >= 2 && s[1] in "\"\\/bfnrtu" && WellEscaped(s[2..])
    else s[0] != '\"' && s[0] != '\0' && WellEscaped(s[1..])
  }

  ghost predicate Legal(d: Doc)
    decreases d
  {
    match d
    case Prim(text) => LegalPrimitive(text)
    case Str(raw) => WellEscaped(raw)
    case Arr(items, inner) => Blank(inner) && LegalItems(false, items)
    case Obj(items, inner) => Blank(inner) && |items| % 2 == 0 && LegalItems(true, items)
  }

  ghost predicate LegalItems(keyed: bool, items: seq<Item>)
    decreases items
  {
    items != [] ==>
      && Blank(items[0].before) && Legal(items[0].value) && Blank(items[0].after)
      && (keyed && |items| % 2 == 0 ==> items[0].value.Str?)
      && LegalItems(keyed, items[1..])
  }

  /** The tree a value stands for when its text begins at `at`. */
  function TreeOf(d: Doc, at: nat): Tree
    decreases d
  {
    var end := at + |Print(d)|;
    match d
    case Prim(text) => Tree(Primitive, at, end, [])
    case Str(raw) => Tree(String, at + 1, end - 1, [])
    case Arr(items, _) => Tree(Array, at, end, ItemTrees(false, items, at + 1))
    case Obj(items, _) => Tree(Object, at, end, ItemTrees(true, items, at + 1))
  }

  function ItemTrees(keyed: bool, items: seq<Item>, at: nat): seq<Tree>
    decreases items
  {
    if items == [] then []
    else
      var v := at + |items[0].before|;
      [TreeOf(items[0].value, v)] + ItemTrees(keyed, items[1..], NextAt(items[0], Mark(keyed, |items| - 1), at))
  }

  /** Where the text after an item begins. */
  function NextAt(it: Item, mark: string, at: nat): nat {
    at + |it.before| + |Print(it.value)| + |it.after + mark|
  }

  // ----- texts at positions

  ghost predicate Has(js: string, p: nat, s: string) {
    p + |s| <= |js| && forall k :: 0 <= k < |s| ==> js[p + k] == s[k]
  }

  lemma {:induction false} HasParts(js: string, p: nat, a: string, b: string)
    requires Has(js, p, a + b)
    ensures Has(js, p, a) && Has(js, p + |a|, b)
  {
    forall k | 0 <= k < |a| ensures js[p + k] == a[k] { assert (a + b)[k] == a[k]; }
    forall k | 0 <= k < |b| ensures js[p + |a| + k] == b[k] { assert (a + b)[|a| + k] == b[k]; }
  }

  lemma {:induction false} HasAt(js: string, p: nat, s: string, k: nat)
    requires Has(js, p, s) && k < |s|
    ensures js[p + k] == s[k]
  {
  }

  lemma {:induction false} ScansRaw(js: string, p: nat, raw: string)
    requires Has(js, p, raw) && WellEscaped(raw) && At(js, p + |raw|) == '\"'
    ensures ScanString(js, p) == Closed(p + |raw|)
    decreases |raw|
  {
    if raw != [] {
      HasAt(js, p, raw, 0);
      if raw[0] == '\\' {
        HasAt(js, p, raw, 1);
        HasParts(js, p, raw[..2], raw[2..]);
        assert raw == raw[..2] + raw[2..];
        ScansRaw(js, p + 2, raw[2..]);
      } else {
        HasParts(js, p, raw[..1], raw[1..]);
        assert raw == raw[..1] + raw[1..];
        ScansRaw(js, p + 1, raw[1..]);
      }
    }
  }

  lemma {:induction false} ScansPrimitive(js: string, p: nat, s: string, k: nat)
    requires Has(js, p, s) && k <= |s| && (At(js, p + |s|) == '\0' || IsDelimiter(At(js, p + |s|)))
    requires forall k :: 0 <= k < |s| ==> IsBare(s[k])
    ensures PrimitiveEnd(js, p + k) == p + |s|
    decreases |s| - k
  {
    if k < |s| {
      HasAt(js, p, s, k);
      ScansPrimitive(js, p, s, k + 1);
    }
  }

  /** What may follow a value: a primitive must be ended by a delimiter or the end of the text. */
  predicate Ended(js: string, p: nat) {
    At(js, p) == '\0' || IsDelimiter(At(js, p))
  }

  lemma {:induction false} SeparatorGap(js: string, p: nat, s: string)
    requires Has(js, p, s) && forall k :: 0 <= k < |s| ==> IsSeparator(s[k])
    ensures Gap(js, p, p + |s|)
  {
    forall k | p <= k < p + |s| ensures IsSeparator(js[k]) { HasAt(js, p, s, k - p); }
  }

  /** A position from which separators lead to an end ends a value too. */
  lemma {:induction false} EndedBefore(js: string, p: nat, sep: string)
    requires Has(js, p, sep) && Ended(js, p + |sep|)
    requires forall k :: 0 <= k < |sep| ==> IsSeparator(sep[k])
    ensures Ended(js, p)
  {
    if sep != [] { HasAt(js, p, sep, 0); }
  }

  // ----- printed text spells its tree

  lemma {:induction false} LeafSpells(js: string, p: nat, d: Doc)
    requires (d.Prim? || d.Str?) && Has(js, p, Print(d)) && Legal(d) && Ended(js, p + |Print(d)|)
    ensures Spells(js, TreeOf(d, p))
  {
    if d.Prim? {
      HasAt(js, p, d.text, 0);
      ScansPrimitive(js, p, d.text, 0);
    } else {
      HasParts(js, p, "\"" + d.raw, "\"");
      HasParts(js, p, "\"", d.raw);
      HasAt(js, p, "\"", 0);
      HasAt(js, p + 1 + |d.raw|, "\"", 0);
      ScansRaw(js, p + 1, d.raw);
    }
  }

  lemma {:induction false} Extent(d: Doc, p: nat)
    ensures Lo(TreeOf(d, p)) == p && Hi(TreeOf(d, p)) == p + |Print(d)|
  {
  }

  /** The body of a bracketed text, and the brackets around it. */
  lemma {:induction false} BodyOf(js: string, p: nat, open: char, body: string, close: char)
    requires Has(js, p, [open] + body + [close])
    ensures At(js, p) == open && Has(js, p + 1, body) && At(js, p + 1 + |body|) == close
  {
    HasParts(js, p, [open] + body, [close]);
    HasParts(js, p, [open], body);
    HasAt(js, p, [open] + body + [close], 0);
    HasAt(js, p, [open] + body + [close], |body| + 1);
  }

  lemma {:induction false} DocSpells(js: string, p: nat, d: Doc)
    requires Has(js, p, Print(d)) && Legal(d) && Ended(js, p + |Print(d)|)
    ensures Spells(js, TreeOf(d, p))
    decreases d, 1
  {
    match d
    case Prim(_) => LeafSpells(js, p, d);
    case Str(_) => LeafSpells(js, p, d);
    case Arr(_, _) => ArrSpells(js, p, d);
    case Obj(_, _) => ObjSpells(js, p, d);
  }

  lemma {:induction false} ArrSpells(js: string, p: nat, d: Doc)
    requires d.Arr? && Has(js, p, Print(d)) && Legal(d)
    ensures Spells(js, TreeOf(d, p))
    decreases d, 0
  {
    BodyOf(js, p, '[', PrintItems(false, d.items) + d.inner, ']');
    BodySpells(js, p + 1, false, d.items, d.inner);
  }

  lemma {:induction false} ObjSpells(js: string, p: nat, d: Doc)
    requires d.Obj? && Has(js, p, Print(d)) && Legal(d)
    ensures Spells(js, TreeOf(d, p))
    decreases d, 0
  {
    BodyOf(js, p, '{', PrintItems(true, d.items) + d.inner, '}');
    BodySpells(js, p + 1, true, d.items, d.inner);
  }

  lemma {:induction false} BodySpells(js: string, p: nat, keyed: bool, items: seq<Item>, inner: string)
    requires Has(js, p, PrintItems(keyed, items) + inner) && LegalItems(keyed, items) && Blank(inner)
    requires Ended(js, p + |PrintItems(keyed, items) + inner|)
    ensures SpellsAll(js, ItemTrees(keyed, items, p), p, p + |PrintItems(keyed, items) + inner|)
    decreases items, 1
  {
    var e := p + |PrintItems(keyed, items)|;
    HasParts(js, p, PrintItems(keyed, items), inner);
    EndedBefore(js, e, inner);
    ItemsSpell(js, p, keyed, items, e);
    SeparatorGap(js, e, inner);
    SpellsMore(js, ItemTrees(keyed, items, p), p, e, e + |inner|);
  }

  /** The pieces of an item's text and what comes after it. */
  lemma {:induction false} ItemParts(js: string, p: nat, it: Item, mark: string, rest: string)
    requires Has(js, p, it.before + (Print(it.value) + ((it.after + mark) + rest)))
    requires Blank(it.before) && Blank(it.after)
    requires mark == "," || mark == ":" || (mark == "" && rest == "" && Ended(js, NextAt(it, mark, p)))
    ensures var v := p + |it.before|;
            var q := v + |Print(it.value)|;
            var r := NextAt(it, mark, p);
            Gap(js, p, v) && Has(js, v, Print(it.value)) && Ended(js, q) && Gap(js, q, r) && Has(js, r, rest)
  {
    var v := p + |it.before|;
    var q := v + |Print(it.value)|;
    HasParts(js, p, it.before, Print(it.value) + ((it.after + mark) + rest));
    HasParts(js, v, Print(it.value), (it.after + mark) + rest);
    HasParts(js, q, it.after + mark, rest);
    SeparatorGap(js, p, it.before);
    SeparatorGap(js, q, it.after + mark);
    if it.after + mark != [] { HasAt(js, q, it.after + mark, 0); }
  }

  /** The first of some items: its text, and where the rest of the text is. */
  lemma {:induction false} FirstItem(js: string, p: nat, keyed: bool, items: seq<Item>, e: nat)
    requires items != [] && LegalItems(keyed, items)
    requires Has(js, p, PrintItems(keyed, items)) && e == p + |PrintItems(keyed, items)| && Ended(js, e)
    ensures var it, rest := items[0], items[1..];
            var v := p + |it.before|;
            var q := v + |Print(it.value)|;
            var r := NextAt(it, Mark(keyed, |items| - 1), p);
            && Gap(js, p, v) && Has(js, v, Print(it.value)) && Ended(js, q) && Gap(js, q, r)
            && Has(js, r, PrintItems(keyed, rest)) && e == r + |PrintItems(keyed, rest)|
            && Legal(it.value) && LegalItems(keyed, rest)
  {
    var it, rest, mark := items[0], items[1..], Mark(keyed, |items| - 1);
    ItemParts(js, p, it, mark, PrintItems(keyed, rest));
  }

  lemma {:induction false} ItemStep(js: string, p: nat, keyed: bool, items: seq<Item>, hi: int)
    requires items != []
    requires var v := p + |items[0].before|;
             var r := NextAt(items[0], Mark(keyed, |items| - 1), p);
             var t := TreeOf(items[0].value, v);
             && Gap(js, p, v) && Lo(t) == v && Spells(js, t) && Gap(js, Hi(t), r)
             && SpellsAll(js, ItemTrees(keyed, items[1..], r), r, hi)
    ensures SpellsAll(js, ItemTrees(keyed, items, p), p, hi)
  {
    var v := p + |items[0].before|;
    var r := NextAt(items[0], Mark(keyed, |items| - 1), p);
    var t, later := TreeOf(items[0].value, v), ItemTrees(keyed, items[1..], r);
    SpellsEarlier(js, later, Hi(t), r, hi);
    assert ([t] + later)[1..] == later;
  }

  /** What remains to be shown of some items: their first value, and the rest. */
  lemma {:induction false} ItemFrame(js: string, p: nat, keyed: bool, items: seq<Item>, e: nat)
    requires items != [] && LegalItems(keyed, items)
    requires Has(js, p, PrintItems(keyed, items)) && e == p + |PrintItems(keyed, items)| && Ended(js, e)
    ensures var it, rest := items[0], items[1..];
            var v := p + |it.before|;
            var r := NextAt(it, Mark(keyed, |items| - 1), p);
            && Has(js, v, Print(it.value)) && Legal(it.value) && Ended(js, v + |Print(it.value)|)
            && Has(js, r, PrintItems(keyed, rest)) && e == r + |PrintItems(keyed, rest)| && LegalItems(keyed, rest)
            && (Spells(js, TreeOf(it.value, v)) && SpellsAll(js, ItemTrees(keyed, rest, r), r, e) ==>
                SpellsAll(js, ItemTrees(keyed, items, p), p, e))
  {
    var it, rest := items[0], items[1..];
    var v, r := p + |it.before|, NextAt(it, Mark(keyed, |items| - 1), p);
    FirstItem(js, p, keyed, items, e);
    Extent(it.value, v);
    if Spells(js, TreeOf(it.value, v)) && SpellsAll(js, ItemTrees(keyed, rest, r), r, e) {
      ItemStep(js, p, keyed, items, e);
    }
  }

  lemma {:induction false} ItemsSpell(js: string, p: nat, keyed: bool, items: seq<Item>, e: nat)
    requires Has(js, p, PrintItems(keyed, items)) && e == p + |PrintItems(keyed, items)| && Ended(js, e)
    requires LegalItems(keyed, items)
    ensures SpellsAll(js, ItemTrees(keyed, items, p), p, e)
    decreases items, 0
  {
    if items != [] {
      ItemFrame(js, p, keyed, items, e);
      DocSpells(js, p + |items[0].before|, items[0].value);
      ItemsSpell(js, NextAt(items[0], Mark(keyed, |items| - 1), p), keyed, items[1..], e);
    }
  }

  lemma {:induction false} SpellsEarlier(js: string, ts: seq<Tree>, a: int, b: int, hi: int)
    requires Gap(js, a, b) && SpellsAll(js, ts, b, hi)
    ensures SpellsAll(js, ts, a, hi)
  {
  }

  /** Printer/parser round trip: with enough tokens, the tokenizer succeeds on a
      printed value and its tokens are exactly the value's tree in preorder. */
  lemma {:induction false} PrintThenParse(lead: string, d: Doc, trail: string, cap: nat)
    requires Legal(d) && Blank(lead) && Blank(trail)
    requires |Flatten(TreeOf(d, |lead|))| <= cap
    ensures var js := lead + Print(d) + trail;
            Init.Valid(js) &&
            Run(js, cap, Init) == (State(|js|, Flatten(TreeOf(d, |lead|)), -1), Success)
  {
    var js := lead + Print(d) + trail;
    var t := TreeOf(d, |lead|);
    PrintedSpells(lead, d, trail);
    FlattenOne(t);
    BuildsValues(js, cap, [t], 0, |js|, Top([]));
    assert [] + [t] == [t];
    TokenizerBuildsTrees(js, cap, 0, Top([]));
  }

  lemma {:induction false} PrintedSpells(lead: string, d: Doc, trail: string)
    requires Legal(d) && Blank(lead) && Blank(trail)
    ensures var js := lead + Print(d) + trail; SpellsAll(js, [TreeOf(d, |lead|)], 0, |js|)
  {
    var js := lead + Print(d) + trail;
    var t := TreeOf(d, |lead|);
    var q := |lead| + |Print(d)|;
    assert Has(js, 0, js);
    HasParts(js, 0, lead + Print(d), trail);
    HasParts(js, 0, lead, Print(d));
    SeparatorGap(js, 0, lead);
    SeparatorGap(js, q, trail);
    EndedBefore(js, q, trail);
    DocSpells(js, |lead|, d);
    Extent(d, |lead|);
    assert [t][1..] == [];
    assert SpellsAll(js, [t][1..], q, |js|);
  }
}
