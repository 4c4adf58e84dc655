/** An object written out, tokenized and looked into: the whole way from a value's text to
    an answer, in terms of the value. */
module JsonRead {
  import opened JsmnSpec
  import opened JsonForest
  import opened JsonGrammar
  import opened JsonLookup
  import opened JsonPrint

  function KindOfDoc(d: Doc): Kind {
    match d
    case Prim(_) => Primitive
    case Str(_) => String
    case Arr(_, _) => Array
    case Obj(_, _) => Object
  }

  /** The text a value's token spans: that of a string lies between its quotes. */
  function Inside(d: Doc): string {
    match d
    case Str(raw) => raw
    case _ => Print(d)
  }

  ghost predicate TreeReads(js: string, t: Tree, d: Doc) {
    t.kind == KindOfDoc(d) && t.start <= t.end <= |js| && js[t.start..t.end] == Inside(d)
  }

  lemma {:induction false} DocReads(js: string, p: nat, d: Doc)
    requires Has(js, p, Print(d))
    ensures TreeReads(js, TreeOf(d, p), d)
  {
    match d
    case Str(raw) =>
      HasParts(js, p, "\"" + raw, "\"");
      HasParts(js, p, "\"", raw);
    case _ =>
  }

  /** Where the first item's value stands, and the items behind it. */
  lemma {:induction false} ItemsStand(js: string, p: nat, keyed: bool, items: seq<Item>)
    requires Has(js, p, PrintItems(keyed, items)) && items != []
    ensures Has(js, p + |items[0].before|, Print(items[0].value))
    ensures Has(js, NextAt(items[0], Mark(keyed, |items| - 1), p), PrintItems(keyed, items[1..]))
  {
    var it, mark, rest := items[0], Mark(keyed, |items| - 1), PrintItems(keyed, items[1..]);
    var v := p + |it.before|;
    HasParts(js, p, it.before, Print(it.value) + ((it.after + mark) + rest));
    HasParts(js, v, Print(it.value), (it.after + mark) + rest);
    HasParts(js, v + |Print(it.value)|, it.after + mark, rest);
  }

  /** Each of some items is read where its tree says. */
  lemma {:induction false} ItemReads(js: string, p: nat, keyed: bool, items: seq<Item>, n: nat)
    requires Has(js, p, PrintItems(keyed, items)) && n < |items|
    ensures |ItemTrees(keyed, items, p)| == |items|
    ensures TreeReads(js, ItemTrees(keyed, items, p)[n], items[n].value)
    decreases n
  {
    ItemsStand(js, p, keyed, items);
    TreesOfItems(keyed, items, p);
    if n == 0 {
      DocReads(js, p + |items[0].before|, items[0].value);
    } else {
      ItemReads(js, NextAt(items[0], Mark(keyed, |items| - 1), p), keyed, items[1..], n - 1);
    }
  }

  lemma {:induction false} TreesOfItems(keyed: bool, items: seq<Item>, p: nat)
    ensures |ItemTrees(keyed, items, p)| == |items|
  {
    if items != [] { TreesOfItems(keyed, items[1..], NextAt(items[0], Mark(keyed, |items| - 1), p)); }
  }

  /** Member m of an object as it was written: this key, and a value of that kind. */
  predicate IsMember(items: seq<Item>, m: nat, key: string, kind: Kind)
    requires 2 * m + 1 < |items|
  {
    items[2 * m].value == Str(key) && KindOfDoc(items[2 * m + 1].value) == kind
  }

  lemma {:induction false} HitIsMember(js: string, p: nat, d: Doc, m: nat, key: string, kind: Kind)
    requires d.Obj? && Has(js, p, Print(d)) && 2 * m + 1 < |d.items|
    ensures var kids := TreeOf(d, p).kids;
            && |kids| == |d.items| && TreeReads(js, kids[2 * m + 1], d.items[2 * m + 1].value)
            && (Hit(js, kids, m, key, kind) <==> IsMember(d.items, m, key, kind))
  {
    BodyOf(js, p, '{', PrintItems(true, d.items) + d.inner, '}');
    HasParts(js, p + 1, PrintItems(true, d.items), d.inner);
    ItemReads(js, p + 1, true, d.items, 2 * m);
    ItemReads(js, p + 1, true, d.items, 2 * m + 1);
  }

  /** The text and the forest of an object written out between white space. */
  ghost predicate Written(js: string, ts: seq<Tree>, lead: string, d: Doc, trail: string) {
    && d.Obj? && Legal(d) && Blank(lead) && Blank(trail)
    && js == lead + Print(d) + trail && ts == [TreeOf(d, |lead|)]
  }

  lemma {:induction false} WrittenIsListed(js: string, ts: seq<Tree>, lead: string, d: Doc, trail: string)
    requires Written(js, ts, lead, d, trail)
    ensures Has(js, |lead|, Print(d)) && FlattenAll(ts) == Flatten(ts[0]) && SubtreeAt(ts, 0) == ts[0]
  {
    FlattenOne(ts[0]);
  }

  /** The token found is that of the value of the first member that answers. */
  lemma {:induction false} FoundIsValue(js: string, ts: seq<Tree>, key: string, kind: Kind) returns (m: int)
    requires |FlattenAll(ts)| > 0 && SubtreeAt(ts, 0).kind == Object
    ensures var kids := SubtreeAt(ts, 0).kids;
            m == FirstHit(js, kids, 0, key, kind) && (m == -1 <==> Lookup(js, ts, 0, key, kind) == -1)
            && (m != -1 ==> FlattenAll(ts)[Lookup(js, ts, 0, key, kind)] == Root(kids[2 * m + 1]))
  {
    var t := SubtreeAt(ts, 0);
    m := FirstHit(js, t.kids, 0, key, kind);
    if m != -1 {
      SubtreeListed(ts, 0);
      KidRoot(FlattenAll(ts), 0, t, 2 * m + 1);
    }
  }

  lemma {:induction false} HitsAreMembers(js: string, ts: seq<Tree>, lead: string, d: Doc, trail: string, key: string, kind: Kind)
    requires Written(js, ts, lead, d, trail)
    ensures |ts[0].kids| == |d.items|
    ensures forall k :: 0 <= k < |d.items| / 2 ==> (Hit(js, ts[0].kids, k, key, kind) <==> IsMember(d.items, k, key, kind))
  {
    WrittenIsListed(js, ts, lead, d, trail);
    TreesOfItems(true, d.items, |lead| + 1);
    forall k | 0 <= k < |d.items| / 2
      ensures Hit(js, ts[0].kids, k, key, kind) <==> IsMember(d.items, k, key, kind)
    {
      HitIsMember(js, |lead|, d, k, key, kind);
    }
  }

  /** Looking a key up in an object that was written out and tokenized finds the value of
      the first member written with that key and a value of that kind, its token spans that
      value's text, and nothing is found exactly when there is no such member. */
  lemma {:induction false} FindsWhatWasWritten(js: string, ts: seq<Tree>, lead: string, d: Doc, trail: string,
                                               key: string, kind: Kind) returns (m: int)
    requires Written(js, ts, lead, d, trail)
    ensures |FlattenAll(ts)| > 0
    ensures var n, r := |d.items| / 2, Lookup(js, ts, 0, key, kind);
            if r == -1 then forall k :: 0 <= k < n ==> !IsMember(d.items, k, key, kind)
            else
              && 0 <= m < n && IsMember(d.items, m, key, kind) && (forall k :: 0 <= k < m ==> !IsMember(d.items, k, key, kind))
              && var t := FlattenAll(ts)[r];
                 0 <= t.start <= t.end <= |js| && t.kind == kind && js[t.start..t.end] == Inside(d.items[2 * m + 1].value)
  {
    WrittenIsListed(js, ts, lead, d, trail);
    HitsAreMembers(js, ts, lead, d, trail, key, kind);
    m := FoundIsValue(js, ts, key, kind);
    if m != -1 { HitIsMember(js, |lead|, d, m, key, kind); }
  }

  /** And that is what the tokenizer hands to the lookups. */
  lemma {:induction false} WrittenIsParsed(js: string, ts: seq<Tree>, lead: string, d: Doc, trail: string, cap: nat)
    requires Written(js, ts, lead, d, trail) && |FlattenAll(ts)| <= cap && forall k :: 0 <= k < |js| ==> js[k] != '\0'
    ensures Parsed(js, ts) && Run(js, cap, Init) == (State(|js|, FlattenAll(ts), -1), Success)
  {
    WrittenIsListed(js, ts, lead, d, trail);
    PrintedSpells(lead, d, trail);
    PrintThenParse(lead, d, trail, cap);
  }
}
