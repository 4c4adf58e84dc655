/** Looking up a variable in form data (section 2.1 of RFC 3986 for the encoding). */
module Form {
  import opened Memory
  import opened Octets
  import opened Uri

  // ----- the search

  /** mg_strncasecmp finds no difference. */
  ghost predicate SameName(name: seq<byte>, data: seq<byte>, p: nat) {
    p + |name| <= |data| && forall k :: 0 <= k < |name| ==> Lower(name[k]) == Lower(data[p + k])
  }

  /** The variable's text starts at p: at the start of a field, the name, an equals sign. */
  ghost predicate Hit(data: seq<byte>, name: seq<byte>, p: nat) {
    && p + |name| < |data|
    && (p == 0 || data[p - 1] == AMPERSAND)
    && data[p + |name|] == EQUALS
    && SameName(name, data, p)
  }

  /** Where memchr finds the end of the field. */
  function FieldEnd(data: seq<byte>, p: nat): (s: nat)
    requires p <= |data|
    ensures p <= s <= |data|
    decreases |data| - p
  {
    if p == |data| || data[p] == AMPERSAND then p else FieldEnd(data, p + 1)
  }

  /** The first hit from p on, or -1. */
  ghost function FindVar(data: seq<byte>, name: seq<byte>, p: nat): (r: int)
    ensures r == -1 || (p <= r && Hit(data, name, r))
    decreases |data| - p
  {
    if p + |name| >= |data| then -1 else if Hit(data, name, p) then p else FindVar(data, name, p + 1)
  }

  /** What the text of the variable that starts at p stands for. */
  ghost function ValueAt(data: seq<byte>, name: seq<byte>, p: nat): seq<byte>
    requires Hit(data, name, p)
  {
    var from := p + |name| + 1;
    DecodeOn(data, from, FieldEnd(data, from), true, [])
  }

  method CompareNoCase(name: seq<byte>, data: array<byte>, p: nat, ghost m: seq<byte>) returns (diff: int)
    requires NUL !in name && p + |name| <= |m| && Image(data, m)
    ensures diff == 0 <==> SameName(name, m, p)
  {
    var i := 0;
    diff := 0;
    while i < |name| && diff == 0
      invariant i <= |name|
      invariant diff == 0 ==> forall k :: 0 <= k < i ==> Lower(name[k]) == Lower(m[p + k])
      invariant diff != 0 ==> 0 < i && Lower(name[i - 1]) != Lower(m[p + i - 1])
    {
      diff := Lower(name[i]) - Lower(data[p + i]);
      i := i + 1;
    }
  }

  method FindEnd(data: array<byte>, p: nat, ghost m: seq<byte>) returns (s: nat)
    requires p <= |m| && Image(data, m)
    ensures s == FieldEnd(m, p)
  {
    s := p;
    while s < data.Length && data[s] != AMPERSAND
      invariant p <= s <= |m| && FieldEnd(m, p) == FieldEnd(m, s)
    {
      s := s + 1;
    }
  }

  /** The search loop of mg_get_var. */
  method Search(data: array<byte>, name: seq<byte>, ghost m: seq<byte>) returns (p: nat, found: bool)
    requires NUL !in name && Image(data, m)
    ensures FindVar(m, name, 0) == if found then p else -1
  {
    p, found := 0, false;
    while p + |name| < data.Length
      invariant FindVar(m, name, 0) == FindVar(m, name, p)
    {
      if (p == 0 || data[p - 1] == AMPERSAND) && data[p + |name|] == EQUALS {
        var diff := CompareNoCase(name, data, p, m);
        if diff == 0 {
          found := true;
          return;
        }
      }
      p := p + 1;
    }
  }

  /** -2 when there is no room, -1 when there is no such variable, otherwise its value,
      decoded, or as much of it as there is room for and -2. */
  method GetVar(data: array<byte>, name: seq<byte>, dst: array<byte>, ghost m: seq<byte>, ghost t: seq<byte>)
    returns (len: int)
    requires NUL !in name && data != dst && Image(data, m) && Image(dst, t)
    modifies dst
    ensures dst.Length == 0 ==> len == -2
    ensures dst.Length > 0 && FindVar(m, name, 0) == -1 ==> len == -1 && Written(dst, t, 0, [], 0)
    ensures dst.Length > 0 && FindVar(m, name, 0) != -1 ==>
              var r := ValueAt(m, name, FindVar(m, name, 0));
              Written(dst, t, 0, r, dst.Length - 1) && len == if |r| < dst.Length then |r| else -2
  {
    if dst.Length == 0 {
      return -2;
    }
    len := -1;
    dst[0] := NUL;
    var p, found := Search(data, name, m);
    if found {
      p := p + |name| + 1;
      var s := FindEnd(data, p, m);
      len := UrlDecode(data, p, s - p, dst, 0, dst.Length, true, m, t[0 := NUL]);
      if len == -1 {
        len := -2;
      }
    }
  }

  // ----- forms

  datatype Field = Field(name: seq<byte>, value: seq<byte>)

  function FieldText(f: Field): seq<byte> {
    f.name + [0x3d] + Encode(f.value)
  }

  /** The fields in order, `&` between them; name and value are parted by `=`. */
  function FormText(fields: seq<Field>): seq<byte> {
    if fields == [] then []
    else if |fields| == 1 then FieldText(fields[0])
    else FieldText(fields[0]) + [0x26] + FormText(fields[1..])
  }

  ghost predicate GoodName(name: seq<byte>) {
    0x26 !in name && 0x3d !in name
  }

  /** The same character, or one letter in two cases. */
  predicate SameLetter(a: byte, b: byte) {
    a == b || (0x41 <= a <= 0x5a && b == a + 0x20) || (0x41 <= b <= 0x5a && a == b + 0x20)
  }

  predicate SameKey(key: seq<byte>, name: seq<byte>) {
    |key| == |name| && forall k :: 0 <= k < |key| ==> SameLetter(key[k], name[k])
  }

  /** The text of field f runs from p to e, where the text ends or the next field begins. */
  ghost predicate FieldAt(m: seq<byte>, p: nat, e: nat, f: Field) {
    && GoodName(f.name)
    && e == p + |FieldText(f)| <= |m|
    && Reads(m, p, FieldText(f))
    && (e < |m| ==> m[e] == AMPERSAND)
  }

  /** What stands where in a field. */
  lemma {:induction false} InField(m: seq<byte>, p: nat, e: nat, f: Field)
    requires FieldAt(m, p, e, f)
    ensures var q := p + |f.name|;
            && q < e && Reads(m, p, f.name) && m[q] == EQUALS && Reads(m, q + 1, Encode(f.value))
            && e == q + 1 + |Encode(f.value)|
    ensures forall x :: p <= x < e ==> m[x] != AMPERSAND && (m[x] == EQUALS <==> x == p + |f.name|)
  {
    var q, enc := p + |f.name|, Encode(f.value);
    ReadsBoth(m, p, f.name + [EQUALS], enc);
    ReadsBoth(m, p, f.name, [EQUALS]);
    assert [EQUALS][0] == m[q];
    EncodedIsOpaque(f.value);
    forall x | p <= x < e ensures m[x] != AMPERSAND && (m[x] == EQUALS <==> x == q) {
      if x < q { assert m[x] == f.name[x - p]; }
      if x > q { assert m[x] == enc[x - q - 1]; }
    }
  }

  lemma {:induction false} ReachesPast(m: seq<byte>, p: nat, e: nat, key: seq<byte>)
    requires SameName(key, m, p) && p <= e < p + |key| && m[e] == AMPERSAND
    ensures AMPERSAND in key
  {
    assert key[e - p] == AMPERSAND;
  }

  lemma {:induction false} HitIsName(m: seq<byte>, p: nat, e: nat, f: Field, key: seq<byte>)
    requires FieldAt(m, p, e, f) && AMPERSAND !in key && Hit(m, key, p)
    ensures |key| == |f.name|
  {
    InField(m, p, e, f);
    if p + |key| > e { ReachesPast(m, p, e, key); }
  }

  /** A key without an ampersand is found at the start of a field exactly when it is the
      field's name. */
  lemma {:induction false} HitAtField(m: seq<byte>, p: nat, e: nat, f: Field, key: seq<byte>)
    requires FieldAt(m, p, e, f) && AMPERSAND !in key && (p == 0 || m[p - 1] == AMPERSAND)
    ensures Hit(m, key, p) <==> SameKey(key, f.name)
  {
    InField(m, p, e, f);
    if Hit(m, key, p) { HitIsName(m, p, e, f, key); }
  }

  lemma {:induction false} SearchSkips(m: seq<byte>, key: seq<byte>, x: nat, e: nat)
    requires x <= e + 1 && forall y: nat :: x <= y <= e ==> !Hit(m, key, y)
    ensures FindVar(m, key, x) == FindVar(m, key, e + 1)
    decreases e + 1 - x
  {
    if x <= e { SearchSkips(m, key, x + 1, e); }
  }

  /** No variable starts inside a field, or at the ampersand behind it. */
  lemma {:induction false} MissesField(m: seq<byte>, p: nat, e: nat, f: Field, key: seq<byte>)
    requires FieldAt(m, p, e, f) && !Hit(m, key, p)
    ensures FindVar(m, key, p) == FindVar(m, key, e + 1)
  {
    InField(m, p, e, f);
    forall y: nat | p <= y <= e ensures !Hit(m, key, y) {
      if y > p { assert m[y - 1] != AMPERSAND; }
    }
    SearchSkips(m, key, p, e);
  }

  lemma {:induction false} EndOfField(m: seq<byte>, x: nat, e: nat)
    requires x <= e <= |m| && (e < |m| ==> m[e] == AMPERSAND)
    requires forall k :: x <= k < e ==> m[k] != AMPERSAND
    ensures FieldEnd(m, x) == e
    decreases e - x
  {
    if x < e { EndOfField(m, x + 1, e); }
  }

  lemma {:induction false} ValueOfField(m: seq<byte>, p: nat, e: nat, f: Field, key: seq<byte>)
    requires FieldAt(m, p, e, f) && Hit(m, key, p) && |key| == |f.name|
    ensures ValueAt(m, key, p) == f.value
  {
    InField(m, p, e, f);
    var from := p + |key| + 1;
    EndOfField(m, from, e);
    DecodesEncoded(m, from, f.value, true, [], e, f.value);
  }

  /** The first field with that name, in any case. */
  function FirstField(fields: seq<Field>, key: seq<byte>): (r: int)
    ensures r == -1 || 0 <= r < |fields|
  {
    if fields == [] then -1
    else if SameKey(key, fields[0].name) then 0
    else
      var r := FirstField(fields[1..], key);
      if r == -1 then -1 else r + 1
  }

  ghost predicate GoodForm(fields: seq<Field>) {
    forall k :: 0 <= k < |fields| ==> GoodName(fields[k].name)
  }

  lemma {:induction false} FormSplit(m: seq<byte>, p: nat, fields: seq<Field>) returns (e: nat)
    requires fields != [] && GoodForm(fields) && Reads(m, p, FormText(fields)) && p + |FormText(fields)| == |m|
    ensures FieldAt(m, p, e, fields[0])
    ensures |fields| == 1 ==> e == |m|
    ensures |fields| > 1 ==> e < |m| && Reads(m, e + 1, FormText(fields[1..])) && e + 1 + |FormText(fields[1..])| == |m|
  {
    var one := FieldText(fields[0]);
    e := p + |one|;
    if |fields| > 1 {
      var more := FormText(fields[1..]);
      ReadsBoth(m, p, one + [AMPERSAND], more);
      ReadsBoth(m, p, one, [AMPERSAND]);
      assert [AMPERSAND][0] == m[e];
    }
  }

  /** Either the field at p answers, or the search goes on behind it. */
  lemma {:induction false} FieldDecides(m: seq<byte>, p: nat, e: nat, f: Field, key: seq<byte>)
    requires FieldAt(m, p, e, f) && AMPERSAND !in key && (p == 0 || m[p - 1] == AMPERSAND)
    ensures if SameKey(key, f.name) then FindVar(m, key, p) == p && ValueAt(m, key, p) == f.value
            else FindVar(m, key, p) == FindVar(m, key, e + 1)
  {
    HitAtField(m, p, e, f, key);
    if SameKey(key, f.name) { ValueOfField(m, p, e, f, key); } else { MissesField(m, p, e, f, key); }
  }

  /** From the start of a field on, the search finds the first field of that name and its
      value, or nothing if there is none. */
  lemma {:induction false} FindsField(m: seq<byte>, p: nat, fields: seq<Field>, key: seq<byte>)
    requires GoodForm(fields) && AMPERSAND !in key
    requires Reads(m, p, FormText(fields)) && p + |FormText(fields)| == |m| && (p == 0 || m[p - 1] == AMPERSAND)
    ensures var i, r := FirstField(fields, key), FindVar(m, key, p);
            (i == -1 <==> r == -1) && (i != -1 ==> ValueAt(m, key, r) == fields[i].value)
    decreases |fields|
  {
    if fields != [] {
      var f := fields[0];
      var e := FormSplit(m, p, fields);
      FieldDecides(m, p, e, f, key);
      if !SameKey(key, f.name) && |fields| > 1 { FindsField(m, e + 1, fields[1..], key); }
    }
  }

  /** The lookup of a key in a form gives the value of the first field of that name, in any
      case, decoded back to what was encoded, or nothing if there is no such field. */
  ghost predicate Answered(fields: seq<Field>, key: seq<byte>) {
    var m := FormText(fields);
    var i, r := FirstField(fields, key), FindVar(m, key, 0);
    (i == -1 <==> r == -1) && (i != -1 ==> ValueAt(m, key, r) == fields[i].value)
  }

  /** So it is for a key without an ampersand. */
  lemma {:induction false} PlainKeyAnswered(fields: seq<Field>, key: seq<byte>)
    requires GoodForm(fields) && AMPERSAND !in key
    ensures Answered(fields, key)
  {
    FindsField(FormText(fields), 0, fields, key);
  }

  // ----- keys with ampersands

  /** The text from the start of the first field to the end of the name of field j. */
  function Span(fields: seq<Field>, j: nat): (s: seq<byte>)
    requires j < |fields|
    decreases j
  {
    if j == 0 then fields[0].name else FieldText(fields[0]) + [AMPERSAND] + Span(fields[1..], j - 1)
  }

  /** A key that is longer than the first field: its beginning is compared with that field
      and the ampersand, and the rest from the next field on. */
  lemma {:induction false} HitSplits(m: seq<byte>, p: nat, e: nat, key: seq<byte>)
    requires p <= e < p + |key| && e < |m| && m[e] == AMPERSAND && (p == 0 || m[p - 1] == AMPERSAND)
    ensures Hit(m, key, p) <==> SameName(key[..e + 1 - p], m, p) && Hit(m, key[e + 1 - p..], e + 1)
  {
    var d := e + 1 - p;
    var a, b := key[..d], key[d..];
    if SameName(a, m, p) && Hit(m, b, e + 1) {
      forall k | 0 <= k < |key| ensures Lower(key[k]) == Lower(m[p + k]) {
        if k < d { assert a[k] == key[k]; } else { assert b[k - d] == key[k]; }
      }
    }
  }

  lemma {:induction false} SameKeySplits(key: seq<byte>, a: seq<byte>, b: seq<byte>)
    requires |a| <= |key|
    ensures SameKey(key, a + b) <==> SameKey(key[..|a|], a) && SameKey(key[|a|..], b)
  {
    var x, y, c := key[..|a|], key[|a|..], a + b;
    if SameKey(x, a) && SameKey(y, b) {
      forall k | 0 <= k < |key| ensures Lower(key[k]) == Lower(c[k]) {
        if k < |a| { assert x[k] == key[k]; } else { assert y[k - |a|] == key[k]; }
      }
    }
    if SameKey(key, c) {
      assert forall k :: 0 <= k < |a| ==> x[k] == key[k] && c[k] == a[k];
      assert forall k :: 0 <= k < |b| ==> y[k] == key[k + |a|] && c[k + |a|] == b[k];
    }
  }

  lemma {:induction false} SameNameIsSameKey(m: seq<byte>, p: nat, key: seq<byte>, t: seq<byte>)
    requires Reads(m, p, t) && |key| == |t|
    ensures SameName(key, m, p) <==> SameKey(key, t)
  {
  }

  /** One field on, in the text and in the span. */
  lemma {:induction false} SpanSplits(m: seq<byte>, p: nat, e: nat, fields: seq<Field>, key: seq<byte>, j: nat)
    requires 0 < j < |fields| && FieldAt(m, p, e, fields[0]) && e < |m| && p + |key| > e
    ensures var d := e + 1 - p;
            SameKey(key, Span(fields, j)) <==> SameName(key[..d], m, p) && SameKey(key[d..], Span(fields[1..], j - 1))
  {
    var one := FieldText(fields[0]) + [AMPERSAND];
    assert Reads(m, p, one) by { assert forall k :: 0 <= k < |one| - 1 ==> one[k] == FieldText(fields[0])[k]; }
    SameKeySplits(key, one, Span(fields[1..], j - 1));
    SameNameIsSameKey(m, p, key[..|one|], one);
  }

  lemma {:induction false} SpanIsLong(fields: seq<Field>, j: nat)
    requires 0 < j < |fields|
    ensures |Span(fields, j)| > |FieldText(fields[0])| && Span(fields, j)[|FieldText(fields[0])|] == AMPERSAND
  {
  }

  function EndAt(p: nat, f: Field): nat {
    p + |FieldText(f)|
  }

  /** The fields of a form follow each other from p on to the end of m. */
  ghost predicate FormAt(m: seq<byte>, p: nat, fields: seq<Field>)
    decreases |fields|
  {
    && fields != []
    && (p == 0 || (p <= |m| && m[p - 1] == AMPERSAND))
    && FieldAt(m, p, EndAt(p, fields[0]), fields[0])
    && if |fields| == 1 then EndAt(p, fields[0]) == |m|
       else EndAt(p, fields[0]) < |m| && FormAt(m, EndAt(p, fields[0]) + 1, fields[1..])
  }

  lemma {:induction false} FormStands(m: seq<byte>, p: nat, fields: seq<Field>)
    requires fields != [] && GoodForm(fields) && Reads(m, p, FormText(fields)) && p + |FormText(fields)| == |m|
    requires p == 0 || m[p - 1] == AMPERSAND
    ensures FormAt(m, p, fields)
    decreases |fields|
  {
    var e := FormSplit(m, p, fields);
    if |fields| > 1 { FormStands(m, e + 1, fields[1..]); }
  }

  /** A key that ends within the first field is found there exactly when it is its name. */
  lemma {:induction false} HitInField(m: seq<byte>, p: nat, e: nat, f: Field, key: seq<byte>)
    requires FieldAt(m, p, e, f) && p + |key| <= e && (p == 0 || m[p - 1] == AMPERSAND)
    ensures Hit(m, key, p) <==> SameKey(key, f.name)
  {
    InField(m, p, e, f);
  }

  /** What a key is found to be at the start of a field: the text up to the end of the
      name of that field or of a later one. */
  lemma {:induction false} HitToSpan(m: seq<byte>, p: nat, fields: seq<Field>, key: seq<byte>) returns (j: nat)
    requires FormAt(m, p, fields) && Hit(m, key, p)
    ensures j < |fields| && SameKey(key, Span(fields, j))
    decreases |fields|
  {
    var e := EndAt(p, fields[0]);
    if p + |key| <= e {
      HitInField(m, p, e, fields[0], key);
      j := 0;
    } else {
      HitSplits(m, p, e, key);
      j := HitToSpan(m, e + 1, fields[1..], key[e + 1 - p..]);
      j := j + 1;
      SpanSplits(m, p, e, fields, key, j);
    }
  }

  lemma {:induction false} SpanToHit(m: seq<byte>, p: nat, fields: seq<Field>, key: seq<byte>, j: nat)
    requires FormAt(m, p, fields) && j < |fields| && SameKey(key, Span(fields, j))
    ensures Hit(m, key, p)
    decreases |fields|
  {
    var e := EndAt(p, fields[0]);
    if j == 0 {
      InField(m, p, e, fields[0]);
      HitInField(m, p, e, fields[0], key);
    } else {
      SpanIsLong(fields, j);
      SpanSplits(m, p, e, fields, key, j);
      SpanToHit(m, e + 1, fields[1..], key[e + 1 - p..], j - 1);
      HitSplits(m, p, e, key);
    }
  }

  /** The key is the text from the start of field i to the end of the name of field i + j. */
  ghost predicate IsSpan(fields: seq<Field>, key: seq<byte>, i: nat, j: nat) {
    i + j < |fields| && SameKey(key, Span(fields[i..], j))
  }

  lemma {:induction false} IsSpanLater(fields: seq<Field>, key: seq<byte>, i: nat, j: nat)
    requires |fields| > 0
    ensures IsSpan(fields, key, i + 1, j) <==> IsSpan(fields[1..], key, i, j)
  {
    if i + 1 <= |fields| { assert fields[1..][i..] == fields[i + 1..]; }
  }

  /** Nothing found at the start of a field: the search is at the next field, if any. */
  lemma {:induction false} NextField(m: seq<byte>, p: nat, fields: seq<Field>, key: seq<byte>) returns (next: nat)
    requires FormAt(m, p, fields) && !Hit(m, key, p)
    ensures if |fields| == 1 then FindVar(m, key, p) == -1
            else FormAt(m, next, fields[1..]) && FindVar(m, key, p) == FindVar(m, key, next)
  {
    var e := EndAt(p, fields[0]);
    MissesField(m, p, e, fields[0], key);
    NothingBehind(m, key, e + 1);
    next := e + 1;
  }

  lemma {:induction false} NothingBehind(m: seq<byte>, key: seq<byte>, p: nat)
    ensures p > |m| ==> FindVar(m, key, p) == -1
  {
  }

  lemma {:induction false} HitIsSpan(m: seq<byte>, p: nat, fields: seq<Field>, key: seq<byte>) returns (j: nat)
    requires FormAt(m, p, fields) && Hit(m, key, p)
    ensures IsSpan(fields, key, 0, j)
  {
    j := HitToSpan(m, p, fields, key);
    assert fields[0..] == fields;
  }

  lemma {:induction false} SpanIsHit(m: seq<byte>, p: nat, fields: seq<Field>, key: seq<byte>, j: nat)
    requires FormAt(m, p, fields) && IsSpan(fields, key, 0, j)
    ensures FindVar(m, key, p) == p
  {
    assert fields[0..] == fields;
    SpanToHit(m, p, fields, key, j);
    StopsAtHit(m, p, key);
  }

  /** What the search finds is such a text. */
  lemma {:induction false} FoundIsSpan(m: seq<byte>, p: nat, fields: seq<Field>, key: seq<byte>) returns (i: nat, j: nat)
    requires FormAt(m, p, fields) && FindVar(m, key, p) != -1
    ensures IsSpan(fields, key, i, j)
    decreases |fields|
  {
    if Hit(m, key, p) {
      i := 0;
      j := HitIsSpan(m, p, fields, key);
    } else {
      var next := NextField(m, p, fields, key);
      i, j := FoundIsSpan(m, next, fields[1..], key);
      IsSpanLater(fields, key, i, j);
      i := i + 1;
    }
  }

  /** Such a text is found. */
  lemma {:induction false} SpanIsFound(m: seq<byte>, p: nat, fields: seq<Field>, key: seq<byte>, i: nat, j: nat)
    requires FormAt(m, p, fields) && IsSpan(fields, key, i, j)
    ensures FindVar(m, key, p) != -1
    decreases |fields|
  {
    if i == 0 {
      SpanIsHit(m, p, fields, key, j);
    } else if Hit(m, key, p) {
      StopsAtHit(m, p, key);
    } else {
      var next := NextField(m, p, fields, key);
      IsSpanLater(fields, key, i - 1, j);
      SpanIsFound(m, next, fields[1..], key, i - 1, j);
    }
  }

  lemma {:induction false} StopsAtHit(m: seq<byte>, p: nat, key: seq<byte>)
    requires Hit(m, key, p)
    ensures FindVar(m, key, p) == p
  {
  }

  /** The key spells some fields of the form and the name of the one behind them. */
  ghost predicate Strays(fields: seq<Field>, key: seq<byte>) {
    exists i, j: nat :: j > 0 && IsSpan(fields, key, i, j)
  }

  lemma {:induction false} SpanOfGoodForm(fields: seq<Field>, key: seq<byte>, i: nat, j: nat)
    requires GoodForm(fields) && IsSpan(fields, key, i, j)
    ensures j > 0 <==> AMPERSAND in key
  {
    var s, later := Span(fields[i..], j), fields[i..];
    if j > 0 {
      SpanIsLong(later, j);
      assert key[|FieldText(later[0])|] == AMPERSAND;
    } else {
      assert later[0] == fields[i];
      NoAmpersand(key, fields[i].name);
    }
  }

  lemma {:induction false} NoAmpersand(key: seq<byte>, name: seq<byte>)
    requires SameKey(key, name)
    ensures AMPERSAND in key ==> AMPERSAND in name
  {
    if k: nat :| k < |key| && key[k] == AMPERSAND { assert name[k] == AMPERSAND; }
  }

  lemma {:induction false} NoSuchField(fields: seq<Field>, key: seq<byte>)
    requires GoodForm(fields) && AMPERSAND in key
    ensures FirstField(fields, key) == -1
  {
    if fields != [] {
      if SameKey(key, fields[0].name) { NoAmpersand(key, fields[0].name); }
      NoSuchField(fields[1..], key);
    }
  }

  /** For every form and every key, the lookup is right if and only if the key does not
      spell a stretch of the form from the start of a field to the end of a later name. */
  lemma {:induction false} FormRoundTrip(fields: seq<Field>, key: seq<byte>)
    requires GoodForm(fields)
    ensures Answered(fields, key) <==> !Strays(fields, key)
  {
    var m := FormText(fields);
    if AMPERSAND !in key {
      PlainKeyAnswered(fields, key);
      forall i: nat, j: nat | IsSpan(fields, key, i, j) ensures j == 0 { SpanOfGoodForm(fields, key, i, j); }
    } else {
      NoSuchField(fields, key);
      if fields != [] {
        FormStands(m, 0, fields);
        if FindVar(m, key, 0) != -1 {
          var i, j := FoundIsSpan(m, 0, fields, key);
          SpanOfGoodForm(fields, key, i, j);
        } else {
          forall i: nat, j: nat ensures !IsSpan(fields, key, i, j) {
            if IsSpan(fields, key, i, j) { SpanIsFound(m, 0, fields, key, i, j); }
          }
        }
      }
    }
  }

  lemma {:induction false} SpanIsText(fields: seq<Field>, j: nat)
    requires 0 < j < |fields|
    ensures Span(fields, j) == FormText(fields[..j]) + [AMPERSAND] + fields[j].name
    decreases j
  {
    var one, later, begun := FieldText(fields[0]), fields[1..], fields[..j];
    if j == 1 {
      assert begun == [fields[0]] && Span(later, 0) == fields[1].name;
    } else {
      SpanIsText(later, j - 1);
      assert begun[1..] == later[..j - 1] && later[j - 1] == fields[j];
      Joined(one + [AMPERSAND], FormText(later[..j - 1]), [AMPERSAND], fields[j].name);
    }
  }

  lemma {:induction false} Joined(a: seq<byte>, b: seq<byte>, c: seq<byte>, d: seq<byte>)
    ensures a + (b + c + d) == a + b + c + d
  {
  }

  /** The key looks like some fields, an ampersand and a name. */
  ghost predicate LooksLikeFields(key: seq<byte>) {
    exists fs: seq<Field>, name: seq<byte> ::
      fs != [] && GoodForm(fs) && GoodName(name) && SameKey(key, FormText(fs) + [AMPERSAND] + name)
  }

  lemma {:induction false} StraysLooks(fields: seq<Field>, key: seq<byte>)
    requires GoodForm(fields) && Strays(fields, key)
    ensures LooksLikeFields(key)
  {
    var i: nat, j: nat :| j > 0 && IsSpan(fields, key, i, j);
    var later := fields[i..];
    SpanIsText(later, j);
    assert forall k :: 0 <= k < |later| ==> later[k] == fields[k + i];
    var fs, name := later[..j], later[j].name;
    assert fs != [] && GoodForm(fs) && GoodName(name) && SameKey(key, FormText(fs) + [AMPERSAND] + name);
  }

  lemma {:induction false} LooksStrays(fs: seq<Field>, name: seq<byte>, key: seq<byte>) returns (fields: seq<Field>)
    requires fs != [] && GoodForm(fs) && GoodName(name) && SameKey(key, FormText(fs) + [AMPERSAND] + name)
    ensures GoodForm(fields) && Strays(fields, key)
  {
    fields := fs + [Field(name, [])];
    var j := |fs|;
    assert fields[..j] == fs && fields[0..] == fields;
    SpanIsText(fields, j);
    assert IsSpan(fields, key, 0, j);
  }

  /** A key is looked up rightly in every form if and only if it does not look like that. */
  lemma {:induction false} SafeKeysExactly(key: seq<byte>)
    ensures (forall fields :: GoodForm(fields) ==> Answered(fields, key)) <==> !LooksLikeFields(key)
  {
    if LooksLikeFields(key) {
      var fs: seq<Field>, name: seq<byte> :| fs != [] && GoodForm(fs) && GoodName(name)
                                             && SameKey(key, FormText(fs) + [AMPERSAND] + name);
      var fields := LooksStrays(fs, name, key);
      FormRoundTrip(fields, key);
    } else {
      forall fields | GoodForm(fields) ensures Answered(fields, key) {
        if Strays(fields, key) { StraysLooks(fields, key); }
        FormRoundTrip(fields, key);
      }
    }
  }

  lemma {:induction false} EncodePlain(c: byte)
    requires IsPlain(c)
    ensures Encode([c]) == [c]
  {
    assert [c][1..] == [];
  }

  /** A key with an ampersand can be found across fields: the form a=1&b=2 has no field
      named `a=1&b`, but the search finds one. */
  lemma {:induction false} AmpersandKeyStrays() returns (fields: seq<Field>, key: seq<byte>)
    ensures GoodForm(fields) && AMPERSAND in key
    ensures FirstField(fields, key) == -1 && FindVar(FormText(fields), key, 0) == 0
  {
    var a, b: byte := 0x61, 0x62;
    var one, two: byte := 0x31, 0x32;
    fields, key := [Field([a], [one]), Field([b], [two])], [a, EQUALS, one, AMPERSAND, b];
    EncodePlain(one);
    EncodePlain(two);
    var later := fields[1..];
    assert later == [Field([b], [two])];
    assert FieldText(fields[0]) == [a, EQUALS, one] && FieldText(fields[1]) == [b, EQUALS, two];
    assert FormText(later) == [b, EQUALS, two];
    var m := FormText(fields);
    assert m == FieldText(fields[0]) + [AMPERSAND] + FormText(later);
    assert m == [a, EQUALS, one, AMPERSAND, b, EQUALS, two];
    assert Hit(m, key, 0);
  }
}
