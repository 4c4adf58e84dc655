/** What one call of the tokenizer computes, as a function of its parser state.

    A text is a NUL-terminated C string: reading at its length gives NUL, and a
    NUL inside it ends it early.  All failures leave the state as it was before
    the failing character, which is what makes a call resumable. */
module JsmnSpec {

  datatype Kind = Primitive | Object | Array | String

  datatype Token = Token(kind: Kind, start: int, end: int, size: int)

  datatype Code = Success | NoMem | Inval | Part

  /** `toks` are the used tokens; `super` is the index of the open container
      that receives the next value, or -1. */
  datatype State = State(pos: nat, toks: seq<Token>, super: int) {
    ghost predicate Valid(js: string) {
      pos <= |js| && -1 <= super < |toks|
    }
  }

  const Init := State(0, [], -1)

  const FREE := Token(Primitive, -1, -1, 0)

  function At(js: string, p: nat): char {
    if p < |js| then js[p] else '\0'
  }

  predicate IsBlank(c: char) {
    c == '\t' || c == '\r' || c == '\n' || c == ' '
  }

  /** The characters that end a primitive. */
  predicate IsDelimiter(c: char) {
    IsBlank(c) || c == ':' || c == ',' || c == ']' || c == '}'
  }

  predicate IsOpening(c: char) {
    c == '{' || c == '['
  }

  predicate IsClosing(c: char) {
    c == '}' || c == ']'
  }

  /** The container kind a bracket opens or closes. */
  function KindOf(c: char): Kind {
    if c == '{' || c == '}' then Object else Array
  }

  predicate IsEscapable(c: char) {
    c == '\"' || c == '/' || c == '\\' || c == 'b' || c == 'f' || c == 'r' || c == 'n' || c == 't' || c == 'u'
  }

  predicate IsPlain(c: char) {
    ' ' <= c < 127 as char
  }

  /** Where the primitive running through p ends, or -1 if an illegal character comes first. */
  function PrimitiveEnd(js: string, p: nat): (e: int)
    requires p <= |js|
    ensures e == -1 || p <= e <= |js|
    ensures e != -1 ==> IsDelimiter(At(js, e)) || At(js, e) == '\0'
    decreases |js| - p
  {
    var c := At(js, p);
    if c == '\0' || IsDelimiter(c) then p
    else if !IsPlain(c) then -1
    else PrimitiveEnd(js, p + 1)
  }

  datatype StringScan = Closed(quote: nat) | BadEscape | Unclosed

  /** Scans a string body from p up to its closing quote. */
  function ScanString(js: string, p: nat): (r: StringScan)
    requires p <= |js|
    ensures r.Closed? ==> p <= r.quote < |js| && js[r.quote] == '\"'
    decreases |js| - p
  {
    var c := At(js, p);
    if c == '\0' then Unclosed
    else if c == '\"' then Closed(p)
    else if c == '\\' then
      if IsEscapable(At(js, p + 1)) then ScanString(js, p + 2) else BadEscape
    else ScanString(js, p + 1)
  }

  /** In so many characters: NUL, the four blanks, `:`, `,`, `]` and `}`. */
  predicate EndsPrimitive(c: char) {
    c == '\0' || c in " \t\r\n:,]}"
  }

  /** A primitive runs through the first character that ends one; -1 means that a character
      outside ' ' to '~' comes before that. */
  lemma {:induction false} PrimitiveEndMeaning(js: string, p: nat)
    requires p <= |js|
    ensures var e := PrimitiveEnd(js, p);
            if e != -1 then
              EndsPrimitive(At(js, e)) && forall k :: p <= k < e ==> ' ' <= js[k] <= '~' && !EndsPrimitive(js[k])
            else
              exists x :: p <= x < |js| && !(' ' <= js[x] <= '~') && !EndsPrimitive(js[x])
                          && forall k :: p <= k < x ==> ' ' <= js[k] <= '~' && !EndsPrimitive(js[k])
    decreases |js| - p
  {
    var c := At(js, p);
    if !EndsPrimitive(c) {
      if ' ' <= c <= '~' {
        PrimitiveEndMeaning(js, p + 1);
        if PrimitiveEnd(js, p) == -1 {
          var x :| p + 1 <= x < |js| && !(' ' <= js[x] <= '~') && !EndsPrimitive(js[x])
                   && forall k :: p + 1 <= k < x ==> ' ' <= js[k] <= '~' && !EndsPrimitive(js[k]);
          assert forall k :: p <= k < x ==> ' ' <= js[k] <= '~' && !EndsPrimitive(js[k]);
        }
      } else {
        assert !(' ' <= js[p] <= '~') && !EndsPrimitive(js[p]);
      }
    }
  }

  /** The letters an escape can have. */
  predicate IsEscapeLetter(c: char) {
    c in "\"\\/bfnrtu"
  }

  /** From p to q there are only whole characters and whole escapes of a string body. */
  predicate BodyTo(js: string, p: nat, q: nat)
    requires p <= |js|
    decreases |js| - p
  {
    p == q ||
    (p < q && p < |js| && js[p] != '\0' && js[p] != '\"' &&
     if js[p] == '\\' then IsEscapeLetter(At(js, p + 1)) && BodyTo(js, p + 2, q) else BodyTo(js, p + 1, q))
  }

  /** A quote, the end of the text, or a bad escape. */
  predicate StopsBody(js: string, q: nat) {
    At(js, q) == '\0' || At(js, q) == '\"' || (At(js, q) == '\\' && !IsEscapeLetter(At(js, q + 1)))
  }

  /** A string ends at the first quote that is not part of an escape; it is badly escaped
      if a bad escape comes before that, and unclosed if the text ends before either. */
  lemma {:induction false} ScanStringMeaning(js: string, p: nat) returns (q: nat)
    requires p <= |js|
    ensures p <= q <= |js| && BodyTo(js, p, q)
    ensures match ScanString(js, p)
            case Closed(quote) => quote == q && At(js, q) == '\"'
            case BadEscape => At(js, q) == '\\' && !IsEscapeLetter(At(js, q + 1))
            case Unclosed => At(js, q) == '\0'
    decreases |js| - p
  {
    var c := At(js, p);
    if StopsBody(js, p) {
      q := p;
    } else {
      q := ScanStringMeaning(js, if c == '\\' then p + 2 else p + 1);
    }
  }

  /** There is only one such place, so these exclude each other. */
  lemma {:induction false} BodyEndsOnce(js: string, p: nat, q: nat, r: nat)
    requires p <= |js| && BodyTo(js, p, q) && BodyTo(js, p, r)
    requires StopsBody(js, q) && StopsBody(js, r)
    ensures q == r
    decreases |js| - p
  {
    if p < q && p < r { BodyEndsOnce(js, if js[p] == '\\' then p + 2 else p + 1, q, r); }
  }

  /** The last unclosed token below n, or -1. */
  function InnermostOpen(toks: seq<Token>, n: nat): (i: int)
    requires n <= |toks|
    ensures -1 <= i < n
    ensures i >= 0 ==> toks[i].start != -1 && toks[i].end == -1
    ensures forall k :: i < k < n ==> toks[k].start == -1 || toks[k].end != -1
  {
    if n == 0 then -1
    else if toks[n - 1].start != -1 && toks[n - 1].end == -1 then n - 1
    else InnermostOpen(toks, n - 1)
  }

  lemma {:induction false} OpenPastClosed(toks: seq<Token>, n: nat, m: nat)
    requires n <= m <= |toks|
    requires forall k :: n <= k < m ==> toks[k].end != -1
    ensures InnermostOpen(toks, m) == InnermostOpen(toks, n)
  {
    if n < m { OpenPastClosed(toks, n, m - 1); }
  }

  lemma {:induction false} OpenOfPrefix(toks: seq<Token>, n: nat, m: nat)
    requires n <= m <= |toks|
    ensures InnermostOpen(toks[..m], n) == InnermostOpen(toks, n)
  {
    if n > 0 { OpenOfPrefix(toks, n - 1, m); }
  }

  function Bump(toks: seq<Token>, i: int): seq<Token>
    requires -1 <= i < |toks|
  {
    if i == -1 then toks else toks[i := toks[i].(size := toks[i].size + 1)]
  }

  /** Appends token t, one more child of the innermost open container. */
  function Push(s: State, t: Token, pos: nat, super: int): State
    requires -1 <= s.super < |s.toks|
  {
    State(pos, Bump(s.toks, s.super) + [t], super)
  }

  /** Closes token i, the innermost open container, at the current character. */
  function Shut(s: State, i: nat): State
    requires i < |s.toks|
  {
    var toks := s.toks[i := s.toks[i].(end := s.pos + 1)];
    State(s.pos + 1, toks, InnermostOpen(toks, i))
  }

  datatype Outcome = Next(s: State) | Stop(code: Code)

  /** One turn of the outer loop, at a character other than NUL. */
  function Step(js: string, cap: nat, s: State): (o: Outcome)
    requires s.Valid(js) && At(js, s.pos) != '\0'
    ensures o.Next? ==> o.s.Valid(js) && s.pos < o.s.pos
    ensures o.Next? ==> |s.toks| <= |o.s.toks|
    ensures o.Next? && |s.toks| <= cap ==> |o.s.toks| <= cap
  {
    var c := js[s.pos];
    if IsOpening(c) then
      if |s.toks| >= cap then Stop(NoMem)
      else Next(Push(s, Token(KindOf(c), s.pos, -1, 0), s.pos + 1, |s.toks|))
    else if IsClosing(c) then
      var i := InnermostOpen(s.toks, |s.toks|);
      if i == -1 || s.toks[i].kind != KindOf(c) then Stop(Inval)
      else Next(Shut(s, i))
    else if c == '\"' then
      match ScanString(js, s.pos + 1)
      case BadEscape => Stop(Inval)
      case Unclosed => Stop(Part)
      case Closed(q) =>
        if |s.toks| >= cap then Stop(NoMem)
        else Next(Push(s, Token(String, s.pos + 1, q, 0), q + 1, s.super))
    else if IsBlank(c) || c == ':' || c == ',' then
      Next(s.(pos := s.pos + 1))
    else
      var e := PrimitiveEnd(js, s.pos);
      if e == -1 then Stop(Inval)
      else if |s.toks| >= cap then Stop(NoMem)
      else Next(Push(s, Token(Primitive, s.pos, e, 0), e, s.super))
  }

  /** A whole call: the state it leaves and the code it returns. */
  function Run(js: string, cap: nat, s: State): (r: (State, Code))
    requires s.Valid(js)
    ensures r.0.Valid(js)
    decreases |js| - s.pos
  {
    if At(js, s.pos) == '\0' then
      (s, if InnermostOpen(s.toks, |s.toks|) != -1 then Part else Success)
    else
      match Step(js, cap, s)
      case Stop(code) => (s, code)
      case Next(s') => Run(js, cap, s')
  }
}
