/** Cutting the next word out of a buffer in place, with quoted delimiters put back. */
module SkipQuoted {
  import opened Memory

  // ----- what is cut out

  /** Where strcspn stops in m, from i on: at a stop character or at the end n. */
  function SpanTo(m: string, i: nat, n: nat, stop: string): (j: nat)
    requires i <= n <= |m|
    ensures i <= j <= n
    decreases n - i
  {
    if i == n || m[i] in stop then i else SpanTo(m, i + 1, n, stop)
  }

  /** Where strspn stops. */
  function SpanOf(m: string, i: nat, n: nat, accept: string): (j: nat)
    requires i <= n <= |m|
    ensures i <= j <= n
    decreases n - i
  {
    if i == n || m[i] !in accept then i else SpanOf(m, i + 1, n, accept)
  }

  /** What a cut keeps, from the start of the buffer to the end of the word, and where
      the text behind it goes on. */
  datatype Cut = Cut(head: string, next: nat)

  /** The last character kept gives way to the text from e to `next`. */
  function Joined(head: string, m: string, e: nat, next: nat): (r: string)
    requires head != "" && e <= next <= |m|
    ensures |r| == |head| - 1 + next - e
  {
    head[..|head| - 1] + m[e..next]
  }

  /** While the text kept so far ends in the quote character, that character gives way to
      the delimiter at e that stopped the word, and the word goes on to the next one. */
  function Unquote(m: string, n: nat, head: string, e: nat, stop: string, quote: char): (cut: Cut)
    requires head != "" && |head| <= e <= n <= |m|
    ensures |head| - 1 <= |cut.head| <= cut.next && e <= cut.next <= n
    decreases n - e
  {
    var last := |head| - 1;
    if head[last] != quote then Cut(head, e)
    else if e == n then Cut(head[..last], e)
    else
      var next := SpanTo(m, e + 1, n, stop);
      Unquote(m, n, Joined(head, m, e, next), next, stop, quote)
  }

  /** The word that starts at `begin` in the text m[..n], without the gap behind it. */
  function CutWord(m: string, begin: nat, n: nat, stop: string, quote: char): (cut: Cut)
    requires begin <= n <= |m|
    ensures begin <= |cut.head| <= cut.next <= n
  {
    var k := SpanTo(m, begin, n, stop);
    if k == begin then Cut(m[..begin], begin) else Unquote(m, n, m[..k], k, stop, quote)
  }

  /** After the delimiter and the white space that follows it. */
  function AfterGap(m: string, e: nat, n: nat, blanks: string): (next: nat)
    requires e <= n <= |m|
    ensures e <= next <= n
  {
    if e == n then n else SpanOf(m, e + 1, n, blanks)
  }

  function Skip(m: string, begin: nat, n: nat, stop: string, blanks: string, quote: char): (cut: Cut)
    requires begin <= n <= |m|
    ensures begin <= |cut.head| <= cut.next <= n
  {
    var cut := CutWord(m, begin, n, stop, quote);
    Cut(cut.head, AfterGap(m, cut.next, n, blanks))
  }

  /** Only the last character kept can still be given up. */
  lemma {:induction false} UnquoteKeeps(m: string, n: nat, head: string, e: nat, stop: string, quote: char)
    requires head != "" && |head| <= e <= n <= |m|
    ensures head[..|head| - 1] <= Unquote(m, n, head, e, stop, quote).head
    decreases n - e
  {
    var last := |head| - 1;
    if head[last] == quote && e < n {
      var next := SpanTo(m, e + 1, n, stop);
      var more := Joined(head, m, e, next);
      UnquoteKeeps(m, n, more, next, stop, quote);
      assert head[..last] <= more[..|more| - 1];
    }
  }

  /** What stands before the word is kept. */
  lemma {:induction false} SkipKeepsBefore(m: string, begin: nat, n: nat, stop: string, blanks: string, quote: char)
    requires begin <= n <= |m|
    ensures Skip(m, begin, n, stop, blanks, quote).head[..begin] == m[..begin]
  {
    var k := SpanTo(m, begin, n, stop);
    if k > begin {
      UnquoteKeeps(m, n, m[..k], k, stop, quote);
      assert m[..begin] <= m[..k][..k - 1];
    }
  }

  // ----- the cutter, in place

  /** The buffer holds `head`, and from e on it is as it was. */
  ghost predicate Holds(buf: array<char>, m0: string, head: string, e: nat)
    reads buf
  {
    && buf.Length == |m0|
    && |head| <= e <= |m0|
    && (forall i :: 0 <= i < |head| ==> head[i] == buf[i])
    && (forall i :: e <= i < |m0| ==> m0[i] == buf[i])
  }

  /** The text ends with the NUL at n. */
  ghost predicate Ends(m: string, from: nat, n: nat) {
    from <= n < |m| && m[n] == '\0' && forall i :: from <= i < n ==> m[i] != '\0'
  }

  method Strcspn(buf: array<char>, from: nat, stop: string, ghost n: nat, ghost m0: string) returns (j: nat)
    requires Ends(m0, from, n) && |m0| == buf.Length
    requires forall i :: from <= i <= n ==> buf[i] == m0[i]
    ensures j == SpanTo(m0, from, n, stop)
  {
    j := from;
    while buf[j] != '\0' && buf[j] !in stop
      invariant from <= j <= n && SpanTo(m0, from, n, stop) == SpanTo(m0, j, n, stop)
      decreases n - j
    {
      j := j + 1;
    }
  }

  method Strspn(buf: array<char>, from: nat, accept: string, ghost n: nat, ghost m0: string) returns (j: nat)
    requires Ends(m0, from, n) && |m0| == buf.Length && '\0' !in accept
    requires forall i :: from <= i <= n ==> buf[i] == m0[i]
    ensures j == SpanOf(m0, from, n, accept)
  {
    j := from;
    while buf[j] in accept
      invariant from <= j <= n && SpanOf(m0, from, n, accept) == SpanOf(m0, j, n, accept)
      decreases n - j
    {
      j := j + 1;
    }
  }

  /** memmove(buf + to, buf + from, len). */
  method MemMove(buf: array<char>, to: nat, from: nat, len: nat)
    requires to <= from && from + len <= buf.Length
    modifies buf
    ensures forall i :: to <= i < to + len ==> buf[i] == old(buf[i - to + from])
    ensures forall i :: 0 <= i < buf.Length && !(to <= i < to + len) ==> buf[i] == old(buf[i])
  {
    forall i | to <= i < to + len { buf[i] := buf[i - to + from]; }
  }

  method BlankOut(buf: array<char>, from: nat, to: nat)
    requires from <= to <= buf.Length
    modifies buf
    ensures forall i :: from <= i < to ==> buf[i] == '\0'
    ensures forall i :: 0 <= i < buf.Length && !(from <= i < to) ==> buf[i] == old(buf[i])
  {
    var p := from;
    while p < to
      invariant from <= p <= to
      invariant forall i :: from <= i < p ==> buf[i] == '\0'
      invariant forall i :: 0 <= i < buf.Length && !(from <= i < p) ==> buf[i] == old(buf[i])
    {
      buf[p] := '\0';
      p := p + 1;
    }
  }

  /** Moves what stands from e to `next` down over the last character kept, at p. */
  method MoveDown(buf: array<char>, p: nat, e: nat, next: nat, ghost head: string, ghost m0: string)
    requires |head| == p + 1 && e <= next <= |m0| && Holds(buf, m0, head, e)
    modifies buf
    ensures Holds(buf, m0, Joined(head, m0, e, next), next)
  {
    ghost var more := Joined(head, m0, e, next);
    MemMove(buf, p, e, next - e);
    forall i | 0 <= i < |more| ensures buf[i] == more[i] {
      if i < p { assert more[i] == head[i]; } else { assert more[i] == m0[i - p + e]; }
    }
  }

  method DropLast(buf: array<char>, p: nat, e: nat, ghost head: string, ghost m0: string)
    requires |head| == p + 1 && Holds(buf, m0, head, e)
    modifies buf
    ensures Holds(buf, m0, head[..p], e) && buf[p] == '\0'
  {
    buf[p] := '\0';
  }

  /** One round: finds the next delimiter and moves the stretch before it down. */
  method JoinNext(buf: array<char>, p: nat, e: nat, stop: string, quote: char,
                  ghost n: nat, ghost m0: string, ghost head: string)
    returns (next: nat, ghost more: string)
    requires |head| == p + 1 && Holds(buf, m0, head, e) && head[p] == quote && e < n && Ends(m0, e, n)
    modifies buf
    ensures e < next <= n < |m0| && |more| == p + next - e && Holds(buf, m0, more, next)
    ensures Unquote(m0, n, head, e, stop, quote) == Unquote(m0, n, more, next, stop, quote)
  {
    next := Strcspn(buf, e + 1, stop, n, m0);
    MoveDown(buf, p, e, next, head, m0);
    more := Joined(head, m0, e, next);
  }

  /** Takes quoted delimiters into the word that ends at e. Afterwards p is at the last
      character of the word, or at the NUL that took its place. */
  method JoinQuoted(buf: array<char>, e: nat, stop: string, quote: char, ghost n: nat, ghost m0: string)
    returns (p: nat, endWord: nat, ghost cut: Cut)
    requires 0 < e && Ends(m0, e, n) && Image(buf, m0)
    modifies buf
    ensures e <= n < |m0| && cut == Unquote(m0, n, m0[..e], e, stop, quote) && endWord == cut.next
    ensures Holds(buf, m0, cut.head, endWord)
    ensures |cut.head| == p + 1 || (|cut.head| == p < endWord && buf[p] == '\0')
  {
    endWord, p := e, e - 1;
    ghost var head := m0[..e];
    cut := Unquote(m0, n, head, e, stop, quote);
    while buf[p] == quote
      invariant p + 1 == |head| <= endWord <= n && Holds(buf, m0, head, endWord)
      invariant e <= endWord && cut == Unquote(m0, n, head, endWord, stop, quote)
      decreases n - endWord
    {
      assert head[p] == buf[p] && m0[endWord] == buf[endWord];
      if buf[endWord] == '\0' {
        DropLast(buf, p, endWord, head, m0);
        return;
      }
      var next;
      next, head := JoinNext(buf, p, endWord, stop, quote, n, m0, head);
      p := p + (next - endWord) - 1;
      endWord := next;
    }
    assert head[p] == buf[p];
  }

  /** Cuts the next word off the text that starts at `begin` and ends with the NUL at n:
      the word is left where it began, the room up to the new cursor is all NUL, and no
      byte before the word or from the cursor on changes. m0 is the buffer before. */
  method SkipInPlace(buf: array<char>, begin: nat, stop: string, blanks: string, quote: char, ghost n: nat, ghost m0: string)
    returns (next: nat)
    requires Ends(m0, begin, n) && Image(buf, m0) && '\0' !in blanks
    modifies buf
    ensures begin <= n < buf.Length == |m0|
    ensures var cut := Skip(m0, begin, n, stop, blanks, quote);
            && next == cut.next && Holds(buf, m0, cut.head, next) && cut.head[..begin] == m0[..begin]
            && buf[|cut.head|] == '\0' && forall i :: |cut.head| <= i < next ==> buf[i] == '\0'
  {
    var endWord := Strcspn(buf, begin, stop, n, m0);
    ghost var cut := CutWord(m0, begin, n, stop, quote);
    if endWord > begin {
      var p;
      p, endWord, cut := JoinQuoted(buf, endWord, stop, quote, n, m0);
      BlankOut(buf, p + 1, endWord);
    }
    next := SkipGap(buf, endWord, blanks, n, m0, cut.head);
    SkipKeepsBefore(m0, begin, n, stop, blanks, quote);
  }

  /** Blanks out the delimiter and the white space after it. */
  method SkipGap(buf: array<char>, endWord: nat, blanks: string, ghost n: nat, ghost m0: string, ghost head: string)
    returns (next: nat)
    requires Ends(m0, endWord, n) && '\0' !in blanks && Holds(buf, m0, head, endWord)
    requires forall i :: |head| <= i < endWord ==> buf[i] == '\0'
    modifies buf
    ensures endWord <= n < |m0| && next == AfterGap(m0, endWord, n, blanks)
    ensures Holds(buf, m0, head, next)
    ensures buf[|head|] == '\0' && forall i :: |head| <= i < next ==> buf[i] == '\0'
  {
    assert m0[endWord] == buf[endWord];
    next := endWord;
    if buf[endWord] != '\0' {
      next := Strspn(buf, endWord + 1, blanks, n, m0);
      BlankOut(buf, endWord, next);
    }
  }

  // ----- plain words

  lemma {:induction false} SpanToMeans(m: string, i: nat, n: nat, stop: string)
    requires i <= n <= |m|
    ensures var j := SpanTo(m, i, n, stop);
            (forall k :: i <= k < j ==> m[k] !in stop) && (j < n ==> m[j] in stop)
    decreases n - i
  {
    if i < n && m[i] !in stop { SpanToMeans(m, i + 1, n, stop); }
  }

  lemma {:induction false} SpanOfMeans(m: string, i: nat, n: nat, accept: string)
    requires i <= n <= |m|
    ensures var j := SpanOf(m, i, n, accept);
            (forall k :: i <= k < j ==> m[k] in accept) && (j < n ==> m[j] !in accept)
    decreases n - i
  {
    if i < n && m[i] in accept { SpanOfMeans(m, i + 1, n, accept); }
  }

  /** Without a quote character, as in header lines: the word runs to the first delimiter,
      and the gap is that delimiter and all white space behind it. */
  lemma {:induction false} PlainWord(m: string, begin: nat, n: nat, stop: string, blanks: string)
    requires begin <= n <= |m| && forall k :: begin <= k < n ==> m[k] != '\0'
    ensures var cut := Skip(m, begin, n, stop, blanks, '\0');
            var e := |cut.head|;
            && begin <= e <= n && cut.head == m[..e]
            && (forall k :: begin <= k < e ==> m[k] !in stop)
            && (if e == n then cut.next == n else m[e] in stop && e < cut.next <= n)
            && (forall k :: e < k < cut.next ==> m[k] in blanks)
            && (cut.next < n ==> m[cut.next] !in blanks)
  {
    var e := SpanTo(m, begin, n, stop);
    SpanToMeans(m, begin, n, stop);
    if e < n { SpanOfMeans(m, e + 1, n, blanks); }
    assert e > begin ==> m[..e][e - 1] != '\0';
  }

  /** A quote character at the very end has nothing to quote and is dropped. */
  lemma {:induction false} QuoteAtEndIsDropped(m: string, begin: nat, n: nat, stop: string, blanks: string, quote: char)
    requires begin < n <= |m| && m[n - 1] == quote && forall k :: begin <= k < n ==> m[k] !in stop
    ensures Skip(m, begin, n, stop, blanks, quote) == Cut(m[..n - 1], n)
  {
    SpanToMeans(m, begin, n, stop);
    assert SpanTo(m, begin, n, stop) == n;
    assert m[..n][n - 1] == quote && m[..n][..n - 1] == m[..n - 1];
  }

  // ----- quoting and cutting

  /** The inside of a quoted-string (section 2.2 of RFC 2616), with only `"` escaped. */
  function Quote(s: string): string {
    if s == "" then ""
    else if s[0] == '"' then "\\\"" + Quote(s[1..])
    else [s[0]] + Quote(s[1..])
  }

  /** The cutter goes on: the text from i up to the next quote is taken into the word. */
  function GoOn(m: string, head: string, i: nat): Cut
    requires |head| <= i <= |m|
  {
    var j := SpanTo(m, i, |m|, "\"");
    var more := head + m[i..j];
    if more == "" then Cut("", j) else Unquote(m, |m|, more, j, "\"", '\\')
  }

  /** An escaped quote costs one round. */
  lemma {:induction false} ReadsQuote(m: string, head: string, i: nat)
    requires |head| <= i && i + 1 < |m| && m[i] == '\\' && m[i + 1] == '"'
    ensures GoOn(m, head, i) == GoOn(m, head + "\"", i + 2)
  {
    var next := SpanTo(m, i + 2, |m|, "\"");
    assert SpanTo(m, i, |m|, "\"") == SpanTo(m, i + 1, |m|, "\"") == i + 1;
    assert head + m[i..i + 1] == head + "\\";
    assert Joined(head + "\\", m, i + 1, next) == (head + "\"") + m[i + 2..next];
  }

  lemma {:induction false} ReadsOther(m: string, head: string, i: nat)
    requires |head| <= i < |m| && m[i] != '"'
    ensures GoOn(m, head, i) == GoOn(m, head + [m[i]], i + 1)
  {
    var j := SpanTo(m, i + 1, |m|, "\"");
    assert head + m[i..j] == (head + [m[i]]) + m[i + 1..j];
  }

  /** The quoted text, read one character on. */
  lemma {:induction false} ReadsTail(m: string, i: nat, v: string)
    requires v != "" && Reads(m, i, Quote(v))
    ensures var d := if v[0] == '"' then 2 else 1;
            i + d <= |m| && Reads(m, i + d, Quote(v[1..])) && |Quote(v)| == |Quote(v[1..])| + d
    ensures v[0] == '"' ==> m[i] == '\\' && m[i + 1] == '"'
    ensures v[0] != '"' ==> m[i] == v[0]
  {
    var q, r := Quote(v), Quote(v[1..]);
    if v[0] == '"' {
      assert q == "\\\"" + r;
      assert q[0] == '\\' && q[1] == '"' && forall k :: 0 <= k < |r| ==> r[k] == q[k + 2];
    } else {
      assert q == [v[0]] + r;
      assert q[0] == v[0] && forall k :: 0 <= k < |r| ==> r[k] == q[k + 1];
    }
  }

  lemma {:induction false} ReadsOne(m: string, head: string, i: nat, v: string) returns (next: nat)
    requires v != "" && |head| <= i && Reads(m, i, Quote(v))
    ensures i < next <= |m| && next + |Quote(v[1..])| == i + |Quote(v)| && Reads(m, next, Quote(v[1..]))
    ensures GoOn(m, head, i) == GoOn(m, head + [v[0]], next)
  {
    ReadsTail(m, i, v);
    if v[0] == '"' {
      ReadsQuote(m, head, i);
      next := i + 2;
    } else {
      ReadsOther(m, head, i);
      next := i + 1;
    }
  }

  /** The cutter takes v, found quoted at i, into the word. */
  lemma {:induction false} ReadsOn(m: string, head: string, i: nat, v: string, full: string, e: nat)
    requires full == head + v && |head| <= i && e == i + |Quote(v)| && Reads(m, i, Quote(v))
    ensures |full| <= e <= |m| && GoOn(m, head, i) == GoOn(m, full, e)
    decreases |v|
  {
    if v == "" {
      assert full == head;
    } else {
      var next := ReadsOne(m, head, i, v);
      var more := head + [v[0]];
      assert full == more + v[1..];
      ReadsOn(m, more, next, v[1..], full, e);
    }
  }

  /** At the closing quote the word is done, unless it ends in a backslash. */
  lemma {:induction false} AtClosingQuote(m: string, head: string, i: nat)
    requires 0 < |head| <= i < |m| && m[i] == '"' && head[|head| - 1] != '\\'
    ensures GoOn(m, head, i) == Cut(head, i)
  {
    assert head + m[i..i] == head;
  }

  /** A backslash at its end makes the cutter take the closing quote for part of it. */
  lemma {:induction false} PastClosingQuote(m: string, head: string, i: nat)
    requires 0 < |head| <= i < |m| && m[i] == '"' && head[|head| - 1] == '\\'
    ensures |GoOn(m, head, i).head| >= |head| && GoOn(m, head, i).head[|head| - 1] == '"'
  {
    assert head + m[i..i] == head;
    var next := SpanTo(m, i + 1, |m|, "\"");
    var more := Joined(head, m, i, next);
    assert more[|head| - 1] == '"';
    UnquoteKeeps(m, |m|, more, next, "\"", '\\');
    if next > i + 1 {
      assert more[..|more| - 1][|head| - 1] == '"';
    }
  }

  lemma {:induction false} GapIs(m: string, e: nat, blanks: string, rest: string)
    requires e < |m| && Reads(m, e + 1, blanks) && Reads(m, e + 1 + |blanks|, rest) && |m| == e + 1 + |blanks| + |rest|
    requires (forall k :: 0 <= k < |blanks| ==> blanks[k] == ' ') && (rest == "" || rest[0] != ' ')
    ensures AfterGap(m, e, |m|, " ") == |m| - |rest|
  {
    assert rest != "" ==> m[e + 1 + |blanks|] == rest[0];
    assert forall k :: e + 1 <= k < e + 1 + |blanks| ==> m[k] == blanks[k - e - 1];
    SpanOfIs(m, e + 1, |m|, " ", |m| - |rest|);
  }

  lemma {:induction false} SpanOfIs(m: string, i: nat, n: nat, accept: string, j: nat)
    requires i <= j <= n <= |m| && (j < n ==> m[j] !in accept)
    requires forall k :: i <= k < j ==> m[k] in accept
    ensures SpanOf(m, i, n, accept) == j
    decreases n - i
  {
    if i < j { SpanOfIs(m, i + 1, n, accept, j); }
  }

  lemma {:induction false} SkipGoesOn(m: string, before: string, b: nat, s: string)
    requires b == |before| <= |m| && m[..b] == before && s != "" && Reads(m, b, Quote(s))
    ensures SpanTo(m, b, |m|, "\"") > b && CutWord(m, b, |m|, "\"", '\\') == GoOn(m, before, b)
  {
    assert Quote(s)[0] == m[b];
    var k := SpanTo(m, b, |m|, "\"");
    assert m[..k] == before + m[b..k];
  }

  /** Where the last character of s should stand, there is a quote. */
  ghost predicate EndsInQuote(head: string, before: string, s: string) {
    s != "" && |head| >= |before| + |s| && head[|before| + |s| - 1] == '"'
  }

  lemma {:induction false} WordReadBack(m: string, before: string, s: string)
    requires s != "" && |before| + |Quote(s)| < |m| && m[..|before|] == before
    requires Reads(m, |before|, Quote(s)) && m[|before| + |Quote(s)|] == '"'
    ensures var cut := CutWord(m, |before|, |m|, "\"", '\\');
            if s[|s| - 1] == '\\' then EndsInQuote(cut.head, before, s) else cut == Cut(before + s, |before| + |Quote(s)|)
  {
    var head, e := before + s, |before| + |Quote(s)|;
    assert head[|head| - 1] == s[|s| - 1];
    SkipGoesOn(m, before, |before|, s);
    ReadsOn(m, before, |before|, s, head, e);
    if s[|s| - 1] == '\\' { PastClosingQuote(m, head, e); } else { AtClosingQuote(m, head, e); }
  }

  /** Where the parts of the text stand. */
  lemma {:induction false} PartsAt(m: string, before: string, q: string, blanks: string, rest: string)
    requires m == before + q + "\"" + blanks + rest
    ensures var e := |before| + |q|;
            && |m| == e + 1 + |blanks| + |rest| && m[..|before|] == before && Reads(m, |before|, q) && m[e] == '"'
            && Reads(m, e + 1, blanks) && Reads(m, e + 1 + |blanks|, rest)
  {
  }

  lemma {:induction false} ReadBack(m: string, before: string, s: string, e: nat, next: nat)
    requires e == |before| + |Quote(s)| < |m| && m[..|before|] == before && Reads(m, |before|, Quote(s)) && m[e] == '"'
    requires AfterGap(m, e, |m|, " ") == next
    ensures var cut := Skip(m, |before|, |m|, "\"", " ", '\\');
            if s != "" && s[|s| - 1] == '\\' then EndsInQuote(cut.head, before, s) else cut == Cut(before + s, next)
  {
    if s == "" {
      assert before + s == before;
    } else {
      WordReadBack(m, before, s);
    }
  }

  /** A quoted value is read back exactly, with the cursor behind its closing quote and the
      blanks after that, if and only if it does not end in a backslash. */
  lemma {:induction false} QuotedValue(m: string, before: string, s: string, blanks: string, rest: string)
    requires m == before + Quote(s) + "\"" + blanks + rest
    requires (forall k :: 0 <= k < |blanks| ==> blanks[k] == ' ') && (rest == "" || rest[0] != ' ')
    ensures (s == "" || s[|s| - 1] != '\\')
              <==> Skip(m, |before|, |m|, "\"", " ", '\\') == Cut(before + s, |m| - |rest|)
    ensures s != "" && s[|s| - 1] == '\\' ==> EndsInQuote(Skip(m, |before|, |m|, "\"", " ", '\\').head, before, s)
  {
    var e := |before| + |Quote(s)|;
    PartsAt(m, before, Quote(s), blanks, rest);
    GapIs(m, e, blanks, rest);
    ReadBack(m, before, s, e, |m| - |rest|);
    if s != "" { assert (before + s)[|before| + |s| - 1] == s[|s| - 1]; }
  }

  // ----- what stands behind the text does not matter

  lemma {:induction false} SpanToAhead(m: string, i: nat, n: nat, stop: string)
    requires i <= n <= |m|
    ensures SpanTo(m, i, n, stop) == SpanTo(m[..n], i, n, stop)
    decreases n - i
  {
    if i < n && m[i] !in stop { SpanToAhead(m, i + 1, n, stop); }
  }

  lemma {:induction false} SpanOfAhead(m: string, i: nat, n: nat, accept: string)
    requires i <= n <= |m|
    ensures SpanOf(m, i, n, accept) == SpanOf(m[..n], i, n, accept)
    decreases n - i
  {
    if i < n && m[i] in accept { SpanOfAhead(m, i + 1, n, accept); }
  }

  lemma {:induction false} UnquoteAhead(m: string, n: nat, head: string, e: nat, stop: string, quote: char)
    requires head != "" && |head| <= e <= n <= |m|
    ensures Unquote(m, n, head, e, stop, quote) == Unquote(m[..n], n, head, e, stop, quote)
    decreases n - e
  {
    if head[|head| - 1] == quote && e < n {
      SpanToAhead(m, e + 1, n, stop);
      var next := SpanTo(m, e + 1, n, stop);
      assert m[..n][e..next] == m[e..next];
      UnquoteAhead(m, n, Joined(head, m, e, next), next, stop, quote);
    }
  }

  lemma {:induction false} SkipAhead(m: string, begin: nat, n: nat, stop: string, blanks: string, quote: char)
    requires begin <= n <= |m|
    ensures Skip(m, begin, n, stop, blanks, quote) == Skip(m[..n], begin, n, stop, blanks, quote)
  {
    SpanToAhead(m, begin, n, stop);
    var k := SpanTo(m, begin, n, stop);
    assert m[..n][..k] == m[..k] && m[..n][..begin] == m[..begin];
    if k > begin { UnquoteAhead(m, n, m[..k], k, stop, quote); }
    var e := CutWord(m, begin, n, stop, quote).next;
    if e < n { SpanOfAhead(m, e + 1, n, blanks); }
  }

  /** The same in a buffer, where a NUL and anything else may stand behind the text. */
  lemma {:induction false} QuotedValueInside(m0: string, m: string, before: string, s: string, blanks: string, rest: string)
    requires m == before + Quote(s) + "\"" + blanks + rest && m <= m0
    requires (forall k :: 0 <= k < |blanks| ==> blanks[k] == ' ') && (rest == "" || rest[0] != ' ')
    ensures (s == "" || s[|s| - 1] != '\\')
              <==> Skip(m0, |before|, |m|, "\"", " ", '\\') == Cut(before + s, |m| - |rest|)
    ensures s != "" && s[|s| - 1] == '\\' ==> EndsInQuote(Skip(m0, |before|, |m|, "\"", " ", '\\').head, before, s)
  {
    SkipAhead(m0, |before|, |m|, "\"", " ", '\\');
    assert m0[..|m|] == m;
    QuotedValue(m, before, s, blanks, rest);
  }

  /** A buffer whose text from |before| on begins with the quoted s. */
  ghost predicate Quoted(m0: string, n: nat, before: string, s: string, blanks: string, rest: string) {
    && n <= |m0| && m0[..n] == before + Quote(s) + "\"" + blanks + rest
    && (forall k :: 0 <= k < |blanks| ==> blanks[k] == ' ') && (rest == "" || rest[0] != ' ')
  }

  /** What the cutter makes of it. */
  lemma {:induction false} QuotedIsCut(m0: string, n: nat, before: string, s: string, blanks: string, rest: string)
    returns (cut: Cut)
    requires Quoted(m0, n, before, s, blanks, rest)
    ensures cut == Skip(m0, |before|, n, "\"", " ", '\\')
    ensures if s != "" && s[|s| - 1] == '\\' then EndsInQuote(cut.head, before, s)
            else |cut.head| == |before| + |s| && Reads(cut.head, |before|, s)
                 && cut.next == |before| + |Quote(s)| + 1 + |blanks| && cut.next + |rest| == n && Reads(m0, cut.next, rest)
  {
    var m := m0[..n];
    cut := Skip(m0, |before|, n, "\"", " ", '\\');
    QuotedValueInside(m0, m, before, s, blanks, rest);
    PartsAt(m, before, Quote(s), blanks, rest);
  }

  /** String s and a NUL stand at `at` in the buffer. */
  ghost predicate Stands(buf: array<char>, at: nat, s: string)
    reads buf
  {
    && at + |s| < buf.Length && buf[at + |s|] == '\0'
    && forall k :: 0 <= k < |s| ==> s[k] == buf[at + k]
  }

  /** Reads a quoted value off a header line in its buffer, as the authorization code does.
      The value is left there exactly as it was before quoting, with the cursor behind its
      closing quote and the blanks after it and what follows untouched, if and only if it
      does not end in a backslash. */
  method TakeQuotedValue(buf: array<char>, begin: nat, ghost n: nat, ghost m0: string,
                         ghost before: string, ghost s: string, ghost blanks: string, ghost rest: string)
    returns (next: nat)
    requires Image(buf, m0) && Ends(m0, begin, n) && Quoted(m0, n, before, s, blanks, rest) && |before| == begin
    modifies buf
    ensures (s == "" || s[|s| - 1] != '\\') <==>
              next == begin + |Quote(s)| + 1 + |blanks| && Stands(buf, begin, s) && Stands(buf, next, rest)
    ensures forall i :: 0 <= i < begin || next <= i < |m0| ==> m0[i] == buf[i]
  {
    ghost var cut := QuotedIsCut(m0, n, before, s, blanks, rest);
    next := SkipInPlace(buf, begin, "\"", " ", '\\', n, m0);
    if s != "" && s[|s| - 1] == '\\' {
      NotLeft(buf, m0, before, s, cut.head, next);
    } else {
      WordLeft(buf, m0, begin, s, cut.head, next);
      RestLeft(buf, m0, cut.head, next, rest);
    }
  }

  lemma {:induction false} WordLeft(buf: array<char>, m0: string, begin: nat, s: string, head: string, next: nat)
    requires Holds(buf, m0, head, next) && Reads(head, begin, s) && |head| == begin + |s| < buf.Length && buf[|head|] == '\0'
    ensures Stands(buf, begin, s)
  {
  }

  lemma {:induction false} RestLeft(buf: array<char>, m0: string, head: string, next: nat, rest: string)
    requires Holds(buf, m0, head, next) && Reads(m0, next, rest) && next + |rest| < |m0| && m0[next + |rest|] == '\0'
    ensures Stands(buf, next, rest)
  {
    assert forall k :: 0 <= k < |rest| ==> rest[k] == m0[next + k] == buf[next + k];
  }

  lemma {:induction false} NotLeft(buf: array<char>, m0: string, before: string, s: string, head: string, next: nat)
    requires Holds(buf, m0, head, next) && EndsInQuote(head, before, s) && s[|s| - 1] == '\\'
    ensures !Stands(buf, |before|, s)
  {
    assert buf[|before| + |s| - 1] == head[|before| + |s| - 1];
  }
}
