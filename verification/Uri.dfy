/** Percent-encoding and the path cleaner, on bytes, in place where the server does it in
    place (section 2.1 of RFC 3986). */
module Uri {
  import opened Memory
  import opened Octets

  const SPACE: byte := 0x20
  const PERCENT: byte := 0x25
  const AMPERSAND: byte := 0x26
  const PLUS: byte := 0x2b
  const DOT: byte := 0x2e
  const SLASH: byte := 0x2f
  const EQUALS: byte := 0x3d
  const BACKSLASH: byte := 0x5c

  // ----- characters

  function Lower(c: byte): byte {
    if 0x41 <= c <= 0x5a then c + 0x20 else c
  }

  predicate IsDigit(c: byte) {
    0x30 <= c <= 0x39
  }

  predicate IsHex(c: byte) {
    IsDigit(c) || 0x61 <= Lower(c) <= 0x66
  }

  function HexValue(c: byte): (v: int)
    requires IsHex(c)
    ensures 0 <= v < 16
  {
    if IsDigit(c) then c - 0x30 else Lower(c) - 0x57
  }

  /** The lower-case digit of a value. */
  function HexDigit(v: int): (c: byte)
    requires 0 <= v < 16
    ensures IsHex(c) && HexValue(c) == v
  {
    if v < 10 then 0x30 + v else 0x57 + v
  }

  /** Letters, digits and ._-$,;~() stand for themselves. */
  predicate IsPlain(c: byte) {
    || IsDigit(c)
    || 0x61 <= Lower(c) <= 0x7a
    || c in [0x2e, 0x5f, 0x2d, 0x24, 0x2c, 0x3b, 0x7e, 0x28, 0x29]
  }

  // ----- decoding

  predicate EscapeAt(m: seq<byte>, i: nat, n: nat)
    requires i < n <= |m|
  {
    m[i] == PERCENT && i + 2 < n && IsHex(m[i + 1]) && IsHex(m[i + 2])
  }

  function DecodedByte(m: seq<byte>, i: nat, n: nat, form: bool): byte
    requires i < n <= |m|
  {
    if EscapeAt(m, i, n) then 16 * HexValue(m[i + 1]) + HexValue(m[i + 2])
    else if form && m[i] == PLUS then SPACE
    else m[i]
  }

  function NextAt(m: seq<byte>, i: nat, n: nat): nat
    requires i < n <= |m|
  {
    if EscapeAt(m, i, n) then i + 3 else i + 1
  }

  /** `out` and what m[i..n] stands for; in a form a plus stands for a space. */
  function DecodeOn(m: seq<byte>, i: nat, n: nat, form: bool, out: seq<byte>): (r: seq<byte>)
    requires i <= n <= |m|
    ensures |out| <= |r| <= |out| + n - i && (i < n ==> |out| < |r|)
    decreases n - i
  {
    if i == n then out else DecodeOn(m, NextAt(m, i, n), n, form, out + [DecodedByte(m, i, n, form)])
  }

  function Decode(s: seq<byte>, form: bool): seq<byte> {
    DecodeOn(s, 0, |s|, form, [])
  }

  lemma {:induction false} DecodeKeeps(m: seq<byte>, i: nat, n: nat, form: bool, out: seq<byte>)
    requires i <= n <= |m|
    ensures out <= DecodeOn(m, i, n, form, out)
    decreases n - i
  {
    if i < n { DecodeKeeps(m, NextAt(m, i, n), n, form, out + [DecodedByte(m, i, n, form)]); }
  }

  /** At most `room` bytes of r stand at `at` in the buffer, a NUL behind them, and all
      other bytes are those of m. */
  ghost predicate Written(buf: array<byte>, m: seq<byte>, at: nat, r: seq<byte>, room: nat)
    reads buf
  {
    var k := if |r| < room then |r| else room;
    && |m| == buf.Length
    && at + k < buf.Length
    && (forall i :: 0 <= i < k ==> r[i] == buf[at + i])
    && buf[at + k] == NUL
    && forall i :: 0 <= i < |m| && !(at <= i <= at + k) ==> m[i] == buf[i]
  }

  /** The byte that the text at i stands for, and where the text goes on. */
  method DecodeOne(from: array<byte>, i: nat, n: nat, form: bool, ghost m: seq<byte>) returns (b: byte, next: nat)
    requires i < n <= |m| == from.Length
    requires forall k :: i <= k < n ==> m[k] == from[k]
    ensures b == DecodedByte(m, i, n, form) && next == NextAt(m, i, n)
  {
    next := i + 1;
    if from[i] == PERCENT && i < n - 2 && IsHex(from[i + 1]) && IsHex(from[i + 2]) {
      var hi, lo := Lower(from[i + 1]), Lower(from[i + 2]);
      b := 16 * HexValue(hi) + HexValue(lo);
      next := i + 3;
    } else if form && from[i] == PLUS {
      b := SPACE;
    } else {
      b := from[i];
    }
  }

  predicate Apart(from: array<byte>, src: nat, end: nat, to: array<byte>, dst: nat) {
    from != to || dst <= src || end <= dst
  }

  /** The loop of the decoder: it stops at the end of the text or of the room. */
  method DecodeInto(from: array<byte>, src: nat, end: nat, to: array<byte>, dst: nat, room: nat, form: bool,
                    ghost m: seq<byte>, ghost t: seq<byte>)
    returns (i: nat, j: nat, ghost out: seq<byte>)
    requires src <= end <= |m| && Image(from, m) && dst + room < |t| && Image(to, t) && Apart(from, src, end, to, dst)
    modifies to
    ensures i <= end && j == dst + |out| <= dst + room && (i == end || |out| == room)
    ensures DecodeOn(m, src, end, form, []) == DecodeOn(m, i, end, form, out)
    ensures forall k :: 0 <= k < |out| ==> out[k] == to[dst + k]
    ensures forall k :: 0 <= k < |t| && !(dst <= k < j) ==> t[k] == to[k]
  {
    i, j, out := src, dst, [];
    while i < end && j < dst + room
      invariant src <= i <= end && j == dst + |out| <= dst + (i - src) && j <= dst + room
      invariant DecodeOn(m, src, end, form, []) == DecodeOn(m, i, end, form, out)
      invariant forall k :: 0 <= k < |out| ==> out[k] == to[dst + k]
      invariant forall k :: 0 <= k < |t| && !(dst <= k < j) ==> t[k] == to[k]
      invariant forall k :: i <= k < end ==> m[k] == from[k]
    {
      var b, next := DecodeOne(from, i, end, form, m);
      to[j] := b;
      out := out + [b];
      i, j := next, j + 1;
    }
  }

  /** Decodes into another buffer, or into the same one at or before where the text
      stands, or behind it: the result is the same. */
  method UrlDecode(from: array<byte>, src: nat, srcLen: nat, to: array<byte>, dst: nat, dstLen: nat, form: bool,
                   ghost m: seq<byte>, ghost t: seq<byte>)
    returns (len: int)
    requires src + srcLen <= |m| && Image(from, m) && dstLen > 0 && dst + dstLen <= |t| && Image(to, t)
    requires Apart(from, src, src + srcLen, to, dst)
    modifies to
    ensures var r := DecodeOn(m, src, src + srcLen, form, []);
            Written(to, t, dst, r, dstLen - 1) && len == if |r| < dstLen then |r| else -1
  {
    var i, j;
    ghost var out;
    i, j, out := DecodeInto(from, src, src + srcLen, to, dst, dstLen - 1, form, m, t);
    DecodeKeeps(m, i, src + srcLen, form, out);
    to[j] := NUL;
    len := if i >= src + srcLen then j - dst else -1;
  }

  // ----- encoding

  function EncodeByte(c: byte): seq<byte> {
    if IsPlain(c) then [c] else [PERCENT, HexDigit(c / 16), HexDigit(c % 16)]
  }

  function Encode(s: seq<byte>): seq<byte> {
    if s == [] then [] else EncodeByte(s[0]) + Encode(s[1..])
  }

  lemma {:induction false} DecodesByte(m: seq<byte>, i: nat, n: nat, form: bool, c: byte)
    requires Reads(m, i, EncodeByte(c)) && i + |EncodeByte(c)| <= n <= |m|
    ensures DecodedByte(m, i, n, form) == c && NextAt(m, i, n) == i + |EncodeByte(c)|
  {
    assert m[i] == EncodeByte(c)[0];
    if !IsPlain(c) {
      assert m[i + 1] == EncodeByte(c)[1] && m[i + 2] == EncodeByte(c)[2];
    }
  }

  lemma {:induction false} DecodesFirst(m: seq<byte>, i: nat, n: nat, v: seq<byte>, form: bool) returns (next: nat)
    requires v != [] && Reads(m, i, Encode(v)) && n == i + |Encode(v)|
    ensures i < n && next == NextAt(m, i, n) && DecodedByte(m, i, n, form) == v[0]
    ensures i < next <= n == next + |Encode(v[1..])| && Reads(m, next, Encode(v[1..]))
  {
    ReadsBoth(m, i, EncodeByte(v[0]), Encode(v[1..]));
    DecodesByte(m, i, n, form, v[0]);
    next := i + |EncodeByte(v[0])|;
  }

  /** Decoding undoes encoding, in a form or not, for any bytes at all. */
  lemma {:induction false} DecodesEncoded(m: seq<byte>, i: nat, v: seq<byte>, form: bool, out: seq<byte>, n: nat, full: seq<byte>)
    requires n == i + |Encode(v)| && full == out + v && Reads(m, i, Encode(v))
    ensures DecodeOn(m, i, n, form, out) == full
    decreases |v|
  {
    if v == [] {
      assert full == out;
    } else {
      var next := DecodesFirst(m, i, n, v, form);
      var more := out + [v[0]];
      assert full == more + v[1..];
      DecodesEncoded(m, next, v[1..], form, more, n, full);
    }
  }

  lemma {:induction false} EncodeRoundTrip(v: seq<byte>, form: bool)
    ensures Decode(Encode(v), form) == v
  {
    DecodesEncoded(Encode(v), 0, v, form, [], |Encode(v)|, v);
  }

  /** Nothing that separates fields survives encoding. */
  lemma {:induction false} EncodedIsOpaque(v: seq<byte>)
    ensures forall k :: 0 <= k < |Encode(v)| ==> IsPlain(Encode(v)[k]) || Encode(v)[k] == PERCENT
  {
    if v != [] {
      EncodedIsOpaque(v[1..]);
      var one, more := EncodeByte(v[0]), Encode(v[1..]);
      assert Encode(v) == one + more;
    }
  }

  /** Three times the length and one more byte are always room enough, and sometimes needed. */
  lemma {:induction false} EncodeLength(v: seq<byte>)
    ensures |v| <= |Encode(v)| <= 3 * |v|
    ensures |Encode(v)| == 3 * |v| <==> forall k :: 0 <= k < |v| ==> !IsPlain(v[k])
  {
    if v != [] {
      EncodeLength(v[1..]);
      assert forall k :: 1 <= k < |v| ==> v[k] == v[1..][k - 1];
      assert |EncodeByte(v[0])| == if IsPlain(v[0]) then 1 else 3;
    }
  }

  /** The string `text` and its NUL stand at the start of the buffer. */
  ghost predicate Terminated(buf: array<byte>, text: seq<byte>)
    reads buf
  {
    |text| < buf.Length && buf[|text|] == NUL && forall k :: 0 <= k < |text| ==> text[k] == buf[k]
  }

  /** Writes the encoding of one byte if there is room for it; the bytes of an escape
      there is no room for are left as they were. */
  method EncodeOne(c: byte, dst: array<byte>, d: nat, end: nat) returns (next: nat)
    requires d < end < dst.Length
    modifies dst
    ensures d < next <= end
    ensures d + |EncodeByte(c)| <= end ==> next == d + |EncodeByte(c)|
                                           && forall k :: d <= k < next ==> dst[k] == EncodeByte(c)[k - d]
    ensures forall k :: 0 <= k < d ==> dst[k] == old(dst[k])
  {
    next := d + 1;
    if IsPlain(c) {
      dst[d] := c;
    } else if d + 2 < end {
      dst[d], dst[d + 1], dst[d + 2] := PERCENT, HexDigit(c / 16), HexDigit(c % 16);
      next := d + 3;
    }
  }

  method EncodeInto(src: seq<byte>, dst: array<byte>, end: nat, ghost all: seq<byte>) returns (d: nat)
    requires end < dst.Length && all == Encode(src)
    modifies dst
    ensures d <= end
    ensures |all| <= end ==> d == |all| && forall k :: 0 <= k < d ==> all[k] == dst[k]
  {
    var i := 0;
    d := 0;
    ghost var out, rest: seq<byte> := [], all;
    while i < |src| && d < end
      invariant i <= |src| && d <= end && rest == Encode(src[i..]) && all == out + rest
      invariant |all| <= end ==> d == |out| && forall k :: 0 <= k < d ==> out[k] == dst[k]
    {
      d := EncodeOne(src[i], dst, d, end);
      out, rest := EncodeSplit(src, i, all, out, rest);
      i := i + 1;
    }
  }

  /** Writes the encoding of the string exactly when it fits, and always ends with a NUL. */
  method UrlEncode(src: seq<byte>, dst: array<byte>)
    requires NUL !in src && dst.Length > 0
    modifies dst
    ensures Terminated(dst, Encode(src)) <==> |Encode(src)| < dst.Length
    ensures dst.Length >= 3 * |src| + 1 ==> Terminated(dst, Encode(src))
    ensures exists k :: 0 <= k < dst.Length && dst[k] == NUL
  {
    var d := EncodeInto(src, dst, dst.Length - 1, Encode(src));
    dst[d] := NUL;
    EncodeLength(src);
  }

  lemma {:induction false} EncodeSplit(s: seq<byte>, i: nat, all: seq<byte>, out: seq<byte>, rest: seq<byte>)
    returns (more: seq<byte>, less: seq<byte>)
    requires i < |s| && rest == Encode(s[i..]) && all == out + rest
    ensures less == Encode(s[i + 1..]) && all == more + less && |more| == |out| + |EncodeByte(s[i])|
    ensures forall k :: 0 <= k < |more| ==> more[k] == if k < |out| then out[k] else EncodeByte(s[i])[k - |out|]
  {
    assert s[i..][1..] == s[i + 1..];
    more, less := out + EncodeByte(s[i]), Encode(s[i + 1..]);
  }

  // ----- the path cleaner

  predicate IsSep(c: byte) {
    c == SLASH || c == BACKSLASH
  }

  predicate DotsAt(m: seq<byte>, i: nat, n: nat)
    requires n <= |m|
  {
    i + 1 < n && m[i] == DOT && m[i + 1] == DOT
  }

  /** Past all separators and double dots from i on. */
  function SkipSeps(m: seq<byte>, i: nat, n: nat): (j: nat)
    requires i <= n <= |m|
    ensures i <= j <= n && (j < n ==> !IsSep(m[j])) && !DotsAt(m, j, n)
    decreases n - i
  {
    if i < n && IsSep(m[i]) then SkipSeps(m, i + 1, n)
    else if DotsAt(m, i, n) then SkipSeps(m, i + 2, n)
    else i
  }

  function NextKept(m: seq<byte>, i: nat, n: nat): (j: nat)
    requires i < n <= |m|
    ensures i < j <= n
  {
    if IsSep(m[i]) then SkipSeps(m, i + 1, n) else i + 1
  }

  /** `out` and what is kept of m[i..n]. */
  function CleanOn(m: seq<byte>, i: nat, n: nat, out: seq<byte>): (r: seq<byte>)
    requires i <= n <= |m|
    ensures |out| <= |r| <= |out| + n - i
    decreases n - i
  {
    if i == n then out else CleanOn(m, NextKept(m, i, n), n, out + [m[i]])
  }

  function Clean(s: seq<byte>): seq<byte> {
    CleanOn(s, 0, |s|, [])
  }

  /** No `/` or `\` is followed by another or by two dots. */
  predicate IsClean(r: seq<byte>) {
    forall k: nat :: k < |r| && (r[k] == 0x2f || r[k] == 0x5c) ==>
      && (k + 1 < |r| ==> r[k + 1] != 0x2f && r[k + 1] != 0x5c)
      && (k + 2 < |r| ==> !(r[k + 1] == 0x2e && r[k + 2] == 0x2e))
  }

  /** What is kept and what comes next do not make a forbidden pattern together. */
  predicate Joins(out: seq<byte>, m: seq<byte>, i: nat, n: nat)
    requires i <= n <= |m|
  {
    var k := |out|;
    && (k > 0 && IsSep(out[k - 1]) && i < n ==> !IsSep(m[i]) && !DotsAt(m, i, n))
    && (k > 1 && IsSep(out[k - 2]) && out[k - 1] == DOT && i < n ==> m[i] != DOT)
  }

  lemma {:induction false} CleanIsClean(m: seq<byte>, i: nat, n: nat, out: seq<byte>)
    requires i <= n <= |m| && IsClean(out) && Joins(out, m, i, n)
    ensures IsClean(CleanOn(m, i, n, out))
    decreases n - i
  {
    if i < n {
      CleanStep(m, i, n, out);
      CleanIsClean(m, NextKept(m, i, n), n, out + [m[i]]);
    }
  }

  lemma {:induction false} CleanStep(m: seq<byte>, i: nat, n: nat, out: seq<byte>)
    requires i < n <= |m| && IsClean(out) && Joins(out, m, i, n)
    ensures IsClean(out + [m[i]]) && Joins(out + [m[i]], m, NextKept(m, i, n), n)
  {
    var more := out + [m[i]];
    forall k: nat | k < |more| && IsSep(more[k])
      ensures (k + 1 < |more| ==> !IsSep(more[k + 1])) && !DotsAt(more, k + 1, |more|)
    {
      if k < |out| { assert IsSep(out[k]); }
    }
  }

  /** Clean text is left alone. */
  lemma {:induction false} CleanLeavesClean(s: seq<byte>, i: nat)
    requires i <= |s| && IsClean(s)
    ensures CleanOn(s, i, |s|, s[..i]) == s
    decreases |s| - i
  {
    if i < |s| {
      assert s[..i + 1] == s[..i] + [s[i]];
      assert IsSep(s[i]) ==> (i + 1 < |s| ==> !IsSep(s[i + 1])) && !DotsAt(s, i + 1, |s|);
      CleanLeavesClean(s, i + 1);
    }
  }

  /** The cleaner's result is always clean, and it changes exactly what is not clean;
      so cleaning twice is cleaning once. */
  lemma {:induction false} CleanExactly(s: seq<byte>)
    ensures IsClean(Clean(s))
    ensures Clean(s) == s <==> IsClean(s)
    ensures Clean(Clean(s)) == Clean(s)
  {
    CleanIsClean(s, 0, |s|, []);
    if IsClean(s) { CleanLeavesClean(s, 0); }
    CleanLeavesClean(Clean(s), 0);
  }

  /** The places of m that are kept, `at` first. */
  ghost function KeptOn(m: seq<byte>, i: nat, n: nat, at: seq<nat>): seq<nat>
    requires i <= n <= |m|
    decreases n - i
  {
    if i == n then at else KeptOn(m, NextKept(m, i, n), n, at + [i])
  }

  /** `at` lists places of s before i in order, `out` is what stands there, and only
      separators and dots are missing. */
  ghost predicate Picks(s: seq<byte>, i: nat, at: seq<nat>, out: seq<byte>) {
    && i <= |s| && |at| == |out|
    && (forall k :: 0 <= k < |at| ==> at[k] < i && out[k] == s[at[k]])
    && (forall j, k :: 0 <= j < k < |at| ==> at[j] < at[k])
    && (forall x: nat :: x < i && s[x] != 0x2f && s[x] != 0x5c && s[x] != 0x2e ==> x in at)
    && (i > 0 ==> at != [] && at[0] == 0)
  }

  /** What is kept is a subsequence that begins where the text does; only separators and
      dots are dropped. */
  lemma {:induction false} CleanPicks(s: seq<byte>, i: nat, at: seq<nat>, out: seq<byte>)
    requires Picks(s, i, at, out)
    ensures Picks(s, |s|, KeptOn(s, i, |s|, at), CleanOn(s, i, |s|, out))
    decreases |s| - i
  {
    if i < |s| {
      var next := NextKept(s, i, |s|);
      if IsSep(s[i]) { SkipsOnly(s, i + 1, |s|); }
      assert forall x :: x in at ==> x in at + [i];
      assert i in at + [i];
      CleanPicks(s, next, at + [i], out + [s[i]]);
    }
  }

  /** The cleaned text, as a selection of places of the text; it begins as the text does. */
  lemma {:induction false} CleanSelects(s: seq<byte>) returns (at: seq<nat>)
    ensures Picks(s, |s|, at, Clean(s))
    ensures s != [] ==> Clean(s) != [] && Clean(s)[0] == s[0]
  {
    CleanPicks(s, 0, [], []);
    at := KeptOn(s, 0, |s|, []);
  }

  lemma {:induction false} SkipsOnly(m: seq<byte>, i: nat, n: nat)
    requires i <= n <= |m|
    ensures forall x :: i <= x < SkipSeps(m, i, n) ==> IsSep(m[x]) || m[x] == DOT
    decreases n - i
  {
    if i < n && IsSep(m[i]) { SkipsOnly(m, i + 1, n); }
    else if DotsAt(m, i, n) { SkipsOnly(m, i + 2, n); }
  }

  method SkipSepsAt(buf: array<byte>, from: nat, ghost n: nat, ghost m: seq<byte>) returns (s: nat)
    requires from <= n < |m| == buf.Length && m[n] == NUL && (forall k :: from <= k < n ==> m[k] != NUL)
    requires forall k :: from <= k <= n ==> m[k] == buf[k]
    ensures s == SkipSeps(m, from, n)
  {
    s := from;
    while buf[s] != NUL
      invariant from <= s <= n && SkipSeps(m, from, n) == SkipSeps(m, s, n)
      decreases n - s
    {
      if IsSep(buf[s]) {
        s := s + 1;
      } else if buf[s] == DOT && buf[s + 1] == DOT {
        s := s + 2;
      } else {
        break;
      }
    }
  }

  /** Cleans the string that runs from `start` to its NUL at n, in place. */
  method CleanPath(buf: array<byte>, start: nat, ghost n: nat, ghost m: seq<byte>)
    requires start <= n < |m| && m[n] == NUL && (forall k :: start <= k < n ==> m[k] != NUL) && Image(buf, m)
    modifies buf
    ensures Written(buf, m, start, CleanOn(m, start, n, []), n - start)
  {
    var s, p := start, start;
    ghost var out: seq<byte> := [];
    while buf[s] != NUL
      invariant start <= p == start + |out| <= s <= n
      invariant CleanOn(m, start, n, []) == CleanOn(m, s, n, out)
      invariant forall k :: 0 <= k < |out| ==> out[k] == buf[start + k]
      invariant forall k :: 0 <= k < |m| && !(start <= k < p) ==> m[k] == buf[k]
      decreases n - s
    {
      out := out + [buf[s]];
      buf[p] := buf[s];
      p, s := p + 1, s + 1;
      if IsSep(buf[s - 1]) {
        s := SkipSepsAt(buf, s, n, m);
      }
    }
    buf[p] := NUL;
  }

  /** Up to the first NUL. */
  function CString(d: seq<byte>): (s: seq<byte>)
    ensures s <= d && NUL !in s && (|s| < |d| ==> d[|s|] == NUL)
    decreases |d|
  {
    if d == [] || d[0] == NUL then [] else [d[0]] + CString(d[1..])
  }

  lemma {:induction false} CleanElsewhere(m: seq<byte>, a: nat, n: nat, s: seq<byte>, i: nat, out: seq<byte>)
    requires n == a + |s| && Reads(m, a, s) && i <= |s|
    ensures CleanOn(m, a + i, n, out) == CleanOn(s, i, |s|, out)
    decreases |s| - i
  {
    if i < |s| {
      assert s[i] == m[a + i];
      if IsSep(s[i]) { SkipElsewhere(m, a, n, s, i + 1); }
      CleanElsewhere(m, a, n, s, NextKept(s, i, |s|), out + [s[i]]);
    }
  }

  lemma {:induction false} SkipElsewhere(m: seq<byte>, a: nat, n: nat, s: seq<byte>, i: nat)
    requires n == a + |s| && Reads(m, a, s) && i <= |s|
    ensures SkipSeps(m, a + i, n) == a + SkipSeps(s, i, |s|)
    decreases |s| - i
  {
    if i < |s| { assert s[i] == m[a + i]; }
    if i + 1 < |s| { assert s[i + 1] == m[a + i + 1]; }
    if i < |s| && IsSep(s[i]) { SkipElsewhere(m, a, n, s, i + 1); }
    else if DotsAt(s, i, |s|) { SkipElsewhere(m, a, n, s, i + 2); }
  }

  lemma {:induction false} DecodeElsewhere(m: seq<byte>, a: nat, n: nat, s: seq<byte>, i: nat, form: bool, out: seq<byte>)
    requires n == a + |s| && Reads(m, a, s) && i <= |s|
    ensures DecodeOn(m, a + i, n, form, out) == DecodeOn(s, i, |s|, form, out)
    decreases |s| - i
  {
    if i < |s| {
      assert s[i] == m[a + i];
      if i + 2 < |s| { assert s[i + 1] == m[a + i + 1] && s[i + 2] == m[a + i + 2]; }
      DecodeElsewhere(m, a, n, s, NextAt(s, i, |s|), form, out + [DecodedByte(s, i, |s|, form)]);
    }
  }

  method CleanString(buf: array<byte>, start: nat, ghost s: seq<byte>, ghost m: seq<byte>)
    requires start + |s| < |m| && Reads(m, start, s) && NUL !in s && m[start + |s|] == NUL && Image(buf, m)
    modifies buf
    ensures Written(buf, m, start, Clean(s), |s|)
  {
    CleanElsewhere(m, start, start + |s|, s, 0, []);
    assert forall k :: start <= k < start + |s| ==> m[k] == s[k - start] != NUL;
    CleanPath(buf, start, start + |s|, m);
  }

  /** Decodes a text onto itself; it always fits. */
  method DecodeOnto(buf: array<byte>, at: nat, len: nat, ghost text: seq<byte>, ghost m: seq<byte>)
    returns (ghost t: seq<byte>)
    requires at + len < |m| && Image(buf, m) && |text| == len && Reads(m, at, text)
    modifies buf
    ensures Image(buf, t) && |t| == |m| && forall k :: 0 <= k < |m| && !(at <= k <= at + len) ==> t[k] == m[k]
    ensures var s := CString(Decode(text, false));
            |s| <= len && Reads(t, at, s) && t[at + |s|] == NUL
  {
    DecodeElsewhere(m, at, at + len, text, 0, false, []);
    ghost var d := Decode(text, false);
    var r := UrlDecode(buf, at, len, buf, at, len + 1, false, m, m);
    t := buf[..];
    CStringStands(t, at, d);
  }

  lemma {:induction false} CStringStands(t: seq<byte>, at: nat, d: seq<byte>)
    requires Reads(t, at, d) && at + |d| < |t| && t[at + |d|] == NUL
    ensures Reads(t, at, CString(d)) && t[at + |CString(d)|] == NUL
  {
    var s := CString(d);
    assert |s| < |d| ==> d[|s|] == t[at + |s|];
  }

  /** What the request handler does to the URI in its buffer: decode it onto itself, then
      clean the result. The buffer ends up with what the two give on separate copies. */
  method NormaliseUri(buf: array<byte>, uri: nat, uriLen: nat, ghost text: seq<byte>, ghost m: seq<byte>)
    requires uri + uriLen < |m| && Image(buf, m) && |text| == uriLen && Reads(m, uri, text)
    modifies buf
    ensures var r := Clean(CString(Decode(text, false)));
            && |r| <= uriLen && (forall k :: 0 <= k < |r| ==> r[k] == buf[uri + k]) && buf[uri + |r|] == NUL
            && forall k :: 0 <= k < |m| && !(uri <= k <= uri + uriLen) ==> m[k] == buf[k]
  {
    ghost var s := CString(Decode(text, false));
    ghost var t := DecodeOnto(buf, uri, uriLen, text, m);
    CleanString(buf, uri, s, t);
  }
}
