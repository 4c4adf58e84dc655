/** Base64 (section 4 of RFC 4648): the encoder, and the decoder that can be fed in pieces. */
module Base64 {
  import opened Memory
  import opened Octets

  const BRACE: byte := 0x7b
  const PAD: byte := 0x3d

  // ----- the alphabet

  type schar = i: int | -128 <= i < 128

  /** The decoder's table of 80 entries, ten to a row. */
  function TableRow(r: int): (row: seq<schar>)
    requires 0 <= r < 8
    ensures |row| == 10
  {
    match r
    case 0 => [62, -1, -1, -1, 63, 52, 53, 54, 55, 56]
    case 1 => [57, 58, 59, 60, 61, -1, -1, -1, -2, -1]
    case 2 => [-1, -1, 0, 1, 2, 3, 4, 5, 6, 7]
    case 3 => [8, 9, 10, 11, 12, 13, 14, 15, 16, 17]
    case 4 => [18, 19, 20, 21, 22, 23, 24, 25, -1, -1]
    case 5 => [-1, -1, -1, -1, 26, 27, 28, 29, 30, 31]
    case 6 => [32, 33, 34, 35, 36, 37, 38, 39, 40, 41]
    case _ => [42, 43, 44, 45, 46, 47, 48, 49, 50, 51]
  }

  /** The same by ranges: the alphabet from `+` on, -2 for the padding sign and -1 for
      the rest. */
  function Decoding(v: int): (f: schar)
    requires 0 <= v < 80
    ensures -2 <= f < 64
  {
    if v == 0 then 62
    else if v == 4 then 63
    else if 5 <= v <= 14 then v + 47
    else if v == 18 then -2
    else if 22 <= v <= 47 then v - 22
    else if 54 <= v <= 79 then v - 28
    else -1
  }

  lemma {:induction false} TableIs(r: int, k: int)
    requires 0 <= r < 8 && 0 <= k < 10
    ensures TableRow(r)[k] == Decoding(10 * r + k)
  {
  }

  /** value_in - 43, wrapped to a signed char. */
  function Shifted(c: byte): (v: schar) {
    var signed := if c < 128 then c else c - 256;
    var v := signed - 43;
    if v < -128 then v + 256 else v
  }

  /** The test on the index lets through one index too many, for one character. */
  predicate PassesTest(v: schar) {
    !(v < 0 || v > 80)
  }

  lemma {:induction false} TestIsOneOff(c: byte)
    ensures PassesTest(Shifted(c)) ==> (Shifted(c) < 80 <==> c != BRACE)
    ensures PassesTest(Shifted(BRACE))
  {
  }

  /** The value of a character, or a negative number if it has none. `behind` is the byte
      that happens to stand behind the table. */
  function Value(c: byte, behind: schar): (f: schar) {
    var v := Shifted(c);
    if !PassesTest(v) then -1 else if v == 80 then behind else Decoding(v)
  }

  predicate IsAlphabet(c: byte) {
    0x41 <= c <= 0x5a || 0x61 <= c <= 0x7a || 0x30 <= c <= 0x39 || c == 0x2b || c == 0x2f
  }

  /** A character has a value if and only if it is in the alphabet, or is the `{` and the
      byte behind the table is not negative. */
  lemma {:induction false} ValuedExactly(c: byte, behind: schar)
    ensures Value(c, behind) >= 0 <==> IsAlphabet(c) || (c == BRACE && behind >= 0)
    ensures IsAlphabet(c) ==> Value(c, behind) < 64 && Letter(Value(c, behind)) == c
  {
  }

  /** The character of a value. */
  function Letter(v: int): (c: byte)
    requires 0 <= v < 64
    ensures IsAlphabet(c) && Value(c, -1) == v
  {
    if v < 26 then 0x41 + v
    else if v < 52 then 0x61 + v - 26
    else if v < 62 then 0x30 + v - 52
    else if v == 62 then 0x2b
    else 0x2f
  }

  // ----- decoding

  /** How many values of the current group are in, and the bits of them not yet written. */
  datatype Mid = Mid(step: int, part: byte)

  ghost predicate GoodMid(s: Mid) {
    || (s.step == 0 && s.part == 0)
    || (s.step == 1 && s.part % 4 == 0)
    || (s.step == 2 && s.part % 16 == 0)
    || (s.step == 3 && s.part % 64 == 0)
  }

  /** The byte that value f completes, if any: the low bits of `part` are zero, so the
      decoder's `|=` is a sum. */
  function Emitted(s: Mid, f: int): (b: seq<byte>)
    requires GoodMid(s) && 0 <= f < 64
    ensures |b| == if s.step == 0 then 0 else 1
  {
    if s.step == 0 then []
    else if s.step == 1 then [s.part + f / 16]
    else if s.step == 2 then [s.part + f / 4]
    else [s.part + f]
  }

  function After(s: Mid, f: int): (r: Mid)
    requires GoodMid(s) && 0 <= f < 64
    ensures GoodMid(r)
  {
    if s.step == 0 then Mid(1, f * 4)
    else if s.step == 1 then Mid(2, f % 16 * 16)
    else if s.step == 2 then Mid(3, f % 4 * 64)
    else Mid(0, 0)
  }

  datatype Result = Result(out: seq<byte>, mid: Mid)

  /** `out` and what code[i..] decodes to, starting in the middle of a group. */
  ghost function DecodeOn(code: seq<byte>, i: nat, s: Mid, out: seq<byte>, behind: schar): (r: Result)
    requires i <= |code| && GoodMid(s)
    ensures |out| <= |r.out| && GoodMid(r.mid)
    decreases |code| - i
  {
    if i == |code| then Result(out, s)
    else
      var f := Value(code[i], behind);
      if f < 0 then DecodeOn(code, i + 1, s, out, behind)
      else DecodeOn(code, i + 1, After(s, f % 64), out + Emitted(s, f % 64), behind)
  }

  /** The decoder's state between calls. */
  class DecodeState {
    var step: int
    var plainchar: byte

    ghost predicate Valid()
      reads this
    {
      0 <= step < 4 && GoodMid(Mid(step, if step == 0 then 0 else plainchar))
    }

    /** At the start of a group the partial byte means nothing. */
    ghost function Abs(): Mid
      reads this
    {
      Mid(step, if step == 0 then 0 else plainchar)
    }

    constructor ()
      ensures Valid() && Abs() == Mid(0, 0)
    {
      step, plainchar := 0, 0;
    }

    /** Decodes one piece of a text and returns how many bytes it wrote. Behind them there
        must be room for the byte under way. */
    method DecodeBlock(code: seq<byte>, out: array<byte>, behind: schar) returns (n: nat)
      requires Valid() && |DecodeOn(code, 0, Abs(), [], behind).out| < out.Length
      modifies this, out
      ensures Valid()
      ensures var r := DecodeOn(code, 0, old(Abs()), [], behind);
              n == |r.out| < out.Length && out[..n] == r.out && Abs() == r.mid
      ensures forall k :: n < k < out.Length ==> out[k] == old(out[k])
    {
      ghost var r, done: seq<byte> := DecodeOn(code, 0, Abs(), [], behind), [];
      n := 0;
      var i := 0;
      out[0] := plainchar;
      var s := step;
      ghost var mid := Abs();
      while true
        invariant i <= |code| && n == |done| <= |r.out| < out.Length && 0 <= s < 4
        invariant mid == Now(s, out[n]) && GoodMid(mid) && r == DecodeOn(code, i, mid, done, behind)
        invariant forall k :: 0 <= k < n ==> done[k] == out[k]
        invariant forall k :: n < k < out.Length ==> out[k] == old(out[k])
        decreases |code| - i
      {
        var f;
        i, f := NextValue(code, i, mid, done, behind);
        if f < 0 {
          step, plainchar := s, out[n];
          return;
        }
        done, mid := done + Emitted(mid, f % 64), After(mid, f % 64);
        n := Take(out, n, s, f % 64);
        s := (s + 1) % 4;
      }
    }
  }

  /** The six low bits of a value, all that the masks let through: the upper ones complete
      the byte under way, the lower ones begin the next. */
  method Take(out: array<byte>, n: nat, s: int, f: int) returns (next: nat)
    requires n < out.Length && 0 <= s < 4 && 0 <= f < 64 && GoodMid(Now(s, out[n]))
    requires s > 0 ==> n + 1 < out.Length
    modifies out
    ensures next == n + |old(Emitted(Now(s, out[n]), f))|
    ensures next > n ==> old(Emitted(Now(s, out[n]), f))[0] == out[n]
    ensures Now((s + 1) % 4, out[next]) == old(After(Now(s, out[n]), f))
    ensures forall k :: 0 <= k < out.Length && !(n <= k <= next) ==> out[k] == old(out[k])
  {
    next := n;
    if s == 0 {
      out[n] := f * 4;
    } else if s == 1 {
      out[n] := out[n] + f / 16;
      next := n + 1;
      out[next] := f % 16 * 16;
    } else if s == 2 {
      out[n] := out[n] + f / 4;
      next := n + 1;
      out[next] := f % 4 * 64;
    } else {
      out[n] := out[n] + f;
      next := n + 1;
    }
  }

  /** The group under way, with the byte behind the output for its bits. */
  function Now(step: int, b: byte): Mid {
    Mid(step, if step == 0 then 0 else b)
  }

  /** The inner loop: past characters that have no value, to the next that has one; -1 at
      the end of the text. */
  method NextValue(code: seq<byte>, from: nat, ghost s: Mid, ghost out: seq<byte>, behind: schar) returns (i: nat, f: int)
    requires from <= |code| && GoodMid(s)
    ensures i <= |code| && -1 <= f < 128
    ensures f < 0 ==> DecodeOn(code, from, s, out, behind) == Result(out, s)
    ensures f >= 0 ==>
              from < i
              && DecodeOn(code, from, s, out, behind)
                 == DecodeOn(code, i, After(s, f % 64), out + Emitted(s, f % 64), behind)
  {
    i := from;
    f := -1;
    while f < 0
      invariant from <= i <= |code| && -128 <= f < 128
      invariant f < 0 ==> DecodeOn(code, from, s, out, behind) == DecodeOn(code, i, s, out, behind)
      invariant f >= 0 ==>
                from < i
                && DecodeOn(code, from, s, out, behind)
                   == DecodeOn(code, i, After(s, f % 64), out + Emitted(s, f % 64), behind)
      decreases |code| - i, if f < 0 then 1 else 0
    {
      if i == |code| {
        return i, -1;
      }
      f := Value(code[i], behind);
      i := i + 1;
    }
  }

  // ----- pieces

  lemma {:induction false} OutputGoesOn(code: seq<byte>, i: nat, s: Mid, out: seq<byte>, more: seq<byte>, behind: schar)
    requires i <= |code| && GoodMid(s)
    ensures var r := DecodeOn(code, i, s, more, behind);
            DecodeOn(code, i, s, out + more, behind) == Result(out + r.out, r.mid)
    decreases |code| - i
  {
    if i < |code| {
      var f := Value(code[i], behind);
      if f < 0 {
        OutputGoesOn(code, i + 1, s, out, more, behind);
      } else {
        assert out + (more + Emitted(s, f % 64)) == out + more + Emitted(s, f % 64);
        OutputGoesOn(code, i + 1, After(s, f % 64), out, more + Emitted(s, f % 64), behind);
      }
    }
  }

  lemma {:induction false} InFront(a: seq<byte>, b: seq<byte>, code: seq<byte>, i: nat, s: Mid, out: seq<byte>, behind: schar)
    requires code == a + b && i <= |a| && GoodMid(s)
    ensures var r := DecodeOn(a, i, s, out, behind);
            DecodeOn(code, i, s, out, behind) == DecodeOn(code, |a|, r.mid, r.out, behind)
    decreases |a| - i
  {
    if i < |a| {
      assert code[i] == a[i];
      var f := Value(a[i], behind);
      if f < 0 { InFront(a, b, code, i + 1, s, out, behind); }
      else { InFront(a, b, code, i + 1, After(s, f % 64), out + Emitted(s, f % 64), behind); }
    }
  }

  lemma {:induction false} Behind(a: seq<byte>, b: seq<byte>, code: seq<byte>, i: nat, s: Mid, out: seq<byte>, behind: schar)
    requires code == a + b && i <= |b| && GoodMid(s)
    ensures DecodeOn(code, |a| + i, s, out, behind) == DecodeOn(b, i, s, out, behind)
    decreases |b| - i
  {
    if i < |b| {
      assert code[|a| + i] == b[i];
      var f := Value(b[i], behind);
      if f < 0 { Behind(a, b, code, i + 1, s, out, behind); }
      else { Behind(a, b, code, i + 1, After(s, f % 64), out + Emitted(s, f % 64), behind); }
    }
  }

  function Whole(parts: seq<seq<byte>>): seq<byte> {
    if parts == [] then [] else parts[0] + Whole(parts[1..])
  }

  /** Decoding piece after piece with the state carried along, the outputs one behind the
      other. */
  ghost function Stream(parts: seq<seq<byte>>, s: Mid, behind: schar): (r: Result)
    requires GoodMid(s)
    ensures GoodMid(r.mid)
  {
    if parts == [] then Result([], s)
    else
      var first := DecodeOn(parts[0], 0, s, [], behind);
      var rest := Stream(parts[1..], first.mid, behind);
      Result(first.out + rest.out, rest.mid)
  }

  /** Where a text is split makes no difference. */
  lemma {:induction false} StreamIsWhole(parts: seq<seq<byte>>, s: Mid, behind: schar)
    requires GoodMid(s)
    ensures Stream(parts, s, behind) == DecodeOn(Whole(parts), 0, s, [], behind)
  {
    if parts != [] {
      var a, b, code := parts[0], Whole(parts[1..]), Whole(parts);
      var first := DecodeOn(a, 0, s, [], behind);
      StreamIsWhole(parts[1..], first.mid, behind);
      InFront(a, b, code, 0, s, [], behind);
      Behind(a, b, code, 0, first.mid, first.out, behind);
      OutputGoesOn(b, 0, first.mid, first.out, [], behind);
      assert first.out + [] == first.out;
    }
  }

  /** The characters that have a value. */
  ghost function Letters(code: seq<byte>, i: nat, behind: schar): (r: seq<byte>)
    requires i <= |code|
    decreases |code| - i
  {
    if i == |code| then []
    else if Value(code[i], behind) < 0 then Letters(code, i + 1, behind)
    else [code[i]] + Letters(code, i + 1, behind)
  }

  /** All other characters make no difference. */
  lemma {:induction false} OthersIgnored(code: seq<byte>, i: nat, s: Mid, out: seq<byte>, behind: schar)
    requires i <= |code| && GoodMid(s)
    ensures DecodeOn(code, i, s, out, behind) == DecodeOn(Letters(code, i, behind), 0, s, out, behind)
    decreases |code| - i
  {
    if i < |code| {
      var f := Value(code[i], behind);
      if f < 0 {
        OthersIgnored(code, i + 1, s, out, behind);
      } else {
        var more, bytes := Letters(code, i + 1, behind), out + Emitted(s, f % 64);
        OthersIgnored(code, i + 1, After(s, f % 64), bytes, behind);
        Behind([code[i]], more, [code[i]] + more, 0, After(s, f % 64), bytes, behind);
      }
    }
  }

  // ----- a whole text

  /** Four times the bytes written, and what the values of the group under way are worth. */
  function Worth(step: int, n: nat): int {
    4 * n + if step == 0 then 0 else 4 - step
  }

  lemma {:induction false} OutputIsShort(code: seq<byte>, i: nat, s: Mid, out: seq<byte>, behind: schar)
    requires i <= |code| && GoodMid(s)
    ensures var r := DecodeOn(code, i, s, out, behind);
            Worth(r.mid.step, |r.out|) <= Worth(s.step, |out|) + 3 * (|code| - i)
    decreases |code| - i
  {
    if i < |code| {
      var f := Value(code[i], behind);
      if f < 0 { OutputIsShort(code, i + 1, s, out, behind); }
      else { OutputIsShort(code, i + 1, After(s, f % 64), out + Emitted(s, f % 64), behind); }
    }
  }

  /** What base64decode returns. */
  ghost function Decode(text: seq<byte>, behind: schar): seq<byte>
  {
    if |text| < 4 then [] else DecodeOn(text, 0, Mid(0, 0), [], behind).out
  }

  /** The buffer it allocates is always large enough. */
  method Base64Decode(text: seq<byte>, behind: schar) returns (ret: seq<byte>)
    ensures ret == Decode(text, behind)
  {
    if |text| < 4 {
      return [];
    }
    OutputIsShort(text, 0, Mid(0, 0), [], behind);
    var buf := new byte[|text| * 6 / 8 + 1](_ => 0);
    var ctx := new DecodeState();
    var len := ctx.DecodeBlock(text, buf, behind);
    ret := buf[..len];
  }

  // ----- encoding

  function At(src: seq<byte>, i: nat): byte {
    if i < |src| then src[i] else 0
  }

  /** The letters of the group that starts at i. */
  function Group(src: seq<byte>, i: nat): (g: seq<byte>)
    requires i < |src|
    ensures |g| == if i + 2 < |src| then 4 else |src| - i + 1
  {
    var a, b, c := src[i], At(src, i + 1), At(src, i + 2);
    [Letter(a / 4), Letter(a % 4 * 16 + b / 16)]
    + (if i + 1 < |src| then [Letter(b % 16 * 4 + c / 64)] else [])
    + (if i + 2 < |src| then [Letter(c % 64)] else [])
  }

  function EncodeFrom(src: seq<byte>, i: nat): seq<byte>
    decreases |src| - i
  {
    if i >= |src| then [] else Group(src, i) + EncodeFrom(src, i + 3)
  }

  /** The letters of a group, each six bits of the number its three bytes make, missing bytes
      counted as 0. */
  lemma {:induction false} GroupIsNumber(src: seq<byte>, i: nat)
    requires i < |src|
    ensures var g, n := Group(src, i), 0x1_0000 * src[i] as int + 0x100 * At(src, i + 1) as int + At(src, i + 2) as int;
            && g[0] == Letter(n / 0x4_0000) && g[1] == Letter(n / 0x1000 % 64)
            && (|g| > 2 ==> g[2] == Letter(n / 64 % 64)) && (|g| > 3 ==> g[3] == Letter(n % 64))
  {
    Sextets(src[i], At(src, i + 1), At(src, i + 2));
  }

  lemma {:induction false} Sextets(a: byte, b: byte, c: byte)
    ensures var n := 0x1_0000 * a as int + 0x100 * b as int + c as int;
            && n / 0x4_0000 == a / 4 && n / 0x1000 % 64 == a % 4 * 16 + b / 16
            && n / 64 % 64 == b % 16 * 4 + c / 64 && n % 64 == c % 64
  {
    var n := 0x1_0000 * a as int + 0x100 * b as int + c as int;
    Split(n, a / 4, a % 4 * 16 + b / 16, b % 16 * 4 + c / 64, c % 64);
  }

  lemma {:induction false} Split(n: int, p: int, q: int, r: int, s: int)
    requires 0 <= p < 64 && 0 <= q < 64 && 0 <= r < 64 && 0 <= s < 64
    requires n == 0x4_0000 * p + 0x1000 * q + 64 * r + s
    ensures n / 0x4_0000 == p && n / 0x1000 % 64 == q && n / 64 % 64 == r && n % 64 == s
  {
    assert n / 0x1000 == 64 * p + q && n / 64 == 0x1000 * p + 64 * q + r;
  }

  /** The alphabet of section 4 of RFC 4648, in order. */
  function AlphabetRow(r: int): (row: string)
    requires 0 <= r < 8
    ensures |row| == 8
  {
    match r
    case 0 => "ABCDEFGH"
    case 1 => "IJKLMNOP"
    case 2 => "QRSTUVWX"
    case 3 => "YZabcdef"
    case 4 => "ghijklmn"
    case 5 => "opqrstuv"
    case 6 => "wxyz0123"
    case _ => "456789+/"
  }

  lemma {:induction false} AlphabetIs(r: int, k: int)
    requires 0 <= r < 8 && 0 <= k < 8
    ensures Letter(8 * r + k) as char == AlphabetRow(r)[k]
  {
  }

  function Pads(n: nat): seq<byte> {
    seq((4 - n % 4) % 4, _ => PAD)
  }

  function Encode(src: seq<byte>): seq<byte> {
    var e := EncodeFrom(src, 0);
    e + Pads(|e|)
  }

  method PutGroup(src: seq<byte>, i: nat, dst: array<byte>, from: nat) returns (j: nat)
    requires i < |src| && from + |Group(src, i)| < dst.Length
    modifies dst
    ensures j == from + |Group(src, i)|
    ensures forall k :: from <= k < j ==> dst[k] == Group(src, i)[k - from]
    ensures forall k :: 0 <= k < dst.Length && !(from <= k < j) ==> dst[k] == old(dst[k])
  {
    var a := src[i];
    var b := if i + 1 >= |src| then 0 else src[i + 1];
    var c := if i + 2 >= |src| then 0 else src[i + 2];
    dst[from] := Letter(a / 4);
    dst[from + 1] := Letter(a % 4 * 16 + b / 16);
    j := from + 2;
    if i + 1 < |src| {
      dst[j] := Letter(b % 16 * 4 + c / 64);
      j := j + 1;
    }
    if i + 2 < |src| {
      dst[j] := Letter(c % 64);
      j := j + 1;
    }
  }

  lemma {:induction false} NextGroup(src: seq<byte>, i: nat, all: seq<byte>, done: seq<byte>) returns (more: seq<byte>)
    requires i < |src| && all == done + EncodeFrom(src, i)
    ensures all == more + EncodeFrom(src, i + 3) && |more| == |done| + |Group(src, i)| <= |all|
    ensures forall k :: 0 <= k < |more| ==> more[k] == if k < |done| then done[k] else Group(src, i)[k - |done|]
  {
    more := done + Group(src, i);
  }

  method PutNext(src: seq<byte>, i: nat, dst: array<byte>, from: nat, ghost all: seq<byte>, ghost done: seq<byte>)
    returns (j: nat, ghost more: seq<byte>)
    requires i < |src| && all == done + EncodeFrom(src, i) && |all| < dst.Length && from == |done|
    requires forall k :: 0 <= k < from ==> dst[k] == done[k]
    modifies dst
    ensures j == |more| <= |all| && all == more + EncodeFrom(src, i + 3)
    ensures forall k :: 0 <= k < j ==> dst[k] == more[k]
    ensures forall k :: j <= k < dst.Length ==> dst[k] == old(dst[k])
  {
    more := NextGroup(src, i, all, done);
    j := PutGroup(src, i, dst, from);
  }

  method PutGroups(src: seq<byte>, dst: array<byte>, ghost all: seq<byte>) returns (j: nat)
    requires all == EncodeFrom(src, 0) && |all| < dst.Length
    modifies dst
    ensures j == |all| && forall k :: 0 <= k < j ==> dst[k] == all[k]
    ensures forall k :: j <= k < dst.Length ==> dst[k] == old(dst[k])
  {
    j := 0;
    var i := 0;
    ghost var done: seq<byte> := [];
    while i < |src|
      invariant j == |done| <= |all| && all == done + EncodeFrom(src, i)
      invariant forall k :: 0 <= k < j ==> dst[k] == done[k]
      invariant forall k :: j <= k < dst.Length ==> dst[k] == old(dst[k])
      decreases |src| - i
    {
      j, done := PutNext(src, i, dst, j, all, done);
      i := i + 3;
    }
    assert all == done;
  }

  method PutPads(dst: array<byte>, from: nat) returns (j: nat)
    requires from + |Pads(from)| < dst.Length
    modifies dst
    ensures j == from + |Pads(from)| && forall k :: from <= k < j ==> dst[k] == PAD
    ensures forall k :: 0 <= k < dst.Length && !(from <= k < j) ==> dst[k] == old(dst[k])
  {
    j := from;
    while j % 4 != 0
      invariant from <= j <= from + (4 - from % 4) % 4
      invariant forall k :: from <= k < j ==> dst[k] == PAD
      invariant forall k :: 0 <= k < dst.Length && !(from <= k < j) ==> dst[k] == old(dst[k])
      decreases from + 4 - j
    {
      dst[j] := PAD;
      j := j + 1;
    }
  }

  /** An encoding is its letters and then, up to a multiple of four, `=`. */
  lemma {:induction false} PaddedWithEquals(src: seq<byte>)
    ensures var e, all := EncodeFrom(src, 0), Encode(src);
            && |all| % 4 == 0 && e <= all && |all| < |e| + 4
            && forall k :: |e| <= k < |all| ==> all[k] as char == '='
  {
    PadsFill(|EncodeFrom(src, 0)|);
  }

  /** Writes the encoding and a NUL, and nothing else. */
  method Base64Encode(src: seq<byte>, dst: array<byte>)
    requires |Encode(src)| < dst.Length
    modifies dst
    ensures forall k :: 0 <= k < |Encode(src)| ==> dst[k] == Encode(src)[k]
    ensures dst[|Encode(src)|] == NUL
    ensures forall k :: |Encode(src)| < k < dst.Length ==> dst[k] == old(dst[k])
  {
    var j := PutGroups(src, dst, EncodeFrom(src, 0));
    j := PutPads(dst, j);
    dst[j] := NUL;
  }

  // ----- there and back

  lemma {:induction false} OneLetter(code: seq<byte>, p: nat, s: Mid, out: seq<byte>, f: int, behind: schar)
    requires p < |code| && GoodMid(s) && 0 <= f < 64 && code[p] == Letter(f)
    ensures DecodeOn(code, p, s, out, behind) == DecodeOn(code, p + 1, After(s, f), out + Emitted(s, f), behind)
  {
    assert f % 64 == f;
  }

  lemma {:induction false} PadsIgnored(code: seq<byte>, p: nat, s: Mid, out: seq<byte>, behind: schar)
    requires p <= |code| && GoodMid(s) && forall k :: p <= k < |code| ==> code[k] == PAD
    ensures DecodeOn(code, p, s, out, behind) == Result(out, s)
    decreases |code| - p
  {
    if p < |code| { PadsIgnored(code, p + 1, s, out, behind); }
  }

  function Upper4(b: byte): (u: byte)
    ensures u % 16 == 0 && u + b % 16 == b
  {
    b / 16 * 16
  }

  function Upper2(c: byte): (u: byte)
    ensures u % 64 == 0 && u + c % 64 == c
  {
    c / 64 * 64
  }

  /** The first byte of a group, and what the second letter leaves over. */
  lemma {:induction false} FirstByte(code: seq<byte>, p: nat, out: seq<byte>, a: byte, b: byte, behind: schar)
    requires p + 1 < |code|
    requires code[p] == Letter(a / 4) && code[p + 1] == Letter(a % 4 * 16 + b / 16)
    ensures DecodeOn(code, p, Mid(0, 0), out, behind) == DecodeOn(code, p + 2, Mid(2, Upper4(b)), out + [a], behind)
  {
    var f, g := a / 4, a % 4 * 16 + b / 16;
    OneLetter(code, p, Mid(0, 0), out, f, behind);
    assert out + [] == out;
    OneLetter(code, p + 1, Mid(1, f * 4), out, g, behind);
    assert g / 16 == a % 4 && g % 16 == b / 16 && f * 4 + a % 4 == a;
  }

  lemma {:induction false} SecondByte(code: seq<byte>, p: nat, out: seq<byte>, b: byte, c: byte, behind: schar)
    requires p < |code| && code[p] == Letter(b % 16 * 4 + c / 64)
    ensures DecodeOn(code, p, Mid(2, Upper4(b)), out, behind) == DecodeOn(code, p + 1, Mid(3, Upper2(c)), out + [b], behind)
  {
    var g := b % 16 * 4 + c / 64;
    OneLetter(code, p, Mid(2, Upper4(b)), out, g, behind);
    assert g / 4 == b % 16 && g % 4 == c / 64 && b / 16 * 16 + b % 16 == b;
  }

  lemma {:induction false} ThirdByte(code: seq<byte>, p: nat, out: seq<byte>, c: byte, behind: schar)
    requires p < |code| && code[p] == Letter(c % 64)
    ensures DecodeOn(code, p, Mid(3, Upper2(c)), out, behind) == DecodeOn(code, p + 1, Mid(0, 0), out + [c], behind)
  {
    OneLetter(code, p, Mid(3, Upper2(c)), out, c % 64, behind);
    assert c / 64 * 64 + c % 64 == c;
  }

  /** A group decodes to the bytes it was made from. */
  lemma {:induction false} GroupDecodes(code: seq<byte>, p: nat, src: seq<byte>, i: nat, behind: schar)
    returns (next: nat, mid: Mid)
    requires i < |src| && Reads(code, p, Group(src, i))
    ensures next == (if i + 3 < |src| then i + 3 else |src|) && (next == i + 3 ==> mid == Mid(0, 0)) && GoodMid(mid)
    ensures p + |Group(src, i)| <= |code|
    ensures DecodeOn(code, p, Mid(0, 0), src[..i], behind) == DecodeOn(code, p + |Group(src, i)|, mid, src[..next], behind)
  {
    var g, a, b, c := Group(src, i), src[i], At(src, i + 1), At(src, i + 2);
    assert g[0] == Letter(a / 4) && g[1] == Letter(a % 4 * 16 + b / 16);
    assert code[p] == g[0] && code[p + 1] == g[1];
    FirstByte(code, p, src[..i], a, b, behind);
    assert src[..i] + [a] == src[..i + 1];
    next, mid := i + 1, Mid(2, Upper4(b));
    if i + 1 < |src| {
      assert code[p + 2] == g[2];
      SecondByte(code, p + 2, src[..i + 1], b, c, behind);
      assert src[..i + 1] + [b] == src[..i + 2];
      next, mid := i + 2, Mid(3, Upper2(c));
    }
    if i + 2 < |src| {
      assert code[p + 3] == g[3];
      ThirdByte(code, p + 3, src[..i + 2], c, behind);
      assert src[..i + 2] + [c] == src[..i + 3];
      next, mid := i + 3, Mid(0, 0);
    }
  }

  /** One group on: what is left to read is the encoding of what is left of src. */
  lemma {:induction false} GroupRead(code: seq<byte>, p: nat, src: seq<byte>, i: nat, behind: schar)
    returns (next: nat, mid: Mid, q: nat)
    requires i < |src| && Reads(code, p, EncodeFrom(src, i))
    ensures i < next <= |src| && GoodMid(mid) && (next < |src| ==> mid == Mid(0, 0))
    ensures q + |EncodeFrom(src, next)| == p + |EncodeFrom(src, i)| && Reads(code, q, EncodeFrom(src, next))
    ensures DecodeOn(code, p, Mid(0, 0), src[..i], behind) == DecodeOn(code, q, mid, src[..next], behind)
  {
    var g, more := Group(src, i), EncodeFrom(src, i + 3);
    ReadsBoth(code, p, g, more);
    next, mid := GroupDecodes(code, p, src, i, behind);
    q := p + |g|;
    assert EncodeFrom(src, next) == more;
  }

  lemma {:induction false} GroupsDecode(code: seq<byte>, p: nat, src: seq<byte>, i: nat, mid: Mid, end: nat, behind: schar)
    requires i <= |src| && Reads(code, p, EncodeFrom(src, i)) && end == p + |EncodeFrom(src, i)|
    requires GoodMid(mid) && (i < |src| ==> mid == Mid(0, 0))
    requires forall k :: end <= k < |code| ==> code[k] == PAD
    ensures DecodeOn(code, p, mid, src[..i], behind).out == src
    decreases |src| - i
  {
    if i == |src| {
      PadsIgnored(code, p, mid, src[..i], behind);
      assert src[..i] == src;
    } else {
      var next, m, q := GroupRead(code, p, src, i, behind);
      GroupsDecode(code, q, src, next, m, end, behind);
    }
  }

  lemma {:induction false} PadsFill(n: nat)
    ensures (n + |Pads(n)|) % 4 == 0 && (n > 0 ==> n + |Pads(n)| >= 4)
  {
    assert |Pads(n)| == (4 - n % 4) % 4;
  }

  lemma {:induction false} FirstGroup(src: seq<byte>)
    ensures src != [] <==> |EncodeFrom(src, 0)| > 0
  {
    if src != [] { assert EncodeFrom(src, 0) == Group(src, 0) + EncodeFrom(src, 3); }
  }

  /** The encoding fills whole groups of four, so that it is not taken for no text at all. */
  lemma {:induction false} WholeGroups(src: seq<byte>)
    ensures |Encode(src)| % 4 == 0 && (src != [] <==> |Encode(src)| >= 4)
  {
    FirstGroup(src);
    PadsFill(|EncodeFrom(src, 0)|);
  }

  /** Decoding an encoded text gives the bytes back, whatever they are. */
  lemma {:induction false} RoundTrip(src: seq<byte>, behind: schar)
    ensures Decode(Encode(src), behind) == src
  {
    var e, code := EncodeFrom(src, 0), Encode(src);
    WholeGroups(src);
    assert src[..0] == [];
    GroupsDecode(code, 0, src, 0, Mid(0, 0), |e|, behind);
  }
}
