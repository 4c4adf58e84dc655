/** MD5 over a message that arrives in pieces (RFC 1321 sections 3.1 to 3.5).  The
    compression function is left open: everything holds for any function of the
    chaining words and a 64-byte block. */
module Md5 {
  import opened Octets

  type word = w: int | 0 <= w < 0x1_0000_0000

  datatype Words = Words(a: word, b: word, c: word, d: word)

  const INIT := Words(0x67452301, 0xefcdab89, 0x98badcfe, 0x10325476)

  type Transform = (Words, seq<byte>) -> Words

  // ----- one-shot definition

  /** The chaining words after all whole blocks of b. */
  function Fold(f: Transform, w: Words, b: seq<byte>): Words
    decreases |b|
  {
    if |b| < 64 then w else Fold(f, f(w, b[..64]), b[64..])
  }

  function Zeros(n: nat): (z: seq<byte>)
    ensures |z| == n
  {
    seq(n, _ => 0)
  }

  /** A word, low-order byte first. */
  function Le32(w: word): (b: seq<byte>)
    ensures |b| == 4
  {
    [w % 0x100, w / 0x100 % 0x100, w / 0x1_0000 % 0x100, w / 0x100_0000]
  }

  /** The length of a message in bits, modulo 2^64, as two words, low-order first. */
  function LengthBytes(n: nat): (b: seq<byte>)
    ensures |b| == 8
  {
    var bits := 8 * n % 0x1_0000_0000_0000_0000;
    Le32(bits % 0x1_0000_0000) + Le32(bits / 0x1_0000_0000)
  }

  /** Padding: a one bit, zeros up to 56 modulo 64 bytes, and the length. */
  function Padding(n: nat): (b: seq<byte>)
    ensures |b| == if n % 64 < 56 then 64 - n % 64 else 128 - n % 64
  {
    var r := n % 64;
    [0x80] + Zeros(if r < 56 then 55 - r else 119 - r) + LengthBytes(n)
  }

  function Bytes(w: Words): (b: seq<byte>)
    ensures |b| == 16
  {
    Le32(w.a) + Le32(w.b) + Le32(w.c) + Le32(w.d)
  }

  function Digest(f: Transform, msg: seq<byte>): (d: seq<byte>)
    ensures |d| == 16
  {
    Bytes(Fold(f, INIT, msg + Padding(|msg|)))
  }

  /** The number some bytes stand for, low-order byte first. */
  function Number(b: seq<byte>): nat {
    if b == [] then 0 else b[0] + 0x100 * Number(b[1..])
  }

  lemma {:induction false} NumberStep(x: byte, b: seq<byte>, more: seq<byte>)
    ensures Number([x] + b) == x as int + 0x100 * Number(b)
    ensures Number([x] + b + more) == x as int + 0x100 * Number(b + more)
  {
    assert ([x] + b)[1..] == b && ([x] + b + more)[1..] == b + more;
  }

  lemma {:induction false} NumberOfFour(b: seq<byte>, more: seq<byte>)
    requires |b| == 4
    ensures Number(b + more) == Number(b) + 0x1_0000_0000 * Number(more)
  {
    var c, d, e := b[1..], b[2..], b[3..];
    NumberStep(b[0], c, more);
    NumberStep(b[1], d, more);
    NumberStep(b[2], e, more);
    NumberStep(b[3], [], more);
    assert b == [b[0]] + c && c == [b[1]] + d && d == [b[2]] + e && e == [b[3]] + [] && [] + more == more;
  }

  lemma {:induction false} NumberOfBytes(a: byte, b: byte, c: byte, d: byte)
    ensures Number([a, b, c, d]) == a as int + 0x100 * b as int + 0x1_0000 * c as int + 0x100_0000 * d as int
  {
    NumberStep(a, [b, c, d], []);
    NumberStep(b, [c, d], []);
    NumberStep(c, [d], []);
    NumberStep(d, [], []);
    assert [a, b, c, d] == [a] + [b, c, d] && [b, c, d] == [b] + [c, d] && [c, d] == [c] + [d] && [d] == [d] + [];
  }

  lemma {:induction false} FourDigits(w: nat)
    ensures w % 0x100 + 0x100 * (w / 0x100 % 0x100) + 0x1_0000 * (w / 0x1_0000 % 0x100) + 0x100_0000 * (w / 0x100_0000) == w
  {
    assert w / 0x100 / 0x100 == w / 0x1_0000;
    assert w / 0x1_0000 / 0x100 == w / 0x100_0000;
  }

  /** A word is stored low-order byte first. */
  lemma {:induction false} LowOrderFirst(w: word)
    ensures Number(Le32(w)) == w
  {
    NumberOfBytes(w % 0x100, w / 0x100 % 0x100, w / 0x1_0000 % 0x100, w / 0x100_0000);
    FourDigits(w);
  }

  /** The chaining words begin as the bytes 01 23 .. ef fe dc .. 10 (RFC 1321 section 3.3). */
  lemma {:induction false} InitialBytes()
    ensures Bytes(INIT) == [0x01, 0x23, 0x45, 0x67, 0x89, 0xab, 0xcd, 0xef,
                            0xfe, 0xdc, 0xba, 0x98, 0x76, 0x54, 0x32, 0x10]
  {
    assert Le32(0x67452301) == [0x01, 0x23, 0x45, 0x67] && Le32(0xefcdab89) == [0x89, 0xab, 0xcd, 0xef];
    assert Le32(0x98badcfe) == [0xfe, 0xdc, 0xba, 0x98] && Le32(0x10325476) == [0x76, 0x54, 0x32, 0x10];
  }

  lemma {:induction false} LengthIsNumber(n: nat)
    ensures Number(LengthBytes(n)) == 8 * n % 0x1_0000_0000_0000_0000
  {
    var bits := 8 * n % 0x1_0000_0000_0000_0000;
    LowOrderFirst(bits % 0x1_0000_0000);
    LowOrderFirst(bits / 0x1_0000_0000);
    NumberOfFour(Le32(bits % 0x1_0000_0000), Le32(bits / 0x1_0000_0000));
  }

  lemma {:induction false} WholeBlocks(n: nat)
    ensures var p := |Padding(n)|; 9 <= p < 73 && (n + p) % 64 == 0
  {
    RoundsUp(n / 64, n % 64, |Padding(n)|);
  }

  lemma {:induction false} RoundsUp(q: nat, r: nat, p: nat)
    requires r < 64 && (p == 64 - r || p == 128 - r)
    ensures (64 * q + r + p) % 64 == 0
  {
    assert 64 * q + r + p == 64 * (q + 1) || 64 * q + r + p == 64 * (q + 2);
  }

  lemma {:induction false} PaddingIs(n: nat)
    ensures var p := Padding(n);
            && |p| >= 9 && p[0] == 0x80 && (forall k :: 0 < k < |p| - 8 ==> p[k] == 0)
            && Number(p[|p| - 8..]) == 8 * n % 0x1_0000_0000_0000_0000
  {
    var p := Padding(n);
    assert p[|p| - 8..] == LengthBytes(n);
    LengthIsNumber(n);
  }

  /** The padded message: the message, a byte 0x80, zeros, and the length in bits modulo 2^64,
      low-order byte first, in eight bytes that end a block (RFC 1321 sections 3.1 and 3.2). */
  lemma {:induction false} PaddedMessage(msg: seq<byte>)
    ensures var all := msg + Padding(|msg|);
            && |all| % 64 == 0 && |msg| + 9 <= |all| < |msg| + 73
            && all[..|msg|] == msg && all[|msg|] == 0x80
            && (forall k :: |msg| < k < |all| - 8 ==> all[k] == 0)
            && Number(all[|all| - 8..]) == 8 * |msg| % 0x1_0000_0000_0000_0000
  {
    var p := Padding(|msg|);
    var all := msg + p;
    WholeBlocks(|msg|);
    PaddingIs(|msg|);
    assert all[|all| - 8..] == p[|p| - 8..];
    forall k | |msg| < k < |all| - 8 ensures all[k] == 0 { assert all[k] == p[k - |msg|]; }
  }

  lemma {:induction false} FoldAppend(f: Transform, w: Words, a: seq<byte>, b: seq<byte>)
    requires |a| % 64 == 0
    ensures Fold(f, w, a + b) == Fold(f, Fold(f, w, a), b)
    decreases |a|
  {
    if a == [] {
      assert a + b == b;
    } else {
      assert (a + b)[..64] == a[..64] && (a + b)[64..] == a[64..] + b;
      FoldAppend(f, f(w, a[..64]), a[64..], b);
    }
  }

  lemma {:induction false} FoldOne(f: Transform, w: Words, b: seq<byte>)
    requires |b| == 64
    ensures Fold(f, w, b) == f(w, b)
  {
    assert b[..64] == b && b[64..] == [];
  }

  // ----- the two-word bit counter

  ghost predicate Counts(lo: word, hi: word, n: nat) {
    lo + 0x1_0000_0000 * hi == 8 * n % 0x1_0000_0000_0000_0000
  }

  /** Adding len to the counter: the carry out of the low word, and the bits of
      8 * len that do not fit into it. */
  lemma {:induction false} CounterAdd(lo: word, hi: word, n: nat, len: nat)
    requires Counts(lo, hi, n) && len < 0x1_0000_0000
    ensures var lo' := (lo + 8 * len % 0x1_0000_0000) % 0x1_0000_0000;
            var hi' := if lo' < lo then (hi + 1) % 0x1_0000_0000 else hi;
            Counts(lo', (hi' + len / 0x2000_0000) % 0x1_0000_0000, n + len)
  {
    var top, bottom := len / 0x2000_0000, 8 * len % 0x1_0000_0000;
    assert 8 * len == bottom + 0x1_0000_0000 * top;
    var lo' := (lo + bottom) % 0x1_0000_0000;
    var carry := if lo' < lo then 1 else 0;
    assert lo + bottom == lo' + 0x1_0000_0000 * carry;
    var mid := (hi + carry) % 0x1_0000_0000;
    var q1 := (hi + carry) / 0x1_0000_0000;
    var hi' := (mid + top) % 0x1_0000_0000;
    var q2 := (mid + top) / 0x1_0000_0000;
    var q := 8 * n / 0x1_0000_0000_0000_0000;
    assert 8 * (n + len) == (lo' + 0x1_0000_0000 * hi') + 0x1_0000_0000_0000_0000 * (q + q1 + q2);
    Remainder64(8 * (n + len), q + q1 + q2, lo' + 0x1_0000_0000 * hi');
  }

  lemma {:induction false} Remainder64(x: nat, q: nat, r: nat)
    requires x == r + 0x1_0000_0000_0000_0000 * q && r < 0x1_0000_0000_0000_0000
    ensures x % 0x1_0000_0000_0000_0000 == r
  {
  }

  /** The position in the current block, and the length as it is stored at the end,
      are read off the counter. */
  lemma {:induction false} CounterIndex(lo: word, hi: word, n: nat)
    requires Counts(lo, hi, n)
    ensures lo / 8 % 64 == n % 64
    ensures Le32(lo) + Le32(hi) == LengthBytes(n)
  {
    var q := 8 * n / 0x1_0000_0000_0000_0000;
    var k := n - 0x2000_0000 * hi - 0x2000_0000_0000_0000 * q;
    assert lo == 8 * k;
    assert n == k + 64 * (0x80_0000 * hi + 0x80_0000_0000_0000 * q);
    Remainder6(n, 0x80_0000 * hi + 0x80_0000_0000_0000 * q, k);
    var bits := 8 * n % 0x1_0000_0000_0000_0000;
    assert bits == lo + 0x1_0000_0000 * hi;
    Halves(bits, lo, hi);
  }

  lemma {:induction false} Remainder6(x: nat, q: nat, r: nat)
    requires x == r + 64 * q
    ensures x % 64 == r % 64
  {
  }

  lemma {:induction false} Halves(x: nat, lo: nat, hi: nat)
    requires x == lo + 0x1_0000_0000 * hi && lo < 0x1_0000_0000
    ensures x % 0x1_0000_0000 == lo && x / 0x1_0000_0000 == hi
  {
  }

  // ----- the context

  class Context {
    const transform: Transform
    const input: array<byte>
    var bits0: word
    var bits1: word
    var chain: Words

    /** MD5Init */
    constructor (transform: Transform)
      ensures this.transform == transform && fresh(input) && Holds([])
    {
      this.transform := transform;
      input := new byte[64](_ => 0);
      bits0, bits1, chain := 0, 0, INIT;
    }

    /** The context has taken in msg: whole blocks are folded, the rest is in `input`. */
    ghost predicate Holds(msg: seq<byte>)
      reads this, input
    {
      Counts(bits0, bits1, |msg|) && Buffered(msg, |msg| % 64)
    }

    /** All of msg but its last r bytes is folded; those are in `input`. */
    ghost predicate Buffered(msg: seq<byte>, r: nat)
      reads this, input
    {
      && input.Length == 64 && r <= |msg|
      && chain == Fold(transform, INIT, msg[..|msg| - r])
      && r < 64 && forall k :: 0 <= k < r ==> input[k] == msg[|msg| - r + k]
    }

    /** memcpy(in + at, data + from, count) */
    method CopyIn(data: seq<byte>, from: nat, at: nat, count: nat)
      requires from + count <= |data| && at + count <= input.Length
      modifies input
      ensures forall k :: at <= k < at + count ==> input[k] == data[from + k - at]
      ensures forall k :: 0 <= k < input.Length && !(at <= k < at + count) ==> input[k] == old(input[k])
    {
      for i := 0 to count
        invariant forall k :: at <= k < at + i ==> input[k] == data[from + k - at]
        invariant forall k :: 0 <= k < input.Length && !(at <= k < at + i) ==> input[k] == old(input[k])
      {
        input[at + i] := data[from + i];
      }
    }

    /** memset(in + at, 0, count) */
    method Clear(at: nat, count: nat)
      requires at + count <= input.Length
      modifies input
      ensures forall k :: at <= k < at + count ==> input[k] == 0
      ensures forall k :: 0 <= k < input.Length && !(at <= k < at + count) ==> input[k] == old(input[k])
    {
      for i := 0 to count
        invariant forall k :: at <= k < at + i ==> input[k] == 0
        invariant forall k :: 0 <= k < input.Length && !(at <= k < at + i) ==> input[k] == old(input[k])
      {
        input[at + i] := 0;
      }
    }

    method Count(len: nat, ghost n: nat)
      requires len < 0x1_0000_0000 && Counts(bits0, bits1, n)
      modifies this`bits0, this`bits1
      ensures Counts(bits0, bits1, n + len)
    {
      CounterAdd(bits0, bits1, n, len);
      var t := bits0;
      bits0 := (t + 8 * len % 0x1_0000_0000) % 0x1_0000_0000;
      if bits0 < t {
        bits1 := (bits1 + 1) % 0x1_0000_0000;
      }
      bits1 := (bits1 + len / 0x2000_0000) % 0x1_0000_0000;
    }

    /** Folds the full block in `input`, the last of all[..n]. */
    method FoldBlock(ghost all: seq<byte>, ghost n: nat)
      requires input.Length == 64 && 64 <= n <= |all| && n % 64 == 0
      requires chain == Fold(transform, INIT, all[..n - 64])
      requires forall k :: 0 <= k < 64 ==> input[k] == all[n - 64 + k]
      modifies this`chain
      ensures chain == Fold(transform, INIT, all[..n])
    {
      ghost var block := all[n - 64..n];
      assert input[..] == block;
      assert all[..n] == all[..n - 64] + block;
      FoldAppend(transform, INIT, all[..n - 64], block);
      FoldOne(transform, chain, block);
      chain := transform(chain, input[..]);
    }

    /** Completes the block begun in `input`, if there is one and data suffices. */
    method FillBlock(data: seq<byte>, t: nat, ghost msg: seq<byte>) returns (from: nat)
      requires Buffered(msg, t) && t == |msg| % 64 && (t != 0 ==> 64 - t <= |data|)
      modifies this`chain, input
      ensures from <= |data| && (|msg| + from) % 64 == 0
      ensures chain == Fold(transform, INIT, (msg + data)[..|msg| + from])
    {
      ghost var all := msg + data;
      assert all[..|msg| - t] == msg[..|msg| - t];
      if t == 0 {
        return 0;
      }
      from := 64 - t;
      CopyIn(data, 0, t, from);
      FoldBlock(all, |msg| + from);
    }

    /** Folds all whole blocks of data from `start` on. */
    method FoldWhole(data: seq<byte>, start: nat, ghost msg: seq<byte>) returns (from: nat)
      requires input.Length == 64 && start <= |data| && (|msg| + start) % 64 == 0
      requires chain == Fold(transform, INIT, (msg + data)[..|msg| + start])
      modifies this`chain, input
      ensures start <= from <= |data| < from + 64 && (|msg| + from) % 64 == 0
      ensures chain == Fold(transform, INIT, (msg + data)[..|msg| + from])
    {
      from := start;
      while |data| - from >= 64
        invariant start <= from <= |data| && (|msg| + from) % 64 == 0
        invariant chain == Fold(transform, INIT, (msg + data)[..|msg| + from])
      {
        CopyIn(data, from, 0, 64);
        FoldBlock(msg + data, |msg| + from + 64);
        from := from + 64;
      }
    }

    /** Adds data that does not complete a block. */
    method CopyPart(data: seq<byte>, t: nat, ghost msg: seq<byte>)
      requires Buffered(msg, t) && t + |data| < 64
      modifies input
      ensures Buffered(msg + data, t + |data|)
    {
      CopyIn(data, 0, t, |data|);
      assert (msg + data)[..|msg| - t] == msg[..|msg| - t];
    }

    /** Keeps the rest of data, too little for a block. */
    method CopyRest(data: seq<byte>, from: nat, ghost msg: seq<byte>)
      requires input.Length == 64 && from <= |data| < from + 64
      requires chain == Fold(transform, INIT, (msg + data)[..|msg| + from])
      modifies input
      ensures Buffered(msg + data, |data| - from)
    {
      CopyIn(data, from, 0, |data| - from);
    }

    /** Takes data into the buffer, which holds the last t bytes of msg. */
    method Absorb(data: seq<byte>, t: nat, ghost msg: seq<byte>) returns (ghost r: nat)
      requires Buffered(msg, t) && t == |msg| % 64
      modifies this`chain, input
      ensures Buffered(msg + data, r) && r == (|msg| + |data|) % 64
    {
      if t != 0 && |data| < 64 - t {
        CopyPart(data, t, msg);
        r := t + |data|;
        Remainder(|msg| - t, r);
      } else {
        r := AbsorbBlocks(data, t, msg);
      }
    }

    /** Takes in data that completes the block begun, if there is one. */
    method AbsorbBlocks(data: seq<byte>, t: nat, ghost msg: seq<byte>) returns (ghost r: nat)
      requires Buffered(msg, t) && t == |msg| % 64 && (t != 0 ==> 64 - t <= |data|)
      modifies this`chain, input
      ensures Buffered(msg + data, r) && r == (|msg| + |data|) % 64
    {
      var from := FillBlock(data, t, msg);
      from := FoldWhole(data, from, msg);
      CopyRest(data, from, msg);
      r := |data| - from;
      Remainder(|msg| + from, r);
    }

    lemma {:induction false} Remainder(whole: nat, rest: nat)
      requires whole % 64 == 0 && rest < 64
      ensures (whole + rest) % 64 == rest
    {
    }

    method Update(data: seq<byte>, ghost msg: seq<byte>)
      requires Holds(msg) && |data| < 0x1_0000_0000
      modifies this`bits0, this`bits1, this`chain, input
      ensures Holds(msg + data)
    {
      CounterIndex(bits0, bits1, |msg|);
      var t := bits0 / 8 % 64;
      Count(|data|, |msg|);
      ghost var r := Absorb(data, t, msg);
    }

    /** Appends the padding and the length, folds what is left, and wipes the context. */
    method Final(ghost msg: seq<byte>) returns (digest: seq<byte>)
      requires Holds(msg)
      modifies this`bits0, this`bits1, this`chain, input
      ensures digest == Digest(transform, msg)
      ensures bits0 == 0 && bits1 == 0 && chain == Words(0, 0, 0, 0)
      ensures forall k :: 0 <= k < input.Length ==> input[k] == 0
    {
      CounterIndex(bits0, bits1, |msg|);
      var count := bits0 / 8 % 64;
      ghost var length := LengthBytes(|msg|);
      Pad(count, msg, length);
      CopyIn(Le32(bits0) + Le32(bits1), 0, 56, 8);    // a[14] = bits[0]; a[15] = bits[1]
      ghost var all := msg + Padding(|msg|);
      FoldBlock(all, |all|);
      assert all[..|all|] == all;
      digest := Bytes(chain);
      bits0, bits1, chain := 0, 0, Words(0, 0, 0, 0);
      Clear(0, 64);
    }

    /** Leaves in `input` the last block of the padded message, but for the length. */
    method Pad(count: nat, ghost msg: seq<byte>, ghost length: seq<byte>)
      requires Buffered(msg, count) && count == |msg| % 64 && |length| == 8
      modifies this`chain, input
      ensures var z := if count < 56 then 55 - count else 119 - count;
              var all := msg + ([0x80] + Zeros(z) + length);
              && |all| >= 64 && |all| % 64 == 0 && chain == Fold(transform, INIT, all[..|all| - 64])
              && forall k :: 0 <= k < 56 ==> input[k] == all[|all| - 64 + k]
    {
      ghost var z := if count < 56 then 55 - count else 119 - count;
      ghost var all := msg + ([0x80] + Zeros(z) + length);
      ghost var whole := |msg| - count;
      assert all[..whole] == msg[..whole];
      input[count] := 0x80;
      var room := 64 - 1 - count;
      if room < 8 {
        Clear(count + 1, room);
        FoldBlock(all, whole + 64);
        Clear(0, 56);
      } else {
        Clear(count + 1, room - 8);
      }
    }
  }

  // ----- mg_md5

  function Hex(b: seq<byte>): string {
    if b == [] then "" else [HexChar(b[0] / 16), HexChar(b[0] % 16)] + Hex(b[1..])
  }

  function Concat(parts: seq<seq<byte>>): seq<byte> {
    if parts == [] then [] else parts[0] + Concat(parts[1..])
  }

  lemma {:induction false} HexLast(p: seq<byte>, i: nat)
    requires i < |p|
    ensures Hex(p[..i + 1]) == Hex(p[..i]) + [HexChar(p[i] / 16), HexChar(p[i] % 16)]
  {
    if i == 0 {
      assert p[..1][1..] == [];
    } else {
      assert p[..i + 1][1..] == p[1..][..i] && p[..i][1..] == p[1..][..i - 1];
      HexLast(p[1..], i - 1);
    }
  }

  /** Two lower-case digits a byte, the upper half first. */
  lemma {:induction false} HexAt(b: seq<byte>, k: nat)
    requires k < |b|
    ensures |Hex(b)| == 2 * |b|
    ensures Hex(b)[2 * k] == "0123456789abcdef"[b[k] / 16] && Hex(b)[2 * k + 1] == "0123456789abcdef"[b[k] % 16]
    decreases |b|
  {
    if |b| > 1 { HexAt(b[1..], if k > 0 then k - 1 else 0); }
  }

  method Bin2Str(p: seq<byte>) returns (to: string)
    ensures to == Hex(p)
  {
    to := "";
    for i := 0 to |p|
      invariant to == Hex(p[..i])
    {
      HexLast(p, i);
      to := to + [HexChar(p[i] / 16), HexChar(p[i] % 16)];
    }
    assert p[..|p|] == p;
  }

  lemma {:induction false} OnePart(msg: seq<byte>, parts: seq<seq<byte>>, i: nat)
    requires i < |parts|
    ensures msg + Concat(parts[i..]) == (msg + parts[i]) + Concat(parts[i + 1..])
  {
    assert parts[i..][1..] == parts[i + 1..];
    assert msg + (parts[i] + Concat(parts[i + 1..])) == (msg + parts[i]) + Concat(parts[i + 1..]);
  }

  /** The digest of several strings depends only on what they are when put together. */
  method MgMd5(f: Transform, parts: seq<seq<byte>>) returns (hex: string)
    requires forall p :: p in parts ==> |p| < 0x1_0000_0000
    ensures hex == Hex(Digest(f, Concat(parts)))
  {
    var ctx := new Context(f);
    ghost var msg: seq<byte> := [];
    for i := 0 to |parts|
      invariant fresh(ctx) && fresh(ctx.input) && ctx.transform == f
      invariant ctx.Holds(msg)
      invariant msg + Concat(parts[i..]) == Concat(parts)
    {
      ctx.Update(parts[i], msg);
      OnePart(msg, parts, i);
      msg := msg + parts[i];
    }
    assert msg == Concat(parts);
    var hash := ctx.Final(msg);
    hex := Bin2Str(hash);
  }
}
