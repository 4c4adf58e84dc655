/** The C library's strtoll in base 10. */
module Numbers {
  predicate IsSpace(c: char) {
    c == ' ' || '\t' <= c <= '\r'
  }

  predicate IsDigit(c: char) {
    '0' <= c <= '9'
  }

  /** The value of the leading digits of s, continuing from acc. */
  function Digits(s: string, acc: nat): nat {
    if s == "" || !IsDigit(s[0]) then acc else Digits(s[1..], 10 * acc + (s[0] - '0') as nat)
  }

  function SignedDigits(s: string): int {
    if s == "" then 0
    else if s[0] == '-' then 0 - Digits(s[1..], 0)
    else if s[0] == '+' then Digits(s[1..], 0)
    else Digits(s, 0)
  }

  /** The nearest number of 64 bits. */
  function Clamped(n: int): (c: int)
    ensures -0x8000_0000_0000_0000 <= c <= 0x7fff_ffff_ffff_ffff
  {
    if n < -0x8000_0000_0000_0000 then -0x8000_0000_0000_0000
    else if n > 0x7fff_ffff_ffff_ffff then 0x7fff_ffff_ffff_ffff
    else n
  }

  /** White space, a sign, digits; clamped to 64 bits. */
  function Strtoll(s: string): int {
    if s != "" && IsSpace(s[0]) then Strtoll(s[1..]) else Clamped(SignedDigits(s))
  }

  /** A number written in decimal. */
  function Decimal(n: nat): (s: string)
    ensures s != "" && forall k :: 0 <= k < |s| ==> IsDigit(s[k])
  {
    var last := ['0' + (n % 10) as char];
    if n < 10 then last else Decimal(n / 10) + last
  }

  function Signed(n: int): string {
    if n < 0 then "-" + Decimal(-n) else Decimal(n)
  }

  lemma {:induction false} DigitsAppend(a: string, b: string, acc: nat)
    requires forall k :: 0 <= k < |a| ==> IsDigit(a[k])
    ensures Digits(a + b, acc) == Digits(b, Digits(a, acc))
  {
    if a == "" {
      assert a + b == b;
    } else {
      assert (a + b)[1..] == a[1..] + b;
      DigitsAppend(a[1..], b, 10 * acc + (a[0] - '0') as nat);
    }
  }

  lemma {:induction false} DecimalDigits(n: nat)
    ensures Digits(Decimal(n), 0) == n
  {
    var last := ['0' + (n % 10) as char];
    assert last[1..] == "";
    if n >= 10 {
      DecimalDigits(n / 10);
      DigitsAppend(Decimal(n / 10), last, 0);
    }
  }

  lemma {:induction false} DecimalThenTail(n: nat, tail: string)
    requires tail == "" || !IsDigit(tail[0])
    ensures Digits(Decimal(n) + tail, 0) == n
  {
    DigitsAppend(Decimal(n), tail, 0);
    DecimalDigits(n);
  }

  lemma {:induction false} PlainReadsBack(d: string, tail: string)
    requires d != "" && IsDigit(d[0])
    ensures SignedDigits(d + tail) == Digits(d + tail, 0) && !IsSpace((d + tail)[0])
  {
  }

  lemma {:induction false} MinusReadsBack(d: string, tail: string)
    ensures SignedDigits("-" + d + tail) == 0 - Digits(d + tail, 0) && ("-" + d + tail)[0] == '-'
  {
    assert ("-" + d + tail)[1..] == d + tail;
  }

  lemma {:induction false} SignedReadsBack(n: int, tail: string)
    requires tail == "" || !IsDigit(tail[0])
    ensures Strtoll(Signed(n) + tail) == Clamped(n)
  {
    if n < 0 {
      MinusReadsBack(Decimal(-n), tail);
      DecimalThenTail(-n, tail);
    } else {
      PlainReadsBack(Decimal(n), tail);
      DecimalThenTail(n, tail);
    }
  }

  lemma {:induction false} SkipsBlanks(blanks: string, t: string)
    requires forall k :: 0 <= k < |blanks| ==> blanks[k] == ' ' || 9 <= blanks[k] as int <= 13
    ensures Strtoll(blanks + t) == Strtoll(t)
    decreases |blanks|
  {
    if blanks == "" {
      assert blanks + t == t;
    } else {
      assert (blanks + t)[1..] == blanks[1..] + t;
      SkipsBlanks(blanks[1..], t);
    }
  }

  function NearestOf64Bits(n: int): int {
    if n < -0x8000_0000_0000_0000 then -0x8000_0000_0000_0000
    else if n < 0x8000_0000_0000_0000 then n
    else 0x7fff_ffff_ffff_ffff
  }

  /** A number written in decimal, with a sign or without, after white space and before
      anything but a digit, is read back, clamped to 64 bits. */
  lemma {:induction false} StrtollReadsBack(blanks: string, n: int, tail: string)
    requires forall k :: 0 <= k < |blanks| ==> blanks[k] == ' ' || 9 <= blanks[k] as int <= 13
    requires tail == "" || tail[0] !in "0123456789"
    ensures Strtoll(blanks + (Signed(n) + tail)) == NearestOf64Bits(n)
    ensures n >= 0 ==> Strtoll(blanks + ("+" + (Decimal(n) + tail))) == NearestOf64Bits(n)
  {
    SkipsBlanks(blanks, Signed(n) + tail);
    SignedReadsBack(n, tail);
    if n >= 0 {
      var t := Decimal(n) + tail;
      SkipsBlanks(blanks, "+" + t);
      DecimalThenTail(n, tail);
      assert ("+" + t)[1..] == t;
    }
  }

  /** Without a digit, at the start or behind a sign, the number is 0. */
  lemma {:induction false} StrtollOfNoNumber(blanks: string, sign: string, tail: string)
    requires forall k :: 0 <= k < |blanks| ==> blanks[k] == ' ' || 9 <= blanks[k] as int <= 13
    requires sign == "+" || sign == "-" || sign == ""
    requires tail == "" || tail[0] !in "0123456789"
    requires sign == "" && tail != "" ==> tail[0] !in "+- " && !(9 <= tail[0] as int <= 13)
    ensures Strtoll(blanks + (sign + tail)) == 0
  {
    SkipsBlanks(blanks, sign + tail);
    assert (sign + tail)[|sign|..] == tail;
  }
}
