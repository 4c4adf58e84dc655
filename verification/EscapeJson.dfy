/** Escaping text for a JSON string, over the code points decoded from UTF-8. */
module EscapeJson {
  import opened JsmnSpec
  import opened Octets
  import JsonForest
  import JsonPrint
  import opened Options

  /** printf's %04x of a 16-bit number. */
  function Hex4(n: nat): (s: string)
    requires n < 0x10000
    ensures |s| == 4
  {
    var c := n / 0x10;
    var b := c / 0x10;
    [HexChar(b / 0x10), HexChar(b % 0x10), HexChar(c % 0x10), HexChar(n % 0x10)]
  }

  predicate IsLiteral(c: nat) {
    0x1f < c < 0x80 && c != '\"' as nat && c != '\\' as nat
  }

  /** What follows the backslash: a letter, or the low 16 bits of the code point. */
  function EscapeBody(c: nat): (s: string)
    ensures |s| == 1 || |s| == 5
  {
    match c
    case 0x22 => "\""
    case 0x5c => "\\"
    case 0x0a => "n"
    case 0x0d => "r"
    case 0x09 => "t"
    case 0x08 => "b"
    case 0x0c => "f"
    case _ => "u" + Hex4(c % 0x10000)
  }

  function EscapeOne(c: nat): string {
    if IsLiteral(c) then [c as char] else "\\" + EscapeBody(c)
  }

  function Escape(w: seq<nat>): string {
    if w == [] then "" else EscapeOne(w[0]) + Escape(w[1..])
  }

  /** Printable ASCII stays as it is, a quote and a backslash get a backslash, five control
      characters have letters, and everything else becomes \u and four digits (section 7 of
      RFC 8259). */
  lemma {:induction false} EscapeOneIs(c: nat)
    ensures EscapeOne(c) == if c == '"' as nat then "\\\""
                            else if c == '\\' as nat then "\\\\"
                            else if ' ' as nat <= c <= 127 then [c as char]
                            else if c == '\n' as nat then "\\n"
                            else if c == '\r' as nat then "\\r"
                            else if c == '\t' as nat then "\\t"
                            else if c == 8 then "\\b"
                            else if c == 12 then "\\f"
                            else "\\u" + Hex4(c % 0x10000)
  {
  }

  lemma {:induction false} Hex4Digits(n: nat)
    requires n < 0x10000
    ensures forall k :: 0 <= k < 4 ==> Hex4(n)[k] in "0123456789abcdef"
  {
  }

  lemma {:induction false} OneIsAscii(c: nat)
    ensures forall k :: 0 <= k < |EscapeOne(c)| ==> 32 <= EscapeOne(c)[k] as int <= 127
  {
    EscapeOneIs(c);
    var h := Hex4(c % 0x10000);
    Hex4Digits(c % 0x10000);
    forall k | 0 <= k < 4 ensures 32 <= h[k] as int <= 127 { assert h[k] in "0123456789abcdef"; }
  }

  /** Whatever was escaped, only ASCII comes out, and no control character but DEL. */
  lemma {:induction false} EscapedIsAscii(w: seq<nat>)
    ensures forall k :: 0 <= k < |Escape(w)| ==> 32 <= Escape(w)[k] as int <= 127
  {
    if w != [] {
      OneIsAscii(w[0]);
      EscapedIsAscii(w[1..]);
      var one, more := EscapeOne(w[0]), Escape(w[1..]);
      assert Escape(w) == one + more;
    }
  }

  /** Appends the escape of one code point. */
  method AppendOne(ret: string, c: nat) returns (r: string)
    ensures r == ret + EscapeOne(c)
  {
    if IsLiteral(c) {
      return ret + [c as char];
    }
    var s := "\\";
    match c {
    case 0x22 => s := s + "\"";
    case 0x5c => s := s + "\\";
    case 0x0a => s := s + "n";
    case 0x0d => s := s + "r";
    case 0x09 => s := s + "t";
    case 0x08 => s := s + "b";
    case 0x0c => s := s + "f";
    case _ => s := s + ("u" + Hex4(c % 0x10000));
    }
    return ret + s;
  }

  lemma {:induction false} EscapeAppend(w: seq<nat>, c: nat)
    ensures Escape(w + [c]) == Escape(w) + EscapeOne(c)
  {
    if w == [] {
      assert w + [c] == [c] && [c][1..] == [];
    } else {
      assert (w + [c])[1..] == w[1..] + [c];
      EscapeAppend(w[1..], c);
    }
  }

  method EscapeJson(w: seq<nat>) returns (ret: string)
    ensures ret == Escape(w)
  {
    ret := "";
    for k := 0 to |w|
      invariant ret == Escape(w[..k])
    {
      EscapeAppend(w[..k], w[k]);
      assert w[..k + 1] == w[..k] + [w[k]];
      ret := AppendOne(ret, w[k]);
    }
    assert w[..|w|] == w;
  }

  // ----- reading it back (RFC 8259 section 7)

  function HexValue(c: char): int {
    if '0' <= c <= '9' then (c - '0') as int
    else if 'a' <= c <= 'f' then (c - 'a') as int + 10
    else if 'A' <= c <= 'F' then (c - 'A') as int + 10
    else -1
  }

  /** The character a two-character escape stands for, or -1. */
  function ShortEscape(c: char): int {
    match c
    case '\"' => 0x22
    case '\\' => 0x5c
    case '/' => 0x2f
    case 'b' => 0x08
    case 'f' => 0x0c
    case 'n' => 0x0a
    case 'r' => 0x0d
    case 't' => 0x09
    case _ => -1
  }

  function Hex4Value(s: string): int
    requires |s| >= 4
  {
    var a, b, c, d := HexValue(s[0]), HexValue(s[1]), HexValue(s[2]), HexValue(s[3]);
    if a < 0 || b < 0 || c < 0 || d < 0 then -1 else 0x1000 * a + 0x100 * b + 0x10 * c + d
  }

  /** The code units a JSON string body stands for. */
  function Unescape(s: string): Option<seq<nat>> {
    if s == "" then Some([])
    else if s[0] != '\\' then Cons(s[0] as nat, Unescape(s[1..]))
    else if |s| < 2 then None
    else if s[1] == 'u' then
      if |s| < 6 || Hex4Value(s[2..]) < 0 then None else Cons(Hex4Value(s[2..]), Unescape(s[6..]))
    else if ShortEscape(s[1]) < 0 then None
    else Cons(ShortEscape(s[1]), Unescape(s[2..]))
  }

  function Cons(n: nat, rest: Option<seq<nat>>): Option<seq<nat>> {
    if rest.None? then None else Some([n] + rest.value)
  }

  function Low16(w: seq<nat>): seq<nat> {
    if w == [] then [] else [w[0] % 0x10000] + Low16(w[1..])
  }

  lemma {:induction false} HexRoundTrip(k: nat)
    requires k < 16
    ensures HexValue(HexChar(k)) == k
  {
  }

  lemma {:induction false} Hex4RoundTrip(n: nat, s: string)
    requires n < 0x10000 && |s| >= 4
    requires forall k :: 0 <= k < 4 ==> s[k] == Hex4(n)[k]
    ensures Hex4Value(s) == n
  {
    var c := n / 0x10;
    var b := c / 0x10;
    HexRoundTrip(b / 0x10);
    HexRoundTrip(b % 0x10);
    HexRoundTrip(c % 0x10);
    HexRoundTrip(n % 0x10);
  }

  lemma {:induction false} UnescapeHex(n: nat, rest: string)
    requires n < 0x10000
    ensures Unescape("\\u" + Hex4(n) + rest) == Cons(n, Unescape(rest))
  {
    var s := "\\u" + Hex4(n) + rest;
    assert s[6..] == rest && s[2..][..4] == Hex4(n);
    forall k | 0 <= k < 4 ensures s[2..][k] == Hex4(n)[k] { assert s[2..][..4][k] == s[2..][k]; }
    Hex4RoundTrip(n, s[2..]);
  }

  lemma {:induction false} UnescapeOne(c: nat, rest: string)
    ensures Unescape(EscapeOne(c) + rest) == Cons(c % 0x10000, Unescape(rest))
  {
    var e := EscapeOne(c);
    assert (e + rest)[|e|..] == rest;
    if |e| == 6 {
      UnescapeHex(c % 0x10000, rest);
      assert e + rest == "\\u" + Hex4(c % 0x10000) + rest;
    }
  }

  lemma {:induction false} UnescapeGivesLow16(w: seq<nat>)
    ensures Unescape(Escape(w)) == Some(Low16(w))
  {
    if w != [] {
      UnescapeOne(w[0], Escape(w[1..]));
      UnescapeGivesLow16(w[1..]);
    }
  }

  lemma {:induction false} Low16At(w: seq<nat>, k: nat)
    requires k < |w|
    ensures |Low16(w)| == |w| && Low16(w)[k] == w[k] % 0x10000
    decreases |w|
  {
    if |w| > 1 { Low16At(w[1..], if k > 0 then k - 1 else 0); }
  }

  lemma {:induction false} Low16Same(w: seq<nat>)
    ensures Low16(w) == w <==> forall k :: 0 <= k < |w| ==> w[k] < 0x10000
  {
    forall k | 0 <= k < |w| ensures |Low16(w)| == |w| && Low16(w)[k] == w[k] % 0x10000 { Low16At(w, k); }
    if w != [] { Low16At(w, 0); }
  }

  /** Escaping loses nothing exactly when every code point fits in 16 bits: larger
      ones are not written as the surrogate pairs RFC 8259 section 7 asks for. */
  lemma {:induction false} EscapeRoundTrip(w: seq<nat>)
    ensures Unescape(Escape(w)) == Some(w) <==> forall k :: 0 <= k < |w| ==> w[k] < 0x10000
  {
    UnescapeGivesLow16(w);
    Low16Same(w);
  }

  // ----- the tokenizer reads it as one string

  lemma {:induction false} PlainIsWellEscaped(s: string, rest: string)
    requires forall k :: 0 <= k < |s| ==> s[k] != '\"' && s[k] != '\\' && s[k] != '\0'
    ensures JsonPrint.WellEscaped(s + rest) == JsonPrint.WellEscaped(rest)
  {
    if s == "" {
      assert s + rest == rest;
    } else {
      assert (s + rest)[1..] == s[1..] + rest;
      PlainIsWellEscaped(s[1..], rest);
    }
  }

  lemma {:induction false} EscapeOneWellEscaped(c: nat, rest: string)
    ensures JsonPrint.WellEscaped(EscapeOne(c) + rest) == JsonPrint.WellEscaped(rest)
  {
    if IsLiteral(c) {
      PlainIsWellEscaped(EscapeOne(c), rest);
    } else {
      var b := EscapeBody(c);
      assert (EscapeOne(c) + rest)[2..] == b[1..] + rest;
      assert IsEscapeLetter(b[0]);
      PlainIsWellEscaped(b[1..], rest);
    }
  }

  lemma {:induction false} EscapedIsWellEscaped(w: seq<nat>)
    ensures JsonPrint.WellEscaped(Escape(w))
  {
    if w != [] {
      EscapeOneWellEscaped(w[0], Escape(w[1..]));
      EscapedIsWellEscaped(w[1..]);
    }
  }

  /** Whatever was escaped, its quoted form is tokenized as exactly one string,
      spanning exactly the escaped text. */
  lemma {:induction false} EscapedIsOneString(w: seq<nat>, cap: nat)
    requires cap >= 1
    ensures var js := "\"" + Escape(w) + "\"";
            Init.Valid(js) &&
            Run(js, cap, Init) == (State(|js|, [Token(String, 1, 1 + |Escape(w)|, 0)], -1), Success)
  {
    var raw := Escape(w);
    var d := JsonPrint.Str(raw);
    EscapedIsWellEscaped(w);
    StringTree(raw);
    JsonPrint.PrintThenParse("", d, "", cap);
    assert "" + JsonPrint.Print(d) + "" == "\"" + raw + "\"";
  }

  lemma {:induction false} StringTree(raw: string)
    ensures JsonForest.Flatten(JsonPrint.TreeOf(JsonPrint.Str(raw), 0)) == [Token(String, 1, 1 + |raw|, 0)]
  {
  }
}
