/** Cutting requests out of one byte stream: what a stream means, apart from how it arrives. */
module HttpFraming {
  import opened Memory
  import opened Octets
  import opened Options

  const CR: byte := 13
  const LF: byte := 10

  /** A control character that is not part of a line break. */
  predicate Malformed(b: byte) {
    (b < 32 && b != 13 && b != 10) || b == 127
  }

  /** A blank line begins at s: LF LF, or LF CR LF. */
  predicate BlankLineAt(b: seq<byte>, s: nat) {
    s + 1 < |b| && b[s] == 10 && (b[s + 1] == 10 || (s + 2 < |b| && b[s + 1] == 13 && b[s + 2] == 10))
  }

  /** Where the head ends if its first blank line begins at s. */
  function EndOfBlankLine(b: seq<byte>, s: nat): nat
    requires BlankLineAt(b, s)
  {
    if b[s + 1] == LF then s + 2 else s + 3
  }

  function ScanHead(b: seq<byte>, s: nat): (r: int)
    ensures r == -1 || r == 0 || s + 2 <= r <= |b|
    decreases |b| - s
  {
    if s + 1 >= |b| then 0
    else if Malformed(b[s]) then -1
    else if BlankLineAt(b, s) then EndOfBlankLine(b, s)
    else ScanHead(b, s + 1)
  }

  /** The length of the request head at the start of b; 0 if there is no whole head
      yet, -1 if it is malformed. */
  function RequestLen(b: seq<byte>): (r: int)
    ensures r == -1 || r == 0 || 2 <= r <= |b|
  {
    ScanHead(b, 0)
  }

  predicate IsPrint(b: byte) {
    0x20 <= b <= 0x7e
  }

  method GetRequestLen(buf: array<byte>, buflen: nat) returns (len: int)
    requires buflen <= buf.Length
    ensures len == RequestLen(buf[..buflen])
  {
    var s := 0;
    len := 0;
    ghost var b := buf[..buflen];
    while len <= 0 && s < buflen - 1
      invariant 0 <= s && (len == 0 ==> ScanHead(b, s) == RequestLen(b))
      invariant len == 0 || (len > 0 && len == RequestLen(b))
      decreases buflen - s
    {
      if !IsPrint(buf[s]) && buf[s] != CR && buf[s] != LF && buf[s] < 128 {
        len := -1;
        break;
      } else if buf[s] == LF && buf[s + 1] == LF {
        len := s + 2;
      } else if buf[s] == LF && s + 1 < buflen - 1 && buf[s + 1] == CR && buf[s + 2] == LF {
        len := s + 3;
      }
      s := s + 1;
    }
  }

  /** The head ends with the first blank line, provided nothing malformed comes
      before it; and is malformed exactly when something is, before any blank line. */
  lemma {:induction false} RequestLenMeaning(b: seq<byte>)
    ensures forall s :: 0 <= s && BlankLineAt(b, s) && (forall k :: 0 <= k < s ==> !BlankLineAt(b, k))
                        && (forall k :: 0 <= k < s ==> !Malformed(b[k])) ==>
              RequestLen(b) == EndOfBlankLine(b, s)
    ensures RequestLen(b) == -1 <==>
              exists s :: 0 <= s < |b| - 1 && Malformed(b[s]) && forall k :: 0 <= k < s ==> !BlankLineAt(b, k)
    ensures RequestLen(b) == 0 <==>
              forall s :: 0 <= s < |b| - 1 ==> !BlankLineAt(b, s) && !Malformed(b[s])
  {
    var s := 0;
    while s + 1 < |b| && !Malformed(b[s]) && !BlankLineAt(b, s)
      invariant ScanHead(b, s) == RequestLen(b)
      invariant forall k :: 0 <= k < s ==> k < |b| - 1 && !BlankLineAt(b, k) && !Malformed(b[k])
      decreases |b| - s
    {
      s := s + 1;
    }
  }

  lemma {:induction false} ScanHeadStable(b: seq<byte>, c: seq<byte>, s: nat)
    requires b <= c && ScanHead(b, s) != 0
    ensures ScanHead(c, s) == ScanHead(b, s)
    decreases |b| - s
  {
    if !Malformed(b[s]) && !BlankLineAt(b, s) { ScanHeadStable(b, c, s + 1); }
  }

  /** Once decided, the head's length never changes, whatever bytes follow. */
  lemma {:induction false} RequestLenStable(b: seq<byte>, c: seq<byte>)
    requires b <= c && RequestLen(b) != 0
    ensures RequestLen(c) == RequestLen(b)
  {
    ScanHeadStable(b, c, 0);
  }

  // ----- heads line by line

  /** A line of a head and whether CR LF or a bare LF ends it. */
  datatype Line = Line(text: seq<byte>, crlf: bool)

  function Eol(crlf: bool): seq<byte> {
    if crlf then [13, 10] else [10]
  }

  /** Printable, or beyond ASCII. */
  predicate InLine(b: byte) {
    32 <= b <= 126 || b >= 128
  }

  ghost predicate GoodLines(lines: seq<Line>) {
    forall k :: 0 <= k < |lines| ==>
      lines[k].text != [] && forall i :: 0 <= i < |lines[k].text| ==> InLine(lines[k].text[i])
  }

  /** Some lines and what follows them. */
  function LinesThen(lines: seq<Line>, tail: seq<byte>): seq<byte> {
    if lines == [] then tail else (lines[0].text + Eol(lines[0].crlf)) + LinesThen(lines[1..], tail)
  }

  /** The lines and an empty one. */
  function HeadText(lines: seq<Line>, crlf: bool): seq<byte> {
    LinesThen(lines, Eol(crlf))
  }

  lemma {:induction false} ScansText(b: seq<byte>, s: nat, e: nat)
    requires s <= e < |b| && forall k :: s <= k < e ==> InLine(b[k]) || b[k] == 13
    ensures ScanHead(b, s) == ScanHead(b, e)
    decreases e - s
  {
    if s < e { ScansText(b, s + 1, e); }
  }

  /** The scan comes to the LF at the end of a line. */
  lemma {:induction false} ScansLine(b: seq<byte>, s: nat, line: Line) returns (e: nat)
    requires GoodLines([line]) && Reads(b, s, line.text + Eol(line.crlf))
    ensures e + 1 == s + |line.text| + |Eol(line.crlf)| <= |b| && b[e] == 10 && ScanHead(b, s) == ScanHead(b, e)
  {
    assert [line][0] == line;
    e := s + |line.text| + |Eol(line.crlf)| - 1;
    ReadsBoth(b, s, line.text, Eol(line.crlf));
    assert b[e] == Eol(line.crlf)[|Eol(line.crlf)| - 1];
    forall k | s <= k < e ensures InLine(b[k]) || b[k] == 13 {
      if k < s + |line.text| { assert b[k] == line.text[k - s]; } else { assert b[k] == Eol(line.crlf)[0]; }
    }
    ScansText(b, s, e);
  }

  /** The first line of some, and where what follows it stands. */
  lemma {:induction false} ScansFirst(b: seq<byte>, s: nat, lines: seq<Line>, tail: seq<byte>) returns (e: nat)
    requires lines != [] && GoodLines(lines) && Reads(b, s, LinesThen(lines, tail))
    ensures s <= e < |b| && b[e] == 10 && ScanHead(b, s) == ScanHead(b, e) && Reads(b, e + 1, LinesThen(lines[1..], tail))
    ensures e + 1 + |LinesThen(lines[1..], tail)| == s + |LinesThen(lines, tail)|
  {
    ReadsBoth(b, s, lines[0].text + Eol(lines[0].crlf), LinesThen(lines[1..], tail));
    e := ScansLine(b, s, lines[0]);
  }

  /** What comes after a line does not begin with a line break. */
  lemma {:induction false} LineBegins(b: seq<byte>, s: nat, lines: seq<Line>, tail: seq<byte>)
    requires GoodLines(lines) && Reads(b, s, LinesThen(lines, tail))
    requires lines == [] ==> tail != [] && tail[0] != 10 && tail[0] != 13
    ensures s < |b| && b[s] != 10 && b[s] != 13
  {
    var all := LinesThen(lines, tail);
    if lines != [] {
      assert all[0] == lines[0].text[0];
      assert InLine(lines[0].text[0]);
    }
    assert b[s] == all[0];
  }

  /** The scan goes past whole lines to what follows, if that is not a line break. */
  lemma {:induction false} ScansLines(b: seq<byte>, s: nat, lines: seq<Line>, tail: seq<byte>) returns (t: nat)
    requires GoodLines(lines) && Reads(b, s, LinesThen(lines, tail)) && tail != [] && tail[0] != 10 && tail[0] != 13
    ensures t + |tail| == s + |LinesThen(lines, tail)| && Reads(b, t, tail) && ScanHead(b, s) == ScanHead(b, t)
    decreases |lines|
  {
    t := s;
    if lines != [] {
      var e := ScansFirst(b, s, lines, tail);
      LineBegins(b, e + 1, lines[1..], tail);
      t := ScansLines(b, e + 1, lines[1..], tail);
    }
  }

  /** At the end of a line, an empty line ends the head. */
  lemma {:induction false} ScansEmpty(b: seq<byte>, e: nat, crlf: bool)
    requires e < |b| && b[e] == 10 && Reads(b, e + 1, Eol(crlf))
    ensures ScanHead(b, e) == e + 1 + |Eol(crlf)|
  {
    assert b[e + 1] == Eol(crlf)[0];
    if crlf { assert b[e + 2] == Eol(crlf)[1]; }
  }

  lemma {:induction false} ScansHead(b: seq<byte>, s: nat, lines: seq<Line>, crlf: bool)
    requires lines != [] && GoodLines(lines) && Reads(b, s, HeadText(lines, crlf))
    ensures ScanHead(b, s) == s + |HeadText(lines, crlf)|
    decreases |lines|
  {
    var rest := lines[1..];
    var e := ScansFirst(b, s, lines, Eol(crlf));
    if rest == [] {
      ScansEmpty(b, e, crlf);
    } else {
      LineBegins(b, e + 1, rest, Eol(crlf));
      ScansHead(b, e + 1, rest, crlf);
    }
  }

  /** A head of non-empty lines is measured whole, whichever line breaks it uses and whatever
      follows it; until it is complete it is undecided. */
  lemma {:induction false} HeadIsMeasured(lines: seq<Line>, crlf: bool, more: seq<byte>)
    requires lines != [] && GoodLines(lines)
    ensures RequestLen(HeadText(lines, crlf) + more) == |HeadText(lines, crlf)|
    ensures forall k :: 0 <= k < |HeadText(lines, crlf)| ==> RequestLen(HeadText(lines, crlf)[..k]) == 0
  {
    var head := HeadText(lines, crlf);
    ScansHead(head + more, 0, lines, crlf);
    forall k | 0 <= k < |head| ensures RequestLen(head[..k]) == 0 {
      if RequestLen(head[..k]) != 0 { RequestLenStable(head[..k], head + more); }
    }
  }

  /** A head with a control character in a line is refused as soon as another byte follows. */
  lemma {:induction false} HeadIsRefused(lines: seq<Line>, part: seq<byte>, bad: byte, more: seq<byte>)
    requires GoodLines(lines) && forall k :: 0 <= k < |part| ==> InLine(part[k])
    requires (bad < 32 && bad != 13 && bad != 10) || bad == 127
    ensures RequestLen(LinesThen(lines, part + [bad] + more)) == if more == [] then 0 else -1
  {
    var tail := part + [bad] + more;
    var b := LinesThen(lines, tail);
    assert tail[0] == if part == [] then bad else part[0];
    var s := ScansLines(b, 0, lines, tail);
    var x := s + |part|;
    assert b[x] == tail[|part|] && forall k :: s <= k < x ==> b[k] == tail[k - s] == part[k - s];
    ScansText(b, s, x);
  }

  // ----- the meaning of a whole stream

  function Min(a: int, b: int): int {
    if a < b then a else b
  }

  function Max(a: int, b: int): int {
    if a < b then b else a
  }

  /** The length of the first head of a stream, read through a buffer of `cap` bytes. */
  function HeadLen(stream: seq<byte>, cap: nat): (r: int)
    ensures r == -1 || r == 0 || 2 <= r <= Min(|stream|, cap)
  {
    RequestLen(stream[..Min(|stream|, cap)])
  }

  /** What the server makes of a request head: whether it parses, its
      Content-Length field, whether its method is POST or PUT, whether its URI and
      version are accepted, and whether it lets the connection live on. */
  datatype Head = Head(ok: bool, contentLength: Option<int>, hasBody: bool, served: bool, keepAlive: bool)

  function ContentLen(h: Head): int {
    match h.contentLength
    case Some(n) => n
    case None => if h.hasBody then -1 else 0
  }

  type Frame = (seq<byte>, seq<byte>)

  /** Where the first request of a stream ends. */
  function RequestEnd(stream: seq<byte>, r: nat, contentLen: int): (e: nat)
    requires r <= |stream|
    ensures r <= e <= |stream|
  {
    Min(r + Max(contentLen, 0), |stream|)
  }

  /** The stream begins with a head the server can parse. */
  predicate Starts(stream: seq<byte>, cap: nat, read: seq<byte> -> Head) {
    var r := HeadLen(stream, cap);
    r > 0 && read(stream[..r]).ok
  }

  /** After that request the connection is to live on. */
  predicate GoesOn(stream: seq<byte>, cap: nat, read: seq<byte> -> Head) {
    Starts(stream, cap, read) &&
    var h := read(stream[..HeadLen(stream, cap)]);
    ContentLen(h) >= 0 && h.keepAlive
  }

  /** What follows the first request. */
  function Rest(stream: seq<byte>, cap: nat, read: seq<byte> -> Head): (rest: seq<byte>)
    requires Starts(stream, cap, read)
    ensures |rest| < |stream|
  {
    var r := HeadLen(stream, cap);
    stream[RequestEnd(stream, r, ContentLen(read(stream[..r])))..]
  }

  /** The heads and bodies a stream consists of, as far as the server serves them. */
  function Frames(stream: seq<byte>, cap: nat, read: seq<byte> -> Head): seq<Frame>
    decreases |stream|
  {
    if !Starts(stream, cap, read) then []
    else
      var r := HeadLen(stream, cap);
      var h := read(stream[..r]);
      (if h.served then [(stream[..r], stream[r..RequestEnd(stream, r, ContentLen(h))])] else []) +
      (if GoesOn(stream, cap, read) then Frames(Rest(stream, cap, read), cap, read) else [])
  }

  /** The bytes a client sends for some requests, back to back. */
  function Stream(requests: seq<Frame>): seq<byte> {
    if requests == [] then [] else requests[0].0 + requests[0].1 + Stream(requests[1..])
  }

  /** A request as it should be sent: its head is some lines and an empty one, fits the
      buffer, and announces the length of its body. */
  ghost predicate WellFormed(request: Frame, cap: nat, read: seq<byte> -> Head) {
    var h := read(request.0);
    && (exists lines, crlf :: lines != [] && GoodLines(lines) && request.0 == HeadText(lines, crlf))
    && |request.0| <= cap && h.ok && h.served && h.keepAlive
    && (h.contentLength == Some(|request.1|) || (h.contentLength == None && !h.hasBody && request.1 == []))
  }

  lemma {:induction false} FirstRequest(q: Frame, more: seq<byte>, cap: nat, read: seq<byte> -> Head)
    requires WellFormed(q, cap, read)
    ensures var stream := q.0 + q.1 + more;
            && HeadLen(stream, cap) == |q.0| && stream[..|q.0|] == q.0 && GoesOn(stream, cap, read)
            && RequestEnd(stream, |q.0|, ContentLen(read(q.0))) == |q.0| + |q.1|
            && stream[|q.0|..|q.0| + |q.1|] == q.1 && Rest(stream, cap, read) == more
  {
    var stream := q.0 + q.1 + more;
    var lines, crlf :| lines != [] && GoodLines(lines) && q.0 == HeadText(lines, crlf);
    var upTo := stream[..Min(|stream|, cap)];
    assert upTo == q.0 + upTo[|q.0|..];
    HeadIsMeasured(lines, crlf, upTo[|q.0|..]);
    assert stream[..|q.0|] == q.0;
    assert stream[|q.0| + |q.1|..] == more;
  }

  /** Pipelined requests come out as they were sent, in order, none lost or merged. */
  lemma {:induction false} FramesOfStream(requests: seq<Frame>, cap: nat, read: seq<byte> -> Head)
    requires forall q :: q in requests ==> WellFormed(q, cap, read)
    ensures Frames(Stream(requests), cap, read) == requests
  {
    if requests != [] {
      var q, rest := requests[0], requests[1..];
      assert q in requests;
      FirstRequest(q, Stream(rest), cap, read);
      FramesOfStream(rest, cap, read);
      assert requests == [q] + rest;
    } else {
      assert HeadLen(Stream(requests), cap) == 0;
    }
  }

  // ----- what is left after one request

  /** The bytes the next turn will see: what the discarding step leaves of a buffer
      holding the first d bytes of the stream, then what is still unread after the
      handler consumed c bytes of body. */
  function LeftOver(stream: seq<byte>, r: nat, d: nat, contentLen: nat, c: nat): seq<byte>
    requires r <= d <= |stream| && r + c <= |stream|
  {
    (if r + contentLen < d then stream[r + contentLen..d] else []) + stream[Max(d, r + c)..]
  }

  /** The connection stays in step exactly when the body was wholly in the buffer or
      wholly consumed, or the stream has run dry; otherwise the unread rest of the
      body is taken for the next request. */
  lemma {:induction false} InStepExactly(stream: seq<byte>, r: nat, d: nat, contentLen: nat, c: nat)
    requires r <= d <= |stream| && r + c <= |stream| && c <= contentLen
    ensures LeftOver(stream, r, d, contentLen, c) == stream[RequestEnd(stream, r, contentLen)..] <==>
            (contentLen <= d - r || contentLen == c || Max(d, r + c) == |stream|)
  {
    var left := LeftOver(stream, r, d, contentLen, c);
    var want := stream[RequestEnd(stream, r, contentLen)..];
    if contentLen <= d - r {
      assert left == want;
    } else if contentLen == c || Max(d, r + c) == |stream| {
      assert left == want;
    } else {
      assert |left| != |want|;
    }
  }
}
