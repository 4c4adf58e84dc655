/** One connection: its receive buffer, its counters, and the socket behind it. */
module HttpConnection {
  import opened Octets
  import opened HttpFraming
  import opened HttpRuns
  import opened Options

  /** The peer's side.  `unread` is everything it will ever send and that has not
      been received; `failed` records that a read failed or the server was stopped. */
  class Socket {
    var unread: seq<byte>
    var failed: bool

    constructor (stream: seq<byte>)
      ensures unread == stream && !failed
    {
      unread, failed := stream, false;
    }

    /** Has the server been told to stop?  If so, the connection counts as failed. */
    method Stopped() returns (stopped: bool)
      modifies this`failed
      ensures stopped ==> failed
      ensures !stopped ==> failed == old(failed)
    {
      stopped := false;
      if * {
        failed, stopped := true, true;
      }
    }

    /** Receives at most len bytes into dst at off.  How many is up to the network:
        at least one unless the stream has ended, or -1, with any bytes lost. */
    method Pull(dst: array<byte>, off: nat, len: nat) returns (n: int)
      requires 0 < len && off + len <= dst.Length
      modifies this, dst
      ensures old(failed) ==> failed
      ensures |unread| <= |old(unread)|
      ensures n == -1 ==> failed
      ensures n != -1 ==> failed == old(failed) && 0 <= n <= len && n <= |old(unread)|
      ensures n == 0 ==> old(unread) == []
      ensures n != -1 ==> unread == old(unread)[n..] && forall k :: off <= k < off + n ==> dst[k] == old(unread)[k - off]
      ensures forall k :: 0 <= k < dst.Length && !(off <= k < off + len) ==> dst[k] == old(dst[k])
    {
      var lost: nat :| lost <= |unread|;
      n :| -1 <= n <= len && n <= |unread| && (n == 0 ==> unread == []);
      if n == -1 {
        failed := true;
        unread := unread[lost..];
        return;
      }
      for k := 0 to n
        invariant unread == old(unread) && failed == old(failed)
        invariant forall i :: off <= i < off + k ==> dst[i] == unread[i - off]
        invariant forall i :: 0 <= i < dst.Length && !(off <= i < off + k) ==> dst[i] == old(dst[i])
      {
        dst[off + k] := unread[k];
      }
      unread := unread[n..];
    }
  }

  class Connection {
    const buf: array<byte>
    const sock: Socket
    const read: seq<byte> -> Head        // how heads are understood
    const plan: seq<byte> -> seq<nat>    // the buffer sizes the handler reads the body with

    var dataLen: nat
    var requestLen: int
    var contentLen: int
    var consumed: nat
    var mustClose: bool
    var headText: seq<byte>
    var head: Head

    ghost predicate Valid()
      reads this
    {
      dataLen <= buf.Length
    }

    constructor (bufSize: nat, sock: Socket, read: seq<byte> -> Head, plan: seq<byte> -> seq<nat>)
      ensures Valid() && fresh(buf) && buf.Length == bufSize && this.sock == sock && this.read == read && this.plan == plan
    {
      buf := new byte[bufSize](_ => 0);
      this.sock, this.read, this.plan := sock, read, plan;
      dataLen, requestLen, contentLen, consumed, mustClose := 0, 0, 0, 0, false;
      headText, head := [], Head(false, None, false, false, false);
    }

    /** The part of the stream still to be cut: what is buffered, then what is unread. */
    ghost function Pending(): seq<byte>
      reads this, buf, sock
      requires Valid()
    {
      buf[..dataLen] + sock.unread
    }

    method ReadRequest() returns (r: int)
      requires Valid()
      modifies this`dataLen, buf, sock
      ensures Valid() && (old(sock.failed) ==> sock.failed) && |Pending()| <= |old(Pending())|
      ensures r == -1 || r == RequestLen(buf[..dataLen])
      ensures !sock.failed ==> Pending() == old(Pending())
      ensures !sock.failed ==> (r > 0 <==> HeadLen(Pending(), buf.Length) > 0)
      ensures !sock.failed && r > 0 ==> r == HeadLen(Pending(), buf.Length)
    {
      ghost var stream := Pending();
      var n := 0;
      var len := GetRequestLen(buf, dataLen);
      while dataLen < buf.Length && len == 0
        invariant Valid() && (old(sock.failed) ==> sock.failed) && |Pending()| <= |stream|
        invariant len == RequestLen(buf[..dataLen])
        invariant !sock.failed ==> Pending() == stream && n >= 0
        decreases buf.Length - dataLen
      {
        ghost var had, unread := buf[..dataLen], sock.unread;
        n := sock.Pull(buf, dataLen, buf.Length - dataLen);
        assert buf[..dataLen] == had;
        if n <= 0 {
          break;
        }
        assert buf[..dataLen + n] == had + unread[..n];
        assert had + unread == (had + unread[..n]) + unread[n..];
        dataLen := dataLen + n;
        len := GetRequestLen(buf, dataLen);
      }
      if !sock.failed {
        var upTo := stream[..Min(|stream|, buf.Length)];
        assert buf[..dataLen] <= upTo;
        if len != 0 {
          RequestLenStable(buf[..dataLen], upTo);
        } else {
          assert upTo == buf[..dataLen];
        }
      }
      return if len <= 0 && n <= 0 then -1 else len;
    }

    /** Scans the whole buffer, stale bytes and all, and cuts the head into C strings. */
    method ParseHttpMessage() returns (len: int)
      requires Valid() && requestLen == RequestLen(buf[..dataLen]) > 0
      modifies this`head, this`headText, buf
      ensures headText == old(buf[..requestLen]) && head == read(headText)
      ensures len == if head.ok then requestLen else -1
      ensures forall k :: requestLen <= k < dataLen ==> buf[k] == old(buf[k])
    {
      RequestLenStable(buf[..dataLen], buf[..]);
      assert buf[..buf.Length] == buf[..];
      len := GetRequestLen(buf, buf.Length);
      headText := buf[..len];
      head := read(headText);
      buf[len - 1] := 0;
      for k := 0 to len - 1
        modifies buf
        invariant forall k :: requestLen <= k < dataLen ==> buf[k] == old(buf[k])
      {
        if * { buf[k] := 0; }
      }
      if !head.ok {
        len := -1;
      }
    }

    /** A turn is under way on `stream`: its head is parsed, and `consumed` bytes of
        its body have been handed out, from the buffer first and then the socket. */
    ghost predicate InTurn(stream: seq<byte>)
      reads this, buf, sock
    {
      && 0 < requestLen <= dataLen <= buf.Length && dataLen <= |stream|
      && requestLen + consumed <= |stream| && consumed <= Max(contentLen, 0)
      && (forall k :: requestLen <= k < dataLen ==> buf[k] == stream[k])
      && sock.unread == stream[Max(dataLen, requestLen + consumed)..]
    }

    method GetReq() returns (ok: bool)
      requires Valid()
      modifies this, buf, sock
      ensures Valid() && (old(sock.failed) ==> sock.failed) && |Pending()| <= |old(Pending())|
      ensures requestLen <= dataLen && (ok ==> head.ok && head == read(headText))
      ensures ok ==> !mustClose && 0 < requestLen <= dataLen && consumed == 0 && contentLen == ContentLen(head)
      ensures !sock.failed ==>
                var stream := old(Pending());
                var r := HeadLen(stream, buf.Length);
                && (ok <==> r > 0 && read(stream[..r]).ok)
                && (ok ==> requestLen == r && headText == stream[..r] && head == read(headText) && InTurn(stream))
    {
      ghost var stream := Pending();
      consumed, mustClose, requestLen := 0, false, 0;
      requestLen := ReadRequest();
      assert requestLen < 0 || requestLen <= dataLen;
      if requestLen <= 0 {
        return false;
      }
      ghost var filled, unread := buf[..dataLen], sock.unread;
      var parsed := ParseHttpMessage();
      assert sock.unread == unread && headText == filled[..requestLen];
      if !sock.failed {
        assert stream == filled + unread;
        assert stream[..requestLen] == filled[..requestLen];
      }
      if parsed <= 0 {
        return false;
      }
      contentLen := match head.contentLength
        case Some(n) => n
        case None => if head.hasBody then -1 else 0;
      return true;
    }

    /** Reads from the socket until len bytes have come, or no more do. */
    method PullAll(dst: array<byte>, off: nat, len: nat) returns (nread: int)
      requires off + len <= dst.Length && dst != buf
      modifies this`consumed, dst, sock
      ensures (old(sock.failed) ==> sock.failed) && |sock.unread| <= |old(sock.unread)|
      ensures nread < 0 ==> sock.failed
      ensures nread <= len
      ensures forall k :: 0 <= k < off ==> dst[k] == old(dst[k])
      ensures !sock.failed ==>
                && nread == Min(len, |old(sock.unread)|) && consumed == old(consumed) + nread
                && (forall k :: off <= k < off + nread ==> dst[k] == old(sock.unread)[k - off]) && sock.unread == old(sock.unread)[nread..]
    {
      ghost var stream := sock.unread;
      nread := 0;
      var left := len;
      while left > 0
        invariant 0 <= nread && 0 <= left && nread + left == len
        invariant (old(sock.failed) ==> sock.failed) && |sock.unread| <= |stream|
        invariant forall k :: 0 <= k < off ==> dst[k] == old(dst[k])
        invariant !sock.failed ==>
                    && nread <= |stream| && consumed == old(consumed) + nread
                    && (forall k :: off <= k < off + nread ==> dst[k] == stream[k - off]) && sock.unread == stream[nread..]
        decreases left
      {
        var n := sock.Pull(dst, off + nread, left);
        if n < 0 {
          nread := n;
          break;
        } else if n == 0 {
          break;
        }
        if !sock.failed {
          assert stream[nread..][n..] == stream[nread + n..];
        }
        consumed := consumed + n;
        nread := nread + n;
        left := left - n;
      }
    }

    /** Hands out body bytes that are already in the buffer. */
    method TakeBuffered(dst: array<byte>, want: nat, ghost stream: seq<byte>) returns (b: nat)
      requires Valid() && 0 < requestLen <= dataLen && want <= dst.Length && dst != buf
      modifies this`consumed, dst
      ensures b == Max(Min(want, dataLen - (requestLen + old(consumed))), 0) && consumed == old(consumed) + b
      ensures old(InTurn(stream)) ==>
                var from := requestLen + old(consumed);
                from + b <= |stream| && forall k :: 0 <= k < b ==> dst[k] == stream[from + k]
    {
      b := 0;
      var body := requestLen + consumed;
      if dataLen - body > 0 {
        b := Min(want, dataLen - body);
        for k := 0 to b
          modifies dst
          invariant forall i :: 0 <= i < k ==> dst[i] == buf[body + i]
        {
          dst[k] := buf[body + k];
        }
        consumed := consumed + b;
      }
    }

    /** Takes what is wanted of the body from the buffer and then from the socket; n is
        negative when the socket failed. */
    method TakeBody(dst: array<byte>, want: nat, ghost stream: seq<byte>) returns (b: nat, n: int)
      requires Valid() && 0 < requestLen <= dataLen && want <= dst.Length && dst != buf
      modifies this`consumed, dst, sock
      ensures (old(sock.failed) ==> sock.failed) && |sock.unread| <= |old(sock.unread)|
      ensures (n < 0 ==> sock.failed) && b + n <= want
      ensures old(InTurn(stream)) && !sock.failed ==>
                var from := requestLen + old(consumed);
                && b + n == Min(want, |stream| - from) && consumed == old(consumed) + b + n
                && (forall k :: 0 <= k < b + n ==> dst[k] == stream[from + k]) && sock.unread == stream[Max(dataLen, from + b + n)..]
    {
      ghost var body := requestLen + consumed;
      b := TakeBuffered(dst, want, stream);
      ghost var m := Max(dataLen, body + b);
      n := PullAll(dst, b, want - b);
      if old(InTurn(stream)) && !sock.failed {
        assert n > 0 ==> m == body + b;
        assert stream[m..][n..] == stream[m + n..];
      }
    }

    /** Hands out the next bytes of the body: the buffered ones, then unread ones. */
    method MgRead(dst: array<byte>, len: nat, ghost stream: seq<byte>) returns (nread: int)
      requires Valid() && 0 < requestLen <= dataLen && len <= dst.Length && dst != buf
      modifies this`consumed, dst, sock
      ensures (old(sock.failed) ==> sock.failed) && |sock.unread| <= |old(sock.unread)|
      ensures nread <= dst.Length
      ensures old(InTurn(stream)) && !sock.failed ==>
                var from := requestLen + old(consumed);
                && InTurn(stream)
                && nread == Min(Max(Min(contentLen - old(consumed), len), 0), |stream| - from)
                && consumed == old(consumed) + nread && forall k :: 0 <= k < nread ==> dst[k] == stream[from + k]
    {
      nread := 0;
      if consumed < contentLen {
        var want := Min(contentLen - consumed, len);
        var b, n := TakeBody(dst, want, stream);
        nread := if n >= 0 then b + n else n;
      }
    }

    /** One more piece: n more bytes after the first c of the body. */
    static lemma {:induction false} TakenMore(stream: seq<byte>, r: nat, c: nat, n: nat, L: int, s: nat, size: nat)
      requires r + c <= |stream| && c == Taken(L, s, |stream| - r)
      requires n == Min(Max(Min(L - c, size), 0), |stream| - (r + c))
      ensures c + n == Taken(L, s + size, |stream| - r)
      ensures stream[r..r + c] + stream[r + c..r + c + n] == stream[r..r + c + n]
    {
    }

    /** `body` has been read, into buffers of total size s. */
    ghost predicate HasRead(stream: seq<byte>, body: seq<byte>, s: nat)
      reads this, buf, sock
    {
      && InTurn(stream)
      && body == stream[requestLen..requestLen + consumed]
      && consumed == Taken(contentLen, s, |stream| - requestLen)
    }

    /** Reads into a buffer of the given size. */
    method ReadPiece(size: nat, ghost stream: seq<byte>) returns (piece: seq<byte>)
      requires Valid() && 0 < requestLen <= dataLen
      modifies this`consumed, sock
      ensures (old(sock.failed) ==> sock.failed) && |sock.unread| <= |old(sock.unread)|
      ensures old(InTurn(stream)) && !sock.failed ==>
                var from := requestLen + old(consumed);
                && InTurn(stream)
                && |piece| == Min(Max(Min(contentLen - old(consumed), size), 0), |stream| - from)
                && consumed == old(consumed) + |piece| && piece == stream[from..from + |piece|]
    {
      var dst := new byte[size](_ => 0);
      var n := MgRead(dst, size, stream);
      piece := if n > 0 then dst[..n] else [];
    }

    /** Reads the next piece of the body. */
    method ReadMore(body: seq<byte>, size: nat, ghost stream: seq<byte>, ghost s: nat) returns (more: seq<byte>)
      requires Valid() && 0 < requestLen <= dataLen
      modifies this`consumed, sock
      ensures (old(sock.failed) ==> sock.failed) && |sock.unread| <= |old(sock.unread)|
      ensures old(HasRead(stream, body, s)) && !sock.failed ==> HasRead(stream, more, s + size)
    {
      var piece := ReadPiece(size, stream);
      more := body + piece;
      if old(HasRead(stream, body, s)) && !sock.failed {
        TakenMore(stream, requestLen, old(consumed), |piece|, contentLen, s, size);
      }
    }

    /** The application reads the body with the buffer sizes it has planned for this head. */
    method HandleRequest(ghost stream: seq<byte>) returns (body: seq<byte>)
      requires Valid() && 0 < requestLen <= dataLen && consumed == 0
      modifies this`consumed, sock
      ensures (old(sock.failed) ==> sock.failed) && |sock.unread| <= |old(sock.unread)|
      ensures old(InTurn(stream)) && !sock.failed ==> HasRead(stream, body, Sum(plan(headText)))
    {
      var sizes := plan(headText);
      body := [];
      for i := 0 to |sizes|
        invariant (old(sock.failed) ==> sock.failed) && |sock.unread| <= |old(sock.unread)|
        invariant old(InTurn(stream)) && !sock.failed ==> HasRead(stream, body, Sum(sizes[..i]))
      {
        SumLast(sizes, i);
        body := ReadMore(body, sizes[i], stream, Sum(sizes[..i]));
      }
      assert sizes[..|sizes|] == sizes;
    }

    /** Hands a parsed request out, unless it is refused before it gets that far. */
    method HandOut(ghost stream: seq<byte>) returns (out: seq<Frame>)
      requires Valid() && 0 < requestLen <= dataLen && consumed == 0 && contentLen == ContentLen(head)
      modifies this`consumed, sock
      ensures (old(sock.failed) ==> sock.failed) && |sock.unread| <= |old(sock.unread)|
      ensures old(InTurn(stream)) && !sock.failed && head == read(headText) ==>
                && InTurn(stream)
                && consumed == Taken(contentLen, Room(headText, read, plan), |stream| - requestLen)
                && out == if head.served then [(headText, stream[requestLen..requestLen + consumed])] else []
    {
      out := [];
      if head.served {
        var body := HandleRequest(stream);
        out := [(headText, body)];
      }
    }

    /** memmove(buf, buf + discard, dataLen - discard). */
    method ShiftDown(discard: nat)
      requires Valid() && discard <= dataLen
      modifies buf
      ensures forall i :: 0 <= i < dataLen - discard ==> buf[i] == old(buf[i + discard])
    {
      for k := 0 to dataLen - discard
        invariant forall i :: 0 <= i < k ==> buf[i] == old(buf[i + discard])
        invariant forall i :: k <= i < buf.Length ==> buf[i] == old(buf[i])
      {
        buf[k] := buf[k + discard];
      }
    }

    /** Drops the request from the front of the buffer. */
    method Discard(ghost stream: seq<byte>)
      requires Valid() && requestLen <= dataLen
      modifies this`dataLen, buf
      ensures Valid() && dataLen <= old(dataLen)
      ensures requestLen > 0 ==> dataLen < old(dataLen)
      ensures old(InTurn(stream)) && contentLen >= 0 ==>
                Pending() == LeftOver(stream, requestLen, old(dataLen), contentLen, consumed)
    {
      var discard := if contentLen >= 0 && requestLen > 0 && requestLen + contentLen < dataLen
        then requestLen + contentLen else dataLen;
      ShiftDown(discard);
      dataLen := dataLen - discard;
      if old(InTurn(stream)) && contentLen >= 0 {
        assert buf[..dataLen] == stream[discard..discard + dataLen];
      }
    }

    /** Reads the next request and hands it out. */
    method TakeRequest() returns (ok: bool, out: seq<Frame>)
      requires Valid()
      modifies this, buf, sock
      ensures Valid() && (old(sock.failed) ==> sock.failed) && requestLen <= dataLen
      ensures |Pending()| <= |old(Pending())|
      ensures if ok then head.ok && !mustClose && 0 < requestLen else mustClose
      ensures !sock.failed ==>
                var stream := old(Pending());
                && ok == Starts(stream, buf.Length, read)
                && out == HandedOut(stream, buf.Length, read, plan)
                && (ok ==> InTurn(stream) && requestLen == HeadLen(stream, buf.Length) && head == read(stream[..requestLen])
                           && contentLen == ContentLen(head) && consumed == Consumed(stream, buf.Length, read, plan))
    {
      ghost var stream := Pending();
      out := [];
      ok := GetReq();
      if !ok {
        mustClose := true;
      } else {
        out := HandOut(stream);
      }
    }

    /** One turn of the connection's loop: the frame handed out, if any, and whether
        to go on. */
    method Serve() returns (turn: (seq<Frame>, bool), ghost t: Turn)
      requires Valid()
      modifies this, buf, sock
      ensures Valid() && (old(sock.failed) ==> sock.failed)
      ensures |Pending()| <= |old(Pending())| && (turn.1 ==> |Pending()| < |old(Pending())|)
      ensures !sock.failed ==>
                && t.pending == old(Pending()) && IsTurn(t, buf.Length, read, plan)
                && turn == (HandedOut(t.pending, buf.Length, read, plan), GoesOn(t.pending, buf.Length, read))
                && (turn.1 ==> Pending() == After(t, buf.Length, read))
    {
      ghost var stream := Pending();
      var ok, out := TakeRequest();
      t := Turn(stream, dataLen, consumed);
      var stopped := sock.Stopped();
      var keepAlive := !stopped && contentLen >= 0 && !mustClose && head.keepAlive;
      Discard(stream);
      turn := (out, keepAlive);
    }

    lemma {:induction false} PipelinesAreHanded(log: seq<Turn>, stream: seq<byte>)
      requires IsLog(log, stream, buf.Length, read, plan)
      ensures forall requests :: stream == Stream(requests) && AllWelcome(requests, buf.Length, read, plan) ==>
                Handed(log, buf.Length, read, plan) == requests
    {
      forall requests | stream == Stream(requests) && AllWelcome(requests, buf.Length, read, plan)
        ensures Handed(log, buf.Length, read, plan) == requests
      {
        PipelineIsHanded(log, requests, buf.Length, read, plan);
      }
    }

    /** Serves a connection. Unless a read failed, the turns it took are those of some way
        of chunking the stream, and what it handed out is what they hand out. So if every
        body but the last was buffered or consumed, that is a function of the stream
        alone; and if the bodies fit what they are read into, it is every request sent. In particular
        well-formed requests sent back to back are handed out as they were sent. */
    method ProcessNewConnection() returns (handed: seq<Frame>, ghost log: seq<Turn>)
      requires Valid()
      modifies this, buf, sock
      ensures Valid()
      ensures !sock.failed ==>
                && IsLog(log, old(sock.unread), buf.Length, read, plan)
                && handed == Handed(log, buf.Length, read, plan)
      ensures !sock.failed && AlwaysTaken(log, buf.Length, read) ==>
                handed == Service(old(sock.unread), buf.Length, read, plan)
      ensures !sock.failed && TakesWholeBodies(old(sock.unread), buf.Length, read, plan) ==>
                handed == Frames(old(sock.unread), buf.Length, read)
      ensures !sock.failed ==>
                forall requests :: old(sock.unread) == Stream(requests) && AllWelcome(requests, buf.Length, read, plan) ==>
                  handed == requests
    {
      handed, log := [], [];
      var keepAlive := true;
      dataLen := 0;
      ghost var all := sock.unread;
      assert Pending() == all;
      while keepAlive
        invariant Valid()
        invariant !sock.failed ==> handed == Handed(log, buf.Length, read, plan)
        invariant !sock.failed && keepAlive ==> Leads(log, all, Pending(), buf.Length, read, plan)
        invariant !sock.failed && !keepAlive ==> IsLog(log, all, buf.Length, read, plan)
        decreases |Pending()| + if keepAlive then 1 else 0
      {
        var more;
        ghost var t;
        more, t := Serve();
        if !sock.failed {
          HandedMore(log, t, buf.Length, read, plan);
          if more.1 { LeadsOn(log, t, all, buf.Length, read, plan); } else { LeadsToEnd(log, t, all, buf.Length, read, plan); }
        }
        log := log + [t];
        handed := handed + more.0;
        keepAlive := more.1;
      }
      if !sock.failed {
        HandedExactly(log, all, buf.Length, read, plan);
        PipelinesAreHanded(log, all);
      }
    }
  }

  lemma {:induction false} SumLast(ns: seq<nat>, i: nat)
    requires i < |ns|
    ensures Sum(ns[..i + 1]) == Sum(ns[..i]) + ns[i]
  {
    if i == 0 {
      assert ns[..1] == [ns[0]] && ns[..1][1..] == [];
    } else {
      assert ns[..i + 1][1..] == ns[1..][..i] && ns[..i][1..] == ns[1..][..i - 1];
      SumLast(ns[1..], i - 1);
    }
  }
}
