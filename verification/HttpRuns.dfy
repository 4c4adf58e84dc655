/** Whole connections: the turns a stream is served in, as it can arrive in any chunks. */
module HttpRuns {
  import opened Octets
  import opened HttpFraming

  function Sum(ns: seq<nat>): nat {
    if ns == [] then 0 else ns[0] + Sum(ns[1..])
  }

  /** How much of a body of length L comes out of buffers of total size s, if only
      `avail` bytes ever arrive. */
  function Taken(L: int, s: nat, avail: nat): nat {
    Min(Max(Min(L, s), 0), avail)
  }

  /** The total size of the buffers a request's body is read into: those planned for its
      head, or none if the request is refused before it is handed out. */
  function Room(text: seq<byte>, read: seq<byte> -> Head, plan: seq<byte> -> seq<nat>): nat {
    if read(text).served then Sum(plan(text)) else 0
  }

  /** The bytes of its body that are read. */
  function Consumed(stream: seq<byte>, cap: nat, read: seq<byte> -> Head, plan: seq<byte> -> seq<nat>): nat
    requires Starts(stream, cap, read)
  {
    var r := HeadLen(stream, cap);
    Taken(ContentLen(read(stream[..r])), Room(stream[..r], read, plan), |stream| - r)
  }

  /** What one turn hands out: the head, and as much of the body as is read. */
  function HandedOut(stream: seq<byte>, cap: nat, read: seq<byte> -> Head, plan: seq<byte> -> seq<nat>): seq<Frame> {
    if Starts(stream, cap, read) && read(stream[..HeadLen(stream, cap)]).served then
      var r := HeadLen(stream, cap);
      [(stream[..r], stream[r..r + Consumed(stream, cap, read, plan)])]
    else []
  }

  /** The suffixes of a stream at which its requests begin. */
  function Cuts(stream: seq<byte>, cap: nat, read: seq<byte> -> Head): (cuts: seq<seq<byte>>)
    ensures cuts != [] && cuts[0] == stream
    decreases |stream|
  {
    [stream] + if GoesOn(stream, cap, read) then Cuts(Rest(stream, cap, read), cap, read) else []
  }

  /** One turn of a connection: what was to come when it began, how much of that was in
      the buffer when the head had been read, and how much of the body was consumed. */
  datatype Turn = Turn(pending: seq<byte>, buffered: nat, consumed: nat)

  /** What the next turn will find. */
  function After(t: Turn, cap: nat, read: seq<byte> -> Head): seq<byte>
    requires GoesOn(t.pending, cap, read) && HeadLen(t.pending, cap) <= t.buffered <= |t.pending|
    requires HeadLen(t.pending, cap) + t.consumed <= |t.pending|
  {
    var r := HeadLen(t.pending, cap);
    LeftOver(t.pending, r, t.buffered, ContentLen(read(t.pending[..r])), t.consumed)
  }

  /** A turn as it can happen: how much is buffered is up to the network. */
  ghost predicate IsTurn(t: Turn, cap: nat, read: seq<byte> -> Head, plan: seq<byte> -> seq<nat>) {
    Starts(t.pending, cap, read) ==>
      && HeadLen(t.pending, cap) <= t.buffered <= Min(|t.pending|, cap)
      && t.consumed == Consumed(t.pending, cap, read, plan)
  }

  /** A whole connection on a stream, turn by turn. */
  ghost predicate IsLog(log: seq<Turn>, stream: seq<byte>, cap: nat, read: seq<byte> -> Head, plan: seq<byte> -> seq<nat>)
  {
    && log != [] && log[0].pending == stream
    && IsTurn(log[0], cap, read, plan)
    && (GoesOn(stream, cap, read) <==> |log| > 1)
    && (|log| > 1 ==> IsLog(log[1..], After(log[0], cap, read), cap, read, plan))
  }

  /** The turns of a connection so far, all of which went on; `now` is what is to come. */
  ghost predicate Leads(log: seq<Turn>, stream: seq<byte>, now: seq<byte>, cap: nat, read: seq<byte> -> Head,
                        plan: seq<byte> -> seq<nat>)
  {
    if log == [] then now == stream
    else
      && log[0].pending == stream && IsTurn(log[0], cap, read, plan) && GoesOn(stream, cap, read)
      && Leads(log[1..], After(log[0], cap, read), now, cap, read, plan)
  }

  lemma {:induction false} LeadsOn(log: seq<Turn>, t: Turn, stream: seq<byte>, cap: nat, read: seq<byte> -> Head,
                                   plan: seq<byte> -> seq<nat>)
    requires Leads(log, stream, t.pending, cap, read, plan) && IsTurn(t, cap, read, plan) && GoesOn(t.pending, cap, read)
    ensures Leads(log + [t], stream, After(t, cap, read), cap, read, plan)
  {
    if log == [] {
      assert [] + [t] == [t] && [t][1..] == [];
    } else {
      assert (log + [t])[1..] == log[1..] + [t];
      LeadsOn(log[1..], t, After(log[0], cap, read), cap, read, plan);
    }
  }

  lemma {:induction false} LeadsToEnd(log: seq<Turn>, t: Turn, stream: seq<byte>, cap: nat, read: seq<byte> -> Head,
                                      plan: seq<byte> -> seq<nat>)
    requires Leads(log, stream, t.pending, cap, read, plan) && IsTurn(t, cap, read, plan) && !GoesOn(t.pending, cap, read)
    ensures IsLog(log + [t], stream, cap, read, plan)
  {
    if log == [] {
      assert [] + [t] == [t];
    } else {
      assert (log + [t])[1..] == log[1..] + [t];
      LeadsToEnd(log[1..], t, After(log[0], cap, read), cap, read, plan);
    }
  }

  /** All that was handed out. */
  function Handed(log: seq<Turn>, cap: nat, read: seq<byte> -> Head, plan: seq<byte> -> seq<nat>): seq<Frame> {
    if log == [] then [] else HandedOut(log[0].pending, cap, read, plan) + Handed(log[1..], cap, read, plan)
  }

  lemma {:induction false} HandedMore(log: seq<Turn>, t: Turn, cap: nat, read: seq<byte> -> Head, plan: seq<byte> -> seq<nat>)
    ensures Handed(log + [t], cap, read, plan) == Handed(log, cap, read, plan) + HandedOut(t.pending, cap, read, plan)
  {
    if log == [] {
      assert [] + [t] == [t] && [t][1..] == [];
    } else {
      assert (log + [t])[1..] == log[1..] + [t];
      HandedMore(log[1..], t, cap, read, plan);
    }
  }

  function Pendings(log: seq<Turn>): seq<seq<byte>> {
    if log == [] then [] else [log[0].pending] + Pendings(log[1..])
  }

  /** The body was wholly in the buffer or wholly consumed, or the stream has run dry. */
  ghost predicate BodyTaken(t: Turn, cap: nat, read: seq<byte> -> Head) {
    var r := HeadLen(t.pending, cap);
    0 <= r <= |t.pending| &&
    var L := ContentLen(read(t.pending[..r]));
    L <= t.buffered - r || L == t.consumed || Max(t.buffered, r + t.consumed) == |t.pending|
  }

  /** Every turn but the last left nothing of its body behind. */
  ghost predicate AlwaysTaken(log: seq<Turn>, cap: nat, read: seq<byte> -> Head) {
    forall k :: 0 <= k < |log| - 1 ==> BodyTaken(log[k], cap, read)
  }

  lemma {:induction false} FirstTurnTaken(log: seq<Turn>, stream: seq<byte>, cap: nat, read: seq<byte> -> Head,
                                          plan: seq<byte> -> seq<nat>)
    requires IsLog(log, stream, cap, read, plan) && |log| > 1
    ensures After(log[0], cap, read) == Rest(stream, cap, read) <==> BodyTaken(log[0], cap, read)
    ensures AlwaysTaken(log, cap, read) <==> BodyTaken(log[0], cap, read) && AlwaysTaken(log[1..], cap, read)
  {
    var t := log[0];
    var r := HeadLen(stream, cap);
    InStepExactly(stream, r, t.buffered, ContentLen(read(stream[..r])), t.consumed);
    assert forall k :: 1 <= k < |log| ==> log[k] == log[1..][k - 1];
  }

  /** Over a whole connection, every turn begins where a request of the stream begins if
      and only if every turn that went on had its body wholly buffered or consumed. */
  lemma {:induction false} InStepThroughout(log: seq<Turn>, stream: seq<byte>, cap: nat, read: seq<byte> -> Head,
                                            plan: seq<byte> -> seq<nat>)
    requires IsLog(log, stream, cap, read, plan)
    ensures Pendings(log) == Cuts(stream, cap, read) <==> AlwaysTaken(log, cap, read)
  {
    if |log| > 1 {
      var next := After(log[0], cap, read);
      FirstTurnTaken(log, stream, cap, read, plan);
      InStepThroughout(log[1..], next, cap, read, plan);
      var rest := Rest(stream, cap, read);
      assert Pendings(log)[1..] == Pendings(log[1..]) && Cuts(stream, cap, read)[1..] == Cuts(rest, cap, read);
      assert Pendings(log[1..])[0] == next && Cuts(rest, cap, read)[0] == rest;
    }
  }

  /** What is handed out when every turn begins where a request begins. */
  function Service(stream: seq<byte>, cap: nat, read: seq<byte> -> Head, plan: seq<byte> -> seq<nat>): seq<Frame>
    decreases |stream|
  {
    HandedOut(stream, cap, read, plan) +
    if GoesOn(stream, cap, read) then Service(Rest(stream, cap, read), cap, read, plan) else []
  }

  /** In step, what is handed out is a function of the stream alone, however it arrived. */
  lemma {:induction false} HandedInStep(log: seq<Turn>, stream: seq<byte>, cap: nat, read: seq<byte> -> Head,
                                        plan: seq<byte> -> seq<nat>)
    requires IsLog(log, stream, cap, read, plan) && AlwaysTaken(log, cap, read)
    ensures Handed(log, cap, read, plan) == Service(stream, cap, read, plan)
  {
    if |log| > 1 {
      FirstTurnTaken(log, stream, cap, read, plan);
      HandedInStep(log[1..], Rest(stream, cap, read), cap, read, plan);
    }
  }

  /** The first request's body is no longer than what it is read into, or than what
      ever arrives of it is. */
  predicate BodyFits(stream: seq<byte>, cap: nat, read: seq<byte> -> Head, plan: seq<byte> -> seq<nat>)
    requires Starts(stream, cap, read)
  {
    var r := HeadLen(stream, cap);
    Min(ContentLen(read(stream[..r])), |stream| - r) <= Room(stream[..r], read, plan)
  }

  /** Along the requests of a stream, the body of each one that is not the last fits. */
  predicate StaysInStep(stream: seq<byte>, cap: nat, read: seq<byte> -> Head, plan: seq<byte> -> seq<nat>)
    decreases |stream|
  {
    GoesOn(stream, cap, read) ==>
      BodyFits(stream, cap, read, plan) && StaysInStep(Rest(stream, cap, read), cap, read, plan)
  }

  /** A body that fits is taken however much of it was buffered; one that does not is left
      behind when only the head was. */
  lemma {:induction false} FitsExactly(stream: seq<byte>, d: nat, cap: nat, read: seq<byte> -> Head, plan: seq<byte> -> seq<nat>)
    requires Starts(stream, cap, read) && HeadLen(stream, cap) <= d <= Min(|stream|, cap)
    ensures var t := Turn(stream, d, Consumed(stream, cap, read, plan));
            && (BodyFits(stream, cap, read, plan) ==> BodyTaken(t, cap, read))
            && (d == HeadLen(stream, cap) ==> (BodyTaken(t, cap, read) <==> BodyFits(stream, cap, read, plan)))
  {
  }

  /** The connection that buffers no more than each head. */
  lemma {:induction false} SomeLog(stream: seq<byte>, cap: nat, read: seq<byte> -> Head, plan: seq<byte> -> seq<nat>)
    returns (log: seq<Turn>)
    ensures IsLog(log, stream, cap, read, plan)
    ensures !StaysInStep(stream, cap, read, plan) ==> !AlwaysTaken(log, cap, read)
    decreases |stream|
  {
    if !Starts(stream, cap, read) {
      log := [Turn(stream, 0, 0)];
      return;
    }
    var t := Turn(stream, HeadLen(stream, cap), Consumed(stream, cap, read, plan));
    if GoesOn(stream, cap, read) {
      ShorterAfter(t, cap, read, plan);
      var later := SomeLog(After(t, cap, read), cap, read, plan);
      log := [t] + later;
      assert log[1..] == later;
      FirstTurnTaken(log, stream, cap, read, plan);
      FitsExactly(stream, t.buffered, cap, read, plan);
    } else {
      log := [t];
    }
  }

  lemma {:induction false} ShorterAfter(t: Turn, cap: nat, read: seq<byte> -> Head, plan: seq<byte> -> seq<nat>)
    requires GoesOn(t.pending, cap, read) && IsTurn(t, cap, read, plan)
    ensures |After(t, cap, read)| < |t.pending|
  {
  }

  /** A stream is cut at its requests however it arrives if and only if the bodies along
      it fit. */
  lemma {:induction false} InStepHoweverItArrives(stream: seq<byte>, cap: nat, read: seq<byte> -> Head,
                                                  plan: seq<byte> -> seq<nat>)
    ensures StaysInStep(stream, cap, read, plan) <==>
            forall log :: IsLog(log, stream, cap, read, plan) ==> Pendings(log) == Cuts(stream, cap, read)
  {
    if StaysInStep(stream, cap, read, plan) {
      forall log | IsLog(log, stream, cap, read, plan) ensures Pendings(log) == Cuts(stream, cap, read) {
        FittingIsTaken(log, stream, cap, read, plan);
        InStepThroughout(log, stream, cap, read, plan);
      }
    } else {
      var log := SomeLog(stream, cap, read, plan);
      InStepThroughout(log, stream, cap, read, plan);
    }
  }

  lemma {:induction false} FittingIsTaken(log: seq<Turn>, stream: seq<byte>, cap: nat, read: seq<byte> -> Head,
                                          plan: seq<byte> -> seq<nat>)
    requires IsLog(log, stream, cap, read, plan) && StaysInStep(stream, cap, read, plan)
    ensures AlwaysTaken(log, cap, read)
  {
    if |log| > 1 {
      FirstTurnTaken(log, stream, cap, read, plan);
      FitsExactly(stream, log[0].buffered, cap, read, plan);
      FittingIsTaken(log[1..], Rest(stream, cap, read), cap, read, plan);
    }
  }

  /** Along the requests of a stream, every body that is handed out or not the last fits. */
  predicate TakesWholeBodies(stream: seq<byte>, cap: nat, read: seq<byte> -> Head, plan: seq<byte> -> seq<nat>)
    decreases |stream|
  {
    Starts(stream, cap, read) ==>
      && (read(stream[..HeadLen(stream, cap)]).served ==> BodyFits(stream, cap, read, plan))
      && (GoesOn(stream, cap, read) ==>
            BodyFits(stream, cap, read, plan) && TakesWholeBodies(Rest(stream, cap, read), cap, read, plan))
  }

  /** Then the stream stays in step, and the bodies handed out are those that were sent. */
  lemma {:induction false} WholeBodies(stream: seq<byte>, cap: nat, read: seq<byte> -> Head, plan: seq<byte> -> seq<nat>)
    requires TakesWholeBodies(stream, cap, read, plan)
    ensures StaysInStep(stream, cap, read, plan)
    ensures Service(stream, cap, read, plan) == Frames(stream, cap, read)
    decreases |stream|
  {
    if GoesOn(stream, cap, read) { WholeBodies(Rest(stream, cap, read), cap, read, plan); }
  }

  /** What a connection hands out, if no body was left behind, and if all bodies fit. */
  lemma {:induction false} HandedExactly(log: seq<Turn>, stream: seq<byte>, cap: nat, read: seq<byte> -> Head,
                                         plan: seq<byte> -> seq<nat>)
    requires IsLog(log, stream, cap, read, plan)
    ensures AlwaysTaken(log, cap, read) ==> Handed(log, cap, read, plan) == Service(stream, cap, read, plan)
    ensures TakesWholeBodies(stream, cap, read, plan) ==>
              AlwaysTaken(log, cap, read) && Handed(log, cap, read, plan) == Frames(stream, cap, read)
  {
    if TakesWholeBodies(stream, cap, read, plan) {
      WholeBodies(stream, cap, read, plan);
      FittingIsTaken(log, stream, cap, read, plan);
    }
    if AlwaysTaken(log, cap, read) { HandedInStep(log, stream, cap, read, plan); }
  }

  /** A head after which the connection lives on: it wants to, and where its body ends is
      known, by a length that is not negative or because there can be no body. */
  ghost predicate LivesOn(h: Head) {
    && h.ok && h.keepAlive
    && match h.contentLength
       case Some(n) => n >= 0
       case None => !h.hasBody
  }

  /** A turn is the last exactly when no head can be read there, or one after which the
      connection is not to live on: one that does not keep it alive, and a POST or PUT that
      does not say how long it is, among them. */
  lemma {:induction false} LastTurnExactly(log: seq<Turn>, k: nat, stream: seq<byte>, cap: nat, read: seq<byte> -> Head,
                                           plan: seq<byte> -> seq<nat>)
    requires IsLog(log, stream, cap, read, plan) && k < |log|
    ensures var p := log[k].pending;
            k == |log| - 1 <==> HeadLen(p, cap) <= 0 || !LivesOn(read(p[..HeadLen(p, cap)]))
  {
    if k > 0 { LastTurnExactly(log[1..], k - 1, After(log[0], cap, read), cap, read, plan); }
  }

  /** Whatever is handed out came with a head that was not refused. */
  lemma {:induction false} NothingRefusedIsHanded(log: seq<Turn>, cap: nat, read: seq<byte> -> Head, plan: seq<byte> -> seq<nat>)
    ensures forall q :: q in Handed(log, cap, read, plan) ==> read(q.0).ok && read(q.0).served
  {
    if log != [] { NothingRefusedIsHanded(log[1..], cap, read, plan); }
  }

  /** Requests as they should be sent, to an application that makes room for their bodies. */
  ghost predicate AllWelcome(requests: seq<Frame>, cap: nat, read: seq<byte> -> Head, plan: seq<byte> -> seq<nat>) {
    forall q :: q in requests ==> WellFormed(q, cap, read) && |q.1| <= Sum(plan(q.0))
  }

  lemma {:induction false} WelcomeTaken(requests: seq<Frame>, cap: nat, read: seq<byte> -> Head, plan: seq<byte> -> seq<nat>)
    requires AllWelcome(requests, cap, read, plan)
    ensures TakesWholeBodies(Stream(requests), cap, read, plan)
  {
    if requests == [] {
      assert HeadLen(Stream(requests), cap) == 0;
    } else {
      assert requests[0] in requests;
      FirstRequest(requests[0], Stream(requests[1..]), cap, read);
      WelcomeTaken(requests[1..], cap, read, plan);
    }
  }

  /** Such requests, sent back to back, are handed out as they were sent, one for one and in
      order, however the bytes arrive. */
  lemma {:induction false} PipelineIsHanded(log: seq<Turn>, requests: seq<Frame>, cap: nat, read: seq<byte> -> Head,
                                            plan: seq<byte> -> seq<nat>)
    requires AllWelcome(requests, cap, read, plan)
    requires IsLog(log, Stream(requests), cap, read, plan)
    ensures Handed(log, cap, read, plan) == requests && |log| == |requests| + 1
    ensures forall k :: 0 <= k < |requests| ==> log[k].pending == Stream(requests[k..])
  {
    WelcomeTaken(requests, cap, read, plan);
    HandedExactly(log, Stream(requests), cap, read, plan);
    FramesOfStream(requests, cap, read);
    TurnsOfPipeline(log, requests, cap, read, plan);
  }

  /** One turn for each request, and one that finds the stream at its end. */
  lemma {:induction false} TurnsOfPipeline(log: seq<Turn>, requests: seq<Frame>, cap: nat, read: seq<byte> -> Head,
                                           plan: seq<byte> -> seq<nat>)
    requires AllWelcome(requests, cap, read, plan)
    requires IsLog(log, Stream(requests), cap, read, plan) && AlwaysTaken(log, cap, read)
    ensures |log| == |requests| + 1
    ensures forall k :: 0 <= k < |requests| ==> log[k].pending == Stream(requests[k..])
  {
    if requests == [] {
      assert HeadLen(Stream(requests), cap) == 0;
    } else {
      var rest := requests[1..];
      assert requests[0] in requests;
      FirstRequest(requests[0], Stream(rest), cap, read);
      FirstTurnTaken(log, Stream(requests), cap, read, plan);
      TurnsOfPipeline(log[1..], rest, cap, read, plan);
      forall k | 0 <= k < |requests| ensures log[k].pending == Stream(requests[k..]) {
        if k == 0 { assert requests[0..] == requests; }
        else { assert log[k] == log[1..][k - 1] && requests[k..] == rest[k - 1..]; }
      }
    }
  }
}
