/** The receiving half of kc_dmn_send_data, and what a client gets through the bridge. */
module Client {
  import opened Prelude
  import opened Framing
  import opened Bridge

  /** The growing response buffer of kc_dmn_append. */
  class Response {
    var data: array<byte>
    var size: nat

    ghost predicate Valid()
      reads this
    {
      size <= data.Length && size <= SIZE_MAX
    }

    ghost function Contents(): seq<byte>
      requires Valid()
      reads this, data
    {
      data[..size]
    }

    constructor ()
      ensures Valid() && Contents() == [] && fresh(data)
    {
      data := new byte[0];
      size := 0;
    }

    /** The capacity doubles from 256 until it suffices, or is exact when doubling would overflow. */
    method Capacity(needed: nat) returns (cap: nat)
      requires needed <= SIZE_MAX
      ensures needed <= cap
    {
      cap := if data.Length != 0 then data.Length else 256;
      while cap < needed
        invariant cap > 0
        decreases needed - cap
      {
        if cap > SIZE_MAX / 2 {
          return needed;
        }
        cap := cap * 2;
      }
    }

    /** kc_dmn_append fails only when the size would leave `size_t`. */
    method Append(chunk: seq<byte>) returns (ok: bool)
      requires Valid()
      modifies this, data
      ensures Valid() && (data == old(data) || fresh(data))
      ensures ok <==> |old(Contents())| + |chunk| <= SIZE_MAX
      ensures Contents() == if ok then old(Contents()) + chunk else old(Contents())
    {
      if |chunk| == 0 {
        return true;
      }
      if size > SIZE_MAX - |chunk| {
        return false;
      }
      var needed := size + |chunk|;
      ghost var before := Contents();
      if needed > data.Length {
        var cap := Capacity(needed);
        var next := new byte[cap];
        forall i | 0 <= i < size {
          next[i] := data[i];
        }
        data := next;
      }
      assert data[..size] == before;
      forall i | 0 <= i < |chunk| {
        data[size + i] := chunk[i];
      }
      size := needed;
      assert data[..size] == before + chunk;
      return true;
    }
  }

  /** What the exchange returns; Blocked while the next read has not returned. */
  datatype Reply = Blocked | Error | Payload(bytes: seq<byte>)

  /** The octets that arrive before the reads end, and how they end. */
  function Arrived(inputs: seq<Io>): seq<byte> {
    if |inputs| == 0 || !inputs[0].Data? then [] else inputs[0].bytes + Arrived(inputs[1..])
  }

  function Ending(inputs: seq<Io>): Option<Io> {
    if |inputs| == 0 then None else if !inputs[0].Data? then Some(inputs[0]) else Ending(inputs[1..])
  }

  /** What of an arrived stream goes into the response. */
  ghost function Emitted(stream: seq<byte>, ending: Option<Io>, eot: seq<byte>): seq<byte>
    requires eot != []
  {
    if !Free(stream, eot) || ending == Some(Eof) then Before(stream, eot) else Settled(stream, eot)
  }

  /** The reply as a function of the arrived stream alone: no trace of how it was cut into chunks. */
  ghost function ReplyTo(stream: seq<byte>, ending: Option<Io>, eot: seq<byte>): Reply
    requires eot != []
  {
    if |Emitted(stream, ending, eot)| > SIZE_MAX then Error
    else if !Free(stream, eot) || ending == Some(Eof) then Payload(Before(stream, eot))
    else if ending == Some(Failed) then Error
    else Blocked
  }

  lemma EmittedGrows(seen: seq<byte>, rest: seq<byte>, ending: Option<Io>, eot: seq<byte>)
    requires eot != [] && Free(seen, eot)
    ensures |Settled(seen, eot)| <= |Emitted(seen + rest, ending, eot)|
  {
    SettledIsBefore(seen, rest, eot);
  }

  /** One chunk: the new response, or None when the loop is over. */
  method Take(response: Response, pending: seq<byte>, chunk: seq<byte>, eot: seq<byte>, ghost seen: seq<byte>)
    returns (ok: bool, done: bool, pending': seq<byte>)
    requires response.Valid() && eot != [] && Free(seen, eot)
    requires response.Contents() == Settled(seen, eot) && pending == Tail(seen, eot)
    modifies response, response.data
    ensures response.Valid() && (response.data == old(response.data) || fresh(response.data))
    ensures done <==> !Free(seen + chunk, eot)
    ensures var part := if done then Before(seen + chunk, eot) else Settled(seen + chunk, eot);
            (ok <==> |part| <= SIZE_MAX) && (ok ==> response.Contents() == part)
    ensures ok && !done ==> pending' == Tail(seen + chunk, eot)
  {
    ScanStep(seen, chunk, eot);
    hide At, FirstAt, Tail, Free;
    var joined := pending + chunk;
    ghost var stream, settled := seen + chunk, response.Contents();
    pending' := [];
    var marker := FindBytes(joined, eot);
    if marker.Some? {
      assert stream[..|settled| + marker.value] == settled + joined[..marker.value];
      ok, done := true, true;
      if marker.value > 0 {
        ok := response.Append(joined[..marker.value]);
      }
      return;
    }
    done := false;
    var keep := KeepLength(|joined|, eot);
    var emit := |joined| - keep;
    KeepIsTail(joined, eot, keep);
    ok := true;
    if emit > 0 {
      ok := response.Append(joined[..emit]);
    }
    pending' := joined[emit..];
  }

  lemma KeepIsTail(joined: seq<byte>, eot: seq<byte>, keep: nat)
    requires eot != [] && keep == TailLength(|joined|, eot)
    ensures joined[|joined| - keep..] == Tail(joined, eot) && joined[..|joined| - keep] == Settled(joined, eot)
  {
  }

  /** The receive loop of kc_dmn_send_data over the reads of the transport; an empty marker is an error. */
  method Receive(eot: seq<byte>, inputs: seq<Io>) returns (reply: Reply)
    ensures reply == if eot == [] then Error else ReplyTo(Arrived(inputs), Ending(inputs), eot)
  {
    if |eot| == 0 {
      return Error;
    }
    reply := ReceiveWith(eot, inputs);
  }

  /** The loop itself. */
  method ReceiveWith(eot: seq<byte>, inputs: seq<Io>) returns (reply: Reply)
    requires eot != []
    ensures reply == ReplyTo(Arrived(inputs), Ending(inputs), eot)
  {
    hide At, FirstAt, Tail, Free, Settled, Emitted;
    var response := new Response();
    var pending: seq<byte> := [];
    ghost var seen: seq<byte> := [];
    NothingSeen(eot);
    var i := 0;
    assert inputs[0..] == inputs;
    while i < |inputs|
      invariant 0 <= i <= |inputs| && response.Valid() && fresh(response) && fresh(response.data)
      invariant Free(seen, eot) && response.Contents() == Settled(seen, eot) && pending == Tail(seen, eot)
      invariant Arrived(inputs) == seen + Arrived(inputs[i..]) && Ending(inputs) == Ending(inputs[i..])
    {
      var io := inputs[i];
      assert inputs[i..][1..] == inputs[i + 1..];
      if !io.Data? {
        assert Arrived(inputs) == seen;
        EmittedAtEnd(seen, io, eot);
        reply := Finish(response, pending, io, eot, seen);
        return;
      }
      ghost var rest := Arrived(inputs[i + 1..]);
      assert seen + (io.bytes + rest) == seen + io.bytes + rest;
      var ok, done;
      ok, done, pending := Take(response, pending, io.bytes, eot, seen);
      seen := seen + io.bytes;
      if done {
        FirstStays(seen, rest, eot);
        EmittedDone(seen, rest, Ending(inputs), eot);
        return if ok then Payload(response.data[..response.size]) else Error;
      }
      EmittedGrows(seen, rest, Ending(inputs), eot);
      if !ok {
        return Error;
      }
      i := i + 1;
    }
    assert Arrived(inputs) == seen;
    EmittedOpen(seen, eot);
    return Blocked;
  }

  lemma NothingSeen(eot: seq<byte>)
    requires eot != []
    ensures Free([], eot) && Settled([], eot) == [] && Tail([], eot) == []
  {
  }

  lemma EmittedAtEnd(seen: seq<byte>, io: Io, eot: seq<byte>)
    requires eot != [] && Free(seen, eot) && !io.Data?
    ensures Emitted(seen, Some(io), eot) == if io.Eof? then seen else Settled(seen, eot)
  {
  }

  lemma EmittedOpen(seen: seq<byte>, eot: seq<byte>)
    requires eot != [] && Free(seen, eot)
    ensures Emitted(seen, None, eot) == Settled(seen, eot)
  {
  }

  lemma EmittedDone(seen: seq<byte>, rest: seq<byte>, ending: Option<Io>, eot: seq<byte>)
    requires eot != [] && !Free(seen, eot)
    ensures !Free(seen + rest, eot) && Emitted(seen + rest, ending, eot) == Before(seen, eot)
  {
    FirstStays(seen, rest, eot);
  }

  /** The reads end: at end of file the pending octets complete the response. */
  method Finish(response: Response, pending: seq<byte>, io: Io, eot: seq<byte>, ghost seen: seq<byte>)
    returns (reply: Reply)
    requires response.Valid() && eot != [] && Free(seen, eot) && !io.Data?
    requires response.Contents() == Settled(seen, eot) && pending == Tail(seen, eot)
    modifies response, response.data
    ensures reply == ReplyTo(seen, Some(io), eot)
  {
    if io.Failed? {
      return Error;
    }
    var ok := true;
    if |pending| > 0 {
      ok := response.Append(pending);
    }
    return if ok then Payload(response.data[..response.size]) else Error;
  }

  /** Nothing goes wrong outside the backend: `select`, the reads from the client and all writes succeed. */
  predicate Undisturbed(e: Event) {
    match e
    case SelectFailed => false
    case FromClient(io, send) => !io.Failed? && send.Whole?
    case FromBackend(_, send) => send.Whole?
  }

  predicate BackendEnds(e: Event) {
    e.FromBackend? && !e.io.Data?
  }

  /** Undisturbed events in which the backend ends at most once, last, and a response comes or the backend ends. */
  ghost predicate Complete(events: seq<Event>, eot: seq<byte>) {
    && (forall k :: 0 <= k < |events| ==> Undisturbed(events[k]))
    && (forall k :: 0 <= k < |events| - 1 ==> !BackendEnds(events[k]))
    && (!Free(BackendSide(events), eot) || (events != [] && BackendEnds(events[|events| - 1])))
  }

  lemma {:induction false} BackendPrefix(events: seq<Event>, i: nat)
    requires i <= |events|
    ensures BackendSide(events[..i]) <= BackendSide(events)
  {
    var n := |events|;
    if i < n {
      BackendPrefix(events[..n - 1], i);
      assert events[..n - 1][..i] == events[..i];
    } else {
      assert events[..i] == events;
    }
  }

  /** Undisturbed, the loop fails only at the end of the backend. */
  lemma FailsAtEnd(events: seq<Event>, eot: seq<byte>, used: nat)
    requires eot != [] && Complete(events, eot) && Ends(events, eot, Returned1, used)
    ensures used == |events| && BackendGone(events[used - 1]) && BackendSide(events) == BackendSide(events[..used - 1])
  {
    assert Undisturbed(events[used - 1]);
    assert ReactionAt(events, used - 1, eot).Returned1?;
    assert BackendEnds(events[used - 1]);
    assert events[..|events| - 1] == events[..used - 1];
  }

  /** The loop does not wait beyond a complete exchange. */
  lemma CompleteEnds(events: seq<Event>, eot: seq<byte>)
    requires eot != [] && Complete(events, eot) && Ends(events, eot, Waiting, |events|)
    ensures !Free(BackendSide(events), eot)
  {
    if events != [] {
      assert ReactionAt(events, |events| - 1, eot).Waiting?;
    }
  }

  /** What a client gets of a backend's output. */
  ghost function ReplyOf(stream: seq<byte>, eot: seq<byte>): Reply {
    if |Before(stream, eot)| > SIZE_MAX then Error else Payload(Before(stream, eot))
  }

  /** The reply in plain words: what comes before the first marker, or everything when there is none. */
  lemma ReplyMeans(stream: seq<byte>, eot: seq<byte>, before: seq<byte>, rest: seq<byte>)
    requires eot != []
    ensures (forall i: int :: !At(stream, eot, i)) ==>
              ReplyOf(stream, eot) == if |stream| > SIZE_MAX then Error else Payload(stream)
    ensures stream == before + eot + rest && (forall i: int :: i < |before| ==> !At(stream, eot, i)) ==>
              ReplyOf(stream, eot) == if |before| > SIZE_MAX then Error else Payload(before)
  {
    if stream == before + eot + rest && forall i: int :: i < |before| ==> !At(stream, eot, i) {
      assert stream[|before|..|before| + |eot|] == eot;
      FirstUnique(stream, eot, |before|);
    }
  }

  lemma ReplyToEof(stream: seq<byte>, eot: seq<byte>)
    requires eot != []
    ensures ReplyTo(stream, Some(Eof), eot) == ReplyOf(stream, eot)
  {
  }

  /** The first marker of a prefix decides the reply of the whole. */
  lemma ReplyOfPrefix(part: seq<byte>, stream: seq<byte>, eot: seq<byte>)
    requires part <= stream && !Free(part, eot)
    ensures ReplyOf(Upto(part, eot), eot) == ReplyOf(stream, eot)
  {
    hide At, FirstAt;
    UptoEndsWithMarker(part, eot);
    FirstStays(part, stream[|part|..], eot);
    assert part + stream[|part|..] == stream;
  }

  /**
   * A whole exchange: the bridge serves the events, and the client reads what the bridge sent, cut in any
   * other way, to end of file. If the events are complete, the client gets the backend's output before its
   * first marker, or all of it when the backend ends without one.
   */
  method Exchange(eot: seq<byte>, events: seq<Event>, inputs: seq<Io>)
    returns (relay: Relay?, outcome: Outcome, reply: Reply)
    requires forall k :: 0 <= k < |events| ==> Possible(events[k])
    ensures eot == [] ==> relay == null && reply == Error
    ensures eot != [] ==> relay != null
    ensures relay != null && Arrived(inputs) == relay.toClient && Ending(inputs) == Some(Eof)
            && (outcome.Returned0? || Complete(events, eot))
            ==> reply == ReplyOf(BackendSide(events), eot)
    ensures relay != null && Complete(events, eot) ==>
              outcome == if Free(BackendSide(events), eot) then Returned1 else Returned0
  {
    hide At, FirstAt, Tail, Free, Settled, Complete, BackendSide, ReplyOf, ReplyTo, Upto;
    var used;
    relay, outcome, used := Serve(eot, events);
    reply := Receive(eot, inputs);
    if relay != null {
      BackendPrefix(events, used);
      if Ending(inputs) == Some(Eof) {
        ReplyToEof(Arrived(inputs), eot);
      }
      Concluded(events, eot, outcome, used);
      if outcome.Returned0? {
        ReplyOfPrefix(relay.fromBackend, BackendSide(events), eot);
      }
    }
  }

  /** How a loop over events ends, in terms of the whole output of the backend. */
  lemma Concluded(events: seq<Event>, eot: seq<byte>, outcome: Outcome, used: nat)
    requires eot != [] && Ends(events, eot, outcome, used)
    ensures outcome.Returned0? ==> !Free(BackendSide(events[..used]), eot) && !Free(BackendSide(events), eot)
    ensures Complete(events, eot) ==> outcome == if Free(BackendSide(events), eot) then Returned1 else Returned0
    ensures Complete(events, eot) && outcome.Returned1? ==>
              used == |events| && BackendGone(events[used - 1]) && BackendSide(events[..used]) == BackendSide(events)
  {
    WaitingIsFree(events, eot, if outcome.Waiting? then used else if used > 0 then used - 1 else 0);
    assert events[..|events|] == events;
    if outcome.Returned0? {
      ReturnedIsMarked(events, eot, used);
    } else if Complete(events, eot) {
      hide Reaction, At, FirstAt, BackendSide, Complete, Free;
      if outcome.Returned1? {
        FailsAtEnd(events, eot, used);
      } else {
        CompleteEnds(events, eot);
      }
    }
  }

  /** While the loop waits the backend has not completed a marker. */
  lemma {:induction false} WaitingIsFree(events: seq<Event>, eot: seq<byte>, n: nat)
    requires eot != [] && n <= |events| && forall k :: 0 <= k < n ==> ReactionAt(events, k, eot).Waiting?
    ensures Free(BackendSide(events[..n]), eot)
  {
    hide At;
    if n == 0 {
      NoMarker(eot);
    } else {
      WaitingIsFree(events, eot, n - 1);
      assert ReactionAt(events, n - 1, eot).Waiting?;
      SidesStep(events[..n - 1], events[n - 1], eot);
      assert events[..n] == events[..n - 1] + [events[n - 1]];
      assert BackendSide(events[..n - 1]) + [] == BackendSide(events[..n - 1]);
    }
  }

  lemma NoMarker(eot: seq<byte>)
    requires eot != []
    ensures Free(BackendSide([]), eot)
  {
  }

  lemma ReturnedIsMarked(events: seq<Event>, eot: seq<byte>, used: nat)
    requires eot != [] && 0 < used <= |events| && ReactionAt(events, used - 1, eot).Returned0?
    ensures !Free(BackendSide(events[..used]), eot) && !Free(BackendSide(events), eot)
  {
    hide At, FirstAt, ClientSide;
    SidesStep(events[..used - 1], events[used - 1], eot);
    assert events[..used] == events[..used - 1] + [events[used - 1]];
    BackendPrefix(events, used);
    var part, stream := BackendSide(events[..used]), BackendSide(events);
    FirstStays(part, stream[|part|..], eot);
    assert part + stream[|part|..] == stream;
  }
}
