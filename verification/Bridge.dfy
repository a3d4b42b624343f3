/** kc_dmn_bridge_client: relaying between one client and the resident backend until the response ends. */
module Bridge {
  import opened Prelude
  import opened Framing

  /** What `read` returned: an error, end of file, or some octets. */
  datatype Io = Failed | Eof | Data(bytes: seq<byte>)

  /** What kc_dmn_write_all did: everything, or an error after the first `sent` octets. */
  datatype Send = Whole | Broken(sent: nat)

  /**
   * What one ready descriptor brings. A `select` wake with both descriptors ready is the client event
   * followed by the backend event, the order in which the loop serves them.
   */
  datatype Event =
    | FromClient(io: Io, send: Send)
    | FromBackend(io: Io, send: Send)
    | SelectFailed

  /** How the loop stands: waiting for the next event, returned 0, or returned 1. */
  datatype Outcome = Waiting | Returned0 | Returned1

  /** A read that returns octets returns at least one. */
  predicate Possible(e: Event) {
    !e.SelectFailed? && e.io.Data? ==> e.io.bytes != []
  }

  function SentOf(data: seq<byte>, send: Send): (r: seq<byte>)
    ensures r <= data
  {
    if send.Broken? && send.sent <= |data| then data[..send.sent] else data
  }

  // ---------- the events seen from outside, with the whole history searched ----------

  /** What the client has sent so far and whether the bridge still reads from it. */
  datatype ClientView = ClientView(bytes: seq<byte>, open: bool)

  ghost function ClientSide(events: seq<Event>, eot: seq<byte>): ClientView {
    if events == [] then ClientView([], true)
    else
      var view := ClientSide(events[..|events| - 1], eot);
      var e := events[|events| - 1];
      if !e.FromClient? || !view.open then view
      else if e.io.Data? then ClientView(view.bytes + e.io.bytes, Free(view.bytes + e.io.bytes, eot))
      else if e.io.Eof? then view.(open := false)
      else view
  }

  /** What the backend has written so far. */
  ghost function BackendSide(events: seq<Event>): seq<byte> {
    if events == [] then []
    else
      var e := events[|events| - 1];
      BackendSide(events[..|events| - 1]) + if e.FromBackend? && e.io.Data? then e.io.bytes else []
  }

  /** One more event, for each side. */
  lemma SidesStep(events: seq<Event>, e: Event, eot: seq<byte>)
    ensures var view := ClientSide(events, eot);
            ClientSide(events + [e], eot)
            == if !e.FromClient? || !view.open then view
               else if e.io.Data? then ClientView(view.bytes + e.io.bytes, Free(view.bytes + e.io.bytes, eot))
               else if e.io.Eof? then view.(open := false)
               else view
    ensures BackendSide(events + [e]) == BackendSide(events) + if e.FromBackend? && e.io.Data? then e.io.bytes else []
  {
    assert (events + [e])[..|events|] == events;
  }

  /** How the loop reacts to one event after others, told from the whole histories. */
  ghost function Reaction(before: seq<Event>, e: Event, eot: seq<byte>): Outcome
    requires eot != []
  {
    match e
    case SelectFailed => Returned1
    case FromClient(io, send) =>
      if ClientSide(before, eot).open && (io.Failed? || (io.Data? && send.Broken?)) then Returned1 else Waiting
    case FromBackend(io, send) =>
      if !io.Data? then Returned1
      else
        var stream := BackendSide(before) + io.bytes;
        if !Free(stream, eot) then (if send.Whole? then Returned0 else Returned1)
        else if send.Whole? || Settled(stream, eot) == Settled(BackendSide(before), eot) then Waiting
        else Returned1
  }

  ghost function ReactionAt(events: seq<Event>, k: int, eot: seq<byte>): Outcome
    requires eot != [] && 0 <= k < |events|
  {
    Reaction(events[..k], events[k], eot)
  }

  /** The loop waits through events until one makes it return; `used` events were served. */
  ghost predicate Ends(events: seq<Event>, eot: seq<byte>, outcome: Outcome, used: nat)
    requires eot != []
  {
    && used <= |events| && (outcome.Waiting? ==> used == |events|)
    && (!outcome.Waiting? ==> used > 0 && ReactionAt(events, used - 1, eot) == outcome)
    && forall k :: 0 <= k < (if outcome.Waiting? then used else used - 1) ==> ReactionAt(events, k, eot).Waiting?
  }

  /** While the loop waits, `select` has not failed and the backend has not ended. */
  lemma WaitingMeans(events: seq<Event>, eot: seq<byte>, used: nat)
    requires eot != [] && Ends(events, eot, Waiting, used)
    ensures used == |events|
    ensures forall k :: 0 <= k < |events| ==>
              !events[k].SelectFailed? && (events[k].FromBackend? ==> events[k].io.Data?)
  {
    forall k | 0 <= k < |events|
      ensures !events[k].SelectFailed? && (events[k].FromBackend? ==> events[k].io.Data?)
    {
      assert ReactionAt(events, k, eot).Waiting?;
    }
  }

  lemma NoSides(eot: seq<byte>)
    ensures ClientSide([], eot) == ClientView([], true) && BackendSide([]) == []
  {
  }

  class Relay {
    const eot: seq<byte>
    var cliOpen: bool
    var inputOpen: bool
    var inTail: seq<byte>
    var outTail: seq<byte>
    // Everything read from and written to the two descriptors.
    ghost var fromClient: seq<byte>
    ghost var toBackend: seq<byte>
    ghost var fromBackend: seq<byte>
    ghost var toClient: seq<byte>

    /** What every step of the loop keeps. */
    ghost predicate Running()
      reads this
    {
      && eot != []
      && toBackend == fromClient
      && toClient + outTail == fromBackend
      && Free(fromBackend, eot)
      && inTail == Tail(fromClient, eot) && outTail == Tail(fromBackend, eot)
      && (cliOpen ==> Free(fromClient, eot) && inputOpen)
      && (inputOpen && !cliOpen ==> !Free(fromClient, eot))
    }

    /** The response is complete at the client. */
    ghost predicate Delivered()
      reads this
    {
      !Free(fromBackend, eot) && toClient == Upto(fromBackend, eot) && toBackend == fromClient
    }

    /** However the loop ends, both sides received a prefix of what the other sent. */
    ghost predicate Honest()
      reads this
    {
      toClient <= fromBackend && toBackend <= fromClient
    }

    lemma RunningMeans()
      requires Running()
      ensures eot != [] && Free(fromBackend, eot) && Honest()
      ensures toBackend == fromClient && toClient == Settled(fromBackend, eot)
    {
      SettledIsSent(fromBackend, toClient, outTail, eot);
    }

    constructor (eot: seq<byte>)
      requires eot != []
      ensures Running() && this.eot == eot && cliOpen && fresh(this)
      ensures fromClient == fromBackend == []
    {
      this.eot, cliOpen, inputOpen, inTail, outTail := eot, true, true, [], [];
      fromClient, toBackend, fromBackend, toClient := [], [], [], [];
    }

    /** The client descriptor is ready. */
    method OnClient(io: Io, send: Send) returns (outcome: Outcome)
      requires Running() && cliOpen && Possible(FromClient(io, send))
      modifies this
      ensures fromBackend == old(fromBackend) && toClient == old(toClient) && outTail == old(outTail)
      ensures outcome == if io.Failed? || (io.Data? && send.Broken?) then Returned1 else Waiting
      ensures outcome.Waiting? ==> Running()
      ensures Honest()
      ensures fromClient == old(fromClient) + if io.Data? then io.bytes else []
      ensures outcome.Waiting? ==> (cliOpen <==> io.Data? && Free(fromClient, eot))
      ensures outcome.Waiting? ==> (inputOpen <==> !io.Eof?)
    {
      if io.Failed? {
        return Returned1;
      }
      if io.Eof? {
        cliOpen := false;
        inputOpen := false;
        return Waiting;
      }
      var buf := io.bytes;
      ghost var before := fromClient;
      ScanStep(before, buf, eot);
      fromClient := fromClient + buf;
      if send.Broken? {
        toBackend := toBackend + SentOf(buf, send);
        return Returned1;
      }
      toBackend := toBackend + buf;
      var joined := inTail + buf;
      var marker := FindBytes(joined, eot);
      if marker.Some? {
        cliOpen := false;
      }
      var keep := KeepLength(|joined|, eot);
      inTail := joined[|joined| - keep..];
      return Waiting;
    }

    /** The marker is complete: the response goes out up to its end. */
    method Deliver(joined: seq<byte>, marker: nat, send: Send) returns (outcome: Outcome)
      requires !Free(fromBackend, eot) && toClient + joined == fromBackend && toBackend == fromClient
      requires First(fromBackend, eot) == Some(|toClient| + marker)
      modifies `toClient
      ensures toClient <= fromBackend
      ensures outcome == if send.Whole? then Returned0 else Returned1
      ensures send.Whole? ==> Delivered()
    {
      var response := joined[..marker + |eot|];
      assert toClient + response == fromBackend[..|toClient| + marker + |eot|];
      toClient := toClient + SentOf(response, send);
      return if send.Whole? then Returned0 else Returned1;
    }

    /** No marker yet: everything goes out but the octets that may begin one. */
    method Flush(joined: seq<byte>, send: Send) returns (outcome: Outcome)
      requires eot != [] && toClient + joined == fromBackend
      requires toClient + Settled(joined, eot) == Settled(fromBackend, eot)
               && Tail(joined, eot) == Tail(fromBackend, eot)
      modifies `toClient, `outTail
      ensures toClient <= fromBackend
      ensures outcome == if send.Whole? || Settled(fromBackend, eot) == old(toClient) then Waiting else Returned1
      ensures outcome.Waiting? ==> toClient + outTail == fromBackend && outTail == Tail(fromBackend, eot)
    {
      var keep := KeepLength(|joined|, eot);
      var flush := |joined| - keep;
      assert joined[..flush] == Settled(joined, eot) && joined[flush..] == Tail(joined, eot);
      if flush > 0 {
        assert |Settled(fromBackend, eot)| == |toClient| + flush;
        if send.Broken? {
          toClient := toClient + SentOf(joined[..flush], send);
          return Returned1;
        }
        toClient := toClient + joined[..flush];
      }
      outTail := joined[flush..];
      return Waiting;
    }

    /** The backend's output is ready. */
    method OnBackend(io: Io, send: Send) returns (outcome: Outcome)
      requires Running() && Possible(FromBackend(io, send))
      modifies this
      ensures fromClient == old(fromClient) && toBackend == old(toBackend)
      ensures cliOpen == old(cliOpen) && inputOpen == old(inputOpen)
      ensures Honest() && fromBackend == old(fromBackend) + if io.Data? then io.bytes else []
      ensures outcome.Returned0? <==> io.Data? && send.Whole? && !Free(fromBackend, eot)
      ensures outcome.Waiting? <==> && io.Data? && Free(fromBackend, eot)
                                    && (send.Whole? || Settled(fromBackend, eot) == old(toClient))
      ensures outcome.Waiting? ==> Running()
      ensures outcome.Returned0? ==> Delivered()
      ensures !io.Data? && send.Whole? ==> toClient == fromBackend
    {
      hide Tail, Settled, At, FirstAt;
      if !io.Data? {
        if |outTail| > 0 {
          toClient := toClient + SentOf(outTail, send);
        }
        return Returned1;
      }
      ScanStep(fromBackend, io.bytes, eot);
      SettledIsSent(fromBackend, toClient, outTail, eot);
      var joined := outTail + io.bytes;
      fromBackend := fromBackend + io.bytes;
      var marker := FindBytes(joined, eot);
      if marker.Some? {
        outcome := Deliver(joined, marker.value, send);
      } else {
        outcome := Flush(joined, send);
      }
    }
  }

  lemma SettledIsSent(stream: seq<byte>, sent: seq<byte>, tail: seq<byte>, eot: seq<byte>)
    requires eot != [] && sent + tail == stream && tail == Tail(stream, eot)
    ensures sent == Settled(stream, eot)
  {
    assert |sent| == |Settled(stream, eot)|;
    assert sent == stream[..|sent|];
  }

  /**
   * The loop over any events. Its state is a function of what the two sides have sent: markers are
   * found although only a tail of each stream is kept, and nothing is lost, invented or reordered.
   */
  method Serve(eot: seq<byte>, events: seq<Event>) returns (relay: Relay?, outcome: Outcome, used: nat)
    requires forall k :: 0 <= k < |events| ==> Possible(events[k])
    ensures relay == null <==> eot == []
    ensures relay == null ==> outcome.Returned1? && used == 0
    ensures relay != null ==>
      && fresh(relay) && relay.eot == eot && relay.Honest() && Ends(events, eot, outcome, used)
      && relay.fromBackend == BackendSide(events[..used])
      && relay.fromClient == ClientSide(events[..used], eot).bytes
      && (!outcome.Returned1? ==> relay.toBackend == relay.fromClient)
      && (outcome.Waiting? ==> relay.Running() && relay.cliOpen == ClientSide(events, eot).open)
      && (outcome.Waiting? ==> relay.toClient == Settled(relay.fromBackend, eot))
      && (outcome.Returned0? ==> relay.toClient == Upto(relay.fromBackend, eot))
      && (outcome.Returned1? && BackendGone(events[used - 1]) ==> relay.toClient == relay.fromBackend)
  {
    if |eot| == 0 {
      return null, Returned1, 0;
    }
    relay, outcome, used := ServeWith(eot, events);
  }

  /** The backend ended, and the tail kept back could be sent. */
  predicate BackendGone(e: Event) {
    e.FromBackend? && !e.io.Data? && e.send.Whole?
  }

  /** The loop itself. */
  method ServeWith(eot: seq<byte>, events: seq<Event>) returns (relay: Relay, outcome: Outcome, used: nat)
    requires eot != [] && forall k :: 0 <= k < |events| ==> Possible(events[k])
    ensures fresh(relay) && relay.eot == eot && relay.Honest() && Ends(events, eot, outcome, used)
    ensures relay.fromBackend == BackendSide(events[..used])
    ensures relay.fromClient == ClientSide(events[..used], eot).bytes
    ensures !outcome.Returned1? ==> relay.toBackend == relay.fromClient
    ensures outcome.Waiting? ==> relay.Running() && relay.cliOpen == ClientSide(events, eot).open
    ensures outcome.Waiting? ==> relay.toClient == Settled(relay.fromBackend, eot)
    ensures outcome.Returned0? ==> relay.toClient == Upto(relay.fromBackend, eot)
    ensures outcome.Returned1? && BackendGone(events[used - 1]) ==> relay.toClient == relay.fromBackend
  {
    hide Relay.Running, Relay.Honest, Free, Settled, ClientSide, BackendSide;
    relay := new Relay(eot);
    outcome, used := Waiting, 0;
    relay.RunningMeans();
    NoSides(eot);
    assert events[..0] == [];
    while used < |events|
      invariant used <= |events| && fresh(relay) && relay.eot == eot && outcome.Waiting?
      invariant relay.Running() && relay.Honest()
      invariant relay.fromBackend == BackendSide(events[..used])
      invariant ClientSide(events[..used], eot) == ClientView(relay.fromClient, relay.cliOpen)
      invariant forall k :: 0 <= k < used ==> ReactionAt(events, k, eot).Waiting?
    {
      var e := events[used];
      relay.RunningMeans();
      assert events[..used + 1] == events[..used] + [e];
      SidesStep(events[..used], e, eot);
      outcome := Dispatch(relay, e, events[..used]);
      used := used + 1;
      if !outcome.Waiting? {
        return;
      }
    }
    assert events[..|events|] == events;
    relay.RunningMeans();
  }

  /** One event of the loop, after the events `before`. */
  method Dispatch(relay: Relay, e: Event, ghost before: seq<Event>) returns (outcome: Outcome)
    requires relay.Running() && Possible(e) && relay.eot != []
    requires relay.fromBackend == BackendSide(before)
    requires ClientSide(before, relay.eot) == ClientView(relay.fromClient, relay.cliOpen)
    modifies relay
    ensures relay.Honest() && outcome == Reaction(before, e, relay.eot)
    ensures ClientSide(before + [e], relay.eot).bytes == relay.fromClient
            && BackendSide(before + [e]) == relay.fromBackend
    ensures outcome.Waiting? ==> relay.Running() && ClientSide(before + [e], relay.eot).open == relay.cliOpen
    ensures !outcome.Returned1? ==> relay.toBackend == relay.fromClient
    ensures outcome.Returned0? ==> relay.toClient == Upto(relay.fromBackend, relay.eot)
    ensures outcome.Returned1? && BackendGone(e) ==> relay.toClient == relay.fromBackend
  {
    hide Relay.Running, Relay.Honest, Free, Settled, ClientSide, BackendSide, Upto;
    relay.RunningMeans();
    SidesStep(before, e, relay.eot);
    match e {
      case SelectFailed => return Returned1;
      case FromClient(io, send) =>
        outcome := Waiting;
        if relay.cliOpen {
          outcome := relay.OnClient(io, send);
        }
      case FromBackend(io, send) =>
        outcome := relay.OnBackend(io, send);
    }
    if outcome.Waiting? {
      relay.RunningMeans();
    }
  }

  // ---------- forwarding a whole request ----------

  /** Everything the client writes, whether or not the bridge still reads it. */
  function ClientSent(events: seq<Event>): seq<byte> {
    if events == [] then []
    else
      var e := events[|events| - 1];
      ClientSent(events[..|events| - 1]) + if e.FromClient? && e.io.Data? then e.io.bytes else []
  }

  /** The client only writes: reading from it neither fails nor ends. */
  predicate ClientWrites(events: seq<Event>) {
    forall k :: 0 <= k < |events| ==> Possible(events[k]) && (events[k].FromClient? ==> events[k].io.Data?)
  }

  lemma FreeUntilTheEnd(request: seq<byte>, part: seq<byte>, eot: seq<byte>)
    requires eot != [] && part <= request && First(request, eot) == Some(|request| - |eot|)
    ensures Free(part, eot) <==> part != request
  {
    var rest := request[|part|..];
    assert request == part + rest;
    if part == request {
      assert !Free(request, eot);
    } else {
      forall i: int
        ensures !At(part, eot, i)
      {
        AtPrefix(part, rest, eot, i);
      }
    }
  }

  /** A request whose first marker ends it is read to its end, however it is cut into chunks. */
  lemma {:induction false} NothingDropped(events: seq<Event>, eot: seq<byte>, request: seq<byte>)
    requires eot != [] && ClientWrites(events) && ClientSent(events) <= request
    requires First(request, eot) == Some(|request| - |eot|)
    ensures ClientSide(events, eot) == ClientView(ClientSent(events), ClientSent(events) != request)
  {
    if events == [] {
      FreeUntilTheEnd(request, [], eot);
      assert request != [];
    } else {
      var before, e := events[..|events| - 1], events[|events| - 1];
      NothingDropped(before, eot, request);
      assert Possible(e);
      FreeUntilTheEnd(request, ClientSent(events), eot);
    }
  }

  /** The worst chunking: every octet by itself. */
  function OneByOne(s: seq<byte>): (r: seq<Event>)
    ensures |r| == |s| && ClientWrites(r)
    ensures forall k :: 0 <= k < |r| ==> r[k].FromClient? && r[k].io.Data? && r[k].send.Whole?
  {
    if s == [] then [] else OneByOne(s[..|s| - 1]) + [FromClient(Data([s[|s| - 1]]), Whole)]
  }

  lemma {:induction false} OneByOneSent(s: seq<byte>)
    ensures ClientSent(OneByOne(s)) == s
  {
    if s != [] {
      var before, last := s[..|s| - 1], s[|s| - 1];
      OneByOneSent(before);
      assert OneByOne(s)[..|s| - 1] == OneByOne(before);
      assert s == before + [last];
    }
  }

  /** Octet by octet the bridge reads exactly up to the first marker. */
  lemma {:induction false} OneByOneStops(s: seq<byte>, eot: seq<byte>)
    requires eot != []
    ensures ClientSide(OneByOne(s), eot) == ClientView(Upto(s, eot), Free(s, eot))
  {
    hide At, FirstAt, ClientSide;
    if s == [] {
      NoSides(eot);
      EmptyIsFree(eot);
    } else {
      var before, last := s[..|s| - 1], s[|s| - 1];
      OneByOneStops(before, eot);
      SidesStep(OneByOne(before), FromClient(Data([last]), Whole), eot);
      assert s == before + [last];
      UptoStep(before, last, eot);
    }
  }

  lemma EmptyIsFree(eot: seq<byte>)
    requires eot != []
    ensures Free([], eot) && Upto([], eot) == []
  {
  }

  lemma UptoStep(before: seq<byte>, last: byte, eot: seq<byte>)
    requires eot != []
    ensures var s := before + [last];
            if Free(before, eot) then Upto(s, eot) == s else !Free(s, eot) && Upto(s, eot) == Upto(before, eot)
  {
    var s := before + [last];
    hide FirstAt;
    if !Free(before, eot) {
      FirstStays(before, [last], eot);
    } else if !Free(s, eot) {
      var i := First(s, eot).value;
      FirstIsAt(s, eot);
      AtPrefix(before, [last], eot, i);
      assert i + |eot| == |s|;
    }
  }

  lemma FirstIsAt(s: seq<byte>, eot: seq<byte>)
    requires !Free(s, eot)
    ensures At(s, eot, First(s, eot).value)
  {
  }

  /** Every chunking forwards the whole request exactly when the marker does not occur before its end. */
  lemma RequestForwarded(data: seq<byte>, eot: seq<byte>)
    requires eot != []
    ensures (forall events :: ClientWrites(events) && ClientSent(events) == data + eot
                              ==> ClientSide(events, eot).bytes == data + eot)
            <==> First(data + eot, eot) == Some(|data|)
  {
    hide At, FirstAt, Free, ClientSide, ClientSent, ClientWrites, OneByOne;
    var request := data + eot;
    if First(request, eot) == Some(|data|) {
      forall events | ClientWrites(events) && ClientSent(events) == request
        ensures ClientSide(events, eot).bytes == request
      {
        NothingDropped(events, eot, request);
      }
    } else {
      OneByOneSent(request);
      OneByOneStops(request, eot);
      EarlyMarker(data, eot);
      assert ClientWrites(OneByOne(request));
    }
  }

  lemma EarlyMarker(data: seq<byte>, eot: seq<byte>)
    requires First(data + eot, eot) != Some(|data|)
    ensures |Upto(data + eot, eot)| < |data + eot|
  {
    assert At(data + eot, eot, |data|);
  }

  lemma {:induction false} ClientSentPrefix(events: seq<Event>, i: nat)
    requires i <= |events|
    ensures ClientSent(events[..i]) <= ClientSent(events)
  {
    var n := |events|;
    if i < n {
      ClientSentPrefix(events[..n - 1], i);
      assert events[..n - 1][..i] == events[..i];
    } else {
      assert events[..i] == events;
    }
  }

  /**
   * A request whose first marker ends it: unless the loop failed, all the client wrote while it ran is at
   * the backend.
   */
  method ForwardRequest(eot: seq<byte>, data: seq<byte>, events: seq<Event>)
    returns (relay: Relay?, outcome: Outcome, used: nat)
    requires eot != [] && ClientWrites(events) && ClientSent(events) <= data + eot
             && First(data + eot, eot) == Some(|data|)
    ensures relay != null && Ends(events, eot, outcome, used)
    ensures !outcome.Returned1? ==> relay.toBackend == ClientSent(events[..used])
    ensures outcome.Waiting? && ClientSent(events) == data + eot ==> relay.toBackend == data + eot && !relay.cliOpen
  {
    hide First, ClientSide, ClientSent, Relay.Running;
    relay, outcome, used := Serve(eot, events);
    ClientSentPrefix(events, used);
    NothingDropped(events[..used], eot, data + eot);
    assert events[..|events|] == events;
  }

  /** Octet by octet, the backend gets a request exactly up to the end of its first marker, and no more. */
  method ForwardOneByOne(eot: seq<byte>, request: seq<byte>) returns (relay: Relay?)
    requires eot != []
    ensures relay != null && relay.toBackend == Upto(request, eot) && relay.cliOpen == Free(request, eot)
  {
    hide ClientSide, Relay.Running, Free, Upto;
    var events := OneByOne(request);
    OneByOneStops(request, eot);
    var outcome, used;
    relay, outcome, used := Serve(eot, events);
    assert events[..|events|] == events;
  }
}
