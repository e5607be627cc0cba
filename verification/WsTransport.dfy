/** The WebSocket transport: the same messages without checksums, over a receive buffer. */
module WsTransport {
  import opened Bytes

  /**
   What happens while a receiver waits: a message or the closing of some
   connection, a new connection, the current one dropped, or the deadline. The
   handlers of a connection stay when another takes its place.
   */
  datatype WsEvent =
    | Message(conn: nat, chunk: seq<byte>)
    | Closed(conn: nat)
    | Accepted(conn: nat)
    | Dropped
    | Deadline

  datatype WsError = NotOpen | Late(received: nat)

  datatype WsState = WsState(rxBuffer: seq<byte>, current: Option<nat>)

  /** The outcome of one receive, the transport afterwards, and how many events it took. */
  datatype Receipt = Receipt(result: Result<seq<byte>, WsError>, state: WsState, used: nat)

  /** Messages of every connection are buffered; only the current one's closing counts; a new one starts with an empty buffer. */
  function Handled(s: WsState, e: WsEvent): WsState {
    match e
    case Message(_, chunk) => s.(rxBuffer := s.rxBuffer + chunk)
    case Closed(conn) => if s.current == Some(conn) then s.(current := None) else s
    case Accepted(conn) => WsState([], Some(conn))
    case Dropped => s.(current := None)
    case Deadline => s
  }

  /** Enough bytes are taken; otherwise the next event is awaited. Running out of events is the deadline. */
  function Receive(s: WsState, length: nat, events: seq<WsEvent>): (r: Receipt)
    ensures r.used <= |events|
    decreases |events|
  {
    if |s.rxBuffer| >= length then Receipt(Ok(s.rxBuffer[..length]), s.(rxBuffer := s.rxBuffer[length..]), 0)
    else if s.current.None? then Receipt(Err(NotOpen), s, 0)
    else if events == [] then Receipt(Err(Late(|s.rxBuffer|)), s, 0)
    else if events[0].Deadline? then Receipt(Err(Late(|s.rxBuffer|)), s, 1)
    else
      var r := Receive(Handled(s, events[0]), length, events[1..]);
      r.(used := r.used + 1)
  }

  class WsTransportManager {
    var rxBuffer: seq<byte>
    var ws: Option<nat>

    constructor ()
      ensures State() == WsState([], None)
    {
      rxBuffer, ws := [], None;
    }

    function State(): WsState
      reads this
    {
      WsState(rxBuffer, ws)
    }

    method AcceptConnection(conn: nat)
      modifies this
      ensures State() == Handled(old(State()), Accepted(conn))
    {
      ws := Some(conn);
      rxBuffer := [];
    }

    method OnMessage(conn: nat, chunk: seq<byte>)
      modifies this
      ensures State() == Handled(old(State()), Message(conn, chunk))
    {
      rxBuffer := rxBuffer + chunk;
    }

    method OnClose(conn: nat)
      modifies this
      ensures State() == Handled(old(State()), Closed(conn))
    {
      if ws == Some(conn) {
        ws := None;
      }
    }

    method CloseConnection()
      modifies this
      ensures State() == Handled(old(State()), Dropped)
    {
      ws := None;
    }

    method ReceiveBuffer(length: nat, events: seq<WsEvent>) returns (r: Result<seq<byte>, WsError>, used: nat)
      modifies this
      ensures Receipt(r, State(), used) == Receive(old(State()), length, events)
    {
      used := 0;
      ghost var goal := Receive(State(), length, events);
      while true
        invariant used <= |events|
        invariant Receive(State(), length, events[used..]).result == goal.result
        invariant Receive(State(), length, events[used..]).state == goal.state
        invariant Receive(State(), length, events[used..]).used + used == goal.used
        decreases |events| - used
      {
        if |rxBuffer| >= length {
          r := Ok(rxBuffer[..length]);
          rxBuffer := rxBuffer[length..];
          return;
        }
        if ws.None? {
          return Err(NotOpen), used;
        }
        if used == |events| {
          return Err(Late(|rxBuffer|)), used;
        }
        assert events[used..][1..] == events[used + 1..];
        used := used + 1;
        match events[used - 1] {
          case Deadline => return Err(Late(|rxBuffer|)), used;
          case Message(conn, chunk) => OnMessage(conn, chunk);
          case Closed(conn) => OnClose(conn);
          case Accepted(conn) => AcceptConnection(conn);
          case Dropped => CloseConnection();
        }
      }
    }
  }

  /** The bytes of the messages among the events. */
  function Payload(events: seq<WsEvent>): seq<byte> {
    if events == [] then [] else (if events[0].Message? then events[0].chunk else []) + Payload(events[1..])
  }

  predicate AllMessages(events: seq<WsEvent>) {
    forall i :: 0 <= i < |events| ==> events[i].Message?
  }

  /** What a buffer holds after the events, if nothing is taken out. */
  function Gathered(buffer: seq<byte>, events: seq<WsEvent>): seq<byte>
    decreases |events|
  {
    if events == [] then buffer else Gathered(Handled(WsState(buffer, None), events[0]).rxBuffer, events[1..])
  }

  /**
   Whatever comes of a receive, no byte is lost but by a new connection: what
   it returns and what stays buffered is what was there and what came, or what
   came since the last connection was accepted.
   */
  lemma {:induction false} ReceiveConserves(s: WsState, length: nat, events: seq<WsEvent>)
    ensures var r := Receive(s, length, events);
            (if r.result.Ok? then r.result.value else []) + r.state.rxBuffer == Gathered(s.rxBuffer, events[..r.used])
    ensures var r := Receive(s, length, events);
            r.result.Ok? ==> |r.result.value| == length
    decreases |events|
  {
    if |s.rxBuffer| < length && s.current.Some? && events != [] {
      if events[0].Deadline? {
        assert events[..1][1..] == [];
      } else {
        ReceiveConserves(Handled(s, events[0]), length, events[1..]);
        var r := Receive(Handled(s, events[0]), length, events[1..]);
        assert events[..r.used + 1][1..] == events[1..][..r.used];
      }
    }
  }

  lemma {:induction false} MessagesGather(buffer: seq<byte>, events: seq<WsEvent>)
    requires AllMessages(events)
    ensures Gathered(buffer, events) == buffer + Payload(events)
    decreases |events|
  {
    if events != [] { MessagesGather(buffer + events[0].chunk, events[1..]); }
  }

  lemma {:induction false} PayloadSplit(events: seq<WsEvent>, n: nat)
    requires n <= |events|
    ensures Payload(events) == Payload(events[..n]) + Payload(events[n..])
  {
    if n > 0 {
      PayloadSplit(events[1..], n - 1);
      assert events[..n][1..] == events[1..][..n - 1];
      assert events[1..][n - 1..] == events[n..];
    } else {
      assert events[..0] == [] && events[0..] == events;
    }
  }

  /** While only messages come, a receive succeeds exactly when they hold enough bytes. */
  lemma {:induction false} ReceiveSucceeds(s: WsState, length: nat, events: seq<WsEvent>)
    requires s.current.Some? && AllMessages(events)
    ensures Receive(s, length, events).result.Ok? <==> length <= |s.rxBuffer| + |Payload(events)|
    ensures Receive(s, length, events).state.current == s.current
    decreases |events|
  {
    if |s.rxBuffer| < length && events != [] {
      ReceiveSucceeds(s.(rxBuffer := s.rxBuffer + events[0].chunk), length, events[1..]);
    }
  }

  /** The bytes received, and those kept for the next receive, do not depend on how they were cut into messages. */
  lemma ReceiveChunksFree(s: WsState, length: nat, a: seq<WsEvent>, b: seq<WsEvent>)
    requires s.current.Some? && AllMessages(a) && AllMessages(b) && Payload(a) == Payload(b)
    ensures var r, q := Receive(s, length, a), Receive(s, length, b);
            && (r.result.Ok? <==> q.result.Ok?) && (r.result.Ok? ==> r.result == q.result)
            && r.state.rxBuffer + Payload(a[r.used..]) == q.state.rxBuffer + Payload(b[q.used..])
  {
    ReceiveSucceeds(s, length, a);
    ReceiveSucceeds(s, length, b);
    ReceiveLeaves(s, length, a);
    ReceiveLeaves(s, length, b);
    var r, q := Receive(s, length, a), Receive(s, length, b);
    var x, y := if r.result.Ok? then r.result.value else [], if q.result.Ok? then q.result.value else [];
    var u, v := r.state.rxBuffer + Payload(a[r.used..]), q.state.rxBuffer + Payload(b[q.used..]);
    assert x + u == y + v && |x| == |y|;
    assert x == (x + u)[..|x|] && y == (y + v)[..|y|];
    assert u == (x + u)[|x|..] && v == (y + v)[|y|..];
  }

  lemma ReceiveLeaves(s: WsState, length: nat, events: seq<WsEvent>)
    requires AllMessages(events)
    ensures var r := Receive(s, length, events);
            && (r.result.Ok? ==> |r.result.value| == length)
            && (if r.result.Ok? then r.result.value else []) + (r.state.rxBuffer + Payload(events[r.used..])) == s.rxBuffer + Payload(events)
  {
    ReceiveConserves(s, length, events);
    PayloadSplit(events, Receive(s, length, events).used);
    MessagesGather(s.rxBuffer, events[..Receive(s, length, events).used]);
    var r := Receive(s, length, events);
    Regroup(if r.result.Ok? then r.result.value else [], r.state.rxBuffer, Payload(events[r.used..]), s.rxBuffer, Payload(events[..r.used]));
  }

  lemma Regroup(taken: seq<byte>, kept: seq<byte>, later: seq<byte>, buffer: seq<byte>, came: seq<byte>)
    requires taken + kept == buffer + came
    ensures taken + (kept + later) == buffer + (came + later)
  {
    assert taken + (kept + later) == (taken + kept) + later;
  }

  // ---- a connection that takes another's place ------------------------------

  /** The bytes one connection sends. */
  function PayloadOf(conn: nat, events: seq<WsEvent>): seq<byte> {
    if events == [] then []
    else (if events[0].Message? && events[0].conn == conn then events[0].chunk else []) + PayloadOf(conn, events[1..])
  }

  /** No other connection sends a byte. */
  predicate OnlyFrom(conn: nat, events: seq<WsEvent>) {
    forall i :: 0 <= i < |events| && events[i].Message? && events[i].conn != conn ==> events[i].chunk == []
  }

  lemma {:induction false} OwnPayload(conn: nat, events: seq<WsEvent>)
    ensures |PayloadOf(conn, events)| <= |Payload(events)|
    ensures |PayloadOf(conn, events)| == |Payload(events)| <==> OnlyFrom(conn, events)
    ensures OnlyFrom(conn, events) ==> PayloadOf(conn, events) == Payload(events)
  {
    if events != [] {
      OwnPayload(conn, events[1..]);
      assert OnlyFrom(conn, events) <==>
               (events[0].Message? && events[0].conn != conn ==> events[0].chunk == []) && OnlyFrom(conn, events[1..]) by {
        assert events == [events[0]] + events[1..];
      }
    }
  }

  /**
   A connection just accepted is served its own bytes, in order and none but
   them, exactly when no connection before it still sends any: theirs are
   buffered like its own.
   */
  lemma OwnBytesExactly(conn: nat, length: nat, events: seq<WsEvent>)
    requires AllMessages(events)
    ensures var r := Receive(WsState([], Some(conn)), length, events);
            (if r.result.Ok? then r.result.value else []) + (r.state.rxBuffer + Payload(events[r.used..])) == PayloadOf(conn, events)
            <==> OnlyFrom(conn, events)
  {
    ReceiveLeaves(WsState([], Some(conn)), length, events);
    OwnPayload(conn, events);
  }

  // ---- when a receive ends -------------------------------------------------

  /** The connection after the first i events, none of which was answered with bytes. */
  function After(s: WsState, events: seq<WsEvent>, i: nat): WsState
    requires i <= |events|
  {
    if i == 0 then s else Handled(After(s, events, i - 1), events[i - 1])
  }

  lemma {:induction false} AfterNext(s: WsState, events: seq<WsEvent>, i: nat)
    requires 0 < i <= |events|
    ensures After(s, events, i) == After(Handled(s, events[0]), events[1..], i - 1)
  {
    if i > 1 { AfterNext(s, events, i - 1); }
  }

  /** A receive goes on at this point: too few bytes, a connection, and the deadline has not come. */
  predicate Waits(s: WsState, length: nat, events: seq<WsEvent>, i: nat)
    requires i < |events|
  {
    |After(s, events, i).rxBuffer| < length && After(s, events, i).current.Some? && !events[i].Deadline?
  }

  /** How a receive ends at this point. */
  predicate EndsAt(s: WsState, length: nat, events: seq<WsEvent>, i: nat, r: Receipt)
    requires i <= |events|
  {
    var now := After(s, events, i);
    if |now.rxBuffer| >= length then r == Receipt(Ok(now.rxBuffer[..length]), now.(rxBuffer := now.rxBuffer[length..]), i)
    else if now.current.None? then r == Receipt(Err(NotOpen), now, i)
    else r == Receipt(Err(Late(|now.rxBuffer|)), now, if i < |events| then i + 1 else i)
  }

  /**
   A receive ends at the first point at which there are enough bytes, or no
   connection, or the deadline: with the bytes if they are there, even from a
   connection that has closed, else as not open, else late.
   */
  lemma {:induction false} ReceiveEnds(s: WsState, length: nat, events: seq<WsEvent>)
    returns (i: nat)
    ensures i <= |events| && (forall j :: 0 <= j < i ==> Waits(s, length, events, j)) && (i < |events| ==> !Waits(s, length, events, i))
    ensures EndsAt(s, length, events, i, Receive(s, length, events))
    decreases |events|
  {
    i := 0;
    if events != [] && Waits(s, length, events, 0) {
      var rest := ReceiveEnds(Handled(s, events[0]), length, events[1..]);
      i := rest + 1;
      AfterNext(s, events, i);
      forall j | 0 <= j < i
        ensures Waits(s, length, events, j)
      {
        if j > 0 {
          AfterNext(s, events, j);
          assert Waits(Handled(s, events[0]), length, events[1..], j - 1);
        }
      }
    }
  }

  /**
   What the events do: a message adds its bytes whichever connection sent it,
   a new connection starts with none and takes the place of the old one, whose
   end then changes nothing.
   */
  lemma EventsDo(s: WsState, conn: nat, other: nat, chunk: seq<byte>)
    ensures Handled(s, Message(conn, chunk)) == WsState(s.rxBuffer + chunk, s.current)
    ensures Handled(s, Accepted(conn)) == WsState([], Some(conn))
    ensures other != conn ==> Handled(Handled(s, Accepted(conn)), Closed(other)) == WsState([], Some(conn))
    ensures Handled(Handled(s, Accepted(conn)), Closed(conn)) == WsState([], None)
    ensures Handled(s, Dropped) == WsState(s.rxBuffer, None)
    ensures Handled(s, Deadline) == s
  {
  }
}
