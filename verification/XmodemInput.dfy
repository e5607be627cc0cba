/**
 How the sender waits for an answer: a buffer of bytes and a queue of handlers,
 one for each wait, that stay queued when their wait is over.
 */
module XmodemInput {
  import opened Bytes
  import opened StopAndWait
  import opened Xmodem

  const ACK: byte := 0x06
  const NAK: byte := 0x15
  const CAN: byte := 0x18

  /** Bytes not yet looked at, and the queued handlers: whether each still waits, or is left over from a timeout. */
  datatype Inbox = Inbox(buffer: seq<byte>, handlers: seq<bool>)

  // ---- one wait ------------------------------------------------------------

  /**
   Hands bytes to handlers in order while there are both. A handler left over
   swallows its byte; the waiting one takes an expected byte, or queues again
   behind the others.
   */
  function Dispatched(b: Inbox, expected: seq<byte>, got: Option<byte>): (r: (Inbox, Option<byte>))
    decreases |b.buffer|
  {
    if b.buffer == [] || b.handlers == [] then (b, got)
    else
      var value, waits := b.buffer[0], b.handlers[0];
      if !waits then Dispatched(Inbox(b.buffer[1..], b.handlers[1..]), expected, got)
      else if value in expected then Dispatched(Inbox(b.buffer[1..], b.handlers[1..]), expected, Some(value))
      else Dispatched(Inbox(b.buffer[1..], b.handlers[1..] + [true]), expected, got)
  }

  /** Chunks arriving one after the other. */
  function Arriving(b: Inbox, expected: seq<byte>, got: Option<byte>, chunks: seq<seq<byte>>): (r: (Inbox, Option<byte>)) {
    if chunks == [] then (b, got)
    else
      var (before, so) := Arriving(b, expected, got, chunks[..|chunks| - 1]);
      Dispatched(before.(buffer := before.buffer + chunks[|chunks| - 1]), expected, so)
  }

  /** The first expected byte. */
  function FirstExpected(bytes: seq<byte>, expected: seq<byte>): (i: Option<nat>)
    ensures i.Some? ==> i.value < |bytes| && bytes[i.value] in expected
  {
    if bytes == [] then None
    else if bytes[0] in expected then Some(0)
    else
      var i := FirstExpected(bytes[1..], expected);
      if i.Some? then Some(i.value + 1) else None
  }

  function LeftOver(handlers: seq<bool>): (r: seq<bool>)
    ensures |r| == |handlers| && forall i :: 0 <= i < |r| ==> !r[i]
  {
    seq(|handlers|, _ => false)
  }

  /** A wait for one of the expected bytes, while the chunks arrive and then until the timeout. */
  function Wait(b: Inbox, expected: seq<byte>, chunks: seq<seq<byte>>): (r: (Inbox, Option<byte>)) {
    var i := FirstExpected(b.buffer, expected);
    if i.Some? then
      var kept := b.(buffer := b.buffer[i.value + 1..]);
      (Arriving(kept, expected, None, chunks).0, Some(b.buffer[i.value]))
    else
      var (after, got) := Arriving(b.(handlers := b.handlers + [true]), expected, None, chunks);
      (if got.Some? then after else after.(handlers := LeftOver(after.handlers)), got)
  }

  class Input {
    var incomingBuffer: seq<byte>
    var dataResolvers: seq<bool>

    constructor ()
      ensures State() == Inbox([], [])
    {
      incomingBuffer, dataResolvers := [], [];
    }

    function State(): Inbox
      reads this
    {
      Inbox(incomingBuffer, dataResolvers)
    }

    method HandleIncomingData(data: seq<byte>, expected: seq<byte>, before: Option<byte>) returns (got: Option<byte>)
      modifies this
      ensures (State(), got) == Dispatched(old(State()).(buffer := old(incomingBuffer) + data), expected, before)
    {
      incomingBuffer := incomingBuffer + data;
      got := before;
      while |incomingBuffer| > 0 && |dataResolvers| > 0
        invariant Dispatched(State(), expected, got) == Dispatched(old(State()).(buffer := old(incomingBuffer) + data), expected, before)
        decreases |incomingBuffer|
      {
        var value, waits := incomingBuffer[0], dataResolvers[0];
        incomingBuffer, dataResolvers := incomingBuffer[1..], dataResolvers[1..];
        if waits {
          if value in expected {
            got := Some(value);
          } else {
            dataResolvers := dataResolvers + [true];
          }
        }
      }
    }

    method WaitForByte(expected: seq<byte>, arriving: seq<seq<byte>>) returns (r: Option<byte>)
      modifies this
      ensures (State(), r) == Wait(old(State()), expected, arriving)
    {
      ghost var start := State();
      var i := FirstExpected(incomingBuffer, expected);
      var found := None;
      if i.Some? {
        found := Some(incomingBuffer[i.value]);
        incomingBuffer := incomingBuffer[i.value + 1..];
      } else {
        dataResolvers := dataResolvers + [true];
      }
      ghost var begun := State();
      r := None;
      for k := 0 to |arriving|
        invariant (State(), r) == Arriving(begun, expected, None, arriving[..k])
      {
        assert arriving[..k + 1][..k] == arriving[..k];
        r := HandleIncomingData(arriving[k], expected, r);
      }
      assert arriving[..|arriving|] == arriving;
      if found.Some? {
        return found;
      }
      if r.None? {
        dataResolvers := seq(|dataResolvers|, _ => false);
      }
    }
  }

  // ---- what left-over handlers do ------------------------------------------

  predicate Settled(b: Inbox) {
    b.buffer == [] || b.handlers == []
  }

  lemma {:induction false} DispatchSettles(b: Inbox, expected: seq<byte>, got: Option<byte>)
    ensures Settled(Dispatched(b, expected, got).0)
    decreases |b.buffer|
  {
    if b.buffer != [] && b.handlers != [] {
      var rest := Inbox(b.buffer[1..], b.handlers[1..]);
      if !b.handlers[0] { DispatchSettles(rest, expected, got); }
      else if b.buffer[0] in expected { DispatchSettles(rest, expected, Some(b.buffer[0])); }
      else { DispatchSettles(rest.(handlers := rest.handlers + [true]), expected, got); }
    }
  }

  /** More bytes behind those dispatched already are dispatched next. */
  lemma {:induction false} DispatchMore(b: Inbox, expected: seq<byte>, got: Option<byte>, more: seq<byte>)
    ensures var (after, so) := Dispatched(b, expected, got);
            Dispatched(after.(buffer := after.buffer + more), expected, so)
            == Dispatched(b.(buffer := b.buffer + more), expected, got)
    decreases |b.buffer|
  {
    if b.buffer != [] && b.handlers != [] {
      var rest := Inbox(b.buffer[1..], b.handlers[1..]);
      assert (b.buffer + more)[1..] == rest.buffer + more;
      if !b.handlers[0] { DispatchMore(rest, expected, got, more); }
      else if b.buffer[0] in expected { DispatchMore(rest, expected, Some(b.buffer[0]), more); }
      else { DispatchMore(rest.(handlers := rest.handlers + [true]), expected, got, more); }
    }
  }

  /** How the answer was cut into chunks makes no difference. */
  lemma {:induction false} ChunksMakeNoDifference(b: Inbox, expected: seq<byte>, got: Option<byte>, chunks: seq<seq<byte>>)
    requires Settled(b)
    ensures Arriving(b, expected, got, chunks) == Dispatched(b.(buffer := b.buffer + Flat(chunks)), expected, got)
  {
    if chunks == [] {
      assert b.buffer + [] == b.buffer;
    } else {
      var front, last := chunks[..|chunks| - 1], chunks[|chunks| - 1];
      ChunksMakeNoDifference(b, expected, got, front);
      DispatchMore(b.(buffer := b.buffer + Flat(front)), expected, got, last);
      FlatLast(b.buffer, chunks);
    }
  }

  lemma FlatLast(before: seq<byte>, chunks: seq<seq<byte>>)
    requires chunks != []
    ensures before + Flat(chunks[..|chunks| - 1]) + chunks[|chunks| - 1] == before + Flat(chunks)
  {
    var front, last := Flat(chunks[..|chunks| - 1]), chunks[|chunks| - 1];
    assert before + front + last == before + (front + last);
  }

  /** n handlers left over, and one that waits. */
  function Queue(n: nat): (r: seq<bool>)
    ensures |r| == n + 1
  {
    if n == 0 then [true] else [false] + Queue(n - 1)
  }

  /** With no handler left over, the first expected byte decides the wait. */
  lemma {:induction false} WaitingTakes(bytes: seq<byte>, expected: seq<byte>)
    ensures var (after, got) := Dispatched(Inbox(bytes, [true]), expected, None);
            match FirstExpected(bytes, expected)
            case Some(i) => got == Some(bytes[i]) && after == Inbox(bytes[i + 1..], [])
            case None => got == None && after == Inbox([], [true])
    decreases |bytes|
  {
    if bytes != [] {
      assert [true][1..] == [] && [] + [true] == [true];
      if bytes[0] in expected {
        assert Dispatched(Inbox(bytes[1..], []), expected, Some(bytes[0])) == (Inbox(bytes[1..], []), Some(bytes[0]));
      } else {
        WaitingTakes(bytes[1..], expected);
      }
    }
  }

  /** Each left-over handler swallows one byte; the wait is decided by the bytes after those. */
  lemma {:induction false} LeftOversSwallow(bytes: seq<byte>, n: nat, expected: seq<byte>)
    ensures var (after, got) := Dispatched(Inbox(bytes, Queue(n)), expected, None);
            if |bytes| <= n then got == None && after == Inbox([], Queue(n - |bytes|))
            else
              match FirstExpected(bytes[n..], expected)
              case Some(i) => got == Some(bytes[n + i]) && after == Inbox(bytes[n + i + 1..], [])
              case None => got == None && after == Inbox([], [true])
    decreases |bytes|
  {
    if n == 0 {
      assert bytes[0..] == bytes;
      WaitingTakes(bytes, expected);
    } else if bytes != [] {
      assert Queue(n)[1..] == Queue(n - 1);
      LeftOversSwallow(bytes[1..], n - 1, expected);
      assert |bytes| > n ==> bytes[1..][n - 1..] == bytes[n..];
    }
  }

  function Stale(n: nat): (r: seq<bool>)
    ensures |r| == n
  {
    if n == 0 then [] else [false] + Stale(n - 1)
  }

  lemma {:induction false} StaleThenWaiting(n: nat)
    ensures Stale(n) + [true] == Queue(n) && LeftOver(Queue(n)) == Stale(n + 1)
  {
    if n > 0 {
      StaleThenWaiting(n - 1);
      assert Stale(n) + [true] == [false] + (Stale(n - 1) + [true]);
      assert LeftOver(Queue(n)) == [false] + LeftOver(Queue(n - 1));
    }
  }

  /** What a wait behind n left-over handlers makes of the bytes that come. */
  predicate SwallowedThenDecided(n: nat, expected: seq<byte>, bytes: seq<byte>, after: Inbox, got: Option<byte>) {
    if |bytes| <= n then got == None && after == Inbox([], Stale(n - |bytes| + 1))
    else
      match FirstExpected(bytes[n..], expected)
      case Some(i) => got == Some(bytes[n + i]) && after == Inbox(bytes[n + i + 1..], [])
      case None => got == None && after == Inbox([], Stale(1))
  }

  /**
   A wait behind n left-over handlers, with nothing buffered: however the
   answer arrives, its first n bytes are lost to it, and it is decided by the
   first expected byte after those. If there is none it times out and leaves a
   handler of its own behind.
   */
  lemma WaitBehindStale(n: nat, expected: seq<byte>, chunks: seq<seq<byte>>)
    ensures var (after, got) := Wait(Inbox([], Stale(n)), expected, chunks);
            SwallowedThenDecided(n, expected, Flat(chunks), after, got)
  {
    StaleThenWaiting(n);
    ChunksMakeNoDifference(Inbox([], Queue(n)), expected, None, chunks);
    assert [] + Flat(chunks) == Flat(chunks);
    var (after, got) := Dispatched(Inbox(Flat(chunks), Queue(n)), expected, None);
    assert Wait(Inbox([], Stale(n)), expected, chunks) == (if got.Some? then after else after.(handlers := LeftOver(after.handlers)), got);
    WaitDecided(n, expected, Flat(chunks));
  }

  lemma WaitDecided(n: nat, expected: seq<byte>, bytes: seq<byte>)
    ensures var (after, got) := Dispatched(Inbox(bytes, Queue(n)), expected, None);
            SwallowedThenDecided(n, expected, bytes, if got.Some? then after else after.(handlers := LeftOver(after.handlers)), got)
  {
    LeftOversSwallow(bytes, n, expected);
    if |bytes| <= n { StaleThenWaiting(n - |bytes|); } else { StaleThenWaiting(0); }
  }

  // ---- the transfer over such waits ----------------------------------------

  /** The far end and the line, the sender's input, and how many waits have timed out. */
  datatype Station<E> = Station(env: E, inbox: Inbox, timeouts: nat)

  /** The far end's answer to a transmission, in the chunks in which it arrives in time. */
  type Answers<!E> = (E, seq<byte>) -> (E, seq<seq<byte>>)

  function Awaited(bytes: seq<byte>): seq<byte> {
    if bytes == [EOT] then [ACK, NAK] else [ACK, NAK, CAN]
  }

  function ResponseOf(got: Option<byte>): Response {
    match got
    case None => Timeout
    case Some(b) => if b == ACK then Ack else if b == CAN then Can else Nak
  }

  /** A transmission and the wait for its answer. */
  function SendAndWait<E>(answers: Answers<E>, s: Station<E>, bytes: seq<byte>): (r: (Station<E>, Response)) {
    var (env, chunks) := answers(s.env, bytes);
    var (inbox, got) := Wait(s.inbox, Awaited(bytes), chunks);
    (Station(env, inbox, s.timeouts + if got.None? then 1 else 0), ResponseOf(got))
  }

  function Transmitter<E>(answers: Answers<E>): (Station<E>, seq<byte>) -> (Station<E>, Response) {
    (s: Station<E>, bytes: seq<byte>) => SendAndWait(answers, s, bytes)
  }

  /** An operator who cancels nothing. */
  function Never<L>(): L -> bool {
    (line: L) => false
  }

  function StationPort<E>(answers: Answers<E>): Port<Station<E>> {
    Port(Transmitter(answers), Never(), (s: Station<E>) => s)
  }

  /**
   Each transmission has one answer byte, which may arrive in its own wait, in
   a later one, or never: owed counts those that have not arrived.
   */
  ghost predicate OneAnswerEach<E(!new)>(answers: Answers<E>, owed: E -> nat) {
    forall e, bytes {:trigger answers(e, bytes)} :: owed(answers(e, bytes).0) + |Flat(answers(e, bytes).1)| == owed(e) + 1
  }

  /** Nothing buffered and no handler left over. */
  predicate Fresh(b: Inbox) {
    b == Inbox([], Stale(0))
  }

  /** Nothing is buffered, and a handler is left over for each answer owed at least. */
  predicate Behind<E>(owed: E -> nat, s: Station<E>) {
    s.inbox == Inbox([], Stale(|s.inbox.handlers|)) && owed(s.env) <= |s.inbox.handlers|
  }

  // ---- one wait of a transfer ----------------------------------------------

  /** The last byte is one the wait is for. */
  predicate LastExpected(all: seq<byte>, expected: seq<byte>) {
    all != [] && all[|all| - 1] in expected
  }

  /**
   A wait is answered exactly when an answer is owed for every handler left
   over, all of those and its own arrive while it lasts, and its own is an
   expected byte. It then leaves nothing owed and no handler.
   */
  lemma WaitAnsweredExactly<E(!new)>(answers: Answers<E>, owed: E -> nat, s: Station<E>, bytes: seq<byte>)
    requires OneAnswerEach(answers, owed) && Behind(owed, s)
    ensures var (after, response) := SendAndWait(answers, s, bytes);
            var all := Flat(answers(s.env, bytes).1);
            && Behind(owed, after)
            && (response != Timeout <==>
                  owed(s.env) == |s.inbox.handlers| && owed(after.env) == 0 && LastExpected(all, Awaited(bytes)))
            && (response != Timeout ==> Fresh(after.inbox) && response == ResponseOf(Some(all[|all| - 1])))
            && |after.inbox.handlers| - owed(after.env) >= |s.inbox.handlers| - owed(s.env)
            && after.timeouts == s.timeouts + if response == Timeout then 1 else 0
  {
    var n := |s.inbox.handlers|;
    var (env, chunks) := answers(s.env, bytes);
    var all := Flat(chunks);
    WaitBehindStale(n, Awaited(bytes), chunks);
    if |all| > n {
      assert |all| == n + 1 && all[n..] == [all[n]];
      FirstOfOne(all[n], Awaited(bytes));
      assert all[n + 1..] == [];
    }
  }

  lemma FirstOfOne(b: byte, expected: seq<byte>)
    ensures FirstExpected([b], expected) == if b in expected then Some(0) else None
  {
    assert [b][1..] == [];
  }

  // ---- transfers in which a line may be beyond recovery ---------------------

  ghost predicate StaysStuck<L(!new)>(exchange: L -> (L, Response), stuck: L -> bool) {
    forall line {:trigger exchange(line)} :: stuck(line) ==> exchange(line).1 == Timeout && stuck(exchange(line).0)
  }

  /** An exchange leaves a clear line clear, or stuck with a timeout; an acknowledgement leaves it done. */
  ghost predicate StuckByTimeout<L(!new)>(exchange: L -> (L, Response), clear: L -> bool, stuck: L -> bool, done: L -> bool) {
    forall line {:trigger exchange(line)} :: clear(line) ==>
      var (after, response) := exchange(line);
      (clear(after) || (stuck(after) && response == Timeout)) && (response == Ack ==> done(after))
  }

  lemma {:induction false} StuckAttempts<L(!new)>(exchange: L -> (L, Response), stuck: L -> bool, line: L, retries: nat)
    requires retries <= MAX_RETRIES && StaysStuck(exchange, stuck) && stuck(line)
    ensures var (after, result) := Attempts(exchange, Never(), line, retries); result == Exhausted && stuck(after)
    decreases MAX_RETRIES - retries, exchange
  {
    if retries < MAX_RETRIES { StuckAttempts(exchange, stuck, exchange(line).0, retries + 1); }
  }

  lemma {:induction false} StuckEnd<L(!new)>(exchange: L -> (L, Response), stuck: L -> bool, line: L, retries: nat)
    requires retries <= MAX_RETRIES && StaysStuck(exchange, stuck) && stuck(line)
    ensures var (after, result) := EndAttempts(exchange, line, retries); result == Exhausted && stuck(after)
    decreases MAX_RETRIES - retries, exchange
  {
    if retries < MAX_RETRIES { StuckEnd(exchange, stuck, exchange(line).0, retries + 1); }
  }

  /** The attempts at a block on a clear line leave it clear, or run out. */
  lemma {:induction false} ClearAttempts<L(!new)>(
      exchange: L -> (L, Response), clear: L -> bool, stuck: L -> bool, done: L -> bool, line: L, retries: nat)
    requires retries <= MAX_RETRIES && StaysStuck(exchange, stuck) && StuckByTimeout(exchange, clear, stuck, done) && clear(line)
    ensures var (after, result) := Attempts(exchange, Never(), line, retries);
            clear(after) || (stuck(after) && result == Exhausted)
    decreases MAX_RETRIES - retries, exchange
  {
    if retries < MAX_RETRIES {
      var (after, response) := exchange(line);
      if stuck(after) && response == Timeout {
        StuckAttempts(exchange, stuck, after, retries + 1);
      } else if response != Ack && response != Can && response != PortFailed {
        ClearAttempts(exchange, clear, stuck, done, after, retries + 1);
      }
    }
  }

  lemma {:induction false} ClearEnd<L(!new)>(
      exchange: L -> (L, Response), clear: L -> bool, stuck: L -> bool, done: L -> bool, line: L, retries: nat)
    requires retries <= MAX_RETRIES && StaysStuck(exchange, stuck) && StuckByTimeout(exchange, clear, stuck, done) && clear(line)
    ensures var (after, result) := EndAttempts(exchange, line, retries);
            (clear(after) || (stuck(after) && result == Exhausted)) && (result == Sent ==> done(after))
    decreases MAX_RETRIES - retries, exchange
  {
    if retries < MAX_RETRIES {
      var (after, response) := exchange(line);
      if stuck(after) && response == Timeout {
        StuckEnd(exchange, stuck, after, retries + 1);
      } else if response != Ack && response != PortFailed {
        ClearEnd(exchange, clear, stuck, done, after, retries + 1);
      }
    }
  }

  predicate ClearOrFailed<L>(outcome: (L, Transfer), clear: L -> bool, stuck: L -> bool, done: L -> bool) {
    && (clear(outcome.0) || (stuck(outcome.0) && (outcome.1 == BlockFailed || outcome.1 == EotFailed)))
    && (outcome.1 == Completed ==> done(outcome.0))
  }

  /** A transfer on a clear line leaves it clear, or has failed; one that completes leaves it done. */
  lemma {:induction false} TransferEnds<L(!new)>(
      blocks: seq<L -> (L, Response)>, end: L -> (L, Response), clear: L -> bool, stuck: L -> bool, done: L -> bool, line: L, i: nat)
    requires i <= |blocks| && clear(line)
    requires forall k :: 0 <= k < |blocks| ==> StaysStuck(blocks[k], stuck) && StuckByTimeout(blocks[k], clear, stuck, done)
    requires StaysStuck(end, stuck) && StuckByTimeout(end, clear, stuck, done)
    ensures ClearOrFailed(SendAll(blocks, end, Never(), line, i), clear, stuck, done)
    decreases |blocks| - i
  {
    if i == |blocks| {
      ClearEnd(end, clear, stuck, done, line, 0);
      assert SendAll(blocks, end, Never(), line, i).0 == EndAttempts(end, line, 0).0;
    } else {
      ClearAttempts(blocks[i], clear, stuck, done, line, 0);
      var (after, result) := Attempts(blocks[i], Never(), line, 0);
      if result == Sent {
        TransferEnds(blocks, end, clear, stuck, done, after, i + 1);
        assert SendAll(blocks, end, Never(), line, i) == SendAll(blocks, end, Never(), after, i + 1);
      } else {
        assert SendAll(blocks, end, Never(), line, i).0 == after;
      }
    }
  }

  // ---- late answers and lost ones ------------------------------------------

  /** Of the answers owed, those that will never arrive. */
  ghost predicate LostForGood<E(!new)>(answers: Answers<E>, owed: E -> nat, lost: E -> nat) {
    && (forall e :: lost(e) <= owed(e))
    && (forall e, bytes {:trigger answers(e, bytes)} :: lost(e) <= lost(answers(e, bytes).0))
  }

  ghost function NoneLost<E>(owed: E -> nat, lost: E -> nat): Station<E> -> bool {
    (s: Station<E>) => Behind(owed, s) && lost(s.env) == 0
  }

  ghost function SomeLost<E>(owed: E -> nat, lost: E -> nat): Station<E> -> bool {
    (s: Station<E>) => Behind(owed, s) && lost(s.env) > 0
  }

  /** Every answer has arrived, and no handler is left over. */
  ghost function AllArrived<E>(owed: E -> nat): Station<E> -> bool {
    (s: Station<E>) => Fresh(s.inbox) && owed(s.env) == 0
  }

  lemma ExchangesOfStations<E(!new)>(answers: Answers<E>, owed: E -> nat, lost: E -> nat, bytes: seq<byte>)
    requires OneAnswerEach(answers, owed) && LostForGood(answers, owed, lost)
    ensures StaysStuck(Exchanging(Transmitter(answers), bytes), SomeLost(owed, lost))
    ensures StuckByTimeout(Exchanging(Transmitter(answers), bytes), NoneLost(owed, lost), SomeLost(owed, lost), AllArrived(owed))
  {
    var exchange := Exchanging(Transmitter(answers), bytes);
    forall s: Station<E> | Behind(owed, s)
      ensures var (after, response) := exchange(s);
              && Behind(owed, after) && lost(s.env) <= lost(after.env)
              && (lost(after.env) > 0 ==> response == Timeout)
              && (response == Ack ==> AllArrived(owed)(after))
    {
      WaitAnsweredExactly(answers, owed, s, bytes);
      assert exchange(s) == SendAndWait(answers, s, bytes);
    }
  }

  lemma TransferOfStations<E(!new)>(answers: Answers<E>, owed: E -> nat, lost: E -> nat, s: Station<E>, file: seq<byte>, crcMode: bool)
    requires OneAnswerEach(answers, owed) && LostForGood(answers, owed, lost) && Behind(owed, s) && lost(s.env) == 0
    ensures ClearOrFailed(SendFrom(StationPort(answers), s, file, crcMode, 0), NoneLost(owed, lost), SomeLost(owed, lost), AllArrived(owed))
  {
    var blocks, end := BlockExchanges(Transmitter(answers), file, crcMode), Exchanging(Transmitter(answers), [EOT]);
    var clear, stuck, done := NoneLost(owed, lost), SomeLost(owed, lost), AllArrived(owed);
    forall k | 0 <= k < |blocks|
      ensures StaysStuck(blocks[k], stuck) && StuckByTimeout(blocks[k], clear, stuck, done)
    {
      ExchangesOfStations(answers, owed, lost, BlockPacket(file, crcMode, k));
    }
    ExchangesOfStations(answers, owed, lost, [EOT]);
    TransferEnds(blocks, end, clear, stuck, done, s, 0);
  }

  /**
   For every far end that answers each transmission once, at any time or
   never, and every file: when a transfer completes, every answer has arrived
   and no handler is left over.
   */
  lemma CompletedHasEveryAnswer<E(!new)>(answers: Answers<E>, owed: E -> nat, s: Station<E>, file: seq<byte>, crcMode: bool)
    requires OneAnswerEach(answers, owed) && Behind(owed, s)
    ensures var (after, result) := SendFrom(StationPort(answers), s, file, crcMode, 0);
            result == Completed ==> owed(after.env) == 0 && Fresh(after.inbox)
  {
    TransferOfStations(answers, owed, _ => 0, s, file, crcMode);
  }

  /** So one answer lost for good, at any point, is final: the transfer fails at a block or at the end mark. */
  lemma LostAnswerIsFinal<E(!new)>(answers: Answers<E>, owed: E -> nat, lost: E -> nat, s: Station<E>, file: seq<byte>, crcMode: bool)
    requires OneAnswerEach(answers, owed) && LostForGood(answers, owed, lost) && Behind(owed, s) && lost(s.env) == 0
    ensures var (after, result) := SendFrom(StationPort(answers), s, file, crcMode, 0);
            lost(after.env) > 0 ==> result == BlockFailed || result == EotFailed
  {
    TransferOfStations(answers, owed, lost, s, file, crcMode);
  }

  // ---- when late answers are made up for -----------------------------------

  /** All that the far end ever answers is ACK. */
  ghost predicate AcksOnly<E(!new)>(answers: Answers<E>) {
    forall e, bytes {:trigger answers(e, bytes)} :: forall i :: 0 <= i < |Flat(answers(e, bytes).1)| ==> Flat(answers(e, bytes).1)[i] == ACK
  }

  /** The far end after the first of the tries from the k-th on at whose end no answer is owed. */
  function CaughtUp<E>(answers: Answers<E>, owed: E -> nat, e: E, bytes: seq<byte>, k: nat): (r: Option<E>)
    requires k <= MAX_RETRIES
    decreases MAX_RETRIES - k, answers
  {
    if k == MAX_RETRIES then None
    else
      var after := answers(e, bytes).0;
      if owed(after) == 0 then Some(after) else CaughtUp(answers, owed, after, bytes, k + 1)
  }

  /** Each packet from the i-th on is caught up with in ten tries. */
  function CatchesUp<E>(answers: Answers<E>, owed: E -> nat, e: E, packets: seq<seq<byte>>, i: nat): (r: bool)
    requires i <= |packets|
    decreases |packets| - i
  {
    if i == |packets| then true
    else
      match CaughtUp(answers, owed, e, packets[i], 0)
      case None => false
      case Some(after) => CatchesUp(answers, owed, after, packets, i + 1)
  }

  /** The packets of a file, and the end mark. */
  function Packets(file: seq<byte>, crcMode: bool): (r: seq<seq<byte>>)
    ensures |r| == BlockCount(file) + 1 && r[BlockCount(file)] == [EOT]
    ensures forall i :: 0 <= i < BlockCount(file) ==> r[i] == BlockPacket(file, crcMode, i)
  {
    seq(BlockCount(file), i requires 0 <= i < BlockCount(file) => BlockPacket(file, crcMode, i)) + [[EOT]]
  }

  /** One handler is left over for each answer owed. */
  predicate Even<E>(owed: E -> nat, s: Station<E>) {
    s.inbox == Inbox([], Stale(owed(s.env)))
  }

  /** With such a far end an exchange is acknowledged exactly when no answer is owed after it, and otherwise times out. */
  lemma EvenExchange<E(!new)>(answers: Answers<E>, owed: E -> nat, s: Station<E>, bytes: seq<byte>)
    requires OneAnswerEach(answers, owed) && AcksOnly(answers) && Even(owed, s)
    ensures var (after, response) := SendAndWait(answers, s, bytes);
            && after.env == answers(s.env, bytes).0 && Even(owed, after)
            && response == if owed(after.env) == 0 then Ack else Timeout
  {
    WaitAnsweredExactly(answers, owed, s, bytes);
    var all := Flat(answers(s.env, bytes).1);
    WaitBehindStale(owed(s.env), Awaited(bytes), answers(s.env, bytes).1);
    if all != [] { assert all[|all| - 1] == ACK; }
  }

  lemma {:induction false} EvenAttempts<E(!new)>(answers: Answers<E>, owed: E -> nat, s: Station<E>, bytes: seq<byte>, k: nat)
    requires OneAnswerEach(answers, owed) && AcksOnly(answers) && Even(owed, s) && k <= MAX_RETRIES
    ensures var (after, result) := Attempts(Exchanging(Transmitter(answers), bytes), Never(), s, k);
            match CaughtUp(answers, owed, s.env, bytes, k)
            case None => result == Exhausted
            case Some(e) => result == Sent && after.env == e && Even(owed, after)
    decreases MAX_RETRIES - k, answers
  {
    if k < MAX_RETRIES {
      var exchange := Exchanging(Transmitter(answers), bytes);
      assert exchange(s) == SendAndWait(answers, s, bytes);
      EvenExchange(answers, owed, s, bytes);
      if owed(exchange(s).0.env) > 0 { EvenAttempts(answers, owed, exchange(s).0, bytes, k + 1); }
    }
  }

  lemma {:induction false} EvenEnd<E(!new)>(answers: Answers<E>, owed: E -> nat, s: Station<E>, k: nat)
    requires OneAnswerEach(answers, owed) && AcksOnly(answers) && Even(owed, s) && k <= MAX_RETRIES
    ensures EndAttempts(Exchanging(Transmitter(answers), [EOT]), s, k).1 == Sent <==> CaughtUp(answers, owed, s.env, [EOT], k).Some?
    decreases MAX_RETRIES - k, answers
  {
    if k < MAX_RETRIES {
      var exchange := Exchanging(Transmitter(answers), [EOT]);
      assert exchange(s) == SendAndWait(answers, s, [EOT]);
      EvenExchange(answers, owed, s, [EOT]);
      CaughtUpNext(answers, owed, s.env, [EOT], k);
      EndNext(exchange, s, k);
      if owed(exchange(s).0.env) > 0 { EvenEnd(answers, owed, exchange(s).0, k + 1); }
    }
  }

  lemma CaughtUpNext<E(!new)>(answers: Answers<E>, owed: E -> nat, e: E, bytes: seq<byte>, k: nat)
    requires k < MAX_RETRIES
    ensures var after := answers(e, bytes).0;
            CaughtUp(answers, owed, e, bytes, k) == if owed(after) == 0 then Some(after) else CaughtUp(answers, owed, after, bytes, k + 1)
  {
  }

  lemma EndNext<L(!new)>(exchange: L -> (L, Response), line: L, k: nat)
    requires k < MAX_RETRIES
    ensures exchange(line).1 != PortFailed ==>
              (EndAttempts(exchange, line, k).1 == Sent <==> exchange(line).1 == Ack || EndAttempts(exchange, exchange(line).0, k + 1).1 == Sent)
  {
  }

  /** The transfer from packet i on completes exactly when the far end catches up from there on. */
  predicate CompletesAsCaughtUp<E>(answers: Answers<E>, owed: E -> nat, packets: seq<seq<byte>>,
                                   blocks: seq<Station<E> -> (Station<E>, Response)>, s: Station<E>, i: nat)
    requires i <= |blocks| <= |packets|
  {
    SendAll(blocks, Exchanging(Transmitter(answers), [EOT]), Never(), s, i).1 == Completed <==> CatchesUp(answers, owed, s.env, packets, i)
  }

  /** One block: acknowledged on both sides, or failed on both. */
  lemma EvenNext<E(!new)>(
      answers: Answers<E>, owed: E -> nat, s: Station<E>, packets: seq<seq<byte>>, blocks: seq<Station<E> -> (Station<E>, Response)>, i: nat)
    requires OneAnswerEach(answers, owed) && AcksOnly(answers) && Even(owed, s) && i < |blocks| == |packets| - 1
    requires blocks[i] == Exchanging(Transmitter(answers), packets[i])
    ensures var after := Attempts(blocks[i], Never(), s, 0).0;
            || CompletesAsCaughtUp(answers, owed, packets, blocks, s, i)
            || (Even(owed, after)
                && (CompletesAsCaughtUp(answers, owed, packets, blocks, after, i + 1) ==> CompletesAsCaughtUp(answers, owed, packets, blocks, s, i)))
  {
    EvenAttempts(answers, owed, s, packets[i], 0);
    SendAllNext(blocks, Exchanging(Transmitter(answers), [EOT]), s, i);
    CatchesUpNext(answers, owed, s.env, packets, i);
  }

  lemma EvenTransfer<E(!new)>(
      answers: Answers<E>, owed: E -> nat, s: Station<E>, packets: seq<seq<byte>>, blocks: seq<Station<E> -> (Station<E>, Response)>)
    requires OneAnswerEach(answers, owed) && AcksOnly(answers) && Even(owed, s) && |blocks| == |packets| - 1
    requires packets[|blocks|] == [EOT]
    requires forall k :: 0 <= k < |blocks| ==> blocks[k] == Exchanging(Transmitter(answers), packets[k])
    ensures CompletesAsCaughtUp(answers, owed, packets, blocks, s, 0)
  {
    var n := |blocks|;
    var agree := (s: Station<E>, i: nat) => i <= n && CompletesAsCaughtUp(answers, owed, packets, blocks, s, i);
    var even := (s: Station<E>) => Even(owed, s);
    var next := (s: Station<E>, i: nat) => if i < n then Attempts(blocks[i], Never(), s, 0).0 else s;
    forall s | Even(owed, s)
      ensures agree(s, n)
    {
      CatchesUpNext(answers, owed, s.env, packets, n);
      EvenLast(answers, owed, s, blocks);
    }
    forall s, i: nat | Even(owed, s) && i < n
      ensures HoldsBefore(agree, even, next, s, i)
    {
      EvenNext(answers, owed, s, packets, blocks, i);
    }
    Backwards(agree, even, next, n, s, 0);
  }

  lemma EvenLast<E(!new)>(answers: Answers<E>, owed: E -> nat, s: Station<E>, blocks: seq<Station<E> -> (Station<E>, Response)>)
    requires OneAnswerEach(answers, owed) && AcksOnly(answers) && Even(owed, s)
    ensures SendAll(blocks, Exchanging(Transmitter(answers), [EOT]), Never(), s, |blocks|).1 == Completed
            <==> CaughtUp(answers, owed, s.env, [EOT], 0).Some?
  {
    EvenEnd(answers, owed, s, 0);
  }

  lemma CatchesUpNext<E(!new)>(answers: Answers<E>, owed: E -> nat, e: E, packets: seq<seq<byte>>, i: nat)
    requires i < |packets|
    ensures CatchesUp(answers, owed, e, packets, i)
            <==> var after := CaughtUp(answers, owed, e, packets[i], 0);
                 after.Some? && (i + 1 < |packets| ==> CatchesUp(answers, owed, after.value, packets, i + 1))
  {
  }

  lemma SendAllNext<L(!new)>(blocks: seq<L -> (L, Response)>, end: L -> (L, Response), line: L, i: nat)
    requires i < |blocks|
    ensures var (after, result) := Attempts(blocks[i], Never(), line, 0);
            if result == Sent then SendAll(blocks, end, Never(), line, i) == SendAll(blocks, end, Never(), after, i + 1)
            else SendAll(blocks, end, Never(), line, i).1 != Completed
  {
  }

  /**
   For a far end that acknowledges every transmission, however late: the
   transfer completes exactly when for each block and for the end mark there is,
   among the ten tries, a wait by whose end every answer so far has arrived.
   */
  lemma CompletesExactly<E(!new)>(answers: Answers<E>, owed: E -> nat, s: Station<E>, file: seq<byte>, crcMode: bool)
    requires OneAnswerEach(answers, owed) && AcksOnly(answers) && Even(owed, s)
    ensures SendFrom(StationPort(answers), s, file, crcMode, 0).1 == Completed <==> CatchesUp(answers, owed, s.env, Packets(file, crcMode), 0)
  {
    EvenTransfer(answers, owed, s, Packets(file, crcMode), BlockExchanges(Transmitter(answers), file, crcMode));
  }

  /** While the condition holds it goes on holding, and no answer is late. */
  ghost predicate NeverLate<E(!new)>(answers: Answers<E>, owed: E -> nat, holds: E -> bool) {
    forall e, bytes {:trigger answers(e, bytes)} :: holds(e) ==> holds(answers(e, bytes).0) && owed(answers(e, bytes).0) == 0
  }

  lemma {:induction false} NeverLateCatchesUp<E(!new)>(
      answers: Answers<E>, owed: E -> nat, holds: E -> bool, e: E, packets: seq<seq<byte>>, i: nat)
    requires NeverLate(answers, owed, holds) && holds(e) && i <= |packets|
    ensures CatchesUp(answers, owed, e, packets, i)
    decreases |packets| - i
  {
    if i < |packets| {
      var after := answers(e, packets[i]).0;
      CaughtUpAtOnce(answers, owed, e, packets[i]);
      NeverLateCatchesUp(answers, owed, holds, after, packets, i + 1);
    }
  }

  lemma CaughtUpAtOnce<E(!new)>(answers: Answers<E>, owed: E -> nat, e: E, bytes: seq<byte>)
    requires owed(answers(e, bytes).0) == 0
    ensures CaughtUp(answers, owed, e, bytes, 0) == Some(answers(e, bytes).0)
  {
  }

  // ---- an answer that is late by one wait ----------------------------------

  /** The far end acknowledges everything, but its first answer arrives only in the second wait, before the second one. */
  function FirstLate(): Answers<nat> {
    (sent: nat, bytes: seq<byte>) => (sent + 1, if sent == 0 then [] else if sent == 1 then [[ACK], [ACK]] else [[ACK]])
  }

  function OwedFirst(): nat -> nat {
    (sent: nat) => if sent == 1 then 1 else 0
  }

  /** The second try makes up for it: every transfer of a file with content completes, after a timeout of its first wait. */
  lemma LateAnswerIsMadeUp(file: seq<byte>, crcMode: bool)
    requires file != []
    ensures var s := Station(0, Inbox([], []), 0);
            && SendAndWait(FirstLate(), s, BlockPacket(file, crcMode, 0)).1 == Timeout
            && SendFrom(StationPort(FirstLate()), s, file, crcMode, 0).1 == Completed
  {
    var s := Station(0, Inbox([], []), 0);
    CeilDivBounds(|file|, 128);
    FirstLateAnswers();
    EvenExchange(FirstLate(), OwedFirst(), s, BlockPacket(file, crcMode, 0));
    CompletesExactly(FirstLate(), OwedFirst(), s, file, crcMode);
    assert CaughtUp(FirstLate(), OwedFirst(), 0, BlockPacket(file, crcMode, 0), 0) == Some(2) by {
      assert CaughtUp(FirstLate(), OwedFirst(), 1, BlockPacket(file, crcMode, 0), 1) == Some(2);
    }
    NeverLateCatchesUp(FirstLate(), OwedFirst(), sent => sent >= 2, 2, Packets(file, crcMode), 1);
  }

  lemma FirstLateAnswers()
    ensures OneAnswerEach(FirstLate(), OwedFirst()) && AcksOnly(FirstLate())
  {
    forall sent: nat, bytes: seq<byte>
      ensures Flat(FirstLate()(sent, bytes).1) == if sent == 0 then [] else if sent == 1 then [ACK, ACK] else [ACK]
    {
      FlatAcks();
    }
  }

  lemma FlatAcks()
    ensures Flat([[ACK]]) == [ACK] && Flat([[ACK], [ACK]]) == [ACK, ACK]
  {
    assert [[ACK], [ACK]][..1] == [[ACK]];
  }

  // ---- which byte is the answer --------------------------------------------

  lemma {:induction false} FirstBehind(junk: seq<byte>, x: byte, rest: seq<byte>, expected: seq<byte>)
    requires x in expected && forall i :: 0 <= i < |junk| ==> junk[i] !in expected
    ensures FirstExpected(junk + [x] + rest, expected) == Some(|junk|)
  {
    if junk != [] {
      FirstBehind(junk[1..], x, rest, expected);
      assert (junk + [x] + rest)[1..] == junk[1..] + [x] + rest;
    }
  }

  /** A byte waited for that has come already is taken at once; bytes before it go, and those behind it stay in front of what comes. */
  lemma BufferedIsTaken(junk: seq<byte>, x: byte, rest: seq<byte>, expected: seq<byte>, chunks: seq<seq<byte>>)
    requires x in expected && forall i :: 0 <= i < |junk| ==> junk[i] !in expected
    ensures Wait(Inbox(junk + [x] + rest, []), expected, chunks) == (Inbox(rest + Flat(chunks), []), Some(x))
  {
    FirstBehind(junk, x, rest, expected);
    ChunksMakeNoDifference(Inbox(rest, []), expected, None, chunks);
    assert (junk + [x] + rest)[|junk| + 1..] == rest;
  }

  /** A wait in which nothing comes leaves the bytes before it in place, and its own handler behind them. */
  lemma NothingComes(junk: seq<byte>, expected: seq<byte>)
    requires forall i :: 0 <= i < |junk| ==> junk[i] !in expected
    ensures Wait(Inbox(junk, []), expected, []) == (Inbox(junk, [false]), None)
  {
    assert [] + [true] == [true];
    assert LeftOver([true]) == [false];
  }

  /**
   The first of the bytes 6, 21 and 24 is the answer to a block: acknowledged,
   to be sent again, cancelled. To the end mark only 6 and 21 are answers.
   */
  lemma AnswerDecides<E>(answers: Answers<E>, s: Station<E>, bytes: seq<byte>, junk: seq<byte>, x: byte, rest: seq<byte>)
    requires s.inbox == Inbox([], []) && Flat(answers(s.env, bytes).1) == junk + [x] + rest
    requires var known := if bytes == [4] then [6, 21] else [6, 21, 24];
             x in known && forall i :: 0 <= i < |junk| ==> junk[i] !in known
    ensures var (after, response) := SendAndWait(answers, s, bytes);
            && response == (if x == 6 then Ack else if x == 21 then Nak else Can)
            && after.inbox == Inbox(rest, []) && after.timeouts == s.timeouts
  {
    var all, expected := junk + [x] + rest, Awaited(bytes);
    FirstBehind(junk, x, rest, expected);
    WaitBehindStale(0, expected, answers(s.env, bytes).1);
    assert all[0..] == all && all[|junk| + 1..] == rest;
  }

  /** Without such a byte in time there is no answer. */
  lemma NoAnswerTimesOut<E>(answers: Answers<E>, s: Station<E>, bytes: seq<byte>)
    requires s.inbox == Inbox([], [])
    requires forall i :: 0 <= i < |Flat(answers(s.env, bytes).1)| ==>
               Flat(answers(s.env, bytes).1)[i] !in (if bytes == [4] then [6, 21] else [6, 21, 24])
    ensures SendAndWait(answers, s, bytes) == (Station(answers(s.env, bytes).0, Inbox([], [false]), s.timeouts + 1), Timeout)
  {
    var all := Flat(answers(s.env, bytes).1);
    WaitBehindStale(0, Awaited(bytes), answers(s.env, bytes).1);
    assert all[0..] == all;
    assert Stale(1) == [false];
  }
}
