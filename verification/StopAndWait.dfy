/** Bounded retries over any exchange: what one attempt keeps, the attempts keep. */
module StopAndWait {
  import opened Bytes

  const MAX_RETRIES: nat := 10

  /** What a transmission and the wait after it come to; the port itself may fail. */
  datatype Response = Ack | Nak | Can | Timeout | Cancelled | PortFailed

  datatype BlockResult = Sent | OperatorStopped | ReceiverStopped | Exhausted | PortLost

  /**
   The attempts at one block from the given count on; exchange is one
   transmission and the wait after it, stopped whether the operator has cancelled.
   */
  function Attempts<L>(exchange: L -> (L, Response), stopped: L -> bool, line: L, retries: nat): (r: (L, BlockResult))
    requires retries <= MAX_RETRIES
    decreases MAX_RETRIES - retries, exchange
  {
    if retries == MAX_RETRIES then (line, Exhausted)
    else if stopped(line) then (line, OperatorStopped)
    else
      var (after, response) := exchange(line);
      match response
      case Ack => (after, Sent)
      case Can => (after, ReceiverStopped)
      case PortFailed => (after, PortLost)
      case _ => Attempts(exchange, stopped, after, retries + 1)
  }

  /** The attempts at the end mark: only an acknowledgement ends them early, or a failure of the port. */
  function EndAttempts<L>(exchange: L -> (L, Response), line: L, retries: nat): (r: (L, BlockResult))
    requires retries <= MAX_RETRIES
    decreases MAX_RETRIES - retries, exchange
  {
    if retries == MAX_RETRIES then (line, Exhausted)
    else
      var (after, response) := exchange(line);
      match response
      case Ack => (after, Sent)
      case PortFailed => (after, PortLost)
      case _ => EndAttempts(exchange, after, retries + 1)
  }

  /** How a transfer ends; of a failure of the port, whether all blocks had been acknowledged. */
  datatype Transfer =
    | Completed
    | CancelledByOperator
    | CancelledByReceiver
    | BlockFailed
    | EotFailed
    | NoReceiver
    | NotOpen
    | PortError(allSent: bool)

  /** All blocks from number i on, then the end mark. */
  function SendAll<L>(blocks: seq<L -> (L, Response)>, end: L -> (L, Response), stopped: L -> bool, line: L, i: nat): (r: (L, Transfer))
    requires i <= |blocks|
    decreases |blocks| - i
  {
    if i == |blocks| then
      var (after, result) := EndAttempts(end, line, 0);
      (after, if result == Sent then Completed else if result == PortLost then PortError(true) else EotFailed)
    else
      var (after, result) := Attempts(blocks[i], stopped, line, 0);
      match result
      case Sent => SendAll(blocks, end, stopped, after, i + 1)
      case OperatorStopped => (after, CancelledByOperator)
      case ReceiverStopped => (after, CancelledByReceiver)
      case Exhausted => (after, BlockFailed)
      case PortLost => (after, PortError(false))
  }

  /**
   One exchange leaves a line that has i or j blocks with i or j blocks, is
   acknowledged only when it has j, and counts once.
   */
  ghost predicate Keeps<L(!new)>(exchange: L -> (L, Response), has: (L, nat) -> bool, i: nat, j: nat, count: L -> nat) {
    forall line :: has(line, i) || has(line, j) ==>
      var (after, response) := exchange(line);
      && (has(after, i) || has(after, j))
      && (response == Ack ==> has(after, j))
      && count(after) == count(line) + 1
  }

  lemma {:induction false} AttemptsKeep<L(!new)>(
      exchange: L -> (L, Response), stopped: L -> bool, has: (L, nat) -> bool, i: nat, j: nat, count: L -> nat, line: L, retries: nat)
    requires retries <= MAX_RETRIES && Keeps(exchange, has, i, j, count) && (has(line, i) || has(line, j))
    ensures var (after, result) := Attempts(exchange, stopped, line, retries);
            && (has(after, i) || has(after, j))
            && (result == Sent ==> has(after, j))
            && count(after) <= count(line) + (MAX_RETRIES - retries)
    decreases MAX_RETRIES - retries, exchange
  {
    if retries < MAX_RETRIES {
      var (after, response) := exchange(line);
      if response != Ack && response != Can && response != PortFailed {
        AttemptsKeep(exchange, stopped, has, i, j, count, after, retries + 1);
      }
    }
  }

  lemma {:induction false} EndAttemptsKeep<L(!new)>(
      exchange: L -> (L, Response), has: (L, nat) -> bool, i: nat, count: L -> nat, line: L, retries: nat)
    requires retries <= MAX_RETRIES && Keeps(exchange, has, i, i, count) && has(line, i)
    ensures var (after, result) := EndAttempts(exchange, line, retries);
            has(after, i) && count(after) <= count(line) + (MAX_RETRIES - retries)
    decreases MAX_RETRIES - retries, exchange
  {
    if retries < MAX_RETRIES {
      var (after, response) := exchange(line);
      if response != Ack && response != PortFailed {
        EndAttemptsKeep(exchange, has, i, count, after, retries + 1);
      }
    }
  }

  ghost predicate HasSome<L>(has: (L, nat) -> bool, line: L) {
    exists n: nat :: has(line, n)
  }

  /** The blocks arrive in order, each once; completion means all of them have. */
  lemma {:induction false} SendAllKeeps<L(!new)>(
      blocks: seq<L -> (L, Response)>, end: L -> (L, Response), stopped: L -> bool, has: (L, nat) -> bool, count: L -> nat, line: L, i: nat)
    requires i <= |blocks| && has(line, i)
    requires forall k :: 0 <= k < |blocks| ==> Keeps(blocks[k], has, k, k + 1, count)
    requires Keeps(end, has, |blocks|, |blocks|, count)
    ensures var (after, result) := SendAll(blocks, end, stopped, line, i);
            && HasSome(has, after)
            && (result == Completed ==> has(after, |blocks|))
            && count(after) <= count(line) + MAX_RETRIES * (|blocks| - i + 1)
    decreases |blocks| - i
  {
    if i == |blocks| {
      EndAttemptsKeep(end, has, i, count, line, 0);
      assert has(EndAttempts(end, line, 0).0, i);
    } else {
      AttemptsKeep(blocks[i], stopped, has, i, i + 1, count, line, 0);
      var (after, result) := Attempts(blocks[i], stopped, line, 0);
      var next: nat := i + 1;
      assert has(after, i) || has(after, next);
      if result == Sent {
        SendAllKeeps(blocks, end, stopped, has, count, after, i + 1);
      }
    }
  }

  // ---- from the last try back ----------------------------------------------

  /** It holds before the step, or does when it holds after it. */
  predicate HoldsBefore<L>(agree: (L, nat) -> bool, even: L -> bool, next: (L, nat) -> L, s: L, i: nat) {
    agree(s, i) || (even(next(s, i)) && (agree(next(s, i), i + 1) ==> agree(s, i)))
  }

  /** What holds at the end of n steps, and before a step when it holds after it, holds at every step. */
  lemma {:induction false} Backwards<L(!new)>(agree: (L, nat) -> bool, even: L -> bool, next: (L, nat) -> L, n: nat, s: L, i: nat)
    requires i <= n && even(s)
    requires forall s :: even(s) ==> agree(s, n)
    requires forall s, i: nat :: even(s) && i < n ==> HoldsBefore(agree, even, next, s, i)
    ensures agree(s, i)
    decreases n - i
  {
    assert i < n ==> HoldsBefore(agree, even, next, s, i);
    if i < n && !agree(s, i) { Backwards(agree, even, next, n, next(s, i), i + 1); }
  }

  // ---- cancellation --------------------------------------------------------

  /** An exchange begun before the operator cancelled is not late, and any exchange counts as one late at most. */
  ghost predicate Heeds<L(!new)>(exchange: L -> (L, Response), stopped: L -> bool, late: L -> nat) {
    forall line {:trigger exchange(line)} ::
      late(line) <= late(exchange(line).0) <= late(line) + if stopped(line) then 1 else 0
  }

  lemma {:induction false} AttemptsHeed<L(!new)>(
      exchange: L -> (L, Response), stopped: L -> bool, late: L -> nat, line: L, retries: nat)
    requires retries <= MAX_RETRIES && Heeds(exchange, stopped, late)
    ensures late(Attempts(exchange, stopped, line, retries).0) == late(line)
    ensures Attempts(exchange, stopped, line, retries).1 == OperatorStopped ==> stopped(Attempts(exchange, stopped, line, retries).0)
    decreases MAX_RETRIES - retries, exchange
  {
    if retries < MAX_RETRIES && !stopped(line) {
      var (after, response) := exchange(line);
      if response != Ack && response != Can && response != PortFailed { AttemptsHeed(exchange, stopped, late, after, retries + 1); }
    }
  }

  lemma {:induction false} EndAttemptsHeed<L(!new)>(
      exchange: L -> (L, Response), stopped: L -> bool, late: L -> nat, line: L, retries: nat)
    requires retries <= MAX_RETRIES && Heeds(exchange, stopped, late)
    ensures late(line) <= late(EndAttempts(exchange, line, retries).0) <= late(line) + (MAX_RETRIES - retries)
    decreases MAX_RETRIES - retries, exchange
  {
    if retries < MAX_RETRIES {
      var (after, response) := exchange(line);
      if response != Ack && response != PortFailed { EndAttemptsHeed(exchange, stopped, late, after, retries + 1); }
    }
  }

  /** No block goes out after a cancellation; only end marks do, once all blocks are acknowledged. */
  lemma {:induction false} SendAllHeeds<L(!new)>(
      blocks: seq<L -> (L, Response)>, end: L -> (L, Response), stopped: L -> bool, late: L -> nat, line: L, i: nat)
    requires i <= |blocks|
    requires forall k :: 0 <= k < |blocks| ==> Heeds(blocks[k], stopped, late)
    requires Heeds(end, stopped, late)
    ensures var (after, result) := SendAll(blocks, end, stopped, line, i);
            && late(line) <= late(after) <= late(line) + MAX_RETRIES
            && (late(after) == late(line) || result == Completed || result == EotFailed || result == PortError(true))
            && (result == CancelledByOperator ==> stopped(after))
    decreases |blocks| - i
  {
    if i == |blocks| {
      EndAttemptsHeed(end, stopped, late, line, 0);
    } else {
      AttemptsHeed(blocks[i], stopped, late, line, 0);
      var (after, result) := Attempts(blocks[i], stopped, line, 0);
      if result == Sent { SendAllHeeds(blocks, end, stopped, late, after, i + 1); }
    }
  }

  // ---- how often each block goes out ---------------------------------------

  /** Every exchange is counted once. */
  ghost predicate CountsOnce<L(!new)>(exchange: L -> (L, Response), count: L -> nat) {
    forall line {:trigger exchange(line)} :: count(exchange(line).0) == count(line) + 1
  }

  lemma {:induction false} AttemptsBounded<L(!new)>(
      exchange: L -> (L, Response), stopped: L -> bool, count: L -> nat, line: L, retries: nat)
    requires retries <= MAX_RETRIES && CountsOnce(exchange, count)
    ensures count(line) <= count(Attempts(exchange, stopped, line, retries).0) <= count(line) + (MAX_RETRIES - retries)
    decreases MAX_RETRIES - retries, exchange
  {
    if retries < MAX_RETRIES {
      var (after, response) := exchange(line);
      if response != Ack && response != Can && response != PortFailed { AttemptsBounded(exchange, stopped, count, after, retries + 1); }
    }
  }

  lemma {:induction false} EndAttemptsBounded<L(!new)>(exchange: L -> (L, Response), count: L -> nat, line: L, retries: nat)
    requires retries <= MAX_RETRIES && CountsOnce(exchange, count)
    ensures count(line) <= count(EndAttempts(exchange, line, retries).0) <= count(line) + (MAX_RETRIES - retries)
    decreases MAX_RETRIES - retries, exchange
  {
    if retries < MAX_RETRIES {
      var (after, response) := exchange(line);
      if response != Ack && response != PortFailed { EndAttemptsBounded(exchange, count, after, retries + 1); }
    }
  }

  /**
   The line at stage k of a transfer from block i on: stage 0 is its start, and
   each block that is tried, and the end mark, leads to the next. None beyond the end.
   */
  function Stage<L>(blocks: seq<L -> (L, Response)>, end: L -> (L, Response), stopped: L -> bool, line: L, i: nat, k: nat): (s: Option<L>)
    requires i <= |blocks|
    decreases k
  {
    if k == 0 then Some(line)
    else if i == |blocks| then if k == 1 then Some(EndAttempts(end, line, 0).0) else None
    else
      var (after, result) := Attempts(blocks[i], stopped, line, 0);
      if k == 1 then Some(after)
      else if result == Sent then Stage(blocks, end, stopped, after, i + 1, k - 1)
      else None
  }

  /** From one line to the other are exactly the attempts at block b, or at the end mark: ten at most. */
  ghost predicate TenAttempts<L>(
      blocks: seq<L -> (L, Response)>, end: L -> (L, Response), stopped: L -> bool, count: L -> nat, b: nat, from: L, to: L) {
    && b <= |blocks|
    && to == (if b < |blocks| then Attempts(blocks[b], stopped, from, 0).0 else EndAttempts(end, from, 0).0)
    && count(from) <= count(to) <= count(from) + MAX_RETRIES
  }

  lemma FirstStage<L(!new)>(
      blocks: seq<L -> (L, Response)>, end: L -> (L, Response), stopped: L -> bool, count: L -> nat, line: L, i: nat)
    requires i <= |blocks|
    requires forall b :: 0 <= b < |blocks| ==> CountsOnce(blocks[b], count)
    requires CountsOnce(end, count)
    ensures Stage(blocks, end, stopped, line, i, 1).Some?
    ensures TenAttempts(blocks, end, stopped, count, i, line, Stage(blocks, end, stopped, line, i, 1).value)
  {
    if i == |blocks| {
      EndAttemptsBounded(end, count, line, 0);
    } else {
      AttemptsBounded(blocks[i], stopped, count, line, 0);
    }
  }

  /** Each block, and the end mark, goes out ten times at most. */
  lemma {:induction false} EachAtMostTenTimes<L(!new)>(
      blocks: seq<L -> (L, Response)>, end: L -> (L, Response), stopped: L -> bool, count: L -> nat, line: L, i: nat, k: nat)
    requires i <= |blocks| && Stage(blocks, end, stopped, line, i, k + 1).Some?
    requires forall b :: 0 <= b < |blocks| ==> CountsOnce(blocks[b], count)
    requires CountsOnce(end, count)
    ensures Stage(blocks, end, stopped, line, i, k).Some?
    ensures TenAttempts(blocks, end, stopped, count, i + k,
                        Stage(blocks, end, stopped, line, i, k).value, Stage(blocks, end, stopped, line, i, k + 1).value)
    decreases k
  {
    if k == 0 {
      FirstStage(blocks, end, stopped, count, line, i);
    } else {
      EachAtMostTenTimes(blocks, end, stopped, count, Attempts(blocks[i], stopped, line, 0).0, i + 1, k - 1);
    }
  }

  /** The last stage is where the transfer ends. */
  lemma {:induction false} LastStage<L(!new)>(
      blocks: seq<L -> (L, Response)>, end: L -> (L, Response), stopped: L -> bool, line: L, i: nat) returns (n: nat)
    requires i <= |blocks|
    ensures 1 <= n <= |blocks| - i + 1
    ensures Stage(blocks, end, stopped, line, i, n) == Some(SendAll(blocks, end, stopped, line, i).0)
    ensures Stage(blocks, end, stopped, line, i, n + 1) == None
    decreases |blocks| - i
  {
    n := 1;
    if i < |blocks| {
      var (after, result) := Attempts(blocks[i], stopped, line, 0);
      if result == Sent {
        var m := LastStage(blocks, end, stopped, after, i + 1);
        n := m + 1;
      }
    }
  }
}
