/** How a transfer ends, told from the transmissions made and the answers to them. */
module XmodemTrace {
  import opened Bytes
  import opened StopAndWait
  import opened Xmodem
  import opened Crc

  datatype Entry = Entry(bytes: seq<byte>, response: Response)

  /** A line together with what was sent over it and what came back. */
  datatype Logged<L> = Logged(line: L, log: seq<Entry>)

  function Logging<L>(exchange: L -> (L, Response), bytes: seq<byte>, s: Logged<L>): (r: (Logged<L>, Response)) {
    var (after, response) := exchange(s.line);
    (Logged(after, s.log + [Entry(bytes, response)]), response)
  }

  function LogTransmit<L>(transmit: (L, seq<byte>) -> (L, Response)): (Logged<L>, seq<byte>) -> (Logged<L>, Response) {
    (s: Logged<L>, bytes: seq<byte>) => Logging(Exchanging(transmit, bytes), bytes, s)
  }

  function LogPort<L>(port: Port<L>): Port<Logged<L>> {
    Port(LogTransmit(port.transmit), (s: Logged<L>) => port.cancelled(s.line), (s: Logged<L>) => Logged(port.tell(s.line), s.log))
  }

  // ---- the log only watches ------------------------------------------------

  /** The one exchange is the other with a log. */
  ghost predicate Watches<L(!new)>(logged: Logged<L> -> (Logged<L>, Response), exchange: L -> (L, Response), bytes: seq<byte>) {
    forall s {:trigger logged(s)} :: logged(s) == Logging(exchange, bytes, s)
  }

  ghost predicate SameStop<L(!new)>(logged: Logged<L> -> bool, stopped: L -> bool) {
    forall s {:trigger logged(s)} :: logged(s) <==> stopped(s.line)
  }

  /** What was added to a log. */
  predicate Extends(log: seq<Entry>, added: seq<Entry>, after: seq<Entry>) {
    after == log + added
  }

  predicate Ends(response: Response) {
    response == Ack || response == Can || response == PortFailed
  }

  /** Tries of one packet: all but the last were answered with something that calls for another try. */
  predicate Tries(added: seq<Entry>, bytes: seq<byte>, most: nat) {
    && |added| <= most
    && (forall j :: 0 <= j < |added| ==> added[j].bytes == bytes)
    && forall j :: 0 <= j < |added| - 1 ==> !Ends(added[j].response)
  }

  function LastResponse(added: seq<Entry>): Option<Response> {
    if added == [] then None else Some(added[|added| - 1].response)
  }

  /** How the tries of a block end, by the last answer and their number. */
  predicate BlockEnds(added: seq<Entry>, most: nat, result: BlockResult) {
    && (result == Sent <==> LastResponse(added) == Some(Ack))
    && (result == ReceiverStopped <==> LastResponse(added) == Some(Can))
    && (result == PortLost <==> LastResponse(added) == Some(PortFailed))
    && (result == Exhausted <==> |added| == most && (added == [] || !Ends(LastResponse(added).value)))
  }

  lemma {:induction false} AttemptsLogged<L(!new)>(
      logged: Logged<L> -> (Logged<L>, Response), exchange: L -> (L, Response), bytes: seq<byte>,
      logStop: Logged<L> -> bool, stopped: L -> bool, s: Logged<L>, retries: nat)
    returns (added: seq<Entry>)
    requires retries <= MAX_RETRIES && Watches(logged, exchange, bytes) && SameStop(logStop, stopped)
    ensures var (after, result) := Attempts(logged, logStop, s, retries);
            && (after.line, result) == Attempts(exchange, stopped, s.line, retries)
            && Extends(s.log, added, after.log) && Tries(added, bytes, MAX_RETRIES - retries)
            && BlockEnds(added, MAX_RETRIES - retries, result)
    decreases MAX_RETRIES - retries, logged
  {
    added := [];
    if retries < MAX_RETRIES && !stopped(s.line) {
      assert !logStop(s);
      var (after, response) := logged(s);
      assert logged(s) == Logging(exchange, bytes, s);
      var first := Entry(bytes, response);
      if !Ends(response) {
        var rest := AttemptsLogged(logged, exchange, bytes, logStop, stopped, after, retries + 1);
        added := [first] + rest;
        assert s.log + added == after.log + rest;
      } else {
        added := [first];
      }
    } else {
      assert retries < MAX_RETRIES ==> logStop(s);
      assert s.log + [] == s.log;
    }
  }

  /** Tries of the end mark: nothing but an acknowledgement or a failure of the port ends them early. */
  predicate EndTries(added: seq<Entry>, bytes: seq<byte>, most: nat) {
    && |added| <= most
    && (forall j :: 0 <= j < |added| ==> added[j].bytes == bytes)
    && forall j :: 0 <= j < |added| - 1 ==> added[j].response != Ack && added[j].response != PortFailed
  }

  predicate EndEnds(added: seq<Entry>, most: nat, result: BlockResult) {
    && (result == Sent <==> LastResponse(added) == Some(Ack))
    && (result == PortLost <==> LastResponse(added) == Some(PortFailed))
    && (result == Exhausted <==> |added| == most && LastResponse(added) != Some(Ack) && LastResponse(added) != Some(PortFailed))
    && (result == Sent || result == PortLost || result == Exhausted)
  }

  lemma {:induction false} EndLogged<L(!new)>(
      logged: Logged<L> -> (Logged<L>, Response), exchange: L -> (L, Response), bytes: seq<byte>, s: Logged<L>, retries: nat)
    returns (added: seq<Entry>)
    requires retries <= MAX_RETRIES && Watches(logged, exchange, bytes)
    ensures var (after, result) := EndAttempts(logged, s, retries);
            && (after.line, result) == EndAttempts(exchange, s.line, retries)
            && Extends(s.log, added, after.log) && EndTries(added, bytes, MAX_RETRIES - retries)
            && EndEnds(added, MAX_RETRIES - retries, result)
    decreases MAX_RETRIES - retries, logged
  {
    added := [];
    if retries < MAX_RETRIES {
      var (after, response) := logged(s);
      assert logged(s) == Logging(exchange, bytes, s);
      var first := Entry(bytes, response);
      if response != Ack && response != PortFailed {
        var rest := EndLogged(logged, exchange, bytes, after, retries + 1);
        added := [first] + rest;
        assert s.log + added == after.log + rest;
      } else {
        added := [first];
      }
    } else {
      assert s.log + [] == s.log;
    }
  }

  // ---- the whole transfer --------------------------------------------------

  /** The packets of the file, and the end mark. */
  function Packets(file: seq<byte>, crcMode: bool): (r: seq<seq<byte>>)
    ensures |r| == BlockCount(file) + 1 && r[BlockCount(file)] == [EOT]
    ensures forall i :: 0 <= i < BlockCount(file) ==> r[i] == BlockPacket(file, crcMode, i) && r[i] != [EOT]
  {
    seq(BlockCount(file), i requires 0 <= i < BlockCount(file) => BlockPacket(file, crcMode, i)) + [[EOT]]
  }

  /**
   The log of a transfer of the packets from the i-th on: each packet is tried
   up to ten times, the next one follows an acknowledgement and nothing else,
   and the end is as the last answers say.
   */
  ghost predicate Trace(packets: seq<seq<byte>>, i: nat, log: seq<Entry>, result: Transfer)
    requires i < |packets|
    decreases |packets| - i
  {
    if i + 1 == |packets| then
      && EndTries(log, packets[i], MAX_RETRIES)
      && (result == Completed <==> LastResponse(log) == Some(Ack))
      && (result == PortError(true) <==> LastResponse(log) == Some(PortFailed))
      && (result == EotFailed <==> |log| == MAX_RETRIES && LastResponse(log) != Some(Ack) && LastResponse(log) != Some(PortFailed))
      && (result == Completed || result == PortError(true) || result == EotFailed)
    else
      exists n: nat :: n <= |log| && BlockTrace(packets, i, log[..n], log[n..], result)
  }

  /** Block i of the transfer has the first entries, and the later packets have the rest. */
  ghost predicate BlockTrace(packets: seq<seq<byte>>, i: nat, tries: seq<Entry>, rest: seq<Entry>, result: Transfer)
    requires i + 1 < |packets|
    decreases |packets| - i, 0
  {
    && Tries(tries, packets[i], MAX_RETRIES)
    && (if LastResponse(tries) == Some(Ack) then Trace(packets, i + 1, rest, result)
        else
          && rest == []
          && (result == CancelledByReceiver <==> LastResponse(tries) == Some(Can))
          && (result == PortError(false) <==> LastResponse(tries) == Some(PortFailed))
          && (result == BlockFailed <==> |tries| == MAX_RETRIES && !Ends(LastResponse(tries).value))
          && (result == CancelledByReceiver || result == PortError(false) || result == BlockFailed || result == CancelledByOperator))
  }

  lemma {:induction false} SendAllLogged<L(!new)>(
      logged: seq<Logged<L> -> (Logged<L>, Response)>, exchanges: seq<L -> (L, Response)>, packets: seq<seq<byte>>,
      logStop: Logged<L> -> bool, stopped: L -> bool, logEnd: Logged<L> -> (Logged<L>, Response), end: L -> (L, Response),
      s: Logged<L>, i: nat)
    returns (added: seq<Entry>)
    requires i <= |logged| == |exchanges| == |packets| - 1 && SameStop(logStop, stopped)
    requires forall k :: 0 <= k < |logged| ==> Watches(logged[k], exchanges[k], packets[k])
    requires Watches(logEnd, end, packets[|logged|])
    ensures var (after, result) := SendAll(logged, logEnd, logStop, s, i);
            && (after.line, result) == SendAll(exchanges, end, stopped, s.line, i)
            && Extends(s.log, added, after.log) && Trace(packets, i, added, result)
    decreases |logged| - i
  {
    if i == |logged| {
      added := EndLogged(logEnd, end, packets[i], s, 0);
      EndIsTraced(packets, added, EndAttempts(logEnd, s, 0).1, SendAll(logged, logEnd, logStop, s, i).1);
    } else {
      var tries := AttemptsLogged(logged[i], exchanges[i], packets[i], logStop, stopped, s, 0);
      var (after, result) := Attempts(logged[i], logStop, s, 0);
      var rest := [];
      if result == Sent {
        rest := SendAllLogged(logged, exchanges, packets, logStop, stopped, logEnd, end, after, i + 1);
      }
      added := tries + rest;
      BlockIsTraced(packets, i, tries, rest, result, SendAll(logged, logEnd, logStop, s, i).1);
      LogsJoin(s.log, tries, after.log, rest);
    }
  }

  lemma LogsJoin(log: seq<Entry>, tries: seq<Entry>, after: seq<Entry>, rest: seq<Entry>)
    requires Extends(log, tries, after)
    ensures Extends(log, tries + rest, after + rest)
  {
    assert log + (tries + rest) == (log + tries) + rest;
  }

  /** What became of the end mark. */
  lemma EndIsTraced(packets: seq<seq<byte>>, tries: seq<Entry>, end: BlockResult, result: Transfer)
    requires packets != [] && EndTries(tries, packets[|packets| - 1], MAX_RETRIES) && EndEnds(tries, MAX_RETRIES, end)
    requires result == if end == Sent then Completed else if end == PortLost then PortError(true) else EotFailed
    ensures Trace(packets, |packets| - 1, tries, result)
  {
  }

  /** What became of block i, and with what transfer that ends. */
  lemma BlockIsTraced(packets: seq<seq<byte>>, i: nat, tries: seq<Entry>, rest: seq<Entry>, block: BlockResult, result: Transfer)
    requires i + 1 < |packets| && Tries(tries, packets[i], MAX_RETRIES) && BlockEnds(tries, MAX_RETRIES, block)
    requires if block == Sent then Trace(packets, i + 1, rest, result) else rest == []
    requires match block
             case Sent => true
             case OperatorStopped => result == CancelledByOperator
             case ReceiverStopped => result == CancelledByReceiver
             case Exhausted => result == BlockFailed
             case PortLost => result == PortError(false)
    ensures Trace(packets, i, tries + rest, result)
  {
    JoinTrace(packets, i, tries, rest, result);
  }

  lemma JoinTrace(packets: seq<seq<byte>>, i: nat, tries: seq<Entry>, rest: seq<Entry>, result: Transfer)
    requires i + 1 < |packets| && BlockTrace(packets, i, tries, rest, result)
    ensures Trace(packets, i, tries + rest, result)
  {
    var n, log := |tries|, tries + rest;
    assert log[..n] == tries && log[n..] == rest;
  }

  /** Every transfer over every port has such a log, and the log changes nothing. */
  lemma TransferIsTraced<L(!new)>(port: Port<L>, line: L, file: seq<byte>, crcMode: bool)
    ensures var (after, result) := SendFrom(LogPort(port), Logged(line, []), file, crcMode, 0);
            && (after.line, result) == SendFrom(port, line, file, crcMode, 0)
            && Trace(Packets(file, crcMode), 0, after.log, result)
  {
    var packets := Packets(file, crcMode);
    var logged, exchanges := BlockExchanges(LogTransmit(port.transmit), file, crcMode), BlockExchanges(port.transmit, file, crcMode);
    var logEnd, end := Exchanging(LogTransmit(port.transmit), [EOT]), Exchanging(port.transmit, [EOT]);
    forall k | 0 <= k < |logged|
      ensures Watches(logged[k], exchanges[k], packets[k])
    {
      ExchangeIsWatched(port.transmit, packets[k]);
    }
    ExchangeIsWatched(port.transmit, [EOT]);
    var added := SendAllLogged(logged, exchanges, packets, LogPort(port).cancelled, port.cancelled, logEnd, end, Logged(line, []), 0);
    assert [] + added == added;
  }

  lemma ExchangeIsWatched<L(!new)>(transmit: (L, seq<byte>) -> (L, Response), bytes: seq<byte>)
    ensures Watches(Exchanging(LogTransmit(transmit), bytes), Exchanging(transmit, bytes), bytes)
  {
    forall s: Logged<L>
      ensures Exchanging(LogTransmit(transmit), bytes)(s) == Logging(Exchanging(transmit, bytes), bytes, s)
    {
    }
  }

  // ---- what the last answers say -------------------------------------------

  /** The log ends with that answer to a block. */
  predicate BlockAnswered(log: seq<Entry>, response: Response) {
    log != [] && log[|log| - 1].bytes != [EOT] && log[|log| - 1].response == response
  }

  predicate EndAnswered(log: seq<Entry>, response: Response) {
    log != [] && log[|log| - 1] == Entry([EOT], response)
  }

  /** The last ten entries are tries of one packet, none of them answered with the given end of it. */
  predicate TenTimes(log: seq<Entry>, block: bool) {
    && |log| >= MAX_RETRIES
    && forall j :: |log| - MAX_RETRIES <= j < |log| ==>
         && log[j].bytes == log[|log| - 1].bytes && (log[j].bytes != [EOT] <==> block)
         && log[j].response != Ack && log[j].response != PortFailed && (block ==> log[j].response != Can)
  }

  lemma {:induction false} TraceEnds(packets: seq<seq<byte>>, i: nat, log: seq<Entry>, result: Transfer)
    requires i < |packets| && Trace(packets, i, log, result) && packets[|packets| - 1] == [EOT]
    requires forall k :: 0 <= k < |packets| - 1 ==> packets[k] != [EOT]
    ensures result == Completed <==> EndAnswered(log, Ack)
    ensures result == CancelledByReceiver <==> BlockAnswered(log, Can)
    ensures result == PortError(false) <==> BlockAnswered(log, PortFailed)
    ensures result == PortError(true) <==> EndAnswered(log, PortFailed)
    ensures result == EotFailed ==> TenTimes(log, false)
    ensures result == BlockFailed ==> TenTimes(log, true)
    decreases |packets| - i
  {
    if i + 1 < |packets| {
      var n: nat :| n <= |log| && BlockTrace(packets, i, log[..n], log[n..], result);
      if LastResponse(log[..n]) == Some(Ack) {
        TraceEnds(packets, i + 1, log[n..], result);
        LaterEntries(log, n);
      } else {
        assert log[n..] == [] && log[..n] == log;
      }
    }
  }

  /** The end of a log is the end of its later part, or where that part would begin. */
  lemma LaterEntries(log: seq<Entry>, n: nat)
    requires n <= |log|
    ensures n < |log| ==> log[|log| - 1] == log[n..][|log| - n - 1]
    ensures n == |log| ==> log[n..] == [] && log[..n] == log
    ensures TenTimes(log[n..], true) ==> TenTimes(log, true)
    ensures TenTimes(log[n..], false) ==> TenTimes(log, false)
  {
    if |log| - n >= MAX_RETRIES {
      forall j | |log| - MAX_RETRIES <= j < |log|
        ensures log[j] == log[n..][j - n]
      {
      }
    }
  }

  /**
   How every transfer over every port ends, told from its log: completed
   exactly when the end mark is acknowledged last, cancelled by the receiver
   exactly when a block is answered with CAN last, with a port error exactly
   when the port fails last; and it fails only after ten tries in a row of one
   packet, none of which was answered with an end of it.
   */
  lemma EndsAsAnswered<L(!new)>(port: Port<L>, line: L, file: seq<byte>, crcMode: bool)
    ensures var (after, result) := SendFrom(LogPort(port), Logged(line, []), file, crcMode, 0);
            && (after.line, result) == SendFrom(port, line, file, crcMode, 0)
            && (result == Completed <==> EndAnswered(after.log, Ack))
            && (result == CancelledByReceiver <==> BlockAnswered(after.log, Can))
            && (result == PortError(false) <==> BlockAnswered(after.log, PortFailed))
            && (result == PortError(true) <==> EndAnswered(after.log, PortFailed))
            && (result == BlockFailed ==> TenTimes(after.log, true))
            && (result == EotFailed ==> TenTimes(after.log, false))
  {
    TransferIsTraced(port, line, file, crcMode);
    var (after, result) := SendFrom(LogPort(port), Logged(line, []), file, crcMode, 0);
    TraceEnds(Packets(file, crcMode), 0, after.log, result);
  }

  // ---- what is sent --------------------------------------------------------

  /** The bytes of each packet: 1, the block number and its complement, the block with 26 behind the file, and the check. */
  lemma PacketLayout(file: seq<byte>, crcMode: bool, i: nat)
    requires i < BlockCount(file)
    ensures |Packets(file, crcMode)| == (|file| + 127) / 128 + 1 && Packets(file, crcMode)[BlockCount(file)] == [4]
    ensures var packet := Packets(file, crcMode)[i];
            && |packet| == (if crcMode then 133 else 132)
            && packet[0] == 1 && packet[1] as int == (i + 1) % 256 && packet[1] as int + packet[2] as int == 255
            && (forall j :: 3 <= j < 131 ==> packet[j] == if i * 128 + j - 3 < |file| then file[i * 128 + j - 3] else 26)
            && packet[131..] == (if crcMode then CrcBytes(packet[3..131]) else [Sum(packet[3..131]) % 256])
  {
    var packet, block := BlockPacket(file, crcMode, i), BlockAt(file, i);
    BlocksOfFile(|file|);
    assert packet[3..131] == block;
    BlockBytes(file, i);
  }

  lemma BlocksOfFile(n: nat)
    ensures CeilDiv(n, 128) == (n + 127) / 128
  {
    DivModUnique(n + 127, 128, (n + 127) / 128, (n + 127) % 128);
  }

  lemma BlockBytes(file: seq<byte>, i: nat)
    requires i < BlockCount(file)
    ensures forall j :: 0 <= j < 128 ==> BlockAt(file, i)[j] == if i * 128 + j < |file| then file[i * 128 + j] else 26
  {
    CeilDivBounds(|file|, 128);
  }

  /** A log starts with the first packet, if it does not stop for the operator at once. */
  lemma FirstEntry(packets: seq<seq<byte>>, log: seq<Entry>, result: Transfer)
    requires |packets| > 1 && Trace(packets, 0, log, result)
    ensures if log == [] then result == CancelledByOperator else log[0].bytes == packets[0]
  {
    var n: nat :| n <= |log| && BlockTrace(packets, 0, log[..n], log[n..], result);
  }

  lemma StoppedAtOnce<L>(port: Port<L>, line: L, file: seq<byte>, crcMode: bool)
    requires file != [] && port.cancelled(line)
    ensures SendFrom(port, line, file, crcMode, 0) == (line, CancelledByOperator)
  {
    CeilDivBounds(|file|, 128);
  }

  /**
   What the opening byte leads to. A closed port and an empty file send
   nothing, nor does any opening but C and NAK; after those the first packet
   carries a CRC exactly when C came and CRC is wanted.
   */
  lemma OpeningDecides<L(!new)>(port: Port<L>, line: L, file: seq<byte>, useCrc: bool, opening: Opening)
    ensures var (after, result) := SendFile(LogPort(port), Logged(line, []), file, useCrc, opening);
            && (result == NotOpen <==> opening == PortClosed)
            && (result == NoReceiver <==> opening == OpenTimeout && file != [])
            && (file == [] && opening != PortClosed ==> result == Completed)
            && (file != [] && opening == OpenCan ==> result == CancelledByReceiver)
            && (file != [] && opening == OpenCancelled ==> result == CancelledByOperator && after == Logged(port.tell(line), []))
            && (file == [] || (opening != OpenC && opening != OpenNak && opening != OpenCancelled) ==> after == Logged(line, []))
    ensures var (after, result) := SendFile(LogPort(port), Logged(line, []), file, useCrc, opening);
            file != [] && (opening == OpenC || opening == OpenNak) ==>
              && (port.cancelled(line) ==> result == CancelledByOperator && after == Logged(port.tell(line), []))
              && (after.log == [] ==> result == CancelledByOperator)
              && (after.log != [] ==> |after.log[0].bytes| == if opening == OpenC && useCrc then 133 else 132)
  {
    if file != [] && (opening == OpenC || opening == OpenNak) {
      var crcMode := opening == OpenC && useCrc;
      CeilDivBounds(|file|, 128);
      TransferIsTraced(port, line, file, crcMode);
      var (after, result) := SendFrom(LogPort(port), Logged(line, []), file, crcMode, 0);
      FirstEntry(Packets(file, crcMode), after.log, result);
      if port.cancelled(line) { StoppedAtOnce(LogPort(port), Logged(line, []), file, crcMode); }
      NeverAnotherEnd(Packets(file, crcMode), 0, after.log, result);
    }
  }

  /** The packets themselves never end as a transfer that was not opened does. */
  lemma {:induction false} NeverAnotherEnd(packets: seq<seq<byte>>, i: nat, log: seq<Entry>, result: Transfer)
    requires i < |packets| && Trace(packets, i, log, result)
    ensures result != NotOpen && result != NoReceiver
    decreases |packets| - i
  {
    if i + 1 < |packets| {
      var n: nat :| n <= |log| && BlockTrace(packets, i, log[..n], log[n..], result);
      if LastResponse(log[..n]) == Some(Ack) { NeverAnotherEnd(packets, i + 1, log[n..], result); }
    }
  }
}
