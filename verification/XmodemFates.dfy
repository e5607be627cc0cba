/** When a transfer over a noisy line completes, and how many transmissions it takes, told from the fates of the transmissions. */
module XmodemFates {
  import opened Bytes
  import opened StopAndWait
  import opened Xmodem
  import XmodemTrace

  /** The fate of the next transmission, once the script is over one that loses everything. */
  function Head(fates: seq<Fate>): Fate {
    if fates == [] then Fate(Lost, true, Patient, false) else fates[0]
  }

  function Tail(fates: seq<Fate>): seq<Fate> {
    if fates == [] then [] else fates[1..]
  }

  /** The bytes arrive as sent and the answer comes back. */
  predicate Acknowledged(fate: Fate, bytes: seq<byte>, crcMode: bool) {
    && !fate.replyLost
    && match fate.arrival
       case Intact => true
       case Lost => false
       case Damaged(at, first, second) => Distort(bytes, crcMode, at, first, second) == bytes
  }

  /** The number of the first acknowledged transmission among ten, of which k are used up, and the fates behind it. */
  function FirstAck(fates: seq<Fate>, bytes: seq<byte>, crcMode: bool, k: nat): (r: Option<(nat, seq<Fate>)>)
    requires k <= 10
    decreases 10 - k, fates
  {
    if k == 10 then None
    else if Acknowledged(Head(fates), bytes, crcMode) then Some((1, Tail(fates)))
    else
      match FirstAck(Tail(fates), bytes, crcMode, k + 1)
      case None => None
      case Some(later) => Some((1 + later.0, later.1))
  }

  /** The transmissions it takes until each packet from the i-th on has been acknowledged within ten of its own. */
  function Needed(fates: seq<Fate>, packets: seq<seq<byte>>, crcMode: bool, i: nat): (r: Option<nat>)
    requires i <= |packets|
    decreases |packets| - i
  {
    if i == |packets| then Some(0)
    else
      match FirstAck(fates, packets[i], crcMode, 0)
      case None => None
      case Some(first) =>
        var later := Needed(first.1, packets, crcMode, i + 1);
        if later.None? then None else Some(first.0 + later.value)
  }

  /** Nobody cancels and the port works. */
  predicate Undisturbed(fates: seq<Fate>) {
    forall i :: 0 <= i < |fates| ==> fates[i].operator == Patient && !fates[i].portFails
  }

  predicate Steady(line: Line, crcMode: bool) {
    NoticeableNoise(line) && Undisturbed(line.fates) && !line.cancelled && line.rx.crcMode == crcMode
  }

  lemma SteadyNext(line: Line, crcMode: bool, bytes: seq<byte>)
    requires Steady(line, crcMode)
    ensures var (after, response) := Transmit(line, bytes);
            && after.fates == Tail(line.fates) && Undisturbed(after.fates) && NoticeableNoise(after) && !after.cancelled
            && after.transmissions == line.transmissions + 1
            && response != Cancelled && response != PortFailed
  {
    RestNoticeable(line);
    assert Head(line.fates) == NextFate(line);
  }

  lemma ReceiverKeepsMode(rx: Receiver, bytes: seq<byte>)
    ensures Receive(rx, bytes).0.crcMode == rx.crcMode
  {
  }

  /** A block is acknowledged exactly as its fate says, whether the receiver still waits for it or has it already. */
  lemma BlockAnswer(line: Line, file: seq<byte>, crcMode: bool, i: nat)
    requires i < BlockCount(file) && Steady(line, crcMode) && (Holding(line, file, i) || Holding(line, file, i + 1))
    ensures var (after, response) := Transmit(line, BlockPacket(file, crcMode, i));
            && Steady(after, crcMode)
            && (Holding(after, file, i) || Holding(after, file, i + 1)) && (response == Ack ==> Holding(after, file, i + 1))
            && (response == Ack <==> Acknowledged(Head(line.fates), BlockPacket(file, crcMode, i), crcMode))
            && (response == Ack || response == Nak || response == Timeout)
  {
    var packet, fate := BlockPacket(file, crcMode, i), NextFate(line);
    SteadyNext(line, crcMode, packet);
    TransmitBlock(line, file, crcMode, i);
    ReceiveBlock(line.rx, file, crcMode, i);
    ReceiverKeepsMode(line.rx, packet);
    if fate.arrival.Damaged? {
      ReceiveDistorted(line.rx, file, crcMode, i, fate.arrival.at, fate.arrival.first, fate.arrival.second);
    }
  }

  /** So is the end mark. */
  lemma EndAnswer(line: Line, crcMode: bool)
    requires Steady(line, crcMode)
    ensures var (after, response) := Transmit(line, [EOT]);
            && Steady(after, crcMode)
            && (response == Ack <==> Acknowledged(Head(line.fates), [EOT], crcMode))
            && response != PortFailed
  {
    SteadyNext(line, crcMode, [EOT]);
    var fate := NextFate(line);
    if fate.arrival.Damaged? {
      ReceiverKeepsMode(line.rx, Distort([EOT], line.rx.crcMode, fate.arrival.at, fate.arrival.first, fate.arrival.second));
    }
  }

  /** The tries of block i from this line on come to that, as their fates say. */
  predicate TriedAs(line: Line, file: seq<byte>, crcMode: bool, i: nat, outcome: (Line, BlockResult), first: Option<(nat, seq<Fate>)>) {
    match first
    case None => outcome.1 == Exhausted
    case Some(f) =>
      && outcome.1 == Sent && Steady(outcome.0, crcMode) && Holding(outcome.0, file, i + 1)
      && outcome.0.fates == f.1 && outcome.0.transmissions == line.transmissions + f.0
  }

  lemma TriedLater(line: Line, after: Line, file: seq<byte>, crcMode: bool, i: nat, outcome: (Line, BlockResult), first: Option<(nat, seq<Fate>)>)
    requires TriedAs(after, file, crcMode, i, outcome, first) && after.transmissions == line.transmissions + 1
    ensures TriedAs(line, file, crcMode, i, outcome, if first.None? then None else Some((1 + first.value.0, first.value.1)))
  {
  }

  ghost predicate BlockFated(line: Line, file: seq<byte>, crcMode: bool, i: nat, k: nat)
    requires i < BlockCount(file) && k <= MAX_RETRIES
  {
    TriedAs(line, file, crcMode, i, Attempts(Exchanging(Transmit, BlockPacket(file, crcMode, i)), Stopped(), line, k),
            FirstAck(line.fates, BlockPacket(file, crcMode, i), crcMode, k))
  }

  lemma FatedLater(line: Line, after: Line, file: seq<byte>, crcMode: bool, i: nat, k: nat)
    requires i < BlockCount(file) && k < MAX_RETRIES && BlockFated(after, file, crcMode, i, k + 1)
    requires after == Transmit(line, BlockPacket(file, crcMode, i)).0 && !line.cancelled
    requires after.fates == Tail(line.fates) && after.transmissions == line.transmissions + 1
    requires var response := Transmit(line, BlockPacket(file, crcMode, i)).1; response == Nak || response == Timeout
    requires !Acknowledged(Head(line.fates), BlockPacket(file, crcMode, i), crcMode)
    ensures BlockFated(line, file, crcMode, i, k)
  {
    var packet := BlockPacket(file, crcMode, i);
    TriesNext(line, packet, k);
    FirstAckNext(line.fates, packet, crcMode, k);
    var outcome := Attempts(Exchanging(Transmit, packet), Stopped(), after, k + 1);
    TriedLater(line, after, file, crcMode, i, outcome, FirstAck(after.fates, packet, crcMode, k + 1));
  }

  lemma FatedNow(line: Line, file: seq<byte>, crcMode: bool, i: nat, k: nat)
    requires i < BlockCount(file) && k < MAX_RETRIES && Steady(line, crcMode) && (Holding(line, file, i) || Holding(line, file, i + 1))
    requires Transmit(line, BlockPacket(file, crcMode, i)).1 == Ack
    ensures BlockFated(line, file, crcMode, i, k)
  {
    var packet := BlockPacket(file, crcMode, i);
    SteadyNext(line, crcMode, packet);
    BlockAnswer(line, file, crcMode, i);
    TriesNext(line, packet, k);
    FirstAckNext(line.fates, packet, crcMode, k);
  }

  predicate Trying(line: Line, file: seq<byte>, crcMode: bool, i: nat) {
    Steady(line, crcMode) && (Holding(line, file, i) || Holding(line, file, i + 1))
  }

  lemma BlockTryFated(line: Line, file: seq<byte>, crcMode: bool, i: nat, k: nat)
    requires i < BlockCount(file) && k < MAX_RETRIES && Trying(line, file, crcMode, i)
    ensures var after := Transmit(line, BlockPacket(file, crcMode, i)).0;
            || BlockFated(line, file, crcMode, i, k)
            || (Trying(after, file, crcMode, i) && (BlockFated(after, file, crcMode, i, k + 1) ==> BlockFated(line, file, crcMode, i, k)))
  {
    var (after, response) := Transmit(line, BlockPacket(file, crcMode, i));
    if response == Ack {
      FatedNow(line, file, crcMode, i, k);
    } else {
      SteadyNext(line, crcMode, BlockPacket(file, crcMode, i));
      BlockAnswer(line, file, crcMode, i);
      if BlockFated(after, file, crcMode, i, k + 1) { FatedLater(line, after, file, crcMode, i, k); }
    }
  }

  lemma OutOfTries(line: Line, file: seq<byte>, crcMode: bool, i: nat)
    requires i < BlockCount(file)
    ensures BlockFated(line, file, crcMode, i, MAX_RETRIES)
  {
  }

  lemma BlockTries(line: Line, file: seq<byte>, crcMode: bool, i: nat)
    requires i < BlockCount(file) && Trying(line, file, crcMode, i)
    ensures BlockFated(line, file, crcMode, i, 0)
  {
    var fated := (l: Line, k: nat) => k <= MAX_RETRIES && BlockFated(l, file, crcMode, i, k);
    var trying := (l: Line) => Trying(l, file, crcMode, i);
    var next := (l: Line, k: nat) => Transmit(l, BlockPacket(file, crcMode, i)).0;
    forall l | trying(l)
      ensures fated(l, MAX_RETRIES)
    {
      OutOfTries(l, file, crcMode, i);
    }
    forall l, k: nat | trying(l) && k < MAX_RETRIES
      ensures HoldsBefore(fated, trying, next, l, k)
    {
      BlockTryFated(l, file, crcMode, i, k);
    }
    Backwards(fated, trying, next, MAX_RETRIES, line, 0);
  }

  lemma FirstAckNext(fates: seq<Fate>, bytes: seq<byte>, crcMode: bool, k: nat)
    requires k < 10
    ensures var later := FirstAck(Tail(fates), bytes, crcMode, k + 1);
            FirstAck(fates, bytes, crcMode, k)
            == if Acknowledged(Head(fates), bytes, crcMode) then Some((1, Tail(fates)))
               else if later.None? then None else Some((1 + later.value.0, later.value.1))
  {
  }

  /** An answered try ends the tries when it is an ACK; after a NAK, or no answer in time, the packet is tried again. */
  lemma TriesNext(line: Line, bytes: seq<byte>, k: nat)
    requires k < MAX_RETRIES && !line.cancelled
    ensures var (after, response) := Transmit(line, bytes);
            var exchange := Exchanging(Transmit, bytes);
            && (response == Ack ==> Attempts(exchange, Stopped(), line, k) == (after, Sent))
            && (response == Nak || response == Timeout ==>
                  Attempts(exchange, Stopped(), line, k) == Attempts(exchange, Stopped(), after, k + 1))
  {
  }

  lemma {:induction false} EndTries(line: Line, crcMode: bool, k: nat)
    requires Steady(line, crcMode) && k <= MAX_RETRIES
    ensures var (after, result) := EndAttempts(Exchanging(Transmit, [EOT]), line, k);
            match FirstAck(line.fates, [EOT], crcMode, k)
            case None => result == Exhausted
            case Some(first) => result == Sent && after.transmissions == line.transmissions + first.0
    decreases MAX_RETRIES - k, line
  {
    if k < MAX_RETRIES {
      var (after, response) := Exchanging(Transmit, [EOT])(line);
      SteadyNext(line, crcMode, [EOT]);
      EndAnswer(line, crcMode);
      if response != Ack { EndTries(after, crcMode, k + 1); }
    }
  }

  /** What a transfer from block i on comes to. */
  ghost predicate ComesTo(line: Line, file: seq<byte>, crcMode: bool, i: nat)
    requires i <= BlockCount(file)
  {
    var (after, result) := SendFrom(LinePort(), line, file, crcMode, i);
    match Needed(line.fates, XmodemTrace.Packets(file, crcMode), crcMode, i)
    case None => result == BlockFailed || result == EotFailed
    case Some(n) => result == Completed && after.transmissions == line.transmissions + n
  }

  lemma {:induction false} TransferFrom(line: Line, file: seq<byte>, crcMode: bool, i: nat)
    requires i <= BlockCount(file) && Steady(line, crcMode) && Holding(line, file, i)
    ensures ComesTo(line, file, crcMode, i)
    decreases BlockCount(file) - i
  {
    var packets := XmodemTrace.Packets(file, crcMode);
    if i == BlockCount(file) {
      EndTries(line, crcMode, 0);
      NeededLast(line.fates, packets, crcMode);
    } else {
      BlockTries(line, file, crcMode, i);
      var (after, result) := Attempts(Exchanging(Transmit, BlockPacket(file, crcMode, i)), Stopped(), line, 0);
      if result == Sent {
        TransferFrom(after, file, crcMode, i + 1);
      }
    }
  }

  lemma NeededLast(fates: seq<Fate>, packets: seq<seq<byte>>, crcMode: bool)
    requires packets != []
    ensures var first := FirstAck(fates, packets[|packets| - 1], crcMode, 0);
            Needed(fates, packets, crcMode, |packets| - 1) == if first.None? then None else Some(first.value.0)
  {
  }

  /**
   A transfer that nobody cancels, over a port that works and to a receiver in
   the sender's check mode, completes exactly when each block, and then the end
   mark, has an acknowledged transmission among its ten; it then takes just the
   transmissions up to those, and otherwise fails at a block or at the end mark.
   */
  lemma CompletesAsFated(line: Line, file: seq<byte>, useCrc: bool, opening: Opening)
    requires file != [] && (opening == OpenC || opening == OpenNak)
    requires var crcMode := opening == OpenC && useCrc;
             line.rx == Receiver(crcMode, [], 1) && NoticeableNoise(line) && Undisturbed(line.fates) && !line.cancelled
    ensures var crcMode := opening == OpenC && useCrc;
            var (after, result) := SendFile(LinePort(), line, file, useCrc, opening);
            match Needed(line.fates, XmodemTrace.Packets(file, crcMode), crcMode, 0)
            case None => result == BlockFailed || result == EotFailed
            case Some(n) => result == Completed && after.transmissions == line.transmissions + n
  {
    StartHolds(line, file);
    TransferFrom(line, file, opening == OpenC && useCrc, 0);
  }
}
