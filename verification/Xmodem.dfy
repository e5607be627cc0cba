/** The XMODEM sender as a stop-and-wait protocol over a line that loses, damages and delays. */
module Xmodem {
  import opened Bytes
  import opened Crc
  import opened StopAndWait

  const SOH: byte := 0x01
  const EOT: byte := 0x04
  const BLOCK_SIZE: nat := 128

  // ---- packets -------------------------------------------------------------

  function CheckBytes(data: seq<byte>, crcMode: bool): (r: seq<byte>) {
    if crcMode then CrcBytes(data) else [Sum(data) % 256]
  }

  /** Header, block number and its complement, data, check bytes. */
  function Packet(num: byte, data: seq<byte>, crcMode: bool): (r: seq<byte>)
    ensures |r| == 3 + |data| + |CheckBytes(data, crcMode)|
  {
    [SOH, num, 255 - num] + data + CheckBytes(data, crcMode)
  }

  method Checksum(data: seq<byte>) returns (sum: byte)
    ensures sum == Sum(data) % 256
  {
    sum := 0;
    for i := 0 to |data|
      invariant sum == Sum(data[..i]) % 256
    {
      assert data[..i + 1][..i] == data[..i];
      sum := (sum + data[i]) % 256;
    }
    assert data[..|data|] == data;
  }

  method BuildPacket(blockNum: byte, data: seq<byte>, crcMode: bool) returns (packet: seq<byte>)
    requires |data| == BLOCK_SIZE
    ensures packet == Packet(blockNum, data, crcMode)
  {
    var complement := 255 - blockNum;
    if crcMode {
      var crc := ComputeCrc16(data);
      packet := [SOH, blockNum, complement] + data + RegisterBytes(crc);
    } else {
      var checksum := Checksum(data);
      packet := [SOH, blockNum, complement] + data + [checksum];
    }
  }

  // ---- the receiver --------------------------------------------------------

  /** The far end: the check it expects, the data it has taken and the block number it waits for. */
  datatype Receiver = Receiver(crcMode: bool, data: seq<byte>, expected: byte)

  predicate ValidPacket(crcMode: bool, bytes: seq<byte>) {
    && |bytes| == (if crcMode then 133 else 132)
    && bytes[0] == SOH
    && bytes[1] as int + bytes[2] as int == 255
    && if crcMode then Crc16(bytes[3..]) == Zeros(16) else bytes[131] == Sum(bytes[3..131]) % 256
  }

  function Next(num: byte): byte {
    (num + 1) % 256
  }

  /**
   A valid block with the number waited for is taken, the one before it is
   acknowledged again, any other number breaks the transfer off, and anything
   else is refused.
   */
  function Receive(rx: Receiver, bytes: seq<byte>): (r: (Receiver, Response)) {
    if bytes == [EOT] then (rx, Ack)
    else if !ValidPacket(rx.crcMode, bytes) then (rx, Nak)
    else if bytes[1] == rx.expected then
      (rx.(data := rx.data + bytes[3..131], expected := Next(rx.expected)), Ack)
    else if Next(bytes[1]) == rx.expected then (rx, Ack)
    else (rx, Can)
  }

  // ---- the line ------------------------------------------------------------

  /** What the line does to one transmission: pass it, change bytes at a place, or lose it. */
  datatype Arrival = Intact | Damaged(at: nat, first: byte, second: byte) | Lost

  /** The operator may cancel before the answer to a transmission is waited for, or during that wait, which ends it. */
  datatype Operator = Patient | CancelsBefore | CancelsWaiting

  /** What becomes of one transmission and of the answer to it, unless the port fails to write it. */
  datatype Fate = Fate(arrival: Arrival, replyLost: bool, operator: Operator, portFails: bool)

  /**
   In CRC mode noise may change two adjacent bytes, in checksum mode one.
   Changing number and complement together so that they still match is the
   one such change no receiver can notice.
   */
  predicate Noticeable(fate: Fate) {
    fate.arrival.Damaged? && fate.arrival.at == 1 ==> fate.arrival.first as int + fate.arrival.second as int != 255
  }

  function Distort(bytes: seq<byte>, crcMode: bool, at: nat, first: byte, second: byte): (r: seq<byte>)
    ensures |r| == |bytes|
  {
    if crcMode && at + 1 < |bytes| then bytes[at := first][at + 1 := second]
    else if at < |bytes| then bytes[at := first]
    else bytes
  }

  /**
   The rest of the line's behaviour, the receiver, how many transmissions there
   have been, whether the operator has cancelled, how many transmissions there
   have been since, and how often the receiver was told.
   */
  datatype Line = Line(fates: seq<Fate>, rx: Receiver, transmissions: nat, cancelled: bool, late: nat, told: nat)

  /** A line whose script has run out loses everything. */
  function NextFate(line: Line): Fate {
    if line.fates == [] then Fate(Lost, true, Patient, false) else line.fates[0]
  }

  function RestOf(line: Line): seq<Fate> {
    if line.fates == [] then [] else line.fates[1..]
  }

  /** One transmission and the wait for its answer. */
  function Transmit(line: Line, bytes: seq<byte>): (r: (Line, Response)) {
    var fate := NextFate(line);
    var (rx, reply) :=
      if fate.portFails then (line.rx, PortFailed)
      else match fate.arrival
      case Lost => (line.rx, Timeout)
      case Intact => Receive(line.rx, bytes)
      case Damaged(at, first, second) => Receive(line.rx, Distort(bytes, line.rx.crcMode, at, first, second));
    (Line(RestOf(line), rx, line.transmissions + 1, line.cancelled || fate.operator != Patient,
          line.late + if line.cancelled then 1 else 0, line.told),
     if fate.portFails then PortFailed else if fate.operator == CancelsWaiting then Cancelled else if fate.replyLost then Timeout else reply)
  }

  /** The two CAN bytes that tell the receiver of a cancellation. */
  function Tell(line: Line): Line {
    line.(told := line.told + 1)
  }

  /** What the sender sees of a line: transmissions with their answers, the operator's flag, and how the receiver is told. */
  datatype Port<!L> = Port(transmit: (L, seq<byte>) -> (L, Response), cancelled: L -> bool, tell: L -> L)

  function LinePort(): Port<Line> {
    Port(Transmit, Stopped(), Tell)
  }

  function Stopped(): Line -> bool {
    (line: Line) => line.cancelled
  }

  /** Transmissions of the given bytes. */
  function Exchanging<L>(transmit: (L, seq<byte>) -> (L, Response), bytes: seq<byte>): L -> (L, Response) {
    line => transmit(line, bytes)
  }

  /** The terminal port: write bytes, wait for a response byte. What happens to them is the line's affair. */
  class Link<L> {
    const port: Port<L>
    var line: L

    constructor (port: Port<L>, line: L)
      ensures this.port == port && this.line == line
    {
      this.port := port;
      this.line := line;
    }

    method Exchange(bytes: seq<byte>) returns (response: Response)
      modifies this
      ensures (line, response) == port.transmit(old(line), bytes)
    {
      var (after, reply) := port.transmit(line, bytes);
      line, response := after, reply;
    }

    method SendCancel()
      modifies this
      ensures line == port.tell(old(line))
    {
      line := port.tell(line);
    }
  }

  // ---- the sender ----------------------------------------------------------

  /** The byte that opens the transfer, or why none came; or that the port is not open. */
  datatype Opening = OpenC | OpenNak | OpenCan | OpenTimeout | OpenCancelled | PortClosed

  function BlockCount(file: seq<byte>): nat {
    CeilDiv(|file|, BLOCK_SIZE)
  }

  /** Block i of the file, the last one filled up with 0x1A. */
  function BlockAt(file: seq<byte>, i: nat): (data: seq<byte>)
    requires i < BlockCount(file)
    ensures |data| == BLOCK_SIZE
  {
    CeilDivBounds(|file|, 128);
    if i * 128 + 128 <= |file| then file[i * 128..i * 128 + 128]
    else file[i * 128..] + Repeat(EOF_MARK, 128 - (|file| - i * 128))
  }

  function BlockPacket(file: seq<byte>, crcMode: bool, i: nat): seq<byte>
    requires i < BlockCount(file)
  {
    Packet((i + 1) % 256, BlockAt(file, i), crcMode)
  }

  function BlockExchanges<L>(transmit: (L, seq<byte>) -> (L, Response), file: seq<byte>, crcMode: bool)
    : (r: seq<L -> (L, Response)>)
    ensures |r| == BlockCount(file)
  {
    seq(BlockCount(file), i requires 0 <= i < BlockCount(file) => Exchanging(transmit, BlockPacket(file, crcMode, i)))
  }

  /** The transfer from block i on. */
  function SendFrom<L>(port: Port<L>, line: L, file: seq<byte>, crcMode: bool, i: nat)
    : (r: (L, Transfer))
    requires i <= BlockCount(file)
  {
    SendAll(BlockExchanges(port.transmit, file, crcMode), Exchanging(port.transmit, [EOT]), port.cancelled, line, i)
  }

  /** A transfer given up because the operator cancelled tells the receiver. */
  function Announced<L>(port: Port<L>, outcome: (L, Transfer)): (r: (L, Transfer)) {
    (if outcome.1 == CancelledByOperator then port.tell(outcome.0) else outcome.0, outcome.1)
  }

  function SendFile<L>(port: Port<L>, line: L, file: seq<byte>, useCrc: bool, opening: Opening)
    : (r: (L, Transfer))
  {
    if opening == PortClosed then (line, NotOpen)
    else if file == [] then (line, Completed)
    else if opening == OpenTimeout then (line, NoReceiver)
    else if opening == OpenCancelled then Announced(port, (line, CancelledByOperator))
    else if opening == OpenCan then (line, CancelledByReceiver)
    else Announced(port, SendFrom(port, line, file, opening == OpenC && useCrc, 0))
  }

  /** The sender's loops: blocks, attempts at a block, attempts at the end mark. */
  class XmodemSender<L> {
    const terminal: Link<L>

    constructor (terminal: Link<L>)
      ensures this.terminal == terminal
    {
      this.terminal := terminal;
    }

    method Send(file: seq<byte>, useCrc: bool, opening: Opening) returns (result: Transfer)
      modifies terminal
      ensures (terminal.line, result) == SendFile(terminal.port, old(terminal.line), file, useCrc, opening)
    {
      if opening == PortClosed {
        return NotOpen;
      }
      if |file| == 0 {
        return Completed;
      }
      if opening == OpenTimeout {
        return NoReceiver;
      }
      if opening == OpenCancelled {
        terminal.SendCancel();
        return CancelledByOperator;
      }
      if opening == OpenCan {
        return CancelledByReceiver;
      }
      result := SendBlocks(file, opening == OpenC && useCrc);
    }

    method SendBlocks(file: seq<byte>, crcMode: bool) returns (result: Transfer)
      modifies terminal
      ensures (terminal.line, result) == Announced(terminal.port, SendFrom(terminal.port, old(terminal.line), file, crcMode, 0))
    {
      var totalBlocks := BlockCount(file);
      var blockNum := 1;
      for blockIndex := 0 to totalBlocks
        invariant blockNum == blockIndex + 1
        invariant SendFrom(terminal.port, terminal.line, file, crcMode, blockIndex) == SendFrom(terminal.port, old(terminal.line), file, crcMode, 0)
      {
        if terminal.port.cancelled(terminal.line) {
          terminal.SendCancel();
          return CancelledByOperator;
        }
        var packet := BuildBlock(file, blockIndex, blockNum, crcMode);
        assert BlockExchanges(terminal.port.transmit, file, crcMode)[blockIndex] == Exchanging(terminal.port.transmit, packet);
        var block := SendPacket(packet);
        match block {
          case OperatorStopped =>
            terminal.SendCancel();
            return CancelledByOperator;
          case ReceiverStopped => return CancelledByReceiver;
          case Exhausted => return BlockFailed;
          case PortLost => return PortError(false);
          case Sent =>
        }
        blockNum := blockNum + 1;
      }
      var eot := SendEndOfTransmission();
      return if eot == Sent then Completed else if eot == PortLost then PortError(true) else EotFailed;
    }

    /** The padded data of a block in its packet. */
    method BuildBlock(file: seq<byte>, blockIndex: nat, blockNum: nat, crcMode: bool) returns (packet: seq<byte>)
      requires blockIndex < BlockCount(file) && blockNum == blockIndex + 1
      ensures packet == BlockPacket(file, crcMode, blockIndex)
    {
      packet := BuildPacket(blockNum % 256, BlockAt(file, blockIndex), crcMode);
    }

    /** One block: the same packet until it is acknowledged, refused for good, cancelled or tried ten times. */
    method SendPacket(packet: seq<byte>) returns (result: BlockResult)
      modifies terminal
      ensures (terminal.line, result) == Attempts(Exchanging(terminal.port.transmit, packet), terminal.port.cancelled, old(terminal.line), 0)
    {
      var retries, blockSent := 0, false;
      ghost var exchange := Exchanging(terminal.port.transmit, packet);
      ghost var goal := Attempts(exchange, terminal.port.cancelled, terminal.line, 0);
      while !blockSent && retries < MAX_RETRIES
        invariant 0 <= retries <= MAX_RETRIES
        invariant (if blockSent then (terminal.line, Sent) else Attempts(exchange, terminal.port.cancelled, terminal.line, retries)) == goal
        decreases MAX_RETRIES - retries, !blockSent
      {
        if terminal.port.cancelled(terminal.line) {
          return OperatorStopped;
        }
        var response := terminal.Exchange(packet);
        if response == Ack {
          blockSent := true;
        } else if response == Can {
          return ReceiverStopped;
        } else if response == PortFailed {
          return PortLost;
        } else {
          retries := retries + 1;
        }
      }
      return if blockSent then Sent else Exhausted;
    }

    /** The end mark is repeated until acknowledged; a cancellation is not looked at here. */
    method SendEndOfTransmission() returns (result: BlockResult)
      modifies terminal
      ensures (terminal.line, result) == EndAttempts(Exchanging(terminal.port.transmit, [EOT]), old(terminal.line), 0)
    {
      for retries := 0 to MAX_RETRIES
        invariant EndAttempts(Exchanging(terminal.port.transmit, [EOT]), terminal.line, retries)
                  == EndAttempts(Exchanging(terminal.port.transmit, [EOT]), old(terminal.line), 0)
      {
        var response := terminal.Exchange([EOT]);
        if response == Ack {
          return Sent;
        }
        if response == PortFailed {
          return PortLost;
        }
      }
      return Exhausted;
    }
  }

  // ---- what the receiver makes of a packet ---------------------------------

  lemma PacketIsValid(num: byte, data: seq<byte>, crcMode: bool)
    requires |data| == BLOCK_SIZE
    ensures ValidPacket(crcMode, Packet(num, data, crcMode))
    ensures Packet(num, data, crcMode)[3..131] == data && Packet(num, data, crcMode)[1] == num
    ensures !ValidPacket(!crcMode, Packet(num, data, crcMode))
  {
    var packet := Packet(num, data, crcMode);
    assert packet[3..131] == data;
    if crcMode {
      assert packet[3..] == data + CrcBytes(data);
      Residue(data);
    }
  }

  /** One changed byte is noticed in checksum mode, wherever it is. */
  lemma ByteChangeRefused(num: byte, data: seq<byte>, at: nat, b: byte)
    requires |data| == BLOCK_SIZE && at < 132
    requires Packet(num, data, false)[at := b] != Packet(num, data, false)
    ensures !ValidPacket(false, Packet(num, data, false)[at := b])
  {
    var packet := Packet(num, data, false);
    var got := packet[at := b];
    assert packet[at] != b;
    if 3 <= at < 131 {
      assert packet[3..131] == data;
      assert got[3..131] == data[at - 3 := b];
      SumUpdated(data, at - 3, b);
      assert got[131] == Sum(data) % 256;
    } else if at == 131 {
      assert got[3..131] == data;
    }
  }

  /** A change of two adjacent bytes is noticed in CRC mode, unless it forges a matching number. */
  lemma PairChangeRefused(num: byte, data: seq<byte>, at: nat, first: byte, second: byte)
    requires |data| == BLOCK_SIZE && at + 1 < 133 && (at == 1 ==> first as int + second as int != 255)
    requires Packet(num, data, true)[at := first][at + 1 := second] != Packet(num, data, true)
    ensures !ValidPacket(true, Packet(num, data, true)[at := first][at + 1 := second])
  {
    var packet := Packet(num, data, true);
    var got := packet[at := first][at + 1 := second];
    assert packet[3..] == data + CrcBytes(data);
    if at >= 3 {
      assert DiffersAt(got[3..], packet[3..], at - 3) by {
        TailDiffers(got, packet, at);
      }
      AdjacentCorruptionDetected(data, got[3..], at - 3);
    } else if at == 2 && first == packet[2] {
      assert DiffersAt(got[3..], packet[3..], 0) by {
        assert got[3] != packet[3];
      }
      AdjacentCorruptionDetected(data, got[3..], 0);
    }
  }

  lemma TailDiffers(got: seq<byte>, packet: seq<byte>, at: nat)
    requires |got| == |packet| && 3 <= at && at + 1 < |packet| && got != packet
    requires forall j :: 0 <= j < |packet| && j != at && j != at + 1 ==> got[j] == packet[j]
    ensures DiffersAt(got[3..], packet[3..], at - 3)
  {
    assert got == got[..3] + got[3..] && packet == packet[..3] + packet[3..];
    assert got[..3] == packet[..3];
  }

  /** Whatever noticeable thing the line does to a packet, the receiver takes it for the packet or refuses it. */
  lemma DistortedIsRefused(num: byte, data: seq<byte>, crcMode: bool, rx: Receiver, at: nat, first: byte, second: byte)
    requires |data| == BLOCK_SIZE && (at == 1 ==> first as int + second as int != 255)
    ensures var packet := Packet(num, data, crcMode);
            var got := Distort(packet, rx.crcMode, at, first, second);
            got == packet || !ValidPacket(rx.crcMode, got)
  {
    var packet := Packet(num, data, crcMode);
    var got := Distort(packet, rx.crcMode, at, first, second);
    if got != packet && rx.crcMode == crcMode {
      if crcMode && at + 1 < |packet| {
        PairChangeRefused(num, data, at, first, second);
      } else if crcMode {
        LastByteRefused(num, data, at, first);
      } else {
        ByteChangeRefused(num, data, at, first);
      }
    }
  }

  lemma LastByteRefused(num: byte, data: seq<byte>, at: nat, b: byte)
    requires |data| == BLOCK_SIZE && at == 132
    requires Packet(num, data, true)[at := b] != Packet(num, data, true)
    ensures !ValidPacket(true, Packet(num, data, true)[at := b])
  {
    var packet := Packet(num, data, true);
    assert packet[131 := packet[131]][132 := b] == packet[at := b];
    PairChangeRefused(num, data, 131, packet[131], b);
  }

  // ---- delivery ------------------------------------------------------------

  predicate NoticeableNoise(line: Line) {
    forall i :: 0 <= i < |line.fates| ==> Noticeable(line.fates[i])
  }

  /** The receiver has the first n blocks and waits for the next. */
  predicate HasBlocks(line: Line, file: seq<byte>, n: nat) {
    && n * 128 <= |Padded(file)|
    && line.rx.data == Padded(file)[..n * 128]
    && line.rx.expected == (n + 1) % 256
  }

  lemma BlockOfPadded(file: seq<byte>, i: nat)
    requires i < BlockCount(file)
    ensures |Padded(file)| == BlockCount(file) * 128
    ensures BlockAt(file, i) == Padded(file)[i * 128..i * 128 + 128]
  {
    PaddedLength(file);
    CeilDivBounds(|file|, 128);
  }

  /** A packet of block i as it arrives at a receiver that waits for it or has just taken it. */
  lemma ReceiveBlock(rx: Receiver, file: seq<byte>, crcMode: bool, i: nat)
    requires i < BlockCount(file) && rx.crcMode == crcMode
    ensures var (after, response) := Receive(rx, BlockPacket(file, crcMode, i));
            && (rx.expected == (i + 1) % 256 ==>
                  response == Ack && after == rx.(data := rx.data + BlockAt(file, i), expected := (i + 2) % 256))
            && (rx.expected == (i + 2) % 256 ==> response == Ack && after == rx)
  {
    PacketIsValid((i + 1) % 256, BlockAt(file, i), crcMode);
  }

  lemma ReceiveInvalid(rx: Receiver, bytes: seq<byte>)
    requires |bytes| > 1 && !ValidPacket(rx.crcMode, bytes)
    ensures Receive(rx, bytes) == (rx, Nak)
  {
  }

  /** What reaches the receiver of a transmitted packet is the packet or is refused. */
  lemma ReceiveDistorted(rx: Receiver, file: seq<byte>, crcMode: bool, i: nat, at: nat, first: byte, second: byte)
    requires i < BlockCount(file) && (at == 1 ==> first as int + second as int != 255)
    ensures var got := Distort(BlockPacket(file, crcMode, i), rx.crcMode, at, first, second);
            Receive(rx, got) == (rx, Nak) || (got == BlockPacket(file, crcMode, i))
  {
    var packet := BlockPacket(file, crcMode, i);
    var got := Distort(packet, rx.crcMode, at, first, second);
    DistortedIsRefused((i + 1) % 256, BlockAt(file, i), crcMode, rx, at, first, second);
    if got != packet {
      ReceiveInvalid(rx, got);
    }
  }

  /** A receiver in the other check mode refuses every packet. */
  lemma ReceiveOtherMode(rx: Receiver, file: seq<byte>, crcMode: bool, i: nat)
    requires i < BlockCount(file) && rx.crcMode != crcMode
    ensures Receive(rx, BlockPacket(file, crcMode, i)) == (rx, Nak)
  {
    PacketIsValid((i + 1) % 256, BlockAt(file, i), crcMode);
    ReceiveInvalid(rx, BlockPacket(file, crcMode, i));
  }

  /** The receiver's part of one transmission of block i. */
  lemma HeardBlock(line: Line, file: seq<byte>, crcMode: bool, i: nat)
    requires i < BlockCount(file) && NoticeableNoise(line)
    ensures var (after, response) := Transmit(line, BlockPacket(file, crcMode, i));
            && after.fates == RestOf(line) && after.transmissions == line.transmissions + 1
            && ((after.rx == line.rx && response != Ack)
                || (line.rx.crcMode == crcMode && after.rx == Receive(line.rx, BlockPacket(file, crcMode, i)).0))
  {
    var packet, fate := BlockPacket(file, crcMode, i), NextFate(line);
    assert Noticeable(fate);
    if line.rx.crcMode != crcMode {
      ReceiveOtherMode(line.rx, file, crcMode, i);
    }
    if fate.arrival.Damaged? {
      ReceiveDistorted(line.rx, file, crcMode, i, fate.arrival.at, fate.arrival.first, fate.arrival.second);
    }
  }

  predicate Holding(line: Line, file: seq<byte>, n: nat) {
    NoticeableNoise(line) && HasBlocks(line, file, n)
  }

  function Count(line: Line): nat {
    line.transmissions
  }

  lemma RestNoticeable(line: Line)
    requires NoticeableNoise(line)
    ensures forall i :: 0 <= i < |RestOf(line)| ==> Noticeable(RestOf(line)[i])
  {
  }

  /** A receiver with i or i + 1 blocks has i + 1 blocks once a packet of block i has come through, and acknowledges it. */
  lemma TakenBlock(line: Line, file: seq<byte>, crcMode: bool, i: nat)
    requires i < BlockCount(file) && line.rx.crcMode == crcMode
    requires HasBlocks(line, file, i) || HasBlocks(line, file, i + 1)
    ensures HasBlocks(line.(rx := Receive(line.rx, BlockPacket(file, crcMode, i)).0), file, i + 1)
  {
    BlockOfPadded(file, i);
    FrontAndBlock(Padded(file), i);
    ReceiveBlock(line.rx, file, crcMode, i);
  }

  lemma FrontAndBlock(data: seq<byte>, i: nat)
    requires (i + 1) * 128 <= |data|
    ensures data[..(i + 1) * 128] == data[..i * 128] + data[i * 128..i * 128 + 128]
  {
  }

  /** One transmission of block i leaves the receiver with i or i + 1 blocks, and i + 1 once it is acknowledged. */
  lemma TransmitBlock(line: Line, file: seq<byte>, crcMode: bool, i: nat)
    requires i < BlockCount(file) && (Holding(line, file, i) || Holding(line, file, i + 1))
    ensures var (after, response) := Exchanging(Transmit, BlockPacket(file, crcMode, i))(line);
            && (Holding(after, file, i) || Holding(after, file, i + 1))
            && (response == Ack ==> Holding(after, file, i + 1))
            && Count(after) == Count(line) + 1
  {
    HeardBlock(line, file, crcMode, i);
    RestNoticeable(line);
    if line.rx.crcMode == crcMode {
      TakenBlock(line, file, crcMode, i);
    }
  }

  function Holder(file: seq<byte>): (Line, nat) -> bool {
    (line: Line, n: nat) => Holding(line, file, n)
  }

  lemma BlockExchangeKeeps(file: seq<byte>, crcMode: bool, i: nat)
    requires i < BlockCount(file)
    ensures Keeps(Exchanging(Transmit, BlockPacket(file, crcMode, i)), Holder(file), i, i + 1, Count)
  {
    forall line: Line | Holding(line, file, i) || Holding(line, file, i + 1)
      ensures var (after, response) := Exchanging(Transmit, BlockPacket(file, crcMode, i))(line);
              && (Holding(after, file, i) || Holding(after, file, i + 1))
              && (response == Ack ==> Holding(after, file, i + 1))
              && Count(after) == Count(line) + 1
    {
      TransmitBlock(line, file, crcMode, i);
    }
  }

  /** End marks carry no data. */
  lemma EotExchangeKeeps(file: seq<byte>, n: nat)
    ensures Keeps(Exchanging(Transmit, [EOT]), Holder(file), n, n, Count)
  {
    forall line: Line | Holding(line, file, n)
      ensures Holding(Transmit(line, [EOT]).0, file, n) && Count(Transmit(line, [EOT]).0) == Count(line) + 1
    {
      EotKeepsReceiver(line);
      RestNoticeable(line);
    }
  }

  lemma EotKeepsReceiver(line: Line)
    ensures var after := Transmit(line, [EOT]).0;
            after.rx == line.rx && after.transmissions == line.transmissions + 1 && after.fates == RestOf(line)
  {
  }

  /** The receiver holds whole blocks from the start of the padded file and nothing else. */
  ghost predicate HoldsPrefix(line: Line, file: seq<byte>) {
    exists n: nat :: HasBlocks(line, file, n)
  }

  lemma ExchangesKeep(file: seq<byte>, crcMode: bool)
    ensures forall k :: 0 <= k < BlockCount(file) ==> Keeps(BlockExchanges(Transmit, file, crcMode)[k], Holder(file), k, k + 1, Count)
  {
    forall k | 0 <= k < BlockCount(file)
      ensures Keeps(BlockExchanges(Transmit, file, crcMode)[k], Holder(file), k, k + 1, Count)
    {
      BlockExchangeKeeps(file, crcMode, k);
    }
  }

  lemma SomeIsPrefix(line: Line, file: seq<byte>)
    requires HasSome(Holder(file), line)
    ensures HoldsPrefix(line, file)
  {
    var n: nat :| Holder(file)(line, n);
    assert HasBlocks(line, file, n);
  }

  lemma SendFromDelivers(line: Line, file: seq<byte>, crcMode: bool)
    requires Holding(line, file, 0)
    ensures var (after, result) := SendFrom(LinePort(), line, file, crcMode, 0);
            && HoldsPrefix(after, file)
            && Count(after) <= Count(line) + MAX_RETRIES * (BlockCount(file) + 1)
            && (result == Completed ==> Holder(file)(after, BlockCount(file)))
  {
    ExchangesKeep(file, crcMode);
    EotExchangeKeeps(file, BlockCount(file));
    SendAllKeeps(BlockExchanges(Transmit, file, crcMode), Exchanging(Transmit, [EOT]), Stopped(), Holder(file), Count, line, 0);
    SomeIsPrefix(SendFrom(LinePort(), line, file, crcMode, 0).0, file);
  }

  /**
   Delivery: when the sender reports completion, the receiver holds exactly
   the file padded to whole blocks, however often the block number wrapped
   and whatever was lost, damaged or sent twice. In every outcome the
   receiver holds a prefix of it.
   */
  lemma Delivery(line: Line, file: seq<byte>, useCrc: bool, opening: Opening)
    requires NoticeableNoise(line) && line.rx.data == [] && line.rx.expected == 1
    ensures var (after, result) := SendFile(LinePort(), line, file, useCrc, opening);
            && HoldsPrefix(after, file)
            && after.transmissions <= line.transmissions + MAX_RETRIES * (BlockCount(file) + 1)
            && (result == Completed ==> after.rx.data == Padded(file))
  {
    StartHolds(line, file);
    if file == [] {
      assert Padded(file) == [];
    } else if opening == OpenC || opening == OpenNak {
      SendFromDelivers(line, file, opening == OpenC && useCrc);
      var outcome := SendFrom(LinePort(), line, file, opening == OpenC && useCrc, 0);
      AllBlocksIsWhole(outcome.0, file);
      TellKeepsPrefix(outcome.0, file);
    } else {
      TellKeepsPrefix(line, file);
    }
  }

  lemma TellKeepsPrefix(line: Line, file: seq<byte>)
    requires HoldsPrefix(line, file)
    ensures HoldsPrefix(Tell(line), file)
  {
    var n: nat :| HasBlocks(line, file, n);
    assert HasBlocks(Tell(line), file, n);
  }

  function Late(line: Line): nat {
    line.late
  }

  lemma TransmissionsHeed(bytes: seq<byte>)
    ensures Heeds(Exchanging(Transmit, bytes), Stopped(), Late)
  {
    forall line: Line
      ensures Late(line) <= Late(Exchanging(Transmit, bytes)(line).0) <= Late(line) + if line.cancelled then 1 else 0
    {
      assert Transmit(line, bytes).0.late == line.late + if line.cancelled then 1 else 0;
    }
  }

  function Told(told: nat): (Line, nat) -> bool {
    (line: Line, n: nat) => line.told == told
  }

  lemma TransmissionsTellNobody(bytes: seq<byte>, told: nat, i: nat, j: nat)
    ensures Keeps(Exchanging(Transmit, bytes), Told(told), i, j, Count)
  {
    forall line: Line | line.told == told
      ensures Transmit(line, bytes).0.told == told && Transmit(line, bytes).0.transmissions == line.transmissions + 1
    {
    }
  }

  lemma NobodyToldYet(line: Line, file: seq<byte>, crcMode: bool)
    ensures SendFrom(LinePort(), line, file, crcMode, 0).0.told == line.told
  {
    var blocks := BlockExchanges(Transmit, file, crcMode);
    forall k | 0 <= k < |blocks|
      ensures Keeps(blocks[k], Told(line.told), k, k + 1, Count)
    {
      TransmissionsTellNobody(BlockPacket(file, crcMode, k), line.told, k, k + 1);
    }
    TransmissionsTellNobody([EOT], line.told, |blocks|, |blocks|);
    SendAllKeeps(blocks, Exchanging(Transmit, [EOT]), Stopped(), Told(line.told), Count, line, 0);
  }

  /**
   A cancellation by the operator, whenever it comes: no block goes out after
   it. Only the end mark does, ten times at most, when all blocks had been
   acknowledged, and then the transfer may still complete. The receiver is told
   exactly when the transfer ends as cancelled by the operator.
   */
  lemma CancelIsHeeded(line: Line, file: seq<byte>, useCrc: bool, opening: Opening)
    requires opening == OpenC || opening == OpenNak
    ensures var (after, result) := SendFile(LinePort(), line, file, useCrc, opening);
            && (after.late == line.late || result == Completed || result == EotFailed || result == PortError(true))
            && after.late <= line.late + MAX_RETRIES
            && after.told == line.told + (if result == CancelledByOperator then 1 else 0)
            && (result == CancelledByOperator ==> after.cancelled)
  {
    var crcMode := opening == OpenC && useCrc;
    var blocks := BlockExchanges(Transmit, file, crcMode);
    forall k | 0 <= k < |blocks|
      ensures Heeds(blocks[k], Stopped(), Late)
    {
      TransmissionsHeed(BlockPacket(file, crcMode, k));
    }
    TransmissionsHeed([EOT]);
    SendAllHeeds(blocks, Exchanging(Transmit, [EOT]), Stopped(), Late, line, 0);
    NobodyToldYet(line, file, crcMode);
  }

  /** The line at stage k of a transfer: before block k, or at its end. */
  function StageOf(line: Line, file: seq<byte>, crcMode: bool, k: nat): Option<Line> {
    Stage(BlockExchanges(Transmit, file, crcMode), Exchanging(Transmit, [EOT]), Stopped(), line, 0, k)
  }

  /**
   Each block and the end mark go out at most ten times, in every transfer:
   stage k + 1 comes after the attempts at block k, or at the end mark, and
   these are at most ten transmissions.
   */
  lemma EachBlockAtMostTenTimes(line: Line, file: seq<byte>, crcMode: bool, k: nat)
    requires StageOf(line, file, crcMode, k + 1).Some?
    ensures k <= BlockCount(file) && StageOf(line, file, crcMode, k).Some?
    ensures TenTries(file, crcMode, k, StageOf(line, file, crcMode, k).value, StageOf(line, file, crcMode, k + 1).value)
  {
    BlocksCount(file, crcMode);
    TransmissionsCount([EOT]);
    EachAtMostTenTimes(BlockExchanges(Transmit, file, crcMode), Exchanging(Transmit, [EOT]), Stopped(), Count, line, 0, k);
  }

  /** From one line to the other are the tries at block k, or at the end mark, and these are ten transmissions at most. */
  ghost predicate TenTries(file: seq<byte>, crcMode: bool, k: nat, from: Line, to: Line) {
    TenAttempts(BlockExchanges(Transmit, file, crcMode), Exchanging(Transmit, [EOT]), Stopped(), Count, k, from, to)
  }

  /** The stages end where the transfer does. */
  lemma StagesEnd(line: Line, file: seq<byte>, crcMode: bool) returns (n: nat)
    ensures 1 <= n <= BlockCount(file) + 1
    ensures StageOf(line, file, crcMode, n) == Some(SendFrom(LinePort(), line, file, crcMode, 0).0)
    ensures StageOf(line, file, crcMode, n + 1) == None
  {
    n := LastStage(BlockExchanges(Transmit, file, crcMode), Exchanging(Transmit, [EOT]), Stopped(), line, 0);
  }

  lemma BlocksCount(file: seq<byte>, crcMode: bool)
    ensures var blocks := BlockExchanges(Transmit, file, crcMode);
            forall b :: 0 <= b < |blocks| ==> CountsOnce(blocks[b], Count)
  {
    var blocks := BlockExchanges(Transmit, file, crcMode);
    forall b | 0 <= b < |blocks|
      ensures CountsOnce(blocks[b], Count)
    {
      TransmissionsCount(BlockPacket(file, crcMode, b));
    }
  }

  lemma TransmissionsCount(bytes: seq<byte>)
    ensures CountsOnce(Exchanging(Transmit, bytes), Count)
  {
    forall line: Line
      ensures Count(Exchanging(Transmit, bytes)(line).0) == Count(line) + 1
    {
      assert Transmit(line, bytes).0.transmissions == line.transmissions + 1;
    }
  }

  lemma StartHolds(line: Line, file: seq<byte>)
    requires NoticeableNoise(line) && line.rx.data == [] && line.rx.expected == 1
    ensures Holding(line, file, 0) && HoldsPrefix(line, file)
  {
    assert Padded(file)[..0] == [];
    assert HasBlocks(line, file, 0);
  }

  lemma AllBlocksIsWhole(line: Line, file: seq<byte>)
    ensures Holder(file)(line, BlockCount(file)) ==> line.rx.data == Padded(file)
  {
    PaddedLength(file);
  }

  // ---- a clean line --------------------------------------------------------

  ghost predicate Clean(line: Line, n: nat) {
    && n <= |line.fates| && !line.cancelled
    && forall i :: 0 <= i < n ==> line.fates[i] == Fate(Intact, false, Patient, false)
  }

  /** On a clean line the first attempt at a block succeeds. */
  lemma CleanBlock(line: Line, file: seq<byte>, crcMode: bool, i: nat, n: nat) returns (after: Line)
    requires i < BlockCount(file) && Clean(line, n + 1) && line.rx.crcMode == crcMode && HasBlocks(line, file, i)
    ensures Attempts(Exchanging(Transmit, BlockPacket(file, crcMode, i)), Stopped(), line, 0) == (after, Sent)
    ensures Clean(after, n) && after.rx.crcMode == crcMode && HasBlocks(after, file, i + 1)
    ensures after.transmissions == line.transmissions + 1
  {
    BlockOfPadded(file, i);
    assert Padded(file)[..(i + 1) * 128] == Padded(file)[..i * 128] + BlockAt(file, i);
    ReceiveBlock(line.rx, file, crcMode, i);
    after := Transmit(line, BlockPacket(file, crcMode, i)).0;
    assert NextFate(line) == Fate(Intact, false, Patient, false);
  }

  lemma CleanEot(line: Line)
    requires Clean(line, 1)
    ensures var (after, result) := EndAttempts(Exchanging(Transmit, [EOT]), line, 0);
            result == Sent && after.transmissions == line.transmissions + 1
  {
    assert NextFate(line) == Fate(Intact, false, Patient, false);
    assert Transmit(line, [EOT]).1 == Ack;
  }

  lemma {:induction false} CleanLineFrom(line: Line, file: seq<byte>, crcMode: bool, i: nat)
    requires i <= BlockCount(file) && Clean(line, BlockCount(file) - i + 1)
    requires line.rx.crcMode == crcMode && HasBlocks(line, file, i)
    ensures var (after, result) := SendFrom(LinePort(), line, file, crcMode, i);
            result == Completed && after.transmissions == line.transmissions + (BlockCount(file) - i + 1)
    decreases BlockCount(file) - i
  {
    if i == BlockCount(file) {
      CleanEot(line);
    } else {
      var after := CleanBlock(line, file, crcMode, i, BlockCount(file) - i);
      CleanLineFrom(after, file, crcMode, i + 1);
    }
  }

  /** On a line that does nothing wrong every block goes out once and the transfer completes. */
  lemma CleanLineCompletes(line: Line, file: seq<byte>, useCrc: bool, opening: Opening)
    requires file != [] && (opening == OpenC || opening == OpenNak)
    requires line.rx == Receiver(opening == OpenC && useCrc, [], 1) && Clean(line, BlockCount(file) + 1)
    ensures var (after, result) := SendFile(LinePort(), line, file, useCrc, opening);
            result == Completed && after.transmissions == line.transmissions + BlockCount(file) + 1
  {
    assert Padded(file)[..0] == [];
    CleanLineFrom(line, file, opening == OpenC && useCrc, 0);
  }
}
