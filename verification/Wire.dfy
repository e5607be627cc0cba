/** The serial line to the controller: checksummed frames, and a byte queue fed by chunks of any size. */
module Wire {
  import opened Bytes

  // ---- the checksum --------------------------------------------------------

  function Checksum(data: seq<byte>): word {
    Sum(data) % 65536
  }

  method CalculateChecksum(buffer: seq<byte>) returns (checksum: word)
    ensures checksum == Checksum(buffer)
  {
    var sum: nat := 0;
    for i := 0 to |buffer|
      invariant sum == Sum(buffer[..i])
    {
      assert buffer[..i + 1][..i] == buffer[..i];
      sum := sum + buffer[i];
    }
    assert buffer[..|buffer|] == buffer;
    return sum % 65536;
  }

  /** The data with its checksum appended, low byte first. */
  function Frame(data: seq<byte>): (f: seq<byte>)
    ensures |f| == |data| + 2
  {
    data + [Lsb(Checksum(data)), Msb(Checksum(data))]
  }

  method SendBuffer(buffer: seq<byte>) returns (sent: seq<byte>)
    ensures sent == Frame(buffer)
  {
    var checksum := CalculateChecksum(buffer);
    return buffer + [Lsb(checksum), Msb(checksum)];
  }

  /** The checksum of one byte is the byte, that of two parts the sum of theirs in sixteen bits; this fixes it. */
  lemma ChecksumAdds(a: seq<byte>, b: seq<byte>, x: byte)
    ensures Checksum([]) == 0 && Checksum([x]) == x
    ensures Checksum(a + b) as int == ((Checksum(a) as int) + (Checksum(b) as int)) % 65536
  {
    SumConcat(a, b);
    assert [x][..0] == [] && Sum([x]) == Sum([]) + x;
  }

  /** A frame is the data, then the checksum, low byte first. */
  lemma FrameLayout(data: seq<byte>)
    ensures var f, n := Frame(data), |data|;
            |f| == n + 2 && f[..n] == data && (f[n] as int) + 256 * (f[n + 1] as int) == Checksum(data)
  {
  }

  // ---- the queue -----------------------------------------------------------

  /** A byte handed to a reader. */
  datatype Handed = Handed(reader: nat, value: byte)

  /** Bytes nobody has asked for, readers nobody has served, and what has been handed out so far. */
  datatype Port = Port(buffer: seq<byte>, waiting: seq<nat>, handed: seq<Handed>)

  /** Serves waiting readers in order while there are bytes. */
  function Served(p: Port): Port
    decreases |p.buffer|
  {
    if p.buffer == [] || p.waiting == [] then p
    else Served(Port(p.buffer[1..], p.waiting[1..], p.handed + [Handed(p.waiting[0], p.buffer[0])]))
  }

  function Arrive(p: Port, chunk: seq<byte>): Port {
    Served(p.(buffer := p.buffer + chunk))
  }

  function Ask(p: Port, reader: nat): Port {
    if p.buffer != [] then Port(p.buffer[1..], p.waiting, p.handed + [Handed(reader, p.buffer[0])])
    else p.(waiting := p.waiting + [reader])
  }

  function GiveUp(p: Port, reader: nat): Port {
    p.(waiting := Without(p.waiting, reader))
  }

  /** The list without the first occurrence. */
  function Without(s: seq<nat>, x: nat): seq<nat> {
    if s == [] then [] else if s[0] == x then s[1..] else [s[0]] + Without(s[1..], x)
  }

  datatype PortEvent = Data(chunk: seq<byte>) | Request(reader: nat) | Timeout(reader: nat) | Flush

  function PortNext(p: Port, e: PortEvent): Port {
    match e
    case Data(chunk) => Arrive(p, chunk)
    case Request(reader) => Ask(p, reader)
    case Timeout(reader) => GiveUp(p, reader)
    case Flush => p.(buffer := [])
  }

  function PortRun(p: Port, es: seq<PortEvent>): Port {
    if es == [] then p else PortNext(PortRun(p, es[..|es| - 1]), es[|es| - 1])
  }

  /** Bytes and readers do not wait for each other. */
  predicate NobodyWaitsInVain(p: Port) {
    p.buffer == [] || p.waiting == []
  }

  function HandedBytes(h: seq<Handed>): (r: seq<byte>)
    ensures |r| == |h|
  {
    seq(|h|, i requires 0 <= i < |h| => h[i].value)
  }

  function HandedReaders(h: seq<Handed>): (r: seq<nat>)
    ensures |r| == |h|
  {
    seq(|h|, i requires 0 <= i < |h| => h[i].reader)
  }

  /** Everything that came in, handed out or not, in order. */
  function AllBytes(p: Port): seq<byte> {
    HandedBytes(p.handed) + p.buffer
  }

  /** Every request, served or not, in order. */
  function AllReaders(p: Port): seq<nat> {
    HandedReaders(p.handed) + p.waiting
  }

  lemma {:induction false} ServedKeeps(p: Port)
    ensures NobodyWaitsInVain(Served(p))
    ensures AllBytes(Served(p)) == AllBytes(p) && AllReaders(Served(p)) == AllReaders(p)
    decreases |p.buffer|
  {
    if p.buffer != [] && p.waiting != [] {
      var q := Port(p.buffer[1..], p.waiting[1..], p.handed + [Handed(p.waiting[0], p.buffer[0])]);
      ServedKeeps(q);
      assert AllBytes(q) == AllBytes(p) && AllReaders(q) == AllReaders(p);
    }
  }

  function Arrived(es: seq<PortEvent>): seq<byte> {
    if es == [] then []
    else Arrived(es[..|es| - 1]) + (if es[|es| - 1].Data? then es[|es| - 1].chunk else [])
  }

  function Requests(es: seq<PortEvent>): seq<nat> {
    if es == [] then []
    else Requests(es[..|es| - 1]) + (if es[|es| - 1].Request? then [es[|es| - 1].reader] else [])
  }

  /** In every run: bytes and readers are never both left waiting. */
  lemma {:induction false} RunNobodyWaits(p: Port, es: seq<PortEvent>)
    requires NobodyWaitsInVain(p)
    ensures NobodyWaitsInVain(PortRun(p, es))
  {
    if es != [] {
      var q, e := PortRun(p, es[..|es| - 1]), es[|es| - 1];
      RunNobodyWaits(p, es[..|es| - 1]);
      if e.Data? { ServedKeeps(q.(buffer := q.buffer + e.chunk)); }
      if e.Timeout? && q.waiting == [] { assert Without(q.waiting, e.reader) == []; }
    }
  }

  /** Between flushes no byte is lost, repeated or reordered; without timeouts readers are served in the order they asked. */
  lemma {:induction false} RunConserves(p: Port, es: seq<PortEvent>)
    requires NobodyWaitsInVain(p) && forall i :: 0 <= i < |es| ==> !es[i].Flush?
    ensures AllBytes(PortRun(p, es)) == AllBytes(p) + Arrived(es)
    ensures (forall i :: 0 <= i < |es| ==> !es[i].Timeout?) ==> AllReaders(PortRun(p, es)) == AllReaders(p) + Requests(es)
  {
    if es != [] {
      var before := es[..|es| - 1];
      var q, e := PortRun(p, before), es[|es| - 1];
      RunConserves(p, before);
      RunNobodyWaits(p, before);
      StepConserves(q, e);
      assert AllBytes(PortRun(p, es)) == AllBytes(p) + Arrived(es);
    }
  }

  lemma StepConserves(q: Port, e: PortEvent)
    requires NobodyWaitsInVain(q) && !e.Flush?
    ensures AllBytes(PortNext(q, e)) == AllBytes(q) + if e.Data? then e.chunk else []
    ensures !e.Timeout? ==> AllReaders(PortNext(q, e)) == AllReaders(q) + if e.Request? then [e.reader] else []
  {
    match e
    case Data(chunk) =>
      var r := q.(buffer := q.buffer + chunk);
      ServedKeeps(r);
      assert AllBytes(r) == AllBytes(q) + chunk;
      assert AllReaders(q) + [] == AllReaders(q);
    case Request(reader) =>
      if q.buffer != [] {
        var h := Handed(reader, q.buffer[0]);
        assert HandedBytes(q.handed + [h]) == HandedBytes(q.handed) + [q.buffer[0]];
        assert HandedReaders(q.handed + [h]) == HandedReaders(q.handed) + [reader];
      }
      assert AllBytes(PortNext(q, e)) == AllBytes(q);
    case Timeout(_) =>
  }

  /** How the bytes were cut into chunks makes no difference. */
  lemma {:induction false} ChunksJoin(p: Port, a: seq<byte>, b: seq<byte>)
    requires NobodyWaitsInVain(p)
    ensures Arrive(Arrive(p, a), b) == Arrive(p, a + b)
  {
    ServedThenMore(p.(buffer := p.buffer + a), b);
    assert p.buffer + a + b == p.buffer + (a + b);
  }

  lemma {:induction false} ServedThenMore(p: Port, b: seq<byte>)
    ensures Served(Served(p).(buffer := Served(p).buffer + b)) == Served(p.(buffer := p.buffer + b))
    decreases |p.buffer|
  {
    if p.buffer != [] && p.waiting != [] {
      var q := Port(p.buffer[1..], p.waiting[1..], p.handed + [Handed(p.waiting[0], p.buffer[0])]);
      ServedThenMore(q, b);
      assert (p.buffer + b)[1..] == p.buffer[1..] + b;
    }
  }

  // ---- the port as the program keeps it ------------------------------------

  datatype WireError = TimeoutAt(count: nat) | TimeoutInChecksum | Mismatch(received: word, calculated: word)

  /** The chunks that arrive while the k-th byte is awaited. */
  type Arrivals = nat -> seq<seq<byte>>

  /** The bytes of n successive reads, up to the first that times out, and what is then left over. */
  function Take(buffer: seq<byte>, arrivals: Arrivals, k: nat, n: nat): (r: (seq<byte>, seq<byte>))
    ensures |r.0| <= n
    decreases n
  {
    var all := buffer + Flat(arrivals(k));
    if n == 0 then ([], buffer)
    else if all == [] then ([], [])
    else
      var (taken, rest) := Take(all[1..], arrivals, k + 1, n - 1);
      ([all[0]] + taken, rest)
  }

  /** What the receiver makes of the bytes it read for a frame of n data bytes. */
  function Judged(taken: seq<byte>, n: nat): (r: Result<seq<byte>, WireError>)
    requires |taken| <= n + 2
  {
    if |taken| < n then Err(TimeoutAt(|taken|))
    else if |taken| < n + 2 then Err(TimeoutInChecksum)
    else if Word(taken[n], taken[n + 1]) != Checksum(taken[..n])
    then Err(Mismatch(Word(taken[n], taken[n + 1]), Checksum(taken[..n])))
    else Ok(taken[..n])
  }

  class SerialPort {
    var dataBuffer: seq<byte>
    var dataResolvers: seq<nat>
    var handed: seq<Handed>

    constructor ()
      ensures State() == Port([], [], [])
    {
      dataBuffer, dataResolvers, handed := [], [], [];
    }

    function State(): Port
      reads this
    {
      Port(dataBuffer, dataResolvers, handed)
    }

    method OnData(data: seq<byte>)
      modifies this
      ensures State() == Arrive(old(State()), data)
    {
      dataBuffer := dataBuffer + data;
      while |dataBuffer| > 0 && |dataResolvers| > 0
        invariant Served(State()) == Arrive(old(State()), data)
        decreases |dataBuffer|
      {
        handed := handed + [Handed(dataResolvers[0], dataBuffer[0])];
        dataResolvers, dataBuffer := dataResolvers[1..], dataBuffer[1..];
      }
    }

    /** Waits for a byte while the given chunks arrive, and then until the timeout. */
    method ReceiveByte(reader: nat, arriving: seq<seq<byte>>) returns (r: Option<byte>)
      requires dataResolvers == []
      modifies this
      ensures dataResolvers == []
      ensures var all := old(dataBuffer) + Flat(arriving);
              if all == [] then r == None && dataBuffer == []
              else r == Some(all[0]) && dataBuffer == all[1..]
    {
      ghost var start := dataBuffer;
      var at := |handed|;
      if |dataBuffer| > 0 {
        handed := handed + [Handed(reader, dataBuffer[0])];
        dataBuffer := dataBuffer[1..];
      } else {
        dataResolvers := [reader];
      }
      for i := 0 to |arriving|
        invariant |handed| >= at
        invariant AwaitingOrServed(start + Flat(arriving[..i]), reader, at, dataBuffer, dataResolvers, handed)
      {
        assert arriving[..i + 1][..i] == arriving[..i];
        ghost var all := start + Flat(arriving[..i]);
        assert start + Flat(arriving[..i + 1]) == all + arriving[i];
        ArriveOne(all, reader, at, State(), arriving[i]);
        OnData(arriving[i]);
      }
      assert arriving[..|arriving|] == arriving;
      if |dataResolvers| > 0 {
        dataResolvers := [];
        return None;
      }
      return Some(handed[at].value);
    }

    method ReceiveBuffer(length: nat, arrivals: Arrivals) returns (r: Result<seq<byte>, WireError>)
      requires dataResolvers == []
      modifies this
      ensures dataResolvers == []
      ensures (r, dataBuffer) == (Judged(Take(old(dataBuffer), arrivals, 0, length + 2).0, length),
                                  Take(old(dataBuffer), arrivals, 0, length + 2).1)
    {
      var buffer := ReceiveBytes(length + 2, arrivals);
      if |buffer| < length + 2 {
        return Err(if |buffer| < length then TimeoutAt(|buffer|) else TimeoutInChecksum);
      }
      var received := Word(buffer[length], buffer[length + 1]);
      var calculated := CalculateChecksum(buffer[..length]);
      if received != calculated {
        return Err(Mismatch(received, calculated));
      }
      return Ok(buffer[..length]);
    }

    /** Bytes one by one, up to the first that times out. */
    method ReceiveBytes(n: nat, arrivals: Arrivals) returns (buffer: seq<byte>)
      requires dataResolvers == []
      modifies this
      ensures dataResolvers == []
      ensures (buffer, dataBuffer) == Take(old(dataBuffer), arrivals, 0, n)
    {
      buffer := [];
      assert [] + Take(dataBuffer, arrivals, 0, n).0 == Take(dataBuffer, arrivals, 0, n).0;
      while |buffer| < n
        invariant |buffer| <= n && dataResolvers == []
        invariant TakenSoFar(old(dataBuffer), arrivals, n, buffer, dataBuffer)
        decreases n - |buffer|
      {
        TakeOne(old(dataBuffer), arrivals, n, buffer, dataBuffer);
        var b := ReceiveByte(|buffer|, arrivals(|buffer|));
        if b.None? {
          return;
        }
        buffer := buffer + [b.value];
      }
      assert buffer + [] == buffer;
    }
  }

  /** The reads so far, and those still to come, are the whole. */
  ghost predicate TakenSoFar(start: seq<byte>, arrivals: Arrivals, n: nat, buffer: seq<byte>, left: seq<byte>)
    requires |buffer| <= n
  {
    var (taken, rest) := Take(left, arrivals, |buffer|, n - |buffer|);
    Take(start, arrivals, 0, n) == (buffer + taken, rest)
  }

  lemma TakeOne(start: seq<byte>, arrivals: Arrivals, n: nat, buffer: seq<byte>, left: seq<byte>)
    requires |buffer| < n && TakenSoFar(start, arrivals, n, buffer, left)
    ensures var all := left + Flat(arrivals(|buffer|));
            if all == [] then Take(start, arrivals, 0, n) == (buffer, [])
            else TakenSoFar(start, arrivals, n, buffer + [all[0]], all[1..])
  {
    var all := left + Flat(arrivals(|buffer|));
    if all == [] {
      assert buffer + [] == buffer;
    } else {
      var taken := Take(all[1..], arrivals, |buffer| + 1, n - |buffer| - 1).0;
      assert buffer + ([all[0]] + taken) == buffer + [all[0]] + taken;
    }
  }

  /** One reader, after the bytes all: still waiting if there were none, else served with the first. */
  predicate AwaitingOrServed(all: seq<byte>, reader: nat, at: nat, buffer: seq<byte>, waiting: seq<nat>, handed: seq<Handed>) {
    if all == [] then buffer == [] && waiting == [reader] && |handed| == at
    else buffer == all[1..] && waiting == [] && |handed| == at + 1 && handed[at].value == all[0]
  }

  lemma ArriveOne(all: seq<byte>, reader: nat, at: nat, p: Port, chunk: seq<byte>)
    requires AwaitingOrServed(all, reader, at, p.buffer, p.waiting, p.handed)
    ensures var q := Arrive(p, chunk);
            AwaitingOrServed(all + chunk, reader, at, q.buffer, q.waiting, q.handed)
  {
    if all == [] {
      assert all + chunk == chunk && p.buffer + chunk == chunk;
      if chunk != [] {
        var q := Port(chunk[1..], [], p.handed + [Handed(reader, chunk[0])]);
        assert p.waiting[1..] == [];
        assert Served(q) == q;
      }
    } else {
      assert (all + chunk)[1..] == all[1..] + chunk;
    }
  }

  // ---- frames over the wire ------------------------------------------------

  /** The bytes that arrive during the reads k to k + n - 1. */
  function Stream(arrivals: Arrivals, k: nat, n: nat): seq<byte>
    decreases n
  {
    if n == 0 then [] else Flat(arrivals(k)) + Stream(arrivals, k + 1, n - 1)
  }

  /** What is read is the front of what was buffered and what arrived, and the rest stays buffered. */
  lemma {:induction false} TakeIsPrefix(buffer: seq<byte>, arrivals: Arrivals, k: nat, n: nat)
    ensures var (taken, rest) := Take(buffer, arrivals, k, n);
            && taken <= buffer + Stream(arrivals, k, n)
            && (|taken| == n ==> taken + rest == buffer + Stream(arrivals, k, n))
    decreases n
  {
    if n > 0 {
      var all := buffer + Flat(arrivals(k));
      assert all + Stream(arrivals, k + 1, n - 1) == buffer + Stream(arrivals, k, n);
      if all != [] {
        TakeIsPrefix(all[1..], arrivals, k + 1, n - 1);
        var (taken, rest) := Take(all[1..], arrivals, k + 1, n - 1);
        var later := Stream(arrivals, k + 1, n - 1);
        assert [all[0]] + (all[1..] + later) == all + later;
        assert taken <= all[1..] + later;
        assert [all[0]] + taken <= [all[0]] + (all[1..] + later);
        if |taken| == n - 1 {
          assert [all[0]] + taken + rest == [all[0]] + (taken + rest);
        }
      }
    }
  }

  /** How many bytes there have been once m reads have waited. */
  function Came(buffer: seq<byte>, arrivals: Arrivals, k: nat, m: nat): nat {
    |buffer| + |Stream(arrivals, k, m)|
  }

  /** By the time of each of n reads its byte has come. */
  ghost predicate OnTime(buffer: seq<byte>, arrivals: Arrivals, k: nat, n: nat) {
    forall m: nat :: 1 <= m <= n ==> m <= Came(buffer, arrivals, k, m)
  }

  /** All n bytes are taken if and only if none of them is late. */
  lemma {:induction false} TakeCompletes(buffer: seq<byte>, arrivals: Arrivals, k: nat, n: nat)
    ensures |Take(buffer, arrivals, k, n).0| == n <==> OnTime(buffer, arrivals, k, n)
    decreases n
  {
    if n > 0 {
      var all := buffer + Flat(arrivals(k));
      FirstRead(buffer, arrivals, k);
      if all != [] {
        TakeCompletes(all[1..], arrivals, k + 1, n - 1);
        LaterReads(buffer, arrivals, k, n);
      } else {
        assert !(1 <= Came(buffer, arrivals, k, 1));
      }
    }
  }

  lemma FirstRead(buffer: seq<byte>, arrivals: Arrivals, k: nat)
    ensures Came(buffer, arrivals, k, 1) == |buffer + Flat(arrivals(k))|
  {
    assert Stream(arrivals, k + 1, 0) == [];
    assert Stream(arrivals, k, 1) == Flat(arrivals(k)) + Stream(arrivals, k + 1, 0);
  }

  /** The reads after a first one that found a byte. */
  lemma LaterReads(buffer: seq<byte>, arrivals: Arrivals, k: nat, n: nat)
    requires n > 0 && buffer + Flat(arrivals(k)) != []
    ensures OnTime(buffer, arrivals, k, n) <==> OnTime((buffer + Flat(arrivals(k)))[1..], arrivals, k + 1, n - 1)
  {
    var rest, next := (buffer + Flat(arrivals(k)))[1..], k + 1;
    FirstRead(buffer, arrivals, k);
    if OnTime(rest, arrivals, next, n - 1) {
      forall m: nat | 1 <= m <= n
        ensures m <= Came(buffer, arrivals, k, m)
      {
        if m > 1 { OneReadLess(buffer, arrivals, k, m); }
      }
    }
    if OnTime(buffer, arrivals, k, n) {
      forall m: nat | 1 <= m <= n - 1
        ensures m <= Came(rest, arrivals, next, m)
      {
        OneReadLess(buffer, arrivals, k, m + 1);
      }
    }
  }

  lemma OneReadLess(buffer: seq<byte>, arrivals: Arrivals, k: nat, m: nat)
    requires m > 0 && buffer + Flat(arrivals(k)) != []
    ensures Came(buffer, arrivals, k, m) == Came((buffer + Flat(arrivals(k)))[1..], arrivals, k + 1, m - 1) + 1
  {
  }

  /**
   However its bytes were cut up, a frame is received as sent exactly when none
   of its bytes is late, and times out otherwise; what follows it stays buffered.
   */
  lemma FrameIsReceived(data: seq<byte>, tail: seq<byte>, buffer: seq<byte>, arrivals: Arrivals)
    requires buffer + Stream(arrivals, 0, |data| + 2) == Frame(data) + tail
    ensures var (taken, rest) := Take(buffer, arrivals, 0, |data| + 2);
            && (Judged(taken, |data|) == Ok(data) <==> OnTime(buffer, arrivals, 0, |data| + 2))
            && (OnTime(buffer, arrivals, 0, |data| + 2) ==> rest == tail)
            && (!OnTime(buffer, arrivals, 0, |data| + 2) ==>
                  Judged(taken, |data|) in {Err(TimeoutAt(|taken|)), Err(TimeoutInChecksum)})
  {
    var n := |data|;
    TakeCompletes(buffer, arrivals, 0, n + 2);
    TakeIsPrefix(buffer, arrivals, 0, n + 2);
    var (taken, rest) := Take(buffer, arrivals, 0, n + 2);
    if |taken| == n + 2 {
      FrontOfFrame(data, tail, taken, rest);
    }
  }

  lemma FrontOfFrame(data: seq<byte>, tail: seq<byte>, taken: seq<byte>, rest: seq<byte>)
    requires |taken| == |data| + 2 && taken + rest == Frame(data) + tail
    ensures taken == Frame(data) && rest == tail && Judged(taken, |data|) == Ok(data)
  {
    var n := |data|;
    assert taken == (taken + rest)[..n + 2] == Frame(data);
    assert rest == (taken + rest)[n + 2..] == tail;
    assert taken[..n] == data;
  }

  /** A frame all of whose bytes are buffered or arrive during the first read is received. */
  lemma FrameAtOnceIsReceived(data: seq<byte>, arrivals: Arrivals)
    requires Flat(arrivals(0)) == Frame(data) && forall k :: k > 0 ==> arrivals(k) == []
    ensures Judged(Take([], arrivals, 0, |data| + 2).0, |data|) == Ok(data)
  {
    var n := |data| + 2;
    NothingMore(arrivals, 1, n - 1);
    forall m: nat | 1 <= m <= n
      ensures m <= Came([], arrivals, 0, m)
    {
      NothingMore(arrivals, 1, m - 1);
    }
    assert [] + Stream(arrivals, 0, n) == Frame(data) + [];
    FrameIsReceived(data, [], [], arrivals);
  }

  lemma {:induction false} NothingMore(arrivals: Arrivals, k: nat, n: nat)
    requires k > 0 && forall j :: j > 0 ==> arrivals(j) == []
    ensures Stream(arrivals, k, n) == []
    decreases n
  {
    if n > 0 { NothingMore(arrivals, k + 1, n - 1); }
  }

  /** The receiver takes n + 2 bytes for a frame exactly when the last two are the checksum of the others. */
  lemma AcceptedExactly(bytes: seq<byte>, n: nat)
    requires |bytes| == n + 2
    ensures Judged(bytes, n).Ok? <==> bytes == Frame(bytes[..n])
    ensures Judged(bytes, n).Ok? ==> Judged(bytes, n).value == bytes[..n]
  {
    if Judged(bytes, n).Ok? {
      assert bytes == bytes[..n] + [bytes[n], bytes[n + 1]];
    } else {
      assert Frame(bytes[..n])[n] == Lsb(Checksum(bytes[..n]));
      assert Frame(bytes[..n])[n + 1] == Msb(Checksum(bytes[..n]));
    }
  }

  /** Sums less than 65536 apart, and not equal, differ modulo 65536. */
  lemma CloseSumsDiffer(s: nat, t: nat)
    requires s < t < s + 65536
    ensures s % 65536 != t % 65536
  {
  }

  /** A frame of any length with one byte altered, in the data or in the checksum, is refused. */
  lemma AlteredByteRefused(data: seq<byte>, i: nat, b: byte)
    requires i < |data| + 2 && b != Frame(data)[i]
    ensures Judged(Frame(data)[i := b], |data|).Err?
  {
    if i < |data| {
      AlteredDataRefused(data, i, b);
    } else {
      AcceptedExactly(Frame(data)[i := b], |data|);
      assert Frame(data)[i := b][..|data|] == data;
    }
  }

  lemma AlteredDataRefused(data: seq<byte>, i: nat, b: byte)
    requires i < |data| && b != data[i]
    ensures Judged(Frame(data)[i := b], |data|).Err?
  {
    var altered := data[i := b];
    SumUpdated(data, i, b);
    if b > data[i] { CloseSumsDiffer(Sum(data), Sum(altered)); } else { CloseSumsDiffer(Sum(altered), Sum(data)); }
    var n := |data|;
    var f := Frame(data)[i := b];
    assert f[..n] == altered && f[n] == Lsb(Checksum(data)) && f[n + 1] == Msb(Checksum(data));
    WordHalves(Checksum(data));
  }

  /** The checksum is a plain sum: a frame with two data bytes exchanged is accepted. */
  lemma ExchangedBytesAccepted(data: seq<byte>, i: nat, j: nat)
    requires i < j < |data|
    ensures Judged(Frame(data)[i := data[j]][j := data[i]], |data|) == Ok(data[i := data[j]][j := data[i]])
  {
    var swapped := data[i := data[j]][j := data[i]];
    SumUpdated(data, i, data[j]);
    SumUpdated(data[i := data[j]], j, data[i]);
    assert Frame(data)[i := data[j]][j := data[i]] == Frame(swapped);
    AcceptedExactly(Frame(swapped), |data|);
    assert Frame(swapped)[..|data|] == swapped;
  }

  /**
   What is reported of a frame: the count of data bytes if they did not all
   come, else that a checksum byte did not, else the two sums if they differ.
   */
  lemma ReportedSo(taken: seq<byte>, n: nat)
    requires |taken| <= n + 2
    ensures var r := Judged(taken, n);
            && (|taken| < n ==> r == Err(TimeoutAt(|taken|)))
            && (n <= |taken| < n + 2 ==> r == Err(TimeoutInChecksum))
            && (|taken| == n + 2 ==>
                  var received, calculated := (taken[n] as int) + 256 * (taken[n + 1] as int), Sum(taken[..n]) % 65536;
                  r == if received == calculated then Ok(taken[..n]) else Err(Mismatch(received, calculated)))
  {
  }

  /** Reads that time out have taken every byte there was. */
  lemma {:induction false} TimeoutTakesAll(buffer: seq<byte>, arrivals: Arrivals, k: nat, n: nat)
    requires |Take(buffer, arrivals, k, n).0| < n
    ensures Take(buffer, arrivals, k, n).1 == []
    ensures |Take(buffer, arrivals, k, n).0| == Came(buffer, arrivals, k, |Take(buffer, arrivals, k, n).0| + 1)
    decreases n
  {
    var all := buffer + Flat(arrivals(k));
    FirstRead(buffer, arrivals, k);
    if all != [] {
      TimeoutTakesAll(all[1..], arrivals, k + 1, n - 1);
      OneReadLess(buffer, arrivals, k, |Take(buffer, arrivals, k, n).0| + 1);
    }
  }

  /** A reader that times out waits no longer, and the others keep their order. */
  lemma TimeoutLeaves(p: Port, reader: nat, first: seq<nat>, later: seq<nat>)
    requires p.waiting == first + [reader] + later && reader !in first
    ensures PortNext(p, Timeout(reader)) == Port(p.buffer, first + later, p.handed)
  {
    WithoutFirst(first, reader, later);
  }

  lemma {:induction false} WithoutFirst(first: seq<nat>, x: nat, later: seq<nat>)
    requires x !in first
    ensures Without(first + [x] + later, x) == first + later
  {
    if first != [] {
      WithoutFirst(first[1..], x, later);
      assert (first + [x] + later)[1..] == first[1..] + [x] + later;
      assert [first[0]] + (first[1..] + later) == first + later;
    } else {
      assert [x] + later == first + [x] + later;
    }
  }

  /** A flush drops the bytes buffered and nothing else. */
  lemma FlushDrops(p: Port)
    ensures PortNext(p, Flush) == Port([], p.waiting, p.handed)
  {
  }
}
