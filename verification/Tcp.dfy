/**
 The TCP connection over IPv6: its state, and what each operation does to it.

 A received segment is the memory from its TCP header on, because the option parser and the copy
 of the payload read wherever their pointers lead.  The receive buffer is memory written at
 offsets from its start; an offset can be negative.
 */
module Tcp {
  import opened Addresses
  import opened Bytes
  import opened Wrappers

  const TIMER_PRECISION_SCALE: nat := 1000
  const RETRY_LIMIT: nat := 5
  const HEADER_LENGTH: nat := 20
  const LOCAL_MAXIMUM_SEGMENT_SIZE: nat := 1440
  const LOCAL_WINDOW_SIZE: nat := 32768
  const LOCAL_WINDOW_SCALE: nat := 5

  datatype Status =
    | Closed | Listen | SynSent | SynReceived | Established
    | FinSent | WaitingForRemoteToFinish | TimedClose | Finished

  type Port = nat

  datatype Segment = Segment(
    sourceAddress: Ipv6Address, destinationAddress: Ipv6Address,
    sourcePort: Port, destinationPort: Port,
    sequenceNumber: Natural32, acknowledgmentNumber: Natural32,
    finish: bool, synchronize: bool, reset: bool, acknowledgment: bool,
    dataOffset: nat, ipPayloadLength: Natural32, memory: nat -> Byte)
  {
    function HeaderEnd(): nat {
      4 * dataOffset
    }

    // The subtraction is 32 bits wide and wraps.
    function PayloadLength(): Natural32 {
      (ipPayloadLength - HeaderEnd()) % LIMIT_32
    }
  }

  datatype Sent = Sent(
    sourceAddress: Ipv6Address, destinationAddress: Ipv6Address, sourcePort: Port, destinationPort: Port,
    sequenceNumber: Natural32, acknowledgmentNumber: Natural32,
    synchronize: bool, acknowledgment: bool, finish: bool,
    windowSize: nat, options: seq<Byte>)

  datatype Tcb = Tcb(
    status: Status,
    localSequenceNumber: nat, localAcknowledgment: nat, remoteAcknowledgment: nat, retryTimer: nat,
    localAddress: Ipv6Address, remoteAddress: Ipv6Address, localPort: Port, remotePort: Port,
    remoteMaximumSegmentSize: nat, remoteWindowScale: nat, selectiveAcknowledgmentEnabled: bool,
    localInitialSequenceNumber: Natural32, remoteInitialSequenceNumber: Natural32,
    retryCounter: nat, remoteFinished: bool,
    receiveBuffer: map<int, Byte>, transmitted: seq<Sent>)

  function Fresh(localPort: Port): Tcb {
    Tcb(Closed, 0, 0, 0, 0, 0, 0, localPort, 0, 1440, 0, false, 0, 0, 0, false, map[], [])
  }

  // ---------------------------------------------------------------------------
  // Options
  // ---------------------------------------------------------------------------

  datatype Options = Options(end: nat, maximumSegmentSize: nat, windowScale: nat, selectiveAcknowledgment: bool)

  // The position after the option at `pos`, as the parser steps; the lengths of unknown options are not read.
  function NextOption(memory: nat -> Byte, pos: nat): (next: nat)
    ensures next > pos
  {
    match memory(pos)
    case 2 => pos + 4
    case 3 => pos + 3
    case 4 => pos + 2
    case 5 => pos + 2 + (memory(pos + 1) as int - 2) % 0x100
    case 8 => pos + 10
    case _ => pos + 1
  }

  function WithOption(memory: nat -> Byte, pos: nat, o: Options): (r: Options)
    requires pos < o.end
    ensures r.end <= o.end
  {
    match memory(pos)
    case 0 => o.(end := pos + 1)
    case 2 => o.(maximumSegmentSize := 0x100 * memory(pos + 2) as nat + memory(pos + 3) as nat)
    case 3 => o.(windowScale := memory(pos + 2) as nat)
    case 4 => o.(selectiveAcknowledgment := true)
    case _ => o
  }

  function ParsedOptions(memory: nat -> Byte, pos: nat, o: Options): (r: Options)
    ensures r.end <= o.end
    decreases o.end - pos
  {
    if pos >= o.end then o
    else ParsedOptions(memory, NextOption(memory, pos), WithOption(memory, pos, o))
  }

  function OptionsOf(c: Tcb, s: Segment): Options {
    ParsedOptions(s.memory, HEADER_LENGTH,
                  Options(s.HeaderEnd(), c.remoteMaximumSegmentSize, c.remoteWindowScale,
                          c.selectiveAcknowledgmentEnabled))
  }

  // ---------------------------------------------------------------------------
  // Operations
  // ---------------------------------------------------------------------------

  // Whether the segment built in this state carries a FIN.
  predicate SendsFinish(c: Tcb) {
    c.status == FinSent && c.remoteAcknowledgment >= c.localSequenceNumber
  }

  // Maximum segment size, window scale, selective acknowledgment permitted, and three End bytes.
  function SynOptions(): (options: seq<Byte>)
    ensures |options| == 12
  {
    [2, 4, (LOCAL_MAXIMUM_SEGMENT_SIZE / 0x100) as Byte, (LOCAL_MAXIMUM_SEGMENT_SIZE % 0x100) as Byte,
     3, 3, LOCAL_WINDOW_SCALE as Byte, 4, 2, 0, 0, 0]
  }

  function Min(a: nat, b: nat): nat {
    if a < b then a else b
  }

  // The window is scaled in every segment but a SYN.
  function WindowField(synchronize: bool): nat {
    if synchronize then Min(65535, LOCAL_WINDOW_SIZE) else LOCAL_WINDOW_SIZE / 32
  }

  function Outgoing(c: Tcb): Sent {
    var synchronize := c.status == SynSent || c.status == SynReceived;
    Sent(c.localAddress, c.remoteAddress, c.localPort, c.remotePort,
         Low32(c.localSequenceNumber),
         if c.status == SynSent then 0 else Low32(c.localAcknowledgment),
         synchronize,
         c.status != SynSent,
         SendsFinish(c),
         WindowField(synchronize),
         if synchronize then SynOptions() else [])
  }

  function ShiftedLeft(x: nat, n: nat): nat {
    if n == 0 then x else 2 * ShiftedLeft(x, n - 1)
  }

  /** A receiver that parses options the same way reads the local limits from our SYN and, with the scale it
      read, the local window from every later segment; its walk stops at the first End, two bytes early. */
  lemma {:induction false} SynOptionsAdvertise(memory: nat -> Byte, o: Options)
    requires o.end == HEADER_LENGTH + 12
    requires forall i | 0 <= i < 12 :: memory(HEADER_LENGTH + i) == SynOptions()[i]
    ensures ParsedOptions(memory, HEADER_LENGTH, o) ==
            Options(HEADER_LENGTH + 10, LOCAL_MAXIMUM_SEGMENT_SIZE, LOCAL_WINDOW_SCALE, true)
    ensures WindowField(true) == LOCAL_WINDOW_SIZE
    ensures ShiftedLeft(WindowField(false), LOCAL_WINDOW_SCALE) == LOCAL_WINDOW_SIZE
  {
    var bytes := SynOptions();
    assert bytes[0] == 2 && bytes[2] == 5 && bytes[3] == 160;
    assert bytes[4] == 3 && bytes[6] == 5 && bytes[7] == 4 && bytes[9] == 0;
    var o1 := o.(maximumSegmentSize := 1440);
    var o2 := o1.(windowScale := 5);
    var o3 := o2.(selectiveAcknowledgment := true);
    assert ParsedOptions(memory, 27, o2) == ParsedOptions(memory, 29, o3) == o3.(end := 30);
    assert ParsedOptions(memory, 20, o) == ParsedOptions(memory, 24, o1) == ParsedOptions(memory, 27, o2);
    assert ShiftedLeft(1024, 3) == 8192;
  }

  // `frame` tells whether the interface had a frame to give.
  function Transmit(c: Tcb, now: nat, frame: bool): Tcb {
    if !frame then c
    else c.(transmitted := c.transmitted + [Outgoing(c)], retryTimer := now + TIMER_PRECISION_SCALE)
  }

  function SetEstablished(c: Tcb, s: Segment): Tcb {
    c.(localSequenceNumber := c.localSequenceNumber + 1,
       localInitialSequenceNumber := Low32(c.localSequenceNumber + 1),
       remoteInitialSequenceNumber := s.sequenceNumber,
       status := Established)
  }

  function SetTimedClose(c: Tcb, now: nat): Tcb {
    c.(retryTimer := now + TIMER_PRECISION_SCALE, status := TimedClose)
  }

  function ReceivedSyn(c: Tcb, s: Segment, now: nat, frame: bool): Tcb {
    var c1 :=
      match c.status
      case Listen =>
        if s.acknowledgment then None
        else Some(c.(remoteAddress := s.sourceAddress, remotePort := s.sourcePort,
                     localSequenceNumber := 0, status := SynReceived))
      case SynSent =>
        if !s.acknowledgment then Some(c.(status := SynReceived))
        else if s.acknowledgmentNumber == c.localSequenceNumber + 1 then Some(SetEstablished(c, s))
        else None
      case SynReceived => Some(c)
      case _ => None;
    if c1.None? then c
    else Transmit(c1.value.(localAcknowledgment := Add32(s.sequenceNumber, 1)), now, frame)
  }

  // A segment that neither resets nor synchronizes acknowledges our SYN or our FIN.
  function Acknowledged(c: Tcb, s: Segment, now: nat): Tcb {
    var c1 :=
      if c.status == SynReceived then SetEstablished(c, s)
      else if c.status == FinSent && s.acknowledgmentNumber == c.localSequenceNumber + 1 then
        var c0 := c.(localSequenceNumber := c.localSequenceNumber + 1);
        if c.remoteFinished then SetTimedClose(c0, now) else c0.(status := WaitingForRemoteToFinish)
      else c;
    if s.acknowledgmentNumber > c1.remoteAcknowledgment then c1.(remoteAcknowledgment := s.acknowledgmentNumber) else c1
  }

  // The buffer after n bytes were copied to offset dst.
  function Copied(buffer: map<int, Byte>, dst: int, memory: nat -> Byte, from: nat, n: nat): map<int, Byte> {
    if n == 0 then buffer
    else Copied(buffer, dst, memory, from, n - 1)[dst + n - 1 := memory(from + n - 1)]
  }

  function NextSequenceNumber(s: Segment): Natural32 {
    var next := Add32(s.sequenceNumber, s.PayloadLength());
    if s.finish then Add32(next, 1) else next
  }

  function Stored(c: Tcb, s: Segment, from: nat): Tcb {
    if c.localAcknowledgment >= NextSequenceNumber(s) then c
    else
      c.(localAcknowledgment := if s.sequenceNumber == c.localAcknowledgment then NextSequenceNumber(s)
                                else c.localAcknowledgment,
         receiveBuffer := Copied(c.receiveBuffer, s.sequenceNumber - c.remoteInitialSequenceNumber,
                                 s.memory, from, s.PayloadLength()))
  }

  function FinishAccepted(c: Tcb, now: nat): Tcb {
    var c1 := c.(remoteFinished := true);
    if c.status == WaitingForRemoteToFinish then SetTimedClose(c1, now) else c1
  }

  // The payload and the FIN; `from` is where the payload is taken from.
  function ReceivedData(c: Tcb, s: Segment, from: nat, now: nat, frame: bool): Tcb {
    if s.finish && s.sequenceNumber != c.localAcknowledgment then c
    else
      var c1 := if s.finish then FinishAccepted(c, now) else c;
      var c2 := Stored(c1, s, from);
      if s.finish || s.PayloadLength() > 0 then Transmit(c2, now, frame) else c2
  }

  predicate FromRemote(c: Tcb, s: Segment) {
    c.remoteAddress == s.sourceAddress && c.remotePort == s.sourcePort
  }

  function WithHeader(c: Tcb, s: Segment): Tcb {
    var o := OptionsOf(c, s);
    c.(localAddress := s.destinationAddress,
       remoteMaximumSegmentSize := o.maximumSegmentSize,
       remoteWindowScale := o.windowScale,
       selectiveAcknowledgmentEnabled := o.selectiveAcknowledgment)
  }

  function Received(c: Tcb, s: Segment, now: nat, frame: bool): Tcb {
    if c.status == Closed || (c.status != Listen && !FromRemote(c, s)) then c
    else
      var c1 := WithHeader(c, s);
      if s.reset then
        if c.status == Listen || c.status == TimedClose then c1 else c1.(status := Closed)
      else if s.synchronize then ReceivedSyn(c1, s, now, frame)
      else if c.status == Listen || c.status == SynSent then c1
      else ReceivedData(Acknowledged(c1, s, now), s, OptionsOf(c, s).end, now, frame)
  }

  function Poll(c: Tcb, now: nat, frame: bool): Tcb {
    if c.status == Closed || now < c.retryTimer || c.status == Listen || c.status == WaitingForRemoteToFinish
       || (c.status == Established && c.remoteAcknowledgment == c.localSequenceNumber) then c
    else if c.status == TimedClose then c.(status := Finished)
    else
      var c1 := c.(retryCounter := (c.retryCounter + 1) % 0x100);
      if c1.retryCounter > RETRY_LIMIT then c1.(status := Closed) else Transmit(c1, now, frame)
  }

  function Listened(c: Tcb): Tcb {
    if c.status != Closed then c else c.(status := Listen)
  }

  function Connected(c: Tcb, now: nat, frame: bool): Tcb {
    if c.status != Closed && c.status != Listen then c
    else Transmit(c.(localSequenceNumber := 0, status := SynSent), now, frame)
  }

  function ClosedBy(c: Tcb, now: nat, frame: bool): Tcb {
    match c.status
    case Listen | SynSent | Finished => c.(status := Closed)
    case SynReceived | Established => Transmit(c.(status := FinSent), now, frame)
    case _ => c
  }

  // The dispatcher: it closes the connection as soon as the remote finished.
  function Dispatched(c: Tcb, s: Segment, now: nat, frame: bool, closeFrame: bool): Tcb {
    if s.destinationPort != c.localPort then c
    else
      var c1 := Received(c, s, now, frame);
      if c1.remoteFinished then ClosedBy(c1, now, closeFrame) else c1
  }

  // ---------------------------------------------------------------------------
  // Runs
  // ---------------------------------------------------------------------------

  datatype Event =
    | Deliver(segment: Segment, now: nat, frame: bool, closeFrame: bool)
    | Tick(now: nat, frame: bool)
    | CallListen(now: nat)
    | CallConnect(address: Ipv6Address, port: Port, now: nat, frame: bool)
    | CallClose(now: nat, frame: bool)

  function Apply(c: Tcb, e: Event): Tcb {
    match e
    case Deliver(s, now, frame, closeFrame) => Dispatched(c, s, now, frame, closeFrame)
    case Tick(now, frame) => Poll(c, now, frame)
    case CallListen(_) => Listened(c)
    case CallConnect(address, port, now, frame) =>
      Connected(if c.status == Closed || c.status == Listen then c.(remoteAddress := address, remotePort := port) else c,
                now, frame)
    case CallClose(now, frame) => ClosedBy(c, now, frame)
  }

  function Run(c: Tcb, events: seq<Event>): Tcb {
    if events == [] then c else Apply(Run(c, events[..|events| - 1]), events[|events| - 1])
  }
}
