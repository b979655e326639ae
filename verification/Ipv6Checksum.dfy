/**
 Payload checksums of IPv6 packets: the sender fills the field, the receiver recomputes it over
 the packet it got and accepts the payload when the result is zero.

 A packet is the byte sequence of its 40-byte header followed by the payload.  While the program
 works on it, the payload length at offset 4 is in host (little-endian) order.
 */
module Ipv6Checksum {
  import opened Bytes
  import opened Checksum

  const HEADER: nat := 40
  const ADDRESSES: nat := 8

  function Write(bs: seq<Byte>, at: nat, data: seq<Byte>): (r: seq<Byte>)
    requires at + |data| <= |bs|
    ensures |r| == |bs|
    ensures forall i | 0 <= i < |bs| :: r[i] == if at <= i < at + |data| then data[i - at] else bs[i]
  {
    bs[..at] + data + bs[at + |data|..]
  }

  function PayloadLength(packet: seq<Byte>): (length: nat)
    requires |packet| >= HEADER
    ensures length < LIMIT_16
  {
    LittleWord16(packet[4], packet[5])
  }

  ghost predicate Complete(packet: seq<Byte>) {
    |packet| >= HEADER && |packet| >= HEADER + PayloadLength(packet)
  }

  // The bytes of the pseudo-header as the program lays it out (PseudoHeaderLayout).
  function PseudoHeader(length: nat, protocol: Byte): (r: seq<Byte>)
    requires length < LIMIT_16
    ensures |r| == 8
  {
    [(length / 0x100) as Byte, (length % 0x100) as Byte, 0, 0, 0, 0, 0, protocol]
  }

  /** They are a byte-swapped 16-bit length in the low half of a 32-bit little-endian field, and the protocol
      in the last byte of another one. */
  lemma {:induction false} PseudoHeaderLayout(length: nat, protocol: Byte)
    requires length < LIMIT_16
    ensures PseudoHeader(length, protocol) == LittleBytes32(Swap16(length)) + [0, 0, 0, protocol]
  {
    var swapped := Swap16(length);
    assert swapped / 0x100 == length % 0x100 && swapped % 0x100 == length / 0x100;
  }

  // The bytes of a packet the checksum covers.
  function Covered(packet: seq<Byte>): seq<Byte>
    requires Complete(packet)
  {
    packet[ADDRESSES..HEADER + PayloadLength(packet)]
  }

  function ChecksumTotal(packet: seq<Byte>, protocol: Byte): nat
    requires Complete(packet)
  {
    LittleSum(PseudoHeader(PayloadLength(packet), protocol)) + LittleSum(Covered(packet))
  }

  function ChecksumOf(packet: seq<Byte>, protocol: Byte): (checksum: nat)
    requires Complete(packet)
    ensures checksum < LIMIT_16
  {
    65535 - Fold(ChecksumTotal(packet, protocol))
  }

  function Addresses(packet: seq<Byte>): (r: seq<Byte>)
    requires Complete(packet)
    ensures |r| == 32
  {
    packet[ADDRESSES..HEADER]
  }

  function Payload(packet: seq<Byte>): (r: seq<Byte>)
    requires Complete(packet)
    ensures |r| == PayloadLength(packet)
  {
    packet[HEADER..HEADER + PayloadLength(packet)]
  }

  lemma TotalSplits(packet: seq<Byte>, protocol: Byte)
    requires Complete(packet)
    ensures ChecksumTotal(packet, protocol) ==
            LittleSum(Addresses(packet)) + LittleSum(PseudoHeader(PayloadLength(packet), protocol))
            + LittleSum(Payload(packet))
  {
    SumAppends(Addresses(packet), Payload(packet));
    assert Addresses(packet) + Payload(packet) == Covered(packet);
  }

  /** The 32-bit accumulator does not overflow for any payload of up to 65535 bytes. */
  lemma {:induction false} AccumulatorDoesNotOverflow(packet: seq<Byte>, protocol: Byte)
    requires Complete(packet)
    ensures ChecksumTotal(packet, protocol) < LIMIT_32
  {
    SumBound(PseudoHeader(PayloadLength(packet), protocol));
    SumBound(Covered(packet));
  }

  method PayloadChecksum(packet: array<Byte>, protocol: Byte) returns (checksum: nat)
    requires Complete(packet[..])
    ensures checksum == ChecksumOf(packet[..], protocol)
  {
    var payloadLength := LittleWord16(packet[4], packet[5]);
    var addresses, pseudo := packet[ADDRESSES..HEADER], PseudoHeader(payloadLength, protocol);
    var payload := packet[HEADER..HEADER + payloadLength];
    assert addresses == Addresses(packet[..]) && payload == Payload(packet[..]);
    TotalSplits(packet[..], protocol);
    AccumulatorDoesNotOverflow(packet[..], protocol);
    checksum := ChecksumOfThree(addresses, pseudo, payload);
  }

  method ChecksumOfThree(a: seq<Byte>, b: seq<Byte>, c: seq<Byte>) returns (checksum: nat)
    requires LittleSum(a) + LittleSum(b) + LittleSum(c) < LIMIT_32
    ensures checksum == 65535 - Fold(LittleSum(a) + LittleSum(b) + LittleSum(c))
  {
    hide LittleSum, Fold;
    var generator := new IpChecksumGenerator();
    generator.Input(a);
    assert generator.accumulator == LittleSum(a);
    generator.Input(b);
    assert generator.accumulator == LittleSum(a) + LittleSum(b);
    generator.Input(c);
    assert generator.accumulator == LittleSum(a) + LittleSum(b) + LittleSum(c);
    checksum := generator.Output();
  }

  // ---------------------------------------------------------------------------
  // Sending and receiving
  // ---------------------------------------------------------------------------

  // The fields are set and the checksum field is cleared, ready to be summed.
  function Unsummed(packet: seq<Byte>, protocol: Byte, field: nat, length: nat): (r: seq<Byte>)
    requires length < LIMIT_16 && |packet| >= HEADER + length
    requires HEADER <= field && field + 2 <= HEADER + length
    ensures Complete(r) && |r| == |packet| && PayloadLength(r) == length
  {
    Write(Write(packet[6 := protocol], 4, LittleBytes16(length)), field, [0, 0])
  }

  function Prepared(packet: seq<Byte>, protocol: Byte, field: nat, length: nat): (r: seq<Byte>)
    requires length < LIMIT_16 && |packet| >= HEADER + length
    requires HEADER <= field && field + 2 <= HEADER + length
    ensures Complete(r) && |r| == |packet| && PayloadLength(r) == length
  {
    var u := Unsummed(packet, protocol, field, length);
    Write(u, field, LittleBytes16(ChecksumOf(u, protocol)))
  }

  // `field` is the offset of the checksum in the packet, `length` that of the payload header and data.
  method PrepareTransmit(packet: array<Byte>, protocol: Byte, field: nat, length: nat)
    requires length < LIMIT_16 && packet.Length >= HEADER + length
    requires HEADER <= field && field + 2 <= HEADER + length
    modifies packet
    ensures packet[..] == Prepared(old(packet[..]), protocol, field, length)
  {
    packet[6] := protocol;
    packet[4] := (length % 0x100) as Byte;
    packet[5] := (length / 0x100) as Byte;
    packet[field] := 0;
    packet[field + 1] := 0;
    assert packet[..] == Unsummed(old(packet[..]), protocol, field, length);
    var checksum := PayloadChecksum(packet, protocol);
    packet[field] := (checksum % 0x100) as Byte;
    packet[field + 1] := (checksum / 0x100) as Byte;
  }

  // Byte order of the header fields is corrected on the way out and on the way in.
  function HeaderSwapped(packet: seq<Byte>): (r: seq<Byte>)
    requires |packet| >= HEADER
    ensures |r| == |packet|
  {
    Write(packet, 0, [packet[3], packet[2], packet[1], packet[0], packet[5], packet[4]])
  }

  // Version 6, no traffic class or flow label, hop limit 255.
  function IpPrepared(packet: seq<Byte>): (r: seq<Byte>)
    requires |packet| >= HEADER
    ensures |r| == |packet|
  {
    HeaderSwapped(Write(packet, 0, [0, 0, 0, 0x60])[7 := 255])
  }

  /** What leaves: the header fields of section 3 of RFC 8200 in network order with the given protocol and length
      and a hop limit of 255, and everything else but the checksum field as it was given. */
  lemma {:induction false} WireHeader(packet: seq<Byte>, protocol: Byte, field: nat, length: nat)
    requires length < LIMIT_16 && |packet| >= HEADER + length
    requires HEADER <= field && field + 2 <= HEADER + length
    ensures var wire := IpPrepared(Prepared(packet, protocol, field, length));
            && |wire| == |packet|
            && wire[..8] == [0x60, 0, 0, 0, (length / 0x100) as Byte, (length % 0x100) as Byte, protocol, 255]
            && forall i | 8 <= i < |wire| && i != field && i != field + 1 :: wire[i] == packet[i]
  {
    var low, high := (length % 0x100) as Byte, (length / 0x100) as Byte;
    var prepared := Prepared(packet, protocol, field, length);
    assert prepared[4..7] == [low, high, protocol];
    var wire := IpPrepared(prepared);
    assert prepared[4] == low && prepared[5] == high && prepared[6] == protocol;
    assert wire[0] == 0x60 && wire[1] == wire[2] == wire[3] == 0;
  }

  /** Correcting the byte order on the way in undoes the correction on the way out. */
  lemma {:induction false} SwappedTwice(packet: seq<Byte>)
    requires |packet| >= HEADER
    ensures HeaderSwapped(HeaderSwapped(packet)) == packet
    ensures PayloadLength(HeaderSwapped(packet)) == 0x100 * packet[4] as nat + packet[5] as nat
    ensures forall i | 6 <= i < |packet| :: HeaderSwapped(packet)[i] == packet[i]
  {
  }

  lemma SumAround(bs: seq<Byte>, at: nat)
    requires at % 2 == 0 && at + 2 <= |bs|
    ensures LittleSum(bs) == LittleSum(bs[..at]) + LittleWord16(bs[at], bs[at + 1]) + LittleSum(bs[at + 2..])
  {
    hide LittleSum, LittleWord16;
    WordAppends(bs, at);
    SumAppends(bs[..at + 2], bs[at + 2..]);
    assert bs[..at + 2] + bs[at + 2..] == bs;
  }

  lemma SumOfReplaced(bs: seq<Byte>, at: nat, low: Byte, high: Byte)
    requires at % 2 == 0 && at + 2 <= |bs|
    ensures LittleSum(Write(bs, at, [low, high])) + LittleWord16(bs[at], bs[at + 1]) ==
            LittleSum(bs) + LittleWord16(low, high)
  {
    var w := Write(bs, at, [low, high]);
    assert w[at] == low && w[at + 1] == high;
    assert w[..at] == bs[..at];
    assert w[at + 2..] == bs[at + 2..];
    hide LittleSum, Write, LittleWord16;
    SumAround(bs, at);
    SumAround(w, at);
  }

  lemma TotalOfReplaced(packet: seq<Byte>, protocol: Byte, at: nat, low: Byte, high: Byte)
    requires Complete(packet)
    requires ADDRESSES <= at && at % 2 == 0 && at + 2 <= HEADER + PayloadLength(packet)
    ensures Complete(Write(packet, at, [low, high]))
    ensures ChecksumTotal(Write(packet, at, [low, high]), protocol) + LittleWord16(packet[at], packet[at + 1]) ==
            ChecksumTotal(packet, protocol) + LittleWord16(low, high)
  {
    var w := Write(packet, at, [low, high]);
    SumOfReplaced(Covered(packet), at - ADDRESSES, low, high);
    assert Covered(w) == Write(Covered(packet), at - ADDRESSES, [low, high]);
  }

  lemma HeaderRoundTrip(p: seq<Byte>, protocol: Byte)
    requires Complete(p)
    ensures Complete(HeaderSwapped(IpPrepared(p)))
    ensures ChecksumTotal(HeaderSwapped(IpPrepared(p)), protocol) == ChecksumTotal(p, protocol)
  {
    var r := HeaderSwapped(IpPrepared(p));
    assert PayloadLength(r) == PayloadLength(p);
    assert Covered(r) == Covered(p);
  }

  lemma FilledFieldTotal(u: seq<Byte>, protocol: Byte, field: nat, low: Byte, high: Byte)
    requires Complete(u) && HEADER <= field && field + 2 <= HEADER + PayloadLength(u) && field % 2 == 0
    requires u[field] == u[field + 1] == 0
    ensures Complete(Write(u, field, [low, high]))
    ensures ChecksumTotal(Write(u, field, [low, high]), protocol) ==
            ChecksumTotal(u, protocol) + LittleWord16(low, high)
  {
    TotalOfReplaced(u, protocol, field, low, high);
  }

  lemma PreparedTotal(packet: seq<Byte>, protocol: Byte, field: nat, length: nat)
    requires length < LIMIT_16 && |packet| >= HEADER + length
    requires HEADER <= field && field + 2 <= HEADER + length && field % 2 == 0
    ensures var total := ChecksumTotal(Unsummed(packet, protocol, field, length), protocol);
            ChecksumTotal(Prepared(packet, protocol, field, length), protocol) == total + 65535 - Fold(total)
  {
    var u := Unsummed(packet, protocol, field, length);
    var bytes := LittleBytes16(ChecksumOf(u, protocol));
    var low, high := bytes[0], bytes[1];
    assert bytes == [low, high];
    FilledFieldTotal(u, protocol, field, low, high);
  }

  /** Whatever the addresses and the payload are, the receiver's checksum over the packet
      that went out is zero. */
  lemma {:induction false} ReceiverAgrees(packet: seq<Byte>, protocol: Byte, field: nat, length: nat)
    requires length < LIMIT_16 && |packet| >= HEADER + length
    requires HEADER <= field && field + 2 <= HEADER + length && field % 2 == 0
    ensures var received := HeaderSwapped(IpPrepared(Prepared(packet, protocol, field, length)));
            Complete(received) && ChecksumOf(received, protocol) == 0
  {
    PreparedTotal(packet, protocol, field, length);
    FilledTotal(ChecksumTotal(Unsummed(packet, protocol, field, length), protocol));
    HeaderRoundTrip(Prepared(packet, protocol, field, length), protocol);
  }

  lemma FilledTotal(total: nat)
    ensures Fold(total + 65535 - Fold(total)) == 65535
  {
  }

  ghost predicate Accepted(packet: seq<Byte>, protocol: Byte)
    requires Complete(packet)
  {
    ChecksumOf(packet, protocol) == 0
  }

  /** Replacing one aligned 16-bit word of an accepted packet goes unnoticed if and only if
      the old and the new word are congruent modulo 65535. */
  lemma {:induction false} ReplacedWordAcceptedIffCongruent(packet: seq<Byte>, protocol: Byte, at: nat,
                                                            low: Byte, high: Byte)
    requires Complete(packet) && protocol != 0 && Accepted(packet, protocol)
    requires ADDRESSES <= at && at % 2 == 0 && at + 2 <= HEADER + PayloadLength(packet)
    ensures Accepted(Write(packet, at, [low, high]), protocol) <==>
            LittleWord16(packet[at], packet[at + 1]) % 65535 == LittleWord16(low, high) % 65535
  {
    var replaced := Write(packet, at, [low, high]);
    TotalOfReplaced(packet, protocol, at, low, high);
    PseudoHeaderSum(PayloadLength(packet), protocol);
    Cancels(ChecksumTotal(packet, protocol), ChecksumTotal(replaced, protocol),
            LittleWord16(packet[at], packet[at + 1]), LittleWord16(low, high));
  }

  lemma Cancels(total: nat, total': nat, w: nat, w': nat)
    requires total' + w == total + w' && total % 65535 == 0
    ensures total' % 65535 == 0 <==> w % 65535 == w' % 65535
  {
  }

  lemma PseudoHeaderSum(length: nat, protocol: Byte)
    requires length < LIMIT_16
    ensures LittleSum(PseudoHeader(length, protocol)) == Swap16(length) + 0x100 * protocol as nat
  {
    SumOfEight(PseudoHeader(length, protocol));
  }

  lemma SumOfEight(p: seq<Byte>)
    requires |p| == 8
    ensures LittleSum(p) == LittleWord16(p[0], p[1]) + LittleWord16(p[2], p[3])
                            + LittleWord16(p[4], p[5]) + LittleWord16(p[6], p[7])
  {
    var p2, p4, p6 := p[2..], p[4..], p[6..];
    assert p2[2..] == p4 && p4[2..] == p6 && p6[2..] == [];
    assert LittleSum(p4) == LittleWord16(p4[0], p4[1]) + LittleSum(p6);
    assert LittleSum(p2) == LittleWord16(p2[0], p2[1]) + LittleSum(p4);
  }

  // ---------------------------------------------------------------------------
  // Section 8.1 of RFC 8200
  // ---------------------------------------------------------------------------

  function RfcPseudoHeader(length: nat, protocol: Byte): seq<Byte>
    requires length < LIMIT_16
  {
    [0, 0, (length / 0x100) as Byte, (length % 0x100) as Byte, 0, 0, 0, protocol]
  }

  function RfcChecksum(packet: seq<Byte>, protocol: Byte): nat
    requires Complete(packet)
  {
    65535 - OnesComplementSum(Addresses(packet) + RfcPseudoHeader(PayloadLength(packet), protocol) + Payload(packet))
  }

  /** The two bytes stored little-endian are the big-endian bytes of the checksum
      that the standard defines over its own pseudo-header. */
  lemma {:induction false} SameBytesAsStandard(packet: seq<Byte>, protocol: Byte)
    requires Complete(packet)
    ensures var c := RfcChecksum(packet, protocol);
            LittleBytes16(ChecksumOf(packet, protocol)) == [(c / 0x100) as Byte, (c % 0x100) as Byte]
  {
    var all := Addresses(packet) + RfcPseudoHeader(PayloadLength(packet), protocol) + Payload(packet);
    StandardTotal(packet, protocol);
    FoldIsSwappedOnesComplementSum(all);
    SwapOfComplement(OnesComplementSum(all));
  }

  lemma StandardTotal(packet: seq<Byte>, protocol: Byte)
    requires Complete(packet)
    ensures LittleSum(Addresses(packet) + RfcPseudoHeader(PayloadLength(packet), protocol) + Payload(packet))
         == ChecksumTotal(packet, protocol)
  {
    var pseudo := RfcPseudoHeader(PayloadLength(packet), protocol);
    SumAppends(Addresses(packet) + pseudo, Payload(packet));
    SumAppends(Addresses(packet), pseudo);
    TotalSplits(packet, protocol);
    PseudoHeaderSum(PayloadLength(packet), protocol);
    SumOfEight(pseudo);
  }

  lemma SwapOfComplement(w: nat)
    requires w < LIMIT_16
    ensures 65535 - Swap16(w) == Swap16(65535 - w)
    ensures Swap16(65535 - w) % 0x100 == (65535 - w) / 0x100
    ensures Swap16(65535 - w) / 0x100 == (65535 - w) % 0x100
  {
    var high, low := w / 0x100, w % 0x100;
    assert 65535 - w == 0x100 * (255 - high) + (255 - low);
    assert (65535 - w) / 0x100 == 255 - high && (65535 - w) % 0x100 == 255 - low;
  }
}
