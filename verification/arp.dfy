/**
 Layout of a captured Ethernet frame carrying an Address Resolution Protocol
 packet for Ethernet hardware and IPv4 protocol addresses (RFC 826). The packet
 handler reads the frame through `struct ether_arp` placed right after the
 14-byte Ethernet header; this module gives the offsets that reading implies,
 and an encoder that builds such a frame so the offsets can be checked against
 the packet format.
 */
module Arp {
  import opened Bytes

  const EtherHeaderLength := 14
  /** ar$hrd, ar$pro (2 bytes each), ar$hln, ar$pln (1 byte each), ar$op (2 bytes). */
  const ArpFixedHeaderLength := 8
  const HardwareAddressLength := 6
  const ProtocolAddressLength := 4
  /** sizeof(struct ether_arp): fixed header plus two hardware and two protocol addresses. */
  const EtherArpLength := ArpFixedHeaderLength + 2 * HardwareAddressLength + 2 * ProtocolAddressLength
  /** The handler treats every frame as holding at least this many bytes. */
  const MinFrameLength := EtherHeaderLength + EtherArpLength

  const SenderHardwareOffset := EtherHeaderLength + ArpFixedHeaderLength
  const SenderProtocolOffset := SenderHardwareOffset + HardwareAddressLength

  /** ar$sha: the sender hardware (MAC) address, read without looking at the opcode. */
  function SenderHardware(frame: seq<byte>): (sha: seq<byte>)
    requires |frame| >= MinFrameLength
    ensures |sha| == HardwareAddressLength
    ensures forall i :: 0 <= i < 6 ==> sha[i] == frame[22 + i]
  {
    frame[SenderHardwareOffset..SenderHardwareOffset + HardwareAddressLength]
  }

  /** ar$spa: the sender protocol (IPv4) address, read without looking at the opcode. */
  function SenderProtocol(frame: seq<byte>): (spa: seq<byte>)
    requires |frame| >= MinFrameLength
    ensures |spa| == ProtocolAddressLength
    ensures forall i :: 0 <= i < 4 ==> spa[i] == frame[28 + i]
  {
    frame[SenderProtocolOffset..SenderProtocolOffset + ProtocolAddressLength]
  }

  /** The fields of one ARP packet for Ethernet/IPv4; `op` is ar$op (1 request, 2 reply, or anything else). */
  datatype ArpPacket = ArpPacket(op: int, sha: seq<byte>, spa: seq<byte>, tha: seq<byte>, tpa: seq<byte>)

  predicate WellSized(p: ArpPacket) {
    && 0 <= p.op < 0x1_0000
    && |p.sha| == HardwareAddressLength && |p.tha| == HardwareAddressLength
    && |p.spa| == ProtocolAddressLength && |p.tpa| == ProtocolAddressLength
  }

  /** A 16-bit field in network byte order. */
  function BigEndian16(v: int): (b: seq<byte>)
    requires 0 <= v < 0x1_0000
    ensures |b| == 2
  {
    [(v / 256) as byte, (v % 256) as byte]
  }

  /** ar$hrd = 1 (Ethernet), ar$pro = 0x0800 (IPv4), ar$hln = 6, ar$pln = 4, then ar$op. */
  function ArpHeader(op: int): (h: seq<byte>)
    requires 0 <= op < 0x1_0000
    ensures |h| == ArpFixedHeaderLength
  {
    BigEndian16(1) + BigEndian16(0x0800) + [6 as byte, 4 as byte] + BigEndian16(op)
  }

  /**
   An Ethernet frame (destination, source, EtherType 0x0806) carrying packet `p`,
   followed by any link-layer padding.
   */
  function EncodeFrame(dst: seq<byte>, src: seq<byte>, p: ArpPacket, padding: seq<byte>): (frame: seq<byte>)
    requires |dst| == 6 && |src| == 6
    requires WellSized(p)
    ensures |frame| == MinFrameLength + |padding|
  {
    dst + src + BigEndian16(0x0806) + ArpHeader(p.op) + p.sha + p.spa + p.tha + p.tpa + padding
  }

  /**
   The fixed offsets recover the sender addresses of every encoded packet,
   whatever its opcode and padding: requests and replies are read alike.
   */
  lemma SenderFieldsOfEncodedFrame(dst: seq<byte>, src: seq<byte>, p: ArpPacket, padding: seq<byte>)
    requires |dst| == 6 && |src| == 6
    requires WellSized(p)
    ensures SenderHardware(EncodeFrame(dst, src, p, padding)) == p.sha
    ensures SenderProtocol(EncodeFrame(dst, src, p, padding)) == p.spa
  {
  }
}
