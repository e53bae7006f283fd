/** The header accessors of ethernet.cpp, arp.cpp, ip.cpp, udp.cpp and dhcp.cpp on the visible bytes of a frame. */
module Frames {
  import opened Octets
  import opened Packets

  const ETHER_LEN: nat := 14
  const IP_LEN: nat := 20
  const UDP_LEN: nat := 8
  const MAX_FRAME: nat := 1514
  const MTU: nat := 1500

  const ETHERTYPE_IP: nat := 0x0800
  const ETHERTYPE_ARP: nat := 0x0806
  const PROTO_ICMP: byte := 1
  const PROTO_UDP: byte := 17

  /** A frame too short for the field leaves the zero the source starts from. */
  function EtherType(f: seq<byte>): nat {
    if |f| < 14 then 0 else Word(f[12], f[13])
  }

  function EtherDestination(f: seq<byte>): Mac
    requires |f| >= 14
  {
    f[0..6]
  }

  function EtherSource(f: seq<byte>): Mac
    requires |f| >= 14
  {
    f[6..12]
  }

  function SetEtherDestination(f: seq<byte>, m: Mac): seq<byte> {
    Write(f, 0, m)
  }

  function SetEtherSource(f: seq<byte>, m: Mac): seq<byte> {
    Write(f, 6, m)
  }

  /** The header test both directions apply; a header cut short reads as zeros and fails it. */
  predicate ArpWellFormed(f: seq<byte>) {
    && |f| >= 22
    && Word(f[14], f[15]) == 1
    && Word(f[16], f[17]) == ETHERTYPE_IP
    && f[18] == 6 && f[19] == 4
    && (Word(f[20], f[21]) == 1 || Word(f[20], f[21]) == 2)
  }

  /** The address fields are read without a length check: a short frame yields the stale `junk`. */
  function ArpSourceIP(f: seq<byte>, junk: IPv4): IPv4 {
    Read(f, 28, 32, junk)
  }

  function ArpDestinationIP(f: seq<byte>, junk: IPv4): IPv4 {
    Read(f, 38, 42, junk)
  }

  function SetArpSourceMac(f: seq<byte>, m: Mac): seq<byte> {
    Write(f, 22, m)
  }

  function SetArpDestinationMac(f: seq<byte>, m: Mac): seq<byte> {
    Write(f, 32, m)
  }

  /** `IP::getNextOffset` at offset 14: the header length clamped to five words; an absent byte reads as 255. */
  function IpNext(f: seq<byte>): (n: nat)
    ensures 34 <= n <= 74
  {
    var words := (if |f| > 14 then f[14] else 255) % 16;
    14 + 4 * if words < 5 then 5 else words
  }

  function IpProtocol(f: seq<byte>): byte {
    if |f| > 23 then f[23] else 255
  }

  function IpSource(f: seq<byte>): IPv4
    requires |f| >= 34
  {
    f[26..30]
  }

  function IpDestination(f: seq<byte>): IPv4
    requires |f| >= 34
  {
    f[30..34]
  }

  function UdpSource(f: seq<byte>, off: nat): nat
    requires off + 4 <= |f|
  {
    Word(f[off], f[off + 1])
  }

  function UdpDestination(f: seq<byte>, off: nat): nat
    requires off + 4 <= |f|
  {
    Word(f[off + 2], f[off + 3])
  }

  function ByteAt(f: seq<byte>, i: nat): int {
    if i < |f| then f[i] else -1
  }

  function DhcpOpcode(f: seq<byte>, off: nat): int {
    ByteAt(f, off)
  }

  function DhcpMessageType(f: seq<byte>, off: nat): int {
    ByteAt(f, off + 242)
  }

  function DhcpTransactionID(f: seq<byte>, off: nat): Quad
    requires off + 8 <= |f|
  {
    f[off + 4..off + 8]
  }

  function DhcpClientMac(f: seq<byte>, off: nat): Mac
    requires off + 34 <= |f|
  {
    f[off + 28..off + 34]
  }

  /** `setSource`, `setDestination` and `setProtocol` in the order both packet builders call them. */
  method WriteEther(packet: Packet, src: Mac, dst: Mac, etherType: nat, ghost room: bool) returns (offset: int)
    requires packet.InBounds()
    requires room ==> 14 <= packet.writtenByte
    modifies packet.inMemory
    ensures offset == 14
    ensures forall k :: 14 <= k < packet.inMemory.Length ==> packet.inMemory[k] == old(packet.inMemory[k])
    ensures room ==> packet.inMemory[0..14] == dst + src + Be16(etherType)
  {
    hide Be16, Write;
    packet.WriteByteArray(6, 12, src);
    packet.WriteByteArray(0, 6, dst);
    packet.WriteByteArray(12, 14, Be16(etherType));
    offset := 14;
    if room {
      assert packet.inMemory[0..14] == packet.inMemory[0..6] + packet.inMemory[6..12] + packet.inMemory[12..14];
    }
  }
}
