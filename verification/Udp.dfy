/** `UDP::makePacket` of udp.cpp: Ethernet, IP and UDP headers with both checksums. */
module Udp {
  import opened Octets
  import opened Packets
  import opened Checksums
  import Frames

  const HEADERS: nat := 42

  datatype Endpoints = Endpoints(etherSrc: Mac, etherDst: Mac, ipSrc: IPv4, ipDst: IPv4, portSrc: nat, portDst: nat)

  /** The IP header before and after its checksum field: version 4, five words, don't-fragment, TTL 64. */
  function IpLead(total: nat, proto: byte): (r: seq<byte>)
    ensures |r| == 10
  {
    [0x45, 0] + Be16(total) + [0, 0, 0x40, 0, 64, proto]
  }

  function IpHeader(total: nat, proto: byte, src: IPv4, dst: IPv4): (r: seq<byte>)
    ensures |r| == 20
  {
    var sum := WordSum(IpLead(total, proto) + [0, 0] + (src + dst));
    IpLead(total, proto) + Complement(Fold(sum)) + (src + dst)
  }

  lemma IpHeaderVerifies(total: nat, proto: byte, src: IPv4, dst: IPv4)
    ensures RfcSum(IpHeader(total, proto, src, dst)) == 0xFFFF
  {
    ChecksumVerifies(IpLead(total, proto), src + dst);
  }

  /** The pseudo-header of RFC 768. */
  function Pseudo(src: IPv4, dst: IPv4, length: nat): (r: seq<byte>)
    ensures |r| == 12
  {
    src + dst + [0, Frames.PROTO_UDP] + Be16(length)
  }

  function UdpLead(e: Endpoints, n: nat): (r: seq<byte>)
    ensures |r| == 6
  {
    Be16(e.portSrc) + Be16(e.portDst) + Be16(8 + n)
  }

  function UdpChecksum(e: Endpoints, data: seq<byte>): (r: seq<byte>)
    ensures |r| == 2
  {
    var lead := Pseudo(e.ipSrc, e.ipDst, 8 + |data|) + UdpLead(e, |data|);
    Complement(Fold(WordSum(lead + [0, 0] + data) % 0x1_0000_0000))
  }

  function FrameLead(e: Endpoints, n: nat): (r: seq<byte>)
    ensures |r| == 34
  {
    e.etherDst + e.etherSrc + Be16(Frames.ETHERTYPE_IP) + IpHeader(28 + n, Frames.PROTO_UDP, e.ipSrc, e.ipDst)
  }

  function Segment(e: Endpoints, data: seq<byte>): (r: seq<byte>)
    ensures |r| == 8 + |data|
  {
    UdpLead(e, |data|) + UdpChecksum(e, data) + data
  }

  function UdpFrame(e: Endpoints, data: seq<byte>): (r: seq<byte>)
    ensures |r| == 42 + |data|
  {
    FrameLead(e, |data|) + Segment(e, data)
  }

  /**
   * Both sums verify at a receiver for every payload, of odd or even length, whose words leave the
   * 32-bit accumulator unwrapped; the second is over the pseudo-header as RFC 768 lays it out.
   */
  lemma UdpFrameVerifies(e: Endpoints, data: seq<byte>)
    requires (20 + |data| + 1) / 2 <= 65537
    ensures RfcSum(UdpFrame(e, data)[14..34]) == 0xFFFF
    ensures RfcSum(e.ipSrc + e.ipDst + [0, 17] + Be16(8 + |data|) + UdpFrame(e, data)[34..]) == 0xFFFF
  {
    hide WordSum, RfcSum, Fold, Complement, Be16;
    var pseudo := Pseudo(e.ipSrc, e.ipDst, 8 + |data|);
    var lead := pseudo + UdpLead(e, |data|);
    FrameParts(e, data);
    IpHeaderVerifies(28 + |data|, Frames.PROTO_UDP, e.ipSrc, e.ipDst);
    WrappedChecksumVerifies(lead, data);
    assert pseudo + Segment(e, data) == lead + UdpChecksum(e, data) + data;
  }

  /**
   * RFC 768 reserves a zero field for "no checksum" and sends 0xFFFF instead; this code sends zero,
   * exactly when the sum over the zeroed datagram is 0xFFFF.
   */
  lemma ZeroChecksumExactly(e: Endpoints, data: seq<byte>)
    requires (20 + |data| + 1) / 2 <= 65537
    ensures UdpFrame(e, data)[40..42] == UdpChecksum(e, data)
    ensures UdpChecksum(e, data) == [0, 0] <==>
              RfcSum(e.ipSrc + e.ipDst + [0, 17] + Be16(8 + |data|) + UdpFrame(e, data)[34..40] + [0, 0] + data) == 0xFFFF
  {
    FrameBytes(e, data);
    var all := Pseudo(e.ipSrc, e.ipDst, 8 + |data|) + UdpLead(e, |data|) + [0, 0] + data;
    FoldRefinesRfc(all);
    BelowModulus(WordSum(all));
    ComplementZero(RfcSum(all));
    hide WordSum, RfcSum, Fold, Complement, Be16;
  }

  lemma ComplementZero(folded: nat)
    requires folded < 0x1_0000
    ensures Complement(folded) == [0, 0] <==> folded == 0xFFFF
  {
  }

  lemma FrameParts(e: Endpoints, data: seq<byte>)
    ensures UdpFrame(e, data)[..14] == e.etherDst + e.etherSrc + Be16(Frames.ETHERTYPE_IP)
    ensures UdpFrame(e, data)[14..34] == IpHeader(28 + |data|, Frames.PROTO_UDP, e.ipSrc, e.ipDst)
    ensures UdpFrame(e, data)[34..] == Segment(e, data)
    ensures UdpFrame(e, data)[42..] == data
  {
  }

  lemma IpHeaderBytes(total: nat, proto: byte, src: IPv4, dst: IPv4)
    ensures IpHeader(total, proto, src, dst)[..10] == [0x45, 0] + Be16(total) + [0, 0, 0x40, 0, 64, proto]
    ensures IpHeader(total, proto, src, dst)[12..] == src + dst
  {
    hide WordSum, Fold, Complement, Be16;
  }

  /** Every byte of the frame but the two checksums, as section 3.1 of RFC 791 and RFC 768 lay them out. */
  lemma FrameBytes(e: Endpoints, data: seq<byte>)
    ensures var f := UdpFrame(e, data);
            && |f| == 42 + |data|
            && f[..14] == e.etherDst + e.etherSrc + [8, 0]
            && f[14..24] == [0x45, 0] + Be16(28 + |data|) + [0, 0, 0x40, 0, 64, 17]
            && f[26..34] == e.ipSrc + e.ipDst
            && f[34..40] == Be16(e.portSrc) + Be16(e.portDst) + Be16(8 + |data|) == UdpLead(e, |data|)
            && f[40..42] == UdpChecksum(e, data) && f[42..] == data
  {
    assert Be16(Frames.ETHERTYPE_IP) == [8, 0];
    FrameParts(e, data);
    IpHeaderBytes(28 + |data|, Frames.PROTO_UDP, e.ipSrc, e.ipDst);
    SegmentBytes(e, data);
    hide IpHeader, Be16, UdpChecksum, UdpFrame, UdpLead, Segment, WordSum, Fold, Complement;
    InnerSlices(UdpFrame(e, data));
  }

  lemma SegmentBytes(e: Endpoints, data: seq<byte>)
    ensures Segment(e, data)[..6] == UdpLead(e, |data|) == Be16(e.portSrc) + Be16(e.portDst) + Be16(8 + |data|)
    ensures Segment(e, data)[6..8] == UdpChecksum(e, data)
  {
    hide UdpChecksum, Be16;
  }

  lemma InnerSlices(f: seq<byte>)
    requires |f| >= 42
    ensures f[14..24] == f[14..34][..10] && f[26..34] == f[14..34][12..]
    ensures f[34..40] == f[34..][..6] && f[40..42] == f[34..][6..8]
  {
  }

  /** The sum over the datagram in the buffer: words, and a last odd byte in the high half. */
  method SumDatagram(p: Packet, from: int, len: int, start: nat) returns (sum: nat)
    requires p.InBounds() && start < 0x1_0000_0000
    ensures sum < 0x1_0000_0000
    ensures 0 <= from <= len <= p.writtenByte ==> sum == Partial(start, p.inMemory[from..len], len - from)
  {
    hide WordSum, Partial;
    var temp: nat := 0;
    sum := start;
    var current := from;
    ghost var room := 0 <= from <= len <= p.writtenByte;
    ghost var d := if room then p.inMemory[from..len] else [];
    NothingSummed(start, d);
    BelowModulus(start);
    while current < len
      invariant temp < 0x1_0000 && sum < 0x1_0000_0000
      invariant room ==> from <= current <= len + 1 && (current <= len ==> (current - from) % 2 == 0)
      invariant room ==> sum == Partial(start, d, if current <= len then current - from else len - from)
      decreases len - current
    {
      temp := NextTerm(p, current, len, temp);
      if room && current + 1 == len {
        assert d[current - from] == p.inMemory[current];
        AddLastByte(start, d);
      } else if room {
        assert d[current - from] == p.inMemory[current] && d[current - from + 1] == p.inMemory[current + 1];
        AddWord(start, d, current - from);
      }
      sum := (sum + temp) % 0x1_0000_0000;
      current := current + 2;
    }
  }

  /** One addend of the loop; a read out of range leaves `temp` as it was, and it is swapped again. */
  method NextTerm(p: Packet, current: int, len: int, temp: nat) returns (term: nat)
    requires p.InBounds() && temp < 0x1_0000
    ensures term < 0x1_0000
    ensures 0 <= current < p.writtenByte && current + 1 == len ==> term == Word(p.inMemory[current], 0)
    ensures 0 <= current && current + 1 < p.writtenByte && current + 1 != len ==>
              term == Word(p.inMemory[current], p.inMemory[current + 1])
  {
    if current + 1 == len {
      var b := p.ReadByte(current);
      term := Word(b % 256, 0);
    } else {
      var raw := p.ReadByteArray(current, current + 2, [temp % 256, temp / 256]);
      term := Word(raw[0], raw[1]);
    }
  }

  lemma AddLastByte(start: nat, d: seq<byte>)
    requires |d| % 2 == 1
    ensures (Partial(start, d, |d| - 1) + Word(d[|d| - 1], 0)) % 0x1_0000_0000 == Partial(start, d, |d|)
  {
    var n := |d| - 1;
    assert d == d[..n] + d[n..] && d[..|d|] == d;
    WordSumConcat(d[..n], d[n..]);
    WrapAdd(start + WordSum(d[..n]), Word(d[n], 0));
  }

  method MakePacket(packet: Packet, e: Endpoints, data: array<byte>, dataLen: nat) returns (len: int)
    requires packet.InBounds() && data != packet.inMemory
    requires HEADERS + dataLen <= packet.inMemory.Length ==> dataLen <= data.Length
    modifies packet.inMemory
    ensures HEADERS + dataLen > packet.inMemory.Length ==> len == -1 && packet.inMemory[..] == old(packet.inMemory[..])
    ensures HEADERS + dataLen <= packet.inMemory.Length ==>
              && len == HEADERS + dataLen
              && (len <= packet.writtenByte ==> packet.inMemory[..len] == UdpFrame(e, data[..dataLen]))
    ensures forall k :: HEADERS + dataLen <= k < packet.inMemory.Length ==> packet.inMemory[k] == old(packet.inMemory[k])
  {
    hide WordSum, Fold, Complement, Be16, IpHeader, FrameLead, UdpLead, UdpChecksum, Write;
    len := HEADERS + dataLen;
    if len > packet.inMemory.Length {
      return -1;
    }
    ghost var room := len <= packet.writtenByte;
    ghost var payload := data[..dataLen];

    var offset := WriteEtherIp(packet, e, dataLen, room);

    var src, dst := ReadAddresses(packet, e, dataLen, room);
    offset := WriteDatagram(packet, e, data, dataLen, room);
    var sum := DatagramChecksum(packet, src, dst, dataLen, e, payload, room);
    ghost var before := packet.inMemory[..len];
    packet.WriteByteArray(offset - 2, offset, sum);
    if room {
      assert packet.inMemory[40..42] == sum;
      assert packet.inMemory[40] == packet.inMemory[40..42][0] && packet.inMemory[41] == packet.inMemory[40..42][1];
      Assemble(before, packet.inMemory[..len], FrameLead(e, |payload|), UdpLead(e, |payload|), UdpChecksum(e, payload), payload);
    }
  }

  method DatagramChecksum(packet: Packet, src: IPv4, dst: IPv4, n: nat, ghost e: Endpoints, ghost data: seq<byte>, ghost room: bool)
    returns (c: seq<byte>)
    requires packet.InBounds()
    requires room ==> HEADERS + n <= packet.writtenByte && n == |data| && src == e.ipSrc && dst == e.ipDst
                      && packet.inMemory[34..HEADERS + n] == ZeroSegment(e, data)
    ensures |c| == 2 && (room ==> c == UdpChecksum(e, data))
  {
    hide WordSum, Fold, Complement, Be16, UdpChecksum;
    var sum := AccumulateWords(Pseudo(src, dst, 8 + n), 0);
    sum := SumDatagram(packet, 34, HEADERS + n, sum);
    c := Complement(Fold(sum));
    if room {
      DatagramSum(e, data);
    }
  }

  method WriteDatagram(packet: Packet, e: Endpoints, data: array<byte>, n: nat, ghost room: bool) returns (offset: int)
    requires packet.InBounds() && data != packet.inMemory && n <= data.Length
    requires room ==> HEADERS + n <= packet.writtenByte
    modifies packet.inMemory
    ensures offset == 42
    ensures forall k :: 0 <= k < packet.inMemory.Length && !(34 <= k < HEADERS + n) ==> packet.inMemory[k] == old(packet.inMemory[k])
    ensures room ==> packet.inMemory[34..HEADERS + n] == ZeroSegment(e, data[..n])
  {
    offset := PutArray(packet, 34, Be16(e.portSrc), 34, room);
    offset := PutArray(packet, offset, Be16(e.portDst), 34, room);
    offset := PutArray(packet, offset, Be16(8 + n), 34, room);
    offset := PutEach(packet, offset, [0, 0], 34, room);
    var end := PutArray(packet, offset, data[..n], 34, room);
  }

  /** The datagram as it stands while the sum is taken. */
  function ZeroSegment(e: Endpoints, data: seq<byte>): (r: seq<byte>)
    ensures |r| == 8 + |data|
  {
    UdpLead(e, |data|) + [0, 0] + data
  }

  lemma DatagramSum(e: Endpoints, data: seq<byte>)
    ensures var first := (0 + WordSum(Pseudo(e.ipSrc, e.ipDst, 8 + |data|))) % 0x1_0000_0000;
            Complement(Fold(Partial(first, ZeroSegment(e, data), 8 + |data|))) == UdpChecksum(e, data)
  {
    var pseudo := Pseudo(e.ipSrc, e.ipDst, 8 + |data|);
    var z := ZeroSegment(e, data);
    assert z[..8 + |data|] == z;
    TotalSum(pseudo, z);
    assert pseudo + z == pseudo + UdpLead(e, |data|) + [0, 0] + data;
  }

  /** A frame whose checksum field was zero, with the field filled in. */
  lemma Assemble(before: seq<byte>, after: seq<byte>, lead: seq<byte>, head: seq<byte>, sum: seq<byte>, data: seq<byte>)
    requires |lead| == 34 && |head| == 6 && |sum| == 2 && |before| == |after| == 42 + |data|
    requires before[..34] == lead && before[34..] == head + [0, 0] + data && after[40] == sum[0] && after[41] == sum[1]
    requires forall k :: 0 <= k < |before| && !(40 <= k < 42) ==> after[k] == before[k]
    ensures after == lead + (head + sum + data)
  {
    assert after[..34] == before[..34];
    assert after[34..40] == before[34..][..6] == head;
    assert after[42..] == before[34..][8..] == data;
    assert after[40..42] == sum;
    assert after == after[..34] + (after[34..40] + after[40..42] + after[42..]);
  }

  lemma TotalSum(a: seq<byte>, b: seq<byte>)
    requires |a| % 2 == 0
    ensures ((0 + WordSum(a)) % 0x1_0000_0000 + WordSum(b)) % 0x1_0000_0000 == WordSum(a + b) % 0x1_0000_0000
  {
    WordSumConcat(a, b);
    WrapAdd(WordSum(a), WordSum(b));
  }

  /** `iphdr.getSource()` and `getDestination()`; out of range they return the uninitialised `junk`. */
  method ReadAddresses(packet: Packet, ghost e: Endpoints, ghost n: nat, ghost room: bool) returns (src: IPv4, dst: IPv4)
    requires packet.InBounds()
    requires room ==> 34 <= packet.writtenByte && packet.inMemory[..34] == FrameLead(e, n)
    ensures room ==> src == e.ipSrc && dst == e.ipDst
  {
    hide FrameLead;
    assert |[0, 0, 0, 0]| == 4;
    var junk: seq<byte> :| |junk| == 4;
    src := packet.ReadByteArray(26, 30, junk);
    dst := packet.ReadByteArray(30, 34, junk);
    if room {
      ghost var lead := packet.inMemory[..34];
      assert src == lead[26..30] && dst == lead[30..34];
      ReadBack(lead, e, n);
    }
  }

  lemma ReadBack(lead: seq<byte>, e: Endpoints, n: nat)
    requires lead == FrameLead(e, n)
    ensures lead[26..30] == e.ipSrc && lead[30..34] == e.ipDst
  {
  }

  method WriteEtherIp(packet: Packet, e: Endpoints, n: nat, ghost room: bool) returns (offset: int)
    requires packet.InBounds()
    requires room ==> 34 <= packet.writtenByte
    modifies packet.inMemory
    ensures offset == 34
    ensures forall k :: 34 <= k < packet.inMemory.Length ==> packet.inMemory[k] == old(packet.inMemory[k])
    ensures room ==> packet.inMemory[..34] == FrameLead(e, n)
  {
    hide WordSum, Fold, Complement, Be16;
    offset := Frames.WriteEther(packet, e.etherSrc, e.etherDst, Frames.ETHERTYPE_IP, room);
    var lead := IpLead(28 + n, Frames.PROTO_UDP);
    var sum := AccumulateWords(lead + [0, 0] + (e.ipSrc + e.ipDst), 0);
    BelowModulus(WordSum(lead + [0, 0] + (e.ipSrc + e.ipDst)));
    offset := PutArray(packet, offset, lead + Complement(Fold(sum)) + (e.ipSrc + e.ipDst), 0, room);
  }
}
