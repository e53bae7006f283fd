/** `Gateway::icmp_mtu`: the "fragmentation needed" answer of section 4 of RFC 1191 to an oversized frame. */
module Icmp {
  import opened Octets
  import opened Packets
  import opened Frames
  import opened Checksums
  import Udp

  /** Type 3, code 4; the quoted bytes are the offending IP header and eight more. */
  function IcmpBody(mtu: nat, quoted: seq<byte>): (r: seq<byte>)
    requires |quoted| == 28
    ensures |r| == 36
  {
    var rest := [0, 0] + Be16(mtu) + quoted;
    [3, 4] + Complement(Fold(WordSum([3, 4] + [0, 0] + rest))) + rest
  }

  /** Only a plain IP frame with a twenty-byte header and eight bytes after it is answered. */
  predicate Answered(f: seq<byte>) {
    |f| >= ETHER_LEN + IP_LEN + 8 && EtherType(f) == ETHERTYPE_IP && IpNext(f) - ETHER_LEN == 20
  }

  function TooBig(f: seq<byte>, mtu: nat): (r: seq<byte>)
    requires Answered(f)
    ensures |r| == 70
  {
    EtherSource(f) + EtherDestination(f) + Be16(ETHERTYPE_IP)
    + Udp.IpHeader(56, PROTO_ICMP, IpDestination(f), IpSource(f)) + IcmpBody(mtu, f[14..42])
  }

  lemma IcmpBodyVerifies(mtu: nat, quoted: seq<byte>)
    requires |quoted| == 28
    ensures RfcSum(IcmpBody(mtu, quoted)) == 0xFFFF
  {
    ChecksumVerifies([3, 4], [0, 0] + Be16(mtu) + quoted);
  }

  /**
   * The answer goes back to the sender with the addresses swapped, both checksums verify, it carries
   * the permitted size and it quotes the start of the offending datagram.
   */
  lemma TooBigAnswersSender(f: seq<byte>, mtu: nat)
    requires Answered(f) && mtu < 0x1_0000
    ensures var r := TooBig(f, mtu);
            && EtherDestination(r) == EtherSource(f) && EtherSource(r) == EtherDestination(f)
            && IpDestination(r) == IpSource(f) && IpSource(r) == IpDestination(f)
            && RfcSum(r[14..34]) == 0xFFFF && RfcSum(r[34..]) == 0xFFFF
            && r[34] == 3 && r[35] == 4 && Word(r[40], r[41]) == mtu && r[42..] == f[14..42]
  {
    var r := TooBig(f, mtu);
    var head := Udp.IpHeader(56, PROTO_ICMP, IpDestination(f), IpSource(f));
    Udp.IpHeaderVerifies(56, PROTO_ICMP, IpDestination(f), IpSource(f));
    IcmpBodyVerifies(mtu, f[14..42]);
    assert head[12..16] == IpDestination(f) && head[16..20] == IpSource(f);
    hide WordSum, RfcSum, Fold, Complement;
    assert r[14..34] == head && r[34..] == IcmpBody(mtu, f[14..42]);
    assert r[26..30] == r[14..34][12..16] && r[30..34] == r[14..34][16..20];
    assert r[40] == r[34..][6] && r[41] == r[34..][7];
    assert r[42..] == r[34..][8..] == f[14..42];
  }

  /** Every byte of the answer but the two checksums; `mtu` in network order. */
  lemma TooBigBytes(f: seq<byte>, mtu: nat)
    requires Answered(f)
    ensures var r := TooBig(f, mtu);
            && |r| == 70
            && r[..24] == f[6..12] + f[0..6] + [8, 0] + [0x45, 0, 0, 56, 0, 0, 0x40, 0, 64, 1]
            && r[26..36] == f[30..34] + f[26..30] + [3, 4]
            && r[38..] == [0, 0] + Be16(mtu) + f[14..42]
  {
    var r := TooBig(f, mtu);
    var head := Udp.IpHeader(56, PROTO_ICMP, IpDestination(f), IpSource(f));
    var body := IcmpBody(mtu, f[14..42]);
    assert Be16(ETHERTYPE_IP) == [8, 0] && Be16(56) == [0, 56];
    hide Udp.IpHeader, IcmpBody, Be16, IpNext, WordSum, RfcSum, Fold, Complement;
    Udp.IpHeaderBytes(56, PROTO_ICMP, IpDestination(f), IpSource(f));
    BodyBytes(mtu, f[14..42]);
    assert r[..14] == f[6..12] + f[0..6] + [8, 0] && r[14..34] == head && r[34..] == body;
    assert r[..24] == r[..14] + r[14..34][..10];
    assert r[26..36] == r[14..34][12..] + r[34..][..2] && r[38..] == r[34..][4..];
  }

  lemma BodyBytes(mtu: nat, quoted: seq<byte>)
    requires |quoted| == 28
    ensures IcmpBody(mtu, quoted)[..2] == [3, 4] && IcmpBody(mtu, quoted)[4..] == [0, 0] + Be16(mtu) + quoted
  {
    hide WordSum, Fold, Complement, Be16;
  }

  /** Exactly IP frames with a header of five words (or fewer, which are read as five) are answered. */
  lemma AnsweredExactly(f: seq<byte>)
    ensures Answered(f) <==> |f| >= 42 && f[12..14] == [8, 0] && f[14] % 16 <= 5
  {
    if |f| >= 42 {
      assert f[12..14] == [f[12], f[13]];
    }
  }

  /** The frame handed to the device, if any. */
  method IcmpMtu(packet: Packet, mtu: nat) returns (sent: Option<seq<byte>>)
    requires packet.InBounds()
    ensures sent == if Answered(packet.View()) then Some(TooBig(packet.View(), mtu)) else None
  {
    hide Udp.IpHeader, IcmpBody, Be16, IpNext, EtherType;
    if packet.writtenByte < ETHER_LEN + IP_LEN + 8 {
      return None;
    }
    var f := packet.inMemory[..packet.writtenByte];
    assert f == packet.View();
    if EtherType(f) != ETHERTYPE_IP || IpNext(f) - ETHER_LEN != 20 {
      return None;
    }
    var reply := new Packet(70);
    reply.SetLength(70);
    var quoted := packet.ReadByteArray(14, 42, Zeros(28));
    var body := BuildBody(mtu, quoted);
    var offset := WriteEther(reply, EtherDestination(f), EtherSource(f), ETHERTYPE_IP, true);
    var header := BuildIpHeader(56, PROTO_ICMP, IpDestination(f), IpSource(f));
    offset := PutArray(reply, offset, header, 0, true);
    offset := PutArray(reply, offset, body, 0, true);
    assert reply.inMemory[0..70] == reply.inMemory[..70];
    sent := Some(reply.inMemory[..70]);
  }

  method BuildBody(mtu: nat, quoted: seq<byte>) returns (body: seq<byte>)
    requires |quoted| == 28
    ensures body == IcmpBody(mtu, quoted)
  {
    var rest := [0, 0] + Be16(mtu) + quoted;
    var sum := OneCompl([3, 4] + [0, 0] + rest);
    BelowModulus(WordSum([3, 4] + [0, 0] + rest));
    hide WordSum, RfcSum, Fold, Complement;
    body := [3, 4] + sum + rest;
  }

  method BuildIpHeader(total: nat, proto: byte, src: IPv4, dst: IPv4) returns (header: seq<byte>)
    ensures header == Udp.IpHeader(total, proto, src, dst)
  {
    var lead := Udp.IpLead(total, proto);
    var sum := OneCompl(lead + [0, 0] + (src + dst));
    BelowModulus(WordSum(lead + [0, 0] + (src + dst)));
    hide WordSum, RfcSum, Fold, Complement;
    header := lead + sum + (src + dst);
  }
}
