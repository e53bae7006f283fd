/** The reply frame that `create_dhcp` assembles (database.cpp:278-299), and what a client reads in it. */
module Reply {
  import opened Octets
  import opened Packets
  import opened Frames
  import opened Checksums
  import Dhcp
  import Tables
  import Udp

  /** `gatewayMac` is the constant address of line 278. */
  datatype Config = Config(gatewayMac: Mac, gatewayIP: IPv4, subnetMask: IPv4, dns: seq<IPv4>)

  /** `struct dhcp_request`, without the back pointer. */
  datatype DhcpRequest = DhcpRequest(mac: Mac, transId: Quad, isDiscover: bool)

  /** DHCP_TIMEOUT as the little-endian host leaves it in memory; the source does not swap it. */
  const LEASE_BYTES: Quad := [0x20, 0x1C, 0, 0]

  function LeaseFor(c: Config, r: DhcpRequest, ip: IPv4): (l: Dhcp.Lease)
    ensures l.Valid()
  {
    Dhcp.Lease(r.isDiscover, Be16(MTU), r.transId, ip, r.mac, c.gatewayIP, c.subnetMask, c.gatewayIP, c.dns, LEASE_BYTES)
  }

  function EndpointsFor(c: Config, r: DhcpRequest, ip: IPv4): Udp.Endpoints {
    Udp.Endpoints(c.gatewayMac, r.mac, c.gatewayIP, ip, 67, 68)
  }

  /** The frame sent; `hole` is whatever the allocator left in the relay-address bytes. */
  function ReplyFrame(c: Config, r: DhcpRequest, ip: IPv4, hole: Quad): seq<byte> {
    Udp.UdpFrame(EndpointsFor(c, r, ip), Dhcp.Message(LeaseFor(c, r, ip), hole))
  }

  /** Every field a client reads back from the frame is the one the request and the table determined. */
  lemma ReplyReadsBack(c: Config, r: DhcpRequest, ip: IPv4, hole: Quad)
    ensures var f := ReplyFrame(c, r, ip, hole);
            && |f| == 316 + 4 * |c.dns|
            && EtherType(f) == ETHERTYPE_IP && EtherSource(f) == c.gatewayMac && EtherDestination(f) == r.mac
            && IpNext(f) == 34 && IpProtocol(f) == PROTO_UDP && IpSource(f) == c.gatewayIP && IpDestination(f) == ip
            && UdpSource(f, IpNext(f)) == 67 && UdpDestination(f, IpNext(f)) == 68
            && DhcpOpcode(f, 42) == 2 && DhcpTransactionID(f, 42) == r.transId && DhcpClientMac(f, 42) == r.mac
            && DhcpMessageType(f, 42) == (if r.isDiscover then 2 else 5)
            && f[58..62] == ip
  {
    HeadersReadBack(EndpointsFor(c, r, ip), Dhcp.Message(LeaseFor(c, r, ip), hole));
    MessageReadsBack(LeaseFor(c, r, ip), hole);
    PayloadFields(ReplyFrame(c, r, ip, hole), Dhcp.Message(LeaseFor(c, r, ip), hole));
  }

  lemma HeadersReadBack(e: Udp.Endpoints, data: seq<byte>)
    requires e.portSrc < 0x1_0000 && e.portDst < 0x1_0000
    ensures var f := Udp.UdpFrame(e, data);
            && EtherType(f) == ETHERTYPE_IP && EtherSource(f) == e.etherSrc && EtherDestination(f) == e.etherDst
            && IpNext(f) == 34 && IpProtocol(f) == PROTO_UDP && IpSource(f) == e.ipSrc && IpDestination(f) == e.ipDst
            && UdpSource(f, 34) == e.portSrc && UdpDestination(f, 34) == e.portDst
            && f[42..] == data
  {
    var f := Udp.UdpFrame(e, data);
    Udp.FrameParts(e, data);
    EtherIpFields(f, e.etherDst, e.etherSrc, Udp.IpLead(28 + |data|, PROTO_UDP), e.ipSrc, e.ipDst);
    hide WordSum, Fold;
    assert f[34..][..6] == Udp.UdpLead(e, |data|);
    assert f[34..36] == f[34..][0..2] == Be16(e.portSrc);
    assert f[36..38] == f[34..][2..4] == Be16(e.portDst);
  }

  lemma EtherIpFields(f: seq<byte>, dst: Mac, src: Mac, lead: seq<byte>, ipSrc: IPv4, ipDst: IPv4)
    requires |f| >= 34 && |lead| == 10 && lead[0] == 0x45 && lead[9] == PROTO_UDP
    requires f[..14] == dst + src + Be16(ETHERTYPE_IP)
    requires f[14..24] == lead && f[26..34] == ipSrc + ipDst
    ensures EtherType(f) == ETHERTYPE_IP && EtherSource(f) == src && EtherDestination(f) == dst
    ensures IpNext(f) == 34 && IpProtocol(f) == PROTO_UDP && IpSource(f) == ipSrc && IpDestination(f) == ipDst
  {
    assert f[26..30] == f[26..34][..4] && f[30..34] == f[26..34][4..];
    assert f[6..12] == f[..14][6..12] && f[0..6] == f[..14][..6];
    assert f[12] == f[..14][12] && f[13] == f[..14][13];
    assert f[14] == f[14..24][0] && f[23] == f[14..24][9];
  }

  lemma MessageReadsBack(l: Dhcp.Lease, hole: Quad)
    requires l.Valid()
    ensures var m := Dhcp.Message(l, hole);
            && |m| == 274 + 4 * |l.dns|
            && m[0] == 2 && m[4..8] == l.transId && m[16..20] == l.client && m[28..34] == l.mac
            && m[242] == (if l.discover then 2 else 5)
  {
    var m := Dhcp.Message(l, hole);
    Dhcp.MessageShape(l, hole);
    var h := m[..240];
    assert h[4..8] == l.transId && h[16..20] == l.client && h[28..34] == l.mac;
    assert m[242] == m[240..243][2];
  }

  lemma PayloadFields(f: seq<byte>, m: seq<byte>)
    requires |f| >= 42 && f[42..] == m && |m| >= 243
    ensures DhcpOpcode(f, 42) == m[0] && DhcpMessageType(f, 42) == m[242]
    ensures DhcpTransactionID(f, 42) == m[4..8] && DhcpClientMac(f, 42) == m[28..34] && f[58..62] == m[16..20]
  {
  }

  /** What a client is told: this configuration, an MTU of 1500 and the lease as stored. */
  function ConfiguredOptions(c: Config, r: DhcpRequest): seq<Dhcp.Opt> {
    [Dhcp.Opt(53, [if r.isDiscover then 2 else 5]), Dhcp.Opt(54, c.gatewayIP), Dhcp.Opt(51, LEASE_BYTES),
     Dhcp.Opt(1, c.subnetMask), Dhcp.Opt(3, c.gatewayIP), Dhcp.Opt(26, [5, 220]), Dhcp.Opt(6, Dhcp.Join(c.dns))]
  }

  /** The lease bytes, read as the host stored them, are the two hours after which an address may be reclaimed. */
  lemma LeaseIsTwoHours()
    ensures Word(LEASE_BYTES[1], LEASE_BYTES[0]) == 7200 && LEASE_BYTES[2..] == [0, 0]
    ensures Tables.LEASE == 1000 * 7200
  {
  }

  /** The reply's checksums verify, and its options are recovered exactly for up to 63 name servers. */
  lemma ReplyWellFormed(c: Config, r: DhcpRequest, ip: IPv4, hole: Quad)
    requires |c.dns| <= 299
    ensures var f := ReplyFrame(c, r, ip, hole);
            && |f| == 316 + 4 * |c.dns|
            && RfcSum(f[14..34]) == 0xFFFF
            && RfcSum(c.gatewayIP + ip + [0, 17] + Be16(|f| - 34) + f[34..]) == 0xFFFF
            && (Dhcp.ParseOptions(f[282..]) == Some(ConfiguredOptions(c, r)) <==> |c.dns| <= 63)
  {
    var m := Dhcp.Message(LeaseFor(c, r, ip), hole);
    Dhcp.OptionsRecovered(LeaseFor(c, r, ip), hole);
    assert Be16(MTU) == [5, 220];
    hide Dhcp.Message, Dhcp.ParseOptions, Dhcp.Join, RfcSum, Be16, Udp.UdpFrame;
    Udp.UdpFrameVerifies(EndpointsFor(c, r, ip), m);
    Udp.FrameParts(EndpointsFor(c, r, ip), m);
    assert ReplyFrame(c, r, ip, hole)[282..] == m[240..];
  }

  /** Two fresh buffers: the message is written in one and wrapped into the other. */
  method BuildReply(c: Config, r: DhcpRequest, ip: IPv4) returns (packet: Packet)
    ensures fresh(packet) && fresh(packet.inMemory) && packet.inMemory.Length == MAX_FRAME
    ensures |c.dns| > 299 ==> packet.writtenByte == -1
    ensures |c.dns| <= 299 ==>
              && packet.writtenByte == 316 + 4 * |c.dns| <= MAX_FRAME
              && exists hole: Quad :: packet.inMemory[..packet.writtenByte] == ReplyFrame(c, r, ip, hole)
  {
    hide Dhcp.Message, Udp.UdpFrame;
    packet := new Packet(MAX_FRAME);
    packet.SetLength(MAX_FRAME);

    var dhcp := new Packet(MAX_FRAME);
    dhcp.SetLength(MAX_FRAME - Udp.HEADERS);
    ghost var hole: Quad := dhcp.inMemory[24..28];
    var dhcpLen := Dhcp.WriteResponse(dhcp, 0, LeaseFor(c, r, ip));
    dhcp.SetLength(dhcpLen);

    var udpLen := Udp.MakePacket(packet, EndpointsFor(c, r, ip), dhcp.inMemory, dhcpLen);
    packet.SetLength(udpLen);
    if |c.dns| <= 299 {
      assert dhcp.inMemory[..dhcpLen] == dhcp.inMemory[0..dhcpLen];
      assert packet.inMemory[..udpLen] == ReplyFrame(c, r, ip, hole);
    }
  }
}
