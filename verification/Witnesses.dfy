/** Inputs on the failing side of exact conditions: those sides are not empty. */
module Witnesses {
  import opened Octets
  import opened Tables
  import opened Forwarding
  import opened Frames
  import opened Checksums
  import Dhcp
  import Reply
  import Udp

  // ---- a clock below one lease ----

  /** At clock zero a user seen that very moment loses its address to another. */
  lemma EarlyClockReclaims(ip: IPv4, owner: Mac, mac: Mac, staticMac: Mac)
    requires owner != mac
    ensures var t := map[ip := StaticRow(staticMac, false)];
            var u := map[owner := UserRow(Some(ip), 0), mac := UserRow(None, 0)];
            && Decides(t, u, mac, 0, Reclaim(owner, ip))
            && !(u[owner].accessed + LEASE < 0)
            && !Holds(Settle(u, mac, Reclaim(owner, ip)), owner, ip)
  {
    var t := map[ip := StaticRow(staticMac, false)];
    var u := map[owner := UserRow(Some(ip), 0), mac := UserRow(None, 0)];
    assert Holds(u, owner, ip);
    assert Unused(t, u) == {};
    assert Cutoff(0) > 0;
    assert Expired(t, u, Cutoff(0)) == {owner};
  }

  // ---- a 64-bit addition that wraps ----

  /** A record last seen at the end of the 64-bit range is due again at time one. */
  lemma WrappedReportIsDue(ip: IPv4, mac: Mac)
    ensures var u := UserInfo(ip, mac, TWO64 - 1, 1);
            UpdateDue(u, 1) && !(u.lastAccess + u.timeout < 1)
  {
  }

  // ---- a UDP checksum of zero ----

  /** The bytes of a message after its transaction id. */
  function AfterId(l: Dhcp.Lease, hole: Quad): seq<byte>
    requires l.Valid()
  {
    Zeros(8) + l.client + Zeros(4) + hole + l.mac + Zeros(10) + Zeros(192) + [99, 130, 83, 99]
    + Dhcp.Fields(Dhcp.LeaseOptions(l)) + [255]
  }

  lemma MessageSplits(l: Dhcp.Lease, hole: Quad)
    requires l.Valid()
    ensures Dhcp.Message(l, hole) == [2, 1, 6, 0] + l.transId + AfterId(l, hole)
    ensures |Dhcp.Message(l, hole)| == 274 + 4 * |l.dns|
  {
    Dhcp.MessageShape(l, hole);
    hide Dhcp.Fields, Dhcp.LeaseOptions;
  }

  /** For every configuration, client and offer some transaction id makes the reply's checksum field zero. */
  lemma {:induction false} ZeroChecksumHappens(c: Reply.Config, r: Reply.DhcpRequest, ip: IPv4, hole: Quad) returns (id: Quad)
    requires |c.dns| <= 299
    ensures Reply.ReplyFrame(c, r.(transId := id), ip, hole)[40..42] == [0, 0]
  {
    hide WordSum, RfcSum, Fold, Complement, Be16, Udp.UdpChecksum, Udp.UdpLead, AfterId, Dhcp.Message;
    var e := Reply.EndpointsFor(c, r, ip);
    var n := 274 + 4 * |c.dns|;
    var lead := e.ipSrc + e.ipDst + [0, 17] + Be16(8 + n) + Udp.UdpLead(e, n) + [0, 0];
    var pre := lead + [2, 1, 6, 0] + [0, 0];
    var rest := AfterId(Reply.LeaseFor(c, r, ip), hole);
    var folded := RfcSum(pre + [0, 0] + rest);
    RfcIsCanonical(pre + [0, 0] + rest);
    ComplementVerifies(pre, rest, folded);
    id := [0, 0] + Complement(folded);
    var l := Reply.LeaseFor(c, r.(transId := id), ip);
    SameRest(Reply.LeaseFor(c, r, ip), l, hole);
    MessageSplits(l, hole);
    assert lead + Dhcp.Message(l, hole) == pre + Complement(folded) + rest;
    Udp.ZeroChecksumExactly(e, Dhcp.Message(l, hole));
    Udp.FrameBytes(e, Dhcp.Message(l, hole));
    hide Udp.UdpFrame;
  }

  lemma SameRest(l: Dhcp.Lease, l': Dhcp.Lease, hole: Quad)
    requires l.Valid() && l' == l.(transId := l'.transId)
    ensures AfterId(l', hole) == AfterId(l, hole)
  {
  }

  // ---- a swallowed answer ----

  /** A complete UDP frame with the given headers and nothing else of interest. */
  function Probe(e: Udp.Endpoints): seq<byte> {
    Udp.UdpFrame(e, Zeros(6))
  }

  lemma ProbeFields(e: Udp.Endpoints)
    requires e.portSrc < 0x1_0000 && e.portDst < 0x1_0000
    ensures var f := Probe(e);
            && IsIp(f) && !IsArp(f) && |f| == 48 && EtherSource(f) == e.etherSrc && EtherDestination(f) == e.etherDst
            && SourceOf(f) == IpSource(f) == e.ipSrc && DestinationOf(f) == IpDestination(f) == e.ipDst
            && IpProtocol(f) == PROTO_UDP && UdpSource(f, IpNext(f)) == e.portSrc && UdpDestination(f, IpNext(f)) == e.portDst
  {
    Reply.HeadersReadBack(e, Zeros(6));
    hide Udp.UdpFrame;
  }

  /** A gateway with one registered user. */
  function OneUser(ip: IPv4, mac: Mac, staticMac: Mac, timeout: nat): Gw {
    Gw(map[ip := staticMac], map[ip := 0], map[0 := UserInfo(ip, mac, 0, timeout)], 1, true)
  }

  /** With a user at the limited broadcast address, a frame leaves and its mirrored answer is dropped. */
  lemma SwallowedHappens(mac: Mac, staticMac: Mac, peer: Mac, timeout: nat, now: nat, junk: Junk)
    ensures var g := OneUser(BROADCAST_IP, mac, staticMac, timeout);
            var f := Probe(Udp.Endpoints(mac, peer, BROADCAST_IP, NO_IP, 67, 68));
            var r := Probe(Udp.Endpoints(peer, staticMac, NO_IP, BROADCAST_IP, 68, 67));
            && InsideStep(g, f, now, junk).1.Forwarded?
            && IsReplyTo(r, InsideStep(g, f, now, junk).1.frame) && IsIp(f) && IsIp(r) && MirrorsPorts(r, f)
            && OutsideStep(InsideStep(g, f, now, junk).0, r, junk).1.Dropped?
  {
    var g := OneUser(BROADCAST_IP, mac, staticMac, timeout);
    var f := Probe(Udp.Endpoints(mac, peer, BROADCAST_IP, NO_IP, 67, 68));
    var r := Probe(Udp.Endpoints(peer, staticMac, NO_IP, BROADCAST_IP, 68, 67));
    ProbeFields(Udp.Endpoints(mac, peer, BROADCAST_IP, NO_IP, 67, 68));
    ProbeFields(Udp.Endpoints(peer, staticMac, NO_IP, BROADCAST_IP, 68, 67));
    hide InsideStep, OutsideStep, Probe, IpNext, ArpWellFormed, EtherType;
    assert BROADCAST_IP[0] != NO_IP[0];
    InsideForwardsExactly(g, f, now, junk);
    AfterInside(g, f, now, junk);
    MirroredAnswerDroppedExactly(g, f, now, junk, r, junk);
  }
}
