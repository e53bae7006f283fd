/**
 * What the gateway does with the bytes of a frame, stated on the bytes themselves: offsets and constants as
 * in the headers of Ethernet, ARP (RFC 826), IP (RFC 791) and UDP (RFC 768), without the accessors of the model.
 */
module Wire {
  import opened Octets
  import opened Packets
  import opened Forwarding
  import opened Frames
  import opened Checksums
  import Icmp
  import Reply

  /** The header of an ARP request or reply for Ethernet and IP; the address fields may be cut short. */
  predicate ArpBytes(f: seq<byte>) {
    |f| >= 22 && f[12..20] == [8, 6, 0, 1, 8, 0, 6, 4] && f[20] == 0 && (f[21] == 1 || f[21] == 2)
  }

  /** The bytes of an IP header: four for each word, and never fewer than twenty. */
  function IpHeaderLength(f: seq<byte>): nat
    requires |f| > 14
  {
    if f[14] % 16 < 5 then 20 else 4 * (f[14] % 16)
  }

  /** An IP frame with its header and fourteen bytes more, which is what the length test of the source asks for. */
  predicate IpBytes(f: seq<byte>) {
    |f| > 14 && f[12..14] == [8, 0] && |f| >= 28 + IpHeaderLength(f)
  }

  /** A UDP datagram that starts with these port bytes. */
  predicate UdpBytes(f: seq<byte>, ports: seq<byte>)
    requires IpBytes(f)
  {
    var n := 14 + IpHeaderLength(f);
    f[23] == 17 && f[n..n + 4] == ports
  }

  // ---- the accessors ----

  lemma TypesOnTheWire(f: seq<byte>)
    ensures EtherType(f) == ETHERTYPE_ARP <==> |f| >= 14 && f[12..14] == [8, 6]
    ensures EtherType(f) == ETHERTYPE_IP <==> |f| >= 14 && f[12..14] == [8, 0]
    ensures |f| >= 14 ==> EtherSource(f) == f[6..12] && EtherDestination(f) == f[0..6]
  {
    if |f| >= 14 {
      assert f[12..14] == [f[12], f[13]];
    }
  }

  lemma ArpOnTheWire(f: seq<byte>)
    ensures EtherType(f) == ETHERTYPE_ARP && ArpWellFormed(f) <==> ArpBytes(f)
    ensures IsArp(f) <==> ArpBytes(f) && |f| >= 42
    ensures IsArp(f) ==> SourceOf(f) == f[28..32] && DestinationOf(f) == f[38..42]
  {
    if |f| >= 22 {
      assert f[12..20] == [f[12], f[13], f[14], f[15], f[16], f[17], f[18], f[19]];
    }
  }

  lemma IpOnTheWire(f: seq<byte>)
    ensures IsIp(f) <==> IpBytes(f)
    ensures EtherType(f) == ETHERTYPE_IP && |f| >= ETHER_LEN + IpNext(f) <==> IpBytes(f)
    ensures IpBytes(f) ==> SourceOf(f) == IpSource(f) == f[26..30] && DestinationOf(f) == IpDestination(f) == f[30..34]
    ensures IpBytes(f) ==> IpNext(f) == 14 + IpHeaderLength(f)
  {
    if |f| >= 14 {
      assert f[12..14] == [f[12], f[13]];
    }
  }

  lemma PortsOnTheWire(f: seq<byte>)
    requires IpBytes(f)
    ensures IpNext(f) == 14 + IpHeaderLength(f)
    ensures UdpPorts(f, 68, 67) <==> UdpBytes(f, [0, 68, 0, 67])
    ensures UdpPorts(f, 67, 68) <==> UdpBytes(f, [0, 67, 0, 68])
  {
    IpOnTheWire(f);
    var n := 14 + IpHeaderLength(f);
    assert f[n..n + 4] == [f[n], f[n + 1], f[n + 2], f[n + 3]];
  }

  lemma RewritesOnTheWire(f: seq<byte>, m: Mac)
    ensures IpBytes(f) || (ArpBytes(f) && |f| < 28) ==> RewriteSource(f, m) == f[..6] + m + f[12..]
    ensures IpBytes(f) || (ArpBytes(f) && |f| < 38) ==> RewriteDestination(f, m) == m + f[6..]
    ensures ArpBytes(f) && |f| >= 28 ==> RewriteSource(f, m) == f[..6] + m + f[12..22] + m + f[28..]
    ensures ArpBytes(f) && |f| >= 38 ==> RewriteDestination(f, m) == m + f[6..32] + m + f[38..]
  {
    TypesOnTheWire(f);
    ArpOnTheWire(f);
    IpOnTheWire(f);
    ArpRewrites(f, m);
    hide ArpBytes, IpBytes, EtherType;
  }

  lemma ArpRewrites(f: seq<byte>, m: Mac)
    ensures |f| >= 28 ==> SetEtherSource(SetArpSourceMac(f, m), m) == f[..6] + m + f[12..22] + m + f[28..]
    ensures |f| >= 38 ==> SetEtherDestination(SetArpDestinationMac(f, m), m) == m + f[6..32] + m + f[38..]
    ensures |f| < 28 ==> SetArpSourceMac(f, m) == f
    ensures |f| < 38 ==> SetArpDestinationMac(f, m) == f
  {
    var a, b := SetArpSourceMac(f, m), SetArpDestinationMac(f, m);
    if |f| >= 28 {
      assert a == f[..22] + m + f[28..];
      assert a[12..] == f[12..22] + m + f[28..] && a[..6] == f[..6];
    }
    if |f| >= 38 {
      assert b == f[..32] + m + f[38..];
      assert b[6..] == f[6..32] + m + f[38..];
    }
  }

  /** A frame longer than the buffer is answered from its first 1514 bytes, if they are IP, and goes no further. */
  lemma TooLongBytes(g: Gw, f: seq<byte>, now: nat, junk: Junk)
    requires |f| > 1514
    ensures InsideStep(g, f, now, junk) == OutsideStep(g, f, junk)
    ensures var (g', v) := OutsideStep(g, f, junk);
            && g' == g && v.TooLong?
            && (v.answer.Some? <==> f[12..14] == [8, 0] && f[14] % 16 <= 5)
            && (v.answer.Some? ==>
                  var r := v.answer.value;
                  && |r| == 70
                  && r[..24] == f[6..12] + f[0..6] + [8, 0] + [0x45, 0, 0, 56, 0, 0, 0x40, 0, 64, 1]
                  && r[26..36] == f[30..34] + f[26..30] + [3, 4]
                  && r[38..] == [0, 0, 5, 220] + f[14..42]
                  && RfcSum(r[14..34]) == 0xFFFF && RfcSum(r[34..]) == 0xFFFF)
  {
    var b := f[..1514];
    Icmp.AnsweredExactly(b);
    assert b[12..14] == f[12..14] && b[6..12] == f[6..12] && b[0..6] == f[0..6];
    assert b[30..34] == f[30..34] && b[26..30] == f[26..30] && b[14..42] == f[14..42];
    if Icmp.Answered(b) {
      Icmp.TooBigBytes(b, MTU);
      Icmp.TooBigAnswersSender(b, MTU);
      assert [0, 0] + Be16(MTU) == [0, 0, 5, 220];
    }
    hide Icmp.TooBig, Icmp.Answered, RfcSum, Be16;
  }

  // ---- frames from inside ----

  /** The report that goes with a frame of the record `p`, and the record after it. */
  predicate Reported(g: Gw, g': Gw, p: Ptr, now: nat, update: Option<UpdateTime>)
    requires p in g.live
  {
    var u := g.live[p];
    if (u.lastAccess + u.timeout) % 0x1_0000_0000_0000_0000 < now then
      && update == Some(UpdateTime(p, u.mac, u.ip, now))
      && g' == g.(live := g.live[p := UserInfo(u.ip, u.mac, now, u.timeout)])
    else update == None && g' == g
  }

  /**
   * A frame leaves unless it is for a static address, or from one without being its user's; the user's
   * leaves in the form with the static MAC.
   */
  predicate LeavesAs(g: Gw, f: seq<byte>, now: nat, src: IPv4, dst: IPv4, rewritten: Mac -> seq<byte>, g': Gw, v: Verdict)
    requires |f| >= 14 && Coherent(g)
  {
    if dst in g.staticIPMap then v == Dropped && g' == g
    else if src !in g.staticIPMap then v == Forwarded(f, None) && g' == g
    else if src !in g.userMap || g.live[g.userMap[src]].mac != f[6..12] then v == Dropped && g' == g
    else v.Forwarded? && v.frame == rewritten(g.staticIPMap[src]) && Reported(g, g', g.userMap[src], now, v.update)
  }

  /** ARP, request or reply; address fields beyond the end of the frame read as the stale bytes. */
  lemma InsideArpBytes(g: Gw, f: seq<byte>, now: nat, junk: Junk)
    requires Coherent(g) && |f| <= 1514 && ArpBytes(f)
    ensures var (g', v) := InsideStep(g, f, now, junk);
            LeavesAs(g, f, now, if |f| >= 32 then f[28..32] else junk.source, if |f| >= 42 then f[38..42] else junk.destination,
                     m => if |f| >= 28 then f[..6] + m + f[12..22] + m + f[28..] else f[..6] + m + f[12..], g', v)
  {
    ArpOnTheWire(f);
    TypesOnTheWire(f);
    forall m: Mac ensures RewriteSource(f, m) == if |f| >= 28 then f[..6] + m + f[12..22] + m + f[28..] else f[..6] + m + f[12..] {
      RewritesOnTheWire(f, m);
    }
    hide RewriteSource, ArpBytes, ArpWellFormed, EtherType;
  }

  /** IP other than a datagram between the DHCP ports. */
  lemma InsideIpBytes(g: Gw, f: seq<byte>, now: nat, junk: Junk)
    requires Coherent(g) && |f| <= 1514 && IpBytes(f) && !UdpBytes(f, [0, 68, 0, 67])
    ensures var (g', v) := InsideStep(g, f, now, junk);
            LeavesAs(g, f, now, f[26..30], f[30..34], m => f[..6] + m + f[12..], g', v)
  {
    IpOnTheWire(f);
    PortsOnTheWire(f);
    TypesOnTheWire(f);
    forall m: Mac ensures RewriteSource(f, m) == f[..6] + m + f[12..] {
      RewritesOnTheWire(f, m);
    }
    hide RewriteSource, IpBytes, UdpBytes, UdpPorts, IpNext, EtherType;
  }

  /** A datagram between the DHCP ports: a discover or request naming its own sender is queued, nothing else. */
  lemma InsideDhcpBytes(g: Gw, f: seq<byte>, now: nat, junk: Junk)
    requires |f| <= 1514 && IpBytes(f) && UdpBytes(f, [0, 68, 0, 67])
    ensures var (g', v) := InsideStep(g, f, now, junk);
            var d := 22 + IpHeaderLength(f);
            && g' == g
            && v == if d + 242 < |f| && f[d] == 1 && (f[d + 242] == 1 || f[d + 242] == 3) && f[d + 28..d + 34] == f[6..12]
                    then Consumed(Reply.DhcpRequest(f[6..12], f[d + 4..d + 8], f[d + 242] == 1))
                    else Dropped
  {
    IpOnTheWire(f);
    PortsOnTheWire(f);
    TypesOnTheWire(f);
    hide IpBytes, UdpBytes, UdpPorts, IpNext, EtherType;
  }

  /** Every other frame: too short, cut off, malformed, or of another type, which passes as it is. */
  lemma InsideOtherBytes(g: Gw, f: seq<byte>, now: nat, junk: Junk)
    requires |f| <= 1514 && !ArpBytes(f) && !IpBytes(f)
    ensures InsideStep(g, f, now, junk) ==
              (g, if |f| < 14 || f[12..14] == [8, 6] || f[12..14] == [8, 0] then Dropped else Forwarded(f, None))
  {
    ArpOnTheWire(f);
    IpOnTheWire(f);
    TypesOnTheWire(f);
    hide ArpBytes, IpBytes, ArpWellFormed, IpNext, EtherType;
  }

  // ---- frames from outside ----

  function Forgotten(g: Gw, ip: IPv4): Gw
    requires ip in g.userMap
  {
    Gw(g.staticIPMap, g.userMap - {ip}, g.live - {g.userMap[ip]}, g.next, g.ok)
  }

  /**
   * A frame comes in unless it claims a static address; one for a registered user goes to that user's MAC if
   * it was sent to the static one. A user whose address is no longer static is forgotten, its record freed.
   */
  predicate ArrivesAs(g: Gw, f: seq<byte>, src: IPv4, dst: IPv4, arp: bool, rewritten: Mac -> seq<byte>, g': Gw, v: Verdict)
    requires |f| >= 14 && forall ip :: ip in g.userMap ==> g.userMap[ip] in g.live
  {
    if src in g.staticIPMap then v == Dropped && g' == g
    else if dst !in g.staticIPMap then
      && v == Forwarded(f, None)
      && g' == if dst in g.userMap then Forgotten(g, dst) else g
    else
      && g' == g
      && v == if dst !in g.userMap then (if arp then Forwarded(f, None) else Dropped)
              else if f[0..6] == g.staticIPMap[dst] || (arp && f[0..6] == [255, 255, 255, 255, 255, 255])
              then Forwarded(rewritten(g.live[g.userMap[dst]].mac), None)
              else Dropped
  }

  lemma OutsideArpBytes(g: Gw, f: seq<byte>, junk: Junk)
    requires (forall ip :: ip in g.userMap ==> g.userMap[ip] in g.live) && |f| <= 1514 && ArpBytes(f)
    ensures var (g', v) := OutsideStep(g, f, junk);
            ArrivesAs(g, f, if |f| >= 32 then f[28..32] else junk.source, if |f| >= 42 then f[38..42] else junk.destination, true,
                      m => if |f| >= 38 then m + f[6..32] + m + f[38..] else m + f[6..], g', v)
  {
    ArpOnTheWire(f);
    TypesOnTheWire(f);
    forall m: Mac ensures RewriteDestination(f, m) == if |f| >= 38 then m + f[6..32] + m + f[38..] else m + f[6..] {
      RewritesOnTheWire(f, m);
    }
    hide RewriteDestination, ArpBytes, ArpWellFormed, EtherType;
  }

  /** IP, but for the two tests for DHCP: one before the lookups and one after them. */
  lemma OutsideIpBytes(g: Gw, f: seq<byte>, junk: Junk)
    requires (forall ip :: ip in g.userMap ==> g.userMap[ip] in g.live) && |f| <= 1514 && IpBytes(f)
    ensures var (g', v) := OutsideStep(g, f, junk);
            if UdpBytes(f, [0, 67, 0, 68]) then (g', v) == (g, Dropped)
            else if UdpBytes(f, [0, 68, 0, 67]) && f[26..34] == [0, 0, 0, 0, 255, 255, 255, 255] then
              && v == Dropped
              && g' == if f[26..30] !in g.staticIPMap && f[30..34] !in g.staticIPMap && f[30..34] in g.userMap
                       then Forgotten(g, f[30..34]) else g
            else ArrivesAs(g, f, f[26..30], f[30..34], false, m => m + f[6..], g', v)
  {
    IpOnTheWire(f);
    PortsOnTheWire(f);
    TypesOnTheWire(f);
    forall m: Mac ensures RewriteDestination(f, m) == m + f[6..] {
      RewritesOnTheWire(f, m);
    }
    SourceAndDestination(f);
    hide RewriteDestination, IpBytes, UdpBytes, UdpPorts, IpNext, EtherType;
  }

  lemma SourceAndDestination(f: seq<byte>)
    requires |f| >= 34
    ensures f[26..34] == [0, 0, 0, 0, 255, 255, 255, 255] <==> f[26..30] == NO_IP && f[30..34] == BROADCAST_IP
  {
    assert f[26..34] == f[26..30] + f[30..34];
    assert [0, 0, 0, 0, 255, 255, 255, 255][..4] == NO_IP && [0, 0, 0, 0, 255, 255, 255, 255][4..] == BROADCAST_IP;
  }

  lemma OutsideOtherBytes(g: Gw, f: seq<byte>, junk: Junk)
    requires |f| <= 1514 && !ArpBytes(f) && !IpBytes(f)
    ensures OutsideStep(g, f, junk) ==
              (g, if |f| >= 14 && (f[12..14] == [8, 6] || f[12..14] == [8, 0]) then Dropped else Forwarded(f, None))
  {
    ArpOnTheWire(f);
    IpOnTheWire(f);
    TypesOnTheWire(f);
    hide ArpBytes, IpBytes, ArpWellFormed, IpNext, EtherType;
  }
}
