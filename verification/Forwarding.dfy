/**
 * The decisions of `Gateway::serve` and of its event callbacks as functions of the two maps and of
 * the `malloc` heap of user records. Undefined behaviour of the source (following an `end()` iterator
 * or a freed record, freeing a record twice) clears `ok`.
 */
module Forwarding {
  import opened Octets
  import opened Packets
  import opened Frames
  import Icmp
  import Reply

  type Ptr = nat

  datatype UserInfo = UserInfo(ip: IPv4, mac: Mac, lastAccess: nat, timeout: nat)

  /** `struct update_time`, with the record it was sent for. */
  datatype UpdateTime = UpdateTime(record: Ptr, mac: Mac, ip: IPv4, utc: nat)

  /** `live` holds the allocated, not yet freed records; `next` is the next address `malloc` returns. */
  datatype Gw = Gw(staticIPMap: map<IPv4, Mac>, userMap: map<IPv4, Ptr>, live: map<Ptr, UserInfo>, next: Ptr, ok: bool)

  datatype Verdict = Dropped
                   | TooLong(answer: Option<seq<byte>>)
                   | Consumed(request: Reply.DhcpRequest)
                   | Forwarded(frame: seq<byte>, update: Option<UpdateTime>)

  /** The stale stack bytes that the ARP address reads return for a frame too short to hold them. */
  datatype Junk = Junk(source: IPv4, destination: IPv4)

  const BROADCAST_MAC: Mac := [0xFF, 0xFF, 0xFF, 0xFF, 0xFF, 0xFF]
  const BROADCAST_IP: IPv4 := [0xFF, 0xFF, 0xFF, 0xFF]
  const NO_IP: IPv4 := [0, 0, 0, 0]

  // ---- frames from inside ----

  /** `(user->last_access + user->timeout) < current_time`, in unsigned 64-bit arithmetic. */
  predicate UpdateDue(u: UserInfo, now: nat) {
    (u.lastAccess + u.timeout) % TWO64 < now
  }

  function RewriteSource(f: seq<byte>, m: Mac): (r: seq<byte>)
    ensures |r| == |f|
  {
    SetEtherSource(if EtherType(f) == ETHERTYPE_ARP then SetArpSourceMac(f, m) else f, m)
  }

  /** The common tail of the ARP and IP branches, from the map lookups to the device write. */
  function InsideRoute(g: Gw, f: seq<byte>, src: IPv4, dst: IPv4, now: nat): (Gw, Verdict)
    requires |f| >= 14
  {
    if dst in g.staticIPMap then (g, Dropped)
    else if src in g.userMap then
      var p := g.userMap[src];
      if p !in g.live then (g.(ok := false), Dropped)
      else if g.live[p].mac != EtherSource(f) then (g, Dropped)
      else if src !in g.staticIPMap then (g.(ok := false), Dropped)
      else
        var u := g.live[p];
        var out := RewriteSource(f, g.staticIPMap[src]);
        if UpdateDue(u, now) then
          (g.(live := g.live[p := u.(lastAccess := now)]), Forwarded(out, Some(UpdateTime(p, u.mac, u.ip, now))))
        else (g, Forwarded(out, None))
    else if src in g.staticIPMap then (g, Dropped)
    else (g, Forwarded(f, None))
  }

  predicate UdpPorts(f: seq<byte>, src: nat, dst: nat)
    requires |f| >= 14 + IpNext(f)
  {
    IpProtocol(f) == PROTO_UDP && UdpSource(f, IpNext(f)) == src && UdpDestination(f, IpNext(f)) == dst
  }

  /** A frame between the DHCP ports never reaches the maps: it is queued for the database or dropped. */
  function InsideDhcp(f: seq<byte>): Verdict
    requires |f| >= 14 + IpNext(f)
  {
    var d := IpNext(f) + UDP_LEN;
    var kind := DhcpMessageType(f, d);
    if DhcpOpcode(f, d) != 1 || (kind != 1 && kind != 3) then Dropped
    else if DhcpClientMac(f, d) != EtherSource(f) then Dropped
    else Consumed(Reply.DhcpRequest(DhcpClientMac(f, d), DhcpTransactionID(f, d), kind == 1))
  }

  function InsideStep(g: Gw, f: seq<byte>, now: nat, junk: Junk): (Gw, Verdict) {
    if |f| > MAX_FRAME then (g, TooLong(Answer(f[..MAX_FRAME])))
    else if |f| < ETHER_LEN then (g, Dropped)
    else if EtherType(f) == ETHERTYPE_ARP then
      if !ArpWellFormed(f) then (g, Dropped)
      else InsideRoute(g, f, ArpSourceIP(f, junk.source), ArpDestinationIP(f, junk.destination), now)
    else if EtherType(f) == ETHERTYPE_IP then
      if |f| < ETHER_LEN + IpNext(f) then (g, Dropped)
      else if UdpPorts(f, 68, 67) then (g, InsideDhcp(f))
      else InsideRoute(g, f, IpSource(f), IpDestination(f), now)
    else (g, Forwarded(f, None))
  }

  function Answer(f: seq<byte>): Option<seq<byte>> {
    if Icmp.Answered(f) then Some(Icmp.TooBig(f, MTU)) else None
  }

  // ---- frames from outside ----

  /** `free(iter->second); userMap.erase(iter)`. */
  function RemoveUser(g: Gw, ip: IPv4): Gw
    requires ip in g.userMap
  {
    if g.userMap[ip] !in g.live then g.(ok := false)
    else g.(live := g.live - {g.userMap[ip]}, userMap := g.userMap - {ip})
  }

  function RewriteDestination(f: seq<byte>, m: Mac): (r: seq<byte>)
    ensures |r| == |f|
  {
    SetEtherDestination(if EtherType(f) == ETHERTYPE_ARP then SetArpDestinationMac(f, m) else f, m)
  }

  function Deliver(g: Gw, f: seq<byte>, dst: IPv4): (Gw, Verdict)
    requires dst in g.userMap
  {
    var p := g.userMap[dst];
    if p !in g.live then (g.(ok := false), Dropped)
    else (g, Forwarded(RewriteDestination(f, g.live[p].mac), None))
  }

  function OutsideArp(g: Gw, f: seq<byte>, src: IPv4, dst: IPv4): (Gw, Verdict)
    requires |f| >= 14
  {
    if src in g.staticIPMap then (g, Dropped)
    else if dst in g.staticIPMap then
      if dst !in g.userMap then (g, Forwarded(f, None))
      else if EtherDestination(f) != g.staticIPMap[dst] && EtherDestination(f) != BROADCAST_MAC then (g, Dropped)
      else Deliver(g, f, dst)
    else if dst in g.userMap then (RemoveUser(g, dst), Forwarded(f, None))
    else (g, Forwarded(f, None))
  }

  function OutsideIp(g: Gw, f: seq<byte>, src: IPv4, dst: IPv4): (Gw, Verdict)
    requires |f| >= 14
  {
    if src in g.staticIPMap then (g, Dropped)
    else if dst in g.staticIPMap then
      if dst !in g.userMap then (g, Dropped)
      else if EtherDestination(f) != g.staticIPMap[dst] then (g, Dropped)
      else Deliver(g, f, dst)
    else if dst in g.userMap then (RemoveUser(g, dst), Forwarded(f, None))
    else (g, Forwarded(f, None))
  }

  /** The second look at a UDP datagram from the null address to the limited broadcast address. */
  predicate LateDhcp(f: seq<byte>)
    requires |f| >= 14 + IpNext(f)
  {
    IpSource(f) == NO_IP && IpDestination(f) == BROADCAST_IP && (UdpPorts(f, 68, 67) || UdpPorts(f, 67, 68))
  }

  function OutsideStep(g: Gw, f: seq<byte>, junk: Junk): (Gw, Verdict) {
    if |f| > MAX_FRAME then (g, TooLong(Answer(f[..MAX_FRAME])))
    else if EtherType(f) == ETHERTYPE_ARP then
      if !ArpWellFormed(f) then (g, Dropped)
      else OutsideArp(g, f, ArpSourceIP(f, junk.source), ArpDestinationIP(f, junk.destination))
    else if EtherType(f) == ETHERTYPE_IP then
      if |f| < ETHER_LEN + IpNext(f) then (g, Dropped)
      else if UdpPorts(f, 67, 68) then (g, Dropped)
      else
        var (g', v) := OutsideIp(g, f, IpSource(f), IpDestination(f));
        (g', if v.Forwarded? && LateDhcp(f) then Dropped else v)
    else (g, Forwarded(f, None))
  }

  // ---- event callbacks, one item at a time ----

  function AddStatic(g: Gw, ip: IPv4, mac: Mac): Gw {
    g.(staticIPMap := g.staticIPMap - {ip} + map[ip := mac])
  }

  function DelStatic(g: Gw, ip: IPv4): Gw {
    g.(staticIPMap := g.staticIPMap - {ip})
  }

  /** A record under the same address is freed and replaced. */
  function AddUser(g: Gw, p: Ptr): Gw {
    if p !in g.live then g.(ok := false)
    else
      var ip := g.live[p].ip;
      var cleared := if ip in g.userMap then RemoveUser(g, ip) else g;
      cleared.(userMap := cleared.userMap[ip := p])
  }

  function DelUser(g: Gw, ip: IPv4): Gw {
    if ip in g.userMap then RemoveUser(g, ip) else g
  }

  function AddStatics(g: Gw, items: seq<(IPv4, Mac)>): Gw
    decreases |items|
  {
    if items == [] then g else AddStatics(AddStatic(g, items[0].0, items[0].1), items[1..])
  }

  function DelStatics(g: Gw, items: seq<IPv4>): Gw
    decreases |items|
  {
    if items == [] then g else DelStatics(DelStatic(g, items[0]), items[1..])
  }

  function AddUsers(g: Gw, items: seq<Ptr>): Gw
    decreases |items|
  {
    if items == [] then g else AddUsers(AddUser(g, items[0]), items[1..])
  }

  function DelUsers(g: Gw, items: seq<IPv4>): Gw
    decreases |items|
  {
    if items == [] then g else DelUsers(DelUser(g, items[0]), items[1..])
  }

  /** The `malloc` and copy of `addUserInfo`; the record's address goes to the add queue. */
  function Allocate(g: Gw, info: UserInfo): Gw {
    g.(live := g.live[g.next := info], next := g.next + 1)
  }

  // ---- what is promised about frames ----

  /** A frame whose address fields are all present. */
  predicate IsIp(f: seq<byte>) {
    EtherType(f) == ETHERTYPE_IP && |f| >= ETHER_LEN + IpNext(f)
  }

  predicate IsArp(f: seq<byte>) {
    EtherType(f) == ETHERTYPE_ARP && ArpWellFormed(f) && |f| >= 42
  }

  function SourceOf(f: seq<byte>): IPv4
    requires IsIp(f) || IsArp(f)
  {
    if EtherType(f) == ETHERTYPE_ARP then f[28..32] else IpSource(f)
  }

  function DestinationOf(f: seq<byte>): IPv4
    requires IsIp(f) || IsArp(f)
  {
    if EtherType(f) == ETHERTYPE_ARP then f[38..42] else IpDestination(f)
  }

  /** The two maps agree with the heap, and every user address has a static address. */
  predicate Coherent(g: Gw) {
    g.ok && forall ip :: ip in g.userMap ==> ip in g.staticIPMap && g.userMap[ip] in g.live && g.live[g.userMap[ip]].ip == ip
  }

  predicate Registered(g: Gw, ip: IPv4, m: Mac) {
    ip in g.userMap && g.userMap[ip] in g.live && g.live[g.userMap[ip]].mac == m
  }

  /**
   * Which complete frames leave: neither DHCP nor bound for a static address, and either from no
   * static address or from the MAC registered for it. In the first case the frame is unchanged, in
   * the second it carries the static MAC.
   */
  lemma InsideForwardsExactly(g: Gw, f: seq<byte>, now: nat, junk: Junk)
    requires Coherent(g) && |f| <= MAX_FRAME && (IsIp(f) || IsArp(f))
    ensures var (g', v) := InsideStep(g, f, now, junk);
            var src := SourceOf(f);
            && g'.ok
            && (v.Forwarded? <==>
                  && !(IsIp(f) && UdpPorts(f, 68, 67))
                  && DestinationOf(f) !in g.staticIPMap
                  && (src in g.staticIPMap ==> Registered(g, src, EtherSource(f))))
            && (v.Forwarded? ==> v.frame == if src in g.staticIPMap then RewriteSource(f, g.staticIPMap[src]) else f)
  {
  }

  /** The frames that reach the map lookups of the inside loop, short ARP frames included. */
  predicate Routed(f: seq<byte>) {
    && ETHER_LEN <= |f| <= MAX_FRAME
    && if EtherType(f) == ETHERTYPE_ARP then ArpWellFormed(f) else IsIp(f) && !UdpPorts(f, 68, 67)
  }

  /** The addresses looked up: for an ARP frame too short to hold them, the stale ones. */
  function RoutedSource(f: seq<byte>, junk: Junk): IPv4
    requires Routed(f)
  {
    if EtherType(f) == ETHERTYPE_ARP then ArpSourceIP(f, junk.source) else IpSource(f)
  }

  function RoutedDestination(f: seq<byte>, junk: Junk): IPv4
    requires Routed(f)
  {
    if EtherType(f) == ETHERTYPE_ARP then ArpDestinationIP(f, junk.destination) else IpDestination(f)
  }

  /** A routed frame of a registered user whose address has lost its static entry. */
  predicate Dangling(g: Gw, f: seq<byte>, junk: Junk) {
    && Routed(f)
    && Registered(g, RoutedSource(f, junk), EtherSource(f))
    && RoutedSource(f, junk) !in g.staticIPMap && RoutedDestination(f, junk) !in g.staticIPMap
  }

  lemma CompleteIsRouted(f: seq<byte>, junk: Junk)
    requires |f| <= MAX_FRAME && (IsIp(f) || IsArp(f)) && !(IsIp(f) && UdpPorts(f, 68, 67))
    ensures Routed(f) && RoutedSource(f, junk) == SourceOf(f) && RoutedDestination(f, junk) == DestinationOf(f)
  {
  }

  /** Of all frames, exactly the dangling ones follow the `end()` iterator. */
  lemma InsideUndefinedExactly(g: Gw, f: seq<byte>, now: nat, junk: Junk)
    requires g.ok && forall ip :: ip in g.userMap ==> g.userMap[ip] in g.live
    ensures !InsideStep(g, f, now, junk).0.ok <==> Dangling(g, f, junk)
  {
  }

  /** Under coherent maps no frame of any shape is undefined, and no outside frame removes a user. */
  lemma StepsDefined(g: Gw, f: seq<byte>, now: nat, junk: Junk)
    requires Coherent(g)
    ensures InsideStep(g, f, now, junk).0.ok && OutsideStep(g, f, junk).0 == g
  {
  }

  /** A request reaches the database exactly for a discover or request that names its own sender. */
  lemma InsideConsumesExactly(g: Gw, f: seq<byte>, now: nat, junk: Junk)
    requires |f| <= MAX_FRAME
    ensures var v := InsideStep(g, f, now, junk).1;
            v.Consumed? <==>
              && IsIp(f) && UdpPorts(f, 68, 67)
              && var d := IpNext(f) + 8;
                 && d + 242 < |f| && f[d] == 1 && (f[d + 242] == 1 || f[d + 242] == 3)
                 && f[d + 28..d + 34] == EtherSource(f)
    ensures var v := InsideStep(g, f, now, junk).1;
            v.Consumed? ==>
              var d := IpNext(f) + 8;
              v.request == Reply.DhcpRequest(EtherSource(f), f[d + 4..d + 8], f[d + 242] == 1)
    ensures InsideStep(g, f, now, junk).1.Consumed? ==> InsideStep(g, f, now, junk).0 == g
  {
  }

  /** Which complete frames come in, and with what rewriting. */
  lemma OutsideForwardsExactly(g: Gw, f: seq<byte>, junk: Junk)
    requires Coherent(g) && |f| <= MAX_FRAME && (IsIp(f) || IsArp(f))
    ensures var v := OutsideStep(g, f, junk).1;
            var dst := DestinationOf(f);
            && (v.Forwarded? <==>
                  && SourceOf(f) !in g.staticIPMap
                  && (IsIp(f) ==> !UdpPorts(f, 67, 68) && !LateDhcp(f))
                  && (IsIp(f) && dst in g.staticIPMap ==> dst in g.userMap && EtherDestination(f) == g.staticIPMap[dst])
                  && (IsArp(f) && dst in g.userMap ==> EtherDestination(f) == g.staticIPMap[dst] || EtherDestination(f) == BROADCAST_MAC))
            && (v.Forwarded? ==> v.frame == if dst in g.userMap then RewriteDestination(f, g.live[g.userMap[dst]].mac) else f)
  {
  }

  /** The only state a defined inside frame changes is the access time of the record it reports. */
  lemma InsideReport(g: Gw, f: seq<byte>, now: nat, junk: Junk)
    ensures var (g', v) := InsideStep(g, f, now, junk);
            if v.Forwarded? && v.update.Some? then
              var u := v.update.value;
              && u.record in g.live && UpdateDue(g.live[u.record], now)
              && u == UpdateTime(u.record, g.live[u.record].mac, g.live[u.record].ip, now)
              && g' == g.(live := g.live[u.record := g.live[u.record].(lastAccess := now)])
            else g' == g || g' == g.(ok := false)
  {
  }

  /** An outside frame removes one user at most, and only one without a static address. */
  lemma OutsideRemoves(g: Gw, f: seq<byte>, junk: Junk)
    requires forall ip :: ip in g.userMap ==> g.userMap[ip] in g.live
    ensures var g' := OutsideStep(g, f, junk).0;
            g' == g || exists ip :: ip in g.userMap && ip !in g.staticIPMap && g' == RemoveUser(g, ip)
  {
  }

  /** A due report is more than a timeout after the last one exactly when the 64-bit addition did not wrap. */
  lemma DueIsSpacedExactly(u: UserInfo, now: nat)
    requires UpdateDue(u, now) && now < TWO64
    ensures u.lastAccess + u.timeout < now <==> u.lastAccess + u.timeout < TWO64
  {
  }

  /** Outward only the Ethernet source and an ARP sender MAC may change, inward only their counterparts. */
  lemma OnlyMacBytesChange(g: Gw, f: seq<byte>, now: nat, junk: Junk)
    ensures var v := InsideStep(g, f, now, junk).1; v.Forwarded? ==> SourceBytesOnly(f, v.frame)
    ensures var v := OutsideStep(g, f, junk).1; v.Forwarded? ==> DestinationBytesOnly(f, v.frame)
  {
    ForwardedShapes(g, f, now, junk);
    hide InsideStep, OutsideStep, RewriteSource, RewriteDestination;
    forall m: Mac ensures SourceBytesOnly(f, RewriteSource(f, m)) && DestinationBytesOnly(f, RewriteDestination(f, m)) {
      RewriteBytes(f, m);
    }
  }

  predicate SourceBytesOnly(f: seq<byte>, out: seq<byte>) {
    |out| == |f| && forall k :: 0 <= k < |f| && out[k] != f[k] ==> 6 <= k < 12 || (EtherType(f) == ETHERTYPE_ARP && 22 <= k < 28)
  }

  predicate DestinationBytesOnly(f: seq<byte>, out: seq<byte>) {
    |out| == |f| && forall k :: 0 <= k < |f| && out[k] != f[k] ==> 0 <= k < 6 || (EtherType(f) == ETHERTYPE_ARP && 32 <= k < 38)
  }

  lemma WriteElsewhere(v: seq<byte>, from: int, bs: seq<byte>)
    ensures forall k :: 0 <= k < |v| && !(from <= k < from + |bs|) ==> Write(v, from, bs)[k] == v[k]
  {
  }

  lemma RewriteBytes(f: seq<byte>, m: Mac)
    ensures SourceBytesOnly(f, RewriteSource(f, m)) && DestinationBytesOnly(f, RewriteDestination(f, m))
  {
    WriteElsewhere(f, 22, m);
    WriteElsewhere(f, 32, m);
    WriteElsewhere(f, 6, m);
    WriteElsewhere(f, 0, m);
    WriteElsewhere(SetArpSourceMac(f, m), 6, m);
    WriteElsewhere(SetArpDestinationMac(f, m), 0, m);
    hide Write;
  }

  lemma ForwardedShapes(g: Gw, f: seq<byte>, now: nat, junk: Junk)
    ensures var v := InsideStep(g, f, now, junk).1;
            v.Forwarded? ==> v.frame == f || exists m: Mac :: v.frame == RewriteSource(f, m)
    ensures var v := OutsideStep(g, f, junk).1;
            v.Forwarded? ==> v.frame == f || exists m: Mac :: v.frame == RewriteDestination(f, m)
  {
    hide RewriteSource, RewriteDestination;
  }

  /**
   * No spoofing: a complete frame that leaves from a static address was sent by the MAC registered
   * for it and carries the static MAC (in the ARP payload too), and none leaves towards a static address.
   */
  lemma NoSpoofedFrameLeaves(g: Gw, f: seq<byte>, now: nat, junk: Junk)
    requires |f| <= MAX_FRAME && (IsIp(f) || IsArp(f))
    requires InsideStep(g, f, now, junk).1.Forwarded?
    ensures var out := InsideStep(g, f, now, junk).1.frame;
            && DestinationOf(f) !in g.staticIPMap
            && (IsIp(out) || IsArp(out)) && SourceOf(out) == SourceOf(f) && DestinationOf(out) == DestinationOf(f)
            && (SourceOf(f) in g.staticIPMap ==>
                  && Registered(g, SourceOf(f), EtherSource(f))
                  && EtherSource(out) == g.staticIPMap[SourceOf(f)]
                  && (IsArp(f) ==> out[22..28] == g.staticIPMap[SourceOf(f)]))
  {
    if SourceOf(f) in g.staticIPMap {
      RewriteSourceFields(f, g.staticIPMap[SourceOf(f)]);
    }
    hide RewriteSource;
  }

  lemma RewriteSourceFields(f: seq<byte>, m: Mac)
    requires IsIp(f) || IsArp(f)
    ensures var out := RewriteSource(f, m);
            && EtherSource(out) == m && EtherDestination(out) == EtherDestination(f) && EtherType(out) == EtherType(f)
            && (IsIp(out) <==> IsIp(f)) && (IsArp(out) <==> IsArp(f))
            && (IsIp(f) ==> IpNext(out) == IpNext(f) && out[12..] == f[12..])
            && (IsArp(f) ==> out[12..22] == f[12..22] && out[22..28] == m && out[28..] == f[28..])
            && SourceOf(out) == SourceOf(f) && DestinationOf(out) == DestinationOf(f)
  {
    var mid := if EtherType(f) == ETHERTYPE_ARP then SetArpSourceMac(f, m) else f;
    var out := RewriteSource(f, m);
    WriteElsewhere(f, 22, m);
    WriteElsewhere(mid, 6, m);
    ReadOverWrite(f, 22, m, 22, 28, m);
    ReadOverWrite(mid, 6, m, 6, 12, m);
    ReadOverWrite(mid, 6, m, 22, 28, m);
    hide Write;
    assert forall k :: 0 <= k < |f| && !(6 <= k < 12) && !(IsArp(f) && 22 <= k < 28) ==> out[k] == f[k];
    assert out[0..6] == f[0..6];
    assert IsArp(f) ==> out[28..32] == f[28..32] && out[38..42] == f[38..42];
    assert IsIp(f) ==> out[26..30] == f[26..30] && out[30..34] == f[30..34];
  }

  // ---- translation inverts ----

  /** Any answer to `out`: of its kind, with the addresses exchanged, sent to the MAC `out` came from. */
  predicate IsReplyTo(r: seq<byte>, out: seq<byte>) {
    && (IsIp(out) || IsArp(out)) && |r| <= MAX_FRAME
    && (IsIp(r) <==> IsIp(out)) && (IsArp(r) <==> IsArp(out))
    && SourceOf(r) == DestinationOf(out) && DestinationOf(r) == SourceOf(out)
    && EtherDestination(r) == EtherSource(out)
  }

  /** The gateway is willing to deliver to this user: registered, with its static MAC known. */
  predicate Deliverable(g: Gw, ip: IPv4, m: Mac, staticMac: Mac) {
    Registered(g, ip, m) && ip in g.staticIPMap && g.staticIPMap[ip] == staticMac
  }

  predicate DhcpShaped(r: seq<byte>) {
    IsIp(r) && (UdpPorts(r, 67, 68) || LateDhcp(r))
  }

  /** Where an answer ends up: with the user, unless it looks like DHCP. */
  function Delivered(r: seq<byte>, m: Mac): Verdict {
    if DhcpShaped(r) then Dropped else Forwarded(RewriteDestination(r, m), None)
  }

  lemma AnswerIsDelivered(g: Gw, r: seq<byte>, junk: Junk, m: Mac, staticMac: Mac)
    requires |r| <= MAX_FRAME && (IsIp(r) || IsArp(r))
    requires Deliverable(g, DestinationOf(r), m, staticMac) && EtherDestination(r) == staticMac
    requires SourceOf(r) !in g.staticIPMap
    ensures OutsideStep(g, r, junk) == (g, Delivered(r, m))
  {
    hide RewriteDestination;
  }

  /**
   * If a registered user's frame left, then in the state it left behind every answer to it, of any
   * protocol, length and content, is delivered to the user's own MAC, unless it is shaped like DHCP.
   */
  lemma TranslationInverts(g: Gw, f: seq<byte>, now: nat, junk: Junk, r: seq<byte>, junk': Junk)
    requires |f| <= MAX_FRAME && (IsIp(f) || IsArp(f))
    requires SourceOf(f) in g.userMap && InsideStep(g, f, now, junk).1.Forwarded?
    requires IsReplyTo(r, InsideStep(g, f, now, junk).1.frame)
    ensures var g' := InsideStep(g, f, now, junk).0;
            && OutsideStep(g', r, junk') == (g', Delivered(r, EtherSource(f)))
            && EtherDestination(RewriteDestination(r, EtherSource(f))) == EtherSource(f)
            && (IsArp(f) ==> RewriteDestination(r, EtherSource(f))[32..38] == EtherSource(f))
  {
    AfterInside(g, f, now, junk);
    hide InsideStep, OutsideStep, RewriteDestination;
    AnswerIsDelivered(InsideStep(g, f, now, junk).0, r, junk', EtherSource(f), g.staticIPMap[SourceOf(f)]);
    DestinationFields(r, EtherSource(f));
  }

  /** What a forwarded frame of a registered user leaves behind. */
  lemma AfterInside(g: Gw, f: seq<byte>, now: nat, junk: Junk)
    requires |f| <= MAX_FRAME && (IsIp(f) || IsArp(f))
    requires SourceOf(f) in g.userMap && InsideStep(g, f, now, junk).1.Forwarded?
    ensures var (g', v) := InsideStep(g, f, now, junk);
            var src := SourceOf(f);
            && src in g.staticIPMap && g.userMap[src] in g.live && Deliverable(g', src, EtherSource(f), g.staticIPMap[src])
            && g'.staticIPMap == g.staticIPMap && DestinationOf(f) !in g.staticIPMap
            && !(IsIp(f) && UdpPorts(f, 68, 67))
            && (v.update.Some? <==> UpdateDue(g.live[g.userMap[src]], now))
            && (v.update.Some? ==> v.update.value.record == g.userMap[src])
            && v.frame == RewriteSource(f, g.staticIPMap[src])
            && EtherSource(v.frame) == g.staticIPMap[src]
            && (IsIp(v.frame) <==> IsIp(f)) && (IsArp(v.frame) <==> IsArp(f))
            && SourceOf(v.frame) == src && DestinationOf(v.frame) == DestinationOf(f)
  {
    hide RewriteSource;
    if SourceOf(f) in g.staticIPMap {
      RewriteSourceFields(f, g.staticIPMap[SourceOf(f)]);
    }
  }

  lemma DestinationFields(f: seq<byte>, m: Mac)
    requires IsIp(f) || IsArp(f)
    ensures EtherDestination(RewriteDestination(f, m)) == m
    ensures IsArp(f) ==> RewriteDestination(f, m)[32..38] == m
  {
    var g := if EtherType(f) == ETHERTYPE_ARP then SetArpDestinationMac(f, m) else f;
    ReadOverWrite(f, 32, m, 32, 38, m);
    ReadOverWrite(g, 0, m, 0, 6, m);
    ReadOverWrite(g, 0, m, 32, 38, m);
    hide Write;
  }

  /** An answer of the same protocol that, if it is UDP, exchanges the ports as well. */
  predicate MirrorsPorts(r: seq<byte>, f: seq<byte>)
    requires IsIp(r) && IsIp(f)
  {
    && IpProtocol(r) == IpProtocol(f)
    && (IpProtocol(f) == PROTO_UDP ==>
          && UdpSource(r, IpNext(r)) == UdpDestination(f, IpNext(f))
          && UdpDestination(r, IpNext(r)) == UdpSource(f, IpNext(f)))
  }

  /** The one kind of exchange whose mirrored answer the second DHCP test swallows. */
  predicate Swallowed(f: seq<byte>) {
    IsIp(f) && UdpPorts(f, 67, 68) && IpSource(f) == BROADCAST_IP && IpDestination(f) == NO_IP
  }

  /** A mirrored answer to a forwarded frame is dropped in the swallowed case and in no other. */
  lemma MirroredAnswerDroppedExactly(g: Gw, f: seq<byte>, now: nat, junk: Junk, r: seq<byte>, junk': Junk)
    requires |f| <= MAX_FRAME && IsIp(f)
    requires SourceOf(f) in g.userMap && InsideStep(g, f, now, junk).1.Forwarded?
    requires IsReplyTo(r, InsideStep(g, f, now, junk).1.frame) && MirrorsPorts(r, f)
    ensures OutsideStep(InsideStep(g, f, now, junk).0, r, junk').1.Dropped? <==> Swallowed(f)
  {
    AfterInside(g, f, now, junk);
    TranslationInverts(g, f, now, junk, r, junk');
    hide InsideStep, OutsideStep, RewriteSource, RewriteDestination;
  }
}
