/**
 * A removal request names only an address. This run has one that was meant for a vanished user and frees
 * the record of the address's next owner.
 */
module LateRemoval {
  import opened Octets
  import opened Tables
  import opened Forwarding
  import opened Frames
  import opened System
  import opened Safety
  import opened Witnesses
  import opened RunWitnesses
  import Reply
  import Udp

  // ---- the two frames ----

  function RequestOf(mac: Mac): Reply.DhcpRequest {
    Reply.DhcpRequest(mac, [0, 0, 0, 0], false)
  }

  /** A DHCP request of `mac`. */
  predicate IsRequest(f: seq<byte>, mac: Mac) {
    && |f| == 285 && IsIp(f) && UdpPorts(f, 68, 67) && IpNext(f) == 34 && EtherSource(f) == mac
    && f[42] == 1 && f[46..50] == [0, 0, 0, 0] && f[70..76] == mac && f[284] == 3
  }

  lemma {:induction false} SomeMessage(mac: Mac) returns (m: seq<byte>)
    ensures |m| == 243 && m[0] == 1 && m[4..8] == [0, 0, 0, 0] && m[28..34] == mac && m[242] == 3
  {
    m := [1] + Zeros(27) + mac + Zeros(208) + [3];
  }

  lemma {:induction false} SomeRequest(mac: Mac) returns (f: seq<byte>)
    ensures IsRequest(f, mac)
  {
    hide IpNext, EtherType;
    var e := Udp.Endpoints(mac, BROADCAST_MAC, NO_IP, BROADCAST_IP, 68, 67);
    var m := SomeMessage(mac);
    Reply.HeadersReadBack(e, m);
    hide Udp.UdpFrame;
    f := Udp.UdpFrame(e, m);
    assert f[46..50] == f[42..][4..8] && f[70..76] == f[42..][28..34];
  }

  lemma RequestIsConsumed(g: Gw, f: seq<byte>, mac: Mac, now: nat, junk: Junk)
    requires IsRequest(f, mac)
    ensures InsideStep(g, f, now, junk) == (g, Consumed(RequestOf(mac)))
  {
    hide InsideStep, IpNext, UdpPorts, IsIp, EtherSource;
    InsideConsumesExactly(g, f, now, junk);
  }

  /** A frame of `mac` from `ip` to another address. */
  predicate IsPlain(f: seq<byte>, ip: IPv4, mac: Mac) {
    && IsIp(f) && |f| <= MAX_FRAME && !UdpPorts(f, 68, 67)
    && SourceOf(f) == ip && EtherSource(f) == mac && DestinationOf(f) != ip
  }

  lemma {:induction false} SomePlain(ip: IPv4, mac: Mac) returns (f: seq<byte>)
    ensures IsPlain(f, ip, mac)
  {
    assert BROADCAST_IP[0] != NO_IP[0];
    var e := Udp.Endpoints(mac, mac, ip, if ip == NO_IP then BROADCAST_IP else NO_IP, 1000, 1000);
    ProbeFields(e);
    hide Probe, IpNext, EtherType, ArpWellFormed;
    f := Probe(e);
  }

  lemma PlainIsReported(f: seq<byte>, ip: IPv4, mac: Mac, staticMac: Mac, timeout: nat, now: nat, junk: Junk)
    requires timeout < now && IsPlain(f, ip, mac)
    ensures var g := OneUser(ip, mac, staticMac, timeout);
            var (g', v) := InsideStep(g, f, now, junk);
            && g' == g.(live := map[0 := UserInfo(ip, mac, now, timeout)])
            && v.Forwarded? && v.update == Some(UpdateTime(0, mac, ip, now))
  {
    hide InsideStep, UdpPorts, IsIp, IsArp, EtherSource, SourceOf, DestinationOf;
    var g := OneUser(ip, mac, staticMac, timeout);
    InsideForwardsExactly(g, f, now, junk);
    AfterInside(g, f, now, junk);
    InsideReport(g, f, now, junk);
    assert UpdateDue(g.live[0], now);
    assert g.live[0 := UserInfo(ip, mac, now, timeout)] == map[0 := UserInfo(ip, mac, now, timeout)];
  }

  // ---- the stretches of the run ----

  /** The first user sends a frame, the second asks for an address. */
  lemma {:induction false} PacketSteps(z: Sys, ip: IPv4, mac: Mac, other: Mac, staticMac: Mac, now: nat) returns (acts: seq<Action>)
    requires z.phase.Serving? && z.gw == OneUser(ip, mac, staticMac, z.timeout) && z.timeout < now
    ensures Runs(z, acts) && NoDelStatic(acts)
    ensures var u := UpdateTime(0, mac, ip, now);
            Exec(z, acts) == z.(gw := z.gw.(live := map[0 := UserInfo(ip, mac, now, z.timeout)]),
                                updates := z.updates + [u], sent := z.sent + [u], dhcp := z.dhcp + [RequestOf(other)])
  {
    var junk := Junk(NO_IP, NO_IP);
    var f := SomePlain(ip, mac);
    PlainIsReported(f, ip, mac, staticMac, z.timeout, now, junk);
    var z1 := ServeInside(z, f, now, junk);
    var r := SomeRequest(other);
    RequestIsConsumed(z1.gw, r, other, now, junk);
    hide InsideStep, IsPlain, IsRequest, OneUser;
    acts := Extend(z, [], z, Inside(f, now, junk), z1);
    acts := Extend(z, acts, z1, Inside(r, now, junk), z1.(dhcp := z.dhcp + [RequestOf(other)]));
  }

  /** The first user is removed from the table and its report finds no row. */
  lemma {:induction false} ReportSteps(z: Sys, ip: IPv4, mac: Mac, other: Mac, now: nat) returns (acts: seq<Action>)
    requires mac != other && z.users == map[other := UserRow(None, 0)] + map[mac := UserRow(Some(ip), 0)]
    requires z.updates == [UpdateTime(0, mac, ip, now)] && z.updateBatch == [] && z.dhcpBatch == []
    requires z.duty.Idle? && z.delUser == []
    ensures Runs(z, acts) && NoDelStatic(acts)
    ensures Exec(z, acts) == z.(users := map[other := UserRow(None, 0)], updates := [], delUser := [ip])
  {
    hide InsideStep, OutsideStep, Settle, Decides, RunCallback, ServeRequest, Register, ServeInside;
    var z1 := z.(users := map[other := UserRow(None, 0)]);
    var z2 := z1.(updateBatch := z.updates, updates := []);
    var z3 := z1.(updates := [], delUser := [ip]);
    RowIsGone(z, mac, other, ip);
    ReportFindsNoRow(z2, mac, ip, now);
    hide ServeAccess, Runs, Exec, NoDelStatic;
    acts := Extend(z, [], z, AdminRemove(mac), z1);
    acts := Extend(z, acts, z1, TakeUpdates, z2);
    acts := Extend(z, acts, z2, ServeUpdate, z3);
  }

  lemma RowIsGone(z: Sys, mac: Mac, other: Mac, ip: IPv4)
    requires mac != other && z.users == map[other := UserRow(None, 0)] + map[mac := UserRow(Some(ip), 0)]
    ensures z.users - {mac} == map[other := UserRow(None, 0)]
  {
  }

  lemma ReportFindsNoRow(z: Sys, mac: Mac, ip: IPv4, now: nat)
    requires z.updateBatch == [UpdateTime(0, mac, ip, now)] && mac !in z.users && z.delUser == []
    ensures ServeAccess(z) == z.(updateBatch := [], delUser := [ip])
  {
  }

  /** The second user gets the address. */
  lemma {:induction false} AssignSteps(z: Sys, ip: IPv4, mac: Mac, staticMac: Mac, now: nat) returns (acts: seq<Action>)
    requires z.table == map[ip := StaticRow(staticMac, false)] && z.users == map[mac := UserRow(None, 0)]
    requires z.dhcp == [RequestOf(mac)] && z.updateBatch == [] && z.dhcpBatch == [] && z.duty.Idle? && z.addUser == []
    ensures Runs(z, acts) && NoDelStatic(acts)
    ensures Exec(z, acts) == z.(users := map[mac := UserRow(Some(ip), 0)], dhcp := [], addUser := [z.gw.next],
                                gw := Allocate(z.gw, UserInfo(ip, mac, 0, z.timeout)),
                                send := z.send + [Offer(RequestOf(mac), ip)], everAssigned := z.everAssigned + {(ip, mac)})
  {
    hide InsideStep, OutsideStep, Settle, Decides, RunCallback, ServeInside, ServeAccess, Allocate;
    var z1 := z.(dhcpBatch := z.dhcp, dhcp := []);
    OnlyFreeAddress(ip, staticMac, mac, now);
    AddressIsTaken(z1, ip, mac);
    hide ServeRequest;
    var z2 := ServeRequest(z1, Take(ip));
    var z3 := Register(z2);
    assert z3 == z2.(gw := Allocate(z.gw, UserInfo(ip, mac, 0, z.timeout)), addUser := [z.gw.next], duty := Answering(Offer(RequestOf(mac), ip)));
    hide Register, RequestOf;
    acts := Extend(z, [], z, TakeDhcp, z1);
    acts := Extend(z, acts, z1, ServeDhcp(now, Take(ip)), z2);
    acts := Extend(z, acts, z2, RegisterUser, z3);
    acts := Extend(z, acts, z3, SendOffer, z3.(send := z.send + [Offer(RequestOf(mac), ip)], duty := Idle));
  }

  lemma OnlyFreeAddress(ip: IPv4, staticMac: Mac, mac: Mac, now: nat)
    ensures Decides(map[ip := StaticRow(staticMac, false)], map[mac := UserRow(None, 0)], mac, now, Take(ip))
  {
    assert ip in Unused(map[ip := StaticRow(staticMac, false)], map[mac := UserRow(None, 0)]);
  }

  lemma AddressIsTaken(z: Sys, ip: IPv4, mac: Mac)
    requires z.dhcpBatch == [RequestOf(mac)] && ip in z.table && z.users == map[mac := UserRow(None, 0)]
    ensures ServeRequest(z, Take(ip)) == z.(users := map[mac := UserRow(Some(ip), 0)], dhcpBatch := [],
                                            duty := Registering(Offer(RequestOf(mac), ip)),
                                            everAssigned := z.everAssigned + {(ip, mac)})
  {
  }

  /** The add callback runs before the removal callback; any order of the two is allowed. */
  lemma {:induction false} RoundSteps(z: Sys, ip: IPv4, first: UserInfo, second: UserInfo) returns (acts: seq<Action>)
    requires z.phase.Serving? && z.addUser == [1] && z.delUser == [ip] && first.ip == second.ip == ip
    requires z.gw.ok && z.gw.userMap == map[ip := 0] && z.gw.live == map[0 := first, 1 := second]
    ensures Runs(z, acts) && NoDelStatic(acts)
    ensures var z' := Exec(z, acts);
            && z' == z.(gw := z'.gw, addUser := [], phase := z'.phase)
            && z'.phase.Draining? && DelUserQ in z'.phase.pending
            && z'.gw == z.gw.(userMap := map[ip := 1], live := map[1 := second])
  {
    var z1 := z.(phase := Draining(Ready(z)));
    var z2 := z1.(gw := AddUsers(z.gw, [1]), addUser := [], phase := Draining(Ready(z) - {AddUserQ}));
    var g' := AddUser(z.gw, 1);
    assert RemoveUser(z.gw, ip).live == map[1 := second];
    assert RemoveUser(z.gw, ip).userMap == map[];
    assert g' == z.gw.(userMap := map[ip := 1], live := map[1 := second]);
    assert [1][1..] == [] && AddUsers(g', []) == g';
    hide AddUser, AddUsers;
    acts := Extend(z, [], z, Poll, z1);
    acts := Extend(z, acts, z1, Callback(AddUserQ), z2);
  }

  /**
   * From a start that meets every assumption: the report was sent for record 0, the removal it caused
   * frees record 1, and the address is still assigned to the user of record 1.
   */
  lemma {:induction false} RemovalFreesAnother(ip: IPv4, mac: Mac, other: Mac, staticMac: Mac, timeout: nat, now: nat)
    returns (before: seq<Action>, acts: seq<Action>)
    requires mac != other && timeout < now
    ensures var s := SmallStart(ip, StaticRow(staticMac, false), mac, {other}, timeout);
            && Started(s) && StoredInTable(s) && Unique(s.users)
            && acts == before + [Callback(DelUserQ)] && Runs(s, before) && Runs(s, acts) && NoDelStatic(acts)
            && Exec(s, before).sent == [UpdateTime(0, mac, ip, now)] && Exec(s, before).delUser == [ip]
            && Exec(s, before).gw.live == map[1 := UserInfo(ip, other, 0, timeout)]
            && Exec(s, before).gw.userMap == map[ip := 1]
            && Exec(s, acts).gw.live == map[] && Exec(s, acts).gw.userMap == map[]
            && SoleHolder(Exec(s, acts).users, other, ip)
  {
    hide Runs, Exec, NoDelStatic, Started, StoredInTable, Unique;
    var row := StaticRow(staticMac, false);
    var s := SmallStart(ip, row, mac, {other}, timeout);
    SmallStartIsStart(ip, row, mac, {other}, timeout);
    var first := SmallRound(ip, row, mac, {other}, timeout);
    var z := Exec(s, first);
    SmallUsers(ip, row, mac, other, timeout);
    hide SmallStart;
    var second := LateSteps(z, ip, mac, other, staticMac, now);
    RunsJoin(s, first, second);
    before := first + second;
    acts := LastRemoval(s, before, ip);
  }

  lemma SmallUsers(ip: IPv4, row: StaticRow, mac: Mac, other: Mac, timeout: nat)
    ensures var s := SmallStart(ip, row, mac, {other}, timeout);
            && s.table == map[ip := row] && s.users == map[other := UserRow(None, 0)] + map[mac := UserRow(Some(ip), 0)]
            && s.timeout == timeout && s.updates == [] && s.sent == [] && s.dhcp == [] && s.updateBatch == []
            && s.dhcpBatch == [] && s.duty.Idle? && s.delUser == [] && s.send == []
  {
  }

  /** The stretches together, from a state in which the first user has just been registered. */
  lemma {:induction false} LateSteps(z: Sys, ip: IPv4, mac: Mac, other: Mac, staticMac: Mac, now: nat) returns (acts: seq<Action>)
    requires mac != other && z.timeout < now && z.phase.Serving? && z.gw == OneUser(ip, mac, staticMac, z.timeout)
    requires z.table == map[ip := StaticRow(staticMac, false)]
    requires z.users == map[other := UserRow(None, 0)] + map[mac := UserRow(Some(ip), 0)]
    requires z.updates == [] && z.sent == [] && z.dhcp == [] && z.updateBatch == [] && z.dhcpBatch == []
    requires z.duty.Idle? && z.addUser == [] && z.delUser == [] && z.send == []
    ensures Runs(z, acts) && NoDelStatic(acts)
    ensures var z' := Exec(z, acts);
            && z'.phase.Draining? && DelUserQ in z'.phase.pending && z'.delUser == [ip]
            && z'.sent == [UpdateTime(0, mac, ip, now)] && z'.users == map[other := UserRow(Some(ip), 0)]
            && z'.gw.userMap == map[ip := 1] && z'.gw.live == map[1 := UserInfo(ip, other, 0, z.timeout)]
  {
    hide Runs, Exec, NoDelStatic, RequestOf;
    var a1 := PacketSteps(z, ip, mac, other, staticMac, now);
    var z1 := Exec(z, a1);
    var a2 := ReportSteps(z1, ip, mac, other, now);
    var z2 := Exec(z1, a2);
    RunsJoin(z, a1, a2);
    var a3 := AssignSteps(z2, ip, other, staticMac, now);
    var z3 := Exec(z2, a3);
    RunsJoin(z, a1 + a2, a3);
    var u, v := UserInfo(ip, mac, now, z.timeout), UserInfo(ip, other, 0, z.timeout);
    assert z3.gw == OneUser(ip, mac, staticMac, z.timeout).(live := map[0 := u, 1 := v], next := 2);
    hide OneUser;
    var a4 := RoundSteps(z3, ip, u, v);
    RunsJoin(z, a1 + a2 + a3, a4);
    acts := a1 + a2 + a3 + a4;
  }

  lemma {:induction false} LastRemoval(s: Sys, before: seq<Action>, ip: IPv4) returns (acts: seq<Action>)
    requires Runs(s, before) && NoDelStatic(before)
    requires var z := Exec(s, before);
             && z.phase.Draining? && DelUserQ in z.phase.pending && z.delUser == [ip]
             && z.gw.userMap == map[ip := 1] && z.gw.live.Keys == {1}
    ensures acts == before + [Callback(DelUserQ)] && Runs(s, acts) && NoDelStatic(acts)
    ensures Exec(s, acts).gw.live == map[] && Exec(s, acts).gw.userMap == map[]
    ensures Exec(s, acts).users == Exec(s, before).users
  {
    var z := Exec(s, before);
    var g' := DelUser(z.gw, ip);
    assert g'.live == map[] && g'.userMap == map[];
    assert [ip][1..] == [] && DelUsers(g', []) == g';
    acts := Extend(s, before, z, Callback(DelUserQ), Step(z, Callback(DelUserQ)));
  }
}
