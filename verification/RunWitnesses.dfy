/** Runs of the whole program on the failing side of the assumptions of the run theorems. */
module RunWitnesses {
  import opened Octets
  import opened Tables
  import opened Forwarding
  import opened Ownership
  import opened Frames
  import opened System
  import opened Safety
  import opened Witnesses
  import Udp

  // ---- building runs ----

  lemma {:induction false} RunsJoin(s: Sys, a: seq<Action>, b: seq<Action>)
    requires Runs(s, a) && Runs(Exec(s, a), b)
    ensures Runs(s, a + b) && Exec(s, a + b) == Exec(Exec(s, a), b)
    ensures NoDelStatic(a) && NoDelStatic(b) ==> NoDelStatic(a + b)
    decreases |a|
  {
    hide Step, Enabled;
    if a == [] {
      assert a + b == b;
    } else {
      RunsJoin(Step(s, a[0]), a[1..], b);
      assert (a + b)[1..] == a[1..] + b;
    }
  }

  /** A run from `s` to `z`, one step longer. */
  lemma {:induction false} Extend(s: Sys, acts: seq<Action>, z: Sys, a: Action, z': Sys) returns (more: seq<Action>)
    requires Runs(s, acts) && Exec(s, acts) == z && Enabled(z, a) && Step(z, a) == z'
    ensures more == acts + [a] && Runs(s, more) && Exec(s, more) == z'
    ensures NoDelStatic(acts) && !a.RequestDelStatic? ==> NoDelStatic(more)
  {
    hide Step, Enabled;
    more := acts + [a];
    assert [a][1..] == [] && Runs(z', []) && Runs(z, [a]) && Exec(z, [a]) == z';
    RunsJoin(s, acts, [a]);
  }

  /** The first event round after start-up drains both lists. */
  lemma {:induction false} FirstRound(s: Sys) returns (acts: seq<Action>)
    requires s.phase.Serving? && s.delStatic == [] && s.delUser == [] && s.send == [] && s.addUser != []
    ensures Runs(s, acts) && NoDelStatic(acts)
    ensures Exec(s, acts) == s.(gw := AddUsers(AddStatics(s.gw, s.addStatic), s.addUser), addStatic := [], addUser := [])
  {
    hide AddStatics, AddUsers, InsideStep, OutsideStep, Decides;
    var z1 := s.(phase := Draining(Ready(s)));
    var z2 := s.(gw := AddStatics(s.gw, s.addStatic), addStatic := [], phase := Draining({AddUserQ}));
    var z3 := z2.(gw := AddUsers(z2.gw, s.addUser), addUser := [], phase := Draining({}));
    acts := [];
    acts := Extend(s, acts, s, Poll, z1);
    if s.addStatic == [] {
      NothingAdded(s.gw);
      assert Ready(s) == {AddUserQ};
    } else {
      assert Ready(s) - {AddStaticQ} == {AddUserQ};
      acts := Extend(s, acts, z1, Callback(AddStaticQ), z2);
    }
    assert {AddUserQ} - {AddUserQ} == {};
    acts := Extend(s, acts, z2, Callback(AddUserQ), z3);
    acts := Extend(s, acts, z3, EndRound, z3.(phase := Serving));
  }

  lemma NothingAdded(g: Gw)
    ensures AddStatics(g, []) == g
  {
  }

  // ---- a `delStaticIP` ----

  /**
   * With a user registered and the queues empty, one `delStaticIP` and the next event round make that
   * user's own next frame undefined.
   */
  lemma {:induction false} DelStaticBreaksServing(s: Sys, f: seq<byte>, now: nat, junk: Junk) returns (acts: seq<Action>)
    requires Inv(s) && s.phase.Serving? && Ready(s) == {}
    requires |f| <= MAX_FRAME && (IsIp(f) || IsArp(f)) && !(IsIp(f) && UdpPorts(f, 68, 67))
    requires Registered(s.gw, SourceOf(f), EtherSource(f)) && DestinationOf(f) !in s.gw.staticIPMap
    ensures acts == [RequestDelStatic(SourceOf(f)), Poll, Callback(DelStaticQ), EndRound]
    ensures Runs(s, acts) && Exec(s, acts).phase.Serving? && Exec(s, acts).gw.ok
    ensures !InsideStep(Exec(s, acts).gw, f, now, junk).0.ok
  {
    CompleteIsRouted(f, junk);
    hide InsideStep, OutsideStep, UdpPorts, IsIp, IsArp, Routed, RoutedSource, RoutedDestination;
    acts := DelStaticRound(s, SourceOf(f));
    var g := DelStatic(s.gw, SourceOf(f));
    assert forall ip :: ip in g.userMap ==> g.userMap[ip] in g.live;
    InsideUndefinedExactly(g, f, now, junk);
  }

  lemma {:induction false} DelStaticRound(s: Sys, ip: IPv4) returns (acts: seq<Action>)
    requires s.phase.Serving? && Ready(s) == {}
    ensures acts == [RequestDelStatic(ip), Poll, Callback(DelStaticQ), EndRound]
    ensures Runs(s, acts) && Exec(s, acts) == s.(gw := DelStatic(s.gw, ip))
  {
    hide InsideStep, OutsideStep, Decides;
    var z1 := s.(delStatic := [ip]);
    var z2 := z1.(phase := Draining({DelStaticQ}));
    var z3 := z2.(gw := DelStatic(s.gw, ip), delStatic := [], phase := Draining({}));
    QuietQueues(s);
    assert s.delStatic + [ip] == [ip] && Ready(z1) == {DelStaticQ};
    assert [ip][1..] == [] && DelStatics(DelStatic(s.gw, ip), []) == DelStatic(s.gw, ip);
    assert {DelStaticQ} - {DelStaticQ} == {};
    hide DelStatics, DelStatic;
    acts := Extend(s, [], s, RequestDelStatic(ip), z1);
    acts := Extend(s, acts, z1, Poll, z2);
    acts := Extend(s, acts, z2, Callback(DelStaticQ), z3);
    acts := Extend(s, acts, z3, EndRound, z3.(phase := Serving));
  }

  lemma QuietQueues(s: Sys)
    requires Ready(s) == {}
    ensures s.addStatic == [] && s.addUser == [] && s.delUser == [] && s.send == [] && s.delStatic == []
  {
  }

  /** The tables hold one address, one user who has it, and possibly more users without one. */
  function SmallStart(ip: IPv4, row: StaticRow, mac: Mac, others: set<Mac>, timeout: nat): Sys {
    Boot(map[ip := row], (map m | m in others :: UserRow(None, 0)) + map[mac := UserRow(Some(ip), 0)], timeout,
         [(ip, row.mac)], [UserInfo(ip, mac, 0, timeout)])
  }

  lemma SmallStartIsStart(ip: IPv4, row: StaticRow, mac: Mac, others: set<Mac>, timeout: nat)
    ensures var s := SmallStart(ip, row, mac, others, timeout);
            && Started(s) && StoredInTable(s) && Unique(s.users)
            && s.phase.Serving? && s.addStatic == [(ip, row.mac)] && s.addUser == [0]
            && s.gw == Gw(map[], map[], map[0 := UserInfo(ip, mac, 0, timeout)], 1, true)
  {
    var s := SmallStart(ip, row, mac, others, timeout);
    assert forall m, j :: Holds(s.users, m, j) ==> m == mac && j == ip;
    assert StartedFrom(s, s.table, s.users, timeout, [(ip, row.mac)], [UserInfo(ip, mac, 0, timeout)]);
  }

  /** The first event round registers the user. */
  lemma {:induction false} SmallRound(ip: IPv4, row: StaticRow, mac: Mac, others: set<Mac>, timeout: nat) returns (acts: seq<Action>)
    ensures var s := SmallStart(ip, row, mac, others, timeout);
            && Runs(s, acts) && NoDelStatic(acts)
            && Exec(s, acts) == s.(gw := OneUser(ip, mac, row.mac, timeout), addStatic := [], addUser := [])
  {
    var s := SmallStart(ip, row, mac, others, timeout);
    SmallStartIsStart(ip, row, mac, others, timeout);
    assert s.delStatic == [] && s.delUser == [] && s.send == [];
    SmallDrain(s.gw, ip, mac, row.mac, timeout);
    hide SmallStart, AddStatics, AddUsers;
    acts := FirstRound(s);
  }

  lemma SmallDrain(g: Gw, ip: IPv4, mac: Mac, staticMac: Mac, timeout: nat)
    requires g == Gw(map[], map[], map[0 := UserInfo(ip, mac, 0, timeout)], 1, true)
    ensures AddUsers(AddStatics(g, [(ip, staticMac)]), [0]) == OneUser(ip, mac, staticMac, timeout)
  {
    var g1 := g.(staticIPMap := map[ip := staticMac]);
    assert map[] + map[ip := staticMac] == map[ip := staticMac];
    assert AddStatic(g, ip, staticMac) == g1 && [(ip, staticMac)][1..] == [] && AddStatics(g1, []) == g1;
    var g2 := OneUser(ip, mac, staticMac, timeout);
    assert AddUser(g1, 0) == g2 && [0][1..] == [] && AddUsers(g2, []) == g2;
  }

  /**
   * From a start that meets every assumption, two event rounds and one `delStaticIP` between them make
   * the next ordinary frame of a registered user undefined.
   */
  lemma {:induction false} DelStaticBreaksARealRun(ip: IPv4, peerIp: IPv4, mac: Mac, row: StaticRow, timeout: nat, now: nat, junk: Junk)
    returns (acts: seq<Action>)
    requires ip != peerIp
    ensures var s := SmallStart(ip, row, mac, {}, timeout);
            var f := Probe(Udp.Endpoints(mac, row.mac, ip, peerIp, 1000, 1000));
            && Started(s) && StoredInTable(s) && Unique(s.users)
            && Runs(s, acts) && Exec(s, acts).gw.ok && Exec(s, acts).phase.Serving?
            && !InsideStep(Exec(s, acts).gw, f, now, junk).0.ok
  {
    hide InsideStep, OutsideStep, Udp.UdpFrame, IpNext, EtherType, ArpWellFormed;
    var e := Udp.Endpoints(mac, row.mac, ip, peerIp, 1000, 1000);
    var s := SmallStart(ip, row, mac, {}, timeout);
    SmallStartIsStart(ip, row, mac, {}, timeout);
    var first := SmallRound(ip, row, mac, {}, timeout);
    ProbeFields(e);
    var z := Exec(s, first);
    assert z.gw == OneUser(ip, mac, row.mac, timeout) && z.gw.ok && Ready(z) == {} && z.phase.Serving?;
    assert Registered(z.gw, ip, mac) && peerIp !in z.gw.staticIPMap;
    hide Probe, Runs, Exec, Started, StoredInTable, Unique, SmallStart, Inv, OneUser, Ready, Registered, IsIp, IsArp;
    ReachableInv(s, first);
    var second := DelStaticBreaksServing(z, Probe(e), now, junk);
    RunsJoin(s, first, second);
    acts := first + second;
  }

  // ---- a stored address outside the table ----

  /**
   * The other assumption of the definedness theorem is needed from every start: if some stored address is
   * not in `static_ip`, the first event round leads to a state in which a frame is undefined.
   */
  lemma {:induction false} StoredOutsideTableBreaks(s: Sys) returns (acts: seq<Action>, f: seq<byte>)
    requires Started(s) && !StoredInTable(s)
    ensures Runs(s, acts) && NoDelStatic(acts) && Exec(s, acts).gw.ok && Exec(s, acts).phase.Serving?
    ensures forall now, junk :: !InsideStep(Exec(s, acts).gw, f, now, junk).0.ok
  {
    hide InsideStep, OutsideStep, Probe;
    var m, ip :| Holds(s.users, m, ip) && ip !in s.table;
    var p := StoredIsQueued(s, m, ip);
    acts := FirstRound(s);
    var z := Exec(s, acts);
    var mac := StaysOutside(s, z.gw, p);
    var e := Udp.Endpoints(mac, mac, ip, ip, 1000, 1000);
    f := Probe(e);
    ProbeFields(e);
    hide Registered, IsIp, IsArp, IpNext, ArpWellFormed, EtherType, AddUsers, AddStatics;
    forall now, junk ensures !InsideStep(z.gw, f, now, junk).0.ok {
      CompleteIsRouted(f, junk);
      InsideUndefinedExactly(z.gw, f, now, junk);
    }
  }

  /** Without `delStaticIP`, no run is undefined exactly when the stored addresses are in `static_ip`. */
  lemma NeverUndefinedExactly(s: Sys)
    requires Started(s)
    ensures StoredInTable(s) <==> forall acts :: Runs(s, acts) && NoDelStatic(acts) ==> Exec(s, acts).gw.ok
  {
    hide StoredInTable, Started, InsideStep;
    if StoredInTable(s) {
      forall acts | Runs(s, acts) && NoDelStatic(acts) ensures Exec(s, acts).gw.ok {
        StaysDefined(s, acts);
      }
    } else {
      var acts, f := StoredOutsideTableBreaks(s);
      var z := Exec(s, acts);
      var a := Inside(f, 0, Junk(NO_IP, NO_IP));
      var more := Extend(s, acts, z, a, Step(z, a));
      assert !Exec(s, more).gw.ok;
    }
  }

  lemma {:induction false} StoredIsQueued(s: Sys, m: Mac, ip: IPv4) returns (p: Ptr)
    requires Started(s) && Holds(s.users, m, ip)
    ensures p in s.addUser && p in s.gw.live && s.gw.live[p].ip == ip && s.addUser != []
    ensures Inv(s) && s.phase.Serving? && s.delStatic == [] && s.delUser == [] && s.send == []
  {
    var t: Statics, u: Users, timeout: nat, rows: seq<(IPv4, Mac)>, infos: seq<UserInfo> :| StartedFrom(s, t, u, timeout, rows, infos);
    BootInv(t, u, timeout, rows, infos);
    var info := UserInfo(ip, m, u[m].accessed, timeout);
    assert info in infos;
    p :| 0 <= p < |infos| && infos[p] == info;
    assert s.addUser[p] == p;
  }

  /** After the drain somebody is registered under the queued record's address, which has no static entry. */
  lemma {:induction false} StaysOutside(s: Sys, g: Gw, p: Ptr) returns (mac: Mac)
    requires Inv(s) && p in s.addUser && p in s.gw.live && s.gw.live[p].ip !in s.table
    requires g == AddUsers(AddStatics(s.gw, s.addStatic), s.addUser)
    ensures g.ok && (forall ip :: ip in g.userMap ==> g.userMap[ip] in g.live)
    ensures s.gw.live[p].ip !in g.staticIPMap && Registered(g, s.gw.live[p].ip, mac)
  {
    var g1 := AddStatics(s.gw, s.addStatic);
    AddStaticsResult(s.gw, s.addStatic, s.table);
    SameHeapOwned(s.gw, g1, s.addUser);
    AddUsersOwned(g1, s.addUser);
    AddUsersEntries(g1, s.addUser);
    mac := g.live[g.userMap[s.gw.live[p].ip]].mac;
  }
}
