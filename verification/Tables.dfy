/**
 * The two tables and the address allocator of database.cpp. Each prepared statement is a function
 * or predicate on maps; `mac` is taken as the key of `user` and `ip` as the key of `static_ip`.
 */
module Tables {
  import opened Octets

  datatype UserRow = UserRow(ip: Option<IPv4>, accessed: nat)
  datatype StaticRow = StaticRow(mac: Mac, isStatic: bool)

  type Users = map<Mac, UserRow>
  type Statics = map<IPv4, StaticRow>

  /** 1000 * DHCP_TIMEOUT milliseconds. */
  const LEASE: nat := 7_200_000

  predicate Holds(u: Users, m: Mac, ip: IPv4) {
    m in u && u[m].ip == Some(ip)
  }

  predicate Dynamic(t: Statics, ip: IPv4) {
    ip in t && !t[ip].isStatic
  }

  function Pool(t: Statics): set<IPv4> {
    set ip | ip in t && Dynamic(t, ip)
  }

  /** `selectUnusedDynamicIP`. */
  function Unused(t: Statics, u: Users): set<IPv4> {
    set ip | ip in t && Dynamic(t, ip) && forall m :: m in u ==> !Holds(u, m, ip)
  }

  /** The owners behind the rows of `selectUsingDynamicIP`. */
  function Expired(t: Statics, u: Users, cutoff: nat): set<Mac> {
    set m | m in u && u[m].ip.Some? && Dynamic(t, u[m].ip.value) && u[m].accessed < cutoff
  }

  /** The unsigned 64-bit subtraction `current_time -= 1000 * DHCP_TIMEOUT`. */
  function Cutoff(now: nat): (c: nat)
    ensures LEASE <= now < TWO64 ==> c == now - LEASE
  {
    (now - LEASE) % TWO64
  }

  /** `ORDER BY accessed ASC`: no expired owner was seen earlier. */
  predicate LeastRecent(t: Statics, u: Users, cutoff: nat, m: Mac) {
    m in Expired(t, u, cutoff) && forall o :: o in Expired(t, u, cutoff) ==> u[m].accessed <= u[o].accessed
  }

  /** What one request decides. The order in which the server returns equal rows is left open. */
  datatype Decision = Unknown | Keep(ip: IPv4) | Take(ip: IPv4) | Reclaim(owner: Mac, ip: IPv4) | Refuse

  /** The branches of `create_dhcp` for a request of `mac` at clock reading `now`. */
  ghost predicate Decides(t: Statics, u: Users, mac: Mac, now: nat, d: Decision) {
    if mac !in u then d == Unknown
    else if u[mac].ip.Some? then d == Keep(u[mac].ip.value)
    else if Unused(t, u) != {} then d.Take? && d.ip in Unused(t, u)
    else if Expired(t, u, Cutoff(now)) != {} then
      d.Reclaim? && LeastRecent(t, u, Cutoff(now), d.owner) && u[d.owner].ip == Some(d.ip)
    else d == Refuse
  }

  /** `deleteDynamic`: clears every row that holds the address. */
  function ClearAddress(u: Users, ip: IPv4): Users {
    map m | m in u :: if u[m].ip == Some(ip) then u[m].(ip := None) else u[m]
  }

  /** `insertDynamic`; no row, no effect. */
  function SetAddress(u: Users, m: Mac, ip: IPv4): Users {
    if m in u then u[m := u[m].(ip := Some(ip))] else u
  }

  function Settle(u: Users, mac: Mac, d: Decision): Users {
    match d
    case Unknown => u
    case Refuse => u
    case Keep(ip) => SetAddress(u, mac, ip)
    case Take(ip) => SetAddress(u, mac, ip)
    case Reclaim(_, ip) => SetAddress(ClearAddress(u, ip), mac, ip)
  }

  /** A response goes out when an address was found and `selectMACwithIP` has a row for it. */
  function Response(t: Statics, d: Decision): Option<IPv4> {
    if (d.Keep? || d.Take? || d.Reclaim?) && d.ip in t then Some(d.ip) else None
  }

  ghost predicate Unique(u: Users) {
    forall m, n, ip :: Holds(u, m, ip) && Holds(u, n, ip) ==> m == n
  }

  ghost predicate SoleHolder(u: Users, m: Mac, ip: IPv4) {
    Holds(u, m, ip) && forall n :: Holds(u, n, ip) ==> n == m
  }

  function Assigned(u: Users): set<IPv4> {
    set m | m in u && u[m].ip.Some? :: u[m].ip.value
  }

  lemma AssignedHolds(u: Users, ip: IPv4)
    ensures ip in Assigned(u) <==> exists m :: Holds(u, m, ip)
  {
    if m :| Holds(u, m, ip) {
      assert m in u && u[m].ip.Some? && u[m].ip.value == ip;
    }
    if ip in Assigned(u) {
      var m :| m in u && u[m].ip.Some? && u[m].ip.value == ip;
      assert Holds(u, m, ip);
    }
  }

  /**
   * Who holds what after one request, from the holders before it: the requester gets the decided
   * address, a reclaimed address leaves its previous owner, and nothing else moves.
   */
  lemma SettleHolds(t: Statics, u: Users, mac: Mac, now: nat, d: Decision)
    requires Decides(t, u, mac, now, d)
    ensures Settle(u, mac, d).Keys == u.Keys
    ensures forall m :: m in u ==> Settle(u, mac, d)[m].accessed == u[m].accessed
    ensures forall m, ip :: Holds(Settle(u, mac, d), m, ip) <==>
                            || ((d.Keep? || d.Take? || d.Reclaim?) && m == mac && ip == d.ip)
                            || (Holds(u, m, ip) && !(d.Reclaim? && ip == d.ip))
  {
  }

  lemma StepKeepsUnique(t: Statics, u: Users, mac: Mac, now: nat, d: Decision)
    requires Decides(t, u, mac, now, d) && Unique(u)
    ensures Unique(Settle(u, mac, d))
    ensures Response(t, d).Some? ==> SoleHolder(Settle(u, mac, d), mac, d.ip)
  {
    var after := Settle(u, mac, d);
    SettleHolds(t, u, mac, now, d);
    if d.Keep? || d.Take? || d.Reclaim? {
      forall m | Holds(after, m, d.ip) ensures m == mac {
        assert d.Keep? ==> Holds(u, mac, d.ip);
        assert d.Take? ==> !Holds(u, m, d.ip);
      }
    }
  }

  /** An owner loses an address only to a reclaim that met every one of the source's conditions. */
  lemma LossIsReclaim(t: Statics, u: Users, mac: Mac, now: nat, d: Decision, owner: Mac, ip: IPv4)
    requires Decides(t, u, mac, now, d) && Unique(u)
    requires Holds(u, owner, ip)
    ensures !Holds(Settle(u, mac, d), owner, ip) <==> d == Reclaim(owner, ip)
    ensures d == Reclaim(owner, ip) ==>
              && Dynamic(t, ip) && Unused(t, u) == {} && u[owner].accessed < Cutoff(now)
              && (forall o :: o in Expired(t, u, Cutoff(now)) ==> u[owner].accessed <= u[o].accessed)
              && u[mac].ip == None && owner != mac
  {
    SettleHolds(t, u, mac, now, d);
    if d.Reclaim? && d.ip == ip {
      assert Holds(u, d.owner, ip);
    }
  }

  /**
   * The reclaimed owner really was idle for a whole lease exactly when the clock has reached one: below
   * that the unsigned subtraction wraps and everyone counts as expired.
   */
  lemma LeaseRespectedExactly(t: Statics, u: Users, mac: Mac, now: nat, d: Decision)
    requires Decides(t, u, mac, now, d) && d.Reclaim? && now < TWO64
    ensures u[d.owner].accessed + LEASE < now <==> now >= LEASE
  {
  }

  lemma {:induction false} LeastExists(t: Statics, u: Users, cutoff: nat, s: set<Mac>) returns (m: Mac)
    requires s != {} && s <= Expired(t, u, cutoff)
    ensures m in s && forall o :: o in s ==> u[m].accessed <= u[o].accessed
    decreases s
  {
    m :| m in s;
    if s == {m} {
    } else {
      assert s - {m} != {};
      var n := LeastExists(t, u, cutoff, s - {m});
      if u[n].accessed < u[m].accessed {
        m := n;
      }
    }
  }

  /** Every request has a decision: the branches are exhaustive. */
  lemma {:induction false} SomeDecision(t: Statics, u: Users, mac: Mac, now: nat) returns (d: Decision)
    ensures Decides(t, u, mac, now, d)
  {
    if mac !in u {
      d := Unknown;
    } else if u[mac].ip.Some? {
      d := Keep(u[mac].ip.value);
    } else if Unused(t, u) != {} {
      var ip :| ip in Unused(t, u);
      d := Take(ip);
    } else if Expired(t, u, Cutoff(now)) != {} {
      var m := LeastExists(t, u, Cutoff(now), Expired(t, u, Cutoff(now)));
      d := Reclaim(m, u[m].ip.value);
    } else {
      d := Refuse;
    }
  }

  /** Nobody's row has this address. */
  predicate Free(u: Users, ip: IPv4) {
    forall m :: m in u ==> u[m].ip != Some(ip)
  }

  /** The rows of the query for reclaimable addresses: owner and dynamic address, last seen before the cutoff. */
  predicate Reclaimable(t: Statics, u: Users, now: nat, m: Mac, ip: IPv4) {
    && m in u && u[m].ip == Some(ip) && ip in t && !t[ip].isStatic
    && u[m].accessed < (now - 7_200_000) % 0x1_0000_0000_0000_0000
  }

  /**
   * Each decision in terms of the rows alone. An unknown user is ignored and an owner keeps what it has; to
   * one without an address goes a dynamic address that nobody holds, failing that one reclaimed from the
   * least recently seen of the expired owners, failing that none.
   */
  lemma DecidesExactly(t: Statics, u: Users, mac: Mac, now: nat, owner: Mac, ip: IPv4)
    ensures Decides(t, u, mac, now, Unknown) <==> mac !in u
    ensures Decides(t, u, mac, now, Keep(ip)) <==> mac in u && u[mac].ip == Some(ip)
    ensures Decides(t, u, mac, now, Take(ip)) <==>
              mac in u && u[mac].ip == None && ip in t && !t[ip].isStatic && Free(u, ip)
    ensures Decides(t, u, mac, now, Reclaim(owner, ip)) <==>
              && mac in u && u[mac].ip == None
              && (forall j :: j in t && !t[j].isStatic ==> !Free(u, j))
              && Reclaimable(t, u, now, owner, ip)
              && (forall o, j :: Reclaimable(t, u, now, o, j) ==> u[owner].accessed <= u[o].accessed)
    ensures Decides(t, u, mac, now, Refuse) <==>
              && mac in u && u[mac].ip == None
              && (forall j :: j in t && !t[j].isStatic ==> !Free(u, j))
              && (forall o, j :: !Reclaimable(t, u, now, o, j))
  {
    hide LeastRecent;
    UnusedExactly(t, u);
    ExpiredExactly(t, u, now);
    LeastExactly(t, u, now, owner);
  }

  lemma UnusedExactly(t: Statics, u: Users)
    ensures forall ip :: ip in Unused(t, u) <==> ip in t && !t[ip].isStatic && Free(u, ip)
    ensures Unused(t, u) == {} <==> forall j :: j in t && !t[j].isStatic ==> !Free(u, j)
  {
    forall ip ensures ip in Unused(t, u) <==> ip in t && !t[ip].isStatic && Free(u, ip) {
      if ip in t && !t[ip].isStatic && ip !in Unused(t, u) {
        var m :| m in u && Holds(u, m, ip);
        assert !Free(u, ip);
      }
    }
  }

  lemma ExpiredExactly(t: Statics, u: Users, now: nat)
    ensures forall o :: o in Expired(t, u, Cutoff(now)) <==> o in u && u[o].ip.Some? && Reclaimable(t, u, now, o, u[o].ip.value)
    ensures Expired(t, u, Cutoff(now)) == {} <==> forall o, j :: !Reclaimable(t, u, now, o, j)
  {
    assert forall o, j :: Reclaimable(t, u, now, o, j) ==> o in Expired(t, u, Cutoff(now));
  }

  lemma LeastExactly(t: Statics, u: Users, now: nat, owner: Mac)
    ensures LeastRecent(t, u, Cutoff(now), owner) <==>
              && owner in u && u[owner].ip.Some? && Reclaimable(t, u, now, owner, u[owner].ip.value)
              && forall o, j :: Reclaimable(t, u, now, o, j) ==> u[owner].accessed <= u[o].accessed
  {
    ExpiredExactly(t, u, now);
  }

  /** Whoever holds an address after a request that it did not hold before is the requester, and the address is dynamic. */
  lemma GainedIsDynamic(t: Statics, u: Users, mac: Mac, now: nat, d: Decision, m: Mac, ip: IPv4)
    requires Decides(t, u, mac, now, d) && Holds(Settle(u, mac, d), m, ip) && !Holds(u, m, ip)
    ensures m == mac && ip in t && !t[ip].isStatic
  {
    SettleHolds(t, u, mac, now, d);
  }

  /** A response names the address the requester ends up with, and goes out whenever that address is in `static_ip`. */
  lemma ResponseExactly(t: Statics, u: Users, mac: Mac, now: nat, d: Decision, ip: IPv4)
    requires Decides(t, u, mac, now, d)
    ensures Response(t, d) == Some(ip) <==> Holds(Settle(u, mac, d), mac, ip) && ip in t
  {
    SettleHolds(t, u, mac, now, d);
  }

  /** The users seen within the lease that hold an address. */
  function Fresh(u: Users, cutoff: nat): set<Mac> {
    set m | m in u && u[m].ip.Some? && u[m].accessed >= cutoff
  }

  /**
   * A known requester is refused exactly when it holds nothing and every pool address has an owner
   * and no pool owner has expired; then at least as many distinct fresh users hold addresses as the
   * pool has addresses.
   */
  lemma RefusedExactlyWhenFull(t: Statics, u: Users, mac: Mac, now: nat)
    requires mac in u
    ensures Decides(t, u, mac, now, Refuse) <==>
              && u[mac].ip == None
              && (forall ip :: ip in Pool(t) ==> exists m :: Holds(u, m, ip))
              && (forall m, ip :: Holds(u, m, ip) && ip in Pool(t) ==> u[m].accessed >= Cutoff(now))
    ensures Decides(t, u, mac, now, Refuse) ==> |Fresh(u, Cutoff(now))| >= |Pool(t)|
  {
    var cutoff := Cutoff(now);
    if Unused(t, u) == {} {
      forall ip | ip in Pool(t) ensures exists m :: Holds(u, m, ip) {
        assert ip !in Unused(t, u);
      }
    } else {
      var ip :| ip in Unused(t, u);
      assert ip in Pool(t) && !exists m :: Holds(u, m, ip);
    }
    if Expired(t, u, cutoff) == {} {
      forall m, ip | Holds(u, m, ip) && ip in Pool(t) ensures u[m].accessed >= cutoff {
        assert m !in Expired(t, u, cutoff);
      }
    } else {
      var m :| m in Expired(t, u, cutoff);
      assert Holds(u, m, u[m].ip.value);
    }
    if Decides(t, u, mac, now, Refuse) {
      Pigeonhole(u, Pool(t), Fresh(u, Cutoff(now)));
    }
  }

  lemma {:induction false} Pigeonhole(u: Users, ips: set<IPv4>, owners: set<Mac>)
    requires forall ip :: ip in ips ==> exists m :: m in owners && Holds(u, m, ip)
    ensures |ips| <= |owners|
    decreases ips
  {
    if ips == {} {
    } else {
      var ip :| ip in ips;
      var m :| m in owners && Holds(u, m, ip);
      forall j | j in ips - {ip} ensures exists n :: n in owners - {m} && Holds(u, n, j) {
        var n :| n in owners && Holds(u, n, j);
        assert n in owners - {m};
      }
      Pigeonhole(u, ips - {ip}, owners - {m});
    }
  }

  /** A run of requests: `us[i]` is the table before request `i`, `ds[i]` what it decided. */
  datatype Request = Request(mac: Mac, now: nat)

  ghost predicate IsRun(t: Statics, us: seq<Users>, rs: seq<Request>, ds: seq<Decision>) {
    && |us| == |rs| + 1 && |ds| == |rs|
    && forall i :: 0 <= i < |rs| ==>
         Decides(t, us[i], rs[i].mac, rs[i].now, ds[i]) && us[i + 1] == Settle(us[i], rs[i].mac, ds[i])
  }

  /** No run makes two users share an address, and each response names its only holder. */
  lemma {:induction false} RunKeepsUnique(t: Statics, us: seq<Users>, rs: seq<Request>, ds: seq<Decision>, i: nat)
    requires IsRun(t, us, rs, ds) && Unique(us[0]) && i < |us|
    ensures Unique(us[i])
    ensures i > 0 && Response(t, ds[i - 1]).Some? ==> SoleHolder(us[i], rs[i - 1].mac, ds[i - 1].ip)
  {
    if i == 0 {
    } else {
      RunKeepsUnique(t, us, rs, ds, i - 1);
      StepKeepsUnique(t, us[i - 1], rs[i - 1].mac, rs[i - 1].now, ds[i - 1]);
    }
  }

  /** Over any run an address leaves its owner only by a reclaim that met all the conditions. */
  lemma RunLossIsReclaim(t: Statics, us: seq<Users>, rs: seq<Request>, ds: seq<Decision>, i: nat, owner: Mac, ip: IPv4)
    requires IsRun(t, us, rs, ds) && Unique(us[0]) && i < |rs|
    requires Holds(us[i], owner, ip) && !Holds(us[i + 1], owner, ip)
    ensures ds[i] == Reclaim(owner, ip) && SoleHolder(us[i + 1], rs[i].mac, ip)
    ensures Dynamic(t, ip) && Unused(t, us[i]) == {} && LeastRecent(t, us[i], Cutoff(rs[i].now), owner)
  {
    RunKeepsUnique(t, us, rs, ds, i);
    RunKeepsUnique(t, us, rs, ds, i + 1);
    LossIsReclaim(t, us[i], rs[i].mac, rs[i].now, ds[i], owner, ip);
  }

  lemma StepGrowsAssigned(t: Statics, u: Users, mac: Mac, now: nat, d: Decision)
    requires Decides(t, u, mac, now, d)
    ensures Assigned(u) <= Assigned(Settle(u, mac, d))
    ensures |Assigned(Settle(u, mac, d))| <= |Assigned(u)| + 1
  {
    var after := Settle(u, mac, d);
    SettleHolds(t, u, mac, now, d);
    forall ip ensures ip in Assigned(after) <==> ip in Assigned(u) || ((d.Keep? || d.Take? || d.Reclaim?) && ip == d.ip) {
      AssignedHolds(u, ip);
      AssignedHolds(after, ip);
    }
    if d.Keep? || d.Take? || d.Reclaim? {
      assert Assigned(after) == Assigned(u) + {d.ip};
    } else {
      assert Assigned(after) == Assigned(u);
    }
  }

  /** The set of assigned addresses never shrinks and gains at most one per request. */
  lemma {:induction false} RunGrowsAssigned(t: Statics, us: seq<Users>, rs: seq<Request>, ds: seq<Decision>, i: nat, j: nat)
    requires IsRun(t, us, rs, ds) && i <= j < |us|
    ensures Assigned(us[i]) <= Assigned(us[j]) && |Assigned(us[j])| <= |Assigned(us[i])| + (j - i)
  {
    if i == j {
    } else {
      RunGrowsAssigned(t, us, rs, ds, i, j - 1);
      StepGrowsAssigned(t, us[j - 1], rs[j - 1].mac, rs[j - 1].now, ds[j - 1]);
    }
  }

  /** An address held at `i` is still held at `j` if no step between reclaimed it from its owner. */
  lemma {:induction false} HeldUntilReclaimed(t: Statics, us: seq<Users>, rs: seq<Request>, ds: seq<Decision>,
                                              owner: Mac, ip: IPv4, i: nat, j: nat)
    requires IsRun(t, us, rs, ds) && Unique(us[0]) && i <= j < |us|
    requires Holds(us[i], owner, ip)
    requires forall k :: i <= k < j ==> ds[k] != Reclaim(owner, ip)
    ensures Holds(us[j], owner, ip)
  {
    if i == j {
    } else {
      HeldUntilReclaimed(t, us, rs, ds, owner, ip, i, j - 1);
      RunKeepsUnique(t, us, rs, ds, j - 1);
      LossIsReclaim(t, us[j - 1], rs[j - 1].mac, rs[j - 1].now, ds[j - 1], owner, ip);
    }
  }

  /** Two requests of one user get the same address unless a step between them reclaimed the first. */
  lemma SameAddressUnlessReclaimed(t: Statics, us: seq<Users>, rs: seq<Request>, ds: seq<Decision>, i: nat, j: nat)
    requires IsRun(t, us, rs, ds) && Unique(us[0]) && i < j < |rs|
    requires rs[i].mac == rs[j].mac && Response(t, ds[i]).Some?
    ensures Response(t, ds[j]) == Response(t, ds[i])
         || exists k :: i < k < j && ds[k] == Reclaim(rs[i].mac, ds[i].ip)
  {
    if forall k :: i < k < j ==> ds[k] != Reclaim(rs[i].mac, ds[i].ip) {
      RunKeepsUnique(t, us, rs, ds, i + 1);
      HeldUntilReclaimed(t, us, rs, ds, rs[i].mac, ds[i].ip, i + 1, j);
    }
  }
}
