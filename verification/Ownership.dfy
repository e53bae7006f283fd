/** Who holds each user record: the add queue, `userMap`, or nobody any more (freed). */
module Ownership {
  import opened Octets
  import opened Forwarding

  predicate Distinct(q: seq<Ptr>) {
    forall i, j :: 0 <= i < j < |q| ==> q[i] != q[j]
  }

  predicate Mapped(g: Gw, p: Ptr) {
    p in g.live && g.live[p].ip in g.userMap && g.userMap[g.live[p].ip] == p
  }

  /**
   * Every live record is in the add queue once or in the map under its own address, never both;
   * what the queue and the map point to is live; and `malloc` has not handed out what is to come.
   */
  predicate Owned(g: Gw, q: seq<Ptr>) {
    && g.ok
    && Distinct(q)
    && (forall p :: p in q ==> p in g.live && !Mapped(g, p))
    && (forall p :: p in g.live ==> p < g.next && (p in q || Mapped(g, p)))
    && (forall ip :: ip in g.userMap ==> g.userMap[ip] in g.live && g.live[g.userMap[ip]].ip == ip)
  }

  lemma NothingOwned()
    ensures Owned(Gw(map[], map[], map[], 0, true), [])
  {
  }

  /** No record is created or changed, and the static map is left alone. */
  predicate Frees(g: Gw, g': Gw) {
    && g'.next == g.next && g'.staticIPMap == g.staticIPMap
    && forall p :: p in g'.live ==> p in g.live && g'.live[p] == g.live[p]
  }

  lemma RemoveUserOwned(g: Gw, ip: IPv4, q: seq<Ptr>)
    requires Owned(g, q) && ip in g.userMap
    ensures Owned(RemoveUser(g, ip), q) && Frees(g, RemoveUser(g, ip))
  {
  }

  lemma AddUserOwned(g: Gw, q: seq<Ptr>)
    requires q != [] && Owned(g, q)
    ensures Owned(AddUser(g, q[0]), q[1..]) && Frees(g, AddUser(g, q[0]))
  {
    var p := q[0];
    assert p in q;
    var ip := g.live[p].ip;
    if ip in g.userMap {
      RemoveUserOwned(g, ip, q);
    }
    var c := if ip in g.userMap then RemoveUser(g, ip) else g;
    assert Owned(c, q) && ip !in c.userMap;
    var g' := AddUser(g, p);
    assert g' == c.(userMap := c.userMap[ip := p]);
    assert forall r :: r in q[1..] ==> r in q && r != p;
    forall r | r in g'.live ensures Mapped(g', r) <==> Mapped(c, r) || r == p {
    }
    forall r | r in g'.live ensures r < g'.next && (r in q[1..] || Mapped(g', r)) {
      if r in q && r != p {
        var k :| 0 <= k < |q| && q[k] == r;
        assert q[1..][k - 1] == r;
      }
    }
  }

  lemma {:induction false} AddUsersOwned(g: Gw, q: seq<Ptr>)
    requires Owned(g, q)
    ensures Owned(AddUsers(g, q), []) && Frees(g, AddUsers(g, q))
    decreases |q|
  {
    if q == [] {
    } else {
      AddUserOwned(g, q);
      AddUsersOwned(AddUser(g, q[0]), q[1..]);
    }
  }

  lemma {:induction false} DelUsersOwned(g: Gw, ips: seq<IPv4>, q: seq<Ptr>)
    requires Owned(g, q)
    ensures Owned(DelUsers(g, ips), q) && Frees(g, DelUsers(g, ips))
    ensures DelUsers(g, ips).userMap.Keys <= g.userMap.Keys
    decreases |ips|
  {
    if ips == [] {
    } else {
      if ips[0] in g.userMap {
        RemoveUserOwned(g, ips[0], q);
      }
      DelUsersOwned(DelUser(g, ips[0]), ips[1..], q);
    }
  }

  /**
   * A removal names only an address. It frees the record that stands there, so it frees the one a report
   * `u` was sent for exactly when that record still stands under the reported address.
   */
  lemma RemovalFreesExactly(g: Gw, q: seq<Ptr>, u: UpdateTime)
    requires Owned(g, q) && u.record in g.live
    ensures u.record !in DelUser(g, u.ip).live <==> u.ip in g.userMap && g.userMap[u.ip] == u.record
    ensures u.ip in g.userMap ==> DelUser(g, u.ip).live == g.live - {g.userMap[u.ip]}
  {
  }

  /** After a drain the map has an entry for every queued record's address. */
  lemma {:induction false} AddUsersEntries(g: Gw, q: seq<Ptr>)
    requires Owned(g, q)
    ensures g.userMap.Keys <= AddUsers(g, q).userMap.Keys
    ensures forall p :: p in q ==> g.live[p].ip in AddUsers(g, q).userMap
    decreases |q|
  {
    if q == [] {
    } else {
      var g' := AddUser(g, q[0]);
      AddUserOwned(g, q);
      AddUsersEntries(g', q[1..]);
      assert q[0] in q && g'.userMap.Keys == g.userMap.Keys + {g.live[q[0]].ip};
      forall p | p in q ensures g.live[p].ip in AddUsers(g, q).userMap {
        if p != q[0] {
          assert p in q[1..] && g'.live[p] == g.live[p];
        } else {
          assert g.live[p].ip in g'.userMap.Keys;
        }
      }
    }
  }

  // ---- what the drains leave, item by item ----

  /** No later item of the queue is for the same address. */
  predicate LastRow(rows: seq<(IPv4, Mac)>, i: int) {
    0 <= i < |rows| && forall j :: i < j < |rows| ==> rows[j].0 != rows[i].0
  }

  predicate Unlisted(rows: seq<(IPv4, Mac)>, ip: IPv4) {
    forall i :: 0 <= i < |rows| ==> rows[i].0 != ip
  }

  /** After the drain each queued address has the MAC queued last for it, and nothing else has changed. */
  lemma AddStaticsExactly(g: Gw, rows: seq<(IPv4, Mac)>)
    ensures var g' := AddStatics(g, rows);
            && g' == g.(staticIPMap := g'.staticIPMap)
            && (forall i :: LastRow(rows, i) ==> rows[i].0 in g'.staticIPMap && g'.staticIPMap[rows[i].0] == rows[i].1)
            && (forall ip :: Unlisted(rows, ip) ==>
                  && (ip in g'.staticIPMap <==> ip in g.staticIPMap)
                  && (ip in g.staticIPMap ==> g'.staticIPMap[ip] == g.staticIPMap[ip]))
  {
    hide AddStatics, Unlisted;
    StaticsOnly(g, rows);
    forall i | LastRow(rows, i)
      ensures rows[i].0 in AddStatics(g, rows).staticIPMap && AddStatics(g, rows).staticIPMap[rows[i].0] == rows[i].1
    {
      LastRowStays(g, rows, i);
    }
    forall ip | Unlisted(rows, ip)
      ensures ip in AddStatics(g, rows).staticIPMap <==> ip in g.staticIPMap
      ensures ip in g.staticIPMap ==> AddStatics(g, rows).staticIPMap[ip] == g.staticIPMap[ip]
    {
      UnlistedStays(g, rows, ip);
    }
  }

  lemma {:induction false} StaticsOnly(g: Gw, rows: seq<(IPv4, Mac)>)
    ensures AddStatics(g, rows) == g.(staticIPMap := AddStatics(g, rows).staticIPMap)
    decreases |rows|
  {
    if rows == [] {
    } else {
      StaticsOnly(AddStatic(g, rows[0].0, rows[0].1), rows[1..]);
    }
  }

  lemma {:induction false} UnlistedStays(g: Gw, rows: seq<(IPv4, Mac)>, ip: IPv4)
    requires Unlisted(rows, ip)
    ensures ip in AddStatics(g, rows).staticIPMap <==> ip in g.staticIPMap
    ensures ip in g.staticIPMap ==> AddStatics(g, rows).staticIPMap[ip] == g.staticIPMap[ip]
    decreases |rows|
  {
    if rows == [] {
    } else {
      UnlistedStays(AddStatic(g, rows[0].0, rows[0].1), rows[1..], ip);
    }
  }

  lemma {:induction false} LastRowStays(g: Gw, rows: seq<(IPv4, Mac)>, i: nat)
    requires LastRow(rows, i)
    ensures rows[i].0 in AddStatics(g, rows).staticIPMap && AddStatics(g, rows).staticIPMap[rows[i].0] == rows[i].1
    decreases |rows|
  {
    var g1 := AddStatic(g, rows[0].0, rows[0].1);
    if i > 0 {
      LastRowStays(g1, rows[1..], i - 1);
    } else {
      UnlistedStays(g1, rows[1..], rows[0].0);
    }
  }

  /** No later record of the queue has the same address. */
  predicate LastRecord(g: Gw, q: seq<Ptr>, i: int)
    requires forall p :: p in q ==> p in g.live
  {
    0 <= i < |q| && forall j :: i < j < |q| ==> g.live[q[j]].ip != g.live[q[i]].ip
  }

  predicate Unqueued(g: Gw, q: seq<Ptr>, ip: IPv4)
    requires forall p :: p in q ==> p in g.live
  {
    forall j :: 0 <= j < |q| ==> g.live[q[j]].ip != ip
  }

  /** After the drain each queued address maps to the record queued last for it, the others as before. */
  lemma {:induction false} AddUsersExactly(g: Gw, q: seq<Ptr>)
    requires Owned(g, q)
    ensures var g' := AddUsers(g, q);
            && (forall i :: LastRecord(g, q, i) ==> g.live[q[i]].ip in g'.userMap && g'.userMap[g.live[q[i]].ip] == q[i])
            && (forall ip :: Unqueued(g, q, ip) ==>
                  && (ip in g'.userMap <==> ip in g.userMap)
                  && (ip in g.userMap ==> g'.userMap[ip] == g.userMap[ip]))
    decreases |q|
  {
    if q == [] {
    } else {
      var rest := q[1..];
      var g1, g' := AddUser(g, q[0]), AddUsers(g, q);
      assert g' == AddUsers(g1, rest);
      AddUserOwned(g, q);
      AddUserMap(g, q);
      hide Owned, AddUser, AddUsers;
      AddUsersExactly(g1, rest);
      forall i | LastRecord(g, q, i) ensures g.live[q[i]].ip in g'.userMap && g'.userMap[g.live[q[i]].ip] == q[i] {
        if i > 0 {
          assert LastRecord(g1, rest, i - 1);
        } else {
          assert Unqueued(g1, rest, g.live[q[0]].ip);
        }
      }
      forall ip | Unqueued(g, q, ip)
        ensures (ip in g'.userMap <==> ip in g.userMap) && (ip in g.userMap ==> g'.userMap[ip] == g.userMap[ip])
      {
        assert Unqueued(g1, rest, ip);
      }
    }
  }

  lemma AddUserMap(g: Gw, q: seq<Ptr>)
    requires Owned(g, q) && q != []
    ensures forall p :: p in q ==> p in g.live
    ensures var g1 := AddUser(g, q[0]);
            && g1.userMap == g.userMap[g.live[q[0]].ip := q[0]]
            && (forall p :: p in q[1..] ==> p in g1.live)
            && (forall j :: 0 <= j < |q[1..]| ==> q[1..][j] == q[j + 1] && g1.live[q[1..][j]] == g.live[q[j + 1]])
  {
    AddUserOwned(g, q);
    assert q[0] in q && forall p :: p in q[1..] ==> p in q;
    assert forall j :: 0 <= j < |q[1..]| ==> q[1..][j] in q[1..];
  }

  function Addresses(ips: seq<IPv4>): set<IPv4> {
    set ip | ip in ips
  }

  /** The records that stand under these addresses. */
  function Standing(m: map<IPv4, Ptr>, ips: seq<IPv4>): set<Ptr> {
    set ip | ip in ips && ip in m :: m[ip]
  }

  lemma {:induction false} DelStaticsExactly(g: Gw, ips: seq<IPv4>)
    ensures DelStatics(g, ips) == g.(staticIPMap := g.staticIPMap - Addresses(ips))
    decreases |ips|
  {
    if ips == [] {
      assert g.staticIPMap - Addresses(ips) == g.staticIPMap;
    } else {
      DelStaticsExactly(DelStatic(g, ips[0]), ips[1..]);
      AddressesSplit(ips);
      assert g.staticIPMap - {ips[0]} - Addresses(ips[1..]) == g.staticIPMap - Addresses(ips);
    }
  }

  lemma AddressesSplit(ips: seq<IPv4>)
    requires ips != []
    ensures Addresses(ips) == {ips[0]} + Addresses(ips[1..])
  {
    assert ips == [ips[0]] + ips[1..];
  }

  /** The removals take exactly the queued addresses out of the map, and free exactly their records. */
  lemma {:induction false} DelUsersExactly(g: Gw, ips: seq<IPv4>, q: seq<Ptr>)
    requires Owned(g, q)
    ensures var g' := DelUsers(g, ips);
            && g'.userMap == g.userMap - Addresses(ips)
            && g'.live == g.live - Standing(g.userMap, ips)
    decreases |ips|
  {
    if ips == [] {
      assert g.userMap - Addresses(ips) == g.userMap && g.live - Standing(g.userMap, ips) == g.live;
    } else {
      var g1 := DelUser(g, ips[0]);
      assert DelUsers(g, ips) == DelUsers(g1, ips[1..]);
      DelUserMap(g, ips[0], q);
      hide DelUsers;
      DelUsersExactly(g1, ips[1..], q);
      AddressesSplit(ips);
      StandingSplit(g.userMap, ips);
      hide Owned, DelUser, Addresses, Standing;
      assert g.userMap - {ips[0]} - Addresses(ips[1..]) == g.userMap - Addresses(ips);
      assert g1.live - Standing(g1.userMap, ips[1..]) == g.live - Standing(g.userMap, ips);
    }
  }

  lemma DelUserMap(g: Gw, ip: IPv4, q: seq<Ptr>)
    requires Owned(g, q)
    ensures Owned(DelUser(g, ip), q) && DelUser(g, ip).userMap == g.userMap - {ip}
    ensures DelUser(g, ip).live == g.live - if ip in g.userMap then {g.userMap[ip]} else {}
  {
    if ip in g.userMap {
      RemoveUserOwned(g, ip, q);
    }
    hide Owned;
  }

  lemma StandingSplit(m: map<IPv4, Ptr>, ips: seq<IPv4>)
    requires ips != []
    ensures Standing(m, ips) == (if ips[0] in m then {m[ips[0]]} else {}) + Standing(m - {ips[0]}, ips[1..])
  {
    assert ips == [ips[0]] + ips[1..];
  }

  lemma AllocateOwned(g: Gw, info: UserInfo, q: seq<Ptr>)
    requires Owned(g, q)
    ensures Owned(Allocate(g, info), q + [g.next])
  {
    var g', q' := Allocate(g, info), q + [g.next];
    assert g.next !in g.live && g.next !in q;
    assert forall p :: p in q' <==> p in q || p == g.next;
    assert !Mapped(g', g.next);
    assert forall p :: p in g.live ==> (Mapped(g', p) <==> Mapped(g, p));
  }

  lemma InsideOwned(g: Gw, f: seq<byte>, now: nat, junk: Junk, q: seq<Ptr>)
    requires Owned(g, q) && InsideStep(g, f, now, junk).0.ok
    ensures Owned(InsideStep(g, f, now, junk).0, q)
    ensures var g' := InsideStep(g, f, now, junk).0;
            && g'.userMap == g.userMap && g'.staticIPMap == g.staticIPMap && g'.next == g.next && g'.live.Keys == g.live.Keys
            && forall p :: p in g.live ==> g'.live[p].ip == g.live[p].ip && g'.live[p].mac == g.live[p].mac
  {
    hide InsideStep;
    InsideReport(g, f, now, junk);
    SameHeapOwned(g, InsideStep(g, f, now, junk).0, q);
  }

  /** The two `free` sites of the outside loop included. */
  lemma OutsideOwned(g: Gw, f: seq<byte>, junk: Junk, q: seq<Ptr>)
    requires Owned(g, q)
    ensures Owned(OutsideStep(g, f, junk).0, q) && Frees(g, OutsideStep(g, f, junk).0)
  {
    hide OutsideStep, RemoveUser;
    OutsideRemoves(g, f, junk);
    if OutsideStep(g, f, junk).0 != g {
      var ip :| ip in g.userMap && ip !in g.staticIPMap && OutsideStep(g, f, junk).0 == RemoveUser(g, ip);
      RemoveUserOwned(g, ip, q);
    }
  }

  /** Ownership looks only at which records are live, at their addresses and at the map. */
  lemma SameHeapOwned(g: Gw, g': Gw, q: seq<Ptr>)
    requires Owned(g, q) && g'.ok && g'.userMap == g.userMap && g'.next == g.next && g'.live.Keys == g.live.Keys
    requires forall p :: p in g.live ==> g'.live[p].ip == g.live[p].ip
    ensures Owned(g', q)
  {
  }

  lemma FrontIsLive(g: Gw, q: seq<Ptr>)
    requires Owned(g, q) && q != []
    ensures q[0] in g.live
    ensures g.live[q[0]].ip in g.userMap ==> g.userMap[g.live[q[0]].ip] in g.live
  {
  }
}
