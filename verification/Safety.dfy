/** What holds in every state of every run of the whole program. */
module Safety {
  import opened Octets
  import opened Tables
  import opened Forwarding
  import opened Ownership
  import opened Frames
  import opened System

  /** The program has just started, on some pair of tables; nothing is assumed about what they hold. */
  ghost predicate Started(s: Sys) {
    exists t, u, timeout, rows, infos :: StartedFrom(s, t, u, timeout, rows, infos)
  }

  ghost predicate StartedFrom(s: Sys, t: Statics, u: Users, timeout: nat, rows: seq<(IPv4, Mac)>, infos: seq<UserInfo>) {
    s == Boot(t, u, timeout, rows, infos) && ListsTable(t, rows) && ListsUsers(u, timeout, infos)
  }

  /** The stored user addresses are in `static_ip`. */
  ghost predicate StoredInTable(s: Sys) {
    forall m, ip :: Holds(s.users, m, ip) ==> ip in s.table
  }

  /** `delStaticIP` has no caller in the program. */
  predicate NoDelStatic(acts: seq<Action>) {
    forall a :: a in acts ==> !a.RequestDelStatic?
  }

  /** No administrator's write in the run hands out an address that another row holds. */
  ghost predicate ExclusiveRun(s: Sys, acts: seq<Action>)
    requires Runs(s, acts)
    decreases |acts|
  {
    acts == [] || (Exclusive(s, acts[0]) && ExclusiveRun(Step(s, acts[0]), acts[1..]))
  }

  lemma {:induction false} RunSplits(s: Sys, acts: seq<Action>)
    requires acts != [] && Runs(s, acts)
    ensures var n := |acts| - 1;
            && Runs(s, acts[..n]) && Enabled(Exec(s, acts[..n]), acts[n])
            && Exec(s, acts) == Step(Exec(s, acts[..n]), acts[n])
    decreases |acts|
  {
    hide Step, Enabled;
    var n := |acts| - 1;
    if n == 0 {
      assert acts[..0] == [] && acts[1..] == [];
    } else {
      RunSplits(Step(s, acts[0]), acts[1..]);
      assert acts[1..][..n - 1] == acts[..n][1..] && acts[1..][n - 1] == acts[n];
    }
  }

  lemma {:induction false} RunPrefix(s: Sys, acts: seq<Action>, i: nat)
    requires Runs(s, acts) && i <= |acts|
    ensures Runs(s, acts[..i]) && Exec(s, acts[..i]).table == s.table
    decreases |acts|
  {
    hide Enabled;
    if i == 0 {
    } else {
      RunPrefix(Step(s, acts[0]), acts[1..], i - 1);
      assert acts[..i][1..] == acts[1..][..i - 1] && acts[..i][0] == acts[0];
      TableFixed(s, acts[0]);
    }
  }

  lemma {:induction false} PrefixDefined(s: Sys, acts: seq<Action>, i: nat)
    requires Runs(s, acts) && Exec(s, acts).gw.ok && i <= |acts|
    ensures Runs(s, acts[..i]) && Exec(s, acts[..i]).gw.ok
    decreases |acts|
  {
    hide Enabled, Step;
    if i == |acts| {
      assert acts[..i] == acts;
    } else {
      var n := |acts| - 1;
      RunSplits(s, acts);
      OkStays(Exec(s, acts[..n]), acts[n]);
      PrefixDefined(s, acts[..n], i);
      assert acts[..n][..i] == acts[..i];
    }
  }

  lemma TableFixed(s: Sys, a: Action)
    requires Enabled(s, a)
    ensures Step(s, a).table == s.table && Step(s, a).timeout == s.timeout
  {
    hide InsideStep, OutsideStep, Settle, Decides;
  }

  // ---- reachable states ----

  lemma {:induction false} ReachableInv(s: Sys, acts: seq<Action>)
    requires Started(s) && Runs(s, acts) && Exec(s, acts).gw.ok
    ensures Inv(Exec(s, acts))
    decreases |acts|
  {
    hide Inv, Step, Enabled;
    if acts == [] {
      var t, u, timeout, rows, infos :| StartedFrom(s, t, u, timeout, rows, infos);
      BootInv(t, u, timeout, rows, infos);
    } else {
      var n := |acts| - 1;
      RunSplits(s, acts);
      OkStays(Exec(s, acts[..n]), acts[n]);
      ReachableInv(s, acts[..n]);
      StepKeepsInv(Exec(s, acts[..n]), acts[n]);
    }
  }

  lemma {:induction false} ReachableCovered(s: Sys, acts: seq<Action>)
    requires Started(s) && Runs(s, acts) && NoDelStatic(acts) && Exec(s, acts).gw.ok
    ensures Inv(Exec(s, acts)) && Covered(Exec(s, acts))
    ensures StoredInTable(s) ==> Backed(Exec(s, acts))
    decreases |acts|
  {
    hide Inv, Covered, Backed, Step, Enabled, StoredInTable;
    ReachableInv(s, acts);
    if acts == [] {
      StartCovered(s);
    } else {
      var n := |acts| - 1;
      RunSplits(s, acts);
      OkStays(Exec(s, acts[..n]), acts[n]);
      assert acts[n] in acts && forall a :: a in acts[..n] ==> a in acts;
      ReachableCovered(s, acts[..n]);
      StepKeepsCovered(Exec(s, acts[..n]), acts[n]);
    }
  }

  lemma StartCovered(s: Sys)
    requires Started(s)
    ensures Covered(s)
    ensures StoredInTable(s) ==> Backed(s)
  {
    var t, u, timeout, rows, infos :| StartedFrom(s, t, u, timeout, rows, infos);
    BootCovered(t, u, timeout, rows, infos);
  }

  lemma {:induction false} StaysDefined(s: Sys, acts: seq<Action>)
    requires Started(s) && StoredInTable(s) && Runs(s, acts) && NoDelStatic(acts)
    ensures Exec(s, acts).gw.ok
    decreases |acts|
  {
    hide Inv, Covered, Backed, Step, Enabled, StoredInTable;
    if acts == [] {
      StartDefined(s);
    } else {
      var n := |acts| - 1;
      RunSplits(s, acts);
      assert forall a :: a in acts[..n] ==> a in acts;
      StaysDefined(s, acts[..n]);
      ReachableCovered(s, acts[..n]);
      CoveredStepDefined(Exec(s, acts[..n]), acts[n]);
    }
  }

  lemma StartDefined(s: Sys)
    requires Started(s)
    ensures s.gw.ok
  {
  }

  // ---- the history variable records real assignments ----

  /** The `user` table held this assignment in some state of the run. */
  ghost predicate OnceHeld(s: Sys, acts: seq<Action>, m: Mac, ip: IPv4) {
    exists k :: 0 <= k <= |acts| && HeldAfter(s, acts[..k], m, ip)
  }

  ghost predicate HeldAfter(s: Sys, acts: seq<Action>, m: Mac, ip: IPv4) {
    Runs(s, acts) && Holds(Exec(s, acts).users, m, ip)
  }

  lemma StepRecords(z: Sys, a: Action, m: Mac, ip: IPv4)
    requires Enabled(z, a) && (ip, m) in Step(z, a).everAssigned
    ensures (ip, m) in z.everAssigned || Holds(Step(z, a).users, m, ip)
  {
    if a.ServeDhcp? {
      SettleHolds(z.table, z.users, z.dhcpBatch[0].mac, a.now, a.decision);
      hide Decides, Settle;
    }
  }

  lemma {:induction false} HistoryIsReal(s: Sys, acts: seq<Action>, m: Mac, ip: IPv4)
    requires Started(s) && Runs(s, acts) && (ip, m) in Exec(s, acts).everAssigned
    ensures OnceHeld(s, acts, m, ip)
    decreases |acts|
  {
    hide Step, Enabled;
    assert acts[..|acts|] == acts;
    if acts == [] {
      assert HeldAfter(s, acts[..0], m, ip) by {
        StartRecords(s, m, ip);
      }
    } else {
      var n := |acts| - 1;
      RunSplits(s, acts);
      StepRecords(Exec(s, acts[..n]), acts[n], m, ip);
      if (ip, m) in Exec(s, acts[..n]).everAssigned {
        HistoryIsReal(s, acts[..n], m, ip);
        var k :| 0 <= k <= n && HeldAfter(s, acts[..n][..k], m, ip);
        assert acts[..n][..k] == acts[..k];
      } else {
        assert HeldAfter(s, acts[..|acts|], m, ip);
      }
    }
  }

  lemma StartRecords(s: Sys, m: Mac, ip: IPv4)
    requires Started(s) && (ip, m) in s.everAssigned
    ensures Holds(s.users, m, ip)
  {
  }

  // ---- definedness ----

  /**
   * At every packet step of every run without `delStaticIP`, whatever the administrator writes, each
   * user has a static address, so no frame, of any content and length and from either side, follows an
   * `end()` iterator or a freed record, and the lazy removal of users is never taken.
   */
  lemma EveryStepDefined(s: Sys, acts: seq<Action>, f: seq<byte>, now: nat, junk: Junk)
    requires Started(s) && StoredInTable(s) && Runs(s, acts) && NoDelStatic(acts)
    ensures var z := Exec(s, acts);
            && z.gw.ok
            && (z.phase.Serving? ==>
                  && z.gw.userMap.Keys <= z.gw.staticIPMap.Keys
                  && InsideStep(z.gw, f, now, junk).0.ok
                  && OutsideStep(z.gw, f, junk).0 == z.gw)
  {
    var z := Exec(s, acts);
    StaysDefined(s, acts);
    ReachableCovered(s, acts);
    hide InsideStep, OutsideStep, Inv, Covered, Backed;
    if z.phase.Serving? {
      ServingCoherent(z);
      StepsDefined(z.gw, f, now, junk);
    }
  }

  /**
   * In every run from every start, `delStaticIP` or not, the first undefined step is a dangling inside
   * frame: no record is ever freed twice or used after it was freed.
   */
  lemma FirstUndefinedIsDangling(s: Sys, acts: seq<Action>, a: Action)
    requires Started(s) && Runs(s, acts) && Exec(s, acts).gw.ok && Enabled(Exec(s, acts), a)
    ensures !Step(Exec(s, acts), a).gw.ok <==> a.Inside? && Dangling(Exec(s, acts).gw, a.f, a.junk)
  {
    hide Inv, Step, Enabled, Dangling;
    ReachableInv(s, acts);
    OnlyDanglingUndefined(Exec(s, acts), a);
  }

  // ---- records ----

  /** How often a record is found: in the add queue, under its own address in the map, or freed. */
  function Places(z: Sys, p: Ptr): nat {
    multiset(z.addUser)[p] + (if Mapped(z.gw, p) then 1 else 0) + (if p !in z.gw.live then 1 else 0)
  }

  /**
   * In every defined run each record ever allocated is in exactly one place; the map and the queue never
   * point to a freed one; and what a record says was at some time an assignment in the `user` table.
   */
  lemma RecordsHaveOneOwner(s: Sys, acts: seq<Action>, p: Ptr)
    requires Started(s) && Runs(s, acts) && Exec(s, acts).gw.ok
    ensures var z := Exec(s, acts);
            && (p < z.gw.next ==> Places(z, p) == 1)
            && (p in z.gw.live ==> p < z.gw.next && OnceHeld(s, acts, z.gw.live[p].mac, z.gw.live[p].ip))
            && (forall ip :: ip in z.gw.userMap ==> Mapped(z.gw, z.gw.userMap[ip]) && z.gw.live[z.gw.userMap[ip]].ip == ip)
  {
    var z := Exec(s, acts);
    ReachableInv(s, acts);
    DistinctCount(z.addUser, p);
    if p in z.gw.live {
      assert (z.gw.live[p].ip, z.gw.live[p].mac) in z.everAssigned;
      HistoryIsReal(s, acts, z.gw.live[p].mac, z.gw.live[p].ip);
    }
  }

  lemma {:induction false} DistinctCount(q: seq<Ptr>, p: Ptr)
    requires Distinct(q)
    ensures multiset(q)[p] == if p in q then 1 else 0
  {
    if q == [] {
    } else {
      assert q == [q[0]] + q[1..];
      DistinctCount(q[1..], p);
      assert p in q <==> p == q[0] || p in q[1..];
      assert q[0] !in q[1..];
    }
  }

  // ---- frames ----

  /**
   * Every complete frame that leaves from a static address, in any defined run, was sent by a MAC to
   * which the database has assigned that address, and it leaves with the MAC the `static_ip` table gives;
   * none leaves towards a static address.
   */
  lemma NoSpoofingInAnyRun(s: Sys, acts: seq<Action>, f: seq<byte>, now: nat, junk: Junk)
    requires Started(s) && Runs(s, acts) && Exec(s, acts).gw.ok
    requires |f| <= MAX_FRAME && (IsIp(f) || IsArp(f))
    requires InsideStep(Exec(s, acts).gw, f, now, junk).1.Forwarded?
    ensures var z := Exec(s, acts);
            var out := InsideStep(z.gw, f, now, junk).1.frame;
            && DestinationOf(f) !in z.gw.staticIPMap
            && (SourceOf(f) in z.gw.staticIPMap ==>
                  && OnceHeld(s, acts, EtherSource(f), SourceOf(f))
                  && |out| == |f| && SourceOf(f) in z.table && EtherSource(out) == z.table[SourceOf(f)].mac
                  && (IsArp(f) ==> out[22..28] == z.table[SourceOf(f)].mac))
  {
    var z := Exec(s, acts);
    ReachableInv(s, acts);
    NoSpoofedFrameLeaves(z.gw, f, now, junk);
    OnlyMacBytesChange(z.gw, f, now, junk);
    hide InsideStep;
    if SourceOf(f) in z.gw.staticIPMap {
      var p := z.gw.userMap[SourceOf(f)];
      assert (z.gw.live[p].ip, z.gw.live[p].mac) in z.everAssigned;
      HistoryIsReal(s, acts, EtherSource(f), SourceOf(f));
    }
  }

  /**
   * Translation inverts over time: if a registered user's frame can leave after the first `i` steps of a
   * defined run, then at any later packet step at which that user is still registered every answer to the frame
   * is delivered to the user's own MAC, unless it is shaped like DHCP.
   */
  lemma TranslationInvertsInAnyRun(s: Sys, acts: seq<Action>, i: nat, f: seq<byte>, now: nat, junk: Junk, r: seq<byte>, junk': Junk)
    requires Started(s) && Runs(s, acts) && NoDelStatic(acts) && Exec(s, acts).gw.ok
    requires i <= |acts| && |f| <= MAX_FRAME && (IsIp(f) || IsArp(f))
    requires Runs(s, acts[..i]) && Exec(s, acts[..i]).phase.Serving? && SourceOf(f) in Exec(s, acts[..i]).gw.userMap
    requires InsideStep(Exec(s, acts[..i]).gw, f, now, junk).1.Forwarded?
    requires IsReplyTo(r, InsideStep(Exec(s, acts[..i]).gw, f, now, junk).1.frame)
    requires Exec(s, acts).phase.Serving? && Registered(Exec(s, acts).gw, SourceOf(f), EtherSource(f))
    ensures OutsideStep(Exec(s, acts).gw, r, junk') == (Exec(s, acts).gw, Delivered(r, EtherSource(f)))
  {
    hide InsideStep, OutsideStep, Inv, Covered, Step, Enabled, Delivered, Coherent;
    var y, z := Exec(s, acts[..i]), Exec(s, acts);
    assert NoDelStatic(acts[..i]) by {
      assert forall a :: a in acts[..i] ==> a in acts;
    }
    RunPrefix(s, acts, i);
    RunPrefix(s, acts, |acts|);
    assert acts[..|acts|] == acts;
    PrefixDefined(s, acts, i);
    ReachableCovered(s, acts[..i]);
    ReachableCovered(s, acts);
    AfterInside(y.gw, f, now, junk);
    AllStaticsPresent(y, SourceOf(f));
    AllStaticsPresent(z, SourceOf(f));
    AnswerIsDelivered(z.gw, r, junk', EtherSource(f), y.gw.staticIPMap[SourceOf(f)]);
  }

  /** Once a user is in the map, the static map is the whole table. */
  lemma AllStaticsPresent(z: Sys, user: IPv4)
    requires Inv(z) && Covered(z) && z.phase.Serving? && user in z.gw.userMap
    ensures z.gw.staticIPMap == map ip | ip in z.table :: z.table[ip].mac
  {
  }

  // ---- the `user` table ----

  /** No run in which the administrator shares no address makes two users share one. */
  lemma {:induction false} AddressesStayUnshared(s: Sys, acts: seq<Action>)
    requires Unique(s.users) && Runs(s, acts) && ExclusiveRun(s, acts)
    ensures Unique(Exec(s, acts).users)
    decreases |acts|
  {
    hide Unique, Step, Enabled, Exclusive;
    if acts == [] {
    } else {
      System.StepKeepsUnique(s, acts[0]);
      AddressesStayUnshared(Step(s, acts[0]), acts[1..]);
    }
  }

  /** Steps that change this user's row other than by serving requests and reports. */
  predicate Edits(a: Action, m: Mac) {
    (a.AdminWrite? && a.mac == m) || a == AdminRemove(m)
  }

  /**
   * When a request has been decided, and from then on until its reply is queued, the user it names is the
   * one holder of its address, whatever the packet thread does meanwhile and however the administrator
   * edits other rows.
   */
  lemma OffersNameSoleHolder(s: Sys, acts: seq<Action>, now: nat, d: Decision, more: seq<Action>)
    requires Unique(s.users) && Runs(s, acts) && ExclusiveRun(s, acts)
    requires Enabled(Exec(s, acts), ServeDhcp(now, d))
    requires var z' := Step(Exec(s, acts), ServeDhcp(now, d));
             var r := Exec(s, acts).dhcpBatch[0];
             Runs(z', more) && ExclusiveRun(z', more) && forall a :: a in more ==> !a.SendOffer? && !Edits(a, r.mac)
    ensures var z := Exec(s, acts);
            var z' := Step(z, ServeDhcp(now, d));
            var r := z.dhcpBatch[0];
            if Response(z.table, d).None? then z'.duty.Idle? && z'.send == z.send && z'.gw == z.gw
            else
              var y := Exec(z', more);
              && !y.duty.Idle? && y.duty.offer == Offer(r, d.ip) && SoleHolder(y.users, r.mac, d.ip)
  {
    var z := Exec(s, acts);
    AddressesStayUnshared(s, acts);
    Tables.StepKeepsUnique(z.table, z.users, z.dhcpBatch[0].mac, now, d);
    hide Decides, Settle, Unique, ExclusiveRun, Exec, Runs, SoleHolder;
    if Response(z.table, d).Some? {
      AnsweredStays(Step(z, ServeDhcp(now, d)), more);
    }
  }

  lemma {:induction false} AnsweredStays(z: Sys, acts: seq<Action>)
    requires !z.duty.Idle? && SoleHolder(z.users, z.duty.offer.request.mac, z.duty.offer.ip)
    requires Runs(z, acts) && ExclusiveRun(z, acts)
    requires forall a :: a in acts ==> !a.SendOffer? && !Edits(a, z.duty.offer.request.mac)
    ensures var y := Exec(z, acts);
            && !y.duty.Idle? && y.duty.offer == z.duty.offer
            && SoleHolder(y.users, z.duty.offer.request.mac, z.duty.offer.ip)
    decreases |acts|
  {
    hide Step, Enabled, Exclusive, SoleHolder, Edits;
    if acts == [] {
    } else {
      assert acts[0] in acts;
      AnsweredStep(z, acts[0]);
      AnsweredStays(Step(z, acts[0]), acts[1..]);
    }
  }

  lemma AnsweredStep(z: Sys, a: Action)
    requires !z.duty.Idle? && SoleHolder(z.users, z.duty.offer.request.mac, z.duty.offer.ip)
    requires Enabled(z, a) && Exclusive(z, a) && !a.SendOffer? && !Edits(a, z.duty.offer.request.mac)
    ensures !Step(z, a).duty.Idle? && Step(z, a).duty.offer == z.duty.offer
    ensures SoleHolder(Step(z, a).users, z.duty.offer.request.mac, z.duty.offer.ip)
  {
    hide InsideStep, OutsideStep, Settle, Decides, AddStatics, DelStatics, AddUsers, DelUsers;
    var m, ip := z.duty.offer.request.mac, z.duty.offer.ip;
    assert Holds(z.users, m, ip);
    match a {
      case AdminWrite(n, row) =>
        assert forall o :: Holds(Step(z, a).users, o, ip) ==> if o == n then row.ip == Some(ip) else Holds(z.users, o, ip);
      case AdminRemove(_) =>
        assert forall o :: Holds(Step(z, a).users, o, ip) ==> Holds(z.users, o, ip);
      case _ =>
    }
  }

  /** The steps that may take an address from its owner: the administrator's, and a reclaim. */
  predicate Takes(a: Action, owner: Mac, ip: IPv4) {
    || (a.AdminWrite? && a.mac == owner) || a == AdminRemove(owner)
    || (a.ServeDhcp? && a.decision == Reclaim(owner, ip))
  }

  /**
   * With accesses being recorded and the administrator at work in between, an owner still loses its
   * address to another user only by a reclaim: of a dynamic address, with none unused, from the
   * least recently seen expired owner as the table stands at that moment.
   */
  lemma LossInAnyRun(s: Sys, acts: seq<Action>, a: Action, owner: Mac, ip: IPv4)
    requires Unique(s.users) && Runs(s, acts) && ExclusiveRun(s, acts) && Enabled(Exec(s, acts), a)
    requires Holds(Exec(s, acts).users, owner, ip) && !Holds(Step(Exec(s, acts), a).users, owner, ip)
    ensures Takes(a, owner, ip)
    ensures a.ServeDhcp? ==>
              var z := Exec(s, acts);
              && Dynamic(z.table, ip) && Unused(z.table, z.users) == {}
              && LeastRecent(z.table, z.users, Cutoff(a.now), owner)
              && SoleHolder(Step(z, a).users, z.dhcpBatch[0].mac, ip)
  {
    AddressesStayUnshared(s, acts);
    StepLoss(Exec(s, acts), a, owner, ip);
  }

  lemma StepLoss(z: Sys, a: Action, owner: Mac, ip: IPv4)
    requires Unique(z.users) && Enabled(z, a)
    requires Holds(z.users, owner, ip) && !Holds(Step(z, a).users, owner, ip)
    ensures Takes(a, owner, ip)
    ensures a.ServeDhcp? ==>
              && Dynamic(z.table, ip) && Unused(z.table, z.users) == {}
              && LeastRecent(z.table, z.users, Cutoff(a.now), owner)
              && SoleHolder(Step(z, a).users, z.dhcpBatch[0].mac, ip)
  {
    match a {
      case ServeDhcp(now, d) =>
        var mac := z.dhcpBatch[0].mac;
        LossIsReclaim(z.table, z.users, mac, now, d, owner, ip);
        SettleHolds(z.table, z.users, mac, now, d);
        Tables.StepKeepsUnique(z.table, z.users, mac, now, d);
        assert Holds(Step(z, a).users, mac, ip);
        hide Settle;
      case ServeUpdate => AccessMovesNoAddress(z);
      case _ =>
        hide InsideStep, OutsideStep;
    }
  }

  /** An owner keeps its address over any stretch of a run in which no step takes it. */
  lemma {:induction false} HeldUntilTaken(s: Sys, acts: seq<Action>, owner: Mac, ip: IPv4)
    requires Unique(s.users) && Runs(s, acts) && ExclusiveRun(s, acts)
    requires Holds(s.users, owner, ip) && forall a :: a in acts ==> !Takes(a, owner, ip)
    ensures Holds(Exec(s, acts).users, owner, ip)
    decreases |acts|
  {
    hide Unique, Step, Enabled, Exclusive, Takes;
    if acts == [] {
    } else {
      assert acts[0] in acts;
      System.StepKeepsUnique(s, acts[0]);
      if !Holds(Step(s, acts[0]).users, owner, ip) {
        StepLoss(s, acts[0], owner, ip);
      }
      HeldUntilTaken(Step(s, acts[0]), acts[1..], owner, ip);
    }
  }

  /** Without the administrator, addresses newly held after any stretch of a run are dynamic ones of `static_ip`. */
  lemma {:induction false} GainedAreDynamic(s: Sys, acts: seq<Action>, m: Mac, ip: IPv4)
    requires Runs(s, acts) && forall a :: a in acts ==> !a.AdminWrite?
    requires Holds(Exec(s, acts).users, m, ip) && !Holds(s.users, m, ip)
    ensures ip in s.table && !s.table[ip].isStatic
    decreases |acts|
  {
    hide Step, Enabled, Holds;
    if acts == [] {
    } else {
      assert acts[0] in acts;
      TableFixed(s, acts[0]);
      if Holds(Step(s, acts[0]).users, m, ip) {
        StepGains(s, acts[0], m, ip);
      } else {
        GainedAreDynamic(Step(s, acts[0]), acts[1..], m, ip);
      }
    }
  }

  lemma StepGains(s: Sys, a: Action, m: Mac, ip: IPv4)
    requires Enabled(s, a) && !a.AdminWrite?
    requires Holds(Step(s, a).users, m, ip) && !Holds(s.users, m, ip)
    ensures a.ServeDhcp? && m == s.dhcpBatch[0].mac && ip in s.table && !s.table[ip].isStatic
  {
    hide InsideStep, OutsideStep, AddStatics, DelStatics, AddUsers, DelUsers;
    match a {
      case ServeDhcp(now, d) =>
        GainedIsDynamic(s.table, s.users, s.dhcpBatch[0].mac, now, d, m, ip);
        hide Settle, Decides;
      case ServeUpdate => AccessMovesNoAddress(s);
      case _ =>
        hide Settle, Decides;
    }
  }

  /** The requests decided in a run. */
  function Decided(acts: seq<Action>): nat {
    if acts == [] then 0 else (if acts[0].ServeDhcp? then 1 else 0) + Decided(acts[1..])
  }

  /** While the administrator rests, no address becomes unassigned, and each request assigns at most one more. */
  lemma {:induction false} AssignedGrows(s: Sys, acts: seq<Action>)
    requires Runs(s, acts) && forall a :: a in acts ==> !a.AdminWrite? && !a.AdminRemove?
    ensures Assigned(s.users) <= Assigned(Exec(s, acts).users)
    ensures |Assigned(Exec(s, acts).users)| <= |Assigned(s.users)| + Decided(acts)
    decreases |acts|
  {
    hide Step, Enabled, Assigned;
    if acts == [] {
    } else {
      assert acts[0] in acts;
      StepAssigns(s, acts[0]);
      AssignedGrows(Step(s, acts[0]), acts[1..]);
    }
  }

  lemma StepAssigns(s: Sys, a: Action)
    requires Enabled(s, a) && !a.AdminWrite? && !a.AdminRemove?
    ensures Assigned(s.users) <= Assigned(Step(s, a).users)
    ensures |Assigned(Step(s, a).users)| <= |Assigned(s.users)| + if a.ServeDhcp? then 1 else 0
  {
    hide InsideStep, OutsideStep, AddStatics, DelStatics, AddUsers, DelUsers;
    match a {
      case ServeDhcp(now, d) =>
        StepGrowsAssigned(s.table, s.users, s.dhcpBatch[0].mac, now, d);
        hide Settle, Decides;
      case ServeUpdate =>
        AccessAssigns(s);
      case _ =>
        hide Settle, Decides;
    }
  }

  lemma AccessAssigns(s: Sys)
    requires s.updateBatch != []
    ensures Assigned(ServeAccess(s).users) == Assigned(s.users)
  {
    AccessMovesNoAddress(s);
    hide Assigned, ServeAccess;
    forall ip ensures ip in Assigned(ServeAccess(s).users) <==> ip in Assigned(s.users) {
      AssignedHolds(s.users, ip);
      AssignedHolds(ServeAccess(s).users, ip);
    }
  }

  // ---- starts exist ----

  /** The queues at start-up hold each row of `static_ip` and a record of each user with an address, and no more. */
  lemma StartQueuesTables(s: Sys, m: Mac, ip: IPv4, mac: Mac)
    requires Started(s)
    ensures (ip, mac) in s.addStatic <==> ip in s.table && s.table[ip].mac == mac
    ensures m in s.users && s.users[m].ip == Some(ip) ==>
              exists p :: p in s.addUser && p in s.gw.live && s.gw.live[p] == UserInfo(ip, m, s.users[m].accessed, s.timeout)
    ensures forall p :: p in s.addUser ==>
              p in s.gw.live && var u := s.gw.live[p]; u.mac in s.users && s.users[u.mac].ip == Some(u.ip)
    ensures s.gw.userMap == map[] && s.gw.staticIPMap == map[] && s.phase == Serving && s.duty == Idle
  {
    var t: Statics, u: Users, timeout: nat, rows: seq<(IPv4, Mac)>, infos: seq<UserInfo> :| StartedFrom(s, t, u, timeout, rows, infos);
    if m in u && u[m].ip == Some(ip) {
      var info := UserInfo(ip, m, u[m].accessed, timeout);
      assert info in infos;
      var p: Ptr :| 0 <= p < |infos| && infos[p] == info;
      assert s.addUser[p] == p && p in s.gw.live && s.gw.live[p] == info;
    }
  }

  /** The program can start on every pair of tables. */
  lemma StartExists(t: Statics, u: Users, timeout: nat)
    ensures exists s :: Started(s) && s.table == t && s.users == u && s.timeout == timeout
  {
    var rows := ListRows(t);
    var infos := ListInfos(u, timeout);
    assert StartedFrom(Boot(t, u, timeout, rows, infos), t, u, timeout, rows, infos);
  }

  lemma {:induction false} ListRows(t: Statics) returns (rows: seq<(IPv4, Mac)>)
    ensures ListsTable(t, rows)
    decreases |t|
  {
    rows := [];
    if t == map[] {
    } else {
      var ip :| ip in t;
      var rest := t - {ip};
      assert t.Keys == rest.Keys + {ip};
      var tail := ListRows(rest);
      rows := [(ip, t[ip].mac)] + tail;
      forall j | j in t ensures (j, t[j].mac) in rows {
        assert j != ip ==> j in rest && (j, rest[j].mac) in tail;
      }
    }
  }

  lemma {:induction false} ListInfos(u: Users, timeout: nat) returns (infos: seq<UserInfo>)
    ensures ListsUsers(u, timeout, infos)
    decreases |u|
  {
    infos := [];
    if u == map[] {
    } else {
      var m :| m in u;
      var rest := u - {m};
      assert u.Keys == rest.Keys + {m};
      var tail := ListInfos(rest, timeout);
      infos := (if u[m].ip.Some? then [UserInfo(u[m].ip.value, m, u[m].accessed, timeout)] else []) + tail;
      forall n | n in u && u[n].ip.Some? ensures UserInfo(u[n].ip.value, n, u[n].accessed, timeout) in infos {
        assert n != m ==> n in rest && UserInfo(rest[n].ip.value, n, rest[n].accessed, timeout) in tail;
      }
      forall i | 0 <= i < |infos|
        ensures Holds(u, infos[i].mac, infos[i].ip) && infos[i] == UserInfo(infos[i].ip, infos[i].mac, u[infos[i].mac].accessed, timeout)
      {
        assert infos[i] in tail || (u[m].ip.Some? && infos[i] == UserInfo(u[m].ip.value, m, u[m].accessed, timeout));
        if infos[i] in tail {
          var k :| 0 <= k < |tail| && tail[k] == infos[i];
          assert Holds(rest, tail[k].mac, tail[k].ip);
        }
      }
    }
  }
}
