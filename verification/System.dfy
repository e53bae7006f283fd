/**
 * The whole program as one transition system: the packet thread with its event rounds, the database
 * thread with its two callbacks, an administrator editing the `user` table, and the mailboxes between
 * them. Every interleaving of these steps is a run.
 */
module System {
  import opened Octets
  import opened Tables
  import opened Forwarding
  import opened Ownership
  import opened Frames
  import Reply

  datatype Queue = AddStaticQ | DelStaticQ | AddUserQ | DelUserQ | SendQ

  /** `event_base_loop` polls once and then runs the callback of every queue that was not empty. */
  datatype Phase = Serving | Draining(pending: set<Queue>)

  /** A reply queued for sending, named by what determines its bytes. */
  datatype Offer = Offer(request: Reply.DhcpRequest, ip: IPv4)

  /** Where `create_dhcp` stands in a request it answers: the table is settled and mailboxes remain to be written. */
  datatype Duty = Idle | Registering(offer: Offer) | Answering(offer: Offer)

  /** `everAssigned` and `sent` are history: pairs the `user` table has held, access times reported. */
  datatype Sys = Sys(table: Statics, users: Users, gw: Gw, phase: Phase, timeout: nat,
                     addStatic: seq<(IPv4, Mac)>, delStatic: seq<IPv4>, addUser: seq<Ptr>, delUser: seq<IPv4>,
                     send: seq<Offer>, dhcp: seq<Reply.DhcpRequest>, updates: seq<UpdateTime>,
                     dhcpBatch: seq<Reply.DhcpRequest>, updateBatch: seq<UpdateTime>, duty: Duty,
                     everAssigned: set<(IPv4, Mac)>, sent: seq<UpdateTime>)

  datatype Action =
    | Inside(f: seq<byte>, now: nat, junk: Junk)
    | Outside(f: seq<byte>, junk: Junk)
    | Poll
    | Callback(q: Queue)
    | EndRound
    | TakeDhcp
    | ServeDhcp(now: nat, decision: Decision)
    | RegisterUser
    | SendOffer
    | TakeUpdates
    | ServeUpdate
    | AdminWrite(mac: Mac, row: UserRow)
    | AdminRemove(mac: Mac)
    | RequestDelStatic(ip: IPv4)

  ghost predicate Enabled(s: Sys, a: Action) {
    match a
    case Inside(_, _, _) => s.phase.Serving?
    case Outside(_, _) => s.phase.Serving?
    case Poll => s.phase.Serving?
    case Callback(q) => s.phase.Draining? && q in s.phase.pending
    case EndRound => s.phase == Draining({})
    case TakeDhcp => s.duty.Idle? && s.dhcpBatch == [] && s.updateBatch == [] && s.dhcp != []
    case ServeDhcp(now, d) => s.duty.Idle? && s.dhcpBatch != [] && Decides(s.table, s.users, s.dhcpBatch[0].mac, now, d)
    case RegisterUser => s.duty.Registering?
    case SendOffer => s.duty.Answering?
    case TakeUpdates => s.duty.Idle? && s.dhcpBatch == [] && s.updateBatch == [] && s.updates != []
    case ServeUpdate => s.duty.Idle? && s.updateBatch != []
    case AdminWrite(_, _) => true
    case AdminRemove(_) => true
    case RequestDelStatic(_) => true
  }

  function Ready(s: Sys): set<Queue> {
    (if s.addStatic == [] then {} else {AddStaticQ}) + (if s.delStatic == [] then {} else {DelStaticQ})
    + (if s.addUser == [] then {} else {AddUserQ}) + (if s.delUser == [] then {} else {DelUserQ})
    + (if s.send == [] then {} else {SendQ})
  }

  function RunCallback(s: Sys, q: Queue): Sys {
    match q
    case AddStaticQ => s.(gw := AddStatics(s.gw, s.addStatic), addStatic := [])
    case DelStaticQ => s.(gw := DelStatics(s.gw, s.delStatic), delStatic := [])
    case AddUserQ => s.(gw := AddUsers(s.gw, s.addUser), addUser := [])
    case DelUserQ => s.(gw := DelUsers(s.gw, s.delUser), delUser := [])
    case SendQ => s.(send := [])
  }

  /** What remains to be done for a request that gets a response: a discover registers nobody. */
  function DutyOf(t: Statics, r: Reply.DhcpRequest, d: Decision): Duty {
    if Response(t, d).None? then Idle
    else if r.isDiscover then Answering(Offer(r, d.ip))
    else Registering(Offer(r, d.ip))
  }

  /** The table's part of one request of `create_dhcp`. */
  function ServeRequest(s: Sys, d: Decision): Sys
    requires s.dhcpBatch != []
  {
    var r := s.dhcpBatch[0];
    s.(users := Settle(s.users, r.mac, d), dhcpBatch := s.dhcpBatch[1..], duty := DutyOf(s.table, r, d),
       everAssigned := s.everAssigned + if d.Keep? || d.Take? || d.Reclaim? then {(d.ip, r.mac)} else {})
  }

  /** `addUserInfo` for the request being answered. */
  function Register(s: Sys): Sys
    requires s.duty.Registering?
  {
    var info := UserInfo(s.duty.offer.ip, s.duty.offer.request.mac, 0, s.timeout);
    s.(gw := Allocate(s.gw, info), addUser := s.addUser + [s.gw.next], duty := Answering(s.duty.offer))
  }

  /** One item of `update_time`: no matching row, so the user is to be removed. */
  function ServeAccess(s: Sys): Sys
    requires s.updateBatch != []
  {
    var u := s.updateBatch[0];
    var rest := s.(updateBatch := s.updateBatch[1..]);
    if u.mac in s.users then rest.(users := s.users[u.mac := s.users[u.mac].(accessed := u.utc)])
    else rest.(delUser := s.delUser + [u.ip])
  }

  function ServeInside(s: Sys, f: seq<byte>, now: nat, junk: Junk): Sys {
    var (g, v) := InsideStep(s.gw, f, now, junk);
    match v
    case Consumed(r) => s.(gw := g, dhcp := s.dhcp + [r])
    case Forwarded(_, Some(u)) => s.(gw := g, updates := s.updates + [u], sent := s.sent + [u])
    case _ => s.(gw := g)
  }

  function Step(s: Sys, a: Action): Sys
    requires Enabled(s, a)
  {
    match a
    case Inside(f, now, junk) => ServeInside(s, f, now, junk)
    case Outside(f, junk) => s.(gw := OutsideStep(s.gw, f, junk).0)
    case Poll => s.(phase := Draining(Ready(s)))
    case Callback(q) => RunCallback(s, q).(phase := Draining(s.phase.pending - {q}))
    case EndRound => s.(phase := Serving)
    case TakeDhcp => s.(dhcpBatch := s.dhcp, dhcp := [])
    case ServeDhcp(_, d) => ServeRequest(s, d)
    case RegisterUser => Register(s)
    case SendOffer => s.(send := s.send + [s.duty.offer], duty := Idle)
    case TakeUpdates => s.(updateBatch := s.updates, updates := [])
    case ServeUpdate => ServeAccess(s)
    case AdminWrite(m, row) =>
      s.(users := s.users[m := row],
         everAssigned := s.everAssigned + if row.ip.Some? then {(row.ip.value, m)} else {})
    case AdminRemove(m) => s.(users := s.users - {m})
    case RequestDelStatic(ip) => s.(delStatic := s.delStatic + [ip])
  }

  ghost predicate Runs(s: Sys, acts: seq<Action>)
    decreases |acts|
  {
    acts == [] || (Enabled(s, acts[0]) && Runs(Step(s, acts[0]), acts[1..]))
  }

  ghost function Exec(s: Sys, acts: seq<Action>): Sys
    requires Runs(s, acts)
    decreases |acts|
  {
    if acts == [] then s else Exec(Step(s, acts[0]), acts[1..])
  }

  // ---- what single steps do, case by case ----

  /** A round serves exactly the queues that were not empty. */
  lemma ReadyExactly(s: Sys)
    ensures AddStaticQ in Ready(s) <==> s.addStatic != []
    ensures DelStaticQ in Ready(s) <==> s.delStatic != []
    ensures AddUserQ in Ready(s) <==> s.addUser != []
    ensures DelUserQ in Ready(s) <==> s.delUser != []
    ensures SendQ in Ready(s) <==> s.send != []
  {
  }

  /**
   * After the statements of a request a reply is due exactly when they left the user with an address of
   * `static_ip`, and a record as well exactly when the request was no discover.
   */
  lemma DutyExactly(s: Sys, now: nat, d: Decision, ip: IPv4)
    requires Enabled(s, ServeDhcp(now, d))
    ensures var s', r := Step(s, ServeDhcp(now, d)), s.dhcpBatch[0];
            && (s'.duty == Registering(Offer(r, ip)) <==> Holds(s'.users, r.mac, ip) && ip in s.table && !r.isDiscover)
            && (s'.duty == Answering(Offer(r, ip)) <==> Holds(s'.users, r.mac, ip) && ip in s.table && r.isDiscover)
            && (s'.duty == Idle <==> forall j :: Holds(s'.users, r.mac, j) ==> j !in s.table)
  {
    hide Decides, Settle;
    var r := s.dhcpBatch[0];
    ResponseExactly(s.table, s.users, r.mac, now, d, ip);
    if Response(s.table, d).Some? {
      ResponseExactly(s.table, s.users, r.mac, now, d, Response(s.table, d).value);
    }
    forall j ensures Holds(Settle(s.users, r.mac, d), r.mac, j) && j in s.table <==> Response(s.table, d) == Some(j) {
      ResponseExactly(s.table, s.users, r.mac, now, d, j);
    }
  }

  /** What an inside frame sends to the database; the history has every report that was sent. */
  lemma InsideSends(s: Sys, f: seq<byte>, now: nat, junk: Junk)
    ensures var s', v := ServeInside(s, f, now, junk), InsideStep(s.gw, f, now, junk).1;
            var reports := if v.Forwarded? && v.update.Some? then [v.update.value] else [];
            && s'.dhcp == s.dhcp + (if v.Consumed? then [v.request] else [])
            && s'.updates == s.updates + reports && s'.sent == s.sent + reports
            && s'.gw == InsideStep(s.gw, f, now, junk).0
  {
    hide InsideStep;
  }

  // ---- start-up ----

  /** `getAllStaticIP` and `getAllUser` return every row, in some order. */
  predicate ListsTable(t: Statics, rows: seq<(IPv4, Mac)>) {
    && (forall i :: 0 <= i < |rows| ==> rows[i].0 in t && rows[i].1 == t[rows[i].0].mac)
    && (forall ip :: ip in t ==> (ip, t[ip].mac) in rows)
  }

  predicate ListsUsers(u: Users, timeout: nat, infos: seq<UserInfo>) {
    && (forall i :: 0 <= i < |infos| ==>
          Holds(u, infos[i].mac, infos[i].ip) && infos[i] == UserInfo(infos[i].ip, infos[i].mac, u[infos[i].mac].accessed, timeout))
    && (forall m :: m in u && u[m].ip.Some? ==> UserInfo(u[m].ip.value, m, u[m].accessed, timeout) in infos)
  }

  /** The state main.cpp:288-301 leaves to the two threads: both lists queued, both maps empty. */
  function Boot(t: Statics, u: Users, timeout: nat, rows: seq<(IPv4, Mac)>, infos: seq<UserInfo>): Sys {
    var heap := map i: Ptr | 0 <= i < |infos| :: infos[i];
    Sys(t, u, Gw(map[], map[], heap, |infos|, true), Serving, timeout,
        rows, [], seq(|infos|, i => i), [], [], [], [], [], [], Idle,
        set m | m in u && u[m].ip.Some? :: (u[m].ip.value, m), [])
  }

  // ---- what every defined run keeps ----

  /** What the static map and its queue hold comes from the table. */
  predicate StaticsAgree(s: Sys) {
    && (forall ip :: ip in s.gw.staticIPMap ==> ip in s.table && s.gw.staticIPMap[ip] == s.table[ip].mac)
    && (forall i :: 0 <= i < |s.addStatic| ==> s.addStatic[i].0 in s.table && s.addStatic[i].1 == s.table[s.addStatic[i].0].mac)
  }

  /** The request being answered was given an address of the table. */
  predicate DutyAgrees(s: Sys) {
    !s.duty.Idle? ==> s.duty.offer.ip in s.table && (s.duty.offer.ip, s.duty.offer.request.mac) in s.everAssigned
  }

  /** Every record has one owner and says what the `user` table has assigned. No step is excluded. */
  predicate Inv(s: Sys) {
    && StaticsAgree(s)
    && Owned(s.gw, s.addUser)
    && DutyAgrees(s)
    && (forall p :: p in s.gw.live ==> (s.gw.live[p].ip, s.gw.live[p].mac) in s.everAssigned)
  }

  lemma BootInv(t: Statics, u: Users, timeout: nat, rows: seq<(IPv4, Mac)>, infos: seq<UserInfo>)
    requires ListsTable(t, rows) && ListsUsers(u, timeout, infos)
    ensures Inv(Boot(t, u, timeout, rows, infos))
  {
    var s := Boot(t, u, timeout, rows, infos);
    forall p | p in s.gw.live ensures p in s.addUser && (s.gw.live[p].ip, s.gw.live[p].mac) in s.everAssigned {
      assert s.addUser[p] == p;
      assert Holds(u, infos[p].mac, infos[p].ip);
    }
  }

  lemma InsideKeepsInv(s: Sys, f: seq<byte>, now: nat, junk: Junk)
    requires Inv(s) && ServeInside(s, f, now, junk).gw.ok
    ensures Inv(ServeInside(s, f, now, junk))
  {
    hide InsideStep, Owned;
    InsideOwned(s.gw, f, now, junk, s.addUser);
  }

  lemma OutsideKeepsInv(s: Sys, f: seq<byte>, junk: Junk)
    requires Inv(s)
    ensures Inv(s.(gw := OutsideStep(s.gw, f, junk).0))
  {
    hide OutsideStep, Owned;
    OutsideOwned(s.gw, f, junk, s.addUser);
  }

  predicate Queued(rows: seq<(IPv4, Mac)>, ip: IPv4) {
    exists i :: 0 <= i < |rows| && rows[i].0 == ip
  }

  lemma {:induction false} AddStaticsResult(g: Gw, rows: seq<(IPv4, Mac)>, t: Statics)
    requires forall ip :: ip in g.staticIPMap ==> ip in t && g.staticIPMap[ip] == t[ip].mac
    requires forall i :: 0 <= i < |rows| ==> rows[i].0 in t && rows[i].1 == t[rows[i].0].mac
    ensures AddStatics(g, rows) == g.(staticIPMap := AddStatics(g, rows).staticIPMap)
    ensures forall ip :: ip in AddStatics(g, rows).staticIPMap ==> ip in t && AddStatics(g, rows).staticIPMap[ip] == t[ip].mac
    ensures forall ip :: ip in g.staticIPMap || Queued(rows, ip) ==> ip in AddStatics(g, rows).staticIPMap
    decreases |rows|
  {
    if rows == [] {
    } else {
      var g' := AddStatic(g, rows[0].0, rows[0].1);
      AddStaticsResult(g', rows[1..], t);
      forall ip | Queued(rows, ip) ensures ip in AddStatics(g, rows).staticIPMap {
        var i :| 0 <= i < |rows| && rows[i].0 == ip;
        if i > 0 {
          assert rows[1..][i - 1].0 == ip;
        }
      }
    }
  }

  lemma {:induction false} DelStaticsResult(g: Gw, ips: seq<IPv4>)
    ensures var g' := DelStatics(g, ips);
            && g' == g.(staticIPMap := g'.staticIPMap)
            && forall ip :: ip in g'.staticIPMap ==> ip in g.staticIPMap && g'.staticIPMap[ip] == g.staticIPMap[ip]
    decreases |ips|
  {
    if ips == [] {
    } else {
      DelStaticsResult(DelStatic(g, ips[0]), ips[1..]);
    }
  }

  lemma CallbackKeepsInv(s: Sys, q: Queue)
    requires Inv(s) && Enabled(s, Callback(q))
    ensures Inv(Step(s, Callback(q)))
  {
    var s' := Step(s, Callback(q));
    match q {
      case AddStaticQ =>
        AddStaticsResult(s.gw, s.addStatic, s.table);
        SameHeapOwned(s.gw, s'.gw, s.addUser);
      case DelStaticQ =>
        DelStaticsResult(s.gw, s.delStatic);
        SameHeapOwned(s.gw, s'.gw, s.addUser);
      case AddUserQ =>
        AddUsersOwned(s.gw, s.addUser);
      case DelUserQ =>
        DelUsersOwned(s.gw, s.delUser, s.addUser);
      case SendQ =>
    }
  }

  lemma RequestKeepsInv(s: Sys, now: nat, d: Decision)
    requires Inv(s) && Enabled(s, ServeDhcp(now, d))
    ensures Inv(ServeRequest(s, d))
  {
    hide Owned, Settle, Decides;
  }

  lemma RegisterKeepsInv(s: Sys)
    requires Inv(s) && s.duty.Registering?
    ensures Inv(Register(s))
  {
    hide Owned;
    AllocateOwned(s.gw, UserInfo(s.duty.offer.ip, s.duty.offer.request.mac, 0, s.timeout), s.addUser);
  }

  /** Every step that stays defined keeps the invariant. */
  lemma StepKeepsInv(s: Sys, a: Action)
    requires Inv(s) && Enabled(s, a) && Step(s, a).gw.ok
    ensures Inv(Step(s, a))
  {
    hide InsideStep, OutsideStep, Settle, Decides;
    match a {
      case Inside(f, now, junk) => InsideKeepsInv(s, f, now, junk);
      case Outside(f, junk) => OutsideKeepsInv(s, f, junk);
      case Callback(q) => CallbackKeepsInv(s, q);
      case ServeDhcp(now, d) => RequestKeepsInv(s, now, d);
      case RegisterUser => RegisterKeepsInv(s);
      case _ =>
    }
  }

  /** The only undefined step is a dangling inside frame: nothing is ever freed twice or used after. */
  lemma OnlyDanglingUndefined(s: Sys, a: Action)
    requires Inv(s) && Enabled(s, a)
    ensures !Step(s, a).gw.ok <==> a.Inside? && Dangling(s.gw, a.f, a.junk)
  {
    hide InsideStep, OutsideStep, Dangling, Settle, Decides;
    match a {
      case Inside(f, now, junk) =>
        InsideUndefinedExactly(s.gw, f, now, junk);
      case Outside(f, junk) => OutsideKeepsInv(s, f, junk);
      case Callback(q) => CallbackKeepsInv(s, q);
      case ServeDhcp(now, d) => RequestKeepsInv(s, now, d);
      case RegisterUser => RegisterKeepsInv(s);
      case _ =>
    }
  }

  /** Undefined behaviour is never undone, so a run that ends defined was defined throughout. */
  lemma OkStays(s: Sys, a: Action)
    requires Enabled(s, a) && Step(s, a).gw.ok
    ensures s.gw.ok
  {
    hide Decides, Settle;
    match a {
      case Inside(f, now, junk) =>
        hide InsideStep;
        InsideReport(s.gw, f, now, junk);
      case Outside(f, junk) => OutsideKeepsOk(s.gw, f, junk);
      case Callback(q) => CallbackKeepsOk(s, q);
      case _ =>
    }
  }

  lemma OutsideKeepsOk(g: Gw, f: seq<byte>, junk: Junk)
    requires OutsideStep(g, f, junk).0.ok
    ensures g.ok
  {
  }

  lemma CallbackKeepsOk(s: Sys, q: Queue)
    requires RunCallback(s, q).gw.ok
    ensures s.gw.ok
  {
    AddStaticsOk(s.gw, s.addStatic);
    DelStaticsResult(s.gw, s.delStatic);
    UsersOk(s.gw, s.addUser, s.delUser);
  }

  lemma {:induction false} AddStaticsOk(g: Gw, rows: seq<(IPv4, Mac)>)
    ensures AddStatics(g, rows).ok == g.ok
    decreases |rows|
  {
    if rows == [] {
    } else {
      AddStaticsOk(AddStatic(g, rows[0].0, rows[0].1), rows[1..]);
    }
  }

  lemma {:induction false} UsersOk(g: Gw, ps: seq<Ptr>, ips: seq<IPv4>)
    ensures AddUsers(g, ps).ok ==> g.ok
    ensures DelUsers(g, ips).ok ==> g.ok
    decreases |ps| + |ips|
  {
    if ps == [] {
    } else {
      UsersOk(AddUser(g, ps[0]), ps[1..], []);
    }
    if ips == [] {
    } else {
      UsersOk(DelUser(g, ips[0]), [], ips[1..]);
    }
  }

  // ---- what runs without `delStaticIP` keep ----

  /**
   * Every static address is in the map or queued for it, and users appear in the map only once the queue
   * of static addresses has been, or is being, drained.
   */
  predicate Covered(s: Sys) {
    && s.delStatic == []
    && (forall ip :: ip in s.table ==> ip in s.gw.staticIPMap || Queued(s.addStatic, ip))
    && match s.phase
       case Serving => s.gw.userMap == map[] || s.addStatic == []
       case Draining(pending) => s.addStatic != [] ==> AddStaticQ in pending
  }

  /** Every record's address is in the table. */
  predicate Backed(s: Sys) {
    forall p :: p in s.gw.live ==> s.gw.live[p].ip in s.table
  }

  lemma BootCovered(t: Statics, u: Users, timeout: nat, rows: seq<(IPv4, Mac)>, infos: seq<UserInfo>)
    requires ListsTable(t, rows) && ListsUsers(u, timeout, infos)
    ensures Covered(Boot(t, u, timeout, rows, infos))
    ensures (forall m, ip :: Holds(u, m, ip) ==> ip in t) ==> Backed(Boot(t, u, timeout, rows, infos))
  {
    forall ip | ip in t ensures Queued(rows, ip) {
      var i :| 0 <= i < |rows| && rows[i] == (ip, t[ip].mac);
      assert rows[i].0 == ip;
    }
  }

  /** While serving, these are what the packet steps need. */
  lemma ServingCoherent(s: Sys)
    requires Inv(s) && Covered(s) && Backed(s) && s.phase.Serving?
    ensures Coherent(s.gw)
  {
  }

  lemma InsideKeepsCovered(s: Sys, f: seq<byte>, now: nat, junk: Junk)
    requires Inv(s) && Covered(s) && ServeInside(s, f, now, junk).gw.ok
    ensures Covered(ServeInside(s, f, now, junk))
    ensures Backed(s) ==> Backed(ServeInside(s, f, now, junk))
  {
    hide InsideStep, Inv, Covered, Backed, Owned;
    InvIsOwned(s);
    InsideOwned(s.gw, f, now, junk, s.addUser);
    SameRecordsCovered(s, ServeInside(s, f, now, junk));
  }

  /** Access times and the queues towards the database are no part of either. */
  lemma SameRecordsCovered(s: Sys, s': Sys)
    requires s' == s.(gw := s'.gw, dhcp := s'.dhcp, updates := s'.updates, sent := s'.sent)
    requires s'.gw.userMap == s.gw.userMap && s'.gw.staticIPMap == s.gw.staticIPMap && s'.gw.live.Keys == s.gw.live.Keys
    requires forall p :: p in s.gw.live ==> s'.gw.live[p].ip == s.gw.live[p].ip
    ensures Covered(s) ==> Covered(s')
    ensures Backed(s) ==> Backed(s')
  {
  }

  lemma InvIsOwned(s: Sys)
    requires Inv(s)
    ensures s.gw.ok && Owned(s.gw, s.addUser)
  {
  }

  lemma OutsideKeepsCovered(s: Sys, f: seq<byte>, junk: Junk)
    requires Inv(s) && Covered(s) && s.phase.Serving?
    ensures Covered(s.(gw := OutsideStep(s.gw, f, junk).0))
    ensures Backed(s) ==> Backed(s.(gw := OutsideStep(s.gw, f, junk).0))
  {
    hide OutsideStep;
    OutsideRemoves(s.gw, f, junk);
  }

  lemma CallbackKeepsCovered(s: Sys, q: Queue)
    requires Inv(s) && Covered(s) && Enabled(s, Callback(q))
    ensures Covered(Step(s, Callback(q)))
    ensures Backed(s) ==> Backed(Step(s, Callback(q)))
  {
    match q {
      case AddStaticQ => AddStaticsResult(s.gw, s.addStatic, s.table);
      case DelStaticQ => assert DelStatics(s.gw, s.delStatic) == s.gw;
      case AddUserQ => AddUsersOwned(s.gw, s.addUser);
      case DelUserQ => DelUsersOwned(s.gw, s.delUser, s.addUser);
      case SendQ =>
    }
  }

  /** Every defined step but `delStaticIP` keeps users covered, whatever the administrator does. */
  lemma StepKeepsCovered(s: Sys, a: Action)
    requires Inv(s) && Covered(s) && Enabled(s, a) && Step(s, a).gw.ok && !a.RequestDelStatic?
    ensures Covered(Step(s, a))
    ensures Backed(s) ==> Backed(Step(s, a))
  {
    hide InsideStep, OutsideStep, Inv, Covered, Backed, ServeRequest, Register, ServeAccess, RunCallback;
    match a {
      case Inside(f, now, junk) => InsideKeepsCovered(s, f, now, junk);
      case Outside(f, junk) => OutsideKeepsCovered(s, f, junk);
      case Callback(q) => CallbackKeepsCovered(s, q);
      case ServeDhcp(_, d) => RequestKeepsCovered(s, d);
      case RegisterUser => RegisterKeepsCovered(s);
      case ServeUpdate => AccessKeepsCovered(s);
      case _ => OtherStepsKeepCovered(s, a);
    }
  }

  lemma RequestKeepsCovered(s: Sys, d: Decision)
    requires Covered(s) && s.dhcpBatch != []
    ensures Covered(ServeRequest(s, d))
    ensures Backed(s) ==> Backed(ServeRequest(s, d))
  {
    hide Settle;
  }

  lemma RegisterKeepsCovered(s: Sys)
    requires Inv(s) && Covered(s) && s.duty.Registering?
    ensures Covered(Register(s))
    ensures Backed(s) ==> Backed(Register(s))
  {
    hide Owned;
  }

  lemma AccessKeepsCovered(s: Sys)
    requires Covered(s) && s.updateBatch != []
    ensures Covered(ServeAccess(s))
    ensures Backed(s) ==> Backed(ServeAccess(s))
  {
  }

  lemma OtherStepsKeepCovered(s: Sys, a: Action)
    requires Covered(s) && Enabled(s, a)
    requires a.Poll? || a.EndRound? || a.TakeDhcp? || a.SendOffer? || a.TakeUpdates? || a.AdminWrite? || a.AdminRemove?
    ensures Covered(Step(s, a))
    ensures Backed(s) ==> Backed(Step(s, a))
  {
    hide Decides;
  }

  /** With every record's address in the table, all of these steps are defined. */
  lemma CoveredStepDefined(s: Sys, a: Action)
    requires Inv(s) && Covered(s) && Backed(s) && Enabled(s, a)
    ensures Step(s, a).gw.ok
  {
    OnlyDanglingUndefined(s, a);
    if a.Inside? {
      ServingCoherent(s);
    }
    hide Step, Inv, Covered, Backed;
  }

  // ---- when addresses stay unshared ----

  /** An administrator's write that gives nobody an address another row holds. */
  ghost predicate Exclusive(s: Sys, a: Action) {
    a.AdminWrite? && a.row.ip.Some? ==> forall n :: Holds(s.users, n, a.row.ip.value) ==> n == a.mac
  }

  lemma AccessMovesNoAddress(s: Sys)
    requires s.updateBatch != []
    ensures forall m, ip :: Holds(ServeAccess(s).users, m, ip) <==> Holds(s.users, m, ip)
  {
  }

  /** Uniqueness needs nothing else: it holds through every other step, defined or not. */
  lemma StepKeepsUnique(s: Sys, a: Action)
    requires Unique(s.users) && Enabled(s, a) && Exclusive(s, a)
    ensures Unique(Step(s, a).users)
  {
    var s' := Step(s, a);
    match a {
      case ServeDhcp(now, d) =>
        Tables.StepKeepsUnique(s.table, s.users, s.dhcpBatch[0].mac, now, d);
        hide Settle, Decides;
      case ServeUpdate => AccessMovesNoAddress(s);
      case AdminWrite(m, row) =>
        assert forall n, ip :: Holds(s'.users, n, ip) ==> if n == m then row.ip == Some(ip) else Holds(s.users, n, ip);
      case AdminRemove(m) =>
        assert forall n, ip :: Holds(s'.users, n, ip) ==> Holds(s.users, n, ip);
      case _ =>
    }
  }
}
