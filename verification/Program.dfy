/**
 * The objects of the running program, each step of which is the step of the same name in `System`:
 * the transition system is what the classes do.
 */
module Program {
  import opened Octets
  import opened Tables
  import opened Forwarding
  import opened System
  import Ownership
  import G = Gateway
  import D = Database
  import Reply

  /** The queued frames are the replies that the queued offers stand for. */
  ghost predicate Carries(c: Reply.Config, offers: seq<Offer>, frames: seq<seq<byte>>) {
    |offers| == |frames| && forall i :: 0 <= i < |offers| ==> D.IsReply(c, offers[i].request, offers[i].ip, frames[i])
  }

  /** The two loops of main.cpp:289-301. */
  method LoadStatics(g: G.Gateway, rows: seq<(IPv4, Mac)>)
    requires g.Valid() && g.addStaticBox.queue == []
    modifies g.addStaticBox
    ensures g.Valid() && g.addStaticBox.queue == rows
  {
    hide Ownership.Owned;
    for i := 0 to |rows|
      invariant g.Valid() && g.addStaticBox.queue == rows[..i]
    {
      g.AddStaticIP(rows[i].0, rows[i].1);
    }
  }

  method LoadUsers(g: G.Gateway, infos: seq<UserInfo>)
    requires g.Valid() && g.State() == Gw(map[], map[], map[], 0, true) && g.addUserBox.queue == []
    modifies g, g.addUserBox
    ensures g.Valid() && g.addUserBox.queue == seq(|infos|, k => k)
    ensures g.State() == Gw(map[], map[], map k: Ptr | 0 <= k < |infos| :: infos[k], |infos|, true)
  {
    hide Ownership.Owned;
    for i := 0 to |infos|
      invariant g.Valid() && g.addUserBox.queue == seq(i, k => k)
      invariant g.State() == Gw(map[], map[], map k: Ptr | 0 <= k < i :: infos[k], i, true)
    {
      g.AddUserInfo(infos[i]);
    }
  }

  method StartGateway(rows: seq<(IPv4, Mac)>, infos: seq<UserInfo>) returns (g: G.Gateway)
    ensures g.Valid() && g.addStaticBox.queue == rows && g.addUserBox.queue == seq(|infos|, k => k)
    ensures g.State() == Gw(map[], map[], map k: Ptr | 0 <= k < |infos| :: infos[k], |infos|, true)
    ensures g.delStaticBox.queue == [] && g.delUserBox.queue == [] && g.sendBox.queue == []
    ensures g.dhcpBox.queue == [] && g.updateBox.queue == []
  {
    hide Ownership.Owned;
    g := new G.Gateway();
    LoadStatics(g, rows);
    LoadUsers(g, infos);
  }

  class Program {
    const gateway: G.Gateway
    const database: D.Database
    /** The vectors `create_dhcp` and `update_time` work through after their drain. */
    var dhcpBatch: seq<Reply.DhcpRequest>
    var updateBatch: seq<UpdateTime>
    /** The locals of `create_dhcp` between two mailbox calls. */
    var duty: Duty
    var reply: seq<byte>
    /** The state of the transition system that the objects are in. */
    ghost var model: Sys

    ghost predicate Valid()
      reads this, database, gateway, gateway.addStaticBox, gateway.delStaticBox, gateway.addUserBox, gateway.delUserBox,
            gateway.sendBox, gateway.dhcpBox, gateway.updateBox
    {
      && database.gateway == gateway && gateway.Valid()
      && model.gw == gateway.State() && model.table == database.table && model.users == database.users
      && model.timeout == database.timeout
      && model.addStatic == gateway.addStaticBox.queue && model.delStatic == gateway.delStaticBox.queue
      && model.addUser == gateway.addUserBox.queue && model.delUser == gateway.delUserBox.queue
      && model.dhcp == gateway.dhcpBox.queue && model.updates == gateway.updateBox.queue
      && model.dhcpBatch == dhcpBatch && model.updateBatch == updateBatch && model.duty == duty
      && (!duty.Idle? ==> D.IsReply(database.config, duty.offer.request, duty.offer.ip, reply))
      && Carries(database.config, model.send, gateway.sendBox.queue)
    }

    /** main.cpp:285-301: create both objects and enqueue what the tables hold. */
    constructor (table: Statics, users: Users, config: Reply.Config, timeout: nat,
                 rows: seq<(IPv4, Mac)>, infos: seq<UserInfo>)
      ensures Valid() && model == Boot(table, users, timeout, rows, infos)
    {
      hide Ownership.Owned, D.IsReply;
      var g := StartGateway(rows, infos);
      gateway := g;
      database := new D.Database(table, users, config, timeout, g);
      dhcpBatch, updateBatch, duty, reply := [], [], Idle, [];
      model := Boot(table, users, timeout, rows, infos);
    }

    // ---- the packet thread ----

    method InsideFrame(f: seq<byte>, now: nat, junk: Junk)
      requires Valid() && model.phase.Serving? && !Dangling(model.gw, f, junk)
      modifies this, gateway, gateway.packet, gateway.packet.inMemory, gateway.dhcpBox, gateway.updateBox
      ensures Enabled(old(model), Inside(f, now, junk))
      ensures Valid() && model == Step(old(model), Inside(f, now, junk))
    {
      hide InsideStep, Dangling, Ownership.Owned, D.IsReply;
      var v := gateway.InsideFrame(f, now, junk);
      model := Step(model, Inside(f, now, junk));
    }

    method OutsideFrame(f: seq<byte>, junk: Junk)
      requires Valid() && model.phase.Serving?
      modifies this, gateway, gateway.packet, gateway.packet.inMemory
      ensures Enabled(old(model), Outside(f, junk))
      ensures Valid() && model == Step(old(model), Outside(f, junk))
    {
      hide OutsideStep, Ownership.Owned, D.IsReply;
      var v := gateway.OutsideFrame(f, junk);
      model := Step(model, Outside(f, junk));
    }

    method RunCallback(q: Queue)
      requires Valid() && model.phase.Draining? && q in model.phase.pending
      modifies this, gateway, gateway.addStaticBox, gateway.delStaticBox, gateway.addUserBox, gateway.delUserBox, gateway.sendBox
      ensures Enabled(old(model), Callback(q))
      ensures Valid() && model == Step(old(model), Callback(q)) && model.phase == Draining(old(model).phase.pending - {q})
    {
      hide Ownership.Owned, D.IsReply, Carries, AddStatics, DelStatics, AddUsers, DelUsers, Step, Enabled;
      assert gateway.delStaticBox != gateway.delUserBox;
      hide G.Gateway.Valid;
      NothingCarried(database.config);
      ghost var before := model;
      match q {
        case AddStaticQ => gateway.DrainAddStatic();
        case DelStaticQ => gateway.DrainDelStatic();
        case AddUserQ => gateway.DrainAddUser();
        case DelUserQ => gateway.DrainDelUser();
        case SendQ => gateway.DrainSend();
      }
      CallbackStep(before, q);
      model := Step(before, Callback(q));
    }

    static lemma NothingCarried(c: Reply.Config)
      ensures Carries(c, [], [])
    {
    }

    static lemma CallbackStep(s: Sys, q: Queue)
      requires s.phase.Draining? && q in s.phase.pending
      ensures Enabled(s, Callback(q))
      ensures Step(s, Callback(q)) == System.RunCallback(s, q).(phase := Draining(s.phase.pending - {q}))
    {
    }

    /** The start of an event round: the eventfd counters tell which callbacks will run. */
    method PollEvents() returns (ready: set<Queue>)
      requires Valid() && model.phase.Serving?
      modifies this
      ensures Enabled(old(model), Poll)
      ensures Valid() && model == Step(old(model), Poll) && model.phase == Draining(ready)
      ensures AddStaticQ in ready <==> gateway.addStaticBox.queue != []
      ensures DelStaticQ in ready <==> gateway.delStaticBox.queue != []
      ensures AddUserQ in ready <==> gateway.addUserBox.queue != []
      ensures DelUserQ in ready <==> gateway.delUserBox.queue != []
      ensures SendQ in ready <==> gateway.sendBox.queue != []
    {
      hide Ownership.Owned, D.IsReply, Carries, Step, Enabled;
      PollStep(model);
      ready := (if gateway.addStaticBox.counter == 0 then {} else {AddStaticQ})
             + (if gateway.delStaticBox.counter == 0 then {} else {DelStaticQ})
             + (if gateway.addUserBox.counter == 0 then {} else {AddUserQ})
             + (if gateway.delUserBox.counter == 0 then {} else {DelUserQ})
             + (if gateway.sendBox.counter == 0 then {} else {SendQ});
      SameLength(database.config, model.send, gateway.sendBox.queue);
      model := Step(model, Poll);
    }

    static lemma PollStep(s: Sys)
      requires s.phase.Serving?
      ensures Enabled(s, Poll) && Step(s, Poll) == s.(phase := Draining(Ready(s)))
    {
    }

    static lemma SameLength(c: Reply.Config, offers: seq<Offer>, frames: seq<seq<byte>>)
      requires Carries(c, offers, frames)
      ensures offers == [] <==> frames == []
    {
    }

    ghost method FinishRound()
      requires Valid() && model.phase == Draining({})
      modifies this
      ensures Enabled(old(model), EndRound)
      ensures Valid() && model == Step(old(model), EndRound) && model.phase.Serving?
    {
      hide Ownership.Owned;
      model := Step(model, EndRound);
    }

    // ---- the database thread ----

    method DrainDhcp()
      requires Valid() && duty.Idle? && dhcpBatch == [] && updateBatch == [] && gateway.dhcpBox.queue != []
      modifies this, gateway.dhcpBox
      ensures Enabled(old(model), TakeDhcp)
      ensures Valid() && model == Step(old(model), TakeDhcp)
    {
      dhcpBatch := gateway.dhcpBox.Drain();
      model := Step(model, TakeDhcp);
    }

    method NextDhcp(now: nat) returns (d: Decision)
      requires Valid() && dhcpBatch != [] && duty.Idle?
      modifies this, database
      ensures Enabled(old(model), ServeDhcp(now, d))
      ensures Valid() && model == Step(old(model), ServeDhcp(now, d))
    {
      hide G.Gateway.Valid, D.IsReply, Carries, Decides, Settle, Step, Enabled, DutyOf;
      d := BeginRequest(dhcpBatch[0], now);
      dhcpBatch := dhcpBatch[1..];
      DhcpStep(model, now, d);
      model := Step(model, ServeDhcp(now, d));
    }

    /** The statements for one request; its reply is built before any mailbox is written. */
    method BeginRequest(r: Reply.DhcpRequest, now: nat) returns (d: Decision)
      modifies this`duty, this`reply, database
      ensures Decides(database.table, old(database.users), r.mac, now, d)
      ensures database.users == Settle(old(database.users), r.mac, d) && duty == DutyOf(database.table, r, d)
      ensures !duty.Idle? ==> D.IsReply(database.config, duty.offer.request, duty.offer.ip, reply)
    {
      hide D.IsReply, Decides, Settle, DutyOf;
      d := database.Assign(r, now);
      DutyFor(database.table, r, d);
      duty := DutyOf(database.table, r, d);
      if !duty.Idle? {
        reply := database.Build(r, d.ip);
      }
    }

    static lemma DhcpStep(s: Sys, now: nat, d: Decision)
      requires s.duty.Idle? && s.dhcpBatch != [] && Decides(s.table, s.users, s.dhcpBatch[0].mac, now, d)
      ensures Enabled(s, ServeDhcp(now, d))
      ensures var s', r := Step(s, ServeDhcp(now, d)), s.dhcpBatch[0];
              s' == s.(users := Settle(s.users, r.mac, d), dhcpBatch := s.dhcpBatch[1..], duty := DutyOf(s.table, r, d),
                       everAssigned := s'.everAssigned)
    {
      hide Decides, Settle;
    }

    static lemma DutyFor(t: Statics, r: Reply.DhcpRequest, d: Decision)
      ensures !DutyOf(t, r, d).Idle? ==> (d.Keep? || d.Take? || d.Reclaim?) && DutyOf(t, r, d).offer == Offer(r, d.ip)
    {
    }

    method RegisterUser()
      requires Valid() && duty.Registering?
      modifies this, gateway, gateway.addUserBox
      ensures Enabled(old(model), System.RegisterUser)
      ensures Valid() && model == Step(old(model), System.RegisterUser)
    {
      hide Ownership.Owned, D.IsReply, Carries;
      gateway.AddUserInfo(UserInfo(duty.offer.ip, duty.offer.request.mac, 0, database.timeout));
      duty := Answering(duty.offer);
      model := Step(model, System.RegisterUser);
    }

    method SendOffer()
      requires Valid() && duty.Answering?
      modifies this, gateway.sendBox
      ensures Enabled(old(model), System.SendOffer)
      ensures Valid() && model == Step(old(model), System.SendOffer)
    {
      hide Ownership.Owned, D.IsReply;
      gateway.SendPacketRequest(reply);
      model := Step(model, System.SendOffer);
      duty := Idle;
    }

    method DrainUpdates()
      requires Valid() && duty.Idle? && dhcpBatch == [] && updateBatch == [] && gateway.updateBox.queue != []
      modifies this, gateway.updateBox
      ensures Enabled(old(model), TakeUpdates)
      ensures Valid() && model == Step(old(model), TakeUpdates)
    {
      updateBatch := gateway.updateBox.Drain();
      model := Step(model, TakeUpdates);
    }

    method NextUpdate()
      requires Valid() && duty.Idle? && updateBatch != []
      modifies this, database, gateway.delUserBox
      ensures Enabled(old(model), ServeUpdate)
      ensures Valid() && model == Step(old(model), ServeUpdate)
    {
      database.RecordAccess(updateBatch[0]);
      updateBatch := updateBatch[1..];
      model := Step(model, ServeUpdate);
    }

    // ---- callers from outside ----

    method WriteRow(mac: Mac, row: UserRow)
      requires Valid()
      modifies this, database
      ensures Valid() && model == Step(old(model), AdminWrite(mac, row))
    {
      hide Ownership.Owned;
      database.users := database.users[mac := row];
      model := Step(model, AdminWrite(mac, row));
    }

    method RemoveRow(mac: Mac)
      requires Valid()
      modifies this, database
      ensures Valid() && model == Step(old(model), AdminRemove(mac))
    {
      hide Ownership.Owned;
      database.users := database.users - {mac};
      model := Step(model, AdminRemove(mac));
    }

    method DelStaticIP(ip: IPv4)
      requires Valid()
      modifies this, gateway.delStaticBox
      ensures Valid() && model == Step(old(model), RequestDelStatic(ip))
    {
      gateway.DelStaticIP(ip);
      model := Step(model, RequestDelStatic(ip));
    }
  }
}
