/** `class Database` of database.hh: the two event callbacks that work on the tables. */
module Database {
  import opened Octets
  import opened Tables
  import opened Forwarding
  import opened Mailboxes
  import Ownership
  import G = Gateway
  import Reply

  /** The record `addUserInfo` receives for one request: none unless it is acknowledged. */
  function Record(t: Statics, timeout: nat, r: Reply.DhcpRequest, d: Decision): (infos: seq<UserInfo>)
    ensures |infos| <= 1
  {
    if Response(t, d).Some? && !r.isDiscover then [UserInfo(d.ip, r.mac, 0, timeout)] else []
  }

  /** The records for the decided part of a batch. */
  function Records(t: Statics, timeout: nat, batch: seq<Reply.DhcpRequest>, ds: seq<Decision>): seq<UserInfo>
    requires |ds| <= |batch|
    decreases |ds|
  {
    if ds == [] then []
    else var n := |ds| - 1; Records(t, timeout, batch, ds[..n]) + Record(t, timeout, batch[n], ds[n])
  }

  function AllocateAll(g: Gw, infos: seq<UserInfo>): Gw
    decreases |infos|
  {
    if infos == [] then g else Allocate(AllocateAll(g, infos[..|infos| - 1]), infos[|infos| - 1])
  }

  /** The addresses `malloc` returns for `n` records in a row. */
  function Ids(from: Ptr, n: nat): seq<Ptr> {
    seq(n, i => from + i)
  }

  lemma {:induction false} AllocateAllNext(g: Gw, infos: seq<UserInfo>)
    ensures AllocateAll(g, infos).next == g.next + |infos|
    decreases |infos|
  {
    if infos == [] {
    } else {
      AllocateAllNext(g, infos[..|infos| - 1]);
    }
  }

  /** A frame that fits is the reply its request and address determine; one that does not has no bytes. */
  ghost predicate IsReply(c: Reply.Config, r: Reply.DhcpRequest, ip: IPv4, f: seq<byte>) {
    if |c.dns| <= 299 then exists hole: Quad :: f == Reply.ReplyFrame(c, r, ip, hole) else f == []
  }

  /** What one request queues for sending: its reply, if it gets a response. */
  ghost predicate Answer1(c: Reply.Config, t: Statics, r: Reply.DhcpRequest, d: Decision, frames: seq<seq<byte>>) {
    if Response(t, d).None? then frames == [] else |frames| == 1 && IsReply(c, r, d.ip, frames[0])
  }

  /** The frames queued for a batch: the requests' answers in order. */
  ghost predicate Answers(c: Reply.Config, t: Statics, batch: seq<Reply.DhcpRequest>, ds: seq<Decision>, parts: seq<seq<seq<byte>>>) {
    |ds| == |parts| <= |batch| && forall i :: 0 <= i < |ds| ==> Answer1(c, t, batch[i], ds[i], parts[i])
  }

  function Flatten(parts: seq<seq<seq<byte>>>): seq<seq<byte>> {
    if parts == [] then [] else Flatten(parts[..|parts| - 1]) + parts[|parts| - 1]
  }

  /** `updateAccessTime` for each report in turn; a report without a row changes nothing. */
  function RecordAccesses(u: Users, batch: seq<UpdateTime>): (r: Users)
    ensures r.Keys == u.Keys
    decreases |batch|
  {
    if batch == [] then u
    else
      var before := RecordAccesses(u, batch[..|batch| - 1]);
      var last := batch[|batch| - 1];
      if last.mac in before then before[last.mac := before[last.mac].(accessed := last.utc)] else before
  }

  /** The addresses of the reports whose user is gone from the table. */
  function Vanished(u: Users, batch: seq<UpdateTime>): seq<IPv4>
    decreases |batch|
  {
    if batch == [] then []
    else
      var last := batch[|batch| - 1];
      Vanished(u, batch[..|batch| - 1]) + if last.mac in u then [] else [last.ip]
  }

  /** Report `i` is the last one of this user in the batch. */
  predicate LastReport(batch: seq<UpdateTime>, i: int, m: Mac) {
    0 <= i < |batch| && batch[i].mac == m && forall j :: i < j < |batch| ==> batch[j].mac != m
  }

  /** Recording accesses moves no address, and each user ends with its last report. */
  lemma {:induction false} AccessesMoveNoAddress(u: Users, batch: seq<UpdateTime>, m: Mac)
    requires m in u
    ensures RecordAccesses(u, batch)[m].ip == u[m].ip
    ensures forall i :: LastReport(batch, i, m) ==> RecordAccesses(u, batch)[m].accessed == batch[i].utc
    ensures (forall i :: 0 <= i < |batch| ==> batch[i].mac != m) ==> RecordAccesses(u, batch)[m].accessed == u[m].accessed
    decreases |batch|
  {
    if batch == [] {
    } else {
      var n := |batch| - 1;
      var was, now := RecordAccesses(u, batch[..n])[m], RecordAccesses(u, batch)[m];
      AccessesMoveNoAddress(u, batch[..n], m);
      assert now == if batch[n].mac == m then was.(accessed := batch[n].utc) else was;
      hide RecordAccesses;
      assert forall k :: 0 <= k < n ==> batch[k] == batch[..n][k];
      forall i | LastReport(batch, i, m) ensures now.accessed == batch[i].utc {
        if i < n {
          assert LastReport(batch[..n], i, m);
        }
      }
    }
  }

  /** Removals are asked for in the order of the reports. */
  lemma {:induction false} VanishedInOrder(u: Users, a: seq<UpdateTime>, b: seq<UpdateTime>)
    ensures Vanished(u, a + b) == Vanished(u, a) + Vanished(u, b)
    decreases |b|
  {
    hide Vanished;
    if b == [] {
      assert a + b == a;
      NobodyVanished(u);
    } else {
      var n := |b| - 1;
      var front, x := b[..n], b[n];
      VanishedInOrder(u, a, front);
      VanishedLast(u, a + front, x);
      VanishedLast(u, front, x);
      assert front + [x] == b && a + front + [x] == a + b;
      var e := if x.mac in u then [] else [x.ip];
      assert Vanished(u, a) + Vanished(u, front) + e == Vanished(u, a) + (Vanished(u, front) + e);
    }
  }

  /** One for a report without a row, none for one with. */
  lemma OneVanished(u: Users, x: UpdateTime)
    ensures Vanished(u, [x]) == if x.mac in u then [] else [x.ip]
  {
    NobodyVanished(u);
    VanishedLast(u, [], x);
    assert [] + [x] == [x];
    hide Vanished;
  }

  lemma NobodyVanished(u: Users)
    ensures Vanished(u, []) == []
  {
  }

  lemma VanishedLast(u: Users, batch: seq<UpdateTime>, x: UpdateTime)
    ensures Vanished(u, batch + [x]) == Vanished(u, batch) + if x.mac in u then [] else [x.ip]
  {
    assert (batch + [x])[..|batch|] == batch;
  }

  /**
   * A request gets a record exactly when it is no discover and leaves its user with an address of `static_ip`;
   * it gets one reply exactly in the latter case.
   */
  lemma OutcomeExactly(c: Reply.Config, t: Statics, u: Users, timeout: nat, r: Reply.DhcpRequest, now: nat, d: Decision, ip: IPv4)
    requires Decides(t, u, r.mac, now, d)
    ensures Record(t, timeout, r, d) == [UserInfo(ip, r.mac, 0, timeout)] <==>
              !r.isDiscover && Holds(Settle(u, r.mac, d), r.mac, ip) && ip in t
    ensures (forall j :: Holds(Settle(u, r.mac, d), r.mac, j) ==> j !in t) ==> Record(t, timeout, r, d) == []
    ensures forall frames :: Answer1(c, t, r, d, frames) && Holds(Settle(u, r.mac, d), r.mac, ip) && ip in t ==>
              |frames| == 1 && IsReply(c, r, ip, frames[0])
    ensures forall frames :: Answer1(c, t, r, d, frames) && (forall j :: Holds(Settle(u, r.mac, d), r.mac, j) ==> j !in t) ==>
              frames == []
  {
    hide Decides, Settle, IsReply;
    ResponseExactly(t, u, r.mac, now, d, ip);
    if Response(t, d).Some? {
      ResponseExactly(t, u, r.mac, now, d, Response(t, d).value);
    }
  }

  class Database {
    const table: Statics
    var users: Users
    const config: Reply.Config
    const timeout: nat
    const gateway: G.Gateway

    constructor (table: Statics, users: Users, config: Reply.Config, timeout: nat, gateway: G.Gateway)
      ensures this.table == table && this.users == users && this.config == config
      ensures this.timeout == timeout && this.gateway == gateway
    {
      this.table, this.users, this.config, this.timeout, this.gateway := table, users, config, timeout, gateway;
    }

    /** The queries of lines 201-256, up to the row each `first()` returns. */
    method Decide(mac: Mac, now: nat) returns (d: Decision)
      ensures Decides(table, users, mac, now, d)
    {
      if mac !in users {
        return Unknown;
      }
      if users[mac].ip.Some? {
        return Keep(users[mac].ip.value);
      }
      var unused := Unused(table, users);
      if unused != {} {
        var ip :| ip in unused;
        return Take(ip);
      }
      var cutoff := Cutoff(now);
      var expired := Expired(table, users, cutoff);
      if expired == {} {
        return Refuse;
      }
      ghost var oldest := LeastExists(table, users, cutoff, expired);
      assert LeastRecent(table, users, cutoff, oldest);
      var owner :| owner in expired && LeastRecent(table, users, cutoff, owner);
      d := Reclaim(owner, users[owner].ip.value);
    }

    /** The statements of lines 201-268: decide, release a reclaimed address, store the assignment. */
    method Assign(r: Reply.DhcpRequest, now: nat) returns (d: Decision)
      modifies this
      ensures Decides(table, old(users), r.mac, now, d) && users == Settle(old(users), r.mac, d)
    {
      hide Decides;
      d := Decide(r.mac, now);
      if d.Unknown? || d.Refuse? {
        return;
      }
      if d.Reclaim? {
        users := ClearAddress(users, d.ip);
      }
      users := SetAddress(users, r.mac, d.ip);
    }

    /** Lines 278-299: the reply as bytes. */
    method Build(r: Reply.DhcpRequest, ip: IPv4) returns (frame: seq<byte>)
      ensures IsReply(config, r, ip, frame)
    {
      hide Reply.ReplyFrame;
      var packet := Reply.BuildReply(config, r, ip);
      frame := if packet.writtenByte < 0 then [] else packet.inMemory[..packet.writtenByte];
    }

    /** One request of the batch loop. */
    method ServeRequest(r: Reply.DhcpRequest, now: nat) returns (ghost d: Decision, ghost frames: seq<seq<byte>>)
      requires gateway.Valid()
      modifies this, gateway, gateway.addUserBox, gateway.sendBox
      ensures gateway.Valid()
      ensures Decides(table, old(users), r.mac, now, d) && users == Settle(old(users), r.mac, d)
      ensures var infos := Record(table, timeout, r, d);
              && gateway.State() == AllocateAll(old(gateway.State()), infos)
              && gateway.addUserBox.queue == old(gateway.addUserBox.queue) + Ids(old(gateway.next), |infos|)
      ensures gateway.sendBox.queue == old(gateway.sendBox.queue) + frames && Answer1(config, table, r, d, frames)
      ensures unchanged(gateway`toInside, gateway`toOutside)
    {
      hide Decides, Settle, IsReply, Ids, Ownership.Owned;
      var choice := Assign(r, now);
      d, frames := choice, [];
      NothingAllocated(gateway.State());
      if Response(table, choice).Some? {
        frames := Respond(r, choice.ip);
      }
    }

    /** Lines 278-312: build the reply, register the user on an acknowledgement, queue the reply. */
    method Respond(r: Reply.DhcpRequest, ip: IPv4) returns (ghost frames: seq<seq<byte>>)
      requires gateway.Valid()
      modifies gateway, gateway.addUserBox, gateway.sendBox
      ensures gateway.Valid()
      ensures var infos := if r.isDiscover then [] else [UserInfo(ip, r.mac, 0, timeout)];
              && gateway.State() == AllocateAll(old(gateway.State()), infos)
              && gateway.addUserBox.queue == old(gateway.addUserBox.queue) + Ids(old(gateway.next), |infos|)
      ensures |frames| == 1 && IsReply(config, r, ip, frames[0])
      ensures gateway.sendBox.queue == old(gateway.sendBox.queue) + frames
      ensures unchanged(gateway`toInside, gateway`toOutside)
    {
      hide IsReply;
      var frame := Build(r, ip);
      if !r.isDiscover {
        var info := UserInfo(ip, r.mac, 0, timeout);
        gateway.AddUserInfo(info);
        assert [info][..0] == [];
      }
      gateway.SendPacketRequest(frame);
      frames := [frame];
    }

    /** `create_dhcp`: drain the mailbox, then serve the batch; `nows` are the clock readings. */
    method CreateDhcp(nows: seq<nat>)
      returns (ghost us: seq<Users>, ghost rs: seq<Request>, ghost ds: seq<Decision>, ghost parts: seq<seq<seq<byte>>>)
      requires gateway.Valid() && |nows| == |gateway.dhcpBox.queue|
      modifies this, gateway, gateway.addUserBox, gateway.sendBox, gateway.dhcpBox
      ensures gateway.Valid() && gateway.dhcpBox.queue == []
      ensures |rs| == |nows| && forall i :: 0 <= i < |rs| ==> rs[i] == Request(old(gateway.dhcpBox.queue)[i].mac, nows[i])
      ensures IsRun(table, us, rs, ds) && us[0] == old(users) && us[|rs|] == users
      ensures var infos := Records(table, timeout, old(gateway.dhcpBox.queue), ds);
              && gateway.State() == AllocateAll(old(gateway.State()), infos)
              && gateway.addUserBox.queue == old(gateway.addUserBox.queue) + Ids(old(gateway.next), |infos|)
      ensures gateway.sendBox.queue == old(gateway.sendBox.queue) + Flatten(parts)
      ensures Answers(config, table, old(gateway.dhcpBox.queue), ds, parts)
    {
      hide Decides, Settle, Answer1, Response, IsRun, Record, Records, Answers, Flatten, AllocateAll, Ids, Ownership.Owned;
      var batch := gateway.dhcpBox.Drain();
      us, rs, ds, parts := [users], [], [], [];
      StartBatch(config, table, timeout, users, batch);
      NothingAllocated(gateway.State());
      ghost var infos := [];
      for i := 0 to |batch|
        invariant gateway.Valid() && gateway.dhcpBox.queue == []
        invariant |rs| == |ds| == i && |us| == i + 1 && us[0] == old(users) && us[i] == users
        invariant forall k :: 0 <= k < i ==> rs[k] == Request(batch[k].mac, nows[k])
        invariant IsRun(table, us, rs, ds)
        invariant infos == Records(table, timeout, batch, ds)
        invariant gateway.State() == AllocateAll(old(gateway.State()), infos)
        invariant gateway.addUserBox.queue == old(gateway.addUserBox.queue) + Ids(old(gateway.next), |infos|)
        invariant gateway.sendBox.queue == old(gateway.sendBox.queue) + Flatten(parts) && Answers(config, table, batch, ds, parts)
      {
        AllocateAllNext(old(gateway.State()), infos);
        ghost var d, frames := ServeRequest(batch[i], nows[i]);
        ghost var more := Record(table, timeout, batch[i], d);
        ExtendRun(table, us, rs, ds, Request(batch[i].mac, nows[i]), d);
        AllocateMore(old(gateway.State()), infos, more);
        ExtendBatch(config, table, timeout, batch, ds, parts, d, frames);
        us, rs, ds, parts := us + [users], rs + [Request(batch[i].mac, nows[i])], ds + [d], parts + [frames];
        infos := infos + more;
      }
    }

    static lemma StartBatch(c: Reply.Config, t: Statics, timeout: nat, u: Users, batch: seq<Reply.DhcpRequest>)
      ensures IsRun(t, [u], [], [])
      ensures Records(t, timeout, batch, []) == [] && Answers(c, t, batch, [], []) && Flatten([]) == []
    {
    }

    static lemma ExtendBatch(c: Reply.Config, t: Statics, timeout: nat, batch: seq<Reply.DhcpRequest>, ds: seq<Decision>,
                             parts: seq<seq<seq<byte>>>, d: Decision, frames: seq<seq<byte>>)
      requires |ds| < |batch| && Answers(c, t, batch, ds, parts) && Answer1(c, t, batch[|ds|], d, frames)
      ensures Records(t, timeout, batch, ds + [d]) == Records(t, timeout, batch, ds) + Record(t, timeout, batch[|ds|], d)
      ensures Answers(c, t, batch, ds + [d], parts + [frames])
      ensures Flatten(parts + [frames]) == Flatten(parts) + frames
    {
      hide Answer1, Record;
      assert (ds + [d])[..|ds|] == ds && (parts + [frames])[..|parts|] == parts;
    }

    static lemma ExtendRun(t: Statics, us: seq<Users>, rs: seq<Request>, ds: seq<Decision>, r: Request, d: Decision)
      requires IsRun(t, us, rs, ds) && Decides(t, us[|rs|], r.mac, r.now, d)
      ensures IsRun(t, us + [Settle(us[|rs|], r.mac, d)], rs + [r], ds + [d])
    {
      hide Decides, Settle;
    }

    static lemma {:induction false} AllocateMore(g: Gw, done: seq<UserInfo>, more: seq<UserInfo>)
      requires |more| <= 1
      ensures AllocateAll(AllocateAll(g, done), more) == AllocateAll(g, done + more)
      ensures Ids(g.next, |done|) + Ids(g.next + |done|, |more|) == Ids(g.next, |done + more|)
    {
      NothingAllocated(AllocateAll(g, done));
      if more != [] {
        assert (done + more)[..|done|] == done && more[..0] == [];
      } else {
        assert done + more == done;
      }
    }

    static lemma NothingAllocated(g: Gw)
      ensures AllocateAll(g, []) == g && Ids(g.next, 0) == []
    {
    }

    /** `update_time`: record each report, or ask the gateway to forget a user without a row. */
    method UpdateTimes()
      requires gateway.Valid()
      modifies this, gateway.updateBox, gateway.delUserBox
      ensures gateway.Valid() && gateway.updateBox.queue == []
      ensures users == RecordAccesses(old(users), old(gateway.updateBox.queue))
      ensures gateway.delUserBox.queue == old(gateway.delUserBox.queue) + Vanished(old(users), old(gateway.updateBox.queue))
    {
      var batch := gateway.updateBox.Drain();
      for i := 0 to |batch|
        invariant gateway.Valid() && gateway.updateBox.queue == []
        invariant users == RecordAccesses(old(users), batch[..i])
        invariant gateway.delUserBox.queue == old(gateway.delUserBox.queue) + Vanished(old(users), batch[..i])
      {
        assert batch[..i + 1][..i] == batch[..i];
        RecordAccess(batch[i]);
      }
      assert batch[..|batch|] == batch;
    }

    /** One report of the batch loop. */
    method RecordAccess(request: UpdateTime)
      requires gateway.Valid()
      modifies this, gateway.delUserBox
      ensures gateway.Valid()
      ensures users == if request.mac in old(users) then old(users)[request.mac := old(users)[request.mac].(accessed := request.utc)] else old(users)
      ensures gateway.delUserBox.queue == old(gateway.delUserBox.queue) + if request.mac in old(users) then [] else [request.ip]
    {
      if request.mac in users {
        users := users[request.mac := users[request.mac].(accessed := request.utc)];
      } else {
        gateway.DelUserInfo(request.ip);
      }
    }
  }
}
