/** `class Gateway` of gateway.hh: its fields, its callbacks and its packet steps, updated in place. */
module Gateway {
  import opened Octets
  import opened Packets
  import opened Frames
  import opened Forwarding
  import opened Ownership
  import opened Mailboxes
  import Icmp
  import Reply

  class Gateway {
    var staticIPMap: map<IPv4, Mac>
    var userMap: map<IPv4, Ptr>
    var live: map<Ptr, UserInfo>
    var next: Ptr

    const addStaticBox: Mailbox<(IPv4, Mac)>
    const delStaticBox: Mailbox<IPv4>
    const addUserBox: Mailbox<Ptr>
    const delUserBox: Mailbox<IPv4>
    const sendBox: Mailbox<seq<byte>>
    /** The two mailboxes of the database thread that packet steps write to. */
    const dhcpBox: Mailbox<Reply.DhcpRequest>
    const updateBox: Mailbox<UpdateTime>

    const packet: Packet
    /** What was handed to the two devices. */
    var toInside: seq<seq<byte>>
    var toOutside: seq<seq<byte>>

    constructor ()
      ensures Valid() && State() == Gw(map[], map[], map[], 0, true) && toInside == toOutside == []
      ensures addStaticBox.queue == [] && delStaticBox.queue == [] && addUserBox.queue == [] && delUserBox.queue == []
      ensures sendBox.queue == [] && dhcpBox.queue == [] && updateBox.queue == []
      ensures fresh(addStaticBox) && fresh(addUserBox) && fresh(packet) && fresh(packet.inMemory)
    {
      hide Owned;
      NothingOwned();
      staticIPMap, userMap, live, next := map[], map[], map[], 0;
      addStaticBox := new Mailbox();
      delStaticBox := new Mailbox();
      addUserBox := new Mailbox();
      delUserBox := new Mailbox();
      sendBox := new Mailbox();
      dhcpBox := new Mailbox();
      updateBox := new Mailbox();
      packet := new Packet(MAX_FRAME);
      toInside, toOutside := [], [];
    }

    ghost function State(): Gw
      reads this
    {
      Gw(staticIPMap, userMap, live, next, true)
    }

    ghost predicate Valid()
      reads this, addStaticBox, delStaticBox, addUserBox, delUserBox, sendBox, dhcpBox, updateBox
    {
      && addStaticBox.Valid() && delStaticBox.Valid() && addUserBox.Valid() && delUserBox.Valid()
      && sendBox.Valid() && dhcpBox.Valid() && updateBox.Valid()
      && delStaticBox != delUserBox
      && packet.inMemory.Length == MAX_FRAME
      && Owned(State(), addUserBox.queue)
    }

    // ---- requests from other threads ----

    method AddStaticIP(ip: IPv4, mac: Mac)
      requires Valid()
      modifies addStaticBox
      ensures Valid() && addStaticBox.queue == old(addStaticBox.queue) + [(ip, mac)]
    {
      addStaticBox.Enqueue((ip, mac));
    }

    method AddUserInfo(info: UserInfo)
      requires Valid()
      modifies this, addUserBox
      ensures Valid() && State() == Allocate(old(State()), info)
      ensures live == old(live)[old(next) := info] && next == old(next) + 1 && unchanged(`staticIPMap, `userMap)
      ensures addUserBox.queue == old(addUserBox.queue) + [old(next)]
      ensures unchanged(`toInside, `toOutside)
    {
      AllocateOwned(State(), info, addUserBox.queue);
      var copy := next;
      live, next := live[copy := info], next + 1;
      addUserBox.Enqueue(copy);
    }

    method DelStaticIP(ip: IPv4)
      requires Valid()
      modifies delStaticBox
      ensures Valid() && delStaticBox.queue == old(delStaticBox.queue) + [ip]
    {
      delStaticBox.Enqueue(ip);
    }

    method DelUserInfo(ip: IPv4)
      requires Valid()
      modifies delUserBox
      ensures Valid() && delUserBox.queue == old(delUserBox.queue) + [ip]
    {
      delUserBox.Enqueue(ip);
    }

    method SendPacketRequest(frame: seq<byte>)
      requires Valid()
      modifies sendBox
      ensures Valid() && sendBox.queue == old(sendBox.queue) + [frame]
    {
      sendBox.Enqueue(frame);
    }

    // ---- event callbacks ----

    method DrainAddStatic()
      requires Valid()
      modifies this, addStaticBox
      ensures Valid() && addStaticBox.queue == []
      ensures State() == AddStatics(old(State()), old(addStaticBox.queue))
      ensures unchanged(`toInside, `toOutside)
    {
      var v := addStaticBox.counter;
      addStaticBox.counter := 0;
      for count := 0 to v
        invariant addStaticBox.counter == 0 && |addStaticBox.queue| == v - count
        invariant AddStatics(State(), addStaticBox.queue) == AddStatics(old(State()), old(addStaticBox.queue))
        invariant State() == old(State()).(staticIPMap := staticIPMap)
        invariant unchanged(`toInside, `toOutside)
      {
        var (ip, mac) := addStaticBox.queue[0];
        addStaticBox.queue := addStaticBox.queue[1..];
        if |staticIPMap| > 0 {
          staticIPMap := staticIPMap - {ip};
        }
        staticIPMap := staticIPMap + map[ip := mac];
      }
      SameHeapOwned(old(State()), State(), addUserBox.queue);
    }

    method DrainDelStatic()
      requires Valid()
      modifies this, delStaticBox
      ensures Valid() && delStaticBox.queue == []
      ensures State() == DelStatics(old(State()), old(delStaticBox.queue))
      ensures unchanged(`toInside, `toOutside)
    {
      var v := delStaticBox.counter;
      delStaticBox.counter := 0;
      for count := 0 to v
        invariant delStaticBox.counter == 0 && |delStaticBox.queue| == v - count
        invariant DelStatics(State(), delStaticBox.queue) == DelStatics(old(State()), old(delStaticBox.queue))
        invariant State() == old(State()).(staticIPMap := staticIPMap)
        invariant unchanged(`toInside, `toOutside)
      {
        var key := delStaticBox.queue[0];
        delStaticBox.queue := delStaticBox.queue[1..];
        staticIPMap := staticIPMap - {key};
      }
      SameHeapOwned(old(State()), State(), addUserBox.queue);
    }

    /** The record replaced, if any, is live, so freeing it is defined. */
    method DrainAddUser()
      requires Valid()
      modifies this, addUserBox
      ensures Valid() && addUserBox.queue == []
      ensures State() == AddUsers(old(State()), old(addUserBox.queue))
      ensures unchanged(`toInside, `toOutside)
    {
      var v := addUserBox.counter;
      addUserBox.counter := 0;
      for count := 0 to v
        invariant addUserBox.counter == 0 && |addUserBox.queue| == v - count
        invariant Owned(State(), addUserBox.queue)
        invariant AddUsers(State(), addUserBox.queue) == AddUsers(old(State()), old(addUserBox.queue))
        invariant unchanged(`toInside, `toOutside)
      {
        AddUserOwned(State(), addUserBox.queue);
        FrontIsLive(State(), addUserBox.queue);
        hide Owned, AddUser;
        var info := addUserBox.queue[0];
        addUserBox.queue := addUserBox.queue[1..];
        InsertUser(info);
      }
    }

    method InsertUser(info: Ptr)
      requires info in live && (live[info].ip in userMap ==> userMap[live[info].ip] in live)
      modifies this`userMap, this`live
      ensures State() == AddUser(old(State()), info)
    {
      var ip := live[info].ip;
      if ip in userMap {
        live := live - {userMap[ip]};
        userMap := userMap - {ip};
      }
      userMap := userMap[ip := info];
    }

    method DrainDelUser()
      requires Valid()
      modifies this, delUserBox
      ensures Valid() && delUserBox.queue == []
      ensures State() == DelUsers(old(State()), old(delUserBox.queue))
      ensures unchanged(`toInside, `toOutside)
    {
      var v := delUserBox.counter;
      delUserBox.counter := 0;
      for count := 0 to v
        invariant delUserBox.counter == 0 && |delUserBox.queue| == v - count
        invariant Owned(State(), addUserBox.queue)
        invariant DelUsers(State(), delUserBox.queue) == DelUsers(old(State()), old(delUserBox.queue))
        invariant unchanged(`toInside, `toOutside)
      {
        ghost var g := State();
        var ip := delUserBox.queue[0];
        delUserBox.queue := delUserBox.queue[1..];
        if ip in userMap {
          RemoveUserOwned(g, ip, addUserBox.queue);
          var info := userMap[ip];
          live := live - {info};
          userMap := userMap - {ip};
        }
        assert State() == DelUser(g, ip);
      }
    }

    method DrainSend()
      requires Valid()
      modifies this`toInside, sendBox
      ensures Valid() && sendBox.queue == []
      ensures toInside == old(toInside) + old(sendBox.queue)
    {
      var v := sendBox.counter;
      sendBox.counter := 0;
      for count := 0 to v
        invariant sendBox.counter == 0 && |sendBox.queue| == v - count
        invariant toInside + sendBox.queue == old(toInside) + old(sendBox.queue)
      {
        assert toInside + [sendBox.queue[0]] + sendBox.queue[1..] == toInside + sendBox.queue;
        toInside := toInside + [sendBox.queue[0]];
        sendBox.queue := sendBox.queue[1..];
      }
    }

    // ---- packet steps ----

    /** The buffer holds exactly this frame. */
    ghost predicate Loaded(frame: seq<byte>)
      reads packet, packet.inMemory
    {
      |frame| == packet.writtenByte <= packet.inMemory.Length == MAX_FRAME && packet.inMemory[..|frame|] == frame
    }

    /** `readPacket`: at most a buffer full is copied, the true length is returned. */
    method Receive(frame: seq<byte>)
      requires packet.inMemory.Length == MAX_FRAME
      modifies packet.inMemory
      ensures packet.inMemory[..if |frame| < MAX_FRAME then |frame| else MAX_FRAME] == frame[..if |frame| < MAX_FRAME then |frame| else MAX_FRAME]
    {
      var n := if |frame| < MAX_FRAME then |frame| else MAX_FRAME;
      forall i | 0 <= i < n {
        packet.inMemory[i] := frame[i];
      }
    }

    /** One iteration of the inside burst loop; only a dangling frame is undefined there. */
    method InsideFrame(frame: seq<byte>, now: nat, junk: Junk) returns (v: Verdict)
      requires Valid() && !Dangling(State(), frame, junk)
      modifies this, packet, packet.inMemory, dhcpBox, updateBox
      ensures Valid()
      ensures (State(), v) == InsideStep(old(State()), frame, now, junk)
      ensures toOutside == old(toOutside) + if v.Forwarded? then [v.frame] else []
      ensures toInside == old(toInside) + if v.TooLong? && v.answer.Some? then [v.answer.value] else []
      ensures dhcpBox.queue == old(dhcpBox.queue) + if v.Consumed? then [v.request] else []
      ensures updateBox.queue == old(updateBox.queue) + if v.Forwarded? && v.update.Some? then [v.update.value] else []
    {
      hide InsideRoute, InsideDhcp, UdpPorts, Dangling, Owned, Answer, IpNext, ArpWellFormed;
      Receive(frame);
      if |frame| > MAX_FRAME {
        v := AnswerTooLong(frame);
        if v.answer.Some? {
          toInside := toInside + [v.answer.value];
        }
        return;
      }
      if |frame| < ETHER_LEN {
        return Dropped;
      }
      packet.SetLength(|frame|);
      assert frame[..|frame|] == frame;
      v := InsideLoaded(frame, now, junk);
    }

    /** The protocol branches, with the frame in the buffer. */
    method InsideLoaded(ghost frame: seq<byte>, now: nat, junk: Junk) returns (v: Verdict)
      requires Valid() && Loaded(frame) && |frame| >= 14 && !Dangling(State(), frame, junk)
      modifies this, packet.inMemory, dhcpBox, updateBox
      ensures Valid() && !v.TooLong?
      ensures (State(), v) == InsideStep(old(State()), frame, now, junk)
      ensures toOutside == old(toOutside) + if v.Forwarded? then [v.frame] else []
      ensures unchanged(`toInside)
      ensures dhcpBox.queue == old(dhcpBox.queue) + if v.Consumed? then [v.request] else []
      ensures updateBox.queue == old(updateBox.queue) + if v.Forwarded? && v.update.Some? then [v.update.value] else []
    {
      hide InsideRoute, InsideDhcp, UdpPorts, Registered, Owned, IpNext, ArpWellFormed;
      var f := packet.inMemory[..packet.writtenByte];
      assert f == frame && packet.View() == frame;
      if EtherType(f) == ETHERTYPE_ARP {
        if !ArpWellFormed(f) {
          return Dropped;
        }
        var dst := packet.ReadByteArray(38, 42, junk.destination);
        var src := packet.ReadByteArray(28, 32, junk.source);
        v := Route(frame, src, dst, now);
      } else if EtherType(f) == ETHERTYPE_IP {
        if |f| < ETHER_LEN + IpNext(f) {
          return Dropped;
        }
        if UdpPorts(f, 68, 67) {
          v := TakeDhcp(frame);
          return;
        }
        v := Route(frame, IpSource(f), IpDestination(f), now);
      } else {
        v := Forwarded(f, None);
        toOutside := toOutside + [v.frame];
      }
    }

    /** Lines 469-498: a discover or request that names its own sender goes to the database. */
    method TakeDhcp(ghost frame: seq<byte>) returns (v: Verdict)
      requires Valid() && Loaded(frame) && |frame| >= ETHER_LEN + IpNext(frame)
      modifies dhcpBox
      ensures Valid() && v == InsideDhcp(frame) && (v.Dropped? || v.Consumed?)
      ensures dhcpBox.queue == old(dhcpBox.queue) + if v.Consumed? then [v.request] else []
    {
      hide Owned, IpNext;
      assert packet.View() == frame;
      var dhcp := IpNext(packet.inMemory[..packet.writtenByte]) + UDP_LEN;
      var opcode := packet.ReadByte(dhcp);
      if opcode != 1 {
        return Dropped;
      }
      var messageType := packet.ReadByte(dhcp + 242);
      if messageType != 1 && messageType != 3 {
        return Dropped;
      }
      var mac, transId, source := ReadClient(frame, dhcp);
      if mac != source {
        return Dropped;
      }
      v := Consumed(Reply.DhcpRequest(mac, transId, messageType == 1));
      dhcpBox.Enqueue(v.request);
    }

    /** `getClientMAC`, `getTransactionID` and the Ethernet source; the message type was in range, so these are. */
    method ReadClient(ghost frame: seq<byte>, dhcp: nat) returns (mac: Mac, transId: Quad, source: Mac)
      requires Loaded(frame) && dhcp + 242 < |frame|
      ensures mac == DhcpClientMac(frame, dhcp) && transId == DhcpTransactionID(frame, dhcp) && source == EtherSource(frame)
    {
      hide Read;
      mac := packet.ReadByteArray(dhcp + 28, dhcp + 34, [0, 0, 0, 0, 0, 0]);
      transId := packet.ReadByteArray(dhcp + 4, dhcp + 8, [0, 0, 0, 0]);
      source := packet.ReadByteArray(6, 12, [0, 0, 0, 0, 0, 0]);
      assert mac == packet.inMemory[..|frame|][dhcp + 28..dhcp + 34];
      assert transId == packet.inMemory[..|frame|][dhcp + 4..dhcp + 8];
      assert source == packet.inMemory[..|frame|][6..12];
    }

    method AnswerTooLong(frame: seq<byte>) returns (v: Verdict)
      requires Valid() && |frame| > MAX_FRAME && packet.inMemory[..MAX_FRAME] == frame[..MAX_FRAME]
      modifies packet
      ensures Valid() && v == TooLong(Answer(frame[..MAX_FRAME]))
    {
      hide Icmp.TooBig, Icmp.Answered, Owned;
      packet.SetLength(MAX_FRAME);
      var answer := Icmp.IcmpMtu(packet, MTU);
      v := TooLong(answer);
    }

    /** The shared tail of the two protocol branches, rewriting the buffer in place. */
    method Route(ghost frame: seq<byte>, src: IPv4, dst: IPv4, now: nat) returns (v: Verdict)
      requires Valid() && Loaded(frame) && |frame| >= 14
      requires dst !in staticIPMap && Registered(State(), src, EtherSource(frame)) ==> src in staticIPMap
      modifies this, packet.inMemory, updateBox
      ensures Valid()
      ensures (State(), v) == InsideRoute(old(State()), frame, src, dst, now) && (v.Dropped? || v.Forwarded?)
      ensures toOutside == old(toOutside) + if v.Forwarded? then [v.frame] else []
      ensures unchanged(`toInside)
      ensures updateBox.queue == old(updateBox.queue) + if v.Forwarded? && v.update.Some? then [v.update.value] else []
    {
      hide RewriteSource;
      v := Dropped;
      if dst in staticIPMap {
        return;
      }
      var update: Option<UpdateTime> := None;
      assert packet.inMemory[6..12] == EtherSource(frame);
      if src in userMap {
        var user := userMap[src];
        if live[user].mac != packet.inMemory[6..12] {
          return;
        }
        RewriteInPlace(frame, staticIPMap[src]);
        update := Touch(user, now);
      } else if src in staticIPMap {
        return;
      }
      v := Forwarded(packet.inMemory[..packet.writtenByte], update);
      toOutside := toOutside + [v.frame];
    }

    method RewriteInPlace(ghost frame: seq<byte>, mac: Mac)
      requires Loaded(frame) && |frame| >= 14
      modifies packet.inMemory
      ensures packet.inMemory[..|frame|] == RewriteSource(frame, mac)
    {
      assert packet.View() == frame;
      if EtherType(packet.inMemory[..packet.writtenByte]) == ETHERTYPE_ARP {
        packet.WriteByteArray(22, 28, mac);
      }
      packet.WriteByteArray(6, 12, mac);
      assert packet.View() == RewriteSource(frame, mac);
    }

    /** The access-time report of lines 535-547. */
    method Touch(user: Ptr, now: nat) returns (update: Option<UpdateTime>)
      requires Valid() && user in live
      modifies this`live, updateBox
      ensures Valid()
      ensures update == if UpdateDue(old(live)[user], now) then Some(UpdateTime(user, old(live)[user].mac, old(live)[user].ip, now)) else None
      ensures live == if update.Some? then old(live)[user := old(live)[user].(lastAccess := now)] else old(live)
      ensures updateBox.queue == old(updateBox.queue) + if update.Some? then [update.value] else []
    {
      update := None;
      if UpdateDue(live[user], now) {
        ghost var g := State();
        live := live[user := live[user].(lastAccess := now)];
        SameHeapOwned(g, State(), addUserBox.queue);
        update := Some(UpdateTime(user, live[user].mac, live[user].ip, now));
        updateBox.Enqueue(update.value);
      }
    }

    /** One iteration of the outside burst loop; the lazy removal is defined because the maps own their records. */
    method OutsideFrame(frame: seq<byte>, junk: Junk) returns (v: Verdict)
      requires Valid()
      modifies this, packet, packet.inMemory
      ensures Valid()
      ensures (State(), v) == OutsideStep(old(State()), frame, junk)
      ensures toInside == old(toInside) + if v.Forwarded? then [v.frame] else []
      ensures toOutside == old(toOutside) + if v.TooLong? && v.answer.Some? then [v.answer.value] else []
    {
      hide OutsideArp, OutsideIp, UdpPorts, LateDhcp, Owned, Answer, IpNext, ArpWellFormed;
      Receive(frame);
      if |frame| > MAX_FRAME {
        v := AnswerTooLong(frame);
        if v.answer.Some? {
          toOutside := toOutside + [v.answer.value];
        }
        return;
      }
      packet.SetLength(|frame|);
      assert frame[..|frame|] == frame;
      v := OutsideLoaded(frame, junk);
      if v.Forwarded? {
        toInside := toInside + [v.frame];
      }
    }

    method OutsideLoaded(ghost frame: seq<byte>, junk: Junk) returns (v: Verdict)
      requires Valid() && Loaded(frame)
      modifies this`userMap, this`live, packet.inMemory
      ensures Valid() && (v.Dropped? || v.Forwarded?)
      ensures (State(), v) == OutsideStep(old(State()), frame, junk)
    {
      hide OutsideArp, OutsideIp, UdpPorts, LateDhcp, Owned, IpNext, ArpWellFormed;
      var f := packet.inMemory[..packet.writtenByte];
      assert f == frame && packet.View() == frame;
      if EtherType(f) == ETHERTYPE_ARP {
        if !ArpWellFormed(f) {
          return Dropped;
        }
        var dst := packet.ReadByteArray(38, 42, junk.destination);
        var src := packet.ReadByteArray(28, 32, junk.source);
        v := AdmitArp(frame, src, dst);
      } else if EtherType(f) == ETHERTYPE_IP {
        if |f| < ETHER_LEN + IpNext(f) {
          return Dropped;
        }
        if UdpPorts(f, 67, 68) {
          return Dropped;
        }
        v := AdmitIp(frame, IpSource(f), IpDestination(f));
        if v.Forwarded? && LateDhcp(f) {
          v := Dropped;
        }
      } else {
        v := Forwarded(f, None);
      }
    }

    method AdmitArp(ghost frame: seq<byte>, src: IPv4, dst: IPv4) returns (v: Verdict)
      requires Valid() && Loaded(frame) && |frame| >= 14
      modifies this`userMap, this`live, packet.inMemory
      ensures Valid() && (v.Dropped? || v.Forwarded?)
      ensures (State(), v) == OutsideArp(old(State()), frame, src, dst)
    {
      hide RewriteDestination;
      if src in staticIPMap {
        return Dropped;
      }
      if dst in staticIPMap {
        if dst in userMap {
          assert packet.inMemory[0..6] == EtherDestination(frame);
          if staticIPMap[dst] != packet.inMemory[0..6] && BROADCAST_MAC != packet.inMemory[0..6] {
            return Dropped;
          }
          DeliverInPlace(frame, live[userMap[dst]].mac);
        }
      } else if dst in userMap {
        Remove(dst);
      }
      v := Forwarded(packet.inMemory[..packet.writtenByte], None);
    }

    method AdmitIp(ghost frame: seq<byte>, src: IPv4, dst: IPv4) returns (v: Verdict)
      requires Valid() && Loaded(frame) && |frame| >= 14
      modifies this`userMap, this`live, packet.inMemory
      ensures Valid() && (v.Dropped? || v.Forwarded?)
      ensures (State(), v) == OutsideIp(old(State()), frame, src, dst)
    {
      hide RewriteDestination;
      if src in staticIPMap {
        return Dropped;
      }
      if dst in staticIPMap {
        if dst !in userMap {
          return Dropped;
        }
        assert packet.inMemory[0..6] == EtherDestination(frame);
        if staticIPMap[dst] != packet.inMemory[0..6] {
          return Dropped;
        }
        DeliverInPlace(frame, live[userMap[dst]].mac);
      } else if dst in userMap {
        Remove(dst);
      }
      v := Forwarded(packet.inMemory[..packet.writtenByte], None);
    }

    method DeliverInPlace(ghost frame: seq<byte>, mac: Mac)
      requires Loaded(frame) && |frame| >= 14
      modifies packet.inMemory
      ensures packet.inMemory[..|frame|] == RewriteDestination(frame, mac)
    {
      assert packet.View() == frame;
      if EtherType(packet.inMemory[..packet.writtenByte]) == ETHERTYPE_ARP {
        packet.WriteByteArray(32, 38, mac);
      }
      packet.WriteByteArray(0, 6, mac);
      assert packet.View() == RewriteDestination(frame, mac);
    }

    /** `free(iter->second); userMap.erase(iter)`. */
    method Remove(ip: IPv4)
      requires Valid() && ip in userMap
      modifies this`userMap, this`live
      ensures Valid() && State() == RemoveUser(old(State()), ip)
    {
      RemoveUserOwned(State(), ip, addUserBox.queue);
      live := live - {userMap[ip]};
      userMap := userMap - {ip};
    }
  }
}
