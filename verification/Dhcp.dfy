/** The DHCP response writer of dhcp.cpp, against the option encoding of RFC 2132. */
module Dhcp {
  import opened Octets
  import opened Packets

  /** The arguments of `writeResponse`; integers the source copies from memory are raw bytes. */
  datatype Lease = Lease(discover: bool, mtu: seq<byte>, transId: Quad, client: IPv4, mac: Mac,
                         server: IPv4, mask: IPv4, router: IPv4, dns: seq<IPv4>, leaseTime: Quad)
  {
    predicate Valid() {
      |mtu| == 2
    }
  }

  /** One option; `Field` stores its length in a single byte, as section 2 of RFC 2132 has it. */
  datatype Opt = Opt(tag: byte, value: seq<byte>)

  function Field(o: Opt): (r: seq<byte>)
    ensures |r| == 2 + |o.value|
  {
    [o.tag, |o.value| % 256] + o.value
  }

  function Fields(opts: seq<Opt>): seq<byte> {
    if opts == [] then [] else Field(opts[0]) + Fields(opts[1..])
  }

  /** A reader of the options area: pads are skipped, 255 must be the last byte. */
  function ParseOptions(b: seq<byte>): Option<seq<Opt>>
    decreases |b|
  {
    if b == [] then None
    else if b[0] == 255 then (if |b| == 1 then Some([]) else None)
    else if b[0] == 0 then ParseOptions(b[1..])
    else if |b| < 2 then None
    else
      var n: int := b[1];
      if |b| < 2 + n then None
      else match ParseOptions(b[2 + n..])
        case None => None
        case Some(rest) => Some([Opt(b[0], b[2..2 + n])] + rest)
  }

  predicate Plain(opts: seq<Opt>) {
    forall o :: o in opts ==> o.tag != 0 && o.tag != 255
  }

  predicate Short(opts: seq<Opt>) {
    forall o :: o in opts ==> |o.value| < 256
  }

  lemma {:induction false} ParseShortField(o: Opt, tail: seq<byte>)
    requires o.tag != 0 && o.tag != 255 && |o.value| < 256
    ensures ParseOptions(Field(o) + tail) ==
            if ParseOptions(tail).None? then None else Some([o] + ParseOptions(tail).value)
  {
  }

  lemma {:induction false} ParseLongField(o: Opt, tail: seq<byte>)
    requires o.tag != 0 && o.tag != 255 && |o.value| >= 256
    ensures ParseOptions(Field(o) + tail).Some? ==>
              |ParseOptions(Field(o) + tail).value| > 0 && ParseOptions(Field(o) + tail).value[0] != o
  {
  }

  /** Reading back returns the options exactly when every value's length fits its byte. */
  lemma {:induction false} ParseFields(opts: seq<Opt>)
    requires Plain(opts)
    ensures ParseOptions(Fields(opts) + [255]) == Some(opts) <==> Short(opts)
    decreases |opts|
  {
    if opts == [] {
    } else {
      var o, rest := opts[0], opts[1..];
      var tail := Fields(rest) + [255];
      ParseFields(rest);
      assert Fields(opts) + [255] == Field(o) + tail;
      assert opts == [o] + rest;
      hide ParseOptions, Fields, Field;
      ShortSplits(o, rest);
      if |o.value| >= 256 {
        ParseLongField(o, tail);
      } else {
        ParseShortField(o, tail);
        if ParseOptions(tail).Some? {
          SameTail(o, ParseOptions(tail).value, rest);
        }
      }
    }
  }

  lemma ShortSplits(o: Opt, rest: seq<Opt>)
    ensures Short([o] + rest) <==> |o.value| < 256 && Short(rest)
  {
    assert ([o] + rest)[0] == o && ([o] + rest)[1..] == rest;
  }

  lemma SameTail(o: Opt, a: seq<Opt>, b: seq<Opt>)
    ensures [o] + a == [o] + b <==> a == b
  {
    assert ([o] + a)[1..] == a && ([o] + b)[1..] == b;
  }

  lemma {:induction false} FieldsConcat(a: seq<Opt>, b: seq<Opt>)
    ensures Fields(a + b) == Fields(a) + Fields(b)
    decreases |a|
  {
    if a == [] {
      assert a + b == b;
    } else {
      FieldsConcat(a[1..], b);
      assert (a + b)[1..] == a[1..] + b;
    }
  }

  lemma FieldsAppend(opts: seq<Opt>, o: Opt)
    ensures Fields(opts + [o]) == Fields(opts) + Field(o)
  {
    FieldsConcat(opts, [o]);
    assert [o][1..] == [];
    assert Fields([o]) == Field(o);
  }

  function Join(qs: seq<IPv4>): (r: seq<byte>)
    ensures |r| == 4 * |qs|
  {
    if qs == [] then [] else Join(qs[..|qs| - 1]) + qs[|qs| - 1]
  }

  /** The options of a response, in the order the source writes them. */
  function LeaseOptions(l: Lease): (opts: seq<Opt>)
    requires l.Valid()
    ensures |opts| == 7 && Plain(opts) && (Short(opts) <==> |l.dns| <= 63)
  {
    var opts := [Opt(53, [if l.discover then 2 else 5]), Opt(54, l.server), Opt(51, l.leaseTime),
                 Opt(1, l.mask), Opt(3, l.router), Opt(26, l.mtu), Opt(6, Join(l.dns))];
    assert opts[6] in opts;
    opts
  }

  function Header(l: Lease, hole: Quad): (r: seq<byte>)
    ensures |r| == 240
  {
    Lead(l) + hole + l.mac + Zeros(10) + Zeros(192) + [99, 130, 83, 99]
  }

  /** The whole message; the four bytes of `hole` (the relay address) are never written. */
  function Message(l: Lease, hole: Quad): (r: seq<byte>)
    requires l.Valid()
  {
    Header(l, hole) + Fields(LeaseOptions(l)) + [255]
  }

  lemma MessageShape(l: Lease, hole: Quad)
    requires l.Valid()
    ensures |Message(l, hole)| == 274 + 4 * |l.dns|
    ensures Message(l, hole)[..240] == Header(l, hole)
    ensures Message(l, hole)[240..] == Fields(LeaseOptions(l)) + [255]
    ensures Message(l, hole)[240..243] == [53, 1, if l.discover then 2 else 5]
  {
    LeaseFields(l);
    SplitMessage(Header(l, hole), Fields(LeaseOptions(l)), [53, 1, if l.discover then 2 else 5]);
  }

  lemma LeaseFields(l: Lease)
    requires l.Valid()
    ensures |Fields(LeaseOptions(l))| == 33 + 4 * |l.dns|
    ensures Fields(LeaseOptions(l))[..3] == [53, 1, if l.discover then 2 else 5]
  {
    FirstOption(l);
    hide Fields, Field;
    FieldsLength(LeaseOptions(l));
  }

  lemma FirstOption(l: Lease)
    requires l.Valid()
    ensures |Fields(LeaseOptions(l))| >= 3 && Fields(LeaseOptions(l))[..3] == [53, 1, if l.discover then 2 else 5]
  {
    var opts := LeaseOptions(l);
    assert opts[0].tag == 53 && opts[0].value == [if l.discover then 2 else 5];
    hide LeaseOptions, Join, Lease.Valid;
    assert Fields(opts) == Field(opts[0]) + Fields(opts[1..]);
  }

  lemma SplitMessage(head: seq<byte>, fields: seq<byte>, first: seq<byte>)
    requires |head| == 240 && |fields| >= 3 && fields[..3] == first
    ensures (head + fields + [255])[..240] == head
    ensures (head + fields + [255])[240..] == fields + [255]
    ensures (head + fields + [255])[240..243] == first
  {
  }

  lemma FieldsLength(opts: seq<Opt>)
    requires |opts| == 7
    ensures |Fields(opts)| == 14 + |opts[0].value| + |opts[1].value| + |opts[2].value| + |opts[3].value|
                              + |opts[4].value| + |opts[5].value| + |opts[6].value|
  {
    var a := opts[1..];
    var b := a[1..];
    var c := b[1..];
    var d := c[1..];
    var e := d[1..];
    var f := e[1..];
    assert f[1..] == [];
    assert |Fields(f)| == |Field(f[0])|;
    assert |Fields(e)| == |Field(e[0])| + |Fields(f)|;
    assert |Fields(d)| == |Field(d[0])| + |Fields(e)|;
    assert |Fields(c)| == |Field(c[0])| + |Fields(d)|;
    assert |Fields(b)| == |Field(b[0])| + |Fields(c)|;
    assert |Fields(a)| == |Field(a[0])| + |Fields(b)|;
    assert |Fields(opts)| == |Field(opts[0])| + |Fields(a)|;
  }

  /**
   * A reader recovers exactly the seven options, with 255 as the last byte, exactly when there are
   * at most 63 name servers; beyond that the length byte of option 6 has wrapped.
   */
  lemma OptionsRecovered(l: Lease, hole: Quad)
    requires l.Valid()
    ensures |Message(l, hole)| == 274 + 4 * |l.dns|
    ensures var told := [Opt(53, [if l.discover then 2 else 5]), Opt(54, l.server), Opt(51, l.leaseTime),
                         Opt(1, l.mask), Opt(3, l.router), Opt(26, l.mtu), Opt(6, Join(l.dns))];
            ParseOptions(Message(l, hole)[240..]) == Some(told) <==> |l.dns| <= 63
  {
    MessageShape(l, hole);
    ParseFields(LeaseOptions(l));
  }

  /** Every byte before the options, as section 2 of RFC 2131 lays them out. */
  lemma HeaderBytes(l: Lease, hole: Quad)
    requires l.Valid()
    ensures var m := Message(l, hole);
            && |m| >= 240
            && m[..4] == [2, 1, 6, 0] && m[4..8] == l.transId && m[8..16] == Zeros(8)
            && m[16..20] == l.client && m[20..24] == Zeros(4) && m[24..28] == hole
            && m[28..34] == l.mac && m[34..236] == Zeros(202) && m[236..240] == [99, 130, 83, 99]
  {
    MessageShape(l, hole);
    var h := Message(l, hole)[..240];
    assert h[4..8] == l.transId && h[8..16] == Zeros(8) && h[16..20] == l.client && h[20..24] == Zeros(4);
    assert h[24..28] == hole && h[28..34] == l.mac && h[34..236] == Zeros(202) && h[236..240] == [99, 130, 83, 99];
  }

  /** Each name server is at its place in the value of option 6. */
  lemma {:induction false} JoinExactly(qs: seq<IPv4>, i: nat)
    requires i < |qs|
    ensures Join(qs)[4 * i..4 * i + 4] == qs[i]
  {
    var n := |qs| - 1;
    if i < n {
      JoinExactly(qs[..n], i);
      assert Join(qs)[4 * i..4 * i + 4] == Join(qs[..n])[4 * i..4 * i + 4];
    }
  }

  /** The option bytes, whatever the number of name servers. */
  lemma OptionBytes(l: Lease, hole: Quad)
    requires l.Valid()
    ensures |Message(l, hole)| >= 240
    ensures Message(l, hole)[240..] ==
              [53, 1, if l.discover then 2 else 5] + ([54, 4] + l.server) + ([51, 4] + l.leaseTime) + ([1, 4] + l.mask)
              + ([3, 4] + l.router) + ([26, 2] + l.mtu) + ([6, 4 * |l.dns| % 256] + Join(l.dns)) + [255]
  {
    MessageShape(l, hole);
    FieldBytes(l);
    hide LeaseOptions, Fields, Field, Message, Join;
    SevenFields(LeaseOptions(l));
  }

  lemma FieldBytes(l: Lease)
    requires l.Valid()
    ensures var opts := LeaseOptions(l);
            && Field(opts[0]) == [53, 1, if l.discover then 2 else 5] && Field(opts[1]) == [54, 4] + l.server
            && Field(opts[2]) == [51, 4] + l.leaseTime && Field(opts[3]) == [1, 4] + l.mask
            && Field(opts[4]) == [3, 4] + l.router && Field(opts[5]) == [26, 2] + l.mtu
            && Field(opts[6]) == [6, 4 * |l.dns| % 256] + Join(l.dns)
  {
    hide Join;
  }

  lemma SevenFields(opts: seq<Opt>)
    requires |opts| == 7
    ensures Fields(opts) == Field(opts[0]) + Field(opts[1]) + Field(opts[2]) + Field(opts[3]) + Field(opts[4]) + Field(opts[5]) + Field(opts[6])
  {
    hide Field, Fields;
    assert opts == [] + [opts[0]] + [opts[1]] + [opts[2]] + [opts[3]] + [opts[4]] + [opts[5]] + [opts[6]];
    NoFields();
    FieldsAppend([], opts[0]);
    FieldsAppend([] + [opts[0]], opts[1]);
    FieldsAppend([] + [opts[0]] + [opts[1]], opts[2]);
    FieldsAppend([] + [opts[0]] + [opts[1]] + [opts[2]], opts[3]);
    FieldsAppend([] + [opts[0]] + [opts[1]] + [opts[2]] + [opts[3]], opts[4]);
    FieldsAppend([] + [opts[0]] + [opts[1]] + [opts[2]] + [opts[3]] + [opts[4]], opts[5]);
    FieldsAppend([] + [opts[0]] + [opts[1]] + [opts[2]] + [opts[3]] + [opts[4]] + [opts[5]], opts[6]);
  }

  lemma NoFields()
    ensures Fields([]) == []
  {
  }

  /** Tag, length and a value copied as an array. */
  method PutOption(p: Packet, cur: int, o: Opt, ghost base: int, ghost room: bool,
                   ghost head: seq<byte>, ghost opts: seq<Opt>) returns (next: int)
    requires p.InBounds()
    requires room ==> 0 <= base <= cur && cur + 2 + |o.value| <= p.writtenByte
    requires room ==> p.inMemory[base..cur] == head + Fields(opts)
    modifies p.inMemory
    ensures next == cur + 2 + |o.value|
    ensures forall k :: 0 <= k < p.inMemory.Length && !(cur <= k < next) ==> p.inMemory[k] == old(p.inMemory[k])
    ensures room ==> p.inMemory[base..next] == head + Fields(opts + [o])
  {
    next := PutEach(p, cur, [o.tag, |o.value| % 256], base, room);
    next := PutArray(p, next, o.value, base, room);
    FieldsAppend(opts, o);
  }

  /** Fixed part, up to and including the magic number: 240 bytes, four of them skipped. */
  method WriteHeader(p: Packet, offset: int, l: Lease) returns (cur: int)
    requires p.InBounds()
    modifies p.inMemory
    ensures cur == offset + 240
    ensures forall k :: 0 <= k < p.inMemory.Length && !(offset <= k < cur) ==> p.inMemory[k] == old(p.inMemory[k])
    ensures 0 <= offset && cur <= p.writtenByte ==>
              p.inMemory[offset..cur] == Header(l, old(p.inMemory[offset + 24..offset + 28]))
  {
    hide Zeros;
    ghost var room := 0 <= offset && offset + 240 <= p.writtenByte;
    ghost var hole: Quad := if room then p.inMemory[offset + 24..offset + 28] else [0, 0, 0, 0];
    cur := WriteLead(p, offset, l, room);
    cur := cur + 4;
    if room {
      assert p.inMemory[offset + 24..cur] == hole;
      SplitSlice(p.inMemory[..], offset, offset + 24, cur);
      assert p.inMemory[offset..cur] == Lead(l) + hole;
    }
    cur := PutArray(p, cur, l.mac, offset, room);
    cur := PutEach(p, cur, Zeros(10), offset, room);
    cur := PutEach(p, cur, Zeros(192), offset, room);
    cur := PutEach(p, cur, [99, 130, 83, 99], offset, room);
  }

  /** The part of the header before the skipped bytes. */
  function Lead(l: Lease): (r: seq<byte>)
    ensures |r| == 24
  {
    [2, 1, 6, 0] + l.transId + Zeros(8) + l.client + Zeros(4)
  }

  method WriteLead(p: Packet, offset: int, l: Lease, ghost room: bool) returns (cur: int)
    requires p.InBounds()
    requires room ==> 0 <= offset && offset + 24 <= p.writtenByte
    modifies p.inMemory
    ensures cur == offset + 24
    ensures forall k :: 0 <= k < p.inMemory.Length && !(offset <= k < cur) ==> p.inMemory[k] == old(p.inMemory[k])
    ensures room ==> p.inMemory[offset..cur] == Lead(l)
  {
    hide Zeros;
    cur := PutEach(p, offset, [2, 1, 6, 0], offset, room);
    cur := PutArray(p, cur, l.transId, offset, room);
    cur := PutEach(p, cur, Zeros(8), offset, room);
    cur := PutArray(p, cur, l.client, offset, room);
    cur := PutEach(p, cur, Zeros(4), offset, room);
  }

  lemma SplitSlice(s: seq<byte>, a: nat, b: nat, c: nat)
    requires a <= b <= c <= |s|
    ensures s[a..c] == s[a..b] + s[b..c]
  {
  }

  method WriteResponse(p: Packet, offset: int, l: Lease) returns (len: int)
    requires p.InBounds() && l.Valid()
    modifies p.inMemory
    ensures len == 274 + 4 * |l.dns|
    ensures forall k :: 0 <= k < p.inMemory.Length && !(offset <= k < offset + len) ==> p.inMemory[k] == old(p.inMemory[k])
    ensures 0 <= offset && offset + len <= p.writtenByte ==>
              p.inMemory[offset..offset + len] == Message(l, old(p.inMemory[offset + 24..offset + 28]))
  {
    hide Header, Fields, LeaseOptions;
    ghost var room := 0 <= offset && offset + 274 + 4 * |l.dns| <= p.writtenByte;
    ghost var head := if room then Header(l, p.inMemory[offset + 24..offset + 28]) else [];
    var cur := WriteHeader(p, offset, l);
    cur := WriteOptions(p, offset, cur, l, room, head);
    len := cur - offset;
  }

  method WriteOptions(p: Packet, offset: int, start: int, l: Lease, ghost room: bool, ghost head: seq<byte>) returns (cur: int)
    requires p.InBounds() && l.Valid() && start == offset + 240
    requires room ==> 0 <= offset && offset + 274 + 4 * |l.dns| <= p.writtenByte && p.inMemory[offset..start] == head
    modifies p.inMemory
    ensures cur == start + 34 + 4 * |l.dns|
    ensures forall k :: 0 <= k < p.inMemory.Length && !(start <= k < cur) ==> p.inMemory[k] == old(p.inMemory[k])
    ensures room ==> p.inMemory[offset..cur] == head + Fields(LeaseOptions(l)) + [255]
  {
    cur := WriteFixedOptions(p, offset, start, l, room, head);
    cur := PutEach(p, cur, [6, 4 * |l.dns| % 256], offset, room);
    cur := WriteNameServers(p, offset, cur, l.dns, room);
    cur := PutEach(p, cur, [255], offset, room);
    LastOption(l, head);
  }

  lemma LastOption(l: Lease, head: seq<byte>)
    requires l.Valid()
    ensures head + Fields(LeaseOptions(l)[..6]) + [6, 4 * |l.dns| % 256] + Join(l.dns) == head + Fields(LeaseOptions(l))
  {
    var opts := LeaseOptions(l);
    assert opts[6] == Opt(6, Join(l.dns));
    hide LeaseOptions, Fields, Lease.Valid;
    FieldsAppend(opts[..6], opts[6]);
    assert opts[..6] + [opts[6]] == opts;
    assert Field(opts[6]) == [6, 4 * |l.dns| % 256] + Join(l.dns);
  }

  method WriteNameServers(p: Packet, offset: int, start: int, dns: seq<IPv4>, ghost room: bool) returns (cur: int)
    requires p.InBounds()
    requires room ==> 0 <= offset <= start && start + 4 * |dns| <= p.writtenByte
    modifies p.inMemory
    ensures cur == start + 4 * |dns|
    ensures forall k :: 0 <= k < p.inMemory.Length && !(start <= k < cur) ==> p.inMemory[k] == old(p.inMemory[k])
    ensures room ==> p.inMemory[offset..cur] == old(p.inMemory[offset..start]) + Join(dns)
  {
    cur := start;
    for i := 0 to |dns|
      invariant cur == start + 4 * i
      invariant forall k :: 0 <= k < p.inMemory.Length && !(start <= k < cur) ==> p.inMemory[k] == old(p.inMemory[k])
      invariant room ==> p.inMemory[offset..cur] == old(p.inMemory[offset..start]) + Join(dns[..i])
    {
      cur := PutArray(p, cur, dns[i], offset, room);
      assert dns[..i + 1][..i] == dns[..i];
    }
    assert dns[..|dns|] == dns;
  }

  /** Options 53, 54, 51, 1, 3 and 26. */
  method WriteFixedOptions(p: Packet, offset: int, start: int, l: Lease, ghost room: bool, ghost head: seq<byte>) returns (cur: int)
    requires p.InBounds() && l.Valid() && start == offset + 240
    requires room ==> 0 <= offset && offset + 271 <= p.writtenByte && p.inMemory[offset..start] == head
    modifies p.inMemory
    ensures cur == start + 31
    ensures forall k :: 0 <= k < p.inMemory.Length && !(start <= k < cur) ==> p.inMemory[k] == old(p.inMemory[k])
    ensures room ==> p.inMemory[offset..cur] == head + Fields(LeaseOptions(l)[..6])
  {
    ghost var opts := LeaseOptions(l);
    cur := PutEach(p, start, [53, 1, if l.discover then 2 else 5], offset, room);
    assert opts[..1][1..] == [];
    assert Fields(opts[..1]) == Field(opts[0]);
    cur := PutOption(p, cur, Opt(54, l.server), offset, room, head, opts[..1]);
    assert opts[..1] + [opts[1]] == opts[..2];
    cur := PutOption(p, cur, Opt(51, l.leaseTime), offset, room, head, opts[..2]);
    assert opts[..2] + [opts[2]] == opts[..3];
    cur := PutOption(p, cur, Opt(1, l.mask), offset, room, head, opts[..3]);
    assert opts[..3] + [opts[3]] == opts[..4];
    cur := PutOption(p, cur, Opt(3, l.router), offset, room, head, opts[..4]);
    assert opts[..4] + [opts[4]] == opts[..5];
    cur := PutOption(p, cur, Opt(26, l.mtu), offset, room, head, opts[..5]);
    assert opts[..5] + [opts[5]] == opts[..6];
  }
}
