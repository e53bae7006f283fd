/** The bounds-checked buffer every protocol accessor goes through (packet.cpp). */
module Packets {
  import opened Octets

  /** What a reader finds in `buffer` after asking for bytes `from..to` of the visible bytes `v`. */
  function Read(v: seq<byte>, from: int, to: int, buffer: seq<byte>): (r: seq<byte>)
    requires from <= to && |buffer| == to - from
    ensures |r| == |buffer|
  {
    if from < 0 || to > |v| then buffer else v[from..to]
  }

  /** The visible bytes after a write; an out-of-range write is dropped whole. */
  function Write(v: seq<byte>, from: int, bs: seq<byte>): (r: seq<byte>)
    ensures |r| == |v|
  {
    if from < 0 || from + |bs| > |v| then v else v[..from] + bs + v[from + |bs|..]
  }

  /** A write in range is read back; a read of a range it does not touch, or after a dropped write, is unaffected. */
  lemma ReadOverWrite(v: seq<byte>, from: int, bs: seq<byte>, lo: int, hi: int, buffer: seq<byte>)
    requires lo <= hi && |buffer| == hi - lo
    ensures 0 <= from && from + |bs| <= |v| && lo == from && hi == from + |bs| ==>
              Read(Write(v, from, bs), lo, hi, buffer) == bs
    ensures from < 0 || from + |bs| > |v| || hi <= from || from + |bs| <= lo ==>
              Read(Write(v, from, bs), lo, hi, buffer) == Read(v, lo, hi, buffer)
  {
  }

  /** Byte by byte: what a read returns and what a write leaves. */
  lemma ReadWriteExactly(v: seq<byte>, from: int, bs: seq<byte>, buffer: seq<byte>, k: int)
    requires |buffer| == |bs|
    ensures 0 <= from && from + |bs| <= |v| && 0 <= k < |bs| ==> Read(v, from, from + |bs|, buffer)[k] == v[from + k]
    ensures from < 0 || from + |bs| > |v| ==> Read(v, from, from + |bs|, buffer) == buffer
    ensures 0 <= k < |v| ==>
              Write(v, from, bs)[k] == if 0 <= from <= k < from + |bs| <= |v| then bs[k - from] else v[k]
  {
  }

  class Packet {
    const inMemory: array<byte>
    var writtenByte: int

    constructor (capacity: nat)
      ensures fresh(inMemory) && inMemory.Length == capacity && writtenByte == 0
    {
      inMemory := new byte[capacity];
      writtenByte := 0;
    }

    /** `setLength` does not check its argument, so this is what memory safety asks of callers. */
    ghost predicate InBounds()
      reads this
    {
      writtenByte <= inMemory.Length
    }

    /** The bytes readers and writers can reach. */
    ghost function View(): (v: seq<byte>)
      requires InBounds()
      reads this, inMemory
    {
      if writtenByte < 0 then [] else inMemory[..writtenByte]
    }

    method SetLength(length: int)
      modifies this
      ensures writtenByte == length
    {
      writtenByte := length;
    }

    method ReadByteArray(from: int, to: int, buffer: seq<byte>) returns (r: seq<byte>)
      requires InBounds() && from <= to && |buffer| == to - from
      ensures r == Read(View(), from, to, buffer)
      ensures 0 <= from && to <= writtenByte ==> r == inMemory[from..to]
    {
      if from < 0 || to > writtenByte {
        return buffer;
      }
      r := inMemory[from..to];
    }

    method ReadByte(index: int) returns (r: int)
      requires InBounds()
      ensures r == if 0 <= index < |View()| then View()[index] else -1
      ensures 0 <= index < writtenByte ==> r == inMemory[index]
    {
      if index < 0 || index >= writtenByte {
        return -1;
      }
      r := inMemory[index];
    }

    method WriteByteArray(from: int, to: int, buffer: seq<byte>)
      requires InBounds() && from <= to && to - from == |buffer|
      modifies inMemory
      ensures View() == Write(old(View()), from, buffer)
      ensures forall k :: 0 <= k < inMemory.Length && !(from <= k < to) ==> inMemory[k] == old(inMemory[k])
      ensures 0 <= from && to <= writtenByte ==> inMemory[from..to] == buffer
    {
      if from < 0 || to > writtenByte {
        return;
      }
      forall i | 0 <= i < |buffer| {
        inMemory[from + i] := buffer[i];
      }
      assert inMemory[from..to] == buffer;
      ghost var was, now := old(View()), View();
      assert now[..from] == was[..from] && now[to..] == was[to..];
      assert now == now[..from] + now[from..to] + now[to..];
    }

    method WriteByte(index: int, value: byte)
      requires InBounds()
      modifies inMemory
      ensures View() == Write(old(View()), index, [value])
      ensures forall k :: 0 <= k < inMemory.Length && k != index ==> inMemory[k] == old(inMemory[k])
      ensures 0 <= index < writtenByte ==> inMemory[index] == value
    {
      if index < 0 || index >= writtenByte {
        return;
      }
      inMemory[index] := value;
    }
  }

  /** Consecutive `writeByte(current_offset++, ...)` calls. */
  method PutEach(p: Packet, cur: int, bs: seq<byte>, ghost base: int, ghost room: bool) returns (next: int)
    requires p.InBounds()
    requires room ==> 0 <= base <= cur && cur + |bs| <= p.writtenByte
    modifies p.inMemory
    ensures next == cur + |bs|
    ensures forall k :: 0 <= k < p.inMemory.Length && !(cur <= k < next) ==> p.inMemory[k] == old(p.inMemory[k])
    ensures room ==> p.inMemory[base..next] == old(p.inMemory[base..cur]) + bs
  {
    next := cur + |bs|;
    for i := 0 to |bs|
      invariant forall k :: 0 <= k < p.inMemory.Length && !(cur <= k < cur + i) ==> p.inMemory[k] == old(p.inMemory[k])
      invariant room ==> forall j :: 0 <= j < i ==> p.inMemory[cur + j] == bs[j]
    {
      p.WriteByte(cur + i, bs[i]);
    }
    if room {
      assert p.inMemory[base..cur] == old(p.inMemory[base..cur]);
      assert p.inMemory[cur..next] == bs;
      assert p.inMemory[base..next] == p.inMemory[base..cur] + p.inMemory[cur..next];
    }
  }

  /** A `writeByteArray` at the cursor. */
  method PutArray(p: Packet, cur: int, bs: seq<byte>, ghost base: int, ghost room: bool) returns (next: int)
    requires p.InBounds()
    requires room ==> 0 <= base <= cur && cur + |bs| <= p.writtenByte
    modifies p.inMemory
    ensures next == cur + |bs|
    ensures forall k :: 0 <= k < p.inMemory.Length && !(cur <= k < next) ==> p.inMemory[k] == old(p.inMemory[k])
    ensures room ==> p.inMemory[base..next] == old(p.inMemory[base..cur]) + bs
  {
    next := cur + |bs|;
    p.WriteByteArray(cur, next, bs);
    if room {
      assert p.inMemory[base..cur] == old(p.inMemory[base..cur]);
      assert p.inMemory[base..next] == p.inMemory[base..cur] + p.inMemory[cur..next];
    }
  }
}
