/** The Internet checksum: the folded 32-bit accumulator against the sum of section 1 of RFC 1071. */
module Checksums {
  import opened Octets

  /** The plain sum of the big-endian 16-bit words, a last odd byte padded with zero. */
  function WordSum(s: seq<byte>): (r: nat)
    ensures r <= (|s| + 1) / 2 * 0xFFFF
  {
    if |s| == 0 then 0
    else if |s| == 1 then Word(s[0], 0)
    else Word(s[0], s[1]) + WordSum(s[2..])
  }

  /** Ones-complement addition: a carry out of bit 15 comes back in at bit 0. */
  function OnesAdd(a: nat, b: nat): (r: nat)
    requires a < 0x1_0000 && b < 0x1_0000
    ensures r < 0x1_0000
  {
    if a + b >= 0x1_0000 then a + b - 0xFFFF else a + b
  }

  /** The reference sum of RFC 1071: word by word, with the carry returned at every addition. */
  function RfcSum(s: seq<byte>): (r: nat)
    ensures r < 0x1_0000
  {
    if |s| == 0 then 0
    else if |s| == 1 then Word(s[0], 0)
    else OnesAdd(Word(s[0], s[1]), RfcSum(s[2..]))
  }

  /** On one word, or half of one, the reference sum is that word in network order. */
  lemma RfcSumOfWord(a: byte, b: byte)
    ensures RfcSum([a]) == 256 * a && RfcSum([a, b]) == 256 * a + b
  {
    assert [a, b][2..] == [];
  }

  /** The two fold lines of gateway.cpp and udp.cpp on a 32-bit accumulator, and the 16-bit cast. */
  function Fold(sum: nat): (r: nat)
    requires sum < 0x1_0000_0000
    ensures r < 0x1_0000
  {
    var once := sum / 0x1_0000 + sum % 0x1_0000;
    (once + once / 0x1_0000) % 0x1_0000
  }

  /** The canonical representative: 0 only for 0, otherwise the residue modulo 65535 taken in 1..65535. */
  function Canonical(x: nat): (r: nat)
    ensures r <= 0xFFFF && (r == 0 <==> x == 0)
  {
    if x == 0 then 0 else (x - 1) % 0xFFFF + 1
  }

  lemma CanonicalUnique(x: nat, q: nat, r: nat)
    requires x == q * 0xFFFF + r && 1 <= r <= 0xFFFF
    ensures Canonical(x) == r
  {
  }

  /** The two-line fold is the complete end-around carry for every 32-bit value. */
  lemma FoldIsCanonical(sum: nat)
    requires sum < 0x1_0000_0000
    ensures Fold(sum) == Canonical(sum)
    ensures Fold(sum) % 0xFFFF == sum % 0xFFFF
    ensures Fold(sum) == 0 <==> sum == 0
  {
    var hi, lo := sum / 0x1_0000, sum % 0x1_0000;
    var once := hi + lo;
    assert sum == hi * 0xFFFF + once;
    if sum != 0 {
      if once < 0x1_0000 {
        CanonicalUnique(sum, hi, once);
      } else {
        CanonicalUnique(sum, hi + 1, once - 0xFFFF);
      }
    }
  }

  lemma OnesAddCanonical(a: nat, x: nat)
    requires a < 0x1_0000
    ensures OnesAdd(a, Canonical(x)) == Canonical(a + x)
  {
  }

  lemma {:induction false} RfcIsCanonical(s: seq<byte>)
    ensures RfcSum(s) == Canonical(WordSum(s))
  {
    if |s| == 0 {
    } else if |s| == 1 {
      OnesAddCanonical(Word(s[0], 0), 0);
    } else {
      RfcIsCanonical(s[2..]);
      OnesAddCanonical(Word(s[0], s[1]), WordSum(s[2..]));
    }
  }

  /** Up to 65537 words the accumulator cannot wrap, so folding it once at the end refines RFC 1071. */
  lemma FoldRefinesRfc(s: seq<byte>)
    requires (|s| + 1) / 2 <= 65537
    ensures WordSum(s) < 0x1_0000_0000
    ensures Fold(WordSum(s)) == RfcSum(s)
  {
    FoldIsCanonical(WordSum(s));
    RfcIsCanonical(s);
  }

  lemma {:induction false} WordSumConcat(a: seq<byte>, b: seq<byte>)
    requires |a| % 2 == 0
    ensures WordSum(a + b) == WordSum(a) + WordSum(b)
  {
    if |a| == 0 {
      assert a + b == b;
    } else {
      WordSumConcat(a[2..], b);
      assert (a + b)[2..] == a[2..] + b;
    }
  }

  /** What the program stores in the checksum field, given the folded accumulator. */
  function Complement(folded: nat): (c: seq<byte>)
    requires folded < 0x1_0000
    ensures |c| == 2 && Word(c[0], c[1]) == 0xFFFF - folded
  {
    Be16(0xFFFF - folded)
  }

  /**
   * Any message whose two-byte checksum field at an even offset was zero while the sum was taken,
   * and then received the complement of the folded sum, sums to 0xFFFF at the receiver.
   */
  lemma ChecksumVerifies(pre: seq<byte>, post: seq<byte>)
    requires |pre| % 2 == 0
    requires (|pre| + 2 + |post| + 1) / 2 <= 65537
    ensures WordSum(pre + [0, 0] + post) < 0x1_0000_0000
    ensures RfcSum(pre + Complement(Fold(WordSum(pre + [0, 0] + post))) + post) == 0xFFFF
  {
    FoldRefinesRfc(pre + [0, 0] + post);
    RfcIsCanonical(pre + [0, 0] + post);
    ComplementVerifies(pre, post, Fold(WordSum(pre + [0, 0] + post)));
  }

  /** The same with the accumulator's 32-bit wrap written out. */
  lemma WrappedChecksumVerifies(pre: seq<byte>, post: seq<byte>)
    requires |pre| % 2 == 0
    requires (|pre| + 2 + |post| + 1) / 2 <= 65537
    ensures RfcSum(pre + Complement(Fold(WordSum(pre + [0, 0] + post) % 0x1_0000_0000)) + post) == 0xFFFF
  {
    ChecksumVerifies(pre, post);
    BelowModulus(WordSum(pre + [0, 0] + post));
  }

  lemma ComplementVerifies(pre: seq<byte>, post: seq<byte>, folded: nat)
    requires |pre| % 2 == 0
    requires folded == Canonical(WordSum(pre + [0, 0] + post))
    ensures RfcSum(pre + Complement(folded) + post) == 0xFFFF
  {
    ThreePartSum(pre, [0, 0], post);
    ThreePartSum(pre, Complement(folded), post);
    RfcIsCanonical(pre + Complement(folded) + post);
    ComplementCompletes(WordSum(pre + [0, 0] + post));
  }

  lemma ComplementCompletes(sum: nat)
    ensures Canonical(sum + (0xFFFF - Canonical(sum))) == 0xFFFF
  {
  }

  lemma ThreePartSum(pre: seq<byte>, field: seq<byte>, post: seq<byte>)
    requires |pre| % 2 == 0 && |field| == 2
    ensures WordSum(pre + field + post) == WordSum(pre) + Word(field[0], field[1]) + WordSum(post)
  {
    WordSumConcat(pre + field, post);
    WordSumConcat(pre, field);
    assert field[2..] == [];
  }

  /** `one_compl`: walks the words of an even-sized structure with a wrapping 32-bit accumulator. */
  method OneCompl(s: seq<byte>) returns (c: seq<byte>)
    requires |s| % 2 == 0
    ensures c == Complement(Fold(WordSum(s) % 0x1_0000_0000))
    ensures |s| / 2 <= 65537 ==> c == Complement(RfcSum(s))
  {
    var sum := AccumulateWords(s, 0);
    c := Complement(Fold(sum));
    if |s| / 2 <= 65537 {
      FoldRefinesRfc(s);
      BelowModulus(WordSum(s));
    }
  }

  lemma BelowModulus(sum: nat)
    requires sum < 0x1_0000_0000
    ensures sum % 0x1_0000_0000 == sum
  {
  }

  /** The accumulating loop shared by `one_compl` and the two header loops of `makePacket`. */
  method AccumulateWords(s: seq<byte>, start: nat) returns (sum: nat)
    requires |s| % 2 == 0
    ensures sum == (start + WordSum(s)) % 0x1_0000_0000
  {
    hide WordSum, Partial;
    sum := start % 0x1_0000_0000;
    var i := 0;
    NothingSummed(start, s);
    while i < |s|
      invariant 0 <= i <= |s| && i % 2 == 0
      invariant sum == Partial(start, s, i)
    {
      AddWord(start, s, i);
      sum := (sum + Word(s[i], s[i + 1])) % 0x1_0000_0000;
      i := i + 2;
    }
    AllSummed(start, s);
  }

  /** The accumulator after the words of `d[..i]`. */
  ghost function Partial(start: nat, d: seq<byte>, i: nat): nat
    requires i <= |d|
  {
    (start + WordSum(d[..i])) % 0x1_0000_0000
  }

  lemma NothingSummed(start: nat, d: seq<byte>)
    ensures Partial(start, d, 0) == start % 0x1_0000_0000
  {
  }

  lemma AddWord(start: nat, d: seq<byte>, i: nat)
    requires i % 2 == 0 && i + 2 <= |d|
    ensures (Partial(start, d, i) + Word(d[i], d[i + 1])) % 0x1_0000_0000 == Partial(start, d, i + 2)
  {
    NextWord(d, i);
    WrapAdd(start + WordSum(d[..i]), Word(d[i], d[i + 1]));
  }

  lemma AllSummed(start: nat, d: seq<byte>)
    ensures Partial(start, d, |d|) == (start + WordSum(d)) % 0x1_0000_0000
  {
    hide WordSum;
    assert d[..|d|] == d;
  }

  lemma NextWord(s: seq<byte>, i: nat)
    requires i % 2 == 0 && i + 2 <= |s|
    ensures WordSum(s[..i + 2]) == WordSum(s[..i]) + Word(s[i], s[i + 1])
  {
    var w := s[i..i + 2];
    assert s[..i + 2] == s[..i] + w;
    WordSumConcat(s[..i], w);
    assert w[2..] == [];
  }

  lemma WrapAdd(a: nat, w: nat)
    ensures (a % 0x1_0000_0000 + w) % 0x1_0000_0000 == (a + w) % 0x1_0000_0000
  {
  }
}
