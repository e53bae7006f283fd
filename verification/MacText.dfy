/** MAC addresses as text: `printMAC`, `hex_to_byte` and `readMAC` of ethernet.cpp. */
module MacText {
  import opened Octets

  type nibble = d: int | 0 <= d < 16

  /** `hex_to_byte`: the digit's value, or -1 for any other character. */
  function HexValue(c: char): (v: int)
    ensures -1 <= v < 16
  {
    if 'a' <= c <= 'f' then c as int + 10 - 'a' as int
    else if 'A' <= c <= 'F' then c as int + 10 - 'A' as int
    else if '0' <= c <= '9' then c as int - '0' as int
    else -1
  }

  function HexChar(d: nibble): (c: char)
    ensures HexValue(c) == d && !('a' <= c <= 'f')
  {
    if d < 10 then '0' + d as char else 'A' + (d - 10) as char
  }

  /** Both alphabets of hexadecimal digits, and nothing else. */
  lemma HexValueExactly(c: char, d: nibble)
    ensures HexValue(c) == d <==> c == "0123456789abcdef"[d] || c == "0123456789ABCDEF"[d]
    ensures HexChar(d) == "0123456789ABCDEF"[d]
  {
  }

  /** The digit a character contributes to the address, if any. */
  function DigitOf(c: char): (ds: seq<nibble>) {
    if HexValue(c) == -1 then [] else [HexValue(c)]
  }

  /** The values of the hexadecimal digits of a text, in order, everything else skipped. */
  function Digits(s: string): (ds: seq<nibble>) {
    if s == "" then [] else DigitOf(s[0]) + Digits(s[1..])
  }

  function Octet(hi: nibble, lo: nibble): (b: byte)
    ensures b / 16 == hi && b % 16 == lo
  {
    var high: int := hi;
    16 * high + lo
  }

  /** The address spelled by the first twelve digits. */
  function FromDigits(ds: seq<nibble>): (m: Mac)
    requires |ds| >= 12
    ensures forall i :: 0 <= i < 6 ==> m[i] == Octet(ds[2 * i], ds[2 * i + 1])
  {
    [Octet(ds[0], ds[1]), Octet(ds[2], ds[3]), Octet(ds[4], ds[5]),
     Octet(ds[6], ds[7]), Octet(ds[8], ds[9]), Octet(ds[10], ds[11])]
  }

  function Nibbles(m: seq<byte>): (ds: seq<nibble>)
    ensures |ds| == 2 * |m|
    ensures forall i :: 0 <= i < |m| ==> ds[2 * i] == m[i] / 16 && ds[2 * i + 1] == m[i] % 16
  {
    if m == [] then [] else [m[0] / 16, m[0] % 16] + Nibbles(m[1..])
  }

  /** The conversions `%02X:%02X:...` of `printMAC`; six octets give seventeen characters. */
  function PrintOctets(m: seq<byte>): (s: string)
    requires m != []
    ensures |s| == 3 * |m| - 1
    ensures forall i :: 0 <= i < |s| ==>
              if i % 3 == 2 then s[i] == ':' else HexValue(s[i]) != -1 && !('a' <= s[i] <= 'f')
  {
    var octet := [HexChar(m[0] / 16), HexChar(m[0] % 16)];
    if |m| == 1 then octet else octet + ":" + PrintOctets(m[1..])
  }

  lemma {:induction false} DigitsConcat(a: string, b: string)
    ensures Digits(a + b) == Digits(a) + Digits(b)
  {
    if a == "" {
      assert a + b == b;
    } else {
      DigitsConcat(a[1..], b);
      assert (a + b)[1..] == a[1..] + b;
    }
  }

  lemma OneDigit(c: char)
    ensures Digits([c]) == DigitOf(c)
  {
  }

  lemma PairDigits(hi: char, lo: char)
    requires HexValue(hi) != -1 && HexValue(lo) != -1
    ensures Digits([hi, lo]) == [HexValue(hi), HexValue(lo)]
  {
    assert [hi, lo] == [hi] + [lo];
    DigitsConcat([hi], [lo]);
    OneDigit(hi);
    OneDigit(lo);
  }

  lemma {:induction false} PrintedDigits(m: seq<byte>)
    requires m != []
    ensures Digits(PrintOctets(m)) == Nibbles(m)
  {
    var octet := [HexChar(m[0] / 16), HexChar(m[0] % 16)];
    PairDigits(octet[0], octet[1]);
    if |m| > 1 {
      PrintedDigits(m[1..]);
      DigitsConcat(octet + ":", PrintOctets(m[1..]));
      DigitsConcat(octet, ":");
      OneDigit(':');
    } else {
      assert m[1..] == [];
    }
  }

  /** Printing and reading back is the identity on addresses. */
  lemma PrintThenRead(m: Mac)
    ensures |Digits(PrintOctets(m))| == 12
    ensures FromDigits(Digits(PrintOctets(m))) == m
  {
    PrintedDigits(m);
    assert forall i :: 0 <= i < 6 ==> m[i] == Octet(m[i] / 16, m[i] % 16);
  }

  /** The canonical text of a list of digits: upper case, a colon after every second one. */
  function ColonHex(ds: seq<nibble>): string
    requires |ds| % 2 == 0 && ds != []
  {
    var octet := [HexChar(ds[0]), HexChar(ds[1])];
    if |ds| == 2 then octet else octet + ":" + ColonHex(ds[2..])
  }

  lemma {:induction false} PrintIsColonHex(m: seq<byte>)
    requires m != []
    ensures PrintOctets(m) == ColonHex(Nibbles(m))
  {
    if |m| == 1 {
    } else {
      assert Nibbles(m)[2..] == Nibbles(m[1..]);
      PrintIsColonHex(m[1..]);
    }
  }

  /**
   * Reading any text and printing the result gives the canonical text of its first twelve digits: case,
   * separators and whatever follows them are normalised away.
   */
  lemma ReadThenPrint(s: string)
    requires |Digits(s)| >= 12
    ensures PrintOctets(FromDigits(Digits(s))) == ColonHex(Digits(s)[..12])
  {
    hide Digits, FromDigits, PrintOctets, ColonHex;
    NibblesOf(Digits(s));
    PrintIsColonHex(FromDigits(Digits(s)));
  }

  lemma NibblesOf(ds: seq<nibble>)
    requires |ds| >= 12
    ensures Nibbles(FromDigits(ds)) == ds[..12]
  {
    var m := FromDigits(ds);
    hide FromDigits;
    forall k | 0 <= k < 12 ensures Nibbles(m)[k] == ds[k] {
      var i := k / 2;
      assert k == 2 * i || k == 2 * i + 1;
      assert m[i] == Octet(ds[2 * i], ds[2 * i + 1]);
    }
  }

  lemma {:induction false} NextChar(s: string, i: nat)
    requires i < |s|
    ensures Digits(s[..i + 1]) == Digits(s[..i]) + DigitOf(s[i])
    ensures Digits(s) == Digits(s[..i]) + DigitOf(s[i]) + Digits(s[i + 1..])
  {
    hide Digits, DigitOf, HexValue;
    var front, back := s[..i + 1], s[i + 1..];
    assert front == s[..i] + [s[i]] && s == front + back;
    DigitsConcat(s[..i], [s[i]]);
    OneDigit(s[i]);
    DigitsConcat(front, back);
  }

  /**
   * `readMAC`: the loop over the text. It stops only after twelve digits, so a text with fewer
   * would be read past its end; such a text is outside what the callers may pass. Each octet is
   * still zero in the bits being set, so the source's bitwise or is an addition.
   */
  method ReadMac(buf: string) returns (m: Mac)
    requires |Digits(buf)| >= 12
    ensures m == FromDigits(Digits(buf))
  {
    m := [0, 0, 0, 0, 0, 0];
    var pos, start, goNext := 0, 0, false;
    ghost var ds := Digits(buf);
    assert Digits(buf[..0]) == [];
    hide Digits, HexValue;
    while start < 6
      invariant 0 <= pos <= |buf| && 0 <= start <= 6 && (start == 6 ==> !goNext)
      invariant |Digits(buf[..pos])| == 2 * start + if goNext then 1 else 0
      invariant forall i :: 0 <= i < start ==> m[i] == Octet(ds[2 * i], ds[2 * i + 1])
      invariant start < 6 ==> m[start] == if goNext then Octet(ds[2 * start], 0) else 0
      invariant forall i :: start < i < 6 ==> m[i] == 0
      decreases |buf| - pos
    {
      assert buf[..|buf|] == buf;
      NextChar(buf, pos);
      var ret := HexValue(buf[pos]);
      pos := pos + 1;
      if ret == -1 {
        continue;
      }
      if !goNext {
        m := m[start := m[start] + ret * 16];
        goNext := true;
      } else {
        m := m[start := m[start] + ret];
        goNext := false;
        start := start + 1;
      }
    }
  }
}
