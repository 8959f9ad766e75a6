/** `TextEncoder.encode`: the UTF-8 encoding of a string of Unicode scalar values. */
module Utf8 {

  type byte = b: int | 0 <= b < 256
  type Bytes = seq<byte>

  predicate IsAscii(c: char)
  {
    c as int < 0x80
  }

  /** The one to four bytes that encode one scalar value. */
  function EncodeChar(c: char): (bs: Bytes)
    ensures 1 <= |bs| <= 4
    ensures |bs| == 1 <==> IsAscii(c)
    ensures IsAscii(c) ==> bs == [c as int]
  {
    var n := c as int;
    if n < 0x80 then [n]
    else if n < 0x800 then [0xC0 + n / 0x40, 0x80 + n % 0x40]
    else if n < 0x1_0000 then [0xE0 + n / 0x1000, 0x80 + (n / 0x40) % 0x40, 0x80 + n % 0x40]
    else [0xF0 + n / 0x4_0000, 0x80 + (n / 0x1000) % 0x40, 0x80 + (n / 0x40) % 0x40, 0x80 + n % 0x40]
  }

  function Encode(s: string): (bs: Bytes)
    ensures |s| <= |bs| <= 4 * |s|
  {
    if s == [] then [] else EncodeChar(s[0]) + Encode(s[1..])
  }

  /** Encoding distributes over concatenation. */
  lemma {:induction false} EncodeAppend(a: string, b: string)
    ensures Encode(a + b) == Encode(a) + Encode(b)
  {
    if a != [] {
      assert (a + b)[1..] == a[1..] + b;
      EncodeAppend(a[1..], b);
    } else {
      assert a + b == b;
    }
  }

  /** The sequence length a UTF-8 lead byte announces. */
  function LeadLength(b: byte): (n: nat)
    ensures 1 <= n <= 4
  {
    if b < 0x80 then 1 else if b < 0xE0 then 2 else if b < 0xF0 then 3 else 4
  }

  /** The first byte of a character's encoding announces its length. */
  lemma EncodeCharLead(c: char)
    ensures LeadLength(EncodeChar(c)[0]) == |EncodeChar(c)|
  {
    var n := c as int;
    if 0x80 <= n < 0x800 {
      assert 2 <= n / 0x40 < 0x20;
    } else if 0x800 <= n < 0x1_0000 {
      assert n / 0x1000 < 0x10;
    } else if 0x1_0000 <= n {
      assert n <= 0x10_FFFF;
      assert 0xF0 + n / 0x4_0000 >= 0xF0;
    }
  }

  /** The scalar value one to four bytes of a well-formed sequence encode. */
  function DecodeChar(bs: Bytes): int
    requires 1 <= |bs| <= 4
  {
    if |bs| == 1 then bs[0]
    else if |bs| == 2 then (bs[0] as int - 0xC0) * 0x40 + (bs[1] as int - 0x80)
    else if |bs| == 3 then (bs[0] as int - 0xE0) * 0x1000 + (bs[1] as int - 0x80) * 0x40 + (bs[2] as int - 0x80)
    else (bs[0] as int - 0xF0) * 0x4_0000 + (bs[1] as int - 0x80) * 0x1000 + (bs[2] as int - 0x80) * 0x40 + (bs[3] as int - 0x80)
  }

  /** Taking six bits off twice takes twelve off. */
  lemma DropBits(n: nat, k: nat)
    requires k == 0x40 || k == 0x1000
    ensures (n / k) / 0x40 == n / (k * 0x40)
  {
    var q, r := n / (k * 0x40), n % (k * 0x40);
    assert n == k * 0x40 * q + r;
    assert r / k < 0x40;
    assert n == k * (0x40 * q + r / k) + r % k;
    assert n / k == 0x40 * q + r / k;
  }

  lemma {:induction false} DecodeEncodeChar(c: char)
    ensures DecodeChar(EncodeChar(c)) == c as int
  {
    var n := c as int;
    if 0x800 <= n < 0x1_0000 {
      DropBits(n, 0x40);
      assert n / 0x40 == 0x40 * (n / 0x1000) + (n / 0x40) % 0x40;
    } else if 0x1_0000 <= n {
      DropBits(n, 0x40);
      DropBits(n, 0x1000);
      assert n / 0x40 == 0x40 * (n / 0x1000) + (n / 0x40) % 0x40;
      assert n / 0x1000 == 0x40 * (n / 0x4_0000) + (n / 0x1000) % 0x40;
    }
  }

  /** Different characters have different encodings. */
  lemma EncodeCharInjective(c: char, d: char)
    requires EncodeChar(c) == EncodeChar(d)
    ensures c == d
  {
    DecodeEncodeChar(c);
    DecodeEncodeChar(d);
  }

  /** Encoding is injective: the bytes determine the string. */
  lemma {:induction false} EncodeInjective(s: string, t: string)
    requires Encode(s) == Encode(t)
    ensures s == t
  {
    if s != [] && t != [] {
      var a, b := EncodeChar(s[0]), EncodeChar(t[0]);
      assert Encode(s) == a + Encode(s[1..]) && Encode(t) == b + Encode(t[1..]);
      EncodeCharLead(s[0]);
      EncodeCharLead(t[0]);
      assert a[0] == Encode(s)[0] == b[0];
      assert a == Encode(s)[..|a|] == b;
      EncodeCharInjective(s[0], t[0]);
      assert Encode(s[1..]) == Encode(s)[|a|..] == Encode(t[1..]);
      EncodeInjective(s[1..], t[1..]);
      assert s == [s[0]] + s[1..] && t == [t[0]] + t[1..];
    }
  }

  /** An ASCII string encodes to one byte per character, the code itself. */
  lemma {:induction false} EncodeAscii(s: string)
    requires forall i :: 0 <= i < |s| ==> IsAscii(s[i])
    ensures |Encode(s)| == |s|
    ensures forall i :: 0 <= i < |s| ==> Encode(s)[i] == s[i] as int
  {
    if s != [] {
      EncodeAscii(s[1..]);
    }
  }
}
