/** Bytes and the 32-bit integers that travel in network byte order. */
module Bytes {

  type Byte = b: int | 0 <= b < 256

  type Int32 = n: int | -0x8000_0000 <= n < 0x8000_0000

  /** htonl, then the four bytes as they lie in memory. */
  function Encode(n: Int32): (s: seq<Byte>)
    ensures |s| == 4
  {
    var u := n % 0x1_0000_0000;
    [u / 0x100_0000, u / 0x1_0000 % 0x100, u / 0x100 % 0x100, u % 0x100]
  }

  function Word(s: seq<Byte>): nat
    requires |s| == 4
  {
    (s[0] as int) * 0x100_0000 + (s[1] as int) * 0x1_0000 + (s[2] as int) * 0x100 + s[3]
  }

  /** Four bytes read into an int32_t, then ntohl. */
  function Decode(s: seq<Byte>): Int32
    requires |s| == 4
  {
    var u := Word(s);
    if u < 0x8000_0000 then u else u - 0x1_0000_0000
  }

  /** Network order: the first byte weighs most. */
  lemma FirstByteWeighsMost(s: seq<Byte>)
    requires |s| == 4
    ensures s[0] < 128 ==>
              Decode(s) == (((s[0] as int) * 256 + s[1]) * 256 + s[2]) * 256 + s[3]
    ensures s[0] >= 128 ==>
              Decode(s) == ((((s[0] as int) - 256) * 256 + s[1]) * 256 + s[2]) * 256 + s[3]
  {
  }

  lemma DecodeEncode(n: Int32)
    ensures Decode(Encode(n)) == n
  {
    Base256(n % 0x1_0000_0000);
  }

  /** The four digits of a word in base 256. */
  lemma Base256(u: nat)
    ensures u == (u / 0x100_0000) * 0x100_0000 + (u / 0x1_0000 % 0x100) * 0x1_0000
                 + (u / 0x100 % 0x100) * 0x100 + u % 0x100
  {
    var a, b := u / 0x100, u / 0x1_0000;
    assert u == a * 0x100 + u % 0x100;
    assert a == b * 0x100 + a % 0x100;
    assert b == u / 0x100_0000 * 0x100 + b % 0x100;
  }

  lemma EncodeDecode(s: seq<Byte>)
    requires |s| == 4
    ensures Encode(Decode(s)) == s
  {
    var u := Word(s);
    assert Decode(s) % 0x1_0000_0000 == u;
    assert u / 0x100_0000 == s[0];
    assert u / 0x1_0000 == (s[0] as int) * 0x100 + s[1];
    assert u / 0x100 == (s[0] as int) * 0x1_0000 + (s[1] as int) * 0x100 + s[2];
  }
}
