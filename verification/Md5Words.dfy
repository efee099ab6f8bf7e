// Bytes and 32-bit words of MD5: section 2 of RFC 1321 and the round functions
// of its section 3.4. Words are integers below 2^32; the bitwise operations go
// through bit vectors.

module Md5Words {
  import opened Md5Bits

  type Byte = b: int | 0 <= b < 256
  const WORD := 0x1_0000_0000
  type Word = w: int | 0 <= w < WORD

  /** The four bytes of a word, low-order first. */
  function WordBytes(w: Word): (s: seq<Byte>)
    ensures |s| == 4
  {
    [w % 256, w / 0x100 % 256, w / 0x1_0000 % 256, w / 0x100_0000]
  }

  function Bytes(ws: seq<Word>): (s: seq<Byte>)
    ensures |s| == 4 * |ws|
  {
    if ws == [] then [] else WordBytes(ws[0]) + Bytes(ws[1..])
  }

  function WordOf(a: Byte, b: Byte, c: Byte, d: Byte): Word {
    a + 0x100 * b + 0x1_0000 * c + 0x100_0000 * d
  }

  function Words(s: seq<Byte>): (ws: seq<Word>)
    requires |s| % 4 == 0
    ensures 4 * |ws| == |s|
  {
    if s == [] then [] else [WordOf(s[0], s[1], s[2], s[3])] + Words(s[4..])
  }

  // ---- bitwise operations ----

  function ToBits(x: Word): bv32 {
    x as bv32
  }

  function OfBits(b: bv32): Word {
    b as int
  }

  function RotateLeft(x: Word, n: nat): Word
    requires 0 < n < 32
  {
    OfBits(RotateBits(ToBits(x), n as bv5))
  }

  function F(x: Word, y: Word, z: Word): Word {
    OfBits(FBits(ToBits(x), ToBits(y), ToBits(z)))
  }

  function G(x: Word, y: Word, z: Word): Word {
    OfBits(GBits(ToBits(x), ToBits(y), ToBits(z)))
  }

  function H(x: Word, y: Word, z: Word): Word {
    OfBits(HBits(ToBits(x), ToBits(y), ToBits(z)))
  }

  function I(x: Word, y: Word, z: Word): Word {
    OfBits(IBits(ToBits(x), ToBits(y), ToBits(z)))
  }

  // ---- words and bytes are inverse ----

  lemma {:induction false} WordsOfBytes(ws: seq<Word>)
    ensures Words(Bytes(ws)) == ws
  {
    if ws != [] {
      var b, s := WordBytes(ws[0]), Bytes(ws);
      WordOfBytes(ws[0]);
      hide WordBytes, WordOf;
      assert s[0] == b[0] && s[1] == b[1] && s[2] == b[2] && s[3] == b[3] && s[4..] == Bytes(ws[1..]);
      WordsOfBytes(ws[1..]);
    }
  }

  lemma {:induction false} BytesOfWords(s: seq<Byte>)
    requires |s| % 4 == 0
    ensures Bytes(Words(s)) == s
  {
    hide WordBytes, WordOf;
    if s != [] {
      BytesOfWords(s[4..]);
      WordBytesOf(s[0], s[1], s[2], s[3]);
      assert Words(s)[1..] == Words(s[4..]);
      assert s == [s[0], s[1], s[2], s[3]] + s[4..];
    }
  }

  lemma ByteSplit(x: nat, q: nat, r: nat)
    requires x == 0x100 * q + r && r < 0x100
    ensures x / 0x100 == q && x % 0x100 == r
  {
  }

  /** The shifts by 16 and 24 bits are shifts by 8 bits repeated. */
  lemma ByteShifts(x: nat)
    ensures x / 0x1_0000 == x / 0x100 / 0x100 && x / 0x100_0000 == x / 0x100 / 0x100 / 0x100
  {
  }

  lemma WordOfBytes(w: Word)
    ensures var b := WordBytes(w); WordOf(b[0], b[1], b[2], b[3]) == w
  {
    ByteShifts(w);
  }

  lemma WordBytesOf(a: Byte, b: Byte, c: Byte, d: Byte)
    ensures WordBytes(WordOf(a, b, c, d)) == [a, b, c, d]
  {
    var w, p, q := WordOf(a, b, c, d), b + 0x100 * c + 0x1_0000 * d, c + 0x100 * d;
    ByteShifts(w);
    ByteSplit(w, p, a);
    hide WordOf;
    ByteSplit(p, q, b);
    ByteSplit(q, d, c);
  }
}
