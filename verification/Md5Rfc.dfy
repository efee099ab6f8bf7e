// The MD5 message digest as section 3 of RFC 1321 defines it on a whole message.

module Md5Rfc {
  import opened Md5Words

  // ---- section 3.4: one step ----

  /** The round function of step i. */
  function RoundFunction(i: nat, x: Word, y: Word, z: Word): Word
    requires i < 64
  {
    if i < 16 then F(x, y, z) else if i < 32 then G(x, y, z) else if i < 48 then H(x, y, z) else I(x, y, z)
  }

  /** The word of the block that step i adds. */
  function Source(i: nat): (k: nat)
    requires i < 64
    ensures k < 16
  {
    if i < 16 then i
    else if i < 32 then (5 * i + 1) % 16
    else if i < 48 then (3 * i + 5) % 16
    else 7 * i % 16
  }

  function Pick(i: nat, a: nat, b: nat, c: nat, d: nat): nat {
    if i % 4 == 0 then a else if i % 4 == 1 then b else if i % 4 == 2 then c else d
  }

  /** How far step i rotates. */
  function Shift(i: nat): (n: nat)
    requires i < 64
    ensures 0 < n < 32
  {
    if i < 16 then Pick(i, 7, 12, 17, 22)
    else if i < 32 then Pick(i, 5, 9, 14, 20)
    else if i < 48 then Pick(i, 4, 11, 16, 23)
    else Pick(i, 6, 10, 15, 21)
  }

  /** T[i + 1], the integer part of 4294967296 times abs(sin(i + 1)), round by round. */
  function T(i: nat): Word
    requires i < 64
  {
    if i < 16 then T1(i) else if i < 32 then T2(i - 16) else if i < 48 then T3(i - 32) else T4(i - 48)
  }

  function T1(i: nat): Word
    requires i < 16
  {
    match i
    case 0 => 0xd76aa478 case 1 => 0xe8c7b756 case 2 => 0x242070db case 3 => 0xc1bdceee
    case 4 => 0xf57c0faf case 5 => 0x4787c62a case 6 => 0xa8304613 case 7 => 0xfd469501
    case 8 => 0x698098d8 case 9 => 0x8b44f7af case 10 => 0xffff5bb1 case 11 => 0x895cd7be
    case 12 => 0x6b901122 case 13 => 0xfd987193 case 14 => 0xa679438e case _ => 0x49b40821
  }

  function T2(i: nat): Word
    requires i < 16
  {
    match i
    case 0 => 0xf61e2562 case 1 => 0xc040b340 case 2 => 0x265e5a51 case 3 => 0xe9b6c7aa
    case 4 => 0xd62f105d case 5 => 0x02441453 case 6 => 0xd8a1e681 case 7 => 0xe7d3fbc8
    case 8 => 0x21e1cde6 case 9 => 0xc33707d6 case 10 => 0xf4d50d87 case 11 => 0x455a14ed
    case 12 => 0xa9e3e905 case 13 => 0xfcefa3f8 case 14 => 0x676f02d9 case _ => 0x8d2a4c8a
  }

  function T3(i: nat): Word
    requires i < 16
  {
    match i
    case 0 => 0xfffa3942 case 1 => 0x8771f681 case 2 => 0x6d9d6122 case 3 => 0xfde5380c
    case 4 => 0xa4beea44 case 5 => 0x4bdecfa9 case 6 => 0xf6bb4b60 case 7 => 0xbebfbc70
    case 8 => 0x289b7ec6 case 9 => 0xeaa127fa case 10 => 0xd4ef3085 case 11 => 0x04881d05
    case 12 => 0xd9d4d039 case 13 => 0xe6db99e5 case 14 => 0x1fa27cf8 case _ => 0xc4ac5665
  }

  function T4(i: nat): Word
    requires i < 16
  {
    match i
    case 0 => 0xf4292244 case 1 => 0x432aff97 case 2 => 0xab9423a7 case 3 => 0xfc93a039
    case 4 => 0x655b59c3 case 5 => 0x8f0ccc92 case 6 => 0xffeff47d case 7 => 0x85845dd1
    case 8 => 0x6fa87e4f case 9 => 0xfe2ce6e0 case 10 => 0xa3014314 case 11 => 0x4e0811a1
    case 12 => 0xf7537e82 case 13 => 0xbd3af235 case 14 => 0x2ad7d2bb case _ => 0xeb86d391
  }

  datatype Registers = Registers(a: Word, b: Word, c: Word, d: Word)

  /** One step with all its parameters: the new value of the first register. */
  function Mixed(f: Word, a: Word, b: Word, x: Word, s: nat, t: Word): Word
    requires 0 < s < 32
  {
    (RotateLeft((a + f + x + t) % WORD, s) + b) % WORD
  }

  /** Step i on the block x; the registers change roles. */
  function Step(x: seq<Word>, i: nat, r: Registers): Registers
    requires |x| == 16 && i < 64
  {
    Registers(r.d, Mixed(RoundFunction(i, r.b, r.c, r.d), r.a, r.b, x[Source(i)], Shift(i), T(i)), r.b, r.c)
  }

  /** The first n steps. */
  function Steps(x: seq<Word>, n: nat, r: Registers): Registers
    requires |x| == 16 && n <= 64
  {
    if n == 0 then r else Step(x, n - 1, Steps(x, n - 1, r))
  }

  /** The 64 steps on one block and the addition to the state. */
  function Compress(s: Registers, block: seq<Byte>): Registers
    requires |block| == 64
  {
    var r := Steps(Words(block), 64, s);
    Registers((s.a + r.a) % WORD, (s.b + r.b) % WORD, (s.c + r.c) % WORD, (s.d + r.d) % WORD)
  }

  // ---- sections 3.1 to 3.5: the whole message ----

  const INITIAL := Registers(0x67452301, 0xefcdab89, 0x98badcfe, 0x10325476)

  /** Section 3.3 gives the four registers as these bytes. */
  lemma InitialBytes()
    ensures Output(INITIAL) == [0x01, 0x23, 0x45, 0x67, 0x89, 0xab, 0xcd, 0xef, 0xfe, 0xdc, 0xba, 0x98, 0x76, 0x54, 0x32, 0x10]
  {
    WordBytesOf(0x01, 0x23, 0x45, 0x67);
    WordBytesOf(0x89, 0xab, 0xcd, 0xef);
    WordBytesOf(0xfe, 0xdc, 0xba, 0x98);
    WordBytesOf(0x76, 0x54, 0x32, 0x10);
    hide WordBytes;
    BytesOfFour(0x67452301, 0xefcdab89, 0x98badcfe, 0x10325476);
  }

  lemma BytesOfFour(a: Word, b: Word, c: Word, d: Word)
    ensures Bytes([a, b, c, d]) == WordBytes(a) + WordBytes(b) + WordBytes(c) + WordBytes(d)
  {
    hide WordBytes;
    assert [a, b, c, d][1..] == [b, c, d] && [b, c, d][1..] == [c, d] && [c, d][1..] == [d] && [d][1..] == [];
    assert Bytes([d]) == WordBytes(d);
    assert Bytes([c, d]) == WordBytes(c) + WordBytes(d);
    assert Bytes([b, c, d]) == WordBytes(b) + WordBytes(c) + WordBytes(d);
  }

  function Zeros(n: nat): (s: seq<Byte>)
    ensures |s| == n && forall k :: 0 <= k < n ==> s[k] == 0
  {
    if n == 0 then [] else [0] + Zeros(n - 1)
  }

  /** How many bytes of padding bring a message of n bytes to 56 modulo 64. */
  function PadLength(n: nat): (k: nat)
    ensures 1 <= k <= 64 && (n + k) % 64 == 56
  {
    if n % 64 < 56 then 56 - n % 64 else 120 - n % 64
  }

  function Padding(n: nat): (s: seq<Byte>)
    requires 0 < n
    ensures |s| == n
  {
    [0x80] + Zeros(n - 1)
  }

  /** The length in bits modulo 2^64, low-order word first. */
  function BitLength(n: nat): (s: seq<Word>)
    ensures |s| == 2
  {
    [8 * n % WORD, 8 * n / WORD % WORD]
  }

  lemma RoundUp(n: nat)
    requires n % 64 == 56
    ensures (n + 8) % 64 == 0
  {
  }

  function Padded(message: seq<Byte>): (s: seq<Byte>)
    ensures |s| % 64 == 0
  {
    hide PadLength, Padding, Bytes, BitLength;
    RoundUp(|message| + PadLength(|message|));
    message + Padding(PadLength(|message|)) + Bytes(BitLength(|message|))
  }

  /** The number that bytes stand for, low-order byte first. */
  function Number(s: seq<Byte>): nat {
    if s == [] then 0 else s[0] + 0x100 * Number(s[1..])
  }

  lemma {:induction false} NumberOfWords(a: Word, b: Word)
    ensures Number(Bytes([a, b])) == a + WORD * b
  {
    var s, t := WordBytes(a), WordBytes(b);
    WordOfBytes(a);
    WordOfBytes(b);
    hide WordBytes;
    assert [a, b][1..] == [b] && Bytes([b]) == t + [] && t + [] == t;
    NumberOfFour(s[0], s[1], s[2], s[3], t);
    NumberOfFour(t[0], t[1], t[2], t[3], []);
    assert s == [s[0], s[1], s[2], s[3]] && t == [t[0], t[1], t[2], t[3]] + [];
  }

  lemma NumberOfFour(a: Byte, b: Byte, c: Byte, d: Byte, rest: seq<Byte>)
    ensures Number([a, b, c, d] + rest) == WordOf(a, b, c, d) + WORD * Number(rest)
  {
    var s := [a, b, c, d] + rest;
    var s1, s2, s3 := [b, c, d] + rest, [c, d] + rest, [d] + rest;
    assert s[1..] == s1 && s1[1..] == s2 && s2[1..] == s3 && s3[1..] == rest;
    assert Number(s3) == d + 0x100 * Number(rest);
    assert Number(s2) == c + 0x100 * Number(s3);
    assert Number(s1) == b + 0x100 * Number(s2);
  }

  /** Sections 3.1 and 3.2: the message, a one bit, zeros, and the length in bits modulo 2^64. */
  lemma PaddedShape(message: seq<Byte>)
    ensures var n, p := |message|, Padded(message);
            && n + 9 <= |p| <= n + 72 && |p| % 64 == 0
            && p[..n] == message && p[n] == 0x80
            && (forall k :: n < k < |p| - 8 ==> p[k] == 0)
            && Number(p[|p| - 8..]) == 8 * n % (WORD * WORD)
  {
    var n, p := |message|, Padded(message);
    hide Number, Bytes;
    var k, length := PadLength(n), BitLength(n);
    assert p[|p| - 8..] == Bytes(length);
    NumberOfWords(length[0], length[1]);
    Quotients(8 * n);
    assert forall j :: 0 < j < k ==> Padding(k)[j] == 0;
    assert forall j :: n <= j < n + k ==> p[j] == Padding(k)[j - n];
  }

  lemma Quotients(x: nat)
    ensures x % WORD + WORD * (x / WORD % WORD) == x % (WORD * WORD)
  {
    var q, r := x / WORD, x % WORD;
    var q1, r1 := q / WORD, q % WORD;
    assert x == q1 * (WORD * WORD) + (WORD * r1 + r);
  }

  lemma BlockLess(n: nat)
    requires n >= 64 && n % 64 == 0
    ensures (n - 64) % 64 == 0
  {
  }

  /** The state after the 64-byte blocks of s. */
  function Fold(state: Registers, s: seq<Byte>): Registers
    requires |s| % 64 == 0
    decreases |s|
  {
    if |s| < 64 then state
    else
      BlockLess(|s|);
      Fold(Compress(state, s[..64]), s[64..])
  }

  function Output(r: Registers): (s: seq<Byte>)
    ensures |s| == 16
  {
    Bytes([r.a, r.b, r.c, r.d])
  }

  function Digest(message: seq<Byte>): (d: seq<Byte>)
    ensures |d| == 16
  {
    Output(Fold(INITIAL, Padded(message)))
  }

  lemma {:induction false} FoldAppend(state: Registers, a: seq<Byte>, b: seq<Byte>)
    requires |a| % 64 == 0 && |b| % 64 == 0
    ensures Fold(state, a + b) == Fold(Fold(state, a), b)
    decreases |a|
  {
    hide Compress;
    if a == [] {
      assert a + b == b;
    } else {
      assert (a + b)[..64] == a[..64] && (a + b)[64..] == a[64..] + b;
      FoldAppend(Compress(state, a[..64]), a[64..], b);
    }
  }
}
