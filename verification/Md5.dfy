// The streaming MD5 of MFCTool/CmdService: a 64-byte buffer, a bit counter of
// two words, and an unrolled transformation of each full block.

module Md5 {
  import opened Md5Words
  import opened Md5Rfc

  // ---- the unrolled steps ----

  function FF(a: Word, b: Word, c: Word, d: Word, x: Word, s: nat, ac: Word): Word
    requires 0 < s < 32
  {
    Mixed(F(b, c, d), a, b, x, s, ac)
  }

  function GG(a: Word, b: Word, c: Word, d: Word, x: Word, s: nat, ac: Word): Word
    requires 0 < s < 32
  {
    Mixed(G(b, c, d), a, b, x, s, ac)
  }

  function HH(a: Word, b: Word, c: Word, d: Word, x: Word, s: nat, ac: Word): Word
    requires 0 < s < 32
  {
    Mixed(H(b, c, d), a, b, x, s, ac)
  }

  function II(a: Word, b: Word, c: Word, d: Word, x: Word, s: nat, ac: Word): Word
    requires 0 < s < 32
  {
    Mixed(I(b, c, d), a, b, x, s, ac)
  }

  /** The first sixteen steps of transform. */
  method Round1(x: seq<Word>, ghost start: Registers, r: Registers) returns (q: Registers)
    requires |x| == 16 && r == Steps(x, 0, start)
    ensures q == Steps(x, 16, start)
  {
    hide F, G, H, I, RotateLeft, Mixed;
    var a, b, c, d := r.a, r.b, r.c, r.d;
    a := FF(a, b, c, d, x[0], 7, 0xd76aa478);
    assert Steps(x, 1, start) == Registers(d, a, b, c);
    d := FF(d, a, b, c, x[1], 12, 0xe8c7b756);
    assert Steps(x, 2, start) == Registers(c, d, a, b);
    c := FF(c, d, a, b, x[2], 17, 0x242070db);
    assert Steps(x, 3, start) == Registers(b, c, d, a);
    b := FF(b, c, d, a, x[3], 22, 0xc1bdceee);
    assert Steps(x, 4, start) == Registers(a, b, c, d);
    a := FF(a, b, c, d, x[4], 7, 0xf57c0faf);
    assert Steps(x, 5, start) == Registers(d, a, b, c);
    d := FF(d, a, b, c, x[5], 12, 0x4787c62a);
    assert Steps(x, 6, start) == Registers(c, d, a, b);
    c := FF(c, d, a, b, x[6], 17, 0xa8304613);
    assert Steps(x, 7, start) == Registers(b, c, d, a);
    b := FF(b, c, d, a, x[7], 22, 0xfd469501);
    assert Steps(x, 8, start) == Registers(a, b, c, d);
    a := FF(a, b, c, d, x[8], 7, 0x698098d8);
    assert Steps(x, 9, start) == Registers(d, a, b, c);
    d := FF(d, a, b, c, x[9], 12, 0x8b44f7af);
    assert Steps(x, 10, start) == Registers(c, d, a, b);
    c := FF(c, d, a, b, x[10], 17, 0xffff5bb1);
    assert Steps(x, 11, start) == Registers(b, c, d, a);
    b := FF(b, c, d, a, x[11], 22, 0x895cd7be);
    assert Steps(x, 12, start) == Registers(a, b, c, d);
    a := FF(a, b, c, d, x[12], 7, 0x6b901122);
    assert Steps(x, 13, start) == Registers(d, a, b, c);
    d := FF(d, a, b, c, x[13], 12, 0xfd987193);
    assert Steps(x, 14, start) == Registers(c, d, a, b);
    c := FF(c, d, a, b, x[14], 17, 0xa679438e);
    assert Steps(x, 15, start) == Registers(b, c, d, a);
    b := FF(b, c, d, a, x[15], 22, 0x49b40821);
    assert Steps(x, 16, start) == Registers(a, b, c, d);
    q := Registers(a, b, c, d);
  }

  /** The second sixteen steps of transform. */
  method Round2(x: seq<Word>, ghost start: Registers, r: Registers) returns (q: Registers)
    requires |x| == 16 && r == Steps(x, 16, start)
    ensures q == Steps(x, 32, start)
  {
    hide F, G, H, I, RotateLeft, Mixed;
    var a, b, c, d := r.a, r.b, r.c, r.d;
    a := GG(a, b, c, d, x[1], 5, 0xf61e2562);
    assert Steps(x, 17, start) == Registers(d, a, b, c);
    d := GG(d, a, b, c, x[6], 9, 0xc040b340);
    assert Steps(x, 18, start) == Registers(c, d, a, b);
    c := GG(c, d, a, b, x[11], 14, 0x265e5a51);
    assert Steps(x, 19, start) == Registers(b, c, d, a);
    b := GG(b, c, d, a, x[0], 20, 0xe9b6c7aa);
    assert Steps(x, 20, start) == Registers(a, b, c, d);
    a := GG(a, b, c, d, x[5], 5, 0xd62f105d);
    assert Steps(x, 21, start) == Registers(d, a, b, c);
    d := GG(d, a, b, c, x[10], 9, 0x2441453);
    assert Steps(x, 22, start) == Registers(c, d, a, b);
    c := GG(c, d, a, b, x[15], 14, 0xd8a1e681);
    assert Steps(x, 23, start) == Registers(b, c, d, a);
    b := GG(b, c, d, a, x[4], 20, 0xe7d3fbc8);
    assert Steps(x, 24, start) == Registers(a, b, c, d);
    a := GG(a, b, c, d, x[9], 5, 0x21e1cde6);
    assert Steps(x, 25, start) == Registers(d, a, b, c);
    d := GG(d, a, b, c, x[14], 9, 0xc33707d6);
    assert Steps(x, 26, start) == Registers(c, d, a, b);
    c := GG(c, d, a, b, x[3], 14, 0xf4d50d87);
    assert Steps(x, 27, start) == Registers(b, c, d, a);
    b := GG(b, c, d, a, x[8], 20, 0x455a14ed);
    assert Steps(x, 28, start) == Registers(a, b, c, d);
    a := GG(a, b, c, d, x[13], 5, 0xa9e3e905);
    assert Steps(x, 29, start) == Registers(d, a, b, c);
    d := GG(d, a, b, c, x[2], 9, 0xfcefa3f8);
    assert Steps(x, 30, start) == Registers(c, d, a, b);
    c := GG(c, d, a, b, x[7], 14, 0x676f02d9);
    assert Steps(x, 31, start) == Registers(b, c, d, a);
    b := GG(b, c, d, a, x[12], 20, 0x8d2a4c8a);
    assert Steps(x, 32, start) == Registers(a, b, c, d);
    q := Registers(a, b, c, d);
  }

  /** The third sixteen steps of transform. */
  method Round3(x: seq<Word>, ghost start: Registers, r: Registers) returns (q: Registers)
    requires |x| == 16 && r == Steps(x, 32, start)
    ensures q == Steps(x, 48, start)
  {
    hide F, G, H, I, RotateLeft, Mixed;
    var a, b, c, d := r.a, r.b, r.c, r.d;
    a := HH(a, b, c, d, x[5], 4, 0xfffa3942);
    assert Steps(x, 33, start) == Registers(d, a, b, c);
    d := HH(d, a, b, c, x[8], 11, 0x8771f681);
    assert Steps(x, 34, start) == Registers(c, d, a, b);
    c := HH(c, d, a, b, x[11], 16, 0x6d9d6122);
    assert Steps(x, 35, start) == Registers(b, c, d, a);
    b := HH(b, c, d, a, x[14], 23, 0xfde5380c);
    assert Steps(x, 36, start) == Registers(a, b, c, d);
    a := HH(a, b, c, d, x[1], 4, 0xa4beea44);
    assert Steps(x, 37, start) == Registers(d, a, b, c);
    d := HH(d, a, b, c, x[4], 11, 0x4bdecfa9);
    assert Steps(x, 38, start) == Registers(c, d, a, b);
    c := HH(c, d, a, b, x[7], 16, 0xf6bb4b60);
    assert Steps(x, 39, start) == Registers(b, c, d, a);
    b := HH(b, c, d, a, x[10], 23, 0xbebfbc70);
    assert Steps(x, 40, start) == Registers(a, b, c, d);
    a := HH(a, b, c, d, x[13], 4, 0x289b7ec6);
    assert Steps(x, 41, start) == Registers(d, a, b, c);
    d := HH(d, a, b, c, x[0], 11, 0xeaa127fa);
    assert Steps(x, 42, start) == Registers(c, d, a, b);
    c := HH(c, d, a, b, x[3], 16, 0xd4ef3085);
    assert Steps(x, 43, start) == Registers(b, c, d, a);
    b := HH(b, c, d, a, x[6], 23, 0x4881d05);
    assert Steps(x, 44, start) == Registers(a, b, c, d);
    a := HH(a, b, c, d, x[9], 4, 0xd9d4d039);
    assert Steps(x, 45, start) == Registers(d, a, b, c);
    d := HH(d, a, b, c, x[12], 11, 0xe6db99e5);
    assert Steps(x, 46, start) == Registers(c, d, a, b);
    c := HH(c, d, a, b, x[15], 16, 0x1fa27cf8);
    assert Steps(x, 47, start) == Registers(b, c, d, a);
    b := HH(b, c, d, a, x[2], 23, 0xc4ac5665);
    assert Steps(x, 48, start) == Registers(a, b, c, d);
    q := Registers(a, b, c, d);
  }

  /** The fourth sixteen steps of transform. */
  method Round4(x: seq<Word>, ghost start: Registers, r: Registers) returns (q: Registers)
    requires |x| == 16 && r == Steps(x, 48, start)
    ensures q == Steps(x, 64, start)
  {
    hide F, G, H, I, RotateLeft, Mixed;
    var a, b, c, d := r.a, r.b, r.c, r.d;
    a := II(a, b, c, d, x[0], 6, 0xf4292244);
    assert Steps(x, 49, start) == Registers(d, a, b, c);
    d := II(d, a, b, c, x[7], 10, 0x432aff97);
    assert Steps(x, 50, start) == Registers(c, d, a, b);
    c := II(c, d, a, b, x[14], 15, 0xab9423a7);
    assert Steps(x, 51, start) == Registers(b, c, d, a);
    b := II(b, c, d, a, x[5], 21, 0xfc93a039);
    assert Steps(x, 52, start) == Registers(a, b, c, d);
    a := II(a, b, c, d, x[12], 6, 0x655b59c3);
    assert Steps(x, 53, start) == Registers(d, a, b, c);
    d := II(d, a, b, c, x[3], 10, 0x8f0ccc92);
    assert Steps(x, 54, start) == Registers(c, d, a, b);
    c := II(c, d, a, b, x[10], 15, 0xffeff47d);
    assert Steps(x, 55, start) == Registers(b, c, d, a);
    b := II(b, c, d, a, x[1], 21, 0x85845dd1);
    assert Steps(x, 56, start) == Registers(a, b, c, d);
    a := II(a, b, c, d, x[8], 6, 0x6fa87e4f);
    assert Steps(x, 57, start) == Registers(d, a, b, c);
    d := II(d, a, b, c, x[15], 10, 0xfe2ce6e0);
    assert Steps(x, 58, start) == Registers(c, d, a, b);
    c := II(c, d, a, b, x[6], 15, 0xa3014314);
    assert Steps(x, 59, start) == Registers(b, c, d, a);
    b := II(b, c, d, a, x[13], 21, 0x4e0811a1);
    assert Steps(x, 60, start) == Registers(a, b, c, d);
    a := II(a, b, c, d, x[4], 6, 0xf7537e82);
    assert Steps(x, 61, start) == Registers(d, a, b, c);
    d := II(d, a, b, c, x[11], 10, 0xbd3af235);
    assert Steps(x, 62, start) == Registers(c, d, a, b);
    c := II(c, d, a, b, x[2], 15, 0x2ad7d2bb);
    assert Steps(x, 63, start) == Registers(b, c, d, a);
    b := II(b, c, d, a, x[9], 21, 0xeb86d391);
    assert Steps(x, 64, start) == Registers(a, b, c, d);
    q := Registers(a, b, c, d);
  }

  // ---- arithmetic of the bit counter ----

  /** What update leaves in the two words of the counter. */
  function LowBits(count: Word, length: nat): Word {
    (count + 8 * length % WORD) % WORD
  }

  function HighBits(low: Word, high: Word, length: nat): Word {
    var carry := if LowBits(low, length) < 8 * length % WORD then (high + 1) % WORD else high;
    (carry + length / 0x2000_0000 % WORD) % WORD
  }

  /** The carry is seen in the low word, and the high word gets the rest. */
  lemma CountAdvances(n: nat, length: nat)
    requires length < WORD
    ensures var c, d := BitLength(n), BitLength(n + length);
            d == [LowBits(c[0], length), HighBits(c[0], c[1], length)]
  {
    EightTimes(length);
    SumWithCarry(8 * n / WORD, 8 * n % WORD, length / 0x2000_0000, 8 * length % WORD);
    assert 8 * (n + length) == 8 * n + 8 * length;
  }

  lemma EightTimes(length: nat)
    ensures 8 * length / WORD == length / 0x2000_0000
  {
    var q := length / 0x2000_0000;
    DivMod(8 * length, q, 8 * (length % 0x2000_0000));
  }

  /** Adding two two-word numbers: the low words, and the high words with the carry. */
  lemma SumWithCarry(u: nat, v: nat, q: nat, r: nat)
    requires v < WORD && r < WORD
    ensures var x := u * WORD + v + (q * WORD + r);
            var low := (v + r) % WORD;
            && x % WORD == low
            && x / WORD % WORD == ((if low < r then (u % WORD + 1) % WORD else u % WORD) + q % WORD) % WORD
  {
    var carry := if v + r >= WORD then 1 else 0;
    var low := v + r - carry * WORD;
    DivMod(u * WORD + v + (q * WORD + r), u + q + carry, low);
    DivMod(v + r, carry, low);
    assert low < r <==> carry == 1;
    WrappedSum(u, carry, q);
  }

  lemma DivMod(x: nat, q: nat, r: nat)
    requires x == WORD * q + r && r < WORD
    ensures x / WORD == q && x % WORD == r
  {
  }

  lemma WrappedSum(u: nat, carry: nat, q: nat)
    requires carry <= 1
    ensures ((u % WORD + carry) % WORD + q % WORD) % WORD == (u + q + carry) % WORD
  {
    var a, x, b, y := u / WORD, u % WORD, q / WORD, q % WORD;
    var first := if x + carry == WORD then 1 else 0;
    var t := x + carry - first * WORD;
    var second := if t + y >= WORD then 1 else 0;
    DivMod(x + carry, first, t);
    DivMod(t + y, second, t + y - second * WORD);
    DivMod(u + q + carry, a + b + first + second, t + y - second * WORD);
  }

  lemma ByteIndex(n: nat)
    ensures BitLength(n)[0] / 8 % 64 == n % 64
  {
    var q := 8 * n / WORD;
    assert 8 * n == WORD * q + 8 * n % WORD;
    assert 8 * n % WORD / 8 == n - 0x2000_0000 * q;
  }

  /**
   * The loop of update, whose test adds 63 in 32-bit arithmetic, stops inside
   * a chunk that comes after n bytes.
   */
  predicate Fits(n: nat, length: nat) {
    length < WORD && length - (n + length) % 64 <= WORD - 64
  }

  lemma FitsInWord(n: nat, length: nat)
    requires Fits(n, length)
    ensures length < WORD
  {
  }

  /** Every chunk of at most 2^32 - 64 bytes fits. */
  lemma ShortFits(n: nat, length: nat)
    requires length <= WORD - 64
    ensures Fits(n, length)
  {
  }

  /** Otherwise the test wraps and holds at the last piece, where fewer than 64 bytes are left. */
  lemma LoopRunsOff(n: nat, length: nat)
    requires length < WORD
    ensures var last := length - (n + length) % 64;
            Fits(n, length) <==> last < 0 || (last + 63) % WORD >= length
  {
    var r := (n + length) % 64;
    var last := length - r;
    if last >= 0 {
      if last + 63 < WORD {
        DivMod(last + 63, 0, last + 63);
      } else {
        DivMod(last + 63, 1, last + 63 - WORD);
      }
    }
  }

  /** From a piece that starts at index i of a chunk after n bytes, what is left is whole pieces and the remainder. */
  lemma PieceLeft(n: nat, length: nat, i: nat)
    requires (n + i) % 64 == 0 && i <= length && Fits(n, length)
    ensures i + 63 < WORD && (i + 63) % WORD == i + 63 && (i + 63 < length ==> (i + 64) % WORD == i + 64)
    ensures (i + 63 < length ==> (n + i + 64) % 64 == 0)
  {
    var q, p := (n + i) / 64, (n + length) / 64;
    assert n + i == 64 * q && n + length == 64 * p + (n + length) % 64;
    DivMod(i + 63, 0, i + 63);
    if i + 63 < length {
      DivMod(i + 64, 0, i + 64);
    }
  }

  lemma SamePiece(input: seq<Byte>, whole: seq<Byte>, n: nat, i: nat)
    requires n <= |whole| && whole[n..] == input && i + 64 <= |input|
    ensures input[i..i + 64] == whole[n + i..n + i + 64]
  {
  }

  lemma Remainder(a: nat, b: nat)
    requires a % 64 == 0 && b < 64
    ensures (a + b) % 64 == b
  {
  }

  lemma NothingRead()
    ensures Fold(INITIAL, []) == INITIAL && BitLength(0) == [0, 0]
  {
    hide Compress;
  }

  /** One more block. */
  lemma FoldBlock(whole: seq<Byte>, m: nat)
    requires m % 64 == 0 && m + 64 <= |whole|
    ensures (m + 64) % 64 == 0
    ensures Fold(INITIAL, whole[..m + 64]) == Compress(Fold(INITIAL, whole[..m]), whole[m..m + 64])
  {
    hide Compress;
    var a, b := whole[..m], whole[m..m + 64];
    assert whole[..m + 64] == a + b;
    FoldAppend(INITIAL, a, b);
    assert b[..64] == b && b[64..] == [];
  }

  // ---- the context ----

  class MD5 {
    const state: array<Word>
    const count: array<Word>
    const buffer: array<Byte>
    const digest: array<Byte>
    var finalized: bool
    /** Everything given to update so far. */
    ghost var message: seq<Byte>

    predicate Shape() {
      && state.Length == 4 && count.Length == 2 && buffer.Length == 64 && digest.Length == 16
      && state != count && buffer != digest
    }

    ghost predicate Valid()
      reads this, state, count, buffer, digest
    {
      && Shape()
      && (!finalized ==> Absorbed(message))
      && (finalized ==> digest[..] == Digest(message))
    }

    function Chain(): Registers
      requires state.Length == 4
      reads state
    {
      Registers(state[0], state[1], state[2], state[3])
    }

    /** The full blocks of s are compressed into the state and the rest stands in the buffer. */
    ghost predicate Absorbed(s: seq<Byte>)
      requires state.Length == 4 && count.Length == 2 && buffer.Length == 64
      reads state, count, buffer
    {
      var k := |s| % 64;
      && count[..] == BitLength(|s|)
      && Chain() == Fold(INITIAL, s[..|s| - k])
      && buffer[..k] == s[|s| - k..]
    }

    lemma ValidParts()
      ensures Valid() ==> Shape()
      ensures Shape() ==> (Valid() <==> if finalized then digest[..] == Digest(message) else Absorbed(message))
    {
      hide Digest, Absorbed;
    }

    lemma AbsorbedParts(s: seq<Byte>, k: nat)
      requires state.Length == 4 && count.Length == 2 && buffer.Length == 64 && k == |s| % 64
      ensures Absorbed(s) <==>
                count[..] == BitLength(|s|) && Chain() == Fold(INITIAL, s[..|s| - k]) && buffer[..k] == s[|s| - k..]
    {
    }

    lemma ChainOutput()
      requires state.Length == 4
      ensures Output(Chain()) == Bytes(state[..])
    {
      assert state[..] == [state[0], state[1], state[2], state[3]];
    }

    constructor ()
      ensures Valid() && !finalized && message == []
      ensures fresh(state) && fresh(count) && fresh(buffer) && fresh(digest)
    {
      state := new Word[4];
      count := new Word[2];
      buffer := new Byte[64];
      digest := new Byte[16];
      finalized := false;
      message := [];
      new;
      Init();
    }

    method Init()
      requires state.Length == 4 && count.Length == 2 && buffer.Length == 64 && state != count
      modifies this, state, count
      ensures !finalized && message == [] && Absorbed([])
    {
      hide BitLength, Fold, Absorbed;
      finalized := false;
      message := [];
      count[0], count[1] := 0, 0;
      state[0], state[1], state[2], state[3] := 0x67452301, 0xefcdab89, 0x98badcfe, 0x10325476;
      NothingRead();
      assert count[..] == [0, 0];
      AbsorbedParts([], 0);
    }

    /** Continue from where another context is. */
    method Copy(src: MD5)
      requires src.Valid() && Shape()
      requires state != src.count && count != src.state && buffer != src.digest && digest != src.buffer
      modifies this, state, count, buffer, digest
      ensures Valid() && finalized == old(src.finalized) && message == old(src.message)
      ensures state[..] == old(src.state[..]) && count[..] == old(src.count[..])
      ensures buffer[..] == old(src.buffer[..]) && digest[..] == old(src.digest[..])
    {
      hide Fold, Digest, BitLength;
      forall i | 0 <= i < 4 { state[i] := src.state[i]; }
      forall i | 0 <= i < 2 { count[i] := src.count[i]; }
      forall i | 0 <= i < 64 { buffer[i] := src.buffer[i]; }
      forall i | 0 <= i < 16 { digest[i] := src.digest[i]; }
      finalized := src.finalized;
      message := src.message;
    }

    /** The bit counter of update. */
    method CountBits(inputLength: nat, ghost n: nat)
      requires count.Length == 2 && count[..] == BitLength(n) && inputLength < WORD
      modifies count
      ensures count[..] == BitLength(n + inputLength)
    {
      hide BitLength, LowBits, HighBits;
      CountAdvances(n, inputLength);
      count[0], count[1] := LowBits(count[0], inputLength), HighBits(count[0], count[1], inputLength);
    }

    /** The loop of update that transforms 64-byte pieces of the input, past the buffer. */
    method TransformPieces(input: array<Byte>, start: nat, inputLength: nat, ghost whole: seq<Byte>)
      returns (inputIndex: nat)
      requires state.Length == 4 && start <= inputLength <= input.Length && !finalized
      requires inputLength <= |whole| && Fits(|whole| - inputLength, inputLength)
      requires whole[|whole| - inputLength..] == input[..inputLength]
      requires (|whole| - inputLength + start) % 64 == 0
      requires Chain() == Fold(INITIAL, whole[..|whole| - inputLength + start])
      modifies state
      ensures start <= inputIndex <= inputLength < inputIndex + 64 && (|whole| - inputLength + inputIndex) % 64 == 0
      ensures Chain() == Fold(INITIAL, whole[..|whole| - inputLength + inputIndex])
    {
      hide Fold, Compress, Fits;
      ghost var n := |whole| - inputLength;
      inputIndex := start;
      PieceLeft(n, inputLength, inputIndex);
      while (inputIndex + 63) % WORD < inputLength
        invariant start <= inputIndex <= inputLength && (n + inputIndex) % 64 == 0
        invariant inputIndex + 63 < WORD && (inputIndex + 63) % WORD == inputIndex + 63
        invariant Chain() == Fold(INITIAL, whole[..n + inputIndex])
        decreases inputLength - inputIndex
      {
        assert input[inputIndex..inputIndex + 64] == input[..inputLength][inputIndex..inputIndex + 64];
        SamePiece(input[..inputLength], whole, n, inputIndex);
        PieceLeft(n, inputLength, inputIndex);
        Transform(input, inputIndex);
        FoldBlock(whole, n + inputIndex);
        inputIndex := (inputIndex + 64) % WORD;
        PieceLeft(n, inputLength, inputIndex);
      }
    }

    /** The part of update that fills the buffer, transforms it and then the whole pieces of the input. */
    method TransformFull(input: array<Byte>, bufferIndex: nat, inputLength: nat, ghost whole: seq<Byte>)
      returns (inputIndex: nat)
      requires state.Length == 4 && buffer.Length == 64 && inputLength <= input.Length
      requires input != buffer && !finalized
      requires inputLength <= |whole| && Fits(|whole| - inputLength, inputLength)
      requires whole[|whole| - inputLength..] == input[..inputLength]
      requires bufferIndex < 64 <= bufferIndex + inputLength && (|whole| - inputLength - bufferIndex) % 64 == 0
      requires bufferIndex <= |whole| - inputLength
      requires Chain() == Fold(INITIAL, whole[..|whole| - inputLength - bufferIndex])
      requires buffer[..bufferIndex] == whole[|whole| - inputLength - bufferIndex..|whole| - inputLength]
      modifies state, buffer
      ensures inputIndex <= inputLength < inputIndex + 64 && (|whole| - inputLength + inputIndex) % 64 == 0
      ensures Chain() == Fold(INITIAL, whole[..|whole| - inputLength + inputIndex])
    {
      hide Fold, Compress, Chain;
      ghost var n := |whole| - inputLength;
      ghost var m := n - bufferIndex;
      var bufferSpace := 64 - bufferIndex;
      Memcpy(buffer, bufferIndex, input, 0, bufferSpace);
      assert buffer[0..64] == whole[m..m + 64] by {
        assert whole[m..m + 64] == whole[m..n] + whole[n..][..bufferSpace];
        assert whole[n..][..bufferSpace] == input[0..bufferSpace];
      }
      Transform(buffer, 0);
      FoldBlock(whole, m);
      inputIndex := TransformPieces(input, bufferSpace, inputLength, whole);
    }

    /** The end of update: what does not fill a block is kept in the buffer. */
    method BufferRest(input: array<Byte>, bufferIndex: nat, inputIndex: nat, length: nat, ghost whole: seq<Byte>)
      requires Shape() && input != buffer && inputIndex + length <= input.Length
      requires bufferIndex + length < 64 && bufferIndex + length <= |whole|
      requires (|whole| - bufferIndex - length) % 64 == 0 && count[..] == BitLength(|whole|)
      requires Chain() == Fold(INITIAL, whole[..|whole| - bufferIndex - length])
      requires buffer[..bufferIndex] + input[inputIndex..inputIndex + length] == whole[|whole| - bufferIndex - length..]
      modifies buffer
      ensures Absorbed(whole)
    {
      hide Fold, BitLength, Absorbed, Chain;
      ghost var k := bufferIndex + length;
      Memcpy(buffer, bufferIndex, input, inputIndex, length);
      assert buffer[..k] == whole[|whole| - k..];
      Remainder(|whole| - k, k);
      AbsorbedParts(whole, k);
    }

    /** update, on a chunk in which its loop stops. */
    method Update(input: array<Byte>, inputLength: nat)
      requires Valid() && inputLength <= input.Length && (!finalized ==> Fits(|message|, inputLength))
      requires input != buffer && input != digest
      modifies `message, state, count, buffer
      ensures Valid() && finalized == old(finalized)
      ensures message == if finalized then old(message) else old(message) + input[..inputLength]
    {
      hide Fold, Digest, BitLength, Compress, Absorbed, Chain, Valid, Fits;
      ValidParts();
      if finalized {
        return;
      }
      assert inputLength < WORD by { FitsInWord(|message|, inputLength); }
      ghost var n, whole := |message|, message + input[..inputLength];
      AbsorbedParts(message, n % 64);
      var bufferIndex := count[0] / 8 % 64;
      ByteIndex(n);
      CountBits(inputLength, n);
      var inputIndex := 0;
      ghost var m := n - bufferIndex;
      assert whole[..m] == message[..m] && whole[n..] == input[..inputLength] && whole[m..n] == message[m..];
      var bufferSpace := 64 - bufferIndex;
      if inputLength >= bufferSpace {
        inputIndex := TransformFull(input, bufferIndex, inputLength, whole);
        bufferIndex := 0;
      }
      ghost var k := bufferIndex + inputLength - inputIndex;
      assert buffer[..bufferIndex] + input[inputIndex..inputLength] == whole[|whole| - k..];
      BufferRest(input, bufferIndex, inputIndex, inputLength - inputIndex, whole);
      message := whole;
      ValidParts();
    }

    /** Pad, append the length and store the digest. */
    method Finalize()
      requires Valid()
      modifies this, state, count, buffer, digest
      ensures Valid() && finalized && message == old(message)
    {
      hide Fold, BitLength, Bytes, PadLength, Padding, Absorbed, Chain, Valid;
      ValidParts();
      if finalized {
        return;
      }
      ghost var m := message;
      AbsorbedParts(m, |m| % 64);
      var padding := new Byte[64](i => if i == 0 then 0x80 else 0);
      var bits := new Byte[8];
      Encode(bits, count, 8);
      ByteIndex(|m|);
      var index := count[0] / 8 % 64;
      var padLen := if index < 56 then 56 - index else 120 - index;
      assert padLen == PadLength(|m|) by { PadLengthIs(|m|); }
      assert padding[..padLen] == Padding(padLen) by { PaddingIs(padding[..padLen]); }
      assert bits[..8] == Bytes(BitLength(|m|)) by { assert count[..8 / 4] == count[..]; }
      ShortFits(|m|, padLen);
      Update(padding, padLen);
      ShortFits(|m| + padLen, 8);
      Update(bits, 8);
      assert message == Padded(m);
      ValidParts();
      AbsorbedParts(message, 0);
      assert message[..|message|] == message;
      Encode(digest, state, 16);
      ChainOutput();
      assert state[..16 / 4] == state[..];
      Memset(buffer, 0, 1);
      finalized := true;
      message := m;
      ValidParts();
    }

    /** The unrolled compression of one block. */
    method Transform(block: array<Byte>, offset: nat)
      requires state.Length == 4 && offset + 64 <= block.Length && !finalized
      modifies state
      ensures Chain() == Compress(old(Chain()), block[offset..offset + 64])
    {
      hide Steps, Words;
      var start := Chain();
      var x := new Word[16];
      Decode(x, block, offset, 64);
      var r := start;
      StepsNone(x[..], start);
      r := Round1(x[..], start, r);
      r := Round2(x[..], start, r);
      r := Round3(x[..], start, r);
      r := Round4(x[..], start, r);
      state[0] := (state[0] + r.a) % WORD;
      state[1] := (state[1] + r.b) % WORD;
      state[2] := (state[2] + r.c) % WORD;
      state[3] := (state[3] + r.d) % WORD;
    }
  }

  lemma StepsNone(x: seq<Word>, r: Registers)
    requires |x| == 16
    ensures Steps(x, 0, r) == r
  {
  }

  lemma {:induction false} ZerosIs(s: seq<Byte>)
    requires forall k :: 0 <= k < |s| ==> s[k] == 0
    ensures s == Zeros(|s|)
  {
  }

  lemma PadLengthIs(n: nat)
    ensures PadLength(n) == if n % 64 < 56 then 56 - n % 64 else 120 - n % 64
  {
  }

  lemma PaddingIs(s: seq<Byte>)
    requires s != [] && s[0] == 0x80 && forall k :: 0 < k < |s| ==> s[k] == 0
    ensures s == Padding(|s|)
  {
    ZerosIs(s[1..]);
    assert s == [s[0]] + s[1..];
  }

  // ---- memory ----

  method Memcpy(output: array<Byte>, to: nat, input: array<Byte>, from: nat, length: nat)
    requires output != input && to + length <= output.Length && from + length <= input.Length
    modifies output
    ensures output[..] == old(output[..to]) + input[from..from + length] + old(output[to + length..])
  {
    var i := 0;
    while i < length
      invariant i <= length
      invariant output[..to] == old(output[..to]) && output[to + i..] == old(output[to + i..])
      invariant output[to..to + i] == input[from..from + i]
    {
      output[to + i] := input[from + i];
      i := i + 1;
    }
    assert output[..] == output[..to] + output[to..to + length] + output[to + length..];
  }

  method Memset(output: array<Byte>, value: Byte, length: nat)
    requires length <= output.Length
    modifies output
    ensures output[length..] == old(output[length..]) && forall i :: 0 <= i < length ==> output[i] == value
  {
    var i := 0;
    while i < length
      invariant i <= length && output[length..] == old(output[length..])
      invariant forall k :: 0 <= k < i ==> output[k] == value
    {
      output[i] := value;
      i := i + 1;
    }
  }

  /** Words to bytes, low-order byte first. */
  method Encode(output: array<Byte>, input: array<Word>, length: nat)
    requires length % 4 == 0 && length <= output.Length && length <= 4 * input.Length
    modifies output
    ensures output[..length] == Bytes(input[..length / 4])
    ensures output[length..] == old(output[length..])
  {
    hide Bytes, WordBytes;
    var i, j := 0, 0;
    var ws := input[..length / 4];
    while j < length
      invariant j == 4 * i && j <= length && output[length..] == old(output[length..])
      invariant output[..j] + Bytes(ws[i..]) == Bytes(ws)
    {
      ghost var before := output[..j];
      output[j] := input[i] % 256;
      output[j + 1] := input[i] / 0x100 % 256;
      output[j + 2] := input[i] / 0x1_0000 % 256;
      output[j + 3] := input[i] / 0x100_0000 % 256;
      BytesStep(ws, i);
      WordBytesAre(input[i]);
      assert output[..j + 4] == before + WordBytes(input[i]);
      assert before + (WordBytes(input[i]) + Bytes(ws[i + 1..])) == before + WordBytes(input[i]) + Bytes(ws[i + 1..]);
      i, j := i + 1, j + 4;
    }
    BytesEnd(ws);
    assert output[..j] + [] == output[..j];
  }

  lemma WordBytesAre(w: Word)
    ensures WordBytes(w) == [w % 256, w / 0x100 % 256, w / 0x1_0000 % 256, w / 0x100_0000 % 256]
  {
  }

  lemma BytesStep(ws: seq<Word>, i: nat)
    requires i < |ws|
    ensures Bytes(ws[i..]) == WordBytes(ws[i]) + Bytes(ws[i + 1..])
  {
    hide WordBytes;
    assert ws[i..][1..] == ws[i + 1..];
  }

  lemma BytesEnd(ws: seq<Word>)
    ensures Bytes(ws[|ws|..]) == []
  {
  }

  lemma WordsStep(s: seq<Byte>, j: nat)
    requires j + 4 <= |s| && (|s| - j) % 4 == 0
    ensures (|s| - j - 4) % 4 == 0
    ensures Words(s[j..]) == [WordOf(s[j], s[j + 1], s[j + 2], s[j + 3])] + Words(s[j + 4..])
  {
    assert s[j..][4..] == s[j + 4..];
  }

  /** Bytes to words, low-order byte first. */
  method Decode(output: array<Word>, input: array<Byte>, offset: nat, length: nat)
    requires length % 4 == 0 && offset + length <= input.Length && length == 4 * output.Length
    modifies output
    ensures output[..] == Words(input[offset..offset + length])
  {
    hide Words;
    var i, j := 0, 0;
    ghost var s := input[offset..offset + length];
    while j < length
      invariant j == 4 * i && j <= length
      invariant output[..i] + Words(s[j..]) == Words(s)
    {
      ghost var before := output[..i];
      output[i] := WordOf(input[offset + j], input[offset + j + 1], input[offset + j + 2], input[offset + j + 3]);
      WordsStep(s, j);
      assert output[..i + 1] == before + [output[i]];
      assert before + ([output[i]] + Words(s[j + 4..])) == before + [output[i]] + Words(s[j + 4..]);
      i, j := i + 1, j + 4;
    }
  }

  // ---- whole runs ----

  function Concat(chunks: seq<seq<Byte>>): seq<Byte> {
    if chunks == [] then [] else chunks[0] + Concat(chunks[1..])
  }

  /** The loop of update stops in each of these chunks when they come after n bytes. */
  predicate AllFit(n: nat, chunks: seq<seq<Byte>>)
    decreases |chunks|
  {
    chunks == [] || (Fits(n, |chunks[0]|) && AllFit(n + |chunks[0]|, chunks[1..]))
  }

  lemma {:induction false} ShortChunksFit(n: nat, chunks: seq<seq<Byte>>)
    requires forall i :: 0 <= i < |chunks| ==> |chunks[i]| <= WORD - 64
    ensures AllFit(n, chunks)
    decreases |chunks|
  {
    hide Fits;
    if chunks != [] {
      ShortFits(n, |chunks[0]|);
      ShortChunksFit(n + |chunks[0]|, chunks[1..]);
    }
  }

  /** A stream that arrives in pieces. */
  method UpdateAll(md5: MD5, chunks: seq<seq<Byte>>)
    requires md5.Valid() && !md5.finalized && AllFit(|md5.message|, chunks)
    modifies md5`message, md5.state, md5.count, md5.buffer
    ensures md5.Valid() && !md5.finalized && md5.message == old(md5.message) + Concat(chunks)
  {
    hide Digest, MD5.Valid, MD5.Absorbed, Fits;
    var i := 0;
    ghost var all := md5.message + Concat(chunks);
    assert chunks[0..] == chunks;
    while i < |chunks|
      invariant i <= |chunks| && md5.Valid() && !md5.finalized
      invariant AllFit(|md5.message|, chunks[i..])
      invariant md5.message + Concat(chunks[i..]) == all
    {
      var chunk := chunks[i];
      var input := ToArray(chunk);
      assert chunks[i..][0] == chunk && chunks[i..][1..] == chunks[i + 1..];
      assert md5.message + (chunk + Concat(chunks[i + 1..])) == md5.message + chunk + Concat(chunks[i + 1..]);
      md5.Update(input, |chunk|);
      i := i + 1;
    }
    assert md5.message + [] == md5.message;
  }

  /** The digest of a stream that arrives in pieces: any split of the message gives its one-shot digest. */
  method DigestStream(chunks: seq<seq<Byte>>) returns (d: seq<Byte>)
    requires AllFit(0, chunks)
    ensures d == Digest(Concat(chunks))
  {
    hide Digest, MD5.Valid, MD5.Absorbed, AllFit;
    var md5 := new MD5();
    UpdateAll(md5, chunks);
    assert [] + Concat(chunks) == Concat(chunks);
    md5.Finalize();
    md5.ValidParts();
    d := md5.digest[..];
  }

  method ToArray(s: seq<Byte>) returns (a: array<Byte>)
    ensures fresh(a) && a.Length == |s| && a[..] == s && a[..|s|] == s
  {
    a := new Byte[|s|](k requires 0 <= k < |s| => s[k]);
  }

  /** A copy taken in the middle of a stream and the original go on independently, each with its own rest. */
  method CopyContinues(head: seq<seq<Byte>>, first: seq<seq<Byte>>, second: seq<seq<Byte>>)
    returns (d: seq<Byte>, e: seq<Byte>)
    requires AllFit(0, head) && AllFit(|Concat(head)|, first) && AllFit(|Concat(head)|, second)
    ensures d == Digest(Concat(head) + Concat(first)) && e == Digest(Concat(head) + Concat(second))
  {
    hide Digest, MD5.Valid, MD5.Absorbed, AllFit, Concat;
    var a := new MD5();
    var b := new MD5();
    UpdateAll(a, head);
    assert [] + Concat(head) == Concat(head);
    a.ValidParts();
    b.ValidParts();
    b.Copy(a);
    UpdateAll(b, second);
    b.Finalize();
    UpdateAll(a, first);
    a.Finalize();
    a.ValidParts();
    b.ValidParts();
    d, e := a.digest[..], b.digest[..];
  }
}
