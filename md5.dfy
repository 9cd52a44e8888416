/**
 * The hand-written MD5 of the hash generator tool (RFC 1321): padding and
 * length append, little-endian word decoding, the 64-step compression with
 * the four round functions and the message-index schedule, little-endian
 * output and lowercase hex rendering.
 *
 * Every JavaScript value the algorithm computes is used only through
 * 32-bit operators or 32-bit stores, each of which reduces modulo 2^32, so
 * the words are modelled as `bv32` and every addition is `Add`, addition
 * mod 2^32.
 */
module Md5 {
  import opened Wrappers
  import opened JsPrims

  type Byte = bv8
  type Word = bv32

  /** Per-step rotation amounts. */
  const S: seq<Word> := [
    7, 12, 17, 22, 7, 12, 17, 22, 7, 12, 17, 22, 7, 12, 17, 22,
    5,  9, 14, 20, 5,  9, 14, 20, 5,  9, 14, 20, 5,  9, 14, 20,
    4, 11, 16, 23, 4, 11, 16, 23, 4, 11, 16, 23, 4, 11, 16, 23,
    6, 10, 15, 21, 6, 10, 15, 21, 6, 10, 15, 21, 6, 10, 15, 21
  ]

  /** The additive constants, floor(|sin(i + 1)| * 2^32), as tabulated in section 3.4 of RFC 1321. */
  const K: seq<Word> := [
    0xd76aa478, 0xe8c7b756, 0x242070db, 0xc1bdceee, 0xf57c0faf, 0x4787c62a, 0xa8304613, 0xfd469501,
    0x698098d8, 0x8b44f7af, 0xffff5bb1, 0x895cd7be, 0x6b901122, 0xfd987193, 0xa679438e, 0x49b40821,
    0xf61e2562, 0xc040b340, 0x265e5a51, 0xe9b6c7aa, 0xd62f105d, 0x02441453, 0xd8a1e681, 0xe7d3fbc8,
    0x21e1cde6, 0xc33707d6, 0xf4d50d87, 0x455a14ed, 0xa9e3e905, 0xfcefa3f8, 0x676f02d9, 0x8d2a4c8a,
    0xfffa3942, 0x8771f681, 0x6d9d6122, 0xfde5380c, 0xa4beea44, 0x4bdecfa9, 0xf6bb4b60, 0xbebfbc70,
    0x289b7ec6, 0xeaa127fa, 0xd4ef3085, 0x04881d05, 0xd9d4d039, 0xe6db99e5, 0x1fa27cf8, 0xc4ac5665,
    0xf4292244, 0x432aff97, 0xab9423a7, 0xfc93a039, 0x655b59c3, 0x8f0ccc92, 0xffeff47d, 0x85845dd1,
    0x6fa87e4f, 0xfe2ce6e0, 0xa3014314, 0x4e0811a1, 0xf7537e82, 0xbd3af235, 0x2ad7d2bb, 0xeb86d391
  ]

  const TwoTo64: nat := 0x1_0000_0000_0000_0000

  // ---------------------------------------------------------------- padding

  /** Bytes between the message and the length field, the 0x80 marker included. */
  function PadLen(len: nat): nat {
    if len % 64 < 56 then 56 - len % 64 else 120 - len % 64
  }

  /** A 64-bit value's 8 bytes, least significant first. */
  function U64Bytes(v: bv64): (r: seq<Byte>)
    ensures |r| == 8
  {
    [(v & 0xFF) as Byte, ((v >> 8) & 0xFF) as Byte, ((v >> 16) & 0xFF) as Byte, ((v >> 24) & 0xFF) as Byte,
     ((v >> 32) & 0xFF) as Byte, ((v >> 40) & 0xFF) as Byte, ((v >> 48) & 0xFF) as Byte, ((v >> 56) & 0xFF) as Byte]
  }

  /** The 64-bit little-endian value of the 8 bytes at offset o. */
  function U64At(bs: seq<Byte>, o: nat): bv64
    requires o + 8 <= |bs|
  {
    (bs[o] as bv64) | ((bs[o + 1] as bv64) << 8) | ((bs[o + 2] as bv64) << 16) | ((bs[o + 3] as bv64) << 24)
    | ((bs[o + 4] as bv64) << 32) | ((bs[o + 5] as bv64) << 40) | ((bs[o + 6] as bv64) << 48) | ((bs[o + 7] as bv64) << 56)
  }

  /** Reading back the 8 stored bytes gives the value. */
  lemma U64RoundTrip(v: bv64)
    ensures U64At(U64Bytes(v), 0) == v
  {
  }

  /** What `setBigUint64(offset, BigInt(v), true)` stores: v mod 2^64, little-endian. */
  function BigUint64Bytes(v: nat): (r: seq<Byte>)
    ensures |r| == 8
  {
    U64Bytes((v % TwoTo64) as bv64)
  }

  /** The length field: the message's length in bits. */
  function LengthField(len: nat): (r: seq<Byte>)
    ensures |r| == 8
  {
    BigUint64Bytes(8 * len)
  }

  /** The padded message: the message, 0x80, zeros, then the length field. */
  function Padded(msg: seq<Byte>): seq<Byte> {
    msg + [0x80] + seq(PadLen(|msg|) - 1, _ => 0) + LengthField(|msg|)
  }

  /** The padded length is the next multiple of 64 that leaves room for the marker and the length field. */
  lemma PaddedLength(msg: seq<Byte>)
    ensures var p := Padded(msg);
      && |p| % 64 == 0
      && |msg| + 9 <= |p| <= |msg| + 72
  {
    var p := Padded(msg);
    var q, r := |msg| / 64, |msg| % 64;
    assert |msg| == 64 * q + r;
    var k := if r < 56 then q + 1 else q + 2;
    assert |p| == 64 * k;
    MultipleOf64(k);
  }

  lemma MultipleOf64(k: nat)
    ensures (64 * k) % 64 == 0
  {
  }

  /** The padding rule of sections 3.1 and 3.2 of RFC 1321 as the code computes it. */
  lemma PaddedShape(msg: seq<Byte>)
    ensures var p := Padded(msg);
      && |p| % 64 == 0
      && |msg| + 9 <= |p| <= |msg| + 72
      && p[..|msg|] == msg
      && p[|msg|] == 0x80
      && (forall k :: |msg| < k < |p| - 8 ==> p[k] == 0)
      && p[|p| - 8..] == U64Bytes((8 * |msg| % TwoTo64) as bv64)
  {
    PaddedLength(msg);
  }

  /** `DataView.setBigUint64(offset, v, true)`. */
  method SetBigUint64(a: array<Byte>, offset: nat, v: nat)
    requires offset + 8 <= a.Length
    modifies a
    ensures a[..] == old(a[..offset]) + BigUint64Bytes(v) + old(a[offset + 8..])
  {
    var bytes := BigUint64Bytes(v);
    forall k | 0 <= k < 8 {
      a[offset + k] := bytes[k];
    }
  }

  /** The padding step of md5: a fresh zeroed buffer, the message copied in, 0x80, the length field. */
  method Pad(msg: seq<Byte>) returns (a: array<Byte>)
    ensures fresh(a) && a[..] == Padded(msg)
  {
    var len := |msg|;
    var padLen := if len % 64 < 56 then 56 - len % 64 else 120 - len % 64;
    a := new Byte[len + padLen + 8](i => if 0 <= i < len then msg[i] else 0);
    a[len] := 0x80;
    SetBigUint64(a, len + padLen, 8 * len);
  }

  // ---------------------------------------------------------------- words

  /** The 32-bit little-endian word at offset o: `b0 | b1 << 8 | b2 << 16 | b3 << 24`. */
  function WordAt(bs: seq<Byte>, o: nat): Word
    requires o + 4 <= |bs|
  {
    (bs[o] as Word) | ((bs[o + 1] as Word) << 8) | ((bs[o + 2] as Word) << 16) | ((bs[o + 3] as Word) << 24)
  }

  /** What `setUint32(offset, w, true)` stores: w's bytes, least significant first. */
  function WordBytes(w: Word): (r: seq<Byte>)
    ensures |r| == 4
  {
    [(w & 0xFF) as Byte, ((w >> 8) & 0xFF) as Byte, ((w >> 16) & 0xFF) as Byte, ((w >> 24) & 0xFF) as Byte]
  }

  /** Decoding and storing little-endian words are inverse to each other, in both directions. */
  lemma WordRoundTrip(w: Word, bs: seq<Byte>, o: nat)
    requires o + 4 <= |bs|
    ensures WordAt(WordBytes(w), 0) == w
    ensures WordBytes(WordAt(bs, o)) == bs[o..o + 4]
  {
  }

  /** The 16 words of the 64-byte chunk at offset i. */
  function ChunkWords(p: seq<Byte>, i: nat): (m: seq<Word>)
    requires i + 64 <= |p|
    ensures |m| == 16
  {
    seq(16, j requires 0 <= j < 16 => WordAt(p, i + 4 * j))
  }

  /** Each chunk decodes to 16 little-endian words: word j is stored in bytes 4j..4j+3 of the chunk. */
  lemma ChunkWordsLittleEndian(p: seq<Byte>, i: nat, j: nat)
    requires i + 64 <= |p| && j < 16
    ensures WordBytes(ChunkWords(p, i)[j]) == p[i + 4 * j..i + 4 * j + 4]
  {
    WordRoundTrip(0, p, i + 4 * j);
  }

  /** The word-decoding loop of one chunk, into a fresh Uint32Array of 16. */
  method DecodeChunk(p: array<Byte>, i: nat) returns (m: array<Word>)
    requires i + 64 <= p.Length
    ensures fresh(m) && m[..] == ChunkWords(p[..], i)
  {
    var chunk := p[i..i + 64];
    m := new Word[16](_ => 0);
    for j := 0 to 16
      invariant forall k :: 0 <= k < j ==> m[k] == WordAt(p[..], i + 4 * k)
    {
      m[j] := (chunk[j * 4] as Word) | ((chunk[j * 4 + 1] as Word) << 8)
        | ((chunk[j * 4 + 2] as Word) << 16) | ((chunk[j * 4 + 3] as Word) << 24);
    }
  }

  // ---------------------------------------------------------------- rounds

  /** The auxiliary functions of section 3.4 of RFC 1321, in its own argument order. */
  function AuxF(x: Word, y: Word, z: Word): Word { (x & y) | (!x & z) }
  function AuxG(x: Word, y: Word, z: Word): Word { (x & z) | (y & !z) }
  function AuxH(x: Word, y: Word, z: Word): Word { x ^ y ^ z }
  function AuxI(x: Word, y: Word, z: Word): Word { y ^ (x | !z) }

  /** The code's F for step j, computed from B, C and D. */
  function RoundFunction(j: nat, b: Word, c: Word, d: Word): Word
    requires j < 64
  {
    if j < 16 then (b & c) | (!b & d)
    else if j < 32 then (d & b) | (!d & c)
    else if j < 48 then b ^ c ^ d
    else c ^ (b | !d)
  }

  /** The code's g for step j. */
  function MessageIndex(j: nat): nat
    requires j < 64
  {
    if j < 16 then j
    else if j < 32 then (5 * j + 1) % 16
    else if j < 48 then (3 * j + 5) % 16
    else (7 * j) % 16
  }

  /** Round j / 16 applies F, G, H and I respectively. */
  lemma RoundFunctionByRound(j: nat, b: Word, c: Word, d: Word)
    requires j < 64
    ensures j / 16 == 0 ==> RoundFunction(j, b, c, d) == AuxF(b, c, d)
    ensures j / 16 == 1 ==> RoundFunction(j, b, c, d) == AuxG(b, c, d)
    ensures j / 16 == 2 ==> RoundFunction(j, b, c, d) == AuxH(b, c, d)
    ensures j / 16 == 3 ==> RoundFunction(j, b, c, d) == AuxI(b, c, d)
  {
  }

  /** The message indices of round r, in step order. */
  function RoundIndices(r: nat): (s: seq<int>)
    requires r < 4
    ensures |s| == 16
  {
    seq(16, i requires 0 <= i < 16 => MessageIndex(16 * r + i))
  }

  /** A permutation of 0..15: every index below 16 appears exactly once. */
  predicate IsIndexPermutation(s: seq<int>) {
    |s| == 16
    && (forall i :: 0 <= i < 16 ==> 0 <= s[i] < 16)
    && (forall i, k :: 0 <= i < k < 16 ==> s[i] != s[k])
    && (forall g :: 0 <= g < 16 ==> g in s)
  }

  /** A sequence with a two-sided inverse on 0..15 is a permutation of 0..15. */
  lemma InverseGivesPermutation(s: seq<int>, pos: seq<int>)
    requires |s| == 16 && |pos| == 16
    requires forall i :: 0 <= i < 16 ==> 0 <= s[i] < 16 && pos[s[i]] == i
    requires forall g :: 0 <= g < 16 ==> 0 <= pos[g] < 16 && s[pos[g]] == g
    ensures IsIndexPermutation(s)
  {
    forall g | 0 <= g < 16
      ensures g in s
    {
      assert s[pos[g]] == g;
    }
  }

  /** Within each 16-step round the message index covers 0..15 exactly once. */
  lemma RoundIndicesArePermutations(r: nat)
    requires r < 4
    ensures IsIndexPermutation(RoundIndices(r))
  {
    if r == 0 {
      FirstRoundIndices(r);
    } else if r == 1 {
      SecondRoundIndices(r);
    } else if r == 2 {
      ThirdRoundIndices(r);
    } else {
      FourthRoundIndices(r);
    }
  }

  lemma FirstRoundIndices(r: nat)
    requires r == 0
    ensures IsIndexPermutation(RoundIndices(r))
  {
    var s := RoundIndices(r);
    assert forall i :: 0 <= i < 16 ==> s[i] == MessageIndex(16 * r + i);
    assert s == [0, 1, 2, 3, 4, 5, 6, 7, 8, 9, 10, 11, 12, 13, 14, 15];
    FirstRoundTable();
  }

  lemma FirstRoundTable()
    ensures IsIndexPermutation([0, 1, 2, 3, 4, 5, 6, 7, 8, 9, 10, 11, 12, 13, 14, 15])
  {
    InverseGivesPermutation([0, 1, 2, 3, 4, 5, 6, 7, 8, 9, 10, 11, 12, 13, 14, 15], [0, 1, 2, 3, 4, 5, 6, 7, 8, 9, 10, 11, 12, 13, 14, 15]);
  }

  lemma SecondRoundIndices(r: nat)
    requires r == 1
    ensures IsIndexPermutation(RoundIndices(r))
  {
    var s := RoundIndices(r);
    assert forall i :: 0 <= i < 16 ==> s[i] == MessageIndex(16 * r + i);
    assert s == [1, 6, 11, 0, 5, 10, 15, 4, 9, 14, 3, 8, 13, 2, 7, 12];
    SecondRoundTable();
  }

  lemma SecondRoundTable()
    ensures IsIndexPermutation([1, 6, 11, 0, 5, 10, 15, 4, 9, 14, 3, 8, 13, 2, 7, 12])
  {
    InverseGivesPermutation([1, 6, 11, 0, 5, 10, 15, 4, 9, 14, 3, 8, 13, 2, 7, 12], [3, 0, 13, 10, 7, 4, 1, 14, 11, 8, 5, 2, 15, 12, 9, 6]);
  }

  lemma ThirdRoundIndices(r: nat)
    requires r == 2
    ensures IsIndexPermutation(RoundIndices(r))
  {
    var s := RoundIndices(r);
    assert forall i :: 0 <= i < 16 ==> s[i] == MessageIndex(16 * r + i);
    assert s == [5, 8, 11, 14, 1, 4, 7, 10, 13, 0, 3, 6, 9, 12, 15, 2];
    ThirdRoundTable();
  }

  lemma ThirdRoundTable()
    ensures IsIndexPermutation([5, 8, 11, 14, 1, 4, 7, 10, 13, 0, 3, 6, 9, 12, 15, 2])
  {
    InverseGivesPermutation([5, 8, 11, 14, 1, 4, 7, 10, 13, 0, 3, 6, 9, 12, 15, 2], [9, 4, 15, 10, 5, 0, 11, 6, 1, 12, 7, 2, 13, 8, 3, 14]);
  }

  lemma FourthRoundIndices(r: nat)
    requires r == 3
    ensures IsIndexPermutation(RoundIndices(r))
  {
    var s := RoundIndices(r);
    assert forall i :: 0 <= i < 16 ==> s[i] == MessageIndex(16 * r + i);
    assert s == [0, 7, 14, 5, 12, 3, 10, 1, 8, 15, 6, 13, 4, 11, 2, 9];
    FourthRoundTable();
  }

  lemma FourthRoundTable()
    ensures IsIndexPermutation([0, 7, 14, 5, 12, 3, 10, 1, 8, 15, 6, 13, 4, 11, 2, 9])
  {
    InverseGivesPermutation([0, 7, 14, 5, 12, 3, 10, 1, 8, 15, 6, 13, 4, 11, 2, 9], [0, 7, 14, 5, 12, 3, 10, 1, 8, 15, 6, 13, 4, 11, 2, 9]);
  }

  /**
   * `rotateLeft`: `(x << n) | (x >>> (32 - n))`. JavaScript takes every shift
   * count modulo 32, that is, its low five bits.
   */
  function RotateLeft(x: Word, n: Word): Word {
    (x << (n & 31)) | (x >> ((32 - n) & 31))
  }

  /** For every count 1..31, and so for every count in S, `rotateLeft` is the 32-bit left rotation. */
  lemma RotateLeftIsRotation(x: Word)
    ensures RotateLeft(x, 1) == x.RotateLeft(1)
    ensures RotateLeft(x, 2) == x.RotateLeft(2)
    ensures RotateLeft(x, 3) == x.RotateLeft(3)
    ensures RotateLeft(x, 4) == x.RotateLeft(4)
    ensures RotateLeft(x, 5) == x.RotateLeft(5)
    ensures RotateLeft(x, 6) == x.RotateLeft(6)
    ensures RotateLeft(x, 7) == x.RotateLeft(7)
    ensures RotateLeft(x, 8) == x.RotateLeft(8)
    ensures RotateLeft(x, 9) == x.RotateLeft(9)
    ensures RotateLeft(x, 10) == x.RotateLeft(10)
    ensures RotateLeft(x, 11) == x.RotateLeft(11)
    ensures RotateLeft(x, 12) == x.RotateLeft(12)
    ensures RotateLeft(x, 13) == x.RotateLeft(13)
    ensures RotateLeft(x, 14) == x.RotateLeft(14)
    ensures RotateLeft(x, 15) == x.RotateLeft(15)
    ensures RotateLeft(x, 16) == x.RotateLeft(16)
    ensures RotateLeft(x, 17) == x.RotateLeft(17)
    ensures RotateLeft(x, 18) == x.RotateLeft(18)
    ensures RotateLeft(x, 19) == x.RotateLeft(19)
    ensures RotateLeft(x, 20) == x.RotateLeft(20)
    ensures RotateLeft(x, 21) == x.RotateLeft(21)
    ensures RotateLeft(x, 22) == x.RotateLeft(22)
    ensures RotateLeft(x, 23) == x.RotateLeft(23)
    ensures RotateLeft(x, 24) == x.RotateLeft(24)
    ensures RotateLeft(x, 25) == x.RotateLeft(25)
    ensures RotateLeft(x, 26) == x.RotateLeft(26)
    ensures RotateLeft(x, 27) == x.RotateLeft(27)
    ensures RotateLeft(x, 28) == x.RotateLeft(28)
    ensures RotateLeft(x, 29) == x.RotateLeft(29)
    ensures RotateLeft(x, 30) == x.RotateLeft(30)
    ensures RotateLeft(x, 31) == x.RotateLeft(31)
  {
  }

  /** Addition of two 32-bit words modulo 2^32. */
  function Add(x: Word, y: Word): Word { x + y }

  // ---------------------------------------------------------------- compression

  /** The working variables A, B, C, D (and the chaining values h0..h3). */
  datatype Quad = Quad(a: Word, b: Word, c: Word, d: Word)

  const Init: Quad := Quad(0x67452301, 0xEFCDAB89, 0x98BADCFE, 0x10325476)

  /** One of the 64 steps: A, B, C, D := D, B + rotateLeft(A + F + K[j] + M[g], s[j]), B, C. */
  function Step(q: Quad, m: seq<Word>, j: nat): Quad
    requires |m| == 16 && j < 64
  {
    var f := RoundFunction(j, q.b, q.c, q.d);
    Quad(q.d, Add(q.b, RotateLeft(Add(Add(Add(q.a, f), K[j]), m[MessageIndex(j)]), S[j])), q.b, q.c)
  }

  /** The first n steps applied to q. */
  function Steps(q: Quad, m: seq<Word>, n: nat): Quad
    requires |m| == 16 && n <= 64
  {
    if n == 0 then q else Step(Steps(q, m, n - 1), m, n - 1)
  }

  /** Addition mod 2^32, word by word. */
  function AddQuad(h: Quad, q: Quad): Quad {
    Quad(Add(h.a, q.a), Add(h.b, q.b), Add(h.c, q.c), Add(h.d, q.d))
  }

  /** One chunk's compression: 64 steps from h, then added back into h. */
  function Compress(h: Quad, m: seq<Word>): Quad
    requires |m| == 16
  {
    AddQuad(h, Steps(h, m, 64))
  }

  /** The 64-step loop over one chunk's words, with the chaining update after it. */
  method CompressChunk(h: Quad, m: array<Word>) returns (r: Quad)
    requires m.Length == 16
    ensures r == Compress(h, m[..])
  {
    var a, b, c, d := h.a, h.b, h.c, h.d;
    for j := 0 to 64
      invariant Quad(a, b, c, d) == Steps(h, m[..], j)
    {
      var f := RoundFunction(j, b, c, d);
      var g := MessageIndex(j);
      var temp := d;
      d := c;
      c := b;
      b := Add(b, RotateLeft(Add(Add(Add(a, f), K[j]), m[g]), S[j]));
      a := temp;
    }
    r := Quad(Add(h.a, a), Add(h.b, b), Add(h.c, c), Add(h.d, d));
  }

  // ---------------------------------------------------------------- the digest

  /** The chaining values after the first n chunks of the padded message p. */
  function Chain(p: seq<Byte>, n: nat): Quad
    requires 64 * n <= |p|
  {
    if n == 0 then Init else Compress(Chain(p, n - 1), ChunkWords(p, 64 * (n - 1)))
  }

  /** The 16 result bytes: h0..h3, each little-endian. */
  function Serialize(h: Quad): (r: seq<Byte>)
    ensures |r| == 16
  {
    WordBytes(h.a) + WordBytes(h.b) + WordBytes(h.c) + WordBytes(h.d)
  }

  /** The digest of a byte string. */
  function Digest(msg: seq<Byte>): (r: seq<Byte>)
    ensures |r| == 16
  {
    var p := Padded(msg);
    PaddedShape(msg);
    Serialize(Chain(p, |p| / 64))
  }

  /** The digest bytes as the numbers `Array.from` reads out of the Uint8Array. */
  function ByteValues(bs: seq<Byte>): (r: seq<nat>)
    ensures |r| == |bs|
    ensures forall i :: 0 <= i < |bs| ==> r[i] == bs[i] as nat && r[i] < 256
  {
    seq(|bs|, i requires 0 <= i < |bs| => bs[i] as nat)
  }

  /** Every number of the sequence is a byte value. */
  predicate AllBytes(ns: seq<nat>) {
    forall i :: 0 <= i < |ns| ==> ns[i] < 256
  }

  /** `n.toString(16).padStart(2, '0')`. */
  function ByteHex(n: nat): string {
    PadStart(ToHex(n), 2, '0')
  }

  /** The number below 256 named by a pair of hex digits. */
  function HexPairValue(hi: char, lo: char): nat {
    (16 * HexValue(hi) + HexValue(lo)) % 256
  }

  /** A byte value renders as its high nibble then its low nibble, lowercase. */
  lemma ByteHexDigits(n: nat)
    requires n < 256
    ensures ByteHex(n) == [HexDigit(n / 16), HexDigit(n % 16)]
    ensures IsHexDigit(ByteHex(n)[0]) && IsHexDigit(ByteHex(n)[1])
  {
    TwoHexDigits(n);
  }

  /** A byte value's rendering reads back as the value. */
  lemma ByteHexReadsBack(n: nat)
    requires n < 256
    ensures |ByteHex(n)| == 2 && HexPairValue(ByteHex(n)[0], ByteHex(n)[1]) == n
  {
    ByteHexDigits(n);
    NibblesReadBack(n);
  }

  lemma NibblesReadBack(n: nat)
    requires n < 256
    ensures HexPairValue(HexDigit(n / 16), HexDigit(n % 16)) == n
  {
    HexValueOfDigit(n / 16);
    HexValueOfDigit(n % 16);
  }

  /** `.map(b => b.toString(16).padStart(2, '0'))`. */
  function HexParts(ns: seq<nat>): (r: seq<string>)
    ensures |r| == |ns|
  {
    seq(|ns|, i requires 0 <= i < |ns| => ByteHex(ns[i]))
  }

  /** `toHexString`: the values' two-digit renderings, joined. */
  function ToHexString(ns: seq<nat>): string {
    Join(HexParts(ns))
  }

  /** The numbers named by a string of hex-digit pairs. */
  function ParseHexBytes(s: string): seq<nat>
    decreases |s|
  {
    if |s| < 2 then [] else [HexPairValue(s[0], s[1])] + ParseHexBytes(s[2..])
  }

  /** Value i is rendered at characters 2i and 2i + 1, as its high and its low nibble. */
  lemma ToHexStringLayout(ns: seq<nat>)
    requires AllBytes(ns)
    ensures var s := ToHexString(ns);
      && |s| == 2 * |ns|
      && forall i :: 0 <= i < |ns| ==> s[2 * i] == HexDigit(ns[i] / 16) && s[2 * i + 1] == HexDigit(ns[i] % 16)
  {
    var parts := HexParts(ns);
    forall i | 0 <= i < |ns|
      ensures parts[i] == [HexDigit(ns[i] / 16), HexDigit(ns[i] % 16)]
    {
      ByteHexDigits(ns[i]);
    }
    JoinPairs(parts);
  }

  /** The rendering consists of lowercase hex digits only. */
  lemma ToHexStringDigits(ns: seq<nat>)
    requires AllBytes(ns)
    ensures forall k :: 0 <= k < |ToHexString(ns)| ==> IsHexDigit(ToHexString(ns)[k])
  {
    var s := ToHexString(ns);
    ToHexStringLayout(ns);
    forall k | 0 <= k < |s|
      ensures IsHexDigit(s[k])
    {
      var i := k / 2;
      if k == 2 * i {
        assert s[k] == HexDigit(ns[i] / 16);
      } else {
        assert k == 2 * i + 1;
        assert s[k] == HexDigit(ns[i] % 16);
      }
    }
  }

  /** The values a sequence of two-character parts names, pair by pair. */
  function PairValues(parts: seq<string>): (r: seq<nat>)
    requires AllPairs(parts)
    ensures |r| == |parts|
  {
    seq(|parts|, i requires 0 <= i < |parts| => HexPairValue(parts[i][0], parts[i][1]))
  }

  /** Parsing joined two-character parts reads each part as one value. */
  lemma {:induction false} ParseJoinedPairs(parts: seq<string>)
    requires AllPairs(parts)
    ensures ParseHexBytes(Join(parts)) == PairValues(parts)
  {
    if |parts| > 0 {
      var rest := parts[1..];
      ParseJoinedPairs(rest);
      var s := Join(parts);
      JoinPairs(parts);
      assert s == parts[0] + Join(rest);
      assert s[2..] == Join(rest);
      assert s[0] == parts[0][0] && s[1] == parts[0][1];
      assert PairValues(parts) == [HexPairValue(parts[0][0], parts[0][1])] + PairValues(rest);
    }
  }

  /** The rendering reads back as the values. */
  lemma ToHexStringReadsBack(ns: seq<nat>)
    requires AllBytes(ns)
    ensures ParseHexBytes(ToHexString(ns)) == ns
  {
    var parts := HexParts(ns);
    forall i | 0 <= i < |ns|
      ensures |parts[i]| == 2 && HexPairValue(parts[i][0], parts[i][1]) == ns[i]
    {
      ByteHexReadsBack(ns[i]);
    }
    ParseJoinedPairs(parts);
  }

  /** The hex string md5 returns. */
  function Md5Hex(msg: seq<Byte>): string {
    ToHexString(ByteValues(Digest(msg)))
  }

  /** The result is 32 lowercase hex digits, two per digest byte, and reads back as the digest. */
  lemma Md5HexShape(msg: seq<Byte>)
    ensures var s := Md5Hex(msg);
      && |s| == 32
      && (forall i :: 0 <= i < 32 ==> IsHexDigit(s[i]))
      && ParseHexBytes(s) == ByteValues(Digest(msg))
  {
    var d := ByteValues(Digest(msg));
    ToHexStringLayout(d);
    ToHexStringReadsBack(d);
    ToHexStringDigits(d);
  }

  /** `DataView.setUint32(offset, w, true)`. */
  method SetUint32(a: array<Byte>, offset: nat, w: Word)
    requires offset + 4 <= a.Length
    modifies a
    ensures a[..] == old(a[..offset]) + WordBytes(w) + old(a[offset + 4..])
  {
    var bytes := WordBytes(w);
    forall k | 0 <= k < 4 {
      a[offset + k] := bytes[k];
    }
  }

  /** md5 on the bytes TextEncoder produced. */
  method ComputeMd5(message: seq<Byte>) returns (hex: string)
    ensures hex == Md5Hex(message)
  {
    var p := Pad(message);
    PaddedShape(message);
    var h := ProcessChunks(p);
    hex := Output(h);
  }

  /** The chunk loop of md5: each 64-byte chunk decoded and compressed into the chaining values. */
  method ProcessChunks(p: array<Byte>) returns (h: Quad)
    requires p.Length % 64 == 0
    ensures h == Chain(p[..], p.Length / 64)
  {
    ghost var ps, chunks := p[..], p.Length / 64;
    assert p.Length == 64 * chunks;
    h := Init;
    var i := 0;
    ghost var n := 0;
    while i < p.Length
      invariant i == 64 * n && n <= chunks
      invariant h == Chain(ps, n)
      decreases p.Length - i
    {
      assert n < chunks;
      var m := DecodeChunk(p, i);
      assert Chain(ps, n + 1) == Compress(h, m[..]);
      h := CompressChunk(h, m);
      i := i + 64;
      n := n + 1;
    }
    assert n == chunks;
  }

  /** The tail of md5: h0..h3 stored little-endian into a 16-byte buffer, then rendered as hex. */
  method Output(h: Quad) returns (hex: string)
    ensures hex == ToHexString(ByteValues(Serialize(h)))
  {
    var result := new Byte[16](_ => 0);
    SetUint32(result, 0, h.a);
    assert result[..4] == WordBytes(h.a);
    SetUint32(result, 4, h.b);
    assert result[..8] == WordBytes(h.a) + WordBytes(h.b);
    SetUint32(result, 8, h.c);
    assert result[..12] == WordBytes(h.a) + WordBytes(h.b) + WordBytes(h.c);
    SetUint32(result, 12, h.d);
    assert result[..] == Serialize(h);
    hex := ToHexString(ByteValues(result[..]));
  }

  /** calculateHash's md5 branch; the SHA branches call the platform's digest and are not modelled (None). */
  method CalculateHash(text: seq<Byte>, algorithm: string) returns (r: Option<string>)
    ensures algorithm == "md5" <==> r.Some?
    ensures r.Some? ==> r.value == Md5Hex(text)
  {
    if algorithm == "md5" {
      var hex := ComputeMd5(text);
      return Some(hex);
    }
    return None;
  }
}
