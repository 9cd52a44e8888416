/**
 * encodeData and addErrorCorrection of the QR generator: the byte-mode bit
 * stream (mode indicator 0100, character count, the low byte of every UTF-16
 * code unit, terminator, zero bits up to a byte boundary, alternating pad
 * bytes 236 and 17), then its packing into bytes, the placeholder
 * error-correction bytes (all zero) and the unpacking back into bits.
 *
 * JavaScript's `(x >> i) & 1` is bit i of x (BitOf) for the non-negative
 * values below 2^31 that occur here, and `(byte << 1) | bit` is
 * `2 * byte + bit` for a byte below 256 and a bit 0 or 1.
 */
module QrBitStream {
  import opened JsPrims
  import opened QrVersions

  type Bit = x: int | 0 <= x <= 1

  /** A UTF-16 code unit, what `charCodeAt` returns. */
  type CodeUnit = x: int | 0 <= x < 0x10000

  function Pow2(k: nat): (r: nat)
    ensures r >= 1
  {
    if k == 0 then 1 else 2 * Pow2(k - 1)
  }

  /** `(x >> i) & 1`: bit i of x, counting from the least significant. */
  function BitOf(x: nat, i: nat): Bit {
    if i == 0 then x % 2 else BitOf(x / 2, i - 1)
  }

  /** The w low bits of x, most significant first: the loops `for (i = w - 1; i >= 0; i--) push((x >> i) & 1)`. */
  function Bits(x: nat, w: nat): (r: seq<Bit>)
    ensures |r| == w
  {
    seq(w, j requires 0 <= j < w => BitOf(x, w - 1 - j))
  }

  /** The number a bit list spells, most significant first. */
  function Value(s: seq<Bit>): nat {
    if s == [] then 0 else 2 * Value(s[..|s| - 1]) + s[|s| - 1]
  }

  function Zeros(k: nat): (r: seq<Bit>)
    ensures |r| == k && forall i :: 0 <= i < k ==> r[i] == 0
  {
    seq(k, _ => 0)
  }

  /** Width of the character count field: 8 bits up to version 9, 16 above. */
  function LengthBits(info: VersionInfo): nat {
    if info.version <= 9 then 8 else 16
  }

  /** The low 8 bits of every code unit, in order. */
  function CharBits(text: seq<CodeUnit>): (r: seq<Bit>)
    ensures |r| == 8 * |text|
  {
    if text == [] then [] else CharBits(text[..|text| - 1]) + Bits(text[|text| - 1], 8)
  }

  /** Mode indicator, character count and data bits. */
  function Header(text: seq<CodeUnit>, info: VersionInfo): (r: seq<Bit>)
    ensures |r| == 4 + LengthBits(info) + 8 * |text|
  {
    [0, 1, 0, 0] + Bits(|text|, LengthBits(info)) + CharBits(text)
  }

  /**
   * Iterations of the terminator loop, whose bound `min(4, cap * 8 - data.length)`
   * is re-evaluated as data grows: it stops once i reaches 4 or 2 * i reaches room.
   */
  function TerminatorCount(room: int): nat {
    if room <= 0 then 0 else Min(4, (room + 1) / 2)
  }

  /** Zero bits the padding loop adds to reach a multiple of 8. */
  function AlignCount(n: nat): nat {
    (8 - n % 8) % 8
  }

  /** The k-th pad codeword: 236, 17, 236, ... */
  function PadByte(k: nat): nat {
    if k % 2 == 0 then 236 else 17
  }

  /** The first k pad codewords as bits. */
  function PadBits(k: nat): (r: seq<Bit>)
    ensures |r| == 8 * k
  {
    if k == 0 then [] else PadBits(k - 1) + Bits(PadByte(k - 1), 8)
  }

  /** The header followed by the terminator zeros. */
  function Terminated(h: seq<Bit>, capBits: int): (r: seq<Bit>)
    ensures |r| == |h| + TerminatorCount(capBits - |h|)
  {
    h + Zeros(TerminatorCount(capBits - |h|))
  }

  /** Zero bits appended up to a byte boundary. */
  function Aligned(t: seq<Bit>): (r: seq<Bit>)
    ensures |r| % 8 == 0 && |t| <= |r| < |t| + 8
  {
    t + Zeros(AlignCount(|t|))
  }

  /** Number of pad codewords that take a byte-aligned stream of n bits to capBits. */
  function PadCount(n: nat, capBits: int): nat {
    if n < capBits then (capBits - n) / 8 else 0
  }

  /** The trailer loops of encodeData applied to a header h. */
  function Padded(h: seq<Bit>, capBits: int): seq<Bit> {
    var a := Aligned(Terminated(h, capBits));
    a + PadBits(PadCount(|a|, capBits))
  }

  /** The bit list encodeData hands to addErrorCorrection. */
  function PreEcStream(text: seq<CodeUnit>, level: EcLevel, info: VersionInfo): seq<Bit> {
    Padded(Header(text, info), 8 * Capacity(info, level))
  }

  /** The bits in chunks of 8 (the last one possibly shorter), each read as a number. */
  function Pack(s: seq<Bit>): (r: seq<nat>)
    ensures |r| == (|s| + 7) / 8
    decreases |s|
  {
    if s == [] then []
    else if |s| <= 8 then [Value(s)]
    else [Value(s[..8])] + Pack(s[8..])
  }

  /** Each number as its 8 low bits, most significant first. */
  function Unpack(bytes: seq<nat>): (r: seq<Bit>)
    ensures |r| == 8 * |bytes|
  {
    if bytes == [] then [] else Unpack(bytes[..|bytes| - 1]) + Bits(bytes[|bytes| - 1], 8)
  }

  /** The result of addErrorCorrection: the packed data, then the zero EC bytes, as bits. */
  function WithEcBytes(data: seq<Bit>, level: EcLevel, info: VersionInfo): seq<Bit> {
    Unpack(Pack(data) + seq(EcBlocks(level, info.version), _ => 0))
  }

  function ToBools(s: seq<Bit>): (r: seq<bool>)
    ensures |r| == |s| && forall i :: 0 <= i < |s| ==> (r[i] <==> s[i] == 1)
  {
    seq(|s|, i requires 0 <= i < |s| => s[i] == 1)
  }

  // ---------------------------------------------------------------------
  // The structure of the pre-EC stream

  lemma ZerosAdd(a: nat, b: nat)
    ensures Zeros(a) + Zeros(b) == Zeros(a + b)
  {
  }

  /**
   * Whatever the capacity, exactly four zero bits follow the data bits, then
   * whole pad codewords up to the capacity (none when the data already
   * reaches or passes it). Four is what the terminator loop and the
   * byte-alignment loop add between them, since the header ends 4 bits past
   * a byte boundary.
   */
  lemma StreamLayout(text: seq<CodeUnit>, level: EcLevel, info: VersionInfo)
    ensures var h := Header(text, info);
            var capBits := 8 * Capacity(info, level);
            PreEcStream(text, level, info) == h + Zeros(4) + PadBits(if |h| < capBits then (capBits - |h| - 4) / 8 else 0)
  {
    var h := Header(text, info);
    assert |h| % 8 == 4;
    PaddedLayout(h, 8 * Capacity(info, level));
  }

  /** The trailer loops on any header that ends 4 bits past a byte boundary. */
  lemma PaddedLayout(h: seq<Bit>, capBits: int)
    requires |h| % 8 == 4 && capBits % 8 == 0
    ensures Padded(h, capBits) == h + Zeros(4) + PadBits(if |h| < capBits then (capBits - |h| - 4) / 8 else 0)
  {
    var tc := TerminatorCount(capBits - |h|);
    var t := Terminated(h, capBits);
    var ac := AlignCount(|t|);
    assert tc + ac == 4;
    ZerosAdd(tc, ac);
    assert Aligned(t) == h + Zeros(4);
  }

  /** The stream is a whole number of bytes. */
  lemma StreamAligned(text: seq<CodeUnit>, level: EcLevel, info: VersionInfo)
    ensures |PreEcStream(text, level, info)| % 8 == 0
  {
    StreamLayout(text, level, info);
  }

  /** When the 4 + count + data bits fit, the stream is exactly the capacity: padding never overshoots. */
  lemma StreamFillsCapacity(text: seq<CodeUnit>, level: EcLevel, info: VersionInfo)
    requires |Header(text, info)| <= 8 * Capacity(info, level)
    ensures |PreEcStream(text, level, info)| == 8 * Capacity(info, level)
  {
    StreamLayout(text, level, info);
  }

  /** When they do not fit, nothing but four zero bits is added and the stream exceeds the capacity. */
  lemma StreamOverflows(text: seq<CodeUnit>, level: EcLevel, info: VersionInfo)
    requires |Header(text, info)| > 8 * Capacity(info, level)
    ensures PreEcStream(text, level, info) == Header(text, info) + Zeros(4)
    ensures |PreEcStream(text, level, info)| > 8 * Capacity(info, level)
  {
    StreamLayout(text, level, info);
  }

  lemma {:induction false} CharBitsAt(text: seq<CodeUnit>, k: nat)
    requires k < |text|
    ensures CharBits(text)[8 * k..8 * k + 8] == Bits(text[k], 8)
    decreases |text|
  {
    var n := |text| - 1;
    assert CharBits(text) == CharBits(text[..n]) + Bits(text[n], 8);
    if k < n {
      CharBitsAt(text[..n], k);
      assert CharBits(text)[8 * k..8 * k + 8] == CharBits(text[..n])[8 * k..8 * k + 8];
    }
  }

  /**
   * The stream opens with the mode indicator 0,1,0,0, then the text length
   * in LengthBits bits most significant first, then bits 7..0 of every code
   * unit in order (Bits(x, 8) is exactly those bits).
   */
  lemma StreamHeader(text: seq<CodeUnit>, level: EcLevel, info: VersionInfo)
    ensures var s := PreEcStream(text, level, info);
            var w := LengthBits(info);
            && |s| >= 4 + w + 8 * |text|
            && s[..4] == [0, 1, 0, 0]
            && s[4..4 + w] == Bits(|text|, w)
            && forall k :: 0 <= k < |text| ==> s[4 + w + 8 * k..4 + w + 8 * k + 8] == Bits(text[k], 8)
  {
    StreamLayout(text, level, info);
    var s := PreEcStream(text, level, info);
    var h := Header(text, info);
    assert s[..|h|] == h;
    HeaderFields(s, text, info);
  }

  /** The fields of a stream that starts with the header. */
  lemma HeaderFields(s: seq<Bit>, text: seq<CodeUnit>, info: VersionInfo)
    requires var h := Header(text, info); |s| >= |h| && s[..|h|] == h
    ensures var w := LengthBits(info);
            && s[..4] == [0, 1, 0, 0]
            && s[4..4 + w] == Bits(|text|, w)
            && forall k :: 0 <= k < |text| ==> s[4 + w + 8 * k..4 + w + 8 * k + 8] == Bits(text[k], 8)
  {
    var w := LengthBits(info);
    var h := Header(text, info);
    assert s[..4] == h[..4] == [0, 1, 0, 0];
    assert s[4..4 + w] == h[4..4 + w] == Bits(|text|, w);
    assert h[4 + w..] == CharBits(text);
    forall k | 0 <= k < |text|
      ensures s[4 + w + 8 * k..4 + w + 8 * k + 8] == Bits(text[k], 8)
    {
      CharBitsAt(text, k);
      assert s[4 + w + 8 * k..4 + w + 8 * k + 8] == h[4 + w + 8 * k..4 + w + 8 * k + 8];
    }
  }

  /** Pad codewords alternate 236, 17, starting with 236. */
  lemma {:induction false} PadBitsAlternate(k: nat, i: nat)
    requires i < k
    ensures PadBits(k)[8 * i..8 * i + 8] == Bits(PadByte(i), 8)
    ensures PadByte(i) == (if i % 2 == 0 then 236 else 17)
    decreases k
  {
    assert PadBits(k) == PadBits(k - 1) + Bits(PadByte(k - 1), 8);
    if i < k - 1 {
      PadBitsAlternate(k - 1, i);
      assert PadBits(k)[8 * i..8 * i + 8] == PadBits(k - 1)[8 * i..8 * i + 8];
    } else {
      assert PadBits(k)[8 * i..8 * i + 8] == Bits(PadByte(k - 1), 8);
    }
  }

  // ---------------------------------------------------------------------
  // Packing bits into bytes and back

  lemma BitsSplit(x: nat, w: nat)
    ensures Bits(x, w + 1) == Bits(x / 2, w) + [x % 2]
  {
    var a := Bits(x, w + 1);
    var b := Bits(x / 2, w) + [x % 2];
    forall j | 0 <= j < w + 1
      ensures a[j] == b[j]
    {
      if j < w {
        assert a[j] == BitOf(x, w - j) == BitOf(x / 2, w - 1 - j);
      }
    }
  }

  /** Reading w bits back gives the number, when it has at most w bits. */
  lemma {:induction false} ValueOfBits(x: nat, w: nat)
    requires x < Pow2(w)
    ensures Value(Bits(x, w)) == x
    decreases w
  {
    if w > 0 {
      BitsSplit(x, w - 1);
      ValueOfBits(x / 2, w - 1);
      var s := Bits(x, w);
      assert s[..|s| - 1] == Bits(x / 2, w - 1);
    }
  }

  lemma ValueBound(s: seq<Bit>)
    ensures Value(s) < Pow2(|s|)
  {
  }

  /** Writing a bit list's value in as many bits gives the list back. */
  lemma {:induction false} BitsOfValue(s: seq<Bit>)
    ensures Bits(Value(s), |s|) == s
    decreases |s|
  {
    if s != [] {
      var n := |s| - 1;
      BitsOfValue(s[..n]);
      BitsSplit(Value(s), n);
      assert Value(s) / 2 == Value(s[..n]);
      assert Value(s) % 2 == s[n];
      assert s == s[..n] + [s[n]];
    }
  }

  lemma {:induction false} UnpackAppend(a: seq<nat>, b: seq<nat>)
    ensures Unpack(a + b) == Unpack(a) + Unpack(b)
    decreases |b|
  {
    if b != [] {
      var n := |b| - 1;
      UnpackAppend(a, b[..n]);
      assert (a + b)[..|a + b| - 1] == a + b[..n];
      assert (a + b)[|a + b| - 1] == b[n];
      assert Unpack(b) == Unpack(b[..n]) + Bits(b[n], 8);
    } else {
      assert a + b == a;
    }
  }

  lemma UnpackOne(x: nat)
    ensures Unpack([x]) == Bits(x, 8)
  {
    assert [x][..0] == [];
  }

  /** Bits to bytes and back is the identity on a whole number of bytes. */
  lemma {:induction false} UnpackPack(s: seq<Bit>)
    requires |s| % 8 == 0
    ensures Unpack(Pack(s)) == s
    decreases |s|
  {
    if s != [] {
      BitsOfValue(s[..8]);
      UnpackOne(Value(s[..8]));
      if |s| == 8 {
        assert s[..8] == s;
      } else {
        UnpackPack(s[8..]);
        UnpackAppend([Value(s[..8])], Pack(s[8..]));
        assert s == s[..8] + s[8..];
      }
    }
  }

  /** Bytes to bits and back is the identity on values below 256. */
  lemma {:induction false} PackUnpack(bytes: seq<nat>)
    requires forall i :: 0 <= i < |bytes| ==> bytes[i] < 256
    ensures Pack(Unpack(bytes)) == bytes
    decreases |bytes|
  {
    if bytes != [] {
      var rest := bytes[1..];
      assert bytes == [bytes[0]] + rest;
      UnpackAppend([bytes[0]], rest);
      UnpackOne(bytes[0]);
      assert Pow2(8) == 256;
      ValueOfBits(bytes[0], 8);
      var s := Unpack(bytes);
      assert s[..8] == Bits(bytes[0], 8);
      if rest == [] {
        assert s == Bits(bytes[0], 8);
      } else {
        assert s[8..] == Unpack(rest);
        PackUnpack(rest);
      }
    }
  }

  lemma {:induction false} BitOfZero(i: nat)
    ensures BitOf(0, i) == 0
    decreases i
  {
    if i > 0 {
      BitOfZero(i - 1);
    }
  }

  lemma {:induction false} UnpackZeros(k: nat)
    ensures Unpack(seq(k, _ => 0)) == Zeros(8 * k)
    decreases k
  {
    if k > 0 {
      var z := seq(k, _ => 0);
      assert z[..k - 1] == seq(k - 1, _ => 0);
      UnpackZeros(k - 1);
      forall i | 0 <= i < 8
        ensures Bits(0, 8)[i] == 0
      {
        BitOfZero(7 - i);
      }
      ZerosAdd(8 * (k - 1), 8);
    }
  }

  /** addErrorCorrection returns a byte-aligned input unchanged, followed by 8 zero bits per EC byte. */
  lemma WithEcBytesShape(data: seq<Bit>, level: EcLevel, info: VersionInfo)
    requires |data| % 8 == 0
    ensures WithEcBytes(data, level, info) == data + Zeros(8 * EcBlocks(level, info.version))
  {
    var ec := seq(EcBlocks(level, info.version), _ => 0);
    UnpackAppend(Pack(data), ec);
    UnpackPack(data);
    UnpackZeros(|ec|);
  }

  // ---------------------------------------------------------------------
  // The loops

  lemma BitsPrefixStep(x: nat, w: nat, k: nat)
    requires k < w
    ensures Bits(x, w)[..k + 1] == Bits(x, w)[..k] + [BitOf(x, w - 1 - k)]
  {
  }

  /** One more turn of the terminator loop happens exactly while fewer than TerminatorCount zeros were pushed. */
  lemma TerminatorStep(room: int, j: nat)
    requires j <= TerminatorCount(room)
    ensures j < Min(4, room - j) <==> j < TerminatorCount(room)
  {
  }

  /** One turn of the packing loop reads the chunk starting at i. */
  lemma PackStep(data: seq<Bit>, i: nat, j: nat)
    requires i < |data| && j == Min(8, |data| - i)
    ensures i + 8 < |data| ==> Pack(data[i..]) == [Value(data[i..i + j])] + Pack(data[i + 8..])
    ensures i + 8 >= |data| ==> Pack(data[i..]) == [Value(data[i..i + j])]
  {
    var rest := data[i..];
    if |rest| <= 8 {
      assert data[i..i + j] == rest;
    } else {
      assert data[i..i + j] == rest[..8];
      assert rest[8..] == data[i + 8..];
    }
  }

  lemma UnpackStep(all: seq<nat>, k: nat)
    requires k < |all|
    ensures Unpack(all[..k + 1]) == Unpack(all[..k]) + Bits(all[k], 8)
  {
    assert all[..k + 1][..k] == all[..k];
  }

  /** The idiom `for (bit = w - 1; bit >= 0; bit--) data.push((x >> bit) & 1)`. */
  method PushBits(data: seq<Bit>, x: nat, w: nat) returns (out: seq<Bit>)
    ensures out == data + Bits(x, w)
  {
    out := data;
    var bit: int := w - 1;
    while bit >= 0
      invariant -1 <= bit < w
      invariant out == data + Bits(x, w)[..w - 1 - bit]
    {
      BitsPrefixStep(x, w, w - 1 - bit);
      out := out + [BitOf(x, bit)];
      bit := bit - 1;
    }
    assert Bits(x, w)[..w] == Bits(x, w);
  }

  /** The pad loop's inner loop: the 8 bits of x, each pushed only while the stream is shorter than limit. */
  method PushBitsBelow(data: seq<Bit>, x: nat, limit: int) returns (out: seq<Bit>)
    ensures out == data + Bits(x, 8)[..Min(8, if limit > |data| then limit - |data| else 0)]
  {
    out := data;
    var bit := 7;
    while bit >= 0
      invariant -1 <= bit <= 7
      invariant out == data + Bits(x, 8)[..Min(7 - bit, if limit > |data| then limit - |data| else 0)]
    {
      BitsPrefixStep(x, 8, 7 - bit);
      if |out| < limit {
        out := out + [BitOf(x, bit)];
      }
      bit := bit - 1;
    }
  }

  /** encodeData: the bit stream, passed through addErrorCorrection, as booleans. */
  method EncodeData(text: seq<CodeUnit>, level: EcLevel, info: VersionInfo) returns (bits: seq<bool>)
    ensures bits == ToBools(WithEcBytes(PreEcStream(text, level, info), level, info))
  {
    var data: seq<Bit> := [0, 1, 0, 0];
    // character count indicator
    var lengthBits := if info.version <= 9 then 8 else 16;
    data := PushBits(data, |text|, lengthBits);
    // data bits
    ghost var prefix := data;
    var k := 0;
    while k < |text|
      invariant 0 <= k <= |text|
      invariant data == prefix + CharBits(text[..k])
    {
      data := PushBits(data, text[k], 8);
      assert text[..k + 1][..k] == text[..k];
      k := k + 1;
    }
    assert text[..|text|] == text;
    assert data == Header(text, info);
    data := AddTerminatorAndPadding(data, 8 * Capacity(info, level));
    var corrected := AddErrorCorrection(data, level, info);
    bits := ToBools(corrected);
  }

  /** The terminator, byte-alignment and pad-codeword loops of encodeData. */
  method AddTerminatorAndPadding(h: seq<Bit>, capBits: int) returns (data: seq<Bit>)
    requires capBits % 8 == 0
    ensures data == Padded(h, capBits)
  {
    data := AddTerminator(h, capBits);
    data := AlignToByte(data);
    data := AddPadBytes(data, capBits);
  }

  /** `for (i = 0; i < Math.min(4, capBits - data.length); i++) data.push(0)`. */
  method AddTerminator(h: seq<Bit>, capBits: int) returns (data: seq<Bit>)
    ensures data == Terminated(h, capBits)
  {
    data := h;
    ghost var tc := TerminatorCount(capBits - |h|);
    var j := 0;
    while j < Min(4, capBits - |data|)
      invariant 0 <= j <= tc
      invariant data == h + Zeros(j)
    {
      TerminatorStep(capBits - |h|, j);
      data := data + [0];
      j := j + 1;
    }
    TerminatorStep(capBits - |h|, j);
  }

  /** `while (data.length % 8 !== 0) data.push(0)`. */
  method AlignToByte(t: seq<Bit>) returns (data: seq<Bit>)
    ensures data == Aligned(t)
  {
    data := t;
    while |data| % 8 != 0
      invariant |t| <= |data| <= |t| + AlignCount(|t|)
      invariant data == t + Zeros(|data| - |t|)
      decreases |t| + AlignCount(|t|) - |data|
    {
      data := data + [0];
    }
  }

  /** The pad-codeword loop: whole codewords 236, 17, ... while the stream is shorter than capBits. */
  method AddPadBytes(a: seq<Bit>, capBits: int) returns (data: seq<Bit>)
    requires |a| % 8 == 0 && capBits % 8 == 0
    ensures data == a + PadBits(PadCount(|a|, capBits))
  {
    data := a;
    var paddingBytes := [236, 17];
    var paddingIndex := 0;
    while |data| < capBits
      invariant |data| == |a| + 8 * paddingIndex
      invariant data == a + PadBits(paddingIndex)
      invariant paddingIndex > 0 ==> |data| <= capBits
      decreases capBits - |data|
    {
      var paddingByte := paddingBytes[paddingIndex % 2];
      assert paddingByte == PadByte(paddingIndex);
      data := PushBitsBelow(data, paddingByte, capBits);
      assert Bits(paddingByte, 8)[..8] == Bits(paddingByte, 8);
      paddingIndex := paddingIndex + 1;
    }
  }

  /** addErrorCorrection: bits to bytes, EcBlocks zero bytes appended, bytes back to bits. */
  method AddErrorCorrection(data: seq<Bit>, level: EcLevel, info: VersionInfo) returns (result: seq<Bit>)
    ensures result == WithEcBytes(data, level, info)
  {
    var ecBlocks := EcBlocks(level, info.version);
    var dataBytes := PackBytes(data);
    var ecBytes: seq<nat> := [];
    var e := 0;
    while e < ecBlocks
      invariant 0 <= e <= ecBlocks
      invariant ecBytes == seq(e, _ => 0)
    {
      ecBytes := ecBytes + [0];
      e := e + 1;
    }
    var all := dataBytes + ecBytes;
    result := [];
    var k := 0;
    while k < |all|
      invariant 0 <= k <= |all|
      invariant result == Unpack(all[..k])
    {
      UnpackStep(all, k);
      result := PushBits(result, all[k], 8);
      k := k + 1;
    }
    assert all[..|all|] == all;
  }

  /** The bits-to-bytes loop of addErrorCorrection. */
  method PackBytes(data: seq<Bit>) returns (dataBytes: seq<nat>)
    ensures dataBytes == Pack(data)
  {
    dataBytes := [];
    var i := 0;
    while i < |data|
      invariant 0 <= i
      invariant i < |data| ==> dataBytes + Pack(data[i..]) == Pack(data)
      invariant i >= |data| ==> dataBytes == Pack(data)
      decreases |data| - i
    {
      var byte, j := PackByte(data, i);
      PackStep(data, i, j);
      dataBytes := dataBytes + [byte];
      i := i + 8;
    }
  }

  /** The inner loop of PackBytes: the next (up to) eight bits, most significant first. */
  method PackByte(data: seq<Bit>, i: nat) returns (byte: nat, j: nat)
    requires i < |data|
    ensures j == Min(8, |data| - i) && byte == Value(data[i..i + j])
  {
    byte, j := 0, 0;
    while j < 8 && i + j < |data|
      invariant 0 <= j <= 8 && i + j <= |data|
      invariant byte == Value(data[i..i + j])
    {
      assert data[i..i + j + 1][..j] == data[i..i + j];
      byte := byte * 2 + data[i + j];
      j := j + 1;
    }
  }
}
