/** compression.cpp: the encoded bits packed eight to a byte, most significant
    bit first, the last byte filled up with zero bits; and the bytes read back
    into bits by `decompress`. */
module BitPack {
  import opened Base

  /** A byte as `compress` writes it (`unsigned char`). */
  type Byte = x: int | 0 <= x < 256

  function Pow2(n: nat): nat
  {
    if n == 0 then 1 else 2 * Pow2(n - 1)
  }

  /** `x << n`, before any truncation. */
  function Shift(x: int, n: nat): int
  {
    if n == 0 then x else 2 * Shift(x, n - 1)
  }

  /** `x >> i`, for a signed or unsigned `x`: halving rounds down, as an
      arithmetic shift does. */
  function Shr(x: int, i: nat): int
  {
    if i == 0 then x else Shr(x, i - 1) / 2
  }

  /** `(x >> i) & 1`. */
  predicate BitAt(x: int, i: nat)
  {
    Shr(x, i) % 2 == 1
  }

  function Zeros(n: nat): (z: seq<bool>)
    ensures |z| == n && forall k :: 0 <= k < n ==> !z[k]
  {
    seq(n, _ => false)
  }

  /** The number a run of bits spells, most significant bit first. */
  function Value(bits: seq<bool>): nat
  {
    if bits == [] then 0 else 2 * Value(bits[..|bits| - 1]) + (if Last(bits) then 1 else 0)
  }

  lemma {:induction false} ValueBound(bits: seq<bool>)
    ensures Value(bits) < Pow2(|bits|)
    decreases |bits|
  {
    if bits != [] {
      ValueBound(bits[..|bits| - 1]);
    }
  }

  /** Shifting left by `n` appends `n` zero bits. */
  lemma {:induction false} ValueZeros(bits: seq<bool>, n: nat)
    ensures Value(bits + Zeros(n)) == Shift(Value(bits), n)
    decreases n
  {
    if n == 0 {
      assert bits + Zeros(0) == bits;
    } else {
      ValueZeros(bits, n - 1);
      assert (bits + Zeros(n))[..|bits| + n - 1] == bits + Zeros(n - 1);
    }
  }

  /** At most eight bits fit a byte. */
  lemma FitsByte(bits: seq<bool>)
    requires |bits| <= 8
    ensures Value(bits) < 256
  {
    ValueBound(bits);
    Pow2Mono(|bits|, 8);
    assert Pow2(8) == 256;
  }

  /** The byte for a run of at most eight bits, filled up with zeros. */
  function ChunkByte(bits: seq<bool>): Byte
    requires |bits| <= 8
  {
    FitsByte(bits + Zeros(8 - |bits|));
    Value(bits + Zeros(8 - |bits|))
  }

  /** The bytes `compress` writes after the header. */
  function Pack(bits: seq<bool>): seq<Byte>
    decreases |bits|
  {
    if bits == [] then []
    else if |bits| <= 8 then [ChunkByte(bits)]
    else [ChunkByte(bits[..8])] + Pack(bits[8..])
  }

  /** The eight bits of a byte, most significant first. */
  function ByteBits(x: int): (b: seq<bool>)
    ensures |b| == 8
  {
    seq(8, k requires 0 <= k < 8 => BitAt(x, 7 - k))
  }

  /** The bits `decompress` reads from the bytes after the header. */
  function Unpack(bytes: seq<Byte>): seq<bool>
  {
    if bytes == [] then [] else ByteBits(bytes[0]) + Unpack(bytes[1..])
  }

  /** The signed `char` that `file.get` returns for a written byte. */
  function Signed(b: Byte): int
  {
    if b >= 128 then b - 256 else b
  }

  lemma {:induction false} ShrHalf(x: int, i: nat)
    requires i >= 1
    ensures Shr(x, i) == Shr(x / 2, i - 1)
    decreases i
  {
    if i > 1 {
      ShrHalf(x, i - 1);
    }
  }

  /** Bit `i` of the value of a run is the run's `i`-th bit from the end. */
  lemma {:induction false} ValueBitAt(bits: seq<bool>, i: nat)
    requires i < |bits|
    ensures BitAt(Value(bits), i) == bits[|bits| - 1 - i]
    decreases |bits|
  {
    var init := bits[..|bits| - 1];
    var d := if Last(bits) then 1 else 0;
    assert Value(bits) == 2 * Value(init) + d;
    if i > 0 {
      ShrHalf(Value(bits), i);
      assert (2 * Value(init) + d) / 2 == Value(init);
      ValueBitAt(init, i - 1);
    }
  }

  /** Reading a byte back gives the eight bits it was made of. */
  lemma ByteBitsOfValue(bits: seq<bool>)
    requires |bits| == 8
    ensures ByteBits(Value(bits)) == bits
  {
    forall k | 0 <= k < 8
      ensures ByteBits(Value(bits))[k] == bits[k]
    {
      ValueBitAt(bits, 7 - k);
    }
  }

  /** Shifting the signed `char` picks the same bits as shifting the byte. */
  lemma {:induction false} SignedShr(x: int, i: nat)
    requires i <= 8
    ensures Shr(x - 256, i) == Shr(x, i) - Pow2(8 - i)
    decreases i
  {
    if i == 0 {
      assert Pow2(8) == 256;
    } else {
      SignedShr(x, i - 1);
      assert Pow2(9 - i) == 2 * Pow2(8 - i);
    }
  }

  lemma SignedBit(b: Byte, i: nat)
    requires i < 8
    ensures BitAt(Signed(b), i) == BitAt(b, i)
  {
    if b >= 128 {
      SignedShr(b, i);
      assert Pow2(8 - i) == 2 * Pow2(7 - i);
    }
  }

  /** The padding `compress` adds: up to the next multiple of eight. */
  function PadLength(n: nat): (p: nat)
    ensures p < 8 && (n + p) % 8 == 0
  {
    (8 - n % 8) % 8
  }

  lemma ModEight(n: nat)
    requires n >= 8
    ensures (n - 8) % 8 == n % 8
  {
    var q := n / 8;
    assert n == 8 * q + n % 8;
    assert n - 8 == 8 * (q - 1) + n % 8;
  }

  /** Reading back what was packed gives the bits followed by fewer than
      eight zero bits, and the packed form has one byte per started group
      of eight bits. */
  lemma {:induction false} UnpackPack(bits: seq<bool>)
    ensures Unpack(Pack(bits)) == bits + Zeros(PadLength(|bits|))
    ensures |Pack(bits)| == (|bits| + 7) / 8
    decreases |bits|
  {
    if bits == [] {
    } else if |bits| <= 8 {
      var full := bits + Zeros(8 - |bits|);
      ByteBitsOfValue(full);
      assert Unpack([ChunkByte(bits)]) == ByteBits(ChunkByte(bits)) + [];
      assert PadLength(|bits|) == 8 - |bits|;
    } else {
      var b8, rest := bits[..8], bits[8..];
      UnpackPack(rest);
      assert b8 + Zeros(0) == b8;
      ByteBitsOfValue(b8);
      assert ByteBits(ChunkByte(b8)) == b8;
      var p := Pack(bits);
      assert p == [ChunkByte(b8)] + Pack(rest);
      assert p[0] == ChunkByte(b8) && p[1..] == Pack(rest);
      assert Unpack(p) == ByteBits(p[0]) + Unpack(p[1..]);
      ModEight(|bits|);
      assert PadLength(|rest|) == PadLength(|bits|);
      assert bits == b8 + rest;
      ConcatAssoc(b8, rest, Zeros(PadLength(|bits|)));
    }
  }

  /** Packing whole bytes and then a run of at most eight bits adds the
      run's byte. */
  lemma {:induction false} PackChunk(a: seq<bool>, b: seq<bool>, m: nat)
    requires |a| == 8 * m && 0 < |b| <= 8
    ensures Pack(a + b) == Pack(a) + [ChunkByte(b)]
    decreases m
  {
    if a == [] {
      assert a + b == b;
    } else {
      assert (a + b)[..8] == a[..8] && (a + b)[8..] == a[8..] + b;
      PackChunk(a[8..], b, m - 1);
      if |a| == 8 {
        assert Pack(a) == [ChunkByte(a)] && a[..8] == a && a[8..] == [];
        assert a[8..] + b == b;
      }
    }
  }

  /** The conversion to `unsigned char`: the value modulo 256, which leaves
      a value that fits unchanged. */
  function UChar(x: int): (r: Byte)
    ensures 0 <= x < 256 ==> r == x
  {
    x % 256
  }

  /** `byte = (byte << 1) | bit` on an `unsigned char` holding fewer than
      eight bits appends the bit. */
  lemma ShiftInBit(s: seq<bool>, a: nat, i: nat)
    requires a <= i < |s| && i - a < 8
    ensures UChar(2 * Value(s[a..i]) + (if s[i] then 1 else 0)) == Value(s[a..i + 1])
  {
    var run := s[a..i + 1];
    assert run[..i - a] == s[a..i] && Last(run) == s[i];
    var x := Value(run);
    assert x == 2 * Value(s[a..i]) + (if s[i] then 1 else 0);
    FitsByte(run);
  }

  /** `byte << (8 - bitCount)`, written as a `char`, is the last run
      filled up with zeros. */
  lemma LastByte(run: seq<bool>)
    requires 0 < |run| < 8
    ensures UChar(Shift(Value(run), 8 - |run|)) == ChunkByte(run)
  {
    var k := 8 - |run|;
    ValueZeros(run, k);
    ChunkByteValue(run, k);
  }

  lemma ChunkByteValue(run: seq<bool>, k: nat)
    requires |run| <= 8 && k == 8 - |run|
    ensures ChunkByte(run) == Value(run + Zeros(k)) && UChar(ChunkByte(run)) == ChunkByte(run)
  {
  }

  /** The packing loop of `compress` and the final, shifted byte. Both
      shifts are truncated to `unsigned char`, which never drops a bit
      here. */
  method PackBits(compressedData: seq<bool>) returns (out: seq<Byte>)
    ensures out == Pack(compressedData)
  {
    out := [];
    var byte: Byte := 0;
    var bitCount := 0;
    ghost var done: nat := 0;
    for i := 0 to |compressedData|
      invariant 0 <= bitCount < 8 && i - bitCount == 8 * done
      invariant out == Pack(compressedData[..8 * done])
      invariant byte == Value(compressedData[8 * done..i])
    {
      out, byte, bitCount, done := AddBit(compressedData, i, out, byte, bitCount, done);
    }
    assert compressedData[8 * done..|compressedData|] == compressedData[8 * done..];
    out := FlushByte(compressedData, out, byte, bitCount, done);
  }

  /** The body of the packing loop for the bit at `i`. */
  method AddBit(compressedData: seq<bool>, i: nat, out: seq<Byte>, byte: Byte, bitCount: nat, ghost done: nat)
    returns (out': seq<Byte>, byte': Byte, bitCount': nat, ghost done': nat)
    requires i < |compressedData| && bitCount < 8 && i - bitCount == 8 * done
    requires out == Pack(compressedData[..8 * done]) && byte == Value(compressedData[8 * done..i])
    ensures bitCount' < 8 && i + 1 - bitCount' == 8 * done'
    ensures out' == Pack(compressedData[..8 * done']) && byte' == Value(compressedData[8 * done'..i + 1])
  {
    var bit := compressedData[i];
    ShiftInBit(compressedData, 8 * done, i);
    out', byte', bitCount', done' := out, UChar(2 * byte + (if bit then 1 else 0)), bitCount + 1, done;
    if bitCount' == 8 {
      FullRun(compressedData, done, i + 1);
      out' := out + [byte'];
      byte' := 0;
      bitCount' := 0;
      done' := done + 1;
    }
  }

  /** `if (bitCount > 0) file.put(byte << (8 - bitCount));` */
  method FlushByte(compressedData: seq<bool>, out: seq<Byte>, byte: Byte, bitCount: nat, ghost done: nat) returns (out': seq<Byte>)
    requires bitCount < 8 && |compressedData| - bitCount == 8 * done
    requires out == Pack(compressedData[..8 * done]) && byte == Value(compressedData[8 * done..])
    ensures out' == Pack(compressedData)
  {
    out' := out;
    if bitCount > 0 {
      ghost var run := compressedData[8 * done..];
      LastByte(run);
      SliceJoin(compressedData, 8 * done, |compressedData|);
      PackChunk(compressedData[..8 * done], run, done);
      out' := out + [UChar(Shift(byte, 8 - bitCount))];
    } else {
      assert compressedData[..|compressedData|] == compressedData;
    }
  }

  /** Eight more bits packed make one more byte. */
  lemma FullRun(s: seq<bool>, done: nat, j: nat)
    requires j == 8 * done + 8 <= |s|
    ensures Pack(s[..j]) == Pack(s[..8 * done]) + [Value(s[8 * done..j])]
  {
    var run := s[8 * done..j];
    assert run + Zeros(0) == run;
    SliceJoin(s, 8 * done, j);
    PackChunk(s[..8 * done], run, done);
  }

  lemma SliceJoin<T>(s: seq<T>, a: nat, b: nat)
    requires a <= b <= |s|
    ensures s[..a] + s[a..b] == s[..b]
  {
  }

  lemma {:induction false} Pow2Mono(a: nat, b: nat)
    requires a <= b
    ensures Pow2(a) <= Pow2(b)
    decreases b
  {
    if a < b {
      Pow2Mono(a, b - 1);
    }
  }

  /** The reading loop of `decompress`: each byte, as the signed `char` that
      `file.get` gives, spelled out from bit 7 down to bit 0. */
  method UnpackBytes(bytes: seq<Byte>) returns (decompressedData: seq<bool>)
    ensures decompressedData == Unpack(bytes)
  {
    decompressedData := [];
    for j := 0 to |bytes|
      invariant Unpack(bytes) == decompressedData + Unpack(bytes[j..])
    {
      var byte := Signed(bytes[j]);
      var i := 7;
      ghost var before := decompressedData;
      while i >= 0
        invariant -1 <= i <= 7 && decompressedData == before + ByteBits(bytes[j])[..7 - i]
        decreases i
      {
        SignedBit(bytes[j], i);
        assert ByteBits(bytes[j])[..8 - i] == ByteBits(bytes[j])[..7 - i] + [BitAt(bytes[j], i)];
        decompressedData := decompressedData + [Shr(byte, i) % 2 == 1];
        i := i - 1;
      }
      assert ByteBits(bytes[j])[..8] == ByteBits(bytes[j]);
      assert bytes[j..][1..] == bytes[j + 1..];
      ConcatAssoc(before, ByteBits(bytes[j]), Unpack(bytes[j + 1..]));
    }
    assert bytes[|bytes|..] == [] && decompressedData + [] == decompressedData;
  }
}
