/**
 * The LSB pixel channel of `hideDataInImage` / `extractDataFromImage`.
 *
 * The pixel buffer is an RGBA byte array (`ImageData.data`). Every fourth byte,
 * the one at an index i with (i + 1) % 4 == 0, is alpha and is never used. Every
 * other ("colour") byte carries one bit of the container in its least significant
 * bit; the colour bytes are taken in index order and the container bits
 * most-significant-first within each container byte.
 */
module PixelChannel {
  import opened Bytes

  predicate IsAlpha(i: nat)
  {
    (i + 1) % 4 == 0
  }

  /**
   * The number of colour bytes at indices below i. For a colour byte i this is
   * also the number of the container bit it carries.
   */
  function ColourBefore(i: nat): nat
  {
    (i / 4) * 3 + i % 4
  }

  /** The index of the t-th colour byte (counting from 0): the inverse of ColourBefore. */
  function ColourIndex(t: nat): (i: nat)
    ensures !IsAlpha(i) && ColourBefore(i) == t
  {
    (t / 3) * 4 + t % 3
  }

  /**
   * The number of bits a buffer of n bytes can carry: 3 per 4-byte pixel, plus
   * the colour bytes of a partial pixel. That is the number of colour bytes
   * below index n, so it is ColourBefore(n); the separate name is for the
   * places that speak of a whole buffer rather than of a position in it.
   */
  function Capacity(n: nat): nat
  {
    ColourBefore(n)
  }

  lemma ColourBeforeStep(i: nat)
    ensures ColourBefore(i + 1) == ColourBefore(i) + (if IsAlpha(i) then 0 else 1)
  {
  }

  lemma {:induction false} ColourBeforeMonotone(i: nat, j: nat)
    requires i <= j
    ensures ColourBefore(i) <= ColourBefore(j)
    decreases j - i
  {
    if i < j {
      ColourBeforeStep(i);
      ColourBeforeMonotone(i + 1, j);
    }
  }

  /** The t-th colour byte exists in a buffer of n bytes exactly when t is below its capacity. */
  lemma ColourIndexBelow(t: nat, n: nat)
    ensures ColourIndex(t) < n <==> t < Capacity(n)
  {
    var i := ColourIndex(t);
    if i < n {
      ColourBeforeStep(i);
      ColourBeforeMonotone(i + 1, n);
    } else {
      ColourBeforeMonotone(n, i);
    }
  }

  lemma ColourIndexOf(i: nat)
    requires !IsAlpha(i)
    ensures ColourIndex(ColourBefore(i)) == i
  {
  }

  function Lsb(x: byte): bit
  {
    (x & 1) as bit
  }

  /** `(x & 0xFE) | b`: x with its least significant bit replaced by b. */
  function SetLsb(x: byte, b: bit): byte
  {
    (x & 0xFE) | b as byte
  }

  lemma SetLsbSpec(x: byte, b: bit)
    ensures Lsb(SetLsb(x, b)) == b
    ensures SetLsb(x, b) & 0xFE == x & 0xFE
  {
  }

  /** Container bit k: bit 7 - k % 8 of byte k / 8 (most significant first). */
  function ContainerBit(c: seq<byte>, k: nat): bit
    requires k < 8 * |c|
  {
    BitOf(c[k / 8], k % 8)
  }

  /** All bits of c in the order the channel carries them. */
  function Bits(c: seq<byte>): (s: seq<bit>)
    ensures |s| == 8 * |c|
  {
    seq(8 * |c|, k requires 0 <= k < 8 * |c| => ContainerBit(c, k))
  }

  // ---------------------------------------------------------------------------
  // Writer
  // ---------------------------------------------------------------------------

  /**
   * The buffer the write loop leaves behind when it runs over p with container c.
   * The colour byte carrying bit k gets bit k as its LSB while k < 8 * |c|; the
   * loop stops after the last container bit or at the end of the buffer.
   */
  function Embedded(p: seq<byte>, c: seq<byte>): (e: seq<byte>)
    ensures |e| == |p|
  {
    seq(|p|, i requires 0 <= i < |p| =>
      if IsAlpha(i) || ColourBefore(i) >= 8 * |c| then p[i]
      else SetLsb(p[i], ContainerBit(c, ColourBefore(i))))
  }

  /** The writer never touches an alpha byte. */
  lemma EmbeddedKeepsAlpha(p: seq<byte>, c: seq<byte>, i: nat)
    requires i < |p| && IsAlpha(i)
    ensures Embedded(p, c)[i] == p[i]
  {
  }

  /** Bits 7..1 of every byte are left as they were. */
  lemma EmbeddedKeepsHighBits(p: seq<byte>, c: seq<byte>, i: nat)
    requires i < |p|
    ensures Embedded(p, c)[i] & 0xFE == p[i] & 0xFE
  {
    if !IsAlpha(i) && ColourBefore(i) < 8 * |c| {
      SetLsbSpec(p[i], ContainerBit(c, ColourBefore(i)));
    }
  }

  /** Every colour byte whose number is below the container's bit count carries that container bit. */
  lemma EmbeddedCarriesBit(p: seq<byte>, c: seq<byte>, i: nat)
    requires i < |p| && !IsAlpha(i) && ColourBefore(i) < 8 * |c|
    ensures Lsb(Embedded(p, c)[i]) == ContainerBit(c, ColourBefore(i))
  {
    SetLsbSpec(p[i], ContainerBit(c, ColourBefore(i)));
  }

  /** Bytes past the colour byte of the last container bit are unchanged. */
  lemma EmbeddedKeepsTail(p: seq<byte>, c: seq<byte>, i: nat)
    requires i < |p| && ColourBefore(i) >= 8 * |c|
    ensures Embedded(p, c)[i] == p[i]
  {
  }

  /**
   * The write loop of `hideDataInImage`: walks the buffer, skips alpha bytes and
   * overwrites the LSB of each colour byte with the next container bit until
   * either the container or the buffer runs out. It does not check capacity.
   */
  method WriteBits(pixels: array<byte>, c: seq<byte>)
    modifies pixels
    ensures pixels[..] == Embedded(old(pixels[..]), c)
  {
    ghost var before := pixels[..];
    var bitIndex := 0;
    var totalBits := |c| * 8;
    var i := 0;
    while i < pixels.Length && bitIndex < totalBits
      invariant 0 <= i <= pixels.Length
      invariant bitIndex == ColourBefore(i) <= totalBits
      invariant forall j :: 0 <= j < i ==> pixels[j] == Embedded(before, c)[j]
      invariant forall j :: i <= j < pixels.Length ==> pixels[j] == before[j]
    {
      ColourBeforeStep(i);
      if IsAlpha(i) {
        i := i + 1;
        continue;
      }
      var byteIdx := bitIndex / 8;
      var bitPos := 7 - bitIndex % 8;
      var b := (c[byteIdx] >> bitPos) & 1;
      ShiftRightBit(c[byteIdx], bitIndex % 8);
      pixels[i] := (pixels[i] & 0xFE) | b;
      bitIndex := bitIndex + 1;
      i := i + 1;
    }
    forall j | i <= j < pixels.Length
      ensures pixels[j] == Embedded(before, c)[j]
    {
      ColourBeforeMonotone(i, j);
    }
    assert pixels[..] == Embedded(before, c);
  }

  // ---------------------------------------------------------------------------
  // Reader
  // ---------------------------------------------------------------------------

  /** The LSBs of the colour bytes of p in scan order: the bit stream the channel carries. */
  function Stream(p: seq<byte>): (s: seq<bit>)
    ensures |s| == Capacity(|p|)
  {
    seq(Capacity(|p|), t requires 0 <= t < Capacity(|p|) =>
      ColourIndexBelow(t, |p|); Lsb(p[ColourIndex(t)]))
  }

  /** What the colour bytes of an embedded buffer carry: the container's bits, in order. */
  lemma {:induction false} EmbeddedStream(p: seq<byte>, c: seq<byte>, t: nat)
    requires t < 8 * |c| && t < Capacity(|p|)
    ensures Stream(Embedded(p, c))[t] == ContainerBit(c, t)
  {
    ColourIndexBelow(t, |p|);
    EmbeddedCarriesBit(p, c, ColourIndex(t));
  }

  /**
   * The bit loop of `getBytes` started at pixel index ptr and asked for n bits:
   * the bits it reads and where it leaves the pointer. It stops as soon as n bits
   * are read (without skipping a following alpha byte) or the buffer ends.
   */
  function ReadBits(p: seq<byte>, ptr: nat, n: nat): (seq<bit>, nat)
    decreases |p| - ptr
  {
    if n == 0 || ptr >= |p| then ([], ptr)
    else if IsAlpha(ptr) then ReadBits(p, ptr + 1, n)
    else
      var (rest, q) := ReadBits(p, ptr + 1, n - 1);
      ([Lsb(p[ptr])] + rest, q)
  }

  function Min(a: int, b: int): int
  {
    if a <= b then a else b
  }

  /**
   * bits and q are what reading from ptr returns: the next bits of the stream of
   * p, as many as were asked for or all that is left of it, and the pointer just
   * after the last colour byte read.
   */
  ghost predicate ReadsStream(p: seq<byte>, ptr: nat, n: nat, bits: seq<bit>, q: nat)
  {
    && ptr <= q <= |p|
    && ColourBefore(ptr) <= ColourBefore(q) <= Capacity(|p|)
    && |bits| == Min(n, Capacity(|p|) - ColourBefore(ptr))
    && ColourBefore(q) == ColourBefore(ptr) + |bits|
    && bits == Stream(p)[ColourBefore(ptr) .. ColourBefore(q)]
  }

  /** One turn of the `getBytes` loop. */
  lemma ReadBitsStep(p: seq<byte>, ptr: nat, n: nat)
    requires 0 < n && ptr < |p|
    ensures !IsAlpha(ptr) ==> ReadBits(p, ptr, n).0 == [Lsb(p[ptr])] + ReadBits(p, ptr + 1, n - 1).0
    ensures !IsAlpha(ptr) ==> ReadBits(p, ptr, n).1 == ReadBits(p, ptr + 1, n - 1).1
    ensures IsAlpha(ptr) ==> ReadBits(p, ptr, n) == ReadBits(p, ptr + 1, n)
  {
  }

  lemma StreamAt(p: seq<byte>, i: nat)
    requires i < |p| && !IsAlpha(i)
    ensures ColourBefore(i) < Capacity(|p|)
    ensures Stream(p)[ColourBefore(i)] == Lsb(p[i])
  {
    ColourIndexOf(i);
    ColourIndexBelow(ColourBefore(i), |p|);
  }

  /**
   * The loop state of `getBytes`: of the n bits a read from start returns, `read`
   * are done and the rest is what a read of the remaining bits from ptr returns.
   */
  ghost predicate ReadSplit(p: seq<byte>, start: nat, n: nat, read: seq<bit>, ptr: nat)
  {
    |read| <= n
    && ReadBits(p, start, n).0 == read + ReadBits(p, ptr, n - |read|).0
    && ReadBits(p, start, n).1 == ReadBits(p, ptr, n - |read|).1
  }

  lemma ReadSplitStart(p: seq<byte>, start: nat, n: nat)
    ensures ReadSplit(p, start, n, [], start)
  {
    assert [] + ReadBits(p, start, n).0 == ReadBits(p, start, n).0;
  }

  /** An alpha byte is skipped without reading. */
  lemma ReadSplitSkip(p: seq<byte>, start: nat, n: nat, read: seq<bit>, ptr: nat)
    requires ReadSplit(p, start, n, read, ptr)
    requires ptr < |p| && |read| < n && IsAlpha(ptr)
    ensures ReadSplit(p, start, n, read, ptr + 1)
  {
    ReadBitsStep(p, ptr, n - |read|);
  }

  /** A colour byte contributes its LSB. */
  lemma ReadSplitBit(p: seq<byte>, start: nat, n: nat, read: seq<bit>, ptr: nat)
    requires ReadSplit(p, start, n, read, ptr)
    requires ptr < |p| && |read| < n && !IsAlpha(ptr)
    ensures ReadSplit(p, start, n, read + [Lsb(p[ptr])], ptr + 1)
  {
    ReadBitsStep(p, ptr, n - |read|);
    assert read + ([Lsb(p[ptr])] + ReadBits(p, ptr + 1, n - |read| - 1).0)
        == (read + [Lsb(p[ptr])]) + ReadBits(p, ptr + 1, n - |read| - 1).0;
  }

  /** Once all bits are read or the buffer is exhausted, the read is complete. */
  lemma ReadSplitDone(p: seq<byte>, start: nat, n: nat, read: seq<bit>, ptr: nat)
    requires ReadSplit(p, start, n, read, ptr)
    requires ptr >= |p| || |read| == n
    ensures ReadBits(p, start, n) == (read, ptr)
  {
    assert read + [] == read;
  }

  /** Or-ing the bit read into the result array, as `getBytes` does. */
  lemma OrBitIntoResult(x: byte, read: seq<bit>, count: nat)
    requires |read| < 8 * count
    ensures Pack(read + [Lsb(x)], count)
            == Pack(read, count)[|read| / 8 := Pack(read, count)[|read| / 8] | ((x & 1) << (7 - |read| % 8))]
  {
    PackSnoc(read, Lsb(x), count);
    assert Lsb(x) as byte == x & 1;
    ShiftLeftBit(Lsb(x), |read| % 8);
  }

  /** A read that stops at once reads nothing. */
  lemma ReadsStreamEnd(p: seq<byte>, ptr: nat, n: nat)
    requires ptr <= |p| && (n == 0 || ptr == |p|)
    ensures ReadsStream(p, ptr, n, [], ptr)
  {
    ColourBeforeMonotone(ptr, |p|);
  }

  /** Skipping an alpha byte does not move along the stream. */
  lemma ReadsStreamSkip(p: seq<byte>, ptr: nat, n: nat, bits: seq<bit>, q: nat)
    requires ptr < |p| && IsAlpha(ptr)
    requires ReadsStream(p, ptr + 1, n, bits, q)
    ensures ReadsStream(p, ptr, n, bits, q)
  {
    ColourBeforeStep(ptr);
  }

  /** Reading a colour byte takes the next bit of the stream. */
  lemma ReadsStreamTake(p: seq<byte>, ptr: nat, n: nat, rest: seq<bit>, q: nat)
    requires ptr < |p| && !IsAlpha(ptr) && 0 < n
    requires ReadsStream(p, ptr + 1, n - 1, rest, q)
    ensures ReadsStream(p, ptr, n, [Lsb(p[ptr])] + rest, q)
  {
    ColourBeforeStep(ptr);
    StreamAt(p, ptr);
    var s := Stream(p);
    var t := ColourBefore(ptr);
    var u := ColourBefore(q);
    assert rest == s[t + 1 .. u];
    assert [s[t]] + s[t + 1 .. u] == s[t .. u];
  }

  /** Reading n bits from ptr reads the stream of p from the colour byte at ptr on. */
  lemma {:induction false} ReadBitsReadsStream(p: seq<byte>, ptr: nat, n: nat)
    requires ptr <= |p|
    ensures ReadsStream(p, ptr, n, ReadBits(p, ptr, n).0, ReadBits(p, ptr, n).1)
    decreases |p| - ptr
  {
    if n == 0 || ptr >= |p| {
      ReadsStreamEnd(p, ptr, n);
    } else if IsAlpha(ptr) {
      ReadBitsReadsStream(p, ptr + 1, n);
      ReadsStreamSkip(p, ptr, n, ReadBits(p, ptr + 1, n).0, ReadBits(p, ptr + 1, n).1);
    } else {
      ReadBitsReadsStream(p, ptr + 1, n - 1);
      ReadsStreamTake(p, ptr, n, ReadBits(p, ptr + 1, n - 1).0, ReadBits(p, ptr + 1, n - 1).1);
    }
  }

  /** Reading n + m bits is reading n bits and then m more from where the first read stopped. */
  lemma {:induction false} ReadBitsConsecutive(p: seq<byte>, ptr: nat, n: nat, m: nat)
    ensures ReadBits(p, ptr, n + m).0
            == ReadBits(p, ptr, n).0 + ReadBits(p, ReadBits(p, ptr, n).1, m).0
    ensures ReadBits(p, ptr, n + m).1 == ReadBits(p, ReadBits(p, ptr, n).1, m).1
    decreases |p| - ptr
  {
    if n == 0 || ptr >= |p| {
    } else if IsAlpha(ptr) {
      ReadBitsConsecutive(p, ptr + 1, n, m);
    } else {
      ReadBitsConsecutive(p, ptr + 1, n - 1, m);
      assert n + m - 1 == (n - 1) + m;
    }
  }

  /** Bit k of the read bits, or 0 where fewer than k + 1 bits were read. */
  function BitAt(bits: seq<bit>, k: nat): bit
  {
    if k < |bits| then bits[k] else 0
  }

  /** Byte j built from bits 8 * j .. 8 * j + 7, most significant first, 0 for bits not read. */
  function PackedByte(bits: seq<bit>, j: nat): byte
  {
    PackByte(BitAt(bits, 8 * j), BitAt(bits, 8 * j + 1), BitAt(bits, 8 * j + 2), BitAt(bits, 8 * j + 3),
             BitAt(bits, 8 * j + 4), BitAt(bits, 8 * j + 5), BitAt(bits, 8 * j + 6), BitAt(bits, 8 * j + 7))
  }

  /** `count` bytes built from bits most-significant-first, zero where bits ran out (the zero-filled `Uint8Array(count)`). */
  function Pack(bits: seq<bit>, count: nat): (r: seq<byte>)
    ensures |r| == count
  {
    seq(count, j requires 0 <= j < count => PackedByte(bits, j))
  }

  /** `new Uint8Array(count)` is zero-filled: the packing of no bits. */
  lemma PackNothing(count: nat)
    ensures Pack([], count) == seq(count, _ => 0)
  {
  }

  /** Appending a bit sets its place in the byte it belongs to. */
  lemma PackedByteSnoc(bits: seq<bit>, b: bit)
    ensures PackedByte(bits + [b], |bits| / 8) == PackedByte(bits, |bits| / 8) | (if b == 1 then Mask(|bits| % 8) else 0)
  {
    var k := |bits|;
    var j := k / 8;
    var m := k % 8;
    var bits' := bits + [b];
    forall i: nat | i != k
      ensures BitAt(bits', i) == BitAt(bits, i)
    {
    }
    assert BitAt(bits', k) == b && BitAt(bits, k) == 0;
    assert k == 8 * j + m;
    PackByteSetBit(BitAt(bits, 8 * j), BitAt(bits, 8 * j + 1), BitAt(bits, 8 * j + 2), BitAt(bits, 8 * j + 3),
                   BitAt(bits, 8 * j + 4), BitAt(bits, 8 * j + 5), BitAt(bits, 8 * j + 6), BitAt(bits, 8 * j + 7),
                   BitAt(bits', 8 * j), BitAt(bits', 8 * j + 1), BitAt(bits', 8 * j + 2), BitAt(bits', 8 * j + 3),
                   BitAt(bits', 8 * j + 4), BitAt(bits', 8 * j + 5), BitAt(bits', 8 * j + 6), BitAt(bits', 8 * j + 7),
                   m, b);
  }

  /** Appending a bit leaves every other byte alone. */
  lemma PackedByteOther(bits: seq<bit>, b: bit, i: nat)
    requires i != |bits| / 8
    ensures PackedByte(bits + [b], i) == PackedByte(bits, i)
  {
    var k := |bits|;
    assert 8 * i + 7 < k || k < 8 * i;
    forall t: nat | t != k
      ensures BitAt(bits + [b], t) == BitAt(bits, t)
    {
    }
  }

  /**
   * Setting bit k % 8 of byte k / 8 to b, with k the number of bits read so far,
   * turns the packing of the bits read into the packing of those bits and b.
   */
  lemma PackSnoc(bits: seq<bit>, b: bit, count: nat)
    requires |bits| < 8 * count
    ensures Pack(bits + [b], count)
            == Pack(bits, count)[|bits| / 8 := Pack(bits, count)[|bits| / 8] | (if b == 1 then Mask(|bits| % 8) else 0)]
  {
    var j := |bits| / 8;
    var before := Pack(bits, count);
    var after := Pack(bits + [b], count);
    PackedByteSnoc(bits, b);
    forall i | 0 <= i < count && i != j
      ensures after[i] == before[i]
    {
      PackedByteOther(bits, b, i);
    }
  }

  /** The byte j of a packing is x when the eight bits read for it are the bits of x. */
  lemma PackByteAt(bits: seq<bit>, count: nat, j: nat, x: byte)
    requires j < count
    requires BitAt(bits, 8 * j) == BitOf(x, 0) && BitAt(bits, 8 * j + 1) == BitOf(x, 1)
    requires BitAt(bits, 8 * j + 2) == BitOf(x, 2) && BitAt(bits, 8 * j + 3) == BitOf(x, 3)
    requires BitAt(bits, 8 * j + 4) == BitOf(x, 4) && BitAt(bits, 8 * j + 5) == BitOf(x, 5)
    requires BitAt(bits, 8 * j + 6) == BitOf(x, 6) && BitAt(bits, 8 * j + 7) == BitOf(x, 7)
    ensures Pack(bits, count)[j] == x
  {
    PackByteOfBits(x);
  }

  lemma SliceBit(c: seq<byte>, a: nat, n: nat, j: nat, m: nat)
    requires a + n <= |c| && j < n && m < 8
    ensures BitAt(Bits(c)[8 * a .. 8 * (a + n)], 8 * j + m) == BitOf(c[a + j], m)
  {
    var k := 8 * (a + j) + m;
    assert k / 8 == a + j && k % 8 == m;
    assert Bits(c)[8 * a .. 8 * (a + n)][8 * j + m] == Bits(c)[k];
  }

  /** Byte j of the packing of the bits of container bytes a .. a + n is container byte a + j. */
  lemma PackContainerByte(c: seq<byte>, a: nat, n: nat, j: nat)
    requires a + n <= |c| && j < n
    ensures Pack(Bits(c)[8 * a .. 8 * (a + n)], n)[j] == c[a + j]
  {
    var bits := Bits(c)[8 * a .. 8 * (a + n)];
    SliceBit(c, a, n, j, 0);
    assert BitAt(bits, 8 * j) == BitOf(c[a + j], 0);
    SliceBit(c, a, n, j, 1); SliceBit(c, a, n, j, 2); SliceBit(c, a, n, j, 3);
    SliceBit(c, a, n, j, 4); SliceBit(c, a, n, j, 5); SliceBit(c, a, n, j, 6); SliceBit(c, a, n, j, 7);
    PackByteAt(bits, n, j, c[a + j]);
  }

  /** Packing the bits of the container bytes a .. a + n gives those bytes back. */
  lemma PackContainerBits(c: seq<byte>, a: nat, n: nat)
    requires a + n <= |c|
    ensures Pack(Bits(c)[8 * a .. 8 * (a + n)], n) == c[a .. a + n]
  {
    var bytes := c[a .. a + n];
    forall j | 0 <= j < n
      ensures Pack(Bits(c)[8 * a .. 8 * (a + n)], n)[j] == bytes[j]
    {
      PackContainerByte(c, a, n, j);
    }
  }

  /** What one call `getBytes(count)` returns and where it leaves the pointer. */
  function GetBytesSpec(p: seq<byte>, ptr: nat, count: nat): (seq<byte>, nat)
  {
    var (bits, q) := ReadBits(p, ptr, 8 * count);
    (Pack(bits, count), q)
  }

  /** `getBytes` always returns exactly `count` bytes, even when the buffer runs out (zero padding). */
  lemma GetBytesLength(p: seq<byte>, ptr: nat, count: nat)
    ensures |GetBytesSpec(p, ptr, count).0| == count
  {
  }

  /**
   * A short read does not fail: when the buffer has fewer colour bytes left
   * than bits were asked for, the bytes past the bits read are zero and the
   * pointer stops at the end of the buffer.
   */
  lemma GetBytesPadsWithZeros(p: seq<byte>, ptr: nat, count: nat, j: nat)
    requires ptr <= |p| && j < count
    requires Capacity(|p|) - ColourBefore(ptr) <= 8 * j
    ensures GetBytesSpec(p, ptr, count).0[j] == 0
    ensures Capacity(|p|) - ColourBefore(ptr) < 8 * count ==> GetBytesSpec(p, ptr, count).1 == |p|
  {
    ReadBitsReadsStream(p, ptr, 8 * count);
    var (bits, q) := ReadBits(p, ptr, 8 * count);
    assert |bits| <= 8 * j;
    if Capacity(|p|) - ColourBefore(ptr) < 8 * count && q < |p| {
      ReadBitsStopsEarly(p, ptr, 8 * count);
    }
  }

  /** A read that returns fewer bits than asked for has run into the end of the buffer. */
  lemma {:induction false} ReadBitsStopsEarly(p: seq<byte>, ptr: nat, n: nat)
    requires ptr <= |p| && |ReadBits(p, ptr, n).0| < n
    ensures ReadBits(p, ptr, n).1 == |p|
    decreases |p| - ptr
  {
    if n == 0 || ptr >= |p| {
    } else if IsAlpha(ptr) {
      ReadBitsStopsEarly(p, ptr + 1, n);
    } else {
      ReadBitsStopsEarly(p, ptr + 1, n - 1);
    }
  }

  /**
   * Two consecutive `getBytes` calls read consecutive bit ranges: the pointer the
   * first leaves behind is where the second starts, and together they read what
   * one read of both lengths would.
   */
  lemma GetBytesConsecutive(p: seq<byte>, ptr: nat, n: nat, m: nat)
    ensures ReadBits(p, ptr, 8 * (n + m)).0
            == ReadBits(p, ptr, 8 * n).0 + ReadBits(p, GetBytesSpec(p, ptr, n).1, 8 * m).0
    ensures ReadBits(p, ptr, 8 * (n + m)).1 == GetBytesSpec(p, GetBytesSpec(p, ptr, n).1, m).1
  {
    ReadBitsConsecutive(p, ptr, 8 * n, 8 * m);
  }

  /**
   * On a buffer written with container c that fits, `getBytes(n)` started at the
   * colour byte of bit 8 * a returns container bytes a .. a + n and stops at the
   * colour byte of bit 8 * (a + n).
   */
  lemma ReadEmbedded(p: seq<byte>, c: seq<byte>, ptr: nat, a: nat, n: nat)
    requires 8 * |c| <= Capacity(|p|)
    requires ptr <= |p| && ColourBefore(ptr) == 8 * a && a + n <= |c|
    ensures GetBytesSpec(Embedded(p, c), ptr, n).0 == c[a .. a + n]
    ensures GetBytesSpec(Embedded(p, c), ptr, n).1 <= |p|
    ensures ColourBefore(GetBytesSpec(Embedded(p, c), ptr, n).1) == 8 * (a + n)
  {
    var e := Embedded(p, c);
    ReadBitsReadsStream(e, ptr, 8 * n);
    var (bits, q) := ReadBits(e, ptr, 8 * n);
    assert |bits| == 8 * n;
    forall k | 0 <= k < 8 * n
      ensures bits[k] == Bits(c)[8 * a .. 8 * (a + n)][k]
    {
      EmbeddedStream(p, c, 8 * a + k);
    }
    assert bits == Bits(c)[8 * a .. 8 * (a + n)];
    PackContainerBits(c, a, n);
  }

  /**
   * The `getBytes` closure of `extractDataFromImage` with its captured
   * `pixelPointer`: each call continues where the previous one stopped.
   */
  class PixelReader {
    const pixels: array<byte>
    var pointer: nat

    ghost predicate Valid()
      reads this
    {
      pointer <= pixels.Length
    }

    constructor (pixels: array<byte>)
      ensures this.pixels == pixels && pointer == 0 && Valid()
    {
      this.pixels := pixels;
      pointer := 0;
    }

    /** `getBytes(count)`. */
    method GetBytes(count: nat) returns (r: seq<byte>)
      requires Valid()
      modifies this
      ensures Valid()
      ensures (r, pointer) == GetBytesSpec(pixels[..], old(pointer), count)
    {
      ghost var p := pixels[..];
      ghost var start := pointer;
      ghost var read: seq<bit> := [];
      var result := new byte[count](_ => 0);
      var bitCount := 0;
      var totalBitsNeeded := count * 8;
      ReadSplitStart(p, start, totalBitsNeeded);
      assert result[..] == Pack(read, count) by { PackNothing(count); }
      while bitCount < totalBitsNeeded
        invariant pointer <= pixels.Length && bitCount <= totalBitsNeeded
        invariant p == pixels[..]
        invariant |read| == bitCount
        invariant ReadSplit(p, start, totalBitsNeeded, read, pointer)
        invariant result[..] == Pack(read, count)
        decreases totalBitsNeeded - bitCount, pixels.Length - pointer
      {
        if pointer >= pixels.Length {
          break;
        }
        if IsAlpha(pointer) {
          ReadSplitSkip(p, start, totalBitsNeeded, read, pointer);
          pointer := pointer + 1;
          continue;
        }
        ReadSplitBit(p, start, totalBitsNeeded, read, pointer);
        OrBitIntoResult(p[pointer], read, count);
        var b := pixels[pointer] & 1;
        var byteIdx := bitCount / 8;
        var bitPos := 7 - bitCount % 8;
        result[byteIdx] := result[byteIdx] | (b << bitPos);
        read := read + [Lsb(p[pointer])];
        bitCount := bitCount + 1;
        pointer := pointer + 1;
      }
      ReadSplitDone(p, start, totalBitsNeeded, read, pointer);
      r := result[..];
    }
  }
}
