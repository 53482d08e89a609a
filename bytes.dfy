/**
 * Bytes, bits and the two typed-array primitives the codec is built from:
 * `Uint8Array.prototype.set` and `DataView.prototype.setUint32` (big-endian)
 * with its reader `getUint32`.
 */
module Bytes {

  type byte = bv8
  type bit = bv1

  /** The byte with only bit m set, counting from the most significant bit (m == 0) down to the least (m == 7). */
  function Mask(m: nat): byte
    requires m < 8
  {
    if m == 0 then 0x80 else if m == 1 then 0x40 else if m == 2 then 0x20 else if m == 3 then 0x10
    else if m == 4 then 0x08 else if m == 5 then 0x04 else if m == 6 then 0x02 else 0x01
  }

  /** Bit m of b, counting from the most significant bit (m == 0) down to the least (m == 7). */
  function BitOf(b: byte, m: nat): bit
    requires m < 8
  {
    if b & Mask(m) == 0 then 0 else 1
  }

  /** `(b >> (7 - m)) & 1`, the writer's way of taking bit m, is BitOf(b, m). */
  lemma ShiftRightBit(b: byte, m: nat)
    requires m < 8
    ensures ((b >> (7 - m)) & 1) as bit == BitOf(b, m)
  {
    if m == 0 {
    } else if m == 1 {
    } else if m == 2 {
    } else if m == 3 {
    } else if m == 4 {
    } else if m == 5 {
    } else if m == 6 {
    } else {
    }
  }

  /** `b << (7 - m)`, the reader's way of placing a bit, sets bit m exactly when b is 1. */
  lemma ShiftLeftBit(b: bit, m: nat)
    requires m < 8
    ensures (b as byte) << (7 - m) == if b == 1 then Mask(m) else 0
  {
    if m == 0 {
    } else if m == 1 {
    } else if m == 2 {
    } else if m == 3 {
    } else if m == 4 {
    } else if m == 5 {
    } else if m == 6 {
    } else {
    }
  }

  /** The byte whose bits, most significant first, are b0 .. b7. */
  function PackByte(b0: bit, b1: bit, b2: bit, b3: bit, b4: bit, b5: bit, b6: bit, b7: bit): byte
  {
    (b0 as byte << 7) | (b1 as byte << 6) | (b2 as byte << 5) | (b3 as byte << 4)
    | (b4 as byte << 3) | (b5 as byte << 2) | (b6 as byte << 1) | b7 as byte
  }

  /** Splitting a byte into its bits most-significant-first and packing them again gives the byte back. */
  lemma PackByteOfBits(b: byte)
    ensures PackByte(BitOf(b, 0), BitOf(b, 1), BitOf(b, 2), BitOf(b, 3),
                     BitOf(b, 4), BitOf(b, 5), BitOf(b, 6), BitOf(b, 7)) == b
  {
  }

  /**
   * Setting bit m of a packed byte whose bit m is 0: the byte packed from
   * c0 .. c7, which agree with b0 .. b7 except that bit m is b, is the old byte
   * with the mask of bit m or-ed in when b is 1. The bits are separate
   * parameters, with one case per position, rather than a `seq<bit>`: indexing
   * a sequence of bits inside bit-vector reasoning costs the solver far more.
   */
  lemma PackByteSetBit(b0: bit, b1: bit, b2: bit, b3: bit, b4: bit, b5: bit, b6: bit, b7: bit,
                       c0: bit, c1: bit, c2: bit, c3: bit, c4: bit, c5: bit, c6: bit, c7: bit, m: nat, b: bit)
    requires m < 8
    requires if m == 0 then b0 == 0 && c0 == b else c0 == b0
    requires if m == 1 then b1 == 0 && c1 == b else c1 == b1
    requires if m == 2 then b2 == 0 && c2 == b else c2 == b2
    requires if m == 3 then b3 == 0 && c3 == b else c3 == b3
    requires if m == 4 then b4 == 0 && c4 == b else c4 == b4
    requires if m == 5 then b5 == 0 && c5 == b else c5 == b5
    requires if m == 6 then b6 == 0 && c6 == b else c6 == b6
    requires if m == 7 then b7 == 0 && c7 == b else c7 == b7
    ensures PackByte(c0, c1, c2, c3, c4, c5, c6, c7)
            == PackByte(b0, b1, b2, b3, b4, b5, b6, b7) | (if b == 1 then Mask(m) else 0)
  {
    if m == 0 {
    } else if m == 1 {
    } else if m == 2 {
    } else if m == 3 {
    } else if m == 4 {
    } else if m == 5 {
    } else if m == 6 {
    } else {
    }
  }

  /*
   * Proof helpers with no counterpart in the source: CountUp, CountUpValue,
   * ByteOfInt and ByteAsInt only establish `(x as byte) as int == x`, which the
   * solver does not find unaided in larger proofs.
   */

  /** The byte reached by counting up from 0 d times. */
  ghost function CountUp(d: nat): byte
    requires d < 0x100
  {
    if d == 0 then 0 else CountUp(d - 1) + 1
  }

  lemma {:induction false} CountUpValue(d: nat)
    requires d < 0x100
    ensures CountUp(d) as int == d
  {
    if d > 0 {
      CountUpValue(d - 1);
    }
  }

  lemma ByteOfInt(x: int, b: byte)
    requires 0 <= x < 0x100 && b as int == x
    ensures x as byte == b
  {
  }

  lemma ByteAsInt(x: int)
    requires 0 <= x < 0x100
    ensures (x as byte) as int == x
  {
    CountUpValue(x);
    ByteOfInt(x, CountUp(x));
  }

  /** The four bytes `DataView.setUint32(offset, n)` stores: n reduced modulo 2^32, big-endian. */
  function U32BE(n: nat): (r: seq<byte>)
    ensures |r| == 4
  {
    var v := n % 0x1_0000_0000;
    [(v / 0x100_0000) as byte, (v / 0x1_0000 % 0x100) as byte, (v / 0x100 % 0x100) as byte, (v % 0x100) as byte]
  }

  /** The value `DataView.getUint32(0)` reads from four bytes (big-endian). */
  function U32Value(b: seq<byte>): (n: nat)
    requires |b| == 4
    ensures n < 0x1_0000_0000
  {
    b[0] as int * 0x100_0000 + b[1] as int * 0x1_0000 + b[2] as int * 0x100 + b[3] as int
  }

  lemma BigEndianDigits(v: int)
    requires 0 <= v < 0x1_0000_0000
    ensures (v / 0x100_0000) * 0x100_0000 + (v / 0x1_0000 % 0x100) * 0x1_0000
            + (v / 0x100 % 0x100) * 0x100 + v % 0x100 == v
  {
    var a := v / 0x100;
    var b := a / 0x100;
    var c := b / 0x100;
    assert v == a * 0x100 + v % 0x100;
    assert a == b * 0x100 + a % 0x100;
    assert b == c * 0x100 + b % 0x100;
    assert b == v / 0x1_0000;
    assert c == v / 0x100_0000;
  }

  /** Reading back a stored uint32 yields the stored length modulo 2^32. */
  lemma U32RoundTrip(n: nat)
    ensures U32Value(U32BE(n)) == n % 0x1_0000_0000
  {
    var v := n % 0x1_0000_0000;
    var d0, d1, d2, d3 := v / 0x100_0000, v / 0x1_0000 % 0x100, v / 0x100 % 0x100, v % 0x100;
    ByteAsInt(d0); ByteAsInt(d1); ByteAsInt(d2); ByteAsInt(d3);
    var b := U32BE(n);
    assert b[0] as int == d0 && b[1] as int == d1 && b[2] as int == d2 && b[3] as int == d3;
    BigEndianDigits(v);
  }

  /** A length below 2^32 is stored and read back unchanged. */
  lemma U32Exact(n: nat)
    requires n < 0x1_0000_0000
    ensures U32Value(U32BE(n)) == n
  {
    var m := n % 0x1_0000_0000;
    assert m == n;
    U32RoundTrip(n);
  }

  /** `buf.set(src, offset)`: copies src into buf starting at offset and leaves the rest alone. */
  method Set(buf: array<byte>, src: seq<byte>, offset: nat)
    requires offset + |src| <= buf.Length
    modifies buf
    ensures buf[..] == old(buf[..offset]) + src + old(buf[offset + |src|..])
    ensures buf[..offset + |src|] == old(buf[..offset]) + src
  {
    forall k | 0 <= k < |src| {
      buf[offset + k] := src[k];
    }
    assert buf[..] == old(buf[..offset]) + src + old(buf[offset + |src|..]);
  }

  /** `new DataView(buf.buffer).setUint32(offset, n)`: big-endian, n taken modulo 2^32. */
  method SetUint32(buf: array<byte>, offset: nat, n: nat)
    requires offset + 4 <= buf.Length
    modifies buf
    ensures buf[..] == old(buf[..offset]) + U32BE(n) + old(buf[offset + 4..])
    ensures buf[..offset + 4] == old(buf[..offset]) + U32BE(n)
  {
    Set(buf, U32BE(n), offset);
  }
}
