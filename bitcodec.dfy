/**
 * Bits and bytes: MSB-first unpacking of bytes into bits (numpy.unpackbits,
 * format(byte, '08b'), the `(byte >> i) & 1` loops), packing of bits into
 * bytes with truncation of a trailing partial byte (numpy.packbits after
 * slicing, the shift-or loops), and byte XOR / popcount defined through bits.
 */
module BitCodec {
  import opened Digits

  type Bit = b: int | 0 <= b < 2
  type Byte = b: int | 0 <= b < 256

  /** The 8 bits of a byte, most significant first. */
  function ByteToBits(b: Byte): (bits: seq<Bit>)
    ensures |bits| == 8
  {
    ToDigits(b, 8, 2)
  }

  /** The byte whose MSB-first bits are `bits`. */
  function BitsToByte(bits: seq<Bit>): Byte
    requires |bits| == 8
  {
    FromDigitsBound(bits, 2);
    FromDigits(bits, 2)
  }

  lemma ByteBitsRoundTrip(b: Byte)
    ensures BitsToByte(ByteToBits(b)) == b
  {
    FromToDigits(b, 8, 2);
  }

  lemma BitsByteRoundTrip(bits: seq<Bit>)
    requires |bits| == 8
    ensures ByteToBits(BitsToByte(bits)) == bits
  {
    ToFromDigits(bits, 2);
  }

  /** Bit i of ByteToBits(b) is `(b >> (7 - i)) & 1`. */
  lemma ByteToBitsAt(b: Byte, i: nat)
    requires i < 8
    ensures ByteToBits(b)[i] == (b / Pow(2, 7 - i)) % 2
  {
    ToDigitsAt(b, 8, 2, 7 - i);
  }

  /** MSB-first unpacking of a byte string. */
  function BytesToBits(data: seq<Byte>): (bits: seq<Bit>)
    ensures |bits| == 8 * |data|
  {
    if |data| == 0 then [] else ByteToBits(data[0]) + BytesToBits(data[1..])
  }

  /** MSB-first packing; a trailing group of fewer than 8 bits is dropped. */
  function BitsToBytes(bits: seq<Bit>): (data: seq<Byte>)
    ensures |data| == |bits| / 8
  {
    if |bits| < 8 then [] else [BitsToByte(bits[..8])] + BitsToBytes(bits[8..])
  }

  lemma {:induction false} BytesToBitsAppend(a: seq<Byte>, b: seq<Byte>)
    ensures BytesToBits(a + b) == BytesToBits(a) + BytesToBits(b)
  {
    if |a| > 0 {
      assert (a + b)[1..] == a[1..] + b;
      BytesToBitsAppend(a[1..], b);
    } else {
      assert a + b == b;
    }
  }

  /** Bit j of byte i sits at position 8i + j. */
  lemma {:induction false} BytesToBitsAt(data: seq<Byte>, i: nat, j: nat)
    requires i < |data| && j < 8
    ensures BytesToBits(data)[8 * i + j] == ByteToBits(data[i])[j]
  {
    if i > 0 {
      BytesToBitsAt(data[1..], i - 1, j);
    }
  }

  /** Packing the unpacked bits gives back the bytes. */
  lemma {:induction false} BytesBitsRoundTrip(data: seq<Byte>)
    ensures BitsToBytes(BytesToBits(data)) == data
  {
    if |data| > 0 {
      var bits := BytesToBits(data);
      assert bits[..8] == ByteToBits(data[0]);
      assert bits[8..] == BytesToBits(data[1..]);
      ByteBitsRoundTrip(data[0]);
      BytesBitsRoundTrip(data[1..]);
    }
  }

  /** Unpacking the packed bytes gives back every complete group of 8 bits. */
  lemma {:induction false} BitsBytesRoundTrip(bits: seq<Bit>)
    ensures BytesToBits(BitsToBytes(bits)) == bits[..|bits| / 8 * 8]
  {
    if |bits| >= 8 {
      var data := BitsToBytes(bits);
      assert data[0] == BitsToByte(bits[..8]);
      assert data[1..] == BitsToBytes(bits[8..]);
      BitsByteRoundTrip(bits[..8]);
      BitsBytesRoundTrip(bits[8..]);
      assert bits[..|bits| / 8 * 8] == bits[..8] + bits[8..][..|bits[8..]| / 8 * 8];
    }
  }

  /** Packing only looks at the complete groups of 8 bits. */
  lemma {:induction false} BitsToBytesTruncates(bits: seq<Bit>)
    ensures BitsToBytes(bits) == BitsToBytes(bits[..|bits| / 8 * 8])
  {
    if |bits| >= 8 {
      var t := bits[..|bits| / 8 * 8];
      assert t[..8] == bits[..8];
      assert t[8..] == bits[8..][..|bits[8..]| / 8 * 8];
      BitsToBytesTruncates(bits[8..]);
    }
  }

  /** Packed byte k is the k-th group of 8 bits. */
  lemma {:induction false} BitsToBytesAt(bits: seq<Bit>, k: nat)
    requires 8 * k + 8 <= |bits|
    ensures |BitsToBytes(bits)| > k
    ensures BitsToBytes(bits)[k] == BitsToByte(bits[8 * k..8 * k + 8])
  {
    if k > 0 {
      BitsToBytesAt(bits[8..], k - 1);
      assert bits[8..][8 * (k - 1)..8 * (k - 1) + 8] == bits[8 * k..8 * k + 8];
    }
  }

  /** Whole bytes give a bit count divisible by 2 and by 4, so QPSK and 16-QAM need no padding. */
  lemma OctetsDivisible(n: nat)
    ensures (8 * n) % 2 == 0 && (8 * n) % 4 == 0
  {
    var m := 8 * n;
    assert m == (4 * n) * 2 + 0 && m == (2 * n) * 4 + 0;
    DivModOfSum(4 * n, 0, 2);
    DivModOfSum(2 * n, 0, 4);
  }

  /** Bitwise exclusive or of two bit strings of equal length. */
  function XorBits(a: seq<Bit>, b: seq<Bit>): (r: seq<Bit>)
    requires |a| == |b|
    ensures |r| == |a|
    ensures forall i :: 0 <= i < |r| ==> (r[i] == 1 <==> a[i] != b[i])
  {
    seq(|a|, i requires 0 <= i < |a| => if a[i] == b[i] then 0 else 1)
  }

  /** Python's `a ^ b` on two bytes. */
  function XorByte(a: Byte, b: Byte): Byte
  {
    BitsToByte(XorBits(ByteToBits(a), ByteToBits(b)))
  }

  /** The bits of a ^ b are the bitwise exclusive or of the bits of a and b. */
  lemma XorByteBits(a: Byte, b: Byte)
    ensures ByteToBits(XorByte(a, b)) == XorBits(ByteToBits(a), ByteToBits(b))
  {
    BitsByteRoundTrip(XorBits(ByteToBits(a), ByteToBits(b)));
  }

  /** (a ^ k) ^ k == a. */
  lemma XorByteInvolution(a: Byte, k: Byte)
    ensures XorByte(XorByte(a, k), k) == a
  {
    var b := XorByte(a, k);
    assert ByteToBits(XorByte(b, k)) == ByteToBits(a) by {
      XorByteBits(a, k);
      XorByteBits(b, k);
      var bitsA, bitsK := ByteToBits(a), ByteToBits(k);
      var x := XorBits(XorBits(bitsA, bitsK), bitsK);
      assert forall j :: 0 <= j < 8 ==> x[j] == bitsA[j];
    }
    SameBitsSameByte(XorByte(b, k), a);
  }

  /** A byte is determined by its bits. */
  lemma SameBitsSameByte(a: Byte, b: Byte)
    requires ByteToBits(a) == ByteToBits(b)
    ensures a == b
  {
    ByteBitsRoundTrip(a);
    ByteBitsRoundTrip(b);
  }

  /** a ^ k == a exactly when k == 0. */
  lemma XorByteFixed(a: Byte, k: Byte)
    ensures XorByte(a, k) == a <==> k == 0
  {
    if XorByte(a, k) == a {
      XorFixedKey(a, k);
    } else if k == 0 {
      XorZeroKey(a);
    }
  }

  /** The bits of the zero byte. */
  lemma ZeroByteBits()
    ensures ByteToBits(0) == [0, 0, 0, 0, 0, 0, 0, 0]
  {
  }

  /** a ^ 0 == a. */
  lemma XorZeroKey(a: Byte)
    ensures XorByte(a, 0) == a
  {
    assert ByteToBits(XorByte(a, 0)) == ByteToBits(a) by {
      XorByteBits(a, 0);
      ZeroByteBits();
      var bitsA := ByteToBits(a);
      var x := XorBits(bitsA, ByteToBits(0));
      assert forall j :: 0 <= j < 8 ==> x[j] == bitsA[j];
    }
    SameBitsSameByte(XorByte(a, 0), a);
  }

  /** Only the zero key leaves a byte unchanged. */
  lemma XorFixedKey(a: Byte, k: Byte)
    requires XorByte(a, k) == a
    ensures k == 0
  {
    assert ByteToBits(k) == ByteToBits(0) by {
      XorByteBits(a, k);
      ZeroByteBits();
      var bitsA, bitsK := ByteToBits(a), ByteToBits(k);
      assert forall j :: 0 <= j < 8 ==> bitsK[j] == 0 by {
        assert XorBits(bitsA, bitsK) == bitsA;
      }
    }
    SameBitsSameByte(k, 0);
  }

  /** x ^ 0xFF differs from x: flipping all 8 bits changes every byte. */
  lemma XorAllOnesChanges(x: Byte)
    ensures XorByte(x, 0xFF) != x
  {
    XorByteBits(x, 0xFF);
    assert ByteToBits(0xFF) == [1, 1, 1, 1, 1, 1, 1, 1];
    assert ByteToBits(XorByte(x, 0xFF))[0] != ByteToBits(x)[0];
  }

  /** Number of 1 bits. */
  function CountOnes(bits: seq<Bit>): (n: nat)
    ensures n <= |bits|
  {
    if |bits| == 0 then 0 else bits[0] + CountOnes(bits[1..])
  }

  lemma {:induction false} CountOnesZero(bits: seq<Bit>)
    ensures CountOnes(bits) == 0 <==> forall i :: 0 <= i < |bits| ==> bits[i] == 0
  {
    if |bits| > 0 {
      CountOnesZero(bits[1..]);
      assert forall i :: 1 <= i < |bits| ==> bits[i] == bits[1..][i - 1];
    }
  }

  /** `bin(x).count('1')` for a byte. */
  function Popcount(b: Byte): (n: nat)
    ensures n <= 8
  {
    CountOnes(ByteToBits(b))
  }

  /**
   * popcount(a ^ b) is the number of bit positions where a and b differ; it
   * is at most 8 and zero exactly when a == b.
   */
  lemma PopcountXor(a: Byte, b: Byte)
    ensures Popcount(XorByte(a, b)) == CountOnes(XorBits(ByteToBits(a), ByteToBits(b)))
    ensures Popcount(XorByte(a, b)) == 0 <==> a == b
  {
    XorByteBits(a, b);
    var x := XorBits(ByteToBits(a), ByteToBits(b));
    CountOnesZero(x);
    if CountOnes(x) == 0 {
      assert ByteToBits(a) == ByteToBits(b);
      ByteBitsRoundTrip(a);
      ByteBitsRoundTrip(b);
    }
  }
}
