/**
 * zlib's CRC-32 (the 32-bit frame check sequence of ITU-T V.42 section
 * 8.1.1.6.2): reflected polynomial 0xEDB88320, register preset to all ones,
 * final complement. Computed bit by bit over the message.
 */
module Crc32 {
  import opened Digits
  import opened BitCodec

  const Poly: bv32 := 0xEDB8_8320

  /** One shift of the reflected register. */
  function Round(c: bv32): bv32 {
    if c & 1 == 1 then (c >> 1) ^ Poly else c >> 1
  }

  function Rounds(c: bv32, n: nat): bv32
    decreases n
  {
    if n == 0 then c else Rounds(Round(c), n - 1)
  }

  /** The byte as a 32-bit register value, assembled from its bits. */
  function ByteBv(b: Byte): bv32 {
    var bits := ByteToBits(b);
    Flags(bits[0] == 1, bits[1] == 1, bits[2] == 1, bits[3] == 1,
          bits[4] == 1, bits[5] == 1, bits[6] == 1, bits[7] == 1)
  }

  /** The register value with bit 7 - i set exactly when flag i holds. */
  function Flags(f0: bool, f1: bool, f2: bool, f3: bool, f4: bool, f5: bool, f6: bool, f7: bool): bv32 {
    (if f0 then 0x80 else 0) | (if f1 then 0x40 else 0)
    | (if f2 then 0x20 else 0) | (if f3 then 0x10 else 0)
    | (if f4 then 0x08 else 0) | (if f5 then 0x04 else 0)
    | (if f6 then 0x02 else 0) | (if f7 then 0x01 else 0)
  }

  /** The low 8 bits of a register value, most significant first. */
  function LowBits(v: bv32): (bits: seq<Bit>)
    ensures |bits| == 8
  {
    [if v & 0x80 == 0 then 0 else 1, if v & 0x40 == 0 then 0 else 1,
     if v & 0x20 == 0 then 0 else 1, if v & 0x10 == 0 then 0 else 1,
     if v & 0x08 == 0 then 0 else 1, if v & 0x04 == 0 then 0 else 1,
     if v & 0x02 == 0 then 0 else 1, if v & 0x01 == 0 then 0 else 1]
  }

  /** The four bytes of a register value, most significant first. */
  function RegisterBytes(v: bv32): (bs: seq<Byte>)
    ensures |bs| == 4
  {
    [BitsToByte(LowBits(v >> 24)), BitsToByte(LowBits(v >> 16)),
     BitsToByte(LowBits(v >> 8)), BitsToByte(LowBits(v))]
  }

  /** Feeding one message byte into the register. */
  function Step(c: bv32, b: Byte): bv32 {
    Rounds(c ^ ByteBv(b), 8)
  }

  function Update(c: bv32, data: seq<Byte>): bv32
    decreases |data|
  {
    if |data| == 0 then c else Update(Step(c, data[0]), data[1..])
  }

  /** The final register of the CRC of `data`. */
  function Register(data: seq<Byte>): bv32 {
    Update(0xFFFF_FFFF, data) ^ 0xFFFF_FFFF
  }

  /** `zlib.crc32(data) & 0xFFFFFFFF` as an unsigned number. */
  function Crc(data: seq<Byte>): (r: nat)
    ensures r < 0x1_0000_0000
  {
    FromDigitsBound(RegisterBytes(Register(data)), 256);
    FromDigits(RegisterBytes(Register(data)), 256)
  }

  lemma RoundInjective(x: bv32, y: bv32)
    requires Round(x) == Round(y)
    ensures x == y
  {
  }

  lemma {:induction false} RoundsInjective(x: bv32, y: bv32, n: nat)
    requires Rounds(x, n) == Rounds(y, n)
    ensures x == y
    decreases n
  {
    if n > 0 {
      RoundsInjective(Round(x), Round(y), n - 1);
      RoundInjective(x, y);
    }
  }

  lemma ByteBvInjective(a: Byte, b: Byte)
    requires ByteBv(a) == ByteBv(b)
    ensures a == b
  {
    BitFlagsInjective(ByteToBits(a), ByteToBits(b));
    ByteBitsRoundTrip(a);
    ByteBitsRoundTrip(b);
  }

  /** Two 8-bit groups with the same register value are the same bits. */
  lemma BitFlagsInjective(x: seq<Bit>, y: seq<Bit>)
    requires |x| == |y| == 8
    requires Flags(x[0] == 1, x[1] == 1, x[2] == 1, x[3] == 1, x[4] == 1, x[5] == 1, x[6] == 1, x[7] == 1)
      == Flags(y[0] == 1, y[1] == 1, y[2] == 1, y[3] == 1, y[4] == 1, y[5] == 1, y[6] == 1, y[7] == 1)
    ensures x == y
  {
    FlagsInjective(x[0] == 1, x[1] == 1, x[2] == 1, x[3] == 1, x[4] == 1, x[5] == 1, x[6] == 1, x[7] == 1,
                   y[0] == 1, y[1] == 1, y[2] == 1, y[3] == 1, y[4] == 1, y[5] == 1, y[6] == 1, y[7] == 1);
    assert forall j :: 0 <= j < 8 ==> x[j] == y[j];
  }

  /** Distinct flag patterns give distinct register values. */
  lemma FlagsInjective(f0: bool, f1: bool, f2: bool, f3: bool, f4: bool, f5: bool, f6: bool, f7: bool,
                       g0: bool, g1: bool, g2: bool, g3: bool, g4: bool, g5: bool, g6: bool, g7: bool)
    requires Flags(f0, f1, f2, f3, f4, f5, f6, f7) == Flags(g0, g1, g2, g3, g4, g5, g6, g7)
    ensures f0 == g0 && f1 == g1 && f2 == g2 && f3 == g3 && f4 == g4 && f5 == g5 && f6 == g6 && f7 == g7
  {
  }

  lemma XorCancel(c: bv32, x: bv32, y: bv32)
    requires c ^ x == c ^ y
    ensures x == y
  {
  }

  /** Different bytes fed into the same register give different registers. */
  lemma StepInjectiveByte(c: bv32, a: Byte, b: Byte)
    requires a != b
    ensures Step(c, a) != Step(c, b)
  {
    var x, y := ByteBv(a), ByteBv(b);
    if Step(c, a) == Step(c, b) {
      RoundsInjective(c ^ x, c ^ y, 8);
      XorCancel(c, x, y);
      ByteBvInjective(a, b);
    }
  }

  /** The same byte fed into different registers gives different registers. */
  lemma StepInjectiveRegister(c: bv32, d: bv32, b: Byte)
    requires c != d
    ensures Step(c, b) != Step(d, b)
  {
    if Step(c, b) == Step(d, b) {
      RoundsInjective(c ^ ByteBv(b), d ^ ByteBv(b), 8);
    }
  }

  lemma {:induction false} UpdateAppend(c: bv32, a: seq<Byte>, b: seq<Byte>)
    ensures Update(c, a + b) == Update(Update(c, a), b)
    decreases |a|
  {
    if |a| == 0 {
      assert a + b == b;
    } else {
      assert (a + b)[1..] == a[1..] + b;
      UpdateAppend(Step(c, a[0]), a[1..], b);
    }
  }

  lemma {:induction false} UpdateInjectiveRegister(c: bv32, d: bv32, data: seq<Byte>)
    requires c != d
    ensures Update(c, data) != Update(d, data)
    decreases |data|
  {
    if |data| > 0 {
      StepInjectiveRegister(c, d, data[0]);
      UpdateInjectiveRegister(Step(c, data[0]), Step(d, data[0]), data[1..]);
    }
  }

  lemma RegisterBytesInjective(v: bv32, w: bv32)
    requires RegisterBytes(v) == RegisterBytes(w)
    ensures v == w
  {
    BitsByteRoundTrip(LowBits(v >> 24));
    BitsByteRoundTrip(LowBits(w >> 24));
    BitsByteRoundTrip(LowBits(v >> 16));
    BitsByteRoundTrip(LowBits(w >> 16));
    BitsByteRoundTrip(LowBits(v >> 8));
    BitsByteRoundTrip(LowBits(w >> 8));
    BitsByteRoundTrip(LowBits(v));
    BitsByteRoundTrip(LowBits(w));
    assert LowBits(v >> 24) == LowBits(w >> 24);
    assert LowBits(v >> 16) == LowBits(w >> 16);
    assert LowBits(v >> 8) == LowBits(w >> 8);
    assert LowBits(v) == LowBits(w);
  }

  /** Distinct final registers have distinct unsigned values. */
  lemma CrcValueInjective(v: bv32, w: bv32)
    requires FromDigits(RegisterBytes(v), 256) == FromDigits(RegisterBytes(w), 256)
    ensures v == w
  {
    var x, y := RegisterBytes(v), RegisterBytes(w);
    assert AllBelow(x, 256) && AllBelow(y, 256);
    FromDigitsInjective(x, y, 256);
    RegisterBytesInjective(v, w);
  }

  /**
   * Changing any single byte of the message changes its CRC-32, so a
   * packet whose payload was corrupted in one byte fails the check.
   */
  lemma SingleByteChangeDetected(data: seq<Byte>, i: nat, v: Byte)
    requires i < |data| && v != data[i]
    ensures Crc(data[i := v]) != Crc(data)
  {
    var pre, post := data[..i], data[i + 1..];
    assert data == pre + ([data[i]] + post);
    assert data[i := v] == pre + ([v] + post);
    var s := Update(0xFFFF_FFFF, pre);
    UpdateAppend(0xFFFF_FFFF, pre, [data[i]] + post);
    UpdateAppend(0xFFFF_FFFF, pre, [v] + post);
    assert ([data[i]] + post)[1..] == post;
    assert ([v] + post)[1..] == post;
    StepInjectiveByte(s, data[i], v);
    UpdateInjectiveRegister(Step(s, data[i]), Step(s, v), post);
    var r1, r2 := Register(data), Register(data[i := v]);
    assert r1 != r2;
    if Crc(data[i := v]) == Crc(data) {
      CrcValueInjective(r1, r2);
    }
  }

  lemma CheckStep0()
    ensures Step(0xFFFFFFFF, 49) == 0x7C231048
  {
    assert ByteBv(49) == 0x31 by {
      assert ByteToBits(49) == [0, 0, 1, 1, 0, 0, 0, 1];
    }
  }
  lemma CheckStep1()
    ensures Step(0x7C231048, 50) == 0xB0ACBB32
  {
    assert ByteBv(50) == 0x32 by {
      assert ByteToBits(50) == [0, 0, 1, 1, 0, 0, 1, 0];
    }
  }
  lemma CheckStep2()
    ensures Step(0xB0ACBB32, 51) == 0x77B79C2D
  {
    assert ByteBv(51) == 0x33 by {
      assert ByteToBits(51) == [0, 0, 1, 1, 0, 0, 1, 1];
    }
  }
  lemma CheckStep3()
    ensures Step(0x77B79C2D, 52) == 0x641C1F5C
  {
    assert ByteBv(52) == 0x34 by {
      assert ByteToBits(52) == [0, 0, 1, 1, 0, 1, 0, 0];
    }
  }
  lemma CheckStep4()
    ensures Step(0x641C1F5C, 53) == 0x340AC5E3
  {
    assert ByteBv(53) == 0x35 by {
      assert ByteToBits(53) == [0, 0, 1, 1, 0, 1, 0, 1];
    }
  }
  lemma CheckStep5()
    ensures Step(0x340AC5E3, 54) == 0xF68D2C9E
  {
    assert ByteBv(54) == 0x36 by {
      assert ByteToBits(54) == [0, 0, 1, 1, 0, 1, 1, 0];
    }
  }
  lemma CheckStep6()
    ensures Step(0xF68D2C9E, 55) == 0xAFFC9660
  {
    assert ByteBv(55) == 0x37 by {
      assert ByteToBits(55) == [0, 0, 1, 1, 0, 1, 1, 1];
    }
  }
  lemma CheckStep7()
    ensures Step(0xAFFC9660, 56) == 0x651F2550
  {
    assert ByteBv(56) == 0x38 by {
      assert ByteToBits(56) == [0, 0, 1, 1, 1, 0, 0, 0];
    }
  }
  lemma CheckStep8()
    ensures Step(0x651F2550, 57) == 0x340BC6D9
  {
    assert ByteBv(57) == 0x39 by {
      assert ByteToBits(57) == [0, 0, 1, 1, 1, 0, 0, 1];
    }
  }
  lemma UpdateCons(c: bv32, b: Byte, rest: seq<Byte>, mid: bv32, r: bv32)
    requires Step(c, b) == mid && Update(mid, rest) == r
    ensures Update(c, [b] + rest) == r
  {
    assert ([b] + rest)[1..] == rest;
  }

  lemma CheckSuffix8()
    ensures Update(0x651F2550, [57]) == 0x340BC6D9
  {
    CheckStep8();
    assert Update(0x340BC6D9, []) == 0x340BC6D9;
    UpdateCons(0x651F2550, 57, [], 0x340BC6D9, 0x340BC6D9);
  }
  lemma CheckSuffix7()
    ensures Update(0xAFFC9660, [56, 57]) == 0x340BC6D9
  {
    CheckStep7();
    CheckSuffix8();
    UpdateCons(0xAFFC9660, 56, [57], 0x651F2550, 0x340BC6D9);
  }
  lemma CheckSuffix6()
    ensures Update(0xF68D2C9E, [55, 56, 57]) == 0x340BC6D9
  {
    CheckStep6();
    CheckSuffix7();
    UpdateCons(0xF68D2C9E, 55, [56, 57], 0xAFFC9660, 0x340BC6D9);
  }
  lemma CheckSuffix5()
    ensures Update(0x340AC5E3, [54, 55, 56, 57]) == 0x340BC6D9
  {
    CheckStep5();
    CheckSuffix6();
    UpdateCons(0x340AC5E3, 54, [55, 56, 57], 0xF68D2C9E, 0x340BC6D9);
  }
  lemma CheckSuffix4()
    ensures Update(0x641C1F5C, [53, 54, 55, 56, 57]) == 0x340BC6D9
  {
    CheckStep4();
    CheckSuffix5();
    UpdateCons(0x641C1F5C, 53, [54, 55, 56, 57], 0x340AC5E3, 0x340BC6D9);
  }
  lemma CheckSuffix3()
    ensures Update(0x77B79C2D, [52, 53, 54, 55, 56, 57]) == 0x340BC6D9
  {
    CheckStep3();
    CheckSuffix4();
    UpdateCons(0x77B79C2D, 52, [53, 54, 55, 56, 57], 0x641C1F5C, 0x340BC6D9);
  }
  lemma CheckSuffix2()
    ensures Update(0xB0ACBB32, [51, 52, 53, 54, 55, 56, 57]) == 0x340BC6D9
  {
    CheckStep2();
    CheckSuffix3();
    UpdateCons(0xB0ACBB32, 51, [52, 53, 54, 55, 56, 57], 0x77B79C2D, 0x340BC6D9);
  }
  lemma CheckSuffix1()
    ensures Update(0x7C231048, [50, 51, 52, 53, 54, 55, 56, 57]) == 0x340BC6D9
  {
    CheckStep1();
    CheckSuffix2();
    UpdateCons(0x7C231048, 50, [51, 52, 53, 54, 55, 56, 57], 0xB0ACBB32, 0x340BC6D9);
  }
  lemma CheckSuffix0()
    ensures Update(0xFFFFFFFF, [49, 50, 51, 52, 53, 54, 55, 56, 57]) == 0x340BC6D9
  {
    CheckStep0();
    CheckSuffix1();
    UpdateCons(0xFFFFFFFF, 49, [50, 51, 52, 53, 54, 55, 56, 57], 0x7C231048, 0x340BC6D9);
  }

  /** The standard check value: the CRC-32 of the ASCII string "123456789" is 0xCBF43926. */
  lemma CheckValue()
    ensures Register([49, 50, 51, 52, 53, 54, 55, 56, 57]) == 0xCBF4_3926
  {
    CheckSuffix0();
  }
}
