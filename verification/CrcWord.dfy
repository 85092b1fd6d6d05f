/** The register as the `u32` the code computes with, and the published check value of the CRC. */
module CrcWord {
  import opened Bytes
  import opened Crc32

  /** The bit of a `u32` that stands at index `i` of a word. */
  function Mask(i: nat): bv32 {
    if i == 0 then 0x8000_0000 else Mask(i - 1) >> 1
  }

  predicate Has(v: bv32, m: bv32) {
    v & m != 0
  }

  function Doubled(v: bv32): bv32 {
    v << 1
  }

  function Mixed(v: bv32, w: bv32): bv32 {
    v ^ w
  }

  /** The bits of a `u32`, most significant first. */
  function WordOf(v: bv32): Word {
    seq(32, i requires 0 <= i < 32 => Has(v, Mask(i)))
  }

  lemma {:induction false} OneBit(i: nat)
    ensures Mask(i) & (Mask(i) - 1) == 0
  {
    if i > 0 {
      OneBit(i - 1);
    }
  }

  lemma Masks()
    ensures Mask(0) == 0x8000_0000 && Mask(1) == 0x4000_0000 && Mask(2) == 0x2000_0000 && Mask(3) == 0x1000_0000
    ensures Mask(4) == 0x0800_0000 && Mask(5) == 0x0400_0000 && Mask(6) == 0x0200_0000 && Mask(7) == 0x0100_0000
    ensures Mask(8) == 0x0080_0000 && Mask(9) == 0x0040_0000 && Mask(10) == 0x0020_0000 && Mask(11) == 0x0010_0000
    ensures Mask(12) == 0x0008_0000 && Mask(13) == 0x0004_0000 && Mask(14) == 0x0002_0000 && Mask(15) == 0x0001_0000
    ensures Mask(16) == 0x0000_8000 && Mask(17) == 0x0000_4000 && Mask(18) == 0x0000_2000 && Mask(19) == 0x0000_1000
    ensures Mask(20) == 0x0000_0800 && Mask(21) == 0x0000_0400 && Mask(22) == 0x0000_0200 && Mask(23) == 0x0000_0100
    ensures Mask(24) == 0x0000_0080 && Mask(25) == 0x0000_0040 && Mask(26) == 0x0000_0020 && Mask(27) == 0x0000_0010
    ensures Mask(28) == 0x0000_0008 && Mask(29) == 0x0000_0004 && Mask(30) == 0x0000_0002 && Mask(31) == 0x0000_0001
  {
  }

  lemma Constants()
    ensures WordOf(0x04C1_1DB7) == POLYNOMIAL && WordOf(0xFFFF_FFFF) == INITIAL && WordOf(0) == ZERO
  {
    Masks();
    hide Mask;
  }

  // ---- The inner loop ----

  /** One turn of the code's inner loop, with its mask, its shift and its polynomial. */
  function TurnWord(v: bv32): bv32 {
    if v & 0x8000_0000 != 0 then Mixed(Doubled(v), 0x04C1_1DB7) else Doubled(v)
  }

  lemma ShiftBit(v: bv32, m: bv32)
    requires m & (m - 1) == 0
    ensures ((v << 1) & m != 0) == (v & (m >> 1) != 0)
  {
  }

  lemma XorBit(v: bv32, w: bv32, m: bv32)
    requires m & (m - 1) == 0
    ensures ((v ^ w) & m != 0) == ((v & m != 0) != (w & m != 0))
  {
  }

  lemma ShiftAt(v: bv32, i: nat)
    requires i < 32
    ensures Has(Doubled(v), Mask(i)) == (i < 31 && Has(v, Mask(i + 1)))
  {
    OneBit(i);
    ShiftBit(v, Mask(i));
    if i == 31 {
      LastMask();
    } else {
      assert Mask(i + 1) == Mask(i) >> 1;
    }
  }

  lemma LastMask()
    ensures Mask(31) == 1
  {
    Masks();
  }

  lemma ShiftWord(v: bv32)
    ensures WordOf(Doubled(v)) == WordOf(v)[1..] + [false]
  {
    hide Has, Doubled, Mask;
    var a, b := WordOf(Doubled(v)), WordOf(v)[1..] + [false];
    forall i | 0 <= i < 32
      ensures a[i] == b[i]
    {
      ShiftAt(v, i);
    }
  }

  lemma XorWord(v: bv32, w: bv32)
    ensures WordOf(Mixed(v, w)) == Xor(WordOf(v), WordOf(w))
  {
    forall i | 0 <= i < 32
      ensures WordOf(Mixed(v, w))[i] == Xor(WordOf(v), WordOf(w))[i]
    {
      OneBit(i);
      XorBit(v, w, Mask(i));
    }
  }

  /** The register turns as the `u32` does. */
  lemma TurnIsShift(v: bv32)
    ensures Turn(WordOf(v)) == WordOf(TurnWord(v))
  {
    ShiftWord(v);
    XorWord(Doubled(v), 0x04C1_1DB7);
    Constants();
    TopBit(v);
    hide Mask, WordOf, Doubled, Mixed, Xor, POLYNOMIAL, INITIAL;
  }

  lemma TopBit(v: bv32)
    ensures WordOf(v)[0] == (v & 0x8000_0000 != 0)
  {
    assert Mask(0) == 0x8000_0000;
    hide Mask;
  }

  // ---- The outer loop ----

  /** The bits of a byte at the top of a `u32`. */
  function TopByte(b: Byte): bv32 {
    (if BitOf(b, 0) then 0x8000_0000 else 0) | (if BitOf(b, 1) then 0x4000_0000 else 0)
    | (if BitOf(b, 2) then 0x2000_0000 else 0) | (if BitOf(b, 3) then 0x1000_0000 else 0)
    | (if BitOf(b, 4) then 0x0800_0000 else 0) | (if BitOf(b, 5) then 0x0400_0000 else 0)
    | (if BitOf(b, 6) then 0x0200_0000 else 0) | (if BitOf(b, 7) then 0x0100_0000 else 0)
  }

  function TurnsWord(v: bv32, n: nat): bv32 {
    if n == 0 then v else TurnWord(TurnsWord(v, n - 1))
  }

  /** The whole computation on a `u32`, as the code writes it. */
  function CrcU32(data: seq<Byte>): bv32 {
    if data == [] then 0xFFFF_FFFF
    else TurnsWord(Mixed(CrcU32(data[..|data| - 1]), TopByte(data[|data| - 1])), 8)
  }

  lemma {:induction false} TurnsAreShifts(v: bv32, n: nat)
    ensures Turns(WordOf(v), n) == WordOf(TurnsWord(v, n))
  {
    if n > 0 {
      TurnsAreShifts(v, n - 1);
      TurnIsShift(TurnsWord(v, n - 1));
    }
  }

  lemma TopByteHigh(b: Byte)
    ensures Has(TopByte(b), 0x8000_0000) == BitOf(b, 0)
    ensures Has(TopByte(b), 0x4000_0000) == BitOf(b, 1)
    ensures Has(TopByte(b), 0x2000_0000) == BitOf(b, 2)
    ensures Has(TopByte(b), 0x1000_0000) == BitOf(b, 3)
    ensures Has(TopByte(b), 0x0800_0000) == BitOf(b, 4)
    ensures Has(TopByte(b), 0x0400_0000) == BitOf(b, 5)
    ensures Has(TopByte(b), 0x0200_0000) == BitOf(b, 6)
    ensures Has(TopByte(b), 0x0100_0000) == BitOf(b, 7)
  {
    hide BitOf;
  }

  lemma TopByteLow(b: Byte, m: bv32)
    requires m & 0xFF00_0000 == 0
    ensures !Has(TopByte(b), m)
  {
    hide BitOf;
  }

  lemma {:induction false} LowMask(i: nat)
    requires i >= 8
    ensures Mask(i) & 0xFF00_0000 == 0
  {
    if i > 8 {
      LowMask(i - 1);
    } else {
      Masks();
    }
  }

  lemma TopByteAt(b: Byte, i: nat)
    requires i < 32
    ensures Has(TopByte(b), Mask(i)) == (i < 8 && BitOf(b, i))
  {
    Masks();
    hide Mask, BitOf, Has;
    var v := TopByte(b);
    assert i < 8 ==> Has(v, Mask(i)) == BitOf(b, i) by { TopByteHigh(b); }
    if i >= 8 {
      LowMask(i);
      TopByteLow(b, Mask(i));
    }
  }

  lemma TopByteBits(b: Byte)
    ensures WordOf(TopByte(b)) == Place(Bits([b]))
  {
    hide TopByte, Mask, BitOf, Has;
    assert forall i :: 0 <= i < 8 ==> Bits([b])[i] == BitOf(b, i);
    forall i | 0 <= i < 32
      ensures WordOf(TopByte(b))[i] == Place(Bits([b]))[i]
    {
      TopByteAt(b, i);
    }
  }

  lemma NextByteBits(data: seq<Byte>, b: Byte)
    ensures Crc(data + [b]) == Turns(Xor(Crc(data), Place(Bits([b]))), 8)
  {
    BitsConcat(data, [b]);
    FeedConcat(INITIAL, Bits(data), Bits([b]));
    AbsorbWhole(Crc(data), Bits([b]));
  }

  /** The standard's register and the code's `u32` agree on every message. */
  lemma {:induction false} CrcIsU32(data: seq<Byte>)
    ensures Crc(data) == WordOf(CrcU32(data))
  {
    if data == [] {
      Constants();
      assert Bits([]) == [];
    } else {
      var n := |data| - 1;
      CrcIsU32(data[..n]);
      assert data == data[..n] + [data[n]];
      hide Crc, WordOf, Xor, Turns, TopByte, TurnsWord, Mixed;
      NextByteBits(data[..n], data[n]);
      TopByteBits(data[n]);
      XorWord(CrcU32(data[..n]), TopByte(data[n]));
      TurnsAreShifts(Mixed(CrcU32(data[..n]), TopByte(data[n])), 8);
    }
  }

  // ---- The check value ----

  /** The digits 1 to 9 in ASCII. */
  const DIGITS: seq<Byte> := [0x31, 0x32, 0x33, 0x34, 0x35, 0x36, 0x37, 0x38, 0x39]

  lemma NextDigit(k: nat, v: bv32, w: bv32)
    requires k < 9 && CrcU32(DIGITS[..k]) == v && TurnsWord(Mixed(v, TopByte(DIGITS[k])), 8) == w
    ensures CrcU32(DIGITS[..k + 1]) == w
  {
    assert DIGITS[..k + 1][..k] == DIGITS[..k];
    hide TurnsWord, Mixed, TopByte;
  }

  lemma DigitsOnTop()
    ensures TopByte(DIGITS[0]) == 0x3100_0000
    ensures TopByte(DIGITS[1]) == 0x3200_0000
    ensures TopByte(DIGITS[2]) == 0x3300_0000
    ensures TopByte(DIGITS[3]) == 0x3400_0000
    ensures TopByte(DIGITS[4]) == 0x3500_0000
    ensures TopByte(DIGITS[5]) == 0x3600_0000
    ensures TopByte(DIGITS[6]) == 0x3700_0000
    ensures TopByte(DIGITS[7]) == 0x3800_0000
    ensures TopByte(DIGITS[8]) == 0x3900_0000
  {
  }

  lemma FirstDigits()
    requires CrcU32(DIGITS[..0]) == 0xFFFF_FFFF
    ensures CrcU32(DIGITS[..3]) == 0xD952_F164
  {
    hide TopByte, CrcU32;
    DigitsOnTop();
    assert TurnsWord(0xCEFF_FFFF, 8) == 0x9EFB_CF93;
    assert TurnsWord(0xACFB_CF93, 8) == 0x3FEC_5E6A;
    assert TurnsWord(0x0CEC_5E6A, 8) == 0xD952_F164;
    NextDigit(0, 0xFFFF_FFFF, 0x9EFB_CF93);
    NextDigit(1, 0x9EFB_CF93, 0x3FEC_5E6A);
    NextDigit(2, 0x3FEC_5E6A, 0xD952_F164);
  }

  lemma MiddleDigits()
    requires CrcU32(DIGITS[..3]) == 0xD952_F164
    ensures CrcU32(DIGITS[..6]) == 0xD8F0_6C8F
  {
    hide TopByte, CrcU32;
    DigitsOnTop();
    assert TurnsWord(0xED52_F164, 8) == 0xA695_C4AA;
    assert TurnsWord(0x9395_C4AA, 8) == 0xBD9A_B747;
    assert TurnsWord(0x8B9A_B747, 8) == 0xD8F0_6C8F;
    NextDigit(3, 0xD952_F164, 0xA695_C4AA);
    NextDigit(4, 0xA695_C4AA, 0xBD9A_B747);
    NextDigit(5, 0xBD9A_B747, 0xD8F0_6C8F);
  }

  lemma LastDigits()
    requires CrcU32(DIGITS[..6]) == 0xD8F0_6C8F
    ensures CrcU32(DIGITS[..9]) == 0x0376_E6E7
  {
    hide TopByte, CrcU32;
    DigitsOnTop();
    assert TurnsWord(0xEFF0_6C8F, 8) == 0x0D8A_14C4;
    assert TurnsWord(0x358A_14C4, 8) == 0x49E3_C2FB;
    assert TurnsWord(0x70E3_C2FB, 8) == 0x0376_E6E7;
    NextDigit(6, 0xD8F0_6C8F, 0x0D8A_14C4);
    NextDigit(7, 0x0D8A_14C4, 0x49E3_C2FB);
    NextDigit(8, 0x49E3_C2FB, 0x0376_E6E7);
  }

  /** The published check value of this CRC (CRC-32/MPEG-2). */
  lemma CheckValue()
    ensures CrcU32(DIGITS) == 0x0376_E6E7
    ensures ToBeBytes(Crc(DIGITS)) == [0x03, 0x76, 0xE6, 0xE7]
  {
    assert CrcU32(DIGITS[..0]) == 0xFFFF_FFFF;
    hide *;
    FirstDigits();
    MiddleDigits();
    LastDigits();
    assert DIGITS[..9] == DIGITS;
    CrcIsU32(DIGITS);
    StoredBytes();
  }

  lemma StoredBytes()
    ensures ToBeBytes(WordOf(0x0376_E6E7)) == [0x03, 0x76, 0xE6, 0xE7]
  {
    Masks();
    hide Mask;
  }
}
