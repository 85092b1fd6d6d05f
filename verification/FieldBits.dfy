/** The bit fields of a section as bytes: what the bit writer's fields and patches amount to when
    they start or end on byte boundaries. */
module FieldBits {
  import opened Bytes
  import opened BitIO

  lemma Powers()
    ensures Pow2(1) == 2 && Pow2(2) == 4 && Pow2(4) == 16 && Pow2(5) == 32 && Pow2(6) == 64 && Pow2(7) == 128
    ensures Pow2(8) == 256 && Pow2(12) == 4096 && Pow2(16) == 0x1_0000 && Pow2(32) == 0x1_0000_0000
  {
    assert Pow2(4) == 16;
    assert Pow2(8) == 256;
    assert Pow2(12) == 4096;
    Pow2Of32();
  }

  /** Merging with the width of the lower field known. */
  lemma Merge(v: nat, m: nat, w: nat, n: nat, p: nat)
    requires p == Pow2(n) && w < p
    ensures ToBits(v, m) + ToBits(w, n) == ToBits(v * p + w, m + n)
  {
    MergeFields(v, m, w, n);
  }

  lemma {:induction false} ToBitsMod(v: nat, n: nat)
    ensures ToBits(v, n) == ToBits(v % Pow2(n), n)
  {
    if n > 0 {
      HalfThenDouble(v, Pow2(n - 1));
      ToBitsMod(v / 2, n - 1);
    }
  }

  lemma ByteBitsOf(v: nat)
    ensures ToBits(v, 8) == Bits([v % 256])
  {
    hide ToBits, Pow2, Bits, Value, PackByte;
    Powers();
    ToBitsMod(v, 8);
    var b: Byte := v % 256;
    ValueOfEight(Bits([b]));
    UnpackedByte(b);
    ToBitsOfValue(Bits([b]));
  }

  lemma SmallByte(b: Byte)
    ensures ToBits(b, 8) == Bits([b])
  {
    hide ToBits, Bits;
    ByteBitsOf(b);
  }

  lemma Bits16(v: nat)
    ensures ToBits(v, 16) == Bits([v / 0x100 % 256, v % 256])
  {
    hide ToBits, Pow2, Bits;
    Powers();
    Merge(v / 0x100, 8, v % 0x100, 8, 256);
    ByteBitsOf(v / 256);
    ByteBitsOf(v % 256);
    BitsConcat([v / 0x100 % 256], [v % 256]);
    assert [v / 0x100 % 256] + [v % 256] == [v / 0x100 % 256, v % 256];
  }

  lemma Bits32(v: nat)
    ensures ToBits(v, 32) == Bits(ToBe32(v))
  {
    hide ToBits, Pow2, Bits;
    Powers();
    var hi, lo := v / 0x1_0000, v % 0x1_0000;
    Merge(v / 0x1_0000, 16, v % 0x1_0000, 16, 0x1_0000);
    Bits16(hi);
    Bits16(lo);
    assert hi / 0x100 == v / 0x100_0000;
    LowHalf(v);
    var a, b := [hi / 0x100 % 256, hi % 256], [lo / 0x100 % 256, lo % 256];
    BitsConcat(a, b);
    assert a + b == ToBe32(v);
  }

  lemma LowHalf(v: nat)
    ensures v % 0x1_0000 / 0x100 % 256 == v / 0x100 % 256 && v % 0x1_0000 % 256 == v % 256
  {
    var q, r := v / 0x1_0000, v % 0x1_0000;
    assert v / 0x100 == 256 * q + r / 0x100;
  }

  lemma Bits40(v: nat)
    ensures ToBits(v, 40) == Bits([v / 0x1_0000_0000 % 256] + ToBe32(v))
  {
    hide ToBits, Pow2, Bits, ToBe32;
    Powers();
    Merge(v / 0x1_0000_0000, 8, v % 0x1_0000_0000, 32, 0x1_0000_0000);
    ByteBitsOf(v / 0x1_0000_0000);
    ToBitsMod(v, 32);
    Bits32(v);
    BitsConcat([v / 0x1_0000_0000 % 256], ToBe32(v));
  }

  /** A flag, six reserved zeros and a 33-bit value: splice_time() and break_duration(). */
  lemma Bits1And33(flag: nat, v: nat)
    requires flag < 2
    ensures ToBits(flag, 1) + ToBits(0, 6) + ToBits(v, 33)
            == Bits([(128 * flag + v / 0x1_0000_0000 % 2) as Byte] + ToBe32(v))
  {
    hide ToBits, Pow2, Bits, ToBe32;
    Powers();
    var top := v / 0x1_0000_0000;
    Merge(v / 0x1_0000_0000, 1, v % 0x1_0000_0000, 32, 0x1_0000_0000);
    ToBitsMod(v, 32);
    ToBitsMod(top, 1);
    Merge(flag, 1, 0, 6, 64);
    Merge(64 * flag, 7, top % 2, 1, 2);
    ByteBitsOf(128 * flag + top % 2);
    Bits32(v);
    var first: Byte := 128 * flag + top % 2;
    BitsConcat([first], ToBe32(v));
    assert ToBits(flag, 1) + ToBits(0, 6) + (ToBits(top, 1) + ToBits(v, 32))
           == (ToBits(flag, 1) + ToBits(0, 6) + ToBits(top, 1)) + ToBits(v, 32);
  }

  lemma SpliceMiddle<T>(pre: seq<T>, mid: seq<T>, post: seq<T>, now: seq<T>)
    requires |mid| == |now|
    ensures Splice(pre + mid + post, |pre|, now) == pre + now + post
  {
  }

  /** Overwriting whole bytes of a bit stream. */
  lemma SpliceBits(pre: seq<Byte>, mid: seq<Byte>, post: seq<Byte>, now: seq<Byte>)
    requires |mid| == |now|
    ensures Splice(Bits(pre + mid + post), 8 * |pre|, Bits(now)) == Bits(pre + now + post)
  {
    BitsConcat(pre + mid, post);
    BitsConcat(pre, mid);
    BitsConcat(pre + now, post);
    BitsConcat(pre, now);
    hide Bits;
    SpliceMiddle(Bits(pre), Bits(mid), Bits(post), Bits(now));
  }

  lemma NibbleBits(b: Byte)
    ensures Bits([b]) == ToBits(b as int / 16, 4) + ToBits(b % 16, 4)
  {
    hide ToBits, Pow2, Bits;
    Powers();
    ByteBitsOf(b);
    Merge(b as int / 16, 4, b % 16, 4, 16);
  }

  /** A 12-bit field in the low nibble of byte `k` and in byte `k + 1`. */
  lemma PatchNibble(d: seq<Byte>, k: nat, v: nat)
    requires k + 2 <= |d|
    ensures Splice(Bits(d), 8 * k + 4, ToBits(v, 12))
            == Bits(d[k := (d[k] as int / 16 * 16 + v / 256 % 16) as Byte][k + 1 := v % 256])
  {
    hide ToBits, Pow2, Bits;
    var pre, post := d[..k], d[k + 2..];
    var hi, b := d[k] as int / 16, (d[k] as int / 16 * 16 + v / 256 % 16) as Byte;
    var now: seq<Byte> := [b, v % 256];
    TwelveBits(hi, v);
    NibbleBits(d[k]);
    BitsConcat([d[k]], [d[k + 1]]);
    var mid := [d[k]] + [d[k + 1]];
    assert d == pre + mid + post;
    assert d[k := b][k + 1 := v % 256] == pre + now + post;
    SpliceBits(pre, mid, post, now);
    var was := Bits(d);
    assert was[8 * k..8 * k + 4] == ToBits(hi, 4) by {
      BitsConcat(pre + mid, post);
      BitsConcat(pre, mid);
    }
    assert Splice(was, 8 * k + 4, ToBits(v, 12)) == Splice(was, 8 * k, ToBits(hi, 4) + ToBits(v, 12));
  }

  lemma TwelveBits(hi: nat, v: nat)
    requires hi < 16
    ensures ToBits(hi, 4) + ToBits(v, 12) == Bits([(hi * 16 + v / 256 % 16) as Byte, v % 256])
  {
    hide ToBits, Pow2, Bits;
    Powers();
    Merge(v / 0x100, 4, v % 0x100, 8, 256);
    ToBitsMod(v / 256, 4);
    var n := v / 256 % 16;
    Merge(hi, 4, n, 4, 16);
    ByteBitsOf(hi * 16 + n);
    ByteBitsOf(v);
    ToBitsMod(v, 8);
    var b: Byte := hi * 16 + n;
    BitsConcat([b], [v % 256]);
    assert [b] + [v % 256] == [b, v % 256];
    assert ToBits(hi, 4) + (ToBits(n, 4) + ToBits(v, 8)) == (ToBits(hi, 4) + ToBits(n, 4)) + ToBits(v, 8);
  }

  // ---- The groups of small fields the builders write ----

  /** section_syntax_indicator, private_indicator, two reserved ones, an empty section_length. */
  lemma SectionFlags()
    ensures ToBits(0, 1) + ToBits(0, 1) + ToBits(3, 2) + ToBits(0, 12) == Bits([0x30, 0])
  {
    hide ToBits, Pow2, Bits;
    Powers();
    Merge(0, 1, 0, 1, 2);
    Merge(0, 2, 3, 2, 4);
    Merge(3, 4, 0, 12, 4096);
    Bits16(0x3000);
  }

  /** A tier of all ones and an empty splice_command_length. */
  lemma TierAndLength()
    ensures ToBits(0xFFF, 12) + ToBits(0, 12) == Bits([0xFF, 0xF0, 0])
  {
    hide ToBits, Pow2, Bits;
    Powers();
    Merge(0xFFF, 12, 0, 12, 4096);
    Merge(0xFFF0, 16, 0, 8, 256);
    Bits16(0xFFF0);
    ByteBitsOf(0);
    BitsConcat([0xFF, 0xF0], [0]);
    assert [0xFF, 0xF0] + [0] == [0xFF, 0xF0, 0];
  }

  lemma TopThree(a: nat, b: nat, c: nat)
    requires a < 2 && b < 2 && c < 2
    ensures ToBits(a, 1) + ToBits(b, 1) + ToBits(c, 1) == ToBits(4 * a + 2 * b + c, 3)
  {
    hide ToBits, Pow2;
    Powers();
    Merge(a, 1, b, 1, 2);
    Merge(2 * a + b, 2, c, 1, 2);
  }

  /** Four flags and four reserved bits. */
  lemma FourFlags(a: nat, b: nat, c: nat, d: nat, whole: Byte)
    requires a < 2 && b < 2 && c < 2 && d < 2 && whole == 128 * a + 64 * b + 32 * c + 16 * d
    ensures ToBits(a, 1) + ToBits(b, 1) + ToBits(c, 1) + ToBits(d, 1) + ToBits(0, 4) == Bits([whole])
  {
    hide *;
    TopThree(a, b, c);
    TopFour(4 * a + 2 * b + c, d, whole);
  }

  lemma TopFour(top: nat, d: nat, whole: Byte)
    requires top < 8 && d < 2 && whole == 32 * top + 16 * d
    ensures ToBits(top, 3) + ToBits(d, 1) + ToBits(0, 4) == Bits([whole])
  {
    hide *;
    Powers();
    Merge(top, 3, d, 1, 2);
    Merge(2 * top + d, 4, 0, 4, 16);
    assert (2 * top + d) * 16 + 0 == whole;
    SmallByte(whole);
  }

  /** Three flags and five reserved bits. */
  lemma ThreeFlags(a: nat, b: nat, c: nat)
    requires a < 2 && b < 2 && c < 2
    ensures ToBits(a, 1) + ToBits(b, 1) + ToBits(c, 1) + ToBits(0, 5)
            == Bits([(128 * a + 64 * b + 32 * c) as Byte])
  {
    hide ToBits, Pow2, Bits;
    Powers();
    TopThree(a, b, c);
    var top := 4 * a + 2 * b + c;
    Merge(top, 3, 0, 5, 32);
    SmallByte(32 * top);
  }

  lemma FlagAndSeven(a: nat)
    requires a < 2
    ensures ToBits(a, 1) + ToBits(0, 7) == Bits([(128 * a) as Byte])
  {
    hide ToBits, Pow2, Bits;
    Powers();
    Merge(a, 1, 0, 7, 128);
    ByteBitsOf(128 * a);
  }
}
