/** Bytes, optional values, and the bit numbering shared by every reader and writer. */
module Bytes {

  type Byte = n: int | 0 <= n < 256

  /** A failure-compatible optional value, standing for both `Option` and `Result`. */
  datatype Option<+T> = None | Some(value: T) {
    predicate IsFailure() {
      None?
    }

    function PropagateFailure<U>(): Option<U> {
      None
    }

    function Extract(): T
      requires Some?
    {
      value
    }
  }

  /** What an editor does: the code panics, declines, or answers. */
  datatype Outcome<+T> = Crash | Unchanged | Edited(value: T)

  /** Bit `i` of a byte; bit 0 is the most significant, as the wire sends them. */
  function BitOf(b: Byte, i: nat): bool
    requires i < 8
  {
    match i
    case 0 => b >= 128
    case 1 => b % 128 >= 64
    case 2 => b % 64 >= 32
    case 3 => b % 32 >= 16
    case 4 => b % 16 >= 8
    case 5 => b % 8 >= 4
    case 6 => b % 4 >= 2
    case _ => b % 2 >= 1
  }

  /** The bit stream carried by a byte string. */
  function Bits(data: seq<Byte>): (s: seq<bool>)
    ensures |s| == 8 * |data|
  {
    seq(8 * |data|, p requires 0 <= p < 8 * |data| => BitOf(data[p / 8], p % 8))
  }

  lemma BitsConcat(a: seq<Byte>, b: seq<Byte>)
    ensures Bits(a + b) == Bits(a) + Bits(b)
  {
    hide BitOf;
    forall p | 0 <= p < 8 * |a + b|
      ensures Bits(a + b)[p] == (Bits(a) + Bits(b))[p]
    {
      if p >= 8 * |a| {
        assert (a + b)[p / 8] == b[(p - 8 * |a|) / 8];
      }
    }
  }

  lemma BitsSlice(data: seq<Byte>, lo: nat, hi: nat)
    requires lo <= hi <= |data|
    ensures Bits(data)[8 * lo..8 * hi] == Bits(data[lo..hi])
  {
    assert data == data[..lo] + data[lo..hi] + data[hi..];
    BitsConcat(data[..lo] + data[lo..hi], data[hi..]);
    BitsConcat(data[..lo], data[lo..hi]);
  }

  /** A byte from its eight bits. */
  function PackByte(s: seq<bool>): Byte
    requires |s| == 8
  {
    (if s[0] then 128 else 0) + (if s[1] then 64 else 0) + (if s[2] then 32 else 0) + (if s[3] then 16 else 0)
    + (if s[4] then 8 else 0) + (if s[5] then 4 else 0) + (if s[6] then 2 else 0) + (if s[7] then 1 else 0)
  }

  lemma MulAtLeast(d: nat, m: nat)
    requires d > 0
    ensures d * m >= m
  {
    assert d * m == m + (d - 1) * m;
  }

  lemma Remainder(v: nat, m: nat, q: nat, r: nat)
    requires m > 0 && v == q * m + r && r < m
    ensures v % m == r && v / m == q
  {
    Unique(m, v / m, v % m, q, r);
  }

  lemma Unique(m: nat, q: nat, r: nat, q': nat, r': nat)
    requires q * m + r == q' * m + r' && r < m && r' < m
    ensures q == q' && r == r'
  {
    if q > q' {
      MulAtLeast(q - q', m);
    } else if q < q' {
      MulAtLeast(q' - q, m);
    }
  }

  /** One more bit of a remainder: `r` is `n % (2 * m)`. */
  lemma HalfModulus(n: nat, m: nat, q: nat, r: nat)
    requires m > 0 && n == q * (2 * m) + r && r < 2 * m
    ensures r == n % m + (if r >= m then m else 0)
  {
    var k := 2 * q;
    assert q * (2 * m) == k * m;
    if r >= m {
      assert (k + 1) * m == k * m + m;
      Remainder(n, m, k + 1, r - m);
    } else {
      Remainder(n, m, k, r);
    }
  }

  lemma LowBits(b: Byte)
    ensures b % 16 == (if BitOf(b, 4) then 8 else 0) + (if BitOf(b, 5) then 4 else 0)
                      + (if BitOf(b, 6) then 2 else 0) + (if BitOf(b, 7) then 1 else 0)
  {
    assert b % 4 == (if BitOf(b, 6) then 2 else 0) + b % 2 by { HalfModulus(b, 2, b as int / 4, b % 4); }
    assert b % 8 == (if BitOf(b, 5) then 4 else 0) + b % 4 by { HalfModulus(b, 4, b as int / 8, b % 8); }
    assert b % 16 == (if BitOf(b, 4) then 8 else 0) + b % 8 by { HalfModulus(b, 8, b as int / 16, b % 16); }
  }

  /** A byte is the sum of its weighted bits. */
  lemma ByteBits(b: Byte)
    ensures b == (if BitOf(b, 0) then 128 else 0) + (if BitOf(b, 1) then 64 else 0)
                 + (if BitOf(b, 2) then 32 else 0) + (if BitOf(b, 3) then 16 else 0)
                 + (if BitOf(b, 4) then 8 else 0) + (if BitOf(b, 5) then 4 else 0)
                 + (if BitOf(b, 6) then 2 else 0) + (if BitOf(b, 7) then 1 else 0)
  {
    LowBits(b);
    HighBits(b);
    hide BitOf;
  }

  lemma HighBits(b: Byte)
    ensures b == (if BitOf(b, 0) then 128 else 0) + (if BitOf(b, 1) then 64 else 0)
                 + (if BitOf(b, 2) then 32 else 0) + (if BitOf(b, 3) then 16 else 0) + b % 16
  {
    assert b % 32 == (if BitOf(b, 3) then 16 else 0) + b % 16 by { HalfModulus(b, 16, b as int / 32, b % 32); }
    assert b % 64 == (if BitOf(b, 2) then 32 else 0) + b % 32 by { HalfModulus(b, 32, b as int / 64, b % 64); }
    assert b % 128 == (if BitOf(b, 1) then 64 else 0) + b % 64 by { HalfModulus(b, 64, b as int / 128, b % 128); }
    assert b == (if BitOf(b, 0) then 128 else 0) + b % 128;
  }

  lemma SumBits(b0: bool, b1: bool, b2: bool, b3: bool, b4: bool, b5: bool, b6: bool, b7: bool, b: Byte)
    requires b == (if b0 then 128 else 0) + (if b1 then 64 else 0) + (if b2 then 32 else 0)
                  + (if b3 then 16 else 0) + (if b4 then 8 else 0) + (if b5 then 4 else 0)
                  + (if b6 then 2 else 0) + (if b7 then 1 else 0)
    ensures BitOf(b, 0) == b0 && BitOf(b, 1) == b1 && BitOf(b, 2) == b2 && BitOf(b, 3) == b3
    ensures BitOf(b, 4) == b4 && BitOf(b, 5) == b5 && BitOf(b, 6) == b6 && BitOf(b, 7) == b7
  {
    ByteBits(b);
  }

  lemma BitsOfOne(b: Byte)
    ensures Bits([b]) == [BitOf(b, 0), BitOf(b, 1), BitOf(b, 2), BitOf(b, 3),
                          BitOf(b, 4), BitOf(b, 5), BitOf(b, 6), BitOf(b, 7)]
  {
    hide BitOf;
    var s := Bits([b]);
    assert forall i :: 0 <= i < 8 ==> s[i] == BitOf([b][i / 8], i % 8) && [b][i / 8] == b && i % 8 == i;
  }

  lemma PackedByte(s: seq<bool>)
    requires |s| == 8
    ensures Bits([PackByte(s)]) == s
  {
    var b := PackByte(s);
    SumBits(s[0], s[1], s[2], s[3], s[4], s[5], s[6], s[7], b);
    hide PackByte, BitOf;
    BitsOfOne(b);
  }

  lemma BitsInjective(a: seq<Byte>, b: seq<Byte>)
    requires Bits(a) == Bits(b)
    ensures a == b
  {
    assert |Bits(a)| == 8 * |a| && |Bits(b)| == 8 * |b|;
    forall i | 0 <= i < |a|
      ensures a[i] == b[i]
    {
      forall k: nat | k < 8
        ensures BitOf(a[i], k) == BitOf(b[i], k)
      {
        assert Bits(a)[8 * i + k] == BitOf(a[i], k);
        assert Bits(b)[8 * i + k] == BitOf(b[i], k);
      }
      ByteBits(a[i]);
      ByteBits(b[i]);
    }
  }

  /** Big-endian values read from a byte string. */
  function Be16(d: seq<Byte>, at: nat): nat
    requires at + 2 <= |d|
  {
    d[at] as int * 256 + d[at + 1]
  }

  function Be32(d: seq<Byte>, at: nat): nat
    requires at + 4 <= |d|
  {
    Be16(d, at) * 0x1_0000 + Be16(d, at + 2)
  }

  function Be40(d: seq<Byte>, at: nat): nat
    requires at + 5 <= |d|
  {
    d[at] * 0x1_0000_0000 + Be32(d, at + 1)
  }

  /** The 33-bit value behind seven leading bits of a five-byte field. */
  function Be33(d: seq<Byte>, at: nat): nat
    requires at + 5 <= |d|
  {
    d[at] % 2 * 0x1_0000_0000 + Be32(d, at + 1)
  }

  lemma Be32Local(a: seq<Byte>, b: seq<Byte>, at: nat)
    requires at + 4 <= |a| && at + 4 <= |b| && forall i :: at <= i < at + 4 ==> a[i] == b[i]
    ensures Be32(a, at) == Be32(b, at)
  {
  }

  lemma Be33Local(a: seq<Byte>, b: seq<Byte>, at: nat)
    requires at + 5 <= |a| && at + 5 <= |b| && forall i :: at <= i < at + 5 ==> a[i] == b[i]
    ensures Be33(a, at) == Be33(b, at)
  {
  }

  lemma Be33Slice(d: seq<Byte>, at: nat)
    requires at + 5 <= |d|
    ensures Be33(d[at..at + 5], 0) == Be33(d, at)
  {
  }

  /** The low bytes of a value, most significant first, as `(v >> 8 * k) as u8` yields them. */
  function ToBe32(v: nat): (s: seq<Byte>)
    ensures |s| == 4
  {
    [v / 0x100_0000 % 256, v / 0x1_0000 % 256, v / 0x100 % 256, v % 256]
  }

  lemma ToBe32Value(v: nat)
    ensures Be32(ToBe32(v), 0) == v % 0x1_0000_0000
  {
    var a, b, c := v / 0x100, v / 0x1_0000, v / 0x100_0000;
    assert a == v / 0x100 && b == a / 0x100 && c == b / 0x100;
    assert v == 0x100 * a + v % 256 && a == 0x100 * b + a % 256 && b == 0x100 * c + b % 256;
    assert c == 0x100 * (v / 0x1_0000_0000) + c % 256;
  }

  lemma SliceOfSlice<T>(d: seq<T>, lo: nat, hi: nat, i: nat, j: nat)
    requires lo <= hi <= |d| && i <= j <= hi - lo
    ensures d[lo..hi][i..j] == d[lo + i..lo + j]
  {
    var a, b := d[lo..hi][i..j], d[lo + i..lo + j];
    assert |a| == |b| && forall k :: 0 <= k < |a| ==> a[k] == b[k];
  }

  /** Overwrites `d` from `at` on. */
  function Splice<T>(d: seq<T>, at: nat, s: seq<T>): (r: seq<T>)
    requires at + |s| <= |d|
    ensures |r| == |d|
    ensures forall i :: 0 <= i < |d| ==> r[i] == if at <= i < at + |s| then s[i - at] else d[i]
  {
    d[..at] + s + d[at + |s|..]
  }
}
