/** The trailing CRC-32 of a section (ISO/IEC 13818-1 Annex A) and what it detects.
    A `u32` is the sequence of its 32 bits, most significant first. */
module Crc32 {
  import opened Bytes

  type Word = s: seq<bool> | |s| == 32 witness Fill(32, false)

  function Fill(n: nat, bit: bool): (s: seq<bool>)
    ensures |s| == n && forall i :: 0 <= i < n ==> s[i] == bit
  {
    seq(n, _ => bit)
  }

  const INITIAL: Word := Fill(32, true)
  const ZERO: Word := Fill(32, false)

  /** 0x04C11DB7. */
  const POLYNOMIAL: Word :=
    [false, false, false, false, false, true, false, false, true, true, false, false, false, false, false, true,
     false, false, false, true, true, true, false, true, true, false, true, true, false, true, true, true]

  function Xor(a: Word, b: Word): Word {
    seq(32, i requires 0 <= i < 32 => a[i] != b[i])
  }

  /** Bits at the top of a word, zeros below: `v << (32 - |bits|)`. */
  function Place(bits: seq<bool>): Word
    requires |bits| <= 32
  {
    bits + Fill(32 - |bits|, false)
  }

  // ---- The register ----

  /** One turn of the register: shift out the top bit, folding the polynomial in when it was set. */
  function Turn(crc: Word): Word {
    var shifted: Word := crc[1..] + [false];
    if crc[0] then Xor(shifted, POLYNOMIAL) else shifted
  }

  function Turns(crc: Word, n: nat): Word {
    if n == 0 then crc else Turn(Turns(crc, n - 1))
  }

  /** One message bit is added to the top of the register, which then turns once. */
  function FeedBit(crc: Word, bit: bool): Word {
    Turn([crc[0] != bit] + crc[1..])
  }

  /** The standard's decoder model: the message enters the register bit by bit. */
  function Feed(crc: Word, bits: seq<bool>): Word {
    if bits == [] then crc else FeedBit(Feed(crc, bits[..|bits| - 1]), bits[|bits| - 1])
  }

  /** The CRC of a message as the standard defines it. */
  function Crc(data: seq<Byte>): Word {
    Feed(INITIAL, Bits(data))
  }

  lemma TurnInjective(a: Word, b: Word)
    requires Turn(a) == Turn(b)
    ensures a == b
  {
    assert Turn(a)[31] == a[0] && Turn(b)[31] == b[0];
    forall i | 1 <= i < 32
      ensures a[i] == b[i]
    {
      assert Turn(a)[i - 1] == (a[i] != (a[0] && POLYNOMIAL[i - 1]));
      assert Turn(b)[i - 1] == (b[i] != (b[0] && POLYNOMIAL[i - 1]));
    }
  }

  lemma {:induction false} TurnsInjective(a: Word, b: Word, n: nat)
    requires Turns(a, n) == Turns(b, n)
    ensures a == b
  {
    if n > 0 {
      TurnInjective(Turns(a, n - 1), Turns(b, n - 1));
      TurnsInjective(a, b, n - 1);
    }
  }

  /** For a fixed message the register's final state determines its initial state. */
  lemma {:induction false} FeedInjective(a: Word, b: Word, bits: seq<bool>)
    requires Feed(a, bits) == Feed(b, bits)
    ensures a == b
  {
    if bits != [] {
      var front, last := bits[..|bits| - 1], bits[|bits| - 1];
      var x, y := Feed(a, front), Feed(b, front);
      TurnInjective([x[0] != last] + x[1..], [y[0] != last] + y[1..]);
      assert x == [x[0]] + x[1..] && y == [y[0]] + y[1..];
      assert ([x[0] != last] + x[1..])[1..] == x[1..];
      assert ([y[0] != last] + y[1..])[1..] == y[1..];
      FeedInjective(a, b, front);
    }
  }

  lemma {:induction false} FeedConcat(crc: Word, a: seq<bool>, b: seq<bool>)
    ensures Feed(crc, a + b) == Feed(Feed(crc, a), b)
  {
    if b == [] {
      assert a + b == a;
    } else {
      FeedConcat(crc, a, b[..|b| - 1]);
      assert (a + b)[..|a + b| - 1] == a + b[..|b| - 1];
    }
  }

  /** The top waiting bit meets the register in a single turn; the others wait behind it. */
  lemma AbsorbOne(s: Word, waiting: seq<bool>)
    requires 0 < |waiting| <= 32
    ensures Turn(Xor(s, Place(waiting))) == Xor(FeedBit(s, waiting[0]), Place(waiting[1..]))
  {
    var lhs, rhs := Turn(Xor(s, Place(waiting))), Xor(FeedBit(s, waiting[0]), Place(waiting[1..]));
    forall i | 0 <= i < 32
      ensures lhs[i] == rhs[i]
    {
      if i < 31 {
        assert Xor(s, Place(waiting))[i + 1] == (s[i + 1] != Place(waiting)[i + 1]);
        assert Place(waiting)[i + 1] == Place(waiting[1..])[i];
      }
    }
  }

  /** Adding up to 32 bits at once and turning that often equals feeding them one by one. */
  lemma {:induction false} AbsorbAll(s: Word, bits: seq<bool>, k: nat)
    requires k <= |bits| <= 32
    ensures Turns(Xor(s, Place(bits)), k) == Xor(Feed(s, bits[..k]), Place(bits[k..]))
  {
    if k == 0 {
      assert bits[0..] == bits;
    } else {
      AbsorbAll(s, bits, k - 1);
      AbsorbOne(Feed(s, bits[..k - 1]), bits[k - 1..]);
      assert bits[k - 1..][1..] == bits[k..];
      assert bits[..k][..k - 1] == bits[..k - 1];
    }
  }

  lemma AbsorbWhole(s: Word, bits: seq<bool>)
    requires |bits| <= 32
    ensures Turns(Xor(s, Place(bits)), |bits|) == Feed(s, bits)
  {
    AbsorbAll(s, bits, |bits|);
    assert bits[..|bits|] == bits;
    assert Xor(Feed(s, bits), Place([])) == Feed(s, bits);
  }

  // ---- Words and bytes ----

  /** `crc.to_be_bytes()`. */
  function ToBeBytes(w: Word): (s: seq<Byte>)
    ensures |s| == 4
  {
    [PackByte(w[0..8]), PackByte(w[8..16]), PackByte(w[16..24]), PackByte(w[24..32])]
  }

  lemma PackedWord(w: Word)
    ensures Bits(ToBeBytes(w)) == w
  {
    var s := ToBeBytes(w);
    PackedByte(w[0..8]);
    PackedByte(w[8..16]);
    PackedByte(w[16..24]);
    PackedByte(w[24..32]);
    hide PackByte, Bits;
    assert s == [s[0]] + [s[1]] + [s[2]] + [s[3]];
    BitsConcat([s[0]], [s[1]]);
    BitsConcat([s[0]] + [s[1]], [s[2]]);
    BitsConcat([s[0]] + [s[1]] + [s[2]], [s[3]]);
    assert w == w[0..8] + w[8..16] + w[16..24] + w[24..32];
  }

  // ---- The code's loops ----

  method ComputeCrc32(data: seq<Byte>) returns (crc: Word)
    ensures crc == Crc(data)
  {
    crc := INITIAL;
    for i := 0 to |data|
      invariant crc == Crc(data[..i])
    {
      ghost var before := crc;
      crc := Xor(crc, Place(Bits([data[i]])));
      ghost var start := crc;
      for j := 0 to 8
        invariant crc == Turns(start, j)
      {
        if crc[0] {
          crc := Xor(crc[1..] + [false], POLYNOMIAL);
        } else {
          crc := crc[1..] + [false];
        }
      }
      AbsorbWhole(before, Bits([data[i]]));
      assert data[..i + 1] == data[..i] + [data[i]];
      BitsConcat(data[..i], [data[i]]);
      FeedConcat(INITIAL, Bits(data[..i]), Bits([data[i]]));
    }
    assert data[..|data|] == data;
  }

  // ---- Detection ----

  /** The stored CRC of a message equals the computed one. */
  predicate Sealed(data: seq<Byte>)
  {
    |data| >= 4 && data[|data| - 4..] == ToBeBytes(Crc(data[..|data| - 4]))
  }

  lemma FeedWindow(crc: Word, x: seq<bool>, i: nat)
    requires i + 32 <= |x|
    ensures Feed(crc, x) == Feed(Feed(Feed(crc, x[..i]), x[i..i + 32]), x[i + 32..])
  {
    assert x == x[..i] + (x[i..i + 32] + x[i + 32..]);
    FeedConcat(crc, x[..i], x[i..i + 32] + x[i + 32..]);
    FeedConcat(Feed(crc, x[..i]), x[i..i + 32], x[i + 32..]);
  }

  /** From one register state, different words lead to different states. */
  lemma SameWord(s: Word, v: Word, w: Word)
    requires Feed(s, v) == Feed(s, w)
    ensures v == w
  {
    AbsorbWhole(s, v);
    AbsorbWhole(s, w);
    assert Place(v) == v && Place(w) == w;
    TurnsInjective(Xor(s, v), Xor(s, w), 32);
    forall k | 0 <= k < 32
      ensures v[k] == w[k]
    {
      assert Xor(s, v)[k] == Xor(s, w)[k];
    }
  }

  lemma {:induction false} Zeros(n: nat)
    ensures Turns(ZERO, n) == ZERO
  {
    if n > 0 {
      Zeros(n - 1);
      assert Turn(ZERO) == ZERO;
    }
  }

  /** Feeding a 32-bit word to a register leaves zero just when the word was the register. */
  lemma FeedWord(s: Word, w: Word)
    ensures Feed(s, w) == ZERO <==> w == s
  {
    AbsorbWhole(s, s);
    assert Place(s) == s && Xor(s, s) == ZERO;
    Zeros(32);
    if Feed(s, w) == ZERO {
      SameWord(s, s, w);
    }
  }

  /** The residue law: a message is sealed exactly when the register ends at zero over all of it. */
  lemma Residue(data: seq<Byte>)
    requires |data| >= 4
    ensures Sealed(data) <==> Crc(data) == ZERO
  {
    var m, c := data[..|data| - 4], data[|data| - 4..];
    assert data == m + c;
    BitsConcat(m, c);
    FeedConcat(INITIAL, Bits(m), Bits(c));
    FeedWord(Crc(m), Bits(c));
    PackedWord(Crc(m));
    if Bits(c) == Crc(m) {
      BitsInjective(c, ToBeBytes(Crc(m)));
    }
  }

  /** Streams that agree outside one 32-bit window and drive the register alike are equal. */
  lemma StreamBurst(crc: Word, x: seq<bool>, y: seq<bool>, i: nat)
    requires i + 32 <= |x| == |y|
    requires forall p :: 0 <= p < |x| && !(i <= p < i + 32) ==> x[p] == y[p]
    requires Feed(crc, x) == Feed(crc, y)
    ensures x == y
  {
    hide Feed;
    assert x[..i] == y[..i];
    assert x[i + 32..] == y[i + 32..];
    assert x[i..i + 32] == y[i..i + 32] by {
      FeedWindow(crc, x, i);
      FeedWindow(crc, y, i);
      var s := Feed(crc, x[..i]);
      FeedInjective(Feed(s, x[i..i + 32]), Feed(s, y[i..i + 32]), x[i + 32..]);
      SameWord(s, x[i..i + 32], y[i..i + 32]);
    }
    forall p | i <= p < i + 32
      ensures x[p] == y[p]
    {
      assert x[p] == x[i..i + 32][p - i] && y[p] == y[i..i + 32][p - i];
    }
  }

  /** Two sealed messages of one length that agree outside some 32 consecutive bits are equal. */
  lemma BitBurstDetected(a: seq<Byte>, b: seq<Byte>, i: nat)
    requires |a| == |b| && Sealed(a) && Sealed(b)
    requires i + 32 <= 8 * |a|
    requires forall p :: 0 <= p < 8 * |a| && !(i <= p < i + 32) ==> Bits(a)[p] == Bits(b)[p]
    ensures a == b
  {
    Residue(a);
    Residue(b);
    StreamBurst(INITIAL, Bits(a), Bits(b), i);
    BitsInjective(a, b);
  }

  /** Any change to a sealed message confined to four consecutive bytes, in the message, in
      the stored CRC or across both, leaves it unsealed. */
  lemma ByteBurstDetected(a: seq<Byte>, b: seq<Byte>, i: nat)
    requires |a| == |b| && Sealed(a) && a != b
    requires forall k :: 0 <= k < |a| && !(i <= k < i + 4) ==> a[k] == b[k]
    ensures !Sealed(b)
  {
    var start := if i + 4 <= |a| then i else |a| - 4;
    forall p | 0 <= p < 8 * |a| && !(8 * start <= p < 8 * start + 32)
      ensures Bits(a)[p] == Bits(b)[p]
    {
      assert a[p / 8] == b[p / 8];
    }
    if Sealed(b) {
      BitBurstDetected(a, b, 8 * start);
    }
  }
}
