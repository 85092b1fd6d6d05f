/** The bit writer of src/scte35.rs and the bit reader of src/tools_api.rs and src/esam.rs. */
module BitIO {
  import opened Bytes

  // ---- Numbers as bits ----

  function Pow2(n: nat): (p: nat)
    ensures p > 0
  {
    if n == 0 then 1 else 2 * Pow2(n - 1)
  }

  /** `v >> n`. */
  function Shr(v: nat, n: nat): nat {
    if n == 0 then v else Shr(v / 2, n - 1)
  }

  /** The low `n` bits of `v`, most significant first. */
  function ToBits(v: nat, n: nat): (s: seq<bool>)
    ensures |s| == n
  {
    if n == 0 then [] else ToBits(v / 2, n - 1) + [v % 2 == 1]
  }

  /** The number a bit string spells. */
  function Value(bits: seq<bool>): nat {
    if bits == [] then 0
    else 2 * Value(bits[..|bits| - 1]) + (if bits[|bits| - 1] then 1 else 0)
  }

  lemma {:induction false} ToBitsAt(v: nat, n: nat, i: nat)
    requires i < n
    ensures ToBits(v, n)[n - 1 - i] == (Shr(v, i) % 2 == 1)
  {
    if i > 0 {
      ToBitsAt(v / 2, n - 1, i - 1);
    }
  }

  lemma {:induction false} ValueOfToBits(v: nat, n: nat)
    ensures Value(ToBits(v, n)) == v % Pow2(n)
  {
    if n > 0 {
      ValueOfToBits(v / 2, n - 1);
      assert ToBits(v, n)[..n - 1] == ToBits(v / 2, n - 1);
      HalfThenDouble(v, Pow2(n - 1));
    }
  }

  lemma HalfThenDouble(v: nat, p: nat)
    requires p > 0
    ensures v % (2 * p) == 2 * (v / 2 % p) + v % 2
  {
    var q, r := v / 2 / p, v / 2 % p;
    assert v / 2 == q * p + r;
    assert v == q * (2 * p) + (2 * r + v % 2);
    Remainder(v, 2 * p, q, 2 * r + v % 2);
  }

  lemma {:induction false} ToBitsOfValue(s: seq<bool>)
    ensures Value(s) < Pow2(|s|)
    ensures ToBits(Value(s), |s|) == s
  {
    if s != [] {
      ToBitsOfValue(s[..|s| - 1]);
    }
  }

  lemma {:induction false} ValueConcat(a: seq<bool>, b: seq<bool>)
    ensures Value(a + b) == Value(a) * Pow2(|b|) + Value(b)
  {
    if b == [] {
      assert a + b == a;
    } else {
      var c, p := b[..|b| - 1], Pow2(|b| - 1);
      ValueConcat(a, c);
      assert (a + b)[..|a + b| - 1] == a + c;
      calc {
        Value(a + b);
        2 * (Value(a) * p + Value(c)) + (if b[|b| - 1] then 1 else 0);
        2 * (Value(a) * p) + Value(b);
        { assert 2 * (Value(a) * p) == Value(a) * (2 * p); }
        Value(a) * Pow2(|b|) + Value(b);
      }
    }
  }

  /** Two adjacent fields are one wider field. */
  lemma MergeFields(v: nat, m: nat, w: nat, n: nat)
    requires w < Pow2(n)
    ensures ToBits(v, m) + ToBits(w, n) == ToBits(v * Pow2(n) + w, m + n)
    decreases n
  {
    if n == 0 {
      assert ToBits(v, m) + [] == ToBits(v, m);
    } else {
      MergeFields(v, m, w / 2, n - 1);
      var whole := v * Pow2(n) + w;
      assert whole == 2 * (v * Pow2(n - 1)) + w;
      assert whole / 2 == v * Pow2(n - 1) + w / 2 && whole % 2 == w % 2;
      assert ToBits(w, n) == ToBits(w / 2, n - 1) + [w % 2 == 1];
    }
  }

  // ---- Reading a byte string at a bit position ----

  function Peek(data: seq<Byte>, p: nat, n: nat): nat
    requires p + n <= 8 * |data|
  {
    Value(Bits(data)[p..p + n])
  }

  lemma PeekSplit(data: seq<Byte>, p: nat, m: nat, n: nat)
    requires p + m + n <= 8 * |data|
    ensures Peek(data, p, m + n) == Peek(data, p, m) * Pow2(n) + Peek(data, p + m, n)
  {
    var s := Bits(data);
    assert s[p..p + m + n] == s[p..p + m] + s[p + m..p + m + n];
    ValueConcat(s[p..p + m], s[p + m..p + m + n]);
  }

  lemma PeekBit(data: seq<Byte>, k: nat, i: nat)
    requires k < |data| && i < 8
    ensures Peek(data, 8 * k + i, 1) == if BitOf(data[k], i) then 1 else 0
  {
    var s := Bits(data)[8 * k + i..8 * k + i + 1];
    assert Bits(data)[8 * k + i] == BitOf(data[(8 * k + i) / 8], (8 * k + i) % 8);
    assert s == [BitOf(data[k], i)];
    assert s[..1] == s && s[..0] == [];
    ValuePrefix(s, 0);
  }

  lemma ValuePrefix(s: seq<bool>, k: nat)
    requires k < |s|
    ensures Value(s[..k + 1]) == 2 * Value(s[..k]) + (if s[k] then 1 else 0)
  {
    assert s[..k + 1][..k] == s[..k];
  }

  lemma ValueOfFour(s: seq<bool>)
    requires |s| == 4
    ensures Value(s) == (if s[0] then 8 else 0) + (if s[1] then 4 else 0)
                        + (if s[2] then 2 else 0) + (if s[3] then 1 else 0)
  {
    assert s[..0] == [] && s[..4] == s;
    ValuePrefix(s, 0);
    ValuePrefix(s, 1);
    ValuePrefix(s, 2);
    ValuePrefix(s, 3);
  }

  lemma ValueOfEight(s: seq<bool>)
    requires |s| == 8
    ensures Value(s) == PackByte(s)
  {
    assert Pow2(4) == 16;
    hide Value, Pow2;
    assert s == s[..4] + s[4..];
    ValueConcat(s[..4], s[4..]);
    ValueOfFour(s[..4]);
    ValueOfFour(s[4..]);
  }

  lemma UnpackedByte(b: Byte)
    ensures PackByte(Bits([b])) == b
  {
    ByteBits(b);
    BitsOfOne(b);
  }

  lemma PeekByte(data: seq<Byte>, k: nat)
    requires k < |data|
    ensures Peek(data, 8 * k, 8) == data[k]
  {
    hide Bits, Value, PackByte;
    BitsSlice(data, k, k + 1);
    assert data[k..k + 1] == [data[k]];
    ValueOfEight(Bits([data[k]]));
    UnpackedByte(data[k]);
  }

  lemma PeekWord16(data: seq<Byte>, k: nat)
    requires k + 2 <= |data|
    ensures Peek(data, 8 * k, 16) == Be16(data, k)
  {
    PeekSplit(data, 8 * k, 8, 8);
    PeekByte(data, k);
    PeekByte(data, k + 1);
    assert Pow2(8) == 256;
  }

  lemma PeekWord32(data: seq<Byte>, k: nat)
    requires k + 4 <= |data|
    ensures Peek(data, 8 * k, 32) == Be32(data, k)
  {
    PeekSplit(data, 8 * k, 16, 16);
    PeekWord16(data, k);
    PeekWord16(data, k + 2);
    assert Pow2(8) == 256;
    assert Pow2(16) == 0x1_0000;
  }

  lemma PeekWord40(data: seq<Byte>, k: nat)
    requires k + 5 <= |data|
    ensures Peek(data, 8 * k, 40) == Be40(data, k)
  {
    hide Peek, Pow2;
    PeekSplit(data, 8 * k, 8, 32);
    PeekByte(data, k);
    PeekWord32(data, k + 1);
    Pow2Of32();
  }

  /** The 33-bit fields of splice_time() and break_duration() sit behind seven flag bits. */
  lemma PeekWord33(data: seq<Byte>, k: nat)
    requires k + 5 <= |data|
    ensures Peek(data, 8 * k + 7, 33) == Be33(data, k)
  {
    hide Peek, Pow2;
    PeekSplit(data, 8 * k + 7, 1, 32);
    PeekBit(data, k, 7);
    PeekWord32(data, k + 1);
    Pow2Of32();
  }

  lemma PeekTwo(data: seq<Byte>, p: nat)
    requires p + 2 <= 8 * |data|
    ensures Peek(data, p, 2) == 2 * Peek(data, p, 1) + Peek(data, p + 1, 1)
  {
    assert Pow2(1) == 2;
    hide Peek, Pow2;
    PeekSplit(data, p, 1, 1);
  }

  /** device_restrictions, the two lowest bits of the flags byte. */
  lemma PeekLowTwo(data: seq<Byte>, k: nat)
    requires k < |data|
    ensures Peek(data, 8 * k + 6, 2) == data[k] % 4
  {
    hide Peek;
    PeekTwo(data, 8 * k + 6);
    PeekBit(data, k, 6);
    PeekBit(data, k, 7);
    TwoLowest(data[k]);
    hide BitOf;
  }

  lemma TwoLowest(b: Byte)
    ensures b % 4 == (if BitOf(b, 6) then 2 else 0) + (if BitOf(b, 7) then 1 else 0)
  {
    HalfModulus(b, 2, b as int / 4, b % 4);
  }

  lemma ThreeHighest(b: Byte)
    ensures b / 32 == (if BitOf(b, 0) then 4 else 0) + (if BitOf(b, 1) then 2 else 0) + (if BitOf(b, 2) then 1 else 0)
  {
    assert b % 64 == (if BitOf(b, 2) then 32 else 0) + b % 32 by { HalfModulus(b, 32, b as int / 64, b % 64); }
    assert b % 128 == (if BitOf(b, 1) then 64 else 0) + b % 64 by { HalfModulus(b, 64, b as int / 128, b % 128); }
    assert b == (if BitOf(b, 0) then 128 else 0) + b % 128;
    hide BitOf;
  }

  lemma PeekThree(data: seq<Byte>, p: nat)
    requires p + 3 <= 8 * |data|
    ensures Peek(data, p, 3) == 4 * Peek(data, p, 1) + 2 * Peek(data, p + 1, 1) + Peek(data, p + 2, 1)
  {
    assert Pow2(1) == 2;
    hide Peek, Pow2;
    PeekSplit(data, p, 1, 1);
    PeekSplit(data, p, 2, 1);
  }

  /** dtmf_count, the three highest bits of its byte. */
  lemma PeekHighThree(data: seq<Byte>, k: nat)
    requires k < |data|
    ensures Peek(data, 8 * k, 3) == data[k] / 32
  {
    hide Peek;
    PeekThree(data, 8 * k);
    PeekBit(data, k, 0);
    PeekBit(data, k, 1);
    PeekBit(data, k, 2);
    ThreeHighest(data[k]);
    hide BitOf;
  }

  lemma Pow2Of32()
    ensures Pow2(32) == 0x1_0000_0000
  {
    assert Pow2(8) == 256;
    assert Pow2(16) == 0x1_0000;
    assert Pow2(24) == 0x100_0000;
  }

  // ---- The writer ----

  /** `b` with bit `j` set to `bit`. */
  function SetBit(b: Byte, j: nat, bit: bool): Byte
    requires j < 8
  {
    PackByte(Bits([b])[j := bit])
  }

  lemma SetBitInPlace(data: seq<Byte>, k: nat, j: nat, bit: bool)
    requires k < |data| && j < 8
    ensures Bits(data[k := SetBit(data[k], j, bit)]) == Bits(data)[8 * k + j := bit]
  {
    hide BitOf, PackByte;
    var b := SetBit(data[k], j, bit);
    PackedByte(Bits([data[k]])[j := bit]);
    OneByteChanged(data, k, b);
    var lhs, rhs := Bits(data[k := b]), Bits(data)[8 * k + j := bit];
    forall p | 0 <= p < 8 * |data|
      ensures lhs[p] == rhs[p]
    {
      BitAt(data, p);
      if p / 8 == k {
        BitAt([data[k]], p % 8);
      }
    }
  }

  lemma OneByteChanged(data: seq<Byte>, k: nat, b: Byte)
    requires k < |data|
    ensures var was, now, own := Bits(data), Bits(data[k := b]), Bits([b]);
            forall p :: 0 <= p < 8 * |data| ==> now[p] == if p / 8 == k then own[p % 8] else was[p]
  {
    hide BitOf;
    var was, now, own := Bits(data), Bits(data[k := b]), Bits([b]);
    forall p | 0 <= p < 8 * |data|
      ensures now[p] == if p / 8 == k then own[p % 8] else was[p]
    {
      BitAt(data[k := b], p);
      BitAt(data, p);
      BitAt([b], p % 8);
    }
  }

  /** Just enough bytes for `bitpos` bits, and zeros after the last of them. */
  ghost predicate Packed(bytes: seq<Byte>, bitpos: nat) {
    && |bytes| == (bitpos + 7) / 8
    && forall p :: bitpos <= p < 8 * |bytes| ==> !Bits(bytes)[p]
  }

  lemma Grow(bytes: seq<Byte>, bitpos: nat)
    requires Packed(bytes, bitpos)
    ensures var ext := if bitpos / 8 >= |bytes| then bytes + [0] else bytes;
            && |ext| == (bitpos + 8) / 8
            && (forall p :: bitpos <= p < 8 * |ext| ==> !Bits(ext)[p])
            && Bits(ext)[..bitpos] == Bits(bytes)[..bitpos]
  {
    if bitpos / 8 >= |bytes| {
      BitsConcat(bytes, [0]);
      assert bitpos == 8 * |bytes|;
      assert forall i :: 0 <= i < 8 ==> !Bits([0])[i];
    }
  }

  lemma AppendBit(bytes: seq<Byte>, bitpos: nat, bit: bool)
    requires Packed(bytes, bitpos)
    ensures var k, ext := bitpos / 8, if bitpos / 8 >= |bytes| then bytes + [0] else bytes;
            && k < |ext| && !BitOf(ext[k], bitpos % 8)
            && var out := ext[k := SetBit(ext[k], bitpos % 8, bit)];
            && Packed(out, bitpos + 1) && Bits(out)[..bitpos + 1] == Bits(bytes)[..bitpos] + [bit]
  {
    hide SetBit, BitOf;
    var k, j := bitpos / 8, bitpos % 8;
    var ext := if k >= |bytes| then bytes + [0] else bytes;
    Grow(bytes, bitpos);
    BitAt(ext, bitpos);
    SetBitInPlace(ext, k, j, bit);
    hide Bits;
    var out := ext[k := SetBit(ext[k], j, bit)];
    assert Bits(out)[..bitpos + 1] == Bits(ext)[..bitpos] + [bit];
  }

  lemma BitAt(data: seq<Byte>, p: nat)
    requires p < 8 * |data|
    ensures Bits(data)[p] == BitOf(data[p / 8], p % 8)
  {
  }

  /** An append-only bit buffer whose earlier fields can be patched. */
  class BitWriter {
    var bytes: seq<Byte>
    var bitpos: nat

    ghost predicate Valid()
      reads this
    {
      Packed(bytes, bitpos)
    }

    ghost function Written(): seq<bool>
      reads this
      requires Valid()
    {
      Bits(bytes)[..bitpos]
    }

    constructor ()
      ensures Valid() && bitpos == 0 && Written() == []
    {
      bytes := [];
      bitpos := 0;
    }

    method WriteBits(val: nat, nbits: nat)
      requires Valid()
      modifies this
      ensures Valid() && bitpos == old(bitpos) + nbits
      ensures Written() == old(Written()) + ToBits(val, nbits)
    {
      hide ToBits, Bits, SetBit, Shr, BitOf;
      ghost var before, spelled := Written(), ToBits(val, nbits);
      var i := nbits;
      while i > 0
        invariant 0 <= i <= nbits
        invariant Valid() && bitpos == old(bitpos) + (nbits - i)
        invariant Written() == before + spelled[..nbits - i]
      {
        i := i - 1;
        var bit := Shr(val, i) % 2 == 1;
        ToBitsAt(val, nbits, i);
        AppendBit(bytes, bitpos, bit);
        assert before + spelled[..nbits - i] == before + spelled[..nbits - i - 1] + [bit];
        var byteIdx := bitpos / 8;
        if byteIdx >= |bytes| {
          bytes := bytes + [0];
        }
        bytes := bytes[byteIdx := SetBit(bytes[byteIdx], bitpos % 8, bit || BitOf(bytes[byteIdx], bitpos % 8))];
        bitpos := bitpos + 1;
      }
    }

    /** Overwrites one bit; a position beyond the buffer is ignored. */
    method PatchBit(at: nat, bit: bool)
      requires Valid()
      modifies this`bytes
      ensures Bits(bytes) == if at < 8 * |old(bytes)| then Bits(old(bytes))[at := bit] else Bits(old(bytes))
      ensures at < bitpos ==> Valid() && Written() == old(Written())[at := bit]
    {
      hide SetBit;
      var byteIdx := at / 8;
      if byteIdx < |bytes| {
        SetBitInPlace(bytes, byteIdx, at % 8, false);
        ghost var cleared := bytes[byteIdx := SetBit(bytes[byteIdx], at % 8, false)];
        SetBitInPlace(cleared, byteIdx, at % 8, bit);
        assert Bits(cleared)[at] == BitOf(cleared[at / 8], at % 8);
        bytes := bytes[byteIdx := SetBit(bytes[byteIdx], at % 8, false)];
        bytes := bytes[byteIdx := SetBit(bytes[byteIdx], at % 8, bit || BitOf(bytes[byteIdx], at % 8))];
      }
    }

    method PatchBits(at: nat, val: nat, nbits: nat)
      requires Valid()
      requires at + nbits <= bitpos
      modifies this`bytes
      ensures Valid() && Written() == Splice(old(Written()), at, ToBits(val, nbits))
    {
      hide Bits, ToBits, Shr;
      ghost var before := Written();
      for i := 0 to nbits
        invariant Valid()
        invariant Written() == Splice(before, at, ToBits(val, nbits)[..i])
      {
        ToBitsAt(val, nbits, nbits - 1 - i);
        PatchBit(at + i, Shr(val, nbits - 1 - i) % 2 == 1);
      }
    }
  }

  // ---- The reader ----

  lemma PeekNext(data: seq<Byte>, p: nat, n: nat)
    requires p + n < 8 * |data|
    ensures Peek(data, p, n + 1) == 2 * Peek(data, p, n) + if BitOf(data[(p + n) / 8], (p + n) % 8) then 1 else 0
  {
    assert Pow2(1) == 2;
    hide Peek, Pow2, BitOf;
    PeekSplit(data, p, n, 1);
    PeekBit(data, (p + n) / 8, (p + n) % 8);
  }

  /** A cursor over a byte string; a failed operation leaves the cursor where the code does. */
  class BitReader {
    const data: seq<Byte>
    var bitpos: nat

    constructor (data: seq<Byte>)
      ensures this.data == data && bitpos == 0
    {
      this.data := data;
      bitpos := 0;
    }

    method ReadBits(nbits: nat) returns (r: Option<nat>)
      modifies this`bitpos
      ensures nbits == 0 || old(bitpos) + nbits <= 8 * |data| ==> r.Some? && bitpos == old(bitpos) + nbits
      ensures old(bitpos) + nbits <= 8 * |data| ==> r == Some(Peek(data, old(bitpos), nbits))
      ensures 0 < nbits && old(bitpos) + nbits > 8 * |data| ==>
                r.None? && bitpos == if old(bitpos) < 8 * |data| then 8 * |data| else old(bitpos)
    {
      var v: nat := 0;
      for i := 0 to nbits
        invariant bitpos == old(bitpos) + i
        invariant i == 0 || bitpos <= 8 * |data|
        invariant i == 0 ==> v == 0
        invariant bitpos <= 8 * |data| ==> v == Peek(data, old(bitpos), i)
      {
        var idx := bitpos / 8;
        if idx >= |data| {
          return None;
        }
        var bit := BitOf(data[idx], bitpos % 8);
        PeekNext(data, old(bitpos), i);
        v := 2 * v + if bit then 1 else 0;
        bitpos := bitpos + 1;
      }
      return Some(v);
    }

    /** Skipping checks only the byte the cursor lands in. */
    method SkipBits(nbits: nat) returns (r: Option<()>)
      modifies this`bitpos
      ensures bitpos == old(bitpos) + nbits
      ensures r.Some? <==> bitpos / 8 <= |data|
    {
      bitpos := bitpos + nbits;
      if bitpos / 8 > |data| {
        return None;
      }
      return Some(());
    }
  }

  // ---- Writing, patching and reading back ----

  datatype Field = Field(value: nat, width: nat)

  datatype Patch = Patch(at: nat, value: nat, width: nat)

  /** The bit stream a sequence of writes produces. */
  function Emit(fields: seq<Field>): seq<bool> {
    if fields == [] then []
    else Emit(fields[..|fields| - 1]) + ToBits(fields[|fields| - 1].value, fields[|fields| - 1].width)
  }

  predicate InRange(patches: seq<Patch>, size: nat) {
    forall p :: p in patches ==> p.at + p.width <= size
  }

  predicate Clear(patches: seq<Patch>, at: nat, width: nat) {
    forall p :: p in patches ==> p.at + p.width <= at || at + width <= p.at
  }

  /** The stream after a sequence of patches. */
  function Patched(bits: seq<bool>, patches: seq<Patch>): (r: seq<bool>)
    requires InRange(patches, |bits|)
    ensures |r| == |bits|
    decreases |patches|
  {
    if patches == [] then bits
    else
      var p := patches[0];
      Patched(Splice(bits, p.at, ToBits(p.value, p.width)), patches[1..])
  }

  /** Where field `k` of a script starts. */
  function Offset(fields: seq<Field>, k: nat): nat
    requires k <= |fields|
  {
    if k == 0 then 0 else Offset(fields, k - 1) + fields[k - 1].width
  }

  lemma {:induction false} EmitSlices(fields: seq<Field>, k: nat)
    requires k < |fields|
    ensures |Emit(fields)| == Offset(fields, |fields|)
    ensures Offset(fields, k) + fields[k].width <= |Emit(fields)|
    ensures Emit(fields)[Offset(fields, k)..Offset(fields, k) + fields[k].width]
            == ToBits(fields[k].value, fields[k].width)
  {
    var n := |fields| - 1;
    var front := fields[..n];
    OffsetPrefix(fields, n, n);
    if n == 0 {
      assert front == [];
    } else {
      EmitSlices(front, if k < n then k else 0);
      if k < n {
        OffsetPrefix(fields, n, k);
      }
    }
  }

  lemma {:induction false} OffsetPrefix(fields: seq<Field>, n: nat, k: nat)
    requires k <= n <= |fields|
    ensures Offset(fields[..n], k) == Offset(fields, k)
  {
    if k > 0 {
      OffsetPrefix(fields, n, k - 1);
    }
  }

  /** Bits outside every patch keep what was written. */
  lemma {:induction false} PatchedElsewhere(bits: seq<bool>, patches: seq<Patch>, at: nat, width: nat)
    requires InRange(patches, |bits|) && at + width <= |bits|
    requires Clear(patches, at, width)
    ensures Patched(bits, patches)[at..at + width] == bits[at..at + width]
    decreases |patches|
  {
    if patches != [] {
      var p := patches[0];
      var once := Splice(bits, p.at, ToBits(p.value, p.width));
      assert p in patches;
      PatchedElsewhere(once, patches[1..], at, width);
      assert once[at..at + width] == bits[at..at + width];
    }
  }

  /** A written field reads back as its value modulo its width, wherever no patch touches it. */
  lemma WrittenFieldReadsBack(fields: seq<Field>, patches: seq<Patch>, k: nat)
    requires k < |fields| && InRange(patches, |Emit(fields)|)
    requires Clear(patches, Offset(fields, k), fields[k].width)
    ensures Offset(fields, k) + fields[k].width <= |Emit(fields)|
    ensures Value(Patched(Emit(fields), patches)[Offset(fields, k)..Offset(fields, k) + fields[k].width])
            == fields[k].value % Pow2(fields[k].width)
  {
    hide Emit, Offset, Patched, ToBits, Value, Pow2;
    var at, f := Offset(fields, k), fields[k];
    EmitSlices(fields, k);
    PatchedElsewhere(Emit(fields), patches, at, f.width);
    ValueOfToBits(f.value, f.width);
  }

  /** A reader positioned at a field of a writer's bytes reads that value back. */
  lemma WriterReaderInverse(bytes: seq<Byte>, bitpos: nat, fields: seq<Field>, patches: seq<Patch>, k: nat)
    requires k < |fields| && InRange(patches, |Emit(fields)|)
    requires Clear(patches, Offset(fields, k), fields[k].width)
    requires bitpos <= 8 * |bytes| && Bits(bytes)[..bitpos] == Patched(Emit(fields), patches)
    ensures Offset(fields, k) + fields[k].width <= 8 * |bytes|
    ensures Peek(bytes, Offset(fields, k), fields[k].width) == fields[k].value % Pow2(fields[k].width)
  {
    hide Emit, Offset, Patched, Value, Pow2, Bits;
    var p, n := Offset(fields, k), fields[k].width;
    WrittenFieldReadsBack(fields, patches, k);
    assert Bits(bytes)[..bitpos][p..p + n] == Bits(bytes)[p..p + n];
  }

  /** A patched range reads back as the last patch that covers it, when later ones miss it. */
  lemma {:induction false} PatchReadsBack(bits: seq<bool>, patches: seq<Patch>, k: nat)
    requires InRange(patches, |bits|) && k < |patches|
    requires Clear(patches[k + 1..], patches[k].at, patches[k].width)
    ensures patches[k] in patches
    ensures Value(Patched(bits, patches)[patches[k].at..patches[k].at + patches[k].width])
            == patches[k].value % Pow2(patches[k].width)
    decreases |patches|
  {
    hide Value, Pow2, ToBits, Clear;
    var p := patches[0];
    var once := Splice(bits, p.at, ToBits(p.value, p.width));
    if k == 0 {
      PatchedElsewhere(once, patches[1..], p.at, p.width);
      assert once[p.at..p.at + p.width] == ToBits(p.value, p.width);
      ValueOfToBits(p.value, p.width);
    } else {
      assert patches[1..][k - 1 + 1..] == patches[k + 1..];
      PatchReadsBack(once, patches[1..], k - 1);
    }
  }

  // ---- Scripts on the writer and the reader ----

  /** One more patch is spliced in last. */
  lemma {:induction false} PatchedSnoc(bits: seq<bool>, patches: seq<Patch>, q: Patch)
    requires InRange(patches, |bits|) && q.at + q.width <= |bits|
    ensures InRange(patches + [q], |bits|)
    ensures Patched(bits, patches + [q]) == Splice(Patched(bits, patches), q.at, ToBits(q.value, q.width))
    decreases |patches|
  {
    if patches == [] {
      assert [] + [q] == [q] && [q][1..] == [];
    } else {
      var p := patches[0];
      assert p in patches;
      assert (patches + [q])[1..] == patches[1..] + [q];
      PatchedSnoc(Splice(bits, p.at, ToBits(p.value, p.width)), patches[1..], q);
    }
  }

  /** The bit at `p` that the last patch covering it wrote, or else the bit written there. */
  function LastBit(bits: seq<bool>, patches: seq<Patch>, p: nat): bool
    requires p < |bits|
  {
    if patches == [] then bits[p]
    else
      var q := patches[|patches| - 1];
      if q.at <= p < q.at + q.width then ToBits(q.value, q.width)[p - q.at]
      else LastBit(bits, patches[..|patches| - 1], p)
  }

  /** However patches overlap, each bit is that of the last patch covering it, else the one written. */
  lemma {:induction false} PatchedBit(bits: seq<bool>, patches: seq<Patch>, p: nat)
    requires InRange(patches, |bits|) && p < |bits|
    ensures Patched(bits, patches)[p] == LastBit(bits, patches, p)
    decreases |patches|
  {
    if patches != [] {
      var n := |patches| - 1;
      assert patches == patches[..n] + [patches[n]];
      PatchedBit(bits, patches[..n], p);
      PatchedSnoc(bits, patches[..n], patches[n]);
    }
  }

  lemma {:induction false} EmitSize(fields: seq<Field>)
    ensures |Emit(fields)| == Offset(fields, |fields|)
  {
    if fields != [] {
      var n := |fields| - 1;
      EmitSize(fields[..n]);
      OffsetPrefix(fields, n, n);
    }
  }

  lemma {:induction false} OffsetMonotone(fields: seq<Field>, j: nat, k: nat)
    requires j <= k <= |fields|
    ensures Offset(fields, j) <= Offset(fields, k)
  {
    if j < k {
      OffsetMonotone(fields, j, k - 1);
    }
  }

  /** A run of the writer: every field in turn, then every patch in turn. */
  method RunScript(fields: seq<Field>, patches: seq<Patch>) returns (w: BitWriter)
    requires InRange(patches, |Emit(fields)|)
    ensures fresh(w) && w.Valid() && w.bitpos == |Emit(fields)|
    ensures w.Written() == Patched(Emit(fields), patches)
  {
    hide Emit, Patched, ToBits, Bits;
    w := new BitWriter();
    assert Emit([]) == [] by { EmptyScript(); }
    for i := 0 to |fields|
      invariant fresh(w) && w.Valid() && w.Written() == Emit(fields[..i]) && w.bitpos == |Emit(fields[..i])|
    {
      w.WriteBits(fields[i].value, fields[i].width);
      EmitMore(fields, i);
    }
    assert fields[..|fields|] == fields;
    EmptyPatches(Emit(fields));
    for i := 0 to |patches|
      invariant fresh(w) && w.Valid() && w.bitpos == |Emit(fields)|
      invariant InRange(patches[..i], |Emit(fields)|) && w.Written() == Patched(Emit(fields), patches[..i])
    {
      assert patches[i] in patches;
      w.PatchBits(patches[i].at, patches[i].value, patches[i].width);
      PatchedSnoc(Emit(fields), patches[..i], patches[i]);
      assert patches[..i + 1] == patches[..i] + [patches[i]];
    }
    assert patches[..|patches|] == patches;
  }

  lemma EmptyScript()
    ensures Emit([]) == []
  {
  }

  lemma EmptyPatches(bits: seq<bool>)
    ensures Patched(bits, []) == bits
  {
  }

  lemma EmitMore(fields: seq<Field>, i: nat)
    requires i < |fields|
    ensures Emit(fields[..i + 1]) == Emit(fields[..i]) + ToBits(fields[i].value, fields[i].width)
  {
    assert fields[..i + 1][..i] == fields[..i];
  }

  /** The values of the first fields, each read where the script puts it. */
  predicate ReadsAs(data: seq<Byte>, fields: seq<Field>, values: seq<nat>) {
    && |values| <= |fields|
    && forall k :: 0 <= k < |values| ==>
         && Offset(fields, k) + fields[k].width <= 8 * |data|
         && values[k] == Peek(data, Offset(fields, k), fields[k].width)
  }

  lemma ReadsMore(data: seq<Byte>, fields: seq<Field>, values: seq<nat>, v: nat)
    requires ReadsAs(data, fields, values) && |values| < |fields|
    requires var k := |values|;
             && Offset(fields, k) + fields[k].width <= 8 * |data|
             && v == Peek(data, Offset(fields, k), fields[k].width)
    ensures ReadsAs(data, fields, values + [v])
  {
    hide Offset, Peek;
  }

  lemma OffsetNext(fields: seq<Field>, k: nat)
    requires k < |fields|
    ensures Offset(fields, k + 1) == Offset(fields, k) + fields[k].width <= Offset(fields, |fields|)
    ensures Offset(fields, 0) == 0
  {
    OffsetMonotone(fields, k + 1, |fields|);
  }

  /** A reader taking the same widths in turn: it succeeds exactly when the bytes hold them all. */
  method ReadScript(data: seq<Byte>, fields: seq<Field>) returns (r: Option<seq<nat>>)
    ensures r.Some? <==> Offset(fields, |fields|) <= 8 * |data|
    ensures r.Some? ==> |r.value| == |fields| && ReadsAs(data, fields, r.value)
  {
    hide Peek, ReadsAs, Offset;
    var br := new BitReader(data);
    var values: seq<nat> := [];
    assert ReadsAs(data, fields, []) && Offset(fields, 0) == 0 by { ReadsNothing(data, fields); }
    for i := 0 to |fields|
      invariant br.data == data && br.bitpos == Offset(fields, i) <= 8 * |data|
      invariant |values| == i && ReadsAs(data, fields, values)
    {
      OffsetNext(fields, i);
      var v :- br.ReadBits(fields[i].width);
      ReadsMore(data, fields, values, v);
      values := values + [v];
    }
    return Some(values);
  }

  lemma ReadsNothing(data: seq<Byte>, fields: seq<Field>)
    ensures ReadsAs(data, fields, []) && Offset(fields, 0) == 0
  {
  }

  /** Writing, patching and reading back: every field no patch touches returns modulo its width. */
  method WriteThenRead(fields: seq<Field>, patches: seq<Patch>) returns (values: seq<nat>)
    requires InRange(patches, |Emit(fields)|)
    ensures |values| == |fields|
    ensures forall k :: 0 <= k < |fields| && Clear(patches, Offset(fields, k), fields[k].width) ==>
                          values[k] == fields[k].value % Pow2(fields[k].width)
  {
    hide Emit, Patched, Offset, Pow2, Clear, Bits, Peek;
    var w := RunScript(fields, patches);
    EmitSize(fields);
    var r := ReadScript(w.bytes, fields);
    values := r.value;
    forall k | 0 <= k < |fields| && Clear(patches, Offset(fields, k), fields[k].width)
      ensures values[k] == fields[k].value % Pow2(fields[k].width)
    {
      WriterReaderInverse(w.bytes, w.bitpos, fields, patches, k);
    }
  }
}
