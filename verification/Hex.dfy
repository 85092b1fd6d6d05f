/** Hexadecimal digits in UTF-8 text, taken two bytes at a time as the code slices them. */
module Hex {
  import opened Bytes

  function HexDigit(c: char): Option<nat> {
    if '0' <= c <= '9' then Some(c as int - '0' as int)
    else if 'a' <= c <= 'f' then Some(c as int - 'a' as int + 10)
    else if 'A' <= c <= 'F' then Some(c as int - 'A' as int + 10)
    else None
  }

  /** `u8::from_str_radix` on two characters, which also takes a leading plus sign. */
  function HexPair(hi: char, lo: char): (r: Option<Byte>)
    ensures HexDigit(hi).Some? && HexDigit(lo).Some? ==> r == Some(16 * HexDigit(hi).value + HexDigit(lo).value)
    ensures r.Some? ==> hi as int < 0x80 && lo as int < 0x80
  {
    if hi == '+' then
      var v :- HexDigit(lo); Some(v)
    else
      var h :- HexDigit(hi);
      var l :- HexDigit(lo);
      Some(16 * h + l)
  }

  // ---- UTF-8 ----

  function Utf8Char(c: char): (s: seq<Byte>)
    ensures c as int < 0x80 ==> s == [c as int]
    ensures c as int >= 0x80 ==> |s| >= 2 && s[0] >= 0xC0
  {
    var n := c as int;
    if n < 0x80 then [n]
    else if n < 0x800 then [0xC0 + n / 0x40, 0x80 + n % 0x40]
    else if n < 0x1_0000 then [0xE0 + n / 0x1000, 0x80 + n / 0x40 % 0x40, 0x80 + n % 0x40]
    else [(0xF0 + n / 0x4_0000 % 8) as Byte, 0x80 + n / 0x1000 % 0x40, 0x80 + n / 0x40 % 0x40, 0x80 + n % 0x40]
  }

  function Utf8(s: string): seq<Byte> {
    if s == "" then [] else Utf8Char(s[0]) + Utf8(s[1..])
  }

  predicate Ascii(s: string) {
    forall c :: c in s ==> c as int < 0x80
  }

  lemma {:induction false} AsciiBytes(s: string)
    requires Ascii(s)
    ensures |Utf8(s)| == |s| && forall i :: 0 <= i < |s| ==> Utf8(s)[i] == s[i] as int
  {
    if s != "" {
      assert s[0] in s && forall c :: c in s[1..] ==> c in s;
      AsciiBytes(s[1..]);
    }
  }

  lemma {:induction false} AsciiText(s: string)
    requires forall b :: b in Utf8(s) ==> b < 0x80
    ensures Ascii(s)
  {
    if s != "" {
      var first, rest := Utf8Char(s[0]), Utf8(s[1..]);
      assert Utf8(s) == first + rest;
      assert first[0] in first + rest && forall b :: b in rest ==> b in first + rest;
      AsciiText(s[1..]);
      assert s == [s[0]] + s[1..];
    }
  }

  // ---- Slices of two bytes ----

  /** A byte inside a character, behind its first. */
  predicate Continues(b: Byte) {
    0x80 <= b < 0xC0
  }

  /** `is_char_boundary`. */
  predicate Boundary(s: seq<Byte>, i: nat)
    requires i <= |s|
  {
    i == 0 || i == |s| || !Continues(s[i])
  }

  function PairAt(s: seq<Byte>, i: nat): Option<Byte>
    requires i + 2 <= |s|
  {
    HexPair(s[i] as char, s[i + 1] as char)
  }

  /** The pairs from `i` on: a slice off a character boundary panics, a pair that is no number gives up. */
  function PairsFrom(s: seq<Byte>, i: nat): (r: Outcome<seq<Byte>>)
    requires |s| % 2 == 0 && i % 2 == 0 && i <= |s|
    ensures r.Edited? ==> 2 * |r.value| == |s| - i
    decreases |s| - i
  {
    if i == |s| then Edited([])
    else if !Boundary(s, i) || !Boundary(s, i + 2) then Crash
    else if PairAt(s, i).None? then Unchanged
    else
      match PairsFrom(s, i + 2)
      case Edited(rest) => Edited([PairAt(s, i).value] + rest)
      case stopped => stopped
  }

  /** An answer behind the bytes already decoded. */
  function Behind(bytes: seq<Byte>, o: Outcome<seq<Byte>>): Outcome<seq<Byte>> {
    if o.Edited? then Edited(bytes + o.value) else o
  }

  lemma BehindMore(bytes: seq<Byte>, b: Byte, o: Outcome<seq<Byte>>)
    ensures Behind([], o) == o
    ensures Behind(bytes, Behind([b], o)) == Behind(bytes + [b], o)
  {
    if o.Edited? {
      assert bytes + ([b] + o.value) == bytes + [b] + o.value && [] + o.value == o.value;
    }
  }

  /** The loop both hexadecimal readers run. */
  method DecodePairs(s: seq<Byte>) returns (r: Outcome<seq<Byte>>)
    requires |s| % 2 == 0
    ensures r == PairsFrom(s, 0)
  {
    hide HexPair;
    var bytes := [];
    var i := 0;
    BehindMore([], 0, PairsFrom(s, 0));
    while i < |s|
      invariant 0 <= i <= |s| && i % 2 == 0
      invariant PairsFrom(s, 0) == Behind(bytes, PairsFrom(s, i))
    {
      if !Boundary(s, i) || !Boundary(s, i + 2) {
        return Crash;
      }
      var b := PairAt(s, i);
      if b.None? {
        return Unchanged;
      }
      BehindMore(bytes, b.value, PairsFrom(s, i + 2));
      bytes := bytes + [b.value];
      i := i + 2;
    }
    assert bytes + [] == bytes;
    return Edited(bytes);
  }

  // ---- What the pairs say ----

  /** Two digits of text for each byte. */
  predicate BytePairs(s: seq<Byte>, i: nat, b: seq<Byte>) {
    && |s| == 2 * i + 2 * |b|
    && forall k :: 0 <= k < |b| ==> PairAt(s, 2 * (i + k)) == Some(b[k])
  }

  lemma {:induction false} PairsRead(s: seq<Byte>, i: nat, b: seq<Byte>)
    requires |s| % 2 == 0 && 2 * i <= |s| && Boundary(s, 2 * i)
    ensures PairsFrom(s, 2 * i) == Edited(b) <==> BytePairs(s, i, b)
    decreases |s| - 2 * i
  {
    hide HexPair;
    if 2 * i < |s| && b != [] {
      if BytePairs(s, i, b) {
        assert PairAt(s, 2 * (i + 0)) == Some(b[0]);
        if |b| > 1 {
          assert PairAt(s, 2 * (i + 1)) == Some(b[1]);
        }
        forall k | 0 <= k < |b[1..]|
          ensures PairAt(s, 2 * (i + 1 + k)) == Some(b[1..][k])
        {
          assert PairAt(s, 2 * (i + (k + 1))) == Some(b[k + 1]);
        }
        assert BytePairs(s, i + 1, b[1..]);
        PairsRead(s, i + 1, b[1..]);
        assert b == [b[0]] + b[1..];
      }
      if PairsFrom(s, 2 * i) == Edited(b) {
        PairsRead(s, i + 1, b[1..]);
        forall k | 0 <= k < |b|
          ensures PairAt(s, 2 * (i + k)) == Some(b[k])
        {
          if k > 0 {
            assert PairAt(s, 2 * (i + 1 + (k - 1))) == Some(b[1..][k - 1]);
          }
        }
      }
    }
  }

  // ---- When a slice panics ----

  predicate StraddlesFrom(s: seq<Byte>, i: nat) {
    && |s| % 2 == 0
    && exists k :: i <= k < |s| / 2 - 1 && Continues(s[2 * k + 2]) && forall j :: i <= j < k ==> PairAt(s, 2 * j).Some?
  }

  /** Some character straddles the end of a pair, and every pair in front of that one is a number. */
  predicate Straddles(s: seq<Byte>) {
    StraddlesFrom(s, 0)
  }

  lemma {:induction false} PairsPanic(s: seq<Byte>, i: nat)
    requires |s| % 2 == 0 && 2 * i <= |s| && Boundary(s, 2 * i)
    ensures PairsFrom(s, 2 * i).Crash? <==> StraddlesFrom(s, i)
    decreases |s| - 2 * i
  {
    hide PairAt;
    if 2 * i < |s| {
      if Boundary(s, 2 * i + 2) {
        PairsPanic(s, i + 1);
        if PairAt(s, 2 * i).Some? && StraddlesFrom(s, i + 1) {
          var k :| i + 1 <= k < |s| / 2 - 1 && Continues(s[2 * k + 2])
                   && forall j :: i + 1 <= j < k ==> PairAt(s, 2 * j).Some?;
          assert forall j :: i <= j < k ==> PairAt(s, 2 * j).Some?;
        }
        if StraddlesFrom(s, i) {
          var k :| i <= k < |s| / 2 - 1 && Continues(s[2 * k + 2])
                   && forall j :: i <= j < k ==> PairAt(s, 2 * j).Some?;
          assert k != i;
        }
      } else {
        assert Continues(s[2 * i + 2]);
      }
    }
  }
}
