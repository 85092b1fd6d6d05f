/** `encode_upid` of src/scte35.rs on UTF-8 text, with the texts on which its slicing panics. */
module Upids {
  import opened Bytes
  import opened Hex

  // ---- Text as bytes ----

  /** The text without the given ASCII characters. */
  function Without(s: seq<Byte>, dropped: set<Byte>): (r: seq<Byte>)
    ensures |r| <= |s|
    ensures forall b :: b in r ==> b in s
  {
    if s == [] then [] else (if s[0] in dropped then [] else [s[0]]) + Without(s[1..], dropped)
  }

  // ---- What the code computes ----

  const DASH: Byte := 0x2D
  const SPACE: Byte := 0x20
  const COLON: Byte := 0x3A

  /** `hex_decode`. */
  function HexDecode(value: seq<Byte>): Outcome<seq<Byte>> {
    var s := Without(value, {DASH, SPACE, COLON});
    if |s| % 2 != 0 then Unchanged else PairsFrom(s, 0)
  }

  /** `parse_uuid`. */
  function ParseUuid(value: seq<Byte>): Outcome<seq<Byte>> {
    var s := Without(value, {DASH, SPACE});
    if |s| != 32 then Unchanged else HexDecode(s)
  }

  const UPID_TI: Byte := 0x08
  const UPID_ADI: Byte := 0x09
  const UPID_UUID: Byte := 0x0B

  /** `encode_upid`: text that is no number stands for itself; None is a panic. */
  function EncodeUpid(upidType: Byte, value: seq<Byte>): Option<seq<Byte>> {
    var decoded := if upidType == UPID_TI || upidType == UPID_ADI then HexDecode(value)
                   else if upidType == UPID_UUID then ParseUuid(value)
                   else Unchanged;
    match decoded
    case Crash => None
    case Unchanged => Some(value)
    case Edited(b) => Some(b)
  }

  // ---- The code ----

  method DecodeHex(value: seq<Byte>) returns (r: Outcome<seq<Byte>>)
    ensures r == HexDecode(value)
  {
    var s := Without(value, {DASH, SPACE, COLON});
    if |s| % 2 != 0 {
      return Unchanged;
    }
    r := DecodePairs(s);
  }

  // ---- What it reads ----

  /** What `hex_decode` returns: the bytes whose digits the text spells once dashes, spaces and colons
      are gone; a panic if a character straddles a pair behind pairs that are all numbers; and
      nothing for every other text. */
  lemma HexDecodeMeans(value: seq<Byte>, b: seq<Byte>)
    ensures var s := Without(value, {DASH, SPACE, COLON});
            && (HexDecode(value) == Edited(b) <==> BytePairs(s, 0, b))
            && (HexDecode(value).Crash? <==> Straddles(s))
  {
    hide Without, PairsFrom, PairAt;
    var s := Without(value, {DASH, SPACE, COLON});
    if |s| % 2 == 0 {
      PairsRead(s, 0, b);
      PairsPanic(s, 0);
    }
  }

  // ---- When it panics ----

  /** The texts on which `encode_upid` panics, for each type. */
  lemma EncodePanics(upidType: Byte, value: seq<Byte>)
    ensures EncodeUpid(upidType, value).None? <==>
            || (upidType in {UPID_TI, UPID_ADI} && Straddles(Without(value, {DASH, SPACE, COLON})))
            || (upidType == UPID_UUID && |Without(value, {DASH, SPACE})| == 32
                && Straddles(Without(Without(value, {DASH, SPACE}), {DASH, SPACE, COLON})))
  {
    hide Without;
    forall s: seq<Byte> | |s| % 2 == 0
      ensures PairsFrom(s, 0).Crash? <==> Straddles(s)
    {
      PairsPanic(s, 0);
    }
  }

  /** ASCII text never panics. */
  lemma EncodeAscii(upidType: Byte, value: seq<Byte>)
    requires forall b :: b in value ==> b < 0x80
    ensures EncodeUpid(upidType, value).Some?
  {
    EncodePanics(upidType, value);
    var s := Without(value, {DASH, SPACE, COLON});
    var t := Without(Without(value, {DASH, SPACE}), {DASH, SPACE, COLON});
    assert forall k :: 0 <= k < |s| ==> s[k] in s;
    assert forall k :: 0 <= k < |t| ==> t[k] in t;
  }

  /** No text grows. */
  lemma EncodeSize(upidType: Byte, value: seq<Byte>)
    ensures EncodeUpid(upidType, value).Some? ==> |EncodeUpid(upidType, value).value| <= |value|
  {
  }

  /** The first slice of this text ends inside its second character. */
  const STRADDLING: seq<Byte> := [0x61, 0xC3, 0xA9, 0x61]  // "a", U+00E9, "a"

  lemma StraddlingPanics()
    ensures EncodeUpid(UPID_ADI, STRADDLING).None?
  {
    assert NoneDropped(STRADDLING, {DASH, SPACE, COLON});
    KeepsAll(STRADDLING, {DASH, SPACE, COLON});
    assert Straddles(STRADDLING) by { assert Continues(STRADDLING[2 * 0 + 2]); }
    EncodePanics(UPID_ADI, STRADDLING);
  }

  predicate NoneDropped(s: seq<Byte>, dropped: set<Byte>) {
    forall b :: b in s ==> b !in dropped
  }

  lemma {:induction false} KeepsAll(s: seq<Byte>, dropped: set<Byte>)
    requires NoneDropped(s, dropped)
    ensures Without(s, dropped) == s
  {
    if s != [] {
      KeepsAll(s[1..], dropped);
    }
  }

  // ---- What is left out of the text ----

  lemma {:induction false} WithoutConcat(u: seq<Byte>, v: seq<Byte>, dropped: set<Byte>)
    ensures Without(u + v, dropped) == Without(u, dropped) + Without(v, dropped)
  {
    if u == [] {
      assert u + v == v;
    } else {
      assert (u + v)[1..] == u[1..] + v;
      WithoutConcat(u[1..], v, dropped);
    }
  }

  lemma DroppedAnywhere(u: seq<Byte>, c: Byte, v: seq<Byte>, dropped: set<Byte>)
    requires c in dropped
    ensures Without(u + [c] + v, dropped) == Without(u + v, dropped)
  {
    WithoutConcat(u + [c], v, dropped);
    WithoutConcat(u, [c], dropped);
    WithoutConcat(u, v, dropped);
    assert Without([c], dropped) == [];
  }

  /** Dashes and spaces change no UPID of digits, wherever they stand, and colons none but a UUID. */
  lemma PunctuationIgnored(u: seq<Byte>, c: Byte, v: seq<Byte>)
    ensures c in [0x2D, 0x20, 0x3A] ==> HexDecode(u + [c] + v) == HexDecode(u + v)
    ensures c in [0x2D, 0x20] ==> ParseUuid(u + [c] + v) == ParseUuid(u + v)
  {
    hide Without, PairsFrom;
    if c in [0x2D, 0x20, 0x3A] {
      DroppedAnywhere(u, c, v, {DASH, SPACE, COLON});
    }
    if c in [0x2D, 0x20] {
      DroppedAnywhere(u, c, v, {DASH, SPACE});
    }
  }

  /** The text has no dash, no space and no colon. */
  predicate Plain(value: seq<Byte>) {
    forall c :: c in value ==> c !in [0x2D, 0x20, 0x3A]
  }

  lemma PlainKept(value: seq<Byte>)
    requires Plain(value)
    ensures Without(value, {DASH, SPACE, COLON}) == value && Without(value, {DASH, SPACE}) == value
  {
    assert NoneDropped(value, {DASH, SPACE, COLON}) && NoneDropped(value, {DASH, SPACE});
    KeepsAll(value, {DASH, SPACE, COLON});
    KeepsAll(value, {DASH, SPACE});
  }

  /** On such a text the digits are read as they stand, a UUID only from 32 of them. */
  lemma PlainReads(value: seq<Byte>, b: seq<Byte>)
    requires Plain(value)
    ensures HexDecode(value) == Edited(b) <==> BytePairs(value, 0, b)
    ensures ParseUuid(value) == Edited(b) <==> BytePairs(value, 0, b) && |b| == 16
    ensures HexDecode(value).Crash? <==> Straddles(value)
    ensures ParseUuid(value).Crash? <==> Straddles(value) && |value| == 32
  {
    hide Without, PairsFrom, PairAt;
    PlainKept(value);
    HexDecodeMeans(value, b);
  }

  /** What `encode_upid` makes of such a text: bytes of a TI or ADI in digits, sixteen bytes of a UUID
      in digits, and the text itself for everything else. */
  lemma PlainEncodes(upidType: Byte, value: seq<Byte>, b: seq<Byte>)
    requires Plain(value)
    ensures upidType in [0x08, 0x09] && BytePairs(value, 0, b) ==> EncodeUpid(upidType, value) == Some(b)
    ensures upidType == 0x0B && BytePairs(value, 0, b) && |b| == 16 ==> EncodeUpid(upidType, value) == Some(b)
    ensures upidType in [0x08, 0x09] && (forall x :: !BytePairs(value, 0, x)) && !Straddles(value) ==>
              EncodeUpid(upidType, value) == Some(value)
    ensures upidType == 0x0B && ((forall x :: !BytePairs(value, 0, x)) || |value| != 32) && !Straddles(value) ==>
              EncodeUpid(upidType, value) == Some(value)
  {
    hide PairAt, PairsFrom, Without, HexDecode, ParseUuid;
    PlainReads(value, b);
    if HexDecode(value).Edited? {
      PlainReads(value, HexDecode(value).value);
    }
    if ParseUuid(value).Edited? {
      PlainReads(value, ParseUuid(value).value);
    }
  }

  /** For every other type any text stands for itself. */
  lemma OtherTypesKeep(upidType: Byte, value: seq<Byte>)
    requires upidType !in [0x08, 0x09, 0x0B]
    ensures EncodeUpid(upidType, value) == Some(value)
  {
  }

  lemma {:induction false} ColonsLeave(value: seq<Byte>)
    ensures |Without(value, {DASH, SPACE, COLON})| <= |Without(value, {DASH, SPACE})|
    ensures |Without(value, {DASH, SPACE, COLON})| == |Without(value, {DASH, SPACE})| <==> COLON !in value
    ensures Without(Without(value, {DASH, SPACE}), {DASH, SPACE, COLON}) == Without(value, {DASH, SPACE, COLON})
  {
    if value != [] {
      ColonsLeave(value[1..]);
      assert value == [value[0]] + value[1..];
      WithoutConcat([value[0]], value[1..], {DASH, SPACE});
      WithoutConcat([value[0]], value[1..], {DASH, SPACE, COLON});
      WithoutConcat(Without([value[0]], {DASH, SPACE}), Without(value[1..], {DASH, SPACE}), {DASH, SPACE, COLON});
    }
  }

  /** The length test counts colons that decoding then drops, so a decoded UUID has its sixteen bytes
      exactly if the text has no colon. */
  lemma UuidSize(value: seq<Byte>)
    requires ParseUuid(value).Edited?
    ensures |ParseUuid(value).value| == 16 <==> 0x3A !in value
    ensures |ParseUuid(value).value| <= 16
  {
    ColonsLeave(value);
    hide Without, PairsFrom;
  }

  /** Thirty digits and two colons pass for a UUID of fifteen bytes. */
  lemma ShortUuid()
    ensures var value := seq(30, _ => 0x30 as Byte) + [0x3A, 0x3A];
            ParseUuid(value) == Edited(seq(15, _ => 0 as Byte))
  {
    var digits, colons := seq(30, _ => 0x30 as Byte), [0x3A, 0x3A];
    var value := digits + colons;
    var b := seq(15, _ => 0 as Byte);
    WithoutConcat(digits, colons, {DASH, SPACE, COLON});
    WithoutConcat(digits, colons, {DASH, SPACE});
    PlainKept(digits);
    assert Without(colons, {DASH, SPACE, COLON}) == [];
    KeepsAll(colons, {DASH, SPACE});
    hide Without, PairsFrom;
    assert HexPair(0x30 as char, 0x30 as char) == Some(0);
    assert BytePairs(digits, 0, b);
    hide PairAt;
    PlainReads(digits, b);
    HexDecodeMeans(value, b);
    HexDecodeMeans(digits, b);
  }
}
