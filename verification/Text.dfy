/** The spellings of a message: base64 (section 4 of RFC 4648), hexadecimal and binary text, and
    the one reader that accepts all three. */
module Text {
  import opened Bytes
  import opened BitIO
  import opened Hex

  // ---- Base64 ----

  type Sextet = n: int | 0 <= n < 64

  function Symbol(v: Sextet): char {
    if v < 26 then ('A' as int + v) as char
    else if v < 52 then ('a' as int + (v - 26)) as char
    else if v < 62 then ('0' as int + (v - 52)) as char
    else if v == 62 then '+' else '/'
  }

  function SymbolValue(c: char): Option<Sextet> {
    if 'A' <= c <= 'Z' then Some(c as int - 'A' as int)
    else if 'a' <= c <= 'z' then Some(c as int - 'a' as int + 26)
    else if '0' <= c <= '9' then Some(c as int - '0' as int + 52)
    else if c == '+' then Some(62)
    else if c == '/' then Some(63)
    else None
  }

  // Three octets regrouped as four sextets, and back.

  function Sextet0(b0: Byte): Sextet { b0 / 4 }
  function Sextet1(b0: Byte, b1: Byte): Sextet { b0 % 4 * 16 + b1 / 16 }
  function Sextet2(b1: Byte, b2: Byte): Sextet { b1 % 16 * 4 + b2 / 64 }
  function Sextet3(b2: Byte): Sextet { b2 % 64 }

  function Octet0(v0: Sextet, v1: Sextet): Byte { v0 * 4 + v1 / 16 }
  function Octet1(v1: Sextet, v2: Sextet): Byte { v1 % 16 * 16 + v2 / 4 }
  function Octet2(v2: Sextet, v3: Sextet): Byte { v2 % 4 * 64 + v3 }

  function Encode64(b: seq<Byte>): string {
    if |b| == 0 then ""
    else if |b| == 1 then [Symbol(Sextet0(b[0])), Symbol(Sextet1(b[0], 0)), '=', '=']
    else if |b| == 2 then [Symbol(Sextet0(b[0])), Symbol(Sextet1(b[0], b[1])), Symbol(Sextet2(b[1], 0)), '=']
    else
      [Symbol(Sextet0(b[0])), Symbol(Sextet1(b[0], b[1])), Symbol(Sextet2(b[1], b[2])), Symbol(Sextet3(b[2]))]
      + Encode64(b[3..])
  }

  /** Padding is required and the bits it leaves over must be zero. */
  function Decode64(s: string): Option<seq<Byte>> {
    if |s| == 0 then Some([])
    else if |s| < 4 then None
    else
      var v0 :- SymbolValue(s[0]);
      var v1 :- SymbolValue(s[1]);
      if |s| == 4 && s[2] == '=' && s[3] == '=' then
        if v1 % 16 == 0 then Some([Octet0(v0, v1)]) else None
      else
        var v2 :- SymbolValue(s[2]);
        if |s| == 4 && s[3] == '=' then
          if v2 % 4 == 0 then Some([Octet0(v0, v1), Octet1(v1, v2)]) else None
        else
          var v3 :- SymbolValue(s[3]);
          var rest :- Decode64(s[4..]);
          Some([Octet0(v0, v1), Octet1(v1, v2), Octet2(v2, v3)] + rest)
  }

  lemma SymbolReads(v: Sextet)
    ensures SymbolValue(Symbol(v)) == Some(v) && Symbol(v) != '='
  {
  }

  lemma SymbolWrites(c: char)
    requires SymbolValue(c).Some?
    ensures Symbol(SymbolValue(c).value) == c && c != '='
  {
  }

  lemma Octets(b0: Byte, b1: Byte, b2: Byte)
    ensures var v0, v1, v2, v3 := Sextet0(b0), Sextet1(b0, b1), Sextet2(b1, b2), Sextet3(b2);
            && Octet0(v0, v1) == b0 && Octet1(v1, v2) == b1 && Octet2(v2, v3) == b2
            && (b1 == 0 ==> v1 % 16 == 0) && (b2 == 0 ==> v2 % 4 == 0)
  {
    Remainder(b0 % 4 * 16 + b1 / 16, 16, b0 % 4, b1 / 16);
    Remainder(b1 % 16 * 4 + b2 / 64, 4, b1 % 16, b2 / 64);
  }

  lemma Sextets(v0: Sextet, v1: Sextet, v2: Sextet, v3: Sextet)
    ensures var b0, b1, b2 := Octet0(v0, v1), Octet1(v1, v2), Octet2(v2, v3);
            && Sextet0(b0) == v0 && Sextet1(b0, b1) == v1 && Sextet2(b1, b2) == v2 && Sextet3(b2) == v3
            && (v1 % 16 == 0 ==> Sextet1(b0, 0) == v1) && (v2 % 4 == 0 ==> Sextet2(b1, 0) == v2)
  {
    Remainder(v0 * 4 + v1 / 16, 4, v0, v1 / 16);
    Remainder(v1 % 16 * 16 + v2 / 4, 16, v1 % 16, v2 / 4);
    Remainder(v2 % 4 * 64 + v3, 64, v2 % 4, v3);
  }

  lemma {:induction false} Base64RoundTrip(b: seq<Byte>)
    ensures Decode64(Encode64(b)) == Some(b)
  {
    hide Symbol, SymbolValue, Sextet0, Sextet1, Sextet2, Sextet3, Octet0, Octet1, Octet2;
    if |b| > 0 {
      var b1: Byte := if |b| > 1 then b[1] else 0;
      var b2: Byte := if |b| > 2 then b[2] else 0;
      Octets(b[0], b1, b2);
      SymbolReads(Sextet0(b[0]));
      SymbolReads(Sextet1(b[0], b1));
      SymbolReads(Sextet2(b1, b2));
      SymbolReads(Sextet3(b2));
    }
    if |b| > 2 {
      Base64RoundTrip(b[3..]);
      assert Encode64(b)[4..] == Encode64(b[3..]);
      assert b == [b[0], b[1], b[2]] + b[3..];
    } else if |b| > 0 {
      assert Decode64(Encode64(b)).value == b;
    }
  }

  /** Only the canonical text of a byte string decodes to it. */
  lemma {:induction false} Base64Canonical(s: string)
    requires Decode64(s).Some?
    ensures Encode64(Decode64(s).value) == s
  {
    hide Symbol, SymbolValue, Sextet0, Sextet1, Sextet2, Sextet3, Octet0, Octet1, Octet2;
    if |s| > 0 {
      var v0, v1 := SymbolValue(s[0]).value, SymbolValue(s[1]).value;
      SymbolWrites(s[0]);
      SymbolWrites(s[1]);
      if |s| == 4 && s[2] == '=' && s[3] == '=' {
        Sextets(v0, v1, 0, 0);
      } else if |s| == 4 && s[3] == '=' {
        SymbolWrites(s[2]);
        Sextets(v0, v1, SymbolValue(s[2]).value, 0);
      } else {
        SymbolWrites(s[2]);
        SymbolWrites(s[3]);
        Sextets(v0, v1, SymbolValue(s[2]).value, SymbolValue(s[3]).value);
        Base64Canonical(s[4..]);
        assert Decode64(s).value[3..] == Decode64(s[4..]).value;
      }
    }
  }

  // ---- Hexadecimal ----

  /** `hex_str_to_bytes`: the text is sliced as UTF-8, so a character may straddle the end of a pair. */
  function HexStrToBytes(s: string): Outcome<seq<Byte>> {
    var u := Utf8(s);
    if |u| % 2 != 0 then Unchanged else PairsFrom(u, 0)
  }

  predicate HexPairs(x: string, b: seq<Byte>) {
    && |x| == 2 * |b|
    && forall i :: 0 <= i < |b| ==> HexPair(x[2 * i], x[2 * i + 1]) == Some(b[i])
  }

  lemma HexReads(s: string, b: seq<Byte>)
    ensures HexStrToBytes(s) == Edited(b) <==> HexPairs(s, b)
  {
    hide HexPair, PairsFrom;
    var u := Utf8(s);
    if HexPairs(s, b) {
      PairsAreAscii(s, b);
      AsciiBytes(s);
      SamePairs(s, u, b);
      PairsRead(u, 0, b);
    }
    if HexStrToBytes(s) == Edited(b) {
      PairsRead(u, 0, b);
      BytesAreAscii(u, b);
      AsciiText(s);
      AsciiBytes(s);
      SamePairs(s, u, b);
    }
  }

  lemma PairsAreAscii(s: string, b: seq<Byte>)
    requires HexPairs(s, b)
    ensures Ascii(s)
  {
    forall k | 0 <= k < |s|
      ensures s[k] as int < 0x80
    {
      assert HexPair(s[2 * (k / 2)], s[2 * (k / 2) + 1]) == Some(b[k / 2]);
    }
  }

  lemma BytesAreAscii(u: seq<Byte>, b: seq<Byte>)
    requires BytePairs(u, 0, b)
    ensures forall x :: x in u ==> x < 0x80
  {
    forall k | 0 <= k < |u|
      ensures u[k] < 0x80
    {
      assert PairAt(u, 2 * (0 + k / 2)) == Some(b[k / 2]);
    }
  }

  lemma SamePairs(s: string, u: seq<Byte>, b: seq<Byte>)
    requires |u| == |s| && forall i :: 0 <= i < |s| ==> u[i] == s[i] as int
    ensures HexPairs(s, b) <==> BytePairs(u, 0, b)
  {
    hide HexPair;
    if |s| == 2 * |b| {
      forall i | 0 <= i < |b|
        ensures PairAt(u, 2 * (0 + i)) == HexPair(s[2 * i], s[2 * i + 1])
      {
        assert u[2 * i] as char == s[2 * i] && u[2 * i + 1] as char == s[2 * i + 1];
      }
    }
  }

  predicate AllHex(x: string) {
    forall c :: c in x ==> HexDigit(c).Some?
  }

  /** Two hexadecimal digits a byte, in either case. */
  predicate HexSpelling(x: string, b: seq<Byte>) {
    AllHex(x) && HexPairs(x, b)
  }

  // ---- Binary ----

  predicate AllBinary(x: string) {
    forall c :: c in x ==> c == '0' || c == '1'
  }

  function Digits(x: string): (s: seq<bool>)
    ensures |s| == |x|
  {
    seq(|x|, i requires 0 <= i < |x| => x[i] == '1')
  }

  /** Eight binary digits folded into a byte. */
  function FoldByte(x: string): Byte
    requires |x| == 8
  {
    ValueOfEight(Digits(x));
    Value(Digits(x))
  }

  function FromBinary(x: string): seq<Byte>
    requires |x| % 8 == 0
  {
    seq(|x| / 8, k requires 0 <= k < |x| / 8 => FoldByte(x[8 * k..8 * k + 8]))
  }

  /** One binary digit a bit. */
  predicate BinarySpelling(x: string, b: seq<Byte>) {
    AllBinary(x) && Digits(x) == Bits(b)
  }

  lemma FoldedBits(x: string, j: nat)
    requires |x| == 8 && j < 8
    ensures BitOf(FoldByte(x), j) == (x[j] == '1')
  {
    var s := Digits(x);
    ValueOfEight(s);
    PackedByte(s);
    assert Bits([PackByte(s)])[j] == BitOf(PackByte(s), j);
  }

  lemma BinaryReads(x: string)
    requires |x| % 8 == 0
    ensures Bits(FromBinary(x)) == Digits(x)
  {
    hide BitOf, FoldByte;
    forall p | 0 <= p < |x|
      ensures Bits(FromBinary(x))[p] == Digits(x)[p]
    {
      FoldedBits(x[8 * (p / 8)..8 * (p / 8) + 8], p % 8);
    }
  }

  // ---- The reader ----

  /** `char::is_whitespace`. */
  predicate IsWhitespace(c: char) {
    var n := c as int;
    || 9 <= n <= 13 || n in {0x20, 0x85, 0xA0, 0x1680, 0x2028, 0x2029, 0x202F, 0x205F, 0x3000}
    || 0x2000 <= n <= 0x200A
  }

  function Clean(raw: string): string {
    if raw == "" then ""
    else (if IsWhitespace(raw[0]) || raw[0] == ':' then "" else [raw[0]]) + Clean(raw[1..])
  }

  // ---- Separators ----

  predicate Separates(c: char) {
    IsWhitespace(c) || c == ':'
  }

  /** A text without separators. */
  predicate Compact(x: string) {
    forall c :: c in x ==> !Separates(c)
  }

  lemma {:induction false} CompactIsClean(x: string)
    ensures Compact(x) ==> Clean(x) == x
  {
    if x != "" {
      assert x == [x[0]] + x[1..];
      assert Compact(x) ==> x[0] in x && Compact(x[1..]);
      CompactIsClean(x[1..]);
    }
  }

  lemma {:induction false} CleanConcat(u: string, v: string)
    ensures Clean(u + v) == Clean(u) + Clean(v)
  {
    if u == "" {
      assert u + v == v;
    } else {
      assert (u + v)[1..] == u[1..] + v;
      CleanConcat(u[1..], v);
    }
  }

  /** Separators change nothing, wherever they stand: a colon, and every character with the Unicode
      property White_Space. */
  lemma SeparatorsIgnored(u: string, c: char, v: string)
    requires || c == ':' || c == ' ' || '\t' <= c <= '\r' || c as int in {0x85, 0xA0, 0x1680}
             || 0x2000 <= c as int <= 0x200A || c as int in {0x2028, 0x2029, 0x202F, 0x205F, 0x3000}
    ensures InputToBytes(u + [c] + v) == InputToBytes(u + v)
    ensures InputPanics(u + [c] + v) == InputPanics(u + v)
  {
    CleanConcat(u + [c], v);
    CleanConcat(u, [c]);
    CleanConcat(u, v);
    assert Clean([c]) == "" by { assert [c][1..] == ""; }
    assert Clean(u) + "" == Clean(u);
    assert Clean(u + [c] + v) == Clean(u + v);
    hide Clean, IsBinary, HexPrefix, HexStrToBytes, Decode64, AllHex, BinaryPrefix;
  }

  function NonEmpty(b: Option<seq<Byte>>): Option<seq<Byte>> {
    if b == Some([]) then None else b
  }

  predicate BinaryPrefix(x: string) {
    "0b" <= x || "0B" <= x
  }

  predicate HexPrefix(x: string) {
    "0x" <= x || "0X" <= x
  }

  const TABLE_ID_BITS := "11111100"

  predicate IsBinary(x: string) {
    var bin := if BinaryPrefix(x) then x[2..] else x;
    (BinaryPrefix(x) || (|bin| >= 16 && TABLE_ID_BITS <= bin)) && |bin| % 8 == 0 && AllBinary(bin)
  }

  function AnswerOf(o: Outcome<seq<Byte>>): Option<seq<Byte>> {
    if o.Edited? then Some(o.value) else None
  }

  /** `scte35_input_to_bytes`: between base64 and hexadecimal the reading that starts with the
      table id wins, and base64 otherwise. None is an error, or a panic if `InputPanics` says so. */
  function InputToBytes(raw: string): Option<seq<Byte>> {
    var x := Clean(raw);
    if x == "" then None
    else if IsBinary(x) then Some(FromBinary(if BinaryPrefix(x) then x[2..] else x))
    else if HexPrefix(x) then AnswerOf(HexStrToBytes(x[2..]))
    else
      var as64 := NonEmpty(Decode64(x));
      var asHex := if |x| % 2 == 0 && AllHex(x) then NonEmpty(AnswerOf(HexStrToBytes(x))) else None;
      match (as64, asHex)
      case (Some(b), Some(h)) => if b[0] == 0xFC then Some(b) else if h[0] == 0xFC then Some(h) else Some(b)
      case (Some(b), None) => Some(b)
      case (None, Some(h)) => Some(h)
      case (None, None) => None
  }

  /** The reader panics on this text. */
  predicate InputPanics(raw: string) {
    var x := Clean(raw);
    !IsBinary(x) && HexPrefix(x) && HexStrToBytes(x[2..]).Crash?
  }

  /** Exactly the `0x` texts do in which a character straddles the end of a pair of bytes, behind
      pairs that are all numbers; what is read at all is read without a panic. */
  lemma PanicsExactly(raw: string)
    ensures InputPanics(raw) <==> HexPrefix(Clean(raw)) && Straddles(Utf8(Clean(raw)[2..]))
    ensures Compact(raw) ==> (InputPanics(raw) <==> HexPrefix(raw) && Straddles(Utf8(raw[2..])))
    ensures InputToBytes(raw).Some? ==> !InputPanics(raw)
  {
    CompactIsClean(raw);
    hide HexPair, Utf8, Clean;
    var x := Clean(raw);
    if HexPrefix(x) {
      HexPrefixIsNotBinary(x);
      var u := Utf8(x[2..]);
      if |u| % 2 == 0 {
        PairsPanic(u, 0);
      }
    }
  }

  /** A text of hexadecimal digits alone never panics, so the unprefixed reading needs no such case. */
  lemma DigitsNeverPanic(x: string)
    requires AllHex(x)
    ensures !HexStrToBytes(x).Crash?
  {
    AsciiBytes(x);
    var u := Utf8(x);
    forall j | 0 <= j < |u|
      ensures u[j] < 0x80
    {
      assert x[j] in x;
    }
    if |u| % 2 == 0 {
      PairsPanic(u, 0);
    }
  }

  /** Every way to write a message: binary with or without its prefix, hexadecimal with or without
      (behind the prefix a pair may also be a plus sign and one digit), and base64. */
  predicate Spells(x: string, b: seq<Byte>) {
    || BinarySpelling(x, b)
    || (BinaryPrefix(x) && BinarySpelling(x[2..], b))
    || (HexPrefix(x) && HexPairs(x[2..], b))
    || HexSpelling(x, b)
    || x == Encode64(b)
  }

  /** One section, three spellings: a text reads as a message of at least two bytes that begins with
      the table id exactly when it spells it, whatever separators it holds. */
  lemma ReadsItsSpellings(raw: string, b: seq<Byte>)
    requires |b| >= 2 && b[0] == 0xFC
    ensures InputToBytes(raw) == Some(b) <==> Spells(Clean(raw), b)
    ensures Compact(raw) ==> (InputToBytes(raw) == Some(b) <==> Spells(raw, b))
  {
    CompactIsClean(raw);
    var x := Clean(raw);
    if Spells(x, b) {
      SpellingIsRead(raw, b);
    }
    if InputToBytes(raw) == Some(b) {
      ReadIsSpelling(raw, b);
    }
  }

  lemma ReadIsSpelling(raw: string, b: seq<Byte>)
    requires InputToBytes(raw) == Some(b)
    ensures Spells(Clean(raw), b)
    ensures Compact(raw) ==> Spells(raw, b)
  {
    CompactIsClean(raw);
    var x := Clean(raw);
    if IsBinary(x) {
      BinaryReads(if BinaryPrefix(x) then x[2..] else x);
    } else if HexPrefix(x) {
      HexReads(x[2..], b);
    } else {
      HexReads(x, b);
      if Decode64(x) == Some(b) {
        Base64Canonical(x);
      }
    }
  }

  lemma HexPrefixIsNotBinary(x: string)
    requires HexPrefix(x)
    ensures !IsBinary(x)
  {
    assert "0x" == "0" + "x" && "0b" == "0" + "b";
    var marks := x[..2];
    assert marks == "0x" || marks == "0X";
    assert marks[0] == '0' && marks[1] != 'b' && marks[1] != 'B';
  }

  lemma SpellingIsRead(raw: string, b: seq<Byte>)
    requires |b| >= 2 && b[0] == 0xFC && Spells(Clean(raw), b)
    ensures InputToBytes(raw) == Some(b)
  {
    var x := Clean(raw);
    if BinarySpelling(x, b) {
      BinaryIsRead(x, b);
    } else if BinaryPrefix(x) && BinarySpelling(x[2..], b) {
      BinaryReads(x[2..]);
      BitsInjective(FromBinary(x[2..]), b);
    } else if HexPrefix(x) && HexPairs(x[2..], b) {
      HexPrefixIsNotBinary(x);
      HexReads(x[2..], b);
    } else if HexSpelling(x, b) {
      HexIsRead(x, b);
    } else {
      Base64IsRead(b);
    }
  }

  lemma TableIdBits(b: seq<Byte>)
    requires |b| >= 1 && b[0] == 0xFC
    ensures Bits(b)[..8] == [true, true, true, true, true, true, false, false]
  {
    assert b == [b[0]] + b[1..];
    BitsConcat([b[0]], b[1..]);
    BitsOfOne(0xFC);
    SumBits(true, true, true, true, true, true, false, false, 0xFC);
  }

  lemma BinaryIsRead(x: string, b: seq<Byte>)
    requires |b| >= 2 && b[0] == 0xFC && BinarySpelling(x, b)
    ensures !BinaryPrefix(x) && IsBinary(x) && FromBinary(x) == b
  {
    TableIdBits(b);
    assert |x| == 8 * |b|;
    forall i | 0 <= i < 8
      ensures x[i] == TABLE_ID_BITS[i]
    {
      assert Digits(x)[i] == Bits(b)[..8][i];
      assert x[i] in x;
    }
    assert x[..8] == TABLE_ID_BITS;
    assert x[1] == '1';
    BinaryReads(x);
    BitsInjective(FromBinary(x), b);
  }

  lemma HexIsRead(x: string, b: seq<Byte>)
    requires |b| >= 2 && b[0] == 0xFC && HexSpelling(x, b)
    ensures HexStrToBytes(x) == Edited(b) && x[0] in "fF"
    ensures Decode64(x).Some? ==> Decode64(x).value[..1] != [0xFC]
  {
    HexReads(x, b);
    assert x[0] in x && x[1] in x;
    assert HexPair(x[2 * 0], x[2 * 0 + 1]) == Some(b[0]);
    assert HexDigit(x[0]) == Some(15);
  }

  lemma Base64IsRead(b: seq<Byte>)
    requires |b| >= 2 && b[0] == 0xFC
    ensures Encode64(b) != "" && Encode64(b)[0] == '/' && Decode64(Encode64(b)) == Some(b)
    ensures !AllHex(Encode64(b))
  {
    Base64RoundTrip(b);
    assert Encode64(b)[0] in Encode64(b);
  }

  /** For a single byte the unprefixed binary form is not recognised: its eight digits read as base64. */
  lemma OneByteIsNotBinary()
    ensures BinarySpelling(TABLE_ID_BITS, [0xFC])
    ensures InputToBytes(TABLE_ID_BITS).Some? && |InputToBytes(TABLE_ID_BITS).value| == 6
  {
    TableIdSpells();
    TableIdForm();
    OnesAndZerosDecode();
    OnesAndZerosPair();
    hide *;
    ReadsAsBase64(TABLE_ID_BITS);
  }

  lemma TableIdForm()
    ensures Clean(TABLE_ID_BITS) == TABLE_ID_BITS && TABLE_ID_BITS != ""
    ensures !IsBinary(TABLE_ID_BITS) && !HexPrefix(TABLE_ID_BITS)
  {
    hide Clean;
    CompactIsClean(TABLE_ID_BITS);
    assert |TABLE_ID_BITS| == 8 && TABLE_ID_BITS[0] == '1';
    assert "0b"[0] == '0' && "0B"[0] == '0' && "0x"[0] == '0' && "0X"[0] == '0';
    hide AllBinary;
  }

  lemma TableIdSpells()
    ensures BinarySpelling(TABLE_ID_BITS, [0xFC])
  {
    TableIdBits([0xFC]);
    assert Digits(TABLE_ID_BITS) == Bits([0xFC]);
  }

  /** What is neither binary nor prefixed reads as base64 unless only hexadecimal starts with the table id. */
  lemma ReadsAsBase64(x: string)
    requires x != "" && Clean(x) == x && !IsBinary(x) && !HexPrefix(x)
    requires Decode64(x).Some? && Decode64(x).value != []
    requires var h := AnswerOf(HexStrToBytes(x)); h.Some? ==> |h.value| > 0 && h.value[0] != 0xFC
    ensures InputToBytes(x) == Decode64(x)
  {
    hide HexStrToBytes, Decode64, Clean;
  }

  lemma OnesAndZerosPair()
    ensures AnswerOf(HexStrToBytes(TABLE_ID_BITS)).Some? ==>
              |AnswerOf(HexStrToBytes(TABLE_ID_BITS)).value| > 0 && AnswerOf(HexStrToBytes(TABLE_ID_BITS)).value[0] != 0xFC
  {
    hide HexStrToBytes;
    var hex := HexStrToBytes(TABLE_ID_BITS);
    if hex.Edited? {
      HexReads(TABLE_ID_BITS, hex.value);
      assert HexPair(TABLE_ID_BITS[2 * 0], TABLE_ID_BITS[2 * 0 + 1]) == Some(hex.value[0]);
    }
  }

  lemma OnesAndZerosDecode()
    ensures Decode64(TABLE_ID_BITS).Some? && |Decode64(TABLE_ID_BITS).value| == 6
    ensures Decode64(TABLE_ID_BITS).value[0] != 0xFC
  {
    var rest := TABLE_ID_BITS[4..];
    assert |rest| == 4 && rest[4..] == "";
    assert Decode64(rest).Some? && |Decode64(rest).value| == 3;
  }

  lemma {:induction false} Base64Symbols(b: seq<Byte>)
    ensures forall c :: c in Encode64(b) ==> SymbolValue(c).Some? || c == '='
  {
    if |b| > 2 {
      Base64Symbols(b[3..]);
    }
  }

  /** What an editor or a builder writes is read back as the same bytes. */
  lemma EncodedIsRead(b: seq<Byte>)
    requires |b| >= 2 && b[0] == 0xFC
    ensures InputToBytes(Encode64(b)) == Some(b)
  {
    Base64IsCompact(b);
    hide InputToBytes, Compact, Encode64;
    ReadsItsSpellings(Encode64(b), b);
  }

  lemma Base64IsCompact(b: seq<Byte>)
    ensures Compact(Encode64(b))
  {
    Base64Symbols(b);
    hide Encode64;
  }

  // ---- The spellings, written out ----

  const CAPITALS: string := "ABCDEFGHIJKLMNOPQRSTUVWXYZ"
  const SMALLS: string := "abcdefghijklmnopqrstuvwxyz"
  const FIGURES: string := "0123456789"
  const LOWER_DIGITS: string := "0123456789abcdef"
  const UPPER_DIGITS: string := "0123456789ABCDEF"

  /** The alphabet of section 4 of RFC 4648. */
  lemma AlphabetOf64(v: Sextet)
    ensures |CAPITALS| == 26 && |SMALLS| == 26 && |FIGURES| == 10
    ensures Symbol(v) == (CAPITALS + SMALLS + FIGURES + "+/")[v]
  {
    var capital := CAPITALS[if v < 26 then v else 0];
    var small := SMALLS[if 26 <= v < 52 then v - 26 else 0];
    var figure := FIGURES[if 52 <= v < 62 then v - 52 else 0];
    assert Symbol(v) == if v < 26 then capital else if v < 52 then small else if v < 62 then figure
                        else if v == 62 then '+' else '/';
  }

  lemma DigitsOf16(v: nat)
    requires v < 16
    ensures |LOWER_DIGITS| == 16 && |UPPER_DIGITS| == 16
    ensures HexDigit(LOWER_DIGITS[v]) == Some(v) && HexDigit(UPPER_DIGITS[v]) == Some(v)
  {
  }

  /** A byte as two digits, each in either case. */
  function HexOf(b: Byte, highUpper: bool, lowUpper: bool): string {
    DigitsOf16(b / 16);
    DigitsOf16(b % 16);
    [if highUpper then UPPER_DIGITS[b / 16] else LOWER_DIGITS[b / 16],
     if lowUpper then UPPER_DIGITS[b % 16] else LOWER_DIGITS[b % 16]]
  }

  /** Hexadecimal text, with any choice of cases, spells its bytes. */
  lemma HexSpells(x: string, b: seq<Byte>)
    requires |x| == 2 * |b|
    requires forall i :: 0 <= i < |b| ==> exists h, l :: x[2 * i..2 * i + 2] == HexOf(b[i], h, l)
    ensures HexSpelling(x, b)
  {
    forall i | 0 <= i < |b|
      ensures HexDigit(x[2 * i]) == Some(b[i] / 16) && HexDigit(x[2 * i + 1]) == Some(b[i] % 16)
    {
      var h, l :| x[2 * i..2 * i + 2] == HexOf(b[i], h, l);
      DigitsOf16(b[i] / 16);
      DigitsOf16(b[i] % 16);
      assert x[2 * i] == x[2 * i..2 * i + 2][0] && x[2 * i + 1] == x[2 * i..2 * i + 2][1];
    }
    forall k | 0 <= k < |x|
      ensures HexDigit(x[k]).Some?
    {
      assert x[k] == x[2 * (k / 2)] || x[k] == x[2 * (k / 2) + 1];
    }
  }

  /** Prefixed texts are read for every message, also an empty one or one without the table id. */
  lemma PrefixedReads(x: string, b: seq<Byte>)
    requires Compact(x)
    ensures BinaryPrefix(x) && BinarySpelling(x[2..], b) ==> InputToBytes(x) == Some(b)
    ensures HexPrefix(x) && HexPairs(x[2..], b) ==> InputToBytes(x) == Some(b)
  {
    CompactIsClean(x);
    if BinaryPrefix(x) && BinarySpelling(x[2..], b) {
      BinaryReads(x[2..]);
      BitsInjective(FromBinary(x[2..]), b);
    }
    if HexPrefix(x) {
      HexPrefixIsNotBinary(x);
      HexReads(x[2..], b);
    }
  }

  /** A text that is neither binary nor prefixed and spells bytes both as base64 and as hexadecimal is
      read as hexadecimal exactly when only that reading begins with the table id. */
  lemma AmbiguousReads(x: string, b: seq<Byte>, h: seq<Byte>)
    requires Compact(x) && !IsBinary(x) && !HexPrefix(x) && b != [] && h != []
    requires x == Encode64(b) && HexSpelling(x, h)
    ensures InputToBytes(x) == Some(if h[0] == 0xFC && b[0] != 0xFC then h else b)
  {
    CompactIsClean(x);
    Base64RoundTrip(b);
    HexReads(x, h);
    hide HexStrToBytes, Decode64, Clean, IsBinary, HexPrefix, Encode64;
  }

  // ---- Case ----

  function LowerChar(c: char): char {
    if 'A' <= c <= 'Z' then (c as int + 32) as char else c
  }

  /** `to_ascii_lowercase`. */
  function Lower(s: string): (r: string)
    ensures |r| == |s|
  {
    seq(|s|, i requires 0 <= i < |s| => LowerChar(s[i]))
  }

  /** Capitals become small letters, and no other character changes. */
  lemma LowerLetters(s: string, i: nat)
    requires i < |s|
    ensures |CAPITALS| == 26 && |SMALLS| == 26
    ensures forall k :: 0 <= k < 26 && s[i] == CAPITALS[k] ==> Lower(s)[i] == SMALLS[k]
    ensures s[i] !in CAPITALS ==> Lower(s)[i] == s[i]
  {
    if 'A' <= s[i] <= 'Z' {
      assert CAPITALS[s[i] as int - 'A' as int] == s[i];
    }
  }
}
