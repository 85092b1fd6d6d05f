/** `validate_scte35_internal` of src/tools_api.rs. */
module Validation {
  import opened Bytes
  import opened Crc32
  import opened Frames
  import opened Text

  datatype Verdict = Panicked | BadText | TooShort(size: nat) | BadTable(tableId: Byte) | BadCrc(calculated: Word, stored: Word)
                   | Valid(size: nat, stored: Word)

  const SHORTEST: nat := 14

  function StoredCrc(b: seq<Byte>): Word
    requires |b| >= 4
  {
    Bits(b[|b| - 4..])
  }

  /** The first complaint in the validator's order. */
  function Judge(input: string): Verdict {
    if InputPanics(input) then Panicked
    else
      match InputToBytes(input)
      case None => BadText
      case Some(b) =>
        if |b| < SHORTEST then TooShort(|b|)
        else if b[0] != 0xFC then BadTable(b[0])
        else if Crc(b[..|b| - 4]) != StoredCrc(b) then BadCrc(Crc(b[..|b| - 4]), StoredCrc(b))
        else Valid(|b|, StoredCrc(b))
  }

  method ValidateScte35(input: string) returns (v: Verdict)
    ensures v == Judge(input)
  {
    hide InputToBytes;
    if InputPanics(input) {
      return Panicked;
    }
    var bytes := InputToBytes(input);
    if bytes.None? {
      return BadText;
    }
    var b := bytes.value;
    if |b| < SHORTEST {
      return TooShort(|b|);
    }
    if b[0] != 0xFC {
      return BadTable(b[0]);
    }
    var calculated := ComputeCrc32(b[..|b| - 4]);
    var stored := StoredCrc(b);
    if calculated != stored {
      return BadCrc(calculated, stored);
    }
    return Valid(|b|, stored);
  }

  lemma StoredIsComputed(b: seq<Byte>)
    requires |b| >= 4
    ensures Crc(b[..|b| - 4]) == StoredCrc(b) <==> Sealed(b)
  {
    hide Bits, Crc, ToBeBytes;
    var c, crc := b[|b| - 4..], Crc(b[..|b| - 4]);
    PackedWord(crc);
    if Bits(c) == crc {
      BitsInjective(c, ToBeBytes(crc));
    }
  }

  /** Accepted texts are exactly those that spell a sealed message with the right table id and at
      least fourteen bytes; section_length is not looked at. */
  lemma AcceptsSealed(input: string)
    ensures Judge(input).Valid? <==>
            var b := InputToBytes(input); b.Some? && |b.value| >= SHORTEST && b.value[0] == 0xFC && Sealed(b.value)
  {
    hide InputToBytes, InputPanics, StoredCrc, Crc, Sealed;
    PanicsExactly(input);
    var bytes := InputToBytes(input);
    if bytes.Some? && |bytes.value| >= SHORTEST {
      StoredIsComputed(bytes.value);
    }
  }

  /** What is accepted and has its length right is a valid section, and the other way round. */
  lemma ValidSectionsAccepted(b: seq<Byte>)
    requires |b| >= 2 && b[0] == 0xFC
    ensures ValidSection(b) <==> Judge(Encode64(b)).Valid? && LengthCorrect(b)
  {
    EncodedIsRead(b);
    AcceptsSealed(Encode64(b));
  }

  /** Change an accepted message in any way confined to four consecutive bytes, of the message, of
      its CRC or across both, and spell it in any form: it is rejected. */
  lemma BurstRejected(before: string, after: string, a: seq<Byte>, b: seq<Byte>, i: nat)
    requires Judge(before).Valid? && InputToBytes(before) == Some(a)
    requires InputToBytes(after) == Some(b) && |b| == |a| && b != a
    requires forall k :: 0 <= k < |a| && !(i <= k < i + 4) ==> a[k] == b[k]
    ensures !Judge(after).Valid?
  {
    AcceptsSealed(before);
    AcceptsSealed(after);
    ByteBurstDetected(a, b, i);
  }

  /** The length field can hold anything: with a fresh CRC the validator accepts every value. */
  lemma LengthNotChecked(body: seq<Byte>, total: nat)
    requires |body| >= 10 && body[0] == 0xFC && total >= 3
    ensures Judge(Encode64(WithCrc(WithLength(body, total)))).Valid?
    ensures LengthCorrect(WithCrc(WithLength(body, total))) <==> |body| + 4 <= 4098 && (total - |body| - 4) % 4096 == 0
  {
    hide LengthCorrect, InputToBytes, Judge, Crc, Sealed;
    var b := WithCrc(WithLength(body, total));
    WithCrcSealed(WithLength(body, total));
    EncodedIsRead(b);
    AcceptsSealed(Encode64(b));
    WrittenLength(body, ToBeBytes(Crc(WithLength(body, total))), total);
  }

  lemma WrittenLength(body: seq<Byte>, crc: seq<Byte>, total: nat)
    requires |body| >= 3 && |crc| == 4 && total >= 3
    ensures LengthCorrect(WithLength(body, total) + crc) <==> |body| + 4 <= 4098 && (total - |body| - 4) % 4096 == 0
  {
    var t, hi := total - 3, body[1] as int / 16;
    var b1 := hi * 16 + t / 256 % 16;
    Remainder(b1, 16, hi, t / 256 % 16);
    LengthField(t, |body| + 1);
  }

  lemma LengthField(t: nat, n: nat)
    ensures t / 256 % 16 * 256 + t % 256 == n <==> n <= 4095 && (t - n) % 4096 == 0
  {
    Remainder(t, 4096, t / 256 / 16, t / 256 % 16 * 256 + t % 256);
    if n <= 4095 && (t - n) % 4096 == 0 {
      Remainder(t, 4096, (t - n) / 4096, n);
    }
  }
}
