/** The duration edits as an algebra over all messages, whether or not their descriptor loop is found. */
module EditAlgebra {
  import opened Bytes
  import opened Crc32
  import opened Layout
  import opened Frames
  import opened FieldEdits
  import opened MessageEdits
  import opened EditLaws

  // ---- A break duration in a message whose loop is not found ----

  /** The loop is not found, but the break duration is and lies inside the message. */
  predicate BreakAlone(b: seq<Byte>) {
    LoopAt(b).None? && BreakDurationAt(b).Some? && BreakDurationAt(b).value + 5 <= |b|
  }

  /** Equal but for the break duration and the last four bytes. */
  predicate SameElsewhere(b: seq<Byte>, c: seq<Byte>, bd: nat) {
    |b| == |c| && forall i :: 0 <= i < |b| - 4 && !(bd <= i < bd + 5) ==> b[i] == c[i]
  }

  lemma BreakRange(b: seq<Byte>)
    requires BreakDurationAt(b).Some?
    ensures 20 <= BreakDurationAt(b).value <= |b|
  {
    TimesAdvance(b, 20, BitOf(b[19], 1), BitOf(b[19], 3));
  }

  /** An edit moves neither the break duration nor, into sight, the loop. */
  lemma BreakStays(b: seq<Byte>, c: seq<Byte>)
    requires BreakAlone(b) && SameElsewhere(b, c, BreakDurationAt(b).value)
    ensures BreakAlone(c) && BreakDurationAt(c) == BreakDurationAt(b)
  {
    var bd := BreakDurationAt(b).value;
    BreakRange(b);
    assert b[0] == c[0] && b[4] == c[4] && b[13] == c[13] && b[18] == c[18] && b[19] == c[19];
    TimesLocal(b, c, 20, BitOf(b[19], 1), BitOf(b[19], 3));
    InsertEnds(b);
    InsertEnds(c);
    if bd + 11 <= |b| - 4 {
      assert b[bd + 9] == c[bd + 9] && b[bd + 10] == c[bd + 10];
    }
  }

  /** Where the loop word of a splice_insert with a break duration stands. */
  lemma InsertEnds(b: seq<Byte>)
    requires BreakDurationAt(b).Some? && BreakDurationAt(b).value + 5 <= |b|
    ensures var bd := BreakDurationAt(b).value;
            LoopAt(b).Some? <==> bd + 11 <= |b| && bd + 11 + Be16(b, bd + 9) % 0x400 + 4 <= |b|
  {
    var c := SpliceInsertAt(b, 14);
    assert CommandAt(b, HEADER_BYTES, b[13]) == c;
    assert BreakAt(b, BreakDurationAt(b).value, true).Some?;
  }

  /** The editor then writes the break duration and reseals. */
  lemma AloneEdited(e: Edit, b: seq<Byte>)
    requires BreakAlone(b) && !e.Restrict?
    ensures Apply(e, b) == Edited(Refresh(WithBreak(e, b, BreakDurationAt(b).value)))
  {
    var bd := BreakDurationAt(b).value;
    BreakStays(b, WithBreak(e, b, bd));
  }

  lemma WithBreakElsewhere(e: Edit, b: seq<Byte>, bd: nat)
    requires bd + 5 <= |b|
    ensures forall i :: 0 <= i < |b| && !(bd <= i < bd + 5) ==> WithBreak(e, b, bd)[i] == b[i]
  {
  }

  lemma SamePrefix(x: seq<Byte>, y: seq<Byte>, n: nat)
    requires n <= |x| == |y|
    ensures x[..n] == y[..n] <==> forall i :: 0 <= i < n ==> x[i] == y[i]
  {
    if x[..n] == y[..n] {
      assert forall i :: 0 <= i < n ==> x[..n][i] == x[i] && y[..n][i] == y[i];
    }
  }

  /** Resealing forgets the last four bytes and nothing else. */
  lemma RefreshAgain(x: seq<Byte>, y: seq<Byte>)
    requires |x| == |y| >= 4
    ensures Refresh(x)[..|x| - 4] == x[..|x| - 4]
    ensures Refresh(x) == Refresh(y) <==> x[..|x| - 4] == y[..|y| - 4]
  {
    assert Refresh(x)[..|x| - 4] == x[..|x| - 4] && Refresh(y)[..|y| - 4] == y[..|y| - 4];
  }

  /** How many bytes of the break duration lie in front of the last four bytes of the message. */
  function Shown(b: seq<Byte>, bd: nat): (k: nat)
    requires bd + 5 <= |b|
    ensures 1 <= k <= 5 && bd + k <= |b| - 4
  {
    if bd + 9 <= |b| then 5 else |b| - 4 - bd
  }

  /** The five bytes a first edit leaves in place of the break duration: what lies in front of the
      CRC as written, and behind that the first bytes of the CRC. */
  function Left(e: Edit, b: seq<Byte>, bd: nat): (s: seq<Byte>)
    requires bd + 5 <= |b|
    ensures |s| == 5
  {
    var k, s := Shown(b, bd), BreakField(e, b[bd..bd + 5]);
    s[..k] + ToBeBytes(Crc(b[..bd] + s[..k]))[..5 - k]
  }

  lemma LeftBehind(e: Edit, b: seq<Byte>, bd: nat)
    requires bd + 5 <= |b|
    ensures Refresh(WithBreak(e, b, bd))[bd..bd + 5] == Left(e, b, bd)
  {
    hide BreakField, Crc, ToBeBytes;
    var k, n, s, once := Shown(b, bd), |b| - 4, BreakField(e, b[bd..bd + 5]), WithBreak(e, b, bd);
    var c := Refresh(once);
    assert once[bd..bd + k] == s[..k];
    if k < 5 {
      assert once[..n] == b[..bd] + s[..k];
    }
    assert c == once[..n] + ToBeBytes(Crc(once[..n]));
    assert c[bd..bd + 5] == s[..k] + ToBeBytes(Crc(once[..n]))[..5 - k];
  }

  /** Doing `e1` and then `e2` to a lone break duration is doing `e`, as far as the bytes in front of
      the CRC can tell. */
  predicate ComposesAlone(e1: Edit, e2: Edit, e: Edit, b: seq<Byte>, bd: nat)
    requires bd + 5 <= |b|
  {
    BreakField(e2, Left(e1, b, bd))[..Shown(b, bd)] == BreakField(e, b[bd..bd + 5])[..Shown(b, bd)]
  }

  lemma SamePrefixExactly(x: seq<Byte>, y: seq<Byte>, s: seq<Byte>, t: seq<Byte>, bd: nat)
    requires |x| == |y| && bd + 5 <= |x| && |s| == |t| == 5
    requires forall i :: 0 <= i < |x| - 4 ==> x[i] == if bd <= i < bd + 5 then s[i - bd] else y[i]
    requires y[bd..bd + 5] == t
    ensures x[..|x| - 4] == y[..|y| - 4] <==> s[..Shown(x, bd)] == t[..Shown(x, bd)]
  {
    var k := Shown(x, bd);
    assert forall i :: 0 <= i < k ==> x[bd + i] == s[i] && y[bd + i] == y[bd..bd + 5][i];
    SamePrefix(x, y, |x| - 4);
    SamePrefix(s, t, k);
    if s[..k] == t[..k] {
      forall i | 0 <= i < |x| - 4
        ensures x[i] == y[i]
      {
        if bd <= i < bd + 5 {
          assert x[bd + (i - bd)] == s[i - bd] && y[bd + (i - bd)] == t[i - bd];
        }
      }
    }
    if x[..|x| - 4] == y[..|y| - 4] {
      forall i | 0 <= i < k
        ensures s[i] == t[i]
      {
        assert x[bd + i] == y[bd + i];
      }
    }
  }

  /** Two edits of a lone break duration are one exactly when they compose. */
  lemma AloneTwice(e1: Edit, e2: Edit, e: Edit, b: seq<Byte>)
    requires BreakAlone(b) && !e1.Restrict? && !e2.Restrict? && !e.Restrict?
    ensures Apply(e1, b).Edited?
    ensures Apply(e2, Apply(e1, b).value) == Apply(e, b) <==> ComposesAlone(e1, e2, e, b, BreakDurationAt(b).value)
  {
    hide Apply, LoopAt, BreakDurationAt, Refresh, BreakField, Left;
    var bd := BreakDurationAt(b).value;
    BreakRange(b);
    AloneEdited(e1, b);
    AloneEdited(e, b);
    var once := WithBreak(e1, b, bd);
    var c := Refresh(once);
    RefreshAgain(once, once);
    SamePrefix(c, once, |b| - 4);
    BreakStays(b, c);
    AloneEdited(e2, c);
    LeftBehind(e1, b, bd);
    var x, y := WithBreak(e2, c, bd), WithBreak(e, b, bd);
    assert y[bd..bd + 5] == BreakField(e, b[bd..bd + 5]);
    SamePrefixExactly(x, y, BreakField(e2, Left(e1, b, bd)), BreakField(e, b[bd..bd + 5]), bd);
    RefreshAgain(x, y);
  }

  lemma FieldsAgree(e: Edit, f: Edit, s: seq<Byte>, t: seq<Byte>)
    requires |s| == |t| == 5 && s[0] as int / 2 == t[0] as int / 2
    ensures BreakField(e, s) == BreakField(f, t) <==>
            NewTicks(e, Be33(s, 0), BREAK_RANGE) == NewTicks(f, Be33(t, 0), BREAK_RANGE)
  {
    BreakFieldTicks(e, s);
    BreakFieldTicks(f, t);
    hide NewTicks, Be33;
  }

  lemma SameReservedBits(first: Byte, t: nat)
    ensures BreakBytes(first, t)[0] as int / 2 == first as int / 2
  {
  }

  /** In front of the CRC edits compose exactly when they do on the ticks; behind it setting still
      erases whatever was done before. */
  lemma ComposesByTicks(e1: Edit, e2: Edit, e: Edit, b: seq<Byte>, bd: nat)
    requires bd + 5 <= |b| && !e1.Restrict? && !e2.Restrict? && !e.Restrict?
    ensures bd + 9 <= |b| ==>
              (ComposesAlone(e1, e2, e, b, bd) <==>
               NewTicks(e2, NewTicks(e1, Be33(b, bd), BREAK_RANGE), BREAK_RANGE) == NewTicks(e, Be33(b, bd), BREAK_RANGE))
    ensures e2.SetTicks? && e == e2 ==> ComposesAlone(e1, e2, e, b, bd)
  {
    hide Be33, NewTicks, BreakField, Crc, ToBeBytes;
    var k, s, t := Shown(b, bd), b[bd..bd + 5], Left(e1, b, bd);
    Be33Slice(b, bd);
    FirstByteKept(e1, s);
    assert t[0] == BreakField(e1, s)[0];
    FieldsAgree(e2, e, t, s);
    if bd + 9 <= |b| {
      assert t == BreakField(e1, s);
      BreakFieldTicks(e1, s);
      assert BreakField(e2, t)[..5] == BreakField(e2, t) && BreakField(e, s)[..5] == BreakField(e, s);
    }
    if e2.SetTicks? && e == e2 {
      TicksFit(t, 0);
      TicksFit(s, 0);
      SetForgets(e2, Be33(t, 0), Be33(s, 0));
    }
  }

  lemma FirstByteKept(e: Edit, s: seq<Byte>)
    requires |s| == 5
    ensures BreakField(e, s)[0] as int / 2 == s[0] as int / 2
  {
    SameReservedBits(s[0], NewTicks(e, Be33(s, 0), BREAK_RANGE));
  }

  lemma SetForgets(e: Edit, cur: nat, other: nat)
    requires e.SetTicks? && cur < SEGMENT_RANGE && other < SEGMENT_RANGE
    ensures NewTicks(e, cur, BREAK_RANGE) == NewTicks(e, other, BREAK_RANGE)
  {
  }

  // ---- Every message ----

  predicate EditsDurations(b: seq<Byte>) {
    Apply(AddTicks(0), b).Edited?
  }

  /** Whether there is a duration to edit does not depend on the edit; if there is, either the loop is
      found or the break duration stands alone. */
  lemma EditedAlike(e: Edit, b: seq<Byte>)
    requires !e.Restrict?
    ensures Apply(e, b).Edited? <==> EditsDurations(b)
    ensures EditsDurations(b) ==> LoopAt(b).Some? || BreakAlone(b)
  {
    if LoopAt(b).Some? {
      EditsAlike(e, AddTicks(0), b);
    } else if BreakAlone(b) {
      AloneEdited(e, b);
      AloneEdited(AddTicks(0), b);
    }
  }

  /** Doing `e1` and then `e2` to every duration of the message is doing `e`. */
  predicate ComposesOn(e1: Edit, e2: Edit, e: Edit, b: seq<Byte>)
    requires LoopAt(b).Some? || BreakAlone(b)
  {
    if LoopAt(b).Some? then
      FrameDecodes(b);
      Composes(e1, e2, e, FrameOf(b))
    else ComposesAlone(e1, e2, e, b, BreakDurationAt(b).value)
  }

  /** On every message two duration edits are one, byte for byte, exactly when they compose on every
      duration it carries. */
  lemma EditTwiceAll(e1: Edit, e2: Edit, e: Edit, b: seq<Byte>)
    requires !e1.Restrict? && !e2.Restrict? && !e.Restrict? && Apply(e1, b).Edited?
    ensures LoopAt(b).Some? || BreakAlone(b)
    ensures Apply(e2, Apply(e1, b).value) == Apply(e, b) <==> ComposesOn(e1, e2, e, b)
  {
    hide Apply, BreakDurationAt, NewTicks, Be33, FrameOf, Framed, Composes, ComposesAlone;
    EditedAlike(e1, b);
    hide LoopAt;
    if LoopAt(b).Some? {
      FrameDecodes(b);
      EditTwiceExactly(e1, e2, e, b);
    } else {
      AloneTwice(e1, e2, e, b);
    }
  }

  /** Setting erases any earlier duration edit, on every message. */
  lemma SetErasesAll(e1: Edit, ticks: U64, b: seq<Byte>)
    requires !e1.Restrict? && Apply(e1, b).Edited?
    ensures Apply(SetTicks(ticks), Apply(e1, b).value) == Apply(SetTicks(ticks), b)
  {
    EditedAlike(e1, b);
    if LoopAt(b).Some? {
      SetErases(e1, ticks, b);
    } else {
      ComposesByTicks(e1, SetTicks(ticks), SetTicks(ticks), b, BreakDurationAt(b).value);
      AloneTwice(e1, SetTicks(ticks), SetTicks(ticks), b);
    }
  }

  /** Adjusting by `delta` leaves every duration of the message inside its field, and a break
      duration without a loop behind it does not reach into the CRC. */
  predicate Adjusts(delta: int, b: seq<Byte>)
    requires LoopAt(b).Some? || BreakAlone(b)
  {
    if LoopAt(b).Some? then
      FrameDecodes(b);
      EditLaws.Fits(delta, FrameOf(b))
    else
      var bd := BreakDurationAt(b).value;
      bd + 9 <= |b| && 0 <= Be33(b, bd) + delta < BREAK_RANGE
  }

  lemma TicksFit(b: seq<Byte>, at: nat)
    requires at + 5 <= |b|
    ensures Be33(b, at) < BREAK_RANGE
  {
  }

  /** Two adjustments are one by the sum, byte for byte, when the first neither clamps nor overflows. */
  lemma AdjustTwiceAll(d1: I64, d2: I64, b: seq<Byte>)
    requires InI64(d1 + d2) && EditsDurations(b)
    requires LoopAt(b).Some? || BreakAlone(b)
    requires Adjusts(d1, b)
    ensures Apply(AddTicks(d1), b).Edited?
    ensures Apply(AddTicks(d2), Apply(AddTicks(d1), b).value) == Apply(AddTicks(d1 + d2), b)
  {
    hide Apply, LoopAt, BreakDurationAt, NewTicks, Be33, FrameOf, Framed, EditLaws.Fits;
    EditedAlike(AddTicks(d1), b);
    if LoopAt(b).Some? {
      FrameDecodes(b);
      AdjustTwice(d1, d2, b);
    } else {
      TicksFit(b, BreakDurationAt(b).value);
      AdjustsAdd(d1, d2, Be33(b, BreakDurationAt(b).value), BREAK_RANGE);
      ComposesByTicks(AddTicks(d1), AddTicks(d2), AddTicks(d1 + d2), b, BreakDurationAt(b).value);
      AloneTwice(AddTicks(d1), AddTicks(d2), AddTicks(d1 + d2), b);
    }
  }

  /** Adjusting by `delta` and back restores a sealed message byte for byte. */
  lemma AdjustUndoneAll(delta: I64, b: seq<Byte>)
    requires delta != -0x8000_0000_0000_0000 && EditsDurations(b) && Sealed(b)
    requires LoopAt(b).Some? || BreakAlone(b)
    requires Adjusts(delta, b)
    ensures Apply(AddTicks(delta), b).Edited?
    ensures Apply(AddTicks(-delta), Apply(AddTicks(delta), b).value) == Edited(b)
  {
    hide Apply, LoopAt, BreakDurationAt, NewTicks, Be33, FrameOf, Framed, EditLaws.Fits, Refresh, WithBreak, Sealed;
    AdjustTwiceAll(delta, -delta, b);
    if LoopAt(b).Some? {
      FrameDecodes(b);
      AdjustUndone(delta, b);
    } else {
      AloneEdited(AddTicks(0), b);
      ZeroAlone(b);
    }
  }

  lemma ZeroAlone(b: seq<Byte>)
    requires BreakAlone(b) && Sealed(b)
    ensures Refresh(WithBreak(AddTicks(0), b, BreakDurationAt(b).value)) == b
  {
    var bd := BreakDurationAt(b).value;
    SameBreak(b[bd..bd + 5]);
    assert Splice(b, bd, b[bd..bd + 5]) == b;
    assert b == b[..|b| - 4] + b[|b| - 4..];
  }

  // ---- A break duration inside the CRC ----

  /** A splice_insert up to the first byte of its break duration. */
  const CUT_HEAD: seq<Byte> := [0xFC, 0x30, 0, 0, 0, 0, 0, 0, 0, 0, 0xFF, 0xF0, 0, 0x05, 0, 0, 0, 1, 0, 0xF0, 0]

  lemma CutHeadShape(x: seq<Byte>)
    requires |x| == 4
    ensures var b := CUT_HEAD + x;
            && BreakAlone(b) && BreakDurationAt(b) == Some(20)
            && b[20..25] == [0] + x && b[..20] + [0] == CUT_HEAD && Be33(b, 20) == Be32(x, 0)
  {
    var b := CUT_HEAD + x;
    assert |b| == 25 && b[0] == 0xFC && b[4] == 0 && b[13] == SPLICE_INSERT && b[18] == 0 && b[19] == 0xF0 && b[20] == 0;
    assert BitOf(0xF0, 1) && BitOf(0xF0, 2) && BitOf(0xF0, 3) && !BitOf(0, 0);
    assert b[20..25] == [0] + x;
    assert x == [x[0], x[1], x[2], x[3]];
    assert b[21] == x[0] && b[22] == x[1] && b[23] == x[2] && b[24] == x[3];
    InsertEnds(b);
  }

  const ONES: seq<Byte> := [0xFF, 0xFF, 0xFF, 0xFF]
  const ZEROS: seq<Byte> := [0, 0, 0, 0]

  lemma OneMoreTick(x: seq<Byte>)
    requires |x| == 4
    ensures BreakField(AddTicks(1), [0] + x)[0] == if x == ONES then 1 else 0
  {
    var s: seq<Byte> := [0] + x;
    assert Be33(s, 0) == Be32(x, 0);
    assert x == [x[0], x[1], x[2], x[3]];
    AllOnes(x);
    SmallRemainder(Be32(x, 0) + 1, BREAK_RANGE);
  }

  lemma AllOnes(x: seq<Byte>)
    requires |x| == 4
    ensures Be32(x, 0) < 0x1_0000_0000 && (Be32(x, 0) == 0xFFFF_FFFF <==> x == ONES)
  {
    assert x == [x[0], x[1], x[2], x[3]];
  }

  /** A message on which adjusting by 0 and then by 1 is not adjusting by 1, although neither clamps
      nor overflows: four of the five bytes of its break duration are its CRC. */
  lemma CrcBreakDiffers()
    ensures var x := if ToBeBytes(Crc(CUT_HEAD)) == ONES then ZEROS else ONES;
            var b := CUT_HEAD + x;
            && BreakAlone(b) && Be33(b, 20) + 1 < BREAK_RANGE && Apply(AddTicks(0), b).Edited?
            && Apply(AddTicks(1), Apply(AddTicks(0), b).value) != Apply(AddTicks(1), b)
  {
    hide Crc, ToBeBytes, BreakField, Be33, Be32, LoopAt, BreakDurationAt, Apply, NewTicks;
    var c := ToBeBytes(Crc(CUT_HEAD));
    var x := if c == ONES then ZEROS else ONES;
    var b := CUT_HEAD + x;
    CutHeadShape(x);
    AllOnes(x);
    var s := b[20..25];
    SameBreak(s);
    OneMoreTick(x);
    OneMoreTick(c);
    assert s[..1] == [0];
    assert Left(AddTicks(0), b, 20) == [0] + c;
    assert BreakField(AddTicks(1), [0] + c)[..1][0] != BreakField(AddTicks(1), s)[..1][0];
    AloneTwice(AddTicks(0), AddTicks(1), AddTicks(1), b);
  }
}
