/** When rewriting a UPID back restores the message, exactly, and the messages that are not restored. */
module UpidInverse {
  import opened Bytes
  import opened Crc32
  import opened Layout
  import opened Descriptors
  import opened Frames
  import opened UpidRewrite
  import opened UpidLaws
  import opened Builder
  import opened BuilderLaws

  // ---- Lengths that are already there ----

  /** section_length as the editor would write it: the size modulo its 12 bits. */
  predicate LengthAsWritten(b: seq<Byte>) {
    |b| >= 3 && SectionLength(b) == (|b| - 3) % 4096
  }

  lemma LengthAsWrittenCorrect(b: seq<Byte>)
    requires |b| <= 4098
    ensures LengthAsWritten(b) <==> LengthCorrect(b)
  {
  }

  lemma WithLengthFixed(head: seq<Byte>, total: nat)
    requires |head| >= 3 && total >= 3
    ensures SectionLength(WithLength(head, total)) == (total - 3) % 4096
    ensures WithLength(head, total) == head <==> SectionLength(head) == (total - 3) % 4096
  {
    var t, hi, lo, h := total - 3, head[1] as int / 16, head[1] as int % 16, head[2] as int;
    var b1 := hi * 16 + t / 256 % 16;
    Remainder(b1, 16, hi, t / 256 % 16);
    Remainder(t, 4096, t / 256 / 16, t / 256 % 16 * 256 + t % 256);
    if lo * 256 + h == t % 4096 {
      Unique(256, lo, h, t / 256 % 16, t % 256);
    }
  }

  // ---- Restoring descriptors ----

  /** Every live walkable segment carries this UPID. */
  predicate AllCarry(ds: seq<Descriptor>, typ: Byte, encode: UpidEncoder) {
    forall d :: d in ds && Walkable(d) ==> Carries(d, typ, encode)
  }

  predicate Carries(d: Descriptor, typ: Byte, encode: UpidEncoder)
    requires Walkable(d)
  {
    SegmentOf(d.body).value.upidType == typ && encode(typ) == Some(SegmentOf(d.body).value.upid)
  }

  predicate GoesThrough(d: Descriptor, newType: Option<Byte>, encode: UpidEncoder) {
    RewriteOne(d, newType, encode).Kept? || RewriteOne(d, newType, encode).Replaced?
  }

  /** Whatever a descriptor was rewritten to, a second rewrite sees the same segment but for its UPID. */
  lemma FormWalkable(d: Descriptor, newType: Option<Byte>, encode: UpidEncoder)
    requires GoesThrough(d, newType, encode)
    ensures var d' := RewrittenForm(d, newType, encode);
            && Walkable(d') == Walkable(d) && d'.tag == d.tag
            && (Walkable(d) ==>
                  var s, s' := SegmentOf(d.body).value, SegmentOf(d'.body).value;
                  s' == s.(upidType := s'.upidType, upid := s'.upid))
  {
    RewriteOneMeaning(d, newType, encode);
    hide RewriteOne, SegmentOf, EncodeSegment;
  }

  /** Rewriting a rewritten descriptor back restores it if it carried that UPID. */
  lemma RewriteOneBack(d: Descriptor, newType: Option<Byte>, encode: UpidEncoder, typ: Byte, original: UpidEncoder)
    requires GoesThrough(d, newType, encode)
    requires Walkable(d) ==> Carries(d, typ, original)
    ensures var d' := RewrittenForm(d, newType, encode);
            && GoesThrough(d', Some(typ), original) && RewrittenForm(d', Some(typ), original) == d
            && (RewriteOne(d, newType, encode).Replaced? ==> RewriteOne(d', Some(typ), original).Replaced?)
  {
    FormWalkable(d, newType, encode);
    var d' := RewrittenForm(d, newType, encode);
    RewriteOneMeaning(d', Some(typ), original);
    if Walkable(d) {
      var s, s' := SegmentOf(d.body).value, SegmentOf(d'.body).value;
      assert WithUpid(s', Some(typ), s.upid) == s;
      SegmentDecodes(d.body);
      SegmentDecodes(d'.body);
      SegmentSize(s);
      SegmentSize(s');
      hide RewriteOne, SegmentOf, EncodeSegment, WellFormed;
    } else {
      RewriteOneMeaning(d, newType, encode);
    }
  }

  lemma {:induction false} RewriteAllBack(ds: seq<Descriptor>, newType: Option<Byte>, encode: UpidEncoder,
                                          typ: Byte, original: UpidEncoder)
    requires RewriteAll(ds, newType, encode).Edited?
    requires AllCarry(ds, typ, original)
    ensures var out := RewriteAll(ds, newType, encode).value;
            && RewriteAll(out, Some(typ), original) == Edited(ds)
            && (AnyReplaced(ds, newType, encode) ==> AnyReplaced(out, Some(typ), original))
  {
    hide RewriteOne, Walkable, Carries;
    if ds != [] {
      var n := |ds| - 1;
      assert ds[..n] + [ds[n]] == ds && ds[n] in ds;
      RewriteAllBack(ds[..n], newType, encode, typ, original);
      var front := RewriteAll(ds[..n], newType, encode).value;
      RewriteAllAt(ds, newType, encode, n);
      var now := RewrittenForm(ds[n], newType, encode);
      RewriteOneBack(ds[n], newType, encode, typ, original);
      OneMore(front, now, Some(typ), original);
      OneMore(ds[..n], ds[n], newType, encode);
    }
  }

  /** Conversely a descriptor is restored only if it carried the UPID, once anything is rewritten. */
  lemma RestoredCarries(ds: seq<Descriptor>, newType: Option<Byte>, encode: UpidEncoder, typ: Byte, original: UpidEncoder)
    requires RewriteAll(ds, newType, encode).Edited?
    requires var out := RewriteAll(ds, newType, encode).value;
             RewriteAll(out, Some(typ), original) == Edited(ds) && AnyReplaced(out, Some(typ), original)
    ensures AllCarry(ds, typ, original)
  {
    hide RewriteOne, AnyReplaced;
    var out := RewriteAll(ds, newType, encode).value;
    EncodesSome(out, typ, original);
    forall d | d in ds && Walkable(d)
      ensures Carries(d, typ, original)
    {
      var k :| 0 <= k < |ds| && ds[k] == d;
      RewriteAllAt(ds, newType, encode, k);
      RewriteAllAt(out, Some(typ), original, k);
      FormWalkable(d, newType, encode);
      RewriteOneMeaning(out[k], Some(typ), original);
    }
  }

  lemma EncodesSome(out: seq<Descriptor>, typ: Byte, original: UpidEncoder)
    requires AnyReplaced(out, Some(typ), original)
    ensures original(typ).Some? && |original(typ).value| <= 255
  {
    var d :| d in out && RewriteOne(d, Some(typ), original).Replaced?;
    RewriteOneMeaning(d, Some(typ), original);
  }

  // ---- Restoring messages ----

  /** What a message must be for a rewrite back to the given UPID to restore it. */
  predicate Restorable(b: seq<Byte>, typ: Byte, original: UpidEncoder)
    requires LoopAt(b).Some?
  {
    LoopBounds(b);
    && Sealed(b) && LengthAsWritten(b)
    && ParseLoop(FrameOf(b).loop).rest == []
    && AllCarry(ParseLoop(FrameOf(b).loop).descriptors, typ, original)
  }

  /** Rewriting a UPID that went through back to another restores the message byte for byte exactly
      when it was sealed, its length field was the one the editor writes, its loop was tiled by
      whole descriptors, and every live walkable segment carried that other UPID. */
  lemma RewriteUpidUndone(b: seq<Byte>, newType: Option<Byte>, encode: UpidEncoder, typ: Byte, original: UpidEncoder)
    requires RewriteUpid(b, newType, encode).Edited?
    ensures LoopAt(b).Some?
    ensures RewriteUpid(RewriteUpid(b, newType, encode).value, Some(typ), original) == Edited(b)
            <==> Restorable(b, typ, original)
  {
    RewriteUpidMeaning(b, newType, encode);
    if Restorable(b, typ, original) {
      Restored(b, newType, encode, typ, original);
    }
    if RewriteUpid(RewriteUpid(b, newType, encode).value, Some(typ), original) == Edited(b) {
      RestoredOnly(b, newType, encode, typ, original);
    }
  }

  lemma Restored(b: seq<Byte>, newType: Option<Byte>, encode: UpidEncoder, typ: Byte, original: UpidEncoder)
    requires RewriteUpid(b, newType, encode).Edited? && LoopAt(b).Some? && Restorable(b, typ, original)
    ensures RewriteUpid(RewriteUpid(b, newType, encode).value, Some(typ), original) == Edited(b)
  {
    hide FrameOf, LoopAt, Framed, RewriteAll, ParseLoop, Resize, Flatten, SizeAfter, LengthCorrect, AllCarry,
         AnyReplaced, LengthAsWritten;
    RewriteUpidMeaning(b, newType, encode);
    RewriteReplaces(b, newType, encode);
    LoopBounds(b);
    var f := FrameOf(b);
    var ds := ParseLoop(f.loop).descriptors;
    RewriteAllBack(ds, newType, encode, typ, original);
    FlattenParse(f.loop);
    assert Flatten(ds) == f.loop;
    FrameDecodes(b);
    FramedSizes(f);
    var loop, out := Flatten(RewriteAll(ds, newType, encode).value), RewriteUpid(b, newType, encode).value;
    ResizedSizes(f, loop);
    ResizeTwice(f, loop, f.loop);
    LoopFits(b);
    ResizeSame(b);
    hide RewriteUpid, Join;
    RewrittenBack(out, Some(typ), original, ds);
  }

  lemma FramedSizes(f: Frame)
    requires Framed(f)
    ensures |f.head| >= HEADER_BYTES && |f.word| == 2
  {
  }

  lemma ResizedSizes(f: Frame, loop: seq<Byte>)
    requires |f.head| >= 3 && |f.word| == 2 && |loop| <= 0x3FF
    ensures |Resize(f, loop).head| == |f.head| && |Resize(f, loop).word| == 2
  {
  }

  /** What a rewrite makes of a message whose descriptors it rewrites to `ds`. */
  lemma RewrittenBack(b: seq<Byte>, newType: Option<Byte>, encode: UpidEncoder, ds: seq<Descriptor>)
    requires LoopAt(b).Some? && |FrameOf(b).head| >= 3 && |FrameOf(b).word| == 2
    requires var l := ParseLoop(FrameOf(b).loop);
             && l.rest == [] && AnyReplaced(l.descriptors, newType, encode)
             && RewriteAll(l.descriptors, newType, encode) == Edited(ds) && |Flatten(ds)| <= 0x3FF
    ensures RewriteUpid(b, newType, encode) == Edited(Join(Resize(FrameOf(b), Flatten(ds))))
  {
    hide FrameOf, LoopAt, RewriteAll, ParseLoop, Resize, Flatten, AnyReplaced;
  }

  lemma LoopFits(b: seq<Byte>)
    requires LoopAt(b).Some?
    ensures |FrameOf(b).loop| <= 0x3FF
  {
    LoopBounds(b);
  }

  lemma RestoredOnly(b: seq<Byte>, newType: Option<Byte>, encode: UpidEncoder, typ: Byte, original: UpidEncoder)
    requires RewriteUpid(b, newType, encode).Edited? && LoopAt(b).Some?
    requires RewriteUpid(RewriteUpid(b, newType, encode).value, Some(typ), original) == Edited(b)
    ensures Restorable(b, typ, original)
  {
    var out := RewriteUpid(b, newType, encode).value;
    RewriteUpidMeaning(b, newType, encode);
    RewriteUpidMeaning(out, Some(typ), original);
    LoopBounds(b);
    ResizedLength(b, FrameOf(out), FrameOf(b).loop);
    RewriteReplaces(out, Some(typ), original);
    hide FrameOf, LoopAt, Framed, RewriteAll, ParseLoop, Join, Resize, Flatten, SizeAfter, LengthCorrect, Sealed,
         AllCarry, LengthAsWritten, RewriteUpid, AnyReplaced;
    RestoredCarries(ParseLoop(FrameOf(b).loop).descriptors, newType, encode, typ, original);
  }

  lemma RewriteReplaces(b: seq<Byte>, newType: Option<Byte>, encode: UpidEncoder)
    requires RewriteUpid(b, newType, encode).Edited?
    ensures LoopAt(b).Some? && AnyReplaced(ParseLoop(FrameOf(b).loop).descriptors, newType, encode)
  {
  }

  /** A resized frame carries the length the editor writes. */
  lemma ResizedLength(b: seq<Byte>, f: Frame, loop: seq<Byte>)
    requires Framed(f) && |loop| <= 0x3FF && b == Join(Resize(f, loop))
    ensures LengthAsWritten(b)
  {
    hide HeadOk, Crc;
    var total := |f.head| + 2 + |loop| + |f.stuffing| + 4;
    assert |f.head| >= HEADER_BYTES by { HeadSize(f.head); }
    WithLengthFixed(f.head, total);
    assert |b| == total && b[..|f.head|] == WithLength(f.head, total);
    assert b[1] == WithLength(f.head, total)[1] && b[2] == WithLength(f.head, total)[2];
  }

  lemma ResizeSame(b: seq<Byte>)
    requires LoopAt(b).Some? && LengthAsWritten(b) && |FrameOf(b).loop| <= 0x3FF
    ensures Framed(FrameOf(b)) && Resize(FrameOf(b), FrameOf(b).loop) == FrameOf(b)
  {
    hide CommandAt, HeadOk, BitOf, Sealed, LoopAt, Be16, Crc;
    FrameDecodes(b);
    LoopBounds(b);
    var f := FrameOf(b);
    HeadSize(f.head);
    assert b[..|f.head|] == f.head by { BodyStarts(f, b[|b| - 4..]); }
    assert f.head[1] == b[1] && f.head[2] == b[2] && |b| == |Body(f)| + 4;
    hide FrameOf;
    WithLengthFixed(f.head, |b|);
    SameWord(f.word, |f.loop|);
  }

  lemma BodyStarts(f: Frame, crc: seq<Byte>)
    ensures (Body(f) + crc)[..|f.head|] == f.head
  {
  }

  lemma SameWord(word: seq<Byte>, n: nat)
    requires |word| == 2 && n <= 0x3FF && Be16(word, 0) % 0x400 == n
    ensures WithLoopLength(word, n) == word
  {
    var hi, lo: int := word[0], word[1];
    assert Be16(word, 0) == 0x400 * (hi / 4) + (256 * (hi % 4) + lo);
    assert n == 256 * (hi % 4) + lo;
  }

  // ---- Messages that show the limits ----

  /** An immediate time_signal with one segment, some loose bytes behind it in the loop, and
      stuffing. */
  function Example(loose: seq<Byte>, stuffing: seq<Byte>): seq<Byte>
    requires |loose| <= 1
  {
    Join(ExampleFrame(loose, stuffing))
  }

  function ExampleDescriptor(): Descriptor {
    SegmentBodySize(None, NO_ARGS);
    RawDescriptor.Descriptor(SEGMENTATION, SegmentBody(None, NO_ARGS))
  }

  function ExampleFrame(loose: seq<Byte>, stuffing: seq<Byte>): Frame
    requires |loose| <= 1
  {
    var n := 25 + |loose|;
    Frame(Head(TIME_SIGNAL, IMMEDIATE, HEADER_BYTES + 1 + 2 + n + |stuffing| + 4), [0, n],
          Encoded(ExampleDescriptor()) + loose, stuffing)
  }

  lemma ExampleShape(loose: seq<Byte>, stuffing: seq<Byte>)
    requires |loose| <= 1
    ensures var b := Example(loose, stuffing);
            && LoopAt(b).Some? && FrameOf(b) == ExampleFrame(loose, stuffing)
            && ParseLoop(FrameOf(b).loop) == Loop([ExampleDescriptor()], loose)
            && Sealed(b) && LengthAsWritten(b) && b[0] == 0xFC
            && |b| == 46 + |loose| + |stuffing|
    ensures Walkable(ExampleDescriptor()) && |ExampleDescriptor().body| == 23
    ensures SegmentOf(ExampleDescriptor().body) == Some(Built(None, NO_ARGS))
  {
    hide Example, ExampleDescriptor, LoopAt, FrameOf, ParseLoop, Sealed, LengthAsWritten, Walkable, Framed, Join, HeaderBytes,
         WithLength, Encoded, SegmentOf, Built, Head;
    var f := ExampleFrame(loose, stuffing);
    ExampleSegment();
    ExampleFramed(loose, stuffing);
    LooseLoop(ExampleDescriptor(), loose);
    JoinedFrame(f, HeaderBytes(TIME_SIGNAL, 1) + IMMEDIATE);
    ExampleIs(loose, stuffing);
  }

  lemma ExampleIs(loose: seq<Byte>, stuffing: seq<Byte>)
    requires |loose| <= 1
    ensures Example(loose, stuffing) == Join(ExampleFrame(loose, stuffing))
  {
  }

  lemma JoinedFrame(f: Frame, head: seq<Byte>)
    requires Framed(f) && |head| >= 3
    requires f.head == WithLength(head, |f.head| + 2 + |f.loop| + |f.stuffing| + 4)
    ensures var b := Join(f);
            && LoopAt(b).Some? && FrameOf(b) == f && Sealed(b)
            && |b| == |f.head| + 2 + |f.loop| + |f.stuffing| + 4 && b[0] == 0xFC && LengthAsWritten(b)
  {
    JoinFrames(f);
    JoinedBytes(f, head);
  }

  /** What the first bytes of a section say when its head carries the right length. */
  lemma JoinedBytes(f: Frame, head: seq<Byte>)
    requires Framed(f) && |head| >= 3
    requires f.head == WithLength(head, |f.head| + 2 + |f.loop| + |f.stuffing| + 4)
    ensures var b := Join(f);
            && |b| == |f.head| + 2 + |f.loop| + |f.stuffing| + 4 && b[0] == 0xFC && LengthAsWritten(b)
  {
    var total, b := |f.head| + 2 + |f.loop| + |f.stuffing| + 4, Join(f);
    WithLengthFixed(head, total);
    HeadFirst(f.head);
    hide HeadOk, Crc, WithLength;
    assert b[..|f.head|] == f.head;
    assert b[0] == f.head[0] && b[1] == f.head[1] && b[2] == f.head[2];
  }

  lemma ExampleSegment()
    ensures Walkable(ExampleDescriptor()) && |ExampleDescriptor().body| == 23
    ensures SegmentOf(ExampleDescriptor().body) == Some(Built(None, NO_ARGS))
  {
    SegmentBodySize(None, NO_ARGS);
    SegmentBodyIsSegment(None, NO_ARGS);
  }

  lemma LooseLoop(d: Descriptor, loose: seq<Byte>)
    requires |loose| <= 1
    ensures ParseLoop(Encoded(d) + loose) == Loop([d], loose)
  {
    OneDescriptor(d);
    ParseFlatten([d], loose);
  }

  lemma ExampleFramed(loose: seq<Byte>, stuffing: seq<Byte>)
    requires |loose| <= 1
    ensures var f := ExampleFrame(loose, stuffing);
            && Framed(f) && |f.head| == HEADER_BYTES + 1
            && f.head == WithLength(HeaderBytes(TIME_SIGNAL, 1) + IMMEDIATE, HEADER_BYTES + 1 + 2 + 25 + |loose| + |stuffing| + 4)
            && |f.loop| == 25 + |loose| && f.stuffing == stuffing && f.loop == Encoded(ExampleDescriptor()) + loose
  {
    ExampleSegment();
    TimeSignalCommand();
    hide CommandAt, HeadOk, SegmentBody, SegmentOf, WithLength, Walkable;
    HeadShape(TIME_SIGNAL, IMMEDIATE, HEADER_BYTES + 1 + 2 + 25 + |loose| + |stuffing| + 4);
  }

  /** What a rewrite of the example does, in terms of the text its type is given. */
  lemma ExampleRewrites(loose: seq<Byte>, stuffing: seq<Byte>, newType: Option<Byte>, encode: UpidEncoder)
    requires |loose| <= 1
    ensures LoopAt(Example(loose, stuffing)).Some?
    ensures var b := Example(loose, stuffing);
            var text := encode(if newType.Some? then newType.value else 0x0C);
            && (RewriteUpid(b, newType, encode).Crash? <==> text.None?)
            && (text.Some? && |text.value| <= 200 ==>
                  && RewriteUpid(b, newType, encode).Edited?
                  && SizeAfter(b, newType, encode) == |b| + |text.value| - 8 - |loose|)
  {
    var b, d := Example(loose, stuffing), ExampleDescriptor();
    ExampleShape(loose, stuffing);
    RewriteUpidCases(b, newType, encode);
    OneDescriptor(d);
    hide RewriteUpid, FrameOf, LoopAt, ParseLoop, SegmentOf, Flatten, ExampleDescriptor, Example;
    var ds := [d];
    assert ds[..0] == [] && ds[0] == d && d in ds;
    assert Growth(ds, newType, encode) == Growth([], newType, encode) + GrowthOne(d, newType, encode);
    assert PanicReached(ds, newType, encode) <==> CannotEncode(d, newType, encode);
  }

  /** A valid section of the greatest size: any longer UPID of up to 200 bytes goes through, and the
      length field no longer holds. */
  lemma LongerUpidBreaksLength(encode: UpidEncoder, stuffing: seq<Byte>)
    requires |stuffing| == 4052 && encode(0x0C).Some? && 8 < |encode(0x0C).value| <= 200
    ensures var b := Example([], stuffing);
            && ValidSection(b) && |b| == 4098
            && RewriteUpid(b, None, encode).Edited?
            && !LengthCorrect(RewriteUpid(b, None, encode).value)
  {
    var b := Example([], stuffing);
    ExampleShape([], stuffing);
    ExampleRewrites([], stuffing, None, encode);
    LengthAsWrittenCorrect(b);
    hide *;
    RewriteUpidMeaning(b, None, encode);
    ValidByParts(b);
  }

  lemma ValidByParts(b: seq<Byte>)
    requires |b| >= 14 && b[0] == 0xFC && LengthCorrect(b) && Sealed(b)
    ensures ValidSection(b)
  {
  }

  /** A valid section with one loose byte behind its descriptors: the byte is lost, so no rewrite
      back restores the section, whatever the UPIDs. */
  lemma LooseByteLost(newType: Option<Byte>, encode: UpidEncoder, typ: Byte, original: UpidEncoder)
    requires RewriteUpid(Example([0], []), newType, encode).Edited?
    ensures var b := Example([0], []);
            && ValidSection(b)
            && RewriteUpid(RewriteUpid(b, newType, encode).value, Some(typ), original) != Edited(b)
  {
    var b := Example([0], []);
    ExampleShape([0], []);
    LengthAsWrittenCorrect(b);
    RewriteUpidUndone(b, newType, encode, typ, original);
  }
}
