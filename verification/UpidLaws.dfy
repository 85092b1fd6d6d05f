/** What rewriting the UPID guarantees about whole messages. */
module UpidLaws {
  import opened Bytes
  import opened Crc32
  import opened Layout
  import opened Descriptors
  import opened Frames
  import opened UpidRewrite

  // ---- One descriptor ----

  /** A live descriptor whose UPID the code can find. */
  predicate Walkable(d: Descriptor) {
    d.tag == SEGMENTATION && SegmentOf(d.body).Some?
  }

  /** The new UPID of a walkable descriptor: without a new type each segment keeps its own. */
  function Encoding(d: Descriptor, newType: Option<Byte>, encode: UpidEncoder): Option<seq<Byte>>
    requires Walkable(d)
  {
    encode(NewType(SegmentOf(d.body).value, newType))
  }

  /** A segment with a new UPID. */
  function WithUpid(s: Segment, newType: Option<Byte>, text: seq<Byte>): Segment {
    s.(upidType := NewType(s, newType), upid := text)
  }

  /** The bytes a descriptor gains, read from it and the new UPID. */
  function GrowthOne(d: Descriptor, newType: Option<Byte>, encode: UpidEncoder): int {
    if !Walkable(d) || Encoding(d, newType, encode).None? || |Encoding(d, newType, encode).value| > 255 then 0
    else |Encoding(d, newType, encode).value| - |SegmentOf(d.body).value.upid|
  }

  /** The UPID of this descriptor cannot be encoded without a panic. */
  predicate CannotEncode(d: Descriptor, newType: Option<Byte>, encode: UpidEncoder) {
    Walkable(d) && Encoding(d, newType, encode).None?
  }

  predicate Fits(d: Descriptor, newType: Option<Byte>, encode: UpidEncoder) {
    |d.body| + GrowthOne(d, newType, encode) <= 255
  }

  predicate Rewritable(d: Descriptor, newType: Option<Byte>, encode: UpidEncoder) {
    Walkable(d) && Encoding(d, newType, encode).Some? && |Encoding(d, newType, encode).value| <= 255
  }

  lemma SegmentSize(s: Segment)
    requires WellFormed(s)
    ensures |EncodeSegment(s)| == 12 + |s.components| + |s.duration| + |s.upid| + |s.tail|
  {
  }

  /** Live walkable segments change in UPID type, length and bytes only; cancelled, unwalkable and
      other descriptors are copied, as is a segment whose new UPID exceeds its length byte. */
  lemma RewriteOneMeaning(d: Descriptor, newType: Option<Byte>, encode: UpidEncoder)
    ensures RewriteOne(d, newType, encode).Panics? <==> CannotEncode(d, newType, encode)
    ensures RewriteOne(d, newType, encode).TooLong? <==> !Fits(d, newType, encode)
    ensures RewriteOne(d, newType, encode).Replaced? <==>
            Rewritable(d, newType, encode) && Fits(d, newType, encode)
    ensures match RewriteOne(d, newType, encode)
            case Replaced(d') =>
              var s := WithUpid(SegmentOf(d.body).value, newType, Encoding(d, newType, encode).value);
              && WellFormed(s) && d'.tag == SEGMENTATION && d'.body == EncodeSegment(s) && SegmentOf(d'.body) == Some(s)
              && |d'.body| == |d.body| + GrowthOne(d, newType, encode)
            case _ => true
  {
    hide SegmentOf, RewriteSegBody, EncodeSegment, UpidAt, SegDurationOffset, BitOf;
    WalkersAgree(d.body, newType, encode);
    if Rewritable(d, newType, encode) {
      var s := SegmentOf(d.body).value;
      SegmentDecodes(d.body);
      SegmentSize(s);
      var s' := WithUpid(s, newType, Encoding(d, newType, encode).value);
      SegmentEncodes(s');
      SegmentSize(s');
    }
  }

  function RewrittenForm(d: Descriptor, newType: Option<Byte>, encode: UpidEncoder): Descriptor {
    match RewriteOne(d, newType, encode)
    case Replaced(d') => d'
    case _ => d
  }

  /** A panic is reached: no descriptor in front of it stops the walk. */
  predicate PanicReached(ds: seq<Descriptor>, newType: Option<Byte>, encode: UpidEncoder) {
    exists k :: 0 <= k < |ds| && CannotEncode(ds[k], newType, encode) && AllFit(ds[..k], newType, encode)
  }

  predicate AllFit(ds: seq<Descriptor>, newType: Option<Byte>, encode: UpidEncoder) {
    forall d :: d in ds ==> Fits(d, newType, encode)
  }

  predicate AllEncode(ds: seq<Descriptor>, newType: Option<Byte>, encode: UpidEncoder) {
    forall d :: d in ds ==> !CannotEncode(d, newType, encode)
  }

  /** Which outcome a list of descriptors has. */
  lemma {:induction false} RewriteAllCases(ds: seq<Descriptor>, newType: Option<Byte>, encode: UpidEncoder)
    ensures RewriteAll(ds, newType, encode).Edited? <==> AllFit(ds, newType, encode) && AllEncode(ds, newType, encode)
    ensures RewriteAll(ds, newType, encode).Crash? <==> PanicReached(ds, newType, encode)
  {
    hide RewriteOne, Fits, CannotEncode, PanicReached, AllFit, AllEncode, Rewritable;
    if ds == [] {
      NothingFits(newType, encode);
    } else {
      var n := |ds| - 1;
      var front, last := ds[..n], ds[n];
      assert ds == front + [last];
      RewriteAllCases(front, newType, encode);
      RewriteOneMeaning(last, newType, encode);
      AllMore(front, last, newType, encode);
      if AllFit(front, newType, encode) {
        FitsButPanics(front, newType, encode);
      }
      PanicLater(ds, newType, encode);
      hide SegmentOf, EncodeSegment, WellFormed;
    }
  }

  /** Where everything fits, the first descriptor that cannot be encoded is reached. */
  lemma {:induction false} FitsButPanics(ds: seq<Descriptor>, newType: Option<Byte>, encode: UpidEncoder)
    requires AllFit(ds, newType, encode)
    ensures PanicReached(ds, newType, encode) <==> !AllEncode(ds, newType, encode)
  {
    hide Fits, CannotEncode;
    forall k | 0 <= k < |ds|
      ensures ds[k] in ds && AllFit(ds[..k], newType, encode)
    {
    }
  }

  lemma NothingFits(newType: Option<Byte>, encode: UpidEncoder)
    ensures AllFit([], newType, encode) && AllEncode([], newType, encode) && !PanicReached([], newType, encode)
  {
  }

  lemma AllMore(front: seq<Descriptor>, last: Descriptor, newType: Option<Byte>, encode: UpidEncoder)
    ensures AllFit(front + [last], newType, encode) <==> AllFit(front, newType, encode) && Fits(last, newType, encode)
    ensures AllEncode(front + [last], newType, encode) <==>
            AllEncode(front, newType, encode) && !CannotEncode(last, newType, encode)
  {
    hide Fits, CannotEncode;
    assert last in front + [last] && forall d :: d in front ==> d in front + [last];
  }

  lemma PanicLater(ds: seq<Descriptor>, newType: Option<Byte>, encode: UpidEncoder)
    requires ds != []
    ensures var n := |ds| - 1;
            PanicReached(ds, newType, encode) <==>
            || PanicReached(ds[..n], newType, encode)
            || (AllFit(ds[..n], newType, encode) && CannotEncode(ds[n], newType, encode))
  {
    hide CannotEncode, AllFit;
    var n := |ds| - 1;
    forall k | 0 <= k <= n
      ensures k < n ==> ds[..n][..k] == ds[..k] && ds[..n][k] == ds[k]
    {
    }
    if PanicReached(ds[..n], newType, encode) {
      var k :| 0 <= k < n && CannotEncode(ds[..n][k], newType, encode) && AllFit(ds[..n][..k], newType, encode);
      assert CannotEncode(ds[k], newType, encode) && AllFit(ds[..k], newType, encode);
    }
  }

  /** Rewriting keeps the number and order of descriptors. */
  lemma {:induction false} RewriteAllAt(ds: seq<Descriptor>, newType: Option<Byte>, encode: UpidEncoder, k: nat)
    requires RewriteAll(ds, newType, encode).Edited? && k < |ds|
    ensures RewriteOne(ds[k], newType, encode).Kept? || RewriteOne(ds[k], newType, encode).Replaced?
    ensures RewriteAll(ds, newType, encode).value[k] == RewrittenForm(ds[k], newType, encode)
  {
    if k < |ds| - 1 {
      RewriteAllAt(ds[..|ds| - 1], newType, encode, k);
    }
  }

  /** The bytes a loop gains. */
  function Growth(ds: seq<Descriptor>, newType: Option<Byte>, encode: UpidEncoder): int {
    if ds == [] then 0
    else Growth(ds[..|ds| - 1], newType, encode) + GrowthOne(ds[|ds| - 1], newType, encode)
  }

  lemma {:induction false} RewriteAllSize(ds: seq<Descriptor>, newType: Option<Byte>, encode: UpidEncoder)
    requires AllFit(ds, newType, encode) && AllEncode(ds, newType, encode)
    ensures RewriteAll(ds, newType, encode).Edited?
    ensures |Flatten(RewriteAll(ds, newType, encode).value)| == |Flatten(ds)| + Growth(ds, newType, encode)
  {
    hide RewriteOne, Flatten, Fits, CannotEncode, GrowthOne;
    RewriteAllCases(ds, newType, encode);
    if ds == [] {
      FlattenNothing();
    } else {
      var n := |ds| - 1;
      var front, last := ds[..n], ds[n];
      assert ds == front + [last];
      RewriteAllSize(front, newType, encode);
      OneMore(front, last, newType, encode);
      RewriteAllAt(ds, newType, encode, n);
      RewriteOneMeaning(last, newType, encode);
      FormSize(last, newType, encode);
      var now := RewrittenForm(last, newType, encode);
      FlattenSnoc(front, last);
      FlattenSnoc(RewriteAll(front, newType, encode).value, now);
    }
  }

  lemma FlattenNothing()
    ensures Flatten([]) == []
  {
  }

  lemma FormSize(d: Descriptor, newType: Option<Byte>, encode: UpidEncoder)
    requires RewriteOne(d, newType, encode).Kept? || RewriteOne(d, newType, encode).Replaced?
    ensures |RewrittenForm(d, newType, encode).body| == |d.body| + GrowthOne(d, newType, encode)
  {
    RewriteOneMeaning(d, newType, encode);
  }

  /** A second rewriting of a descriptor finds nothing left to change. */
  lemma RewriteOneTwice(d: Descriptor, newType: Option<Byte>, encode: UpidEncoder)
    requires RewriteOne(d, newType, encode).Kept? || RewriteOne(d, newType, encode).Replaced?
    ensures var d' := RewrittenForm(d, newType, encode);
            RewriteOne(d', newType, encode)
            == if RewriteOne(d, newType, encode).Replaced? then Replaced(d') else Kept
  {
    RewriteOneMeaning(d, newType, encode);
    RewriteOneMeaning(RewrittenForm(d, newType, encode), newType, encode);
    hide RewriteOne, SegmentOf, EncodeSegment, WellFormed;
  }

  lemma {:induction false} RewriteAllTwice(ds: seq<Descriptor>, newType: Option<Byte>, encode: UpidEncoder)
    requires RewriteAll(ds, newType, encode).Edited?
    ensures var out := RewriteAll(ds, newType, encode).value;
            && RewriteAll(out, newType, encode) == Edited(out)
            && AnyReplaced(out, newType, encode) == AnyReplaced(ds, newType, encode)
  {
    hide RewriteOne, AnyReplaced, RewriteAll;
    if ds == [] {
      StartAll(newType, encode);
    } else {
      var n := |ds| - 1;
      RewriteFront(ds, newType, encode);
      RewriteAllTwice(ds[..n], newType, encode);
      RewriteAllAt(ds, newType, encode, n);
      var front := RewriteAll(ds[..n], newType, encode).value;
      var now := RewrittenForm(ds[n], newType, encode);
      RewriteOneTwice(ds[n], newType, encode);
      OneMore(front, now, newType, encode);
      OneMore(ds[..n], ds[n], newType, encode);
      assert ds[..n] + [ds[n]] == ds;
    }
  }

  lemma RewriteFront(ds: seq<Descriptor>, newType: Option<Byte>, encode: UpidEncoder)
    requires ds != [] && RewriteAll(ds, newType, encode).Edited?
    ensures RewriteAll(ds[..|ds| - 1], newType, encode).Edited?
  {
  }

  // ---- Whole messages ----

  lemma WithLoopLengthReads(word: seq<Byte>, n: nat)
    requires |word| == 2 && n <= 0x3FF
    ensures Be16(WithLoopLength(word, n), 0) % 0x400 == n
    ensures WithLoopLength(word, n)[0] / 4 == word[0] / 4
  {
    var w := WithLoopLength(word, n);
    assert Be16(w, 0) == 0x400 * (word[0] as int / 4) + n;
  }

  lemma HeadSize(head: seq<Byte>)
    requires HeadOk(head)
    ensures |head| >= HEADER_BYTES
  {
  }

  lemma ResizeFramed(f: Frame, loop: seq<Byte>)
    requires Framed(f) && |loop| <= 0x3FF
    ensures Framed(Resize(f, loop))
    ensures CommandAt(Resize(f, loop).head, HEADER_BYTES, f.head[13]) == CommandAt(f.head, HEADER_BYTES, f.head[13])
    ensures LengthCorrect(Join(Resize(f, loop))) <==> |Join(Resize(f, loop))| <= 4098
  {
    hide CommandAt, HeadOk, Be16, Crc, WithLoopLength, LengthCorrect;
    HeadSize(f.head);
    var total := |f.head| + 2 + |loop| + |f.stuffing| + 4;
    WithLoopLengthReads(f.word, |loop|);
    WithLengthHead(f.head, total);
    var g := Resize(f, loop);
    var rest := g.word + loop + g.stuffing + ToBeBytes(Crc(Body(g)));
    assert Join(g) == WithLength(f.head, total) + rest;
    WithLengthField(f.head, rest);
  }

  /** The size of a message after a rewrite that goes through, read from the message before it: its
      walkable segments gain or lose bytes and a stray trailing byte of the loop is dropped. */
  function SizeAfter(b: seq<Byte>, newType: Option<Byte>, encode: UpidEncoder): int
    requires LoopAt(b).Some?
  {
    LoopBounds(b);
    var l := ParseLoop(FrameOf(b).loop);
    |b| + Growth(l.descriptors, newType, encode) - |l.rest|
  }

  /** The walk over the descriptors meets a UPID it cannot encode. */
  predicate RewritePanics(b: seq<Byte>, newType: Option<Byte>, encode: UpidEncoder) {
    LoopAt(b).Some? && PanicReached(ParseLoop(FrameOf(b).loop).descriptors, newType, encode)
  }

  /** Everything fits, and some live segment is there to rewrite. */
  predicate RewriteFits(b: seq<Byte>, newType: Option<Byte>, encode: UpidEncoder) {
    && LoopAt(b).Some?
    && var l := ParseLoop(FrameOf(b).loop);
    && |l.rest| <= 1 && AllFit(l.descriptors, newType, encode) && AllEncode(l.descriptors, newType, encode)
    && (exists d :: d in l.descriptors && Rewritable(d, newType, encode))
    && |Flatten(l.descriptors)| + Growth(l.descriptors, newType, encode) <= 0x3FF
  }

  /** When a rewrite panics, goes through, or leaves the message alone, in terms of the message. */
  lemma RewriteUpidCases(b: seq<Byte>, newType: Option<Byte>, encode: UpidEncoder)
    ensures RewriteUpid(b, newType, encode).Crash? <==> RewritePanics(b, newType, encode)
    ensures RewriteUpid(b, newType, encode).Edited? <==> RewriteFits(b, newType, encode)
  {
    hide AllFit, AllEncode, PanicReached, Growth, Flatten, RewriteAll, Join, Resize;
    if LoopAt(b).Some? {
      FrameDecodes(b);
      hide LoopAt, Framed;
      var ds := ParseLoop(FrameOf(b).loop).descriptors;
      RewriteAllCases(ds, newType, encode);
      if AllFit(ds, newType, encode) && AllEncode(ds, newType, encode) {
        RewriteAllSize(ds, newType, encode);
        SomeReplaced(ds, newType, encode);
      }
    }
  }

  lemma SomeReplaced(ds: seq<Descriptor>, newType: Option<Byte>, encode: UpidEncoder)
    requires AllFit(ds, newType, encode)
    ensures AnyReplaced(ds, newType, encode) <==> exists d :: d in ds && Rewritable(d, newType, encode)
  {
    hide RewriteOne, Rewritable, Fits;
    forall d | d in ds
      ensures RewriteOne(d, newType, encode).Replaced? <==> Rewritable(d, newType, encode)
    {
      RewriteOneMeaning(d, newType, encode);
    }
  }

  /** What a rewritten message is: the same header (but for section_length), command, reserved bits
      and stuffing, exactly the rewritten descriptors in their order, a loop length and CRC that
      are right, and a section_length that is right just when the size foreseen fits 12 bits. */
  lemma RewriteUpidMeaning(b: seq<Byte>, newType: Option<Byte>, encode: UpidEncoder)
    requires RewriteUpid(b, newType, encode).Edited?
    ensures LoopAt(b).Some? && Framed(FrameOf(b))
    ensures var out := RewriteUpid(b, newType, encode).value;
            var f := FrameOf(b);
            var ds := RewriteAll(ParseLoop(f.loop).descriptors, newType, encode);
            && ds.Edited? && |Flatten(ds.value)| <= 0x3FF
            && LoopAt(out).Some? && FrameOf(out) == Resize(f, Flatten(ds.value)) && out == Join(FrameOf(out))
            && ParseLoop(FrameOf(out).loop) == Loop(ds.value, [])
            && CommandAt(FrameOf(out).head, HEADER_BYTES, f.head[13]) == CommandAt(f.head, HEADER_BYTES, f.head[13])
            && Sealed(out)
            && |out| == SizeAfter(b, newType, encode)
            && (LengthCorrect(out) <==> SizeAfter(b, newType, encode) <= 4098)
  {
    RewriteSized(b, newType, encode);
    FrameDecodes(b);
    var f := FrameOf(b);
    var loop := Flatten(RewriteAll(ParseLoop(f.loop).descriptors, newType, encode).value);
    ResizeFramed(f, loop);
    JoinFrames(Resize(f, loop));
    ParseFlatten(RewriteAll(ParseLoop(f.loop).descriptors, newType, encode).value, []);
    assert loop + [] == loop;
  }

  lemma RewriteSized(b: seq<Byte>, newType: Option<Byte>, encode: UpidEncoder)
    requires RewriteUpid(b, newType, encode).Edited?
    ensures |RewriteUpid(b, newType, encode).value| == SizeAfter(b, newType, encode)
  {
    RewriteUpidCases(b, newType, encode);
    FrameDecodes(b);
    var f := FrameOf(b);
    var ds := ParseLoop(f.loop).descriptors;
    RewriteAllSize(ds, newType, encode);
    FlattenParse(f.loop);
    hide LoopAt, FrameOf, Framed, RewriteAll, Growth, ParseLoop, Flatten, AllFit, AllEncode, PanicReached, Crc;
  }

  /** Rewriting twice with one type and value equals rewriting once. */
  lemma RewriteUpidTwice(b: seq<Byte>, newType: Option<Byte>, encode: UpidEncoder)
    requires RewriteUpid(b, newType, encode).Edited?
    ensures RewriteUpid(RewriteUpid(b, newType, encode).value, newType, encode) == RewriteUpid(b, newType, encode)
  {
    RewriteUpidMeaning(b, newType, encode);
    var f := FrameOf(b);
    var loop := Flatten(RewriteAll(ParseLoop(f.loop).descriptors, newType, encode).value);
    RewriteAllTwice(ParseLoop(f.loop).descriptors, newType, encode);
    ResizeTwice(f, loop, loop);
    hide FrameOf, LoopAt, Framed, RewriteAll, AnyReplaced, ParseLoop, Join, Resize, Flatten, SizeAfter, LengthCorrect, Sealed;
  }

  lemma ResizeTwice(f: Frame, l1: seq<Byte>, l2: seq<Byte>)
    requires |f.head| >= 3 && |f.word| == 2 && |l1| <= 0x3FF && |l2| <= 0x3FF
    ensures Resize(Resize(f, l1), l2) == Resize(f, l2)
  {
    WithLoopLengthReads(f.word, |l1|);
    WithLengthTwice(f.head, |f.head| + 2 + |l1| + |f.stuffing| + 4, |f.head| + 2 + |l2| + |f.stuffing| + 4);
  }
}
