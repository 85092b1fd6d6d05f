/** Both decoders read exactly what a well-formed loop holds, hence agree with each other. */
module DecoderLaws {
  import opened Bytes
  import opened Layout
  import opened Walkers
  import opened Descriptors
  import opened Frames
  import opened Decoders

  predicate Cancelled(body: seq<Byte>) {
    |body| >= 9 && BitOf(body[8], 0)
  }

  /** The body holds everything its tag promises. */
  predicate Complete(d: Descriptor) {
    if d.tag == SEGMENTATION then
      Cancelled(d.body) || (SegmentOf(d.body).Some? && |SegmentOf(d.body).value.tail| >= 3)
    else if d.tag == 1 then
      d.body == [] || (|d.body| >= 2 && 2 + d.body[1] as int / 32 <= |d.body|)
    else true
  }

  /** What a descriptor means, read from its own body alone. */
  function Meaning(d: Descriptor): Info
    requires Complete(d)
  {
    var body := d.body;
    if d.tag == SEGMENTATION then
      if Cancelled(body) then CancelledSegment(Be32(body, 0), Be32(body, 4))
      else SegmentReport(SegmentOf(body).value)
    else if d.tag == 0 && |body| >= 4 then Avail(Be32(body, 0))
    else if d.tag == 1 && |body| >= 1 then Dtmf(body[0], body[2..2 + body[1] as int / 32])
    else Opaque
  }

  function Report(d: Descriptor): Tagged
    requires Complete(d)
  {
    Tagged(d.tag, |d.body|, Meaning(d))
  }

  predicate AllComplete(ds: seq<Descriptor>) {
    forall d :: d in ds ==> Complete(d)
  }

  function Reports(ds: seq<Descriptor>): (r: seq<Tagged>)
    requires AllComplete(ds)
    ensures |r| == |ds|
  {
    if ds == [] then [] else [Report(ds[0])] + Reports(ds[1..])
  }

  /** The monitor's details after one more descriptor, in terms of the tools decoder's report. */
  function Note(info: Details, t: Tagged): Details {
    match t.info
    case SegmentInfo(_, _, typeId, _, _, _, upidType, upid, _, _) =>
      var withUpid := if upid == [] then info else info.(upid := Some(Upid(upidType, upid)));
      withUpid.(typeId := Some(typeId))
    case _ => info
  }

  /** The last segment wins; an empty UPID leaves an earlier one in place. */
  function Summary(info: Details, ts: seq<Tagged>): Details
    decreases |ts|
  {
    if ts == [] then info else Summary(Note(info, ts[0]), ts[1..])
  }

  // ---- One descriptor inside a buffer ----

  /** More bytes behind a walkable body only lengthen its tail. */
  lemma SegmentExtends(body: seq<Byte>, more: seq<Byte>)
    requires SegmentOf(body).Some?
    ensures SegmentOf(body + more) == Some(SegmentOf(body).value.(tail := SegmentOf(body).value.tail + more))
  {
    var s := SegmentOf(body).value;
    var s' := s.(tail := s.tail + more);
    SegmentDecodes(body);
    assert EncodeSegment(s') == body + more;
    SegmentEncodes(s');
  }

  /** The buffer around one encoded descriptor. */
  lemma Around(pre: seq<Byte>, d: Descriptor, post: seq<Byte>)
    ensures var b, at := pre + Encoded(d) + post, |pre|;
            && b[at] == d.tag && b[at + 1] == |d.body|
            && b[at + 2..at + 2 + |d.body|] == d.body && b[at + 2..] == d.body + post
            && |b| == at + 2 + |d.body| + |post|
            && (forall i :: 0 <= i < |d.body| ==> b[at + 2 + i] == d.body[i])
  {
  }

  lemma Be32Inside(b: seq<Byte>, at: nat, body: seq<Byte>, k: nat)
    requires k + 4 <= |body| && at + |body| <= |b|
    requires forall i :: 0 <= i < |body| ==> b[at + i] == body[i]
    ensures Be32(b, at + k) == Be32(body, k)
  {
    assert b[at + k] == body[k] && b[at + (k + 1)] == body[k + 1];
    assert b[at + (k + 2)] == body[k + 2] && b[at + (k + 3)] == body[k + 3];
  }

  lemma SegmentBodyReads(pre: seq<Byte>, d: Descriptor, post: seq<Byte>)
    requires d.tag == SEGMENTATION && Complete(d)
    ensures var b, at, n := pre + Encoded(d) + post, |pre| + 2, |d.body|;
            && SegmentBodyAt(b, at).Some?
            && SegmentBodyAt(b, at).value.item == Meaning(d)
            && SegmentBodyAt(b, at).value.end <= at + n
  {
    var b, at := pre + Encoded(d) + post, |pre| + 2;
    Around(pre, d, post);
    CompleteSegment(d);
    hide Encoded, SegmentOf, SegmentReport, SegmentBodyAt;
    if Cancelled(d.body) {
      CancelledBodyReads(b, at, d.body);
    } else {
      LiveBodyReads(b, at, d.body, post);
    }
  }

  lemma CancelledBodyReads(b: seq<Byte>, at: nat, body: seq<Byte>)
    requires at + |body| <= |b| && Cancelled(body)
    requires forall i :: 0 <= i < |body| ==> b[at + i] == body[i]
    ensures SegmentBodyAt(b, at) == Some(Parsed(CancelledSegment(Be32(body, 0), Be32(body, 4)), at + 9))
  {
    hide Be32, BitOf, LiveSegmentAt;
    Be32Inside(b, at, body, 0);
    Be32Inside(b, at, body, 4);
    assert b[at + 8] == body[8];
  }

  lemma LiveBodyReads(b: seq<Byte>, at: nat, body: seq<Byte>, post: seq<Byte>)
    requires at <= |b| && b[at..] == body + post && |body| >= 9 && !Cancelled(body)
    requires SegmentOf(body).Some? && |SegmentOf(body).value.tail| >= 3
    ensures SegmentBodyAt(b, at).Some?
    ensures SegmentBodyAt(b, at).value.item == SegmentReport(SegmentOf(body).value)
    ensures SegmentBodyAt(b, at).value.end <= at + |body|
  {
    SegmentExtends(body, post);
    SegmentDecodes(body);
    assert b[at + 8] == b[at..][8] == body[8];
    hide SegmentOf, BitOf, Be32, Be40;
  }

  lemma DtmfReads(pre: seq<Byte>, d: Descriptor, post: seq<Byte>)
    requires d.tag == 1 && Complete(d) && |d.body| >= 1
    ensures DtmfAt(pre + Encoded(d) + post, |pre| + 2, |d.body|) == Some(Parsed(Meaning(d), |pre| + 2 + |d.body|))
  {
    hide SegmentOf, SegmentReport;
    var b, at := pre + Encoded(d) + post, |pre| + 2;
    Around(pre, d, post);
    hide Encoded;
    var count := d.body[1] as int / 32;
    assert b[at + 0] == d.body[0] && b[at + 1] == d.body[1];
    SliceOfSlice(b, at, at + |d.body|, 2, 2 + count);
  }

  lemma DescriptorReads(pre: seq<Byte>, d: Descriptor, post: seq<Byte>)
    requires Complete(d)
    ensures DescriptorAt(pre + Encoded(d) + post, |pre|) == Some(Parsed(Report(d), |pre| + 2 + |d.body|))
  {
    hide SegmentOf, SegmentReport, DtmfAt, SegmentBodyAt, BitOf, Be32, Encoded;
    var b, at := pre + Encoded(d) + post, |pre|;
    Around(pre, d, post);
    if d.tag == SEGMENTATION {
      CompleteSegment(d);
      SegmentBodyReads(pre, d, post);
    } else if d.tag == 0 && |d.body| >= 4 {
      Be32Inside(b, at + 2, d.body, 0);
    } else if d.tag == 1 && |d.body| >= 1 {
      DtmfReads(pre, d, post);
    }
  }

  lemma CompleteSegment(d: Descriptor)
    requires d.tag == SEGMENTATION && Complete(d)
    ensures |d.body| >= 9
  {
  }

  lemma DetailReads(pre: seq<Byte>, d: Descriptor, post: seq<Byte>, info: Details)
    requires Complete(d)
    ensures DetailAt(pre + Encoded(d) + post, |pre|, info) == Some(Parsed(Note(info, Report(d)), |pre| + 2 + |d.body|))
  {
    var b, at := pre + Encoded(d) + post, |pre| + 2;
    Around(pre, d, post);
    if d.tag == SEGMENTATION {
      if Cancelled(d.body) {
        assert b[at + 8] == d.body[8];
      } else {
        SegmentExtends(d.body, post);
        SegmentDecodes(d.body);
        assert BitOf(b[at + 8], 0) == BitOf(d.body[8], 0);
      }
    }
  }

  // ---- A loop of them ----

  lemma EncodedSize(d: Descriptor)
    ensures |Encoded(d)| == 2 + |d.body|
  {
  }

  lemma {:induction false} DescriptorsRead(pre: seq<Byte>, ds: seq<Descriptor>, post: seq<Byte>)
    requires AllComplete(ds)
    ensures DescriptorsAt(pre + Flatten(ds) + post, |pre|, |pre| + |Flatten(ds)|) == Reports(ds)
    decreases |ds|
  {
    hide DescriptorAt, Report, Complete, Encoded;
    if ds != [] {
      var d, more := ds[0], Flatten(ds[1..]) + post;
      var b, end := pre + Flatten(ds) + post, |pre| + |Flatten(ds)|;
      assert b == pre + Encoded(d) + more;
      EncodedSize(d);
      DescriptorReads(pre, d, more);
      assert DescriptorsAt(b, |pre|, end) == [Report(d)] + DescriptorsAt(b, |pre| + 2 + |d.body|, end);
      assert Reports(ds) == [Report(d)] + Reports(ds[1..]);
      hide DescriptorsAt, Reports;
      assert b == (pre + Encoded(d)) + Flatten(ds[1..]) + post;
      DescriptorsRead(pre + Encoded(d), ds[1..], post);
    }
  }

  lemma {:induction false} DetailsRead(pre: seq<Byte>, ds: seq<Descriptor>, post: seq<Byte>, info: Details)
    requires AllComplete(ds)
    ensures DetailsAt(pre + Flatten(ds) + post, |pre|, |pre| + |Flatten(ds)|, info) == Some(Summary(info, Reports(ds)))
    decreases |ds|
  {
    hide DetailAt, Report, Complete, Encoded, Note;
    if ds != [] {
      var d, more := ds[0], Flatten(ds[1..]) + post;
      var b := pre + Flatten(ds) + post;
      assert b == pre + Encoded(d) + more;
      EncodedSize(d);
      DetailReads(pre, d, more, info);
      var end, next := |pre| + |Flatten(ds)|, Note(info, Report(d));
      assert DetailsAt(b, |pre|, end, info) == DetailsAt(b, |pre| + 2 + |d.body|, end, next);
      assert Summary(info, Reports(ds)) == Summary(next, Reports(ds[1..])) by {
        assert Reports(ds)[1..] == Reports(ds[1..]);
      }
      hide DetailsAt, Summary, Reports;
      assert b == (pre + Encoded(d)) + Flatten(ds[1..]) + post;
      DetailsRead(pre + Encoded(d), ds[1..], post, next);
    }
  }

  // ---- Whole messages ----

  /** A located message whose loop is tiled exactly by complete descriptors. */
  predicate Tidy(b: seq<Byte>) {
    && LoopAt(b).Some?
    && var l := ParseLoop(FrameOf(b).loop);
    && l.rest == [] && AllComplete(l.descriptors)
  }

  function CommandOf(f: Frame): Command
    requires Framed(f)
  {
    CommandAt(f.head, HEADER_BYTES, f.head[13]).value.item
  }

  lemma LoopsRead(b: seq<Byte>, start: nat, end: nat, ds: seq<Descriptor>, info: Details)
    requires start <= end <= |b| && b[start..end] == Flatten(ds) && AllComplete(ds)
    ensures DescriptorsAt(b, start, end) == Reports(ds)
    ensures DetailsAt(b, start, end, info) == Some(Summary(info, Reports(ds)))
  {
    hide DescriptorsAt, DetailsAt, Reports, Summary, Flatten, AllComplete;
    assert b == b[..start] + Flatten(ds) + b[end..];
    DescriptorsRead(b[..start], ds, b[end..]);
    DetailsRead(b[..start], ds, b[end..], info);
  }

  lemma TidyLoop(b: seq<Byte>)
    requires Tidy(b)
    ensures var ds, s := ParseLoop(FrameOf(b).loop).descriptors, LoopAt(b).value;
            && s.start <= s.end <= |b| && b[s.start..s.end] == Flatten(ds) && AllComplete(ds)
  {
    LoopStart(b);
    FlattenParse(FrameOf(b).loop);
    var flat := Flatten(ParseLoop(FrameOf(b).loop).descriptors);
    assert flat + [] == flat;
  }

  /** Both decoders in terms of the command's end and the loop span. */
  lemma LoopStart(b: seq<Byte>)
    requires LoopAt(b).Some?
    ensures var s := LoopAt(b).value;
            && s.start <= s.end <= |b|
            && Framed(FrameOf(b))
            && var command := CommandOf(FrameOf(b));
            && Decode(b) == Some(Decoded(b[3], false, Be33(b, 4), b[13], command, DescriptorsAt(b, s.start, s.end)))
            && DecodeDetails(b) == DetailsAt(b, s.start, s.end, Details(Some(b[13]), None, None, CommandPts(command)))
  {
    hide CommandAt, FrameOf, CommandOf, DescriptorsAt, DetailsAt, Framed, BitOf;
    CommandInMessage(b);
  }

  lemma CommandInMessage(b: seq<Byte>)
    requires LoopAt(b).Some?
    ensures Framed(FrameOf(b))
    ensures CommandAt(b, HEADER_BYTES, b[13]) == Some(Parsed(CommandOf(FrameOf(b)), LoopAt(b).value.word))
  {
    FrameDecodes(b);
    HeadOfMessage(b);
    hide CommandAt;
    var n := LoopAt(b).value.word;
    assert FrameOf(b).head == b[..n] && b[..n][13] == b[13];
  }

  /** The tools decoder returns the command and the descriptors of the message, in order. */
  lemma DecodeReads(b: seq<Byte>)
    requires Tidy(b)
    ensures Framed(FrameOf(b))
    ensures Decode(b) == Some(Decoded(b[3], false, Be33(b, 4), b[13], CommandOf(FrameOf(b)),
                                      Reports(ParseLoop(FrameOf(b).loop).descriptors)))
  {
    LoopStart(b);
    TidyLoop(b);
    var s := LoopAt(b).value;
    hide *;
    LoopsRead(b, s.start, s.end, ParseLoop(FrameOf(b).loop).descriptors, Details(None, None, None, None));
  }

  /** The two decoders agree: the monitor's details are the summary of the tools decoder's answer. */
  lemma DecodersAgree(b: seq<Byte>)
    requires Tidy(b)
    ensures Decode(b).Some?
    ensures var d := Decode(b).value;
            DecodeDetails(b) == Some(Summary(Details(Some(d.commandType), None, None, CommandPts(d.command)),
                                             d.descriptors))
  {
    LoopStart(b);
    TidyLoop(b);
    var s, d := LoopAt(b).value, Decode(b).value;
    hide *;
    LoopsRead(b, s.start, s.end, ParseLoop(FrameOf(b).loop).descriptors,
              Details(Some(d.commandType), None, None, CommandPts(d.command)));
  }

  /** A live segment with a UPID. */
  predicate NamesUpid(t: Tagged) {
    t.info.SegmentInfo? && t.info.upid != []
  }

  lemma {:induction false} NothingNoted(info: Details, ts: seq<Tagged>)
    ensures Summary(info, ts).command == info.command && Summary(info, ts).pts == info.pts
    ensures (forall t :: t in ts ==> !t.info.SegmentInfo?) ==> Summary(info, ts).typeId == info.typeId
    ensures (forall t :: t in ts ==> !NamesUpid(t)) ==> Summary(info, ts).upid == info.upid
    decreases |ts|
  {
    if ts != [] {
      assert ts[0] in ts && forall t :: t in ts[1..] ==> t in ts;
      NothingNoted(Note(info, ts[0]), ts[1..]);
    }
  }

  /** In such a summary the last live segment gives the type and the last one with a UPID gives the UPID,
      whatever stands around them. */
  lemma {:induction false} SummaryMeans(info: Details, ts: seq<Tagged>, k: nat)
    requires k < |ts|
    ensures ts[k].info.SegmentInfo? && (forall t :: t in ts[k + 1..] ==> !t.info.SegmentInfo?) ==>
              Summary(info, ts).typeId == Some(ts[k].info.typeId)
    ensures NamesUpid(ts[k]) && (forall t :: t in ts[k + 1..] ==> !NamesUpid(t)) ==>
              Summary(info, ts).upid == Some(Upid(ts[k].info.upidType, ts[k].info.upid))
    decreases k
  {
    if k == 0 {
      NothingNoted(Note(info, ts[0]), ts[1..]);
    } else {
      SummaryMeans(Note(info, ts[0]), ts[1..], k - 1);
      assert ts[1..][k..] == ts[k + 1..];
      hide NamesUpid;
    }
  }
}
