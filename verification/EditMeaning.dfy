/** What a receiver decodes after an edit, in terms of what it decoded before. */
module EditMeaning {
  import opened Bytes
  import opened Layout
  import Walkers
  import opened Descriptors
  import opened Frames
  import opened FieldEdits
  import opened EditLaws
  import opened UpidRewrite
  import opened UpidLaws
  import opened Decoders
  import opened DecoderLaws

  // ---- Edits of decoded values ----

  /** A segment with its duration or its restrictions edited; everything else stands. */
  function EditInfo(e: Edit, i: Info): Info {
    if !i.SegmentInfo? then i
    else if e.Restrict? then
      i.(notRestricted := false,
         restrictions := Restrictions(e.webDelivery, e.noRegionalBlackout, e.archive, e.devices % 4))
    else if i.duration.Some? && i.duration.value < SEGMENT_RANGE then
      i.(duration := Some(NewTicks(e, i.duration.value, SEGMENT_RANGE)))
    else i
  }

  function EditTagged(e: Edit, t: Tagged): Tagged {
    t.(info := EditInfo(e, t.info))
  }

  function EditReports(e: Edit, ts: seq<Tagged>): seq<Tagged> {
    seq(|ts|, i requires 0 <= i < |ts| => EditTagged(e, ts[i]))
  }

  function EditCommand(e: Edit, c: Command): Command {
    if e.Restrict? || !c.SpliceInsert? || c.breakDuration.None? || c.breakDuration.value.ticks >= SEGMENT_RANGE then c
    else
      var d := c.breakDuration.value;
      c.(breakDuration := Some(d.(ticks := NewTicks(e, d.ticks, BREAK_RANGE))))
  }

  function EditDecoded(e: Edit, m: Decoded): Decoded {
    m.(command := EditCommand(e, m.command), descriptors := EditReports(e, m.descriptors))
  }

  // ---- One descriptor ----

  lemma DurationReads(s: Segment)
    requires WellFormed(s) && BitOf(s.flags, 1)
    ensures SegTicks(EncodeSegment(s)) == Some(Be40(s.duration, 0))
  {
    hide SegmentOf, UpidAt, BitOf, Be40, RewriteSegBody;
    var body, off := EncodeSegment(s), 10 + |s.components|;
    SegmentEncodes(s);
    WalkersAgree(body, None, t => None);
    assert body == (s.prefix + [s.flags] + s.components) + s.duration + ([s.upidType, |s.upid|] + s.upid + s.tail);
    assert body[off..off + 5] == s.duration;
    Be40Slice(body, off);
  }

  lemma LiveEdited(e: Edit, body: seq<Byte>)
    requires SegmentOf(body).Some? && |SegmentOf(body).value.tail| >= 3
    ensures SegmentOf(EditBody(e, body)).Some? && |SegmentOf(EditBody(e, body)).value.tail| >= 3
    ensures SegmentReport(SegmentOf(EditBody(e, body)).value) == EditInfo(e, SegmentReport(SegmentOf(body).value))
  {
    var s := SegmentOf(body).value;
    SegmentDecodes(body);
    EditSegment(e, body);
    hide EditBody, SegmentOf;
    if e.Restrict? {
      TopFlags(s.flags, e);
    } else if BitOf(s.flags, 1) {
      DurationReads(s);
      var t := NewTicks(e, SegTicks(body).value, SEGMENT_RANGE);
      Be40Written(t);
      SmallRemainder(t, SEGMENT_RANGE);
    }
  }

  lemma DescriptorEdited(e: Edit, d: Descriptor)
    requires Complete(d)
    ensures Complete(EditDescriptor(e, d)) && Report(EditDescriptor(e, d)) == EditTagged(e, Report(d))
  {
    if d.tag == SEGMENTATION {
      if Cancelled(d.body) {
        assert EditBody(e, d.body) == d.body;
      } else {
        EditBodyFrame(e, d.body);
        LiveEdited(e, d.body);
        LiveStaysLive(e, d.body);
      }
    }
  }

  lemma LiveStaysLive(e: Edit, body: seq<Byte>)
    requires !Cancelled(body) && |body| >= 9
    ensures !Cancelled(EditBody(e, body))
  {
  }

  lemma {:induction false} DescriptorsEdited(e: Edit, ds: seq<Descriptor>)
    requires AllComplete(ds)
    ensures AllComplete(EditAll(e, ds)) && Reports(EditAll(e, ds)) == EditReports(e, Reports(ds))
  {
    hide Complete, Report, EditDescriptor, EditTagged;
    if ds != [] {
      DescriptorEdited(e, ds[0]);
      DescriptorsEdited(e, ds[1..]);
      assert EditAll(e, ds)[1..] == EditAll(e, ds[1..]);
      assert Reports(ds)[1..] == Reports(ds[1..]);
    }
  }

  // ---- Whole messages ----

  lemma CommandEdited(e: Edit, head: seq<Byte>)
    requires HeadOk(head)
    ensures HeadOk(EditHead(e, head))
    ensures CommandAt(EditHead(e, head), HEADER_BYTES, EditHead(e, head)[13]).value.item
            == EditCommand(e, CommandAt(head, HEADER_BYTES, head[13]).value.item)
    ensures EditHead(e, head)[3] == head[3] && EditHead(e, head)[13] == head[13]
    ensures Be33(EditHead(e, head), 4) == Be33(head, 4)
  {
    EditHeadCommand(e, head);
    if HasBreak(head) {
      InsertBreak(head, HEADER_BYTES);
    }
    Be33Local(head, EditHead(e, head), 4);
  }

  lemma HeadBytes(b: seq<Byte>)
    requires LoopAt(b).Some?
    ensures Framed(FrameOf(b)) && |FrameOf(b).head| >= HEADER_BYTES
    ensures b[3] == FrameOf(b).head[3] && b[13] == FrameOf(b).head[13] && Be33(b, 4) == Be33(FrameOf(b).head, 4)
  {
    FrameDecodes(b);
    LoopBounds(b);
    Be33Local(b, FrameOf(b).head, 4);
  }

  /** Whatever is edited, the tools decoder reads the old message with exactly the edited values: every
      break and segment duration for a duration edit, the restrictions of every live segment for a
      delivery edit, and nothing else. */
  lemma EditDecodes(e: Edit, b: seq<Byte>)
    requires Tidy(b) && Apply(e, b).Edited?
    ensures var out := Apply(e, b).value;
            && Tidy(out) && Decode(b).Some?
            && Decode(out) == Some(EditDecoded(e, Decode(b).value))
  {
    var out, f := Apply(e, b).value, FrameOf(b);
    EditReadsBack(e, b);
    EditFrameFramed(e, f);
    DescriptorsEdited(e, ParseLoop(f.loop).descriptors);
    CommandEdited(e, f.head);
    HeadBytes(b);
    HeadBytes(out);
    DecodeReads(b);
    hide Apply, LoopAt, EditHead, CommandAt, Framed, Reports, EditAll, ParseLoop, AllComplete, EditCommand, EditReports,
         Decode, FrameOf;
    DecodeReads(out);
  }

  /** The monitor notes types, UPIDs and splice times only, and none of these moves. */
  lemma {:induction false} SummaryKept(e: Edit, info: Details, ts: seq<Tagged>)
    ensures Summary(info, EditReports(e, ts)) == Summary(info, ts)
    decreases |ts|
  {
    if ts != [] {
      assert EditReports(e, ts)[1..] == EditReports(e, ts[1..]);
      SummaryKept(e, Note(info, ts[0]), ts[1..]);
    }
  }

  lemma MonitorKept(e: Edit, b: seq<Byte>)
    requires Tidy(b) && Apply(e, b).Edited?
    ensures DecodeDetails(Apply(e, b).value) == DecodeDetails(b)
  {
    var out := Apply(e, b).value;
    EditDecodes(e, b);
    DecodersAgree(b);
    DecodersAgree(out);
    var m := Decode(b).value;
    SummaryKept(e, Details(Some(m.commandType), None, None, Walkers.CommandPts(m.command)), m.descriptors);
    hide Decode, DecodeDetails, Summary, Apply, Tidy, EditReports;
  }

  /** Where an edit finds nothing to change, the decoded message has nothing it would change. */
  lemma UntouchedDecodes(e: Edit, b: seq<Byte>)
    requires Tidy(b) && Apply(e, b).Unchanged?
    ensures Decode(b).Some? && EditDecoded(e, Decode(b).value) == Decode(b).value
  {
    var f := FrameOf(b);
    var ds := ParseLoop(f.loop).descriptors;
    EditorMapsFrame(e, b);
    TidyWhole(b);
    DescriptorsEdited(e, ds);
    CommandEdited(e, f.head);
    UntouchedAll(e, ds);
    DecodeReads(b);
    hide Apply, LoopAt, CommandAt, Reports, EditAll, ParseLoop, AllComplete, EditCommand, EditReports, Decode, FrameOf,
         HasBreak, TouchesAny;
  }

  lemma TidyWhole(b: seq<Byte>)
    requires Tidy(b)
    ensures !Overruns(FrameOf(b).loop)
  {
  }

  lemma {:induction false} UntouchedAll(e: Edit, ds: seq<Descriptor>)
    requires !TouchesAny(e, ds)
    ensures EditAll(e, ds) == ds
  {
    if ds != [] {
      UntouchedAll(e, ds[1..]);
    }
  }

  // ---- UPIDs ----

  /** A segment with its UPID replaced, unless the new one exceeds the length byte. */
  function RewriteTagged(t: Tagged, newType: Option<Byte>, encode: UpidEncoder): Tagged {
    if !t.info.SegmentInfo? then t
    else
      var typ := if newType.Some? then newType.value else t.info.upidType;
      match encode(typ)
      case None => t
      case Some(text) =>
        if |text| > 255 || !(0 <= t.length + |text| - |t.info.upid| < 256) then t
        else t.(length := t.length + |text| - |t.info.upid|, info := t.info.(upidType := typ, upid := text))
  }

  function RewriteReports(ts: seq<Tagged>, newType: Option<Byte>, encode: UpidEncoder): seq<Tagged> {
    seq(|ts|, i requires 0 <= i < |ts| => RewriteTagged(ts[i], newType, encode))
  }

  lemma DescriptorRewritten(d: Descriptor, newType: Option<Byte>, encode: UpidEncoder)
    requires Complete(d) && (RewriteOne(d, newType, encode).Kept? || RewriteOne(d, newType, encode).Replaced?)
    ensures var d' := RewrittenForm(d, newType, encode);
            Complete(d') && Report(d') == RewriteTagged(Report(d), newType, encode)
  {
    RewriteOneMeaning(d, newType, encode);
    if Walkable(d) {
      LiveSegment(d.body);
      SegmentDecodes(d.body);
      SegmentSize(SegmentOf(d.body).value);
      hide RewriteOne, SegmentOf, EncodeSegment;
      if RewriteOne(d, newType, encode).Replaced? {
        LiveSegment(RewrittenForm(d, newType, encode).body);
      }
    }
  }

  lemma LiveSegment(body: seq<Byte>)
    requires SegmentOf(body).Some?
    ensures !Cancelled(body)
  {
  }

  lemma {:induction false} DescriptorsRewritten(ds: seq<Descriptor>, newType: Option<Byte>, encode: UpidEncoder)
    requires AllComplete(ds) && RewriteAll(ds, newType, encode).Edited?
    ensures var out := RewriteAll(ds, newType, encode).value;
            AllComplete(out) && Reports(out) == RewriteReports(Reports(ds), newType, encode)
  {
    hide Complete, Report, RewriteTagged, RewriteOne, RewrittenForm;
    var out := RewriteAll(ds, newType, encode).value;
    forall k | 0 <= k < |ds|
      ensures Complete(out[k]) && Report(out[k]) == RewriteTagged(Report(ds[k]), newType, encode)
    {
      RewriteAllAt(ds, newType, encode, k);
      assert ds[k] in ds;
      DescriptorRewritten(ds[k], newType, encode);
    }
    forall k | 0 <= k < |ds|
      ensures Reports(out)[k] == RewriteTagged(Reports(ds)[k], newType, encode)
    {
      ReportsAt(out, k);
      ReportsAt(ds, k);
    }
  }

  lemma {:induction false} ReportsAt(ds: seq<Descriptor>, k: nat)
    requires AllComplete(ds) && k < |ds|
    ensures ds[k] in ds && Complete(ds[k]) && Reports(ds)[k] == Report(ds[k])
  {
    hide Complete, Report;
    assert ds[k] in ds;
    if k > 0 {
      ReportsAt(ds[1..], k - 1);
    }
  }

  /** After a rewrite the tools decoder reads the same header, the same command and the same
      descriptors, each live segment with the new UPID. */
  lemma RewriteDecodes(b: seq<Byte>, newType: Option<Byte>, encode: UpidEncoder)
    requires Tidy(b) && RewriteUpid(b, newType, encode).Edited?
    ensures var out := RewriteUpid(b, newType, encode).value;
            && Tidy(out) && Decode(b).Some?
            && Decode(out) == Some(Decode(b).value.(descriptors := RewriteReports(Decode(b).value.descriptors, newType, encode)))
  {
    var out, f := RewriteUpid(b, newType, encode).value, FrameOf(b);
    RewriteUpidMeaning(b, newType, encode);
    DescriptorsRewritten(ParseLoop(f.loop).descriptors, newType, encode);
    HeadBytes(b);
    HeadBytes(out);
    Be33Local(FrameOf(out).head, f.head, 4);
    DecodeReads(b);
    hide LoopAt, CommandAt, Framed, Reports, ParseLoop, AllComplete, RewriteReports, Decode, FrameOf, RewriteUpid,
         RewriteAll, Be33, SizeAfter, LengthCorrect, Join;
    assert FrameOf(out).head[3] == f.head[3] && FrameOf(out).head[13] == f.head[13];
    DecodeReads(out);
  }
}
