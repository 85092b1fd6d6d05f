/** What the in-place editors guarantee about whole messages. */
module EditLaws {
  import opened Bytes
  import opened Crc32
  import opened Layout
  import opened Descriptors
  import opened Frames
  import opened FieldEdits
  import opened MessageEdits

  predicate HasBreak(head: seq<Byte>)
    requires HeadOk(head)
  {
    var c := CommandAt(head, HEADER_BYTES, head[13]).value.item;
    c.SpliceInsert? && c.durationFlag
  }

  /** The header and command after an edit: only the five bytes of the break duration may differ. */
  function EditHead(e: Edit, head: seq<Byte>): (r: seq<Byte>)
    requires HeadOk(head)
    ensures |r| == |head|
  {
    if e.Restrict? || !HasBreak(head) then head
    else
      InsertBreak(head, HEADER_BYTES);
      WithBreak(e, head, |head| - 9)
  }

  /** The frame after an edit: same word, same stuffing. */
  function EditFrame(e: Edit, f: Frame): Frame
    requires Framed(f)
  {
    f.(head := EditHead(e, f.head), loop := EditLoop(e, f.loop))
  }

  predicate TouchesFrame(e: Edit, f: Frame)
    requires Framed(f)
  {
    (!e.Restrict? && HasBreak(f.head)) || TouchesAny(e, ParseLoop(f.loop).descriptors)
  }

  /** The editor an edit belongs to. */
  function Apply(e: Edit, b: seq<Byte>): Outcome<seq<Byte>> {
    if e.Restrict? then EditDelivery(e, b) else EditDurations(e, b)
  }

  // ---- The head ----

  /** The command after an edit: equal but for the ticks of its break duration. */
  lemma EditHeadCommand(e: Edit, head: seq<Byte>)
    requires HeadOk(head)
    ensures HeadOk(EditHead(e, head)) && EditHead(e, head)[13] == head[13]
    ensures var c := CommandAt(head, HEADER_BYTES, head[13]).value.item;
            var c' := CommandAt(EditHead(e, head), HEADER_BYTES, head[13]).value.item;
            c' == if e.Restrict? || !HasBreak(head) then c
                  else
                    var d := c.breakDuration.value;
                    c.(breakDuration := Some(d.(ticks := NewTicks(e, d.ticks, BREAK_RANGE))))
    ensures HasBreak(EditHead(e, head)) == HasBreak(head)
  {
    hide BreakField, BitOf, Be33, BreakAt, NewTicks, SpliceInsertAt;
    if !e.Restrict? && HasBreak(head) {
      assert head[13] == SPLICE_INSERT;
      InsertEdited(e, head);
    }
  }

  lemma InsertEdited(e: Edit, head: seq<Byte>)
    requires |head| >= HEADER_BYTES && SpliceInsertAt(head, HEADER_BYTES).Some?
    requires var p := SpliceInsertAt(head, HEADER_BYTES).value;
             p.item.SpliceInsert? && p.item.durationFlag && p.end == |head|
    ensures |head| >= 29
    ensures var p, r := SpliceInsertAt(head, HEADER_BYTES).value, WithBreak(e, head, |head| - 9);
            && p.item.breakDuration.Some? && p.item.breakDuration.value.ticks < SEGMENT_RANGE
            && (forall i :: 0 <= i < HEADER_BYTES ==> r[i] == head[i])
            && var d := p.item.breakDuration.value;
               SpliceInsertAt(r, HEADER_BYTES)
               == Some(p.(item := p.item.(breakDuration := Some(d.(ticks := NewTicks(e, d.ticks, BREAK_RANGE))))))
  {
    hide SpliceInsertAt, BreakField, BreakAt, NewTicks;
    InsertBreak(head, HEADER_BYTES);
    InsertLocal(head, WithBreak(e, head, |head| - 9), HEADER_BYTES);
    BreakReads(e, head, |head| - 9);
  }

  /** The break duration read where an edit wrote it. */
  lemma BreakReads(e: Edit, head: seq<Byte>, at: nat)
    requires at + 5 <= |head|
    ensures var d := BreakAt(head, at, true).value.item;
            && BreakAt(head, at, true).Some? && d.Some? && d.value.ticks < SEGMENT_RANGE
            && BreakAt(WithBreak(e, head, at), at, true)
               == Some(Parsed(Some(d.value.(ticks := NewTicks(e, d.value.ticks, BREAK_RANGE))), at + 5))
  {
    var r := WithBreak(e, head, at);
    var s, s' := head[at..at + 5], r[at..at + 5];
    assert s' == BreakField(e, s);
    BreakFieldTicks(e, s);
    Be33Slice(head, at);
    Be33Slice(r, at);
    assert r[at] == s'[0] && head[at] == s[0];
  }

  lemma BreakOfHead(head: seq<Byte>, rest: seq<Byte>)
    requires HeadOk(head) && |rest| > 0
    ensures BreakDurationAt(head + rest) == if HasBreak(head) then Some(|head| - 9) else None
  {
    HeadInMessage(head, rest);
    var b := head + rest;
    if b[13] == SPLICE_INSERT {
      assert SpliceInsertAt(b, HEADER_BYTES).Some?;
    }
  }

  // ---- Whole messages ----

  lemma EditFrameFramed(e: Edit, f: Frame)
    requires Framed(f)
    ensures Framed(EditFrame(e, f))
    ensures ParseLoop(EditFrame(e, f).loop)
            == Loop(EditAll(e, ParseLoop(f.loop).descriptors), ParseLoop(f.loop).rest)
  {
    EditHeadCommand(e, f.head);
    EditLoopParses(e, f.loop);
  }

  lemma BreakInFrame(f: Frame, crc: seq<Byte>)
    requires Framed(f) && |crc| == 4
    ensures BreakDurationAt(Body(f) + crc) == if HasBreak(f.head) then Some(|f.head| - 9) else None
  {
    hide HasBreak, BreakDurationAt, HeadOk;
    var rest := f.word + f.loop + f.stuffing + crc;
    assert Body(f) + crc == f.head + rest;
    BreakOfHead(f.head, rest);
  }

  /** On every located message an editor is a map over its frame, the CRC made right again. */
  lemma EditorMapsFrame(e: Edit, b: seq<Byte>)
    requires LoopAt(b).Some?
    ensures Framed(FrameOf(b))
    ensures var f := FrameOf(b);
            Apply(e, b) == if !TouchesFrame(e, f) || (e.Restrict? && Overruns(f.loop)) then Unchanged
                           else Edited(Join(EditFrame(e, f)))
  {
    FrameDecodes(b);
    BreakInFrame(FrameOf(b), b[|b| - 4..]);
    hide EditDelivery, EditDurations, LoopAt, BreakDurationAt, FrameOf, Framed, HeadOk, HasBreak, Join, EditFrame,
         TouchesFrame, Overruns;
    if e.Restrict? {
      RestrictMapsFrame(e, b);
    } else {
      TicksMapFrame(e, b);
    }
  }

  /** Replacing the loop of a joined message. */
  lemma ReplaceLoop(e: Edit, f: Frame, crc: seq<Byte>)
    requires Framed(f) && |crc| == 4
    ensures var b := Body(f) + crc;
            && LoopAt(b).Some?
            && Refresh(WithLoop(e, b, LoopAt(b).value)) == Join(f.(loop := EditLoop(e, f.loop)))
            && TouchesLoop(e, b) == TouchesAny(e, ParseLoop(f.loop).descriptors)
  {
    FrameEncodes(f, crc);
    EditLoopParses(e, f.loop);
    var b, n := Body(f) + crc, |f.head| + 2;
    assert b[n..n + |f.loop|] == f.loop by { Pieces(f, crc); }
    var l := EditLoop(e, f.loop);
    var r := Splice(b, n, l);
    hide *;
    SwapLoop(f, l, crc);
    CrcReplaced(f.(loop := l), crc);
  }

  lemma SwapLoop(f: Frame, l: seq<Byte>, crc: seq<Byte>)
    requires |f.word| == 2 && |l| == |f.loop|
    ensures Splice(Body(f) + crc, |f.head| + 2, l) == Body(f.(loop := l)) + crc
  {
    assert Body(f) + crc == f.head + f.word + f.loop + (f.stuffing + crc);
  }

  lemma CrcReplaced(f: Frame, crc: seq<Byte>)
    requires |crc| == 4
    ensures Refresh(Body(f) + crc) == Join(f)
  {
    assert (Body(f) + crc)[..|Body(f)|] == Body(f);
  }

  lemma RestrictMapsFrame(e: Edit, b: seq<Byte>)
    requires LoopAt(b).Some? && e.Restrict? && Framed(FrameOf(b))
    ensures var f := FrameOf(b);
            EditDelivery(e, b) == if !TouchesFrame(e, f) || Overruns(f.loop) then Unchanged
                                  else Edited(Join(EditFrame(e, f)))
  {
    FrameDecodes(b);
    ReplaceLoop(e, FrameOf(b), b[|b| - 4..]);
  }

  lemma TicksMapFrame(e: Edit, b: seq<Byte>)
    requires LoopAt(b).Some? && !e.Restrict? && Framed(FrameOf(b))
    requires BreakDurationAt(b) == if HasBreak(FrameOf(b).head) then Some(|FrameOf(b).head| - 9) else None
    ensures var f := FrameOf(b);
            EditDurations(e, b) == if TouchesFrame(e, f) then Edited(Join(EditFrame(e, f))) else Unchanged
  {
    FrameDecodes(b);
    var f, crc := FrameOf(b), b[|b| - 4..];
    if HasBreak(f.head) {
      var g := f.(head := EditHead(e, f.head));
      EditHeadCommand(e, f.head);
      HeadEdited(e, f, crc);
      ReplaceLoop(e, g, crc);
    } else {
      ReplaceLoop(e, f, crc);
    }
  }

  lemma HeadEdited(e: Edit, f: Frame, crc: seq<Byte>)
    requires Framed(f) && HasBreak(f.head) && !e.Restrict?
    ensures |f.head| >= 23
    ensures WithBreak(e, Body(f) + crc, |f.head| - 9) == Body(f.(head := EditHead(e, f.head))) + crc
  {
    EditedHeadShape(e, f.head);
    var at, rest := |f.head| - 9, f.word + f.loop + f.stuffing + crc;
    hide EditHead, HasBreak, Framed, HeadOk, BreakField, Body;
    var s := BreakField(e, f.head[at..at + 5]);
    Regroup(f, f.head, crc);
    Regroup(f, Splice(f.head, at, s), crc);
    assert f.(head := f.head) == f;
    assert (f.head + rest)[at..at + 5] == f.head[at..at + 5];
    SplicePrefix(f.head, rest, at, s);
  }

  lemma Regroup(f: Frame, head: seq<Byte>, crc: seq<Byte>)
    ensures Body(f.(head := head)) + crc == head + (f.word + f.loop + f.stuffing + crc)
  {
  }

  lemma SplicePrefix(head: seq<Byte>, rest: seq<Byte>, at: nat, s: seq<Byte>)
    requires at + |s| <= |head|
    ensures Splice(head + rest, at, s) == Splice(head, at, s) + rest
  {
  }

  // ---- Reading an edit back ----

  /** An edited message: the layout has not moved, the CRC is right, and its frame is the edited
      frame, so every byte outside the edited fields and the CRC is as it was. */
  lemma EditReadsBack(e: Edit, b: seq<Byte>)
    requires LoopAt(b).Some? && Apply(e, b).Edited?
    ensures var out := Apply(e, b).value;
            && |out| == |b| && LoopAt(out) == LoopAt(b) && Sealed(out)
            && Framed(FrameOf(b)) && FrameOf(out) == EditFrame(e, FrameOf(b))
            && (LengthCorrect(b) <==> LengthCorrect(out))
  {
    EditorMapsFrame(e, b);
    FrameDecodes(b);
    hide *;
    FrameReadsBack(e, FrameOf(b), b[|b| - 4..]);
  }

  lemma FrameReadsBack(e: Edit, f: Frame, crc: seq<Byte>)
    requires Framed(f) && |crc| == 4
    ensures Framed(EditFrame(e, f))
    ensures var b, out := Body(f) + crc, Join(EditFrame(e, f));
            && |out| == |b| && LoopAt(out) == LoopAt(b) && Sealed(out)
            && LoopAt(out).Some? && FrameOf(out) == EditFrame(e, f)
            && (LengthCorrect(b) <==> LengthCorrect(out))
  {
    EditFrameFramed(e, f);
    EditLoopParses(e, f.loop);
    var g := EditFrame(e, f);
    assert |g.head| == |f.head| && |g.loop| == |f.loop|;
    assert |crc| == 4;
    hide *;
    JoinFrames(g);
    FrameEncodes(f, crc);
    HeaderKept(e, f, crc);
  }

  lemma HeaderKept(e: Edit, f: Frame, crc: seq<Byte>)
    requires Framed(f) && |crc| == 4
    ensures |Join(EditFrame(e, f))| == |Body(f) + crc|
    ensures LengthCorrect(Body(f) + crc) <==> LengthCorrect(Join(EditFrame(e, f)))
  {
    EditLoopParses(e, f.loop);
    HeadKeepsLength(e, f.head);
    var x, y := Body(f) + crc, Join(EditFrame(e, f));
    assert x[1] == f.head[1] && x[2] == f.head[2];
    assert y[1] == EditHead(e, f.head)[1] && y[2] == EditHead(e, f.head)[2];
  }

  lemma HeadKeepsLength(e: Edit, head: seq<Byte>)
    requires HeadOk(head)
    ensures EditHead(e, head)[1] == head[1] && EditHead(e, head)[2] == head[2]
  {
    if HasBreak(head) {
      InsertBreak(head, HEADER_BYTES);
    }
  }

  /** The durations a message carries: of its break, and of each descriptor of its loop. */
  datatype Durations = Durations(ofBreak: Option<nat>, ofDescriptors: seq<Option<nat>>)

  function BreakTicks(head: seq<Byte>): (r: Option<nat>)
    requires HeadOk(head)
    ensures r.Some? ==> r.value < BREAK_RANGE
  {
    if HasBreak(head) then
      InsertBreak(head, HEADER_BYTES);
      Some(Be33(head[|head| - 9..|head| - 4], 0))
    else None
  }

  function DescriptorTicks(d: Descriptor): (r: Option<nat>)
    ensures r.Some? ==> r.value < SEGMENT_RANGE
  {
    if d.tag == SEGMENTATION then SegTicks(d.body) else None
  }

  function LoopTicks(ds: seq<Descriptor>): (r: seq<Option<nat>>)
    ensures |r| == |ds|
    ensures forall i :: 0 <= i < |r| && r[i].Some? ==> r[i].value < SEGMENT_RANGE
  {
    if ds == [] then [] else [DescriptorTicks(ds[0])] + LoopTicks(ds[1..])
  }

  function DurationsOf(f: Frame): Durations
    requires Framed(f)
  {
    Durations(BreakTicks(f.head), LoopTicks(ParseLoop(f.loop).descriptors))
  }

  function NewTicksIf(e: Edit, cur: Option<nat>, range: nat): Option<nat>
    requires range > 0
    requires cur.Some? ==> cur.value < SEGMENT_RANGE
  {
    if cur.None? then None else Some(NewTicks(e, cur.value, range))
  }

  function MapTicks(e: Edit, ts: seq<Option<nat>>): seq<Option<nat>>
    requires forall i :: 0 <= i < |ts| && ts[i].Some? ==> ts[i].value < SEGMENT_RANGE
  {
    seq(|ts|, i requires 0 <= i < |ts| => NewTicksIf(e, ts[i], SEGMENT_RANGE))
  }

  /** After an edit every duration reads as the edit says, and no duration appears or goes. */
  lemma DurationsReadBack(e: Edit, b: seq<Byte>)
    requires LoopAt(b).Some? && Apply(e, b).Edited?
    ensures LoopAt(Apply(e, b).value).Some?
    ensures var f, f' := FrameOf(b), FrameOf(Apply(e, b).value);
            && Framed(f) && Framed(f')
            && DurationsOf(f').ofBreak == NewTicksIf(e, DurationsOf(f).ofBreak, BREAK_RANGE)
            && DurationsOf(f').ofDescriptors == MapTicks(e, DurationsOf(f).ofDescriptors)
  {
    EditReadsBack(e, b);
    EditFrameFramed(e, FrameOf(b));
    EditedBreak(e, FrameOf(b).head);
    EditedLoopTicks(e, ParseLoop(FrameOf(b).loop).descriptors);
  }

  lemma EditedBreak(e: Edit, head: seq<Byte>)
    requires HeadOk(head)
    ensures HeadOk(EditHead(e, head))
    ensures BreakTicks(EditHead(e, head)) == NewTicksIf(e, BreakTicks(head), BREAK_RANGE)
  {
    if HasBreak(head) {
      if e.Restrict? {
        SmallRemainder(BreakTicks(head).value, BREAK_RANGE);
      } else {
        EditedHeadShape(e, head);
        BreakFieldTicks(e, head[|head| - 9..|head| - 4]);
      }
    }
  }

  lemma EditedHeadShape(e: Edit, head: seq<Byte>)
    requires HeadOk(head) && HasBreak(head) && !e.Restrict?
    ensures |head| >= 29 && HeadOk(EditHead(e, head)) && HasBreak(EditHead(e, head))
    ensures var at := |head| - 9;
            && EditHead(e, head) == Splice(head, at, BreakField(e, head[at..at + 5]))
            && EditHead(e, head)[at..at + 5] == BreakField(e, head[at..at + 5])
  {
    EditHeadCommand(e, head);
    InsertBreak(head, HEADER_BYTES);
    hide BreakField;
    var at := |head| - 9;
    assert EditHead(e, head)[at..at + 5] == BreakField(e, head[at..at + 5]);
  }

  lemma EditedTicks(e: Edit, d: Descriptor)
    ensures DescriptorTicks(EditDescriptor(e, d)) == NewTicksIf(e, DescriptorTicks(d), SEGMENT_RANGE)
  {
    EditBodyFrame(e, d.body);
  }

  lemma {:induction false} EditedLoopTicks(e: Edit, ds: seq<Descriptor>)
    ensures LoopTicks(EditAll(e, ds)) == MapTicks(e, LoopTicks(ds))
  {
    hide DescriptorTicks, EditDescriptor, NewTicksIf;
    if ds != [] {
      EditedLoopTicks(e, ds[1..]);
      EditedTicks(e, ds[0]);
      assert EditAll(e, ds)[1..] == EditAll(e, ds[1..]);
      assert LoopTicks(ds)[1..] == LoopTicks(ds[1..]);
    }
  }

  function Clamped(n: int): nat {
    if n < 0 then 0 else n
  }

  /** Adjusting gives `max(0, cur + delta)` exactly when that fits the field. */
  lemma AdjustedValue(delta: I64, cur: nat, range: nat)
    requires cur < SEGMENT_RANGE && 0 < range <= SEGMENT_RANGE
    ensures NewTicks(AddTicks(delta), cur, range) == Clamped(cur + delta) <==> cur + delta < range
  {
    var sum := cur + delta;
    if 0 <= sum < range {
      SmallRemainder(sum, range);
    }
  }

  /** Setting gives the ticks exactly when they fit the field. */
  lemma SetValue(ticks: U64, cur: nat, range: nat)
    requires cur < SEGMENT_RANGE && range > 0
    ensures NewTicks(SetTicks(ticks), cur, range) == ticks <==> ticks < range
  {
    if ticks < range {
      SmallRemainder(ticks, range);
    }
  }

  /** An extension by less than the whole field shortens the duration exactly when it overflows. */
  lemma ExtensionWraps(delta: I64, cur: nat, range: nat)
    requires cur < range <= SEGMENT_RANGE && 0 < delta < range
    ensures NewTicks(AddTicks(delta), cur, range) < cur <==> cur + delta >= range
  {
    var sum := cur + delta;
    if sum < range {
      SmallRemainder(sum, range);
    } else {
      Remainder(sum, range, 1, sum - range);
    }
  }

  /** After an adjustment every duration of a located message reads `max(0, cur + delta)` exactly
      when that fits its field: 33 bits for the break, 40 bits for a segment. */
  lemma AdjustReadsBack(delta: I64, b: seq<Byte>)
    requires LoopAt(b).Some? && Apply(AddTicks(delta), b).Edited?
    ensures LoopAt(Apply(AddTicks(delta), b).value).Some?
    ensures var f, f' := FrameOf(b), FrameOf(Apply(AddTicks(delta), b).value);
            && Framed(f) && Framed(f')
            && var d, d' := DurationsOf(f), DurationsOf(f');
            && (d'.ofBreak.Some? <==> d.ofBreak.Some?)
            && (d.ofBreak.Some? ==>
                  (d'.ofBreak == Some(Clamped(d.ofBreak.value + delta)) <==> d.ofBreak.value + delta < BREAK_RANGE))
            && |d'.ofDescriptors| == |d.ofDescriptors|
            && forall i :: 0 <= i < |d.ofDescriptors| ==>
                 var was, now := d.ofDescriptors[i], d'.ofDescriptors[i];
                 && (now.Some? <==> was.Some?)
                 && (was.Some? ==> (now == Some(Clamped(was.value + delta)) <==> was.value + delta < SEGMENT_RANGE))
  {
    DurationsReadBack(AddTicks(delta), b);
    var d := DurationsOf(FrameOf(b));
    hide DurationsOf, Apply, FrameOf, LoopAt, Framed, NewTicks;
    if d.ofBreak.Some? {
      AdjustedValue(delta, d.ofBreak.value, BREAK_RANGE);
    }
    forall i | 0 <= i < |d.ofDescriptors| && d.ofDescriptors[i].Some?
      ensures NewTicks(AddTicks(delta), d.ofDescriptors[i].value, SEGMENT_RANGE) == Clamped(d.ofDescriptors[i].value + delta)
              <==> d.ofDescriptors[i].value + delta < SEGMENT_RANGE
    {
      AdjustedValue(delta, d.ofDescriptors[i].value, SEGMENT_RANGE);
    }
  }

  /** After a set every duration of a located message reads the ticks exactly when they fit its field. */
  lemma SetReadsBack(ticks: U64, b: seq<Byte>)
    requires LoopAt(b).Some? && Apply(SetTicks(ticks), b).Edited?
    ensures LoopAt(Apply(SetTicks(ticks), b).value).Some?
    ensures var f, f' := FrameOf(b), FrameOf(Apply(SetTicks(ticks), b).value);
            && Framed(f) && Framed(f')
            && var d, d' := DurationsOf(f), DurationsOf(f');
            && (d'.ofBreak.Some? <==> d.ofBreak.Some?)
            && (d.ofBreak.Some? ==> (d'.ofBreak == Some(ticks as nat) <==> ticks < BREAK_RANGE))
            && |d'.ofDescriptors| == |d.ofDescriptors|
            && forall i :: 0 <= i < |d.ofDescriptors| ==>
                 var was, now := d.ofDescriptors[i], d'.ofDescriptors[i];
                 && (now.Some? <==> was.Some?)
                 && (was.Some? ==> (now == Some(ticks as nat) <==> ticks < SEGMENT_RANGE))
  {
    DurationsReadBack(SetTicks(ticks), b);
    var d := DurationsOf(FrameOf(b));
    hide DurationsOf, Apply, FrameOf, LoopAt, Framed, NewTicks;
    if d.ofBreak.Some? {
      SetValue(ticks, d.ofBreak.value, BREAK_RANGE);
    }
    forall i | 0 <= i < |d.ofDescriptors| && d.ofDescriptors[i].Some?
      ensures NewTicks(SetTicks(ticks), d.ofDescriptors[i].value, SEGMENT_RANGE) == ticks <==> ticks < SEGMENT_RANGE
    {
      SetValue(ticks, d.ofDescriptors[i].value, SEGMENT_RANGE);
    }
  }

  // ---- Edits after edits ----

  /** Doing `e1` and then `e2` to every duration of the frame is doing `e`. */
  predicate Composes(e1: Edit, e2: Edit, e: Edit, f: Frame)
    requires Framed(f)
  {
    var d := DurationsOf(f);
    && NewTicksIf(e2, NewTicksIf(e1, d.ofBreak, BREAK_RANGE), BREAK_RANGE) == NewTicksIf(e, d.ofBreak, BREAK_RANGE)
    && MapTicks(e2, MapTicks(e1, d.ofDescriptors)) == MapTicks(e, d.ofDescriptors)
  }

  /** Composing on a list of durations is composing on its first and on the others. */
  lemma MapTicksSplit(e1: Edit, e2: Edit, e: Edit, ts: seq<Option<nat>>)
    requires |ts| > 0 && forall i :: 0 <= i < |ts| && ts[i].Some? ==> ts[i].value < SEGMENT_RANGE
    requires MapTicks(e2, MapTicks(e1, ts)) == MapTicks(e, ts)
    ensures NewTicksIf(e2, NewTicksIf(e1, ts[0], SEGMENT_RANGE), SEGMENT_RANGE) == NewTicksIf(e, ts[0], SEGMENT_RANGE)
    ensures MapTicks(e2, MapTicks(e1, ts[1..])) == MapTicks(e, ts[1..])
  {
    hide NewTicks;
    var us := ts[1..];
    assert MapTicks(e2, MapTicks(e1, ts))[0] == MapTicks(e, ts)[0];
    forall i | 0 <= i < |us|
      ensures MapTicks(e2, MapTicks(e1, us))[i] == MapTicks(e, us)[i]
    {
      assert MapTicks(e2, MapTicks(e1, ts))[i + 1] == MapTicks(e, ts)[i + 1];
    }
  }

  lemma EditDescriptorTwice(e1: Edit, e2: Edit, e: Edit, d: Descriptor)
    requires !e1.Restrict? && !e2.Restrict? && !e.Restrict?
    requires NewTicksIf(e2, NewTicksIf(e1, DescriptorTicks(d), SEGMENT_RANGE), SEGMENT_RANGE)
             == NewTicksIf(e, DescriptorTicks(d), SEGMENT_RANGE)
    ensures EditDescriptor(e2, EditDescriptor(e1, d)) == EditDescriptor(e, d)
  {
    hide EditBody, NewTicks, SegTicks;
    if d.tag == SEGMENTATION {
      TickEditsCompose(e1, e2, e, d.body);
    }
  }

  lemma {:induction false} EditAllTwice(e1: Edit, e2: Edit, e: Edit, ds: seq<Descriptor>)
    requires !e1.Restrict? && !e2.Restrict? && !e.Restrict?
    requires MapTicks(e2, MapTicks(e1, LoopTicks(ds))) == MapTicks(e, LoopTicks(ds))
    ensures EditAll(e2, EditAll(e1, ds)) == EditAll(e, ds)
  {
    hide MapTicks, NewTicksIf, DescriptorTicks, EditDescriptor;
    if ds != [] {
      MapTicksSplit(e1, e2, e, LoopTicks(ds));
      assert LoopTicks(ds)[1..] == LoopTicks(ds[1..]);
      EditDescriptorTwice(e1, e2, e, ds[0]);
      EditAllTwice(e1, e2, e, ds[1..]);
      assert EditAll(e1, ds)[1..] == EditAll(e1, ds[1..]);
    }
  }

  lemma EditHeadTwice(e1: Edit, e2: Edit, e: Edit, head: seq<Byte>)
    requires HeadOk(head) && !e1.Restrict? && !e2.Restrict? && !e.Restrict?
    requires NewTicksIf(e2, NewTicksIf(e1, BreakTicks(head), BREAK_RANGE), BREAK_RANGE)
             == NewTicksIf(e, BreakTicks(head), BREAK_RANGE)
    ensures HeadOk(EditHead(e1, head))
    ensures EditHead(e2, EditHead(e1, head)) == EditHead(e, head)
  {
    hide EditHead, HasBreak, HeadOk, BreakField, BreakTicks, NewTicks, Be33;
    HeadOrBreak(e1, head);
    HeadOrBreak(e, head);
    if HasBreak(head) {
      EditedHeadShape(e1, head);
      EditedHeadShape(e, head);
      EditedHeadShape(e2, EditHead(e1, head));
      var at := |head| - 9;
      var s := head[at..at + 5];
      BreakFieldTwice(e1, e2, e, s);
      SpliceTwice(head, at, BreakField(e1, s), BreakField(e, s));
    } else {
      HeadOrBreak(e2, head);
    }
  }

  lemma HeadOrBreak(e: Edit, head: seq<Byte>)
    requires HeadOk(head)
    ensures HeadOk(EditHead(e, head))
    ensures if HasBreak(head) then |head| >= 29 && BreakTicks(head) == Some(Be33(head[|head| - 9..|head| - 4], 0))
            else EditHead(e, head) == head
  {
    EditHeadCommand(e, head);
    if HasBreak(head) {
      InsertBreak(head, HEADER_BYTES);
    }
  }

  lemma SpliceTwice(d: seq<Byte>, at: nat, s: seq<Byte>, t: seq<Byte>)
    requires at + |s| <= |d| && |s| == |t|
    ensures Splice(Splice(d, at, s), at, t) == Splice(d, at, t)
  {
  }

  lemma FrameTwice(e1: Edit, e2: Edit, e: Edit, f: Frame)
    requires Framed(f) && !e1.Restrict? && !e2.Restrict? && !e.Restrict?
    requires Composes(e1, e2, e, f)
    ensures Framed(EditFrame(e1, f))
    ensures EditFrame(e2, EditFrame(e1, f)) == EditFrame(e, f)
  {
    EditFrameFramed(e1, f);
    EditHeadTwice(e1, e2, e, f.head);
    EditAllTwice(e1, e2, e, ParseLoop(f.loop).descriptors);
  }

  /** Touching depends on the layout alone, which no edit moves. */
  lemma {:induction false} TouchesKept(e1: Edit, e2: Edit, ds: seq<Descriptor>)
    ensures TouchesAny(e2, EditAll(e1, ds)) == TouchesAny(e2, ds)
  {
    if ds != [] {
      TouchesKept(e1, e2, ds[1..]);
      EditBodyFrame(e1, ds[0].body);
      assert EditAll(e1, ds)[1..] == EditAll(e1, ds[1..]);
    }
  }

  lemma TouchesFrameKept(e1: Edit, e2: Edit, f: Frame)
    requires Framed(f)
    ensures Framed(EditFrame(e1, f))
    ensures TouchesFrame(e2, EditFrame(e1, f)) == TouchesFrame(e2, f)
    ensures Overruns(EditFrame(e1, f).loop) == Overruns(f.loop)
  {
    EditFrameFramed(e1, f);
    EditHeadCommand(e1, f.head);
    TouchesKept(e1, e2, ParseLoop(f.loop).descriptors);
  }

  lemma {:induction false} TicksTouchAlike(e1: Edit, e2: Edit, ds: seq<Descriptor>)
    requires !e1.Restrict? && !e2.Restrict?
    ensures TouchesAny(e1, ds) == TouchesAny(e2, ds)
  {
    if ds != [] {
      TicksTouchAlike(e1, e2, ds[1..]);
    }
  }

  /** A second duration edit on the result of a first is one edit, byte for byte, as soon as the
      two compose to it on every duration the message carries. */
  lemma EditTwice(e1: Edit, e2: Edit, e: Edit, b: seq<Byte>)
    requires !e1.Restrict? && !e2.Restrict? && !e.Restrict?
    requires LoopAt(b).Some? && Framed(FrameOf(b)) && Composes(e1, e2, e, FrameOf(b))
    requires Apply(e1, b).Edited?
    ensures Apply(e2, Apply(e1, b).value) == Apply(e, b)
  {
    var f, b1 := FrameOf(b), Apply(e1, b).value;
    EditReadsBack(e1, b);
    EditorMapsFrame(e2, b1);
    EditorMapsFrame(e, b);
    EditorMapsFrame(e1, b);
    TouchesFrameKept(e1, e2, f);
    TicksTouchAlike(e1, e2, ParseLoop(f.loop).descriptors);
    TicksTouchAlike(e1, e, ParseLoop(f.loop).descriptors);
    FrameTwice(e1, e2, e, f);
  }

  /** On a located message two edits are one exactly when they compose on every duration it carries. */
  lemma EditTwiceExactly(e1: Edit, e2: Edit, e: Edit, b: seq<Byte>)
    requires !e1.Restrict? && !e2.Restrict? && !e.Restrict?
    requires LoopAt(b).Some? && Framed(FrameOf(b)) && Apply(e1, b).Edited?
    ensures Apply(e2, Apply(e1, b).value) == Apply(e, b) <==> Composes(e1, e2, e, FrameOf(b))
  {
    hide Apply, LoopAt, FrameOf, Framed, DurationsOf, MapTicks, NewTicksIf;
    if Composes(e1, e2, e, FrameOf(b)) {
      EditTwice(e1, e2, e, b);
    }
    EditsAlike(e1, e, b);
    DurationsReadBack(e1, b);
    DurationsReadBack(e, b);
    if Apply(e2, Apply(e1, b).value) == Apply(e, b) {
      DurationsReadBack(e2, Apply(e1, b).value);
    }
  }

  /** Whether adjusting by `delta` leaves every duration of the frame inside its field. */
  predicate Fits(delta: int, f: Frame)
    requires Framed(f)
  {
    var d := DurationsOf(f);
    && (d.ofBreak.Some? ==> 0 <= d.ofBreak.value + delta < BREAK_RANGE)
    && forall i :: 0 <= i < |d.ofDescriptors| && d.ofDescriptors[i].Some? ==>
                     0 <= d.ofDescriptors[i].value + delta < SEGMENT_RANGE
  }

  /** Whether a delta can be given to the editor at all. */
  predicate InI64(delta: int) {
    -0x8000_0000_0000_0000 <= delta < 0x8000_0000_0000_0000
  }

  lemma AdjustsAdd(d1: I64, d2: I64, cur: nat, range: nat)
    requires InI64(d1 + d2)
    requires 0 < range <= SEGMENT_RANGE && cur < range && 0 <= cur + d1 < range
    ensures NewTicks(AddTicks(d2), NewTicks(AddTicks(d1), cur, range), range)
            == NewTicks(AddTicks(d1 + d2), cur, range)
  {
    SmallRemainder(cur + d1, range);
  }

  /** Adjusting twice is adjusting once by the sum, provided the first step neither clamps nor
      overflows a field; the second may clamp. */
  lemma AdjustTwice(d1: I64, d2: I64, b: seq<Byte>)
    requires InI64(d1 + d2)
    requires LoopAt(b).Some? && Framed(FrameOf(b)) && Fits(d1, FrameOf(b))
    requires Apply(AddTicks(d1), b).Edited?
    ensures Apply(AddTicks(d2), Apply(AddTicks(d1), b).value) == Apply(AddTicks(d1 + d2), b)
  {
    var e1, e2, e := AddTicks(d1), AddTicks(d2), AddTicks(d1 + d2);
    var d := DurationsOf(FrameOf(b));
    if d.ofBreak.Some? { AdjustsAdd(d1, d2, d.ofBreak.value, BREAK_RANGE); }
    forall i | 0 <= i < |d.ofDescriptors|
      ensures MapTicks(e2, MapTicks(e1, d.ofDescriptors))[i] == MapTicks(e, d.ofDescriptors)[i]
    {
      if d.ofDescriptors[i].Some? { AdjustsAdd(d1, d2, d.ofDescriptors[i].value, SEGMENT_RANGE); }
    }
    EditTwice(e1, e2, e, b);
  }

  /** Setting erases any earlier duration edit. */
  lemma SetErases(e1: Edit, ticks: U64, b: seq<Byte>)
    requires !e1.Restrict? && LoopAt(b).Some? && Apply(e1, b).Edited?
    ensures Apply(SetTicks(ticks), Apply(e1, b).value) == Apply(SetTicks(ticks), b)
  {
    EditReadsBack(e1, b);
    SetComposes(e1, ticks, FrameOf(b));
    hide *;
    EditTwice(e1, SetTicks(ticks), SetTicks(ticks), b);
  }

  lemma SetComposes(e1: Edit, ticks: U64, f: Frame)
    requires !e1.Restrict? && Framed(f)
    ensures Composes(e1, SetTicks(ticks), SetTicks(ticks), f)
  {
    hide Framed, HeadOk;
    var d := DurationsOf(f);
    assert MapTicks(SetTicks(ticks), MapTicks(e1, d.ofDescriptors)) == MapTicks(SetTicks(ticks), d.ofDescriptors);
  }

  lemma ZeroAdjust(cur: nat, range: nat)
    requires cur < range <= SEGMENT_RANGE
    ensures NewTicks(AddTicks(0), cur, range) == cur
  {
    SmallRemainder(cur, range);
  }

  lemma {:induction false} ZeroAdjustAll(ds: seq<Descriptor>)
    ensures EditAll(AddTicks(0), ds) == ds
  {
    if ds != [] {
      ZeroAdjustAll(ds[1..]);
      var body := ds[0].body;
      if SegDurationOffset(body).Some? {
        ZeroAdjust(SegTicks(body).value, SEGMENT_RANGE);
        SameTicks(body, SegDurationOffset(body).value);
      }
    }
  }

  lemma ZeroAdjustHead(head: seq<Byte>)
    requires HeadOk(head)
    ensures EditHead(AddTicks(0), head) == head
  {
    if HasBreak(head) {
      var e, at := AddTicks(0), |head| - 9;
      EditedHeadShape(e, head);
      var s := head[at..at + 5];
      SameBreak(s);
      hide *;
      assert Splice(head, at, head[at..at + 5]) == head;
    }
  }

  lemma SameBreak(s: seq<Byte>)
    requires |s| == 5
    ensures BreakField(AddTicks(0), s) == s
  {
    var v := Be33(s, 0);
    ZeroAdjust(v, BREAK_RANGE);
    ToBe32OfBe32(s, 1);
    ToBe32Low(v);
    assert v / 0x1_0000_0000 == s[0] % 2 && v % 0x1_0000_0000 == Be32(s, 1);
  }

  /** Adjusting by zero gives back every sealed message. */
  lemma ZeroAdjustMessage(b: seq<Byte>)
    requires LoopAt(b).Some? && Sealed(b)
    ensures Apply(AddTicks(0), b).Edited? ==> Apply(AddTicks(0), b).value == b
  {
    FrameDecodes(b);
    var f := FrameOf(b);
    EditorMapsFrame(AddTicks(0), b);
    ZeroAdjustHead(f.head);
    ZeroAdjustAll(ParseLoop(f.loop).descriptors);
    FlattenParse(f.loop);
  }

  /** Adjusting by `delta` and back restores a sealed message byte for byte. */
  lemma AdjustUndone(delta: I64, b: seq<Byte>)
    requires delta != -0x8000_0000_0000_0000 && LoopAt(b).Some? && Sealed(b)
    requires Framed(FrameOf(b)) && Fits(delta, FrameOf(b))
    requires Apply(AddTicks(delta), b).Edited?
    ensures Apply(AddTicks(-delta), Apply(AddTicks(delta), b).value) == Edited(b)
  {
    hide LoopAt, FrameOf, Framed, Fits, Apply, Sealed;
    AdjustTwice(delta, -delta, b);
    ZeroAdjustMessage(b);
    EditsAlike(AddTicks(delta), AddTicks(0), b);
  }

  /** Whether there is a duration to edit does not depend on the edit. */
  lemma EditsAlike(e1: Edit, e2: Edit, b: seq<Byte>)
    requires !e1.Restrict? && !e2.Restrict? && LoopAt(b).Some?
    ensures Apply(e1, b).Edited? == Apply(e2, b).Edited?
  {
    EditorMapsFrame(e1, b);
    EditorMapsFrame(e2, b);
    TicksTouchAlike(e1, e2, ParseLoop(FrameOf(b).loop).descriptors);
  }

  // ---- Delivery restrictions ----

  lemma {:induction false} RestrictAllCommutes(r: Edit, t: Edit, ds: seq<Descriptor>)
    requires r.Restrict? && !t.Restrict?
    ensures EditAll(t, EditAll(r, ds)) == EditAll(r, EditAll(t, ds))
  {
    if ds != [] {
      RestrictAllCommutes(r, t, ds[1..]);
      RestrictCommutes(r, t, ds[0].body);
      assert EditAll(t, ds)[1..] == EditAll(t, ds[1..]) && EditAll(r, ds)[1..] == EditAll(r, ds[1..]);
    }
  }

  /** Marking restrictions and editing durations can be done in either order. */
  lemma RestrictAndTicksCommute(r: Edit, t: Edit, b: seq<Byte>)
    requires r.Restrict? && !t.Restrict? && LoopAt(b).Some?
    requires Apply(r, b).Edited? && Apply(t, b).Edited?
    ensures Apply(t, Apply(r, b).value) == Apply(r, Apply(t, b).value)
    ensures Apply(t, Apply(r, b).value).Edited?
  {
    var f := FrameOf(b);
    EditReadsBack(r, b);
    EditReadsBack(t, b);
    EditorMapsFrame(r, b);
    EditorMapsFrame(t, b);
    EditorMapsFrame(t, Apply(r, b).value);
    EditorMapsFrame(r, Apply(t, b).value);
    TouchesFrameKept(r, t, f);
    TouchesFrameKept(t, r, f);
    FramesCommute(r, t, f);
  }

  lemma FramesCommute(r: Edit, t: Edit, f: Frame)
    requires r.Restrict? && !t.Restrict? && Framed(f)
    ensures Framed(EditFrame(r, f)) && Framed(EditFrame(t, f))
    ensures EditFrame(t, EditFrame(r, f)) == EditFrame(r, EditFrame(t, f))
  {
    EditFrameFramed(r, f);
    EditFrameFramed(t, f);
    RestrictAllCommutes(r, t, ParseLoop(f.loop).descriptors);
  }

  lemma {:induction false} RestrictAllTwice(r1: Edit, r2: Edit, ds: seq<Descriptor>)
    requires r1.Restrict? && r2.Restrict?
    ensures EditAll(r2, EditAll(r1, ds)) == EditAll(r2, ds)
    ensures TouchesAny(r1, ds) == TouchesAny(r2, ds)
  {
    if ds != [] {
      RestrictAllTwice(r1, r2, ds[1..]);
      RestrictTwice(r1, r2, ds[0].body);
      assert EditAll(r1, ds)[1..] == EditAll(r1, ds[1..]);
    }
  }

  /** Only the latest restrictions remain. */
  lemma LastRestrictionsWin(r1: Edit, r2: Edit, b: seq<Byte>)
    requires r1.Restrict? && r2.Restrict? && LoopAt(b).Some? && Apply(r1, b).Edited?
    ensures Apply(r2, Apply(r1, b).value) == Apply(r2, b)
  {
    var f := FrameOf(b);
    EditReadsBack(r1, b);
    EditorMapsFrame(r1, b);
    EditorMapsFrame(r2, b);
    EditorMapsFrame(r2, Apply(r1, b).value);
    TouchesFrameKept(r1, r2, f);
    RestrictAllTwice(r1, r2, ParseLoop(f.loop).descriptors);
    EditFrameFramed(r1, f);
  }
}
