/** Whole messages written from their fields, as sections 9.6 to 9.8 and 10.3 of ANSI/SCTE 35 lay them
    out with reserved bits set, and read back by the tools decoder. */
module Serializer {
  import opened Bytes
  import opened Layout
  import opened Descriptors
  import opened FieldEdits
  import opened Decoders
  import opened DecoderLaws

  // ---- Bytes in their place ----

  predicate Placed(d: seq<Byte>, at: nat, s: seq<Byte>) {
    at + |s| <= |d| && d[at..at + |s|] == s
  }

  lemma PlacedParts(d: seq<Byte>, at: nat, s: seq<Byte>, t: seq<Byte>)
    requires Placed(d, at, s + t)
    ensures Placed(d, at, s) && Placed(d, at + |s|, t)
  {
    assert d[at..at + |s|] == d[at..at + |s + t|][..|s|];
    assert d[at + |s|..at + |s| + |t|] == d[at..at + |s + t|][|s|..];
  }

  lemma PlacedByte(d: seq<Byte>, at: nat, x: Byte)
    requires Placed(d, at, [x])
    ensures at < |d| && d[at] == x
  {
    assert d[at..at + 1][0] == d[at];
  }

  lemma Placed16(d: seq<Byte>, at: nat, v: nat)
    requires v < 0x1_0000 && Placed(d, at, ToBe16(v))
    ensures at + 2 <= |d| && Be16(d, at) == v
  {
    assert d[at] == d[at..at + 2][0] && d[at + 1] == d[at..at + 2][1];
  }

  lemma Placed32(d: seq<Byte>, at: nat, v: nat)
    requires v < 0x1_0000_0000 && Placed(d, at, ToBe32(v))
    ensures at + 4 <= |d| && Be32(d, at) == v
  {
    ToBe32Value(v);
    Be32Placed(d, at, ToBe32(v), 0);
    SmallRemainder(v, 0x1_0000_0000);
  }

  lemma Be32Placed(d: seq<Byte>, at: nat, s: seq<Byte>, k: nat)
    requires Placed(d, at, s) && k + 4 <= |s|
    ensures Be32(d, at + k) == Be32(s, k)
  {
    var t := d[at..at + |s|];
    assert t[k] == d[at + k] && t[k + 1] == d[at + k + 1] && t[k + 2] == d[at + k + 2] && t[k + 3] == d[at + k + 3];
  }

  function ToBe16(v: nat): (s: seq<Byte>)
    requires v < 0x1_0000
    ensures |s| == 2
  {
    [v / 256, v % 256]
  }

  /** Seven leading bits, `flags` in the upper part of a byte, and a 33-bit value. */
  function Behind7(flags: nat, v: nat): (s: seq<Byte>)
    requires flags < 128 && v < BREAK_RANGE
    ensures |s| == 5
  {
    [(2 * flags + v / 0x1_0000_0000) as Byte] + ToBe32(v)
  }

  lemma Placed33(d: seq<Byte>, at: nat, flags: nat, v: nat)
    requires flags < 128 && v < BREAK_RANGE && Placed(d, at, Behind7(flags, v))
    ensures at + 5 <= |d| && Be33(d, at) == v && d[at] == 2 * flags + v / 0x1_0000_0000
    ensures BitOf(d[at], 0) <==> flags >= 64
  {
    hide ToBe32, Be32;
    var hi := v / 0x1_0000_0000;
    PlacedParts(d, at, [(2 * flags + hi) as Byte], ToBe32(v));
    PlacedByte(d, at, 2 * flags + hi);
    ToBe32Value(v);
    Be32Placed(d, at + 1, ToBe32(v), 0);
    hide Placed;
    assert d[at] % 2 == hi;
  }

  // ---- Commands ----

  const RESERVED7: nat := 0x7F

  function TimeBytes(pts: Option<nat>): seq<Byte>
    requires pts.Some? ==> pts.value < BREAK_RANGE
  {
    if pts.None? then [RESERVED7] else Behind7(0x7F, pts.value)
  }

  predicate InRange33(pts: Option<nat>) {
    pts.Some? ==> pts.value < BREAK_RANGE
  }

  predicate ComponentsFit(cs: seq<Component>, immediate: bool) {
    forall c :: c in cs ==> InRange33(c.pts) && (immediate ==> c.pts.None?)
  }

  function ComponentBytesOf(c: Component, immediate: bool): seq<Byte>
    requires InRange33(c.pts)
  {
    [c.tag] + if immediate then [] else TimeBytes(c.pts)
  }

  function ComponentsBytes(cs: seq<Component>, immediate: bool): seq<Byte>
    requires ComponentsFit(cs, immediate)
  {
    if cs == [] then []
    else ComponentsBytes(cs[..|cs| - 1], immediate) + ComponentBytesOf(cs[|cs| - 1], immediate)
  }

  /** The values that fit their fields and agree with the flags that announce them. */
  predicate Writable(c: Command) {
    match c
    case CancelledInsert(eventId) => eventId < 0x1_0000_0000
    case SpliceInsert(eventId, _, programSplice, durationFlag, immediate, times, breakDuration, uniqueProgramId, _, _) =>
      && eventId < 0x1_0000_0000 && uniqueProgramId < 0x1_0000
      && (durationFlag <==> breakDuration.Some?)
      && (breakDuration.Some? ==> breakDuration.value.ticks < BREAK_RANGE)
      && InRange33(times.pts) && (times.pts.Some? ==> programSplice && !immediate)
      && ComponentsFit(times.components, immediate) && |times.components| < 256
      && (programSplice ==> times.components == [])
    case TimeSignal(pts) => InRange33(pts)
    case _ => true
  }

  function TimesBytes(t: Times, programSplice: bool, immediate: bool): seq<Byte>
    requires InRange33(t.pts) && ComponentsFit(t.components, immediate) && |t.components| < 256
  {
    if programSplice then (if immediate then [] else TimeBytes(t.pts))
    else [|t.components|] + ComponentsBytes(t.components, immediate)
  }

  function BreakDurationBytes(d: Option<BreakDuration>): seq<Byte>
    requires d.Some? ==> d.value.ticks < BREAK_RANGE
  {
    if d.None? then [] else Behind7((if d.value.autoReturn then 64 else 0) + 63, d.value.ticks)
  }

  function FlagByte4(a: bool, b: bool, c: bool, d: bool): Byte {
    (if a then 128 else 0) + (if b then 64 else 0) + (if c then 32 else 0) + (if d then 16 else 0) + 15
  }

  lemma FlagByte4Reads(a: bool, b: bool, c: bool, d: bool)
    ensures var f := FlagByte4(a, b, c, d); BitOf(f, 0) == a && BitOf(f, 1) == b && BitOf(f, 2) == c && BitOf(f, 3) == d
  {
  }

  /** splice_event_id, an unset cancel indicator and the flags. */
  function InsertFront(eventId: nat, flags: Byte): (s: seq<Byte>)
    ensures |s| == 6
  {
    ToBe32(eventId) + [RESERVED7] + [flags]
  }

  /** unique_program_id, avail_num and avails_expected. */
  function InsertBack(program: nat, num: Byte, expected: Byte): (s: seq<Byte>)
    requires program < 0x1_0000
    ensures |s| == 4
  {
    ToBe16(program) + [num] + [expected]
  }

  /** splice_insert() and the other commands, field by field. */
  function CommandBytes(c: Command): seq<Byte>
    requires Writable(c)
  {
    match c
    case CancelledInsert(eventId) => ToBe32(eventId) + [0xFF]
    case SpliceInsert(eventId, out, programSplice, durationFlag, immediate, times, breakDuration, program, num, expected) =>
      InsertFront(eventId, FlagByte4(out, programSplice, durationFlag, immediate))
      + (TimesBytes(times, programSplice, immediate)
         + (BreakDurationBytes(breakDuration) + InsertBack(program, num, expected)))
    case TimeSignal(pts) => TimeBytes(pts)
    case _ => []
  }

  /** The splice_command_type of a command; those the code does not walk have any other. */
  predicate HasType(c: Command, commandType: Byte) {
    match c
    case SpliceNull => commandType == 0x00
    case CancelledInsert(_) => commandType == 0x05
    case SpliceInsert(_, _, _, _, _, _, _, _, _, _) => commandType == 0x05
    case TimeSignal(_) => commandType == 0x06
    case BandwidthReservation => commandType == 0x07
    case Unparsed => commandType !in {0x00, 0x05, 0x06, 0x07}
  }

  lemma TimeReads(d: seq<Byte>, at: nat, pts: Option<nat>)
    requires InRange33(pts) && Placed(d, at, TimeBytes(pts))
    ensures SpliceTimeAt(d, at) == Some(Parsed(pts, at + |TimeBytes(pts)|))
  {
    if pts.None? {
      PlacedByte(d, at, RESERVED7);
    } else {
      Placed33(d, at, 0x7F, pts.value);
    }
  }

  lemma ComponentReads(d: seq<Byte>, at: nat, c: Component, immediate: bool)
    requires InRange33(c.pts) && (immediate ==> c.pts.None?) && Placed(d, at, ComponentBytesOf(c, immediate))
    ensures ComponentAt(d, at, immediate) == Some(Parsed(c, at + |ComponentBytesOf(c, immediate)|))
  {
    var rest := if immediate then [] else TimeBytes(c.pts);
    PlacedParts(d, at, [c.tag], rest);
    PlacedByte(d, at, c.tag);
    if !immediate {
      TimeReads(d, at + 1, c.pts);
    }
  }

  lemma {:induction false} ComponentsRead(d: seq<Byte>, at: nat, cs: seq<Component>, immediate: bool)
    requires ComponentsFit(cs, immediate) && Placed(d, at, ComponentsBytes(cs, immediate))
    ensures ComponentsAt(d, at, |cs|, immediate) == Some(Parsed(cs, at + |ComponentsBytes(cs, immediate)|))
  {
    hide ComponentAt, ComponentBytesOf, Placed, ComponentsAt, ComponentsFit;
    if cs == [] {
      assert ComponentsAt(d, at, 0, immediate) == Some(Parsed([], at)) by { NoComponentAt(d, at, immediate); }
    } else {
      var n := |cs| - 1;
      FrontFits(cs, immediate);
      var front := ComponentsBytes(cs[..n], immediate);
      PlacedParts(d, at, front, ComponentBytesOf(cs[n], immediate));
      ComponentsRead(d, at, cs[..n], immediate);
      ComponentReads(d, at + |front|, cs[n], immediate);
      OneMoreComponent(d, at, cs, immediate, at + |front|, at + |ComponentsBytes(cs, immediate)|);
    }
  }

  lemma NoComponentAt(d: seq<Byte>, at: nat, immediate: bool)
    ensures ComponentsAt(d, at, 0, immediate) == Some(Parsed([], at))
  {
  }

  lemma FrontFits(cs: seq<Component>, immediate: bool)
    requires cs != [] && ComponentsFit(cs, immediate)
    ensures ComponentsFit(cs[..|cs| - 1], immediate)
    ensures var c := cs[|cs| - 1]; InRange33(c.pts) && (immediate ==> c.pts.None?)
  {
  }

  lemma OneMoreComponent(d: seq<Byte>, at: nat, cs: seq<Component>, immediate: bool, mid: nat, end: nat)
    requires cs != []
    requires ComponentsAt(d, at, |cs| - 1, immediate) == Some(Parsed(cs[..|cs| - 1], mid))
    requires ComponentAt(d, mid, immediate) == Some(Parsed(cs[|cs| - 1], end))
    ensures ComponentsAt(d, at, |cs|, immediate) == Some(Parsed(cs, end))
  {
    hide ComponentAt;
    assert cs[..|cs| - 1] + [cs[|cs| - 1]] == cs;
  }

  lemma TimesRead(d: seq<Byte>, at: nat, t: Times, programSplice: bool, immediate: bool)
    requires InRange33(t.pts) && ComponentsFit(t.components, immediate) && |t.components| < 256
    requires (t.pts.Some? ==> programSplice && !immediate) && (programSplice ==> t.components == [])
    requires Placed(d, at, TimesBytes(t, programSplice, immediate))
    ensures TimesAt(d, at, programSplice, immediate)
            == Some(Parsed(t, at + |TimesBytes(t, programSplice, immediate)|))
  {
    hide ComponentsAt, ComponentsBytes, SpliceTimeAt, TimeBytes;
    if programSplice {
      if !immediate {
        TimeReads(d, at, t.pts);
      }
    } else {
      var n: Byte := |t.components|;
      PlacedParts(d, at, [n], ComponentsBytes(t.components, immediate));
      PlacedByte(d, at, n);
      ComponentsRead(d, at + 1, t.components, immediate);
    }
  }

  lemma BreakReadsBack(d: seq<Byte>, at: nat, b: Option<BreakDuration>)
    requires b.Some? ==> b.value.ticks < BREAK_RANGE
    requires Placed(d, at, BreakDurationBytes(b))
    ensures BreakAt(d, at, b.Some?) == Some(Parsed(b, at + |BreakDurationBytes(b)|))
  {
    if b.Some? {
      Placed33(d, at, (if b.value.autoReturn then 64 else 0) + 63, b.value.ticks);
    }
  }

  lemma InsertReads(d: seq<Byte>, at: nat, c: Command)
    requires Writable(c) && c.SpliceInsert? && Placed(d, at, CommandBytes(c))
    ensures SpliceInsertAt(d, at) == Some(Parsed(c, at + |CommandBytes(c)|))
  {
    hide TimesAt, BreakAt, TimesBytes, BreakDurationBytes, ToBe32, ToBe16, FlagByte4, BitOf, Be32, Be16, ComponentsFit,
         CommandBytes, SpliceInsertAt, InsertFront, InsertBack;
    var flags := FlagByte4(c.outOfNetwork, c.programSplice, c.durationFlag, c.immediate);
    var times := TimesBytes(c.times, c.programSplice, c.immediate);
    var duration := BreakDurationBytes(c.breakDuration);
    InsertPieces(d, at, c);
    FrontReads(d, at, c.eventId, flags);
    BackReads(d, at + 6 + |times| + |duration|, c.uniqueProgramId, c.availNum, c.availsExpected);
    FlagByte4Reads(c.outOfNetwork, c.programSplice, c.durationFlag, c.immediate);
    TimesRead(d, at + 6, c.times, c.programSplice, c.immediate);
    BreakReadsBack(d, at + 6 + |times|, c.breakDuration);
    InsertFromParts(d, at, c, at + 6 + |times|, at + 6 + |times| + |duration|);
  }

  /** The three runs of fields of a splice_insert, each in its place. */
  lemma InsertPieces(d: seq<Byte>, at: nat, c: Command)
    requires Writable(c) && c.SpliceInsert? && Placed(d, at, CommandBytes(c))
    ensures var times := TimesBytes(c.times, c.programSplice, c.immediate);
            var duration := BreakDurationBytes(c.breakDuration);
            var flags := FlagByte4(c.outOfNetwork, c.programSplice, c.durationFlag, c.immediate);
            && |CommandBytes(c)| == 10 + |times| + |duration|
            && Placed(d, at, InsertFront(c.eventId, flags))
            && Placed(d, at + 6, times) && Placed(d, at + 6 + |times|, duration)
            && Placed(d, at + 6 + |times| + |duration|, InsertBack(c.uniqueProgramId, c.availNum, c.availsExpected))
  {
    hide Placed, TimesBytes, BreakDurationBytes, InsertFront, InsertBack, FlagByte4;
    FourParts(d, at, InsertFront(c.eventId, FlagByte4(c.outOfNetwork, c.programSplice, c.durationFlag, c.immediate)),
              TimesBytes(c.times, c.programSplice, c.immediate), BreakDurationBytes(c.breakDuration),
              InsertBack(c.uniqueProgramId, c.availNum, c.availsExpected));
  }

  lemma FourParts(d: seq<Byte>, at: nat, a: seq<Byte>, b: seq<Byte>, c: seq<Byte>, e: seq<Byte>)
    requires Placed(d, at, a + (b + (c + e)))
    ensures Placed(d, at, a) && Placed(d, at + |a|, b) && Placed(d, at + |a| + |b|, c)
    ensures Placed(d, at + |a| + |b| + |c|, e)
  {
    hide Placed;
    PlacedParts(d, at, a, b + (c + e));
    PlacedParts(d, at + |a|, b, c + e);
    PlacedParts(d, at + |a| + |b|, c, e);
  }

  lemma InsertFromParts(d: seq<Byte>, at: nat, c: Command, mid: nat, back: nat)
    requires c.SpliceInsert? && at + 6 <= |d| && back + 4 <= |d|
    requires Be32(d, at) == c.eventId && !BitOf(d[at + 4], 0)
    requires var f := d[at + 5];
             && BitOf(f, 0) == c.outOfNetwork && BitOf(f, 1) == c.programSplice
             && BitOf(f, 2) == c.durationFlag && BitOf(f, 3) == c.immediate
    requires TimesAt(d, at + 6, c.programSplice, c.immediate) == Some(Parsed(c.times, mid))
    requires BreakAt(d, mid, c.durationFlag) == Some(Parsed(c.breakDuration, back))
    requires Be16(d, back) == c.uniqueProgramId && d[back + 2] == c.availNum && d[back + 3] == c.availsExpected
    ensures SpliceInsertAt(d, at) == Some(Parsed(c, back + 4))
  {
    hide TimesAt, BreakAt, BitOf, Be32, Be16;
  }

  lemma FrontReads(d: seq<Byte>, at: nat, eventId: nat, flags: Byte)
    requires eventId < 0x1_0000_0000 && Placed(d, at, InsertFront(eventId, flags))
    ensures at + 6 <= |d| && Be32(d, at) == eventId && !BitOf(d[at + 4], 0) && d[at + 5] == flags
  {
    hide ToBe32, Be32;
    PlacedParts(d, at, ToBe32(eventId) + [RESERVED7], [flags]);
    PlacedParts(d, at, ToBe32(eventId), [RESERVED7]);
    Placed32(d, at, eventId);
    PlacedByte(d, at + 4, RESERVED7);
    PlacedByte(d, at + 5, flags);
  }

  lemma BackReads(d: seq<Byte>, at: nat, program: nat, num: Byte, expected: Byte)
    requires program < 0x1_0000 && Placed(d, at, InsertBack(program, num, expected))
    ensures at + 4 <= |d| && Be16(d, at) == program && d[at + 2] == num && d[at + 3] == expected
  {
    hide ToBe16, Be16;
    PlacedParts(d, at, ToBe16(program) + [num], [expected]);
    PlacedParts(d, at, ToBe16(program), [num]);
    Placed16(d, at, program);
    PlacedByte(d, at + 2, num);
    PlacedByte(d, at + 3, expected);
  }

  /** Every command with values that fit their fields is read back from its bytes, wherever they stand. */
  lemma CommandRoundTrip(pre: seq<Byte>, c: Command, post: seq<Byte>, commandType: Byte)
    requires Writable(c) && HasType(c, commandType)
    ensures CommandAt(pre + CommandBytes(c) + post, |pre|, commandType) == Some(Parsed(c, |pre| + |CommandBytes(c)|))
  {
    hide CommandBytes, CommandAt, Writable, HasType;
    var d := pre + CommandBytes(c) + post;
    assert Placed(d, |pre|, CommandBytes(c));
    CommandReads(d, |pre|, c, commandType);
  }

  lemma CommandReads(d: seq<Byte>, at: nat, c: Command, commandType: Byte)
    requires Writable(c) && HasType(c, commandType) && Placed(d, at, CommandBytes(c))
    ensures CommandAt(d, at, commandType) == Some(Parsed(c, at + |CommandBytes(c)|))
  {
    match c
    case CancelledInsert(eventId) =>
      PlacedParts(d, at, ToBe32(eventId), [0xFF]);
      Placed32(d, at, eventId);
      PlacedByte(d, at + 4, 0xFF);
    case SpliceInsert(_, _, _, _, _, _, _, _, _, _) =>
      InsertReads(d, at, c);
    case TimeSignal(pts) =>
      TimeReads(d, at, pts);
    case _ =>
  }

  // ---- Descriptors ----

  /** One component of a segmentation_descriptor(): a tag, seven reserved bits and pts_offset. */
  datatype SegmentComponent = SegmentComponent(tag: Byte, ptsOffset: nat)

  predicate OffsetsFit(cs: seq<SegmentComponent>) {
    forall c :: c in cs ==> c.ptsOffset < BREAK_RANGE
  }

  function OffsetsBytes(cs: seq<SegmentComponent>): (s: seq<Byte>)
    requires OffsetsFit(cs)
    ensures |s| == 6 * |cs|
  {
    if cs == [] then [] else [cs[0].tag] + Behind7(0x7F, cs[0].ptsOffset) + OffsetsBytes(cs[1..])
  }

  /** What a segmentation descriptor can say. */
  predicate SegmentWritable(i: Info) {
    && i.SegmentInfo? && i.identifier < 0x1_0000_0000 && i.eventId < 0x1_0000_0000
    && (i.duration.Some? ==> i.duration.value < SEGMENT_RANGE) && |i.upid| < 256
    && i.restrictions.devices < 4 && (i.notRestricted ==> i.restrictions == Restrictions(true, true, true, 3))
  }

  /** The flags byte: program, duration and delivery flags, then the restrictions or reserved ones. */
  function SegmentFlags(program: bool, duration: bool, notRestricted: bool, r: Restrictions): Byte
    requires r.devices < 4
  {
    (if program then 128 else 0) + (if duration then 64 else 0) + (if notRestricted then 32 else 0)
    + (if r.webDelivery then 16 else 0) + (if r.noRegionalBlackout then 8 else 0) + (if r.archive then 4 else 0) + r.devices
  }

  /** segmentation_descriptor() with any components and anything behind segments_expected. */
  function SegmentBytes(i: Info, components: Option<seq<SegmentComponent>>, extra: seq<Byte>): seq<Byte>
    requires SegmentWritable(i)
    requires components.Some? ==> OffsetsFit(components.value) && |components.value| < 256
  {
    ToBe32(i.identifier) + ToBe32(i.eventId) + [RESERVED7]
    + [SegmentFlags(components.None?, i.duration.Some?, i.notRestricted, i.restrictions)]
    + (if components.Some? then [|components.value|] + OffsetsBytes(components.value) else [])
    + (if i.duration.Some? then ToBe40(i.duration.value) else [])
    + [i.upidType, |i.upid|] + i.upid + ([i.typeId, i.number, i.expected] + extra)
  }

  lemma SegmentFlagsRead(program: bool, duration: bool, notRestricted: bool, r: Restrictions)
    requires r.devices < 4
    ensures var f := SegmentFlags(program, duration, notRestricted, r);
            && BitOf(f, 0) == program && BitOf(f, 1) == duration && BitOf(f, 2) == notRestricted
            && BitOf(f, 3) == r.webDelivery && BitOf(f, 4) == r.noRegionalBlackout && BitOf(f, 5) == r.archive
            && f % 4 == r.devices
  {
    hide BitOf;
    var h := (if program then 2 else 0) + (if duration then 1 else 0);
    var rest := (if r.webDelivery then 16 else 0) + (if r.noRegionalBlackout then 8 else 0) + (if r.archive then 4 else 0)
                + r.devices;
    var low := (if notRestricted then 32 else 0) + rest;
    assert SegmentFlags(program, duration, notRestricted, r) == 64 * h + low;
    hide SegmentFlags;
    SplitByte(SegmentFlags(program, duration, notRestricted, r), h, low);
    SixBits(low, notRestricted, rest);
    RestrictionBits(rest, Restrict(r.webDelivery, r.noRegionalBlackout, r.archive, r.devices));
  }

  lemma SixBits(low: nat, top: bool, rest: nat)
    requires low == (if top then 32 else 0) + rest && rest < 32
    ensures (low >= 32) == top && low % 32 == rest && low % 16 == rest % 16 && low % 8 == rest % 8 && low % 4 == rest % 4
  {
  }

  /** The segment these bytes stand for. */
  function SegmentFor(i: Info, components: Option<seq<SegmentComponent>>, extra: seq<Byte>): Segment
    requires SegmentWritable(i)
    requires components.Some? ==> OffsetsFit(components.value) && |components.value| < 256
  {
    Segment(ToBe32(i.identifier) + ToBe32(i.eventId) + [RESERVED7],
            SegmentFlags(components.None?, i.duration.Some?, i.notRestricted, i.restrictions),
            if components.Some? then [|components.value|] + OffsetsBytes(components.value) else [],
            if i.duration.Some? then ToBe40(i.duration.value) else [],
            i.upidType, i.upid, [i.typeId, i.number, i.expected] + extra)
  }

  /** Every live segmentation descriptor is read back from its fields, whatever its components. */
  lemma SegmentRoundTrip(i: Info, components: Option<seq<SegmentComponent>>, extra: seq<Byte>)
    requires SegmentWritable(i)
    requires components.Some? ==> OffsetsFit(components.value) && |components.value| < 256
    requires |SegmentBytes(i, components, extra)| < 256
    ensures var d := RawDescriptor.Descriptor(SEGMENTATION, SegmentBytes(i, components, extra));
            Complete(d) && Meaning(d) == i
  {
    var s := SegmentFor(i, components, extra);
    SegmentIsFor(i, components, extra);
    var body := SegmentBytes(i, components, extra);
    assert body[8] == s.prefix[8] == RESERVED7;
    SegmentReportFor(i, components, extra);
    hide SegmentOf, SegmentBytes, SegmentFor, SegmentReport;
  }

  lemma SegmentIsFor(i: Info, components: Option<seq<SegmentComponent>>, extra: seq<Byte>)
    requires SegmentWritable(i)
    requires components.Some? ==> OffsetsFit(components.value) && |components.value| < 256
    ensures WellFormed(SegmentFor(i, components, extra))
    ensures SegmentOf(SegmentBytes(i, components, extra)) == Some(SegmentFor(i, components, extra))
  {
    hide BitOf, SegmentFlags, OffsetsBytes, SegmentOf, OffsetsFit;
    var s := SegmentFor(i, components, extra);
    SegmentFlagsRead(components.None?, i.duration.Some?, i.notRestricted, i.restrictions);
    assert !BitOf(RESERVED7, 0) by { TopBit(RESERVED7); }
    assert EncodeSegment(s) == SegmentBytes(i, components, extra);
    SegmentEncodes(s);
  }

  lemma SegmentReportFor(i: Info, components: Option<seq<SegmentComponent>>, extra: seq<Byte>)
    requires SegmentWritable(i)
    requires components.Some? ==> OffsetsFit(components.value) && |components.value| < 256
    requires WellFormed(SegmentFor(i, components, extra))
    ensures SegmentReport(SegmentFor(i, components, extra)) == i
  {
    hide BitOf, SegmentFlags, OffsetsBytes, Be32, ToBe32, Be40, ToBe40;
    var s := SegmentFor(i, components, extra);
    SegmentFlagsRead(components.None?, i.duration.Some?, i.notRestricted, i.restrictions);
    assert Placed(s.prefix, 0, ToBe32(i.identifier)) && Placed(s.prefix, 4, ToBe32(i.eventId));
    Placed32(s.prefix, 0, i.identifier);
    Placed32(s.prefix, 4, i.eventId);
    if i.duration.Some? {
      Be40Written(i.duration.value);
      SmallRemainder(i.duration.value, SEGMENT_RANGE);
    }
  }

  /** The other descriptors the tools decoder explains: avail_descriptor(), DTMF_descriptor() with up
      to seven characters, and a cancelled segmentation_descriptor(). */
  lemma OtherDescriptorsRoundTrip(id: nat, eventId: nat, preroll: Byte, chars: seq<Byte>)
    requires id < 0x1_0000_0000 && eventId < 0x1_0000_0000 && |chars| <= 7
    ensures var d := RawDescriptor.Descriptor(0, ToBe32(id)); Complete(d) && Meaning(d) == Avail(id)
    ensures var d := RawDescriptor.Descriptor(1, [preroll, 32 * |chars| + 31] + chars);
            Complete(d) && Meaning(d) == Dtmf(preroll, chars)
    ensures var d := RawDescriptor.Descriptor(SEGMENTATION, ToBe32(id) + ToBe32(eventId) + [0xFF]);
            Complete(d) && Meaning(d) == CancelledSegment(id, eventId)
  {
    hide Be32, ToBe32, SegmentOf;
    assert Placed(ToBe32(id), 0, ToBe32(id));
    Placed32(ToBe32(id), 0, id);
    var n := |chars|;
    var dtmf: seq<Byte> := [preroll, 32 * n + 31] + chars;
    assert dtmf[1] as int / 32 == n && dtmf[2..2 + n] == chars;
    var cancelled := ToBe32(id) + ToBe32(eventId) + [0xFF];
    assert Placed(cancelled, 0, ToBe32(id)) && Placed(cancelled, 4, ToBe32(eventId)) && cancelled[8] == 0xFF;
    Placed32(cancelled, 0, id);
    Placed32(cancelled, 4, eventId);
  }

  // ---- Whole sections ----

  /** The header's variable fields. */
  datatype HeaderFields = HeaderFields(protocolVersion: Byte, encrypted: bool, algorithm: nat, ptsAdjustment: nat,
                                       cwIndex: Byte, tier: nat, commandType: Byte)

  predicate HeaderFits(h: HeaderFields) {
    h.algorithm < 64 && h.ptsAdjustment < BREAK_RANGE && h.tier < 4096
  }

  /** table_id to splice_command_type for a section of `total` bytes with a command of `n`. */
  function HeaderBytesOf(h: HeaderFields, total: nat, n: nat): (s: seq<Byte>)
    requires HeaderFits(h) && 3 <= total
    ensures |s| == HEADER_BYTES
  {
    [0xFC, (0x30 + (total - 3) / 256 % 16) as Byte, (total - 3) % 256] + [h.protocolVersion]
    + Behind7((if h.encrypted then 64 else 0) + h.algorithm, h.ptsAdjustment)
    + [h.cwIndex, h.tier / 16, (h.tier % 16 * 16 + n / 256 % 16) as Byte, n % 256] + [h.commandType]
  }

  /** A section of any header, command and descriptors, with six reserved bits in the loop word, and
      anything behind the loop: stuffing and a CRC. */
  function SectionBytes(h: HeaderFields, c: Command, reserved: nat, ds: seq<Descriptor>, rest: seq<Byte>): seq<Byte>
    requires HeaderFits(h) && Writable(c) && reserved < 64 && |Flatten(ds)| < 0x400
  {
    var n := |Flatten(ds)|;
    HeaderBytesOf(h, HEADER_BYTES + |CommandBytes(c)| + 2 + n + |rest|, |CommandBytes(c)|)
    + (CommandBytes(c) + (ToBe16(0x400 * reserved + n) + (Flatten(ds) + rest)))
  }

  lemma HeaderReads(b: seq<Byte>, h: HeaderFields, total: nat, n: nat)
    requires HeaderFits(h) && 3 <= total && Placed(b, 0, HeaderBytesOf(h, total, n))
    ensures |b| >= HEADER_BYTES && b[0] == 0xFC && b[3] == h.protocolVersion && b[13] == h.commandType
    ensures BitOf(b[4], 0) == h.encrypted && Be33(b, 4) == h.ptsAdjustment
  {
    hide Behind7, BitOf, Be33;
    var front: seq<Byte> := [0xFC, (0x30 + (total - 3) / 256 % 16) as Byte, (total - 3) % 256] + [h.protocolVersion];
    var pts := Behind7((if h.encrypted then 64 else 0) + h.algorithm, h.ptsAdjustment);
    var back: seq<Byte> := [h.cwIndex, h.tier / 16, (h.tier % 16 * 16 + n / 256 % 16) as Byte, n % 256] + [h.commandType];
    assert HeaderBytesOf(h, total, n) == front + (pts + back);
    PlacedParts(b, 0, front, pts + back);
    PlacedParts(b, 4, pts, back);
    Placed33(b, 4, (if h.encrypted then 64 else 0) + h.algorithm, h.ptsAdjustment);
    assert b[0] == b[0..4][0] && b[3] == b[0..4][3] && b[13] == b[9..14][4];
  }

  /** Every section written from its fields, encrypted flag or not, is read back field by field, with
      the report of each descriptor in order. */
  lemma SectionRoundTrip(h: HeaderFields, c: Command, reserved: nat, ds: seq<Descriptor>, rest: seq<Byte>)
    requires HeaderFits(h) && Writable(c) && HasType(c, h.commandType) && reserved < 64
    requires |Flatten(ds)| < 0x400 && AllComplete(ds)
    ensures Decode(SectionBytes(h, c, reserved, ds, rest))
            == Some(Decoded(h.protocolVersion, h.encrypted, h.ptsAdjustment, h.commandType, c, Reports(ds)))
  {
    hide CommandBytes, Flatten, HeaderBytesOf, Placed, CommandAt, Writable, HasType, AllComplete, Reports, DescriptorsAt,
         BitOf, Be33, Be16, ToBe16, HeaderFits;
    var b := SectionBytes(h, c, reserved, ds, rest);
    var m, n := |CommandBytes(c)|, |Flatten(ds)|;
    var header := HeaderBytesOf(h, HEADER_BYTES + m + 2 + n + |rest|, m);
    var word := ToBe16(0x400 * reserved + n);
    assert Placed(b, 0, b) by { WholePlaced(b); }
    FourParts(b, 0, header, CommandBytes(c), word, Flatten(ds) + rest);
    PlacedParts(b, HEADER_BYTES + m + 2, Flatten(ds), rest);
    HeaderReads(b, h, HEADER_BYTES + m + 2 + n + |rest|, m);
    CommandReads(b, HEADER_BYTES, c, h.commandType);
    Placed16(b, HEADER_BYTES + m, 0x400 * reserved + n);
    Remainder(0x400 * reserved + n, 0x400, reserved, n);
    var start := HEADER_BYTES + m + 2;
    LoopPlaced(b, start, Flatten(ds));
    LoopsRead(b, start, start + n, ds, Details(None, None, None, None));
  }

  lemma WholePlaced(b: seq<Byte>)
    ensures Placed(b, 0, b)
  {
  }

  lemma LoopPlaced(b: seq<Byte>, at: nat, s: seq<Byte>)
    requires Placed(b, at, s)
    ensures at + |s| <= |b| && b[at..at + |s|] == s
  {
  }
}
