/** Every built section is strictly framed and decodes to exactly its parameters. */
module BuilderLaws {
  import opened Bytes
  import opened Crc32
  import opened Hex
  import opened Layout
  import opened Walkers
  import opened Descriptors
  import opened Frames
  import opened FieldEdits
  import opened UpidRewrite
  import opened Decoders
  import opened DecoderLaws
  import opened Builder

  // ---- Framing, read directly from the bytes ----

  function CommandLength(b: seq<Byte>): nat
    requires |b| >= HEADER_BYTES
  {
    b[11] as int % 16 * 256 + b[12]
  }

  /** What a strict receiver relies on: splice_command_length delimits the command, the 16-bit loop
      length and the CRC fill the rest, section_length and the CRC are right, and the loop is empty
      or one descriptor whose length byte fills it. */
  predicate StrictlyFramed(b: seq<Byte>) {
    && |b| >= HEADER_BYTES + 6 && b[0] == 0xFC
    && var at := HEADER_BYTES + CommandLength(b);
    && CommandAt(b, HEADER_BYTES, b[13]).Some? && CommandAt(b, HEADER_BYTES, b[13]).value.end == at
    && at + 2 <= |b| && at + 2 + Be16(b, at) + 4 == |b|
    && (Be16(b, at) == 0 || (at + 4 <= |b| && Be16(b, at) == 2 + b[at + 3] as int))
    && LengthCorrect(b) && Sealed(b)
  }

  /** A command body as the builders write it: walked to its end inside any buffer. */
  predicate WholeCommand(commandType: Byte, command: seq<Byte>) {
    && |command| < 256
    && HeadOk(HeaderBytes(commandType, |command|) + command)
  }

  function Head(commandType: Byte, command: seq<Byte>, total: nat): seq<Byte>
    requires total >= 3
  {
    WithLength(HeaderBytes(commandType, |command|) + command, total)
  }

  /** A section in terms of head and tail. */
  lemma SectionShape(commandType: Byte, command: seq<Byte>, tail: seq<Byte>)
    ensures var total := HEADER_BYTES + |command| + |tail| + 4;
            && Section(commandType, command, tail) == WithCrc(Head(commandType, command, total) + tail)
            && |Section(commandType, command, tail)| == total
  {
    LengthOfWhole(HeaderBytes(commandType, |command|) + command, tail, HEADER_BYTES + |command| + |tail| + 4);
  }

  lemma HeadShape(commandType: Byte, command: seq<Byte>, total: nat)
    requires WholeCommand(commandType, command) && total >= 3
    ensures var h := Head(commandType, command, total);
            && HeadOk(h) && |h| == HEADER_BYTES + |command| && h[13] == commandType
            && CommandLength(h) == |command|
            && CommandAt(h, HEADER_BYTES, commandType)
               == CommandAt(HeaderBytes(commandType, |command|) + command, HEADER_BYTES, commandType)
  {
    var h := HeaderBytes(commandType, |command|) + command;
    assert h[13] == commandType;
    WithLengthHead(h, total);
  }

  /** A built section with a loop of at most 1023 bytes is a frame. */
  lemma SectionFrame(commandType: Byte, command: seq<Byte>, loop: seq<Byte>)
    requires WholeCommand(commandType, command) && |loop| <= 0x3FF
    ensures var total := HEADER_BYTES + |command| + 2 + |loop| + 4;
            var word: seq<Byte> := [|loop| / 256, |loop| % 256];
            var f := Frame(Head(commandType, command, total), word, loop, []);
            && Framed(f)
            && Section(commandType, command, word + loop) == Join(f)
  {
    hide HeadOk, Head, Section, Crc, CommandAt, HeaderBytes, ToBeBytes;
    var word: seq<Byte> := [|loop| / 256, |loop| % 256];
    var total := HEADER_BYTES + |command| + 2 + |loop| + 4;
    SectionShape(commandType, command, word + loop);
    HeadShape(commandType, command, total);
    LoopWord(|loop|);
    var f := Frame(Head(commandType, command, total), word, loop, []);
    assert Body(f) == Head(commandType, command, total) + (word + loop);
  }

  lemma LoopWord(n: nat)
    requires n <= 0x3FF
    ensures n / 256 < 256 && n / 256 * 256 + n % 256 == n && n % 0x400 == n
  {
  }

  lemma SectionLengthCorrect(commandType: Byte, command: seq<Byte>, tail: seq<Byte>)
    ensures LengthCorrect(Section(commandType, command, tail))
            <==> HEADER_BYTES + |command| + |tail| + 4 <= 4098
    ensures Sealed(Section(commandType, command, tail))
  {
    hide Crc, Sealed, LengthCorrect, ToBeBytes, Section;
    var h := HeaderBytes(commandType, |command|) + command;
    var total := HEADER_BYTES + |command| + |tail| + 4;
    SectionShape(commandType, command, tail);
    WithCrcSealed(Head(commandType, command, total) + tail);
    var crc := ToBeBytes(Crc(Head(commandType, command, total) + tail));
    WithLengthField(h, tail + crc);
    assert WithLength(h, total) + (tail + crc) == Section(commandType, command, tail);
  }

  lemma SectionIndexes(commandType: Byte, command: seq<Byte>, tail: seq<Byte>)
    requires WholeCommand(commandType, command) && |tail| >= 2
    ensures var b, at := Section(commandType, command, tail), HEADER_BYTES + |command|;
            && |b| == at + |tail| + 4 && b[0] == 0xFC && b[13] == commandType
            && CommandLength(b) == |command|
            && CommandAt(b, HEADER_BYTES, b[13]).Some? && CommandAt(b, HEADER_BYTES, b[13]).value.end == at
            && (forall i :: 0 <= i < |tail| ==> b[at + i] == tail[i])
  {
    hide HeadOk, Section, Head, CommandAt;
    var total := HEADER_BYTES + |command| + |tail| + 4;
    SectionShape(commandType, command, tail);
    HeadShape(commandType, command, total);
    var h := Head(commandType, command, total);
    var rest := tail + ToBeBytes(Crc(h + tail));
    assert Section(commandType, command, tail) == h + rest;
    HeadInMessage(h, rest);
    assert h[0] == 0xFC by { HeadFirst(h); }
  }

  lemma HeadFirst(h: seq<Byte>)
    requires HeadOk(h)
    ensures h[0] == 0xFC
  {
  }

  /** A section with a descriptor is strictly framed exactly when the descriptor body fits its
      length byte. */
  lemma FramingExact(commandType: Byte, command: seq<Byte>, duration: Option<nat>, a: SegmentArgs)
    requires WholeCommand(commandType, command)
    ensures StrictlyFramed(Section(commandType, command, SegmentLoop(duration, a)))
            <==> |SegmentBody(duration, a)| <= 255
  {
    hide Section, CommandAt, LengthCorrect, Sealed, CommandLength, StrictlyFramed, Be16, SegmentBody;
    var m, tail := |SegmentBody(duration, a)|, SegmentLoop(duration, a);
    var b, at := Section(commandType, command, tail), HEADER_BYTES + |command|;
    SectionIndexes(commandType, command, tail);
    SectionLengthCorrect(commandType, command, tail);
    assert tail[..4] == [(m + 2) / 256 % 256, (m + 2) % 256, SEGMENTATION, m % 256];
    assert b[at + 0] == tail[0] && b[at + 1] == tail[1] && b[at + 2] == tail[2] && b[at + 3] == tail[3];
    StrictByNumbers(b, at, m);
  }

  lemma StrictByNumbers(b: seq<Byte>, at: nat, m: nat)
    requires |b| == at + m + 8 && HEADER_BYTES <= at < HEADER_BYTES + 256 && b[0] == 0xFC && Sealed(b)
    requires at == HEADER_BYTES + CommandLength(b)
    requires CommandAt(b, HEADER_BYTES, b[13]).Some? && CommandAt(b, HEADER_BYTES, b[13]).value.end == at
    requires b[at] == (m + 2) / 256 % 256 && b[at + 1] == (m + 2) % 256 && b[at + 3] == m % 256
    requires LengthCorrect(b) <==> |b| <= 4098
    ensures StrictlyFramed(b) <==> m <= 255
  {
    hide CommandAt, LengthCorrect, Sealed, CommandLength;
    LoopFields(m + 2, m);
  }

  /** The 16-bit loop length and the 8-bit descriptor length of a descriptor body of `m` bytes. */
  lemma LoopFields(n: nat, m: nat)
    requires n == m + 2
    ensures var dll := n / 256 % 256 * 256 + n % 256;
            (dll == n && (dll == 0 || dll == 2 + m % 256)) <==> m <= 255
  {
  }

  /** A UPID of up to 233 bytes always fits; the exact bound depends on the optional fields. */
  lemma SegmentBodySize(duration: Option<nat>, a: SegmentArgs)
    ensures |SegmentBody(duration, a)| == 15 + |AskedUpid(a)| + (if duration.Some? then 5 else 0)
                                          + (if Asked(a.typeId, 0x10) in {0x34, 0x36, 0x38, 0x3A} then 2 else 0)
    ensures |AskedUpid(a)| <= 233 ==> |SegmentBody(duration, a)| <= 255
    ensures |UpidBytes(a)| == |AskedUpid(a)|
  {
    BuiltAsAsked(a);
    hide AskedUpid, Asked;
  }

  lemma EmptyLoopFramed(commandType: Byte, command: seq<Byte>)
    requires WholeCommand(commandType, command)
    ensures StrictlyFramed(Section(commandType, command, [0, 0]))
  {
    SectionIndexes(commandType, command, [0, 0]);
    SectionLengthCorrect(commandType, command, [0, 0]);
    var b, at := Section(commandType, command, [0, 0]), HEADER_BYTES + |command|;
    assert b[at + 0] == 0 && b[at + 1] == 0;
  }

  // ---- The round trip ----

  /** The segment a builder's descriptor stands for. */
  function Built(duration: Option<nat>, a: SegmentArgs): Segment {
    Segment([0x43, 0x55, 0x45, 0x49, 0, 0, 0, 1, 0], if duration.Some? then 0xE0 else 0xA0, [],
            if duration.Some? then ToBe40(duration.value) else [], UpidType(a), UpidBytes(a), SegmentTail(TypeId(a)))
  }

  lemma SegmentBodyIsSegment(duration: Option<nat>, a: SegmentArgs)
    requires |UpidBytes(a)| < 256
    ensures WellFormed(Built(duration, a))
    ensures SegmentOf(SegmentBody(duration, a)) == Some(Built(duration, a))
  {
    var s := Built(duration, a);
    assert BitOf(0xE0, 0) && BitOf(0xE0, 1) && BitOf(0xA0, 0) && !BitOf(0xA0, 1) && !BitOf(0, 0);
    assert EncodeSegment(s) == SegmentBody(duration, a);
    SegmentEncodes(s);
  }

  /** A value the author gave, or the one the documentation names. */
  function Asked(given: Option<Byte>, default: Byte): Byte {
    if given.Some? then given.value else default
  }

  function AsciiOf(s: string): seq<Byte>
    requires Ascii(s)
  {
    seq(|s|, i requires 0 <= i < |s| => AsciiByte(s, i))
  }

  function AsciiByte(s: string, i: nat): Byte
    requires Ascii(s) && i < |s|
  {
    assert s[i] in s;
    s[i] as int
  }

  /** The UPID the author asked for: the given text encoded for the type in force, or "POIS-OUT". */
  function AskedUpid(a: SegmentArgs): seq<Byte> {
    if a.upid.Some? then a.upid.value(Asked(a.upidType, 0x0C)).value else AsciiOf("POIS-OUT")
  }

  /** What the decoders should say about a builder's descriptor, from what the author gave. */
  function BuiltReport(duration: Option<nat>, a: SegmentArgs): Info {
    SegmentInfo(0x43554549, 1, Asked(a.typeId, 0x10), if duration.Some? then Some(duration.value % SEGMENT_RANGE) else None,
                true, Restrictions(true, true, true, 3), Asked(a.upidType, 0x0C), AskedUpid(a), 0, 0)
  }

  /** The builders put in exactly what the author gave, with the documented defaults. */
  lemma BuiltAsAsked(a: SegmentArgs)
    ensures TypeId(a) == Asked(a.typeId, 0x10) && UpidType(a) == Asked(a.upidType, 0x0C) && UpidBytes(a) == AskedUpid(a)
    ensures SegmentTail(TypeId(a)) == [Asked(a.typeId, 0x10), 0, 0]
                                      + if Asked(a.typeId, 0x10) in {0x34, 0x36, 0x38, 0x3A} then [0, 0] else []
  {
    assert DEFAULT_UPID == AsciiOf("POIS-OUT");
  }

  lemma BuiltMeaning(duration: Option<nat>, a: SegmentArgs)
    requires |SegmentBody(duration, a)| <= 255
    ensures var d := RawDescriptor.Descriptor(SEGMENTATION, SegmentBody(duration, a));
            Complete(d) && Meaning(d) == BuiltReport(duration, a)
  {
    hide SegmentOf, WellFormed, UpidBytes, AskedUpid, Asked, TypeId, UpidType;
    BuiltAsAsked(a);
    SegmentBodySize(duration, a);
    SegmentBodyIsSegment(duration, a);
    var body := SegmentBody(duration, a);
    assert body[8] == 0;
    hide SegmentBody;
    var s := Built(duration, a);
    assert Be32(s.prefix, 0) == 0x43554549 && Be32(s.prefix, 4) == 1;
    assert BitOf(s.flags, 1) == duration.Some? && BitOf(s.flags, 2);
    if duration.Some? { Be40Written(duration.value); }
  }

  /** What the monitor should say. */
  function BuiltDetails(commandType: Byte, c: Command, a: SegmentArgs): Details {
    Details(Some(commandType), Some(Asked(a.typeId, 0x10)),
            if AskedUpid(a) == [] then None else Some(Upid(Asked(a.upidType, 0x0C), AskedUpid(a))), CommandPts(c))
  }

  /** What is found in a built section: the command and the loop it was given. */
  lemma SectionReads(commandType: Byte, command: seq<Byte>, loop: seq<Byte>)
    requires WholeCommand(commandType, command) && |loop| <= 0x3FF
    ensures var word: seq<Byte> := [|loop| / 256, |loop| % 256];
            var b := Section(commandType, command, word + loop);
            && LoopAt(b).Some? && Framed(FrameOf(b)) && FrameOf(b).loop == loop
            && b[3] == 0 && Be33(b, 4) == 0 && b[13] == commandType
            && CommandOf(FrameOf(b))
               == CommandAt(HeaderBytes(commandType, |command|) + command, HEADER_BYTES, commandType).value.item
  {
    hide Section, CommandAt, HeadOk, ToBeBytes, Crc, Head, HeaderBytes, Be33;
    SectionFrame(commandType, command, loop);
    var total := HEADER_BYTES + |command| + 2 + |loop| + 4;
    HeadShape(commandType, command, total);
    HeadZeros(commandType, command, total);
    var f := Frame(Head(commandType, command, total), [|loop| / 256, |loop| % 256], loop, []);
    JoinFrames(f);
    var b := Join(f);
    assert b[..|f.head|] == f.head;
    assert forall i :: 0 <= i < |f.head| ==> b[i] == f.head[i];
    Be33Local(b, f.head, 4);
  }

  lemma HeadZeros(commandType: Byte, command: seq<Byte>, total: nat)
    requires total >= 3
    ensures var h := Head(commandType, command, total); |h| >= HEADER_BYTES && h[3] == 0 && Be33(h, 4) == 0
  {
    var h := Head(commandType, command, total);
    assert h[3] == 0 && h[4] == 0 && h[5] == 0 && h[6] == 0 && h[7] == 0 && h[8] == 0;
  }

  lemma OneDescriptor(d: Descriptor)
    ensures Flatten([d]) == Encoded(d)
    ensures ParseLoop(Encoded(d)) == Loop([d], [])
  {
    assert Flatten([d]) == Encoded(d) + Flatten([]);
    ParseFlatten([d], []);
    assert Encoded(d) + [] == Encoded(d);
  }

  lemma SegmentLoopIsDescriptor(duration: Option<nat>, a: SegmentArgs)
    requires |SegmentBody(duration, a)| <= 255
    ensures var loop := Encoded(RawDescriptor.Descriptor(SEGMENTATION, SegmentBody(duration, a)));
            var word: seq<Byte> := [|loop| / 256, |loop| % 256];
            |loop| <= 0x3FF && SegmentLoop(duration, a) == word + loop
  {
    hide SegmentBody;
  }

  lemma BuiltFrame(commandType: Byte, command: seq<Byte>, duration: Option<nat>, a: SegmentArgs)
    requires WholeCommand(commandType, command) && |SegmentBody(duration, a)| <= 255
    ensures var b := Section(commandType, command, SegmentLoop(duration, a));
            var d := RawDescriptor.Descriptor(SEGMENTATION, SegmentBody(duration, a));
            && Tidy(b) && Framed(FrameOf(b)) && ParseLoop(FrameOf(b).loop) == Loop([d], [])
            && b[3] == 0 && Be33(b, 4) == 0 && b[13] == commandType
            && CommandOf(FrameOf(b))
               == CommandAt(HeaderBytes(commandType, |command|) + command, HEADER_BYTES, commandType).value.item
  {
    var d: Descriptor := RawDescriptor.Descriptor(SEGMENTATION, SegmentBody(duration, a));
    BuiltMeaning(duration, a);
    SegmentLoopIsDescriptor(duration, a);
    OneDescriptor(d);
    hide SegmentBody, Section, CommandAt, Complete, Meaning, HeadOk, Encoded, Flatten, ParseLoop, SegmentLoop, FrameOf,
         Framed, CommandOf, HeaderBytes;
    SectionReads(commandType, command, Encoded(d));
  }

  /** For every segmentation type, UPID type and UPID within the length byte, and every duration:
      the section is valid and strictly framed, and both decoders return the given command, type,
      UPID and duration (modulo the field width). */
  lemma BuiltDecodes(commandType: Byte, command: seq<Byte>, duration: Option<nat>, a: SegmentArgs)
    requires WholeCommand(commandType, command) && |SegmentBody(duration, a)| <= 255
    ensures var b := Section(commandType, command, SegmentLoop(duration, a));
            var c := CommandAt(HeaderBytes(commandType, |command|) + command, HEADER_BYTES, commandType).value.item;
            && ValidSection(b) && StrictlyFramed(b) && LoopAt(b).Some?
            && Decode(b) == Some(Decoded(0, false, 0, commandType, c,
                                         [Tagged(SEGMENTATION, |SegmentBody(duration, a)|, BuiltReport(duration, a))]))
            && DecodeDetails(b) == Some(BuiltDetails(commandType, c, a))
  {
    var b := Section(commandType, command, SegmentLoop(duration, a));
    var d: Descriptor := RawDescriptor.Descriptor(SEGMENTATION, SegmentBody(duration, a));
    FramingExact(commandType, command, duration, a);
    BuiltFrame(commandType, command, duration, a);
    BuiltMeaning(duration, a);
    DecodeReads(b);
    DecodersAgree(b);
    hide SegmentBody, Section, CommandAt, LoopAt, FrameOf, Complete, Meaning, DecodeDetails, Decode, Framed;
    assert Reports([d]) == [Report(d)] by { assert [d][1..] == []; }
    var t := Report(d);
    var base := Details(Some(commandType), None, None, CommandPts(Decode(b).value.command));
    assert Summary(base, [t]) == Summary(Note(base, t), []) by { assert [t][1..] == []; }
  }

  /** The header every builder writes: private, unencrypted, no PTS adjustment, every tier. */
  lemma BuiltHeader(commandType: Byte, command: seq<Byte>, tail: seq<Byte>)
    ensures var b := Section(commandType, command, tail);
            && |b| >= HEADER_BYTES && b[0] == 0xFC && b[1] as int / 16 == 3 && b[3] == 0
            && b[4] == 0 && Be32(b, 5) == 0 && b[9] == 0
            && 16 * b[10] + b[11] as int / 16 == 0xFFF && b[13] == commandType
  {
    SectionShape(commandType, command, tail);
    var total := HEADER_BYTES + |command| + |tail| + 4;
    var h := Head(commandType, command, total);
    HeadConstants(commandType, command, total);
    hide Head, Section, Crc, ToBeBytes, HeaderBytes;
    var b := Section(commandType, command, tail);
    assert b[..HEADER_BYTES] == h[..HEADER_BYTES];
    assert forall i :: 0 <= i < HEADER_BYTES ==> b[..HEADER_BYTES][i] == h[..HEADER_BYTES][i] == b[i] == h[i];
  }

  lemma HeadConstants(commandType: Byte, command: seq<Byte>, total: nat)
    requires total >= 3
    ensures var h := Head(commandType, command, total);
            && |h| >= HEADER_BYTES && h[0] == 0xFC && h[1] as int / 16 == 3 && h[3] == 0
            && h[4] == 0 && h[5] == 0 && h[6] == 0 && h[7] == 0 && h[8] == 0 && h[9] == 0
            && h[10] == 0xFF && h[11] as int / 16 == 15 && h[13] == commandType
  {
  }

  // ---- The four builders ----

  lemma TimeSignalCommand()
    ensures WholeCommand(TIME_SIGNAL, IMMEDIATE)
    ensures CommandAt(HeaderBytes(TIME_SIGNAL, |IMMEDIATE|) + IMMEDIATE, HEADER_BYTES, TIME_SIGNAL)
            == Some(Parsed(TimeSignal(None), 15))
  {
    var h := HeaderBytes(TIME_SIGNAL, 1) + IMMEDIATE;
    assert h[14] == 0 && h[4] == 0 && h[13] == TIME_SIGNAL;
    assert !BitOf(0, 0);
  }

  /** A built time_signal decodes to an immediate time_signal with the given descriptor. */
  lemma TimeSignalRoundTrip(a: SegmentArgs)
    requires |SegmentBody(None, a)| <= 255
    ensures var b := Section(TIME_SIGNAL, IMMEDIATE, SegmentLoop(None, a));
            && ValidSection(b) && StrictlyFramed(b)
            && Decode(b) == Some(Decoded(0, false, 0, TIME_SIGNAL, TimeSignal(None),
                                         [Tagged(SEGMENTATION, |SegmentBody(None, a)|, BuiltReport(None, a))]))
            && DecodeDetails(b) == Some(BuiltDetails(TIME_SIGNAL, TimeSignal(None), a))
  {
    TimeSignalCommand();
    hide *;
    BuiltDecodes(TIME_SIGNAL, IMMEDIATE, None, a);
  }

  /** The command an OUT builder writes. */
  function OutCommand(ticks: nat): Command {
    SpliceInsert(1, true, true, true, true, Times(None, []),
                 Some(BreakDuration(true, ticks % BREAK_RANGE)), 1, 0, 0)
  }

  lemma Flagged33Reads(v: nat)
    ensures Be33(Flagged33(v), 0) == v % BREAK_RANGE && BitOf(Flagged33(v)[0], 0)
  {
    Be33Written(0x80, v);
    assert BreakBytes(0x80, v) == Flagged33(v);
  }

  lemma OutCommandWalks(ticks: nat)
    ensures var command := InsertBytes(1, 0xF0, Flagged33(ticks));
            && WholeCommand(SPLICE_INSERT, command) && |command| == 15
            && CommandAt(HeaderBytes(SPLICE_INSERT, 15) + command, HEADER_BYTES, SPLICE_INSERT)
               == Some(Parsed(OutCommand(ticks), 29))
  {
    var t := Flagged33(ticks);
    var h := HeaderBytes(SPLICE_INSERT, 15) + InsertBytes(1, 0xF0, t);
    Flagged33Reads(ticks);
    hide Flagged33;
    assert h[14] == 0 && h[15] == 0 && h[16] == 0 && h[17] == 1 && h[18] == 0 && h[19] == 0xF0;
    assert h[20..25] == t;
    Be33Slice(h, 20);
    assert h[20] == t[0] && h[25] == 0 && h[26] == 1 && h[27] == 0 && h[28] == 0 && |h| == 29;
    assert !BitOf(0, 0) && BitOf(0xF0, 0) && BitOf(0xF0, 1) && BitOf(0xF0, 2) && BitOf(0xF0, 3);
  }

  /** A built OUT cue decodes to the break and segmentation durations it was given; both read
      exactly `duration_s * 90000` up to 95443 seconds, and no longer break does. */
  lemma SpliceInsertOutRoundTrip(durationS: nat, a: SegmentArgs)
    requires |SegmentBody(Some(durationS * 90000), a)| <= 255
    ensures var ticks := durationS * 90000;
            var b := Section(SPLICE_INSERT, InsertBytes(1, 0xF0, Flagged33(ticks)), SegmentLoop(Some(ticks), a));
            && ValidSection(b) && StrictlyFramed(b)
            && Decode(b) == Some(Decoded(0, false, 0, SPLICE_INSERT, OutCommand(ticks),
                                         [Tagged(SEGMENTATION, |SegmentBody(Some(ticks), a)|, BuiltReport(Some(ticks), a))]))
            && DecodeDetails(b) == Some(BuiltDetails(SPLICE_INSERT, OutCommand(ticks), a))
            && (OutCommand(ticks).breakDuration.value.ticks == ticks <==> durationS <= 95443)
            && (durationS <= 95443 ==> BuiltReport(Some(ticks), a).duration == Some(ticks))
  {
    var ticks := durationS * 90000;
    OutCommandWalks(ticks);
    DurationLimit(durationS);
    hide *;
    BuiltDecodes(SPLICE_INSERT, InsertBytes(1, 0xF0, Flagged33(ticks)), Some(ticks), a);
  }

  lemma DurationLimit(durationS: nat)
    ensures OutCommand(durationS * 90000).breakDuration.value.ticks == durationS * 90000 <==> durationS <= 95443
    ensures durationS <= 95443 ==> durationS * 90000 % SEGMENT_RANGE == durationS * 90000
  {
    var ticks := durationS * 90000;
    if durationS <= 95443 {
      SmallRemainder(ticks, BREAK_RANGE);
      SmallRemainder(ticks, SEGMENT_RANGE);
    } else {
      assert ticks % BREAK_RANGE < BREAK_RANGE <= ticks;
    }
  }

  /** The command an IN builder writes. */
  function InCommand(pts: Option<nat>): Command {
    SpliceInsert(2, false, true, false, pts.None?,
                 Times(if pts.Some? then Some(pts.value % BREAK_RANGE) else None, []), None, 1, 0, 0)
  }

  lemma TimedInWalks(pts: nat)
    ensures var command := InsertBytes(2, 0x40, Flagged33(pts));
            && WholeCommand(SPLICE_INSERT, command) && |command| == 15
            && CommandAt(HeaderBytes(SPLICE_INSERT, 15) + command, HEADER_BYTES, SPLICE_INSERT)
               == Some(Parsed(InCommand(Some(pts)), 29))
  {
    var t := Flagged33(pts);
    var h := HeaderBytes(SPLICE_INSERT, 15) + InsertBytes(2, 0x40, t);
    Flagged33Reads(pts);
    hide Flagged33;
    assert !BitOf(0, 0) && !BitOf(0x40, 0) && BitOf(0x40, 1) && !BitOf(0x40, 2) && !BitOf(0x40, 3);
    assert h[14] == 0 && h[15] == 0 && h[16] == 0 && h[17] == 2 && h[18] == 0 && h[19] == 0x40;
    assert h[20..25] == t;
    Be33Slice(h, 20);
    assert h[20] == t[0] && h[25] == 0 && h[26] == 1 && h[27] == 0 && h[28] == 0 && |h| == 29;
    hide BitOf;
  }

  lemma ImmediateInWalks()
    ensures var command := InsertBytes(2, 0x50, []);
            && WholeCommand(SPLICE_INSERT, command) && |command| == 10
            && CommandAt(HeaderBytes(SPLICE_INSERT, 10) + command, HEADER_BYTES, SPLICE_INSERT)
               == Some(Parsed(InCommand(None), 24))
  {
    var h := HeaderBytes(SPLICE_INSERT, 10) + InsertBytes(2, 0x50, []);
    assert !BitOf(0, 0) && !BitOf(0x50, 0) && BitOf(0x50, 1) && !BitOf(0x50, 2) && BitOf(0x50, 3);
    assert h[14] == 0 && h[15] == 0 && h[16] == 0 && h[17] == 2 && h[18] == 0 && h[19] == 0x50;
    assert h[20] == 0 && h[21] == 1 && h[22] == 0 && h[23] == 0 && |h| == 24;
    hide BitOf;
  }

  lemma InCommandWalks(pts: Option<nat>)
    ensures var command := InsertBytes(2, if pts.Some? then 0x40 else 0x50, if pts.Some? then Flagged33(pts.value) else []);
            && WholeCommand(SPLICE_INSERT, command)
            && CommandAt(HeaderBytes(SPLICE_INSERT, |command|) + command, HEADER_BYTES, SPLICE_INSERT)
               == Some(Parsed(InCommand(pts), HEADER_BYTES + |command|))
  {
    hide CommandAt, HeaderBytes, HeadOk, Flagged33, InsertBytes;
    if pts.Some? {
      TimedInWalks(pts.value);
    } else {
      ImmediateInWalks();
    }
  }

  /** A section without descriptors decodes to its command alone. */
  lemma PlainDecodes(commandType: Byte, command: seq<Byte>)
    requires WholeCommand(commandType, command)
    ensures var b := Section(commandType, command, [0, 0]);
            var c := CommandAt(HeaderBytes(commandType, |command|) + command, HEADER_BYTES, commandType).value.item;
            && ValidSection(b) && StrictlyFramed(b)
            && Decode(b) == Some(Decoded(0, false, 0, commandType, c, []))
            && DecodeDetails(b) == Some(Details(Some(commandType), None, None, CommandPts(c)))
  {
    EmptyLoopFramed(commandType, command);
    SectionReads(commandType, command, []);
    assert [0 as Byte, 0] + [] == [0, 0];
    hide Section, CommandAt, HeadOk, FrameOf, Framed, CommandOf, HeaderBytes, Decode, DecodeDetails, LoopAt, CommandLength;
    var b := Section(commandType, command, [0, 0]);
    DecodeReads(b);
    DecodersAgree(b);
  }

  /** An IN cue decodes to its PTS modulo 2^33, or to an immediate splice. */
  lemma SpliceInsertInRoundTrip(pts: Option<nat>)
    ensures var timing := if pts.Some? then Flagged33(pts.value) else [];
            var b := Section(SPLICE_INSERT, InsertBytes(2, if pts.Some? then 0x40 else 0x50, timing), [0, 0]);
            && ValidSection(b) && StrictlyFramed(b)
            && Decode(b) == Some(Decoded(0, false, 0, SPLICE_INSERT, InCommand(pts), []))
            && DecodeDetails(b) == Some(Details(Some(SPLICE_INSERT), None, None,
                                                if pts.Some? then Some(pts.value % BREAK_RANGE) else None))
  {
    InCommandWalks(pts);
    assert CommandPts(InCommand(pts)) == if pts.Some? then Some(pts.value % BREAK_RANGE) else None;
    hide *;
    PlainDecodes(SPLICE_INSERT, InsertBytes(2, if pts.Some? then 0x40 else 0x50,
                                            if pts.Some? then Flagged33(pts.value) else []));
  }

  /** The immediate time_signal without a descriptor. */
  lemma TimeSignalImmediateRoundTrip()
    ensures var b := Section(TIME_SIGNAL, IMMEDIATE, [0, 0]);
            && ValidSection(b) && StrictlyFramed(b)
            && Decode(b) == Some(Decoded(0, false, 0, TIME_SIGNAL, TimeSignal(None), []))
            && DecodeDetails(b) == Some(Details(Some(TIME_SIGNAL), None, None, None))
  {
    TimeSignalCommand();
    assert CommandPts(TimeSignal(None)) == None;
    hide *;
    PlainDecodes(TIME_SIGNAL, IMMEDIATE);
  }
}
