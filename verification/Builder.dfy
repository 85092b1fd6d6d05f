/** The section builders of src/scte35.rs, written field by field through the bit writer. */
module Builder {
  import opened Bytes
  import opened BitIO
  import opened FieldBits
  import opened Crc32
  import opened Layout
  import opened Descriptors
  import opened Frames
  import opened FieldEdits

  // ---- The bytes the builders are meant to produce ----

  /** The fixed header with an empty section_length. */
  function HeaderBytes(commandType: Byte, commandLength: nat): (h: seq<Byte>)
    ensures |h| == HEADER_BYTES
  {
    [0xFC, 0x30, 0, 0, 0, 0, 0, 0, 0, 0, 0xFF, (0xF0 + commandLength / 256 % 16) as Byte, commandLength % 256, commandType]
  }

  /** A whole section: header, command, loop word with its loop, CRC, with the lengths right. */
  function Section(commandType: Byte, command: seq<Byte>, tail: seq<Byte>): seq<Byte> {
    var body := HeaderBytes(commandType, |command|) + command + tail;
    WithCrc(WithLength(body, |body| + 4))
  }

  /** time_signal() without a time. */
  const IMMEDIATE: seq<Byte> := [0]

  /** splice_insert() of the whole program, without components. */
  function InsertBytes(eventId: Byte, flags: Byte, timing: seq<Byte>): seq<Byte> {
    [0, 0, 0, eventId, 0, flags] + timing + [0, 1, 0, 0]
  }

  /** A set flag, six reserved zeros and a 33-bit value. */
  function Flagged33(v: nat): seq<Byte> {
    [(128 + v / 0x1_0000_0000 % 2) as Byte] + ToBe32(v)
  }

  /** The optional segmentation parameters; `upid` is the text already passed to `encode_upid`. */
  datatype RawArgs = Args(typeId: Option<Byte>, upidType: Option<Byte>, upid: Option<UpidEncoder>)

  const NO_ARGS := Args(None, None, None)

  /** The UPID can be encoded without a panic. */
  predicate Encodes(a: RawArgs) {
    a.upid.Some? ==> a.upid.value(UpidType(a)).Some?
  }

  type SegmentArgs = a: RawArgs | Encodes(a) witness NO_ARGS

  /** `build_time_signal_section` adds a descriptor for a type or a UPID type only. */
  predicate WantsDescriptor(a: RawArgs) {
    a.typeId.Some? || a.upidType.Some?
  }

  const DEFAULT_UPID: seq<Byte> := [0x50, 0x4F, 0x49, 0x53, 0x2D, 0x4F, 0x55, 0x54]  // "POIS-OUT"

  function TypeId(a: RawArgs): Byte {
    if a.typeId.Some? then a.typeId.value else 0x10
  }

  function UpidType(a: RawArgs): Byte {
    if a.upidType.Some? then a.upidType.value else 0x0C
  }

  function UpidBytes(a: SegmentArgs): seq<Byte> {
    if a.upid.Some? then a.upid.value(UpidType(a)).value else DEFAULT_UPID
  }

  /** segment_num, segments_expected, and the sub-segment fields of the four distributor types. */
  function SegmentTail(typeId: Byte): seq<Byte> {
    [typeId, 0, 0] + if typeId in {0x34, 0x36, 0x38, 0x3A} then [0, 0] else []
  }

  /** "CUEI", event 1, not cancelled, flags, and the duration if there is one. */
  function SegmentHead(duration: Option<nat>): seq<Byte> {
    [0x43, 0x55, 0x45, 0x49, 0, 0, 0, 1, 0, if duration.Some? then 0xE0 else 0xA0]
    + (if duration.Some? then ToBe40(duration.value) else [])
  }

  function SegmentRest(a: SegmentArgs): seq<Byte> {
    [UpidType(a), |UpidBytes(a)| % 256] + UpidBytes(a) + SegmentTail(TypeId(a))
  }

  function SegmentBody(duration: Option<nat>, a: SegmentArgs): seq<Byte> {
    SegmentHead(duration) + SegmentRest(a)
  }

  /** The loop word and a loop of one segmentation_descriptor, each length cut to its field. */
  function SegmentLoop(duration: Option<nat>, a: SegmentArgs): seq<Byte> {
    var body := SegmentBody(duration, a);
    var n := |body| + 2;
    [n / 256 % 256, n % 256, SEGMENTATION, |body| % 256] + body
  }

  // ---- Writing whole bytes ----

  /** The writer is byte-aligned and has written exactly `bytes`. */
  ghost predicate Holds(w: BitWriter, bytes: seq<Byte>)
    reads w
  {
    w.Valid() && w.bitpos == 8 * |bytes| && w.Written() == Bits(bytes)
  }

  lemma HeldBytes(w: BitWriter, bytes: seq<Byte>)
    requires Holds(w, bytes)
    ensures w.bytes == bytes
  {
    hide Bits;
    assert |w.bytes| == |bytes|;
    assert Bits(w.bytes)[..8 * |bytes|] == Bits(w.bytes);
    BitsInjective(w.bytes, bytes);
  }

  method Put8(w: BitWriter, v: nat, ghost bytes: seq<Byte>)
    requires Holds(w, bytes)
    modifies w
    ensures Holds(w, bytes + [v % 256])
  {
    hide Bits, ToBits;
    w.WriteBits(v, 8);
    ByteBitsOf(v);
    BitsConcat(bytes, [v % 256]);
  }

  method Put16(w: BitWriter, v: nat, ghost bytes: seq<Byte>)
    requires Holds(w, bytes)
    modifies w
    ensures Holds(w, bytes + [v / 256 % 256, v % 256])
  {
    hide Bits, ToBits;
    w.WriteBits(v, 16);
    Bits16(v);
    BitsConcat(bytes, [v / 256 % 256, v % 256]);
  }

  method Put32(w: BitWriter, v: nat, ghost bytes: seq<Byte>)
    requires Holds(w, bytes)
    modifies w
    ensures Holds(w, bytes + ToBe32(v))
  {
    hide Bits, ToBits;
    w.WriteBits(v, 32);
    Bits32(v);
    BitsConcat(bytes, ToBe32(v));
  }

  method Put40(w: BitWriter, v: nat, ghost bytes: seq<Byte>)
    requires Holds(w, bytes)
    modifies w
    ensures Holds(w, bytes + ToBe40(v))
  {
    hide Bits, ToBits;
    w.WriteBits(v, 40);
    Bits40(v);
    BitsConcat(bytes, ToBe40(v));
  }

  /** A set flag, reserved zeros and a 33-bit value. */
  method PutFlagged33(w: BitWriter, v: nat, ghost bytes: seq<Byte>)
    requires Holds(w, bytes)
    modifies w
    ensures Holds(w, bytes + Flagged33(v))
  {
    hide Bits, ToBits;
    w.WriteBits(1, 1);
    w.WriteBits(0, 6);
    w.WriteBits(v, 33);
    Bits1And33(1, v);
    BitsConcat(bytes, Flagged33(v));
    assert w.Written() == Bits(bytes) + (ToBits(1, 1) + ToBits(0, 6) + ToBits(v, 33));
  }

  /** A zero flag and seven reserved bits. */
  method PutClearFlag(w: BitWriter, ghost bytes: seq<Byte>)
    requires Holds(w, bytes)
    modifies w
    ensures Holds(w, bytes + [0])
  {
    hide Bits, ToBits;
    w.WriteBits(0, 1);
    w.WriteBits(0, 7);
    FlagAndSeven(0);
    BitsConcat(bytes, [0]);
    assert w.Written() == Bits(bytes) + (ToBits(0, 1) + ToBits(0, 7));
  }

  function Bit(b: bool): nat {
    if b then 1 else 0
  }

  method PutInsertFlags(w: BitWriter, out: bool, program: bool, duration: bool, immediate: bool, ghost bytes: seq<Byte>)
    requires Holds(w, bytes)
    modifies w
    ensures Holds(w, bytes + [(128 * Bit(out) + 64 * Bit(program) + 32 * Bit(duration) + 16 * Bit(immediate)) as Byte])
  {
    hide Bits, ToBits;
    w.WriteBits(Bit(out), 1);
    w.WriteBits(Bit(program), 1);
    w.WriteBits(Bit(duration), 1);
    w.WriteBits(Bit(immediate), 1);
    w.WriteBits(0, 4);
    ghost var b: Byte := 128 * Bit(out) + 64 * Bit(program) + 32 * Bit(duration) + 16 * Bit(immediate);
    FourFlags(Bit(out), Bit(program), Bit(duration), Bit(immediate), b);
    BitsConcat(bytes, [b]);
    assert w.Written() == Bits(bytes) + (ToBits(Bit(out), 1) + ToBits(Bit(program), 1) + ToBits(Bit(duration), 1)
                                         + ToBits(Bit(immediate), 1) + ToBits(0, 4));
  }

  /** program_segmentation_flag, segmentation_duration_flag and delivery_not_restricted_flag. */
  method PutSegmentFlags(w: BitWriter, duration: bool, ghost bytes: seq<Byte>)
    requires Holds(w, bytes)
    modifies w
    ensures Holds(w, bytes + [if duration then 0xE0 else 0xA0])
  {
    hide Bits, ToBits;
    w.WriteBits(1, 1);
    w.WriteBits(Bit(duration), 1);
    w.WriteBits(1, 1);
    w.WriteBits(0, 5);
    ThreeFlags(1, Bit(duration), 1);
    BitsConcat(bytes, [if duration then 0xE0 else 0xA0]);
    assert w.Written() == Bits(bytes) + (ToBits(1, 1) + ToBits(Bit(duration), 1) + ToBits(1, 1) + ToBits(0, 5));
  }

  // ---- The parts every builder shares ----

  /** The header up to splice_command_type; both lengths are patched later. */
  method BeginSection(w: BitWriter, commandType: Byte) returns (lengthPos: nat, commandLengthPos: nat)
    requires w.Valid() && w.bitpos == 0
    modifies w
    ensures Holds(w, HeaderBytes(commandType, 0)) && lengthPos == 12 && commandLengthPos == 92
  {
    hide Bits, ToBits;
    assert Bits([]) == [];
    assert w.Written() == [];
    Put8(w, 0xFC, []);
    lengthPos := w.bitpos + 4;
    assert [] + [0xFC as Byte] == [0xFC];
    PutSectionFlags(w, [0xFC]);
    assert [0xFC as Byte] + [0x30, 0] == [0xFC, 0x30, 0];
    Put8(w, 0, [0xFC, 0x30, 0]);               // protocol_version
    assert [0xFC as Byte, 0x30, 0] + [0] == [0xFC, 0x30, 0, 0];
    PutZero33(w, [0xFC, 0x30, 0, 0]);          // encryption and pts_adjustment
    Put8(w, 0, [0xFC, 0x30, 0, 0] + [0, 0, 0, 0, 0]);  // cw_index
    commandLengthPos := w.bitpos + 12;
    ghost var now := [0xFC, 0x30, 0, 0] + [0, 0, 0, 0, 0] + [0];
    PutTier(w, now);
    Put8(w, commandType, now + [0xFF, 0xF0, 0]);
    assert now + [0xFF, 0xF0, 0] + [commandType] == HeaderBytes(commandType, 0);
  }

  method PutSectionFlags(w: BitWriter, ghost bytes: seq<Byte>)
    requires Holds(w, bytes)
    modifies w
    ensures Holds(w, bytes + [0x30, 0])
  {
    hide Bits, ToBits;
    w.WriteBits(0, 1);
    w.WriteBits(0, 1);
    w.WriteBits(3, 2);
    w.WriteBits(0, 12);
    SectionFlags();
    BitsConcat(bytes, [0x30, 0]);
    assert w.Written() == Bits(bytes) + (ToBits(0, 1) + ToBits(0, 1) + ToBits(3, 2) + ToBits(0, 12));
  }

  /** encrypted_packet, encryption_algorithm and pts_adjustment, all zero. */
  method PutZero33(w: BitWriter, ghost bytes: seq<Byte>)
    requires Holds(w, bytes)
    modifies w
    ensures Holds(w, bytes + [0, 0, 0, 0, 0])
  {
    hide Bits, ToBits;
    w.WriteBits(0, 1);
    w.WriteBits(0, 6);
    w.WriteBits(0, 33);
    Bits1And33(0, 0);
    assert [0] + ToBe32(0) == [0, 0, 0, 0, 0];
    BitsConcat(bytes, [0, 0, 0, 0, 0]);
    assert w.Written() == Bits(bytes) + (ToBits(0, 1) + ToBits(0, 6) + ToBits(0, 33));
  }

  /** tier and the placeholder of splice_command_length. */
  method PutTier(w: BitWriter, ghost bytes: seq<Byte>)
    requires Holds(w, bytes)
    modifies w
    ensures Holds(w, bytes + [0xFF, 0xF0, 0])
  {
    hide Bits, ToBits;
    w.WriteBits(0xFFF, 12);
    w.WriteBits(0, 12);
    TierAndLength();
    BitsConcat(bytes, [0xFF, 0xF0, 0]);
    assert w.Written() == Bits(bytes) + (ToBits(0xFFF, 12) + ToBits(0, 12));
  }

  /** Patches splice_command_length with the bytes written since the command type. */
  method PatchCommandLength(w: BitWriter, pos: nat, start: nat, commandType: Byte, ghost command: seq<Byte>)
    requires Holds(w, HeaderBytes(commandType, 0) + command)
    requires pos == 92 && start == 8 * HEADER_BYTES
    modifies w`bytes
    ensures Holds(w, HeaderBytes(commandType, |command|) + command)
  {
    hide Bits, ToBits;
    var bits := w.bitpos - start;
    ghost var d := HeaderBytes(commandType, 0) + command;
    w.PatchBits(pos, bits / 8, 12);
    PatchNibble(d, 11, |command|);
    assert bits / 8 == |command|;
    assert d[11 := (d[11] as int / 16 * 16 + |command| / 256 % 16) as Byte][12 := |command| % 256]
           == HeaderBytes(commandType, |command|) + command;
  }

  /** Pads with ones; a builder that wrote whole bytes needs none. */
  method AlignToByte(w: BitWriter)
    requires w.Valid()
    modifies w
    ensures w.Valid() && w.bitpos % 8 == 0 && old(w.bitpos) <= w.bitpos < old(w.bitpos) + 8
    ensures w.Written() == old(w.Written()) + Fill(w.bitpos - old(w.bitpos), true)
  {
    hide Bits;
    while w.bitpos % 8 != 0
      invariant w.Valid() && old(w.bitpos) <= w.bitpos <= (old(w.bitpos) + 7) / 8 * 8
      invariant w.Written() == old(w.Written()) + Fill(w.bitpos - old(w.bitpos), true)
      decreases (old(w.bitpos) + 7) / 8 * 8 - w.bitpos
    {
      w.WriteBits(1, 1);
      assert ToBits(1, 1) == [true];
    }
  }

  /** `finalize_with_crc32`. */
  method Finalize(w: BitWriter, lengthPos: nat, ghost body: seq<Byte>) returns (section: seq<Byte>)
    requires Holds(w, body) && lengthPos == 12 && |body| >= 3
    modifies w
    ensures section == WithCrc(WithLength(body, |body| + 4))
  {
    hide Bits, ToBits, WithLength, Crc;
    AlignToByte(w);
    PatchSectionLength(w, lengthPos, body);
    AppendCrc(w, WithLength(body, |body| + 4));
    HeldBytes(w, WithCrc(WithLength(body, |body| + 4)));
    return w.bytes;
  }

  method PatchSectionLength(w: BitWriter, lengthPos: nat, ghost body: seq<Byte>)
    requires Holds(w, body) && lengthPos == 12 && |body| >= 3
    modifies w`bytes
    ensures Holds(w, WithLength(body, |body| + 4))
  {
    hide Bits, ToBits;
    HeldBytes(w, body);
    var start := (lengthPos + 12) / 8;
    var sectionLength := |w.bytes| - start + 4;
    w.PatchBits(lengthPos, sectionLength, 12);
    PatchNibble(body, 1, sectionLength);
  }

  method AppendCrc(w: BitWriter, ghost body: seq<Byte>)
    requires Holds(w, body)
    modifies w
    ensures Holds(w, WithCrc(body))
  {
    hide Bits, ToBits, Value, Crc, ToBeBytes;
    HeldBytes(w, body);
    var crc := ComputeCrc32(w.bytes);
    w.WriteBits(Value(crc), 32);
    ToBitsOfValue(crc);
    PackedWord(crc);
    BitsConcat(body, ToBeBytes(crc));
  }


  // ---- The segmentation descriptor ----

  /** Overwrites an aligned byte. */
  method Patch8(w: BitWriter, pos: nat, v: nat, ghost pre: seq<Byte>, ghost was: Byte, ghost post: seq<Byte>)
    requires Holds(w, pre + [was] + post) && pos == 8 * |pre|
    modifies w`bytes
    ensures Holds(w, pre + [v % 256] + post)
  {
    hide Bits, ToBits;
    w.PatchBits(pos, v, 8);
    ByteBitsOf(v);
    SpliceBits(pre, [was], post, [v % 256]);
  }

  method Patch16(w: BitWriter, pos: nat, v: nat, ghost pre: seq<Byte>, ghost was: seq<Byte>, ghost post: seq<Byte>)
    requires |was| == 2 && Holds(w, pre + was + post) && pos == 8 * |pre|
    modifies w`bytes
    ensures Holds(w, pre + [v / 256 % 256, v % 256] + post)
  {
    hide Bits, ToBits;
    w.PatchBits(pos, v, 16);
    Bits16(v);
    SpliceBits(pre, was, post, [v / 256 % 256, v % 256]);
  }

  method PutBytes(w: BitWriter, data: seq<Byte>, ghost bytes: seq<Byte>)
    requires Holds(w, bytes)
    modifies w
    ensures Holds(w, bytes + data)
  {
    hide Holds;
    assert bytes + data[..0] == bytes;
    for i := 0 to |data|
      invariant Holds(w, bytes + data[..i])
    {
      Put8(w, data[i], bytes + data[..i]);
      assert bytes + data[..i] + [data[i] % 256] == bytes + data[..i + 1];
    }
    assert data[..|data|] == data;
  }

  /** identifier, event id, cancel indicator, flags and duration. */
  method PutSegmentHead(w: BitWriter, duration: Option<nat>, ghost bytes: seq<Byte>)
    requires Holds(w, bytes)
    modifies w
    ensures Holds(w, bytes + SegmentHead(duration))
  {
    hide Holds, ToBe40;
    Put32(w, 0x43554549, bytes);
    assert ToBe32(0x43554549) == [0x43, 0x55, 0x45, 0x49] && ToBe32(1) == [0, 0, 0, 1];
    ghost var now := bytes + [0x43, 0x55, 0x45, 0x49];
    Put32(w, 1, now);
    now := now + [0, 0, 0, 1];
    PutClearFlag(w, now);
    PutSegmentFlags(w, duration.Some?, now + [0]);
    now := now + [0] + [if duration.Some? then 0xE0 else 0xA0];
    assert now == bytes + [0x43, 0x55, 0x45, 0x49, 0, 0, 0, 1, 0, if duration.Some? then 0xE0 else 0xA0];
    if duration.Some? {
      Put40(w, duration.value, now);
      assert now + ToBe40(duration.value) == bytes + SegmentHead(duration);
    } else {
      assert now == bytes + SegmentHead(duration);
    }
  }

  /** UPID, type id, numbering and, for four types, the sub-segment fields. */
  method PutSegmentTail(w: BitWriter, a: SegmentArgs, ghost bytes: seq<Byte>)
    requires Holds(w, bytes)
    modifies w
    ensures Holds(w, bytes + SegmentRest(a))
  {
    hide Holds, UpidBytes, UpidType, TypeId;
    var upid := UpidBytes(a);
    var typeId := TypeId(a);
    Put8(w, UpidType(a), bytes);
    Put8(w, |upid|, bytes + [UpidType(a)]);
    ghost var now := bytes + [UpidType(a)] + [|upid| % 256];
    PutBytes(w, upid, now);
    Put8(w, typeId, now + upid);
    Put8(w, 0, now + upid + [typeId]);
    Put8(w, 0, now + upid + [typeId] + [0]);
    now := now + upid + [typeId] + [0] + [0];
    if typeId == 0x34 || typeId == 0x36 || typeId == 0x38 || typeId == 0x3A {
      Put8(w, 0, now);
      Put8(w, 0, now + [0]);
      assert now + [0] + [0] == bytes + SegmentRest(a);
    } else {
      assert now == bytes + SegmentRest(a);
    }
  }

  /** `add_segmentation_descriptor`: both lengths are patched once the descriptor is written. */
  method AddSegmentationDescriptor(w: BitWriter, duration: Option<nat>, a: SegmentArgs, ghost bytes: seq<Byte>)
    requires Holds(w, bytes)
    modifies w
    ensures Holds(w, bytes + SegmentLoop(duration, a))
  {
    hide Holds, SegmentHead, SegmentRest, Bits, SegmentBody, SegmentLoop;
    ghost var front := bytes + [0, 0] + [SEGMENTATION];
    var loopStart := HeldPosition(w, bytes);
    Put16(w, 0, bytes);
    Put8(w, SEGMENTATION, bytes + [0, 0]);
    var lengthPos := HeldPosition(w, front);
    Put8(w, 0, front);
    PutSegmentHead(w, duration, front + [0]);
    PutSegmentTail(w, a, front + [0] + SegmentHead(duration));
    ghost var body := SegmentBody(duration, a);
    BodyJoined(front + [0], duration, a);
    var end := HeldPosition(w, front + [0] + body);
    Patch8(w, lengthPos, (end - (lengthPos + 8)) / 8, front, 0, body);
    LoopJoined(bytes, duration, a);
    Patch16(w, loopStart, (end - (loopStart + 16)) / 8, bytes, [0, 0], [SEGMENTATION, |body| % 256] + body);
  }

  lemma BodyJoined(front: seq<Byte>, duration: Option<nat>, a: SegmentArgs)
    ensures front + SegmentHead(duration) + SegmentRest(a) == front + SegmentBody(duration, a)
  {
    hide SegmentHead, SegmentRest;
  }

  lemma LoopJoined(bytes: seq<Byte>, duration: Option<nat>, a: SegmentArgs)
    ensures var body := SegmentBody(duration, a);
            var descriptor := [SEGMENTATION, |body| % 256] + body;
            && bytes + [0, 0] + [SEGMENTATION] + [|body| % 256] + body == bytes + [0, 0] + descriptor
            && bytes + [(|body| + 2) / 256 % 256, (|body| + 2) % 256] + descriptor == bytes + SegmentLoop(duration, a)
  {
    hide SegmentBody;
  }

  // ---- The builders ----

  /** `build_time_signal_section`; without type and UPID type there is no descriptor at all. None
      stands for the panic of `encode_upid`. */
  method BuildTimeSignal(a: RawArgs) returns (section: Option<seq<Byte>>)
    ensures section.None? <==> WantsDescriptor(a) && !Encodes(a)
    ensures section.Some? ==>
              section.value == Section(TIME_SIGNAL, IMMEDIATE, if WantsDescriptor(a) then SegmentLoop(None, a) else [0, 0])
  {
    hide Holds, SegmentLoop, HeaderBytes;
    var w := new BitWriter();
    var lengthPos, commandLengthPos := BeginSection(w, TIME_SIGNAL);
    var start := HeldPosition(w, HeaderBytes(TIME_SIGNAL, 0));
    PutClearFlag(w, HeaderBytes(TIME_SIGNAL, 0));
    PatchCommandLength(w, commandLengthPos, start, TIME_SIGNAL, IMMEDIATE);
    ghost var now := HeaderBytes(TIME_SIGNAL, 1) + IMMEDIATE;
    ghost var tail := [0, 0];
    if WantsDescriptor(a) {
      if !Encodes(a) {
        return None;
      }
      tail := SegmentLoop(None, a);
      AddSegmentationDescriptor(w, None, a, now);
    } else {
      Put16(w, 0, now);
    }
    var bytes := Finalize(w, lengthPos, now + tail);
    return Some(bytes);
  }

  /** The writer's own position, which its bytes determine. */
  method HeldPosition(w: BitWriter, ghost bytes: seq<Byte>) returns (pos: nat)
    requires Holds(w, bytes)
    ensures pos == 8 * |bytes| && pos == w.bitpos
  {
    return w.bitpos;
  }

  /** The splice_insert body the three insert builders share. */
  method PutInsert(w: BitWriter, eventId: Byte, out: bool, duration: bool, immediate: bool, timing: Option<nat>,
                   ghost bytes: seq<Byte>)
    requires Holds(w, bytes)
    modifies w
    ensures var flags := (128 * Bit(out) + 64 + 32 * Bit(duration) + 16 * Bit(immediate)) as Byte;
            Holds(w, bytes + InsertBytes(eventId, flags, if timing.Some? then Flagged33(timing.value) else []))
  {
    hide Holds, Flagged33;
    ghost var flags: Byte := 128 * Bit(out) + 64 + 32 * Bit(duration) + 16 * Bit(immediate);
    Put32(w, eventId, bytes);
    assert ToBe32(eventId) == [0, 0, 0, eventId];
    ghost var now := bytes + [0, 0, 0, eventId];
    PutClearFlag(w, now);
    PutInsertFlags(w, out, true, duration, immediate, now + [0]);
    now := now + [0] + [flags];
    if timing.Some? {
      PutFlagged33(w, timing.value, now);
      now := now + Flagged33(timing.value);
    }
    Put16(w, 1, now);
    Put8(w, 0, now + [0, 1]);
    Put8(w, 0, now + [0, 1] + [0]);
    assert now + [0, 1] + [0] + [0]
           == bytes + InsertBytes(eventId, flags, if timing.Some? then Flagged33(timing.value) else []);
  }

  /** `build_splice_insert_out_section`: a break duration and always a descriptor. */
  method BuildSpliceInsertOut(durationS: nat, a: RawArgs) returns (section: Option<seq<Byte>>)
    ensures section.None? <==> !Encodes(a)
    ensures section.Some? ==>
              section.value == Section(SPLICE_INSERT, InsertBytes(1, 0xF0, Flagged33(durationS * 90000)),
                                       SegmentLoop(Some(durationS * 90000), a))
  {
    hide Holds, SegmentLoop, HeaderBytes, Flagged33;
    var w := new BitWriter();
    var lengthPos, commandLengthPos := BeginSection(w, SPLICE_INSERT);
    var start := HeldPosition(w, HeaderBytes(SPLICE_INSERT, 0));
    var ticks := durationS * 90000;
    PutInsert(w, 1, true, true, true, Some(ticks), HeaderBytes(SPLICE_INSERT, 0));
    ghost var command := InsertBytes(1, 0xF0, Flagged33(ticks));
    PatchCommandLength(w, commandLengthPos, start, SPLICE_INSERT, command);
    ghost var now := HeaderBytes(SPLICE_INSERT, |command|) + command;
    if !Encodes(a) {
      return None;
    }
    AddSegmentationDescriptor(w, Some(ticks), a, now);
    var bytes := Finalize(w, lengthPos, now + SegmentLoop(Some(ticks), a));
    return Some(bytes);
  }

  /** `build_splice_insert_in_section` and its PTS variant: no descriptors. */
  method BuildSpliceInsertIn(pts: Option<nat>) returns (section: seq<Byte>)
    ensures section == Section(SPLICE_INSERT,
                               InsertBytes(2, if pts.Some? then 0x40 else 0x50,
                                           if pts.Some? then Flagged33(pts.value) else []),
                               [0, 0])
  {
    hide Holds, HeaderBytes, Flagged33;
    var w := new BitWriter();
    var lengthPos, commandLengthPos := BeginSection(w, SPLICE_INSERT);
    var start := HeldPosition(w, HeaderBytes(SPLICE_INSERT, 0));
    PutInsert(w, 2, false, false, pts.None?, pts, HeaderBytes(SPLICE_INSERT, 0));
    ghost var command := InsertBytes(2, if pts.Some? then 0x40 else 0x50, if pts.Some? then Flagged33(pts.value) else []);
    PatchCommandLength(w, commandLengthPos, start, SPLICE_INSERT, command);
    ghost var now := HeaderBytes(SPLICE_INSERT, |command|) + command;
    Put16(w, 0, now);
    section := Finalize(w, lengthPos, now + [0, 0]);
  }
}
