/** The two decoders, each over its own bit-level walk: `decode_scte35_internal` with
    `parse_descriptor` of src/tools_api.rs, and `decode_scte35_details` of src/esam.rs. Both read
    a segmentation descriptor from the whole buffer, not only from the bytes its length claims. */
module Decoders {
  import opened Bytes
  import opened BitIO
  import opened Layout
  import opened Walkers
  import opened Descriptors

  // ---- What the tools decoder reports ----

  datatype Restrictions = Restrictions(webDelivery: bool, noRegionalBlackout: bool, archive: bool, devices: Byte)

  datatype Info =
    | SegmentInfo(identifier: nat, eventId: nat, typeId: Byte, duration: Option<nat>, notRestricted: bool,
                  restrictions: Restrictions, upidType: Byte, upid: seq<Byte>, number: Byte, expected: Byte)
    | CancelledSegment(identifier: nat, eventId: nat)
    | Avail(providerAvailId: nat)
    | Dtmf(preroll: Byte, chars: seq<Byte>)
    | Opaque

  datatype Tagged = Tagged(tag: Byte, length: Byte, info: Info)

  datatype Decoded = Decoded(protocolVersion: Byte, encrypted: bool, ptsAdjustment: nat, commandType: Byte,
                             command: Command, descriptors: seq<Tagged>)

  function RestrictionsOf(flags: Byte): Restrictions {
    if BitOf(flags, 2) then Restrictions(true, true, true, 3)
    else Restrictions(BitOf(flags, 3), BitOf(flags, 4), BitOf(flags, 5), flags % 4)
  }

  /** The report for a live segment with at least three bytes behind its UPID. */
  function SegmentReport(s: Segment): Info
    requires WellFormed(s) && |s.tail| >= 3
  {
    SegmentInfo(Be32(s.prefix, 0), Be32(s.prefix, 4), s.tail[0],
                if BitOf(s.flags, 1) then Some(Be40(s.duration, 0)) else None,
                BitOf(s.flags, 2), RestrictionsOf(s.flags), s.upidType, s.upid, s.tail[1], s.tail[2])
  }

  /** Where a parser that has read up to `read` stops after skipping to the claimed end, if the
      buffer reaches that far. */
  function SkipTo(d: seq<Byte>, read: nat, claimed: nat): Option<nat> {
    if read >= claimed then Some(read) else if claimed > |d| then None else Some(claimed)
  }

  function LiveSegmentAt(d: seq<Byte>, at: nat): Option<Parsed<Info>>
    requires at <= |d|
  {
    var s :- SegmentOf(d[at..]);
    if |s.tail| < 3 then None else Some(Parsed(SegmentReport(s), |d| - |s.tail| + 3))
  }

  function SegmentBodyAt(d: seq<Byte>, at: nat): Option<Parsed<Info>>
    requires at <= |d|
  {
    if at + 9 > |d| then None
    else if BitOf(d[at + 8], 0) then Some(Parsed(CancelledSegment(Be32(d, at), Be32(d, at + 4)), at + 9))
    else LiveSegmentAt(d, at)
  }

  /** A segmentation_descriptor whose body starts at `at`. */
  function SegmentAt(d: seq<Byte>, at: nat, length: Byte): Option<Parsed<Info>>
    requires at <= |d|
  {
    var p :- SegmentBodyAt(d, at);
    var end :- SkipTo(d, p.end, at + length);
    Some(Parsed(p.item, end))
  }

  function DtmfAt(d: seq<Byte>, at: nat, length: Byte): Option<Parsed<Info>> {
    if at + 2 > |d| then None
    else
      var count := d[at + 1] as int / 32;
      if at + 2 + count > |d| then None
      else
        var end :- SkipTo(d, at + 2 + count, at + length);
        Some(Parsed(Dtmf(d[at], d[at + 2..at + 2 + count]), end))
  }

  function DescriptorAt(d: seq<Byte>, at: nat): Option<Parsed<Tagged>> {
    if at + 2 > |d| then None
    else
      var tag, length, body := d[at], d[at + 1], at + 2;
      var info :- if tag == SEGMENTATION && length >= 6 then SegmentAt(d, body, length)
                  else if tag == 0 && length >= 4 then
                    if body + 4 > |d| || body + length > |d| then None
                    else Some(Parsed(Avail(Be32(d, body)), body + length))
                  else if tag == 1 && length >= 1 then DtmfAt(d, body, length)
                  else if body + length > |d| then None
                  else Some(Parsed(Opaque, body + length));
      Some(Parsed(Tagged(tag, length, info.item), info.end))
  }

  lemma DescriptorAdvances(d: seq<Byte>, at: nat)
    ensures DescriptorAt(d, at).Some? ==> at + 2 <= DescriptorAt(d, at).value.end <= |d|
  {
  }

  /** The loop: at least 16 bits a turn, up to the claimed end or the first unreadable descriptor. */
  function DescriptorsAt(d: seq<Byte>, at: nat, end: nat): seq<Tagged>
    decreases end - at
  {
    if at >= end then []
    else
      match DescriptorAt(d, at)
      case None => []
      case Some(p) =>
        DescriptorAdvances(d, at);
        [p.item] + DescriptorsAt(d, p.end, end)
  }

  function Decode(d: seq<Byte>): Option<Decoded> {
    if |d| < HEADER_BYTES || d[0] != 0xFC then None
    else
      var command :- CommandAt(d, HEADER_BYTES, d[13]);
      if command.end + 2 > |d| then None
      else
        var start := command.end + 2;
        Some(Decoded(d[3], BitOf(d[4], 0), Be33(d, 4), d[13], command.item,
                     DescriptorsAt(d, start, start + Be16(d, command.end) % 0x400)))
  }

  // ---- The code of the tools decoder ----

  method ReadBytes(br: BitReader, count: nat, ghost at: nat) returns (r: Option<seq<Byte>>)
    requires br.bitpos == 8 * at
    modifies br`bitpos
    ensures r.Some? <==> count == 0 || at + count <= |br.data|
    ensures r.Some? && at + count <= |br.data| ==> r.value == br.data[at..at + count]
    ensures r.Some? ==> br.bitpos == 8 * (at + count) && |r.value| == count
  {
    var bytes: seq<Byte> := [];
    for i := 0 to count
      invariant br.bitpos == 8 * (at + i) && |bytes| == i
      invariant i > 0 ==> at + i <= |br.data|
      invariant at + i <= |br.data| ==> bytes == br.data[at..at + i]
    {
      var b :- ReadByte(br, at + i);
      bytes := bytes + [b];
    }
    return Some(bytes);
  }

  datatype Flags = Flags(program: bool, duration: bool, notRestricted: bool, restrictions: Restrictions)

  method ReadFlags(br: BitReader, ghost at: nat) returns (r: Option<Flags>)
    requires br.bitpos == 8 * at
    modifies br`bitpos
    ensures r.Some? <==> at < |br.data|
    ensures r.Some? ==> br.bitpos == 8 * (at + 1)
                        && var f := br.data[at];
                           r.value == Flags(BitOf(f, 0), BitOf(f, 1), BitOf(f, 2), RestrictionsOf(f))
  {
    var program :- ReadFlag(br, at, 0);
    var duration :- ReadFlag(br, at, 1);
    var notRestricted :- ReadFlag(br, at, 2);
    var restrictions := Restrictions(true, true, true, 3);
    if !notRestricted {
      var web :- ReadFlag(br, at, 3);
      var noBlackout :- ReadFlag(br, at, 4);
      var archive :- ReadFlag(br, at, 5);
      PeekLowTwo(br.data, at);
      var devices :- br.ReadBits(2);
      restrictions := Restrictions(web, noBlackout, archive, devices);
    } else {
      var _ :- br.SkipBits(5);
    }
    return Some(Flags(program, duration, notRestricted, restrictions));
  }

  method SkipComponents(br: BitReader, count: Byte, ghost at: nat) returns (r: Option<()>)
    requires br.bitpos == 8 * at
    modifies br`bitpos
    ensures r.Some? <==> count == 0 || at + 6 * count as int <= |br.data|
    ensures r.Some? ==> br.bitpos == 8 * (at + 6 * count as int)
  {
    for i := 0 to count as int
      invariant br.bitpos == 8 * (at + 6 * i)
      invariant i > 0 ==> at + 6 * i <= |br.data|
    {
      var _ :- ReadByte(br, at + 6 * i);
      var _ :- br.SkipBits(7);
      var _ :- br.ReadBits(33);
    }
    return Some(());
  }

  /** Everything from the component count up to the UPID type. */
  method SkipToUpid(br: BitReader, flags: Flags, ghost at: nat) returns (r: Option<Option<nat>>)
    requires at + 10 <= |br.data| && br.bitpos == 8 * (at + 10)
    requires flags.program == BitOf(br.data[at + 9], 0) && flags.duration == BitOf(br.data[at + 9], 1)
    requires !BitOf(br.data[at + 8], 0)
    modifies br`bitpos
    ensures var u := UpidAt(br.data[at..]);
            && (r.Some? ==> u.Some? && br.bitpos == 8 * (at + u.value))
            && (u.Some? && at + u.value <= |br.data| ==>
                  r == Some(if flags.duration then Some(Be40(br.data, at + u.value - 5)) else None))
  {
    ghost var here := at + 10;
    if !flags.program {
      var count :- ReadByte(br, here);
      var _ :- SkipComponents(br, count, here + 1);
      here := here + 1 + 6 * count as int;
    }
    var duration: Option<nat> := None;
    if flags.duration {
      if here + 5 <= |br.data| { PeekWord40(br.data, here); }
      var ticks :- br.ReadBits(40);
      duration := Some(ticks);
    }
    return Some(duration);
  }

  datatype Upid = Upid(typ: Byte, bytes: seq<Byte>)

  method ReadUpid(br: BitReader, ghost at: nat) returns (r: Option<Upid>)
    requires br.bitpos == 8 * at
    modifies br`bitpos
    ensures r.Some? <==> at + 2 <= |br.data| && at + 2 + br.data[at + 1] as int <= |br.data|
    ensures r.Some? ==> var e := at + 2 + br.data[at + 1] as int;
                        br.bitpos == 8 * e && r.value == Upid(br.data[at], br.data[at + 2..e])
  {
    var typ :- ReadByte(br, at);
    var length :- ReadByte(br, at + 1);
    var bytes :- ReadBytes(br, length, at + 2);
    return Some(Upid(typ, bytes));
  }

  /** The parts of a live segment, in the order both decoders meet them. */
  lemma SegmentParts(d: seq<Byte>, at: nat)
    requires at + 10 <= |d| && !BitOf(d[at + 8], 0)
    ensures var u := UpidAt(d[at..]);
            SegmentOf(d[at..]).Some? <==>
            u.Some? && at + u.value + 2 <= |d| && at + u.value + 2 + d[at + u.value + 1] as int <= |d|
    ensures SegmentOf(d[at..]).Some? ==>
              var s, u := SegmentOf(d[at..]).value, at + UpidAt(d[at..]).value;
              var e := u + 2 + d[u + 1] as int;
              && s.prefix == d[at..at + 9] && s.flags == d[at + 9] && s.upidType == d[u]
              && s.upid == d[u + 2..e] && s.tail == d[e..]
              && (BitOf(s.flags, 1) ==> s.duration == d[u - 5..u])
  {
    hide BitOf, SegmentOf, UpidAt;
    var rest := d[at..];
    SegmentPlaces(rest);
    if SegmentOf(rest).Some? {
      var u := UpidAt(rest).value;
      var e := u + 2 + rest[u + 1] as int;
      SliceOfSlice(d, at, |d|, 0, 9);
      SliceOfSlice(d, at, |d|, u + 2, e);
      SliceOfSlice(d, at, |d|, e, |rest|);
      SliceOfSlice(d, at, |d|, u - 5, u);
      assert rest == d[at..|d|] && rest[e..] == rest[e..|rest|];
    }
  }

  /** The fields of a segment as slices of its body. */
  lemma SegmentPlaces(body: seq<Byte>)
    requires |body| >= 10
    ensures var u := UpidAt(body);
            SegmentOf(body).Some? <==> u.Some? && u.value + 2 <= |body| && u.value + 2 + body[u.value + 1] as int <= |body|
    ensures SegmentOf(body).Some? ==>
              var s, u := SegmentOf(body).value, UpidAt(body).value;
              var e := u + 2 + body[u + 1] as int;
              && u >= 10 && s.prefix == body[0..9] && s.flags == body[9] && s.upidType == body[u]
              && s.upid == body[u + 2..e] && s.tail == body[e..]
              && (BitOf(s.flags, 1) ==> s.duration == body[u - 5..u])
  {
    hide BitOf;
  }

  lemma Be40Slice(d: seq<Byte>, at: nat)
    requires at + 5 <= |d|
    ensures Be40(d[at..at + 5], 0) == Be40(d, at)
  {
  }

  lemma Be32Prefix(d: seq<Byte>, at: nat)
    requires at + 9 <= |d|
    ensures Be32(d[at..at + 9], 0) == Be32(d, at) && Be32(d[at..at + 9], 4) == Be32(d, at + 4)
    ensures Be32(d[at..], 0) == Be32(d, at) && Be32(d[at..], 4) == Be32(d, at + 4)
  {
  }

  method ParseSegment(br: BitReader, length: Byte, ghost at: nat) returns (r: Option<Info>)
    requires br.bitpos == 8 * at && at <= |br.data|
    modifies br`bitpos
    ensures match SegmentAt(br.data, at, length)
            case None => r.None?
            case Some(p) => r == Some(p.item) && br.bitpos == 8 * p.end
  {
    hide SegmentBodyAt, SkipTo;
    var start := br.bitpos;
    var info :- ParseSegmentBody(br, at);
    var _ :- SkipRest(br, start, length, at, br.bitpos / 8);
    return Some(info);
  }

  method ParseSegmentBody(br: BitReader, ghost at: nat) returns (r: Option<Info>)
    requires br.bitpos == 8 * at && at <= |br.data|
    modifies br`bitpos
    ensures match SegmentBodyAt(br.data, at)
            case None => r.None?
            case Some(p) => r == Some(p.item) && br.bitpos == 8 * p.end && at <= p.end
  {
    hide LiveSegmentAt, BitOf, Be32;
    if at + 9 <= |br.data| {
      PeekWord32(br.data, at);
      PeekWord32(br.data, at + 4);
    }
    var identifier :- br.ReadBits(32);
    var eventId :- br.ReadBits(32);
    var cancel :- ReadFlag(br, at + 8, 0);
    var _ :- br.SkipBits(7);
    if cancel {
      return Some(CancelledSegment(identifier, eventId));
    }
    r := ParseLiveSegment(br, identifier, eventId, at);
  }

  /** Steps over whatever a descriptor's length claims beyond what was read. */
  method SkipRest(br: BitReader, start: nat, length: Byte, ghost at: nat, ghost read: nat) returns (r: Option<()>)
    requires start == 8 * at && br.bitpos == 8 * read && at <= read
    modifies br`bitpos
    ensures match SkipTo(br.data, read, at + length)
            case None => r.None?
            case Some(end) => r.Some? && br.bitpos == 8 * end
  {
    var bytesRead := (br.bitpos - start) / 8;
    if bytesRead < length {
      var _ :- br.SkipBits((length - bytesRead) * 8);
    }
    return Some(());
  }

  method ParseLiveSegment(br: BitReader, identifier: nat, eventId: nat, ghost at: nat) returns (r: Option<Info>)
    requires at + 9 <= |br.data| && br.bitpos == 8 * (at + 9) && !BitOf(br.data[at + 8], 0)
    requires identifier == Be32(br.data, at) && eventId == Be32(br.data, at + 4)
    modifies br`bitpos
    ensures match LiveSegmentAt(br.data, at)
            case None => r.None?
            case Some(p) => r == Some(p.item) && br.bitpos == 8 * p.end && at + 9 < p.end
  {
    hide LiveSegmentAt, BitOf, Be32, Be40, RestrictionsOf, UpidAt;
    LiveSegmentNeeds(br.data, at);
    var flags :- ReadFlags(br, at + 9);
    LiveSegmentParts(br.data, at);
    var duration :- SkipToUpid(br, flags, at);
    ghost var u := at + UpidAt(br.data[at..]).value;
    var upid :- ReadUpid(br, u);
    ghost var e := u + 2 + br.data[u + 1] as int;
    var typeId :- ReadByte(br, e);
    var number :- ReadByte(br, e + 1);
    var expected :- ReadByte(br, e + 2);
    return Some(SegmentInfo(identifier, eventId, typeId, duration, flags.notRestricted, flags.restrictions,
                            upid.typ, upid.bytes, number, expected));
  }

  /** The report of a live segment in terms of absolute byte positions. */
  lemma LiveSegmentParts(d: seq<Byte>, at: nat)
    requires at + 10 <= |d| && !BitOf(d[at + 8], 0)
    ensures UpidAt(d[at..]).Some? ==> UpidAt(d[at..]).value >= 10 + if BitOf(d[at + 9], 1) then 5 else 0
    ensures LiveSegmentAt(d, at) ==
            match UpidAt(d[at..])
            case None => None
            case Some(k) =>
              var u, f := at + k, d[at + 9];
              if u + 2 > |d| || u + 2 + d[u + 1] as int + 3 > |d| then None
              else
                var e := u + 2 + d[u + 1] as int;
                Some(Parsed(SegmentInfo(Be32(d, at), Be32(d, at + 4), d[e],
                                        if BitOf(f, 1) then Some(Be40(d, u - 5)) else None,
                                        BitOf(f, 2), RestrictionsOf(f), d[u], d[u + 2..e], d[e + 1], d[e + 2]),
                            e + 3))
  {
    SegmentParts(d, at);
    Be32Prefix(d, at);
    UpidFar(d, at);
    hide UpidAt, SegmentOf, Be32, RestrictionsOf;
    var k := UpidAt(d[at..]);
    if k.Some? && BitOf(d[at + 9], 1) && at + k.value <= |d| {
      Be40Slice(d, at + k.value - 5);
    }
  }

  lemma LiveSegmentNeeds(d: seq<Byte>, at: nat)
    requires at <= |d|
    ensures LiveSegmentAt(d, at).Some? ==> at + 10 <= |d|
  {
  }

  lemma UpidFar(d: seq<Byte>, at: nat)
    requires at <= |d|
    ensures UpidAt(d[at..]).Some? ==> UpidAt(d[at..]).value >= 10 + if BitOf(d[at + 9], 1) then 5 else 0
  {
  }

  method ParseDtmf(br: BitReader, length: Byte, ghost at: nat) returns (r: Option<Info>)
    requires br.bitpos == 8 * at && at <= |br.data|
    modifies br`bitpos
    ensures match DtmfAt(br.data, at, length)
            case None => r.None?
            case Some(p) => r == Some(p.item) && br.bitpos == 8 * p.end
  {
    var preroll :- ReadByte(br, at);
    if at + 1 < |br.data| { PeekHighThree(br.data, at + 1); }
    var count :- br.ReadBits(3);
    var _ :- br.SkipBits(5);
    var chars :- ReadBytes(br, count, at + 2);
    var bytesRead := 2 + count;
    if bytesRead < length {
      var _ :- br.SkipBits((length - bytesRead) * 8);
    }
    return Some(Dtmf(preroll, chars));
  }

  method ParseAvail(br: BitReader, length: Byte, ghost at: nat) returns (r: Option<Info>)
    requires br.bitpos == 8 * at && length >= 4
    modifies br`bitpos
    ensures r.Some? <==> at + length as int <= |br.data|
    ensures r.Some? ==> r.value == Avail(Be32(br.data, at)) && br.bitpos == 8 * (at + length as int)
  {
    if at + 4 <= |br.data| { PeekWord32(br.data, at); }
    var id :- br.ReadBits(32);
    if 4 < length {
      var _ :- br.SkipBits((length - 4) * 8);
    }
    return Some(Avail(id));
  }

  method ParseDescriptor(br: BitReader, ghost at: nat) returns (r: Option<Tagged>)
    requires br.bitpos == 8 * at
    modifies br`bitpos
    ensures match DescriptorAt(br.data, at)
            case None => r.None?
            case Some(p) => r == Some(p.item) && br.bitpos == 8 * p.end
  {
    hide SegmentAt, DtmfAt;
    var tag :- ReadByte(br, at);
    var length :- ReadByte(br, at + 1);
    var info;
    if tag == SEGMENTATION && length >= 6 {
      info :- ParseSegment(br, length, at + 2);
    } else if tag == 0 && length >= 4 {
      info :- ParseAvail(br, length, at + 2);
    } else if tag == 1 && length >= 1 {
      info :- ParseDtmf(br, length, at + 2);
    } else {
      var _ :- br.SkipBits(length as int * 8);
      info := Opaque;
    }
    return Some(Tagged(tag, length, info));
  }

  method ParseDescriptors(br: BitReader, length: nat, ghost at: nat) returns (descriptors: seq<Tagged>)
    requires br.bitpos == 8 * at
    modifies br`bitpos
    ensures descriptors == DescriptorsAt(br.data, at, at + length)
  {
    hide DescriptorAt;
    descriptors := [];
    ghost var here := at;
    var descEnd := br.bitpos + length * 8;
    while br.bitpos < descEnd
      invariant br.bitpos == 8 * here
      invariant DescriptorsAt(br.data, at, at + length) == descriptors + DescriptorsAt(br.data, here, at + length)
      decreases descEnd - br.bitpos
    {
      ghost var p := DescriptorAt(br.data, here);
      DescriptorAdvances(br.data, here);
      var d := ParseDescriptor(br, here);
      if d.None? {
        if br.bitpos < descEnd {
          var _ := br.SkipBits(descEnd - br.bitpos);
        }
        break;
      }
      descriptors := descriptors + [d.value];
      here := p.value.end;
    }
  }

  datatype Header = Header(protocolVersion: Byte, encrypted: bool, ptsAdjustment: nat, commandType: Byte)

  /** The fixed fields in front of the command, as the tools decoder reads them. */
  method ReadSectionHeader(br: BitReader) returns (r: Option<Header>)
    requires br.bitpos == 0
    modifies br`bitpos
    ensures r.Some? <==> |br.data| >= HEADER_BYTES
    ensures r.Some? ==> br.bitpos == 8 * HEADER_BYTES
                        && r.value == Header(br.data[3], BitOf(br.data[4], 0), Be33(br.data, 4), br.data[13])
  {
    hide Be33, BitOf, Peek;
    var front :- ReadToPts(br);
    var _ :- br.ReadBits(8);   // cw_index
    var _ :- br.ReadBits(12);  // tier
    var _ :- br.ReadBits(12);  // splice_command_length
    var commandType :- ReadByte(br, 13);
    return Some(Header(front.0, front.1, front.2, commandType));
  }

  method ReadToPts(br: BitReader) returns (r: Option<(Byte, bool, nat)>)
    requires br.bitpos == 0
    modifies br`bitpos
    ensures r.Some? <==> |br.data| >= 9
    ensures r.Some? ==> br.bitpos == 72 && r.value == (br.data[3], BitOf(br.data[4], 0), Be33(br.data, 4))
  {
    hide Be33, BitOf, Peek;
    var _ :- br.ReadBits(8);   // table_id
    var _ :- br.ReadBits(1);   // section_syntax_indicator
    var _ :- br.ReadBits(1);   // private_indicator
    var _ :- br.ReadBits(2);   // reserved
    var _ :- br.ReadBits(12);  // section_length
    var protocolVersion :- ReadByte(br, 3);
    var encrypted :- ReadFlag(br, 4, 0);
    var _ :- br.ReadBits(6);   // encryption_algorithm
    if |br.data| >= 9 { PeekWord33(br.data, 4); }
    var ptsAdjustment :- br.ReadBits(33);
    return Some((protocolVersion, encrypted, ptsAdjustment));
  }

  method DecodeScte35(bytes: seq<Byte>) returns (r: Option<Decoded>)
    ensures r == Decode(bytes)
  {
    hide CommandAt, Be33, BitOf, Peek, DescriptorsAt;
    if bytes == [] || bytes[0] != 0xFC {
      return None;
    }
    var br := new BitReader(bytes);
    var header :- ReadSectionHeader(br);
    var commandType := header.commandType;
    CommandAdvances(bytes, HEADER_BYTES, commandType);
    var command :- ParseCommandInfo(br, commandType, HEADER_BYTES);
    ghost var at := CommandAt(bytes, HEADER_BYTES, commandType).value.end;
    if at + 2 <= |bytes| { PeekWord16(bytes, at); }
    var word :- br.ReadBits(16);
    var descriptors := ParseDescriptors(br, word % 0x400, at + 2);
    return Some(Decoded(header.protocolVersion, header.encrypted, header.ptsAdjustment, commandType, command, descriptors));
  }

  // ---- What the event monitor extracts ----

  /** `Scte35Info`; the default one stands for input that is no splice_info_section. */
  datatype Details = Details(command: Option<Byte>, typeId: Option<Byte>, upid: Option<Upid>, pts: Option<nat>)

  /** The monitor's reading of one segmentation_descriptor whose body starts at `at` and is said to
      end at `end`: the details so far, and where it stops. */
  function DetailSegmentAt(d: seq<Byte>, at: nat, end: nat, info: Details): Option<Parsed<Details>>
    requires at <= |d|
  {
    if at + 9 > |d| then None
    else if BitOf(d[at + 8], 0) then Some(Parsed(info, at + 9))
    else
      var s :- SegmentOf(d[at..]);
      var read := |d| - |s.tail|;
      var withUpid := if s.upid == [] then info else info.(upid := Some(Upid(s.upidType, s.upid)));
      if read + 3 > end then Some(Parsed(withUpid, read))
      else if |s.tail| < 3 then None
      else Some(Parsed(withUpid.(typeId := Some(s.tail[0])), read + 3))
  }

  function DetailAt(d: seq<Byte>, at: nat, info: Details): Option<Parsed<Details>> {
    if at + 2 > |d| then None
    else
      var body, end := at + 2, at + 2 + d[at + 1];
      var p :- if d[at] == SEGMENTATION then DetailSegmentAt(d, body, end, info) else Some(Parsed(info, body));
      var e :- SkipTo(d, p.end, end);
      Some(Parsed(p.item, e))
  }

  lemma DetailAdvances(d: seq<Byte>, at: nat, info: Details)
    ensures DetailAt(d, at, info).Some? ==> at + 2 <= DetailAt(d, at, info).value.end <= |d|
  {
  }

  function DetailsAt(d: seq<Byte>, at: nat, end: nat, info: Details): Option<Details>
    decreases end - at
  {
    if at + 2 > end then Some(info)
    else
      DetailAdvances(d, at, info);
      var p :- DetailAt(d, at, info);
      DetailsAt(d, p.end, end, p.item)
  }

  function DecodeDetails(d: seq<Byte>): Option<Details> {
    if d == [] || d[0] != 0xFC then Some(Details(None, None, None, None))
    else if |d| < HEADER_BYTES then None
    else
      var command :- CommandAt(d, HEADER_BYTES, d[13]);
      if command.end + 2 > |d| then None
      else
        var start := command.end + 2;
        DetailsAt(d, start, start + Be16(d, command.end) % 0x400,
                  Details(Some(d[13]), None, None, CommandPts(command.item)))
  }

  // ---- The code of the monitor's decoder ----

  method SkipToUpidBlind(br: BitReader, program: bool, duration: bool, ghost at: nat) returns (r: Option<()>)
    requires at + 10 <= |br.data| && br.bitpos == 8 * (at + 10)
    requires program == BitOf(br.data[at + 9], 0) && duration == BitOf(br.data[at + 9], 1)
    requires !BitOf(br.data[at + 8], 0)
    modifies br`bitpos
    ensures var u := UpidAt(br.data[at..]);
            && (r.Some? ==> u.Some? && br.bitpos == 8 * (at + u.value))
            && (r.None? ==> u.None? || at + u.value > |br.data|)
  {
    ghost var here := at + 10;
    if !program {
      var count :- ReadByte(br, here);
      here := here + 1;
      for i := 0 to count as int
        invariant br.bitpos == 8 * (here + 6 * i)
      {
        var _ :- br.SkipBits(8 + 7 + 33);
      }
    }
    if duration {
      var _ :- br.SkipBits(40);
    }
    return Some(());
  }

  method ParseDetailSegment(br: BitReader, info: Details, descEnd: nat, ghost at: nat, ghost end: nat)
    returns (r: Option<Details>)
    requires br.bitpos == 8 * at && at <= |br.data| && descEnd == 8 * end
    modifies br`bitpos
    ensures match DetailSegmentAt(br.data, at, end, info)
            case None => r.None?
            case Some(p) => r == Some(p.item) && br.bitpos == 8 * p.end
  {
    hide BitOf, UpidAt, SegmentOf, Peek;
    SegmentNeeds(br.data, at);
    var _ :- br.ReadBits(32);
    var _ :- br.ReadBits(32);
    var cancel :- ReadFlag(br, at + 8, 0);
    var _ :- br.SkipBits(7);
    if cancel {
      return Some(info);
    }
    var upid :- ReadToUpid(br, at);
    SegmentParts(br.data, at);
    var now := info;
    if |upid.bytes| > 0 {
      now := info.(upid := Some(upid));
    }
    if br.bitpos + 24 <= descEnd {
      var typeId :- ReadByte(br, br.bitpos / 8);
      now := now.(typeId := Some(typeId));
      var _ :- br.SkipBits(16);
    }
    return Some(now);
  }

  lemma SegmentNeeds(d: seq<Byte>, at: nat)
    requires at <= |d|
    ensures SegmentOf(d[at..]).Some? ==> at + 10 <= |d|
  {
  }

  method ReadToUpid(br: BitReader, ghost at: nat) returns (r: Option<Upid>)
    requires at + 9 <= |br.data| && br.bitpos == 8 * (at + 9) && !BitOf(br.data[at + 8], 0)
    modifies br`bitpos
    ensures match SegmentOf(br.data[at..])
            case None => r.None?
            case Some(s) => r == Some(Upid(s.upidType, s.upid)) && br.bitpos == 8 * (|br.data| - |s.tail|)
  {
    hide BitOf, UpidAt, SegmentOf;
    SegmentNeeds(br.data, at);
    var program :- ReadFlag(br, at + 9, 0);
    var duration :- ReadFlag(br, at + 9, 1);
    var _ :- ReadFlag(br, at + 9, 2);
    var _ :- br.SkipBits(5);
    SegmentParts(br.data, at);
    var _ :- SkipToUpidBlind(br, program, duration, at);
    r := ReadUpid(br, at + UpidAt(br.data[at..]).value);
  }

  method ParseDetail(br: BitReader, info: Details, ghost at: nat) returns (r: Option<Details>)
    requires br.bitpos == 8 * at
    modifies br`bitpos
    ensures match DetailAt(br.data, at, info)
            case None => r.None?
            case Some(p) => r == Some(p.item) && br.bitpos == 8 * p.end
  {
    hide DetailSegmentAt;
    var tag :- ReadByte(br, at);
    var length :- ReadByte(br, at + 1);
    var descEnd := br.bitpos + length as int * 8;
    var now := info;
    if tag == SEGMENTATION {
      now :- ParseDetailSegment(br, info, descEnd, at + 2, at + 2 + length as int);
    }
    if br.bitpos < descEnd {
      var _ :- br.SkipBits(descEnd - br.bitpos);
    }
    return Some(now);
  }

  method ParseDetails(br: BitReader, length: nat, info: Details, ghost at: nat) returns (r: Option<Details>)
    requires br.bitpos == 8 * at
    modifies br`bitpos
    ensures r == DetailsAt(br.data, at, at + length, info)
  {
    hide DetailAt;
    var now := info;
    ghost var here := at;
    var loopEnd := br.bitpos + length * 8;
    while br.bitpos + 16 <= loopEnd
      invariant br.bitpos == 8 * here
      invariant DetailsAt(br.data, at, at + length, info) == DetailsAt(br.data, here, at + length, now)
      decreases loopEnd - br.bitpos
    {
      ghost var p := DetailAt(br.data, here, now);
      DetailAdvances(br.data, here, now);
      now :- ParseDetail(br, now, here);
      here := p.value.end;
    }
    return Some(now);
  }

  method DecodeScte35Details(bytes: seq<Byte>) returns (r: Option<Details>)
    ensures r == DecodeDetails(bytes)
  {
    hide CommandAt, CommandPts, DetailsAt;
    if bytes == [] || bytes[0] != 0xFC {
      return Some(Details(None, None, None, None));
    }
    var br := new BitReader(bytes);
    var commandType :- SkipHeader(br);
    CommandAdvances(bytes, HEADER_BYTES, commandType);
    var pts := ParsePts(br, commandType);
    ghost var command := CommandAt(bytes, HEADER_BYTES, commandType);
    if command.Some? && command.value.end + 2 <= |bytes| { PeekWord16(bytes, command.value.end); }
    var word :- br.ReadBits(16);
    r := ParseDetails(br, word % 0x400, Details(Some(commandType), None, None, pts), br.bitpos / 8);
  }

  method SkipHeader(br: BitReader) returns (r: Option<Byte>)
    requires br.bitpos == 0
    modifies br`bitpos
    ensures r.Some? <==> |br.data| >= HEADER_BYTES
    ensures r.Some? ==> r.value == br.data[13] && br.bitpos == 8 * HEADER_BYTES
  {
    var _ :- br.ReadBits(8);
    var _ :- br.SkipBits(1 + 1 + 2 + 12);
    var _ :- br.SkipBits(8 + 1 + 6 + 33 + 8 + 12);
    var _ :- br.ReadBits(12);
    r := ReadByte(br, 13);
  }

  /** An unreadable command yields no PTS; the loop length behind it then cannot be read either. */
  method ParsePts(br: BitReader, commandType: Byte) returns (pts: Option<nat>)
    requires |br.data| >= HEADER_BYTES && br.bitpos == 8 * HEADER_BYTES
    modifies br`bitpos
    ensures match CommandAt(br.data, HEADER_BYTES, commandType)
            case None => br.bitpos + 16 > 8 * |br.data|
            case Some(p) => pts == CommandPts(p.item) && br.bitpos == 8 * p.end
  {
    hide SpliceInsertAt, SpliceTimeAt, FirstPts;
    pts := None;
    if commandType == SPLICE_INSERT {
      var p := ParseSpliceInsertPts(br, HEADER_BYTES);
      pts := if p.Some? then p.value else None;
    } else if commandType == TIME_SIGNAL {
      var p := ParseSpliceTime(br, HEADER_BYTES);
      pts := if p.Some? then p.value else None;
    }
  }
}
