/** The three bit-level walks over header and command: `parse_command_info` and
    `locate_descriptor_loop` / `locate_break_duration` of src/tools_api.rs, and
    `parse_splice_insert_pts` / `parse_splice_time` of src/esam.rs. */
module Walkers {
  import opened Bytes
  import opened BitIO
  import opened Layout

  /** Reads one flag, bit `i` of byte `k`. */
  method ReadFlag(br: BitReader, ghost k: nat, ghost i: nat) returns (r: Option<bool>)
    requires br.bitpos == 8 * k + i && i < 8
    modifies br`bitpos
    ensures r.Some? <==> k < |br.data|
    ensures r.None? ==> br.bitpos == old(br.bitpos)
    ensures r.Some? ==> br.bitpos == 8 * k + i + 1 && r.value == BitOf(br.data[k], i)
  {
    if k < |br.data| { PeekBit(br.data, k, i); }
    var v :- br.ReadBits(1);
    return Some(v == 1);
  }

  /** Reads an aligned byte. */
  method ReadByte(br: BitReader, ghost at: nat) returns (r: Option<Byte>)
    requires br.bitpos == 8 * at
    modifies br`bitpos
    ensures r.Some? <==> at < |br.data|
    ensures r.Some? ==> r.value == br.data[at] && br.bitpos == 8 * (at + 1)
    ensures r.None? ==> br.bitpos / 8 >= |br.data|
  {
    if at < |br.data| { PeekByte(br.data, at); }
    var v :- br.ReadBits(8);
    return Some(v);
  }

  /** `skip_splice_time`, `parse_splice_time` and the splice-time branches of `parse_command_info`. */
  method ParseSpliceTime(br: BitReader, ghost at: nat) returns (r: Option<Option<nat>>)
    requires br.bitpos == 8 * at && at <= |br.data|
    modifies br`bitpos
    ensures match SpliceTimeAt(br.data, at)
            case None => r.None?
            case Some(p) => r == Some(p.item) && br.bitpos == 8 * p.end
    ensures r.None? ==> br.bitpos / 8 >= |br.data|
  {
    var timeSpecified :- ReadFlag(br, at, 0);
    if timeSpecified {
      var _ :- br.SkipBits(6);
      if at + 5 <= |br.data| { PeekWord33(br.data, at); }
      var pts :- br.ReadBits(33);
      return Some(Some(pts));
    } else {
      var _ :- br.SkipBits(7);
      return Some(None);
    }
  }

  /** The component loop of `parse_command_info`. */
  method ParseComponents(br: BitReader, count: Byte, immediate: bool, ghost at: nat)
    returns (r: Option<seq<Component>>)
    requires br.bitpos == 8 * at && at <= |br.data|
    modifies br`bitpos
    ensures match ComponentsAt(br.data, at, count, immediate)
            case None => r.None?
            case Some(p) => r == Some(p.item) && br.bitpos == 8 * p.end
  {
    var components := [];
    ghost var here := at;
    for i := 0 to count
      invariant here <= |br.data| && br.bitpos == 8 * here
      invariant ComponentsAt(br.data, at, i, immediate) == Some(Parsed(components, here))
    {
      ghost var component := ComponentAt(br.data, here, immediate);
      if component.None? { NoComponents(br.data, at, i, count, immediate); }
      var tag :- ReadByte(br, here);
      var pts := None;
      if !immediate {
        pts :- ParseSpliceTime(br, here + 1);
      }
      components := components + [Component(tag, pts)];
      here := component.value.end;
    }
    return Some(components);
  }

  /** Once one component is missing, so is every longer list. */
  lemma {:induction false} NoComponents(d: seq<Byte>, at: nat, i: nat, count: nat, immediate: bool)
    requires i < count
    requires ComponentsAt(d, at, i, immediate).Some?
    requires ComponentAt(d, ComponentsAt(d, at, i, immediate).value.end, immediate).None?
    ensures ComponentsAt(d, at, count, immediate).None?
  {
    if i + 1 < count {
      NoComponents(d, at, i, count - 1, immediate);
    }
  }

  method ParseCommandInfo(br: BitReader, commandType: Byte, ghost at: nat) returns (r: Option<Command>)
    requires br.bitpos == 8 * at && at <= |br.data|
    modifies br`bitpos
    ensures match CommandAt(br.data, at, commandType)
            case None => r.None?
            case Some(p) => r == Some(p.item) && br.bitpos == 8 * p.end
  {
    if commandType == SPLICE_NULL {
      return Some(SpliceNull);
    } else if commandType == SPLICE_INSERT {
      r := ParseSpliceInsert(br, at);
    } else if commandType == TIME_SIGNAL {
      var pts :- ParseSpliceTime(br, at);
      return Some(TimeSignal(pts));
    } else if commandType == BANDWIDTH_RESERVATION {
      return Some(BandwidthReservation);
    } else {
      return Some(Unparsed);
    }
  }

  /** The fields all three walkers read first. */
  datatype InsertHead =
    | Cancelled(eventId: nat)
    | Live(eventId: nat, outOfNetwork: bool, programSplice: bool, durationFlag: bool, immediate: bool)

  function InsertHeadAt(d: seq<Byte>, at: nat): Option<InsertHead> {
    if at + 5 > |d| then None
    else if BitOf(d[at + 4], 0) then Some(Cancelled(Be32(d, at)))
    else if at + 6 > |d| then None
    else
      var f := d[at + 5];
      Some(Live(Be32(d, at), BitOf(f, 0), BitOf(f, 1), BitOf(f, 2), BitOf(f, 3)))
  }

  method ReadInsertHead(br: BitReader, ghost at: nat) returns (r: Option<InsertHead>)
    requires br.bitpos == 8 * at && at <= |br.data|
    modifies br`bitpos
    ensures r == InsertHeadAt(br.data, at)
    ensures r.None? ==> br.bitpos / 8 >= |br.data|
    ensures r.Some? ==> br.bitpos == 8 * (at + if r.value.Cancelled? then 5 else 6)
  {
    hide Be32, BitOf, Peek;
    if at + 4 <= |br.data| { PeekWord32(br.data, at); }
    var eventId :- br.ReadBits(32);
    var cancel :- ReadFlag(br, at + 4, 0);
    var _ :- br.SkipBits(7);
    if cancel {
      return Some(Cancelled(eventId));
    }
    var outOfNetwork :- ReadFlag(br, at + 5, 0);
    var programSplice :- ReadFlag(br, at + 5, 1);
    var durationFlag :- ReadFlag(br, at + 5, 2);
    var immediate :- ReadFlag(br, at + 5, 3);
    var _ :- br.SkipBits(4);
    return Some(Live(eventId, outOfNetwork, programSplice, durationFlag, immediate));
  }

  method ParseSpliceInsert(br: BitReader, ghost at: nat) returns (r: Option<Command>)
    requires br.bitpos == 8 * at && at <= |br.data|
    modifies br`bitpos
    ensures match SpliceInsertAt(br.data, at)
            case None => r.None?
            case Some(p) => r == Some(p.item) && br.bitpos == 8 * p.end
  {
    var head :- ReadInsertHead(br, at);
    if head.Cancelled? {
      return Some(CancelledInsert(head.eventId));
    }
    var Live(eventId, outOfNetwork, programSplice, durationFlag, immediate) := head;
    ghost var times := TimesAt(br.data, at + 6, programSplice, immediate);
    TimesAdvance(br.data, at + 6, programSplice, immediate);
    var t :- ParseTimes(br, programSplice, immediate, at + 6);
    ghost var here := times.value.end;

    var breakDuration: Option<BreakDuration> := None;
    if durationFlag {
      breakDuration :- ParseBreakDuration(br, here);
      here := here + 5;
    }
    var avail :- ReadAvail(br, here);
    return Some(SpliceInsert(eventId, outOfNetwork, programSplice, durationFlag, immediate,
                             t, breakDuration, avail.0, avail.1, avail.2));
  }

  method ReadAvail(br: BitReader, ghost at: nat) returns (r: Option<(nat, Byte, Byte)>)
    requires br.bitpos == 8 * at
    modifies br`bitpos
    ensures r.Some? <==> at + 4 <= |br.data|
    ensures r.Some? ==> r.value == (Be16(br.data, at), br.data[at + 2], br.data[at + 3])
                        && br.bitpos == 8 * (at + 4)
  {
    if at + 2 <= |br.data| { PeekWord16(br.data, at); }
    var uniqueProgramId :- br.ReadBits(16);
    var availNum :- ReadByte(br, at + 2);
    var availsExpected :- ReadByte(br, at + 3);
    return Some((uniqueProgramId, availNum, availsExpected));
  }

  /** The splice time or the component loop of a splice_insert. */
  method ParseTimes(br: BitReader, programSplice: bool, immediate: bool, ghost at: nat) returns (r: Option<Times>)
    requires br.bitpos == 8 * at && at <= |br.data|
    modifies br`bitpos
    ensures match TimesAt(br.data, at, programSplice, immediate)
            case None => r.None?
            case Some(p) => r == Some(p.item) && br.bitpos == 8 * p.end
  {
    var pts: Option<nat> := None;
    if programSplice && !immediate {
      pts :- ParseSpliceTime(br, at);
    }
    var components := [];
    if !programSplice {
      var count :- ReadByte(br, at);
      components :- ParseComponents(br, count, immediate, at + 1);
    }
    return Some(Times(pts, components));
  }

  method ParseBreakDuration(br: BitReader, ghost at: nat) returns (r: Option<Option<BreakDuration>>)
    requires br.bitpos == 8 * at && at <= |br.data|
    modifies br`bitpos
    ensures match BreakAt(br.data, at, true)
            case None => r.None?
            case Some(p) => r == Some(p.item) && br.bitpos == 8 * p.end
  {
    var autoReturn :- ReadFlag(br, at, 0);
    var _ :- br.SkipBits(6);
    if at + 5 <= |br.data| { PeekWord33(br.data, at); }
    var ticks :- br.ReadBits(33);
    return Some(Some(BreakDuration(autoReturn, ticks)));
  }

  /** The fixed fields in front of splice_command_type. */
  method ReadHeader(br: BitReader) returns (r: Option<Byte>)
    requires br.bitpos == 0
    modifies br`bitpos
    ensures r.Some? <==> |br.data| >= HEADER_BYTES
    ensures r.Some? ==> r.value == br.data[13] && br.bitpos == 8 * HEADER_BYTES
  {
    var _ :- br.ReadBits(8);   // table_id
    var _ :- br.ReadBits(1);   // section_syntax_indicator
    var _ :- br.ReadBits(1);   // private_indicator
    var _ :- br.ReadBits(2);   // sap_type / reserved
    var _ :- br.ReadBits(12);  // section_length
    var _ :- br.ReadBits(8);   // protocol_version
    var _ :- br.ReadBits(1);   // encrypted_packet
    var _ :- br.ReadBits(6);   // encryption_algorithm
    var _ :- br.ReadBits(33);  // pts_adjustment
    var _ :- br.ReadBits(8);   // cw_index
    var _ :- br.ReadBits(12);  // tier
    var _ :- br.ReadBits(12);  // splice_command_length
    r := ReadByte(br, 13);
  }

  /** The exit for a misaligned command is unreachable: the layout has no such case. */
  method LocateDescriptorLoop(bytes: seq<Byte>) returns (r: Option<LoopSpan>)
    ensures r == LoopAt(bytes)
  {
    if |bytes| < 15 || bytes[0] != 0xFC || BitOf(bytes[4], 0) {
      return None;
    }
    var br := new BitReader(bytes);
    var commandType :- ReadHeader(br);
    CommandAdvances(bytes, HEADER_BYTES, commandType);
    var _ :- ParseCommandInfo(br, commandType, HEADER_BYTES);
    if br.bitpos % 8 != 0 {
      assert false;
      return None;
    }
    var word := br.bitpos / 8;
    if word + 2 > |bytes| {
      return None;
    }
    var end := word + 2 + Be16(bytes, word) % 0x400;
    if end + 4 > |bytes| {
      return None;
    }
    return Some(LoopSpan(word, word + 2, end));
  }

  method SkipTimes(br: BitReader, programSplice: bool, immediate: bool, ghost at: nat) returns (r: Option<()>)
    requires br.bitpos == 8 * at && at <= |br.data|
    modifies br`bitpos
    ensures match TimesAt(br.data, at, programSplice, immediate)
            case None => r.None?
            case Some(p) => r.Some? && br.bitpos == 8 * p.end
  {
    if programSplice && !immediate {
      var _ :- ParseSpliceTime(br, at);
    } else if !programSplice {
      var count :- ReadByte(br, at);
      var _ :- ParseComponents(br, count, immediate, at + 1);
    }
    return Some(());
  }

  method LocateBreakDuration(bytes: seq<Byte>) returns (r: Option<nat>)
    ensures r == BreakDurationAt(bytes)
  {
    if |bytes| < 15 || bytes[0] != 0xFC || BitOf(bytes[4], 0) {
      return None;
    }
    var br := new BitReader(bytes);
    var commandType :- ReadHeader(br);
    if commandType != SPLICE_INSERT {
      return None;
    }
    var head :- ReadInsertHead(br, 14);
    if head.Cancelled? || !head.durationFlag {
      return None;
    }
    var Live(_, _, programSplice, _, immediate) := head;
    TimesAdvance(bytes, 20, programSplice, immediate);
    var _ :- SkipTimes(br, programSplice, immediate, 20);
    if br.bitpos % 8 != 0 {
      assert false;
      return None;
    }
    return Some(br.bitpos / 8);
  }

  // ---- The monitor's walk ----

  /** The first PTS among the components' splice times. */
  function FirstPts(components: seq<Component>): Option<nat> {
    if components == [] then None
    else if FirstPts(components[..|components| - 1]).Some? then FirstPts(components[..|components| - 1])
    else components[|components| - 1].pts
  }

  /** It is that of the first component that has one. */
  lemma {:induction false} FirstPtsMeans(cs: seq<Component>)
    ensures FirstPts(cs).None? <==> forall i :: 0 <= i < |cs| ==> cs[i].pts.None?
    ensures FirstPts(cs).Some? ==>
              exists i :: 0 <= i < |cs| && cs[i].pts == FirstPts(cs) && forall j :: 0 <= j < i ==> cs[j].pts.None?
  {
    if cs != [] {
      var front := cs[..|cs| - 1];
      FirstPtsMeans(front);
      assert forall i :: 0 <= i < |front| ==> front[i] == cs[i];
      assert cs[|cs| - 1] == cs[|front|];
      if FirstPts(front).Some? {
        var i :| 0 <= i < |front| && front[i].pts == FirstPts(front) && forall j :: 0 <= j < i ==> front[j].pts.None?;
        assert cs[i].pts == FirstPts(cs);
      } else if FirstPts(cs).Some? {
        assert cs[|front|].pts == FirstPts(cs);
      }
    }
  }

  /** The PTS the monitor reports for a command. */
  function CommandPts(c: Command): Option<nat> {
    match c
    case SpliceInsert(_, _, programSplice, _, _, times, _, _, _, _) =>
      if programSplice then times.pts else FirstPts(times.components)
    case TimeSignal(pts) => pts
    case _ => None
  }

  /** `parse_splice_insert_pts`: ends at the same bit as `parse_command_info`. An unreadable
      component time is ignored inside the loop, but the fields behind it then fail. */
  method ParseSpliceInsertPts(br: BitReader, ghost at: nat) returns (r: Option<Option<nat>>)
    requires br.bitpos == 8 * at && at <= |br.data|
    modifies br`bitpos
    ensures match SpliceInsertAt(br.data, at)
            case None => r.None? && br.bitpos + 16 > 8 * |br.data|
            case Some(p) => r == Some(CommandPts(p.item)) && br.bitpos == 8 * p.end
  {
    var head :- ReadInsertHead(br, at);
    if head.Cancelled? {
      return Some(None);
    }
    var Live(_, _, programSplice, durationFlag, immediate) := head;
    ghost var times := TimesAt(br.data, at + 6, programSplice, immediate);
    TimesAdvance(br.data, at + 6, programSplice, immediate);
    var pts :- ParseTimesPts(br, programSplice, immediate, at + 6);
    var _ :- SkipTail(br, durationFlag);
    return Some(pts);
  }

  /** The fields behind the splice times, which must be consumed to reach the descriptor loop. */
  method SkipTail(br: BitReader, durationFlag: bool) returns (r: Option<()>)
    modifies br`bitpos
    ensures r.Some? <==> old(br.bitpos) + (if durationFlag then 72 else 32) <= 8 * |br.data|
    ensures r.Some? ==> br.bitpos == old(br.bitpos) + if durationFlag then 72 else 32
    ensures r.None? ==> br.bitpos + 16 > 8 * |br.data|
  {
    if durationFlag {
      var _ :- br.ReadBits(1);
      var _ :- br.SkipBits(6);
      var _ :- br.ReadBits(33);
    }
    var _ :- br.ReadBits(16);
    var _ :- br.ReadBits(8);
    var _ :- br.ReadBits(8);
    return Some(());
  }

  method ParseTimesPts(br: BitReader, programSplice: bool, immediate: bool, ghost at: nat)
    returns (r: Option<Option<nat>>)
    requires br.bitpos == 8 * at && at <= |br.data|
    modifies br`bitpos
    ensures match TimesAt(br.data, at, programSplice, immediate)
            case None => br.bitpos / 8 >= |br.data|
            case Some(p) => br.bitpos == 8 * p.end
                            && r == Some(if programSplice then p.item.pts else FirstPts(p.item.components))
  {
    var pts := None;
    if programSplice && !immediate {
      pts :- ParseSpliceTime(br, at);
    } else if !programSplice {
      var count :- ReadByte(br, at);
      pts :- ParseComponentPts(br, count, immediate, at + 1);
    }
    return Some(pts);
  }

  /** One turn of the component loop of `parse_splice_insert_pts`: an unreadable tag stops it, an
      unreadable time does not. */
  method ReadComponentPts(br: BitReader, immediate: bool, pts: Option<nat>, ghost here: nat)
    returns (r: Option<Option<nat>>)
    requires (br.bitpos == 8 * here && here <= |br.data|) || br.bitpos / 8 >= |br.data|
    modifies br`bitpos
    ensures old(br.bitpos) / 8 >= |br.data| ==> r.None? && br.bitpos / 8 >= |br.data|
    ensures old(br.bitpos) == 8 * here && here <= |br.data| ==>
              match ComponentAt(br.data, here, immediate)
              case None => br.bitpos / 8 >= |br.data|
              case Some(p) => r == Some(if pts.Some? then pts else p.item.pts) && br.bitpos == 8 * p.end
  {
    hide Be33, BitOf;
    var _ :- br.ReadBits(8);   // component_tag
    if immediate {
      return Some(pts);
    }
    var time := ParseSpliceTime(br, here + 1);
    if time.Some? && time.value.Some? && pts.None? {
      return Some(time.value);
    }
    return Some(pts);
  }

  /** The component loop of `parse_splice_insert_pts`. */
  method ParseComponentPts(br: BitReader, count: Byte, immediate: bool, ghost at: nat)
    returns (r: Option<Option<nat>>)
    requires br.bitpos == 8 * at && at <= |br.data|
    modifies br`bitpos
    ensures match ComponentsAt(br.data, at, count, immediate)
            case None => br.bitpos / 8 >= |br.data|
            case Some(p) => r == Some(FirstPts(p.item)) && br.bitpos == 8 * p.end
  {
    hide ComponentAt;
    var pts: Option<nat> := None;
    ghost var here: nat := at;
    ghost var components := [];
    ghost var lost := false;
    for i := 0 to count
      invariant !lost ==> here <= |br.data| && br.bitpos == 8 * here
                          && ComponentsAt(br.data, at, i, immediate) == Some(Parsed(components, here))
                          && pts == FirstPts(components)
      invariant lost ==> ComponentsAt(br.data, at, count, immediate).None? && br.bitpos / 8 >= |br.data|
    {
      ghost var component := ComponentAt(br.data, here, immediate);
      if !lost && component.None? { NoComponents(br.data, at, i, count, immediate); }
      ComponentsAdvance(br.data, at, i + 1, immediate);
      pts :- ReadComponentPts(br, immediate, pts, here);
      if component.None? {
        lost := true;
      } else if !lost {
        components := components + [component.value.item];
        assert components[..|components| - 1] + [component.value.item] == components;
        here := component.value.end;
      }
    }
    return Some(pts);
  }
}
