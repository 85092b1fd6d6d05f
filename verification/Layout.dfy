/** The byte layout of a splice_info_section, as ANSI/SCTE 35 2020 draws it: section 9.6 for the
    header, 9.7.3 splice_insert, 9.7.4 time_signal, 9.8 splice_time and break_duration.
    Every command the code walks is a whole number of bytes, so the layout needs no bit cursor;
    the bit-level walkers are proved against it. Commands the code does not walk, splice_schedule
    and private_command among them, count as empty here as they do there: their first bytes are
    taken for the loop word, so for those two what is proved of loops describes the code, not the
    standard. */
module Layout {
  import opened Bytes

  const HEADER_BYTES: nat := 14

  const SPLICE_NULL: Byte := 0x00
  const SPLICE_INSERT: Byte := 0x05
  const TIME_SIGNAL: Byte := 0x06
  const BANDWIDTH_RESERVATION: Byte := 0x07

  /** A decoded item and the byte offset just behind it. */
  datatype Parsed<+T> = Parsed(item: T, end: nat)

  datatype Component = Component(tag: Byte, pts: Option<nat>)

  datatype Times = Times(pts: Option<nat>, components: seq<Component>)

  datatype BreakDuration = BreakDuration(autoReturn: bool, ticks: nat)

  datatype Command =
    | SpliceNull
    | CancelledInsert(eventId: nat)
    | SpliceInsert(eventId: nat, outOfNetwork: bool, programSplice: bool, durationFlag: bool, immediate: bool,
                   times: Times, breakDuration: Option<BreakDuration>,
                   uniqueProgramId: nat, availNum: Byte, availsExpected: Byte)
    | TimeSignal(pts: Option<nat>)
    | BandwidthReservation
    | Unparsed

  /** splice_time(). */
  function SpliceTimeAt(d: seq<Byte>, at: nat): Option<Parsed<Option<nat>>> {
    if at >= |d| then None
    else if !BitOf(d[at], 0) then Some(Parsed(None, at + 1))
    else if at + 5 > |d| then None
    else Some(Parsed(Some(Be33(d, at)), at + 5))
  }

  /** One entry of the component loop. */
  function ComponentAt(d: seq<Byte>, at: nat, immediate: bool): Option<Parsed<Component>> {
    if at >= |d| then None
    else if immediate then Some(Parsed(Component(d[at], None), at + 1))
    else
      var t :- SpliceTimeAt(d, at + 1);
      Some(Parsed(Component(d[at], t.item), t.end))
  }

  function ComponentsAt(d: seq<Byte>, at: nat, count: nat, immediate: bool): Option<Parsed<seq<Component>>> {
    if count == 0 then Some(Parsed([], at))
    else
      var front :- ComponentsAt(d, at, count - 1, immediate);
      var last :- ComponentAt(d, front.end, immediate);
      Some(Parsed(front.item + [last.item], last.end))
  }

  /** The flag-dependent middle of splice_insert(): one splice time, a component loop, or nothing. */
  function TimesAt(d: seq<Byte>, at: nat, programSplice: bool, immediate: bool): Option<Parsed<Times>> {
    if programSplice then
      if immediate then Some(Parsed(Times(None, []), at))
      else
        var t :- SpliceTimeAt(d, at);
        Some(Parsed(Times(t.item, []), t.end))
    else if at >= |d| then None
    else
      var c :- ComponentsAt(d, at + 1, d[at], immediate);
      Some(Parsed(Times(None, c.item), c.end))
  }

  /** break_duration(), when the flag says it is there. */
  function BreakAt(d: seq<Byte>, at: nat, present: bool): Option<Parsed<Option<BreakDuration>>> {
    if !present then Some(Parsed(None, at))
    else if at + 5 > |d| then None
    else Some(Parsed(Some(BreakDuration(BitOf(d[at], 0), Be33(d, at))), at + 5))
  }

  function SpliceInsertAt(d: seq<Byte>, at: nat): Option<Parsed<Command>> {
    if at + 5 > |d| then None
    else if BitOf(d[at + 4], 0) then Some(Parsed(CancelledInsert(Be32(d, at)), at + 5))
    else if at + 6 > |d| then None
    else
      var f := d[at + 5];
      var times :- TimesAt(d, at + 6, BitOf(f, 1), BitOf(f, 3));
      var br :- BreakAt(d, times.end, BitOf(f, 2));
      if br.end + 4 > |d| then None
      else Some(Parsed(SpliceInsert(Be32(d, at), BitOf(f, 0), BitOf(f, 1), BitOf(f, 2), BitOf(f, 3),
                                    times.item, br.item, Be16(d, br.end), d[br.end + 2], d[br.end + 3]),
                       br.end + 4))
  }

  /** The command that starts at `at`; a command the code does not walk is taken to be empty. */
  function CommandAt(d: seq<Byte>, at: nat, commandType: Byte): Option<Parsed<Command>> {
    if commandType == SPLICE_NULL then Some(Parsed(SpliceNull, at))
    else if commandType == SPLICE_INSERT then SpliceInsertAt(d, at)
    else if commandType == TIME_SIGNAL then
      var t :- SpliceTimeAt(d, at);
      Some(Parsed(TimeSignal(t.item), t.end))
    else if commandType == BANDWIDTH_RESERVATION then Some(Parsed(BandwidthReservation, at))
    else Some(Parsed(Unparsed, at))
  }

  /** A table_id of 0xFC, an unencrypted packet and room for a loop length. */
  predicate Readable(d: seq<Byte>) {
    |d| >= 15 && d[0] == 0xFC && !BitOf(d[4], 0)
  }

  /** Where the break duration of a splice_insert sits; its five bytes may lie beyond the end. */
  function BreakDurationAt(d: seq<Byte>): Option<nat> {
    if !Readable(d) || d[13] != SPLICE_INSERT then None
    else if 20 > |d| || BitOf(d[18], 0) || !BitOf(d[19], 2) then None
    else
      var times :- TimesAt(d, 20, BitOf(d[19], 1), BitOf(d[19], 3));
      Some(times.end)
  }

  /** Where the descriptor loop sits: its length word, its first byte and the byte behind it. */
  datatype LoopSpan = LoopSpan(word: nat, start: nat, end: nat)

  function LoopAt(d: seq<Byte>): Option<LoopSpan> {
    if !Readable(d) then None
    else
      var command :- CommandAt(d, HEADER_BYTES, d[13]);
      var at := command.end;
      if at + 2 > |d| then None
      else
        var end := at + 2 + Be16(d, at) % 0x400;
        if end + 4 > |d| then None else Some(LoopSpan(at, at + 2, end))
  }

  // ---- What the layout guarantees ----

  lemma {:induction false} ComponentsAdvance(d: seq<Byte>, at: nat, count: nat, immediate: bool)
    ensures match ComponentsAt(d, at, count, immediate)
            case None => true
            case Some(p) => at <= p.end && (at <= |d| ==> p.end <= |d|) && |p.item| == count
  {
    if count > 0 {
      ComponentsAdvance(d, at, count - 1, immediate);
    }
  }

  lemma TimesAdvance(d: seq<Byte>, at: nat, programSplice: bool, immediate: bool)
    requires at <= |d|
    ensures match TimesAt(d, at, programSplice, immediate)
            case None => true
            case Some(p) => at <= p.end <= |d|
  {
    if !programSplice && at < |d| {
      ComponentsAdvance(d, at + 1, d[at], immediate);
    }
  }

  lemma CommandAdvances(d: seq<Byte>, at: nat, commandType: Byte)
    requires at <= |d|
    ensures match CommandAt(d, at, commandType)
            case None => true
            case Some(p) => at <= p.end <= |d|
  {
    if commandType == SPLICE_INSERT && at + 6 <= |d| {
      TimesAdvance(d, at + 6, BitOf(d[at + 5], 1), BitOf(d[at + 5], 3));
    }
  }

  /** When both places are known, break_duration(), unique_program_id, avail_num and
      avails_expected lie exactly between them; and a message that frames its loop frames its
      break duration. */
  lemma BreakPrecedesLoop(d: seq<Byte>)
    requires BreakDurationAt(d).Some? && LoopAt(d).Some?
    ensures LoopAt(d).value.word == BreakDurationAt(d).value + 9
    ensures 20 <= BreakDurationAt(d).value
  {
    TimesAdvance(d, 20, BitOf(d[19], 1), BitOf(d[19], 3));
  }

  // ---- Locality: a walk depends only on the bytes it covers ----

  lemma ComponentLocal(d: seq<Byte>, e: seq<Byte>, at: nat, immediate: bool)
    requires ComponentAt(d, at, immediate).Some?
    requires ComponentAt(d, at, immediate).value.end <= |e|
    requires forall i :: at <= i < ComponentAt(d, at, immediate).value.end && i < |d| ==> d[i] == e[i]
    ensures ComponentAt(e, at, immediate) == ComponentAt(d, at, immediate)
  {
    if !immediate && BitOf(d[at + 1], 0) {
      assert d[at + 1] == e[at + 1] && d[at + 2] == e[at + 2] && d[at + 3] == e[at + 3];
      assert d[at + 4] == e[at + 4] && d[at + 5] == e[at + 5];
    }
  }

  lemma {:induction false} ComponentsLocal(d: seq<Byte>, e: seq<Byte>, at: nat, count: nat, immediate: bool)
    requires ComponentsAt(d, at, count, immediate).Some?
    requires at <= |d|
    requires ComponentsAt(d, at, count, immediate).value.end <= |e|
    requires forall i :: at <= i < ComponentsAt(d, at, count, immediate).value.end && i < |d| ==> d[i] == e[i]
    ensures ComponentsAt(e, at, count, immediate) == ComponentsAt(d, at, count, immediate)
  {
    ComponentsAdvance(d, at, count, immediate);
    if count > 0 {
      ComponentsAdvance(d, at, count - 1, immediate);
      ComponentsLocal(d, e, at, count - 1, immediate);
      ComponentLocal(d, e, ComponentsAt(d, at, count - 1, immediate).value.end, immediate);
    }
  }

  lemma TimesLocal(d: seq<Byte>, e: seq<Byte>, at: nat, programSplice: bool, immediate: bool)
    requires TimesAt(d, at, programSplice, immediate).Some?
    requires at <= |d|
    requires TimesAt(d, at, programSplice, immediate).value.end <= |e|
    requires forall i :: at <= i < TimesAt(d, at, programSplice, immediate).value.end && i < |d| ==> d[i] == e[i]
    ensures TimesAt(e, at, programSplice, immediate) == TimesAt(d, at, programSplice, immediate)
  {
    TimesAdvance(d, at, programSplice, immediate);
    if !programSplice {
      ComponentsAdvance(d, at + 1, d[at], immediate);
      ComponentsLocal(d, e, at + 1, d[at], immediate);
    }
  }

  /** Equal bytes, apart from the five of the break duration, give an equal splice_insert apart
      from the break duration. */
  lemma InsertLocal(d: seq<Byte>, e: seq<Byte>, at: nat)
    requires at <= |d| && SpliceInsertAt(d, at).Some?
    requires var p := SpliceInsertAt(d, at).value;
             && p.end <= |e|
             && forall i :: at <= i < p.end && i < |d| &&
                            !(p.item.SpliceInsert? && p.item.durationFlag && p.end - 9 <= i < p.end - 4)
                            ==> d[i] == e[i]
    ensures SpliceInsertAt(e, at).Some?
    ensures var p, q := SpliceInsertAt(d, at).value, SpliceInsertAt(e, at).value;
            && q.end == p.end
            && q.item == if p.item.SpliceInsert? && p.item.durationFlag
                         then p.item.(breakDuration := BreakAt(e, p.end - 9, true).value.item)
                         else p.item
  {
    hide BitOf, TimesAt, Be33;
    var p := SpliceInsertAt(d, at).value;
    InsertBreak(d, at);
    Be32Local(d, e, at);
    if p.item.SpliceInsert? {
      var f := d[at + 5];
      TimesAdvance(d, at + 6, BitOf(f, 1), BitOf(f, 3));
      var times := TimesAt(d, at + 6, BitOf(f, 1), BitOf(f, 3)).value;
      TimesLocal(d, e, at + 6, BitOf(f, 1), BitOf(f, 3));
      assert e[at + 5] == f && e[at + 4] == d[at + 4];
      assert d[p.end - 4] == e[p.end - 4] && d[p.end - 3] == e[p.end - 3];
      assert d[p.end - 2] == e[p.end - 2] && d[p.end - 1] == e[p.end - 1];
      hide Be32;
      assert BreakAt(e, times.end, BitOf(f, 2)).Some?;
    }
  }

  lemma BreakLocal(d: seq<Byte>, e: seq<Byte>, at: nat)
    requires at + 5 <= |d| && at + 5 <= |e|
    requires forall i :: at <= i < at + 5 ==> d[i] == e[i]
    ensures BreakAt(d, at, true) == BreakAt(e, at, true)
  {
    assert d[at] == e[at] && d[at + 1] == e[at + 1] && d[at + 2] == e[at + 2];
    assert d[at + 3] == e[at + 3] && d[at + 4] == e[at + 4];
  }

  lemma InsertBreak(d: seq<Byte>, at: nat)
    requires at <= |d| && SpliceInsertAt(d, at).Some?
    ensures var p := SpliceInsertAt(d, at).value;
            && at + 5 <= p.end <= |d|
            && (p.item.SpliceInsert? && p.item.durationFlag ==>
                  at + 15 <= p.end && BreakAt(d, p.end - 9, true) == Some(Parsed(p.item.breakDuration, p.end - 4)))
  {
    if at + 6 <= |d| {
      TimesAdvance(d, at + 6, BitOf(d[at + 5], 1), BitOf(d[at + 5], 3));
    }
  }

  lemma CommandLocal(d: seq<Byte>, e: seq<Byte>, at: nat, commandType: Byte)
    requires CommandAt(d, at, commandType).Some?
    requires at <= |d|
    requires CommandAt(d, at, commandType).value.end <= |e|
    requires forall i :: at <= i < CommandAt(d, at, commandType).value.end && i < |d| ==> d[i] == e[i]
    ensures CommandAt(e, at, commandType) == CommandAt(d, at, commandType)
  {
    if commandType == SPLICE_INSERT {
      InsertBreak(d, at);
      InsertLocal(d, e, at);
      var p := SpliceInsertAt(d, at).value;
      if p.item.SpliceInsert? && p.item.durationFlag {
        BreakLocal(d, e, p.end - 9);
      }
    } else if commandType == TIME_SIGNAL {
      if BitOf(d[at], 0) {
        BreakLocal(d, e, at);
      }
    }
  }
}
