/** What every conditioning action guarantees about the payload that leaves the server. */
module ConditioningLaws {
  import opened Bytes
  import opened Crc32
  import opened Layout
  import opened Descriptors
  import opened Frames
  import opened FieldEdits
  import opened MessageEdits
  import opened EditLaws
  import opened EditMeaning
  import opened UpidRewrite
  import opened UpidLaws
  import opened Decoders
  import opened DecoderLaws
  import opened Builder
  import opened BuilderLaws
  import opened UpidInverse
  import opened EditAlgebra
  import opened Upids
  import opened Text
  import opened Conditioning

  // ---- Editors keep sections valid, located or not ----

  lemma RefreshValid(b: seq<Byte>, r: seq<Byte>)
    requires ValidSection(b) && |r| == |b| && r[..3] == b[..3]
    ensures ValidSection(Refresh(r)) && |Refresh(r)| == |b|
  {
    var out, body := Refresh(r), r[..|r| - 4];
    WithCrcSealed(body);
    assert out[..3] == r[..3];
    assert out[0] == r[..3][0] && out[1] == r[..3][1] && out[2] == r[..3][2];
    assert b[0] == b[..3][0] && b[1] == b[..3][1] && b[2] == b[..3][2];
  }

  lemma LoopKeepsHeader(e: Edit, b: seq<Byte>)
    requires |b| >= 3
    ensures EditedLoop(e, b)[..3] == b[..3]
  {
    if LoopAt(b).Some? {
      LoopBounds(b);
    }
  }

  lemma BreakKeepsHeader(e: Edit, b: seq<Byte>)
    requires BreakDurationAt(b).Some? && BreakDurationAt(b).value + 5 <= |b|
    ensures WithBreak(e, b, BreakDurationAt(b).value)[..3] == b[..3]
  {
    TimesAdvance(b, 20, BitOf(b[19], 1), BitOf(b[19], 3));
  }

  /** A valid section stays valid under every same-width editor, whether or not its loop is found. */
  lemma EditKeepsValid(e: Edit, b: seq<Byte>)
    requires ValidSection(b) && Apply(e, b).Edited?
    ensures ValidSection(Apply(e, b).value) && |Apply(e, b).value| == |b|
  {
    hide LoopAt, BreakDurationAt, ValidSection, Refresh, WithBreak, EditedLoop, TouchesLoop, Overruns;
    ValidSize(b);
    LoopKeepsHeader(e, b);
    if e.Restrict? {
      var span := LoopAt(b).value;
      assert EditedLoop(e, b) == WithLoop(e, b, span) by { LocatedEdit(e, b); }
      RefreshValid(b, EditedLoop(e, b));
    } else if BreakDurationAt(b).Some? {
      var r := WithBreak(e, b, BreakDurationAt(b).value);
      BreakKeepsHeader(e, b);
      LoopKeepsHeader(e, r);
      RefreshValid(b, EditedLoop(e, r));
    } else {
      RefreshValid(b, EditedLoop(e, b));
    }
  }

  lemma LocatedEdit(e: Edit, b: seq<Byte>)
    requires LoopAt(b).Some?
    ensures LoopAt(b).value.start <= LoopAt(b).value.end <= |b|
    ensures EditedLoop(e, b) == WithLoop(e, b, LoopAt(b).value)
  {
  }

  lemma ValidSize(b: seq<Byte>)
    requires ValidSection(b)
    ensures 14 <= |b| <= 4098 && b[0] == 0xFC
  {
  }

  // ---- Actions ----

  /** The message an action leaves when it goes through. */
  function Target(r: Request, b: seq<Byte>): seq<Byte>
    requires r.Retime? ==> !r.edit.Restrict?
  {
    match r
    case Rewrite(u) => ValueOr(RewriteUpid(b, u.newType, u.encode), b)
    case Mark(e) => ValueOr(EditDelivery(e, b), b)
    case Retime(e) => ValueOr(EditDurations(e, b), b)
    case _ => b
  }

  function ValueOr(o: Outcome<seq<Byte>>, b: seq<Byte>): seq<Byte> {
    if o.Edited? then o.value else b
  }

  /** A splice_insert whose break duration runs past the end of the message. */
  predicate BreakOverruns(b: seq<Byte>) {
    BreakDurationAt(b).Some? && BreakDurationAt(b).value + 5 > |b|
  }

  /** The message makes the requested edit panic. */
  predicate RequestPanics(r: Request, b: seq<Byte>) {
    || (r.Retime? && BreakOverruns(b))
    || (r.Rewrite? && RewritePanics(b, r.upid.newType, r.upid.encode))
  }

  /** A build request for a descriptor whose UPID cannot be encoded. */
  predicate BuildPanics(a: Authored) {
    && a.build.Some? && !Encodes(a.build.value.args)
    && (IsInsertOut(a.build.value) || (IsTimeSignal(a.build.value) && WantsDescriptor(a.build.value.args)))
  }

  /** The size an action leaves, read from the message before it. */
  function SizeLeft(r: Request, b: seq<Byte>): int {
    if r.Rewrite? && RewriteFits(b, r.upid.newType, r.upid.encode) then SizeAfter(b, r.upid.newType, r.upid.encode)
    else |b|
  }

  lemma TargetValid(r: Request, b: seq<Byte>)
    requires ValidSection(b) && (r.Retime? ==> !r.edit.Restrict?)
    ensures var out := Target(r, b);
            && |out| >= 14 && out[0] == 0xFC && Sealed(out) && |out| == SizeLeft(r, b)
            && (ValidSection(out) <==> SizeLeft(r, b) <= 4098)
  {
    hide RewriteUpid, EditDelivery, EditDurations, LengthCorrect, Sealed, RewriteFits, SizeAfter;
    ValidSize(b);
    match r
    case Rewrite(u) =>
      RewriteUpidCases(b, u.newType, u.encode);
      if RewriteUpid(b, u.newType, u.encode).Edited? {
        RewrittenShape(b, u);
      }
    case Mark(e) =>
      if EditDelivery(e, b).Edited? { EditKeepsValid(e, b); }
      ValidSize(Target(r, b));
    case Retime(e) =>
      if EditDurations(e, b).Edited? { EditKeepsValid(e, b); }
      ValidSize(Target(r, b));
    case _ =>
  }

  lemma RewrittenShape(b: seq<Byte>, u: UpidArgs)
    requires RewriteUpid(b, u.newType, u.encode).Edited?
    ensures var out := RewriteUpid(b, u.newType, u.encode).value;
            && |out| >= 14 && out[0] == 0xFC && Sealed(out)
            && LoopAt(b).Some? && |out| == SizeAfter(b, u.newType, u.encode)
            && (LengthCorrect(out) <==> SizeAfter(b, u.newType, u.encode) <= 4098)
  {
    var out := RewriteUpid(b, u.newType, u.encode).value;
    RewriteUpidMeaning(b, u.newType, u.encode);
    hide LengthCorrect, Sealed, RewriteUpid, RewriteAll, Flatten, ParseLoop, FrameOf, Framed, SizeAfter;
    LoopBounds(out);
  }

  /** The text an edit yields spells its target. */
  lemma PerformTarget(r: Request, orig: string, b: seq<Byte>)
    requires InputToBytes(orig) == Some(b) && (r.Retime? ==> !r.edit.Restrict?)
    ensures match Perform(r, orig)
            case Crash => RequestPanics(r, b)
            case Unchanged => !RequestPanics(r, b) && Target(r, b) == b
            case Edited(t) => !RequestPanics(r, b) && t == Encode64(Target(r, b))
  {
    PanicsExactly(orig);
    hide InputToBytes, InputPanics, Encode64, RewriteUpid, BreakDurationAt, EditedLoop, TouchesLoop, WithBreak, LoopAt,
         Overruns, RewritePanics;
    if r.Rewrite? {
      RewriteUpidCases(b, r.upid.newType, r.upid.encode);
    }
  }

  lemma BuildFaults(a: Authored, payload: Option<string>)
    ensures MaybeBuilt(a, payload).Fault? <==> BuildPanics(a)
  {
    hide Section, Encode64, SegmentLoop;
  }

  /** When conditioning panics, for every action, all params and every incoming text: exactly for a
      build whose UPID cannot be encoded, for params that are neither an object nor null when the
      action has an incoming text to put there, for an edit of a text on which the reader panics, for
      a duration action on a break duration that the message cuts off, and for a UPID action that
      meets a live segment it cannot encode. */
  lemma FaultsExactly(action: string, p: RuleParams, orig: Option<string>)
    ensures var a := AuthoredOf(p);
            Condition(action, p, orig).Fault? <==>
            || BuildPanics(a)
            || (p.Other? && orig.Some? && !RequestOf(action, a).KeepParams?)
            || (orig.Some? && IsEdit(RequestOf(action, a)) && InputPanics(orig.value))
            || (orig.Some? && InputToBytes(orig.value).Some?
                && RequestPanics(RequestOf(action, a), InputToBytes(orig.value).value))
  {
    hide NoKeys;
    var a := AuthoredOf(p);
    BuildFaults(a, PayloadOf(p));
    var r := RequestOf(action, a);
    if orig.Some? {
      PanicsExactly(orig.value);
      if InputToBytes(orig.value).Some? {
        PerformTarget(r, orig.value, InputToBytes(orig.value).value);
      } else {
        hide InputToBytes, InputPanics;
        assert Perform(r, orig.value).Crash? <==> IsEdit(r) && InputPanics(orig.value);
      }
    }
    hide RequestOf, MaybeBuilt, InputToBytes, InputPanics, Perform, BuildPanics, BreakOverruns, RewritePanics;
  }

  predicate IsEdit(r: Request) {
    r.Rewrite? || r.Mark? || r.Retime?
  }

  /** No action but a plain replace or a delete drops the cue: for a valid incoming section the
      payload exists, unless the server panics, and reads back as exactly the edited message. Its
      CRC is right, and it is valid as long as the size foreseen fits the length field. */
  lemma CueKept(action: string, p: RuleParams, orig: string, b: seq<Byte>)
    requires InputToBytes(orig) == Some(b) && ValidSection(b)
    requires !RequestOf(action, AuthoredOf(p)).KeepParams?
    ensures var c, r := Condition(action, p, Some(orig)), RequestOf(action, AuthoredOf(p));
            && (c.Fault? <==> p.Other? || BuildPanics(AuthoredOf(p)) || RequestPanics(r, b))
            && (c.Params? ==>
                  && Outbound(action, c.payload).Some?
                  && var out := InputToBytes(Outbound(action, c.payload).value);
                  && out == Some(Target(r, b))
                  && Sealed(out.value) && |out.value| == SizeLeft(r, b)
                  && (ValidSection(out.value) <==> SizeLeft(r, b) <= 4098)
                  && (!r.Rewrite? ==> ValidSection(out.value)))
  {
    hide NoKeys, Lower, RequestOf, MaybeBuilt, InputToBytes, Encode64, Sealed, ValidSection, EsamVerb, LengthCorrect, Perform,
         Target, BreakOverruns, RewritePanics, RewriteFits, SizeAfter, BuildPanics;
    var a := AuthoredOf(p);
    var r := RequestOf(action, a);
    TargetValid(r, b);
    EncodedIsRead(Target(r, b));
    NotDeleted(action, a);
    PerformTarget(r, orig, b);
    BuildFaults(a, PayloadOf(p));
    ValidSize(b);
  }

  lemma NotDeleted(action: string, a: Authored)
    ensures RequestOf(action, a).KeepParams? <==>
            Lower(action) == "delete" || (Lower(action) == "replace" && a.rewriteUpid.None?)
    ensures EsamVerb(action).Delete? <==> Lower(action) == "delete"
  {
    hide Lower;
  }

  lemma TidyBreakFits(b: seq<Byte>)
    requires Tidy(b)
    ensures !BreakOverruns(b)
  {
    if BreakDurationAt(b).Some? {
      BreakPrecedesLoop(b);
    }
  }

  lemma TargetDecodes(e: Edit, b: seq<Byte>)
    requires Tidy(b)
    ensures var out := ValueOr(Apply(e, b), b);
            Decode(b).Some? && Decode(out) == Some(EditDecoded(e, Decode(b).value))
  {
    EditorMapsFrame(e, b);
    hide Apply, Decode, Tidy, EditDecoded, Join, EditFrame, LoopAt, FrameOf, Framed;
    if Apply(e, b).Edited? {
      EditDecodes(e, b);
    } else {
      UntouchedDecodes(e, b);
    }
  }

  /** What the equipment behind the server decodes, action by action, for a valid section whose loop
      is tiled by complete descriptors: shorten and fill set every duration, extend adds to every
      duration, blackout marks every live segment, regionalize and a rewriting replace put in the
      new UPID if it fits and otherwise change nothing, and every other action but a plain replace
      or a delete passes the cue through; it panics only for a UPID that cannot be encoded and for
      params that are neither an object nor null. */
  lemma ConditionedDecodes(action: string, p: RuleParams, orig: string, b: seq<Byte>)
    requires InputToBytes(orig) == Some(b) && ValidSection(b) && Tidy(b)
    requires Lower(action) != "delete" && (Lower(action) == "replace" ==> AuthoredOf(p).rewriteUpid.Some?)
    ensures Decode(b).Some?
    ensures var a, c, verb, m := AuthoredOf(p), Condition(action, p, Some(orig)), Lower(action), Decode(b).value;
            && (c.Fault? <==>
                p.Other? || BuildPanics(a) || (RequestOf(action, a).Rewrite? && RequestPanics(RequestOf(action, a), b)))
            && (c.Params? ==>
                  && Outbound(action, c.payload).Some?
                  && var out := InputToBytes(Outbound(action, c.payload).value);
                  && out.Some?
                  && Decode(out.value)
                     == Some(if verb in {"shorten", "fill"} && a.setTicks.Some? then
                               EditDecoded(SetTicks(a.setTicks.value), m)
                             else if verb == "extend" && a.addTicks.Some? then EditDecoded(AddTicks(a.addTicks.value), m)
                             else if verb == "blackout" then EditDecoded(a.restrictions, m)
                             else if verb == "replace" then Reworded(b, a.rewriteUpid.value, m)
                             else if verb == "regionalize" then Reworded(b, a.regional, m)
                             else m))
  {
    hide NoKeys, Lower, InputToBytes, Condition, Outbound, EditDecoded, Decode, Reworded, Tidy, Target, ValidSection,
         BreakOverruns, Sealed, BuildPanics, RewritePanics, SizeLeft, RequestOf;
    var a := AuthoredOf(p);
    NotDeleted(action, a);
    TidyBreakFits(b);
    CueKept(action, p, orig, b);
    RequestDecodes(RequestOf(action, a), b);
    RequestNamed(action, a);
  }

  /** The request of each action by name. */
  lemma RequestNamed(action: string, a: Authored)
    requires Lower(action) != "delete" && (Lower(action) == "replace" ==> a.rewriteUpid.Some?)
    ensures var verb := Lower(action);
            RequestOf(action, a)
            == if verb in {"shorten", "fill"} && a.setTicks.Some? then Retime(SetTicks(a.setTicks.value))
               else if verb == "extend" && a.addTicks.Some? then Retime(AddTicks(a.addTicks.value))
               else if verb == "blackout" then Mark(a.restrictions)
               else if verb == "replace" then Rewrite(a.rewriteUpid.value)
               else if verb == "regionalize" then Rewrite(a.regional)
               else PassThrough
  {
    hide Lower;
  }

  lemma RequestDecodes(r: Request, b: seq<Byte>)
    requires Tidy(b) && (r.Retime? ==> !r.edit.Restrict?)
    ensures Decode(b).Some?
    ensures var m := Decode(b).value;
            Decode(Target(r, b)) == Some(match r
                                         case Rewrite(u) => Reworded(b, u, m)
                                         case Mark(e) => EditDecoded(e, m)
                                         case Retime(e) => EditDecoded(e, m)
                                         case _ => m)
  {
    DecodeReads(b);
    hide EditDelivery, EditDurations, EditDecoded, Decode, RewriteUpid, Tidy, RewriteReports, RewriteFits;
    match r {
      case Rewrite(u) =>
        RewriteUpidCases(b, u.newType, u.encode);
        if RewriteUpid(b, u.newType, u.encode).Edited? { RewriteDecodes(b, u.newType, u.encode); }
      case Mark(e) => TargetDecodes(e, b);
      case Retime(e) => TargetDecodes(e, b);
      case _ =>
    }
  }

  /** A decoded message after a UPID rewrite that goes through. */
  function Reworded(b: seq<Byte>, u: UpidArgs, m: Decoded): Decoded {
    if !RewriteFits(b, u.newType, u.encode) then m
    else m.(descriptors := RewriteReports(m.descriptors, u.newType, u.encode))
  }

  // ---- Edits of texts ----

  lemma EditedStarts(e: Edit, b: seq<Byte>)
    requires Apply(e, b).Edited?
    ensures |b| >= 15 && b[0] == 0xFC && |Apply(e, b).value| == |b| && Apply(e, b).value[0] == 0xFC
  {
    hide WithBreak, EditedLoop, WithLoop, TouchesLoop, LoopAt, BreakDurationAt, Refresh, Overruns;
    EditableSize(e, b);
    EditableStart(e, b);
    LoopStarts(e, b);
    if e.Restrict? {
      LoopBounds(b);
      RefreshFirst(WithLoop(e, b, LoopAt(b).value));
    } else if BreakDurationAt(b).Some? {
      var r := WithBreak(e, b, BreakDurationAt(b).value);
      BreakKeepsHeader(e, b);
      assert r[0] == r[..3][0] && b[0] == b[..3][0];
      LoopStarts(e, r);
      RefreshFirst(EditedLoop(e, r));
    } else {
      RefreshFirst(EditedLoop(e, b));
    }
  }

  lemma EditableStart(e: Edit, b: seq<Byte>)
    ensures BreakDurationAt(b).Some? || TouchesLoop(e, b) ==> |b| >= 15 && b[0] == 0xFC
  {
  }

  lemma RefreshFirst(b: seq<Byte>)
    requires |b| >= 5
    ensures Refresh(b)[0] == b[0]
  {
  }

  /** The loop lies behind the table id. */
  lemma LoopStarts(e: Edit, b: seq<Byte>)
    requires |b| >= 1
    ensures EditedLoop(e, b)[0] == b[0]
    ensures LoopAt(b).Some? ==> EditedLoop(e, b) == WithLoop(e, b, LoopAt(b).value) && |b| >= 15 && b[0] == 0xFC
  {
    if LoopAt(b).Some? {
      LoopBounds(b);
    }
  }

  /** An edited text reads as the edited message. */
  lemma EditedTextReads(r: Request, x: string)
    requires r.Retime? ==> !r.edit.Restrict?
    requires Perform(r, x).Edited?
    ensures InputToBytes(x).Some? && InputToBytes(Perform(r, x).value) == Some(Target(r, InputToBytes(x).value))
    ensures !InputPanics(x) && !InputPanics(Perform(r, x).value)
  {
    hide InputToBytes, InputPanics, Encode64, RewriteUpid, EditDelivery, EditDurations;
    PanicsExactly(x);
    PanicsExactly(Perform(r, x).value);
    var b := InputToBytes(x).value;
    match r
    case Rewrite(u) =>
      RewrittenShape(b, u);
      EncodedIsRead(Target(r, b));
    case Mark(e) =>
      EditedStarts(e, b);
      EncodedIsRead(Target(r, b));
    case Retime(e) =>
      EditedStarts(e, b);
      EncodedIsRead(Target(r, b));
    case _ =>
  }

  /** On every text: rewriting twice with one UPID is rewriting once. */
  lemma UpidTextTwice(u: UpidArgs, x: string)
    requires EditedUpid(u, x).Edited?
    ensures EditedUpid(u, EditedUpid(u, x).value) == EditedUpid(u, x)
  {
    EditedTextReads(Rewrite(u), x);
    hide InputToBytes, InputPanics, Encode64, RewriteUpid;
    RewriteUpidTwice(InputToBytes(x).value, u.newType, u.encode);
  }

  /** On every text: only the latest restrictions remain. */
  lemma DeliveryTextTwice(r1: Restriction, r2: Restriction, x: string)
    requires EditedDelivery(r1, x).Edited?
    ensures EditedDelivery(r2, EditedDelivery(r1, x).value) == EditedDelivery(r2, x)
  {
    EditedTextReads(Mark(r1), x);
    hide InputToBytes, InputPanics, Encode64;
    assert LoopAt(InputToBytes(x).value).Some?;
    hide EditDelivery, LoopAt;
    LastRestrictionsWin(r1, r2, InputToBytes(x).value);
  }

  /** On every text: setting the durations erases any earlier duration edit. */
  lemma DurationsTextSet(e: Edit, ticks: U64, x: string)
    requires !e.Restrict? && EditedDurations(e, x).Edited?
    ensures EditedDurations(SetTicks(ticks), EditedDurations(e, x).value) == EditedDurations(SetTicks(ticks), x)
  {
    EditedTextReads(Retime(e), x);
    hide InputToBytes, InputPanics, Encode64, EditDurations;
    SetErasesAll(e, ticks, InputToBytes(x).value);
  }

  /** A build request that names a command the server can build. */
  predicate Builds(p: RuleParams) {
    && p.Object? && p.authored.build.Some?
    && p.authored.build.value.command in {"time_signal_immediate", "time_signal", "splice_insert_out"}
  }

  lemma BuildsOrKeeps(p: RuleParams)
    ensures !Builds(p) ==> MaybeBuilt(AuthoredOf(p), PayloadOf(p)) == Params(if p.Object? then p.payload else None)
    ensures Builds(p) ==> MaybeBuilt(AuthoredOf(p), PayloadOf(p)) != Params(None)
  {
    hide Section, Encode64, SegmentLoop;
  }

  /** Params without a request to build keep their literal payload: in a delete and a plain replace
      whatever comes in, and in every action when nothing does. */
  lemma LiteralPayloadKept(action: string, p: RuleParams, orig: Option<string>)
    requires !Builds(p)
    requires || orig.None? || Lower(action) == "delete"
             || (Lower(action) == "replace" && (p.Object? ==> p.authored.rewriteUpid.None?))
    ensures Condition(action, p, orig) == Params(if p.Object? then p.payload else None)
  {
    hide Lower, MaybeBuilt, Perform, RequestOf;
    BuildsOrKeeps(p);
    NotDeleted(action, AuthoredOf(p));
  }

  /** With an incoming cue nothing is emitted exactly for a delete, whatever its params, and for a
      replace whose params hold neither a rewrite nor a build of a known command nor a payload. */
  lemma EmitsNothing(action: string, p: RuleParams, orig: string)
    requires Condition(action, p, Some(orig)).Params?
    ensures Outbound(action, Condition(action, p, Some(orig)).payload).None? <==>
            || Lower(action) == "delete"
            || (Lower(action) == "replace" && !Builds(p)
                && (p.Object? ==> p.authored.rewriteUpid.None? && p.payload.None?))
  {
    hide Lower, MaybeBuilt, Perform, EsamVerb, RequestOf, Builds;
    BuildsOrKeeps(p);
    NotDeleted(action, AuthoredOf(p));
  }

  /** The verb on the wire is honest: an incoming cue that leaves under noop leaves as it came, and
      every action that may change it leaves under replace. */
  lemma VerbHonest(action: string, p: RuleParams, orig: string)
    ensures EsamVerb(action).Noop? && Condition(action, p, Some(orig)).Params? ==>
              Condition(action, p, Some(orig)).payload == Some(orig)
    ensures EsamVerb(action).Replace? <==>
            Lower(action) in {"replace", "blackout", "regionalize", "shorten", "extend", "fill"}
    ensures IsEdit(RequestOf(action, AuthoredOf(p))) ==> EsamVerb(action).Replace?
  {
    hide Lower, MaybeBuilt, NoKeys;
  }

  /** Null params: blackout forbids web delivery and allows archiving, a rewrite clears the UPID text and
      keeps its type, and no duration is known. */
  lemma NullParams(action: string)
    ensures RequestOf(action, AuthoredOf(Null)).Mark? ==>
              RequestOf(action, AuthoredOf(Null)) == Mark(Restrict(false, false, true, 0))
    ensures RequestOf(action, AuthoredOf(Null)).Rewrite? ==>
              var u := RequestOf(action, AuthoredOf(Null)).upid;
              u.newType.None? && forall t :: u.encode(t) == Some([])
    ensures !RequestOf(action, AuthoredOf(Null)).Retime?
    ensures AuthoredOf(Other) == AuthoredOf(Null) && PayloadOf(Null).None? && PayloadOf(Other).None?
  {
    hide Lower;
    assert forall t: Byte :: EncodeUpid(t, []) == Some([]);
  }

  // ---- Built replacements ----

  predicate PlainReplace(action: string, p: RuleParams) {
    Lower(action) == "replace" && p.Object? && p.authored.rewriteUpid.None? && p.authored.build.Some?
  }

  lemma BuiltIsSent(action: string, p: RuleParams, orig: Option<string>, section: seq<Byte>)
    requires PlainReplace(action, p) && BuiltText(p.authored.build.value) == Edited(Encode64(section))
    requires ValidSection(section)
    ensures var c := Condition(action, p, orig);
            && c.Params? && Outbound(action, c.payload).Some?
            && InputToBytes(Outbound(action, c.payload).value) == Some(section)
  {
    ValidSize(section);
    Base64IsRead(section);
    EncodedIsRead(section);
    NotDeleted(action, p.authored);
    hide BuiltText, Encode64, InputToBytes, Lower, EsamVerb, RequestOf, ValidSection;
  }

  /** A replace that builds an OUT cue sends a section from which the tools decoder recovers the
      break and segmentation durations, the type and the UPID the author asked for, up to the
      95443 seconds the 33-bit field can hold. */
  lemma BuiltOutCue(action: string, p: RuleParams, orig: Option<string>)
    requires PlainReplace(action, p) && p.authored.build.value.command == "splice_insert_out"
    requires p.authored.build.value.durationS <= 95443 && Encodes(p.authored.build.value.args)
    requires |SegmentBody(Some(p.authored.build.value.durationS * 90000), p.authored.build.value.args)| <= 255
    ensures var b := p.authored.build.value;
            var ticks := b.durationS * 90000;
            var c := Condition(action, p, orig);
            && c.Params? && Outbound(action, c.payload).Some?
            && var out := InputToBytes(Outbound(action, c.payload).value);
            && out.Some? && ValidSection(out.value) && StrictlyFramed(out.value)
            && Decode(out.value)
               == Some(Decoded(0, false, 0, SPLICE_INSERT,
                               SpliceInsert(1, true, true, true, true, Times(None, []),
                                            Some(BreakDuration(true, ticks)), 1, 0, 0),
                               [Tagged(SEGMENTATION, |SegmentBody(Some(ticks), b.args)|,
                                       SegmentInfo(0x43554549, 1, Asked(b.args.typeId, 0x10), Some(ticks), true,
                                                   Restrictions(true, true, true, 3), Asked(b.args.upidType, 0x0C),
                                                   AskedUpid(b.args), 0, 0))]))
  {
    var b := p.authored.build.value;
    var ticks := b.durationS * 90000;
    SmallRemainder(b.durationS, 0x1_0000_0000);
    var section := Section(SPLICE_INSERT, InsertBytes(1, 0xF0, Flagged33(ticks)), SegmentLoop(Some(ticks), b.args));
    SpliceInsertOutRoundTrip(b.durationS, b.args);
    hide Section, InsertBytes, Flagged33, SegmentLoop, SegmentBody, Encode64, Decode, InputToBytes, StrictlyFramed,
         ValidSection, Condition, Lower, AskedUpid, Asked;
    BuiltIsSent(action, p, orig, section);
  }

  /** A replace that builds a time_signal sends one: with a type or a UPID type the tools decoder
      recovers them with the UPID, without either the signal carries no descriptor. */
  lemma BuiltSignalCue(action: string, p: RuleParams, orig: Option<string>)
    requires PlainReplace(action, p) && p.authored.build.value.command in {"time_signal_immediate", "time_signal"}
    requires var a := p.authored.build.value.args;
             a.typeId.Some? || a.upidType.Some? ==> Encodes(a) && |SegmentBody(None, a)| <= 255
    ensures var a := p.authored.build.value.args;
            var c := Condition(action, p, orig);
            && c.Params? && Outbound(action, c.payload).Some?
            && var out := InputToBytes(Outbound(action, c.payload).value);
            && out.Some? && ValidSection(out.value) && StrictlyFramed(out.value)
            && Decode(out.value)
               == Some(Decoded(0, false, 0, TIME_SIGNAL, TimeSignal(None),
                               if a.typeId.None? && a.upidType.None? then []
                               else [Tagged(SEGMENTATION, |SegmentBody(None, a)|,
                                            SegmentInfo(0x43554549, 1, Asked(a.typeId, 0x10), None, true,
                                                        Restrictions(true, true, true, 3), Asked(a.upidType, 0x0C),
                                                        AskedUpid(a), 0, 0))]))
  {
    var a := p.authored.build.value.args;
    if a.typeId.Some? || a.upidType.Some? {
      TimeSignalRoundTrip(a);
    } else {
      TimeSignalImmediateRoundTrip();
    }
    hide Section, SegmentLoop, SegmentBody, Encode64, Decode, InputToBytes, StrictlyFramed, ValidSection, Condition, Lower,
         AskedUpid, Asked;
    BuiltIsSent(action, p, orig, Section(TIME_SIGNAL, IMMEDIATE, if WantsDescriptor(a) then SegmentLoop(None, a) else [0, 0]));
  }

  // ---- The panic is real ----

  /** A splice_insert that announces a break duration and ends there. */
  function CutOffBreak(): seq<Byte> {
    Section(SPLICE_INSERT, [0, 0, 0, 1, 0, 0xF0], [])
  }

  /** This message is a valid section, and setting or adjusting its durations faults. */
  lemma CutOffBreakFaults(e: Edit)
    requires !e.Restrict?
    ensures ValidSection(CutOffBreak()) && BreakOverruns(CutOffBreak())
    ensures EditDurations(e, CutOffBreak()) == Crash
  {
    CutOffShape();
    var b := CutOffBreak();
    hide CutOffBreak, Sealed, LengthCorrect, BitOf, EditedLoop, TouchesLoop;
  }

  lemma CutOffShape()
    ensures var b := CutOffBreak();
            && |b| == 24 && b[0] == 0xFC && LengthCorrect(b) && Sealed(b)
            && b[4] == 0 && b[13] == SPLICE_INSERT && b[18] == 0 && b[19] == 0xF0
            && !BitOf(0, 0) && BitOf(0xF0, 1) && BitOf(0xF0, 2) && BitOf(0xF0, 3)
  {
    hide Crc, ToBeBytes, LengthCorrect, Sealed, WithLength;
    var command: seq<Byte> := [0, 0, 0, 1, 0, 0xF0];
    SectionShape(SPLICE_INSERT, command, []);
    SectionLengthCorrect(SPLICE_INSERT, command, []);
    CutOffHead();
    var h := Head(SPLICE_INSERT, command, 24);
    assert h + [] == h;
    assert CutOffBreak() == WithCrc(h);
    hide Head;
    assert forall i :: 0 <= i < 20 ==> CutOffBreak()[i] == h[i];
  }

  lemma CutOffHead()
    ensures var h := Head(SPLICE_INSERT, [0, 0, 0, 1, 0, 0xF0], 24);
            && |h| == 20 && h[0] == 0xFC && h[4] == 0 && h[13] == SPLICE_INSERT && h[18] == 0 && h[19] == 0xF0
  {
  }

  /** A valid section on which a UPID action panics: the text "a", U+00E9, "a" as an ADI UPID. */
  lemma StraddlingUpidFaults(action: string, p: RuleParams, orig: string)
    requires Lower(action) == "regionalize" && AuthoredOf(p).regional.newType == Some(UPID_ADI)
    requires AuthoredOf(p).regional.encode(UPID_ADI) == EncodeUpid(UPID_ADI, STRADDLING)
    requires InputToBytes(orig) == Some(Example([], []))
    ensures ValidSection(Example([], []))
    ensures Condition(action, p, Some(orig)).Fault?
  {
    hide Lower, Condition, EncodeUpid, Example, InputToBytes, RewritePanics, RewriteUpid, LoopAt, FrameOf, BreakOverruns,
         BuildPanics, LengthAsWritten, Sealed, LengthCorrect, Walkable, ParseLoop, SegmentOf, SizeAfter, NoKeys;
    var b, a := Example([], []), AuthoredOf(p);
    ExampleShape([], []);
    LengthAsWrittenCorrect(b);
    ExampleRewrites([], [], Some(UPID_ADI), a.regional.encode);
    StraddlingPanics();
    RewriteUpidCases(b, Some(UPID_ADI), a.regional.encode);
    FaultsExactly(action, p, Some(orig));
  }

  /** Params such as `[]` make even a noop panic on an ordinary cue; a delete lets them be. */
  lemma KeylessParamsFault(orig: string)
    ensures ValidSection(Example([], [])) && InputToBytes(Encode64(Example([], []))) == Some(Example([], []))
    ensures Condition("noop", Other, Some(orig)).Fault? && Condition("delete", Other, Some(orig)).Params?
  {
    hide Example, InputToBytes, Encode64, LengthAsWritten, Sealed, LengthCorrect, LoopAt, FrameOf, SegmentOf, ParseLoop, Walkable;
    ExampleShape([], []);
    LengthAsWrittenCorrect(Example([], []));
    EncodedIsRead(Example([], []));
    assert Lower("noop") == "noop" && Lower("delete") == "delete";
  }
}
