/** `apply_action` of src/main.rs and the payload choice of `build_notification` in src/esam.rs. */
module Conditioning {
  import opened Bytes
  import opened Layout
  import opened Descriptors
  import opened FieldEdits
  import opened MessageEdits
  import opened UpidRewrite
  import opened Builder
  import opened Text
  import opened Upids

  // ---- What an author supplies ----

  datatype Build = Build(command: string, durationS: nat, args: RawArgs)

  /** `upid_type` and `upid`; the text is already bound into `encode_upid`. */
  datatype UpidArgs = UpidArgs(newType: Option<Byte>, encode: UpidEncoder)

  type Restriction = e: Edit | e.Restrict? witness Restrict(false, false, true, 0)

  /** The keys of a rule's params but for `scte35_b64`; both durations are already ticks. */
  datatype Authored = Authored(build: Option<Build>, rewriteUpid: Option<UpidArgs>, regional: UpidArgs,
                               restrictions: Restriction, setTicks: Option<U64>, addTicks: Option<I64>)

  /** A rule's params, an arbitrary JSON value: an object, null, or something that has no keys. */
  datatype RuleParams = Object(authored: Authored, payload: Option<string>) | Null | Other

  /** What reading the keys of params without them yields. */
  function NoKeys(): Authored {
    Authored(None, None, UpidArgs(None, t => EncodeUpid(t, [])), Restrict(false, false, true, 0), None, None)
  }

  function AuthoredOf(p: RuleParams): Authored {
    if p.Object? then p.authored else NoKeys()
  }

  function PayloadOf(p: RuleParams): Option<string> {
    if p.Object? then p.payload else None
  }

  // ---- The edits on texts ----

  function TextOf(o: Outcome<seq<Byte>>): Outcome<string> {
    match o
    case Crash => Crash
    case Unchanged => Unchanged
    case Edited(b) => Edited(Encode64(b))
  }

  function EditedDurations(e: Edit, input: string): Outcome<string>
    requires !e.Restrict?
  {
    if InputPanics(input) then Crash
    else
      match InputToBytes(input)
      case None => Unchanged
      case Some(b) => TextOf(EditDurations(e, b))
  }

  function EditedDelivery(e: Restriction, input: string): Outcome<string> {
    if InputPanics(input) then Crash
    else
      match InputToBytes(input)
      case None => Unchanged
      case Some(b) => TextOf(EditDelivery(e, b))
  }

  function EditedUpid(u: UpidArgs, input: string): Outcome<string> {
    if InputPanics(input) then Crash
    else
      match InputToBytes(input)
      case None => Unchanged
      case Some(b) => TextOf(RewriteUpid(b, u.newType, u.encode))
  }

  // ---- Actions ----

  datatype Verb = Replace | Delete | Noop

  /** `esam_verb`. */
  function EsamVerb(action: string): Verb {
    var a := Lower(action);
    if a in {"replace", "blackout", "regionalize", "shorten", "extend", "fill"} then Replace
    else if a == "delete" then Delete
    else Noop
  }

  predicate IsTimeSignal(b: Build) {
    b.command in {"time_signal_immediate", "time_signal"}
  }

  predicate IsInsertOut(b: Build) {
    b.command == "splice_insert_out"
  }

  function BuildTicks(b: Build): nat {
    b.durationS % 0x1_0000_0000 * 90000
  }

  /** The text a build request produces; nothing for a command it does not know. */
  function BuiltText(b: Build): Outcome<string> {
    if IsTimeSignal(b) then
      if !WantsDescriptor(b.args) then Edited(Encode64(Section(TIME_SIGNAL, IMMEDIATE, [0, 0])))
      else if !Encodes(b.args) then Crash
      else Edited(Encode64(Section(TIME_SIGNAL, IMMEDIATE, SegmentLoop(None, b.args))))
    else if IsInsertOut(b) then
      if !Encodes(b.args) then Crash
      else
        Edited(Encode64(Section(SPLICE_INSERT, InsertBytes(1, 0xF0, Flagged33(BuildTicks(b))),
                                SegmentLoop(Some(BuildTicks(b)), b.args))))
    else Unchanged
  }

  /** What is left in `scte35_b64`: `Fault` stands for a panic on the way. */
  datatype Conditioned = Fault | Params(payload: Option<string>)

  function MaybeBuilt(a: Authored, payload: Option<string>): Conditioned {
    if a.build.None? then Params(payload)
    else
      match BuiltText(a.build.value)
      case Crash => Fault
      case Unchanged => Params(payload)
      case Edited(t) => Params(Some(t))
  }

  /** The edit an action asks for. */
  datatype Request = KeepParams | PassThrough | Rewrite(upid: UpidArgs) | Mark(restrictions: Restriction) | Retime(edit: Edit)

  function RequestOf(action: string, a: Authored): (r: Request)
    ensures r.Retime? ==> !r.edit.Restrict?
  {
    var verb := Lower(action);
    if verb == "delete" then KeepParams
    else if verb == "replace" then (if a.rewriteUpid.Some? then Rewrite(a.rewriteUpid.value) else KeepParams)
    else if verb == "regionalize" then Rewrite(a.regional)
    else if verb == "blackout" then Mark(a.restrictions)
    else if verb == "shorten" || verb == "fill" then
      (if a.setTicks.Some? then Retime(SetTicks(a.setTicks.value)) else PassThrough)
    else if verb == "extend" then
      (if a.addTicks.Some? then Retime(AddTicks(a.addTicks.value)) else PassThrough)
    else PassThrough
  }

  function Perform(r: Request, orig: string): Outcome<string>
    requires r.Retime? ==> !r.edit.Restrict?
  {
    match r
    case Rewrite(u) => EditedUpid(u, orig)
    case Mark(e) => EditedDelivery(e, orig)
    case Retime(e) => EditedDurations(e, orig)
    case _ => Unchanged
  }

  /** Assigning into params that are neither an object nor null panics. */
  function Condition(action: string, p: RuleParams, orig: Option<string>): Conditioned {
    var r := RequestOf(action, AuthoredOf(p));
    match MaybeBuilt(AuthoredOf(p), PayloadOf(p))
    case Fault => Fault
    case Params(built) =>
      if orig.None? || r.KeepParams? then Params(built)
      else if p.Other? then Fault
      else
        match Perform(r, orig.value)
        case Crash => Fault
        case Unchanged => Params(orig)
        case Edited(t) => Params(Some(t))
  }

  /** The SCTE-35 text a notification carries. */
  function Outbound(action: string, payload: Option<string>): Option<string> {
    if EsamVerb(action).Delete? then None else payload
  }

  // ---- The code ----

  /** The mutable JSON value. */
  class ParamValue {
    var value: RuleParams

    constructor (value: RuleParams)
      ensures this.value == value
    {
      this.value := value;
    }

    /** An assignment to `scte35_b64`: null becomes an object, and false stands for a panic. */
    method Assign(text: string) returns (ok: bool)
      modifies this
      ensures ok <==> !old(value).Other?
      ensures ok ==> value == Object(AuthoredOf(old(value)), Some(text))
    {
      if value.Other? {
        return false;
      }
      value := Object(AuthoredOf(value), Some(text));
      return true;
    }

    /** `set_payload`; false stands for a panic. */
    method SetPayload(edited: Outcome<string>, orig: Option<string>) returns (ok: bool)
      requires !edited.Crash?
      modifies this
      ensures var text := if edited.Edited? then Some(edited.value) else orig;
              if text.None? then ok && value == old(value)
              else (ok <==> !old(value).Other?) && (ok ==> value == Object(AuthoredOf(old(value)), text))
    {
      ok := true;
      if edited.Edited? {
        ok := Assign(edited.value);
      } else if orig.Some? {
        ok := Assign(orig.value);
      }
    }

    /** `maybe_build_scte35`; false stands for a panic. Only an object has something to build. */
    method MaybeBuild() returns (ok: bool)
      modifies this
      ensures match MaybeBuilt(AuthoredOf(old(value)), PayloadOf(old(value)))
              case Fault => !ok
              case Params(p) =>
                && ok && PayloadOf(value) == p && AuthoredOf(value) == AuthoredOf(old(value))
                && value.Other? == old(value).Other?
    {
      hide BuiltText;
      var build := AuthoredOf(value).build;
      if build.Some? {
        var out := BuildText(build.value);
        if out.Crash? {
          return false;
        }
        if out.Edited? {
          ok := Assign(out.value);
          return ok;
        }
      }
      return true;
    }

    /** `apply_action`; false stands for a panic. */
    method ApplyAction(action: string, orig: Option<string>) returns (ok: bool)
      modifies this
      ensures match Condition(action, old(value), orig)
              case Fault => !ok
              case Params(p) => ok && PayloadOf(value) == p && AuthoredOf(value) == AuthoredOf(old(value))
    {
      hide EditedUpid, EditedDelivery, EditedDurations, MaybeBuilt, Lower, NoKeys;
      var built := MaybeBuild();
      if !built {
        return false;
      }
      var authored := AuthoredOf(value);
      var verb := Lower(action);
      var edited := Unchanged;
      if verb == "replace" {
        if authored.rewriteUpid.None? {
          return true;
        }
        if orig.Some? {
          edited := RewriteUpidText(authored.rewriteUpid.value, orig.value);
        }
      } else if verb == "regionalize" {
        if orig.Some? {
          edited := RewriteUpidText(authored.regional, orig.value);
        }
      } else if verb == "blackout" {
        if orig.Some? {
          edited := RewriteDeliveryText(authored.restrictions, orig.value);
        }
      } else if verb == "shorten" || verb == "fill" {
        if authored.setTicks.Some? && orig.Some? {
          edited := RewriteDurationsText(SetTicks(authored.setTicks.value), orig.value);
        }
      } else if verb == "extend" {
        if authored.addTicks.Some? && orig.Some? {
          edited := RewriteDurationsText(AddTicks(authored.addTicks.value), orig.value);
        }
      } else if verb == "delete" {
        return true;
      }
      if edited.Crash? {
        return false;
      }
      ok := SetPayload(edited, orig);
    }
  }

  method RewriteUpidText(u: UpidArgs, input: string) returns (r: Outcome<string>)
    ensures r == EditedUpid(u, input)
  {
    if InputPanics(input) {
      return Crash;
    }
    var bytes := InputToBytes(input);
    if bytes.None? {
      return Unchanged;
    }
    var out := RewriteUpidInMessage(bytes.value, u.newType, u.encode);
    return TextOf(out);
  }

  method RewriteDeliveryText(e: Restriction, input: string) returns (r: Outcome<string>)
    ensures r == EditedDelivery(e, input)
  {
    if InputPanics(input) {
      return Crash;
    }
    var bytes := InputToBytes(input);
    if bytes.None? {
      return Unchanged;
    }
    var out := RewriteDelivery(e, bytes.value);
    return TextOf(out);
  }

  method RewriteDurationsText(e: Edit, input: string) returns (r: Outcome<string>)
    requires !e.Restrict?
    ensures r == EditedDurations(e, input)
  {
    if InputPanics(input) {
      return Crash;
    }
    var bytes := InputToBytes(input);
    if bytes.None? {
      return Unchanged;
    }
    var out := RewriteDurations(e, bytes.value);
    return TextOf(out);
  }

  /** The builders a request is routed to; a non-empty text is a built one. */
  method BuildText(b: Build) returns (out: Outcome<string>)
    ensures out == BuiltText(b)
  {
    hide Section, SegmentLoop, Flagged33, InsertBytes, Encode64;
    var advanced := b.args.typeId.Some? || b.args.upidType.Some? || b.args.upid.Some?;
    var section: Option<seq<Byte>>;
    if b.command == "time_signal_immediate" || b.command == "time_signal" {
      section := BuildTimeSignal(if advanced then b.args else NO_ARGS);
    } else if b.command == "splice_insert_out" {
      var duration := b.durationS % 0x1_0000_0000;
      section := BuildSpliceInsertOut(duration, if advanced then b.args else NO_ARGS);
    } else {
      return Unchanged;
    }
    return if section.None? then Crash else Edited(Encode64(section.value));
  }
}
