/** The in-place editors of src/tools_api.rs over whole messages: `rewrite_break_duration_b64`,
    `adjust_break_duration_b64` and `rewrite_delivery_flags_b64` between their text layers. */
module MessageEdits {
  import opened Bytes
  import opened Crc32
  import opened Layout
  import opened Walkers
  import opened Descriptors
  import opened Frames
  import opened FieldEdits

  /** A message with its break duration, at `bd`, edited. */
  function WithBreak(e: Edit, b: seq<Byte>, bd: nat): (r: seq<Byte>)
    requires bd + 5 <= |b|
    ensures |r| == |b|
  {
    Splice(b, bd, BreakField(e, b[bd..bd + 5]))
  }

  /** A message with its descriptor loop edited. */
  function WithLoop(e: Edit, b: seq<Byte>, span: LoopSpan): (r: seq<Byte>)
    requires span.start <= span.end <= |b|
    ensures |r| == |b|
  {
    EditLoopParses(e, b[span.start..span.end]);
    Splice(b, span.start, EditLoop(e, b[span.start..span.end]))
  }

  function Refresh(b: seq<Byte>): (r: seq<Byte>)
    requires |b| >= 4
    ensures |r| == |b|
  {
    WithCrc(b[..|b| - 4])
  }

  /** Where the loop is, once the break duration has been written. */
  function TouchesLoop(e: Edit, b: seq<Byte>): bool {
    match LoopAt(b)
    case None => false
    case Some(span) => TouchesAny(e, ParseLoop(b[span.start..span.end]).descriptors)
  }

  function EditedLoop(e: Edit, b: seq<Byte>): (r: seq<Byte>)
    ensures |r| == |b|
  {
    match LoopAt(b)
    case None => b
    case Some(span) => WithLoop(e, b, span)
  }

  /** Set or adjust every duration of a message; the code may index past the end of its buffer. */
  function EditDurations(e: Edit, b: seq<Byte>): Outcome<seq<Byte>>
    requires !e.Restrict?
  {
    match BreakDurationAt(b)
    case Some(bd) =>
      if bd + 5 > |b| then Crash
      else Edited(Refresh(EditedLoop(e, WithBreak(e, b, bd))))
    case None =>
      if TouchesLoop(e, b) then Edited(Refresh(EditedLoop(e, b))) else Unchanged
  }

  /** Mark the delivery restrictions of every live segmentation descriptor. */
  function EditDelivery(e: Edit, b: seq<Byte>): Outcome<seq<Byte>>
    requires e.Restrict?
  {
    match LoopAt(b)
    case None => Unchanged
    case Some(span) =>
      if Overruns(b[span.start..span.end]) || !TouchesLoop(e, b) then Unchanged
      else Edited(Refresh(WithLoop(e, b, span)))
  }

  // ---- The code ----

  method RefreshCrcInPlace(bytes: array<Byte>)
    requires bytes.Length >= 4
    modifies bytes
    ensures bytes[..] == Refresh(old(bytes[..]))
  {
    var n := bytes.Length;
    ghost var before := bytes[..];
    var crc := ComputeCrc32(bytes[..n - 4]);
    var stored := ToBeBytes(crc);
    forall i | 0 <= i < 4 {
      bytes[n - 4 + i] := stored[i];
    }
    assert bytes[..] == before[..n - 4] + stored;
  }

  /** One write of a segmentation duration at `abs`: the five shifted bytes. */
  method WriteTicks40(bytes: array<Byte>, abs: nat, t: nat)
    requires abs + 5 <= bytes.Length
    modifies bytes
    ensures bytes[..] == Splice(old(bytes[..]), abs, ToBe40(t))
  {
    bytes[abs] := t / 0x1_0000_0000 % 256;
    bytes[abs + 1] := t / 0x100_0000 % 256;
    bytes[abs + 2] := t / 0x1_0000 % 256;
    bytes[abs + 3] := t / 0x100 % 256;
    bytes[abs + 4] := t % 256;
  }

  method WriteBreak33(bytes: array<Byte>, bd: nat, t: nat)
    requires bd + 5 <= bytes.Length
    modifies bytes
    ensures bytes[..] == Splice(old(bytes[..]), bd, BreakBytes(old(bytes[bd]), t))
  {
    bytes[bd] := bytes[bd] as int / 2 * 2 + t / 0x1_0000_0000 % 2;
    bytes[bd + 1] := t / 0x100_0000 % 256;
    bytes[bd + 2] := t / 0x1_0000 % 256;
    bytes[bd + 3] := t / 0x100 % 256;
    bytes[bd + 4] := t % 256;
  }

  method RestrictInPlace(e: Edit, bytes: array<Byte>, start: nat, end: nat) returns (touched: bool)
    requires e.Restrict? && start <= end <= bytes.Length
    modifies bytes
    ensures bytes[..] == Splice(old(bytes[..]), start, EditBody(e, old(bytes[start..end])))
    ensures touched == TouchesBody(e, old(bytes[start..end]))
  {
    if end - start >= 10 && !BitOf(bytes[start + 8], 0) {
      bytes[start + 9] := RestrictedFlags(bytes[start + 9], e);
      return true;
    }
    return false;
  }

  method EditTicksInPlace(e: Edit, bytes: array<Byte>, start: nat, end: nat) returns (touched: bool)
    requires !e.Restrict? && start <= end <= bytes.Length
    modifies bytes
    ensures bytes[..] == Splice(old(bytes[..]), start, EditBody(e, old(bytes[start..end])))
    ensures touched == TouchesBody(e, old(bytes[start..end]))
  {
    ghost var before := bytes[..];
    var body := bytes[start..end];
    var off := SegDurationOffset(body);
    if off.None? {
      return false;
    }
    var t := NewTicks(e, Be40(body, off.value), SEGMENT_RANGE);
    WriteTicks40(bytes, start + off.value, t);
    SpliceWithin(before, start, end, off.value, ToBe40(t));
    return true;
  }

  lemma SpliceWithin(d: seq<Byte>, start: nat, end: nat, off: nat, s: seq<Byte>)
    requires start <= end <= |d| && off + |s| <= end - start
    ensures Splice(d, start + off, s) == Splice(d, start, Splice(d[start..end], off, s))
  {
  }

  /** The effect of one descriptor's edit on the buffer, in place. */
  method EditDescriptorInPlace(e: Edit, bytes: array<Byte>, cursor: nat, bodyEnd: nat) returns (touched: bool)
    requires cursor + 2 <= bodyEnd <= bytes.Length && bodyEnd - cursor - 2 < 256
    modifies bytes
    ensures var d := RawDescriptor.Descriptor(old(bytes[cursor]), old(bytes[cursor + 2..bodyEnd]));
            && bytes[..] == Splice(old(bytes[..]), cursor + 2, EditDescriptor(e, d).body)
            && touched == Touches(e, d)
  {
    hide EditBody, TouchesBody;
    ghost var before := bytes[..];
    assert bytes[cursor + 2..bodyEnd] == before[cursor + 2..bodyEnd];
    if bytes[cursor] != SEGMENTATION {
      assert Splice(before, cursor + 2, before[cursor + 2..bodyEnd]) == before;
      return false;
    }
    if e.Restrict? {
      touched := RestrictInPlace(e, bytes, cursor + 2, bodyEnd);
    } else {
      touched := EditTicksInPlace(e, bytes, cursor + 2, bodyEnd);
    }
  }

  // ---- What the cursor loop keeps ----

  lemma EditDescriptorSize(e: Edit, d: Descriptor)
    ensures |EditDescriptor(e, d).body| == |d.body|
  {
  }

  /** The part before the cursor is edited, the rest is untouched. */
  ghost predicate Progress(e: Edit, before: seq<Byte>, start: nat, end: nat, cursor: nat, done: seq<Byte>,
                           now: seq<Byte>, changed: bool)
    requires start <= cursor <= end <= |before|
  {
    var l, rest := before[start..end], before[cursor..end];
    && start + |done| == cursor
    && now == before[..start] + done + before[cursor..]
    && EditLoop(e, l) == done + EditLoop(e, rest)
    && TouchesAny(e, ParseLoop(l).descriptors) == (changed || TouchesAny(e, ParseLoop(rest).descriptors))
    && Overruns(l) == Overruns(rest)
  }

  lemma ProgressStart(e: Edit, before: seq<Byte>, start: nat, end: nat)
    requires start <= end <= |before|
    ensures Progress(e, before, start, end, start, [], before, false)
  {
  }

  lemma ProgressShape(e: Edit, before: seq<Byte>, start: nat, end: nat, cursor: nat, done: seq<Byte>,
                      now: seq<Byte>, changed: bool)
    requires start <= cursor <= end <= |before|
    requires Progress(e, before, start, end, cursor, done, now, changed)
    ensures |now| == |before| && now[cursor..|before|] == before[cursor..|before|]
    ensures forall i :: cursor <= i < |before| ==> now[i] == before[i]
  {
    hide EditLoop, ParseLoop, TouchesAny, Overruns;
    var front := before[..start] + done;
    assert now == front + before[cursor..] && |front| == cursor;
    hide Progress;
  }

  lemma ProgressStep(e: Edit, before: seq<Byte>, start: nat, end: nat, cursor: nat, done: seq<Byte>,
                     now: seq<Byte>, changed: bool)
    requires start <= cursor && cursor + 2 <= end <= |before|
    requires cursor + 2 + before[cursor + 1] as int <= end
    requires Progress(e, before, start, end, cursor, done, now, changed)
    ensures var next := cursor + 2 + before[cursor + 1] as int;
            var d := RawDescriptor.Descriptor(before[cursor], before[cursor + 2..next]);
            && |now| == |before|
            && Progress(e, before, start, end, next, done + Encoded(EditDescriptor(e, d)),
                        Splice(now, cursor + 2, EditDescriptor(e, d).body), changed || Touches(e, d))
  {
    hide EditLoop, ParseLoop, TouchesAny, Overruns, Touches, EditBody;
    var next := cursor + 2 + before[cursor + 1] as int;
    var rest := before[cursor..end];
    var d := RawDescriptor.Descriptor(before[cursor], before[cursor + 2..next]);
    EditLoopStep(e, rest);
    assert rest[0] == d.tag && rest[1] == |d.body|;
    SliceOfSlice(before, cursor, end, 2, next - cursor);
    SliceOfSlice(before, cursor, end, next - cursor, end - cursor);
    assert rest[next - cursor..] == rest[next - cursor..end - cursor];
    var d' := EditDescriptor(e, d);
    SpliceStep(before, start, done, cursor, d');
    assert (done + Encoded(d')) + EditLoop(e, before[next..end]) == done + (Encoded(d') + EditLoop(e, before[next..end]));
  }

  lemma SpliceStep(before: seq<Byte>, start: nat, done: seq<Byte>, cursor: nat, d: Descriptor)
    requires start + |done| == cursor && cursor + 2 + |d.body| <= |before|
    requires before[cursor] == d.tag && before[cursor + 1] == |d.body|
    ensures Splice(before[..start] + done + before[cursor..], cursor + 2, d.body)
            == before[..start] + (done + Encoded(d)) + before[cursor + 2 + |d.body|..]
  {
  }

  lemma WholeLoop(before: seq<Byte>, start: nat, end: nat, done: seq<Byte>, cursor: nat)
    requires start + |done| == cursor <= end <= |before|
    ensures before[..start] + done + before[cursor..] == Splice(before, start, done + before[cursor..end])
  {
  }

  lemma EditLoopEnd(e: Edit, l: seq<Byte>)
    requires Exhausted(l)
    ensures EditLoop(e, l) == l
    ensures !TouchesAny(e, ParseLoop(l).descriptors)
    ensures Overruns(l) <==> |l| >= 2
  {
  }

  /** At the end the rest holds no whole descriptor and is kept. */
  lemma ProgressEnd(e: Edit, before: seq<Byte>, start: nat, end: nat, cursor: nat, done: seq<Byte>,
                    now: seq<Byte>, changed: bool)
    requires start <= cursor <= end <= |before|
    requires Progress(e, before, start, end, cursor, done, now, changed)
    requires Exhausted(before[cursor..end])
    ensures var l := before[start..end];
            && |EditLoop(e, l)| == |l| && now == Splice(before, start, EditLoop(e, l))
            && changed == TouchesAny(e, ParseLoop(l).descriptors)
            && Overruns(l) == (end - cursor >= 2)
  {
    var rest := before[cursor..end];
    hide EditLoop, ParseLoop, TouchesAny, Overruns;
    EditLoopEnd(e, rest);
    WholeLoop(before, start, end, done, cursor);
  }

  /** The cursor loop shared by the three editors: stops at the first descriptor that overruns. */
  method EditLoopInPlace(e: Edit, bytes: array<Byte>, start: nat, end: nat) returns (changed: bool, whole: bool)
    requires start <= end <= bytes.Length
    modifies bytes
    ensures var l := old(bytes[start..end]);
            && |EditLoop(e, l)| == |l|
            && bytes[..] == Splice(old(bytes[..]), start, EditLoop(e, l))
            && changed == TouchesAny(e, ParseLoop(l).descriptors)
            && whole == !Overruns(l)
  {
    hide Progress, EditLoop, ParseLoop, TouchesAny, Overruns, Touches, EditDescriptor, Splice, Encoded;
    ghost var before := bytes[..];
    ghost var done: seq<Byte> := [];
    var cursor := start;
    changed, whole := false, true;
    ProgressStart(e, before, start, end);
    while cursor + 2 <= end
      invariant start <= cursor <= end && whole
      invariant Progress(e, before, start, end, cursor, done, bytes[..], changed)
    {
      ProgressShape(e, before, start, end, cursor, done, bytes[..], changed);
      var bodyEnd := cursor + 2 + bytes[cursor + 1] as int;
      if bodyEnd > end {
        whole := false;
        break;
      }
      ghost var now := bytes[..];
      ghost var d := RawDescriptor.Descriptor(before[cursor], before[cursor + 2..bodyEnd]);
      assert now[cursor] == before[cursor] && now[cursor + 1] == before[cursor + 1];
      SliceOfSlice(before, cursor, |before|, 2, bodyEnd - cursor);
      SliceOfSlice(now, cursor, |before|, 2, bodyEnd - cursor);
      assert bytes[cursor + 2..bodyEnd] == now[cursor + 2..bodyEnd] == d.body;
      var touched := EditDescriptorInPlace(e, bytes, cursor, bodyEnd);
      ProgressStep(e, before, start, end, cursor, done, now, changed);
      EditDescriptorSize(e, d);
      assert bytes[..] == Splice(now, cursor + 2, EditDescriptor(e, d).body) && touched == Touches(e, d);
      changed := changed || touched;
      done := done + Encoded(EditDescriptor(e, d));
      cursor := bodyEnd;
    }
    ProgressEnd(e, before, start, end, cursor, done, bytes[..], changed);
  }

  method EditLocatedLoop(e: Edit, bytes: array<Byte>) returns (changed: bool)
    modifies bytes
    ensures bytes[..] == EditedLoop(e, old(bytes[..]))
    ensures changed == TouchesLoop(e, old(bytes[..]))
  {
    ghost var before := bytes[..];
    var span := LocateDescriptorLoop(bytes[..]);
    if span.None? {
      return false;
    }
    assert bytes[span.value.start..span.value.end] == before[span.value.start..span.value.end];
    var whole;
    changed, whole := EditLoopInPlace(e, bytes, span.value.start, span.value.end);
  }

  lemma EditableSize(e: Edit, b: seq<Byte>)
    ensures BreakDurationAt(b).Some? || TouchesLoop(e, b) ==> |b| >= 15
  {
  }

  method EditBreakInPlace(e: Edit, bytes: array<Byte>, bd: nat)
    requires bd + 5 <= bytes.Length
    modifies bytes
    ensures bytes[..] == WithBreak(e, old(bytes[..]), bd)
  {
    hide NewTicks;
    var cur := Be33(bytes[..], bd);
    Be33Slice(bytes[..], bd);
    WriteBreak33(bytes, bd, NewTicks(e, cur, BREAK_RANGE));
  }

  /** `rewrite_break_duration_b64` with SetTicks, `adjust_break_duration_b64` with AddTicks. */
  method RewriteDurations(e: Edit, input: seq<Byte>) returns (r: Outcome<seq<Byte>>)
    requires !e.Restrict?
    ensures r == EditDurations(e, input)
  {
    hide LoopAt, BreakDurationAt, EditLoop, TouchesLoop, EditedLoop, Crc, BreakField, BreakBytes;
    var bytes := new Byte[|input|](i requires 0 <= i < |input| => input[i]);
    assert bytes[..] == input;
    var changed := false;
    var bd := LocateBreakDuration(bytes[..]);
    if bd.Some? {
      if bd.value + 5 > bytes.Length {
        return Crash;
      }
      EditBreakInPlace(e, bytes, bd.value);
      changed := true;
    }
    var touched := EditLocatedLoop(e, bytes);
    changed := changed || touched;
    EditableSize(e, input);
    if !changed {
      return Unchanged;
    }
    RefreshCrcInPlace(bytes);
    return Edited(bytes[..]);
  }

  /** `rewrite_delivery_flags_b64`. */
  method RewriteDelivery(e: Edit, input: seq<Byte>) returns (r: Outcome<seq<Byte>>)
    requires e.Restrict?
    ensures r == EditDelivery(e, input)
  {
    var bytes := new Byte[|input|](i requires 0 <= i < |input| => input[i]);
    assert bytes[..] == input;
    var span := LocateDescriptorLoop(bytes[..]);
    if span.None? {
      return Unchanged;
    }
    assert bytes[span.value.start..span.value.end] == input[span.value.start..span.value.end];
    var changed, whole := EditLoopInPlace(e, bytes, span.value.start, span.value.end);
    if !whole || !changed {
      return Unchanged;
    }
    RefreshCrcInPlace(bytes);
    return Edited(bytes[..]);
  }
}
