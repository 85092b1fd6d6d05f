/** The same-width edits of src/tools_api.rs: set or adjust every duration, or mark delivery
    restrictions. What each does to one field, one descriptor and one loop. */
module FieldEdits {
  import opened Bytes
  import opened Descriptors

  type U64 = n: int | 0 <= n < 0x1_0000_0000_0000_0000
  type I64 = n: int | -0x8000_0000_0000_0000 <= n < 0x8000_0000_0000_0000

  const BREAK_RANGE: nat := 0x2_0000_0000
  const SEGMENT_RANGE: nat := 0x100_0000_0000

  datatype Edit =
    | SetTicks(ticks: U64)
    | AddTicks(delta: I64)
    | Restrict(webDelivery: bool, noRegionalBlackout: bool, archive: bool, devices: Byte)

  /** `(cur as i64 + delta).max(0)`; the sum wraps as a release build's does. */
  function AddClamped(cur: U64, delta: I64): nat
    requires cur < SEGMENT_RANGE
  {
    var sum := cur + delta;
    if sum < 0 || sum >= 0x8000_0000_0000_0000 then 0 else sum
  }

  /** The new value of a field of `range` values. */
  function NewTicks(e: Edit, cur: nat, range: nat): (t: nat)
    requires cur < SEGMENT_RANGE && range > 0
    ensures t < range
  {
    match e
    case SetTicks(t) => t % range
    case AddTicks(delta) => AddClamped(cur, delta) % range
    case Restrict(_, _, _, _) => cur % range
  }

  function ToBe40(v: nat): (s: seq<Byte>)
    ensures |s| == 5
  {
    [v / 0x1_0000_0000 % 256] + ToBe32(v)
  }

  /** break_duration() with new ticks, keeping auto_return and the reserved bits. */
  function BreakBytes(first: Byte, t: nat): (s: seq<Byte>)
    ensures |s| == 5
  {
    [(first as int / 2 * 2 + t / 0x1_0000_0000 % 2) as Byte] + ToBe32(t)
  }

  /** The five bytes of a break_duration() after an edit. */
  function BreakField(e: Edit, s: seq<Byte>): (r: seq<Byte>)
    requires |s| == 5
    ensures |r| == 5
  {
    BreakBytes(s[0], NewTicks(e, Be33(s, 0), BREAK_RANGE))
  }

  /** The flags byte with delivery_not_restricted cleared and the five restriction bits written. */
  function RestrictedFlags(flags: Byte, e: Edit): Byte
    requires e.Restrict?
  {
    flags as int / 64 * 64 + (if e.webDelivery then 16 else 0) + (if e.noRegionalBlackout then 8 else 0)
    + (if e.archive then 4 else 0) + e.devices % 4
  }

  predicate HasFlags(body: seq<Byte>) {
    |body| >= 10 && !BitOf(body[8], 0)
  }

  /** One segmentation_descriptor body after the edit. */
  function EditBody(e: Edit, body: seq<Byte>): (r: seq<Byte>)
    ensures |r| == |body|
  {
    if e.Restrict? then
      if HasFlags(body) then body[9 := RestrictedFlags(body[9], e)] else body
    else
      match SegDurationOffset(body)
      case None => body
      case Some(off) => Splice(body, off, ToBe40(NewTicks(e, Be40(body, off), SEGMENT_RANGE)))
  }

  predicate TouchesBody(e: Edit, body: seq<Byte>) {
    if e.Restrict? then HasFlags(body) else SegDurationOffset(body).Some?
  }

  function EditDescriptor(e: Edit, d: Descriptor): Descriptor {
    if d.tag == SEGMENTATION then RawDescriptor.Descriptor(d.tag, EditBody(e, d.body)) else d
  }

  predicate Touches(e: Edit, d: Descriptor) {
    d.tag == SEGMENTATION && TouchesBody(e, d.body)
  }

  function EditAll(e: Edit, ds: seq<Descriptor>): (r: seq<Descriptor>)
    ensures |r| == |ds|
  {
    if ds == [] then [] else [EditDescriptor(e, ds[0])] + EditAll(e, ds[1..])
  }

  predicate TouchesAny(e: Edit, ds: seq<Descriptor>) {
    ds != [] && (Touches(e, ds[0]) || TouchesAny(e, ds[1..]))
  }

  /** A descriptor loop after the edit: every whole descriptor edited, the rest kept. */
  function EditLoop(e: Edit, l: seq<Byte>): seq<Byte> {
    Flatten(EditAll(e, ParseLoop(l).descriptors)) + ParseLoop(l).rest
  }

  // ---- One field ----

  lemma Be40Written(v: nat)
    ensures Be40(ToBe40(v), 0) == v % SEGMENT_RANGE
  {
    var s := ToBe40(v);
    ToBe32Value(v);
    assert s[1..] == ToBe32(v);
    assert Be32(s, 1) == Be32(ToBe32(v), 0);
    var q := v / 0x1_0000_0000;
    Remainder(v, SEGMENT_RANGE, q / 256, q % 256 * 0x1_0000_0000 + v % 0x1_0000_0000);
  }

  lemma HalfThenDouble(v: nat, q: nat)
    requires q == v / 0x1_0000_0000
    ensures v % BREAK_RANGE == q % 2 * 0x1_0000_0000 + v % 0x1_0000_0000
  {
    Remainder(v, BREAK_RANGE, q / 2, q % 2 * 0x1_0000_0000 + v % 0x1_0000_0000);
  }

  lemma TopBit(b: Byte)
    ensures BitOf(b, 0) <==> b / 2 >= 64
  {
  }

  lemma FlagByte(first: Byte, q: nat)
    ensures var b := first as int / 2 * 2 + q % 2; b % 2 == q % 2 && b / 2 == first as int / 2
  {
    Remainder(first as int / 2 * 2 + q % 2, 2, first as int / 2, q % 2);
  }

  lemma Be33Written(first: Byte, v: nat)
    ensures Be33(BreakBytes(first, v), 0) == v % BREAK_RANGE
    ensures BitOf(BreakBytes(first, v)[0], 0) == BitOf(first, 0)
  {
    var s := BreakBytes(first, v);
    ToBe32Value(v);
    assert Be32(s, 1) == Be32(ToBe32(v), 0);
    var q := v / 0x1_0000_0000;
    FlagByte(first, q);
    assert s[0] % 2 == q % 2 && s[0] / 2 == first / 2;
    hide ToBe32, BitOf;
    HalfThenDouble(v, q);
    TopBit(s[0]);
    TopBit(first);
  }

  lemma SmallRemainder(t: nat, range: nat)
    requires t < range
    ensures t % range == t
  {
  }

  /** The edited field reads as the new ticks, with auto_return kept. */
  lemma BreakFieldTicks(e: Edit, s: seq<Byte>)
    requires |s| == 5
    ensures Be33(BreakField(e, s), 0) == NewTicks(e, Be33(s, 0), BREAK_RANGE)
    ensures BitOf(BreakField(e, s)[0], 0) == BitOf(s[0], 0)
  {
    var t := NewTicks(e, Be33(s, 0), BREAK_RANGE);
    Be33Written(s[0], t);
    SmallRemainder(t, BREAK_RANGE);
  }

  lemma BreakFieldTwice(e1: Edit, e2: Edit, e: Edit, s: seq<Byte>)
    requires |s| == 5
    requires NewTicks(e2, NewTicks(e1, Be33(s, 0), BREAK_RANGE), BREAK_RANGE) == NewTicks(e, Be33(s, 0), BREAK_RANGE)
    ensures BreakField(e2, BreakField(e1, s)) == BreakField(e, s)
  {
    BreakFieldTicks(e1, s);
    var once := BreakField(e1, s);
    SameReserved(s[0], NewTicks(e1, Be33(s, 0), BREAK_RANGE), once[0], NewTicks(e, Be33(s, 0), BREAK_RANGE));
  }

  lemma SameReserved(first: Byte, t: nat, once: Byte, u: nat)
    requires once == BreakBytes(first, t)[0]
    ensures BreakBytes(once, u) == BreakBytes(first, u)
  {
    assert once / 2 == first / 2;
  }

  lemma ToBe32OfBe32(d: seq<Byte>, at: nat)
    requires at + 4 <= |d|
    ensures ToBe32(Be32(d, at)) == d[at..at + 4]
  {
    var a, b, c, e: int := d[at], d[at + 1], d[at + 2], d[at + 3];
    var v := Be32(d, at);
    assert v == 0x100_0000 * a + 0x1_0000 * b + 0x100 * c + e;
    assert v / 0x100 == 0x1_0000 * a + 0x100 * b + c;
    assert v / 0x1_0000 == 0x100 * a + b;
    assert v / 0x100_0000 == a;
  }

  lemma SameTicks(body: seq<Byte>, off: nat)
    requires off + 5 <= |body|
    ensures Splice(body, off, ToBe40(Be40(body, off))) == body
  {
    ToBe32OfBe32(body, off + 1);
    var v := Be40(body, off);
    assert v / 0x1_0000_0000 == body[off];
    assert v % 0x1_0000_0000 == Be32(body, off + 1);
    ToBe32Low(v);
  }

  lemma DropMultiple(q: nat, r: nat)
    ensures (256 * q + r) % 256 == r % 256
  {
  }

  lemma ToBe32Low(v: nat)
    ensures ToBe32(v) == ToBe32(v % 0x1_0000_0000)
  {
    var q, r := v / 0x1_0000_0000, v % 0x1_0000_0000;
    assert v / 0x100 == 256 * (0x1_0000 * q) + r / 0x100;
    assert v / 0x1_0000 == 256 * (0x100 * q) + r / 0x1_0000;
    assert v / 0x100_0000 == 256 * q + r / 0x100_0000;
    assert v == 256 * (0x100_0000 * q) + r;
    DropMultiple(0x1_0000 * q, r / 0x100);
    DropMultiple(0x100 * q, r / 0x1_0000);
    DropMultiple(q, r / 0x100_0000);
    DropMultiple(0x100_0000 * q, r);
  }

  // ---- One body ----

  /** segmentation_duration as the decoders read it. */
  function SegTicks(body: seq<Byte>): (r: Option<nat>)
    ensures r.Some? ==> r.value < SEGMENT_RANGE
  {
    match SegDurationOffset(body)
    case None => None
    case Some(off) => Some(Be40(body, off))
  }

  /** No edit moves the duration or the flags, and ticks read back as written. */
  lemma EditBodyFrame(e: Edit, body: seq<Byte>)
    ensures SegDurationOffset(EditBody(e, body)) == SegDurationOffset(body)
    ensures HasFlags(EditBody(e, body)) == HasFlags(body)
    ensures SegTicks(EditBody(e, body)) ==
            match SegTicks(body)
            case None => None
            case Some(cur) => Some(NewTicks(e, cur, SEGMENT_RANGE))
  {
    if e.Restrict? {
      RestrictFrame(e, body);
    } else if SegDurationOffset(body).Some? {
      var off := SegDurationOffset(body).value;
      WrittenTicks(body, NewTicks(e, Be40(body, off), SEGMENT_RANGE));
    }
  }

  lemma WrittenTicks(body: seq<Byte>, t: nat)
    requires SegDurationOffset(body).Some? && t < SEGMENT_RANGE
    ensures var off := SegDurationOffset(body).value;
            var r := Splice(body, off, ToBe40(t));
            && SegDurationOffset(r) == Some(off) && HasFlags(r) && HasFlags(body)
            && Be40(r, off) == t
  {
    Be40Written(t);
    SmallRemainder(t, SEGMENT_RANGE);
    hide ToBe40, SegDurationOffset, HasFlags, Be40;
    SpliceOffset(body, ToBe40(t));
  }

  lemma SpliceOffset(body: seq<Byte>, s: seq<Byte>)
    requires SegDurationOffset(body).Some? && |s| == 5
    ensures var off := SegDurationOffset(body).value;
            && SegDurationOffset(Splice(body, off, s)) == Some(off)
            && HasFlags(Splice(body, off, s)) && HasFlags(body)
            && Be40(Splice(body, off, s), off) == Be40(s, 0)
  {
    var off := SegDurationOffset(body).value;
    var r := Splice(body, off, s);
    assert r[9] == body[9] && r[8] == body[8] && (10 < off ==> r[10] == body[10]);
    assert r[off..off + 5] == s;
    SameBe40(r, off, s);
  }

  lemma RestrictFrame(e: Edit, body: seq<Byte>)
    requires e.Restrict?
    ensures SegDurationOffset(EditBody(e, body)) == SegDurationOffset(body)
    ensures HasFlags(EditBody(e, body)) == HasFlags(body)
    ensures SegTicks(EditBody(e, body)) == SegTicks(body)
  {
    if HasFlags(body) {
      TopFlags(body[9], e);
    }
  }

  lemma SameBe40(r: seq<Byte>, off: nat, s: seq<Byte>)
    requires off + 5 <= |r| && |s| == 5 && r[off..off + 5] == s
    ensures Be40(r, off) == Be40(s, 0)
  {
    assert r[off] == s[0] && r[off + 1] == s[1] && r[off + 2] == s[2] && r[off + 3] == s[3] && r[off + 4] == s[4];
  }

  lemma SecondBit(f: nat, h: nat, low: nat)
    requires f == 64 * h + low && low < 64
    ensures f % 128 >= 64 <==> h % 2 == 1
  {
    Remainder(f, 128, h / 2, 64 * (h % 2) + low);
  }

  lemma Congruent(f: nat, low: nat, m: nat, k: nat)
    requires m > 0 && f == k * m + low
    ensures f % m == low % m
  {
    var q, r := low / m, low % m;
    assert f == (k + q) * m + r;
    Remainder(f, m, k + q, r);
  }

  lemma SplitByte(f: Byte, h: nat, low: nat)
    requires f == 64 * h + low && low < 64
    ensures f / 64 == h && f % 64 == low && f % 4 == low % 4
    ensures BitOf(f, 0) == (h >= 2) && BitOf(f, 1) == (h % 2 == 1) && BitOf(f, 2) == (low >= 32)
    ensures BitOf(f, 3) == (low % 32 >= 16) && BitOf(f, 4) == (low % 16 >= 8) && BitOf(f, 5) == (low % 8 >= 4)
  {
    assert f / 64 == h && f % 64 == low;
    assert BitOf(f, 1) == (h % 2 == 1) by { SecondBit(f, h, low); }
    assert f % 32 == low % 32 by { Congruent(f, low, 32, 2 * h); }
    assert f % 16 == low % 16 by { Congruent(f, low, 16, 4 * h); }
    assert f % 8 == low % 8 by { Congruent(f, low, 8, 8 * h); }
    assert f % 4 == low % 4 by { Congruent(f, low, 4, 16 * h); }
  }

  lemma RestrictionBits(low: nat, e: Edit)
    requires e.Restrict?
    requires low == (if e.webDelivery then 16 else 0) + (if e.noRegionalBlackout then 8 else 0)
                    + (if e.archive then 4 else 0) + e.devices % 4
    ensures low < 32 && (low % 32 >= 16) == e.webDelivery && (low % 16 >= 8) == e.noRegionalBlackout
    ensures (low % 8 >= 4) == e.archive && low % 4 == e.devices % 4
  {
  }

  lemma TopFlags(flags: Byte, e: Edit)
    requires e.Restrict?
    ensures var f := RestrictedFlags(flags, e);
            && f / 64 == flags / 64
            && BitOf(f, 0) == BitOf(flags, 0) && BitOf(f, 1) == BitOf(flags, 1)
            && !BitOf(f, 2)
            && BitOf(f, 3) == e.webDelivery && BitOf(f, 4) == e.noRegionalBlackout && BitOf(f, 5) == e.archive
            && f % 4 == e.devices % 4
  {
    var f := RestrictedFlags(flags, e);
    var h, low := flags as int / 64, f as int - flags as int / 64 * 64;
    SplitByte(f, h, low);
    SplitByte(flags, h, flags % 64);
    RestrictionBits(low, e);
  }

  /** Tick edits compose when their effect on the field does. */
  lemma TickEditsCompose(e1: Edit, e2: Edit, e: Edit, body: seq<Byte>)
    requires !e1.Restrict? && !e2.Restrict? && !e.Restrict?
    requires SegTicks(body).Some? ==>
               NewTicks(e2, NewTicks(e1, SegTicks(body).value, SEGMENT_RANGE), SEGMENT_RANGE)
               == NewTicks(e, SegTicks(body).value, SEGMENT_RANGE)
    ensures EditBody(e2, EditBody(e1, body)) == EditBody(e, body)
  {
    EditBodyFrame(e1, body);
  }

  /** Restrictions and ticks occupy different bytes. */
  lemma RestrictCommutes(r: Edit, t: Edit, body: seq<Byte>)
    requires r.Restrict? && !t.Restrict?
    ensures EditBody(t, EditBody(r, body)) == EditBody(r, EditBody(t, body))
  {
    EditBodyFrame(r, body);
    EditBodyFrame(t, body);
    if SegDurationOffset(body).Some? {
      var off := SegDurationOffset(body).value;
      assert EditBody(t, body)[9] == body[9];
      assert EditBody(t, EditBody(r, body)) == EditBody(r, EditBody(t, body));
    }
  }

  /** Only the latest restrictions remain. */
  lemma RestrictTwice(r1: Edit, r2: Edit, body: seq<Byte>)
    requires r1.Restrict? && r2.Restrict?
    ensures EditBody(r2, EditBody(r1, body)) == EditBody(r2, body)
  {
    if HasFlags(body) {
      TopFlags(body[9], r1);
    }
  }

  /** In a fully walkable body an edit changes one field of the segment and nothing else: the
      duration bytes, or the flags byte, whose program and duration flags survive. */
  lemma EditSegment(e: Edit, body: seq<Byte>)
    requires SegmentOf(body).Some?
    ensures var s := SegmentOf(body).value;
            SegmentOf(EditBody(e, body)) ==
            Some(if e.Restrict? then s.(flags := RestrictedFlags(s.flags, e))
                 else if BitOf(s.flags, 1)
                 then s.(duration := ToBe40(NewTicks(e, SegTicks(body).value, SEGMENT_RANGE)))
                 else s)
  {
    SegmentDecodes(body);
    WalkersAgree(body, None, t => None);
    if e.Restrict? {
      RestrictSegment(e, SegmentOf(body).value);
    } else if SegDurationOffset(body).Some? {
      SegmentDuration(SegmentOf(body).value, ToBe40(NewTicks(e, SegTicks(body).value, SEGMENT_RANGE)));
    }
  }

  lemma RestrictSegment(e: Edit, s: Segment)
    requires e.Restrict? && WellFormed(s)
    ensures var body := EncodeSegment(s);
            HasFlags(body) && body[9] == s.flags
            && SegmentOf(body[9 := RestrictedFlags(s.flags, e)]) == Some(s.(flags := RestrictedFlags(s.flags, e)))
  {
    hide SegmentOf, RestrictedFlags;
    var body, s' := EncodeSegment(s), s.(flags := RestrictedFlags(s.flags, e));
    TopFlags(s.flags, e);
    hide BitOf;
    assert body[8] == s.prefix[8];
    assert body[9 := s'.flags] == EncodeSegment(s');
    SegmentEncodes(s');
  }

  lemma SegmentDuration(s: Segment, d: seq<Byte>)
    requires WellFormed(s) && BitOf(s.flags, 1) && |d| == 5
    ensures var off := 10 + |s.components|;
            && off + 5 <= |EncodeSegment(s)|
            && SegmentOf(Splice(EncodeSegment(s), off, d)) == Some(s.(duration := d))
  {
    var front := s.prefix + [s.flags] + s.components;
    var back := [s.upidType, |s.upid| as Byte] + s.upid + s.tail;
    assert EncodeSegment(s) == front + s.duration + back;
    assert EncodeSegment(s.(duration := d)) == front + d + back;
    assert Splice(front + s.duration + back, |front|, d) == front + d + back;
    SegmentEncodes(s.(duration := d));
  }

  // ---- Whole loops ----

  lemma {:induction false} EditAllAt(e: Edit, ds: seq<Descriptor>, k: nat)
    requires k < |ds|
    ensures EditAll(e, ds)[k] == EditDescriptor(e, ds[k])
  {
    if k > 0 {
      EditAllAt(e, ds[1..], k - 1);
    }
  }

  lemma {:induction false} EditAllLength(e: Edit, ds: seq<Descriptor>)
    ensures |Flatten(EditAll(e, ds))| == |Flatten(ds)|
  {
    if ds != [] {
      EditAllLength(e, ds[1..]);
      assert EditAll(e, ds)[1..] == EditAll(e, ds[1..]);
    }
  }

  /** The edited loop parses into the edited descriptors and the same rest. */
  lemma EditLoopParses(e: Edit, l: seq<Byte>)
    ensures ParseLoop(EditLoop(e, l)) == Loop(EditAll(e, ParseLoop(l).descriptors), ParseLoop(l).rest)
    ensures |EditLoop(e, l)| == |l|
  {
    FlattenParse(l);
    ParseFlatten(EditAll(e, ParseLoop(l).descriptors), ParseLoop(l).rest);
    EditAllLength(e, ParseLoop(l).descriptors);
  }

  /** One turn of the code's cursor loop. */
  lemma EditLoopStep(e: Edit, l: seq<Byte>)
    requires !Exhausted(l)
    ensures var n, d := 2 + l[1] as int, RawDescriptor.Descriptor(l[0], l[2..2 + l[1]]);
            && EditLoop(e, l) == Encoded(EditDescriptor(e, d)) + EditLoop(e, l[n..])
            && TouchesAny(e, ParseLoop(l).descriptors)
               == (Touches(e, d) || TouchesAny(e, ParseLoop(l[n..]).descriptors))
            && Overruns(l) == Overruns(l[n..])
  {
    var n, d := 2 + l[1] as int, RawDescriptor.Descriptor(l[0], l[2..2 + l[1]]);
    var tail := ParseLoop(l[n..]);
    var ds := [d] + tail.descriptors;
    assert ParseLoop(l) == Loop(ds, tail.rest);
    assert ds[1..] == tail.descriptors;
    assert EditAll(e, ds)[1..] == EditAll(e, tail.descriptors);
  }
}
