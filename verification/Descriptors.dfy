/** The descriptor loop, and the body of a segmentation_descriptor (ANSI/SCTE 35 2020,
    section 10.3.3), each with the abstract form its bytes stand for. */
module Descriptors {
  import opened Bytes

  // ---- The loop: tag, length, body ----

  datatype RawDescriptor = Descriptor(tag: Byte, body: seq<Byte>)

  type Descriptor = d: RawDescriptor | |d.body| < 256 witness RawDescriptor.Descriptor(0, [])

  const SEGMENTATION: Byte := 0x02

  function Encoded(d: Descriptor): seq<Byte> {
    [d.tag, |d.body|] + d.body
  }

  function Flatten(ds: seq<Descriptor>): seq<Byte> {
    if ds == [] then [] else Encoded(ds[0]) + Flatten(ds[1..])
  }

  /** A loop is whole descriptors followed by bytes that hold no further one. */
  datatype Loop = Loop(descriptors: seq<Descriptor>, rest: seq<Byte>)

  predicate Exhausted(rest: seq<Byte>) {
    |rest| < 2 || 2 + rest[1] > |rest|
  }

  function ParseLoop(l: seq<Byte>): Loop {
    if Exhausted(l) then Loop([], l)
    else
      var tail := ParseLoop(l[2 + l[1]..]);
      Loop([RawDescriptor.Descriptor(l[0], l[2..2 + l[1]])] + tail.descriptors, tail.rest)
  }

  /** A descriptor that claims more bytes than the loop holds. */
  predicate Overruns(l: seq<Byte>) {
    |ParseLoop(l).rest| >= 2
  }

  lemma FlattenCons(d: Descriptor, ds: seq<Descriptor>)
    ensures Flatten([d] + ds) == Encoded(d) + Flatten(ds)
  {
    assert ([d] + ds)[1..] == ds;
  }

  lemma JoinHead(l: seq<Byte>, n: nat, flat: seq<Byte>, rest: seq<Byte>)
    requires 2 <= n <= |l| && flat + rest == l[n..]
    ensures ([l[0], l[1]] + l[2..n]) + flat + rest == l
  {
    assert ([l[0], l[1]] + l[2..n]) + flat + rest == [l[0], l[1]] + l[2..n] + (flat + rest);
  }

  lemma {:induction false} FlattenParse(l: seq<Byte>)
    ensures Flatten(ParseLoop(l).descriptors) + ParseLoop(l).rest == l
    ensures Exhausted(ParseLoop(l).rest)
  {
    if !Exhausted(l) {
      var n: nat := 2 + l[1] as int;
      var d, tail := RawDescriptor.Descriptor(l[0], l[2..n]), ParseLoop(l[n..]);
      FlattenParse(l[n..]);
      FlattenCons(d, tail.descriptors);
      JoinHead(l, n, Flatten(tail.descriptors), tail.rest);
    }
  }

  lemma ParseFirst(d: Descriptor, more: seq<Byte>)
    ensures var tail := ParseLoop(more);
            ParseLoop(Encoded(d) + more) == Loop([d] + tail.descriptors, tail.rest)
  {
    var l := Encoded(d) + more;
    assert l[0] == d.tag && l[1] == |d.body|;
    assert l[2..2 + l[1]] == d.body;
    assert l[2 + l[1]..] == more;
  }

  lemma {:induction false} ParseFlatten(ds: seq<Descriptor>, rest: seq<Byte>)
    requires Exhausted(rest)
    ensures ParseLoop(Flatten(ds) + rest) == Loop(ds, rest)
  {
    var l := Flatten(ds) + rest;
    if ds == [] {
      assert l == rest;
    } else {
      var d, more := ds[0], Flatten(ds[1..]) + rest;
      ParseFlatten(ds[1..], rest);
      assert l == Encoded(d) + more;
      ParseFirst(d, more);
      assert ds == [d] + ds[1..];
    }
  }

  // ---- The segmentation_descriptor body ----

  /** The fields of a live (not cancelled) segmentation_descriptor; `components` carries the count
      byte, `duration` is empty or five bytes, `tail` is everything behind the UPID. */
  datatype Segment = Segment(prefix: seq<Byte>, flags: Byte, components: seq<Byte>, duration: seq<Byte>,
                             upidType: Byte, upid: seq<Byte>, tail: seq<Byte>)

  predicate WellFormed(s: Segment) {
    && |s.prefix| == 9 && !BitOf(s.prefix[8], 0)
    && (if BitOf(s.flags, 0) then s.components == []
        else |s.components| > 0 && |s.components| == 1 + 6 * (s.components[0] as int))
    && |s.duration| == (if BitOf(s.flags, 1) then 5 else 0)
    && |s.upid| < 256
  }

  function EncodeSegment(s: Segment): seq<Byte>
    requires WellFormed(s)
  {
    s.prefix + [s.flags] + s.components + s.duration + [s.upidType, |s.upid|] + s.upid + s.tail
  }

  /** Bytes of the component part, when its count byte is there. */
  function ComponentBytes(body: seq<Byte>, flags: Byte): Option<nat> {
    if BitOf(flags, 0) then Some(0)
    else if |body| <= 10 then None
    else Some(1 + 6 * (body[10] as int))
  }

  /** Where segmentation_upid_type stands in a live body. */
  function UpidAt(body: seq<Byte>): Option<nat> {
    if |body| < 10 || BitOf(body[8], 0) then None
    else
      var n :- ComponentBytes(body, body[9]);
      Some(10 + n + if BitOf(body[9], 1) then 5 else 0)
  }

  function SegmentOf(body: seq<Byte>): (r: Option<Segment>)
    ensures r.Some? ==> WellFormed(r.value)
  {
    var u :- UpidAt(body);
    var n :- ComponentBytes(body, body[9]);
    if u + 2 > |body| || u + 2 + body[u + 1] > |body| then None
    else
      var e := u + 2 + body[u + 1];
      Some(Segment(body[..9], body[9], body[10..10 + n], body[10 + n..u], body[u], body[u + 2..e], body[e..]))
  }

  lemma SixPieces(body: seq<Byte>, c: nat, u: nat, e: nat)
    requires 10 <= c <= u && u + 2 <= e <= |body|
    ensures body == body[..9] + [body[9]] + body[10..c] + body[c..u] + [body[u], body[u + 1]]
                    + body[u + 2..e] + body[e..]
  {
  }

  lemma SegmentDecodes(body: seq<Byte>)
    requires SegmentOf(body).Some?
    ensures EncodeSegment(SegmentOf(body).value) == body
  {
    var s := SegmentOf(body).value;
    var u := UpidAt(body).value;
    var n := ComponentBytes(body, body[9]).value;
    var e := u + 2 + body[u + 1];
    SixPieces(body, 10 + n, u, e);
  }

  lemma SegmentEncodes(s: Segment)
    requires WellFormed(s)
    ensures SegmentOf(EncodeSegment(s)) == Some(s)
  {
    var body := EncodeSegment(s);
    var c, u := 10 + |s.components|, 10 + |s.components| + |s.duration|;
    assert body[..9] == s.prefix && body[9] == s.flags && body[8] == s.prefix[8];
    assert body[10..c] == s.components;
    assert !BitOf(s.flags, 0) ==> body[10] == s.components[0];
    assert body[c..u] == s.duration;
    assert body[u] == s.upidType && body[u + 1] == |s.upid|;
    assert body[u + 2..u + 2 + |s.upid|] == s.upid;
    assert body[u + 2 + |s.upid|..] == s.tail;
  }

  // ---- The code's own walks over a body ----

  /** `seg_duration_offset`. */
  function SegDurationOffset(body: seq<Byte>): Option<nat> {
    if |body| < 10 || BitOf(body[8], 0) then None
    else if !BitOf(body[9], 1) then None
    else
      var idx: nat :- if BitOf(body[9], 0) then Some(10 as nat)
                      else if 10 < |body| then Some(11 + 6 * (body[10] as int)) else None;
      if idx + 5 > |body| then None else Some(idx)
  }

  /** `encode_upid` on the new UPID text, for each type; None where it panics. */
  type UpidEncoder = Byte -> Option<seq<Byte>>

  /** The walk of `rewrite_seg_descriptor_body` to segmentation_upid_type. */
  function WalkToUpid(body: seq<Byte>): Option<nat> {
    if |body| < 9 || BitOf(body[8], 0) || |body| == 9 then None
    else
      var idx: nat :- if BitOf(body[9], 0) then Some(10 as nat)
                      else if 10 < |body| then Some(11 + 6 * (body[10] as int)) else None;
      var upid := if BitOf(body[9], 1) then idx + 5 else idx;
      if upid + 1 >= |body| || upid + 2 + body[upid + 1] > |body| then None else Some(upid)
  }

  /** `rewrite_seg_descriptor_body`. */
  function RewriteSegBody(body: seq<Byte>, newType: Option<Byte>, encode: UpidEncoder): Outcome<seq<Byte>> {
    match WalkToUpid(body)
    case None => Unchanged
    case Some(upid) =>
      var typ := if newType.Some? then newType.value else body[upid];
      match encode(typ)
      case None => Crash
      case Some(text) =>
        if |text| > 255 then Unchanged
        else Edited(body[..upid] + [typ] + [|text| as Byte] + text + body[upid + 2 + body[upid + 1]..])
  }

  function NewType(s: Segment, newType: Option<Byte>): Byte {
    if newType.Some? then newType.value else s.upidType
  }

  /** The walkers agree with the layout, hence with each other: the duration ends where the UPID
      type begins, and rewriting replaces the UPID fields of the segment and nothing else. */
  lemma WalkersAgree(body: seq<Byte>, newType: Option<Byte>, encode: UpidEncoder)
    ensures SegmentOf(body).None? ==> RewriteSegBody(body, newType, encode).Unchanged?
    ensures SegmentOf(body).Some? ==>
              var s := SegmentOf(body).value;
              && UpidAt(body) == Some(10 + |s.components| + |s.duration|)
              && SegDurationOffset(body)
                 == (if BitOf(s.flags, 1) then Some(UpidAt(body).value - 5) else None)
              && var typ := NewType(s, newType);
              && RewriteSegBody(body, newType, encode)
                 == match encode(typ)
                    case None => Crash
                    case Some(text) =>
                      if |text| > 255 then Unchanged else Edited(EncodeSegment(s.(upidType := typ, upid := text)))
  {
    WalkFinds(body);
    if SegmentOf(body).Some? {
      var s := SegmentOf(body).value;
      SegmentDecodes(body);
      var u := UpidAt(body).value;
      var typ := NewType(s, newType);
      SegmentAround(body);
      hide SegmentOf, UpidAt, WalkToUpid, SegDurationOffset, BitOf, WellFormed;
      if encode(typ).Some? && |encode(typ).value| <= 255 {
        var text := encode(typ).value;
        var t := s.(upidType := typ, upid := text);
        assert EncodeSegment(t) == body[..u] + [typ] + [|text| as Byte] + text + s.tail;
      }
    }
  }

  /** The walk of the rewrite and the offset of the duration, against the layout. */
  lemma WalkFinds(body: seq<Byte>)
    ensures WalkToUpid(body) == if SegmentOf(body).Some? then UpidAt(body) else None
    ensures SegmentOf(body).Some? ==>
              var s := SegmentOf(body).value;
              && UpidAt(body) == Some(10 + |s.components| + |s.duration|)
              && SegDurationOffset(body) == if BitOf(s.flags, 1) then Some(UpidAt(body).value - 5) else None
  {
    hide BitOf;
  }

  /** What lies in front of the UPID of a segment and behind it. */
  lemma SegmentAround(body: seq<Byte>)
    requires SegmentOf(body).Some?
    ensures var s, u := SegmentOf(body).value, UpidAt(body).value;
            && u + 2 <= |body| && u + 2 + body[u + 1] as int <= |body|
            && body[u] == s.upidType
            && body[..u] == s.prefix + [s.flags] + s.components + s.duration
            && body[u + 2 + body[u + 1] as int..] == s.tail
  {
    hide BitOf;
  }
}
