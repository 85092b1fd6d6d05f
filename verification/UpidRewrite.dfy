/** `rewrite_upid_b64` of src/tools_api.rs between its text layers: the one editor that changes
    the size of a section. */
module UpidRewrite {
  import opened Bytes
  import opened Crc32
  import opened Layout
  import opened Walkers
  import opened Descriptors
  import opened Frames

  datatype Rewritten = Kept | Replaced(descriptor: Descriptor) | TooLong | Panics

  /** What happens to one descriptor. */
  function RewriteOne(d: Descriptor, newType: Option<Byte>, encode: UpidEncoder): Rewritten {
    if d.tag != SEGMENTATION then Kept
    else
      match RewriteSegBody(d.body, newType, encode)
      case Crash => Panics
      case Unchanged => Kept
      case Edited(body) => if |body| <= 255 then Replaced(RawDescriptor.Descriptor(d.tag, body)) else TooLong
  }

  /** Every descriptor rewritten in order, up to the first that panics or no longer fits its
      length byte. */
  function RewriteAll(ds: seq<Descriptor>, newType: Option<Byte>, encode: UpidEncoder): (r: Outcome<seq<Descriptor>>)
    ensures r.Edited? ==> |r.value| == |ds|
  {
    if ds == [] then Edited([])
    else
      var front := RewriteAll(ds[..|ds| - 1], newType, encode);
      if !front.Edited? then front
      else
        var last := ds[|ds| - 1];
        match RewriteOne(last, newType, encode)
        case Kept => Edited(front.value + [last])
        case Replaced(d) => Edited(front.value + [d])
        case TooLong => Unchanged
        case Panics => Crash
  }

  predicate AnyReplaced(ds: seq<Descriptor>, newType: Option<Byte>, encode: UpidEncoder) {
    exists d :: d in ds && RewriteOne(d, newType, encode).Replaced?
  }

  /** The loop-length word for a loop of `n` bytes; its six upper bits are kept. */
  function WithLoopLength(word: seq<Byte>, n: nat): (r: seq<Byte>)
    requires |word| == 2 && n <= 0x3FF
    ensures |r| == 2
  {
    [(word[0] as int / 4 * 4 + n / 256) as Byte, n % 256]
  }

  /** A frame with a new loop, its lengths set for it. */
  function Resize(f: Frame, loop: seq<Byte>): Frame
    requires |f.head| >= 3 && |f.word| == 2 && |loop| <= 0x3FF
  {
    Frame(WithLength(f.head, |f.head| + 2 + |loop| + |f.stuffing| + 4), WithLoopLength(f.word, |loop|), loop, f.stuffing)
  }

  function RewriteUpid(b: seq<Byte>, newType: Option<Byte>, encode: UpidEncoder): Outcome<seq<Byte>> {
    if LoopAt(b).None? then Unchanged
    else
      FrameDecodes(b);
      var f := FrameOf(b);
      var ds := ParseLoop(f.loop).descriptors;
      var rewritten := RewriteAll(ds, newType, encode);
      if rewritten.Crash? then Crash
      else if rewritten.Unchanged? || Overruns(f.loop) || !AnyReplaced(ds, newType, encode)
              || |Flatten(rewritten.value)| > 0x3FF then Unchanged
      else Edited(Join(Resize(f, Flatten(rewritten.value))))
  }

  // ---- The code ----

  method RewriteDescriptors(bytes: seq<Byte>, start: nat, end: nat, newType: Option<Byte>, encode: UpidEncoder)
    returns (r: Outcome<(seq<Byte>, bool)>)
    requires start <= end <= |bytes|
    ensures var l := bytes[start..end];
            var ds := ParseLoop(l).descriptors;
            r == match RewriteAll(ds, newType, encode)
                 case Crash => Crash
                 case Unchanged => Unchanged
                 case Edited(out) =>
                   if Overruns(l) then Unchanged else Edited((Flatten(out), AnyReplaced(ds, newType, encode)))
  {
    hide ParseLoop, Flatten, RewriteAll, AnyReplaced, RewriteSegBody, Overruns;
    ghost var l := bytes[start..end];
    StartAll(newType, encode);
    var newLoop: seq<Byte> := [];
    ghost var done: seq<Descriptor> := [];
    ghost var out: seq<Descriptor> := [];
    var cursor := start;
    var changed := false;
    while cursor + 2 <= end
      invariant start <= cursor <= end
      invariant ParseLoop(l).descriptors == done + ParseLoop(bytes[cursor..end]).descriptors
      invariant ParseLoop(l).rest == ParseLoop(bytes[cursor..end]).rest
      invariant RewriteAll(done, newType, encode) == Edited(out) && newLoop == Flatten(out)
      invariant changed == AnyReplaced(done, newType, encode)
    {
      var tag := bytes[cursor];
      var bodyEnd := cursor + 2 + bytes[cursor + 1] as int;
      if bodyEnd > end {
        EndOfLoop(bytes[cursor..end]);
        OverrunsByRest(l, bytes[cursor..end]);
        assert done + [] == done;
        return Unchanged;
      }
      ghost var d := RawDescriptor.Descriptor(tag, bytes[cursor + 2..bodyEnd]);
      ghost var all := ParseLoop(l).descriptors;
      NextDescriptor(bytes, cursor, end);
      assert all == (done + [d]) + ParseLoop(bytes[bodyEnd..end]).descriptors;
      assert bytes[cursor..bodyEnd] == Encoded(d);
      ghost var now: Descriptor := d;
      if tag == SEGMENTATION {
        var nb := RewriteSegBody(bytes[cursor + 2..bodyEnd], newType, encode);
        if nb.Crash? {
          RewriteStops(all, |done|, newType, encode);
          return Crash;
        }
        if nb.Edited? {
          if |nb.value| > 255 {
            RewriteStops(all, |done|, newType, encode);
            return Unchanged;
          }
          newLoop := newLoop + [SEGMENTATION, |nb.value| as Byte] + nb.value;
          changed := true;
          now := RawDescriptor.Descriptor(tag, nb.value);
        } else {
          newLoop := newLoop + bytes[cursor..bodyEnd];
        }
      } else {
        newLoop := newLoop + bytes[cursor..bodyEnd];
      }
      OneMore(done, d, newType, encode);
      FlattenSnoc(out, now);
      done, out := done + [d], out + [now];
      cursor := bodyEnd;
    }
    EndOfLoop(bytes[cursor..end]);
    OverrunsByRest(l, bytes[cursor..end]);
    assert done + [] == done;
    return Edited((newLoop, changed));
  }

  lemma NextDescriptor(bytes: seq<Byte>, cursor: nat, end: nat)
    requires cursor + 2 <= end <= |bytes| && cursor + 2 + bytes[cursor + 1] as int <= end
    ensures var next := cursor + 2 + bytes[cursor + 1] as int;
            var d := RawDescriptor.Descriptor(bytes[cursor], bytes[cursor + 2..next]);
            && ParseLoop(bytes[cursor..end]).descriptors == [d] + ParseLoop(bytes[next..end]).descriptors
            && ParseLoop(bytes[cursor..end]).rest == ParseLoop(bytes[next..end]).rest
  {
    var next, rest := cursor + 2 + bytes[cursor + 1] as int, bytes[cursor..end];
    SliceOfSlice(bytes, cursor, end, 2, next - cursor);
    SliceOfSlice(bytes, cursor, end, next - cursor, end - cursor);
    assert rest[next - cursor..] == rest[next - cursor..end - cursor];
  }

  lemma StartAll(newType: Option<Byte>, encode: UpidEncoder)
    ensures RewriteAll([], newType, encode) == Edited([]) && !AnyReplaced([], newType, encode) && Flatten([]) == []
  {
  }

  lemma EndOfLoop(rest: seq<Byte>)
    requires Exhausted(rest)
    ensures ParseLoop(rest) == Loop([], rest)
  {
  }

  lemma OverrunsByRest(l: seq<Byte>, rest: seq<Byte>)
    requires ParseLoop(l).rest == rest
    ensures Overruns(l) <==> |rest| >= 2
  {
  }

  lemma OneMore(done: seq<Descriptor>, d: Descriptor, newType: Option<Byte>, encode: UpidEncoder)
    ensures (done + [d])[..|done|] == done
    ensures AnyReplaced(done + [d], newType, encode)
            == (AnyReplaced(done, newType, encode) || RewriteOne(d, newType, encode).Replaced?)
    ensures RewriteAll(done, newType, encode).Edited? ==>
              RewriteAll(done + [d], newType, encode)
              == match RewriteOne(d, newType, encode)
                 case Kept => Edited(RewriteAll(done, newType, encode).value + [d])
                 case Replaced(now) => Edited(RewriteAll(done, newType, encode).value + [now])
                 case TooLong => Unchanged
                 case Panics => Crash
  {
    if AnyReplaced(done, newType, encode) {
      var x :| x in done && RewriteOne(x, newType, encode).Replaced?;
      assert x in done + [d];
    }
    if RewriteOne(d, newType, encode).Replaced? {
      assert d in done + [d];
    }
  }

  /** The first descriptor that cannot be rewritten decides. */
  lemma {:induction false} RewriteStops(ds: seq<Descriptor>, k: nat, newType: Option<Byte>, encode: UpidEncoder)
    requires k < |ds| && RewriteAll(ds[..k], newType, encode).Edited?
    requires RewriteOne(ds[k], newType, encode).TooLong? || RewriteOne(ds[k], newType, encode).Panics?
    ensures RewriteAll(ds, newType, encode)
            == if RewriteOne(ds[k], newType, encode).Panics? then Crash else Unchanged
  {
    var n := |ds| - 1;
    if k < n {
      assert ds[..n][..k] == ds[..k];
      RewriteStops(ds[..n], k, newType, encode);
    }
  }

  lemma {:induction false} FlattenSnoc(ds: seq<Descriptor>, d: Descriptor)
    ensures Flatten(ds + [d]) == Flatten(ds) + Encoded(d)
  {
    if ds == [] {
      assert [] + [d] == [d] && Flatten([d]) == Encoded(d) + Flatten([]);
    } else {
      FlattenSnoc(ds[1..], d);
      assert (ds + [d])[1..] == ds[1..] + [d];
      assert Encoded(ds[0]) + (Flatten(ds[1..]) + Encoded(d)) == (Encoded(ds[0]) + Flatten(ds[1..])) + Encoded(d);
    }
  }

  method RewriteUpidInMessage(bytes: seq<Byte>, newType: Option<Byte>, encode: UpidEncoder)
    returns (r: Outcome<seq<Byte>>)
    ensures r == RewriteUpid(bytes, newType, encode)
  {
    hide Flatten, RewriteAll, AnyReplaced, Overruns, ParseLoop, LoopAt, Framed, Resize, Join;
    var located := LocateDescriptorLoop(bytes);
    if located.None? {
      return Unchanged;
    }
    var span := located.value;
    FrameDecodes(bytes);
    LoopBounds(bytes);
    var rewritten := RewriteDescriptors(bytes, span.start, span.end, newType, encode);
    if rewritten.Crash? {
      return Crash;
    }
    if rewritten.Unchanged? || !rewritten.value.1 || |rewritten.value.0| > 0x3FF {
      return Unchanged;
    }
    var out := Reassemble(bytes, span, rewritten.value.0);
    return Edited(out);
  }

  /** Header and command, new word and loop, preserved stuffing, fixed lengths, fresh CRC. */
  method Reassemble(bytes: seq<Byte>, span: LoopSpan, newLoop: seq<Byte>) returns (out: seq<Byte>)
    requires LoopAt(bytes) == Some(span) && |newLoop| <= 0x3FF
    ensures Framed(FrameOf(bytes)) && out == Join(Resize(FrameOf(bytes), newLoop))
  {
    hide LoopAt, HeadOk, CommandAt, Crc, WithLength, WithLoopLength;
    FrameDecodes(bytes);
    LoopBounds(bytes);
    ghost var f := FrameOf(bytes);
    var word := WithLoopLength(bytes[span.word..span.start], |newLoop|);
    var head, stuffing := bytes[..span.word], bytes[span.end..|bytes| - 4];
    out := head + word + newLoop + stuffing;
    ghost var total := |out| + 4;
    assert out == head + (word + newLoop + stuffing);
    out := WithLength(out, |out| + 4);
    LengthOfWhole(head, word + newLoop + stuffing, total);
    assert out == WithLength(head, total) + word + newLoop + stuffing;
    assert out == Body(Resize(f, newLoop));
    var crc := ComputeCrc32(out);
    out := out + ToBeBytes(crc);
  }

  lemma LoopBounds(b: seq<Byte>)
    requires LoopAt(b).Some?
    ensures var s := LoopAt(b).value; 14 <= s.word && s.word + 2 == s.start <= s.end && s.end + 4 <= |b|
  {
    CommandAdvances(b, HEADER_BYTES, b[13]);
  }

  lemma LengthOfWhole(head: seq<Byte>, rest: seq<Byte>, total: nat)
    requires |head| >= 3 && total >= 3
    ensures WithLength(head + rest, total) == WithLength(head, total) + rest
  {
  }
}
