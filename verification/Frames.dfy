/** A section as four byte strings and a CRC: the header with its command, the loop-length word,
    the descriptor loop, and the alignment stuffing. */
module Frames {
  import opened Bytes
  import opened Layout
  import opened Crc32

  datatype Frame = Frame(head: seq<Byte>, word: seq<Byte>, loop: seq<Byte>, stuffing: seq<Byte>)

  /** A readable header followed by exactly one command. */
  predicate HeadOk(head: seq<Byte>) {
    && |head| >= HEADER_BYTES && head[0] == 0xFC && !BitOf(head[4], 0)
    && CommandAt(head, HEADER_BYTES, head[13]).Some?
    && CommandAt(head, HEADER_BYTES, head[13]).value.end == |head|
  }

  predicate Framed(f: Frame) {
    && HeadOk(f.head)
    && |f.word| == 2
    && Be16(f.word, 0) % 0x400 == |f.loop|
  }

  function Body(f: Frame): seq<Byte> {
    f.head + f.word + f.loop + f.stuffing
  }

  function WithCrc(body: seq<Byte>): (b: seq<Byte>)
    ensures |b| == |body| + 4
  {
    body + ToBeBytes(Crc(body))
  }

  function Join(f: Frame): seq<Byte> {
    WithCrc(Body(f))
  }

  function FrameOf(b: seq<Byte>): Frame
    requires LoopAt(b).Some?
  {
    var s := LoopAt(b).value;
    Frame(b[..s.word], b[s.word..s.start], b[s.start..s.end], b[s.end..|b| - 4])
  }

  lemma WithCrcSealed(body: seq<Byte>)
    ensures Sealed(WithCrc(body))
  {
    var b := WithCrc(body);
    assert b[..|b| - 4] == body && b[|b| - 4..] == ToBeBytes(Crc(body));
  }

  lemma HeadOfMessage(b: seq<Byte>)
    requires Readable(b) && CommandAt(b, HEADER_BYTES, b[13]).Some?
    ensures var n := CommandAt(b, HEADER_BYTES, b[13]).value.end;
            && HEADER_BYTES <= n <= |b| && HeadOk(b[..n])
            && CommandAt(b[..n], HEADER_BYTES, b[13]) == CommandAt(b, HEADER_BYTES, b[13])
  {
    CommandAdvances(b, HEADER_BYTES, b[13]);
    var n := CommandAt(b, HEADER_BYTES, b[13]).value.end;
    CommandLocal(b, b[..n], HEADER_BYTES, b[13]);
  }

  lemma HeadInMessage(head: seq<Byte>, rest: seq<Byte>)
    requires HeadOk(head) && |rest| > 0
    ensures var b := head + rest;
            && Readable(b) && b[13] == head[13]
            && CommandAt(b, HEADER_BYTES, b[13]) == CommandAt(head, HEADER_BYTES, head[13])
  {
    CommandLocal(head, head + rest, HEADER_BYTES, head[13]);
  }

  lemma Partition(b: seq<Byte>, i: nat, j: nat, k: nat, l: nat)
    requires i <= j <= k <= l <= |b|
    ensures b == b[..i] + b[i..j] + b[j..k] + b[k..l] + b[l..]
  {
  }

  lemma SealedIsJoined(b: seq<Byte>, body: seq<Byte>)
    requires |b| >= 4 && b == body + b[|b| - 4..]
    ensures Sealed(b) <==> b == WithCrc(body)
  {
    assert b[..|b| - 4] == body;
    if b == WithCrc(body) {
      WithCrcSealed(body);
    }
  }

  /** Whatever `locate_descriptor_loop` accepts is a frame and four more bytes. */
  lemma FrameDecodes(b: seq<Byte>)
    requires LoopAt(b).Some?
    ensures Framed(FrameOf(b))
    ensures b == Body(FrameOf(b)) + b[|b| - 4..]
    ensures Sealed(b) <==> b == Join(FrameOf(b))
  {
    var s, f := LoopAt(b).value, FrameOf(b);
    HeadOfMessage(b);
    Partition(b, s.word, s.start, s.end, |b| - 4);
    assert Framed(f) by {
      assert f.word[0] == b[s.word] && f.word[1] == b[s.word + 1];
    }
    SealedIsJoined(b, Body(f));
  }

  lemma Pieces(f: Frame, crc: seq<Byte>)
    requires |f.word| == 2 && |crc| == 4
    ensures var b, n, m := Body(f) + crc, |f.head|, |f.head| + 2 + |f.loop|;
            && b[..n] == f.head && b[n..n + 2] == f.word && b[n + 2..m] == f.loop && b[m..|b| - 4] == f.stuffing
            && Be16(b, n) == Be16(f.word, 0) && |b| == m + |f.stuffing| + 4
            && b == f.head + (f.word + f.loop + f.stuffing + crc)
  {
    var b, n := Body(f) + crc, |f.head|;
    assert b[n] == f.word[0] && b[n + 1] == f.word[1];
  }

  /** A frame followed by any four bytes is located where it stands. */
  lemma FrameEncodes(f: Frame, crc: seq<Byte>)
    requires Framed(f) && |crc| == 4
    ensures var b := Body(f) + crc;
            && LoopAt(b) == Some(LoopSpan(|f.head|, |f.head| + 2, |f.head| + 2 + |f.loop|))
            && FrameOf(b) == f
  {
    hide CommandAt, Readable, BitOf, Body, HeadOk, Be16;
    Pieces(f, crc);
    HeadInMessage(f.head, f.word + f.loop + f.stuffing + crc);
    LocatedAt(Body(f) + crc, f.head, |f.loop|);
  }

  /** Where the loop of a readable message is, from its command and its loop word. */
  lemma LocatedAt(b: seq<Byte>, head: seq<Byte>, size: nat)
    requires HeadOk(head) && Readable(b)
    requires CommandAt(b, HEADER_BYTES, b[13]) == CommandAt(head, HEADER_BYTES, head[13])
    requires |head| + 2 + size + 4 <= |b| && Be16(b, |head|) % 0x400 == size
    ensures LoopAt(b) == Some(LoopSpan(|head|, |head| + 2, |head| + 2 + size))
  {
    hide CommandAt, Readable, BitOf, Be16;
  }

  lemma JoinFrames(f: Frame)
    requires Framed(f)
    ensures LoopAt(Join(f)) == Some(LoopSpan(|f.head|, |f.head| + 2, |f.head| + 2 + |f.loop|))
    ensures FrameOf(Join(f)) == f
    ensures Sealed(Join(f))
  {
    FrameEncodes(f, ToBeBytes(Crc(Body(f))));
    WithCrcSealed(Body(f));
  }

  // ---- Section length ----

  /** section_length, the low nibble of byte 1 and byte 2. */
  function SectionLength(b: seq<Byte>): nat
    requires |b| >= 3
  {
    b[1] as int % 16 * 256 + b[2]
  }

  /** section_length counts everything behind itself, the CRC included. */
  predicate LengthCorrect(b: seq<Byte>) {
    |b| >= 3 && SectionLength(b) + 3 == |b|
  }

  /** What a receiver checks of a whole section. */
  predicate ValidSection(b: seq<Byte>) {
    |b| >= 14 && b[0] == 0xFC && LengthCorrect(b) && Sealed(b)
  }

  /** Rewrites section_length for a section of `total` bytes, keeping the other bits of byte 1. */
  function WithLength(head: seq<Byte>, total: nat): (r: seq<Byte>)
    requires |head| >= 3 && total >= 3
    ensures |r| == |head|
  {
    head[1 := (head[1] as int / 16 * 16 + (total - 3) / 256 % 16) as Byte][2 := (total - 3) % 256]
  }

  lemma WithLengthHead(head: seq<Byte>, total: nat)
    requires HeadOk(head) && total >= 3
    ensures HeadOk(WithLength(head, total))
    ensures CommandAt(WithLength(head, total), HEADER_BYTES, head[13]) == CommandAt(head, HEADER_BYTES, head[13])
    ensures WithLength(head, total)[13] == head[13]
  {
    CommandLocal(head, WithLength(head, total), HEADER_BYTES, head[13]);
  }

  /** The 12-bit field holds the length exactly when the section fits it. */
  lemma WithLengthField(head: seq<Byte>, rest: seq<Byte>)
    requires |head| >= 3
    ensures LengthCorrect(WithLength(head, |head| + |rest|) + rest) <==> |head| + |rest| <= 4098
  {
    var total := |head| + |rest|;
    var b := WithLength(head, total) + rest;
    assert b[1] as int % 16 == (total - 3) / 256 % 16;
    assert b[2] == (total - 3) % 256;
  }

  lemma WithLengthTwice(head: seq<Byte>, t: nat, u: nat)
    requires |head| >= 3 && t >= 3 && u >= 3
    ensures WithLength(WithLength(head, t), u) == WithLength(head, u)
  {
    var once := WithLength(head, t);
    assert once[1] as int / 16 == head[1] as int / 16;
  }
}
