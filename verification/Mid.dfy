/** `decode_upid_data` and `decode_mid` of src/esam.rs: UPIDs nested inside a MID, as the structure
    from which the display text is made. */
module Mid {
  import opened Bytes

  const MID: Byte := 0x0C

  datatype Upid = Plain(upidType: Byte, data: seq<Byte>) | Nested(entries: seq<Upid>)

  // ---- What the bytes hold ----

  function TypeOf(u: Upid): Byte {
    if u.Plain? then u.upidType else MID
  }

  /** Every entry's payload fits its length byte, and only a MID has entries. */
  predicate Encodable(u: Upid) {
    match u
    case Plain(t, _) => t != MID
    case Nested(entries) => forall i :: 0 <= i < |entries| ==> Encodable(entries[i]) && |Payload(entries[i])| < 256
  }

  function Payload(u: Upid): seq<Byte> {
    match u
    case Plain(_, data) => data
    case Nested(entries) => Entries(entries)
  }

  function Entries(us: seq<Upid>): seq<Byte> {
    if us == [] then []
    else [TypeOf(us[0]), |Payload(us[0])| % 256] + Payload(us[0]) + Entries(us[1..])
  }

  /** The first entry at `pos` and the place behind it, unless the data ends first. */
  function EntryEnd(data: seq<Byte>, pos: nat): Option<nat>
    requires pos <= |data|
  {
    if pos + 2 > |data| || pos + 2 + data[pos + 1] as int > |data| then None
    else Some(pos + 2 + data[pos + 1] as int)
  }

  function DecodeUpid(upidType: Byte, data: seq<Byte>): Upid
    decreases |data|, 1
  {
    if upidType == MID then Nested(DecodeFrom(data, 0)) else Plain(upidType, data)
  }

  /** The entries from `pos` on; each nested payload is at least two bytes shorter than its parent. */
  function DecodeFrom(data: seq<Byte>, pos: nat): seq<Upid>
    requires pos <= |data|
    decreases |data|, 0, |data| - pos
  {
    match EntryEnd(data, pos)
    case None => []
    case Some(end) => [DecodeUpid(data[pos], data[pos + 2..end])] + DecodeFrom(data, end)
  }

  // ---- The code ----

  method DecodeUpidData(upidType: Byte, data: seq<Byte>) returns (u: Upid)
    ensures u == DecodeUpid(upidType, data)
    decreases |data|, 1
  {
    if upidType == MID {
      var entries := DecodeMid(data);
      return Nested(entries);
    }
    return Plain(upidType, data);
  }

  method DecodeMid(data: seq<Byte>) returns (entries: seq<Upid>)
    ensures entries == DecodeFrom(data, 0)
    decreases |data|, 0
  {
    hide DecodeFrom, DecodeUpid;
    entries := [];
    var pos := 0;
    while pos < |data|
      invariant 0 <= pos <= |data|
      invariant DecodeFrom(data, 0) == entries + DecodeFrom(data, pos)
    {
      DecodeStep(data, pos);
      if pos + 1 >= |data| {
        break;
      }
      var subType := data[pos];
      var subLen := data[pos + 1] as int;
      if pos + 2 + subLen > |data| {
        break;
      }
      var sub := DecodeUpidData(subType, data[pos + 2..pos + 2 + subLen]);
      entries := entries + [sub];
      pos := pos + 2 + subLen;
    }
    DecodeStep(data, pos);
    assert entries + [] == entries;
  }

  lemma DecodeStep(data: seq<Byte>, pos: nat)
    requires pos <= |data|
    ensures DecodeFrom(data, pos) == match EntryEnd(data, pos)
                                     case None => []
                                     case Some(end) =>
                                       [DecodeUpid(data[pos], data[pos + 2..end])] + DecodeFrom(data, end)
  {
  }

  // ---- Round trips ----

  /** Every encodable tree of UPIDs is read back from its bytes, at any depth. */
  lemma {:induction false} UpidRoundTrip(u: Upid)
    requires Encodable(u)
    ensures DecodeUpid(TypeOf(u), Payload(u)) == u
    decreases |Payload(u)|, 1
  {
    if u.Nested? {
      EntriesRoundTrip([], u.entries);
      assert [] + Entries(u.entries) == Entries(u.entries);
    }
  }

  lemma {:induction false} EntriesRoundTrip(pre: seq<Byte>, us: seq<Upid>)
    requires forall i :: 0 <= i < |us| ==> Encodable(us[i]) && |Payload(us[i])| < 256
    ensures DecodeFrom(pre + Entries(us), |pre|) == us
    decreases |Entries(us)|, 0
  {
    var data := pre + Entries(us);
    if us != [] {
      var head := [TypeOf(us[0]), |Payload(us[0])| as Byte] + Payload(us[0]);
      var end := |pre| + |head|;
      assert data == (pre + head) + Entries(us[1..]);
      assert data[|pre| + 2..end] == Payload(us[0]);
      UpidRoundTrip(us[0]);
      EntriesRoundTrip(pre + head, us[1..]);
    }
  }

  /** Conversely what is read from arbitrary bytes is encodable and never longer than they are; when
      no bytes were left over at any depth it spells exactly the bytes it was read from. */
  lemma {:induction false} UpidSpells(upidType: Byte, data: seq<Byte>)
    ensures var u := DecodeUpid(upidType, data);
            && TypeOf(u) == upidType && Encodable(u)
            && |Payload(u)| <= |data| && (|Payload(u)| == |data| ==> Payload(u) == data)
    decreases |data|, 1
  {
    if upidType == MID {
      EntriesSpell(data, 0);
    }
  }

  lemma {:induction false} EntriesSpell(data: seq<Byte>, pos: nat)
    requires pos <= |data|
    ensures var us := DecodeFrom(data, pos);
            && (forall i :: 0 <= i < |us| ==> Encodable(us[i]) && |Payload(us[i])| < 256)
            && |Entries(us)| <= |data| - pos && (|Entries(us)| == |data| - pos ==> Entries(us) == data[pos..])
    decreases |data|, 0, |data| - pos
  {
    if EntryEnd(data, pos).Some? {
      var end := EntryEnd(data, pos).value;
      var sub := data[pos + 2..end];
      UpidSpells(data[pos], sub);
      EntriesSpell(data, end);
      var us := DecodeFrom(data, pos);
      assert us[0] == DecodeUpid(data[pos], sub) && us[1..] == DecodeFrom(data, end);
      hide DecodeFrom, DecodeUpid, Encodable, TypeOf, Payload, Entries;
      EntryBytes(data, pos, end, us);
    }
  }

  /** The first entry's bytes and the others'. */
  lemma EntryBytes(data: seq<Byte>, pos: nat, end: nat, us: seq<Upid>)
    requires pos + 2 <= end <= |data| && data[pos + 1] as int == end - pos - 2 && us != []
    requires TypeOf(us[0]) == data[pos]
    requires |Payload(us[0])| <= end - pos - 2
    requires |Payload(us[0])| == end - pos - 2 ==> Payload(us[0]) == data[pos + 2..end]
    requires |Entries(us[1..])| <= |data| - end
    requires |Entries(us[1..])| == |data| - end ==> Entries(us[1..]) == data[end..]
    ensures |Entries(us)| <= |data| - pos && (|Entries(us)| == |data| - pos ==> Entries(us) == data[pos..])
  {
    var first, tail := Payload(us[0]), Entries(us[1..]);
    assert Entries(us) == [data[pos], |first| % 256] + first + tail;
    hide Entries, Payload, TypeOf;
    ThreePieces(data, pos, end);
  }

  lemma ThreePieces(data: seq<Byte>, pos: nat, end: nat)
    requires pos + 2 <= end <= |data|
    ensures data[pos..] == [data[pos], data[pos + 1]] + data[pos + 2..end] + data[end..]
  {
    var whole := [data[pos], data[pos + 1]] + data[pos + 2..end] + data[end..];
    assert |whole| == |data[pos..]|;
    assert forall i :: 0 <= i < |whole| ==> whole[i] == data[pos + i];
  }
}
