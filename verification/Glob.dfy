/** `glob_match` of src/rules.rs: the greedy scan means exactly what `*` promises. */
module Glob {
  import opened Bytes

  // ---- What a pattern means ----

  function Stars(pat: string): nat {
    if pat == "" then 0 else (if pat[0] == '*' then 1 else 0) + Stars(pat[1..])
  }

  /** The pattern with one run of text in place of each `*`, in order. */
  function Fill(pat: string, runs: seq<string>): string
    requires |runs| == Stars(pat)
  {
    if pat == "" then ""
    else if pat[0] == '*' then runs[0] + Fill(pat[1..], runs[1..])
    else [pat[0]] + Fill(pat[1..], runs)
  }

  /** Some choice of runs, possibly empty, turns the pattern into the text. */
  ghost predicate Matches(pat: string, text: string) {
    exists runs: seq<string> | |runs| == Stars(pat) :: Fill(pat, runs) == text
  }

  // ---- The scan's library calls ----

  /** `split('*')`: at least one part. */
  function Split(pat: string): (parts: seq<string>)
    ensures |parts| == Stars(pat) + 1
  {
    if pat == "" then [""]
    else
      var parts := Split(pat[1..]);
      if pat[0] == '*' then [""] + parts else [[pat[0]] + parts[0]] + parts[1..]
  }

  predicate StartsWith(text: string, part: string) {
    part <= text
  }

  predicate EndsWith(text: string, part: string) {
    |part| <= |text| && text[|text| - |part|..] == part
  }

  predicate OccursAt(text: string, part: string, k: nat) {
    k + |part| <= |text| && text[k..k + |part|] == part
  }

  /** `find`: the leftmost occurrence. */
  function Find(text: string, part: string): (r: Option<nat>)
    ensures r.Some? ==> OccursAt(text, part, r.value)
    ensures forall k: nat :: OccursAt(text, part, k) ==> r.Some? && r.value <= k
  {
    if StartsWith(text, part) then Some(0)
    else if text == "" then None
    else
      var rest := Find(text[1..], part);
      assert forall k: nat :: k > 0 && OccursAt(text, part, k) ==> OccursAt(text[1..], part, k - 1);
      if rest.None? then None else Some(rest.value + 1)
  }

  // ---- Parts, one by one ----

  /** The parts occur in order, the first at the start and the last at the end. */
  ghost predicate Anchored(parts: seq<string>, text: string)
    requires |parts| > 0
    decreases |parts|, 0
  {
    if |parts| == 1 then text == parts[0]
    else StartsWith(text, parts[0]) && Loose(parts[1..], text[|parts[0]|..])
  }

  /** As `Anchored`, after skipping any run of text. */
  ghost predicate Loose(parts: seq<string>, text: string)
    requires |parts| > 0
    decreases |parts|, 1
  {
    exists k: nat | k <= |text| :: Anchored(parts, text[k..])
  }

  lemma LooseIntro(parts: seq<string>, text: string, k: nat)
    requires |parts| > 0 && k <= |text| && Anchored(parts, text[k..])
    ensures Loose(parts, text)
  {
  }

  lemma LooseAt(parts: seq<string>, text: string) returns (k: nat)
    requires |parts| > 0 && Loose(parts, text)
    ensures k <= |text| && Anchored(parts, text[k..])
  {
    k :| k <= |text| && Anchored(parts, text[k..]);
  }

  /** Skipping less never hurts. */
  lemma LooseMonotone(parts: seq<string>, text: string, j: nat)
    requires |parts| > 0 && j <= |text| && Loose(parts, text[j..])
    ensures Loose(parts, text)
  {
    hide Anchored, Loose;
    var k := LooseAt(parts, text[j..]);
    assert text[j..][k..] == text[j + k..];
    LooseIntro(parts, text, j + k);
  }

  lemma FirstPart(parts: seq<string>, text: string, k: nat)
    requires |parts| > 1 && k <= |text|
    ensures Anchored(parts, text[k..]) <==>
            OccursAt(text, parts[0], k) && Loose(parts[1..], text[k + |parts[0]|..])
  {
    var part := parts[0];
    if k + |part| <= |text| {
      assert text[k..][..|part|] == text[k..k + |part|];
      assert text[k..][|part|..] == text[k + |part|..];
    }
  }

  /** Taking the leftmost occurrence of an interior part loses no match. */
  lemma LeftmostSuffices(parts: seq<string>, text: string)
    requires |parts| > 1
    ensures Loose(parts, text) <==>
            Find(text, parts[0]).Some? && Loose(parts[1..], text[Find(text, parts[0]).value + |parts[0]|..])
  {
    hide Find, Anchored;
    var part, found := parts[0], Find(text, parts[0]);
    if Loose(parts, text) {
      var k := LooseAt(parts, text);
      FirstPart(parts, text, k);
      LaterOccurrence(parts[1..], text, found.value + |part|, k + |part|);
    }
    if found.Some? && Loose(parts[1..], text[found.value + |part|..]) {
      FirstPart(parts, text, found.value);
      LooseIntro(parts, text, found.value);
    }
  }

  lemma LaterOccurrence(parts: seq<string>, text: string, i: nat, k: nat)
    requires |parts| > 0 && i <= k <= |text| && Loose(parts, text[k..])
    ensures Loose(parts, text[i..])
  {
    assert text[i..][k - i..] == text[k..];
    LooseMonotone(parts, text[i..], k - i);
  }

  lemma LastPart(part: string, text: string)
    ensures Loose([part], text) <==> EndsWith(text, part)
  {
    if EndsWith(text, part) {
      LooseIntro([part], text, |text| - |part|);
    }
  }

  lemma EmptyPart(parts: seq<string>, text: string)
    requires |parts| > 1 && parts[0] == ""
    ensures Loose(parts, text) <==> Loose(parts[1..], text)
  {
    assert OccursAt(text, "", 0);
    assert text[0..] == text;
    LeftmostSuffices(parts, text);
  }

  // ---- Parts against patterns ----

  lemma {:induction false} AnchoredFills(pat: string, text: string)
    ensures Anchored(Split(pat), text) <==> Matches(pat, text)
    decreases |pat|, 1
  {
    if pat == "" {
      assert Fill("", []) == "";
    } else if pat[0] == '*' {
      StarFills(pat, text);
    } else {
      LiteralFills(pat, text);
    }
  }

  lemma {:induction false} StarFills(pat: string, text: string)
    requires pat != "" && pat[0] == '*'
    ensures Anchored(Split(pat), text) <==> Matches(pat, text)
    decreases |pat|, 0
  {
    var tail := Split(pat[1..]);
    assert Split(pat)[1..] == tail && text[0..] == text;
    assert Anchored(Split(pat), text) <==> Loose(tail, text);
    hide Anchored, Loose, Split;
    if Loose(tail, text) {
      var k := LooseAt(tail, text);
      AnchoredFills(pat[1..], text[k..]);
      FillStar(pat, text, k);
    }
    if Matches(pat, text) {
      var k := UnfillStar(pat, text);
      AnchoredFills(pat[1..], text[k..]);
      LooseIntro(tail, text, k);
    }
  }

  lemma FillStar(pat: string, text: string, k: nat)
    requires pat != "" && pat[0] == '*' && k <= |text| && Matches(pat[1..], text[k..])
    ensures Matches(pat, text)
  {
    var runs: seq<string> :| |runs| == Stars(pat[1..]) && Fill(pat[1..], runs) == text[k..];
    var all := [text[..k]] + runs;
    assert all[1..] == runs;
    assert text[..k] + text[k..] == text;
    assert Fill(pat, all) == text;
  }

  lemma UnfillStar(pat: string, text: string) returns (k: nat)
    requires pat != "" && pat[0] == '*' && Matches(pat, text)
    ensures k <= |text| && Matches(pat[1..], text[k..])
  {
    var runs: seq<string> :| |runs| == Stars(pat) && Fill(pat, runs) == text;
    k := |runs[0]|;
    assert text[k..] == Fill(pat[1..], runs[1..]);
  }

  lemma {:induction false} LiteralFills(pat: string, text: string)
    requires pat != "" && pat[0] != '*'
    ensures Anchored(Split(pat), text) <==> Matches(pat, text)
    decreases |pat|, 0
  {
    LiteralAnchored(pat, text);
    if text != "" {
      AnchoredFills(pat[1..], text[1..]);
      if text[0] == pat[0] && Matches(pat[1..], text[1..]) {
        var runs: seq<string> :| |runs| == Stars(pat[1..]) && Fill(pat[1..], runs) == text[1..];
        assert Fill(pat, runs) == [pat[0]] + text[1..] == text;
      }
    }
    if Matches(pat, text) {
      var runs: seq<string> :| |runs| == Stars(pat) && Fill(pat, runs) == text;
      assert text[1..] == Fill(pat[1..], runs);
    }
  }

  lemma LiteralAnchored(pat: string, text: string)
    requires pat != "" && pat[0] != '*'
    ensures Anchored(Split(pat), text) <==> text != "" && text[0] == pat[0] && Anchored(Split(pat[1..]), text[1..])
  {
    var tail, parts := Split(pat[1..]), Split(pat);
    assert parts[1..] == tail[1..];
    var first := [pat[0]] + tail[0];
    assert first[1..] == tail[0];
    if |parts| == 1 {
      if text != "" && text[0] == pat[0] && text[1..] == tail[0] {
        assert text == [text[0]] + text[1..];
      }
    } else if text != "" && text[0] == pat[0] {
      assert text == [text[0]] + text[1..];
      assert StartsWith(text, first) <==> StartsWith(text[1..], tail[0]) by {
        if StartsWith(text[1..], tail[0]) { assert text[..|first|] == first; }
        if StartsWith(text, first) { assert text[1..][..|tail[0]|] == text[..|first|][1..]; }
      }
      if StartsWith(text, first) {
        assert text[|first|..] == text[1..][|tail[0]|..];
      }
    }
  }

  /** A pattern without `*` is one part, equal to itself. */
  lemma {:induction false} NoStars(pat: string)
    ensures '*' !in pat <==> Stars(pat) == 0
    ensures '*' !in pat ==> Split(pat) == [pat]
  {
    if pat != "" {
      NoStars(pat[1..]);
      assert pat == [pat[0]] + pat[1..];
    }
  }

  /** What is left of the scan when `parts[i..]` are still to be found in the text from `pos`. */
  ghost predicate Rest(parts: seq<string>, i: nat, text: string)
    requires |parts| > 1 && i <= |parts|
  {
    if i == 0 then Anchored(parts, text)
    else i == |parts| || Loose(parts[i..], text)
  }

  /** For every pattern and text the greedy scan decides the declarative meaning. */
  method GlobMatch(pat: string, text: string) returns (r: bool)
    ensures r <==> Matches(pat, text)
  {
    hide Anchored, Loose, Matches;
    NoStars(pat);
    AnchoredFills(pat, text);
    if '*' !in pat {
      OnePart(pat, text);
      return pat == text;
    }
    var parts := Split(pat);
    var last := |parts| - 1;
    var pos := 0;
    assert text[0..] == text;
    for i := 0 to |parts|
      invariant 0 <= pos <= |text|
      invariant Rest(parts, i, text[pos..]) <==> Matches(pat, text)
      invariant i == |parts| ==> Matches(pat, text)
    {
      var part := parts[i];
      RestStep(parts, i, text[pos..]);
      if part == "" {
        continue;
      }
      if i == 0 {
        if !StartsWith(text[pos..], part) {
          return false;
        }
        assert text[pos..][|part|..] == text[pos + |part|..];
        pos := pos + |part|;
      } else if i == last {
        return EndsWith(text[pos..], part);
      } else {
        var found := Find(text[pos..], part);
        if found.None? {
          return false;
        }
        assert text[pos..][found.value + |part|..] == text[pos + found.value + |part|..];
        pos := pos + found.value + |part|;
      }
    }
    return true;
  }

  lemma OnePart(pat: string, text: string)
    ensures Anchored([pat], text) <==> pat == text
  {
  }

  /** What one turn of the scan does to the rest. */
  lemma RestStep(parts: seq<string>, i: nat, text: string)
    requires |parts| > 1 && i < |parts|
    ensures Rest(parts, |parts|, text)
    ensures parts[i] == "" ==> (Rest(parts, i, text) <==> Rest(parts, i + 1, text))
    ensures i == 0 ==> (Rest(parts, 0, text) <==>
                        StartsWith(text, parts[0]) && Rest(parts, 1, text[|parts[0]|..]))
    ensures i == |parts| - 1 ==> (Rest(parts, i, text) <==> EndsWith(text, parts[i]))
    ensures 0 < i < |parts| - 1 ==>
              (Rest(parts, i, text) <==>
               var found := Find(text, parts[i]);
               found.Some? && Rest(parts, i + 1, text[found.value + |parts[i]|..]))
  {
    if i == 0 {
      if parts[0] == "" { assert text[0..] == text; }
    } else if i == |parts| - 1 {
      assert parts[i..] == [parts[i]];
      LastPart(parts[i], text);
    } else {
      assert parts[i..][1..] == parts[i + 1..];
      LeftmostSuffices(parts[i..], text);
      if parts[i] == "" { EmptyPart(parts[i..], text); }
    }
  }
}
