/** `rule_matches` and `eval` of src/rules.rs, the first-match loop and `reorder_rules` of
    src/main.rs. */
module Rules {
  import opened Bytes
  import opened Text
  import opened Glob

  datatype Window = Window(start: Option<string>, end: Option<string>)

  /** One condition; a key that is absent or of the wrong type is None. */
  datatype Cond = Cond(signal: Option<string>, command: Option<string>, segmentType: Option<string>,
                       upid: Option<string>, window: Option<Window>)

  datatype Clauses = Clauses(anyOf: Option<seq<Cond>>, allOf: Option<seq<Cond>>)

  datatype Facts = Facts(signal: Option<string>, command: Option<string>, segmentType: Option<string>,
                         upid: Option<string>, utc: Option<string>)

  // ---- What conditions mean ----

  /** Lexicographic order, a prefix first. */
  predicate AtMost(a: string, b: string) {
    if a == "" then true
    else if b == "" then false
    else a[0] < b[0] || (a[0] == b[0] && AtMost(a[1..], b[1..]))
  }

  predicate Within(w: Window, utc: string) {
    AtMost(if w.start.Some? then w.start.value else "", utc) && AtMost(utc, if w.end.Some? then w.end.value else "~")
  }

  /** The first key that is both asked for and known decides. */
  ghost predicate Satisfied(c: Cond, facts: Facts) {
    if c.signal.Some? && facts.signal.Some? then Matches(c.signal.value, facts.signal.value)
    else if c.command.Some? && facts.command.Some? then Lower(facts.command.value) == Lower(c.command.value)
    else if c.segmentType.Some? && facts.segmentType.Some? then
      Lower(facts.segmentType.value) == Lower(c.segmentType.value)
    else if c.upid.Some? && facts.upid.Some? then Matches(c.upid.value, facts.upid.value)
    else c.window.Some? && facts.utc.Some? && Within(c.window.value, facts.utc.value)
  }

  /** No clause at all catches everything; otherwise either clause suffices. */
  ghost predicate RuleMatches(m: Clauses, facts: Facts) {
    || (m.anyOf.None? && m.allOf.None?)
    || (m.anyOf.Some? && exists c :: c in m.anyOf.value && Satisfied(c, facts))
    || (m.allOf.Some? && forall c :: c in m.allOf.value ==> Satisfied(c, facts))
  }

  // ---- The code ----

  method Eval(c: Cond, facts: Facts) returns (r: bool)
    ensures r <==> Satisfied(c, facts)
  {
    hide Matches, Lower, AtMost;
    if c.signal.Some? && facts.signal.Some? {
      r := GlobMatch(c.signal.value, facts.signal.value);
    } else if c.command.Some? && facts.command.Some? {
      r := Lower(facts.command.value) == Lower(c.command.value);
    } else if c.segmentType.Some? && facts.segmentType.Some? {
      r := Lower(facts.segmentType.value) == Lower(c.segmentType.value);
    } else if c.upid.Some? && facts.upid.Some? {
      r := GlobMatch(c.upid.value, facts.upid.value);
    } else {
      r := c.window.Some? && facts.utc.Some? && Within(c.window.value, facts.utc.value);
    }
  }

  method AnySatisfied(conds: seq<Cond>, facts: Facts) returns (r: bool)
    ensures r <==> exists c :: c in conds && Satisfied(c, facts)
  {
    hide Satisfied;
    for i := 0 to |conds|
      invariant forall j :: 0 <= j < i ==> !Satisfied(conds[j], facts)
    {
      var ok := Eval(conds[i], facts);
      if ok {
        return true;
      }
    }
    return false;
  }

  method AllSatisfied(conds: seq<Cond>, facts: Facts) returns (r: bool)
    ensures r <==> forall c :: c in conds ==> Satisfied(c, facts)
  {
    hide Satisfied;
    for i := 0 to |conds|
      invariant forall j :: 0 <= j < i ==> Satisfied(conds[j], facts)
    {
      var ok := Eval(conds[i], facts);
      if !ok {
        return false;
      }
    }
    return true;
  }

  method MatchesRule(m: Clauses, facts: Facts) returns (r: bool)
    ensures r <==> RuleMatches(m, facts)
  {
    hide Satisfied;
    if m.anyOf.None? && m.allOf.None? {
      return true;
    }
    var anyOk, allOk := false, false;
    if m.anyOf.Some? {
      anyOk := AnySatisfied(m.anyOf.value, facts);
    }
    if m.allOf.Some? {
      allOk := AllSatisfied(m.allOf.value, facts);
    }
    return anyOk || allOk;
  }

  // ---- The order of texts ----

  /** The texts first differ at `k`, where the first has the smaller character. */
  predicate SmallerAt(a: string, b: string, k: nat) {
    k < |a| && k < |b| && a[..k] == b[..k] && a[k] < b[k]
  }

  /** Dictionary order: a prefix first, else by the first character that differs. */
  ghost predicate Precedes(a: string, b: string) {
    a <= b || exists k: nat :: SmallerAt(a, b, k)
  }

  lemma SmallerBehind(a: string, b: string, k: nat)
    requires a != "" && b != "" && a[0] == b[0]
    ensures SmallerAt(a, b, k) <==> k > 0 && SmallerAt(a[1..], b[1..], k - 1)
  {
    if 0 < k < |a| && k < |b| {
      assert a[..k] == [a[0]] + a[1..][..k - 1] && b[..k] == [b[0]] + b[1..][..k - 1];
      assert a[..k][1..] == a[1..][..k - 1] && b[..k][1..] == b[1..][..k - 1];
    }
  }

  lemma SmallerFirst(a: string, b: string, k: nat)
    requires a != "" && b != "" && a[0] != b[0]
    ensures SmallerAt(a, b, k) <==> k == 0 && a[0] < b[0]
  {
    assert k > 0 && k < |a| && k < |b| ==> a[..k][0] == a[0] && b[..k][0] == b[0];
    assert a[..0] == b[..0];
  }

  lemma {:induction false} AtMostMeans(a: string, b: string)
    ensures AtMost(a, b) <==> Precedes(a, b)
  {
    if a != "" && b != "" {
      AtMostMeans(a[1..], b[1..]);
      assert a == [a[0]] + a[1..] && b == [b[0]] + b[1..];
      assert a <= b <==> a[0] == b[0] && a[1..] <= b[1..];
      hide SmallerAt;
      if a[0] == b[0] {
        forall k: nat
          ensures SmallerAt(a, b, k) <==> k > 0 && SmallerAt(a[1..], b[1..], k - 1)
        {
          SmallerBehind(a, b, k);
        }
        if k: nat :| SmallerAt(a[1..], b[1..], k) {
          assert SmallerAt(a, b, k + 1);
        }
      } else {
        forall k: nat
          ensures SmallerAt(a, b, k) <==> k == 0 && a[0] < b[0]
        {
          SmallerFirst(a, b, k);
        }
        assert SmallerAt(a, b, 0) <==> a[0] < b[0];
      }
    }
  }

  /** It orders all texts. */
  lemma {:induction false} TotalOrder(a: string, b: string, c: string)
    ensures AtMost(a, a)
    ensures AtMost(a, b) || AtMost(b, a)
    ensures AtMost(a, b) && AtMost(b, a) ==> a == b
    ensures AtMost(a, b) && AtMost(b, c) ==> AtMost(a, c)
    decreases |a| + |b| + |c|
  {
    if a != "" && b != "" {
      TotalOrder(a[1..], b[1..], if c == "" then "" else c[1..]);
      assert a == [a[0]] + a[1..] && b == [b[0]] + b[1..];
    } else if a != "" {
      TotalOrder(a[1..], "", "");
    }
  }

  /** A window holds the times from its start to its end; without a start nothing is too early, without
      an end nothing that starts before the tilde, or is the tilde, is too late. */
  lemma WindowMeans(c: Cond, w: Window, facts: Facts)
    requires c == Cond(None, None, None, None, Some(w))
    ensures Satisfied(c, facts) <==>
            && facts.utc.Some?
            && (w.start.Some? ==> Precedes(w.start.value, facts.utc.value))
            && (if w.end.Some? then Precedes(facts.utc.value, w.end.value)
                else facts.utc.value == "" || facts.utc.value == "~" || facts.utc.value[0] < '~')
  {
    if facts.utc.Some? {
      var utc := facts.utc.value;
      if w.start.Some? {
        AtMostMeans(w.start.value, utc);
      }
      if w.end.Some? {
        AtMostMeans(utc, w.end.value);
      } else {
        assert "~"[1..] == "";
        if utc != "" {
          assert AtMost(utc[1..], "") <==> |utc| == 1;
          assert utc == [utc[0]] + utc[1..];
        }
      }
    }
    hide Precedes;
  }

  // ---- What a condition asks ----

  /** Equal but for the case of the letters A to Z. */
  ghost predicate SameLetters(a: string, b: string) {
    && |a| == |b|
    && forall i :: 0 <= i < |a| ==> a[i] == b[i] || CasePair(a[i], b[i]) || CasePair(b[i], a[i])
  }

  predicate CasePair(capital: char, small: char) {
    exists k | 0 <= k < |CAPITALS| && k < |SMALLS| :: CAPITALS[k] == capital && SMALLS[k] == small
  }

  lemma CasesDiffer(x: char, y: char)
    ensures CasePair(x, y) <==> 'A' <= x <= 'Z' && y as int == x as int + 32
  {
    AlphabetOf64(0);
    forall k: nat | k < 26
      ensures CAPITALS[k] as int == 'A' as int + k && SMALLS[k] as int == 'a' as int + k
    {
      AlphabetOf64(k);
      AlphabetOf64(k + 26);
    }
    hide CAPITALS, SMALLS;
    if 'A' <= x <= 'Z' {
      assert CAPITALS[x as int - 'A' as int] == x;
    }
  }

  lemma LettersMean(a: string, b: string)
    ensures Lower(a) == Lower(b) <==> SameLetters(a, b)
  {
    forall x, y
      ensures CasePair(x, y) <==> 'A' <= x <= 'Z' && y as int == x as int + 32
    {
      CasesDiffer(x, y);
    }
    hide CasePair;
    if Lower(a) == Lower(b) {
      forall i | 0 <= i < |a|
        ensures a[i] == b[i] || CasePair(a[i], b[i]) || CasePair(b[i], a[i])
      {
        assert Lower(a)[i] == Lower(b)[i];
      }
    }
  }

  /** A condition on one key asks for a known fact: commands and segmentation types but for the case of
      letters, signals and UPIDs by the meaning of the pattern; one that asks nothing fails. */
  lemma KeyMeans(k: string, facts: Facts)
    ensures Satisfied(Cond(Some(k), None, None, None, None), facts) <==>
            facts.signal.Some? && exists runs: seq<string> | |runs| == Stars(k) :: Fill(k, runs) == facts.signal.value
    ensures Satisfied(Cond(None, Some(k), None, None, None), facts) <==>
            facts.command.Some? && SameLetters(facts.command.value, k)
    ensures Satisfied(Cond(None, None, Some(k), None, None), facts) <==>
            facts.segmentType.Some? && SameLetters(facts.segmentType.value, k)
    ensures Satisfied(Cond(None, None, None, Some(k), None), facts) <==>
            facts.upid.Some? && exists runs: seq<string> | |runs| == Stars(k) :: Fill(k, runs) == facts.upid.value
    ensures !Satisfied(Cond(None, None, None, None, None), facts)
  {
    if facts.command.Some? {
      LettersMean(facts.command.value, k);
    }
    if facts.segmentType.Some? {
      LettersMean(facts.segmentType.value, k);
    }
    hide Lower, SameLetters;
  }

  /** Only the first key that is asked for and known has a say: without it the keys in front are as if
      not asked, and with it the keys behind are. */
  lemma FirstKeyDecides(c: Cond, facts: Facts)
    ensures facts.signal.None? ==> Satisfied(c, facts) == Satisfied(c.(signal := None), facts)
    ensures facts.command.None? ==> Satisfied(c, facts) == Satisfied(c.(command := None), facts)
    ensures facts.segmentType.None? ==> Satisfied(c, facts) == Satisfied(c.(segmentType := None), facts)
    ensures facts.upid.None? ==> Satisfied(c, facts) == Satisfied(c.(upid := None), facts)
    ensures c.signal.Some? && facts.signal.Some? ==>
              Satisfied(c, facts) == Satisfied(Cond(c.signal, None, None, None, None), facts)
    ensures c.signal.None? && c.command.Some? && facts.command.Some? ==>
              Satisfied(c, facts) == Satisfied(Cond(None, c.command, None, None, None), facts)
    ensures c.signal.None? && c.command.None? && c.segmentType.Some? && facts.segmentType.Some? ==>
              Satisfied(c, facts) == Satisfied(Cond(None, None, c.segmentType, None, None), facts)
    ensures c.signal.None? && c.command.None? && c.segmentType.None? && c.upid.Some? && facts.upid.Some? ==>
              Satisfied(c, facts) == Satisfied(Cond(None, None, None, c.upid, None), facts)
  {
    hide Lower, Matches, Within;
  }

  // ---- First match ----

  datatype Rule = Rule(id: int, channel: int, priority: int, active: bool, clauses: Clauses, action: string)

  /** `r` is the first rule of the list that matches, if any does. */
  ghost predicate IsFirst(rules: seq<Rule>, facts: Facts, r: Option<Rule>) {
    match r
    case None => forall q :: q in rules ==> !RuleMatches(q.clauses, facts)
    case Some(x) => exists i | 0 <= i < |rules| ::
                      && rules[i] == x && RuleMatches(x.clauses, facts)
                      && forall j :: 0 <= j < i ==> !RuleMatches(rules[j].clauses, facts)
  }

  method FirstMatch(rules: seq<Rule>, facts: Facts) returns (r: Option<Rule>)
    ensures IsFirst(rules, facts, r)
  {
    hide RuleMatches;
    for i := 0 to |rules|
      invariant forall j :: 0 <= j < i ==> !RuleMatches(rules[j].clauses, facts)
    {
      var ok := MatchesRule(rules[i].clauses, facts);
      if ok {
        return Some(rules[i]);
      }
    }
    return None;
  }

  // ---- Reordering ----

  type Rows = map<int, Rule>

  function SetPriority(rows: Rows, id: int, priority: int): Rows {
    if id in rows then rows[id := rows[id].(priority := priority)] else rows
  }

  /** Priorities 0, 10, 20, ... down the list; a later mention overrides an earlier one. */
  function Reordered(rows: Rows, ids: seq<int>): Rows {
    if ids == [] then rows
    else SetPriority(Reordered(rows, ids[..|ids| - 1]), ids[|ids| - 1], 10 * (|ids| - 1))
  }

  /** The last place an id is mentioned. */
  function Rank(ids: seq<int>, id: int): (k: nat)
    requires id in ids
    ensures k < |ids| && ids[k] == id
    ensures forall j :: k < j < |ids| ==> ids[j] != id
  {
    if ids[|ids| - 1] == id then |ids| - 1 else Rank(ids[..|ids| - 1], id)
  }

  class RuleTable {
    var rows: Rows

    constructor (rows: Rows)
      ensures this.rows == rows
    {
      this.rows := rows;
    }

    /** `reorder_rules` past its access check. */
    method Reorder(ids: seq<int>)
      modifies this
      ensures rows == Reordered(old(rows), ids)
    {
      var prio := 0;
      for i := 0 to |ids|
        invariant prio == 10 * i
        invariant rows == Reordered(old(rows), ids[..i])
      {
        assert ids[..i + 1][..i] == ids[..i];
        rows := SetPriority(rows, ids[i], prio);
        prio := prio + 10;
      }
      assert ids[..|ids|] == ids;
    }
  }

  /** Only priorities change, and each listed rule's says where it was last mentioned. */
  lemma {:induction false} ReorderedAt(rows: Rows, ids: seq<int>)
    ensures Reordered(rows, ids).Keys == rows.Keys
    ensures forall id :: id in rows ==>
                           Reordered(rows, ids)[id]
                           == if id in ids then rows[id].(priority := 10 * Rank(ids, id)) else rows[id]
  {
    if ids != [] {
      ReorderedAt(rows, ids[..|ids| - 1]);
      assert ids == ids[..|ids| - 1] + [ids[|ids| - 1]];
    }
  }

  predicate WellKeyed(rows: Rows) {
    forall id :: id in rows ==> rows[id].id == id
  }

  predicate Eligible(r: Rule, channel: int) {
    r.active && r.channel == channel
  }

  /** What the dispatch query returns: the enabled, undeleted rules of one channel by priority. */
  ghost predicate Listing(rules: seq<Rule>, rows: Rows, channel: int) {
    && (forall i, j :: 0 <= i < j < |rules| ==> rules[i].priority <= rules[j].priority)
    && forall r :: r in rules <==> r.id in rows && rows[r.id] == r && Eligible(r, channel)
  }

  /** After a reorder, dispatch answers with a rule exactly if some rule of the channel matches, and
      no listed matching rule is mentioned before a listed answer. */
  lemma OrderDecides(rows: Rows, ids: seq<int>, channel: int, facts: Facts, rules: seq<Rule>, r: Option<Rule>)
    requires WellKeyed(rows) && Listing(rules, Reordered(rows, ids), channel) && IsFirst(rules, facts, r)
    ensures r.None? <==>
            forall id :: id in rows && Eligible(rows[id], channel) ==> !RuleMatches(rows[id].clauses, facts)
    ensures r.Some? ==>
              && r.value.id in rows
              && Eligible(rows[r.value.id], channel) && RuleMatches(rows[r.value.id].clauses, facts)
              && forall id :: id in rows && id in ids && r.value.id in ids
                              && Eligible(rows[id], channel) && RuleMatches(rows[id].clauses, facts) ==>
                                Rank(ids, r.value.id) <= Rank(ids, id)
  {
    hide RuleMatches;
    ReorderedAt(rows, ids);
    hide Reordered, Rank;
    var rows' := Reordered(rows, ids);
    forall id | id in rows && Eligible(rows[id], channel)
      ensures rows'[id] in rules && rows'[id].clauses == rows[id].clauses
    {
      assert rows'[id].id == id;
    }
    if r.Some? {
      var i :| 0 <= i < |rules| && rules[i] == r.value
               && forall j :: 0 <= j < i ==> !RuleMatches(rules[j].clauses, facts);
      assert rules[i] in rules;
      forall id | id in rows && id in ids && r.value.id in ids
                  && Eligible(rows[id], channel) && RuleMatches(rows[id].clauses, facts)
        ensures Rank(ids, r.value.id) <= Rank(ids, id)
      {
        var k :| 0 <= k < |rules| && rules[k] == rows'[id];
        assert i <= k;
      }
    } else {
      forall id | id in rows && Eligible(rows[id], channel)
        ensures !RuleMatches(rows[id].clauses, facts)
      {
        assert rows'[id] in rules;
      }
    }
  }
}
