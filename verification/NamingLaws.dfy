/** What a channel created from a backup holds, and the name it gets, read off the tables. */
module NamingLaws {
  import opened Bytes
  import opened Naming

  // ---- Numerals ----

  /** Digits without a leading zero. */
  predicate Numeral(d: string) {
    d != "" && (forall c :: c in d ==> '0' <= c <= '9') && (d[0] == '0' ==> |d| == 1)
  }

  lemma {:induction false} DecimalIsNumeral(n: nat)
    ensures Numeral(Decimal(n)) && (n > 0 ==> Decimal(n)[0] != '0')
  {
    if n >= 10 {
      DecimalIsNumeral(n / 10);
    }
  }

  lemma {:induction false} NumeralReads(d: string)
    requires Numeral(d)
    ensures DecimalValue(d) >= 0 && Decimal(DecimalValue(d)) == d
    ensures DecimalValue(d) == 0 ==> d == "0"
  {
    var n := |d| - 1;
    assert d[n] in d;
    assert d == d[..n] + [d[n]];
    if n == 0 {
      assert d[..0] == "";
    } else {
      assert forall c :: c in d[..n] ==> c in d;
      NumeralReads(d[..n]);
      assert d[..n][0] == d[0];
    }
  }

  // ---- The name ----

  predicate Taken(t: Tables, name: string) {
    exists i :: i in t.channels && t.channels[i].name == name
  }

  function Copy(base: string, numeral: string): string {
    base + " (copy " + numeral + ")"
  }

  /** The numbered copies before the one with this number are all taken. */
  ghost predicate CopiesTaken(t: Tables, base: string, below: int) {
    forall d: string | Numeral(d) && 2 <= DecimalValue(d) < below :: Taken(t, Copy(base, d))
  }

  /** The name a new channel gets: the base if it is free, then a copy, then the first numbered copy. */
  ghost predicate IsChosen(t: Tables, base: string, name: string) {
    if !Taken(t, base) then name == base
    else if !Taken(t, base + " (copy)") then name == base + " (copy)"
    else exists d :: && name == Copy(base, d) && Numeral(d) && 2 <= DecimalValue(d) <= ATTEMPTS
                     && !Taken(t, name) && CopiesTaken(t, base, DecimalValue(d))
  }

  /** Every name the search could try is in use. */
  ghost predicate Exhausted(t: Tables, base: string) {
    Taken(t, base) && Taken(t, base + " (copy)") && CopiesTaken(t, base, ATTEMPTS + 1)
  }

  lemma NumberedCopy(base: string, d: string)
    requires Numeral(d) && DecimalValue(d) >= 2
    ensures Candidate(base, DecimalValue(d)) == Copy(base, d)
  {
    NumeralReads(d);
  }

  lemma CandidateIsCopy(base: string, k: nat)
    requires k >= 2
    ensures var d := Decimal(k); Candidate(base, k) == Copy(base, d) && Numeral(d) && DecimalValue(d) == k
  {
    DecimalIsNumeral(k);
    DecimalReads(k);
  }

  lemma CopiesBelow(t: Tables, base: string, k: nat)
    requires forall j :: 0 <= j < k ==> Taken(t, Candidate(base, j))
    ensures CopiesTaken(t, base, k)
  {
    hide Taken, Candidate, Copy, DecimalValue, Numeral;
    forall d: string | Numeral(d) && 2 <= DecimalValue(d) < k
      ensures Taken(t, Copy(base, d))
    {
      NumberedCopy(base, d);
    }
  }

  /** The search returns that name, and returns none exactly when all are in use. */
  lemma SearchChooses(t: Tables, base: string)
    ensures var name := FreeFrom(NamesOf(t.channels), base, 0);
            && (name in NamesOf(t.channels) <==> Exhausted(t, base))
            && (!Exhausted(t, base) ==> IsChosen(t, base, name) && !Taken(t, name))
  {
    var names := NamesOf(t.channels);
    assert forall s :: s in names <==> Taken(t, s);
    ChoiceIsFirstFree(names, base, 0);
    var name := FreeFrom(names, base, 0);
    assert Candidate(base, 0) == base && Candidate(base, 1) == base + " (copy)";
    hide FreeFrom, Taken, Candidate, NamesOf, Numeral, Copy;
    var k :| 0 <= k <= ATTEMPTS && name == Candidate(base, k) && forall j :: 0 <= j < k ==> Candidate(base, j) in names;
    assert forall j :: 0 <= j < k ==> Taken(t, Candidate(base, j));
    assert name in names <==> Taken(t, name);
    CopiesBelow(t, base, k);
    if k >= 2 {
      CandidateIsCopy(base, k);
    }
    if Taken(t, name) {
      assert forall j :: 0 <= j <= ATTEMPTS ==> Taken(t, Candidate(base, j));
      CopiesBelow(t, base, ATTEMPTS + 1);
    }
  }

  // ---- The channel ----

  /** A row for the channel with the backup's settings, and next to one another a row for each of its
      rules, in their order. */
  predicate Holds(t: Tables, c: Created, b: Backup, owner: int) {
    && c.channel in t.channels
    && t.channels[c.channel] == Channel(c.name, b.enabled, b.timezone, owner)
    && c.rules == |b.rules|
    && exists k | 0 <= k <= |t.rules| - |b.rules| :: RulesAt(t, k, c.channel, owner, b.rules)
  }

  predicate RulesAt(t: Tables, k: int, channel: int, owner: int, rules: seq<RuleBackup>)
    requires 0 <= k <= |t.rules| - |rules|
  {
    && (forall i :: 0 <= i < |rules| ==> t.rules[k + i] == RuleRow(channel, owner, rules[i]))
    && (forall j :: 0 <= j < |t.rules| && t.rules[j].channel == channel ==> k <= j < k + |rules|)
  }

  /** Rules belong to channels that exist. */
  predicate RulesOwned(t: Tables) {
    forall r :: r in t.rules ==> r.channel in t.channels
  }

  /** A channel is created unless every name is in use; it has a new id and the chosen name and holds
      the backup for its owner, and no other row of either table changes. */
  lemma InstantiateMeans(t: Tables, b: Backup, owner: int, override: Option<string>)
    requires NamesUnique(t) && RulesOwned(t)
    ensures var base := if override.Some? then override.value else b.name;
            var (c, t') := Instantiated(t, b, owner, override);
            && RulesOwned(t')
            && (c.None? <==> Exhausted(t, base))
            && (c.None? ==> t' == t)
            && (c.Some? ==>
                  && IsChosen(t, base, c.value.name) && !Taken(t, c.value.name)
                  && c.value.channel !in t.channels && t'.channels.Keys == t.channels.Keys + {c.value.channel}
                  && Holds(t', c.value, b, owner)
                  && |t'.rules| == |t.rules| + |b.rules| && t.rules <= t'.rules)
  {
    var base := if override.Some? then override.value else b.name;
    SearchChooses(t, base);
    hide FreeFrom, NamesOf, IsChosen, Exhausted, Taken;
    var (c, t') := Instantiated(t, b, owner, override);
    if c.Some? {
      assert RulesAt(t', |t.rules|, t.nextId, owner, b.rules);
    }
  }

  // ---- A project ----

  lemma HoldsOn(t: Tables, t': Tables, c: Created, b: Backup, owner: int)
    requires Extends(t, t') && Holds(t, c, b, owner)
    ensures Holds(t', c, b, owner)
  {
    var k :| 0 <= k <= |t.rules| - |b.rules| && RulesAt(t, k, c.channel, owner, b.rules);
    assert forall j :: |t.rules| <= j < |t'.rules| ==> t'.rules[j] in t'.rules[|t.rules|..];
    forall j | 0 <= j < |t'.rules| && t'.rules[j].channel == c.channel
      ensures k <= j < k + |b.rules|
    {
      assert j < |t.rules| ==> t'.rules[j] == t.rules[j];
    }
    assert RulesAt(t', k, c.channel, owner, b.rules);
  }

  lemma OneMeans(t: Tables, template: Option<Backup>, owner: int, targets: seq<int>)
    requires NamesUnique(t) && RulesOwned(t)
    ensures var (c, t') := AppliedOne(t, template, owner, targets);
            && RulesOwned(t')
            && (c.None? <==> template.None? || Exhausted(t, template.value.name))
            && (c.Some? ==> Holds(t', c.value, template.value, owner) && IsChosen(t, template.value.name, c.value.name))
  {
    if template.Some? {
      InstantiateMeans(t, template.value, owner, None);
    }
    hide Instantiated, LinksFor, Exhausted, IsChosen;
  }

  /** Some template of the project became the channel. */
  predicate Realises(t: Tables, c: Created, template: Option<Backup>, owner: int) {
    template.Some? && Holds(t, c, template.value, owner)
  }

  /** The templates that became channels, in the project's order, each holding what its template says;
      the others do not parse, or found every name in use when their turn came. */
  lemma {:induction false} ApplyMeans(t: Tables, templates: seq<Option<Backup>>, owner: int, targets: seq<int>)
    returns (from: seq<nat>)
    requires NamesUnique(t) && RulesOwned(t)
    ensures var (s, t') := Applied(t, templates, owner, targets);
            && RulesOwned(t') && |from| == |s.created|
            && (forall i :: 0 <= i < |from| ==> from[i] < |templates| && Realises(t', s.created[i], templates[from[i]], owner))
    ensures forall i, j :: 0 <= i < j < |from| ==> from[i] < from[j]
    ensures forall j :: 0 <= j < |templates| && j !in from ==>
              templates[j].None? || Exhausted(Applied(t, templates[..j], owner, targets).1, templates[j].value.name)
  {
    hide AppliedOne, Extends, Realises, Exhausted, NamesUnique, RulesOwned, NewLinks, Broken, LinksFor;
    if templates == [] {
      return [];
    }
    var n := |templates| - 1;
    from := ApplyMeans(t, templates[..n], owner, targets);
    var (s1, t1) := Applied(t, templates[..n], owner, targets);
    var (c, t2) := AppliedOne(t1, templates[n], owner, targets);
    ApplyMore(t, templates, owner, targets);
    hide Applied;
    ApplyKeeps(t, templates[..n], owner, targets);
    OneTurn(t, t1, templates[n], owner, targets);
    forall i | 0 <= i < |from|
      ensures Realises(t2, s1.created[i], templates[from[i]], owner)
    {
      RealisesOn(t1, t2, s1.created[i], templates[from[i]], owner);
    }
    forall j | 0 <= j < n
      ensures templates[..n][..j] == templates[..j]
    {
    }
    if c.Some? {
      from := from + [n];
    }
  }

  lemma RealisesOn(t: Tables, t': Tables, c: Created, template: Option<Backup>, owner: int)
    requires Extends(t, t') && Realises(t, c, template, owner)
    ensures Realises(t', c, template, owner)
  {
    HoldsOn(t, t', c, template.value, owner);
  }

  lemma OneTurn(t: Tables, t1: Tables, template: Option<Backup>, owner: int, targets: seq<int>)
    requires Extends(t, t1) && RulesOwned(t1)
    ensures var (c, t2) := AppliedOne(t1, template, owner, targets);
            && Extends(t1, t2) && RulesOwned(t2)
            && (if c.Some? then Realises(t2, c.value, template, owner)
                else template.None? || Exhausted(t1, template.value.name))
  {
    OneMeans(t1, template, owner, targets);
    ApplyOneKeeps(t1, template, owner, targets);
    hide AppliedOne, Exhausted, IsChosen, Holds;
  }
}
