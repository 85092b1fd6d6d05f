/** Fresh channel names and the application of projects, from src/template_library.rs. */
module Naming {
  import opened Bytes

  // ---- Candidate names ----

  /** Decimal digits without leading zeros. */
  function Decimal(n: nat): (s: string)
    ensures |s| > 0
  {
    var digit := ('0' as int + n % 10) as char;
    if n < 10 then [digit] else Decimal(n / 10) + [digit]
  }

  function DecimalValue(s: string): int {
    if s == "" then 0 else 10 * DecimalValue(s[..|s| - 1]) + (s[|s| - 1] as int - '0' as int)
  }

  lemma {:induction false} DecimalReads(n: nat)
    ensures DecimalValue(Decimal(n)) == n
  {
    if n >= 10 {
      DecimalReads(n / 10);
      assert Decimal(n)[..|Decimal(n)| - 1] == Decimal(n / 10);
    } else {
      assert Decimal(n)[..0] == "";
    }
  }

  const ATTEMPTS: nat := 10_000

  /** The name tried at each attempt; the one after the last attempt is the fallback. */
  function Candidate(base: string, n: nat): string {
    if n == 0 then base
    else if n == 1 then base + " (copy)"
    else base + " (copy " + Decimal(n) + ")"
  }

  /** No name is tried twice. */
  lemma CandidatesDiffer(base: string, i: nat, j: nat)
    requires i < j
    ensures Candidate(base, i) != Candidate(base, j)
  {
    var m := |base|;
    var x, y := Candidate(base, i), Candidate(base, j);
    if i >= 2 && x == y {
      assert x[m + 7..|x| - 1] == Decimal(i) && y[m + 7..|y| - 1] == Decimal(j);
      DecimalReads(i);
      DecimalReads(j);
    } else if i == 1 {
      assert x[m + 6] == ')';
      assert j > 1 ==> y[m + 6] == ' ';
    }
  }

  // ---- Choosing a name ----

  /** The first free candidate from attempt `n` on, or the fallback. */
  function FreeFrom(names: set<string>, base: string, n: nat): string
    requires n <= ATTEMPTS
    decreases ATTEMPTS - n
  {
    if n == ATTEMPTS || Candidate(base, n) !in names then Candidate(base, n) else FreeFrom(names, base, n + 1)
  }

  /** `unique_channel_name`. */
  method UniqueChannelName(names: set<string>, base: string) returns (name: string)
    ensures name == FreeFrom(names, base, 0)
  {
    hide Candidate;
    for attempt := 0 to ATTEMPTS
      invariant FreeFrom(names, base, 0) == FreeFrom(names, base, attempt)
    {
      var candidate := Candidate(base, attempt);
      if candidate !in names {
        return candidate;
      }
    }
    return Candidate(base, ATTEMPTS);
  }

  /** The choice is the earliest free candidate, and it is free exactly when any candidate is. */
  lemma {:induction false} ChoiceIsFirstFree(names: set<string>, base: string, n: nat)
    requires n <= ATTEMPTS
    ensures FreeFrom(names, base, n) !in names <==> exists k :: n <= k <= ATTEMPTS && Candidate(base, k) !in names
    ensures exists k :: n <= k <= ATTEMPTS && FreeFrom(names, base, n) == Candidate(base, k)
                        && forall j :: n <= j < k ==> Candidate(base, j) in names
    decreases ATTEMPTS - n
  {
    hide Candidate;
    if n < ATTEMPTS && Candidate(base, n) in names {
      ChoiceIsFirstFree(names, base, n + 1);
    } else {
      assert FreeFrom(names, base, n) == Candidate(base, n);
      hide FreeFrom;
    }
  }

  function Candidates(base: string, n: nat): set<string> {
    set k | 0 <= k < n :: Candidate(base, k)
  }

  lemma {:induction false} CandidatesCount(base: string, n: nat)
    ensures |Candidates(base, n)| == n
  {
    if n > 0 {
      CandidatesCount(base, n - 1);
      forall k | 0 <= k < n - 1
        ensures Candidate(base, k) != Candidate(base, n - 1)
      {
        CandidatesDiffer(base, k, n - 1);
      }
      assert Candidates(base, n) == Candidates(base, n - 1) + {Candidate(base, n - 1)};
    }
  }

  lemma SubsetSize<T>(a: set<T>, b: set<T>)
    requires a <= b
    ensures |a| <= |b|
  {
    assert b == a + (b - a);
  }

  /** Up to 10000 names in use, some candidate is free. */
  lemma NameIsFresh(names: set<string>, base: string)
    requires |names| <= ATTEMPTS
    ensures FreeFrom(names, base, 0) !in names
  {
    hide Candidate;
    ChoiceIsFirstFree(names, base, 0);
    if forall k :: 0 <= k <= ATTEMPTS ==> Candidate(base, k) in names {
      CandidatesCount(base, ATTEMPTS + 1);
      SubsetSize(Candidates(base, ATTEMPTS + 1), names);
    }
  }

  // ---- Creating channels from backups ----

  datatype RuleBackup = RuleBackup(name: string, priority: int, enabled: bool, matchJson: string, action: string,
                                   paramsJson: string)

  datatype Backup = Backup(name: string, enabled: bool, timezone: string, rules: seq<RuleBackup>)

  datatype Channel = Channel(name: string, enabled: bool, timezone: string, owner: int)

  datatype RuleRow = RuleRow(channel: int, owner: int, rule: RuleBackup)

  /** Ids are handed out in increasing order; deleted channels keep their row and their name. */
  datatype Tables = Tables(channels: map<int, Channel>, rules: seq<RuleRow>, nextId: int, groups: set<int>,
                           links: set<(int, int)>)

  predicate NamesUnique(t: Tables) {
    && (forall l :: l in t.links ==> l.0 in t.channels)
    && (forall i, j :: i in t.channels && j in t.channels && i != j ==> t.channels[i].name != t.channels[j].name)
    && (forall i :: i in t.channels ==> i < t.nextId)
  }

  function NamesOf(channels: map<int, Channel>): set<string> {
    set i | i in channels :: channels[i].name
  }

  function RowsFor(channel: int, owner: int, rules: seq<RuleBackup>): seq<RuleRow> {
    seq(|rules|, i requires 0 <= i < |rules| => RuleRow(channel, owner, rules[i]))
  }

  datatype Created = Created(channel: int, name: string, rules: nat)

  /** A channel with its rules under a fresh name; the UNIQUE constraint refuses a taken one. */
  function Instantiated(t: Tables, b: Backup, owner: int, override: Option<string>): (Option<Created>, Tables) {
    var name := FreeFrom(NamesOf(t.channels), if override.Some? then override.value else b.name, 0);
    if name in NamesOf(t.channels) then (None, t)
    else
      (Some(Created(t.nextId, name, |b.rules|)),
       t.(channels := t.channels[t.nextId := Channel(name, b.enabled, b.timezone, owner)],
          rules := t.rules + RowsFor(t.nextId, owner, b.rules), nextId := t.nextId + 1))
  }

  /** The links a new channel gets: one to each of the applier's groups that exists. */
  function LinksFor(t: Tables, channel: int, targets: seq<int>): set<(int, int)> {
    set g | g in targets && g in t.groups :: (channel, g)
  }

  lemma LinksMore(t: Tables, channel: int, targets: seq<int>, g: int)
    ensures LinksFor(t, channel, targets + [g])
            == LinksFor(t, channel, targets) + if g in t.groups then {(channel, g)} else {}
  {
  }

  /** The outcome of one template of a project; None stands for a body that does not parse. */
  function AppliedOne(t: Tables, template: Option<Backup>, owner: int, targets: seq<int>): (Option<Created>, Tables) {
    if template.None? then (None, t)
    else
      var (c, t') := Instantiated(t, template.value, owner, None);
      (c, if c.None? then t' else t'.(links := t'.links + LinksFor(t', c.value.channel, targets)))
  }

  datatype Summary = Summary(created: seq<Created>, errors: nat)

  function Applied(t: Tables, templates: seq<Option<Backup>>, owner: int, targets: seq<int>): (Summary, Tables) {
    if templates == [] then (Summary([], 0), t)
    else
      var (s, t') := Applied(t, templates[..|templates| - 1], owner, targets);
      var (c, t'') := AppliedOne(t', templates[|templates| - 1], owner, targets);
      (if c.Some? then s.(created := s.created + [c.value]) else s.(errors := s.errors + 1), t'')
  }

  // ---- The code ----

  class Library {
    var channels: map<int, Channel>
    var rules: seq<RuleRow>
    var nextId: int
    const groups: set<int>
    var links: set<(int, int)>

    ghost function View(): Tables
      reads this
    {
      Tables(channels, rules, nextId, groups, links)
    }

    constructor (t: Tables)
      ensures View() == t
    {
      channels, rules, nextId, groups, links := t.channels, t.rules, t.nextId, t.groups, t.links;
    }

    /** `instantiate_channel_full`. */
    method InstantiateChannelFull(b: Backup, owner: int, override: Option<string>) returns (c: Option<Created>)
      modifies this`channels, this`rules, this`nextId
      ensures (c, View()) == Instantiated(old(View()), b, owner, override)
    {
      hide FreeFrom;
      var base := if override.Some? then override.value else b.name;
      var name := UniqueChannelName(NamesOf(channels), base);
      if name in NamesOf(channels) {
        return None;
      }
      var id := nextId;
      channels := channels[id := Channel(name, b.enabled, b.timezone, owner)];
      nextId := id + 1;
      var count := 0;
      ghost var before := rules;
      for i := 0 to |b.rules|
        invariant count == i
        invariant rules == before + RowsFor(id, owner, b.rules[..i])
        invariant channels == old(channels)[id := Channel(name, b.enabled, b.timezone, owner)] && nextId == id + 1
      {
        rules := rules + [RuleRow(id, owner, b.rules[i])];
        assert RowsFor(id, owner, b.rules[..i + 1]) == RowsFor(id, owner, b.rules[..i]) + [RuleRow(id, owner, b.rules[i])];
        count := count + 1;
      }
      assert b.rules[..|b.rules|] == b.rules;
      return Some(Created(id, name, count));
    }

    /** `link_groups` for a channel that exists. */
    method LinkGroups(channel: int, targets: seq<int>)
      modifies this`links
      ensures links == old(links) + LinksFor(old(View()), channel, targets)
    {
      for i := 0 to |targets|
        invariant links == old(links) + LinksFor(old(View()), channel, targets[..i])
      {
        assert targets[..i + 1] == targets[..i] + [targets[i]];
        LinksMore(old(View()), channel, targets[..i], targets[i]);
        if targets[i] in groups {
          links := links + {(channel, targets[i])};
        }
      }
      assert targets[..|targets|] == targets;
    }

    /** `apply_project`, past its access check; the targets are the applier's groups. */
    method ApplyProject(templates: seq<Option<Backup>>, owner: int, targets: seq<int>) returns (summary: Summary)
      modifies this
      ensures (summary, View()) == Applied(old(View()), templates, owner, targets)
    {
      hide Instantiated, LinksFor;
      var created: seq<Created> := [];
      var errors := 0;
      for i := 0 to |templates|
        invariant (Summary(created, errors), View()) == Applied(old(View()), templates[..i], owner, targets)
      {
        assert templates[..i + 1][..i] == templates[..i];
        if templates[i].None? {
          errors := errors + 1;
        } else {
          var c := InstantiateChannelFull(templates[i].value, owner, None);
          if c.Some? {
            LinkGroups(c.value.channel, targets);
            created := created + [c.value];
          } else {
            errors := errors + 1;
          }
        }
      }
      assert templates[..|templates|] == templates;
      return Summary(created, errors);
    }
  }

  // ---- What applying keeps ----

  lemma {:induction false} NamesCount(channels: map<int, Channel>)
    ensures |NamesOf(channels)| <= |channels|
    decreases |channels|
  {
    if i :| i in channels {
      var rest := channels - {i};
      assert channels.Keys == rest.Keys + {i};
      NamesCount(rest);
      forall name | name in NamesOf(channels)
        ensures name in NamesOf(rest) + {channels[i].name}
      {
        var j :| j in channels && channels[j].name == name;
        assert j != i ==> j in rest && rest[j] == channels[j];
      }
      SubsetSize(NamesOf(channels), NamesOf(rest) + {channels[i].name});
    } else {
      assert NamesOf(channels) == {};
    }
  }

  lemma InstantiateKeeps(t: Tables, b: Backup, owner: int, override: Option<string>)
    requires NamesUnique(t)
    ensures var (c, t') := Instantiated(t, b, owner, override);
            && NamesUnique(t')
            && (forall i :: i in t.channels ==> i in t'.channels && t'.channels[i] == t.channels[i])
            && |t'.channels| == |t.channels| + (if c.Some? then 1 else 0)
            && t'.links == t.links && t'.groups == t.groups
            && (c.Some? ==> c.value.channel == t.nextId && c.value.channel in t'.channels)
            && t.rules <= t'.rules
            && (forall r :: r in t'.rules[|t.rules|..] ==> r.channel !in t.channels)
            && (|t.channels| <= ATTEMPTS ==> c.Some?)
  {
    hide FreeFrom;
    if |t.channels| <= ATTEMPTS {
      NamesCount(t.channels);
      NameIsFresh(NamesOf(t.channels), if override.Some? then override.value else b.name);
    }
    var t' := Instantiated(t, b, owner, override).1;
    if t' != t {
      assert t'.channels.Keys == t.channels.Keys + {t.nextId};
    }
  }

  function Broken(templates: seq<Option<Backup>>): nat {
    if templates == [] then 0 else Broken(templates[..|templates| - 1]) + if templates[|templates| - 1].None? then 1 else 0
  }

  lemma ApplyOneKeeps(t: Tables, template: Option<Backup>, owner: int, targets: seq<int>)
    requires NamesUnique(t)
    ensures var (c, t') := AppliedOne(t, template, owner, targets);
            && Extends(t, t')
            && |t'.channels| == |t.channels| + (if c.Some? then 1 else 0)
            && t'.links == t.links + (if c.Some? then LinksFor(t, c.value.channel, targets) else {})
            && (c.Some? ==> c.value.channel !in t.channels)
            && (|t.channels| <= ATTEMPTS ==> (c.Some? <==> template.Some?))
            && (c.Some? ==> template.Some?)
  {
    if template.Some? {
      InstantiateKeeps(t, template.value, owner, None);
    }
    hide Instantiated;
  }

  /** The links of all new channels. */
  function NewLinks(t: Tables, created: seq<Created>, targets: seq<int>): set<(int, int)> {
    set c, g | c in created && g in targets && g in t.groups :: (c.channel, g)
  }

  lemma NewLinksSnoc(t: Tables, created: seq<Created>, c: Created, targets: seq<int>)
    ensures NewLinks(t, created + [c], targets) == NewLinks(t, created, targets) + LinksFor(t, c.channel, targets)
  {
    var all, before := NewLinks(t, created + [c], targets), NewLinks(t, created, targets);
    forall l | l in before + LinksFor(t, c.channel, targets)
      ensures l in all
    {
      assert c in created + [c];
      assert forall d :: d in created ==> d in created + [c];
    }
  }

  /** Old channels, rules and links are as they were, and what is new belongs to new channels. */
  predicate Extends(t: Tables, t': Tables) {
    && NamesUnique(t')
    && (forall i :: i in t.channels ==> i in t'.channels && t'.channels[i] == t.channels[i])
    && t'.groups == t.groups && t.rules <= t'.rules
    && (forall r :: r in t'.rules[|t.rules|..] ==> r.channel !in t.channels)
  }

  lemma ExtendsMore(t: Tables, t1: Tables, t2: Tables)
    requires Extends(t, t1) && Extends(t1, t2)
    ensures Extends(t, t2)
  {
    hide NamesUnique;
    forall r | r in t2.rules[|t.rules|..]
      ensures r.channel !in t.channels
    {
      assert t2.rules[|t.rules|..] == t1.rules[|t.rules|..] + t2.rules[|t1.rules|..];
    }
  }

  /** Applying a project keeps channel names unique and every old channel, rule and link as it was;
      the new links are exactly those of the new channels to the applier's groups that exist; every
      template is accounted for, and up to 10001 channels in all only unparsable bodies fail. */
  lemma {:induction false} ApplyKeeps(t: Tables, templates: seq<Option<Backup>>, owner: int, targets: seq<int>)
    requires NamesUnique(t)
    ensures var (s, t') := Applied(t, templates, owner, targets);
            && Extends(t, t')
            && (forall c :: c in s.created ==> c.channel !in t.channels)
            && t'.links == t.links + NewLinks(t, s.created, targets)
            && |t'.channels| == |t.channels| + |s.created|
            && |s.created| + s.errors == |templates|
            && (|t.channels| + |templates| <= ATTEMPTS + 1 ==> s.errors == Broken(templates))
  {
    hide AppliedOne, NamesUnique, Extends, LinksFor, NewLinks;
    if templates == [] {
      NothingApplied(t, targets);
    } else {
      var n := |templates| - 1;
      ApplyKeeps(t, templates[..n], owner, targets);
      var (s1, t1) := Applied(t, templates[..n], owner, targets);
      ExtendsKeys(t, t1);
      ApplyOneKeeps(t1, templates[n], owner, targets);
      var (c, t2) := AppliedOne(t1, templates[n], owner, targets);
      ApplyMore(t, templates, owner, targets);
      hide Applied, Broken;
      ExtendsMore(t, t1, t2);
      if c.Some? {
        NewLinksSnoc(t, s1.created, c.value, targets);
        SameLinks(t, t1, c.value.channel, targets);
      }
    }
  }

  lemma ApplyMore(t: Tables, templates: seq<Option<Backup>>, owner: int, targets: seq<int>)
    requires templates != []
    ensures var n := |templates| - 1;
            var (s1, t1) := Applied(t, templates[..n], owner, targets);
            var (c, t2) := AppliedOne(t1, templates[n], owner, targets);
            Applied(t, templates, owner, targets)
            == (if c.Some? then s1.(created := s1.created + [c.value]) else s1.(errors := s1.errors + 1), t2)
    ensures var n := |templates| - 1;
            Broken(templates) == Broken(templates[..n]) + if templates[n].None? then 1 else 0
  {
    hide AppliedOne;
  }

  lemma NothingApplied(t: Tables, targets: seq<int>)
    requires NamesUnique(t)
    ensures Extends(t, t) && NewLinks(t, [], targets) == {}
  {
  }

  lemma ExtendsKeys(t: Tables, t': Tables)
    requires Extends(t, t')
    ensures NamesUnique(t') && t'.groups == t.groups && forall i :: i in t.channels ==> i in t'.channels
  {
  }

  lemma SameLinks(t: Tables, t1: Tables, channel: int, targets: seq<int>)
    requires t1.groups == t.groups
    ensures LinksFor(t1, channel, targets) == LinksFor(t, channel, targets)
  {
  }
}
