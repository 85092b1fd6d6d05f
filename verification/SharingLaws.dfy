/** What every request does to every row, and who reads what afterwards, over rows alone: memberships,
    links, owners and the two flags of a resource. */
module SharingLaws {
  import opened Bytes
  import opened Sharing

  // ---- Access over rows ----

  ghost predicate Reads(s: State, c: Caller, id: int) {
    || c.superAdmin
    || (id in s.resources && s.resources[id].live
        && (|| s.resources[id].isGlobal
            || s.resources[id].owner == Some(c.uid)
            || exists g :: (id, g) in s.links && IsMember(s, c.uid, g)))
  }

  ghost predicate Writes(s: State, c: Caller, id: int) {
    || c.superAdmin
    || (id in s.resources && s.resources[id].live
        && (s.resources[id].owner == Some(c.uid) || exists g :: (id, g) in s.links && IsAdmin(s, c.uid, g)))
  }

  /** The answers of `can_read` and `can_write` are those of the rows. */
  lemma AccessMeans(s: State, c: Caller, id: int)
    ensures CanRead(s, EffOf(s, c), id) <==> Reads(s, c, id)
    ensures CanWrite(s, EffOf(s, c), id) <==> Writes(s, c, id)
  {
    MemberOfMeans(s, c);
    hide GroupsOf;
  }

  /** The user has one membership row, and it is in the group. */
  predicate OnlyRow(ms: seq<Membership>, u: int, g: int) {
    exists i | 0 <= i < |ms| :: ms[i].user == u && ms[i].group == g && forall j :: 0 <= j < |ms| && j != i ==> ms[j].user != u
  }

  lemma {:induction false} NoRows(ms: seq<Membership>, u: int)
    ensures GroupsOf(ms, u, false) == [] <==> forall j :: 0 <= j < |ms| ==> ms[j].user != u
  {
    if ms != [] {
      NoRows(ms[..|ms| - 1], u);
    }
  }

  lemma {:induction false} OneRow(ms: seq<Membership>, u: int, g: int)
    ensures GroupsOf(ms, u, false) == [g] <==> OnlyRow(ms, u, g)
  {
    if ms != [] {
      var n := |ms| - 1;
      OneRow(ms[..n], u, g);
      NoRows(ms[..n], u);
      if ms[n].user == u {
        assert |GroupsOf(ms[..n], u, false)| == 0 <==> GroupsOf(ms[..n], u, false) == [];
        if OnlyRow(ms, u, g) {
          assert forall j :: 0 <= j < n ==> ms[j].user != u;
        }
        var before := GroupsOf(ms[..n], u, false);
        assert GroupsOf(ms, u, false) == before + [ms[n].group];
        if before + [ms[n].group] == [g] {
          assert |before + [ms[n].group]| == 1;
          assert (before + [ms[n].group])[0] == g;
        }
      } else {
        assert GroupsOf(ms, u, false) == GroupsOf(ms[..n], u, false);
        if i :| 0 <= i < n && ms[..n][i].user == u && ms[..n][i].group == g
                && forall j :: 0 <= j < n && j != i ==> ms[..n][j].user != u {
          assert ms[i].user == u && ms[i].group == g;
          assert forall j :: 0 <= j < |ms| && j != i ==> j == n || ms[j] == ms[..n][j];
        }
      }
    }
  }

  // ---- Which requests are granted ----

  predicate Shares(r: Request) {
    r.SetShare? || (r.Update? && r.republish.Some?)
  }

  /** The caller may write the resource and is in every group named. */
  ghost predicate Granted(s: State, r: Request, id: int) {
    && Shares(r) && r.id == id && Writes(s, r.caller, id)
    && (r.caller.superAdmin || forall g :: g in Targets(r) ==> IsMember(s, r.caller.uid, g))
  }

  /** A super-admin asks for a new org-wide flag. */
  predicate Toggles(r: Request, id: int) {
    (r.SetShare? || r.Update?) && r.id == id && r.caller.superAdmin && r.isGlobal.Some?
  }

  /** A caller who exists creates a resource: for groups of theirs, or without naming any in the only
      group they have; a super-admin for any groups. */
  ghost predicate Creates(s: State, r: Request) {
    && r.Create? && r.caller.uid in s.users
    && (|| r.caller.superAdmin
        || (r.groupIds != [] && forall g :: g in r.groupIds ==> IsMember(s, r.caller.uid, g))
        || (r.groupIds == [] && exists g :: OnlyRow(s.members, r.caller.uid, g)))
  }

  ghost predicate Deletes(s: State, r: Request, id: int) {
    r.DeleteResource? && r.id == id && Writes(s, r.caller, id)
  }

  // ---- One request ----

  /** What a request leaves of a resource. The owner never changes; only a deletion by somebody who may
      write ends its life; only a super-admin moves the org-wide flag, of a live resource, to the value
      asked for. */
  lemma ResourceExactly(s: State, r: Request, id: int)
    requires Consistent(s) && id in s.resources
    ensures id in Step(s, r).resources
    ensures var was, now := s.resources[id], Step(s, r).resources[id];
            && now.owner == was.owner
            && (now.live <==> was.live && !Deletes(s, r, id))
            && now.isGlobal == if Toggles(r, id) && was.live then r.isGlobal.value else was.isGlobal
  {
    AccessMeans(s, r.caller, id);
    assert r.caller.superAdmin && (r.SetShare? || r.Update?) ==>
        CanWrite(s, EffOf(s, r.caller), r.id) && forall gs :: MayTarget(EffOf(s, r.caller), gs);
    hide GroupsOf, CanWrite, CanRead, Writes, Reads, MayTarget, NewGroups, NewcomerGroup, Owns, Unlinked, Scope;
  }

  /** A resource appears exactly when somebody creates it as they may; its owner is the caller, it is
      live, and org-wide only if a super-admin asked for that. */
  lemma CreatedExactly(s: State, r: Request, id: int)
    requires Consistent(s) && id !in s.resources
    ensures id in Step(s, r).resources <==> Creates(s, r) && id == s.nextResource
    ensures Creates(s, r) && id == s.nextResource ==>
              Step(s, r).resources[id] == Resource(Some(r.caller.uid), r.caller.superAdmin && r.orgWide, true)
  {
    if r.Create? {
      CreateAnswers(s, r);
      hide GroupsOf, NewGroups, MayTarget, Creates;
    } else {
      hide GroupsOf, CanWrite, MayTarget, NewcomerGroup, Owns, Unlinked, Scope;
    }
  }

  lemma CreateAnswers(s: State, r: Request)
    requires r.Create?
    ensures Respond(s, r).0.Done? <==> Creates(s, r)
  {
    MemberOfMeans(s, r.caller);
    var gs := GroupsOf(s.members, r.caller.uid, false);
    forall g
      ensures gs == [g] <==> OnlyRow(s.members, r.caller.uid, g)
    {
      OneRow(s.members, r.caller.uid, g);
    }
    hide GroupsOf, OnlyRow, AddLinks;
    var e := EffOf(s, r.caller);
    assert e.memberOf == gs;
    assert forall g :: gs == [g] <==> OnlyRow(s.members, r.caller.uid, g);
    if |gs| == 1 {
      assert gs == [gs[0]] && OnlyRow(s.members, r.caller.uid, gs[0]);
    }
    assert MayTarget(e, gs);
    assert MayTarget(e, r.groupIds) <==> r.caller.superAdmin || forall g :: g in r.groupIds ==> IsMember(s, r.caller.uid, g);
  }

  /** The link between a resource and a group after a request: a granted share decides it for the
      groups the caller can reach, and every other link stays. */
  lemma LinkExactly(s: State, r: Request, id: int, g: int)
    requires Consistent(s) && id in s.resources
    ensures (id, g) in Step(s, r).links <==>
            if Granted(s, r, id) && (r.caller.superAdmin || IsMember(s, r.caller.uid, g))
            then g in Targets(r) && g in s.groups
            else (id, g) in s.links
  {
    MemberOfMeans(s, r.caller);
    AccessMeans(s, r.caller, id);
    hide GroupsOf, CanWrite, CanRead, Writes, Reads, IsMember, NewcomerGroup, Owns, NewGroups;
  }

  /** The links of a new resource: the groups named, or the caller's own if none was. */
  lemma CreatedLinks(s: State, r: Request, g: int)
    requires Consistent(s) && Creates(s, r)
    ensures var id := s.nextResource;
            (id, g) in Step(s, r).links <==>
            g in s.groups && (g in r.groupIds || (r.groupIds == [] && !r.caller.superAdmin && IsMember(s, r.caller.uid, g)))
  {
    CreateAnswers(s, r);
    MemberOfMeans(s, r.caller);
    hide GroupsOf, Creates, IsMember, MayTarget;
  }

  /** Groups come and go by super-admins alone. */
  lemma GroupsExactly(s: State, r: Request, g: int)
    requires Consistent(s)
    ensures g in Step(s, r).groups <==> g in s.groups || (r.CreateGroup? && r.caller.superAdmin && g == s.nextGroup)
    ensures g in Step(s, r).groups ==>
              (Step(s, r).groups[g] <==> (g in s.groups ==> s.groups[g] && !(r.DeleteGroup? && r.caller.superAdmin && r.group == g)))
  {
    hide GroupsOf, CanWrite, MayTarget, NewGroups, NewcomerGroup, Owns, Unlinked, Scope;
  }

  /** Who administers a group after a request: an addition sets the role, a removal ends it. */
  lemma AdminsExactly(s: State, r: Request, u: int, g: int)
    requires Consistent(s)
    ensures IsAdmin(Step(s, r), u, g) <==>
            if Adds(s, r, u, g) then r.admin else IsAdmin(s, u, g) && !Removes(s, r, u, g)
  {
    MemberOfMeans(s, r.caller);
    hide GroupsOf, CanWrite, Republished, Created, WithGlobal;
    match r {
      case AddMember(_, h, v, admin) =>
        if Respond(s, r).0.Done? { AddMemberMeans(s, r.caller, h, v, admin); }
      case RemoveMember(_, h, v) =>
        if Respond(s, r).0.Done? { RemoveMemberMeans(s, r.caller, h, v); }
      case CreateUser(_, into, _) => CreateUserMeans(s, r, u, g);
      case DeleteUser(_, v, _) =>
      case _ => SameMembers(s, r);
    }
  }

  /** Users come by creations that answer with success and go by deletions through a super-admin. */
  lemma UsersExactly(s: State, r: Request, u: int)
    requires Consistent(s)
    ensures u in Step(s, r).users <==>
            || (u in s.users && !(r.DeleteUser? && r.user == u && r.caller.superAdmin && r.caller.uid != u
                                  && u != FIRST_ADMIN && !r.ownsElsewhere && !Owns(s, u)))
            || (r.CreateUser? && u == s.nextUser && r.acceptable
                && (r.caller.superAdmin
                    || (r.into.Some? && IsAdmin(s, r.caller.uid, r.into.value))
                    || (r.into.None? && |EffOf(s, r.caller).adminOf| == 1)))
  {
    MemberOfMeans(s, r.caller);
    hide GroupsOf, CanWrite, MayTarget, NewGroups, Owns, Unlinked, Scope, IsAdmin, IsMember;
  }

  /** What a request about a resource answers: a share needs both rights, an update the right to write
      and a live row, a deletion the right to write. */
  lemma AnswersExactly(s: State, r: Request)
    ensures r.SetShare? ==> Respond(s, r).0 == if Granted(s, r, r.id) then Done else Forbidden
    ensures r.Update? ==> Respond(s, r).0 == if !Writes(s, r.caller, r.id) then Forbidden
                                             else if r.id in s.resources && s.resources[r.id].live then Done else BadRequest
    ensures r.DeleteResource? ==> Respond(s, r).0 == if Writes(s, r.caller, r.id) then Done else Forbidden
  {
    MemberOfMeans(s, r.caller);
    if r.SetShare? || r.Update? || r.DeleteResource? {
      AccessMeans(s, r.caller, r.id);
    }
    hide GroupsOf, CanWrite, CanRead, Reads, Writes, IsMember, AddLinks, Unlinked, WithGlobal;
  }

  // ---- Who reads afterwards ----

  /** The readers of a live resource after a granted share: super-admins, its owner, everybody if it is
      now org-wide, the members of the groups named, and the members of groups linked before that the
      caller is not in and so could not reach. */
  lemma SharedReaders(s: State, r: Request, id: int, c: Caller)
    requires Consistent(s) && Granted(s, r, id) && id in s.resources && s.resources[id].live
    ensures var flag := if Toggles(r, id) then r.isGlobal.value else s.resources[id].isGlobal;
            Reads(Step(s, r), c, id) <==>
            || c.superAdmin || flag || s.resources[id].owner == Some(c.uid)
            || (exists g :: g in Targets(r) && g in s.groups && IsMember(s, c.uid, g))
            || (!r.caller.superAdmin
                && exists g :: (id, g) in s.links && IsMember(s, c.uid, g) && !IsMember(s, r.caller.uid, g))
  {
    ResourceExactly(s, r, id);
    SameMembers(s, r);
    forall g
      ensures (id, g) in Step(s, r).links <==>
              if Granted(s, r, id) && (r.caller.superAdmin || IsMember(s, r.caller.uid, g))
              then g in Targets(r) && g in s.groups else (id, g) in s.links
      ensures IsMember(Step(s, r), c.uid, g) <==> IsMember(s, c.uid, g)
    {
      LinkExactly(s, r, id, g);
    }
    hide Step, IsMember, Writes;
  }

  /** The readers of a new resource. */
  lemma CreatedReaders(s: State, r: Request, c: Caller)
    requires Consistent(s) && Creates(s, r)
    ensures Reads(Step(s, r), c, s.nextResource) <==>
            || c.superAdmin || c.uid == r.caller.uid || (r.caller.superAdmin && r.orgWide)
            || (exists g :: && g in s.groups && IsMember(s, c.uid, g)
                            && (g in r.groupIds || (r.groupIds == [] && !r.caller.superAdmin && IsMember(s, r.caller.uid, g))))
  {
    var id := s.nextResource;
    CreatedExactly(s, r, id);
    SameMembers(s, r);
    forall g
      ensures (id, g) in Step(s, r).links <==>
              g in s.groups && (g in r.groupIds || (r.groupIds == [] && !r.caller.superAdmin && IsMember(s, r.caller.uid, g)))
      ensures IsMember(Step(s, r), c.uid, g) <==> IsMember(s, c.uid, g)
    {
      CreatedLinks(s, r, g);
    }
    hide Step, IsMember, Creates;
  }

  // ---- Who comes to read ----

  /** The request lets the user into the resource: a super-admin makes it org-wide, it is shared to a
      group of the user's, or the user joins a group it is shared to. */
  ghost predicate Opens(s: State, r: Request, u: int, id: int) {
    || (Toggles(r, id) && r.isGlobal.value)
    || (exists g :: Granted(s, r, id) && g in Targets(r) && IsMember(s, u, g))
    || (exists g :: (id, g) in s.links && (Adds(s, r, u, g) || CreatesInto(s, r, u, g)))
  }

  lemma OpensStep(s: State, r: Request, c: Caller, id: int)
    requires Consistent(s) && id in s.resources
    requires !Reads(s, c, id) && Reads(Step(s, r), c, id)
    ensures Opens(s, r, c.uid, id)
  {
    ResourceExactly(s, r, id);
    hide Step, IsMember, Writes, Adds, CreatesInto, Removes, Granted;
    if !Step(s, r).resources[id].isGlobal {
      var g :| (id, g) in Step(s, r).links && IsMember(Step(s, r), c.uid, g);
      LinkExactly(s, r, id, g);
      MembershipExactly(s, r, c.uid, g);
      if (id, g) !in s.links {
        SharesKeepMembers(s, r, id);
      }
    }
  }

  lemma SharesKeepMembers(s: State, r: Request, id: int)
    requires Granted(s, r, id)
    ensures forall u, g :: !Adds(s, r, u, g) && !CreatesInto(s, r, u, g)
  {
  }

  /** Over every run: whoever reads at its end a resource of its start that they did not read then was
      let in by some request of the run. */
  lemma {:induction false} RunOpens(s: State, rs: seq<Request>, c: Caller, id: int) returns (i: nat)
    requires Consistent(s) && id in s.resources
    requires !Reads(s, c, id) && Reads(Run(s, rs), c, id)
    ensures i < |rs| && Opens(Run(s, rs[..i]), rs[i], c.uid, id)
  {
    hide Reads, Opens, Step;
    var n := |rs| - 1;
    RunKeeps(s, rs[..n]);
    if Reads(Run(s, rs[..n]), c, id) {
      i := RunOpens(s, rs[..n], c, id);
      assert rs[..n][..i] == rs[..i];
    } else {
      OpensStep(Run(s, rs[..n]), rs[n], c, id);
      i := n;
    }
  }

  // ---- Org-wide visibility over runs ----

  /** Over every run no resource changes hands; and as long as no super-admin acts none changes its
      org-wide flag, and none that is created is org-wide. */
  lemma {:induction false} VisibilityRun(s: State, rs: seq<Request>, id: int)
    requires Consistent(s) && id in Run(s, rs).resources
    ensures id in s.resources ==> Run(s, rs).resources[id].owner == s.resources[id].owner
    ensures Ordinary(rs) ==> Run(s, rs).resources[id].isGlobal == (id in s.resources && s.resources[id].isGlobal)
  {
    hide Step, Creates, Deletes;
    if rs != [] {
      var n := |rs| - 1;
      var before := Run(s, rs[..n]);
      RunKeeps(s, rs[..n]);
      assert rs[n] in rs;
      assert Ordinary(rs) ==> Ordinary(rs[..n]);
      if id in before.resources {
        VisibilityRun(s, rs[..n], id);
        ResourceExactly(before, rs[n], id);
      } else {
        CreatedExactly(before, rs[n], id);
      }
    }
  }
}
