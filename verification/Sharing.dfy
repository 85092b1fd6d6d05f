/** Group membership, resource sharing (src/rbac.rs) and user accounts (src/auth_handlers.rs) as a
    state machine over requests. One kind of resource is modelled; channels, projects and templates
    each have their own link table. */
module Sharing {
  import opened Bytes

  // ---- The tables ----

  datatype Membership = Membership(group: int, user: int, admin: bool)

  datatype Resource = Resource(owner: Option<int>, isGlobal: bool, live: bool)

  /** `groups` tells of each group whether it is live; ids are handed out in increasing order. */
  datatype State = State(groups: map<int, bool>, users: set<int>, members: seq<Membership>,
                         resources: map<int, Resource>, links: set<(int, int)>,
                         nextGroup: int, nextResource: int, nextUser: int)

  /** Who asks: the user id and whether the token names a super-admin. */
  datatype Caller = Caller(uid: int, superAdmin: bool)

  /** Foreign keys hold and no id is reused. */
  predicate Consistent(s: State) {
    && (forall l :: l in s.links ==> l.0 in s.resources && l.1 in s.groups)
    && (forall m :: m in s.members ==> m.group in s.groups && m.user in s.users)
    && (forall id :: id in s.resources ==> id < s.nextResource)
    && (forall g :: g in s.groups ==> g < s.nextGroup)
    && (forall u :: u in s.users ==> u < s.nextUser)
    && (forall id :: id in s.resources && s.resources[id].owner.Some? ==> s.resources[id].owner.value in s.users)
  }

  // ---- Effective identity ----

  /** The groups of a user's rows, in row order. */
  function GroupsOf(members: seq<Membership>, user: int, adminOnly: bool): (gs: seq<int>)
    ensures forall g :: g in gs <==> exists m :: m in members && m.group == g && m.user == user && (adminOnly ==> m.admin)
  {
    if members == [] then []
    else
      var last := members[|members| - 1];
      GroupsOf(members[..|members| - 1], user, adminOnly)
      + if last.user == user && (adminOnly ==> last.admin) then [last.group] else []
  }

  datatype Eff = Eff(caller: Caller, memberOf: seq<int>, adminOf: seq<int>)

  function EffOf(s: State, c: Caller): Eff {
    Eff(c, GroupsOf(s.members, c.uid, false), GroupsOf(s.members, c.uid, true))
  }

  predicate IsMember(s: State, user: int, g: int) {
    exists m :: m in s.members && m.group == g && m.user == user
  }

  predicate IsAdmin(s: State, user: int, g: int) {
    exists m :: m in s.members && m.group == g && m.user == user && m.admin
  }

  // ---- Access ----

  predicate Linked(s: State, id: int, gs: seq<int>) {
    exists g :: g in gs && (id, g) in s.links
  }

  predicate Live(s: State, id: int) {
    id in s.resources && s.resources[id].live
  }

  predicate CanRead(s: State, e: Eff, id: int) {
    || e.caller.superAdmin
    || (Live(s, id) && (s.resources[id].isGlobal || s.resources[id].owner == Some(e.caller.uid) || Linked(s, id, e.memberOf)))
  }

  predicate CanWrite(s: State, e: Eff, id: int) {
    || e.caller.superAdmin
    || (Live(s, id) && (s.resources[id].owner == Some(e.caller.uid) || Linked(s, id, e.adminOf)))
  }

  /** Whoever may write a resource may read it. */
  lemma WriteImpliesRead(s: State, c: Caller, id: int)
    requires CanWrite(s, EffOf(s, c), id)
    ensures CanRead(s, EffOf(s, c), id)
  {
    forall g | g in EffOf(s, c).adminOf
      ensures g in EffOf(s, c).memberOf
    {
    }
  }

  // ---- Links ----

  /** Inserts that the foreign keys refuse, for a group or resource that does not exist, are dropped. */
  function AddLinks(s: State, id: int, gs: seq<int>): State {
    s.(links := s.links + set g | g in gs && id in s.resources && g in s.groups :: (id, g))
  }

  lemma AddOneMore(s: State, id: int, gs: seq<int>, g: int)
    ensures AddLinks(s, id, gs + [g]).links
            == AddLinks(s, id, gs).links + if id in s.resources && g in s.groups then {(id, g)} else {}
  {
  }

  /** The links left when those of a resource to the groups of a scope, or to all groups, are removed. */
  function Unlinked(links: set<(int, int)>, id: int, scope: Option<seq<int>>): set<(int, int)> {
    set l | l in links && !(l.0 == id && (scope.None? || l.1 in scope.value))
  }

  function Scope(e: Eff): Option<seq<int>> {
    if e.caller.superAdmin then None else Some(e.memberOf)
  }

  predicate MayTarget(e: Eff, gs: seq<int>) {
    e.caller.superAdmin || forall g :: g in gs ==> g in e.memberOf
  }

  function WithGlobal(s: State, e: Eff, id: int, isGlobal: Option<bool>): State {
    if isGlobal.Some? && e.caller.superAdmin && Live(s, id) then
      s.(resources := s.resources[id := s.resources[id].(isGlobal := isGlobal.value)])
    else s
  }

  function Republished(s: State, e: Eff, id: int, gs: seq<int>): State {
    AddLinks(s.(links := Unlinked(s.links, id, Scope(e))), id, gs)
  }

  // ---- Requests ----

  datatype Request =
    | SetShare(caller: Caller, id: int, groupIds: seq<int>, isGlobal: Option<bool>)
    | Update(caller: Caller, id: int, republish: Option<seq<int>>, isGlobal: Option<bool>)
    | Create(caller: Caller, groupIds: seq<int>, orgWide: bool)
    | DeleteResource(caller: Caller, id: int)
    | AddMember(caller: Caller, group: int, user: int, admin: bool)
    | RemoveMember(caller: Caller, group: int, user: int)
    | CreateGroup(caller: Caller)
    | DeleteGroup(caller: Caller, group: int)
    | CreateUser(caller: Caller, into: Option<int>, acceptable: bool)
    | DeleteUser(caller: Caller, user: int, ownsElsewhere: bool)

  datatype Status = Done | Forbidden | BadRequest | NotFound | Failed

  /** The groups a new resource goes to; a caller in exactly one group need not name it. */
  function NewGroups(e: Eff, gs: seq<int>): seq<int> {
    if !e.caller.superAdmin && gs == [] then e.memberOf else gs
  }

  function Created(s: State, e: Eff, gs: seq<int>, isGlobal: bool): (Status, State) {
    if !e.caller.superAdmin && gs == [] && |e.memberOf| != 1 then
      (if |e.memberOf| == 0 then Forbidden else BadRequest, s)
    else if !MayTarget(e, NewGroups(e, gs)) then (Forbidden, s)
    else if e.caller.uid !in s.users then (BadRequest, s)
    else
      var id := s.nextResource;
      var added := Resource(Some(e.caller.uid), e.caller.superAdmin && isGlobal, true);
      (Done, AddLinks(s.(resources := s.resources[id := added], nextResource := id + 1), id, NewGroups(e, gs)))
  }

  function WithoutMember(ms: seq<Membership>, group: int, user: int): (r: seq<Membership>)
    ensures forall m :: m in r <==> m in ms && !(m.group == group && m.user == user)
  {
    if ms == [] then []
    else
      WithoutMember(ms[..|ms| - 1], group, user)
      + if ms[|ms| - 1].group == group && ms[|ms| - 1].user == user then [] else [ms[|ms| - 1]]
  }

  /** The group a new user joins: a super-admin may name any or none, others one they administer. */
  function NewcomerGroup(e: Eff, into: Option<int>): Option<int> {
    if e.caller.superAdmin || into.Some? then into
    else if |e.adminOf| == 1 then Some(e.adminOf[0])
    else None
  }

  /** A new user; `acceptable` tells whether the name and role pass the table's constraints. Nothing
      asks whether the group is deleted, only the foreign key whether it ever existed. */
  function UserCreated(s: State, e: Eff, into: Option<int>, acceptable: bool): (Status, State) {
    var target := NewcomerGroup(e, into);
    if !e.caller.superAdmin && (e.adminOf == [] || (into.Some? && into.value !in e.adminOf)) then (Forbidden, s)
    else if (!e.caller.superAdmin && target.None?) || !acceptable then (BadRequest, s)
    else
      var u := s.nextUser;
      (Done, s.(users := s.users + {u}, nextUser := u + 1,
                members := s.members + if target.Some? && target.value in s.groups
                                       then [Membership(target.value, u, false)] else []))
  }

  predicate Owns(s: State, u: int) {
    exists id :: id in s.resources && s.resources[id].owner == Some(u)
  }

  function WithoutUser(ms: seq<Membership>, user: int): (r: seq<Membership>)
    ensures forall m :: m in r <==> m in ms && m.user != user
  {
    if ms == [] then []
    else WithoutUser(ms[..|ms| - 1], user) + if ms[|ms| - 1].user == user then [] else [ms[|ms| - 1]]
  }

  const FIRST_ADMIN: int := 1

  /** A user goes with all memberships, unless a row owned by the user, of this kind of resource or
      `ownsElsewhere`, holds the foreign key. */
  function UserDeleted(s: State, c: Caller, u: int, ownsElsewhere: bool): (Status, State) {
    if !c.superAdmin || c.uid == u || u == FIRST_ADMIN then (Forbidden, s)
    else if u !in s.users then (Done, s)
    else if ownsElsewhere || Owns(s, u) then (Failed, s)
    else (Done, s.(users := s.users - {u}, members := WithoutUser(s.members, u)))
  }

  /** What each request answers and leaves behind. */
  function Respond(s: State, r: Request): (Status, State) {
    var e := EffOf(s, r.caller);
    match r
    case SetShare(_, id, gs, isGlobal) =>
      if !CanWrite(s, e, id) || !MayTarget(e, gs) then (Forbidden, s)
      else (Done, Republished(WithGlobal(s, e, id, isGlobal), e, id, gs))
    case Update(_, id, republish, isGlobal) =>
      if !CanWrite(s, e, id) then (Forbidden, s)
      else
        var s' := WithGlobal(s, e, id, isGlobal);
        (if Live(s, id) then Done else BadRequest,
         if republish.Some? && MayTarget(e, republish.value) then Republished(s', e, id, republish.value) else s')
    case Create(_, gs, isGlobal) => Created(s, e, gs, isGlobal)
    case DeleteResource(_, id) =>
      if !CanWrite(s, e, id) then (Forbidden, s)
      else if Live(s, id) then (Done, s.(resources := s.resources[id := s.resources[id].(live := false)]))
      else (Done, s)
    case AddMember(_, g, user, admin) =>
      if !e.caller.superAdmin && g !in e.adminOf then (Forbidden, s)
      else if g !in s.groups || !s.groups[g] || user !in s.users then (NotFound, s)
      else (Done, s.(members := WithoutMember(s.members, g, user) + [Membership(g, user, admin)]))
    case RemoveMember(_, g, user) =>
      if !e.caller.superAdmin && g !in e.adminOf then (Forbidden, s)
      else (Done, s.(members := WithoutMember(s.members, g, user)))
    case CreateGroup(_) =>
      if !e.caller.superAdmin then (Forbidden, s)
      else (Done, s.(groups := s.groups[s.nextGroup := true], nextGroup := s.nextGroup + 1))
    case DeleteGroup(_, g) =>
      if !e.caller.superAdmin then (Forbidden, s)
      else (Done, if g in s.groups then s.(groups := s.groups[g := false]) else s)
    case CreateUser(_, into, acceptable) => UserCreated(s, e, into, acceptable)
    case DeleteUser(c, u, ownsElsewhere) => UserDeleted(s, c, u, ownsElsewhere)
  }

  function Step(s: State, r: Request): State {
    Respond(s, r).1
  }

  function Run(s: State, rs: seq<Request>): State {
    if rs == [] then s else Step(Run(s, rs[..|rs| - 1]), rs[|rs| - 1])
  }

  // ---- One step ----

  /** The request could change the link between `id` and `g`: it names the resource, its caller may
      write it, and is a super-admin or at that moment a member of the group. */
  predicate Authorised(s: State, r: Request, id: int, g: int) {
    && (r.SetShare? || (r.Update? && r.republish.Some?)) && r.id == id
    && CanWrite(s, EffOf(s, r.caller), id)
    && (r.caller.superAdmin || IsMember(s, r.caller.uid, g))
  }

  function Targets(r: Request): seq<int>
    requires r.SetShare? || (r.Update? && r.republish.Some?)
  {
    if r.SetShare? then r.groupIds else r.republish.value
  }

  lemma ResourcesStay(s: State, r: Request)
    requires Consistent(s)
    ensures Consistent(Step(s, r))
    ensures s.resources.Keys <= Step(s, r).resources.Keys
    ensures s.nextUser <= Step(s, r).nextUser
  {
    hide GroupsOf, CanWrite, MayTarget, NewGroups, NewcomerGroup, Scope, Owns;
    if r.DeleteUser? {
      OwnersStay(s, r);
    } else if r.SetShare? || r.Update? || r.Create? {
      SharingStays(s, r);
    }
  }

  lemma OwnersStay(s: State, r: Request)
    requires Consistent(s) && r.DeleteUser?
    ensures Consistent(Step(s, r)) && Step(s, r).resources == s.resources && Step(s, r).nextUser == s.nextUser
  {
    hide GroupsOf;
  }

  lemma SharingStays(s: State, r: Request)
    requires Consistent(s) && (r.SetShare? || r.Update? || r.Create?)
    ensures Consistent(Step(s, r)) && s.resources.Keys <= Step(s, r).resources.Keys && Step(s, r).nextUser == s.nextUser
  {
    hide GroupsOf, CanWrite, MayTarget, NewGroups, Scope;
  }

  /** Links of an existing resource change only by an authorised request, and then to what it asks. */
  lemma LinkStep(s: State, r: Request, id: int, g: int)
    requires Consistent(s) && id in s.resources
    requires ((id, g) in s.links) != ((id, g) in Step(s, r).links)
    ensures Authorised(s, r, id, g)
    ensures (id, g) in Step(s, r).links <==> g in Targets(r)
  {
    MemberOfMeans(s, r.caller);
    hide GroupsOf, CanWrite;
  }

  lemma MemberOfMeans(s: State, c: Caller)
    ensures forall g :: g in EffOf(s, c).memberOf <==> IsMember(s, c.uid, g)
    ensures forall g :: g in EffOf(s, c).adminOf <==> IsAdmin(s, c.uid, g)
  {
  }

  // ---- Runs ----

  lemma {:induction false} RunKeeps(s: State, rs: seq<Request>)
    requires Consistent(s)
    ensures Consistent(Run(s, rs))
    ensures s.resources.Keys <= Run(s, rs).resources.Keys
    ensures s.nextUser <= Run(s, rs).nextUser
  {
    hide Step, Consistent;
    if rs != [] {
      RunKeeps(s, rs[..|rs| - 1]);
      ResourcesStay(Run(s, rs[..|rs| - 1]), rs[|rs| - 1]);
    }
  }

  /** Over every run: if a link of a resource that existed at its start has come or gone at its end,
      some request of the run was authorised to change it when it was made. */
  lemma {:induction false} RunAuthorised(s: State, rs: seq<Request>, id: int, g: int) returns (i: nat)
    requires Consistent(s) && id in s.resources
    requires ((id, g) in s.links) != ((id, g) in Run(s, rs).links)
    ensures i < |rs| && Authorised(Run(s, rs[..i]), rs[i], id, g)
  {
    hide Authorised, Step;
    var n := |rs| - 1;
    var before := Run(s, rs[..n]);
    if ((id, g) in s.links) != ((id, g) in before.links) {
      i := RunAuthorised(s, rs[..n], id, g);
      assert rs[..n][..i] == rs[..i];
    } else {
      RunKeeps(s, rs[..n]);
      LinkStep(before, rs[n], id, g);
      i := n;
    }
  }

  predicate Ordinary(rs: seq<Request>) {
    forall r :: r in rs ==> !r.caller.superAdmin
  }

  /** Only a super-admin or an admin of the group brings anyone in or promotes anyone. */
  lemma JoinStep(s: State, r: Request, g: int, u: int)
    requires !r.caller.superAdmin && !IsAdmin(s, r.caller.uid, g)
    ensures IsMember(Step(s, r), u, g) ==> IsMember(s, u, g)
    ensures IsAdmin(Step(s, r), u, g) ==> IsAdmin(s, u, g)
  {
    MemberOfMeans(s, r.caller);
    hide GroupsOf;
    forall m | m in Step(s, r).members && m.group == g
      ensures m in s.members
    {
    }
  }

  lemma MembersStep(s: State, r: Request, g: int)
    requires !r.caller.superAdmin
    requires forall u :: !IsAdmin(s, u, g)
    ensures forall u :: IsMember(Step(s, r), u, g) ==> IsMember(s, u, g)
    ensures forall u :: !IsAdmin(Step(s, r), u, g)
  {
    hide IsAdmin, IsMember, Step;
    forall u
      ensures IsMember(Step(s, r), u, g) ==> IsMember(s, u, g)
      ensures IsAdmin(Step(s, r), u, g) ==> IsAdmin(s, u, g)
    {
      JoinStep(s, r, g, u);
    }
  }

  /** A group nobody administers takes no new member or admin from ordinary callers. */
  lemma {:induction false} MembersRun(s: State, rs: seq<Request>, g: int)
    requires Ordinary(rs)
    requires forall u :: !IsAdmin(s, u, g)
    ensures forall u :: IsMember(Run(s, rs), u, g) ==> IsMember(s, u, g)
    ensures forall u :: !IsAdmin(Run(s, rs), u, g)
  {
    hide IsMember, IsAdmin, Step;
    if rs != [] {
      MembersRun(s, rs[..|rs| - 1], g);
      MembersStep(Run(s, rs[..|rs| - 1]), rs[|rs| - 1], g);
    }
  }

  /** So over any run without super-admins, what is shared with an empty group stays as it is. */
  lemma EmptyGroupIsolated(s: State, rs: seq<Request>, id: int, g: int)
    requires Consistent(s) && id in s.resources && Ordinary(rs)
    requires forall u :: !IsMember(s, u, g)
    ensures (id, g) in Run(s, rs).links <==> (id, g) in s.links
  {
    hide IsAdmin, Step, Run, CanWrite;
    assert forall j :: 0 <= j < |rs| ==> rs[j] in rs;
    if ((id, g) in s.links) != ((id, g) in Run(s, rs).links) {
      var i := RunAuthorised(s, rs, id, g);
      NoAdmins(s, g);
      MembersRun(s, rs[..i], g);
    }
  }

  lemma NoAdmins(s: State, g: int)
    requires forall u :: !IsMember(s, u, g)
    ensures forall u :: !IsAdmin(s, u, g)
  {
    forall u | IsAdmin(s, u, g)
      ensures IsMember(s, u, g)
    {
    }
  }

  // ---- Sharing again ----

  /** What the caller needs to write the resource after sharing it to `gs`. */
  predicate KeepsWrite(s: State, c: Caller, id: int, gs: seq<int>) {
    || c.superAdmin
    || (id in s.resources && s.resources[id].owner == Some(c.uid))
    || exists g :: g in gs && IsAdmin(s, c.uid, g)
  }

  /** After a successful share its caller may still write the resource exactly as a super-admin, as
      its owner, or as an admin of one of the groups just named. */
  lemma WriteAfterShare(s: State, c: Caller, id: int, gs: seq<int>, isGlobal: Option<bool>)
    requires Consistent(s) && Respond(s, SetShare(c, id, gs, isGlobal)).0.Done?
    ensures var once := Step(s, SetShare(c, id, gs, isGlobal));
            && EffOf(once, c) == EffOf(s, c)
            && (CanWrite(once, EffOf(once, c), id) <==> KeepsWrite(s, c, id, gs))
  {
    MemberOfMeans(s, c);
    hide GroupsOf;
    var e, once := EffOf(s, c), Step(s, SetShare(c, id, gs, isGlobal));
    if !c.superAdmin {
      forall g | g in e.adminOf
        ensures (id, g) in once.links <==> g in gs
      {
        assert IsMember(s, c.uid, g);
      }
    }
  }

  /** A second share by the same caller is granted exactly if the first left the caller the right to
      write and its groups are the caller's; then only the second choice remains, as if the first had
      not been. */
  lemma LastShareWins(s: State, c: Caller, id: int, g1: seq<int>, g2: seq<int>, i1: Option<bool>, i2: Option<bool>)
    requires Consistent(s) && Respond(s, SetShare(c, id, g1, i1)).0.Done?
    ensures var once := Step(s, SetShare(c, id, g1, i1));
            && (Respond(once, SetShare(c, id, g2, i2)).0.Done? <==>
                KeepsWrite(s, c, id, g1) && MayTarget(EffOf(s, c), g2))
            && (Respond(once, SetShare(c, id, g2, i2)).0.Done? ==>
                  && Step(once, SetShare(c, id, g2, i2)).links == Step(s, SetShare(c, id, g2, i2)).links
                  && (i1.None? || i2.Some? ==>
                        Step(once, SetShare(c, id, g2, i2)) == Step(s, SetShare(c, id, g2, i2))))
  {
    WriteAfterShare(s, c, id, g1, i1);
    hide GroupsOf, CanWrite, KeepsWrite;
    var e := EffOf(s, c);
    var once := Step(s, SetShare(c, id, g1, i1));
    assert Unlinked(once.links, id, Scope(e)) == Unlinked(s.links, id, Scope(e));
  }

  /** Whoever shares a resource away is locked out of it: without the right kept, every further
      request of the same caller about it is refused. */
  lemma LockedOut(s: State, c: Caller, id: int, gs: seq<int>, isGlobal: Option<bool>, r: Request)
    requires Consistent(s) && Respond(s, SetShare(c, id, gs, isGlobal)).0.Done?
    requires (r.SetShare? || r.Update? || r.DeleteResource?) && r.caller == c && r.id == id
    requires !KeepsWrite(s, c, id, gs)
    ensures Respond(Step(s, SetShare(c, id, gs, isGlobal)), r).0.Forbidden?
  {
    WriteAfterShare(s, c, id, gs, isGlobal);
    hide GroupsOf, CanWrite, KeepsWrite, Step;
  }

  // ---- Membership and deletion ----

  /** A granted addition gives one user one role in one group and changes nobody else's standing. */
  lemma AddMemberMeans(s: State, c: Caller, g: int, u: int, admin: bool)
    requires Respond(s, AddMember(c, g, u, admin)).0.Done?
    ensures var s' := Step(s, AddMember(c, g, u, admin));
            && (forall v, h :: IsMember(s', v, h) <==> IsMember(s, v, h) || (v == u && h == g))
            && (forall v, h :: IsAdmin(s', v, h) <==> if v == u && h == g then admin else IsAdmin(s, v, h))
            && s' == s.(members := s'.members)
  {
    hide GroupsOf;
    var s' := Step(s, AddMember(c, g, u, admin));
    assert Membership(g, u, admin) in s'.members;
    forall m | m in s.members && !(m.group == g && m.user == u)
      ensures m in s'.members
    {
    }
  }

  /** A granted removal takes one user out of one group and changes nobody else's standing. */
  lemma RemoveMemberMeans(s: State, c: Caller, g: int, u: int)
    requires Respond(s, RemoveMember(c, g, u)).0.Done?
    ensures var s' := Step(s, RemoveMember(c, g, u));
            && (forall v, h :: IsMember(s', v, h) <==> IsMember(s, v, h) && !(v == u && h == g))
            && (forall v, h :: IsAdmin(s', v, h) <==> IsAdmin(s, v, h) && !(v == u && h == g))
            && s' == s.(members := s'.members)
  {
    hide GroupsOf;
    var s' := Step(s, RemoveMember(c, g, u));
    forall m | m in s.members && !(m.group == g && m.user == u)
      ensures m in s'.members
    {
    }
  }

  /** Removing a member who was just added restores everybody's standing. */
  lemma AddThenRemove(s: State, c: Caller, d: Caller, g: int, u: int, admin: bool)
    requires !IsMember(s, u, g) && Respond(s, AddMember(c, g, u, admin)).0.Done?
    requires var s' := Step(s, AddMember(c, g, u, admin)); Respond(s', RemoveMember(d, g, u)).0.Done?
    ensures var s'' := Step(Step(s, AddMember(c, g, u, admin)), RemoveMember(d, g, u));
            && (forall v, h :: IsMember(s'', v, h) <==> IsMember(s, v, h))
            && (forall v, h :: IsAdmin(s'', v, h) <==> IsAdmin(s, v, h))
            && s'' == s.(members := s''.members)
  {
    AdminIsMember(s, u, g);
    AddMemberMeans(s, c, g, u, admin);
    RemoveMemberMeans(Step(s, AddMember(c, g, u, admin)), d, g, u);
    hide Step, IsMember, IsAdmin, Respond;
  }

  lemma AdminIsMember(s: State, u: int, g: int)
    ensures IsAdmin(s, u, g) ==> IsMember(s, u, g)
  {
  }

  predicate Deleted(s: State, id: int) {
    id in s.resources && !s.resources[id].live
  }

  predicate Dissolved(s: State, g: int) {
    g in s.groups && !s.groups[g]
  }

  lemma DeletedStep(s: State, r: Request, id: int, g: int)
    requires Consistent(s)
    ensures Deleted(s, id) ==> Deleted(Step(s, r), id)
    ensures Dissolved(s, g) ==> Dissolved(Step(s, r), g)
  {
    hide GroupsOf;
  }

  /** Over every run a deleted resource stays deleted, so that only super-admins read or write it. */
  lemma {:induction false} DeletedForGood(s: State, rs: seq<Request>, id: int, c: Caller)
    requires Consistent(s) && Deleted(s, id)
    ensures var s' := Run(s, rs);
            && Deleted(s', id)
            && (CanRead(s', EffOf(s', c), id) <==> c.superAdmin) && (CanWrite(s', EffOf(s', c), id) <==> c.superAdmin)
  {
    hide Step, GroupsOf;
    if rs != [] {
      var n := |rs| - 1;
      DeletedForGood(s, rs[..n], id, c);
      RunKeeps(s, rs[..n]);
      DeletedStep(Run(s, rs[..n]), rs[n], id, 0);
    }
  }

  // ---- Who joins and who leaves ----

  /** The request adds an existing user to a live group. */
  predicate Adds(s: State, r: Request, u: int, g: int) {
    && r.AddMember? && r.user == u && r.group == g
    && (r.caller.superAdmin || IsAdmin(s, r.caller.uid, g))
    && g in s.groups && s.groups[g] && u in s.users
  }

  /** The request creates the user inside the group, deleted or not: by naming it, or without a name
      by the admin of that group alone. */
  predicate CreatesInto(s: State, r: Request, u: int, g: int) {
    && r.CreateUser? && r.acceptable && u == s.nextUser && g in s.groups
    && (r.caller.superAdmin || IsAdmin(s, r.caller.uid, g))
    && (r.into == Some(g) || (r.into.None? && !r.caller.superAdmin && EffOf(s, r.caller).adminOf == [g]))
  }

  /** The request takes the user out of the group, or out of the system. */
  predicate Removes(s: State, r: Request, u: int, g: int) {
    || (r.RemoveMember? && r.user == u && r.group == g && (r.caller.superAdmin || IsAdmin(s, r.caller.uid, g)))
    || (r.DeleteUser? && r.user == u && r.caller.superAdmin && r.caller.uid != u && u != FIRST_ADMIN
        && u in s.users && !r.ownsElsewhere && !Owns(s, u))
  }

  /** Every membership after a request, from those before it. */
  lemma MembershipExactly(s: State, r: Request, u: int, g: int)
    requires Consistent(s)
    ensures IsMember(Step(s, r), u, g) <==>
            (IsMember(s, u, g) && !Removes(s, r, u, g)) || Adds(s, r, u, g) || CreatesInto(s, r, u, g)
  {
    MemberOfMeans(s, r.caller);
    hide GroupsOf, CanWrite, Republished, Created, WithGlobal;
    match r {
      case AddMember(_, h, v, admin) =>
        if Respond(s, r).0.Done? { AddMemberMeans(s, r.caller, h, v, admin); }
      case RemoveMember(_, h, v) =>
        if Respond(s, r).0.Done? { RemoveMemberMeans(s, r.caller, h, v); }
      case CreateUser(_, into, _) => CreateUserMeans(s, r, u, g);
      case DeleteUser(_, v, _) =>
      case _ => SameMembers(s, r);
    }
  }

  lemma SameMembers(s: State, r: Request)
    requires !r.AddMember? && !r.RemoveMember? && !r.CreateUser? && !r.DeleteUser?
    ensures Step(s, r).members == s.members
  {
    hide GroupsOf;
  }

  /** A new user is a member of the group they were created in, and nobody else's standing changes. */
  lemma CreateUserMeans(s: State, r: Request, u: int, g: int)
    requires Consistent(s) && r.CreateUser?
    ensures IsMember(Step(s, r), u, g) <==> IsMember(s, u, g) || CreatesInto(s, r, u, g)
    ensures IsAdmin(Step(s, r), u, g) <==> IsAdmin(s, u, g)
  {
    MemberOfMeans(s, r.caller);
    hide GroupsOf;
    var s' := Step(s, r);
    assert s.members <= s'.members;
    forall m | m in s.members
      ensures m in s'.members
    {
    }
    if |s'.members| > |s.members| {
      assert s'.members == s.members + [s'.members[|s.members|]];
    }
  }

  /** Over every run: whoever is in a group at its end and was not at its start was brought in by some
      request of the run, granted when it was made: added while the group was live, or created in it. */
  lemma {:induction false} RunJoined(s: State, rs: seq<Request>, u: int, g: int) returns (i: nat)
    requires Consistent(s) && !IsMember(s, u, g) && IsMember(Run(s, rs), u, g)
    ensures i < |rs|
    ensures Adds(Run(s, rs[..i]), rs[i], u, g) || CreatesInto(Run(s, rs[..i]), rs[i], u, g)
  {
    hide Adds, CreatesInto, Step, IsMember, Removes;
    var n := |rs| - 1;
    RunKeeps(s, rs[..n]);
    if IsMember(Run(s, rs[..n]), u, g) {
      i := RunJoined(s, rs[..n], u, g);
      assert rs[..n][..i] == rs[..i];
    } else {
      MembershipExactly(Run(s, rs[..n]), rs[n], u, g);
      i := n;
    }
  }

  lemma {:induction false} DissolvedStays(s: State, rs: seq<Request>, g: int)
    requires Consistent(s) && Dissolved(s, g)
    ensures Dissolved(Run(s, rs), g)
  {
    hide Step;
    if rs != [] {
      var n := |rs| - 1;
      DissolvedStays(s, rs[..n], g);
      RunKeeps(s, rs[..n]);
      DeletedStep(Run(s, rs[..n]), rs[n], 0, g);
    }
  }

  /** Over every run a deleted group stays deleted, and nobody who was a user at its start joins it. */
  lemma DissolvedForGood(s: State, rs: seq<Request>, g: int, u: int)
    requires Consistent(s) && Dissolved(s, g)
    ensures Dissolved(Run(s, rs), g)
    ensures IsMember(Run(s, rs), u, g) && u in s.users ==> IsMember(s, u, g)
  {
    hide Step, Run, IsMember;
    DissolvedStays(s, rs, g);
    if IsMember(Run(s, rs), u, g) && !IsMember(s, u, g) {
      var i := NewcomersOnly(s, rs, g, u);
    }
  }

  /** Whoever does join a deleted group is a user created in it, by a super-admin or by somebody who
      still administers it. */
  lemma NewcomersOnly(s: State, rs: seq<Request>, g: int, u: int) returns (i: nat)
    requires Consistent(s) && Dissolved(s, g) && IsMember(Run(s, rs), u, g) && !IsMember(s, u, g)
    ensures u !in s.users && i < |rs| && CreatesInto(Run(s, rs[..i]), rs[i], u, g)
  {
    hide Step, Run, IsMember, IsAdmin;
    i := RunJoined(s, rs, u, g);
    DissolvedStays(s, rs[..i], g);
    RunKeeps(s, rs[..i]);
  }

  /** The case is real: the admin of a group still administers it once it is deleted, and a user
      created in it then is its member. */
  lemma DeletedGroupGains(s: State, root: Caller, admin: int, g: int)
    requires Consistent(s) && root.superAdmin && g in s.groups && IsAdmin(s, admin, g)
    ensures var rs := [DeleteGroup(root, g), CreateUser(Caller(admin, false), Some(g), true)];
            && Dissolved(Run(s, rs), g) && Consistent(Run(s, rs))
            && s.nextUser !in s.users && IsMember(Run(s, rs), s.nextUser, g)
  {
    var first, second := DeleteGroup(root, g), CreateUser(Caller(admin, false), Some(g), true);
    var s1 := Step(s, first);
    DeletionKeeps(s, first);
    DeletedStep(s1, second, 0, g);
    ResourcesStay(s, first);
    ResourcesStay(s1, second);
    assert Dissolved(s1, g);
    TwoSteps(s, first, second);
    assert IsAdmin(s1, admin, g);
    hide Step, IsAdmin;
    MembershipExactly(s1, second, s.nextUser, g);
  }

  lemma DeletionKeeps(s: State, r: Request)
    requires r.DeleteGroup?
    ensures var s' := Step(s, r); s'.nextUser == s.nextUser && s'.users == s.users && s'.members == s.members
  {
    hide GroupsOf;
  }

  lemma TwoSteps(s: State, a: Request, b: Request)
    ensures Run(s, [a, b]) == Step(Step(s, a), b)
  {
    hide Step;
    assert [a, b][..1] == [a] && [a][..0] == [];
    assert Run(s, [a]) == Step(Run(s, []), a);
  }

  /** A new group is new, and stays empty until a super-admin acts. */
  lemma NewGroupEmpty(s: State, c: Caller, rs: seq<Request>)
    requires Consistent(s) && c.superAdmin && Ordinary(rs)
    ensures var s', g := Step(s, CreateGroup(c)), s.nextGroup;
            && Respond(s, CreateGroup(c)).0.Done?
            && g !in s.groups && g in s'.groups && s'.groups[g] && s'.links == s.links && s'.members == s.members
            && (forall l :: l in s'.links ==> l.1 != g)
            && (forall u :: !IsMember(Run(s', rs), u, g))
  {
    hide GroupsOf;
    var s', g := Step(s, CreateGroup(c)), s.nextGroup;
    assert s'.members == s.members;
    NoAdmins(s', g);
    MembersRun(s', rs, g);
  }

  // ---- The code ----

  class Store {
    var groups: map<int, bool>
    var users: set<int>
    var members: seq<Membership>
    var resources: map<int, Resource>
    var links: set<(int, int)>
    var nextGroup: int
    var nextResource: int
    var nextUser: int

    ghost function View(): State
      reads this
    {
      State(groups, users, members, resources, links, nextGroup, nextResource, nextUser)
    }

    constructor (s: State)
      ensures View() == s
    {
      groups, users, members, resources, links := s.groups, s.users, s.members, s.resources, s.links;
      nextGroup, nextResource, nextUser := s.nextGroup, s.nextResource, s.nextUser;
    }

    /** `effective`: one pass over the caller's rows. */
    method Effective(c: Caller) returns (e: Eff)
      ensures e == EffOf(View(), c)
    {
      var memberOf: seq<int>, adminOf: seq<int> := [], [];
      for i := 0 to |members|
        invariant memberOf == GroupsOf(members[..i], c.uid, false)
        invariant adminOf == GroupsOf(members[..i], c.uid, true)
      {
        assert members[..i + 1][..i] == members[..i];
        if members[i].user == c.uid {
          memberOf := memberOf + [members[i].group];
          if members[i].admin {
            adminOf := adminOf + [members[i].group];
          }
        }
      }
      assert members[..|members|] == members;
      return Eff(c, memberOf, adminOf);
    }

    /** `link_groups`. */
    method LinkGroups(id: int, gs: seq<int>)
      modifies this`links
      ensures View() == AddLinks(old(View()), id, gs)
    {
      for i := 0 to |gs|
        invariant View() == AddLinks(old(View()), id, gs[..i])
      {
        if id in resources && gs[i] in groups {
          links := links + {(id, gs[i])};
        }
        assert gs[..i + 1] == gs[..i] + [gs[i]];
        AddOneMore(old(View()), id, gs[..i], gs[i]);
      }
      assert gs[..|gs|] == gs;
    }

    /** `set_groups_scoped`: without a scope every link of the resource goes first. */
    method SetGroupsScoped(id: int, desired: seq<int>, manageable: Option<seq<int>>)
      modifies this`links
      ensures View() == AddLinks(old(View()).(links := Unlinked(old(links), id, manageable)), id, desired)
    {
      ghost var before := links;
      if manageable.None? {
        links := set l | l in links && l.0 != id;
      } else if |manageable.value| > 0 {
        links := set l | l in links && !(l.0 == id && l.1 in manageable.value);
      }
      assert links == Unlinked(before, id, manageable);
      LinkGroups(id, desired);
    }

    /** `set_share`. */
    method SetShare(c: Caller, id: int, groupIds: seq<int>, isGlobal: Option<bool>) returns (status: Status)
      modifies this
      ensures (status, View()) == Respond(old(View()), Request.SetShare(c, id, groupIds, isGlobal))
    {
      hide GroupsOf;
      var e := Effective(c);
      if !CanWriteHere(e, id) {
        return Forbidden;
      }
      if !c.superAdmin && !(forall g :: g in groupIds ==> g in e.memberOf) {
        return Forbidden;
      }
      if isGlobal.Some? && c.superAdmin {
        SetGlobal(id, isGlobal.value);
      }
      SetGroupsScoped(id, groupIds, Scope(e));
      return Done;
    }

    /** The sharing part of `update_channel`; a target outside the caller's groups is ignored. */
    method Update(c: Caller, id: int, republish: Option<seq<int>>, isGlobal: Option<bool>) returns (status: Status)
      modifies this
      ensures (status, View()) == Respond(old(View()), Request.Update(c, id, republish, isGlobal))
    {
      hide GroupsOf;
      var e := Effective(c);
      if !CanWriteHere(e, id) {
        return Forbidden;
      }
      status := if id in resources && resources[id].live then Done else BadRequest;
      if isGlobal.Some? && c.superAdmin {
        SetGlobal(id, isGlobal.value);
      }
      if republish.Some? && (c.superAdmin || forall g :: g in republish.value ==> g in e.memberOf) {
        SetGroupsScoped(id, republish.value, Scope(e));
      }
    }

    /** The update of one column of a live row. */
    method SetGlobal(id: int, isGlobal: bool)
      modifies this`resources
      ensures resources == if Live(old(View()), id) then old(resources)[id := old(resources)[id].(isGlobal := isGlobal)]
                           else old(resources)
    {
      if id in resources && resources[id].live {
        resources := resources[id := resources[id].(isGlobal := isGlobal)];
      }
    }

    /** `can_write`. */
    predicate CanWriteHere(e: Eff, id: int)
      reads this
      ensures CanWriteHere(e, id) == CanWrite(View(), e, id)
    {
      || e.caller.superAdmin
      || (id in resources && resources[id].live
          && (resources[id].owner == Some(e.caller.uid) || exists g :: g in e.adminOf && (id, g) in links))
    }

    /** The sharing part of `create_channel`. */
    method Create(c: Caller, groupIds: seq<int>, orgWide: bool) returns (status: Status)
      modifies this
      ensures (status, View()) == Respond(old(View()), Request.Create(c, groupIds, orgWide))
    {
      hide GroupsOf;
      var e := Effective(c);
      var gs := groupIds;
      if !c.superAdmin {
        if gs == [] {
          if |e.memberOf| == 1 {
            gs := e.memberOf;
          } else {
            return if |e.memberOf| == 0 then Forbidden else BadRequest;
          }
        }
        if !(forall g :: g in gs ==> g in e.memberOf) {
          return Forbidden;
        }
      }
      if c.uid !in users {
        return BadRequest;
      }
      var id := nextResource;
      resources := resources[id := Resource(Some(c.uid), c.superAdmin && orgWide, true)];
      nextResource := id + 1;
      LinkGroups(id, gs);
      return Done;
    }

    /** `delete_channel`: the row stays, and so do its links. */
    method DeleteResource(c: Caller, id: int) returns (status: Status)
      modifies this`resources
      ensures (status, View()) == Respond(old(View()), Request.DeleteResource(c, id))
    {
      hide GroupsOf;
      var e := Effective(c);
      if !CanWriteHere(e, id) {
        return Forbidden;
      }
      if id in resources && resources[id].live {
        resources := resources[id := resources[id].(live := false)];
      }
      return Done;
    }

    /** `add_member`, which also changes the role of a member. */
    method AddMember(c: Caller, group: int, user: int, admin: bool) returns (status: Status)
      modifies this`members
      ensures (status, View()) == Respond(old(View()), Request.AddMember(c, group, user, admin))
    {
      hide GroupsOf;
      var e := Effective(c);
      if !c.superAdmin && group !in e.adminOf {
        return Forbidden;
      }
      if group !in groups || !groups[group] || user !in users {
        return NotFound;
      }
      members := WithoutMember(members, group, user) + [Membership(group, user, admin)];
      return Done;
    }

    /** `remove_member`. */
    method RemoveMember(c: Caller, group: int, user: int) returns (status: Status)
      modifies this`members
      ensures (status, View()) == Respond(old(View()), Request.RemoveMember(c, group, user))
    {
      hide GroupsOf;
      var e := Effective(c);
      if !c.superAdmin && group !in e.adminOf {
        return Forbidden;
      }
      members := WithoutMember(members, group, user);
      return Done;
    }

    /** `create_group`. */
    method CreateGroup(c: Caller) returns (status: Status)
      modifies this`groups, this`nextGroup
      ensures (status, View()) == Respond(old(View()), Request.CreateGroup(c))
    {
      if !c.superAdmin {
        return Forbidden;
      }
      groups := groups[nextGroup := true];
      nextGroup := nextGroup + 1;
      return Done;
    }

    /** `delete_group`: memberships and links of a deleted group stay. */
    method DeleteGroup(c: Caller, group: int) returns (status: Status)
      modifies this`groups
      ensures (status, View()) == Respond(old(View()), Request.DeleteGroup(c, group))
    {
      if !c.superAdmin {
        return Forbidden;
      }
      if group in groups {
        groups := groups[group := false];
      }
      return Done;
    }

    /** `create_user` of src/auth_handlers.rs. */
    method CreateUser(c: Caller, into: Option<int>, acceptable: bool) returns (status: Status)
      modifies this`users, this`nextUser, this`members
      ensures (status, View()) == Respond(old(View()), Request.CreateUser(c, into, acceptable))
    {
      hide GroupsOf;
      var e := Effective(c);
      if !c.superAdmin && e.adminOf == [] {
        return Forbidden;
      }
      var target := into;
      if !c.superAdmin {
        if into.Some? && into.value !in e.adminOf {
          return Forbidden;
        }
        if into.None? {
          if |e.adminOf| != 1 {
            return BadRequest;
          }
          target := Some(e.adminOf[0]);
        }
      }
      if !acceptable {
        return BadRequest;
      }
      var u := nextUser;
      users := users + {u};
      nextUser := u + 1;
      assert members + [] == members;
      if target.Some? && target.value in groups {
        members := members + [Membership(target.value, u, false)];
      }
      return Done;
    }

    /** `delete_user` of src/auth_handlers.rs; memberships go with the user, owned rows forbid it. */
    method DeleteUser(c: Caller, user: int, ownsElsewhere: bool) returns (status: Status)
      modifies this`users, this`members
      ensures (status, View()) == Respond(old(View()), Request.DeleteUser(c, user, ownsElsewhere))
    {
      if !c.superAdmin || c.uid == user || user == FIRST_ADMIN {
        return Forbidden;
      }
      if user !in users {
        return Done;
      }
      if ownsElsewhere || exists id :: id in resources && resources[id].owner == Some(user) {
        return Failed;
      }
      users := users - {user};
      members := WithoutUser(members, user);
      return Done;
    }
  }
}
