/**
 * Users, workspaces, members and invitations under the organization hooks:
 * each endpoint as one step, its hook's check and its store together.
 */
module Workspaces {
  import opened Text
  import opened Handles

  type UserId = string
  type OrgId = string

  datatype Kind = Personal(owner: UserId) | Team

  datatype Workspace = Workspace(kind: Kind, slug: string, members: set<UserId>)

  /** What the database holds; an invitation is a workspace and an address. */
  datatype Store = Store(
    usernames: map<UserId, string>,
    workspaces: map<OrgId, Workspace>,
    invitations: set<(OrgId, string)>)

  datatype Refusal = InvalidHandle | HandleTaken | PersonalOrganization | NotFound | Exists

  datatype Outcome = Done(store: Store) | Refused(reason: Refusal)

  // ---- the guards ---------------------------------------------------------

  predicate IsTeam(s: Store, o: OrgId) {
    o in s.workspaces && s.workspaces[o].kind.Team?
  }

  predicate IsPersonal(s: Store, o: OrgId) {
    o in s.workspaces && s.workspaces[o].kind.Personal?
  }

  /** `slugOwner`: a user, or a team other than the one excepted, holds the handle. */
  ghost predicate Claimed(s: Store, handle: string, exceptId: Option<OrgId>) {
    || (exists u :: u in s.usernames && s.usernames[u] == handle)
    || (exists o :: IsTeam(s, o) && s.workspaces[o].slug == handle && exceptId != Some(o))
  }

  datatype FreeHandle = Free(handle: string) | NotFree(reason: Refusal)

  ghost function RequireFreeHandle(s: Store, raw: Option<string>, exceptId: Option<OrgId>): FreeHandle {
    match Normalize(if raw.Some? then raw.value else "")
    case Invalid => NotFree(InvalidHandle)
    case Handle(handle, _) => if Claimed(s, handle, exceptId) then NotFree(HandleTaken) else Free(handle)
  }

  // ---- the endpoints ------------------------------------------------------

  datatype Action =
    | Signup(user: UserId, username: string)
    | CreatePersonal(user: UserId, id: OrgId, joined: bool)
    | ChangeUsername(user: UserId, raw: string)
    | Create(user: UserId, id: OrgId, slug: Option<string>)
    | Update(id: OrgId, slug: Option<string>)
    | Invite(id: OrgId, email: string)
    | Accept(id: OrgId, email: string, user: UserId)
    | AddMember(id: OrgId, user: UserId)
    | Delete(id: OrgId)

  function Put(s: Store, o: OrgId, w: Workspace): Store {
    s.(workspaces := s.workspaces[o := w])
  }

  /** The username a new account is proposed; the database refuses one somebody holds. */
  ghost function SignupStep(s: Store, user: UserId, username: string): Outcome {
    if user in s.usernames then Refused(Exists)
    else if !IsHandle(username) then Refused(InvalidHandle)
    else if Claimed(s, username, None) then Refused(HandleTaken)
    else Done(s.(usernames := s.usernames[user := username]))
  }

  /**
   * `createPersonal`: the existing one, or a new one under the user's handle.
   * The membership is a second write, which may fail and is retried the same way.
   */
  ghost function CreatePersonalStep(s: Store, user: UserId, id: OrgId, joined: bool): Outcome {
    if user !in s.usernames then Refused(NotFound)
    else if o :| o in s.workspaces && s.workspaces[o].kind == Personal(user) then
      Done(if joined then Put(s, o, s.workspaces[o].(members := s.workspaces[o].members + {user})) else s)
    else if id in s.workspaces then Refused(Exists)
    else Done(Put(s, id, Workspace(Personal(user), s.usernames[user], if joined then {user} else {})))
  }

  /** A personal workspace's handle follows its owner's username in the same statement. */
  function Renamed(w: Workspace, user: UserId, handle: string): Workspace {
    if w.kind == Personal(user) then w.(slug := handle) else w
  }

  ghost function ChangeUsernameStep(s: Store, user: UserId, raw: string): Outcome {
    if user !in s.usernames then Refused(NotFound)
    else
      match Normalize(raw)
      case Invalid => Refused(InvalidHandle)
      case Handle(handle, _) =>
        if Claimed(s.(usernames := s.usernames - {user}), handle, None) then Refused(HandleTaken)
        else Done(s.(usernames := s.usernames[user := handle],
                     workspaces := map o | o in s.workspaces :: Renamed(s.workspaces[o], user, handle)))
  }

  ghost function CreateStep(s: Store, user: UserId, id: OrgId, slug: Option<string>): Outcome {
    if id in s.workspaces then Refused(Exists)
    else
      match RequireFreeHandle(s, slug, None)
      case NotFree(reason) => Refused(reason)
      case Free(handle) => Done(Put(s, id, Workspace(Team, handle, {user})))
  }

  ghost function UpdateStep(s: Store, id: OrgId, slug: Option<string>): Outcome {
    if id !in s.workspaces then Refused(NotFound)
    else if slug.None? then Done(s)
    else if IsPersonal(s, id) then Refused(PersonalOrganization)
    else
      match RequireFreeHandle(s, slug, Some(id))
      case NotFree(reason) => Refused(reason)
      case Free(handle) => Done(Put(s, id, s.workspaces[id].(slug := handle)))
  }

  ghost function Step(s: Store, a: Action): Outcome {
    match a
    case Signup(user, username) => SignupStep(s, user, username)
    case CreatePersonal(user, id, joined) => CreatePersonalStep(s, user, id, joined)
    case ChangeUsername(user, raw) => ChangeUsernameStep(s, user, raw)
    case Create(user, id, slug) => CreateStep(s, user, id, slug)
    case Update(id, slug) => UpdateStep(s, id, slug)
    case Invite(id, email) =>
      if id !in s.workspaces then Refused(NotFound)
      else if IsPersonal(s, id) then Refused(PersonalOrganization)
      else Done(s.(invitations := s.invitations + {(id, Lower(Trim(email)))}))
    case Accept(id, email, user) =>
      if (id, email) !in s.invitations || id !in s.workspaces then Refused(NotFound)
      else Done(Put(s, id, s.workspaces[id].(members := s.workspaces[id].members + {user}))
                .(invitations := s.invitations - {(id, email)}))
    case AddMember(id, user) =>
      if id !in s.workspaces then Refused(NotFound)
      else if IsPersonal(s, id) then Refused(PersonalOrganization)
      else Done(Put(s, id, s.workspaces[id].(members := s.workspaces[id].members + {user})))
    case Delete(id) =>
      if id !in s.workspaces then Refused(NotFound)
      else if IsPersonal(s, id) then Refused(PersonalOrganization)
      else Done(s.(workspaces := s.workspaces - {id}, invitations := set i | i in s.invitations && i.0 != id))
  }

  /** A refused request changes nothing. */
  ghost function Next(s: Store, a: Action): Store {
    match Step(s, a) case Done(after) => after case Refused(_) => s
  }

  ghost function After(s: Store, run: seq<Action>): Store {
    if run == [] then s else Next(After(s, run[..|run| - 1]), run[|run| - 1])
  }

  // ---- the invariant ------------------------------------------------------

  /** Every handle is in stored form, and no two users share one. */
  ghost predicate UsersNamed(s: Store) {
    && (forall u :: u in s.usernames ==> IsHandle(s.usernames[u]))
    && (forall u, v :: u in s.usernames && v in s.usernames && u != v ==> s.usernames[u] != s.usernames[v])
  }

  /** A team's handle is in stored form, its own, and nobody's username. */
  ghost predicate TeamsNamed(s: Store) {
    && (forall o :: IsTeam(s, o) ==> IsHandle(s.workspaces[o].slug))
    && (forall o, p :: IsTeam(s, o) && IsTeam(s, p) && o != p ==> s.workspaces[o].slug != s.workspaces[p].slug)
    && (forall o, u :: IsTeam(s, o) && u in s.usernames ==> s.workspaces[o].slug != s.usernames[u])
  }

  /** A personal workspace is its owner's: named as them, theirs alone, one each, nobody invited. */
  ghost predicate PersonalKept(s: Store) {
    && (forall o :: IsPersonal(s, o) ==>
          var w := s.workspaces[o];
          w.kind.owner in s.usernames && w.slug == s.usernames[w.kind.owner] && w.members <= {w.kind.owner})
    && (forall o, p :: IsPersonal(s, o) && IsPersonal(s, p) && o != p ==> s.workspaces[o].kind != s.workspaces[p].kind)
    && (forall o, email :: (o, email) in s.invitations ==> IsTeam(s, o))
  }

  ghost predicate Invariant(s: Store) {
    UsersNamed(s) && TeamsNamed(s) && PersonalKept(s)
  }

  const EMPTY := Store(map[], map[], {})

  lemma FreeHandleIsFree(s: Store, raw: Option<string>, exceptId: Option<OrgId>)
    requires RequireFreeHandle(s, raw, exceptId).Free?
    ensures var handle := RequireFreeHandle(s, raw, exceptId).handle;
            IsHandle(handle) && !Claimed(s, handle, exceptId)
  {
  }

  /** No handle moves: what holds of names still does. */
  lemma SameNames(s: Store, after: Store)
    requires UsersNamed(s) && TeamsNamed(s) && after.usernames == s.usernames
    requires forall o :: IsTeam(after, o) ==> IsTeam(s, o) && after.workspaces[o].slug == s.workspaces[o].slug
    ensures UsersNamed(after) && TeamsNamed(after)
  {
    hide IsHandle;
  }

  /** No personal workspace changes hands, name or company. */
  lemma SamePersonal(s: Store, after: Store)
    requires PersonalKept(s) && after.usernames == s.usernames
    requires forall o :: IsPersonal(after, o) ==>
               && IsPersonal(s, o) && after.workspaces[o].kind == s.workspaces[o].kind
               && after.workspaces[o].slug == s.workspaces[o].slug
               && after.workspaces[o].members <= {s.workspaces[o].kind.owner}
    requires forall o, email :: (o, email) in after.invitations ==> IsTeam(after, o)
    ensures PersonalKept(after)
  {
  }

  lemma SignupKeeps(s: Store, user: UserId, username: string)
    requires Invariant(s) && SignupStep(s, user, username).Done?
    ensures Invariant(SignupStep(s, user, username).store)
  {
    hide IsHandle;
    var after := SignupStep(s, user, username).store;
    assert forall o :: IsTeam(after, o) <==> IsTeam(s, o);
    assert forall o :: IsPersonal(after, o) <==> IsPersonal(s, o);
    assert UsersNamed(after) && TeamsNamed(after);
  }

  /** The owner joins their own workspace. */
  lemma OwnerJoinKeeps(s: Store, o: OrgId)
    requires Invariant(s) && IsPersonal(s, o)
    ensures var w := s.workspaces[o]; Invariant(Put(s, o, w.(members := w.members + {w.kind.owner})))
  {
    hide UsersNamed, TeamsNamed;
    var w := s.workspaces[o];
    var after := Put(s, o, w.(members := w.members + {w.kind.owner}));
    assert forall p :: IsTeam(after, p) <==> IsTeam(s, p);
    SameNames(s, after);
    SamePersonal(s, after);
  }

  /** What a new workspace must be to fit beside the others. */
  ghost predicate Fits(s: Store, w: Workspace) {
    match w.kind
    case Team => IsHandle(w.slug) && !Claimed(s, w.slug, None)
    case Personal(owner) =>
      && owner in s.usernames && w.slug == s.usernames[owner] && w.members <= {owner}
      && forall o :: o in s.workspaces ==> s.workspaces[o].kind != w.kind
  }

  lemma NewWorkspaceIsNamed(s: Store, id: OrgId, w: Workspace)
    requires Invariant(s) && id !in s.workspaces && Fits(s, w)
    ensures TeamsNamed(Put(s, id, w))
  {
    hide IsHandle;
    var after := Put(s, id, w);
    assert forall o :: IsTeam(after, o) <==> IsTeam(s, o) || (o == id && w.kind.Team?);
    assert forall o :: o in s.workspaces ==> after.workspaces[o] == s.workspaces[o];
  }

  lemma NewWorkspaceIsKept(s: Store, id: OrgId, w: Workspace)
    requires Invariant(s) && id !in s.workspaces && Fits(s, w)
    ensures PersonalKept(Put(s, id, w))
  {
    hide IsHandle, Claimed;
    var after := Put(s, id, w);
    assert forall o, email :: (o, email) in s.invitations ==> IsTeam(s, o) && IsTeam(after, o);
    assert forall o :: IsPersonal(after, o) <==> IsPersonal(s, o) || (o == id && w.kind.Personal?);
    assert forall o :: o in s.workspaces ==> after.workspaces[o] == s.workspaces[o];
  }

  /** A workspace under a new id touches no other. */
  lemma NewWorkspaceKeeps(s: Store, id: OrgId, w: Workspace)
    requires Invariant(s) && id !in s.workspaces && Fits(s, w)
    ensures Invariant(Put(s, id, w))
  {
    hide IsHandle, Claimed;
    NewWorkspaceIsNamed(s, id, w);
    NewWorkspaceIsKept(s, id, w);
    assert UsersNamed(Put(s, id, w));
  }

  lemma CreatePersonalKeeps(s: Store, user: UserId, id: OrgId, joined: bool)
    requires Invariant(s) && CreatePersonalStep(s, user, id, joined).Done?
    ensures Invariant(CreatePersonalStep(s, user, id, joined).store)
  {
    if exists o :: o in s.workspaces && s.workspaces[o].kind == Personal(user) {
      forall o | IsPersonal(s, o)
        ensures var w := s.workspaces[o]; Invariant(Put(s, o, w.(members := w.members + {w.kind.owner})))
      {
        OwnerJoinKeeps(s, o);
      }
    } else {
      NewWorkspaceKeeps(s, id, Workspace(Personal(user), s.usernames[user], if joined then {user} else {}));
    }
  }

  lemma CreateKeeps(s: Store, user: UserId, id: OrgId, slug: Option<string>)
    requires Invariant(s) && CreateStep(s, user, id, slug).Done?
    ensures Invariant(CreateStep(s, user, id, slug).store)
  {
    FreeHandleIsFree(s, slug, None);
    NewWorkspaceKeeps(s, id, Workspace(Team, RequireFreeHandle(s, slug, None).handle, {user}));
  }

  lemma UpdateKeeps(s: Store, id: OrgId, slug: Option<string>)
    requires Invariant(s) && UpdateStep(s, id, slug).Done?
    ensures Invariant(UpdateStep(s, id, slug).store)
  {
    if slug.Some? {
      FreeHandleIsFree(s, slug, Some(id));
      RenamedTeamKeeps(s, id, RequireFreeHandle(s, slug, Some(id)).handle);
    }
  }

  /** A team takes a handle nobody else holds. */
  lemma RenamedTeamKeeps(s: Store, id: OrgId, handle: string)
    requires Invariant(s) && IsTeam(s, id) && IsHandle(handle) && !Claimed(s, handle, Some(id))
    ensures Invariant(Put(s, id, s.workspaces[id].(slug := handle)))
  {
    hide IsHandle;
    var after := Put(s, id, s.workspaces[id].(slug := handle));
    assert forall o :: IsTeam(after, o) <==> IsTeam(s, o);
    assert forall o :: o in s.workspaces && o != id ==> after.workspaces[o] == s.workspaces[o];
    RenamedTeamIsNamed(s, id, handle);
    SamePersonal(s, after);
  }

  lemma RenamedTeamIsNamed(s: Store, id: OrgId, handle: string)
    requires UsersNamed(s) && TeamsNamed(s) && IsTeam(s, id) && IsHandle(handle) && !Claimed(s, handle, Some(id))
    ensures UsersNamed(Put(s, id, s.workspaces[id].(slug := handle)))
    ensures TeamsNamed(Put(s, id, s.workspaces[id].(slug := handle)))
  {
    hide IsHandle;
    var after := Put(s, id, s.workspaces[id].(slug := handle));
    assert forall o :: IsTeam(after, o) <==> IsTeam(s, o);
  }

  /** With its owner's name out of the way, the new one is nobody else's. */
  lemma NewUsernameIsFree(s: Store, user: UserId, raw: string)
    requires ChangeUsernameStep(s, user, raw).Done?
    ensures var handle := Normalize(raw).handle;
            && IsHandle(handle)
            && (forall u :: u in s.usernames && u != user ==> s.usernames[u] != handle)
            && (forall o :: IsTeam(s, o) ==> s.workspaces[o].slug != handle)
  {
    var handle, others := Normalize(raw).handle, s.(usernames := s.usernames - {user});
    assert !Claimed(others, handle, None);
    assert forall u :: u in s.usernames && u != user ==> u in others.usernames;
    assert forall o :: IsTeam(s, o) ==> IsTeam(others, o);
  }

  lemma RenamedAt(s: Store, user: UserId, raw: string, o: OrgId)
    requires ChangeUsernameStep(s, user, raw).Done?
    ensures var after := ChangeUsernameStep(s, user, raw).store;
            && (o in after.workspaces <==> o in s.workspaces)
            && (o in s.workspaces ==> after.workspaces[o] == Renamed(s.workspaces[o], user, Normalize(raw).handle))
            && (IsTeam(after, o) <==> IsTeam(s, o))
  {
  }

  lemma ChangeUsernameKeeps(s: Store, user: UserId, raw: string)
    requires Invariant(s) && ChangeUsernameStep(s, user, raw).Done?
    ensures Invariant(ChangeUsernameStep(s, user, raw).store)
  {
    var after := ChangeUsernameStep(s, user, raw).store;
    NewUsernameIsFree(s, user, raw);
    forall o
      ensures o in after.workspaces <==> o in s.workspaces
      ensures o in s.workspaces ==> after.workspaces[o] == Renamed(s.workspaces[o], user, Normalize(raw).handle)
    {
      RenamedAt(s, user, raw, o);
    }
    FollowedIsNamed(s, after, user, Normalize(raw).handle);
    FollowedIsKept(s, after, user, Normalize(raw).handle);
  }

  /** A username and the personal workspace's handle move together. */
  ghost predicate Followed(s: Store, after: Store, user: UserId, handle: string) {
    && after.usernames == s.usernames[user := handle] && after.invitations == s.invitations
    && (forall o :: o in after.workspaces <==> o in s.workspaces)
    && (forall o :: o in s.workspaces ==> after.workspaces[o] == Renamed(s.workspaces[o], user, handle))
  }

  lemma FollowedIsNamed(s: Store, after: Store, user: UserId, handle: string)
    requires UsersNamed(s) && TeamsNamed(s) && Followed(s, after, user, handle) && IsHandle(handle)
    requires forall u :: u in s.usernames && u != user ==> s.usernames[u] != handle
    requires forall o :: IsTeam(s, o) ==> s.workspaces[o].slug != handle
    ensures UsersNamed(after) && TeamsNamed(after)
  {
    hide IsHandle;
    assert forall o :: IsTeam(after, o) ==> IsTeam(s, o) && after.workspaces[o] == s.workspaces[o];
  }

  lemma FollowedIsKept(s: Store, after: Store, user: UserId, handle: string)
    requires PersonalKept(s) && user in s.usernames && Followed(s, after, user, handle)
    ensures PersonalKept(after)
  {
    assert forall o :: IsPersonal(after, o) <==> IsPersonal(s, o);
    assert forall o :: IsTeam(after, o) <==> IsTeam(s, o);
  }

  /** Adding to a team's members is all these change. */
  lemma TeamMembersKeep(s: Store, id: OrgId, user: UserId, invitations: set<(OrgId, string)>)
    requires Invariant(s) && IsTeam(s, id) && invitations <= s.invitations
    ensures var members := s.workspaces[id].members + {user};
            Invariant(Put(s, id, s.workspaces[id].(members := members)).(invitations := invitations))
  {
    hide UsersNamed, TeamsNamed;
    var members := s.workspaces[id].members + {user};
    var after := Put(s, id, s.workspaces[id].(members := members)).(invitations := invitations);
    assert forall o :: IsTeam(after, o) <==> IsTeam(s, o);
    SameNames(s, after);
    SamePersonal(s, after);
  }

  lemma DeleteKeeps(s: Store, id: OrgId)
    requires Invariant(s) && IsTeam(s, id)
    ensures Invariant(Next(s, Delete(id)))
  {
    hide UsersNamed, TeamsNamed;
    var after := Next(s, Delete(id));
    assert forall o :: IsTeam(after, o) <==> IsTeam(s, o) && o != id;
    SameNames(s, after);
    SamePersonal(s, after);
  }

  lemma InviteKeeps(s: Store, id: OrgId, email: string)
    requires Invariant(s) && IsTeam(s, id)
    ensures Invariant(Next(s, Invite(id, email)))
  {
    hide UsersNamed, TeamsNamed;
    var after := Next(s, Invite(id, email));
    assert forall o :: IsTeam(after, o) <==> IsTeam(s, o);
    SameNames(s, after);
    SamePersonal(s, after);
  }

  /** Every endpoint keeps the invariant, refused or not. */
  lemma StepKeeps(s: Store, a: Action)
    requires Invariant(s)
    ensures Invariant(Next(s, a))
  {
    if Step(s, a).Done? {
      match a
      case Signup(user, username) => SignupKeeps(s, user, username);
      case CreatePersonal(user, id, joined) => CreatePersonalKeeps(s, user, id, joined);
      case ChangeUsername(user, raw) => ChangeUsernameKeeps(s, user, raw);
      case Create(user, id, slug) => CreateKeeps(s, user, id, slug);
      case Update(id, slug) => UpdateKeeps(s, id, slug);
      case Invite(id, email) => InviteKeeps(s, id, email);
      case Accept(id, email, user) => TeamMembersKeep(s, id, user, s.invitations - {(id, email)});
      case AddMember(id, user) => TeamMembersKeep(s, id, user, s.invitations);
      case Delete(id) => DeleteKeeps(s, id);
    }
  }

  // ---- the theorems -------------------------------------------------------

  /** The invariant holds after every run from where it holds. */
  lemma {:induction false} RunKeeps(s: Store, run: seq<Action>)
    requires Invariant(s)
    ensures Invariant(After(s, run))
  {
    if run != [] {
      RunKeeps(s, run[..|run| - 1]);
      StepKeeps(After(s, run[..|run| - 1]), run[|run| - 1]);
    }
  }

  lemma EmptyHolds()
    ensures Invariant(EMPTY)
  {
  }

  /** And so after every run from an empty database. */
  lemma EveryRunHolds(run: seq<Action>)
    ensures Invariant(After(EMPTY, run))
  {
    EmptyHolds();
    RunKeeps(EMPTY, run);
  }

  /** No two workspaces ever hold one handle, personal ones and teams alike, and each is in stored form. */
  lemma HandlesAreUnique(run: seq<Action>, o: OrgId, p: OrgId)
    requires o != p && o in After(EMPTY, run).workspaces && p in After(EMPTY, run).workspaces
    ensures var w := After(EMPTY, run).workspaces;
            && w[o].slug != w[p].slug
            && Normalize(w[o].slug) == Handle(w[o].slug, w[o].slug)
  {
    EveryRunHolds(run);
    var after := After(EMPTY, run);
    assert IsTeam(after, o) || IsPersonal(after, o);
    assert IsTeam(after, p) || IsPersonal(after, p);
    HandleIsItsOwnForm(after.workspaces[o].slug);
  }

  /**
   * A personal workspace outlives every run: it stays personal and its
   * owner's, with no other member and nobody invited, under their username.
   */
  lemma {:induction false} PersonalForGood(s: Store, run: seq<Action>, o: OrgId)
    requires Invariant(s) && IsPersonal(s, o)
    ensures var after := After(s, run);
            && IsPersonal(after, o) && after.workspaces[o].kind == s.workspaces[o].kind
            && var w := after.workspaces[o];
               && w.kind.owner in after.usernames && w.slug == after.usernames[w.kind.owner]
               && s.workspaces[o].members <= w.members <= {w.kind.owner}
               && forall email :: (o, email) !in after.invitations
  {
    RunKeeps(s, run);
    if run != [] {
      var n := |run| - 1;
      PersonalForGood(s, run[..n], o);
      RunKeeps(s, run[..n]);
      OneStepKeepsPersonal(After(s, run[..n]), run[n], o);
    }
  }

  lemma OneStepKeepsPersonal(s: Store, a: Action, o: OrgId)
    requires Invariant(s) && IsPersonal(s, o)
    ensures IsPersonal(Next(s, a), o) && Next(s, a).workspaces[o].kind == s.workspaces[o].kind
    ensures s.workspaces[o].members <= Next(s, a).workspaces[o].members
    ensures !a.ChangeUsername? ==> Next(s, a).workspaces[o].slug == s.workspaces[o].slug
  {
    hide IsHandle, Claimed, Normalize, Lower, Trim;
    match a
    case CreatePersonal(user, id, joined) => CreatingKeepsPersonal(s, user, id, joined, o);
    case ChangeUsername(user, raw) => RenamingKeepsPersonal(s, user, raw, o);
    case _ => OthersKeepPersonal(s, a, o);
  }

  /** No other endpoint touches it at all, but for a member its owner already is. */
  lemma OthersKeepPersonal(s: Store, a: Action, o: OrgId)
    requires Invariant(s) && IsPersonal(s, o) && !a.CreatePersonal? && !a.ChangeUsername?
    ensures o in Next(s, a).workspaces && Next(s, a).workspaces[o] == s.workspaces[o]
  {
    hide IsHandle, Claimed, Normalize, Lower, Trim;
  }

  lemma CreatingKeepsPersonal(s: Store, user: UserId, id: OrgId, joined: bool, o: OrgId)
    requires IsPersonal(s, o)
    ensures var after := Next(s, CreatePersonal(user, id, joined));
            && IsPersonal(after, o) && after.workspaces[o].kind == s.workspaces[o].kind
            && s.workspaces[o].members <= after.workspaces[o].members
             && after.workspaces[o].slug == s.workspaces[o].slug
  {
  }

  lemma RenamingKeepsPersonal(s: Store, user: UserId, raw: string, o: OrgId)
    requires IsPersonal(s, o)
    ensures var after := Next(s, ChangeUsername(user, raw));
            && IsPersonal(after, o) && after.workspaces[o].kind == s.workspaces[o].kind
            && s.workspaces[o].members <= after.workspaces[o].members
  {
    if ChangeUsernameStep(s, user, raw).Done? {
      RenamedAt(s, user, raw, o);
    }
  }

  // ---- what each endpoint answers and stores ------------------------------

  /** Nobody but the one excepted goes by a handle: no user, no team, and no owner of a personal workspace. */
  ghost predicate Unheld(s: Store, handle: string, exceptId: Option<OrgId>) {
    && (forall u :: u in s.usernames ==> s.usernames[u] != handle)
    && (forall o :: o in s.workspaces && Some(o) != exceptId ==> s.workspaces[o].slug != handle)
  }

  lemma UnheldIsUnclaimed(s: Store, handle: string, exceptId: Option<OrgId>)
    requires Invariant(s)
    ensures Unheld(s, handle, exceptId) <==> !Claimed(s, handle, exceptId)
  {
    if Unheld(s, handle, exceptId) {
      assert forall o :: IsTeam(s, o) ==> o in s.workspaces;
    } else if !Claimed(s, handle, exceptId) {
      forall o | o in s.workspaces && Some(o) != exceptId ensures s.workspaces[o].slug != handle {
        assert IsTeam(s, o) || IsPersonal(s, o);
      }
    }
  }

  /** Users and all other workspaces are as they were. */
  ghost predicate OnlyWorkspace(s: Store, after: Store, id: OrgId) {
    && after.usernames == s.usernames
    && forall o :: o != id ==> (o in after.workspaces <==> o in s.workspaces)
                               && (o in s.workspaces ==> after.workspaces[o] == s.workspaces[o])
  }

  /** Exactly who may rename: not a personal workspace, and only to a handle nobody else holds. */
  lemma RenameSucceedsExactly(s: Store, id: OrgId, raw: string)
    requires Invariant(s) && id in s.workspaces
    ensures var outcome := Step(s, Update(id, Some(raw)));
            && (outcome.Done? <==> && IsTeam(s, id) && Normalize(raw).Handle?
                                   && Unheld(s, Normalize(raw).handle, Some(id)))
            && (outcome == Refused(PersonalOrganization) <==> IsPersonal(s, id))
            && (outcome == Refused(InvalidHandle) <==> IsTeam(s, id) && Normalize(raw) == Invalid)
            && (outcome.Refused? ==> outcome.reason in {PersonalOrganization, InvalidHandle, HandleTaken})
  {
    if Normalize(raw).Handle? {
      UnheldIsUnclaimed(s, Normalize(raw).handle, Some(id));
    }
  }

  /** A rename stores the typed handle in its normal form, on that workspace and nothing else. */
  lemma RenameStores(s: Store, id: OrgId, raw: string)
    requires Step(s, Update(id, Some(raw))).Done?
    ensures var after := Step(s, Update(id, Some(raw))).store;
            && id in s.workspaces && id in after.workspaces && Normalize(raw).Handle?
            && after.workspaces[id].slug == Normalize(raw).handle
            && after.workspaces[id].kind == s.workspaces[id].kind
            && after.workspaces[id].members == s.workspaces[id].members
            && OnlyWorkspace(s, after, id) && after.invitations == s.invitations
    ensures Step(s, Update(id, None)) == Done(s)
  {
  }

  /** Exactly when a workspace is created, and what is refused. */
  lemma CreateSucceedsExactly(s: Store, user: UserId, id: OrgId, slug: Option<string>)
    requires Invariant(s) && id !in s.workspaces
    ensures var outcome, form := Step(s, Create(user, id, slug)), Normalize(if slug.Some? then slug.value else "");
            && (outcome.Done? <==> form.Handle? && Unheld(s, form.handle, None))
            && (outcome == Refused(InvalidHandle) <==> form == Invalid)
            && (outcome.Refused? ==> outcome.reason in {InvalidHandle, HandleTaken})
  {
    var form := Normalize(if slug.Some? then slug.value else "");
    if form.Handle? {
      UnheldIsUnclaimed(s, form.handle, None);
    }
  }

  /** A new workspace is a team under the handle's normal form, its creator the one member. */
  lemma CreateStores(s: Store, user: UserId, id: OrgId, slug: Option<string>)
    requires Step(s, Create(user, id, slug)).Done?
    ensures var after := Step(s, Create(user, id, slug)).store;
            && slug.Some? && Normalize(slug.value).Handle? && id !in s.workspaces && id in after.workspaces
            && after.workspaces[id].kind == Team && after.workspaces[id].slug == Normalize(slug.value).handle
            && after.workspaces[id].members == {user}
            && OnlyWorkspace(s, after, id) && after.invitations == s.invitations
  {
    assert Normalize("") == Invalid;
  }

  /** Teams only are shared and deleted; an invitation is accepted where there is one. */
  lemma SharedExactly(s: Store, id: OrgId, email: string, user: UserId)
    ensures Step(s, Invite(id, email)).Done? <==> IsTeam(s, id)
    ensures Step(s, AddMember(id, user)).Done? <==> IsTeam(s, id)
    ensures Step(s, Delete(id)).Done? <==> IsTeam(s, id)
    ensures Step(s, Accept(id, email, user)).Done? <==> (id, email) in s.invitations && id in s.workspaces
    ensures IsPersonal(s, id) ==>
              && Step(s, Invite(id, email)) == Refused(PersonalOrganization)
              && Step(s, AddMember(id, user)) == Refused(PersonalOrganization)
              && Step(s, Delete(id)) == Refused(PersonalOrganization)
  {
    hide Lower, Trim;
  }

  /** Inviting adds the address, trimmed and lowercased, and changes nothing else. */
  lemma InviteStores(s: Store, id: OrgId, email: string)
    requires IsTeam(s, id)
    ensures var after := Next(s, Invite(id, email));
            && after.usernames == s.usernames && after.workspaces == s.workspaces
            && forall o, address :: (o, address) in after.invitations
                 <==> (o, address) in s.invitations || (o == id && address == Lower(Trim(email)))
  {
    hide Lower, Trim;
  }

  /** Accepting makes the invitee a member and uses the invitation up. */
  lemma AcceptStores(s: Store, id: OrgId, email: string, user: UserId)
    requires (id, email) in s.invitations && id in s.workspaces
    ensures var after := Next(s, Accept(id, email, user));
            && id in after.workspaces && OnlyWorkspace(s, after, id)
            && after.workspaces[id].kind == s.workspaces[id].kind && after.workspaces[id].slug == s.workspaces[id].slug
            && (forall u :: u in after.workspaces[id].members <==> u in s.workspaces[id].members || u == user)
            && (forall i :: i in after.invitations <==> i in s.invitations && i != (id, email))
  {
  }

  /** Adding directly makes a member and touches no invitation. */
  lemma AddStores(s: Store, id: OrgId, user: UserId)
    requires IsTeam(s, id)
    ensures var after := Next(s, AddMember(id, user));
            && id in after.workspaces && OnlyWorkspace(s, after, id) && after.invitations == s.invitations
            && after.workspaces[id].kind == s.workspaces[id].kind && after.workspaces[id].slug == s.workspaces[id].slug
            && (forall u :: u in after.workspaces[id].members <==> u in s.workspaces[id].members || u == user)
  {
  }

  /** Deleting takes the workspace and its invitations, and no other's. */
  lemma DeleteStores(s: Store, id: OrgId)
    requires IsTeam(s, id)
    ensures var after := Next(s, Delete(id));
            && id !in after.workspaces && OnlyWorkspace(s, after, id)
            && (forall o, email :: (o, email) in after.invitations <==> (o, email) in s.invitations && o != id)
  {
  }

  /** Exactly when a username changes: to a handle no other user and no team goes by. */
  lemma ChangeUsernameSucceedsExactly(s: Store, user: UserId, raw: string)
    requires user in s.usernames
    ensures var outcome := Step(s, ChangeUsername(user, raw));
            && (outcome.Done? <==>
                  && Normalize(raw).Handle?
                  && (forall u :: u in s.usernames && u != user ==> s.usernames[u] != Normalize(raw).handle)
                  && (forall o :: IsTeam(s, o) ==> s.workspaces[o].slug != Normalize(raw).handle))
            && (outcome == Refused(InvalidHandle) <==> Normalize(raw) == Invalid)
            && (outcome.Refused? ==> outcome.reason in {InvalidHandle, HandleTaken})
  {
    hide IsHandle;
    if Normalize(raw).Handle? {
      var handle, others := Normalize(raw).handle, s.(usernames := s.usernames - {user});
      hide Normalize;
      assert forall o :: IsTeam(s, o) <==> IsTeam(others, o);
      assert forall u :: u in others.usernames <==> u in s.usernames && u != user;
    }
  }

  /** It renames the user and their personal workspace, and nobody and nothing else. */
  lemma ChangeUsernameStores(s: Store, user: UserId, raw: string)
    requires Step(s, ChangeUsername(user, raw)).Done?
    ensures var after := Step(s, ChangeUsername(user, raw)).store;
            && user in s.usernames && Normalize(raw).Handle? && after.usernames.Keys == s.usernames.Keys
            && after.usernames[user] == Normalize(raw).handle
            && (forall u :: u in s.usernames && u != user ==> after.usernames[u] == s.usernames[u])
            && after.workspaces.Keys == s.workspaces.Keys && after.invitations == s.invitations
            && forall o :: o in s.workspaces ==>
                 && after.workspaces[o].kind == s.workspaces[o].kind
                 && after.workspaces[o].members == s.workspaces[o].members
                 && after.workspaces[o].slug
                    == if s.workspaces[o].kind == Personal(user) then Normalize(raw).handle else s.workspaces[o].slug
  {
    hide Normalize, Claimed;
  }

  /** A signup is stored exactly under a valid handle nobody holds, for a new user, and adds that user. */
  lemma SignupStores(s: Store, user: UserId, username: string)
    requires Invariant(s)
    ensures var outcome := Step(s, Signup(user, username));
            && (outcome.Done? <==> user !in s.usernames && IsHandle(username) && Unheld(s, username, None))
            && (outcome.Done? ==>
                  && outcome.store.workspaces == s.workspaces && outcome.store.invitations == s.invitations
                  && (forall u :: u in outcome.store.usernames <==> u in s.usernames || u == user)
                  && outcome.store.usernames[user] == username
                  && (forall u :: u in s.usernames ==> outcome.store.usernames[u] == s.usernames[u]))
  {
    UnheldIsUnclaimed(s, username, None);
  }

  /** Whose personal workspace it is. */
  ghost predicate IsTheirs(s: Store, o: OrgId, user: UserId) {
    o in s.workspaces && s.workspaces[o].kind == Personal(user)
  }

  /** A user who has a personal workspace keeps that one, and joins it if the membership is written. */
  lemma PersonalIsKept(s: Store, user: UserId, id: OrgId, joined: bool, o: OrgId)
    requires Invariant(s) && IsTheirs(s, o, user)
    ensures var outcome := Step(s, CreatePersonal(user, id, joined));
            && outcome.Done? && IsTheirs(outcome.store, o, user)
            && OnlyWorkspace(s, outcome.store, o) && outcome.store.invitations == s.invitations
            && outcome.store.workspaces[o].slug == s.workspaces[o].slug == s.usernames[user]
            && outcome.store.workspaces[o].members == s.workspaces[o].members + if joined then {user} else {}
  {
    assert IsPersonal(s, o);
    forall p | p in s.workspaces && s.workspaces[p].kind == Personal(user) ensures p == o {
      assert IsPersonal(s, p);
    }
  }

  /** One who has none gets it under the id given, named as they are. */
  lemma PersonalIsCreated(s: Store, user: UserId, id: OrgId, joined: bool)
    requires user in s.usernames && forall o :: !IsTheirs(s, o, user)
    ensures var outcome := Step(s, CreatePersonal(user, id, joined));
            && (outcome.Done? <==> id !in s.workspaces)
            && (outcome.Done? ==>
                  && IsTheirs(outcome.store, id, user)
                  && OnlyWorkspace(s, outcome.store, id) && outcome.store.invitations == s.invitations
                  && outcome.store.workspaces[id].slug == s.usernames[user]
                  && outcome.store.workspaces[id].members == if joined then {user} else {})
  {
    forall o | o in s.workspaces ensures s.workspaces[o].kind != Personal(user) {
      assert !IsTheirs(s, o, user);
    }
  }
}
