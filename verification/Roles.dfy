/** Who may do what: organizations, teams, collaborators and invitations, as transactions on tables. */
module Roles {

  datatype OrgRole = OrgOwner | OrgMember

  datatype Access = MembersMaintain | MembersNeedTeams

  datatype Role = NoRole | Maintainer | Owner
  {
    function Rank(): nat {
      match this
      case NoRole => 0
      case Maintainer => 1
      case Owner => 2
    }
  }

  function MaxRole(a: Role, b: Role): Role {
    if a.Rank() >= b.Rank() then a else b
  }

  datatype OrgUser = OrgUser(org: string, user: string)

  datatype ModuleUser = ModuleUser(path: string, user: string)

  datatype Team = Team(org: string, name: string)

  datatype TeamUser = TeamUser(team: Team, user: string)

  datatype TeamModule = TeamModule(team: Team, path: string)

  /** A membership or role is an invitation until it is accepted. */
  datatype Membership = Membership(role: OrgRole, accepted: bool)

  datatype Grant = Grant(role: Role, accepted: bool)

  /** names holds every user and organization name ever taken. checked holds the results of the
      membership checks made before a team member is added, and cleared those of the owner checks made
      before an account is deleted: they are read outside the transaction, and may be out of date when
      it runs. */
  datatype Tables = Tables(
    names: set<string>,
    users: set<string>,
    orgs: map<string, Access>,
    members: map<OrgUser, Membership>,
    modules: map<string, string>,
    grants: map<ModuleUser, Grant>,
    teams: set<Team>,
    teamUsers: set<TeamUser>,
    teamModules: map<TeamModule, Role>,
    checked: set<OrgUser>,
    cleared: set<string>)

  const EMPTY := Tables({}, {}, map[], map[], map[], map[], {}, {}, map[], {}, {})

  // ---- Reading ----

  predicate IsMember(t: Tables, org: string, user: string) {
    OrgUser(org, user) in t.members && t.members[OrgUser(org, user)].accepted
  }

  predicate OwnsOrg(t: Tables, org: string, user: string) {
    IsMember(t, org, user) && t.members[OrgUser(org, user)].role.OrgOwner?
  }

  predicate HasOrgOwner(t: Tables, org: string) {
    exists k :: k in t.members && k.org == org && OwnsOrg(t, org, k.user)
  }

  predicate OwnsModule(t: Tables, path: string, user: string) {
    ModuleUser(path, user) in t.grants && t.grants[ModuleUser(path, user)] == Grant(Owner, true)
  }

  predicate HasModuleOwner(t: Tables, path: string) {
    exists k :: k in t.grants && k.path == path && OwnsModule(t, path, k.user)
  }

  /** Modules of an organization are always managed by its owners. */
  predicate IsPersonal(t: Tables, path: string)
    requires path in t.modules
  {
    t.modules[path] !in t.orgs
  }

  function DirectRole(t: Tables, user: string, path: string): Role {
    var k := ModuleUser(path, user);
    if k in t.grants && t.grants[k].accepted then t.grants[k].role else NoRole
  }

  predicate TeamGives(t: Tables, user: string, path: string, role: Role) {
    exists k :: k in t.teamModules && k.path == path && TeamUser(k.team, user) in t.teamUsers && t.teamModules[k] == role
  }

  function TeamRole(t: Tables, user: string, path: string): Role {
    if TeamGives(t, user, path, Owner) then Owner
    else if TeamGives(t, user, path, Maintainer) then Maintainer
    else NoRole
  }

  /** The strongest of a user's own role, their teams' roles and what the organization gives. */
  function RoleOf(t: Tables, user: string, path: string): Role
    requires path in t.modules
  {
    var role := MaxRole(DirectRole(t, user, path), TeamRole(t, user, path));
    var org := t.modules[path];
    if org in t.orgs && OwnsOrg(t, org, user) then Owner
    else if org in t.orgs && IsMember(t, org, user) && t.orgs[org].MembersMaintain? then MaxRole(role, Maintainer)
    else role
  }

  /** Everyone who should hear about changes to a module, as three queries. */
  function MaintainersOf(t: Tables, path: string): set<string>
    requires path in t.modules
  {
    (set k | k in t.grants && k.path == path && t.grants[k].accepted && k.user in t.users :: k.user)
    + (set k | k in t.members && k.org == t.modules[path] && k.org in t.orgs && t.members[k].accepted
               && (t.members[k].role.OrgOwner? || t.orgs[k.org].MembersMaintain?) && k.user in t.users :: k.user)
    + (set k, u | k in t.teamModules && u in t.teamUsers && k.path == path && u.team == k.team && u.user in t.users :: u.user)
  }

  // ---- Transactions ----

  datatype Op =
    | Register(user: string)
    | CreateOrg(user: string, org: string)
    | SetOrgMember(org: string, user: string, orgRole: OrgRole)
    | RemoveOrgMember(org: string, user: string)
    | AcceptOrg(user: string, org: string)
    | DeclineOrg(user: string, org: string)
    | PublishModule(user: string, path: string, namespace: string)
    | SetCollaborator(path: string, user: string, role: Role)
    | RemoveCollaborator(path: string, user: string)
    | AcceptModule(user: string, path: string)
    | DeclineModule(user: string, path: string)
    | CreateTeam(team: Team)
    | DeleteTeam(team: Team)
    | CheckTeamUser(org: string, user: string)
    | AddTeamUser(team: Team, user: string)
    | RemoveTeamUser(team: Team, user: string)
    | SetTeamModule(team: Team, path: string, role: Role)
    | RemoveTeamModule(team: Team, path: string)
    | SetMemberAccess(org: string, access: Access)
    | CheckDeletion(user: string)
    | DeleteAccount(user: string)

  /** A membership row set or changed: an acceptance already given is kept. */
  function WithMember(t: Tables, org: string, user: string, role: OrgRole): Tables {
    var k := OrgUser(org, user);
    t.(members := t.members[k := Membership(role, k in t.members && t.members[k].accepted)])
  }

  function WithGrant(t: Tables, path: string, user: string, role: Role): Tables {
    var k := ModuleUser(path, user);
    t.(grants := t.grants[k := Grant(role, k in t.grants && t.grants[k].accepted)])
  }

  /** The role the first publisher of a module gets, if any. */
  function CreatorRole(t: Tables, user: string, namespace: string): Role {
    if namespace == user then Owner
    else if namespace in t.orgs && IsMember(t, namespace, user) && !OwnsOrg(t, namespace, user)
         && t.orgs[namespace].MembersNeedTeams? then Maintainer
    else NoRole
  }

  predicate IsLastOrgOwner(t: Tables, user: string, org: string) {
    OwnsOrg(t, org, user) && forall k :: k in t.members && k.org == org && OwnsOrg(t, org, k.user) ==> k.user == user
  }

  /** Every row of a user goes with the account; the name stays taken. */
  function WithoutUser(t: Tables, user: string): Tables {
    t.(users := t.users - {user},
       members := map k | k in t.members && k.user != user :: t.members[k],
       grants := map k | k in t.grants && k.user != user :: t.grants[k],
       teamUsers := (set k | k in t.teamUsers && k.user != user))
  }

  function WithoutTeam(t: Tables, team: Team): Tables {
    t.(teams := t.teams - {team},
       teamUsers := (set k | k in t.teamUsers && k.team != team),
       teamModules := map k | k in t.teamModules && k.team != team :: t.teamModules[k])
  }

  /** Changes that would leave an organization without an owner are rolled back. */
  function KeepOrgOwner(before: Tables, after: Tables, org: string): Tables {
    if HasOrgOwner(after, org) then after else before
  }

  /** Likewise for a module in a personal namespace. */
  function KeepModuleOwner(before: Tables, after: Tables, path: string): Tables
    requires path in after.modules
  {
    if HasModuleOwner(after, path) || !IsPersonal(after, path) then after else before
  }

  predicate IsOrgOp(op: Op) {
    op.Register? || op.CreateOrg? || op.SetOrgMember? || op.RemoveOrgMember? || op.AcceptOrg? || op.DeclineOrg? || op.SetMemberAccess?
  }

  predicate IsModuleOp(op: Op) {
    op.PublishModule? || op.SetCollaborator? || op.RemoveCollaborator? || op.AcceptModule? || op.DeclineModule?
  }

  predicate IsDeletionOp(op: Op) {
    op.CheckDeletion? || op.DeleteAccount?
  }

  function ApplyToOrgs(t: Tables, op: Op): Tables
    requires IsOrgOp(op)
  {
    match op
    case Register(user) =>
      if user in t.names then t else t.(names := t.names + {user}, users := t.users + {user})
    case CreateOrg(user, org) =>
      if org in t.names || user !in t.users then t
      else t.(names := t.names + {org}, orgs := t.orgs[org := MembersMaintain],
              members := t.members[OrgUser(org, user) := Membership(OrgOwner, true)])
    case SetOrgMember(org, user, role) =>
      if org !in t.orgs || user !in t.users then t else KeepOrgOwner(t, WithMember(t, org, user, role), org)
    case RemoveOrgMember(org, user) =>
      if org !in t.orgs || OrgUser(org, user) !in t.members then t
      else KeepOrgOwner(t, t.(members := t.members - {OrgUser(org, user)}), org)
    case AcceptOrg(user, org) =>
      var k := OrgUser(org, user);
      if k !in t.members || t.members[k].accepted then t else t.(members := t.members[k := t.members[k].(accepted := true)])
    case DeclineOrg(user, org) =>
      var k := OrgUser(org, user);
      if k !in t.members || t.members[k].accepted then t else t.(members := t.members - {k})
    case SetMemberAccess(org, access) => if org in t.orgs then t.(orgs := t.orgs[org := access]) else t
  }

  function ApplyToModules(t: Tables, op: Op): Tables
    requires IsModuleOp(op)
  {
    match op
    case PublishModule(user, path, namespace) =>
      if path in t.modules || user !in t.users then t
      else
        var role := CreatorRole(t, user, namespace);
        t.(modules := t.modules[path := namespace],
           grants := if role.NoRole? then t.grants else t.grants[ModuleUser(path, user) := Grant(role, true)])
    case SetCollaborator(path, user, role) =>
      if path !in t.modules || user !in t.users || role.NoRole? then t
      else KeepModuleOwner(t, WithGrant(t, path, user, role), path)
    case RemoveCollaborator(path, user) =>
      if path !in t.modules || ModuleUser(path, user) !in t.grants then t
      else KeepModuleOwner(t, t.(grants := t.grants - {ModuleUser(path, user)}), path)
    case AcceptModule(user, path) =>
      var k := ModuleUser(path, user);
      if k !in t.grants || t.grants[k].accepted then t else t.(grants := t.grants[k := t.grants[k].(accepted := true)])
    case DeclineModule(user, path) =>
      var k := ModuleUser(path, user);
      if k !in t.grants || t.grants[k].accepted then t else t.(grants := t.grants - {k})
  }

  function ApplyToTeams(t: Tables, op: Op): Tables
    requires !IsOrgOp(op) && !IsModuleOp(op) && !IsDeletionOp(op)
  {
    match op
    case CreateTeam(team) => if team.org in t.orgs then t.(teams := t.teams + {team}) else t
    case DeleteTeam(team) => WithoutTeam(t, team)
    case CheckTeamUser(org, user) => if IsMember(t, org, user) then t.(checked := t.checked + {OrgUser(org, user)}) else t
    case AddTeamUser(team, user) =>
      if team !in t.teams || user !in t.users || OrgUser(team.org, user) !in t.checked then t
      else t.(teamUsers := t.teamUsers + {TeamUser(team, user)})
    case RemoveTeamUser(team, user) => t.(teamUsers := t.teamUsers - {TeamUser(team, user)})
    case SetTeamModule(team, path, role) =>
      if team !in t.teams || path !in t.modules || t.modules[path] != team.org || role.NoRole? then t
      else t.(teamModules := t.teamModules[TeamModule(team, path) := role])
    case RemoveTeamModule(team, path) => t.(teamModules := t.teamModules - {TeamModule(team, path)})
  }

  /** The account exists, and is no organization's only owner. */
  predicate DeletionAllowed(t: Tables, user: string) {
    user in t.users && !exists org :: org in t.orgs && IsLastOrgOwner(t, user, org)
  }

  /** The owners are counted first; the transaction that follows does not count them again. */
  function ApplyDeletion(t: Tables, op: Op): Tables
    requires IsDeletionOp(op)
  {
    match op
    case CheckDeletion(user) => if DeletionAllowed(t, user) then t.(cleared := t.cleared + {user}) else t
    case DeleteAccount(user) => if user in t.users && user in t.cleared then WithoutUser(t, user) else t
  }

  /** One committed or refused transaction. Who asks is checked before it, outside, and so is no part
      of it: what follows holds whether or not that check is still true when the transaction runs. */
  function Apply(t: Tables, op: Op): Tables {
    if IsOrgOp(op) then ApplyToOrgs(t, op)
    else if IsModuleOp(op) then ApplyToModules(t, op)
    else if IsDeletionOp(op) then ApplyDeletion(t, op)
    else ApplyToTeams(t, op)
  }

  /** Each kind of transaction leaves the other tables alone. */
  lemma OrgOpsFrame(t: Tables, op: Op)
    requires IsOrgOp(op)
    ensures var u := ApplyToOrgs(t, op);
      && u.modules == t.modules && u.grants == t.grants && u.teams == t.teams && u.teamUsers == t.teamUsers
      && u.teamModules == t.teamModules && u.checked == t.checked && t.orgs.Keys <= u.orgs.Keys
  {
    hide HasOrgOwner;
  }

  lemma ModuleOpsFrame(t: Tables, op: Op)
    requires IsModuleOp(op)
    ensures var u := ApplyToModules(t, op);
      && u.orgs == t.orgs && u.members == t.members && u.teams == t.teams && u.teamUsers == t.teamUsers
      && u.teamModules == t.teamModules && u.checked == t.checked && u.users == t.users
      && forall path :: path in t.modules ==> path in u.modules && u.modules[path] == t.modules[path]
  {
    hide CreatorRole, HasModuleOwner;
  }

  lemma WithoutTeamFrame(t: Tables, team: Team)
    ensures var u := WithoutTeam(t, team);
      u.orgs == t.orgs && u.members == t.members && u.modules == t.modules && u.grants == t.grants && u.users == t.users
  {
  }

  lemma TeamOpsFrame(t: Tables, op: Op)
    requires !IsOrgOp(op) && !IsModuleOp(op) && !IsDeletionOp(op)
    ensures var u := ApplyToTeams(t, op);
      u.orgs == t.orgs && u.members == t.members && u.modules == t.modules && u.grants == t.grants && u.users == t.users
  {
    hide WithoutTeam, IsMember;
    if op.DeleteTeam? {
      WithoutTeamFrame(t, op.team);
    }
  }

  lemma DeletionFrame(t: Tables, op: Op)
    requires IsDeletionOp(op)
    ensures var u := ApplyDeletion(t, op);
      && u.orgs == t.orgs && u.modules == t.modules && u.teams == t.teams && u.teamModules == t.teamModules && u.checked == t.checked
      && (forall k :: k in u.members ==> k in t.members && u.members[k] == t.members[k])
      && (forall k :: k in u.grants ==> k in t.grants && u.grants[k] == t.grants[k])
      && u.teamUsers <= t.teamUsers && (op.CheckDeletion? ==> u == t.(cleared := u.cleared))
  {
    hide DeletionAllowed;
  }

  function Run(ops: seq<Op>): Tables {
    if ops == [] then EMPTY else Apply(Run(ops[..|ops|-1]), ops[|ops|-1])
  }

  // ---- Every organization keeps an owner ----

  ghost predicate OrgsHaveOwners(t: Tables) {
    forall org :: org in t.orgs ==> HasOrgOwner(t, org)
  }

  lemma SameMembersSameOwners(t: Tables, u: Tables, org: string)
    requires HasOrgOwner(t, org) && forall k :: k in t.members && k.org == org ==> k in u.members && u.members[k] == t.members[k]
    ensures HasOrgOwner(u, org)
  {
    var k :| k in t.members && k.org == org && OwnsOrg(t, org, k.user);
    assert OwnsOrg(u, org, k.user);
  }

  lemma AcceptKeepsOwners(t: Tables, user: string, org: string, other: string)
    requires HasOrgOwner(t, other)
    ensures HasOrgOwner(Apply(t, AcceptOrg(user, org)), other) && HasOrgOwner(Apply(t, DeclineOrg(user, org)), other)
  {
    var k :| k in t.members && k.org == other && OwnsOrg(t, other, k.user);
    assert OwnsOrg(Apply(t, AcceptOrg(user, org)), other, k.user);
    assert OwnsOrg(Apply(t, DeclineOrg(user, org)), other, k.user);
  }

  lemma DeletionKeepsOwners(t: Tables, user: string, org: string)
    requires HasOrgOwner(t, org) && !IsLastOrgOwner(t, user, org)
    ensures HasOrgOwner(WithoutUser(t, user), org)
  {
    var k :| k in t.members && k.org == org && OwnsOrg(t, org, k.user) && k.user != user;
    assert OwnsOrg(WithoutUser(t, user), org, k.user);
  }

  /** A deletion that was cleared finds its user an organization's only owner by now. */
  predicate LosesOrgOwner(t: Tables, op: Op) {
    op.DeleteAccount? && op.user in t.users && op.user in t.cleared && exists org :: org in t.orgs && IsLastOrgOwner(t, op.user, org)
  }

  lemma LastOwnerGone(t: Tables, user: string, org: string)
    requires IsLastOrgOwner(t, user, org)
    ensures !HasOrgOwner(WithoutUser(t, user), org)
  {
    var u := WithoutUser(t, user);
    if k :| k in u.members && k.org == org && OwnsOrg(u, org, k.user) {
      assert OwnsOrg(t, org, k.user);
    }
  }

  /** A transaction keeps every organization owned exactly when it is no such deletion. */
  lemma OrgOwnersKeptIff(t: Tables, op: Op)
    requires OrgsHaveOwners(t)
    ensures OrgsHaveOwners(Apply(t, op)) <==> !LosesOrgOwner(t, op)
  {
    hide HasOrgOwner, ApplyToOrgs, ApplyToModules, ApplyToTeams, WithoutUser, IsLastOrgOwner;
    if IsDeletionOp(op) {
      DeletionKeepsOwnersIff(t, op);
    } else {
      StepKeepsOrgOwners(t, op);
    }
  }

  lemma DeletionKeepsOwnersIff(t: Tables, op: Op)
    requires OrgsHaveOwners(t) && IsDeletionOp(op)
    ensures OrgsHaveOwners(ApplyDeletion(t, op)) <==> !LosesOrgOwner(t, op)
  {
    hide HasOrgOwner, WithoutUser, IsLastOrgOwner, DeletionAllowed;
    SameOrgs(t, op.user);
    if op.CheckDeletion? {
      DeletionFrame(t, op);
      forall org | org in t.orgs
        ensures HasOrgOwner(ApplyDeletion(t, op), org)
      {
        SameMembersSameOwners(t, ApplyDeletion(t, op), org);
      }
    } else {
      forall org | org in t.orgs
        ensures HasOrgOwner(WithoutUser(t, op.user), org) <==> !IsLastOrgOwner(t, op.user, org)
      {
        if IsLastOrgOwner(t, op.user, org) {
          LastOwnerGone(t, op.user, org);
        } else {
          DeletionKeepsOwners(t, op.user, org);
        }
      }
    }
  }

  lemma StepKeepsOrgOwners(t: Tables, op: Op)
    requires OrgsHaveOwners(t) && !IsDeletionOp(op)
    ensures OrgsHaveOwners(Apply(t, op))
  {
    hide HasOrgOwner, ApplyToOrgs, ApplyToModules, ApplyToTeams;
    var u := Apply(t, op);
    forall org | org in u.orgs
      ensures HasOrgOwner(u, org)
    {
      if IsOrgOp(op) {
        OrgOpKeepsOwner(t, op, org);
      } else if IsModuleOp(op) {
        ModuleOpsFrame(t, op);
        SameMembersSameOwners(t, u, org);
      } else {
        TeamOpsFrame(t, op);
        SameMembersSameOwners(t, u, org);
      }
    }
  }

  /** A change to one organization's members keeps the owners of all: its own by the check, the others'
      because it does not touch them. */
  lemma CheckedChangeKeepsOwner(t: Tables, after: Tables, name: string, org: string)
    requires HasOrgOwner(t, org) && forall k :: k in t.members && k.org != name ==> k in after.members && after.members[k] == t.members[k]
    ensures HasOrgOwner(KeepOrgOwner(t, after, name), org)
  {
    hide HasOrgOwner;
    if org != name {
      SameMembersSameOwners(t, after, org);
    }
  }

  lemma CreationKeepsOwner(t: Tables, user: string, name: string, org: string)
    requires org in t.orgs ==> HasOrgOwner(t, org)
    requires org in Apply(t, CreateOrg(user, name)).orgs
    ensures HasOrgOwner(Apply(t, CreateOrg(user, name)), org)
  {
    hide HasOrgOwner;
    var u := Apply(t, CreateOrg(user, name));
    if org == name && u != t {
      NewOrgHasOwner(u, user, org);
    } else {
      SameMembersSameOwners(t, u, org);
    }
  }

  lemma OrgOpKeepsOwner(t: Tables, op: Op, org: string)
    requires IsOrgOp(op) && org in ApplyToOrgs(t, op).orgs && (org in t.orgs ==> HasOrgOwner(t, org))
    ensures HasOrgOwner(ApplyToOrgs(t, op), org)
  {
    hide HasOrgOwner, KeepOrgOwner;
    var u := ApplyToOrgs(t, op);
    match op {
      case CreateOrg(user, name) => CreationKeepsOwner(t, user, name, org);
      case SetOrgMember(name, user, role) => SetMemberKeepsOwner(t, name, user, role, org);
      case RemoveOrgMember(name, user) => RemoveMemberKeepsOwner(t, name, user, org);
      case AcceptOrg(user, name) => AcceptKeepsOwners(t, user, name, org);
      case DeclineOrg(user, name) => AcceptKeepsOwners(t, user, name, org);
      case _ => SameMembersSameOwners(t, u, org);
    }
  }

  lemma SetMemberKeepsOwner(t: Tables, name: string, user: string, role: OrgRole, org: string)
    requires var u := ApplyToOrgs(t, SetOrgMember(name, user, role)); org in u.orgs && (org in t.orgs ==> HasOrgOwner(t, org))
    ensures HasOrgOwner(ApplyToOrgs(t, SetOrgMember(name, user, role)), org)
  {
    hide HasOrgOwner;
    if name in t.orgs && user in t.users {
      CheckedChangeKeepsOwner(t, WithMember(t, name, user, role), name, org);
    }
  }

  lemma RemoveMemberKeepsOwner(t: Tables, name: string, user: string, org: string)
    requires var u := ApplyToOrgs(t, RemoveOrgMember(name, user)); org in u.orgs && (org in t.orgs ==> HasOrgOwner(t, org))
    ensures HasOrgOwner(ApplyToOrgs(t, RemoveOrgMember(name, user)), org)
  {
    hide HasOrgOwner;
    if name in t.orgs && OrgUser(name, user) in t.members {
      CheckedChangeKeepsOwner(t, t.(members := t.members - {OrgUser(name, user)}), name, org);
    }
  }

  lemma SameOrgs(t: Tables, user: string)
    ensures WithoutUser(t, user).orgs == t.orgs
  {
  }

  lemma NewOrgHasOwner(t: Tables, user: string, org: string)
    requires OwnsOrg(t, org, user)
    ensures HasOrgOwner(t, org)
  {
    assert OrgUser(org, user) in t.members;
  }

  ghost predicate OwnedThroughout(ops: seq<Op>) {
    forall n :: 0 <= n <= |ops| ==> OrgsHaveOwners(Run(ops[..n]))
  }

  ghost predicate NeverLosesOwner(ops: seq<Op>) {
    forall n :: 0 <= n < |ops| ==> !LosesOrgOwner(Run(ops[..n]), ops[n])
  }

  lemma OwnedOneMore(ops: seq<Op>, op: Op)
    ensures OwnedThroughout(ops + [op]) <==> OwnedThroughout(ops) && OrgsHaveOwners(Run(ops + [op]))
  {
    hide Run, OrgsHaveOwners;
    var more := ops + [op];
    assert more[..|more|] == more;
    assert forall n :: 0 <= n <= |ops| ==> more[..n] == ops[..n];
  }

  lemma LosesOneMore(ops: seq<Op>, op: Op)
    ensures NeverLosesOwner(ops + [op]) <==> NeverLosesOwner(ops) && !LosesOrgOwner(Run(ops), op)
  {
    hide Run, LosesOrgOwner;
    var more := ops + [op];
    assert more[..|ops|] == ops && more[|ops|] == op;
    assert forall n :: 0 <= n < |ops| ==> more[..n] == ops[..n] && more[n] == ops[n];
    if NeverLosesOwner(more) {
      assert !LosesOrgOwner(Run(more[..|ops|]), more[|ops|]);
      forall n | 0 <= n < |ops|
        ensures !LosesOrgOwner(Run(ops[..n]), ops[n])
      {
        assert !LosesOrgOwner(Run(more[..n]), more[n]);
      }
    }
  }

  /** Over every run, each organization keeps at least one accepted owner, exactly as long as no deletion
      commits that finds its user an only owner. */
  lemma {:induction false} OrgsHaveOwnersIff(ops: seq<Op>)
    ensures OwnedThroughout(ops) <==> NeverLosesOwner(ops)
    ensures OwnedThroughout(ops) ==> OrgsHaveOwners(Run(ops))
    decreases |ops|
  {
    hide Run, Apply, OrgsHaveOwners, LosesOrgOwner;
    NothingRan();
    NoOrgs();
    if ops == [] {
      assert forall n :: 0 <= n <= |ops| ==> ops[..n] == [];
    } else {
      hide OwnedThroughout, NeverLosesOwner;
      var rest, op := ops[..|ops|-1], ops[|ops|-1];
      assert ops == rest + [op];
      OrgsHaveOwnersIff(rest);
      OwnedOneMore(rest, op);
      LosesOneMore(rest, op);
      RunStep(rest, op);
      if OrgsHaveOwners(Run(rest)) {
        OrgOwnersKeptIff(Run(rest), op);
      }
    }
  }

  lemma NoOrgs()
    ensures OrgsHaveOwners(EMPTY)
  {
  }

  /** Every deletion follows its own check at once. */
  predicate DeletionsAreChecked(ops: seq<Op>) {
    forall n :: 0 <= n < |ops| && ops[n].DeleteAccount? ==> n > 0 && ops[n-1] == CheckDeletion(ops[n].user) && DeletionAllowed(Run(ops[..n-1]), ops[n].user)
  }

  /** So in a run whose deletions do, with any other transactions in between, no organization is ever
      without an owner. */
  lemma OrgsAlwaysHaveOwners(ops: seq<Op>)
    requires DeletionsAreChecked(ops)
    ensures OrgsHaveOwners(Run(ops))
  {
    hide Run, Apply, OrgsHaveOwners, DeletionAllowed;
    forall n | 0 <= n < |ops|
      ensures !LosesOrgOwner(Run(ops[..n]), ops[n])
    {
      if ops[n].DeleteAccount? {
        assert ops[..n] == ops[..n-1] + [ops[n-1]];
        RunStep(ops[..n-1], ops[n-1]);
        StillAllowed(Run(ops[..n-1]), ops[n].user);
      }
    }
    OrgsHaveOwnersIff(ops);
  }

  lemma StillAllowed(t: Tables, user: string)
    requires DeletionAllowed(t, user)
    ensures !LosesOrgOwner(Apply(t, CheckDeletion(user)), DeleteAccount(user))
  {
    var u := Apply(t, CheckDeletion(user));
    forall org | org in u.orgs
      ensures !IsLastOrgOwner(u, user, org)
    {
      assert IsLastOrgOwner(u, user, org) ==> IsLastOrgOwner(t, user, org);
    }
  }

  /** Two owners of an organization who delete their accounts at once: each check finds the other. */
  function BothDelete(ann: string, bob: string, org: string): seq<Op> {
    [Register(ann), Register(bob), CreateOrg(ann, org), SetOrgMember(org, bob, OrgOwner), AcceptOrg(bob, org),
     CheckDeletion(ann), CheckDeletion(bob), DeleteAccount(ann), DeleteAccount(bob)]
  }

  lemma TwoOwners(ann: string, bob: string, org: string)
    requires ann != bob && org != ann && org != bob
    ensures var t := Run(BothDelete(ann, bob, org)[..5]);
      && t.users == {ann, bob} && t.orgs == map[org := MembersMaintain] && t.cleared == {}
      && t.members == map[OrgUser(org, ann) := Membership(OrgOwner, true), OrgUser(org, bob) := Membership(OrgOwner, true)]
  {
    hide Run, Apply;
    var ops := BothDelete(ann, bob, org);
    NothingRan();
    FirstFive(ops);
    RegisterIs(EMPTY, ann);
    var t1 := Apply(EMPTY, ops[0]);
    RegisterIs(t1, bob);
    var t2 := Apply(t1, ops[1]);
    CreateIs(t2, ann, org);
    var t3 := Apply(t2, ops[2]);
    InviteIs(t3, ann, bob, org);
    AcceptIs(Apply(t3, ops[3]), bob, org);
  }

  lemma FirstFive(ops: seq<Op>)
    requires |ops| >= 5
    ensures Run(ops[..5]) == Apply(Apply(Apply(Apply(Apply(EMPTY, ops[0]), ops[1]), ops[2]), ops[3]), ops[4])
  {
    hide Run, Apply;
    NothingRan();
    assert ops[..0] == [];
    assert ops[..1] == ops[..0] + [ops[0]] && ops[..2] == ops[..1] + [ops[1]] && ops[..3] == ops[..2] + [ops[2]]
        && ops[..4] == ops[..3] + [ops[3]] && ops[..5] == ops[..4] + [ops[4]];
    RunStep(ops[..0], ops[0]);
    RunStep(ops[..1], ops[1]);
    RunStep(ops[..2], ops[2]);
    RunStep(ops[..3], ops[3]);
    RunStep(ops[..4], ops[4]);
  }

  lemma RegisterIs(t: Tables, user: string)
    requires user !in t.names
    ensures Apply(t, Register(user)) == t.(names := t.names + {user}, users := t.users + {user})
  {
  }

  lemma CreateIs(t: Tables, user: string, org: string)
    requires org !in t.names && user in t.users
    ensures Apply(t, CreateOrg(user, org))
         == t.(names := t.names + {org}, orgs := t.orgs[org := MembersMaintain],
               members := t.members[OrgUser(org, user) := Membership(OrgOwner, true)])
  {
  }

  lemma InviteIs(t: Tables, owner: string, user: string, org: string)
    requires org in t.orgs && user in t.users && OwnsOrg(t, org, owner) && OrgUser(org, user) !in t.members
    ensures Apply(t, SetOrgMember(org, user, OrgOwner)) == t.(members := t.members[OrgUser(org, user) := Membership(OrgOwner, false)])
  {
    var u := WithMember(t, org, user, OrgOwner);
    assert OrgUser(org, owner) in u.members && OwnsOrg(u, org, owner);
  }

  lemma AcceptIs(t: Tables, user: string, org: string)
    requires OrgUser(org, user) in t.members && !t.members[OrgUser(org, user)].accepted
    ensures Apply(t, AcceptOrg(user, org)) == t.(members := t.members[OrgUser(org, user) := t.members[OrgUser(org, user)].(accepted := true)])
  {
  }

  /** Both checks pass, both accounts go, and the organization is left without an owner. */
  lemma TwoDeletionsLoseAnOrg(ann: string, bob: string, org: string)
    requires ann != bob && org != ann && org != bob
    ensures var ops := BothDelete(ann, bob, org);
      && OrgsHaveOwners(Run(ops[..8])) && DeletionAllowed(Run(ops[..5]), ann) && DeletionAllowed(Run(ops[..6]), bob)
      && org in Run(ops).orgs && !HasOrgOwner(Run(ops), org)
  {
    hide Run, Apply, DeletionAllowed, OrgsHaveOwners, HasOrgOwner, IsLastOrgOwner;
    var ops := BothDelete(ann, bob, org);
    TwoOwners(ann, bob, org);
    var t := Run(ops[..5]);
    BothAllowed(t, ann, bob, org);
    ClearedIs(t, ann);
    var t6 := Apply(t, CheckDeletion(ann));
    BothAllowed(t6, ann, bob, org);
    ClearedIs(t6, bob);
    var t7 := Apply(t6, CheckDeletion(bob));
    assert ops[..6] == ops[..5] + [ops[5]] && ops[..7] == ops[..6] + [ops[6]] && ops[..8] == ops[..7] + [ops[7]] && ops == ops[..8] + [ops[8]];
    RunStep(ops[..5], ops[5]);
    RunStep(ops[..6], ops[6]);
    RunStep(ops[..7], ops[7]);
    RunStep(ops[..8], ops[8]);
    OneThenNone(t7, ann, bob, org);
  }

  predicate HasTheTwo(t: Tables, ann: string, bob: string, org: string) {
    && t.users == {ann, bob} && t.orgs == map[org := MembersMaintain]
    && t.members == map[OrgUser(org, ann) := Membership(OrgOwner, true), OrgUser(org, bob) := Membership(OrgOwner, true)]
  }

  lemma BothAllowed(t: Tables, ann: string, bob: string, org: string)
    requires ann != bob && HasTheTwo(t, ann, bob, org)
    ensures DeletionAllowed(t, ann) && DeletionAllowed(t, bob)
  {
    assert OwnsOrg(t, org, ann) && OwnsOrg(t, org, bob) && OrgUser(org, ann) in t.members && OrgUser(org, bob) in t.members;
  }

  lemma ClearedIs(t: Tables, user: string)
    requires DeletionAllowed(t, user)
    ensures Apply(t, CheckDeletion(user)) == t.(cleared := t.cleared + {user})
  {
    hide DeletionAllowed;
  }

  lemma OneThenNone(t: Tables, ann: string, bob: string, org: string)
    requires ann != bob && HasTheTwo(t, ann, bob, org) && ann in t.cleared && bob in t.cleared
    ensures var u := Apply(t, DeleteAccount(ann)); var v := Apply(u, DeleteAccount(bob));
      OrgsHaveOwners(u) && org in v.orgs && !HasOrgOwner(v, org)
  {
    hide HasOrgOwner, WithoutUser;
    var u := WithoutUser(t, ann);
    OneLeft(t, ann, bob, org);
    NewOrgHasOwner(u, bob, org);
    LastOwnerGone(u, bob, org);
    SameOrgs(t, ann);
    SameOrgs(u, bob);
  }

  lemma OneLeft(t: Tables, ann: string, bob: string, org: string)
    requires ann != bob && HasTheTwo(t, ann, bob, org)
    ensures var u := WithoutUser(t, ann); IsLastOrgOwner(u, bob, org) && u.users == {bob} && u.cleared == t.cleared
  {
    var u := WithoutUser(t, ann);
    assert u.members == map[OrgUser(org, bob) := Membership(OrgOwner, true)];
  }

  // ---- Modules in personal namespaces ----

  ghost predicate PersonalModulesHaveOwners(t: Tables) {
    forall path :: path in t.modules && IsPersonal(t, path) ==> HasModuleOwner(t, path)
  }

  predicate IsLastModuleOwner(t: Tables, user: string, path: string) {
    OwnsModule(t, path, user) && forall k :: k in t.grants && k.path == path && OwnsModule(t, path, k.user) ==> k.user == user
  }

  /** The transactions that leave a personal module without an owner. */
  predicate Orphans(t: Tables, op: Op, path: string) {
    match op
    case PublishModule(user, p, namespace) =>
      p == path && path !in t.modules && user in t.users && namespace != user && namespace !in t.orgs
    case DeleteAccount(user) =>
      path in t.modules && IsPersonal(t, path) && user in t.users && user in t.cleared && IsLastModuleOwner(t, user, path)
    case _ => false
  }

  lemma OtherGrantsKeepOwner(t: Tables, u: Tables, path: string)
    requires HasModuleOwner(t, path) && forall k :: k in t.grants && k.path == path ==> k in u.grants && u.grants[k] == t.grants[k]
    ensures HasModuleOwner(u, path)
  {
    var k :| k in t.grants && k.path == path && OwnsModule(t, path, k.user);
    assert OwnsModule(u, path, k.user);
  }

  lemma AcceptKeepsModuleOwners(t: Tables, user: string, path: string, other: string)
    requires HasModuleOwner(t, other)
    ensures HasModuleOwner(Apply(t, AcceptModule(user, path)), other) && HasModuleOwner(Apply(t, DeclineModule(user, path)), other)
  {
    var k :| k in t.grants && k.path == other && OwnsModule(t, other, k.user);
    assert OwnsModule(Apply(t, AcceptModule(user, path)), other, k.user);
    assert OwnsModule(Apply(t, DeclineModule(user, path)), other, k.user);
  }

  lemma NewModuleOwner(t: Tables, user: string, path: string, namespace: string)
    requires path !in t.modules && user in t.users && namespace !in t.orgs
    requires forall k :: k in t.grants ==> k.path in t.modules
    ensures HasModuleOwner(Apply(t, PublishModule(user, path, namespace)), path) <==> namespace == user
  {
    var u := Apply(t, PublishModule(user, path, namespace));
    if namespace == user {
      assert ModuleUser(path, user) in u.grants;
      assert OwnsModule(u, path, user);
    }
  }

  ghost predicate GrantsHaveModules(t: Tables) {
    forall k :: k in t.grants ==> k.path in t.modules
  }

  /** A transaction keeps every personal module owned exactly when it orphans none: role changes never
      do, but deleting the account of an only owner does, and so does publishing the first version of a
      path in someone else's namespace, as a maintainer of another major version may. */
  lemma PersonalOwnersKeptIff(t: Tables, op: Op)
    requires PersonalModulesHaveOwners(t) && GrantsHaveModules(t)
    ensures PersonalModulesHaveOwners(Apply(t, op)) <==> forall path :: !Orphans(t, op, path)
  {
    hide HasModuleOwner, WithoutUser, IsLastOrgOwner, IsLastModuleOwner, DeletionAllowed;
    var u := Apply(t, op);
    forall path
      ensures (path in u.modules && IsPersonal(u, path) ==> HasModuleOwner(u, path)) <==> !Orphans(t, op, path)
    {
      if op.DeleteAccount? {
        SameModules(t, op.user);
        if path in t.modules && IsPersonal(t, path) {
          DeletionOrphansLastOwned(t, op.user, path);
        }
      } else if op.CheckDeletion? {
        DeletionFrame(t, op);
        if path in t.modules && IsPersonal(t, path) {
          OtherGrantsKeepOwner(t, u, path);
        }
      } else if path in u.modules && IsPersonal(u, path) {
        PersonalModuleAfter(t, op, path);
      }
    }
  }

  lemma SameModules(t: Tables, user: string)
    ensures WithoutUser(t, user).modules == t.modules && WithoutUser(t, user).orgs == t.orgs
  {
  }

  lemma DeletionOrphansLastOwned(t: Tables, user: string, path: string)
    requires HasModuleOwner(t, path)
    ensures HasModuleOwner(WithoutUser(t, user), path) <==> !IsLastModuleOwner(t, user, path)
  {
    var u := WithoutUser(t, user);
    var k :| k in t.grants && k.path == path && OwnsModule(t, path, k.user);
    if k.user != user {
      assert k in u.grants && OwnsModule(u, path, k.user);
    } else if j :| j in t.grants && j.path == path && OwnsModule(t, path, j.user) && j.user != user {
      assert j in u.grants && OwnsModule(u, path, j.user);
    }
  }

  lemma PersonalModuleAfter(t: Tables, op: Op, path: string)
    requires PersonalModulesHaveOwners(t) && GrantsHaveModules(t) && !IsDeletionOp(op)
    requires var u := Apply(t, op); path in u.modules && IsPersonal(u, path)
    ensures HasModuleOwner(Apply(t, op), path) <==> !Orphans(t, op, path)
  {
    hide HasModuleOwner, ApplyToOrgs, ApplyToModules, ApplyToTeams;
    var u := Apply(t, op);
    if IsModuleOp(op) {
      ModuleOpsFrame(t, op);
      if op.PublishModule? {
        PublishOwner(t, op.user, op.path, op.namespace, path);
      } else {
        RoleChangeOwner(t, op, path);
      }
    } else if IsOrgOp(op) {
      OrgOpsFrame(t, op);
      OtherGrantsKeepOwner(t, u, path);
    } else {
      TeamOpsFrame(t, op);
      OtherGrantsKeepOwner(t, u, path);
    }
  }

  lemma PublishOwner(t: Tables, user: string, p: string, namespace: string, path: string)
    requires PersonalModulesHaveOwners(t) && GrantsHaveModules(t)
    requires var u := ApplyToModules(t, PublishModule(user, p, namespace)); path in u.modules && IsPersonal(u, path)
    ensures var op := PublishModule(user, p, namespace);
      HasModuleOwner(ApplyToModules(t, op), path) <==> !Orphans(t, op, path)
  {
    hide HasModuleOwner, CreatorRole;
    if p == path && path !in t.modules {
      NewModuleOwner(t, user, path, namespace);
    } else {
      OtherGrantsKeepOwner(t, ApplyToModules(t, PublishModule(user, p, namespace)), path);
    }
  }

  lemma RoleChangesKeepModules(t: Tables, op: Op)
    requires IsModuleOp(op) && !op.PublishModule?
    ensures ApplyToModules(t, op).modules == t.modules
  {
    hide HasModuleOwner;
  }

  lemma RoleChangeOwner(t: Tables, op: Op, path: string)
    requires PersonalModulesHaveOwners(t) && IsModuleOp(op) && !op.PublishModule?
    requires var u := ApplyToModules(t, op); path in u.modules && IsPersonal(u, path)
    ensures HasModuleOwner(ApplyToModules(t, op), path)
  {
    hide HasModuleOwner, ApplyToModules;
    ModuleOpsFrame(t, op);
    RoleChangesKeepModules(t, op);
    match op {
      case SetCollaborator(p, user, role) => CheckedRoleKeepsOwner(t, op, path);
      case RemoveCollaborator(p, user) => CheckedRoleKeepsOwner(t, op, path);
      case AcceptModule(user, p) => AcceptKeepsModuleOwners(t, user, p, path);
      case DeclineModule(user, p) => AcceptKeepsModuleOwners(t, user, p, path);
    }
  }

  lemma CheckedRoleKeepsOwner(t: Tables, op: Op, path: string)
    requires op.SetCollaborator? || op.RemoveCollaborator?
    requires path in t.modules && IsPersonal(t, path) && HasModuleOwner(t, path)
    ensures HasModuleOwner(ApplyToModules(t, op), path)
  {
    hide HasModuleOwner;
    if op.path != path {
      OtherGrantsKeepOwner(t, ApplyToModules(t, op), path);
    }
  }

  lemma RunStep(ops: seq<Op>, op: Op)
    ensures Run(ops + [op]) == Apply(Run(ops), op)
  {
    assert (ops + [op])[..|ops|] == ops;
  }

  lemma OneModule(ann: string, bob: string, v1: string)
    requires ann != bob
    ensures var t := Run([Register(ann), Register(bob), PublishModule(ann, v1, ann)]);
      && t.users == {ann, bob} && t.orgs == map[] && t.members == map[] && t.modules == map[v1 := ann]
      && t.grants == map[ModuleUser(v1, ann) := Grant(Owner, true)]
      && PersonalModulesHaveOwners(t) && GrantsHaveModules(t)
  {
    hide Run;
    var r, b, p := Register(ann), Register(bob), PublishModule(ann, v1, ann);
    NothingRan();
    RunStep([], r);
    RunStep([r], b);
    RunStep([r, b], p);
    assert [] + [r] == [r] && [r] + [b] == [r, b] && [r, b] + [p] == [r, b, p];
    assert Run([r]) == EMPTY.(names := {ann}, users := {ann});
    assert Run([r, b]) == EMPTY.(names := {ann, bob}, users := {ann, bob});
    assert CreatorRole(Run([r, b]), ann, ann) == Owner;
    assert OwnsModule(Run([r, b, p]), v1, ann);
  }

  lemma NothingRan()
    ensures Run([]) == EMPTY
  {
  }

  /** So two ordinary runs end with a module nobody owns: the owner of v1 adds a maintainer who then
      publishes the first version of v2, or a personal module's owner deletes their account. */
  lemma RunsThatOrphan(ann: string, bob: string, v1: string, v2: string)
    requires ann != bob && v1 != v2
    ensures var start := [Register(ann), Register(bob), PublishModule(ann, v1, ann)];
      && PersonalModulesHaveOwners(Run(start))
      && !PersonalModulesHaveOwners(Run(start + [PublishModule(bob, v2, ann)]))
      && !PersonalModulesHaveOwners(Run(start + [CheckDeletion(ann)] + [DeleteAccount(ann)]))
  {
    hide Run, Apply, PersonalModulesHaveOwners, HasModuleOwner, DeletionAllowed, GrantsHaveModules;
    var start := [Register(ann), Register(bob), PublishModule(ann, v1, ann)];
    var t := Run(start);
    OneModule(ann, bob, v1);
    RunStep(start, PublishModule(bob, v2, ann));
    RunStep(start, CheckDeletion(ann));
    RunStep(start + [CheckDeletion(ann)], DeleteAccount(ann));
    PersonalOwnersKeptIff(t, PublishModule(bob, v2, ann));
    assert Orphans(t, PublishModule(bob, v2, ann), v2);
    NoOrgsAllowed(t, ann);
    ClearedIs(t, ann);
    var cleared := t.(cleared := t.cleared + {ann});
    SameGrants(t, cleared);
    PersonalOwnersKeptIff(cleared, DeleteAccount(ann));
    LastOfOne(cleared, ann, v1);
    assert Orphans(cleared, DeleteAccount(ann), v1);
  }

  lemma NoOrgsAllowed(t: Tables, user: string)
    requires user in t.users && t.orgs == map[]
    ensures DeletionAllowed(t, user)
  {
  }

  lemma SameGrants(t: Tables, u: Tables)
    requires u == t.(cleared := u.cleared)
    ensures PersonalModulesHaveOwners(u) <==> PersonalModulesHaveOwners(t)
    ensures GrantsHaveModules(u) <==> GrantsHaveModules(t)
  {
    forall path | path in t.modules
      ensures HasModuleOwner(u, path) <==> HasModuleOwner(t, path)
    {
      assert forall k :: k in t.grants ==> (OwnsModule(u, path, k.user) <==> OwnsModule(t, path, k.user));
    }
  }

  lemma LastOfOne(t: Tables, user: string, path: string)
    requires t.grants == map[ModuleUser(path, user) := Grant(Owner, true)]
    ensures IsLastModuleOwner(t, user, path)
  {
  }

  // ---- Nobody gains a role without their own act ----

  /** What a user has agreed to: by accepting or creating, and by accepting or publishing first. */
  ghost predicate ActedOnOrg(ops: seq<Op>, user: string, org: string) {
    AcceptOrg(user, org) in ops || CreateOrg(user, org) in ops
  }

  ghost predicate ActedOnModule(ops: seq<Op>, user: string, path: string) {
    AcceptModule(user, path) in ops || exists ns :: PublishModule(user, path, ns) in ops
  }

  ghost predicate MembersActed(ops: seq<Op>, t: Tables) {
    && (forall k :: k in t.members && t.members[k].accepted ==> ActedOnOrg(ops, k.user, k.org))
    && (forall k :: k in t.checked ==> ActedOnOrg(ops, k.user, k.org))
    && (forall k :: k in t.teamUsers ==> ActedOnOrg(ops, k.user, k.team.org))
  }

  ghost predicate GrantsActed(ops: seq<Op>, t: Tables) {
    forall k :: k in t.grants && t.grants[k].accepted ==> ActedOnModule(ops, k.user, k.path)
  }

  ghost predicate TeamModulesBelong(t: Tables) {
    forall k :: k in t.teamModules ==> k.path in t.modules && t.modules[k.path] == k.team.org && !t.teamModules[k].NoRole?
  }

  lemma ActsAreKept(ops: seq<Op>, op: Op)
    ensures forall user, org :: ActedOnOrg(ops, user, org) ==> ActedOnOrg(ops + [op], user, org)
    ensures forall user, path :: ActedOnModule(ops, user, path) ==> ActedOnModule(ops + [op], user, path)
    ensures op in ops + [op]
  {
    forall user, path | ActedOnModule(ops, user, path)
      ensures ActedOnModule(ops + [op], user, path)
    {
      if AcceptModule(user, path) !in ops {
        var ns :| PublishModule(user, path, ns) in ops;
        assert PublishModule(user, path, ns) in ops + [op];
      }
    }
  }

  lemma StepKeepsMembersActed(ops: seq<Op>, t: Tables, op: Op)
    requires MembersActed(ops, t)
    ensures MembersActed(ops + [op], Apply(t, op))
  {
    hide ApplyToOrgs, ApplyToModules, ApplyToTeams, ApplyDeletion, ActedOnOrg;
    ActsAreKept(ops, op);
    if IsOrgOp(op) {
      OrgOpsFrame(t, op);
      OrgOpMembersActed(ops, t, op);
    } else if IsModuleOp(op) {
      ModuleOpsFrame(t, op);
    } else if IsDeletionOp(op) {
      DeletionFrame(t, op);
    } else {
      TeamOpsFrame(t, op);
      TeamOpUsersActed(ops, t, op);
    }
  }

  lemma OrgOpMembersActed(ops: seq<Op>, t: Tables, op: Op)
    requires MembersActed(ops, t) && IsOrgOp(op)
    ensures var u := ApplyToOrgs(t, op);
      forall k :: k in u.members && u.members[k].accepted ==> ActedOnOrg(ops + [op], k.user, k.org)
  {
    hide HasOrgOwner, ActedOnOrg;
    ActsAreKept(ops, op);
    OwnActOnOrg(ops, op);
  }

  lemma TeamOpUsersActed(ops: seq<Op>, t: Tables, op: Op)
    requires MembersActed(ops, t) && !IsOrgOp(op) && !IsModuleOp(op) && !IsDeletionOp(op)
    ensures var u := ApplyToTeams(t, op);
      && (forall k :: k in u.checked ==> ActedOnOrg(ops + [op], k.user, k.org))
      && (forall k :: k in u.teamUsers ==> ActedOnOrg(ops + [op], k.user, k.team.org))
  {
    hide ActedOnOrg;
    ActsAreKept(ops, op);
  }

  lemma OwnActOnOrg(ops: seq<Op>, op: Op)
    ensures op.AcceptOrg? || op.CreateOrg? ==> ActedOnOrg(ops + [op], op.user, op.org)
  {
  }

  lemma StepKeepsGrantsActed(ops: seq<Op>, t: Tables, op: Op)
    requires GrantsActed(ops, t)
    ensures GrantsActed(ops + [op], Apply(t, op))
  {
    hide ApplyToOrgs, ApplyToTeams, HasModuleOwner, IsLastOrgOwner, ActedOnModule, CreatorRole;
    ActsAreKept(ops, op);
    OwnActOnModule(ops, op);
    if IsOrgOp(op) {
      OrgOpsFrame(t, op);
    } else if IsDeletionOp(op) {
      DeletionFrame(t, op);
    } else if !IsModuleOp(op) {
      TeamOpsFrame(t, op);
    }
  }

  lemma OwnActOnModule(ops: seq<Op>, op: Op)
    ensures op.AcceptModule? || op.PublishModule? ==> ActedOnModule(ops + [op], op.user, op.path)
  {
    if op.PublishModule? {
      assert PublishModule(op.user, op.path, op.namespace) in ops + [op];
    }
  }

  lemma StepKeepsTeamModules(t: Tables, op: Op)
    requires TeamModulesBelong(t)
    ensures TeamModulesBelong(Apply(t, op))
  {
    hide ApplyToOrgs, ApplyToModules, ApplyToTeams, IsLastOrgOwner, DeletionAllowed;
    if IsOrgOp(op) {
      OrgOpsFrame(t, op);
    } else if IsModuleOp(op) {
      ModuleOpsFrame(t, op);
    } else if IsDeletionOp(op) {
      DeletionFrame(t, op);
    } else {
      TeamOpKeepsTeamModules(t, op);
    }
  }

  lemma TeamOpKeepsTeamModules(t: Tables, op: Op)
    requires TeamModulesBelong(t) && !IsOrgOp(op) && !IsModuleOp(op) && !IsDeletionOp(op)
    ensures TeamModulesBelong(ApplyToTeams(t, op))
  {
    TeamOpsFrame(t, op);
  }

  lemma {:induction false} RunIsActed(ops: seq<Op>)
    ensures MembersActed(ops, Run(ops)) && GrantsActed(ops, Run(ops)) && TeamModulesBelong(Run(ops))
    decreases |ops|
  {
    if ops != [] {
      hide Apply;
      var rest, op := ops[..|ops|-1], ops[|ops|-1];
      assert ops == rest + [op];
      RunIsActed(rest);
      StepKeepsMembersActed(rest, Run(rest), op);
      StepKeepsGrantsActed(rest, Run(rest), op);
      StepKeepsTeamModules(Run(rest), op);
    }
  }

  lemma RoleHasSource(t: Tables, user: string, path: string)
    requires path in t.modules && !RoleOf(t, user, path).NoRole?
    ensures || (ModuleUser(path, user) in t.grants && t.grants[ModuleUser(path, user)].accepted)
            || (t.modules[path] in t.orgs && IsMember(t, t.modules[path], user))
            || exists k :: k in t.teamModules && k.path == path && TeamUser(k.team, user) in t.teamUsers
  {
  }

  /** In every reachable state, whoever has a role on a module has accepted a role on it, published it
      first, or joined the organization it belongs to: by accepting, or by creating it. */
  lemma NoRoleWithoutAnAct(ops: seq<Op>, user: string, path: string)
    requires path in Run(ops).modules && !RoleOf(Run(ops), user, path).NoRole?
    ensures ActedOnModule(ops, user, path) || ActedOnOrg(ops, user, Run(ops).modules[path])
  {
    hide Run, RoleOf, ActedOnModule, ActedOnOrg;
    RunIsActed(ops);
    RoleHasSource(Run(ops), user, path);
  }

  /** At each step too: a membership or role becomes accepted only by its own user's act. */
  lemma AcceptanceIsOwnAct(t: Tables, op: Op, user: string, path: string, org: string)
    ensures IsMember(Apply(t, op), org, user) && !IsMember(t, org, user) ==> op == AcceptOrg(user, org) || op == CreateOrg(user, org)
    ensures !DirectRole(Apply(t, op), user, path).NoRole? && DirectRole(t, user, path).NoRole? && GrantsNameRoles(t)
        ==> op == AcceptModule(user, path) || (op.PublishModule? && op.user == user && op.path == path)
  {
    hide ApplyToTeams, HasOrgOwner, HasModuleOwner, IsLastOrgOwner, CreatorRole;
    if IsModuleOp(op) {
      ModuleOpsFrame(t, op);
    } else if IsOrgOp(op) {
      OrgOpsFrame(t, op);
    } else if IsDeletionOp(op) {
      DeletionFrame(t, op);
    } else {
      TeamOpsFrame(t, op);
    }
  }

  // ---- What the transactions do ----

  /** Setting or removing a member commits exactly if an accepted owner is left, and changes that row only; a row
      that is set keeps the acceptance it has. */
  lemma MemberChangesCommit(t: Tables, org: string, user: string, role: OrgRole)
    ensures var k := OrgUser(org, user);
      var after := t.members[k := Membership(role, k in t.members && t.members[k].accepted)];
      var owned := exists o: OrgUser :: o in after && o.org == org && after[o] == Membership(OrgOwner, true);
      Apply(t, SetOrgMember(org, user, role)) == if org in t.orgs && user in t.users && owned then t.(members := after) else t
    ensures var k := OrgUser(org, user);
      var after := t.members - {k};
      var owned := exists o: OrgUser :: o in after && o.org == org && after[o] == Membership(OrgOwner, true);
      Apply(t, RemoveOrgMember(org, user)) == if org in t.orgs && k in t.members && owned then t.(members := after) else t
  {
    OwnersByRows(WithMember(t, org, user, role), org);
    OwnersByRows(t.(members := t.members - {OrgUser(org, user)}), org);
  }

  lemma OwnersByRows(t: Tables, org: string)
    ensures HasOrgOwner(t, org) <==> exists o: OrgUser :: o in t.members && o.org == org && t.members[o] == Membership(OrgOwner, true)
  {
    forall o: OrgUser | o in t.members && o.org == org
      ensures OwnsOrg(t, org, o.user) <==> t.members[o] == Membership(OrgOwner, true)
    {
      assert o == OrgUser(org, o.user);
    }
  }

  lemma ModuleOwnersByRows(t: Tables, path: string)
    ensures HasModuleOwner(t, path) <==> exists o: ModuleUser :: o in t.grants && o.path == path && t.grants[o] == Grant(Owner, true)
  {
    forall o: ModuleUser | o in t.grants && o.path == path
      ensures OwnsModule(t, path, o.user) <==> t.grants[o] == Grant(Owner, true)
    {
      assert o == ModuleUser(path, o.user);
    }
  }

  /** Likewise for a module's collaborators, for whom the modules of organizations need no owner of their own. */
  lemma CollaboratorChangesCommit(t: Tables, path: string, user: string, role: Role)
    requires path in t.modules
    ensures var k := ModuleUser(path, user);
      var after := t.grants[k := Grant(role, k in t.grants && t.grants[k].accepted)];
      var owned := t.modules[path] in t.orgs || exists o: ModuleUser :: o in after && o.path == path && after[o] == Grant(Owner, true);
      Apply(t, SetCollaborator(path, user, role)) == if user in t.users && role != NoRole && owned then t.(grants := after) else t
    ensures var k := ModuleUser(path, user);
      var after := t.grants - {k};
      var owned := t.modules[path] in t.orgs || exists o: ModuleUser :: o in after && o.path == path && after[o] == Grant(Owner, true);
      Apply(t, RemoveCollaborator(path, user)) == if k in t.grants && owned then t.(grants := after) else t
  {
    ModuleOwnersByRows(WithGrant(t, path, user, role), path);
    ModuleOwnersByRows(t.(grants := t.grants - {ModuleUser(path, user)}), path);
  }

  /** An invitation that is pending is accepted or taken back by its user; anything else changes nothing. */
  lemma InvitationsEnd(t: Tables, user: string, org: string, path: string)
    ensures var k := OrgUser(org, user);
      if k in t.members && !t.members[k].accepted then
        && Apply(t, AcceptOrg(user, org)) == t.(members := t.members[k := Membership(t.members[k].role, true)])
        && Apply(t, DeclineOrg(user, org)) == t.(members := t.members - {k})
      else Apply(t, AcceptOrg(user, org)) == t == Apply(t, DeclineOrg(user, org))
    ensures var k := ModuleUser(path, user);
      if k in t.grants && !t.grants[k].accepted then
        && Apply(t, AcceptModule(user, path)) == t.(grants := t.grants[k := Grant(t.grants[k].role, true)])
        && Apply(t, DeclineModule(user, path)) == t.(grants := t.grants - {k})
      else Apply(t, AcceptModule(user, path)) == t == Apply(t, DeclineModule(user, path))
  {
  }

  /** A name is taken once and for all; an organization starts with its creator as owner and its members as
      maintainers. */
  lemma NamesAreTaken(t: Tables, user: string, org: string, access: Access)
    ensures Apply(t, Register(user)) == if user in t.names then t else t.(names := t.names + {user}, users := t.users + {user})
    ensures Apply(t, CreateOrg(user, org)) == if org in t.names || user !in t.users then t
              else t.(names := t.names + {org}, orgs := t.orgs[org := MembersMaintain],
                      members := t.members[OrgUser(org, user) := Membership(OrgOwner, true)])
    ensures Apply(t, SetMemberAccess(org, access)) == if org in t.orgs then t.(orgs := t.orgs[org := access]) else t
  {
  }

  /** Team members are members of the organization when they are checked. */
  lemma TeamsGather(t: Tables, user: string, org: string, team: Team)
    ensures Apply(t, CreateTeam(team)) == if team.org in t.orgs then t.(teams := t.teams + {team}) else t
    ensures Apply(t, CheckTeamUser(org, user)) == if OrgUser(org, user) in t.members && t.members[OrgUser(org, user)].accepted
              then t.(checked := t.checked + {OrgUser(org, user)}) else t
    ensures Apply(t, AddTeamUser(team, user)) == if team in t.teams && user in t.users && OrgUser(team.org, user) in t.checked
              then t.(teamUsers := t.teamUsers + {TeamUser(team, user)}) else t
    ensures Apply(t, RemoveTeamUser(team, user)) == t.(teamUsers := t.teamUsers - {TeamUser(team, user)})
  {
  }

  /** Teams get roles on their organization's modules only. */
  lemma TeamsGetRoles(t: Tables, team: Team, path: string, role: Role)
    ensures Apply(t, SetTeamModule(team, path, role))
         == if team in t.teams && path in t.modules && t.modules[path] == team.org && role != NoRole
            then t.(teamModules := t.teamModules[TeamModule(team, path) := role]) else t
    ensures Apply(t, RemoveTeamModule(team, path)) == t.(teamModules := t.teamModules - {TeamModule(team, path)})
  {
  }

  /** Of every organization a user owns there is another accepted owner. */
  ghost predicate LeavesOwners(t: Tables, user: string) {
    forall org :: org in t.orgs && OrgUser(org, user) in t.members && t.members[OrgUser(org, user)] == Membership(OrgOwner, true) ==>
      exists k: OrgUser :: k in t.members && k.org == org && k.user != user && t.members[k] == Membership(OrgOwner, true)
  }

  /** The check before a deletion clears exactly a user who has an account, and beside whom every organization they
      own has another accepted owner. */
  lemma CheckClears(t: Tables, user: string)
    ensures Apply(t, CheckDeletion(user)) == if user in t.users && LeavesOwners(t, user) then t.(cleared := t.cleared + {user}) else t
  {
    forall org, k: OrgUser | k in t.members && k.org == org
      ensures OwnsOrg(t, org, k.user) <==> t.members[k] == Membership(OrgOwner, true)
    {
      assert k == OrgUser(org, k.user);
    }
  }

  /** A deletion that runs takes every row of the user and no other; the module rows and the names stay. */
  lemma DeletionTakesRows(t: Tables, user: string)
    requires user in t.users && user in t.cleared
    ensures var u := Apply(t, DeleteAccount(user));
      && u.users == t.users - {user} && u.names == t.names && u.modules == t.modules && u.orgs == t.orgs
      && u.teams == t.teams && u.teamModules == t.teamModules
      && (forall k: OrgUser :: (k in u.members <==> k in t.members && k.user != user) && (k in u.members ==> u.members[k] == t.members[k]))
      && (forall k: ModuleUser :: (k in u.grants <==> k in t.grants && k.user != user) && (k in u.grants ==> u.grants[k] == t.grants[k]))
      && forall k: TeamUser :: k in u.teamUsers <==> k in t.teamUsers && k.user != user
  {
  }

  /** A team that is deleted goes with its members and its roles; other teams keep theirs. */
  lemma TeamIsDeleted(t: Tables, team: Team)
    ensures var u := Apply(t, DeleteTeam(team));
      && u.teams == t.teams - {team}
      && (forall k: TeamUser :: k in u.teamUsers <==> k in t.teamUsers && k.team != team)
      && forall k: TeamModule :: (k in u.teamModules <==> k in t.teamModules && k.team != team)
                                 && (k in u.teamModules ==> u.teamModules[k] == t.teamModules[k])
  {
  }

  /** The first publish of a path makes the module its namespace's. Its publisher gets an owner's role in their
      own namespace, and a maintainer's as a member of an organization whose members need one; nobody else does. */
  lemma FirstPublish(t: Tables, user: string, path: string, namespace: string)
    requires path !in t.modules && user in t.users
    ensures var u := Apply(t, PublishModule(user, path, namespace));
      var needs := && namespace in t.orgs && t.orgs[namespace] == MembersNeedTeams && OrgUser(namespace, user) in t.members
                   && t.members[OrgUser(namespace, user)] == Membership(OrgMember, true);
      && u.modules == t.modules[path := namespace]
      && u.grants == if namespace == user then t.grants[ModuleUser(path, user) := Grant(Owner, true)]
                     else if needs then t.grants[ModuleUser(path, user) := Grant(Maintainer, true)]
                     else t.grants
  {
  }

  /** So whoever publishes a path first, under their own name or as a member of its organization, may publish it
      again. */
  lemma FirstPublisherMaintains(t: Tables, user: string, path: string, namespace: string)
    requires path !in t.modules && user in t.users
    requires namespace == user || (namespace in t.orgs && IsMember(t, namespace, user))
    ensures path in Apply(t, PublishModule(user, path, namespace)).modules
    ensures RoleOf(Apply(t, PublishModule(user, path, namespace)), user, path).Rank() >= 1
  {
    FirstPublish(t, user, path, namespace);
  }

  // ---- Maintainers are those with a role ----

  /** What the tables of a run satisfy: roles name a role, and teams' modules are their organization's. */
  ghost predicate GrantsNameRoles(t: Tables) {
    forall k :: k in t.grants ==> !t.grants[k].role.NoRole?
  }

  lemma {:induction false} RunGrantsNameRoles(ops: seq<Op>)
    ensures GrantsNameRoles(Run(ops)) && GrantsHaveModules(Run(ops))
    decreases |ops|
  {
    hide Apply;
    if ops != [] {
      RunGrantsNameRoles(ops[..|ops|-1]);
      StepGrantsNameRoles(Run(ops[..|ops|-1]), ops[|ops|-1]);
    }
  }

  lemma StepGrantsNameRoles(t: Tables, op: Op)
    requires GrantsNameRoles(t) && GrantsHaveModules(t)
    ensures GrantsNameRoles(Apply(t, op)) && GrantsHaveModules(Apply(t, op))
  {
    hide ApplyToOrgs, ApplyToTeams, HasModuleOwner, IsLastOrgOwner, CreatorRole;
    if IsOrgOp(op) {
      OrgOpsFrame(t, op);
    } else if IsDeletionOp(op) {
      DeletionFrame(t, op);
    } else if !IsModuleOp(op) {
      TeamOpsFrame(t, op);
    }
  }

  /** Which rows make an owner of a module, and which a maintainer who is no owner. */
  lemma RoleMeans(t: Tables, user: string, path: string)
    requires path in t.modules
    ensures RoleOf(t, user, path) == Owner
       <==> || (ModuleUser(path, user) in t.grants && t.grants[ModuleUser(path, user)] == Grant(Owner, true))
            || (exists k :: k in t.teamModules && k.path == path && t.teamModules[k] == Owner && TeamUser(k.team, user) in t.teamUsers)
            || (t.modules[path] in t.orgs && OrgUser(t.modules[path], user) in t.members
                && t.members[OrgUser(t.modules[path], user)] == Membership(OrgOwner, true))
    ensures RoleOf(t, user, path) == Maintainer
       <==> && RoleOf(t, user, path) != Owner
            && (|| (ModuleUser(path, user) in t.grants && t.grants[ModuleUser(path, user)] == Grant(Maintainer, true))
                || (exists k :: k in t.teamModules && k.path == path && t.teamModules[k] == Maintainer && TeamUser(k.team, user) in t.teamUsers)
                || (t.modules[path] in t.orgs && t.orgs[t.modules[path]] == MembersMaintain
                    && OrgUser(t.modules[path], user) in t.members && t.members[OrgUser(t.modules[path], user)].accepted))
  {
  }

  /** The list of maintainers is exactly the users whose role is maintainer or more. */
  lemma MaintainersHaveRoles(t: Tables, user: string, path: string)
    requires path in t.modules && GrantsNameRoles(t) && TeamModulesBelong(t)
    ensures user in MaintainersOf(t, path) <==> user in t.users && RoleOf(t, user, path).Rank() >= 1
  {
    var k, m := ModuleUser(path, user), OrgUser(t.modules[path], user);
    var direct := user in t.users && k in t.grants && t.grants[k].accepted;
    var byOrg := user in t.users && m.org in t.orgs && IsMember(t, m.org, user)
                 && (t.members[m].role.OrgOwner? || t.orgs[m.org].MembersMaintain?);
    var byTeam := user in t.users && exists j :: j in t.teamModules && j.path == path && TeamUser(j.team, user) in t.teamUsers;
    ListedBySources(t, user, path);
    assert user in MaintainersOf(t, path) <==> direct || byOrg || byTeam;
    TeamRoleIsARole(t, user, path);
  }

  lemma ListedBySources(t: Tables, user: string, path: string)
    requires path in t.modules
    ensures var k, m := ModuleUser(path, user), OrgUser(t.modules[path], user);
      user in MaintainersOf(t, path) <==>
        (user in t.users &&
          (|| (k in t.grants && t.grants[k].accepted)
           || (m.org in t.orgs && IsMember(t, m.org, user) && (t.members[m].role.OrgOwner? || t.orgs[m.org].MembersMaintain?))
           || exists j :: j in t.teamModules && j.path == path && TeamUser(j.team, user) in t.teamUsers))
  {
    if j :| j in t.teamModules && j.path == path && TeamUser(j.team, user) in t.teamUsers && user in t.users {
      assert TeamUser(j.team, user).user == user;
    }
  }

  lemma TeamRoleIsARole(t: Tables, user: string, path: string)
    requires TeamModulesBelong(t)
    ensures TeamRole(t, user, path).NoRole?
       <==> !exists j :: j in t.teamModules && j.path == path && TeamUser(j.team, user) in t.teamUsers
  {
    if j :| j in t.teamModules && j.path == path && TeamUser(j.team, user) in t.teamUsers {
      assert TeamGives(t, user, path, t.teamModules[j]);
    }
  }

  lemma MaintainersInEveryRun(ops: seq<Op>, user: string, path: string)
    requires path in Run(ops).modules
    ensures user in MaintainersOf(Run(ops), path) <==> user in Run(ops).users && RoleOf(Run(ops), user, path).Rank() >= 1
  {
    hide Run, MaintainersOf, RoleOf;
    RunGrantsNameRoles(ops);
    RunIsActed(ops);
    MaintainersHaveRoles(Run(ops), user, path);
  }
}
