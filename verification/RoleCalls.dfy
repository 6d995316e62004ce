/** The calls that change roles, each at most one transaction of Roles: what is proved of runs holds here. */
module RoleCalls {
  import opened Outcomes
  import opened Roles

  // Who asks is checked first, outside the transaction, and other calls may come in between. So a check is
  // a method of its own, and the transactions take what it found: it may be out of date when they run.
  // A transaction works on a copy of the tables, and commits it or rolls it back.

  /** What the two counting queries of the owner checks return. */
  function OrgOwnerCount(t: Tables, org: string): nat {
    |set k | k in t.members && k.org == org && t.members[k] == Membership(OrgOwner, true)|
  }

  function ModuleOwnerCount(t: Tables, path: string): nat {
    |set k | k in t.grants && k.path == path && t.grants[k] == Grant(Owner, true)|
  }

  lemma NoOwnerCounted(t: Tables, org: string)
    ensures OrgOwnerCount(t, org) == 0 <==> !HasOrgOwner(t, org)
  {
    var owners := set k | k in t.members && k.org == org && t.members[k] == Membership(OrgOwner, true);
    assert forall k :: k in t.members && k.org == org && OwnsOrg(t, org, k.user) ==> k in owners;
    assert forall k :: k in owners ==> k == OrgUser(org, k.user);
  }

  lemma NoModuleOwnerCounted(t: Tables, path: string)
    ensures ModuleOwnerCount(t, path) == 0 <==> !HasModuleOwner(t, path)
  {
    var owners := set k | k in t.grants && k.path == path && t.grants[k] == Grant(Owner, true);
    assert forall k :: k in t.grants && k.path == path && OwnsModule(t, path, k.user) ==> k in owners;
    assert forall k :: k in owners ==> k == ModuleUser(path, k.user);
  }

  lemma LastOwnerCounted(t: Tables, user: string, org: string)
    requires OwnsOrg(t, org, user)
    ensures OrgOwnerCount(t, org) == 1 <==> IsLastOrgOwner(t, user, org)
  {
    var me := OrgUser(org, user);
    var owners := set k | k in t.members && k.org == org && t.members[k] == Membership(OrgOwner, true);
    assert forall k :: k in t.members && k.org == org && OwnsOrg(t, org, k.user) <==> k in owners;
    assert owners == {me} + (owners - {me});
    assert |owners| == 1 + |owners - {me}|;
    assert owners - {me} == {} <==> forall k :: k in owners ==> k.user == user;
  }

  /** Who may publish: a maintainer of the module, or of another major version of it if there is one;
      else the namespace's user or a member of its organization. */
  predicate MayPublish(t: Tables, u: string, path: string, namespace: string, majors: seq<string>) {
    if path in t.modules then RoleOf(t, u, path).Rank() >= 1
    else if majors != [] then exists m :: m in majors && m in t.modules && RoleOf(t, u, m).Rank() >= 1
    else namespace == u || (namespace in t.orgs && IsMember(t, namespace, u))
  }

  /** An allowed publish leaves its new module without an owner only by way of another major version
      that the publisher maintains. */
  lemma OnlyMajorVersionsOrphan(t: Tables, u: string, path: string, namespace: string, majors: seq<string>)
    requires MayPublish(t, u, path, namespace, majors) && Orphans(t, PublishModule(u, path, namespace), path)
    ensures exists m :: m in majors && m in t.modules && RoleOf(t, u, m).Rank() >= 1
  {
    hide RoleOf;
  }

  class Registry {
    var db: Tables
    ghost var ops: seq<Op>

    ghost predicate Valid() reads this {
      db == Run(ops)
    }

    constructor ()
      ensures Valid() && db == EMPTY
    {
      db, ops := EMPTY, [];
    }

    /** At most one transaction ran, and it ran only if the caller was allowed to ask for it. */
    ghost predicate Did(before: Tables, history: seq<Op>, allowed: bool, op: Op, ok: bool)
      reads this
    {
      && Valid()
      && db == (if allowed then Apply(before, op) else before)
      && ops == (if allowed then history + [op] else history)
      && (ok ==> allowed)
      && (!ok ==> db == before)
    }

    /** Commits an allowed transaction's result. */
    ghost method Record(op: Op)
      requires db == Apply(Run(ops), op)
      modifies this`ops
      ensures Valid() && ops == old(ops) + [op]
    {
      RunStep(ops, op);
      ops := ops + [op];
    }

    method Role(u: string, path: string) returns (r: Option<Role>)
      requires Valid()
      ensures r == if path in db.modules then Some(RoleOf(db, u, path)) else None
    {
      RunIsActed(ops);
      if path !in db.modules {
        return None;
      }
      var role := NoRole;
      if ModuleUser(path, u) in db.grants && db.grants[ModuleUser(path, u)].accepted {
        role := db.grants[ModuleUser(path, u)].role;
      }
      var byTeam := set k | k in db.teamModules && k.path == path && TeamUser(k.team, u) in db.teamUsers :: db.teamModules[k];
      if Owner in byTeam {
        role := MaxRole(role, Owner);
      } else if byTeam != {} {
        role := MaxRole(role, Maintainer);
      }
      assert forall k :: k in db.teamModules && k.path == path && TeamUser(k.team, u) in db.teamUsers ==> db.teamModules[k] in byTeam;
      var org := db.modules[path];
      if org in db.orgs && OrgUser(org, u) in db.members && db.members[OrgUser(org, u)].accepted {
        if db.members[OrgUser(org, u)].role.OrgOwner? {
          role := Owner;
        } else if db.orgs[org].MembersMaintain? {
          role := MaxRole(role, Maintainer);
        }
      }
      r := Some(role);
    }

    method CanPublish(u: string, path: string, namespace: string, majors: seq<string>) returns (ok: bool)
      requires Valid()
      ensures ok == MayPublish(db, u, path, namespace, majors)
      ensures u in db.users && path in db.modules ==> (ok <==> u in MaintainersOf(db, path))
      ensures u in db.users && path !in db.modules && majors != []
          ==> (ok <==> exists m :: m in majors && m in db.modules && u in MaintainersOf(db, m))
      ensures path !in db.modules && majors == []
          ==> (ok <==> namespace == u || (namespace in db.orgs && OrgUser(namespace, u) in db.members
                                          && db.members[OrgUser(namespace, u)].accepted))
    {
      forall p | p in db.modules
        ensures u in MaintainersOf(db, p) <==> u in db.users && RoleOf(db, u, p).Rank() >= 1
      {
        MaintainersInEveryRun(ops, u, p);
      }
      hide MaintainersOf, RoleOf;
      var role := Role(u, path);
      if role.Some? {
        return role.value.Rank() >= 1;
      }
      if majors != [] {
        for i := 0 to |majors|
          invariant forall m :: m in majors[..i] && m in db.modules ==> RoleOf(db, u, m).Rank() == 0
        {
          role := Role(u, majors[i]);
          if role.Some? && role.value.Rank() >= 1 {
            return true;
          }
        }
        assert majors[..|majors|] == majors;
        return false;
      }
      ok := namespace == u || (namespace in db.orgs && IsMember(db, namespace, u));
    }

    /** The check before a change to an organization, its members or its teams. */
    method RequireOrgOwner(u: string, org: string) returns (allowed: bool)
      requires Valid()
      ensures allowed <==> org in db.orgs && OwnsOrg(db, org, u)
    {
      allowed := org in db.orgs && OrgUser(org, u) in db.members && db.members[OrgUser(org, u)] == Membership(OrgOwner, true);
    }

    /** The check before a change to a module's collaborators. */
    method RequireModuleOwner(u: string, path: string) returns (allowed: bool)
      requires Valid()
      ensures allowed <==> path in db.modules && RoleOf(db, u, path).Owner?
    {
      var role := Role(u, path);
      allowed := role.Some? && role.value.Owner?;
    }

    method CreateOrg(u: string, org: string) returns (ok: bool)
      requires Valid()
      modifies this
      ensures Did(old(db), old(ops), true, Op.CreateOrg(u, org), ok)
      ensures ok ==> org !in old(db).names && org in db.orgs && OwnsOrg(db, org, u)
    {
      var tx := db;
      ok := org !in tx.names && u in tx.users;
      if ok {
        tx := tx.(names := tx.names + {org}, orgs := tx.orgs[org := MembersMaintain]);
        db := tx.(members := tx.members[OrgUser(org, u) := Membership(OrgOwner, true)]);
      }
      Record(Op.CreateOrg(u, org));
    }

    method SetOrgMember(allowed: bool, org: string, user: string, role: OrgRole) returns (ok: bool)
      requires Valid()
      modifies this
      ensures Did(old(db), old(ops), allowed, Op.SetOrgMember(org, user, role), ok)
      ensures ok ==> HasOrgOwner(db, org) && OrgUser(org, user) in db.members && db.members[OrgUser(org, user)].role == role
    {
      if !allowed {
        return false;
      }
      ok := org in db.orgs && user in db.users;
      if ok {
        var tx := db;
        var k := OrgUser(org, user);
        var row := if k in tx.members then tx.members[k].(role := role) else Membership(role, false);
        tx := tx.(members := tx.members[k := row]);
        NoOwnerCounted(tx, org);
        ok := OrgOwnerCount(tx, org) != 0;
        if ok {
          db := tx;
        }
      }
      Record(Op.SetOrgMember(org, user, role));
    }

    method RemoveOrgMember(allowed: bool, org: string, user: string) returns (ok: bool)
      requires Valid()
      modifies this
      ensures Did(old(db), old(ops), allowed, Op.RemoveOrgMember(org, user), ok)
      ensures ok ==> HasOrgOwner(db, org) && !IsMember(db, org, user)
    {
      if !allowed {
        return false;
      }
      ok := DropMember(org, user);
    }

    /** Anyone may leave, except the last owner. */
    method LeaveOrg(u: string, org: string) returns (ok: bool)
      requires Valid()
      modifies this
      ensures Did(old(db), old(ops), true, Op.RemoveOrgMember(org, u), ok)
      ensures ok ==> HasOrgOwner(db, org) && !IsMember(db, org, u)
    {
      ok := DropMember(org, u);
    }

    method DropMember(org: string, user: string) returns (ok: bool)
      requires Valid()
      modifies this
      ensures Did(old(db), old(ops), true, Op.RemoveOrgMember(org, user), ok)
      ensures ok ==> HasOrgOwner(db, org) && !IsMember(db, org, user)
    {
      var tx := db;
      ok := org in tx.orgs && OrgUser(org, user) in tx.members;
      if ok {
        tx := tx.(members := tx.members - {OrgUser(org, user)});
        NoOwnerCounted(tx, org);
        ok := OrgOwnerCount(tx, org) != 0;
        if ok {
          db := tx;
        }
      }
      Record(Op.RemoveOrgMember(org, user));
    }

    /** An invitation to an organization or a module becomes a membership or a role. */
    method AcceptInvitation(u: string, name: string, toModule: bool) returns (ok: bool)
      requires Valid()
      modifies this
      ensures Did(old(db), old(ops), true, if toModule then AcceptModule(u, name) else AcceptOrg(u, name), ok)
      ensures ok ==> if toModule then ModuleUser(name, u) in old(db).grants && !old(db).grants[ModuleUser(name, u)].accepted
                     else OrgUser(name, u) in old(db).members && !IsMember(old(db), name, u) && IsMember(db, name, u)
    {
      if toModule {
        var k := ModuleUser(name, u);
        ok := k in db.grants && !db.grants[k].accepted;
        if ok {
          db := db.(grants := db.grants[k := db.grants[k].(accepted := true)]);
        }
        Record(AcceptModule(u, name));
      } else {
        var k := OrgUser(name, u);
        ok := k in db.members && !db.members[k].accepted;
        if ok {
          db := db.(members := db.members[k := db.members[k].(accepted := true)]);
        }
        Record(AcceptOrg(u, name));
      }
    }

    method DeclineInvitation(u: string, name: string, toModule: bool) returns (ok: bool)
      requires Valid()
      modifies this
      ensures Did(old(db), old(ops), true, if toModule then DeclineModule(u, name) else DeclineOrg(u, name), ok)
    {
      if toModule {
        var k := ModuleUser(name, u);
        ok := k in db.grants && !db.grants[k].accepted;
        if ok {
          db := db.(grants := db.grants - {k});
        }
        Record(DeclineModule(u, name));
      } else {
        var k := OrgUser(name, u);
        ok := k in db.members && !db.members[k].accepted;
        if ok {
          db := db.(members := db.members - {k});
        }
        Record(DeclineOrg(u, name));
      }
    }

    method SetMemberAccess(allowed: bool, org: string, access: Access) returns (ok: bool)
      requires Valid()
      modifies this
      ensures Did(old(db), old(ops), allowed, Op.SetMemberAccess(org, access), ok)
      ensures ok <==> allowed && org in old(db).orgs
      ensures ok ==> db == old(db).(orgs := old(db).orgs[org := access])
    {
      if !allowed {
        return false;
      }
      ok := org in db.orgs;
      if ok {
        db := db.(orgs := db.orgs[org := access]);
      }
      Record(Op.SetMemberAccess(org, access));
    }

    /** The module and role rows of a publish; the creator's role is given only with a new module. */
    method Publish(allowed: bool, u: string, path: string, namespace: string) returns (ok: bool)
      requires Valid()
      modifies this
      ensures Did(old(db), old(ops), allowed, PublishModule(u, path, namespace), ok)
      ensures ok ==> path in db.modules && (path !in old(db).modules && namespace == u ==> OwnsModule(db, path, u))
    {
      if !allowed {
        return false;
      }
      if path in db.modules {
        Record(PublishModule(u, path, namespace));
        return true;
      }
      ok := u in db.users;
      if ok {
        var tx := db.(modules := db.modules[path := namespace]);
        var role := NoRole;
        if namespace == u {
          role := Owner;
        } else if namespace in tx.orgs && tx.orgs[namespace].MembersNeedTeams? && OrgUser(namespace, u) in tx.members
                  && tx.members[OrgUser(namespace, u)] == Membership(OrgMember, true) {
          role := Maintainer;
        }
        if !role.NoRole? {
          tx := tx.(grants := tx.grants[ModuleUser(path, u) := Grant(role, true)]);
        }
        db := tx;
      }
      Record(PublishModule(u, path, namespace));
    }

    method SetCollaborator(allowed: bool, path: string, user: string, role: Roles.Role) returns (ok: bool)
      requires Valid()
      modifies this
      ensures Did(old(db), old(ops), allowed, Op.SetCollaborator(path, user, role), ok)
      ensures ok ==> path in db.modules && (IsPersonal(db, path) ==> HasModuleOwner(db, path))
      ensures ok ==> ModuleUser(path, user) in db.grants && db.grants[ModuleUser(path, user)].role == role
    {
      if !allowed {
        return false;
      }
      ok := !role.NoRole? && path in db.modules && user in db.users;
      if ok {
        var tx := db;
        var k := ModuleUser(path, user);
        var row := if k in tx.grants then tx.grants[k].(role := role) else Grant(role, false);
        tx := tx.(grants := tx.grants[k := row]);
        NoModuleOwnerCounted(tx, path);
        ok := ModuleOwnerCount(tx, path) != 0 || tx.modules[path] in tx.orgs;
        if ok {
          db := tx;
        }
      }
      Record(Op.SetCollaborator(path, user, role));
    }

    method RemoveCollaborator(allowed: bool, path: string, user: string) returns (ok: bool)
      requires Valid()
      modifies this
      ensures Did(old(db), old(ops), allowed, Op.RemoveCollaborator(path, user), ok)
      ensures ok ==> path in db.modules && (IsPersonal(db, path) ==> HasModuleOwner(db, path)) && ModuleUser(path, user) !in db.grants
    {
      if !allowed {
        return false;
      }
      ok := DropGrant(path, user);
    }

    method LeaveModule(u: string, path: string) returns (ok: bool)
      requires Valid()
      modifies this
      ensures Did(old(db), old(ops), true, Op.RemoveCollaborator(path, u), ok)
      ensures ok ==> path in db.modules && (IsPersonal(db, path) ==> HasModuleOwner(db, path)) && ModuleUser(path, u) !in db.grants
    {
      ok := DropGrant(path, u);
    }

    method DropGrant(path: string, user: string) returns (ok: bool)
      requires Valid()
      modifies this
      ensures Did(old(db), old(ops), true, Op.RemoveCollaborator(path, user), ok)
      ensures ok ==> path in db.modules && (IsPersonal(db, path) ==> HasModuleOwner(db, path)) && ModuleUser(path, user) !in db.grants
    {
      var tx := db;
      ok := path in tx.modules && ModuleUser(path, user) in tx.grants;
      if ok {
        tx := tx.(grants := tx.grants - {ModuleUser(path, user)});
        NoModuleOwnerCounted(tx, path);
        ok := ModuleOwnerCount(tx, path) != 0 || tx.modules[path] in tx.orgs;
        if ok {
          db := tx;
        }
      }
      Record(Op.RemoveCollaborator(path, user));
    }

    /** The membership a team member needs is read in a statement of its own. */
    method CheckTeamMember(org: string, user: string) returns (found: bool)
      requires Valid()
      modifies this
      ensures Did(old(db), old(ops), true, CheckTeamUser(org, user), found)
      ensures found <==> IsMember(old(db), org, user)
    {
      found := OrgUser(org, user) in db.members && db.members[OrgUser(org, user)].accepted;
      if found {
        db := db.(checked := db.checked + {OrgUser(org, user)});
      }
      Record(CheckTeamUser(org, user));
    }

    /** found is what that check found, some time ago. */
    method AddTeamMember(allowed: bool, found: bool, team: Team, user: string) returns (ok: bool)
      requires Valid() && (found ==> OrgUser(team.org, user) in db.checked)
      modifies this
      ensures Did(old(db), old(ops), allowed && found, AddTeamUser(team, user), ok)
      ensures ok <==> allowed && found && team in old(db).teams && user in old(db).users
      ensures ok ==> db == old(db).(teamUsers := old(db).teamUsers + {TeamUser(team, user)})
    {
      if !allowed || !found {
        return false;
      }
      ok := team in db.teams && user in db.users;
      if ok {
        db := db.(teamUsers := db.teamUsers + {TeamUser(team, user)});
      }
      Record(AddTeamUser(team, user));
    }

    method SetTeamModule(allowed: bool, team: Team, path: string, role: Roles.Role) returns (ok: bool)
      requires Valid()
      modifies this
      ensures Did(old(db), old(ops), allowed, Op.SetTeamModule(team, path, role), ok)
      ensures ok ==> path in db.modules && db.modules[path] == team.org && TeamModule(team, path) in db.teamModules
    {
      if !allowed {
        return false;
      }
      ok := !role.NoRole? && team in db.teams && path in db.modules && db.modules[path] == team.org;
      if ok {
        db := db.(teamModules := db.teamModules[TeamModule(team, path) := role]);
      }
      Record(Op.SetTeamModule(team, path, role));
    }

    /** The check before a deletion: it counts the owners of each organization the user owns. */
    method CheckDeletion(u: string) returns (cleared: bool)
      requires Valid()
      modifies this
      ensures Did(old(db), old(ops), true, Op.CheckDeletion(u), cleared)
      ensures cleared <==> DeletionAllowed(old(db), u)
    {
      var last := set org | org in db.orgs && OwnsOrg(db, org, u) && OrgOwnerCount(db, org) == 1;
      forall org | org in db.orgs
        ensures org in last <==> IsLastOrgOwner(db, u, org)
      {
        if OwnsOrg(db, org, u) {
          LastOwnerCounted(db, u, org);
        }
      }
      cleared := u in db.users && last == {};
      assert cleared <==> DeletionAllowed(db, u);
      if cleared {
        db := db.(cleared := db.cleared + {u});
      }
      Record(Op.CheckDeletion(u));
    }

    /** Every row of the user goes; the owners are not counted again. */
    method DeleteAccount(cleared: bool, u: string) returns (ok: bool)
      requires Valid() && (cleared ==> u in db.cleared)
      modifies this
      ensures Did(old(db), old(ops), cleared, Op.DeleteAccount(u), ok)
      ensures ok <==> cleared && u in old(db).users
      ensures ok ==> db == WithoutUser(old(db), u)
    {
      if !cleared {
        return false;
      }
      ok := u in db.users;
      if ok {
        db := WithoutUser(db, u);
      }
      Record(Op.DeleteAccount(u));
    }
  }

  /** Whatever calls were made: whoever has a role on a module acted for it, the listed maintainers are
      exactly those with a role, and every organization has an owner unless a deletion overtook its check. */
  lemma EveryStateIsSafe(r: Registry, user: string, path: string)
    requires r.Valid() && path in r.db.modules
    ensures NeverLosesOwner(r.ops) ==> OrgsHaveOwners(r.db)
    ensures RoleOf(r.db, user, path).NoRole? || ActedOnModule(r.ops, user, path) || ActedOnOrg(r.ops, user, r.db.modules[path])
    ensures user in MaintainersOf(r.db, path) <==> user in r.db.users && RoleOf(r.db, user, path).Rank() >= 1
  {
    hide Run, RoleOf, MaintainersOf, ActedOnModule, ActedOnOrg, OrgsHaveOwners;
    OrgsHaveOwnersIff(r.ops);
    if !RoleOf(r.db, user, path).NoRole? {
      NoRoleWithoutAnAct(r.ops, user, path);
    }
    MaintainersInEveryRun(r.ops, user, path);
  }
}
