/** Users, organizations, teams and repositories, and the role a user has on a repository. */
module Identity {
  import opened Wrappers

  datatype Role = Read | Write | Admin

  function Rank(r: Role): int
  {
    match r
    case Read => 1
    case Write => 2
    case Admin => 3
  }

  datatype OrgRole = Member | Owner

  /** An id with the role it is given. */
  datatype Entry<R> = Entry(id: string, role: R)

  datatype RepoOwner = UserOwner(user: string) | OrgOwner(org: string)

  datatype Object =
    | User(id: string, username: string, email: string)
    | Org(id: string, slug: string, members: seq<Entry<OrgRole>>)
    | Team(id: string, org: string, name: string, memberIds: seq<string>, grants: seq<Entry<Role>>)
    | Repo(id: string, owner: RepoOwner, name: string, private: bool, collaborators: seq<Entry<Role>>)

  datatype Kind = Users | Orgs | Teams | Repos

  datatype Ref = Ref(kind: Kind, id: string)

  function RefOf(o: Object): Ref
  {
    match o
    case User(_, _, _) => Ref(Users, o.id)
    case Org(_, _, _) => Ref(Orgs, o.id)
    case Team(_, _, _, _, _) => Ref(Teams, o.id)
    case Repo(_, _, _, _, _) => Ref(Repos, o.id)
  }

  /** The four maps of the directory as one, keyed by kind and id. */
  type Directory = map<Ref, Object>

  ghost predicate Keyed(dir: Directory)
  {
    forall r :: r in dir ==> RefOf(dir[r]) == r
  }

  datatype Error = NotFound(id: string) | Exists(id: string)

  /** Adding refuses an id in use, except for teams, which are replaced. */
  function Add(dir: Directory, o: Object): Result<Directory, Error>
  {
    if !o.Team? && RefOf(o) in dir then Err(Exists(o.id)) else Ok(dir[RefOf(o) := o])
  }

  function Update(dir: Directory, o: Object): Result<Directory, Error>
  {
    if RefOf(o) in dir then Ok(dir[RefOf(o) := o]) else Err(NotFound(o.id))
  }

  function Remove(dir: Directory, r: Ref): Result<Directory, Error>
  {
    if r in dir then Ok(dir - {r}) else Err(NotFound(r.id))
  }

  // ---------------------------------------------------------------------------------
  // Grants
  // ---------------------------------------------------------------------------------

  /** The role of the first entry for id at or after index i. */
  function FirstRole<R>(entries: seq<Entry<R>>, id: string, i: nat): Option<R>
    decreases |entries| - i
  {
    if i >= |entries| then None
    else if entries[i].id == id then Some(entries[i].role)
    else FirstRole(entries, id, i + 1)
  }

  function RepoAt(dir: Directory, repo: string): Option<Object>
  {
    if Ref(Repos, repo) in dir && dir[Ref(Repos, repo)].Repo? then Some(dir[Ref(Repos, repo)]) else None
  }

  predicate OwnsOrg(dir: Directory, user: string, org: string)
  {
    Ref(Orgs, org) in dir && dir[Ref(Orgs, org)].Org? && FirstRole(dir[Ref(Orgs, org)].members, user, 0) == Some(Owner)
  }

  predicate Owns(dir: Directory, user: string, owner: RepoOwner)
  {
    match owner
    case UserOwner(u) => u == user
    case OrgOwner(org) => OwnsOrg(dir, user, org)
  }

  /** A team of the owning organization with the user as a member. */
  predicate TeamApplies(dir: Directory, user: string, owner: RepoOwner, team: string)
  {
    Ref(Teams, team) in dir && dir[Ref(Teams, team)].Team? && user in dir[Ref(Teams, team)].memberIds &&
    owner == OrgOwner(dir[Ref(Teams, team)].org)
  }

  predicate TeamGives(dir: Directory, user: string, owner: RepoOwner, repo: string, team: string, role: Role)
  {
    TeamApplies(dir, user, owner, team) && Entry(repo, role) in dir[Ref(Teams, team)].grants
  }

  ghost predicate TeamGrants(dir: Directory, user: string, owner: RepoOwner, repo: string, role: Role)
  {
    exists team :: TeamGives(dir, user, owner, repo, team, role)
  }

  /** The user has the role on the repository by owning it, owning its organization, being a
    * collaborator, or being in a team of its organization. */
  ghost predicate Grants(dir: Directory, user: string, repo: string, role: Role)
  {
    match RepoAt(dir, repo)
    case None => false
    case Some(r) =>
      (role == Admin && Owns(dir, user, r.owner)) || Entry(user, role) in r.collaborators ||
      TeamGrants(dir, user, r.owner, repo, role)
  }

  /** best is the greatest role granted, if any is. */
  ghost predicate IsEffective(dir: Directory, user: string, repo: string, best: Option<Role>)
  {
    (forall role :: Grants(dir, user, repo, role) ==> best.Some? && Rank(role) <= Rank(best.value)) &&
    (best.Some? ==> Grants(dir, user, repo, best.value))
  }

  // ---------------------------------------------------------------------------------
  // What grants a role, said on the stored objects
  // ---------------------------------------------------------------------------------

  /** The first of the entries that is about id gives it the role. */
  ghost predicate FirstEntryIs<R>(entries: seq<Entry<R>>, id: string, role: R)
  {
    exists i :: 0 <= i < |entries| && entries[i] == Entry(id, role) && forall j :: 0 <= j < i ==> entries[j].id != id
  }

  lemma {:induction false} FirstRoleIsFirst<R>(entries: seq<Entry<R>>, id: string, role: R, i: nat)
    requires i <= |entries| && forall j :: 0 <= j < i ==> entries[j].id != id
    ensures FirstRole(entries, id, i) == Some(role) <==> FirstEntryIs(entries, id, role)
    decreases |entries| - i
  {
    if i == |entries| {
    } else if entries[i].id == id {
      assert entries[i] == Entry(id, entries[i].role);
    } else {
      FirstRoleIsFirst(entries, id, role, i + 1);
    }
  }

  ghost predicate ByOwning(dir: Directory, user: string, o: Object, role: Role)
    requires o.Repo?
  {
    role == Admin && (
      o.owner == UserOwner(user) ||
      exists ref :: ref in dir && ref.kind == Orgs && dir[ref].Org? && o.owner == OrgOwner(ref.id) &&
        FirstEntryIs(dir[ref].members, user, Owner))
  }

  ghost predicate ByTeam(dir: Directory, user: string, o: Object, repo: string, role: Role)
    requires o.Repo?
  {
    exists ref :: ref in dir && ref.kind == Teams && dir[ref].Team? && o.owner == OrgOwner(dir[ref].org) &&
      user in dir[ref].memberIds && Entry(repo, role) in dir[ref].grants
  }

  /** The repository exists, and the user has the role on it as its owner, as an owner of the
    * organization that owns it, as a collaborator, or through a team of that organization. */
  ghost predicate Holds(dir: Directory, user: string, repo: string, role: Role)
  {
    Ref(Repos, repo) in dir && dir[Ref(Repos, repo)].Repo? &&
    var o := dir[Ref(Repos, repo)];
    ByOwning(dir, user, o, role) || Entry(user, role) in o.collaborators || ByTeam(dir, user, o, repo, role)
  }

  lemma OwnsExactly(dir: Directory, user: string, o: Object)
    requires o.Repo?
    ensures Owns(dir, user, o.owner) <==> ByOwning(dir, user, o, Admin)
  {
    if o.owner.OrgOwner? {
      var ref := Ref(Orgs, o.owner.org);
      if ref in dir && dir[ref].Org? { FirstRoleIsFirst(dir[ref].members, user, Owner, 0); }
      if ByOwning(dir, user, o, Admin) {
        var r :| r in dir && r.kind == Orgs && dir[r].Org? && o.owner == OrgOwner(r.id) &&
          FirstEntryIs(dir[r].members, user, Owner);
        assert r == ref;
      }
    }
  }

  lemma TeamGrantsExactly(dir: Directory, user: string, o: Object, repo: string, role: Role)
    requires o.Repo?
    ensures TeamGrants(dir, user, o.owner, repo, role) <==> ByTeam(dir, user, o, repo, role)
  {
    if ByTeam(dir, user, o, repo, role) {
      var ref :| ref in dir && ref.kind == Teams && dir[ref].Team? && o.owner == OrgOwner(dir[ref].org) &&
        user in dir[ref].memberIds && Entry(repo, role) in dir[ref].grants;
      assert ref == Ref(Teams, ref.id);
      assert TeamGives(dir, user, o.owner, repo, ref.id, role);
    }
  }

  lemma GrantsExactly(dir: Directory, user: string, repo: string, role: Role)
    ensures Grants(dir, user, repo, role) <==> Holds(dir, user, repo, role)
  {
    if RepoAt(dir, repo).Some? {
      var o := RepoAt(dir, repo).value;
      OwnsExactly(dir, user, o);
      TeamGrantsExactly(dir, user, o, repo, role);
    }
  }

  /** The effective role is Admin when Admin is held, else Write when that is, else Read when that
    * is, and else there is none. */
  lemma EffectiveByCases(dir: Directory, user: string, repo: string, best: Option<Role>)
    ensures IsEffective(dir, user, repo, best) <==>
      best ==
      if Holds(dir, user, repo, Admin) then Some(Admin)
      else if Holds(dir, user, repo, Write) then Some(Write)
      else if Holds(dir, user, repo, Read) then Some(Read)
      else None
  {
    GrantsExactly(dir, user, repo, Admin);
    GrantsExactly(dir, user, repo, Write);
    GrantsExactly(dir, user, repo, Read);
    if IsEffective(dir, user, repo, best) {
      assert Grants(dir, user, repo, Admin) ==> best == Some(Admin);
      assert Grants(dir, user, repo, Write) ==> best.Some? && Rank(best.value) >= 2;
      assert Grants(dir, user, repo, Read) ==> best.Some?;
    }
  }

  /** There is only one effective role. */
  lemma EffectiveIsUnique(dir: Directory, user: string, repo: string, a: Option<Role>, b: Option<Role>)
    requires IsEffective(dir, user, repo, a) && IsEffective(dir, user, repo, b)
    ensures a == b
  {
    if a.Some? { assert Grants(dir, user, repo, a.value); }
    if b.Some? { assert Grants(dir, user, repo, b.value); }
  }

  function Bump(best: Option<Role>, r: Role): Option<Role>
  {
    if best.None? || Rank(r) > Rank(best.value) then Some(r) else best
  }

  /** best is the greatest role in the set, if there is one. */
  ghost predicate IsBest(roles: set<Role>, best: Option<Role>)
  {
    (forall r :: r in roles ==> best.Some? && Rank(r) <= Rank(best.value)) && (best.Some? ==> best.value in roles)
  }

  /** Raise best to the greatest role that the entries give to id. */
  method BumpAll(entries: seq<Entry<Role>>, id: string, best0: Option<Role>, ghost roles0: set<Role>)
    returns (best: Option<Role>, ghost roles: set<Role>)
    requires IsBest(roles0, best0)
    ensures IsBest(roles, best)
    ensures forall r :: r in roles <==> r in roles0 || Entry(id, r) in entries
  {
    best, roles := best0, roles0;
    var i := 0;
    while i < |entries|
      invariant 0 <= i <= |entries| && IsBest(roles, best)
      invariant forall r :: r in roles <==> r in roles0 || Entry(id, r) in entries[..i]
    {
      assert entries[..i + 1] == entries[..i] + [entries[i]];
      if entries[i].id == id {
        best, roles := Bump(best, entries[i].role), roles + {entries[i].role};
      }
      i := i + 1;
    }
    assert entries[..i] == entries;
  }

  /** The effective role of a user on a repository. */
  method EffectiveRole(dir: Directory, user: string, repo: string) returns (best: Option<Role>)
    ensures IsEffective(dir, user, repo, best)
  {
    var found := RepoAt(dir, repo);
    if found.None? { return None; }
    var r := found.value;
    ghost var roles: set<Role> := {};
    best := None;
    if Owns(dir, user, r.owner) { best, roles := Bump(best, Admin), {Admin}; }
    best, roles := BumpAll(r.collaborators, user, best, roles);
    ghost var direct := roles;
    var teams := set ref | ref in dir && ref.kind == Teams :: ref.id;
    ghost var all := teams;
    while teams != {}
      invariant teams <= all && IsBest(roles, best)
      invariant forall x ::
        x in roles <==> x in direct || exists t :: t in all - teams && TeamGives(dir, user, r.owner, repo, t, x)
      decreases teams
    {
      var t :| t in teams;
      ghost var before := roles;
      if TeamApplies(dir, user, r.owner, t) {
        best, roles := BumpAll(dir[Ref(Teams, t)].grants, repo, best, roles);
      }
      teams := teams - {t};
      forall x ensures x in roles <==> x in before || TeamGives(dir, user, r.owner, repo, t, x) {
      }
    }
    forall x ensures x in roles <==> Grants(dir, user, repo, x) {
      if TeamGrants(dir, user, r.owner, repo, x) {
        var t :| TeamGives(dir, user, r.owner, repo, t, x);
        assert t in all;
      }
    }
  }

  // ---------------------------------------------------------------------------------
  // Changing grants
  // ---------------------------------------------------------------------------------

  /** The entries of other ids. */
  function Others<R>(entries: seq<Entry<R>>, id: string): seq<Entry<R>>
  {
    if entries == [] then []
    else
      var front, last := Others(entries[..|entries| - 1], id), entries[|entries| - 1];
      if last.id == id then front else front + [last]
  }

  lemma {:induction false} OthersHas<R>(entries: seq<Entry<R>>, id: string, e: Entry<R>)
    ensures e in Others(entries, id) <==> e in entries && e.id != id
  {
    if entries == [] {
    } else {
      OthersHas(entries[..|entries| - 1], id, e);
      assert entries == entries[..|entries| - 1] + [entries[|entries| - 1]];
    }
  }

  /** Replace the entries of id by one. */
  function SetEntry<R>(entries: seq<Entry<R>>, id: string, role: R): seq<Entry<R>>
  {
    Others(entries, id) + [Entry(id, role)]
  }

  function SetCollaborator(dir: Directory, repo: string, user: string, role: Role): Result<Directory, Error>
  {
    match RepoAt(dir, repo)
    case None => Err(NotFound(repo))
    case Some(r) => Update(dir, r.(collaborators := SetEntry(r.collaborators, user, role)))
  }

  function RemoveCollaborator(dir: Directory, repo: string, user: string): Result<Directory, Error>
  {
    match RepoAt(dir, repo)
    case None => Err(NotFound(repo))
    case Some(r) => Update(dir, r.(collaborators := Others(r.collaborators, user)))
  }

  /** Replacing a repository's collaborators leaves owners and teams alone. */
  lemma CollaboratorsOnly(dir: Directory, r: Object, entries: seq<Entry<Role>>, user: string, repo: string, role: Role)
    requires Keyed(dir) && r.Repo? && RefOf(r) in dir && dir[RefOf(r)] == r
    ensures var next := dir[RefOf(r) := r.(collaborators := entries)];
      Grants(next, user, repo, role) <==>
      if repo != r.id then Grants(dir, user, repo, role)
      else
        (role == Admin && Owns(dir, user, r.owner)) || Entry(user, role) in entries ||
        TeamGrants(dir, user, r.owner, repo, role)
  {
    var next := dir[RefOf(r) := r.(collaborators := entries)];
    if RepoAt(dir, repo).Some? {
      var owner := RepoAt(dir, repo).value.owner;
      forall team
        ensures TeamGives(next, user, owner, repo, team, role) <==> TeamGives(dir, user, owner, repo, team, role)
      {
      }
      assert TeamGrants(next, user, owner, repo, role) <==> TeamGrants(dir, user, owner, repo, role);
    }
  }

  /** A collaborator's role replaces what collaboration gave that user on that repository, and
    * changes nothing for anyone else or anywhere else. */
  lemma SetCollaboratorGrants(dir: Directory, repo: string, user: string, role: Role, u: string, r: string, g: Role)
    requires Keyed(dir) && RepoAt(dir, repo).Some?
    ensures SetCollaborator(dir, repo, user, role).Ok?
    ensures var next := SetCollaborator(dir, repo, user, role).value;
      var owner := RepoAt(dir, repo).value.owner;
      Grants(next, u, r, g) <==>
      if (u, r) != (user, repo) then Grants(dir, u, r, g)
      else g == role || (g == Admin && Owns(dir, user, owner)) || TeamGrants(dir, user, owner, repo, g)
  {
    var o := RepoAt(dir, repo).value;
    OthersHas(o.collaborators, user, Entry(u, g));
    CollaboratorsOnly(dir, o, SetEntry(o.collaborators, user, role), u, r, g);
  }

  /** Removing a collaborator takes away what collaboration gave that user on that repository. */
  lemma RemoveCollaboratorGrants(dir: Directory, repo: string, user: string, u: string, r: string, g: Role)
    requires Keyed(dir) && RepoAt(dir, repo).Some?
    ensures RemoveCollaborator(dir, repo, user).Ok?
    ensures var next := RemoveCollaborator(dir, repo, user).value;
      var owner := RepoAt(dir, repo).value.owner;
      Grants(next, u, r, g) <==>
      if (u, r) != (user, repo) then Grants(dir, u, r, g)
      else (g == Admin && Owns(dir, user, owner)) || TeamGrants(dir, user, owner, repo, g)
  {
    var o := RepoAt(dir, repo).value;
    OthersHas(o.collaborators, user, Entry(u, g));
    CollaboratorsOnly(dir, o, Others(o.collaborators, user), u, r, g);
  }

  /** Setting a collaborator changes the effective role of that user on that repository only. */
  lemma SetCollaboratorIsLocal(
    dir: Directory, repo: string, user: string, role: Role, u: string, r: string, best: Option<Role>)
    requires Keyed(dir) && RepoAt(dir, repo).Some? && (u, r) != (user, repo)
    ensures var next := SetCollaborator(dir, repo, user, role).value;
      IsEffective(next, u, r, best) <==> IsEffective(dir, u, r, best)
  {
    forall g ensures Grants(SetCollaborator(dir, repo, user, role).value, u, r, g) <==> Grants(dir, u, r, g) {
      SetCollaboratorGrants(dir, repo, user, role, u, r, g);
    }
  }
}
