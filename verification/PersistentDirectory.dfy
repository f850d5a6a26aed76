/** The directory written through to the store, and rebuilt from it. Writes succeed. */
module PersistentDirectory {
  import opened Wrappers
  import opened Lists
  import opened Distinct
  import opened Identity

  // ---------------------------------------------------------------------------------
  // The store
  // ---------------------------------------------------------------------------------

  type Indexes = map<Kind, seq<string>>

  /** The objects under their keys, and the index of ids of each kind. */
  datatype Store = Store(objects: map<Ref, Object>, indexes: Indexes)

  datatype Key = ObjectKey(ref: Ref) | IndexKey(kind: Kind)

  function KindName(k: Kind): string
  {
    match k
    case Users => "user"
    case Orgs => "org"
    case Teams => "team"
    case Repos => "repo"
  }

  function KeyString(k: Key): string
  {
    match k
    case ObjectKey(r) => KindName(r.kind) + "/" + r.id
    case IndexKey(k) => "index/" + KindName(k) + "s"
  }

  /** Objects and indexes are stored under distinct names. */
  lemma KeyStringInjective(a: Key, b: Key)
    requires KeyString(a) == KeyString(b)
    ensures a == b
  {
    var s, t := KeyString(a), KeyString(b);
    assert s[0] == t[0];
    if a.ObjectKey? && b.ObjectKey? {
      var n := |KindName(a.ref.kind)|;
      assert a.ref.kind == b.ref.kind;
      assert s[n + 1..] == a.ref.id && t[n + 1..] == b.ref.id;
    } else if a.IndexKey? && b.IndexKey? {
      assert s[6] == KindName(a.kind)[0] && t[6] == KindName(b.kind)[0];
    }
  }

  function Index(indexes: Indexes, k: Kind): seq<string>
  {
    if k in indexes then indexes[k] else []
  }

  /** The cache is what the store holds, and each index lists its kind's ids once. */
  ghost predicate InStep(dir: Directory, s: Store)
  {
    dir == s.objects && Keyed(dir) && Listed(s)
  }

  ghost predicate Listed(s: Store)
  {
    (forall k :: NoDup(Index(s.indexes, k))) &&
    (forall k, id :: id in Index(s.indexes, k) <==> Ref(k, id) in s.objects)
  }

  function AddToIndex(indexes: Indexes, r: Ref): Indexes
  {
    var ids := Index(indexes, r.kind);
    if r.id in ids then indexes else indexes[r.kind := ids + [r.id]]
  }

  function RemoveFromIndex(indexes: Indexes, r: Ref): Indexes
  {
    indexes[r.kind := Without(Index(indexes, r.kind), r.id)]
  }

  lemma AddKeepsListed(s: Store, o: Object)
    requires Listed(s)
    ensures Listed(Store(s.objects[RefOf(o) := o], AddToIndex(s.indexes, RefOf(o))))
  {
    var r := RefOf(o);
    var ids := Index(s.indexes, r.kind);
    if r.id !in ids { PushHasNoDup(ids, r.id); }
    var next := Store(s.objects[r := o], AddToIndex(s.indexes, r));
    forall k ensures NoDup(Index(next.indexes, k)) {
      assert NoDup(Index(s.indexes, k));
    }
    forall k, id ensures id in Index(next.indexes, k) <==> Ref(k, id) in next.objects {
      assert id in Index(s.indexes, k) <==> Ref(k, id) in s.objects;
    }
  }

  lemma UpdateKeepsListed(s: Store, o: Object)
    requires Listed(s) && RefOf(o) in s.objects
    ensures Listed(s.(objects := s.objects[RefOf(o) := o]))
  {
    var next := s.(objects := s.objects[RefOf(o) := o]);
    forall k, id ensures id in Index(next.indexes, k) <==> Ref(k, id) in next.objects {
      assert id in Index(s.indexes, k) <==> Ref(k, id) in s.objects;
    }
  }

  lemma RemoveKeepsListed(s: Store, r: Ref)
    requires Listed(s)
    ensures Listed(Store(s.objects - {r}, RemoveFromIndex(s.indexes, r)))
  {
    var ids := Index(s.indexes, r.kind);
    WithoutHas(ids, r.id);
    WithoutHasNoDup(ids, r.id);
    var next := Store(s.objects - {r}, RemoveFromIndex(s.indexes, r));
    forall k ensures NoDup(Index(next.indexes, k)) {
      assert NoDup(Index(s.indexes, k));
    }
    forall k, id ensures id in Index(next.indexes, k) <==> Ref(k, id) in next.objects {
      assert id in Index(s.indexes, k) <==> Ref(k, id) in s.objects;
    }
  }

  // ---------------------------------------------------------------------------------
  // Opening
  // ---------------------------------------------------------------------------------

  type IdLoader = (string, Directory) -> Result<Directory, Error>

  /** Load the first n ids into dir. */
  function LoadIds(load: IdLoader, ids: seq<string>, n: nat, dir: Directory): Result<Directory, Error>
    requires n <= |ids|
  {
    if n == 0 then Ok(dir)
    else
      match LoadIds(load, ids, n - 1, dir)
      case Err(e) => Err(e)
      case Ok(d) => load(ids[n - 1], d)
  }

  /** Read an object and add it; an id without an object is skipped. */
  function LoadOne(s: Store, r: Ref, dir: Directory): Result<Directory, Error>
  {
    if r in s.objects then Add(dir, s.objects[r]) else Ok(dir)
  }

  function LoadId(s: Store, kind: Kind): IdLoader
  {
    (id, dir) => LoadOne(s, Ref(kind, id), dir)
  }

  function LoadKind(s: Store, kind: Kind, dir: Result<Directory, Error>): Result<Directory, Error>
  {
    match dir
    case Err(e) => Err(e)
    case Ok(d) => LoadIds(LoadId(s, kind), Index(s.indexes, kind), |Index(s.indexes, kind)|, d)
  }

  type Loader = (Kind, Result<Directory, Error>) -> Result<Directory, Error>

  function KindLoader(s: Store): Loader
  {
    (kind, dir) => LoadKind(s, kind, dir)
  }

  /** Read the kinds one after the other. */
  function LoadAll(load: Loader): Result<Directory, Error>
  {
    load(Repos, load(Teams, load(Orgs, load(Users, Ok(map[])))))
  }

  function Load(s: Store): Result<Directory, Error>
  {
    LoadAll(KindLoader(s))
  }

  method ReadKind(s: Store, kind: Kind, dir: Directory) returns (r: Result<Directory, Error>)
    ensures r == LoadKind(s, kind, Ok(dir))
  {
    var load, ids := LoadId(s, kind), Index(s.indexes, kind);
    var d := dir;
    var n := 0;
    while n < |ids|
      invariant 0 <= n <= |ids| && LoadIds(load, ids, n, dir) == Ok(d)
    {
      var next := load(ids[n], d);
      n := n + 1;
      if next.Err? {
        ErrorSticks(load, ids, n, dir);
        return next;
      }
      d := next.value;
    }
    r := Ok(d);
  }

  lemma {:induction false} ErrorSticks(load: IdLoader, ids: seq<string>, n: nat, dir: Directory)
    requires n <= |ids| && LoadIds(load, ids, n, dir).Err?
    ensures LoadIds(load, ids, |ids|, dir) == LoadIds(load, ids, n, dir)
    decreases |ids| - n
  {
    if n == |ids| {
    } else {
      ErrorSticks(load, ids, n + 1, dir);
    }
  }

  /** Rebuild the directory from the store. */
  method Open(s: Store) returns (r: Result<Directory, Error>)
    ensures r == Load(s)
  {
    r := ReadKind(s, Users, map[]);
    if r.Err? { return; }
    r := ReadKind(s, Orgs, r.value);
    if r.Err? { return; }
    r := ReadKind(s, Teams, r.value);
    if r.Err? { return; }
    r := ReadKind(s, Repos, r.value);
  }

  /** The order in which kinds are read. */
  function Place(k: Kind): nat
  {
    match k
    case Users => 0
    case Orgs => 1
    case Teams => 2
    case Repos => 3
  }

  /** The objects of the kinds read before, and those among ids of the kind being read. */
  function Part(objects: map<Ref, Object>, n: nat, ids: seq<string>): Directory
  {
    map r | r in objects && (Place(r.kind) < n || (Place(r.kind) == n && r.id in ids)) :: objects[r]
  }

  lemma LoadOneIsPart(s: Store, kind: Kind, ids: seq<string>, id: string)
    requires Keyed(s.objects) && Ref(kind, id) in s.objects && id !in ids
    ensures LoadOne(s, Ref(kind, id), Part(s.objects, Place(kind), ids)) == Ok(Part(s.objects, Place(kind), ids + [id]))
  {
    var r := Ref(kind, id);
    assert Part(s.objects, Place(kind), ids + [id]) == Part(s.objects, Place(kind), ids)[r := s.objects[r]];
  }

  lemma {:induction false} LoadIdsIsPart(load: IdLoader, ids: seq<string>, n: nat, part: nat -> Directory)
    requires n <= |ids| && forall i: nat :: i < |ids| ==> load(ids[i], part(i)) == Ok(part(i + 1))
    ensures LoadIds(load, ids, n, part(0)) == Ok(part(n))
  {
    if n == 0 {
    } else {
      LoadIdsIsPart(load, ids, n - 1, part);
    }
  }

  lemma {:induction false} NotBefore(ids: seq<string>, i: nat)
    requires NoDup(ids) && i < |ids|
    ensures ids[i] !in ids[..i]
    decreases |ids|
  {
    if i == |ids| - 1 {
    } else {
      NotBefore(ids[..|ids| - 1], i);
      assert ids[..|ids| - 1][..i] == ids[..i];
    }
  }

  lemma WholeKindIsPart(objects: map<Ref, Object>, kind: Kind, ids: seq<string>)
    requires forall r :: r in objects && r.kind == kind ==> r.id in ids
    ensures Part(objects, Place(kind), ids) == Part(objects, Place(kind) + 1, [])
  {
  }

  lemma LoadKindIsPart(s: Store, kind: Kind)
    requires Keyed(s.objects) && Listed(s)
    ensures LoadKind(s, kind, Ok(Part(s.objects, Place(kind), []))) == Ok(Part(s.objects, Place(kind) + 1, []))
  {
    var load, ids := LoadId(s, kind), Index(s.indexes, kind);
    var part := (n: nat) => Part(s.objects, Place(kind), if n <= |ids| then ids[..n] else []);
    forall i: nat | i < |ids| ensures load(ids[i], part(i)) == Ok(part(i + 1)) {
      NotBefore(ids, i);
      assert ids[..i + 1] == ids[..i] + [ids[i]];
      assert ids[i] in ids;
      LoadOneIsPart(s, kind, ids[..i], ids[i]);
    }
    LoadIdsIsPart(load, ids, |ids|, part);
    assert ids[..0] == [] && ids[..|ids|] == ids;
    forall r | r in s.objects && r.kind == kind ensures r.id in ids {
      assert r == Ref(kind, r.id);
    }
    WholeKindIsPart(s.objects, kind, ids);
  }

  lemma LoadAllIsPart(load: Loader, part: nat -> Directory)
    requires part(0) == map[] && forall k :: load(k, Ok(part(Place(k)))) == Ok(part(Place(k) + 1))
    ensures LoadAll(load) == Ok(part(4))
  {
    assert load(Users, Ok(part(Place(Users)))) == Ok(part(1));
    assert load(Orgs, Ok(part(Place(Orgs)))) == Ok(part(2));
    assert load(Teams, Ok(part(Place(Teams)))) == Ok(part(3));
    assert load(Repos, Ok(part(Place(Repos)))) == Ok(part(4));
  }

  /** Reopening rebuilds the directory as it was. */
  lemma ReopenIsIdentical(dir: Directory, s: Store)
    requires InStep(dir, s)
    ensures Load(s) == Ok(dir)
  {
    var load, part := KindLoader(s), (n: nat) => Part(s.objects, n, []);
    assert Part(s.objects, 0, []) == map[] && Part(s.objects, 4, []) == s.objects;
    forall k ensures load(k, Ok(part(Place(k)))) == Ok(part(Place(k) + 1)) {
      LoadKindIsPart(s, k);
    }
    LoadAllIsPart(load, part);
  }

  // ---------------------------------------------------------------------------------
  // Runs
  // ---------------------------------------------------------------------------------

  datatype State = State(dir: Directory, store: Store)

  /** Creating, replacing and deleting an object of any kind, changing a repository's
    * collaborators, and opening the store again. */
  datatype Op =
    | Create(o: Object)
    | Replace(o: Object)
    | Delete(ref: Ref)
    | SetCollaboratorRole(repo: string, user: string, role: Role)
    | DropCollaborator(repo: string, user: string)
    | Reopen

  /** The change to the directory, or the error with which nothing changes. */
  function Change(s: State, op: Op): Result<Directory, Error>
  {
    match op
    case Create(o) => Add(s.dir, o)
    case Replace(o) => Update(s.dir, o)
    case Delete(ref) => Remove(s.dir, ref)
    case SetCollaboratorRole(repo, user, role) => SetCollaborator(s.dir, repo, user, role)
    case DropCollaborator(repo, user) => RemoveCollaborator(s.dir, repo, user)
    case Reopen => Load(s.store)
  }

  function Put(store: Store, o: Object): Store
  {
    store.(objects := store.objects[RefOf(o) := o])
  }

  /** What is written through along with a change that succeeds. */
  function Written(s: State, op: Op): Store
  {
    match op
    case Create(o) => Store(s.store.objects[RefOf(o) := o], AddToIndex(s.store.indexes, RefOf(o)))
    case Replace(o) => Put(s.store, o)
    case Delete(ref) => Store(s.store.objects - {ref}, RemoveFromIndex(s.store.indexes, ref))
    case SetCollaboratorRole(repo, user, role) =>
      (match RepoAt(s.dir, repo)
       case None => s.store
       case Some(r) => Put(s.store, r.(collaborators := SetEntry(r.collaborators, user, role))))
    case DropCollaborator(repo, user) =>
      (match RepoAt(s.dir, repo)
       case None => s.store
       case Some(r) => Put(s.store, r.(collaborators := Others(r.collaborators, user))))
    case Reopen => s.store
  }

  function Apply(s: State, op: Op): State
  {
    match Change(s, op)
    case Err(_) => s
    case Ok(dir) => State(dir, Written(s, op))
  }

  function Run(s: State, ops: List<Op>): State
    decreases ops
  {
    match ops
    case Nil => s
    case Cons(op, t) => Run(Apply(s, op), t)
  }

  lemma ReplaceKeepsInStep(s: State, o: Object)
    requires InStep(s.dir, s.store)
    ensures var next := Apply(s, Replace(o)); InStep(next.dir, next.store)
  {
    if RefOf(o) in s.dir { UpdateKeepsListed(s.store, o); }
  }

  lemma CreateKeepsInStep(s: State, o: Object)
    requires InStep(s.dir, s.store)
    ensures var next := Apply(s, Create(o)); InStep(next.dir, next.store)
  {
    AddKeepsListed(s.store, o);
  }

  lemma DeleteKeepsInStep(s: State, ref: Ref)
    requires InStep(s.dir, s.store)
    ensures var next := Apply(s, Delete(ref)); InStep(next.dir, next.store)
  {
    RemoveKeepsListed(s.store, ref);
  }

  lemma CollaboratorKeepsInStep(s: State, op: Op)
    requires InStep(s.dir, s.store) && (op.SetCollaboratorRole? || op.DropCollaborator?)
    ensures var next := Apply(s, op); InStep(next.dir, next.store)
  {
    var found := RepoAt(s.dir, op.repo);
    if found.Some? {
      var entries := found.value.collaborators;
      var changed := if op.SetCollaboratorRole? then SetEntry(entries, op.user, op.role) else Others(entries, op.user);
      ReplaceKeepsInStep(s, found.value.(collaborators := changed));
    }
  }

  lemma ApplyKeepsInStep(s: State, op: Op)
    requires InStep(s.dir, s.store)
    ensures var next := Apply(s, op); InStep(next.dir, next.store)
  {
    match op
    case Create(o) => CreateKeepsInStep(s, o);
    case Replace(o) => ReplaceKeepsInStep(s, o);
    case Delete(ref) => DeleteKeepsInStep(s, ref);
    case Reopen => ReopenIsIdentical(s.dir, s.store);
    case _ => CollaboratorKeepsInStep(s, op);
  }

  /** After any run from an empty store, the indexes list every object once, and opening the
    * store again gives the directory that is in memory. */
  lemma RunStaysInStep(ops: List<Op>)
    ensures var s := Run(State(map[], Store(map[], map[])), ops);
      InStep(s.dir, s.store) && Load(s.store) == Ok(s.dir)
  {
    RunKeepsInStep(State(map[], Store(map[], map[])), ops);
    var s := Run(State(map[], Store(map[], map[])), ops);
    ReopenIsIdentical(s.dir, s.store);
  }

  lemma {:induction false} RunKeepsInStep(s: State, ops: List<Op>)
    requires InStep(s.dir, s.store)
    ensures var end := Run(s, ops); InStep(end.dir, end.store)
    decreases ops
  {
    if ops == Nil {
    } else {
      ApplyKeepsInStep(s, ops.head);
      RunKeepsInStep(Apply(s, ops.head), ops.tail);
    }
  }

  // ---------------------------------------------------------------------------------
  // The directory as it runs
  // ---------------------------------------------------------------------------------

  /** The answer to a change. */
  function Answer(change: Result<Directory, Error>): Result<(), Error>
  {
    match change
    case Ok(_) => Ok(())
    case Err(e) => Err(e)
  }

  /** The two states differ at most in what they hold for ref. */
  ghost predicate SameBut(s: State, t: State, ref: Ref)
  {
    forall r :: r != ref ==>
      (r in t.dir <==> r in s.dir) && (r in s.dir ==> t.dir[r] == s.dir[r]) &&
      (r in t.store.objects <==> r in s.store.objects) &&
      (r in s.store.objects ==> t.store.objects[r] == s.store.objects[r])
  }

  /** The object is what both the cache and the store hold for ref. */
  predicate HoldsObject(s: State, ref: Ref, o: Object)
  {
    ref in s.dir && s.dir[ref] == o && ref in s.store.objects && s.store.objects[ref] == o
  }

  /** Creating a user, an organization or a repository under an id in use answers that it exists
    * and changes nothing; a team under an id in use is replaced. Otherwise the object is there
    * and in its index, and every other object is as it was. */
  lemma CreateExactly(s: State, o: Object)
    requires InStep(s.dir, s.store)
    ensures var next, answer := Apply(s, Create(o)), Answer(Change(s, Create(o)));
      if RefOf(o) in s.dir && (o.User? || o.Org? || o.Repo?) then answer == Err(Exists(o.id)) && next == s
      else
        answer == Ok(()) && HoldsObject(next, RefOf(o), o) && SameBut(s, next, RefOf(o)) &&
        o.id in Index(next.store.indexes, RefOf(o).kind)
  {
    CreateKeepsInStep(s, o);
    var next := Apply(s, Create(o));
    assert Listed(next.store);
    assert RefOf(o) == Ref(RefOf(o).kind, o.id);
  }

  /** Replacing needs the object to be there, and changes no other. */
  lemma ReplaceExactly(s: State, o: Object)
    requires InStep(s.dir, s.store)
    ensures var next, answer := Apply(s, Replace(o)), Answer(Change(s, Replace(o)));
      if RefOf(o) !in s.dir then answer == Err(NotFound(o.id)) && next == s
      else
        answer == Ok(()) && HoldsObject(next, RefOf(o), o) && SameBut(s, next, RefOf(o)) &&
        next.store.indexes == s.store.indexes
  {
  }

  /** Deleting needs the object to be there; it is then gone from the cache, from the store and
    * from its index, and every other object is as it was. */
  lemma DeleteExactly(s: State, ref: Ref)
    requires InStep(s.dir, s.store)
    ensures var next, answer := Apply(s, Delete(ref)), Answer(Change(s, Delete(ref)));
      if ref !in s.dir then answer == Err(NotFound(ref.id)) && next == s
      else
        answer == Ok(()) && ref !in next.dir && ref !in next.store.objects && SameBut(s, next, ref) &&
        ref.id !in Index(next.store.indexes, ref.kind)
  {
    DeleteKeepsInStep(s, ref);
    assert Listed(Apply(s, Delete(ref)).store);
    assert ref == Ref(ref.kind, ref.id);
  }

  class Persistent {
    var dir: Directory
    var store: Store

    function Now(): State
      reads this
    {
      State(dir, store)
    }

    ghost predicate Valid()
      reads this
    {
      InStep(dir, store)
    }

    constructor (dir: Directory, store: Store)
      ensures Now() == State(dir, store)
    {
      this.dir, this.store := dir, store;
    }

    /** Open a store: the cache becomes what it loads as. A store in step, such as an empty one or
      * one left by any run, opens in step. */
    static method OpenStore(store: Store) returns (r: Result<Persistent, Error>)
      ensures r.Ok? <==> Load(store).Ok?
      ensures r.Ok? ==> fresh(r.value) && r.value.Now() == State(Load(store).value, store)
      ensures r.Err? ==> Load(store) == Err(r.error)
      ensures InStep(store.objects, store) ==> r.Ok? && r.value.Valid()
    {
      if InStep(store.objects, store) { ReopenIsIdentical(store.objects, store); }
      var loaded := Open(store);
      if loaded.Err? { return Err(loaded.error); }
      var directory := new Persistent(loaded.value, store);
      r := Ok(directory);
    }

    method CreateObject(o: Object) returns (r: Result<(), Error>)
      requires Valid()
      modifies this
      ensures Valid() && Now() == Apply(old(Now()), Create(o)) && r == Answer(Change(old(Now()), Create(o)))
    {
      ApplyKeepsInStep(Now(), Create(o));
      if !o.Team? && RefOf(o) in dir { return Err(Exists(o.id)); }
      dir := dir[RefOf(o) := o];
      store := store.(objects := store.objects[RefOf(o) := o]);
      AddId(RefOf(o));
      r := Ok(());
    }

    method AddId(ref: Ref)
      modifies `store
      ensures store == old(store).(indexes := AddToIndex(old(store).indexes, ref))
    {
      var ids := Index(store.indexes, ref.kind);
      if ref.id !in ids { store := store.(indexes := store.indexes[ref.kind := ids + [ref.id]]); }
    }

    method ReplaceObject(o: Object) returns (r: Result<(), Error>)
      requires Valid()
      modifies this
      ensures Valid() && Now() == Apply(old(Now()), Replace(o)) && r == Answer(Change(old(Now()), Replace(o)))
    {
      ApplyKeepsInStep(Now(), Replace(o));
      if RefOf(o) !in dir { return Err(NotFound(o.id)); }
      dir := dir[RefOf(o) := o];
      store := store.(objects := store.objects[RefOf(o) := o]);
      r := Ok(());
    }

    method DeleteObject(ref: Ref) returns (r: Result<(), Error>)
      requires Valid()
      modifies this
      ensures Valid() && Now() == Apply(old(Now()), Delete(ref)) && r == Answer(Change(old(Now()), Delete(ref)))
    {
      ApplyKeepsInStep(Now(), Delete(ref));
      if ref !in dir { return Err(NotFound(ref.id)); }
      dir := dir - {ref};
      store := store.(objects := store.objects - {ref});
      store := store.(indexes := RemoveFromIndex(store.indexes, ref));
      r := Ok(());
    }

    method SetRepoCollaborator(repo: string, user: string, role: Role) returns (r: Result<(), Error>)
      requires Valid()
      modifies this
      ensures Valid() && Now() == Apply(old(Now()), SetCollaboratorRole(repo, user, role))
      ensures r == Answer(Change(old(Now()), SetCollaboratorRole(repo, user, role)))
    {
      var found := RepoAt(dir, repo);
      if found.None? { return Err(NotFound(repo)); }
      r := ReplaceObject(found.value.(collaborators := SetEntry(found.value.collaborators, user, role)));
    }

    method RemoveRepoCollaborator(repo: string, user: string) returns (r: Result<(), Error>)
      requires Valid()
      modifies this
      ensures Valid() && Now() == Apply(old(Now()), DropCollaborator(repo, user))
      ensures r == Answer(Change(old(Now()), DropCollaborator(repo, user)))
    {
      var found := RepoAt(dir, repo);
      if found.None? { return Err(NotFound(repo)); }
      r := ReplaceObject(found.value.(collaborators := Others(found.value.collaborators, user)));
    }
  }
}
