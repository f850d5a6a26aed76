/** Incremental sealing of a git repository into the encrypted store, and restoring it.
  *
  * Git is an immutable link function on object ids; a repository is a set of objects, a ref
  * map and a HEAD. A bundle holds the objects reachable from the refs and not from the
  * excluded ids. The store is a map from object keys to what was put there.
  */
module GitSeal {
  import opened Wrappers
  import opened StoreKeys

  type Oid = string
  type Refs = map<string, Oid>

  /** links(o) are the objects o names; size(b) is the length of bundle b in bytes. */
  datatype Git = Git(links: Oid -> set<Oid>, size: Bundle -> nat, defaultHead: string)

  datatype Repo = Repo(objects: set<Oid>, refs: Refs, head: Option<string>)

  datatype Bundle = Bundle(pack: set<Oid>, prerequisites: set<Oid>, refs: Refs, head: Option<string>)

  // ---------------------------------------------------------------------------------
  // Reachability
  // ---------------------------------------------------------------------------------

  ghost predicate Closed(g: Git, s: set<Oid>)
  {
    forall o :: o in s ==> g.links(o) <= s
  }

  /** A repository git can work with: no object or ref names a missing object. */
  ghost predicate WellFormed(g: Git, r: Repo)
  {
    Closed(g, r.objects) && r.refs.Values <= r.objects
  }

  function LinkedFrom(g: Git, s: set<Oid>): set<Oid>
  {
    set o, p | o in s && p in g.links(o) :: p
  }

  /** The objects of `within` that can be reached from `from`. */
  function Reach(g: Git, within: set<Oid>, from: set<Oid>): (r: set<Oid>)
    requires from <= within
    decreases within - from
  {
    var next := from + LinkedFrom(g, from) * within;
    if next == from then from
    else
      assert within - next < within - from;
      Reach(g, within, next)
  }

  lemma {:induction false} ReachIsClosed(g: Git, within: set<Oid>, from: set<Oid>)
    requires from <= within && Closed(g, within)
    ensures from <= Reach(g, within, from) <= within && Closed(g, Reach(g, within, from))
    decreases within - from
  {
    var next := from + LinkedFrom(g, from) * within;
    if next != from {
      assert within - next < within - from;
      ReachIsClosed(g, within, next);
    } else {
      forall o | o in from ensures g.links(o) <= from {
        forall p | p in g.links(o) ensures p in from { assert p in LinkedFrom(g, from); }
      }
    }
  }

  lemma {:induction false} ReachIsLeast(g: Git, within: set<Oid>, from: set<Oid>, closed: set<Oid>)
    requires from <= within && from <= closed && Closed(g, closed)
    ensures Reach(g, within, from) <= closed
    decreases within - from
  {
    var next := from + LinkedFrom(g, from) * within;
    if next == from {
    } else {
      assert within - next < within - from;
      ReachIsLeast(g, within, next, closed);
    }
  }

  ghost predicate IsPath(g: Git, path: seq<Oid>)
  {
    path != [] && forall i :: 0 <= i < |path| - 1 ==> path[i + 1] in g.links(path[i])
  }

  ghost predicate Leads(g: Git, path: seq<Oid>, from: set<Oid>, o: Oid)
  {
    IsPath(g, path) && path[0] in from && path[|path| - 1] == o
  }

  /** Reach finds exactly the objects some chain of links leads to. */
  lemma ReachIsPaths(g: Git, within: set<Oid>, from: set<Oid>, o: Oid)
    requires from <= within && Closed(g, within)
    ensures o in Reach(g, within, from) <==> exists path :: Leads(g, path, from, o)
  {
    ReachIsClosed(g, within, from);
    if exists path :: Leads(g, path, from, o) {
      var path :| Leads(g, path, from, o);
      PathStaysInside(g, path, Reach(g, within, from), |path| - 1);
    }
    var found := set x | x in within && Led(g, from, x);
    forall x | x in from ensures x in found { assert Leads(g, [x], from, x); }
    LedIsClosed(g, within, from, found);
    ReachIsLeast(g, within, from, found);
  }

  ghost predicate Led(g: Git, from: set<Oid>, o: Oid)
  {
    exists path :: Leads(g, path, from, o)
  }

  lemma LedIsClosed(g: Git, within: set<Oid>, from: set<Oid>, found: set<Oid>)
    requires Closed(g, within) && forall x :: x in found <==> x in within && Led(g, from, x)
    ensures Closed(g, found)
  {
    forall x, y | x in found && y in g.links(x) ensures y in found {
      var path :| Leads(g, path, from, x);
      assert Leads(g, path + [y], from, y);
    }
  }

  lemma {:induction false} PathStaysInside(g: Git, path: seq<Oid>, s: set<Oid>, i: nat)
    requires IsPath(g, path) && Closed(g, s) && path[0] in s && i < |path|
    ensures path[i] in s
  {
    if i == 0 {
    } else {
      PathStaysInside(g, path, s, i - 1);
    }
  }

  // ---------------------------------------------------------------------------------
  // Git commands
  // ---------------------------------------------------------------------------------

  /** The objects `rev-list --objects --all --not exclude` lists. */
  function NewObjects(g: Git, r: Repo, exclude: set<Oid>): set<Oid>
    requires r.refs.Values <= r.objects && exclude <= r.objects
  {
    Reach(g, r.objects, r.refs.Values) - Reach(g, r.objects, exclude)
  }

  /** `bundle create --all --not exclude`: git refuses to create an empty bundle. */
  function BundleCreate(g: Git, r: Repo, exclude: set<Oid>): Option<Bundle>
    requires r.refs.Values <= r.objects && exclude <= r.objects
  {
    var pack := NewObjects(g, r, exclude);
    if pack == {} then None else Some(Bundle(pack, LinkedFrom(g, pack) - pack, r.refs, r.head))
  }

  /** `bundle unbundle`: every prerequisite must be there, with all it reaches. */
  function Unbundle(g: Git, objects: set<Oid>, b: Bundle): Option<set<Oid>>
  {
    if b.prerequisites <= objects && LinkedFrom(g, Reach(g, objects, b.prerequisites)) <= objects
    then Some(objects + b.pack) else None
  }

  /** What `clone --bare` of a bundle copies: branches and tags. */
  predicate Cloned(name: string)
  {
    "refs/heads/" <= name || "refs/tags/" <= name
  }

  function CloneBare(b: Bundle): Option<Repo>
  {
    if b.prerequisites != {} then None
    else Some(Repo(b.pack, map n | n in b.refs && Cloned(n) :: b.refs[n], b.head))
  }

  // ---------------------------------------------------------------------------------
  // Sealed state
  // ---------------------------------------------------------------------------------

  datatype Segment = Segment(index: nat, hasPayload: bool, size: nat, tips: Refs)

  datatype Manifest = Manifest(head: Option<string>, segments: seq<Segment>)

  datatype Blob = BundleBlob(bundle: Bundle) | ManifestBlob(manifest: Manifest)

  type Store = map<Key, Blob>

  datatype ForgeError = NotFound | GitFailed | BadManifest | SegmentMissing

  function LoadManifest(store: Store): Result<Manifest, ForgeError>
  {
    if ManifestKey !in store then Ok(Manifest(None, []))
    else if store[ManifestKey].ManifestBlob? then Ok(store[ManifestKey].manifest)
    else Err(BadManifest)
  }

  function LastTips(m: Manifest): Refs
  {
    if m.segments == [] then map[] else m.segments[|m.segments| - 1].tips
  }

  function SegmentKeys(segments: seq<Segment>): set<Key>
  {
    set i | 0 <= i < |segments| :: SegmentAt(segments[i].index)
  }

  // ---------------------------------------------------------------------------------
  // Sealing
  // ---------------------------------------------------------------------------------

  /** What the seal writes: the store with its segments changed, and the new segment list. */
  datatype Sealed = Sealed(store: Store, segments: seq<Segment>)

  function WriteBase(g: Git, store: Store, r: Repo, m: Manifest): Result<Sealed, ForgeError>
    requires r.refs.Values <= r.objects
  {
    match BundleCreate(g, r, {})
    case None => Err(GitFailed)
    case Some(b) =>
      Ok(Sealed(
        (store - SegmentKeys(m.segments))[SegmentAt(0) := BundleBlob(b)], [Segment(0, true, g.size(b), r.refs)]))
  }

  function AppendDelta(g: Git, store: Store, r: Repo, m: Manifest): Result<Sealed, ForgeError>
    requires r.refs.Values <= r.objects && m.segments != []
  {
    var next := m.segments[|m.segments| - 1].index + 1;
    var existing := LastTips(m).Values * r.objects;
    if NewObjects(g, r, existing) != {} then
      match BundleCreate(g, r, existing)
      case None => Err(GitFailed)
      case Some(b) =>
        Ok(Sealed(store[SegmentAt(next) := BundleBlob(b)], m.segments + [Segment(next, true, g.size(b), r.refs)]))
    else
      Ok(Sealed(store, m.segments + [Segment(next, false, 0, r.refs)]))
  }

  /** What the seal does after its segments are written. */
  function Finished(store: Store, head: Option<string>, segments: seq<Segment>): Store
  {
    store[ManifestKey := ManifestBlob(Manifest(head, segments))] - {LegacyKey}
  }

  /** seal_to_store as a function: the store afterwards. */
  function Seal(g: Git, maxSegments: nat, store: Store, r: Repo): Result<Store, ForgeError>
    requires r.refs.Values <= r.objects
  {
    match LoadManifest(store)
    case Err(x) => Err(x)
    case Ok(m) =>
      if m.segments != [] && LastTips(m) == r.refs && m.head == r.head then Ok(store)
      else
        var sealed := if m.segments == [] || |m.segments| >= maxSegments then WriteBase(g, store, r, m)
                      else AppendDelta(g, store, r, m);
        match sealed
        case Err(x) => Err(x)
        case Ok(s) => Ok(Finished(s.store, r.head, s.segments))
  }

  // ---------------------------------------------------------------------------------
  // Restoring
  // ---------------------------------------------------------------------------------

  /** Unbundle the payloads of the first n segments into an empty repository. */
  function UnbundleAll(g: Git, store: Store, segments: seq<Segment>, n: nat): Result<set<Oid>, ForgeError>
    requires n <= |segments|
  {
    if n == 0 then Ok({})
    else
      match UnbundleAll(g, store, segments, n - 1)
      case Err(x) => Err(x)
      case Ok(objects) => UnbundleOne(g, store, segments[n - 1], objects)
  }

  function UnbundleOne(g: Git, store: Store, s: Segment, objects: set<Oid>): Result<set<Oid>, ForgeError>
  {
    if !s.hasPayload then Ok(objects)
    else if SegmentAt(s.index) !in store then Err(SegmentMissing)
    else if !store[SegmentAt(s.index)].BundleBlob? then Err(GitFailed)
    else
      match Unbundle(g, objects, store[SegmentAt(s.index)].bundle)
      case None => Err(GitFailed)
      case Some(all) => Ok(all)
  }

  /** restore_from_store as a function: the repository, or None if nothing is sealed. */
  function Restore(g: Git, store: Store): Result<Option<Repo>, ForgeError>
  {
    if ManifestKey !in store then
      if LegacyKey !in store then Ok(None)
      else if !store[LegacyKey].BundleBlob? || CloneBare(store[LegacyKey].bundle).None? then Err(GitFailed)
      else Ok(Some(CloneBare(store[LegacyKey].bundle).value))
    else
      match LoadManifest(store)
      case Err(x) => Err(x)
      case Ok(m) =>
        match UnbundleAll(g, store, m.segments, |m.segments|)
        case Err(x) => Err(x)
        case Ok(objects) =>
          if LastTips(m).Values <= objects
          then Ok(Some(Repo(objects, LastTips(m), if m.head.Some? then m.head else Some(g.defaultHead))))
          else Err(GitFailed)
  }

  function SealedSize(g: Git, store: Store): Result<nat, ForgeError>
  {
    if ManifestKey in store then
      match LoadManifest(store)
      case Err(x) => Err(x)
      case Ok(m) => Ok(TotalSize(m.segments))
    else if LegacyKey in store && store[LegacyKey].BundleBlob? then Ok(g.size(store[LegacyKey].bundle))
    else Ok(0)
  }

  function TotalSize(segments: seq<Segment>): nat
  {
    if segments == [] then 0 else TotalSize(segments[..|segments| - 1]) + segments[|segments| - 1].size
  }

  // ---------------------------------------------------------------------------------
  // What every seal keeps
  // ---------------------------------------------------------------------------------

  /** The sealed segments, unbundled in order, hold a closed set with all the recorded tips. */
  ghost predicate Restorable(g: Git, store: Store, segments: seq<Segment>)
  {
    segments != [] && segments[0].hasPayload &&
    (forall i :: 0 <= i < |segments| ==> segments[i].index == i) &&
    UnbundleAll(g, store, segments, |segments|).Ok? &&
    var objects := UnbundleAll(g, store, segments, |segments|).value;
    Closed(g, objects) && segments[|segments| - 1].tips.Values <= objects
  }

  /** The store restores to the refs and head of r: what a seal of r promises. */
  ghost predicate Holds(g: Git, store: Store, refs: Refs, head: Option<string>)
  {
    ManifestKey in store && store[ManifestKey].ManifestBlob? &&
    var m := store[ManifestKey].manifest;
    Restorable(g, store, m.segments) && LastTips(m) == refs && m.head == head
  }

  lemma {:induction false} UnbundleFrame(g: Git, store: Store, store': Store, segments: seq<Segment>, n: nat)
    requires n <= |segments| && (forall i :: 0 <= i < |segments| ==> segments[i].index == i)
    requires forall i: nat :: i < n ==>
      (SegmentAt(i) in store <==> SegmentAt(i) in store') &&
      (SegmentAt(i) in store ==> store[SegmentAt(i)] == store'[SegmentAt(i)])
    ensures UnbundleAll(g, store, segments, n) == UnbundleAll(g, store', segments, n)
  {
    if n == 0 {
    } else {
      UnbundleFrame(g, store, store', segments, n - 1);
    }
  }

  lemma {:induction false} UnbundlePrefix(g: Git, store: Store, segments: seq<Segment>, more: seq<Segment>, n: nat)
    requires n <= |segments|
    ensures UnbundleAll(g, store, segments + more, n) == UnbundleAll(g, store, segments, n)
  {
    if n == 0 {
    } else {
      UnbundlePrefix(g, store, segments, more, n - 1);
    }
  }

  lemma FullBundle(g: Git, r: Repo, b: Bundle)
    requires WellFormed(g, r) && BundleCreate(g, r, {}) == Some(b)
    ensures b.prerequisites == {} && Closed(g, b.pack) && r.refs.Values <= b.pack
  {
    ReachIsClosed(g, r.objects, r.refs.Values);
    ReachIsLeast(g, r.objects, {}, {});
    assert b.pack == Reach(g, r.objects, r.refs.Values);
  }

  /** A full bundle of a well-formed repository is self-contained. */
  lemma BaseIsRestorable(g: Git, store: Store, r: Repo, b: Bundle)
    requires WellFormed(g, r) && BundleCreate(g, r, {}) == Some(b)
    requires SegmentAt(0) in store && store[SegmentAt(0)] == BundleBlob(b)
    ensures Restorable(g, store, [Segment(0, true, g.size(b), r.refs)])
  {
    FullBundle(g, r, b);
    ClosedUnbundles(g, {}, b);
    var segments := [Segment(0, true, g.size(b), r.refs)];
    assert UnbundleAll(g, store, segments, 0) == Ok({});
    assert {} + b.pack == b.pack;
  }

  /** What the delta leaves out is already sealed: excluded tips are old tips. */
  lemma ExcludedIsSealed(g: Git, r: Repo, existing: set<Oid>, objects: set<Oid>)
    requires WellFormed(g, r) && existing <= r.objects && existing <= objects && Closed(g, objects)
    ensures Reach(g, r.objects, r.refs.Values) <= objects + NewObjects(g, r, existing)
    ensures Closed(g, objects + NewObjects(g, r, existing))
    ensures r.refs.Values <= objects + NewObjects(g, r, existing)
    ensures LinkedFrom(g, NewObjects(g, r, existing)) - NewObjects(g, r, existing) <= objects
  {
    ReachIsClosed(g, r.objects, r.refs.Values);
    ReachIsLeast(g, r.objects, existing, objects);
  }

  lemma ClosedUnbundles(g: Git, objects: set<Oid>, b: Bundle)
    requires Closed(g, objects) && b.prerequisites <= objects
    ensures Unbundle(g, objects, b) == Some(objects + b.pack)
  {
    ReachIsClosed(g, objects, b.prerequisites);
  }

  lemma DeltaIsRestorable(g: Git, store: Store, r: Repo, m: Manifest)
    requires WellFormed(g, r) && Restorable(g, store, m.segments)
    ensures AppendDelta(g, store, r, m).Ok?
    ensures var s := AppendDelta(g, store, r, m).value; Restorable(g, s.store, s.segments)
  {
    var n := |m.segments|;
    var objects := UnbundleAll(g, store, m.segments, n).value;
    var existing := LastTips(m).Values * r.objects;
    var sealed := AppendDelta(g, store, r, m).value;
    var seg := sealed.segments[n];
    ExcludedIsSealed(g, r, existing, objects);
    UnbundlePrefix(g, sealed.store, m.segments, [seg], n);
    UnbundleFrame(g, store, sealed.store, m.segments, n);
    assert sealed.segments == m.segments + [seg];
    if seg.hasPayload {
      ClosedUnbundles(g, objects, BundleCreate(g, r, existing).value);
    } else {
      assert objects + NewObjects(g, r, existing) == objects;
    }
  }

  /** The next seal writes a full base, for a first seal or a compaction. */
  predicate NeedsBase(maxSegments: nat, m: Manifest, r: Repo)
  {
    m.segments == [] || (|m.segments| >= maxSegments && !(LastTips(m) == r.refs && m.head == r.head))
  }

  /** A seal of a well-formed repository makes the store hold it, unless a full base is due and
    * there are no refs: then, and only then, git refuses and the seal fails. */
  lemma SealHolds(g: Git, maxSegments: nat, store: Store, refs: Refs, head: Option<string>, r: Repo)
    requires WellFormed(g, r) && (ManifestKey in store ==> Holds(g, store, refs, head))
    ensures var s := Seal(g, maxSegments, store, r);
      (s.Ok? ==> Holds(g, s.value, r.refs, r.head)) && (s.Err? ==> s.error == GitFailed) &&
      (s.Err? <==> NeedsBase(maxSegments, LoadManifest(store).value, r) && r.refs == map[])
  {
    var m := LoadManifest(store).value;
    if m.segments != [] && LastTips(m) == r.refs && m.head == r.head {
    } else if m.segments == [] || |m.segments| >= maxSegments {
      SealBaseHolds(g, maxSegments, store, r, m);
    } else {
      DeltaIsRestorable(g, store, r, m);
      var s := AppendDelta(g, store, r, m).value;
      ManifestWriteKeeps(g, s.store, s.segments, r.head);
    }
  }

  lemma SealBaseHolds(g: Git, maxSegments: nat, store: Store, r: Repo, m: Manifest)
    requires WellFormed(g, r) && LoadManifest(store) == Ok(m) && (m.segments == [] || |m.segments| >= maxSegments)
    requires !(m.segments != [] && LastTips(m) == r.refs && m.head == r.head)
    ensures var s := Seal(g, maxSegments, store, r);
      (s.Ok? ==> Holds(g, s.value, r.refs, r.head)) && (s.Err? ==> s.error == GitFailed) &&
      (s.Err? <==> r.refs == map[])
  {
    if BundleCreate(g, r, {}).Some? {
      var s := WriteBase(g, store, r, m).value;
      BaseIsRestorable(g, s.store, r, BundleCreate(g, r, {}).value);
      ManifestWriteKeeps(g, s.store, s.segments, r.head);
    }
    EmptyBundle(g, r);
  }

  /** The full bundle is empty exactly when there are no refs. */
  lemma EmptyBundle(g: Git, r: Repo)
    requires WellFormed(g, r)
    ensures BundleCreate(g, r, {}).None? <==> r.refs == map[]
  {
    ReachIsClosed(g, r.objects, r.refs.Values);
    ReachIsLeast(g, r.objects, {}, {});
    if r.refs == map[] {
      assert r.refs.Values == {};
    } else {
      var n :| n in r.refs;
      assert r.refs[n] in NewObjects(g, r, {});
    }
  }

  lemma ManifestWriteKeeps(g: Git, store: Store, segments: seq<Segment>, head: Option<string>)
    requires Restorable(g, store, segments)
    ensures Holds(g, Finished(store, head, segments), segments[|segments| - 1].tips, head)
  {
    UnbundleFrame(g, store, Finished(store, head, segments), segments, |segments|);
  }

  /** Restoring finds every prerequisite and gives back exactly the sealed refs, with every
    * object they reach. */
  lemma RestoreIsFaithful(g: Git, store: Store, refs: Refs, head: Option<string>)
    requires Holds(g, store, refs, head)
    ensures Restore(g, store).Ok? && Restore(g, store).value.Some?
    ensures var r := Restore(g, store).value.value;
      r.refs == refs && WellFormed(g, r) && r.head == (if head.Some? then head else Some(g.defaultHead)) &&
      (forall path, o :: Leads(g, path, refs.Values, o) ==> o in r.objects)
  {
    var r := Restore(g, store).value.value;
    forall path, o | Leads(g, path, refs.Values, o) ensures o in r.objects {
      PathStaysInside(g, path, r.objects, |path| - 1);
    }
  }

  /** A store with a bundle from before there were manifests restores to its branches and tags, with
    * HEAD and every object they reach. */
  lemma LegacyRestores(g: Git, store: Store, r: Repo, b: Bundle)
    requires WellFormed(g, r) && BundleCreate(g, r, {}) == Some(b)
    requires ManifestKey !in store && LegacyKey in store && store[LegacyKey] == BundleBlob(b)
    ensures Restore(g, store).Ok? && Restore(g, store).value.Some?
    ensures var x := Restore(g, store).value.value;
      WellFormed(g, x) && x.head == r.head && (forall n :: n in x.refs ==> n in r.refs && x.refs[n] == r.refs[n]) &&
      (forall n :: n in x.refs <==> n in r.refs && ("refs/heads/" <= n || "refs/tags/" <= n)) &&
      (forall path, o :: Leads(g, path, r.refs.Values, o) ==> o in x.objects)
  {
    FullBundle(g, r, b);
    forall path, o | Leads(g, path, r.refs.Values, o) ensures o in b.pack {
      PathStaysInside(g, path, b.pack, |path| - 1);
    }
  }

  /** Nothing is restored exactly when neither a manifest nor such a bundle is there. */
  lemma NothingSealedExactly(g: Git, store: Store)
    ensures Restore(g, store) == Ok(None) <==> ManifestKey !in store && LegacyKey !in store
  {
  }

  lemma NewObjectsExactly(g: Git, r: Repo, exclude: set<Oid>, o: Oid)
    requires WellFormed(g, r) && exclude <= r.objects
    ensures o in NewObjects(g, r, exclude) <==> Led(g, r.refs.Values, o) && !Led(g, exclude, o)
  {
    ReachIsPaths(g, r.objects, r.refs.Values, o);
    ReachIsPaths(g, r.objects, exclude, o);
  }

  /** A delta is incremental: it holds exactly the objects that the refs reach and no old tip that is
    * still there does, and nothing is stored if there are none. */
  lemma DeltaIsIncremental(g: Git, store: Store, r: Repo, m: Manifest)
    requires WellFormed(g, r) && m.segments != [] && AppendDelta(g, store, r, m).Ok?
    ensures var n := |m.segments|; var last := m.segments[n - 1]; var s := AppendDelta(g, store, r, m).value;
      var tips := last.tips.Values * r.objects;
      s.segments[..n] == m.segments && |s.segments| == n + 1 &&
      s.segments[n].index == last.index + 1 && s.segments[n].tips == r.refs &&
      (s.segments[n].hasPayload <==> exists o :: Led(g, r.refs.Values, o) && !Led(g, tips, o)) &&
      (!s.segments[n].hasPayload ==> s.store == store) &&
      (s.segments[n].hasPayload ==>
        var key := SegmentAt(last.index + 1);
        s.store.Keys == store.Keys + {key} && (forall k :: k in store && k != key ==> s.store[k] == store[k]) &&
        s.store[key].BundleBlob? &&
        forall o :: o in s.store[key].bundle.pack <==> Led(g, r.refs.Values, o) && !Led(g, tips, o))
  {
    var tips := LastTips(m).Values * r.objects;
    forall o ensures o in NewObjects(g, r, tips) <==> Led(g, r.refs.Values, o) && !Led(g, tips, o) {
      NewObjectsExactly(g, r, tips, o);
    }
    if NewObjects(g, r, tips) != {} {
      var o :| o in NewObjects(g, r, tips);
      assert Led(g, r.refs.Values, o);
    }
  }

  /** A seal that writes drops the legacy bundle, and sealing the same again changes nothing. */
  lemma SealAgainChangesNothing(g: Git, maxSegments: nat, store: Store, refs: Refs, head: Option<string>, r: Repo)
    requires WellFormed(g, r) && (ManifestKey in store ==> Holds(g, store, refs, head))
    requires Seal(g, maxSegments, store, r).Ok?
    ensures var sealed := Seal(g, maxSegments, store, r).value;
      Seal(g, maxSegments, sealed, r) == Ok(sealed) && (sealed == store || LegacyKey !in sealed)
  {
    SealHolds(g, maxSegments, store, refs, head, r);
  }

  // ---------------------------------------------------------------------------------
  // Whole runs
  // ---------------------------------------------------------------------------------

  /** Between seals the repository may become any well-formed one: refs move, objects arrive,
    * unreachable ones are pruned. A first seal or a delta append may stop before the manifest
    * is written. */
  datatype Op = SealOf(repo: Repo) | InterruptedSealOf(repo: Repo)

  function Interrupted(g: Git, maxSegments: nat, store: Store, r: Repo): Store
    requires r.refs.Values <= r.objects
  {
    match LoadManifest(store)
    case Err(_) => store
    case Ok(m) =>
      if m.segments == [] then (if WriteBase(g, store, r, m).Ok? then WriteBase(g, store, r, m).value.store else store)
      else if |m.segments| >= maxSegments || AppendDelta(g, store, r, m).Err? then store
      else AppendDelta(g, store, r, m).value.store
  }

  ghost predicate WellFormedOps(g: Git, ops: seq<Op>)
  {
    forall i :: 0 <= i < |ops| ==> WellFormed(g, ops[i].repo)
  }

  /** The store, and what was last sealed into it. */
  datatype World = World(store: Store, last: Option<Repo>)

  function Apply(g: Git, maxSegments: nat, w: World, op: Op): World
    requires op.repo.refs.Values <= op.repo.objects
  {
    match op
    case SealOf(r) =>
      (match Seal(g, maxSegments, w.store, r)
       case Ok(s) => World(s, Some(r))
       case Err(_) => w)
    case InterruptedSealOf(r) => World(Interrupted(g, maxSegments, w.store, r), w.last)
  }

  function Run(g: Git, maxSegments: nat, w: World, ops: seq<Op>): World
    requires forall i :: 0 <= i < |ops| ==> ops[i].repo.refs.Values <= ops[i].repo.objects
    decreases |ops|
  {
    if ops == [] then w else Apply(g, maxSegments, Run(g, maxSegments, w, ops[..|ops| - 1]), ops[|ops| - 1])
  }

  ghost predicate Tracks(g: Git, w: World)
  {
    (ManifestKey in w.store ==> w.last.Some?) &&
    (w.last.Some? ==> Holds(g, w.store, w.last.value.refs, w.last.value.head))
  }

  lemma InterruptedKeeps(g: Git, maxSegments: nat, store: Store, refs: Refs, head: Option<string>, r: Repo)
    requires WellFormed(g, r) && Holds(g, store, refs, head)
    ensures Holds(g, Interrupted(g, maxSegments, store, r), refs, head)
  {
    var m := store[ManifestKey].manifest;
    UnbundleFrame(g, store, Interrupted(g, maxSegments, store, r), m.segments, |m.segments|);
  }

  /** Over every run, starting from a store with no manifest (a legacy bundle may be there),
    * the store holds what was last sealed. */
  lemma {:induction false} RunTracks(g: Git, maxSegments: nat, w: World, ops: seq<Op>)
    requires Tracks(g, w) && WellFormedOps(g, ops)
    ensures Tracks(g, Run(g, maxSegments, w, ops))
    decreases |ops|
  {
    if ops == [] {
    } else {
      var front, op := ops[..|ops| - 1], ops[|ops| - 1];
      RunTracks(g, maxSegments, w, front);
      var v := Run(g, maxSegments, w, front);
      match op {
        case SealOf(r) =>
          var refs := if v.last.Some? then v.last.value.refs else map[];
          var head := if v.last.Some? then v.last.value.head else None;
          SealHolds(g, maxSegments, v.store, refs, head, r);
        case InterruptedSealOf(r) =>
          if v.last.Some? { InterruptedKeeps(g, maxSegments, v.store, v.last.value.refs, v.last.value.head, r); }
      }
    }
  }

  lemma SealThenRestore(g: Git, maxSegments: nat, store: Store, ops: seq<Op>)
    requires ManifestKey !in store && WellFormedOps(g, ops)
    ensures var w := Run(g, maxSegments, World(store, None), ops);
      w.last.Some? ==>
        Restore(g, w.store).Ok? && Restore(g, w.store).value.Some? &&
        var r := Restore(g, w.store).value.value;
        r.refs == w.last.value.refs && WellFormed(g, r) &&
        r.head == (if w.last.value.head.Some? then w.last.value.head else Some(g.defaultHead)) &&
        (forall path, o :: Leads(g, path, r.refs.Values, o) ==> o in r.objects)
  {
    RunTracks(g, maxSegments, World(store, None), ops);
    var w := Run(g, maxSegments, World(store, None), ops);
    if w.last.Some? { RestoreIsFaithful(g, w.store, w.last.value.refs, w.last.value.head); }
  }

  // ---------------------------------------------------------------------------------
  // Bookkeeping
  // ---------------------------------------------------------------------------------

  /** Segment i is well recorded: its index is i, and its object is stored, with the recorded
    * size, exactly when it has a payload. */
  ghost predicate Recorded(g: Git, store: Store, segments: seq<Segment>, i: nat)
    requires i < |segments|
  {
    segments[i].index == i && (segments[i].hasPayload <==> SegmentAt(i) in store) &&
    (if segments[i].hasPayload
     then store[SegmentAt(i)].BundleBlob? && segments[i].size == g.size(store[SegmentAt(i)].bundle)
     else segments[i].size == 0)
  }

  /** The stored segment objects are exactly the recorded payloads. */
  ghost predicate Exact(g: Git, maxSegments: nat, store: Store, segments: seq<Segment>)
  {
    |segments| <= maxSegments &&
    (forall i :: 0 <= i < |segments| ==> Recorded(g, store, segments, i)) &&
    (forall i: nat :: SegmentAt(i) in store ==> i < |segments|)
  }

  ghost predicate ExactStore(g: Git, maxSegments: nat, store: Store)
  {
    LoadManifest(store).Ok? && Exact(g, maxSegments, store, LoadManifest(store).value.segments)
  }

  lemma SealKeepsExact(g: Git, maxSegments: nat, store: Store, r: Repo)
    requires maxSegments >= 1 && WellFormed(g, r) && ExactStore(g, maxSegments, store)
    requires Seal(g, maxSegments, store, r).Ok?
    ensures ExactStore(g, maxSegments, Seal(g, maxSegments, store, r).value)
  {
    var m := LoadManifest(store).value;
    if m.segments != [] && LastTips(m) == r.refs && m.head == r.head {
    } else if m.segments == [] || |m.segments| >= maxSegments {
      BaseIsExact(g, maxSegments, store, r, m);
    } else {
      DeltaIsExact(g, maxSegments, store, r, m);
    }
  }

  lemma BaseIsExact(g: Git, maxSegments: nat, store: Store, r: Repo, m: Manifest)
    requires maxSegments >= 1 && WellFormed(g, r) && Exact(g, maxSegments, store, m.segments)
    requires WriteBase(g, store, r, m).Ok?
    ensures var s := WriteBase(g, store, r, m).value;
      Exact(g, maxSegments, Finished(s.store, r.head, s.segments), s.segments)
  {
    var s := WriteBase(g, store, r, m).value;
    forall i: nat | i >= 1 ensures SegmentAt(i) !in s.store {
      if SegmentAt(i) in store {
        assert Recorded(g, store, m.segments, i);
        assert SegmentAt(i) in SegmentKeys(m.segments);
      }
    }
  }

  lemma DeltaIsExact(g: Git, maxSegments: nat, store: Store, r: Repo, m: Manifest)
    requires WellFormed(g, r) && Exact(g, maxSegments, store, m.segments)
    requires 0 < |m.segments| < maxSegments && AppendDelta(g, store, r, m).Ok?
    ensures var s := AppendDelta(g, store, r, m).value;
      Exact(g, maxSegments, Finished(s.store, r.head, s.segments), s.segments)
  {
    var s := AppendDelta(g, store, r, m).value;
    var n := |m.segments|;
    assert Recorded(g, store, m.segments, n - 1);
    forall i | 0 <= i < n + 1 ensures Recorded(g, Finished(s.store, r.head, s.segments), s.segments, i) {
      if i < n { assert Recorded(g, store, m.segments, i); }
    }
  }

  ghost function StoredSize(g: Git, store: Store, n: nat): nat
  {
    if n == 0 then 0
    else
      var k := SegmentAt(n - 1);
      StoredSize(g, store, n - 1) + (if k in store && store[k].BundleBlob? then g.size(store[k].bundle) else 0)
  }

  /** The reported size is the sum of the lengths of all stored segment objects; without a
    * manifest it is the length of the legacy bundle, or 0. */
  lemma SealedSizeIsStored(g: Git, maxSegments: nat, store: Store)
    requires ExactStore(g, maxSegments, store) && (LegacyKey in store ==> store[LegacyKey].BundleBlob?)
    ensures var n := |LoadManifest(store).value.segments|; forall i: nat :: SegmentAt(i) in store ==> i < n
    ensures SealedSize(g, store) == Ok(
      if ManifestKey in store then StoredSize(g, store, |LoadManifest(store).value.segments|)
      else if LegacyKey in store then g.size(store[LegacyKey].bundle)
      else 0)
  {
    var segments := LoadManifest(store).value.segments;
    assert segments[..|segments|] == segments;
    TotalSizeIsStored(g, store, segments, |segments|);
  }

  lemma {:induction false} TotalSizeIsStored(g: Git, store: Store, segments: seq<Segment>, n: nat)
    requires n <= |segments| && (forall i :: 0 <= i < |segments| ==> Recorded(g, store, segments, i))
    ensures TotalSize(segments[..n]) == StoredSize(g, store, n)
  {
    if n == 0 {
    } else {
      assert segments[..n][..n - 1] == segments[..n - 1];
      TotalSizeIsStored(g, store, segments, n - 1);
      assert Recorded(g, store, segments, n - 1);
    }
  }

  /** Over every run of uninterrupted seals the bookkeeping stays exact. */
  lemma {:induction false} RunKeepsExact(g: Git, maxSegments: nat, w: World, ops: seq<Op>)
    requires maxSegments >= 1 && ExactStore(g, maxSegments, w.store) && WellFormedOps(g, ops)
    requires forall i :: 0 <= i < |ops| ==> ops[i].SealOf?
    ensures ExactStore(g, maxSegments, Run(g, maxSegments, w, ops).store)
    decreases |ops|
  {
    if ops == [] {
    } else {
      RunKeepsExact(g, maxSegments, w, ops[..|ops| - 1]);
      var v, op := Run(g, maxSegments, w, ops[..|ops| - 1]), ops[|ops| - 1];
      if Seal(g, maxSegments, v.store, op.repo).Ok? { SealKeepsExact(g, maxSegments, v.store, op.repo); }
    }
  }

  // ---------------------------------------------------------------------------------
  // Interrupted compactions
  // ---------------------------------------------------------------------------------

  /** The store after the first k steps of a compaction: the old segments are deleted one by one,
    * the new base is stored, the manifest is replaced, a legacy bundle is deleted. */
  function Compacting(g: Git, store: Store, r: Repo, m: Manifest, b: Bundle, k: nat): Store
  {
    var n := |m.segments|;
    var based := (store - SegmentKeys(m.segments))[SegmentAt(0) := BundleBlob(b)];
    var written := based[ManifestKey := ManifestBlob(Manifest(r.head, [Segment(0, true, g.size(b), r.refs)]))];
    if k <= n then store - SegmentKeys(m.segments[..k])
    else if k == n + 1 then based
    else if k == n + 2 then written
    else written - {LegacyKey}
  }

  /** The old manifest needs no object but its base. */
  predicate OnlyBaseHasPayload(m: Manifest)
  {
    forall i :: 1 <= i < |m.segments| ==> !m.segments[i].hasPayload
  }

  /** What is left of the sealed state when a compaction stops after k steps: nothing can be
    * restored while the old segments are being deleted; with the new base stored under the old
    * manifest the old refs are restored exactly if the base has everything they need; before and
    * after that the store holds the old refs and the new ones. */
  lemma InterruptedCompaction(
      g: Git, maxSegments: nat, store: Store, refs: Refs, head: Option<string>, r: Repo, b: Bundle, k: nat)
    requires Holds(g, store, refs, head) && WellFormed(g, r) && BundleCreate(g, r, {}) == Some(b)
    requires var m := store[ManifestKey].manifest; |m.segments| >= maxSegments && !(refs == r.refs && head == r.head)
    ensures var m := store[ManifestKey].manifest; var n := |m.segments|;
      var stopped := Compacting(g, store, r, m, b, k);
      (k == 0 ==> Holds(g, stopped, refs, head)) &&
      (1 <= k <= n ==> Restore(g, stopped) == Err(SegmentMissing)) &&
      (k == n + 1 ==> (Restore(g, stopped).Ok? <==> OnlyBaseHasPayload(m) && refs.Values <= b.pack)) &&
      (k == n + 1 && Restore(g, stopped).Ok? ==>
        Restore(g, stopped).value.Some? && Restore(g, stopped).value.value.refs == refs &&
        WellFormed(g, Restore(g, stopped).value.value)) &&
      (k >= n + 2 ==> Holds(g, stopped, r.refs, r.head)) &&
      (k >= n + 3 ==> Seal(g, maxSegments, store, r) == Ok(stopped))
  {
    var m := store[ManifestKey].manifest;
    var n := |m.segments|;
    if k == 0 {
      assert store - SegmentKeys([]) == store;
    } else if k <= n {
      StoppedDeleting(g, store, refs, head, r, b, k);
    } else if k == n + 1 {
      StoppedBeforeManifest(g, store, refs, head, r, b);
    } else {
      StoppedAfterManifest(g, store, refs, head, r, b, k);
    }
  }

  /** The next seal after a compaction that stopped before its manifest: a repository with the old refs
    * and HEAD is taken for sealed already, and nothing is repaired; one with any others, if it has
    * refs at all, is sealed as it should be. */
  lemma SealAfterStop(
      g: Git, maxSegments: nat, store: Store, refs: Refs, head: Option<string>, r: Repo, b: Bundle, k: nat, later: Repo)
    requires Holds(g, store, refs, head) && WellFormed(g, later)
    requires |store[ManifestKey].manifest.segments| >= maxSegments
    requires k <= |store[ManifestKey].manifest.segments| + 1
    ensures var stopped := Compacting(g, store, r, store[ManifestKey].manifest, b, k);
      var sealed := Seal(g, maxSegments, stopped, later);
      if later.refs == refs && later.head == head then sealed == Ok(stopped)
      else if later.refs == map[] then sealed == Err(GitFailed)
      else sealed.Ok? && Holds(g, sealed.value, later.refs, later.head)
  {
    var m := store[ManifestKey].manifest;
    var stopped := Compacting(g, store, r, m, b, k);
    assert LoadManifest(stopped) == Ok(m);
    if !(later.refs == refs && later.head == head) { SealBaseHolds(g, maxSegments, stopped, later, m); }
  }

  lemma StoppedDeleting(g: Git, store: Store, refs: Refs, head: Option<string>, r: Repo, b: Bundle, k: nat)
    requires Holds(g, store, refs, head) && 1 <= k <= |store[ManifestKey].manifest.segments|
    ensures Restore(g, Compacting(g, store, r, store[ManifestKey].manifest, b, k)) == Err(SegmentMissing)
  {
    var m := store[ManifestKey].manifest;
    assert m.segments[..k][0] == m.segments[0];
    assert SegmentAt(m.segments[0].index) in SegmentKeys(m.segments[..k]);
    UnbundleFails(g, Compacting(g, store, r, m, b, k), m.segments, |m.segments|);
  }

  lemma StoppedBeforeManifest(g: Git, store: Store, refs: Refs, head: Option<string>, r: Repo, b: Bundle)
    requires Holds(g, store, refs, head) && WellFormed(g, r) && BundleCreate(g, r, {}) == Some(b)
    ensures var m := store[ManifestKey].manifest;
      var restored := Restore(g, Compacting(g, store, r, m, b, |m.segments| + 1));
      (restored.Ok? <==> OnlyBaseHasPayload(m) && refs.Values <= b.pack) &&
      (restored.Ok? ==>
        restored.value.Some? && restored.value.value.refs == refs && WellFormed(g, restored.value.value))
  {
    var m := store[ManifestKey].manifest;
    var stopped := Compacting(g, store, r, m, b, |m.segments| + 1);
    FullBundle(g, r, b);
    UnbundleBaseOnly(g, stopped, m.segments, b, |m.segments|);
  }

  lemma StoppedAfterManifest(g: Git, store: Store, refs: Refs, head: Option<string>, r: Repo, b: Bundle, k: nat)
    requires Holds(g, store, refs, head) && WellFormed(g, r) && BundleCreate(g, r, {}) == Some(b)
    requires k >= |store[ManifestKey].manifest.segments| + 2
    ensures Holds(g, Compacting(g, store, r, store[ManifestKey].manifest, b, k), r.refs, r.head)
  {
    var m := store[ManifestKey].manifest;
    var stopped := Compacting(g, store, r, m, b, k);
    BaseIsRestorable(g, stopped, r, b);
  }

  /** With only the new base stored, the old segments unbundle as that base, if none of the
    * others has a payload. */
  lemma {:induction false} UnbundleBaseOnly(g: Git, store: Store, segments: seq<Segment>, b: Bundle, n: nat)
    requires 0 < n <= |segments| && segments[0].hasPayload && b.prerequisites == {}
    requires forall i :: 0 <= i < |segments| ==> segments[i].index == i && (SegmentAt(i) in store <==> i == 0)
    requires store[SegmentAt(0)] == BundleBlob(b)
    ensures UnbundleAll(g, store, segments, n) ==
      if forall i :: 1 <= i < n ==> !segments[i].hasPayload then Ok(b.pack) else Err(SegmentMissing)
  {
    if n == 1 {
      ClosedUnbundles(g, {}, b);
      assert UnbundleAll(g, store, segments, 0) == Ok({});
      assert {} + b.pack == b.pack;
    } else {
      UnbundleBaseOnly(g, store, segments, b, n - 1);
    }
  }

  lemma {:induction false} UnbundleFails(g: Git, store: Store, segments: seq<Segment>, n: nat)
    requires 0 < n <= |segments| && segments[0].hasPayload && SegmentAt(segments[0].index) !in store
    ensures UnbundleAll(g, store, segments, n) == Err(SegmentMissing)
  {
    if n > 1 { UnbundleFails(g, store, segments, n - 1); } else { assert UnbundleAll(g, store, segments, 0) == Ok({}); }
  }

  // ---------------------------------------------------------------------------------
  // The forge object
  // ---------------------------------------------------------------------------------

  /** The forge, for one repository: its working copy, if it has one, and its store. */
  class Forge {
    const git: Git
    const maxSegments: nat
    var store: Store
    var repo: Option<Repo>

    constructor (git: Git, maxSegments: nat, store: Store, repo: Option<Repo>)
      ensures this.git == git && this.maxSegments == maxSegments && this.store == store && this.repo == repo
    {
      this.git, this.maxSegments, this.store, this.repo := git, maxSegments, store, repo;
    }

    /** Filter ids down to those that still exist in the repository. */
    method ExistingOids(r: Repo, oids: set<Oid>) returns (existing: set<Oid>)
      ensures existing == oids * r.objects
    {
      existing := {};
      var todo := oids;
      while todo != {}
        invariant todo <= oids && existing == (oids - todo) * r.objects
        decreases todo
      {
        var o :| o in todo;
        if o in r.objects { existing := existing + {o}; }
        todo := todo - {o};
      }
    }

    method WriteBaseSegment(r: Repo, m: Manifest) returns (res: Result<seq<Segment>, ForgeError>)
      requires r.refs.Values <= r.objects
      modifies this`store
      ensures var w := WriteBase(git, old(store), r, m);
        if w.Ok? then res == Ok(w.value.segments) && store == w.value.store
        else res == Err(w.error) && store == old(store)
    {
      var b := BundleCreate(git, r, {});
      if b.None? {
        return Err(GitFailed);
      }
      for i := 0 to |m.segments|
        invariant store == old(store) - SegmentKeys(m.segments[..i])
      {
        assert SegmentKeys(m.segments[..i + 1]) == SegmentKeys(m.segments[..i]) + {SegmentAt(m.segments[i].index)};
        store := store - {SegmentAt(m.segments[i].index)};
      }
      assert m.segments[..|m.segments|] == m.segments;
      store := store[SegmentAt(0) := BundleBlob(b.value)];
      return Ok([Segment(0, true, git.size(b.value), r.refs)]);
    }

    method AppendDeltaSegment(r: Repo, m: Manifest) returns (res: Result<seq<Segment>, ForgeError>)
      requires r.refs.Values <= r.objects && m.segments != []
      modifies this`store
      ensures var w := AppendDelta(git, old(store), r, m);
        if w.Ok? then res == Ok(w.value.segments) && store == w.value.store
        else res == Err(w.error) && store == old(store)
    {
      var next := m.segments[|m.segments| - 1].index + 1;
      var existing := ExistingOids(r, LastTips(m).Values);
      if NewObjects(git, r, existing) != {} {
        var b := BundleCreate(git, r, existing);
        if b.None? {
          return Err(GitFailed);
        }
        store := store[SegmentAt(next) := BundleBlob(b.value)];
        return Ok(m.segments + [Segment(next, true, git.size(b.value), r.refs)]);
      }
      return Ok(m.segments + [Segment(next, false, 0, r.refs)]);
    }

    method SealToStore() returns (res: Result<bool, ForgeError>)
      requires repo.Some? ==> repo.value.refs.Values <= repo.value.objects
      modifies this`store
      ensures repo.None? ==> res == Err(NotFound) && store == old(store)
      ensures repo.Some? ==>
        var s := Seal(git, maxSegments, old(store), repo.value);
        if s.Ok? then res.Ok? && store == s.value else res == Err(s.error) && store == old(store)
    {
      if repo.None? {
        return Err(NotFound);
      }
      var r := repo.value;
      var loaded := LoadManifest(store);
      if loaded.Err? {
        return Err(loaded.error);
      }
      var m := loaded.value;
      var segments;
      if m.segments == [] {
        segments := WriteBaseSegment(r, m);
      } else {
        if LastTips(m) == r.refs && m.head == r.head {
          return Ok(false);
        }
        if |m.segments| >= maxSegments {
          segments := WriteBaseSegment(r, m);
        } else {
          segments := AppendDeltaSegment(r, m);
        }
      }
      if segments.Err? {
        return Err(segments.error);
      }
      store := store[ManifestKey := ManifestBlob(Manifest(r.head, segments.value))];
      store := store - {LegacyKey};
      return Ok(true);
    }

    /** Restore the working copy; false if nothing is sealed. What an error leaves behind: with no
      * manifest, nothing; with an unreadable one, the old working copy; else a partial one. */
    method RestoreFromStore() returns (res: Result<bool, ForgeError>)
      modifies this`repo
      ensures var x := Restore(git, store);
        match x
        case Err(e) => res == Err(e)
        case Ok(None) => res == Ok(false) && repo == old(repo)
        case Ok(Some(r)) => res == Ok(true) && repo == Some(r)
      ensures res.Err? && ManifestKey !in store ==> repo == None
      ensures res.Err? && ManifestKey in store && LoadManifest(store).Err? ==> repo == old(repo)
      ensures res.Err? && ManifestKey in store && LoadManifest(store).Ok? ==>
        repo.Some? && PartlyRestored(git, store, LoadManifest(store).value, repo.value)
    {
      if ManifestKey !in store {
        if LegacyKey !in store {
          return Ok(false);
        }
        repo := None;
        if !store[LegacyKey].BundleBlob? {
          return Err(GitFailed);
        }
        repo := CloneBare(store[LegacyKey].bundle);
        if repo.None? {
          return Err(GitFailed);
        }
        return Ok(true);
      }
      var loaded := LoadManifest(store);
      if loaded.Err? {
        return Err(loaded.error);
      }
      var m := loaded.value;
      var r := Repo({}, map[], Some(git.defaultHead));
      for i := 0 to |m.segments|
        invariant UnbundleAll(git, store, m.segments, i) == Ok(r.objects)
        invariant r.refs == map[] && r.head == Some(git.defaultHead)
      {
        var one := UnbundleOne(git, store, m.segments[i], r.objects);
        if one.Err? {
          UnbundleErrorSticks(git, store, m.segments, i + 1, |m.segments|);
          repo := Some(r);
          return Err(one.error);
        }
        r := r.(objects := one.value);
      }
      var tips := LastTips(m);
      var todo := tips.Keys;
      while todo != {}
        invariant todo <= tips.Keys && r.refs.Keys == tips.Keys - todo && r.head == Some(git.defaultHead)
        invariant UnbundleAll(git, store, m.segments, |m.segments|) == Ok(r.objects)
        invariant forall n :: n in r.refs ==> r.refs[n] == tips[n] && tips[n] in r.objects
        decreases todo
      {
        var n :| n in todo;
        if tips[n] !in r.objects {
          assert tips[n] in tips.Values;
          repo := Some(r);
          return Err(GitFailed);
        }
        r := r.(refs := r.refs[n := tips[n]]);
        todo := todo - {n};
      }
      assert r.refs == tips;
      if m.head.Some? {
        r := r.(head := m.head);
      }
      repo := Some(r);
      return Ok(true);
    }
  }

  /** The segments up to one that fails, and then the refs up to one that fails, have been put
    * into a new working copy. */
  ghost predicate PartlyRestored(g: Git, store: Store, m: Manifest, r: Repo)
  {
    r.head == Some(g.defaultHead) &&
    (exists n: nat :: n <= |m.segments| && UnbundleAll(g, store, m.segments, n) == Ok(r.objects) &&
      (n < |m.segments| ==> r.refs == map[])) &&
    (forall name :: name in r.refs ==> name in LastTips(m) && r.refs[name] == LastTips(m)[name]) &&
    r.refs.Values <= r.objects
  }

  lemma {:induction false} UnbundleErrorSticks(g: Git, store: Store, segments: seq<Segment>, m: nat, n: nat)
    requires m <= n <= |segments| && UnbundleAll(g, store, segments, m).Err?
    ensures UnbundleAll(g, store, segments, n) == UnbundleAll(g, store, segments, m)
    decreases n
  {
    if m == n {
    } else {
      UnbundleErrorSticks(g, store, segments, m, n - 1);
    }
  }
}
