/** The byte strings the audit log hashes: entries, leaves and tree nodes.
  *
  * SHA-256 and the JSON encoding of an event are parameters. */
module AuditHashing {
  import opened MerkleTrees

  type Byte = x: int | 0 <= x < 256
  type Bytes = seq<Byte>
  type U64 = x: int | 0 <= x < 0x1_0000_0000_0000_0000

  datatype Digest = Digest(bytes: Bytes)
  type Hash = d: Digest | |d.bytes| == 32 witness Digest(Zeros(32))

  function Zeros(n: nat): (r: Bytes)
    ensures |r| == n
  {
    if n == 0 then [] else [0] + Zeros(n - 1)
  }

  datatype AuditEvent =
    | RepoCreated(repoId: string, owner: string)
    | RefUpdated(repoId: string, reference: string, oldId: string, newId: string, actor: string)
    | KeyReleased(resourceId: string, measurementHex: string)
    | KeyRotated(resourceId: string)
    | AccessDenied(repoId: string, actor: string, reason: string)
    | Admin(action: string, actor: string)

  /** What an entry hash commits to. */
  datatype EntryInput = EntryInput(num: U64, timestamp: U64, prevHash: Hash, event: AuditEvent)

  datatype Sha = Sha(sha256: Bytes -> Hash, json: AuditEvent -> Bytes)

  ghost predicate JsonInjective(sha: Sha)
  {
    forall a, b :: sha.json(a) == sha.json(b) ==> a == b
  }

  /** "secgit/audit/entry/v1\0" */
  const ENTRY_DOMAIN: Bytes :=
    [115, 101, 99, 103, 105, 116, 47, 97, 117, 100, 105, 116, 47, 101, 110, 116, 114, 121, 47, 118, 49, 0]

  /** The k low bytes of x, least significant first. */
  function LittleEndian(x: nat, k: nat): (r: Bytes)
    ensures |r| == k
    decreases k
  {
    if k == 0 then [] else [x % 256] + LittleEndian(x / 256, k - 1)
  }

  function Pow256(k: nat): nat
  {
    if k == 0 then 1 else 256 * Pow256(k - 1)
  }

  lemma {:induction false} LittleEndianInjective(x: nat, y: nat, k: nat)
    requires x < Pow256(k) && y < Pow256(k) && LittleEndian(x, k) == LittleEndian(y, k)
    ensures x == y
    decreases k
  {
    if k == 0 {
    } else {
      var a, b := LittleEndian(x, k), LittleEndian(y, k);
      assert a[0] == x % 256 && b[0] == y % 256;
      assert a[1..] == LittleEndian(x / 256, k - 1) && b[1..] == LittleEndian(y / 256, k - 1);
      LittleEndianInjective(x / 256, y / 256, k - 1);
    }
  }

  lemma Pow256Of8()
    ensures Pow256(8) == 0x1_0000_0000_0000_0000
  {
    assert Pow256(2) == 0x1_0000;
    assert Pow256(4) == 0x1_0000_0000;
    assert Pow256(6) == 0x1_0000_0000_0000;
  }

  function EntryPreimage(sha: Sha, x: EntryInput): Bytes
  {
    ENTRY_DOMAIN + LittleEndian(x.num, 8) + LittleEndian(x.timestamp, 8) + x.prevHash.bytes + sha.json(x.event)
  }

  function LeafPreimage(h: Hash): Bytes
  {
    [0] + h.bytes
  }

  function NodePreimage(p: (Hash, Hash)): Bytes
  {
    [1] + p.0.bytes + p.1.bytes
  }

  /** "secgit/audit/checkpoint/v1\0" */
  const CHECKPOINT_DOMAIN: Bytes :=
    [115, 101, 99, 103, 105, 116, 47, 97, 117, 100, 105, 116, 47, 99, 104, 101, 99, 107, 112, 111, 105, 110, 116, 47,
     118, 49, 0]

  /** What the signature of a checkpoint is made over. */
  function SignedBytes(logId: Bytes, treeSize: U64, root: Hash, timestamp: U64): Bytes
  {
    CHECKPOINT_DOMAIN + logId + [0] + LittleEndian(treeSize, 8) + root.bytes + LittleEndian(timestamp, 8)
  }

  /** A signature is about one log, one size, one root and one time, whatever bytes the log id
    * is made of. */
  lemma SignedBytesInjective(id1: Bytes, n1: U64, r1: Hash, t1: U64, id2: Bytes, n2: U64, r2: Hash, t2: U64)
    requires SignedBytes(id1, n1, r1, t1) == SignedBytes(id2, n2, r2, t2)
    ensures id1 == id2 && n1 == n2 && r1 == r2 && t1 == t2
  {
    SignedParts(CHECKPOINT_DOMAIN, id1, LittleEndian(n1, 8), r1.bytes, LittleEndian(t1, 8));
    SignedParts(CHECKPOINT_DOMAIN, id2, LittleEndian(n2, 8), r2.bytes, LittleEndian(t2, 8));
    Pow256Of8();
    LittleEndianInjective(n1, n2, 8);
    LittleEndianInjective(t1, t2, 8);
  }

  lemma SignedParts(a: Bytes, b: Bytes, c: Bytes, d: Bytes, e: Bytes)
    requires |c| == 8 && |d| == 32 && |e| == 8
    ensures var all := a + b + [0] + c + d + e; var n := |all|;
      n == |a| + |b| + 49 && a <= all && all[|a|..n - 49] == b && all[n - 49] == 0 && all[n - 48..n - 40] == c &&
      all[n - 40..n - 8] == d && all[n - 8..n] == e
  {
  }

  /** The number whose bytes are given, the least significant first. */
  function Value(bytes: Bytes): nat
  {
    if bytes == [] then 0 else bytes[0] + 256 * Value(bytes[1..])
  }

  lemma {:induction false} ValueOfLittleEndian(x: nat, k: nat)
    requires x < Pow256(k)
    ensures Value(LittleEndian(x, k)) == x
    decreases k
  {
    if k == 0 {
    } else {
      assert LittleEndian(x, k)[1..] == LittleEndian(x / 256, k - 1);
      ValueOfLittleEndian(x / 256, k - 1);
    }
  }

  ghost predicate HoldsNumber(bytes: Bytes, at: nat, x: nat)
  {
    at + 8 <= |bytes| && Value(bytes[at..at + 8]) == x
  }

  predicate HoldsText(bytes: Bytes, text: string)
  {
    |text| <= |bytes| && forall i :: 0 <= i < |text| ==> bytes[i] == text[i] as int
  }

  lemma NumberIsHeld(bytes: Bytes, at: nat, x: U64)
    requires at + 8 <= |bytes| && bytes[at..at + 8] == LittleEndian(x, 8)
    ensures HoldsNumber(bytes, at, x)
  {
    Pow256Of8();
    ValueOfLittleEndian(x, 8);
  }

  lemma TextGoesOn(a: Bytes, all: Bytes, text: string)
    requires HoldsText(a, text) && a <= all
    ensures HoldsText(all, text)
  {
    forall i | 0 <= i < |text| ensures all[i] == text[i] as int {
      assert all[i] == a[i];
    }
  }

  lemma DomainTexts()
    ensures HoldsText(ENTRY_DOMAIN, "secgit/audit/entry/v1\0") && |ENTRY_DOMAIN| == 22
    ensures HoldsText(CHECKPOINT_DOMAIN, "secgit/audit/checkpoint/v1\0") && |CHECKPOINT_DOMAIN| == 27
  {
  }

  /** What is hashed for an entry, byte by byte. */
  lemma EntryLayout(sha: Sha, x: EntryInput)
    ensures var p := EntryPreimage(sha, x);
      HoldsText(p, "secgit/audit/entry/v1\0") && HoldsNumber(p, 22, x.num) && HoldsNumber(p, 30, x.timestamp) &&
      |p| == 70 + |sha.json(x.event)| && p[38..70] == x.prevHash.bytes && p[70..] == sha.json(x.event)
  {
    var p := EntryPreimage(sha, x);
    Parts(ENTRY_DOMAIN, LittleEndian(x.num, 8), LittleEndian(x.timestamp, 8), x.prevHash.bytes, sha.json(x.event));
    NumberIsHeld(p, 22, x.num);
    NumberIsHeld(p, 30, x.timestamp);
    DomainTexts();
    TextGoesOn(ENTRY_DOMAIN, p, "secgit/audit/entry/v1\0");
  }

  /** What is hashed for a leaf and for a node. */
  lemma TreeLayout(h: Hash, l: Hash, r: Hash)
    ensures var p := LeafPreimage(h); |p| == 33 && p[0] == 0 && p[1..] == h.bytes
    ensures var p := NodePreimage((l, r)); |p| == 65 && p[0] == 1 && p[1..33] == l.bytes && p[33..] == r.bytes
  {
  }

  /** What is signed for a checkpoint. */
  lemma SignedLayout(logId: Bytes, treeSize: U64, root: Hash, timestamp: U64)
    ensures var p, n := SignedBytes(logId, treeSize, root, timestamp), 27 + |logId|;
      HoldsText(p, "secgit/audit/checkpoint/v1\0") && |p| == n + 49 && p[27..n] == logId && p[n] == 0 &&
      HoldsNumber(p, n + 1, treeSize) && p[n + 9..n + 41] == root.bytes && HoldsNumber(p, n + 41, timestamp)
  {
    var p, n := SignedBytes(logId, treeSize, root, timestamp), 27 + |logId|;
    SignedParts(CHECKPOINT_DOMAIN, logId, LittleEndian(treeSize, 8), root.bytes, LittleEndian(timestamp, 8));
    NumberIsHeld(p, n + 1, treeSize);
    NumberIsHeld(p, n + 41, timestamp);
    DomainTexts();
    TextGoesOn(CHECKPOINT_DOMAIN, p, "secgit/audit/checkpoint/v1\0");
  }

  /** Different entries never feed the same bytes to the hash. */
  lemma EntryPreimageInjective(sha: Sha, x: EntryInput, y: EntryInput)
    requires JsonInjective(sha) && EntryPreimage(sha, x) == EntryPreimage(sha, y)
    ensures x == y
  {
    Parts(ENTRY_DOMAIN, LittleEndian(x.num, 8), LittleEndian(x.timestamp, 8), x.prevHash.bytes, sha.json(x.event));
    Parts(ENTRY_DOMAIN, LittleEndian(y.num, 8), LittleEndian(y.timestamp, 8), y.prevHash.bytes, sha.json(y.event));
    Pow256Of8();
    LittleEndianInjective(x.num, y.num, 8);
    LittleEndianInjective(x.timestamp, y.timestamp, 8);
  }

  lemma Parts(a: Bytes, b: Bytes, c: Bytes, d: Bytes, e: Bytes)
    requires |b| == 8 && |c| == 8 && |d| == 32
    ensures var all := a + b + c + d + e; var n := |a|;
      |all| == n + 48 + |e| && a <= all && all[n..n + 8] == b && all[n + 8..n + 16] == c &&
      all[n + 16..n + 48] == d && all[n + 48..] == e
  {
  }

  /** Nor do different pairs of children, nor different entry hashes. */
  lemma NodePreimageInjective(p: (Hash, Hash), q: (Hash, Hash))
    requires NodePreimage(p) == NodePreimage(q)
    ensures p == q
  {
    assert NodePreimage(p)[1..33] == p.0.bytes && NodePreimage(p)[33..] == p.1.bytes;
    assert NodePreimage(q)[1..33] == q.0.bytes && NodePreimage(q)[33..] == q.1.bytes;
  }

  lemma LeafPreimageInjective(a: Hash, b: Hash)
    requires LeafPreimage(a) == LeafPreimage(b)
    ensures a == b
  {
    assert LeafPreimage(a)[1..] == a.bytes && LeafPreimage(b)[1..] == b.bytes;
  }

  /** The first byte, or the first two, keep leaves, nodes and entries apart. */
  lemma DomainsApart(sha: Sha, x: EntryInput, h: Hash, p: (Hash, Hash))
    ensures EntryPreimage(sha, x) != LeafPreimage(h)
    ensures EntryPreimage(sha, x) != NodePreimage(p)
    ensures LeafPreimage(h) != NodePreimage(p)
  {
    assert EntryPreimage(sha, x)[0] == ENTRY_DOMAIN[0];
  }

  /** Two different byte strings in s have the same SHA-256. */
  ghost predicate ShaCollides(sha: Sha, s: set<Bytes>)
  {
    exists a, b :: a in s && b in s && a != b && sha.sha256(a) == sha.sha256(b)
  }

  // ---------------------------------------------------------------------------------
  // The three hashes, as functions of what they commit to
  // ---------------------------------------------------------------------------------

  datatype Hashes = Hashes(entry: EntryInput -> Hash, leaf: Hash -> Hash, tree: Hasher<Hash>, genesis: Hash)

  function ShaHashes(sha: Sha): Hashes
  {
    Hashes(
      x => sha.sha256(EntryPreimage(sha, x)),
      h => sha.sha256(LeafPreimage(h)),
      Hasher((l, r) => sha.sha256(NodePreimage((l, r))), sha.sha256([])),
      Digest(Zeros(32)))
  }

  predicate EntryClash(hs: Hashes, x: EntryInput, y: EntryInput)
  {
    x != y && hs.entry(x) == hs.entry(y)
  }

  /** Two different entries in s have the same entry hash. */
  ghost predicate EntriesCollide(hs: Hashes, s: set<EntryInput>)
  {
    exists x, y {:trigger EntryClash(hs, x, y)} :: x in s && y in s && EntryClash(hs, x, y)
  }

  /** Some entry in s has the genesis value as its hash. */
  ghost predicate HitsGenesis(hs: Hashes, s: set<EntryInput>)
  {
    exists x :: x in s && hs.entry(x) == hs.genesis
  }

  predicate LeafClash(hs: Hashes, a: Hash, b: Hash)
  {
    a != b && hs.leaf(a) == hs.leaf(b)
  }

  /** Two different entry hashes in s have the same leaf hash. */
  ghost predicate LeavesCollide(hs: Hashes, s: set<Hash>)
  {
    exists a, b {:trigger LeafClash(hs, a, b)} :: a in s && b in s && LeafClash(hs, a, b)
  }

  /** Any of these collisions is a collision of SHA-256 between two byte strings that were
    * actually hashed. */
  lemma CollisionsAreSha(sha: Sha, entries: set<EntryInput>, leaves: set<Hash>, nodes: set<(Hash, Hash)>, s: set<Bytes>)
    requires JsonInjective(sha)
    requires forall x :: x in entries ==> EntryPreimage(sha, x) in s
    requires forall h :: h in leaves ==> LeafPreimage(h) in s
    requires forall p :: p in nodes ==> NodePreimage(p) in s
    requires var hs := ShaHashes(sha);
      EntriesCollide(hs, entries) || LeavesCollide(hs, leaves) || Collides(hs.tree, nodes)
    ensures ShaCollides(sha, s)
  {
    var hs := ShaHashes(sha);
    if EntriesCollide(hs, entries) {
      var x, y :| x in entries && y in entries && EntryClash(hs, x, y);
      if EntryPreimage(sha, x) == EntryPreimage(sha, y) { EntryPreimageInjective(sha, x, y); }
    } else if LeavesCollide(hs, leaves) {
      var a, b :| a in leaves && b in leaves && LeafClash(hs, a, b);
      if LeafPreimage(a) == LeafPreimage(b) { LeafPreimageInjective(a, b); }
    } else {
      var p, q :| p in nodes && q in nodes && Clash(hs.tree, p, q);
      if NodePreimage(p) == NodePreimage(q) { NodePreimageInjective(p, q); }
    }
  }
}
