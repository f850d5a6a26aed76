/** The RFC 6962 Merkle tree of the audit log: tree hash, inclusion and consistency
  * proofs, and the two verifiers.
  *
  * The provers split a tree from the top; the verifiers climb it from the bottom, over the bits
  * of a position. Both follow the same turns, as MerkleTurns shows. What a walk along given turns
  * accepts is settled in MerkleTrees.
  */
module Merkle {
  import opened Wrappers
  import opened Lists
  import opened MerkleTrees
  import opened MerkleTurns

  // ---------------------------------------------------------------------------------
  // Tree hash and provers
  // ---------------------------------------------------------------------------------

  /** The tree hash of the n leaves from position lo on. */
  function RootAt<H>(h: Hasher<H>, xs: seq<H>, lo: nat, n: nat): H
    requires lo + n <= |xs|
    decreases n
  {
    if n == 0 then h.empty
    else if n == 1 then xs[lo]
    else
      var k := Split(n);
      h.node(RootAt(h, xs, lo, k), RootAt(h, xs, lo + k, n - k))
  }

  function Root<H>(h: Hasher<H>, leaves: seq<H>): H
  {
    RootAt(h, leaves, 0, |leaves|)
  }

  function InclusionProofAt<H>(h: Hasher<H>, xs: seq<H>, lo: nat, n: nat, m: nat): seq<H>
    requires m < n && lo + n <= |xs|
    decreases n
  {
    if n == 1 then []
    else
      var k := Split(n);
      if m < k then InclusionProofAt(h, xs, lo, k, m) + [RootAt(h, xs, lo + k, n - k)]
      else InclusionProofAt(h, xs, lo + k, n - k, m - k) + [RootAt(h, xs, lo, k)]
  }

  function InclusionProof<H>(h: Hasher<H>, leaves: seq<H>, m: nat): seq<H>
    requires m < |leaves|
  {
    InclusionProofAt(h, leaves, 0, |leaves|, m)
  }

  function SubproofAt<H>(h: Hasher<H>, m: nat, xs: seq<H>, lo: nat, n: nat, b: bool): seq<H>
    requires 0 < m <= n && lo + n <= |xs|
    decreases n
  {
    if m == n then (if b then [] else [RootAt(h, xs, lo, n)])
    else
      var k := Split(n);
      if m <= k then SubproofAt(h, m, xs, lo, k, b) + [RootAt(h, xs, lo + k, n - k)]
      else SubproofAt(h, m - k, xs, lo + k, n - k, false) + [RootAt(h, xs, lo, k)]
  }

  function ConsistencyProof<H>(h: Hasher<H>, leaves: seq<H>, m: nat): seq<H>
    requires 0 < m <= |leaves|
  {
    SubproofAt(h, m, leaves, 0, |leaves|, true)
  }

  // ---------------------------------------------------------------------------------
  // Trees and turns
  // ---------------------------------------------------------------------------------

  function TreeAt<H>(xs: seq<H>, lo: nat, n: nat): Tree<H>
    requires n > 0 && lo + n <= |xs|
    decreases n
  {
    if n == 1 then Leaf(xs[lo])
    else
      var k := Split(n);
      Node(TreeAt(xs, lo, k), TreeAt(xs, lo + k, n - k))
  }

  lemma {:induction false} RootIsHash<H>(h: Hasher<H>, xs: seq<H>, lo: nat, n: nat)
    requires n > 0 && lo + n <= |xs|
    ensures RootAt(h, xs, lo, n) == Hash(h, TreeAt(xs, lo, n))
    decreases n
  {
    if n == 1 {
    } else {
      var k := Split(n);
      RootIsHash(h, xs, lo, k);
      RootIsHash(h, xs, lo + k, n - k);
    }
  }

  /** A tree depends only on the leaves in its range, ... */
  lemma {:induction false} TreeAtAgrees<H>(xs: seq<H>, ys: seq<H>, lo: nat, n: nat)
    requires n > 0 && lo + n <= |xs| && lo + n <= |ys| && forall i :: lo <= i < lo + n ==> xs[i] == ys[i]
    ensures TreeAt(xs, lo, n) == TreeAt(ys, lo, n)
    decreases n
  {
    if n == 1 {
    } else {
      var k := Split(n);
      TreeAtAgrees(xs, ys, lo, k);
      TreeAtAgrees(xs, ys, lo + k, n - k);
    }
  }

  /** ... and holds them. */
  lemma {:induction false} TreeAtInjective<H>(xs: seq<H>, ys: seq<H>, lo: nat, n: nat)
    requires n > 0 && lo + n <= |xs| && lo + n <= |ys| && TreeAt(xs, lo, n) == TreeAt(ys, lo, n)
    ensures forall i :: lo <= i < lo + n ==> xs[i] == ys[i]
    decreases n
  {
    if n == 1 {
    } else {
      var k := Split(n);
      TreeAtInjective(xs, ys, lo, k);
      TreeAtInjective(xs, ys, lo + k, n - k);
    }
  }

  lemma {:induction false} TurnsLead<H>(xs: seq<H>, lo: nat, n: nat, m: nat)
    requires m < n && lo + n <= |xs|
    ensures LeadsTo(TreeAt(xs, lo, n), TurnsTo(m, n), xs[lo + m])
    decreases n
  {
    if n == 1 {
    } else {
      var k := Split(n);
      if m < k {
        TurnsLead(xs, lo, k, m);
      } else {
        TurnsLead(xs, lo + k, n - k, m - k);
      }
    }
  }

  lemma {:induction false} SameSizeSameShape<H>(xs: seq<H>, ys: seq<H>, lo: nat, n: nat)
    requires n > 0 && lo + n <= |xs| && lo + n <= |ys|
    ensures SameShape(TreeAt(xs, lo, n), TreeAt(ys, lo, n))
    decreases n
  {
    if n == 1 {
    } else {
      var k := Split(n);
      SameSizeSameShape(xs, ys, lo, k);
      SameSizeSameShape(xs, ys, lo + k, n - k);
    }
  }

  lemma {:induction false} PrefixIsTree<H>(ys: seq<H>, lo: nat, m: nat, n: nat)
    requires 0 < m <= n && lo + n <= |ys|
    ensures IsWithin(TreeAt(ys, lo, n), PrefixTurns(m, n))
    ensures Prefix(TreeAt(ys, lo, n), PrefixTurns(m, n)) == TreeAt(ys, lo, m)
    decreases n
  {
    if m == n {
    } else {
      var k := Split(n);
      if m <= k {
        PrefixIsTree(ys, lo, m, k);
      } else {
        SplitOfPrefix(m, n);
        PrefixIsTree(ys, lo + k, m - k, n - k);
      }
    }
  }

  // ---------------------------------------------------------------------------------
  // Proofs read from the top down
  // ---------------------------------------------------------------------------------

  function Front<T>(s: seq<T>): (r: seq<T>)
    requires s != []
  {
    s[..|s| - 1]
  }

  function Last<T>(s: seq<T>): T
    requires s != []
  {
    s[|s| - 1]
  }

  /** A proof from its last element, which is next to the top of the tree, down. */
  function TopDown<T>(s: seq<T>): List<T>
    decreases |s|
  {
    if s == [] then Nil else Cons(Last(s), TopDown(Front(s)))
  }

  lemma TopDownOfSnoc<T>(q: seq<T>, p: T)
    ensures TopDown(q + [p]) == Cons(p, TopDown(q))
  {
    assert Front(q + [p]) == q;
  }

  lemma {:induction false} TopDownInjective<T>(a: seq<T>, b: seq<T>)
    requires TopDown(a) == TopDown(b)
    ensures a == b
    decreases |a|
  {
    if a == [] {
    } else {
      TopDownInjective(Front(a), Front(b));
      assert a == Front(a) + [Last(a)] && b == Front(b) + [Last(b)];
    }
  }

  /** The proof with the given path from the top down. */
  function ProofOf<T>(path: List<T>): seq<T>
  {
    if path.Nil? then [] else ProofOf(path.tail) + [path.head]
  }

  lemma {:induction false} TopDownOfProof<T>(path: List<T>)
    ensures TopDown(ProofOf(path)) == path
  {
    if path.Nil? {
    } else {
      TopDownOfSnoc(ProofOf(path.tail), path.head);
      TopDownOfProof(path.tail);
    }
  }

  lemma {:induction false} InclusionProofIsSiblings<H>(
      h: Hasher<H>, xs: seq<H>, lo: nat, n: nat, m: nat, t: Tree<H>, turns: Turns) returns (path: List<H>)
    requires m < n && lo + n <= |xs| && t == TreeAt(xs, lo, n) && turns == TurnsTo(m, n)
    ensures path == Siblings(h, t, turns) && InclusionProofAt(h, xs, lo, n, m) == ProofOf(path)
    decreases n
  {
    if n == 1 {
      path := Nil;
    } else {
      var k := Split(n);
      if m < k {
        RootIsHash(h, xs, lo + k, n - k);
        path := InclusionProofIsSiblings(h, xs, lo, k, m, t.left, turns.tail);
        path := Cons(Hash(h, t.right), path);
      } else {
        RootIsHash(h, xs, lo, k);
        path := InclusionProofIsSiblings(h, xs, lo + k, n - k, m - k, t.right, turns.tail);
        path := Cons(Hash(h, t.left), path);
      }
    }
  }

  lemma SubproofInLeft<H>(h: Hasher<H>, m: nat, xs: seq<H>, lo: nat, n: nat, k: nat, b: bool, path: List<H>)
    requires 0 < m < n && k == Split(n) && m <= k && lo + n <= |xs| && SubproofAt(h, m, xs, lo, k, b) == ProofOf(path)
    ensures SubproofAt(h, m, xs, lo, n, b) == ProofOf(Cons(Hash(h, TreeAt(xs, lo + k, n - k)), path))
  {
    RootIsHash(h, xs, lo + k, n - k);
  }

  lemma SubproofInRight<H>(h: Hasher<H>, m: nat, xs: seq<H>, lo: nat, n: nat, k: nat, b: bool, path: List<H>)
    requires k == Split(n) && 1 <= k < m < n && lo + n <= |xs|
    requires SubproofAt(h, m - k, xs, lo + k, n - k, false) == ProofOf(path)
    ensures SubproofAt(h, m, xs, lo, n, b) == ProofOf(Cons(Hash(h, TreeAt(xs, lo, k)), path))
  {
    RootIsHash(h, xs, lo, k);
  }

  lemma {:induction false} SubproofIsWitnesses<H>(
      h: Hasher<H>, m: nat, xs: seq<H>, lo: nat, n: nat, b: bool, t: Tree<H>, turns: Turns) returns (path: List<H>)
    requires 0 < m <= n && lo + n <= |xs| && t == TreeAt(xs, lo, n) && turns == PrefixTurns(m, n)
    ensures path == Witnesses(h, t, turns, b) && SubproofAt(h, m, xs, lo, n, b) == ProofOf(path)
    decreases n
  {
    if m == n {
      RootIsHash(h, xs, lo, n);
      path := Witnesses(h, t, turns, b);
    } else {
      var k := Split(n);
      if m <= k {
        path := SubproofIsWitnesses(h, m, xs, lo, k, b, t.left, turns.tail);
        SubproofInLeft(h, m, xs, lo, n, k, b, path);
        path := Cons(Hash(h, t.right), path);
      } else {
        path := SubproofIsWitnesses(h, m - k, xs, lo + k, n - k, false, t.right, turns.tail);
        SubproofInRight(h, m, xs, lo, n, k, b, path);
        path := Cons(Hash(h, t.left), path);
      }
    }
  }

  // ---------------------------------------------------------------------------------
  // Accepted proofs
  // ---------------------------------------------------------------------------------

  predicate AcceptsInclusion<H(==)>(h: Hasher<H>, leaf: H, m: nat, n: nat, proof: seq<H>, root: H)
  {
    m < n && InclusionWalk(h, leaf, TurnsTo(m, n), TopDown(proof)) == Some(root)
  }

  predicate AcceptsConsistency<H(==)>(h: Hasher<H>, m: nat, n: nat, proof: seq<H>, rootM: H, rootN: H)
  {
    0 < m <= n && ConsistencyWalk(h, PrefixTurns(m, n), TopDown(proof), Some(rootM)) == Some(Heads(rootM, rootN))
  }

  /** Every pair hashed for the root is in s. */
  ghost predicate RootWithin<H>(h: Hasher<H>, leaves: seq<H>, s: set<(H, H)>)
  {
    leaves == [] || HashWithin(h, TreeAt(leaves, 0, |leaves|), s)
  }

  lemma {:induction false} RootAtShifted<H>(h: Hasher<H>, xs: seq<H>, lo: nat, ys: seq<H>, to: nat, n: nat)
    requires lo + n <= |xs| && to + n <= |ys| && forall i :: lo <= i < lo + n ==> xs[i] == ys[i - lo + to]
    ensures RootAt(h, xs, lo, n) == RootAt(h, ys, to, n)
    decreases n
  {
    if n < 2 {
    } else {
      var k := Split(n);
      RootAtShifted(h, xs, lo, ys, to, k);
      RootAtShifted(h, xs, lo + k, ys, to + k, n - k);
    }
  }

  /** The tree hash as section 2.1 of RFC 6962 defines it, over hashed leaves. */
  lemma RootIsRfc6962<H>(h: Hasher<H>, xs: seq<H>, e: nat)
    ensures |xs| == 0 ==> Root(h, xs) == h.empty
    ensures |xs| == 1 ==> Root(h, xs) == xs[0]
    ensures Pow2(e) < |xs| <= 2 * Pow2(e) ==>
      Root(h, xs) == h.node(Root(h, xs[..Pow2(e)]), Root(h, xs[Pow2(e)..]))
  {
    var k := Pow2(e);
    if k < |xs| <= 2 * k {
      SplitIsTheOnly(|xs|, e);
      RootAtShifted(h, xs, 0, xs[..k], 0, k);
      RootAtShifted(h, xs, k, xs[k..], 0, |xs| - k);
    }
  }

  /** A root depends only on the leaves under it, ... */
  lemma RootAtAgrees<H>(h: Hasher<H>, xs: seq<H>, ys: seq<H>, lo: nat, n: nat)
    requires lo + n <= |xs| && lo + n <= |ys| && forall i :: lo <= i < lo + n ==> xs[i] == ys[i]
    ensures RootAt(h, xs, lo, n) == RootAt(h, ys, lo, n)
  {
    if n > 0 {
      TreeAtAgrees(xs, ys, lo, n);
      RootIsHash(h, xs, lo, n);
      RootIsHash(h, ys, lo, n);
    }
  }

  /** ... and pins them down, unless two of the pairs hashed collide. */
  lemma RootInjective<H(!new)>(h: Hasher<H>, xs: seq<H>, ys: seq<H>, s: set<(H, H)>)
    requires |xs| == |ys| && Root(h, xs) == Root(h, ys) && RootWithin(h, xs, s) && RootWithin(h, ys, s)
    ensures xs == ys || Collides(h, s)
  {
    if xs != [] && !Collides(h, s) {
      var n := |xs|;
      RootIsHash(h, xs, 0, n);
      RootIsHash(h, ys, 0, n);
      SameSizeSameShape(xs, ys, 0, n);
      HashInjective(h, TreeAt(xs, 0, n), TreeAt(ys, 0, n), s);
      TreeAtInjective(xs, ys, 0, n);
    }
  }

  /** Every honestly built inclusion proof is accepted, in trees of every size. */
  lemma HonestInclusion<H>(h: Hasher<H>, leaves: seq<H>, m: nat)
    requires m < |leaves|
    ensures AcceptsInclusion(h, leaves[m], m, |leaves|, InclusionProof(h, leaves, m), Root(h, leaves))
  {
    var n := |leaves|;
    TurnsLead(leaves, 0, n, m);
    var path := InclusionProofIsSiblings(h, leaves, 0, n, m, TreeAt(leaves, 0, n), TurnsTo(m, n));
    TopDownOfProof(path);
    RootIsHash(h, leaves, 0, n);
    WalkComplete(h, TreeAt(leaves, 0, n), TurnsTo(m, n), leaves[m]);
  }

  /** An accepted inclusion proof is the honest one for the leaf that is really there, or two
    * of the pairs hashed, all of which are in s, collide. */
  lemma InclusionSound<H(!new)>(h: Hasher<H>, leaves: seq<H>, leaf: H, m: nat, proof: seq<H>, s: set<(H, H)>)
    requires AcceptsInclusion(h, leaf, m, |leaves|, proof, Root(h, leaves)) && RootWithin(h, leaves, s)
    requires InclusionWithin(h, leaf, TurnsTo(m, |leaves|), TopDown(proof), s)
    ensures (leaf == leaves[m] && proof == InclusionProof(h, leaves, m)) || Collides(h, s)
  {
    if !Collides(h, s) {
      var t, turns := TreeAt(leaves, 0, |leaves|), TurnsTo(m, |leaves|);
      TurnsLead(leaves, 0, |leaves|, m);
      RootIsHash(h, leaves, 0, |leaves|);
      LeadsToPlace(t, turns, leaves[m]);
      WalkSound(h, t, leaf, turns, TopDown(proof), s);
      OnePlaceOneLeaf(t, turns, leaf, leaves[m]);
      var path := InclusionProofIsSiblings(h, leaves, 0, |leaves|, m, t, turns);
      TopDownOfProof(path);
      TopDownInjective(proof, InclusionProof(h, leaves, m));
    }
  }

  /** Every honestly built consistency proof is accepted, and used up exactly. */
  lemma ConsistencyComplete<H>(h: Hasher<H>, leaves: seq<H>, m: nat)
    requires 0 < m <= |leaves|
    ensures AcceptsConsistency(h, m, |leaves|, ConsistencyProof(h, leaves, m), Root(h, leaves[..m]), Root(h, leaves))
  {
    var n := |leaves|;
    TreeAtAgrees(leaves, leaves[..m], 0, m);
    RootIsHash(h, leaves[..m], 0, m);
    RootIsHash(h, leaves, 0, n);
    PrefixIsTree(leaves, 0, m, n);
    var path := SubproofIsWitnesses(h, m, leaves, 0, n, true, TreeAt(leaves, 0, n), PrefixTurns(m, n));
    TopDownOfProof(path);
    BeginComplete(h, TreeAt(leaves, 0, n), PrefixTurns(m, n), true, Some(Root(h, leaves[..m])));
  }

  /** What an auditor who kept only the old root learns: whatever root and proof are accepted, the
    * root is that of the first m leaves and the proof is the honest one; or two of the pairs hashed,
    * all of which are in s, collide. */
  lemma ConsistencyPinsRoot<H(!new)>(h: Hasher<H>, m: nat, ys: seq<H>, proof: seq<H>, rootM: H, s: set<(H, H)>)
    requires AcceptsConsistency(h, m, |ys|, proof, rootM, Root(h, ys)) && RootWithin(h, ys, s)
    requires ConsistencyWithin(h, PrefixTurns(m, |ys|), TopDown(proof), Some(rootM), s)
    ensures (rootM == Root(h, ys[..m]) && proof == ConsistencyProof(h, ys, m)) || Collides(h, s)
    ensures RootWithin(h, ys[..m], s) || Collides(h, s)
  {
    if !Collides(h, s) {
      var n := |ys|;
      var t, turns := TreeAt(ys, 0, n), PrefixTurns(m, n);
      RootIsHash(h, ys, 0, n);
      PrefixIsTree(ys, 0, m, n);
      BeginSound(h, t, turns, TopDown(proof), Some(rootM), Heads(rootM, Root(h, ys)), s);
      TreeAtAgrees(ys, ys[..m], 0, m);
      RootIsHash(h, ys[..m], 0, m);
      var path := SubproofIsWitnesses(h, m, ys, 0, n, true, t, turns);
      TopDownOfProof(path);
      TopDownInjective(proof, ConsistencyProof(h, ys, m));
    }
  }

  /** The log is append-only: whatever the proof, two accepted roots belong to a leaf list and an
    * extension of it, and the proof is the honest one; or two of the pairs hashed collide. */
  lemma ConsistencySound<H(!new)>(h: Hasher<H>, xs: seq<H>, ys: seq<H>, proof: seq<H>, s: set<(H, H)>)
    requires AcceptsConsistency(h, |xs|, |ys|, proof, Root(h, xs), Root(h, ys))
    requires RootWithin(h, xs, s) && RootWithin(h, ys, s)
    requires ConsistencyWithin(h, PrefixTurns(|xs|, |ys|), TopDown(proof), Some(Root(h, xs)), s)
    ensures (xs == ys[..|xs|] && proof == ConsistencyProof(h, ys, |xs|)) || Collides(h, s)
  {
    ConsistencyPinsRoot(h, |xs|, ys, proof, Root(h, xs), s);
    if !Collides(h, s) { RootInjective(h, xs, ys[..|xs|], s); }
  }

  // ---------------------------------------------------------------------------------
  // The verifiers
  // ---------------------------------------------------------------------------------

  lemma {:induction false} FromOfSnoc<T>(q: seq<T>, p: T, i: nat)
    requires i <= |q|
    ensures From(q + [p], i) == Append(From(q, i), Cons(p, Nil))
    decreases |q| - i
  {
    if i == |q| {
      assert From(q + [p], i + 1) == Nil;
    } else {
      FromOfSnoc(q, p, i + 1);
    }
  }

  lemma {:induction false} BottomUp<T>(s: seq<T>)
    ensures Reverse(TopDown(s)) == From(s, 0)
    decreases |s|
  {
    if s == [] {
    } else {
      assert s == Front(s) + [Last(s)];
      BottomUp(Front(s));
      FromOfSnoc(Front(s), Last(s), 0);
    }
  }

  lemma InclusionIsClimb<H>(h: Hasher<H>, leaf: H, m: nat, n: nat, proof: seq<H>)
    requires m < n
    ensures InclusionWalk(h, leaf, TurnsTo(m, n), TopDown(proof)) ==
      Climb(Join(h), UpTurns(m, n - 1), leaf, From(proof, 0))
  {
    var _ := UpTurnsAreTurns(m, n, TurnsTo(m, n));
    BottomUp(proof);
    ClimbIsTreeWalk(Join(h), TurnsTo(m, n), leaf, TopDown(proof));
  }

  lemma {:induction false} FromLength<T>(s: seq<T>, i: nat)
    requires i <= |s|
    ensures Length(From(s, i)) == |s| - i
    decreases |s| - i
  {
    if i == |s| {
    } else {
      FromLength(s, i + 1);
    }
  }

  /** An inclusion proof of any other length is rejected. */
  lemma InclusionPlan<H>(h: Hasher<H>, leaf: H, m: nat, n: nat, proof: seq<H>, inner: nat, border: nat)
    requires m < n && inner == InnerProofSize(m, n) && border == CountOnes(Shr(m, inner))
    ensures InclusionWalk(h, leaf, TurnsTo(m, n), TopDown(proof)).Some? <==> |proof| == inner + border
  {
    InclusionIsClimb(h, leaf, m, n, proof);
    InnerPlusBorder(m, n - 1);
    FromLength(proof, 0);
    ClimbLength(Join(h), UpTurns(m, n - 1), leaf, From(proof, 0));
  }

  /** Every honestly built inclusion proof has inner + border elements and is accepted, in
    * trees of every size. */
  lemma InclusionComplete<H>(h: Hasher<H>, leaves: seq<H>, m: nat)
    requires m < |leaves|
    ensures AcceptsInclusion(h, leaves[m], m, |leaves|, InclusionProof(h, leaves, m), Root(h, leaves))
    ensures |InclusionProof(h, leaves, m)| ==
      InnerProofSize(m, |leaves|) + CountOnes(Shr(m, InnerProofSize(m, |leaves|)))
  {
    var inner := InnerProofSize(m, |leaves|);
    HonestInclusion(h, leaves, m);
    InclusionPlan(h, leaves[m], m, |leaves|, InclusionProof(h, leaves, m), inner, CountOnes(Shr(m, inner)));
  }

  method VerifyInclusion<H(==)>(h: Hasher<H>, leaf: H, m: nat, n: nat, proof: seq<H>, expectedRoot: H)
    returns (ok: bool)
    ensures ok == AcceptsInclusion(h, leaf, m, n, proof, expectedRoot)
  {
    if m >= n {
      return false;
    }
    var inner := InnerProofSize(m, n);
    var border := CountOnes(Shr(m, inner));
    InclusionPlan(h, leaf, m, n, proof, inner, border);
    if |proof| != inner + border {
      return false;
    }
    InclusionIsClimb(h, leaf, m, n, proof);
    var acc := ClimbInner(h, leaf, m, n, proof, inner);
    BorderPlan(m, n, inner);
    acc := ClimbBorder(h, acc, proof, inner, border);
    ok := acc == expectedRoot;
  }

  /** The levels at which the path has a neighbour on either side. */
  method ClimbInner<H(==)>(h: Hasher<H>, leaf: H, m: nat, n: nat, proof: seq<H>, inner: nat) returns (acc: H)
    requires m < n && inner == InnerProofSize(m, n) && inner <= |proof|
    ensures Shr(m, inner) <= Shr(n - 1, inner)
    ensures Climb(Join(h), UpTurns(m, n - 1), leaf, From(proof, 0)) ==
      Climb(Join(h), UpTurns(Shr(m, inner), Shr(n - 1, inner)), acc, From(proof, inner))
  {
    acc := leaf;
    ghost var last, walk := n - 1, Climb(Join(h), UpTurns(m, n - 1), leaf, From(proof, 0));
    for i := 0 to inner
      invariant Shr(m, i) <= Shr(last, i)
      invariant walk == Climb(Join(h), UpTurns(Shr(m, i), Shr(last, i)), acc, From(proof, i))
    {
      InnerTurn(m, last, i);
      HalfIsDivision(Shr(m, i));
      if Shr(m, i) % 2 == 0 {
        acc := h.node(acc, proof[i]);
      } else {
        acc := h.node(proof[i], acc);
      }
    }
  }

  /** The levels of the right edge, whose neighbours are all on the left. */
  method ClimbBorder<H(==)>(h: Hasher<H>, leaf: H, proof: seq<H>, inner: nat, border: nat) returns (acc: H)
    requires |proof| == inner + border
    ensures Climb(Join(h), AllRight(border), leaf, From(proof, inner)) == Some(acc)
  {
    acc := leaf;
    for j := inner to |proof|
      invariant Climb(Join(h), AllRight(border), leaf, From(proof, inner)) ==
        Climb(Join(h), AllRight(|proof| - j), acc, From(proof, j))
    {
      acc := h.node(proof[j], acc);
    }
  }

  lemma ConsistencyIsClimb<H>(h: Hasher<H>, m: nat, n: nat, proof: seq<H>, seed: Option<H>)
    requires 0 < m < n
    ensures ConsistencyWalk(h, PrefixTurns(m, n), TopDown(proof), seed) ==
      Begin(Grow(h), Both(), BeginTurns(m - 1, n - 1), From(proof, 0), seed)
  {
    var _ := BeginTurnsAreTurns(m, n, 0, PrefixTurns(m, n));
    BottomUp(proof);
    BeginIsTreeBegin(Grow(h), Both(), PrefixTurns(m, n), TopDown(proof), seed);
  }

  method VerifyConsistency<H(==)>(h: Hasher<H>, m: nat, n: nat, proof: seq<H>, rootM: H, rootN: H)
    returns (ok: bool)
    ensures ok == AcceptsConsistency(h, m, n, proof, rootM, rootN)
  {
    if m == 0 || m > n {
      return false;
    }
    if m == n {
      return proof == [] && rootM == rootN;
    }
    ConsistencyIsClimb(h, m, n, proof, Some(rootM));
    var node, last := SkipFullLevels(m - 1, n - 1);
    RightTurns(node, last);
    var it, fr, sr := 0, rootM, rootM;
    if node > 0 {
      if it == |proof| {
        return false;
      }
      fr, sr := proof[it], proof[it];
      it := it + 1;
    }
    last, fr, sr, it, ok := ClimbBoth(h, node, last, fr, sr, proof, it);
    if !ok {
      return;
    }
    sr, it, ok := ClimbNew(h, last, fr, sr, proof, it);
    if !ok {
      return;
    }
    ok := it == |proof| && fr == rootM && sr == rootN;
  }

  /** Skip the levels at which the old tree is made of full pairs. */
  method SkipFullLevels(m: nat, n: nat) returns (node: nat, last: nat)
    requires m <= n
    ensures node <= last && BeginTurns(m, n) == UpTurns(node, last)
  {
    node, last := m, n;
    HalfIsDivision(node);
    while node % 2 == 1
      invariant node <= last && (Odd(node) <==> node % 2 == 1) && BeginTurns(m, n) == BeginTurns(node, last)
      decreases node
    {
      HalfIsDivision(last);
      node, last := node / 2, last / 2;
      HalfIsDivision(node);
    }
  }

  /** Climb while the old tree has a position of its own: join both roots, or only the new one. */
  method ClimbBoth<H(==)>(h: Hasher<H>, m: nat, n: nat, older: H, newer: H, proof: seq<H>, from: nat)
    returns (last: nat, fr: H, sr: H, it: nat, ok: bool)
    requires m <= n && from <= |proof|
    ensures ok ==> it <= |proof|
    ensures Climb(Grow(h), UpTurns(m, n), Heads(older, newer), From(proof, from)) ==
      if ok then Climb(Grow(h), UpTurns(0, last), Heads(fr, sr), From(proof, it)) else None
  {
    var node: nat := m;
    last, fr, sr, it, ok := n, older, newer, from, true;
    ghost var walk := Climb(Grow(h), UpTurns(m, n), Heads(older, newer), From(proof, from));
    while node > 0
      invariant node <= last && it <= |proof| && ok
      invariant walk == Climb(Grow(h), UpTurns(node, last), Heads(fr, sr), From(proof, it))
      decreases node
    {
      HalfIsDivision(node);
      HalfIsDivision(last);
      if node % 2 == 1 {
        if it == |proof| {
          ok := false;
          return;
        }
        fr, sr, it := h.node(proof[it], fr), h.node(proof[it], sr), it + 1;
      } else if node < last {
        if it == |proof| {
          ok := false;
          return;
        }
        sr, it := h.node(sr, proof[it]), it + 1;
      }
      node, last := node / 2, last / 2;
    }
  }

  /** Climb the rest of the new tree. */
  method ClimbNew<H(==)>(h: Hasher<H>, n: nat, older: H, newer: H, proof: seq<H>, from: nat)
    returns (sr: H, it: nat, ok: bool)
    requires from <= |proof|
    ensures ok ==> it <= |proof|
    ensures Climb(Grow(h), UpTurns(0, n), Heads(older, newer), From(proof, from)) ==
      if ok && it == |proof| then Some(Heads(older, sr)) else None
  {
    var last: nat := n;
    sr, it, ok := newer, from, true;
    ghost var walk := Climb(Grow(h), UpTurns(0, n), Heads(older, newer), From(proof, from));
    while last > 0
      invariant it <= |proof| && ok
      invariant walk == Climb(Grow(h), UpTurns(0, last), Heads(older, sr), From(proof, it))
    {
      HalfIsDivision(last);
      if it == |proof| {
        ok := false;
        return;
      }
      sr, it := h.node(sr, proof[it]), it + 1;
      last := last / 2;
    }
  }
}
