/** Merkle trees walked from the top: what a walk accepts, and why. A place in a tree is the list
  * of turns that lead there, false for left and true for right; a path is a list of siblings,
  * from the top down.
  *
  * The node hash is a parameter, so nothing is assumed about it: soundness says "or two
  * different pairs, both hashed by the computations at hand, have the same hash".
  */
module MerkleTrees {
  import opened Wrappers
  import opened Lists

  /** The hash of a pair of children, and the hash of the empty tree. */
  datatype Hasher<!H> = Hasher(node: (H, H) -> H, empty: H)

  datatype Tree<H> = Leaf(leaf: H) | Node(left: Tree<H>, right: Tree<H>)

  type Turns = List<bool>

  function Hash<H>(h: Hasher<H>, t: Tree<H>): H
  {
    match t
    case Leaf(x) => x
    case Node(l, r) => h.node(Hash(h, l), Hash(h, r))
  }

  predicate Clash<H(==)>(h: Hasher<H>, p: (H, H), q: (H, H))
  {
    p != q && h.node(p.0, p.1) == h.node(q.0, q.1)
  }

  /** Two different pairs in s have the same node hash. */
  ghost predicate Collides<H(!new)>(h: Hasher<H>, s: set<(H, H)>)
  {
    exists p, q {:trigger Clash(h, p, q)} :: p in s && q in s && Clash(h, p, q)
  }

  lemma SamePair<H(!new)>(h: Hasher<H>, a: H, b: H, c: H, d: H, s: set<(H, H)>)
    requires (a, b) in s && (c, d) in s && !Collides(h, s) && h.node(a, b) == h.node(c, d)
    ensures a == c && b == d
  {
    assert !Clash(h, (a, b), (c, d));
  }

  /** Every pair hashed by Hash is in s. */
  ghost predicate HashWithin<H>(h: Hasher<H>, t: Tree<H>, s: set<(H, H)>)
  {
    match t
    case Leaf(_) => true
    case Node(l, r) => (Hash(h, l), Hash(h, r)) in s && HashWithin(h, l, s) && HashWithin(h, r, s)
  }

  predicate SameShape<H>(a: Tree<H>, b: Tree<H>)
  {
    match a
    case Leaf(_) => b.Leaf?
    case Node(l, r) => b.Node? && SameShape(l, b.left) && SameShape(r, b.right)
  }

  /** A hash determines a tree of known shape, if no hashed pairs collide. */
  lemma {:induction false} HashInjective<H(!new)>(h: Hasher<H>, a: Tree<H>, b: Tree<H>, s: set<(H, H)>)
    requires SameShape(a, b) && Hash(h, a) == Hash(h, b)
    requires HashWithin(h, a, s) && HashWithin(h, b, s) && !Collides(h, s)
    ensures a == b
  {
    match a
    case Leaf(_) =>
    case Node(l, r) =>
      SamePair(h, Hash(h, l), Hash(h, r), Hash(h, b.left), Hash(h, b.right), s);
      HashInjective(h, l, b.left, s);
      HashInjective(h, r, b.right, s);
  }

  // ---------------------------------------------------------------------------------
  // Walks
  // ---------------------------------------------------------------------------------

  /** A walk carries a state c up the tree; step(right, c, p) moves it one level up as the
    * right or left child next to p. */
  function StepTop<C, H>(step: (bool, C, H) -> C, right: bool, c: Option<C>, p: H): Option<C>
  {
    if c.None? then None else Some(step(right, c.value, p))
  }

  function TreeWalk<C, H>(step: (bool, C, H) -> C, turns: Turns, c: C, path: List<H>): Option<C>
    decreases turns
  {
    if turns.Nil? then (if path.Nil? then Some(c) else None)
    else if path.Nil? then None
    else StepTop(step, turns.head, TreeWalk(step, turns.tail, c, path.tail), path.head)
  }

  /** A consistency walk: it starts at the seed, unless some turn was right, else at the last
    * element of the path. */
  function TreeBegin<C, H>(
      step: (bool, C, H) -> C, init: H -> C, turns: Turns, path: List<H>, seed: Option<H>): Option<C>
    decreases turns
  {
    if turns.Nil? then
      (if seed.Some? then (if path.Nil? then Some(init(seed.value)) else None)
       else (if path.Cons? && path.tail.Nil? then Some(init(path.head)) else None))
    else if path.Nil? then None
    else
      var c := TreeBegin(step, init, turns.tail, path.tail, if turns.head then None else seed);
      StepTop(step, turns.head, c, path.head)
  }

  // ---------------------------------------------------------------------------------
  // Inclusion
  // ---------------------------------------------------------------------------------

  /** A value moves up as the right or the left child next to p. */
  function Join<H>(h: Hasher<H>): (bool, H, H) -> H
  {
    (right, c, p) => if right then h.node(p, c) else h.node(c, p)
  }

  function InclusionWalk<H>(h: Hasher<H>, leaf: H, turns: Turns, path: List<H>): Option<H>
  {
    TreeWalk(Join(h), turns, leaf, path)
  }

  /** The turns lead to the given leaf of the tree. */
  predicate LeadsTo<H(==)>(t: Tree<H>, turns: Turns, leaf: H)
  {
    match turns
    case Nil => t == Leaf(leaf)
    case Cons(right, rest) => t.Node? && LeadsTo(if right then t.right else t.left, rest, leaf)
  }

  /** The turns end at some leaf. */
  predicate IsPlace<H>(t: Tree<H>, turns: Turns)
  {
    match turns
    case Nil => t.Leaf?
    case Cons(right, rest) => t.Node? && IsPlace(if right then t.right else t.left, rest)
  }

  lemma {:induction false} LeadsToPlace<H>(t: Tree<H>, turns: Turns, leaf: H)
    requires LeadsTo(t, turns, leaf)
    ensures IsPlace(t, turns)
  {
    match turns
    case Nil =>
    case Cons(right, rest) => LeadsToPlace(if right then t.right else t.left, rest, leaf);
  }

  lemma {:induction false} OnePlaceOneLeaf<H>(t: Tree<H>, turns: Turns, a: H, b: H)
    requires LeadsTo(t, turns, a) && LeadsTo(t, turns, b)
    ensures a == b
  {
    match turns
    case Nil =>
    case Cons(right, rest) => OnePlaceOneLeaf(if right then t.right else t.left, rest, a, b);
  }

  /** The honest inclusion proof: the siblings along the way. */
  function Siblings<H>(h: Hasher<H>, t: Tree<H>, turns: Turns): List<H>
    decreases turns
  {
    if turns.Nil? || t.Leaf? then Nil
    else if turns.head then Cons(Hash(h, t.left), Siblings(h, t.right, turns.tail))
    else Cons(Hash(h, t.right), Siblings(h, t.left, turns.tail))
  }

  lemma {:induction false} WalkComplete<H>(h: Hasher<H>, t: Tree<H>, turns: Turns, leaf: H)
    requires LeadsTo(t, turns, leaf)
    ensures InclusionWalk(h, leaf, turns, Siblings(h, t, turns)) == Some(Hash(h, t))
    decreases turns
  {
    match turns
    case Nil =>
    case Cons(right, rest) => WalkComplete(h, if right then t.right else t.left, rest, leaf);
  }

  /** Every pair hashed by InclusionWalk is in s. */
  ghost predicate InclusionWithin<H>(h: Hasher<H>, leaf: H, turns: Turns, path: List<H>, s: set<(H, H)>)
    decreases turns
  {
    turns.Nil? || path.Nil? ||
    var w := InclusionWalk(h, leaf, turns.tail, path.tail);
    w.None? ||
    ((if turns.head then (path.head, w.value) else (w.value, path.head)) in s &&
     InclusionWithin(h, leaf, turns.tail, path.tail, s))
  }

  /** An accepted walk starts at the leaf that is there, along its siblings. */
  lemma {:induction false} WalkSound<H(!new)>(
      h: Hasher<H>, t: Tree<H>, leaf: H, turns: Turns, path: List<H>, s: set<(H, H)>)
    requires IsPlace(t, turns) && InclusionWalk(h, leaf, turns, path) == Some(Hash(h, t))
    requires HashWithin(h, t, s) && InclusionWithin(h, leaf, turns, path, s) && !Collides(h, s)
    ensures LeadsTo(t, turns, leaf) && path == Siblings(h, t, turns)
    decreases turns
  {
    match turns
    case Nil =>
    case Cons(right, rest) =>
      var w := InclusionWalk(h, leaf, rest, path.tail).value;
      if right {
        SamePair(h, path.head, w, Hash(h, t.left), Hash(h, t.right), s);
        WalkSound(h, t.right, leaf, rest, path.tail, s);
      } else {
        SamePair(h, w, path.head, Hash(h, t.left), Hash(h, t.right), s);
        WalkSound(h, t.left, leaf, rest, path.tail, s);
      }
  }

  // ---------------------------------------------------------------------------------
  // Consistency
  // ---------------------------------------------------------------------------------

  /** The values carried up an old tree, which ends at the current position, and a new one. */
  datatype Heads<H> = Heads(older: H, newer: H)

  function Both<H>(): H -> Heads<H>
  {
    x => Heads(x, x)
  }

  /** Next to p, as a right child both trees grow; as a left child only the new one does. */
  function Grow<H>(h: Hasher<H>): (bool, Heads<H>, H) -> Heads<H>
  {
    (right: bool, c: Heads<H>, p: H) =>
      if right then Heads(h.node(p, c.older), h.node(p, c.newer)) else Heads(c.older, h.node(c.newer, p))
  }

  function ConsistencyWalk<H>(h: Hasher<H>, turns: Turns, path: List<H>, seed: Option<H>): Option<Heads<H>>
  {
    TreeBegin(Grow(h), Both(), turns, path, seed)
  }

  /** The turns end inside the tree. */
  predicate IsWithin<H>(t: Tree<H>, turns: Turns)
  {
    match turns
    case Nil => true
    case Cons(right, rest) => t.Node? && IsWithin(if right then t.right else t.left, rest)
  }

  /** The tree of everything up to where the turns end. */
  function Prefix<H>(t: Tree<H>, turns: Turns): Tree<H>
    decreases turns
  {
    if turns.Nil? || t.Leaf? then t
    else if turns.head then Node(t.left, Prefix(t.right, turns.tail))
    else Prefix(t.left, turns.tail)
  }

  /** The honest consistency proof: the siblings along the way and, unless the old root is known,
    * the hash at its end. */
  function Witnesses<H>(h: Hasher<H>, t: Tree<H>, turns: Turns, known: bool): List<H>
    decreases turns
  {
    if turns.Nil? || t.Leaf? then (if known then Nil else Cons(Hash(h, t), Nil))
    else if turns.head then Cons(Hash(h, t.left), Witnesses(h, t.right, turns.tail, false))
    else Cons(Hash(h, t.right), Witnesses(h, t.left, turns.tail, known))
  }

  lemma {:induction false} BeginComplete<H>(h: Hasher<H>, t: Tree<H>, turns: Turns, known: bool, seed: Option<H>)
    requires IsWithin(t, turns) && seed == if known then Some(Hash(h, Prefix(t, turns))) else None
    ensures ConsistencyWalk(h, turns, Witnesses(h, t, turns, known), seed) ==
      Some(Heads(Hash(h, Prefix(t, turns)), Hash(h, t)))
    decreases turns
  {
    match turns
    case Nil =>
    case Cons(right, rest) =>
      if right {
        BeginComplete(h, t.right, rest, false, None);
      } else {
        BeginComplete(h, t.left, rest, known, seed);
      }
  }

  /** Every pair hashed by ConsistencyWalk is in s. */
  ghost predicate ConsistencyWithin<H>(h: Hasher<H>, turns: Turns, path: List<H>, seed: Option<H>, s: set<(H, H)>)
    decreases turns
  {
    turns.Nil? || path.Nil? ||
    var below := if turns.head then None else seed;
    var w := ConsistencyWalk(h, turns.tail, path.tail, below);
    w.None? ||
    ((if turns.head then (path.head, w.value.older) in s && (path.head, w.value.newer) in s
      else (w.value.newer, path.head) in s) &&
     ConsistencyWithin(h, turns.tail, path.tail, below, s))
  }

  /** A walk that ends in the hash of a tree goes along its honest witnesses, and carries up the hash
    * of the tree's prefix, whatever it started from. */
  lemma {:induction false} BeginSound<H(!new)>(
      h: Hasher<H>, t: Tree<H>, turns: Turns, path: List<H>, seed: Option<H>, w: Heads<H>, s: set<(H, H)>)
    requires IsWithin(t, turns) && ConsistencyWalk(h, turns, path, seed) == Some(w) && w.newer == Hash(h, t)
    requires HashWithin(h, t, s) && ConsistencyWithin(h, turns, path, seed, s) && !Collides(h, s)
    ensures w.older == Hash(h, Prefix(t, turns)) && path == Witnesses(h, t, turns, seed.Some?)
    ensures HashWithin(h, Prefix(t, turns), s)
    decreases turns
  {
    match turns
    case Nil =>
    case Cons(right, rest) =>
      var below := if right then None else seed;
      var v := ConsistencyWalk(h, rest, path.tail, below).value;
      if right {
        SamePair(h, path.head, v.newer, Hash(h, t.left), Hash(h, t.right), s);
        BeginSound(h, t.right, rest, path.tail, below, v, s);
      } else {
        SamePair(h, v.newer, path.head, Hash(h, t.left), Hash(h, t.right), s);
        BeginSound(h, t.left, rest, path.tail, below, v, s);
      }
  }

  // ---------------------------------------------------------------------------------
  // Climbing from the bottom
  // ---------------------------------------------------------------------------------

  /** Climb along turns that are given from the bottom up, using up the proof. */
  function Climb<C, H>(step: (bool, C, H) -> C, up: Turns, c: C, proof: List<H>): Option<C>
    decreases up
  {
    if up.Nil? then (if proof.Nil? then Some(c) else None)
    else if proof.Nil? then None
    else Climb(step, up.tail, step(up.head, c, proof.head), proof.tail)
  }

  predicate HasRight(turns: Turns)
  {
    turns.Cons? && (turns.head || HasRight(turns.tail))
  }

  /** Climb from the seed if no turn is right, else from the first element of the proof. */
  function Begin<C, H>(
      step: (bool, C, H) -> C, init: H -> C, up: Turns, proof: List<H>, seed: Option<H>): Option<C>
  {
    if seed.Some? && !HasRight(up) then Climb(step, up, init(seed.value), proof)
    else if proof.Nil? then None
    else Climb(step, up, init(proof.head), proof.tail)
  }

  lemma {:induction false} ClimbAndStep<C, H>(
      step: (bool, C, H) -> C, up: Turns, right: bool, c: C, proof: List<H>, p: H)
    ensures Climb(step, Append(up, Cons(right, Nil)), c, Append(proof, Cons(p, Nil))) ==
      StepTop(step, right, Climb(step, up, c, proof), p)
    decreases up
  {
    match up
    case Nil =>
    case Cons(d, rest) =>
      if proof.Cons? {
        ClimbAndStep(step, rest, right, step(d, c, proof.head), proof.tail, p);
      } else {
        ClimbNeedsProof(step, rest, right, step(d, c, p));
      }
  }

  lemma {:induction false} ClimbNeedsProof<C, H>(step: (bool, C, H) -> C, up: Turns, right: bool, c: C)
    ensures Climb(step, Append(up, Cons(right, Nil)), c, Nil) == None
  {
  }

  /** Climbing is the walk from the top, read backwards. */
  lemma {:induction false} ClimbIsTreeWalk<C, H>(step: (bool, C, H) -> C, turns: Turns, c: C, path: List<H>)
    ensures Climb(step, Reverse(turns), c, Reverse(path)) == TreeWalk(step, turns, c, path)
    decreases turns
  {
    match turns
    case Nil => ReverseIsNil(path);
    case Cons(right, rest) =>
      if path.Cons? {
        ClimbIsTreeWalk(step, rest, c, path.tail);
        ClimbAndStep(step, Reverse(rest), right, c, Reverse(path.tail), path.head);
      } else {
        ClimbNeedsProof(step, Reverse(rest), right, c);
      }
  }

  lemma ReverseIsNil<T>(a: List<T>)
    ensures Reverse(a) == Nil <==> a == Nil
  {
  }

  lemma {:induction false} HasRightAtEnd(up: Turns, right: bool)
    ensures HasRight(Append(up, Cons(right, Nil))) <==> HasRight(up) || right
  {
    match up
    case Nil =>
    case Cons(_, rest) => HasRightAtEnd(rest, right);
  }

  lemma {:induction false} BeginIsTreeBegin<C, H>(
      step: (bool, C, H) -> C, init: H -> C, turns: Turns, path: List<H>, seed: Option<H>)
    ensures Begin(step, init, Reverse(turns), Reverse(path), seed) == TreeBegin(step, init, turns, path, seed)
    decreases turns
  {
    match turns
    case Nil => BeginAtTop(step, init, path, seed);
    case Cons(right, rest) =>
      HasRightAtEnd(Reverse(rest), right);
      if path.Nil? {
        if seed.Some? { ClimbNeedsProof(step, Reverse(rest), right, init(seed.value)); }
      } else {
        BeginIsTreeBegin(step, init, rest, path.tail, if right then None else seed);
        BeginAndStep(step, init, Reverse(rest), right, Reverse(path.tail), path.head, seed);
      }
  }

  lemma BeginAtTop<C, H>(step: (bool, C, H) -> C, init: H -> C, path: List<H>, seed: Option<H>)
    ensures Begin(step, init, Nil, Reverse(path), seed) == TreeBegin(step, init, Nil, path, seed)
  {
    ReverseIsNil(path);
    if path.Cons? {
      ReverseIsNil(path.tail);
      if path.tail.Cons? { assert Append(Reverse(path.tail).tail, Cons(path.head, Nil)).Cons?; }
    }
  }

  lemma BeginAndStep<C, H>(
      step: (bool, C, H) -> C, init: H -> C, up: Turns, right: bool, proof: List<H>, p: H, seed: Option<H>)
    ensures Begin(step, init, Append(up, Cons(right, Nil)), Append(proof, Cons(p, Nil)), seed) ==
      StepTop(step, right, Begin(step, init, up, proof, if right then None else seed), p)
  {
    HasRightAtEnd(up, right);
    if seed.Some? { ClimbAndStep(step, up, right, init(seed.value), proof, p); }
    if proof.Cons? {
      ClimbAndStep(step, up, right, init(proof.head), proof.tail, p);
    } else {
      ClimbNeedsProof(step, up, right, init(p));
    }
  }

  lemma {:induction false} ClimbLength<C, H>(step: (bool, C, H) -> C, up: Turns, c: C, proof: List<H>)
    ensures Climb(step, up, c, proof).Some? <==> Length(up) == Length(proof)
    decreases up
  {
    if up.Nil? || proof.Nil? {
    } else {
      ClimbLength(step, up.tail, step(up.head, c, proof.head), proof.tail);
    }
  }
}
