/** The way to a leaf as a list of turns: read off the splits of a tree from the top down, or off the
  * bits of a position from the bottom up. The two are the same list in opposite directions:
  * UpTurnsAreTurns and, for the end of an old tree in a new one, BeginTurnsAreTurns. */
module MerkleTurns {
  import opened Lists
  import opened MerkleTrees

  // ---------------------------------------------------------------------------------
  // Halving, powers of two, bits
  // ---------------------------------------------------------------------------------

  function Half(n: nat): (r: nat)
    ensures 2 * r <= n <= 2 * r + 1
  {
    n / 2
  }

  predicate Odd(n: nat)
  {
    n == 2 * Half(n) + 1
  }

  lemma HalfIsDivision(n: nat)
    ensures Half(n) == n / 2 && (Odd(n) <==> n % 2 == 1)
  {
  }

  function Pow2(e: nat): (k: nat)
    ensures k >= 1
  {
    if e == 0 then 1 else 2 * Pow2(e - 1)
  }

  function Doubled(k: nat, n: nat): (r: nat)
    requires 1 <= k < n
    ensures k <= r < n <= 2 * r
    decreases n - k
  {
    if 2 * k < n then Doubled(2 * k, n) else k
  }

  /** The largest power of two below n: where a tree of n leaves is split. */
  function Split(n: nat): (k: nat)
    ensures k >= 1
    ensures n >= 2 ==> k < n <= 2 * k
  {
    if n < 2 then 1 else Doubled(1, n)
  }

  method LargestPow2Lt(n: nat) returns (k: nat)
    requires n >= 2
    ensures k == Split(n)
    ensures exists e: nat :: k == Pow2(e) && k < n <= 2 * k
  {
    k := 1;
    ghost var e := 0;
    while 2 * k < n
      invariant k == Pow2(e) && k < n && Doubled(k, n) == Split(n)
    {
      k, e := 2 * k, e + 1;
    }
  }

  lemma {:induction false} DoubledIsPow2(k: nat, n: nat, e: nat) returns (f: nat)
    requires 1 <= k < n && k == Pow2(e)
    ensures Doubled(k, n) == Pow2(f)
    decreases n - k
  {
    if 2 * k < n { f := DoubledIsPow2(2 * k, n, e + 1); } else { f := e; }
  }

  lemma {:induction false} Pow2Grows(e: nat, f: nat)
    requires e < f
    ensures 2 * Pow2(e) <= Pow2(f)
    decreases f
  {
    if f == e + 1 {
    } else {
      Pow2Grows(e, f - 1);
    }
  }

  /** Only one power of two is below n and not below half of n. */
  lemma SplitIsTheOnly(n: nat, e: nat)
    requires Pow2(e) < n <= 2 * Pow2(e)
    ensures Split(n) == Pow2(e)
  {
    var f := DoubledIsPow2(1, n, 0);
    if e < f { Pow2Grows(e, f); }
    if f < e { Pow2Grows(f, e); }
  }

  lemma SplitIsPow2(n: nat) returns (e: nat)
    requires n >= 2
    ensures Split(n) == Pow2(e)
  {
    e := DoubledIsPow2(1, n, 0);
  }

  lemma {:induction false} DoubledOfPrefix(k: nat, m: nat, n: nat)
    requires 1 <= k < m <= n && Doubled(k, n) < m
    ensures Doubled(k, m) == Doubled(k, n)
    decreases n - k
  {
    if 2 * k >= m {
    } else {
      DoubledOfPrefix(2 * k, m, n);
    }
  }

  lemma SplitOfPrefix(m: nat, n: nat)
    requires n > 1 && Split(n) < m <= n
    ensures Split(m) == Split(n)
  {
    DoubledOfPrefix(1, m, n);
  }

  /** x >> i */
  function Shr(x: nat, i: nat): nat
  {
    if i == 0 then x else Shr(Half(x), i - 1)
  }

  function Xor(a: nat, b: nat): nat
    decreases a + b
  {
    if a == 0 && b == 0 then 0
    else 2 * Xor(Half(a), Half(b)) + (if Odd(a) == Odd(b) then 0 else 1)
  }

  function BitLength(x: nat): nat
  {
    if x == 0 then 0 else 1 + BitLength(Half(x))
  }

  function CountOnes(x: nat): nat
  {
    if x == 0 then 0 else (if Odd(x) then 1 else 0) + CountOnes(Half(x))
  }

  function InnerProofSize(index: nat, size: nat): nat
    requires size > 0
  {
    BitLength(Xor(index, size - 1))
  }

  lemma {:induction false} XorZero(a: nat, b: nat)
    ensures Xor(a, b) == 0 <==> a == b
    decreases a + b
  {
    if a == 0 && b == 0 {
    } else {
      XorZero(Half(a), Half(b));
    }
  }

  /** The inner part of a path ends at the first level where index and last index meet. */
  lemma InnerLevels(a: nat, b: nat)
    ensures a == b ==> BitLength(Xor(a, b)) == 0
    ensures a != b ==> BitLength(Xor(a, b)) == 1 + BitLength(Xor(Half(a), Half(b)))
  {
    XorZero(a, b);
    if a != b { assert Half(Xor(a, b)) == Xor(Half(a), Half(b)); }
  }

  // ---------------------------------------------------------------------------------
  // The turns of the splits
  // ---------------------------------------------------------------------------------

  /** The turns to leaf m of a tree of n leaves. */
  function TurnsTo(m: nat, n: nat): Turns
    requires m < n
    decreases n
  {
    if n == 1 then Nil
    else
      var k := Split(n);
      if m < k then Cons(false, TurnsTo(m, k)) else Cons(true, TurnsTo(m - k, n - k))
  }

  /** The turns to the end of the first m of n leaves. */
  function PrefixTurns(m: nat, n: nat): Turns
    requires 0 < m <= n
    decreases n
  {
    if m == n then Nil
    else
      var k := Split(n);
      if m <= k then Cons(false, PrefixTurns(m, k)) else Cons(true, PrefixTurns(m - k, n - k))
  }

  // ---------------------------------------------------------------------------------
  // The turns over the bits of a position
  // ---------------------------------------------------------------------------------

  /** Only a last, even position has no neighbour; its value moves up as it is. */
  predicate Alone(m: nat, last: nat)
  {
    m == last && !Odd(m)
  }

  /** The turns from position m of a level whose last position is `last`, bottom up. */
  function UpTurns(m: nat, last: nat): Turns
    requires m <= last
    decreases last
  {
    if last == 0 then Nil
    else if Alone(m, last) then UpTurns(Half(m), Half(last))
    else Cons(Odd(m), UpTurns(Half(m), Half(last)))
  }

  /** The same for a consistency proof: skip the levels at which the old tree, which ends at
    * position m, is made of full pairs. */
  function BeginTurns(m: nat, last: nat): Turns
    requires m <= last
    decreases m
  {
    if Odd(m) then BeginTurns(Half(m), Half(last)) else UpTurns(m, last)
  }

  lemma HalfMinus(n: nat, k: nat, j: nat)
    requires n >= k == 2 * j
    ensures Half(n - k) == Half(n) - j && Odd(n - k) == Odd(n)
  {
  }

  /** The last turn is the top of the tree: before it come the turns in the left half, ... */
  lemma {:induction false} UpTurnsLeft(m: nat, last: nat, e: nat, k: nat)
    requires k == Pow2(e) && m < k <= last < 2 * k
    ensures UpTurns(m, last) == Append(UpTurns(m, k - 1), Cons(false, Nil))
    decreases e
  {
    if e == 0 {
    } else {
      var j := Pow2(e - 1);
      assert Half(k - 1) == j - 1 && Odd(k - 1);
      UpTurnsLeft(Half(m), Half(last), e - 1, j);
    }
  }

  /** ... or in the right half. */
  lemma {:induction false} UpTurnsRight(m: nat, last: nat, e: nat, k: nat)
    requires k == Pow2(e) && k <= m <= last < 2 * k
    ensures UpTurns(m, last) == Append(UpTurns(m - k, last - k), Cons(true, Nil))
    decreases e
  {
    if e == 0 {
    } else {
      var j := Pow2(e - 1);
      HalfMinus(m, k, j);
      HalfMinus(last, k, j);
      UpTurnsRight(Half(m), Half(last), e - 1, j);
    }
  }

  lemma TurnsTop(m: nat, n: nat, k: nat, rest: Turns)
    requires m < n && n > 1 && k == Split(n)
    requires rest == if m < k then UpTurns(m, k - 1) else UpTurns(m - k, n - 1 - k)
    ensures UpTurns(m, n - 1) == Append(rest, Cons(m >= k, Nil))
  {
    var e := SplitIsPow2(n);
    if m < k {
      UpTurnsLeft(m, n - 1, e, k);
    } else {
      UpTurnsRight(m, n - 1, e, k);
    }
  }

  /** The turns over the bits are those of the splits, read backwards. */
  lemma {:induction false} UpTurnsAreTurns(m: nat, n: nat, down: Turns) returns (up: Turns)
    requires m < n && down == TurnsTo(m, n)
    ensures up == Reverse(down) && up == UpTurns(m, n - 1)
    decreases n
  {
    if n == 1 {
      up := Nil;
    } else {
      var k := Split(n);
      var rest;
      if m < k {
        rest := UpTurnsAreTurns(m, k, down.tail);
      } else {
        rest := UpTurnsAreTurns(m - k, n - k, down.tail);
      }
      TurnsTop(m, n, k, rest);
      up := Append(rest, Cons(m >= k, Nil));
    }
  }

  lemma {:induction false} BeginTurnsLeft(m: nat, last: nat, e: nat, k: nat)
    requires k == Pow2(e) && m < k <= last < 2 * k
    ensures BeginTurns(m, last) == Append(BeginTurns(m, k - 1), Cons(false, Nil))
    decreases e
  {
    if Odd(m) {
      var j := Pow2(e - 1);
      assert Half(k - 1) == j - 1;
      BeginTurnsLeft(Half(m), Half(last), e - 1, j);
    } else {
      UpTurnsLeft(m, last, e, k);
    }
  }

  lemma {:induction false} BeginTurnsRight(m: nat, last: nat, e: nat, k: nat)
    requires k == Pow2(e) && k <= m < last < 2 * k
    ensures BeginTurns(m, last) == Append(BeginTurns(m - k, last - k), Cons(true, Nil))
    decreases e
  {
    var j := Pow2(e - 1);
    HalfMinus(m, k, j);
    HalfMinus(last, k, j);
    if Odd(m) {
      BeginTurnsRight(Half(m), Half(last), e - 1, j);
    } else {
      UpTurnsRight(m, last, e, k);
    }
  }

  lemma {:induction false} BeginTurnsOfFull(e: nat)
    ensures BeginTurns(Pow2(e) - 1, Pow2(e) - 1) == Nil
  {
    if e == 0 {
    } else {
      assert Half(Pow2(e) - 1) == Pow2(e - 1) - 1;
      BeginTurnsOfFull(e - 1);
    }
  }

  lemma PrefixTop(m: nat, n: nat, k: nat, rest: Turns)
    requires 0 < m < n && k == Split(n)
    requires rest == if m <= k then BeginTurns(m - 1, k - 1) else BeginTurns(m - 1 - k, n - 1 - k)
    ensures BeginTurns(m - 1, n - 1) == Append(rest, Cons(m > k, Nil))
  {
    var e := SplitIsPow2(n);
    if m <= k {
      BeginTurnsLeft(m - 1, n - 1, e, k);
    } else {
      BeginTurnsRight(m - 1, n - 1, e, k);
    }
  }

  /** So are the turns of a consistency proof, in a tree that is larger than the old one or full. */
  lemma {:induction false} BeginTurnsAreTurns(m: nat, n: nat, e: nat, down: Turns) returns (up: Turns)
    requires 0 < m <= n && (m < n || n == Pow2(e)) && down == PrefixTurns(m, n)
    ensures up == Reverse(down) && up == BeginTurns(m - 1, n - 1)
    decreases n
  {
    if m == n {
      BeginTurnsOfFull(e);
      up := Nil;
    } else {
      var k := Split(n);
      var rest;
      if m <= k {
        var f := SplitIsPow2(n);
        rest := BeginTurnsAreTurns(m, k, f, down.tail);
      } else {
        rest := BeginTurnsAreTurns(m - k, n - k, 0, down.tail);
      }
      PrefixTop(m, n, k, rest);
      up := Append(rest, Cons(m > k, Nil));
    }
  }

  lemma {:induction false} RightTurns(m: nat, last: nat)
    requires m <= last
    ensures HasRight(UpTurns(m, last)) <==> m > 0
    decreases last
  {
    if last == 0 {
    } else {
      RightTurns(Half(m), Half(last));
    }
  }

  // ---------------------------------------------------------------------------------
  // Inner and border levels
  // ---------------------------------------------------------------------------------

  /** The verifier's inner + border count is the number of turns. */
  lemma {:induction false} InnerPlusBorder(m: nat, last: nat)
    requires m <= last
    ensures BitLength(Xor(m, last)) + CountOnes(Shr(m, BitLength(Xor(m, last)))) == Length(UpTurns(m, last))
    decreases last
  {
    InnerLevels(m, last);
    if last == 0 {
    } else {
      InnerLevels(Half(m), Half(last));
      InnerPlusBorder(Half(m), Half(last));
    }
  }

  lemma {:induction false} InnerLevelsDiffer(m: nat, last: nat, i: nat)
    requires m <= last && i <= BitLength(Xor(m, last))
    ensures Shr(m, i) <= Shr(last, i)
    ensures Shr(m, i) == Shr(last, i) <==> i == BitLength(Xor(m, last))
    decreases i
  {
    InnerLevels(m, last);
    if i == 0 {
    } else {
      InnerLevelsDiffer(Half(m), Half(last), i - 1);
    }
  }

  lemma {:induction false} ShrNext(x: nat, i: nat)
    ensures Shr(x, i + 1) == Half(Shr(x, i))
    decreases i
  {
    if i == 0 {
    } else {
      ShrNext(Half(x), i - 1);
    }
  }

  lemma InnerTurn(m: nat, last: nat, i: nat)
    requires m <= last && i < BitLength(Xor(m, last))
    ensures Shr(m, i) <= Shr(last, i) && Shr(m, i + 1) <= Shr(last, i + 1)
    ensures UpTurns(Shr(m, i), Shr(last, i)) == Cons(Odd(Shr(m, i)), UpTurns(Shr(m, i + 1), Shr(last, i + 1)))
  {
    InnerLevelsDiffer(m, last, i);
    ShrNext(m, i);
    ShrNext(last, i);
  }

  function AllRight(n: nat): Turns
  {
    if n == 0 then Nil else Cons(true, AllRight(n - 1))
  }

  /** Once position and last position have met, only right-edge siblings are left. */
  lemma {:induction false} BorderTurns(x: nat)
    ensures UpTurns(x, x) == AllRight(CountOnes(x))
  {
    if x == 0 {
    } else {
      BorderTurns(Half(x));
    }
  }

  lemma BorderPlan(m: nat, n: nat, inner: nat)
    requires m < n && inner == InnerProofSize(m, n)
    ensures Shr(m, inner) <= Shr(n - 1, inner)
    ensures UpTurns(Shr(m, inner), Shr(n - 1, inner)) == AllRight(CountOnes(Shr(m, inner)))
  {
    InnerLevelsDiffer(m, n - 1, inner);
    BorderTurns(Shr(m, inner));
  }
}
