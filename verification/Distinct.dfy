/** Lists of names without repetition. */
module Distinct {
  predicate NoDup(s: seq<string>)
  {
    s == [] || (s[|s| - 1] !in s[..|s| - 1] && NoDup(s[..|s| - 1]))
  }

  lemma PushHasNoDup(s: seq<string>, x: string)
    requires NoDup(s) && x !in s
    ensures NoDup(s + [x])
  {
    assert (s + [x])[..|s|] == s;
  }

  function Without(s: seq<string>, x: string): seq<string>
  {
    if s == [] then []
    else
      var front, last := Without(s[..|s| - 1], x), s[|s| - 1];
      if last == x then front else front + [last]
  }

  lemma {:induction false} WithoutHas(s: seq<string>, x: string)
    ensures forall y :: y in Without(s, x) <==> y in s && y != x
  {
    if s == [] {
    } else {
      WithoutHas(s[..|s| - 1], x);
      assert s == s[..|s| - 1] + [s[|s| - 1]];
    }
  }

  lemma {:induction false} WithoutHasNoDup(s: seq<string>, x: string)
    requires NoDup(s)
    ensures NoDup(Without(s, x))
  {
    if s == [] {
    } else {
      var front := Without(s[..|s| - 1], x);
      WithoutHasNoDup(s[..|s| - 1], x);
      WithoutHas(s[..|s| - 1], x);
      if s[|s| - 1] != x { PushHasNoDup(front, s[|s| - 1]); }
    }
  }
}
