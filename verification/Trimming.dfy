/** Trimming of ASCII text. */
module Trimming {
  predicate IsSpace(c: char)
  {
    c == ' ' || '\t' <= c <= '\r'
  }

  function TrimEnd(s: string): string
  {
    if s != [] && IsSpace(s[|s| - 1]) then TrimEnd(s[..|s| - 1]) else s
  }

  function TrimStart(s: string): string
  {
    if s != [] && IsSpace(s[0]) then TrimStart(s[1..]) else s
  }

  predicate AllSpaces(s: string)
  {
    forall i :: 0 <= i < |s| ==> IsSpace(s[i])
  }

  lemma {:induction false} TrimEndDrops(s: string, space: string)
    requires AllSpaces(space) && (s == [] || !IsSpace(s[|s| - 1]))
    ensures TrimEnd(s + space) == s
    decreases |space|
  {
    if space == [] {
      assert s + space == s;
    } else {
      var all := s + space;
      assert all[..|all| - 1] == s + space[..|space| - 1];
      TrimEndDrops(s, space[..|space| - 1]);
    }
  }

  lemma {:induction false} TrimStartDrops(space: string, s: string)
    requires AllSpaces(space) && (s == [] || !IsSpace(s[0]))
    ensures TrimStart(space + s) == s
    decreases |space|
  {
    if space == [] {
      assert space + s == s;
    } else {
      assert (space + s)[1..] == space[1..] + s;
      TrimStartDrops(space[1..], s);
    }
  }

  /** Trimming takes away the white space around a text. */
  lemma TrimDrops(lead: string, s: string, trail: string)
    requires AllSpaces(lead) && AllSpaces(trail) && s != [] && !IsSpace(s[0]) && !IsSpace(s[|s| - 1])
    ensures TrimStart(TrimEnd(lead + s + trail)) == s
  {
    TrimEndDrops(lead + s, trail);
    TrimStartDrops(lead, s);
  }
}
