/** Tokens and lines of ASCII text. */
module SearchText {
  import opened Trimming

  // ---------------------------------------------------------------------------------
  // Tokens
  // ---------------------------------------------------------------------------------

  predicate IsWord(c: char)
  {
    'a' <= c <= 'z' || 'A' <= c <= 'Z' || '0' <= c <= '9' || c == '_'
  }

  function LowerChar(c: char): char
  {
    if 'A' <= c <= 'Z' then c - 'A' + 'a' else c
  }

  function Lower(s: string): string
  {
    seq(|s|, i requires 0 <= i < |s| => LowerChar(s[i]))
  }

  predicate WordsOnly(text: string, i: nat, j: nat)
    requires j <= |text|
  {
    forall k :: i <= k < j ==> IsWord(text[k])
  }

  /** text[i..j] is a maximal run of word characters. */
  predicate IsRun(text: string, i: nat, j: nat)
  {
    i < j <= |text| && WordsOnly(text, i, j) && (i == 0 || !IsWord(text[i - 1])) && (j == |text| || !IsWord(text[j]))
  }

  predicate RunReads(text: string, i: nat, j: nat, token: string)
  {
    IsRun(text, i, j) && i + 2 <= j && token == Lower(text[i..j])
  }

  /** A token is a maximal run of at least two word characters, in lower case. */
  ghost predicate HasToken(text: string, token: string)
  {
    exists i: nat, j: nat :: RunReads(text, i, j, token)
  }

  /** Runs that end before k. */
  ghost predicate HasTokenBefore(text: string, k: nat, token: string)
  {
    exists i: nat, j: nat :: j < k && RunReads(text, i, j, token)
  }

  lemma RunsShareNoStart(text: string, i: nat, j: nat, i': nat, j': nat)
    requires IsRun(text, i, j) && IsRun(text, i', j') && i < j' && i' < j
    ensures i == i' && j == j'
  {
  }

  ghost predicate TokensBefore(out: set<string>, text: string, k: nat)
  {
    forall token :: token in out <==> HasTokenBefore(text, k, token)
  }

  method Tokenize(text: string) returns (out: set<string>)
    ensures forall token :: token in out <==> HasToken(text, token)
  {
    out := {};
    var cur: string := [];
    ghost var start: nat := 0;
    var k := 0;
    while k < |text|
      invariant 0 <= start <= k <= |text| && WordsOnly(text, start, k) && (start == 0 || !IsWord(text[start - 1]))
      invariant cur == Lower(text[start..k]) && TokensBefore(out, text, k)
    {
      var c := text[k];
      if IsWord(c) {
        NoRunEnds(out, text, k);
        LowerOneMore(text, start, k);
        cur := cur + [LowerChar(c)];
      } else {
        RunEnds(out, text, start, k);
        if |cur| >= 2 { out := out + {cur}; }
        cur, start := [], k + 1;
      }
      k := k + 1;
    }
    RunEnds(out, text, start, |text|);
    if |cur| >= 2 { out := out + {cur}; }
    EveryRunEnds(out, text);
  }

  lemma LowerOneMore(text: string, start: nat, k: nat)
    requires start <= k < |text|
    ensures Lower(text[start..k + 1]) == Lower(text[start..k]) + [LowerChar(text[k])]
  {
  }

  lemma NoRunEnds(out: set<string>, text: string, k: nat)
    requires k < |text| && IsWord(text[k]) && TokensBefore(out, text, k)
    ensures TokensBefore(out, text, k + 1)
  {
    forall token ensures HasTokenBefore(text, k + 1, token) <==> HasTokenBefore(text, k, token) {
      if HasTokenBefore(text, k + 1, token) {
        var i: nat, j: nat :| j < k + 1 && RunReads(text, i, j, token);
        assert j < k;
      }
      if HasTokenBefore(text, k, token) {
        var i: nat, j: nat :| j < k && RunReads(text, i, j, token);
        assert j < k + 1;
      }
    }
  }

  lemma RunEnds(out: set<string>, text: string, start: nat, k: nat)
    requires start <= k <= |text| && WordsOnly(text, start, k) && (start == 0 || !IsWord(text[start - 1]))
    requires (k == |text| || !IsWord(text[k])) && TokensBefore(out, text, k)
    ensures TokensBefore(if k - start >= 2 then out + {Lower(text[start..k])} else out, text, k + 1)
  {
    forall token ensures HasTokenBefore(text, k + 1, token) <==>
      HasTokenBefore(text, k, token) || (k - start >= 2 && token == Lower(text[start..k]))
    {
      if HasTokenBefore(text, k + 1, token) {
        var i: nat, j: nat :| j < k + 1 && RunReads(text, i, j, token);
        if j == k { RunsShareNoStart(text, i, j, start, k); }
      }
      if HasTokenBefore(text, k, token) {
        var i: nat, j: nat :| j < k && RunReads(text, i, j, token);
        assert j < k + 1;
      }
      if k - start >= 2 && token == Lower(text[start..k]) {
        assert RunReads(text, start, k, token);
      }
    }
  }

  lemma EveryRunEnds(out: set<string>, text: string)
    requires TokensBefore(out, text, |text| + 1)
    ensures forall token :: token in out <==> HasToken(text, token)
  {
    forall token ensures HasTokenBefore(text, |text| + 1, token) <==> HasToken(text, token) {
      if HasToken(text, token) {
        var i: nat, j: nat :| RunReads(text, i, j, token);
        assert j < |text| + 1;
      }
    }
  }

  // ---------------------------------------------------------------------------------
  // Lines
  // ---------------------------------------------------------------------------------

  /** The first line feed at or after a, or the end of the text. */
  function EndOfLine(text: string, a: nat): (e: nat)
    requires a <= |text|
    ensures a <= e <= |text| && (e == |text| || text[e] == '\n')
    decreases |text| - a
  {
    if a == |text| || text[a] == '\n' then a else EndOfLine(text, a + 1)
  }

  /** A carriage return belongs to the line ending only before a line feed. */
  function WithoutReturn(text: string, a: nat, e: nat): (b: nat)
    requires a <= e <= |text|
    ensures a <= b <= e
  {
    if a < e < |text| && text[e - 1] == '\r' then e - 1 else e
  }

  /** The lines of text from index a on. */
  function Lines(text: string, a: nat): seq<string>
    requires a <= |text|
    decreases |text| - a
  {
    if a == |text| then []
    else
      var e := EndOfLine(text, a);
      [text[a..WithoutReturn(text, a, e)]] + Lines(text, if e < |text| then e + 1 else e)
  }

  lemma SliceOfSlice(text: string, a: nat, b: nat, i: nat, j: nat)
    requires a <= b <= |text| && i <= j <= b - a
    ensures text[a..b][i..j] == text[a + i..a + j]
  {
    var x, y := text[a..b][i..j], text[a + i..a + j];
    assert |x| == |y| && forall k :: 0 <= k < |x| ==> x[k] == y[k];
  }

  lemma SegmentRun(text: string, a: nat, b: nat, i: nat, j: nat)
    requires a <= b <= |text| && (a == 0 || !IsWord(text[a - 1])) && (b == |text| || !IsWord(text[b]))
    requires IsRun(text[a..b], i, j)
    ensures IsRun(text, a + i, a + j)
  {
    var segment := text[a..b];
    assert forall k :: 0 <= k < b - a ==> segment[k] == text[a + k];
    forall k | a + i <= k < a + j ensures IsWord(text[k]) {
      assert text[k] == segment[k - a];
    }
    assert i > 0 ==> segment[i - 1] == text[a + i - 1];
    assert a + j < b ==> segment[j] == text[a + j];
  }

  lemma SegmentTokens(text: string, a: nat, b: nat, token: string)
    requires a <= b <= |text| && (a == 0 || !IsWord(text[a - 1])) && (b == |text| || !IsWord(text[b]))
    requires HasToken(text[a..b], token)
    ensures HasToken(text, token)
  {
    var i: nat, j: nat :| RunReads(text[a..b], i, j, token);
    SegmentRun(text, a, b, i, j);
    SliceOfSlice(text, a, b, i, j);
    assert RunReads(text, a + i, a + j, token);
  }

  /** What is a token of a line is a token of the text. */
  lemma {:induction false} LineTokens(text: string, a: nat, n: nat, token: string)
    requires a <= |text| && (a == 0 || !IsWord(text[a - 1]))
    requires n < |Lines(text, a)| && HasToken(Lines(text, a)[n], token)
    ensures HasToken(text, token)
    decreases |text| - a
  {
    var e := EndOfLine(text, a);
    var next := if e < |text| then e + 1 else e;
    if n == 0 {
      SegmentTokens(text, a, WithoutReturn(text, a, e), token);
    } else if next < |text| {
      assert Lines(text, a)[n] == Lines(text, next)[n - 1];
      LineTokens(text, next, n - 1, token);
    }
  }

  /** Whether needle occurs in hay. */
  predicate Contains(hay: string, needle: string)
  {
    exists i: nat :: i <= |hay| && OccursAt(hay, needle, i)
  }

  predicate OccursAt(hay: string, needle: string, i: nat)
  {
    i + |needle| <= |hay| && hay[i..i + |needle|] == needle
  }

  /** A line contains each of its own tokens. */
  lemma TokenOccurs(line: string, token: string)
    requires HasToken(line, token)
    ensures Contains(Lower(line), token)
  {
    var i: nat, j: nat :| RunReads(line, i, j, token);
    assert Lower(line)[i..j] == Lower(line[i..j]);
    assert OccursAt(Lower(line), token, i);
  }

  /** What is shown of a matching line. */
  function Snippet(line: string): string
  {
    var trimmed := TrimStart(TrimEnd(line));
    if |trimmed| <= 200 then trimmed else trimmed[..200]
  }

  predicate AllSpace(s: string, a: nat, b: nat)
    requires b <= |s|
  {
    forall k :: a <= k < b ==> IsSpace(s[k])
  }

  /** line[a..b] is the line without the white space at its ends. */
  predicate Inner(line: string, a: nat, b: nat)
  {
    a <= b <= |line| && AllSpace(line, 0, a) && AllSpace(line, b, |line|) &&
    (a == b || (!IsSpace(line[a]) && !IsSpace(line[b - 1])))
  }

  /** The snippet is the first 200 characters of that, or all of it. */
  ghost predicate Shows(line: string, snippet: string)
  {
    exists a: nat, b: nat :: Inner(line, a, b) && snippet == line[a..if b <= a + 200 then b else a + 200]
  }

  lemma {:induction false} TrimEndCuts(s: string) returns (b: nat)
    ensures b <= |s| && TrimEnd(s) == s[..b] && AllSpace(s, b, |s|) && (b == 0 || !IsSpace(s[b - 1]))
  {
    if s != [] && IsSpace(s[|s| - 1]) {
      b := TrimEndCuts(s[..|s| - 1]);
    } else {
      b := |s|;
    }
  }

  lemma {:induction false} TrimStartCuts(s: string) returns (a: nat)
    ensures a <= |s| && TrimStart(s) == s[a..] && AllSpace(s, 0, a) && (a == |s| || !IsSpace(s[a]))
  {
    if s != [] && IsSpace(s[0]) {
      a := TrimStartCuts(s[1..]);
      a := a + 1;
    } else {
      a := 0;
    }
  }

  lemma SnippetShows(line: string)
    ensures Shows(line, Snippet(line))
  {
    var b := TrimEndCuts(line);
    var front := line[..b];
    var a := TrimStartCuts(front);
    assert front[a..] == line[a..b];
    if a == b { assert AllSpace(line, 0, b); }
    assert Inner(line, a, b);
  }

  /** Letters are put into lower case, and everything else is kept. */
  lemma LowerIsAscii(s: string, i: nat)
    requires i < |s|
    ensures |Lower(s)| == |s| && ('A' <= s[i] <= 'Z' <==> Lower(s)[i] != s[i])
    ensures Lower("ABCDEFGHIJKLMNOPQRSTUVWXYZ") == "abcdefghijklmnopqrstuvwxyz"
  {
  }
}
