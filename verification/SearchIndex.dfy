/** The inverted index of one repository, and the search over it. */
module SearchIndex {
  import opened Wrappers
  import opened Distinct
  import opened SearchText

  // ---------------------------------------------------------------------------------
  // Sorted sets
  // ---------------------------------------------------------------------------------

  /** Lexicographic order from index i on. */
  predicate LessFrom(a: string, b: string, i: nat)
    decreases |b| - i
  {
    i < |b| && (i >= |a| || a[i] < b[i] || (a[i] == b[i] && LessFrom(a, b, i + 1)))
  }

  predicate Less(a: string, b: string)
  {
    LessFrom(a, b, 0)
  }

  lemma {:induction false} LessFromIsTotal(a: string, b: string, i: nat)
    requires i <= |a| && i <= |b| && a[..i] == b[..i]
    ensures a == b || LessFrom(a, b, i) || LessFrom(b, a, i)
    decreases |b| - i
  {
    if i < |a| && i < |b| && a[i] == b[i] {
      assert a[..i + 1] == a[..i] + [a[i]] && b[..i + 1] == b[..i] + [b[i]];
      LessFromIsTotal(a, b, i + 1);
    } else if i == |a| && i == |b| {
      assert a == a[..i] && b == b[..i];
    }
  }

  lemma {:induction false} LessFromIsTransitive(a: string, b: string, c: string, i: nat)
    requires LessFrom(a, b, i) && LessFrom(b, c, i)
    ensures LessFrom(a, c, i)
    decreases |b| - i
  {
    if i >= |a| || a[i] != b[i] || b[i] != c[i] {
    } else {
      LessFromIsTransitive(a, b, c, i + 1);
    }
  }

  lemma {:induction false} LessIsIrreflexive(a: string, i: nat)
    ensures !LessFrom(a, a, i)
    decreases |a| - i
  {
    if i >= |a| {
    } else {
      LessIsIrreflexive(a, i + 1);
    }
  }

  predicate DiffersAt(a: string, b: string, i: nat)
  {
    i < |b| && i <= |a| && a[..i] == b[..i] && (i == |a| || a[i] < b[i])
  }

  /** The order is that of a dictionary: a prefix comes first, else the first difference decides. */
  lemma LessIsLexicographic(a: string, b: string)
    ensures Less(a, b) <==> exists i: nat :: DiffersAt(a, b, i)
  {
    if Less(a, b) {
      var i := FirstDifference(a, b, 0);
      assert DiffersAt(a, b, i);
    }
    if exists i: nat :: DiffersAt(a, b, i) {
      var i: nat :| DiffersAt(a, b, i);
      DifferenceDecides(a, b, i, 0);
    }
  }

  lemma {:induction false} FirstDifference(a: string, b: string, k: nat) returns (i: nat)
    requires k <= |a| && k <= |b| && a[..k] == b[..k] && LessFrom(a, b, k)
    ensures DiffersAt(a, b, i)
    decreases |b| - k
  {
    if k == |a| || a[k] < b[k] {
      i := k;
    } else {
      assert a[..k + 1] == a[..k] + [a[k]] && b[..k + 1] == b[..k] + [b[k]];
      i := FirstDifference(a, b, k + 1);
    }
  }

  lemma {:induction false} DifferenceDecides(a: string, b: string, i: nat, k: nat)
    requires DiffersAt(a, b, i) && k <= i
    ensures LessFrom(a, b, k)
    decreases i - k
  {
    if k == i {
    } else {
      assert a[k] == a[..i][k] == b[..i][k] == b[k];
      DifferenceDecides(a, b, i, k + 1);
    }
  }

  ghost predicate Ascending(s: seq<string>)
  {
    forall i, j :: 0 <= i < j < |s| ==> Less(s[i], s[j])
  }

  /** The elements of a set in ascending order. */
  method Sorted(elems: set<string>) returns (s: seq<string>)
    ensures Ascending(s) && forall x :: x in s <==> x in elems
  {
    s := [];
    var rest := elems;
    while rest != {}
      invariant Ascending(s) && rest <= elems && forall x :: x in s <==> x in elems - rest
      decreases rest
    {
      var x :| x in rest;
      s := InsertSorted(s, x);
      rest := rest - {x};
    }
  }

  method InsertSorted(s: seq<string>, x: string) returns (r: seq<string>)
    requires Ascending(s) && x !in s
    ensures Ascending(r) && forall y :: y in r <==> y == x || y in s
  {
    var i := 0;
    while i < |s| && Less(s[i], x)
      invariant 0 <= i <= |s| && forall k :: 0 <= k < i ==> Less(s[k], x)
    {
      i := i + 1;
    }
    r := s[..i] + [x] + s[i..];
    forall k | i <= k < |s| ensures Less(x, s[k]) {
      LessFromIsTotal(s[i], x, 0);
      if k > i { LessFromIsTransitive(x, s[i], s[k], 0); }
    }
  }

  // ---------------------------------------------------------------------------------
  // The stored index
  // ---------------------------------------------------------------------------------

  datatype Key = TokKey(token: string) | DocKey(path: string) | DocsKey

  type Store = map<Key, seq<string>>

  function KeyString(k: Key): string
  {
    match k
    case TokKey(t) => "tok/" + t
    case DocKey(p) => "doc/" + p
    case DocsKey => "docs"
  }

  /** Distinct keys are stored under distinct names. */
  lemma KeyStringInjective(a: Key, b: Key)
    requires KeyString(a) == KeyString(b)
    ensures a == b
  {
    assert KeyString(a)[0] == KeyString(b)[0];
    if !a.DocsKey? && !b.DocsKey? {
      assert KeyString(a)[4..] == KeyString(b)[4..];
    } else {
      assert KeyString(a)[3] == KeyString(b)[3];
    }
  }

  function Get(store: Store, k: Key): seq<string>
  {
    if k in store then store[k] else []
  }

  /** path is in the postings of token. */
  predicate Posted(store: Store, token: string, path: string)
  {
    path in Get(store, TokKey(token))
  }

  ghost predicate AllDistinct(store: Store)
  {
    forall t :: NoDup(Get(store, TokKey(t)))
  }

  /** The postings of a token are the documents that hold it. */
  ghost predicate PostingsRecord(store: Store, words: map<string, set<string>>)
  {
    (forall t, p :: Posted(store, t, p) <==> p in words && t in words[p]) &&
    AllDistinct(store)
  }

  /** Each document's own list holds its tokens. */
  ghost predicate ListsRecord(store: Store, words: map<string, set<string>>)
  {
    (forall p :: DocKey(p) in store <==> p in words) &&
    (forall p, t :: p in words ==> (t in Get(store, DocKey(p)) <==> t in words[p]))
  }

  /** The list of documents holds each indexed document once. */
  ghost predicate DocsRecord(store: Store, words: map<string, set<string>>)
  {
    (forall p :: p in Get(store, DocsKey) <==> p in words) && NoDup(Get(store, DocsKey))
  }

  ghost predicate Records(store: Store, words: map<string, set<string>>)
  {
    PostingsRecord(store, words) && ListsRecord(store, words) && DocsRecord(store, words)
  }

  ghost predicate SameButPostings(a: Store, b: Store)
  {
    forall k: Key :: !k.TokKey? ==> (k in a <==> k in b) && Get(a, k) == Get(b, k)
  }

  function Post(store: Store, token: string, path: string): Store
  {
    var postings := Get(store, TokKey(token));
    if path in postings then store else store[TokKey(token) := postings + [path]]
  }

  lemma PostAdds(store: Store, token: string, path: string)
    ensures forall t, p :: Posted(Post(store, token, path), t, p) <==> Posted(store, t, p) || (p == path && t == token)
  {
    var next := Post(store, token, path);
    forall t, p ensures Posted(next, t, p) <==> Posted(store, t, p) || (p == path && t == token) {
      if t != token { assert Get(next, TokKey(t)) == Get(store, TokKey(t)); }
    }
  }

  function Unpost(store: Store, token: string, path: string): Store
  {
    if TokKey(token) in store then store[TokKey(token) := Without(store[TokKey(token)], path)] else store
  }

  lemma UnpostRemoves(store: Store, token: string, path: string)
    ensures forall t, p ::
      Posted(Unpost(store, token, path), t, p) <==> Posted(store, t, p) && !(p == path && t == token)
  {
    WithoutHas(Get(store, TokKey(token)), path);
    var next := Unpost(store, token, path);
    forall t, p ensures Posted(next, t, p) <==> Posted(store, t, p) && !(p == path && t == token) {
      if t != token { assert Get(next, TokKey(t)) == Get(store, TokKey(t)); }
    }
  }

  lemma UnpostKeeps(store: Store, token: string, path: string)
    requires AllDistinct(store)
    ensures AllDistinct(Unpost(store, token, path)) && SameButPostings(Unpost(store, token, path), store)
  {
    WithoutHasNoDup(Get(store, TokKey(token)), path);
    forall t ensures NoDup(Get(Unpost(store, token, path), TokKey(t))) {
      assert NoDup(Get(store, TokKey(t)));
    }
  }

  function Elements(s: seq<string>): set<string>
  {
    set x | x in s
  }

  /** b is a with path removed from the postings of the given tokens. */
  ghost predicate Unposted(a: Store, b: Store, path: string, tokens: set<string>)
  {
    (forall t, p :: Posted(b, t, p) <==> Posted(a, t, p) && !(p == path && t in tokens)) &&
    AllDistinct(b) && SameButPostings(b, a)
  }

  lemma UnpostedOne(a: Store, b: Store, path: string, tokens: set<string>, token: string)
    requires Unposted(a, b, path, tokens)
    ensures Unposted(a, Unpost(b, token, path), path, tokens + {token})
  {
    UnpostRemoves(b, token, path);
    UnpostKeeps(b, token, path);
    var c := Unpost(b, token, path);
    forall t, p ensures Posted(c, t, p) <==> Posted(a, t, p) && !(p == path && t in tokens + {token}) {
      assert Posted(b, t, p) <==> Posted(a, t, p) && !(p == path && t in tokens);
    }
  }

  /** Remove path from the postings of the first k tokens. */
  function UnpostFirst(store: Store, path: string, tokens: seq<string>, k: nat): Store
    requires k <= |tokens|
  {
    if k == 0 then store else Unpost(UnpostFirst(store, path, tokens, k - 1), tokens[k - 1], path)
  }

  lemma ElementsOneMore(tokens: seq<string>, k: nat)
    requires k < |tokens|
    ensures Elements(tokens[..k + 1]) == Elements(tokens[..k]) + {tokens[k]}
  {
    assert tokens[..k + 1] == tokens[..k] + [tokens[k]];
  }

  lemma {:induction false} UnpostFirstRemoves(store: Store, path: string, tokens: seq<string>, k: nat)
    requires AllDistinct(store) && k <= |tokens|
    ensures Unposted(store, UnpostFirst(store, path, tokens, k), path, Elements(tokens[..k]))
  {
    if k == 0 {
    } else {
      UnpostFirstRemoves(store, path, tokens, k - 1);
      ElementsOneMore(tokens, k - 1);
      UnpostedOne(store, UnpostFirst(store, path, tokens, k - 1), path, Elements(tokens[..k - 1]), tokens[k - 1]);
    }
  }

  function UnpostAll(store: Store, path: string, tokens: seq<string>): Store
  {
    UnpostFirst(store, path, tokens, |tokens|)
  }

  lemma UnpostAllRemoves(store: Store, path: string, tokens: seq<string>)
    requires AllDistinct(store)
    ensures Unposted(store, UnpostAll(store, path, tokens), path, Elements(tokens))
  {
    UnpostFirstRemoves(store, path, tokens, |tokens|);
    assert tokens[..|tokens|] == tokens;
  }

  /** b is a with path added to the postings of the given tokens. */
  ghost predicate PostedAll(a: Store, b: Store, path: string, tokens: set<string>)
  {
    (forall t, p :: Posted(b, t, p) <==> Posted(a, t, p) || (p == path && t in tokens)) &&
    AllDistinct(b) && SameButPostings(b, a)
  }

  /** Add path to the postings of the first k tokens. */
  function PostFirst(store: Store, path: string, tokens: seq<string>, k: nat): Store
    requires k <= |tokens|
  {
    if k == 0 then store else Post(PostFirst(store, path, tokens, k - 1), tokens[k - 1], path)
  }

  lemma PostAt(store: Store, token: string, path: string, t: string, p: string)
    ensures Posted(Post(store, token, path), t, p) <==> Posted(store, t, p) || (p == path && t == token)
  {
    PostAdds(store, token, path);
  }

  lemma {:induction false} PostFirstAt(store: Store, path: string, tokens: seq<string>, k: nat, t: string, p: string)
    requires k <= |tokens|
    ensures Posted(PostFirst(store, path, tokens, k), t, p) <==>
      Posted(store, t, p) || (p == path && t in Elements(tokens[..k]))
  {
    if k == 0 {
    } else {
      PostFirstAt(store, path, tokens, k - 1, t, p);
      ElementsOneMore(tokens, k - 1);
      PostAt(PostFirst(store, path, tokens, k - 1), tokens[k - 1], path, t, p);
    }
  }

  lemma PostKeepsAt(store: Store, token: string, path: string, k: Key)
    ensures NoDup(Get(store, k)) ==> NoDup(Get(Post(store, token, path), k))
    ensures !k.TokKey? ==>
      var next := Post(store, token, path); (k in next <==> k in store) && Get(next, k) == Get(store, k)
  {
    var postings := Get(store, TokKey(token));
    if k == TokKey(token) && NoDup(postings) && path !in postings { PushHasNoDup(postings, path); }
  }

  lemma {:induction false} PostFirstKeepsAt(store: Store, path: string, tokens: seq<string>, n: nat, k: Key)
    requires n <= |tokens|
    ensures NoDup(Get(store, k)) ==> NoDup(Get(PostFirst(store, path, tokens, n), k))
    ensures !k.TokKey? ==>
      var next := PostFirst(store, path, tokens, n); (k in next <==> k in store) && Get(next, k) == Get(store, k)
  {
    if n == 0 {
    } else {
      PostFirstKeepsAt(store, path, tokens, n - 1, k);
      PostKeepsAt(PostFirst(store, path, tokens, n - 1), tokens[n - 1], path, k);
    }
  }

  function PostAll(store: Store, path: string, tokens: seq<string>): Store
  {
    PostFirst(store, path, tokens, |tokens|)
  }

  lemma PostAllAdds(store: Store, path: string, tokens: seq<string>)
    requires AllDistinct(store)
    ensures PostedAll(store, PostAll(store, path, tokens), path, Elements(tokens))
  {
    assert tokens[..|tokens|] == tokens;
    var next := PostAll(store, path, tokens);
    forall t, p ensures Posted(next, t, p) <==> Posted(store, t, p) || (p == path && t in Elements(tokens)) {
      PostFirstAt(store, path, tokens, |tokens|, t, p);
    }
    forall t ensures NoDup(Get(next, TokKey(t))) {
      PostFirstKeepsAt(store, path, tokens, |tokens|, TokKey(t));
    }
    forall k: Key | !k.TokKey? ensures (k in next <==> k in store) && Get(next, k) == Get(store, k) {
      PostFirstKeepsAt(store, path, tokens, |tokens|, k);
    }
  }

  ghost predicate SamePostings(a: Store, b: Store)
  {
    forall t :: Get(a, TokKey(t)) == Get(b, TokKey(t))
  }

  lemma PostingsRecordSame(a: Store, b: Store, words: map<string, set<string>>)
    requires PostingsRecord(a, words) && SamePostings(a, b)
    ensures PostingsRecord(b, words)
  {
    forall t, p ensures Posted(b, t, p) <==> p in words && t in words[p] {
      assert Posted(a, t, p) <==> p in words && t in words[p];
    }
  }

  /** The store without a document whose postings are gone already. */
  function Unlisted(store: Store, path: string): Store
  {
    (store - {DocKey(path)})[DocsKey := Without(Get(store, DocsKey), path)]
  }

  lemma UnlistedRecords(store: Store, words: map<string, set<string>>, path: string)
    requires PostingsRecord(store, words - {path}) && ListsRecord(store, words) && DocsRecord(store, words)
    ensures Records(Unlisted(store, path), words - {path})
  {
    WithoutHas(Get(store, DocsKey), path);
    WithoutHasNoDup(Get(store, DocsKey), path);
    var next := Unlisted(store, path);
    assert SamePostings(store, next);
    PostingsRecordSame(store, next, words - {path});
    forall p ensures DocKey(p) in next <==> p in words - {path} {
      assert DocKey(p) in store <==> p in words;
    }
    forall p, t | p in words - {path} ensures t in Get(next, DocKey(p)) <==> t in words[p] {
      assert t in Get(store, DocKey(p)) <==> t in words[p];
    }
  }

  function Listed(store: Store, path: string, tokens: seq<string>): Store
  {
    var listed := Get(store, DocsKey);
    var next := store[DocKey(path) := tokens];
    if path in listed then next else next[DocsKey := listed + [path]]
  }

  lemma ListedRecords(
      store: Store, words: map<string, set<string>>, path: string, tokens: set<string>, sorted: seq<string>)
    requires path !in words && forall t :: t in sorted <==> t in tokens
    requires PostingsRecord(store, words[path := tokens]) && ListsRecord(store, words) && DocsRecord(store, words)
    ensures Records(Listed(store, path, sorted), words[path := tokens])
  {
    var next := Listed(store, path, sorted);
    assert SamePostings(store, next);
    PostingsRecordSame(store, next, words[path := tokens]);
    if path !in Get(store, DocsKey) { PushHasNoDup(Get(store, DocsKey), path); }
    ListedLists(store, next, words, path, tokens, sorted);
  }

  lemma ListedLists(
    store: Store, next: Store, words: map<string, set<string>>, path: string, tokens: set<string>, sorted: seq<string>)
    requires ListsRecord(store, words) && forall t :: t in sorted <==> t in tokens
    requires Get(next, DocKey(path)) == sorted && DocKey(path) in next
    requires forall p :: p != path ==>
      (DocKey(p) in next <==> DocKey(p) in store) && Get(next, DocKey(p)) == Get(store, DocKey(p))
    ensures ListsRecord(next, words[path := tokens])
  {
    var words' := words[path := tokens];
    forall p ensures DocKey(p) in next <==> p in words' {
      assert DocKey(p) in store <==> p in words;
    }
    forall p, t | p in words' ensures t in Get(next, DocKey(p)) <==> t in words'[p] {
      if p != path { assert t in Get(store, DocKey(p)) <==> t in words[p]; }
    }
  }

  lemma SameButPostingsRecords(a: Store, b: Store, words: map<string, set<string>>)
    requires SameButPostings(b, a) && ListsRecord(a, words) && DocsRecord(a, words)
    ensures ListsRecord(b, words) && DocsRecord(b, words)
  {
    assert Get(b, DocsKey) == Get(a, DocsKey);
    forall p ensures DocKey(p) in b <==> p in words {
      assert DocKey(p) in a <==> p in words;
    }
    forall p, t | p in words ensures t in Get(b, DocKey(p)) <==> t in words[p] {
      assert t in Get(a, DocKey(p)) <==> t in words[p];
    }
  }

  ghost predicate IsTokenSet(text: string, tokens: set<string>)
  {
    forall t :: t in tokens <==> HasToken(text, t)
  }

  ghost predicate AreTokenSets(docs: map<string, string>, words: map<string, set<string>>)
  {
    docs.Keys == words.Keys && forall p :: p in docs ==> IsTokenSet(docs[p], words[p])
  }

  lemma TokenSetAdded(
    docs: map<string, string>, words: map<string, set<string>>, path: string, content: string, tokens: set<string>)
    requires AreTokenSets(docs, words) && IsTokenSet(content, tokens)
    ensures AreTokenSets(docs[path := content], words[path := tokens])
  {
    var docs', words' := docs[path := content], words[path := tokens];
    forall p | p in docs' ensures IsTokenSet(docs'[p], words'[p]) {
      if p != path { assert IsTokenSet(docs[p], words[p]); }
    }
  }

  lemma TokenSetRemoved(docs: map<string, string>, words: map<string, set<string>>, path: string)
    requires AreTokenSets(docs, words)
    ensures AreTokenSets(docs - {path}, words - {path})
  {
    forall p | p in docs - {path} ensures IsTokenSet((docs - {path})[p], (words - {path})[p]) {
      assert IsTokenSet(docs[p], words[p]);
    }
  }

  lemma RemovedPostings(a: Store, b: Store, words: map<string, set<string>>, path: string, tokens: seq<string>)
    requires Records(a, words) && path in words && tokens == Get(a, DocKey(path))
    requires Unposted(a, b, path, Elements(tokens))
    ensures PostingsRecord(b, words - {path}) && ListsRecord(b, words) && DocsRecord(b, words)
  {
    SameButPostingsRecords(a, b, words);
    forall t, p ensures Posted(b, t, p) <==> p in words - {path} && t in (words - {path})[p] {
      assert Posted(a, t, p) <==> p in words && t in words[p];
      assert t in Get(a, DocKey(path)) <==> t in words[path];
    }
  }

  lemma AddedPostings(
    a: Store, b: Store, words: map<string, set<string>>, path: string, tokens: set<string>)
    requires Records(a, words) && path !in words && PostedAll(a, b, path, tokens)
    ensures PostingsRecord(b, words[path := tokens]) && ListsRecord(b, words) && DocsRecord(b, words)
  {
    SameButPostingsRecords(a, b, words);
    forall t, p ensures Posted(b, t, p) <==> p in words[path := tokens] && t in words[path := tokens][p] {
      assert Posted(a, t, p) <==> p in words && t in words[p];
    }
  }

  // ---------------------------------------------------------------------------------
  // Index and remove
  // ---------------------------------------------------------------------------------

  /** The store after a document is removed. */
  function Removed(store: Store, path: string): Store
  {
    if DocKey(path) !in store then store else Unlisted(UnpostAll(store, path, store[DocKey(path)]), path)
  }

  lemma RemovedRecords(store: Store, words: map<string, set<string>>, path: string)
    requires Records(store, words)
    ensures Records(Removed(store, path), words - {path})
  {
    if DocKey(path) !in store {
      assert words - {path} == words;
    } else {
      var tokens := store[DocKey(path)];
      var unposted := UnpostAll(store, path, tokens);
      UnpostAllRemoves(store, path, tokens);
      RemovedPostings(store, unposted, words, path, tokens);
      UnlistedRecords(unposted, words, path);
    }
  }

  /** sorted holds the tokens of text, in order. */
  ghost predicate AreTokens(text: string, sorted: seq<string>)
  {
    Ascending(sorted) && forall t :: t in sorted <==> HasToken(text, t)
  }

  /** The store after a document with the given tokens is indexed, or indexed again. */
  function Indexed(store: Store, path: string, sorted: seq<string>): Store
  {
    Listed(PostAll(Removed(store, path), path, sorted), path, sorted)
  }

  lemma PostAllRecords(
      store: Store, words: map<string, set<string>>, path: string, tokens: set<string>, sorted: seq<string>)
    requires Records(store, words) && path !in words && forall t :: t in sorted <==> t in tokens
    ensures var posted := PostAll(store, path, sorted);
      PostingsRecord(posted, words[path := tokens]) && ListsRecord(posted, words) && DocsRecord(posted, words)
  {
    PostAllAdds(store, path, sorted);
    assert Elements(sorted) == tokens;
    AddedPostings(store, PostAll(store, path, sorted), words, path, tokens);
  }

  lemma IndexedRecords(
      store: Store, words: map<string, set<string>>, path: string, tokens: set<string>, sorted: seq<string>)
    requires Records(store, words) && forall t :: t in sorted <==> t in tokens
    ensures Records(Indexed(store, path, sorted), words[path := tokens])
  {
    var removed, others := Removed(store, path), words - {path};
    RemovedRecords(store, words, path);
    PostAllRecords(removed, others, path, tokens, sorted);
    ListedRecords(PostAll(removed, path, sorted), others, path, tokens, sorted);
    assert others[path := tokens] == words[path := tokens];
  }

  /** The store records the tokens of the given documents. */
  ghost predicate Holds(store: Store, docs: map<string, string>, words: map<string, set<string>>)
  {
    Records(store, words) && AreTokenSets(docs, words)
  }

  lemma IndexedHolds(
      store: Store, docs: map<string, string>, words: map<string, set<string>>, path: string, content: string,
      tokens: set<string>, sorted: seq<string>)
    requires Holds(store, docs, words) && IsTokenSet(content, tokens) && forall t :: t in sorted <==> t in tokens
    ensures Holds(Indexed(store, path, sorted), docs[path := content], words[path := tokens])
  {
    IndexedRecords(store, words, path, tokens, sorted);
    TokenSetAdded(docs, words, path, content, tokens);
  }

  lemma RemovedHolds(store: Store, docs: map<string, string>, words: map<string, set<string>>, path: string)
    requires Holds(store, docs, words)
    ensures Holds(Removed(store, path), docs - {path}, words - {path})
  {
    RemovedRecords(store, words, path);
    TokenSetRemoved(docs, words, path);
  }

  datatype Op = Index(path: string, content: string) | Remove(path: string)

  /** One call on the index takes its store from a to b. */
  ghost predicate Step(a: Store, op: Op, b: Store)
  {
    match op
    case Remove(path) => b == Removed(a, path)
    case Index(path, content) => exists sorted :: AreTokens(content, sorted) && b == Indexed(a, path, sorted)
  }

  ghost predicate IsRun(trace: seq<Store>, ops: seq<Op>)
  {
    |trace| == |ops| + 1 && forall i :: 0 <= i < |ops| ==> Step(trace[i], ops[i], trace[i + 1])
  }

  /** The documents and their contents after the given calls. */
  function DocsAfter(ops: seq<Op>): map<string, string>
  {
    if ops == [] then map[]
    else
      match ops[|ops| - 1]
      case Index(path, content) => DocsAfter(ops[..|ops| - 1])[path := content]
      case Remove(path) => DocsAfter(ops[..|ops| - 1]) - {path}
  }

  lemma {:induction false} RunHolds(trace: seq<Store>, ops: seq<Op>) returns (words: map<string, set<string>>)
    requires IsRun(trace, ops) && trace[0] == map[]
    ensures Holds(trace[|ops|], DocsAfter(ops), words)
    decreases |ops|
  {
    if ops == [] {
      words := map[];
    } else {
      var n := |ops| - 1;
      var before := RunHolds(trace[..n + 1], ops[..n]);
      match ops[n] {
        case Index(path, content) =>
          var sorted :| AreTokens(content, sorted) && trace[n + 1] == Indexed(trace[n], path, sorted);
          var tokens := set t | t in sorted;
          IndexedHolds(trace[n], DocsAfter(ops[..n]), before, path, content, tokens, sorted);
          words := before[path := tokens];
        case Remove(path) =>
          RemovedHolds(trace[n], DocsAfter(ops[..n]), before, path);
          words := before - {path};
      }
    }
  }

  /** After any calls from an empty store, a document is in a token's postings exactly when its last
    * indexed content has that token, and listed exactly when it was not removed since. */
  lemma PostingsAreTokens(trace: seq<Store>, ops: seq<Op>, token: string, path: string)
    requires IsRun(trace, ops) && trace[0] == map[]
    ensures var docs := DocsAfter(ops);
      (Posted(trace[|ops|], token, path) <==> path in docs && HasToken(docs[path], token)) &&
      (path in Get(trace[|ops|], DocsKey) <==> path in docs)
  {
    var words := RunHolds(trace, ops);
    var docs := DocsAfter(ops);
    if path in docs { assert IsTokenSet(docs[path], words[path]); }
  }

  class Index {
    var store: Store
    ghost var docs: map<string, string>
    ghost var words: map<string, set<string>>

    /** The store records the tokens of the last indexed content of every document. */
    ghost predicate Valid()
      reads this
    {
      Holds(store, docs, words)
    }

    /** Wrap a store that holds an index; an empty store holds the empty one. */
    constructor (store: Store, ghost docs: map<string, string>, ghost words: map<string, set<string>>)
      requires Holds(store, docs, words)
      ensures Valid() && this.store == store && this.docs == docs
    {
      this.store, this.docs, this.words := store, docs, words;
    }

    method RemovePostings(path: string, tokens: seq<string>)
      modifies `store
      ensures store == UnpostAll(old(store), path, tokens)
    {
      var k := 0;
      while k < |tokens|
        invariant 0 <= k <= |tokens| && store == UnpostFirst(old(store), path, tokens, k)
      {
        var key := TokKey(tokens[k]);
        if key in store { store := store[key := Without(store[key], path)]; }
        k := k + 1;
      }
    }

    method AddPostings(path: string, tokens: seq<string>)
      modifies `store
      ensures store == PostAll(old(store), path, tokens)
    {
      var k := 0;
      while k < |tokens|
        invariant 0 <= k <= |tokens| && store == PostFirst(old(store), path, tokens, k)
      {
        var key := TokKey(tokens[k]);
        var postings := Get(store, key);
        if path !in postings { store := store[key := postings + [path]]; }
        k := k + 1;
      }
    }

    /** Remove a document from the index. */
    method RemoveDocument(path: string)
      requires Valid()
      modifies this
      ensures Valid() && docs == old(docs) - {path} && Step(old(store), Remove(path), store)
    {
      RemovedHolds(store, docs, words, path);
      docs, words := docs - {path}, words - {path};
      if DocKey(path) !in store { return; }
      var tokens := store[DocKey(path)];
      RemovePostings(path, tokens);
      var listed := Without(Get(store, DocsKey), path);
      store := store - {DocKey(path)};
      store := store[DocsKey := listed];
    }

    /** Index a document, or index it again: its postings are replaced. */
    method IndexDocument(path: string, content: string)
      requires Valid()
      modifies this
      ensures Valid() && docs == old(docs)[path := content] && Step(old(store), Op.Index(path, content), store)
    {
      RemoveDocument(path);
      var tokens := Tokenize(content);
      var sorted := Sorted(tokens);
      AddPostings(path, sorted);
      store := store[DocKey(path) := sorted];
      var listed := Get(store, DocsKey);
      if path !in listed { store := store[DocsKey := listed + [path]]; }
      assert AreTokens(content, sorted) && store == Indexed(old(store), path, sorted);
      IndexedHolds(old(store), old(docs), old(words), path, content, tokens, sorted);
      docs, words := old(docs)[path := content], old(words)[path := tokens];
    }

    /** The documents in the postings of every term. */
    method Candidates(terms: seq<string>) returns (r: set<string>)
      requires Valid() && terms != []
      ensures forall p :: p in r <==> HoldsAll(words, terms, p)
    {
      ghost var all := words;
      var found: Option<set<string>> := None;
      var k := 0;
      while k < |terms|
        invariant 0 <= k <= |terms| && (found.None? <==> k == 0)
        invariant found.Some? ==> forall p :: p in found.value <==> HoldsAll(all, terms[..k], p)
      {
        var postings := Get(store, TokKey(terms[k]));
        var documents := set p | p in postings;
        assert forall p :: p in documents <==> Posted(store, terms[k], p);
        ghost var before := terms[..k];
        assert terms[..k + 1] == before + [terms[k]];
        found := Some(if found.None? then documents else found.value * documents);
        if found.value == {} {
          forall p ensures !HoldsAll(all, terms, p) {
            assert p !in found.value;
            HoldsAllOfPrefix(all, terms, k + 1, p);
          }
          return {};
        }
        k := k + 1;
      }
      assert terms[..k] == terms;
      r := found.value;
    }

    /** The first matching lines, in order of path and line. */
    method SearchRepo(query: string, maxHits: nat, fetch: string -> Option<string>) returns (hits: seq<Hit>)
      requires Valid()
      ensures IsSearchResult(docs, query, maxHits, fetch, hits)
    {
      hits := [];
      var terms := Tokenize(query);
      if terms == {} {
        assert Found(docs, query, terms, []);
        return;
      }
      var sorted := Sorted(terms);
      assert sorted != [] by {
        var t :| t in terms;
        assert t in sorted;
      }
      var candidates := Candidates(sorted);
      var paths := Sorted(candidates);
      CandidatesHoldAll(docs, words, terms, sorted);
      assert Found(docs, query, terms, paths);
      hits := ScanPaths(paths, terms, maxHits, fetch);
    }
  }

  // ---------------------------------------------------------------------------------
  // Scanning
  // ---------------------------------------------------------------------------------

  ghost predicate HoldsAll(words: map<string, set<string>>, terms: seq<string>, p: string)
  {
    p in words && forall t :: t in terms ==> t in words[p]
  }

  lemma HoldsAllOfPrefix(words: map<string, set<string>>, terms: seq<string>, k: nat, p: string)
    requires k <= |terms|
    ensures HoldsAll(words, terms, p) ==> HoldsAll(words, terms[..k], p)
  {
  }

  /** The document's indexed content has every term as a token. */
  ghost predicate Candidate(docs: map<string, string>, terms: set<string>, p: string)
  {
    p in docs && forall t :: t in terms ==> HasToken(docs[p], t)
  }

  lemma CandidatesHoldAll(
      docs: map<string, string>, words: map<string, set<string>>, terms: set<string>, sorted: seq<string>)
    requires AreTokenSets(docs, words) && forall t :: t in sorted <==> t in terms
    ensures forall p :: Candidate(docs, terms, p) <==> HoldsAll(words, sorted, p)
  {
    forall p ensures Candidate(docs, terms, p) <==> HoldsAll(words, sorted, p) {
      if p in docs { assert IsTokenSet(docs[p], words[p]); }
    }
  }

  datatype Hit = Hit(path: string, line: nat, snippet: string)

  predicate Matches(terms: set<string>, line: string)
  {
    forall t :: t in terms ==> Contains(Lower(line), t)
  }

  /** The hits among the lines from index n on. */
  function LineHits(path: string, lines: seq<string>, n: nat, terms: set<string>): seq<Hit>
    decreases |lines| - n
  {
    if n >= |lines| then []
    else
      (if Matches(terms, lines[n]) then [Hit(path, n + 1, Snippet(lines[n]))] else []) +
      LineHits(path, lines, n + 1, terms)
  }

  function DocumentHits(path: string, terms: set<string>, fetch: string -> Option<string>): seq<Hit>
  {
    match fetch(path)
    case None => []
    case Some(content) => LineHits(path, Lines(content, 0), 0, terms)
  }

  function HitsOf(terms: set<string>, fetch: string -> Option<string>): string -> seq<Hit>
  {
    path => DocumentHits(path, terms, fetch)
  }

  /** The hits of the documents from index k on. */
  function AllHits(paths: seq<string>, k: nat, of: string -> seq<Hit>): seq<Hit>
    decreases |paths| - k
  {
    if k >= |paths| then [] else of(paths[k]) + AllHits(paths, k + 1, of)
  }

  /** A limit of zero lets one hit through. */
  function Limit(maxHits: nat): nat
  {
    if maxHits == 0 then 1 else maxHits
  }

  function First<T>(n: nat, s: seq<T>): seq<T>
  {
    if |s| <= n then s else s[..n]
  }

  /** terms are the query's tokens, and paths the documents that hold them all, in order. */
  ghost predicate Found(docs: map<string, string>, query: string, terms: set<string>, paths: seq<string>)
  {
    IsTokenSet(query, terms) && Ascending(paths) &&
    forall p :: p in paths <==> terms != {} && Candidate(docs, terms, p)
  }

  ghost predicate IsSearchResult(
    docs: map<string, string>, query: string, maxHits: nat, fetch: string -> Option<string>, hits: seq<Hit>)
  {
    exists terms, paths ::
      Found(docs, query, terms, paths) && hits == First(Limit(maxHits), AllHits(paths, 0, HitsOf(terms, fetch)))
  }

  method ScanLines(path: string, lines: seq<string>, terms: set<string>, maxHits: nat, before: seq<Hit>)
    returns (hits: seq<Hit>, full: bool)
    requires |before| < Limit(maxHits)
    ensures hits == First(Limit(maxHits), before + LineHits(path, lines, 0, terms))
    ensures full <==> |hits| == Limit(maxHits)
    ensures !full ==> hits == before + LineHits(path, lines, 0, terms)
  {
    hits := before;
    var n := 0;
    while n < |lines|
      invariant 0 <= n <= |lines| && |hits| < Limit(maxHits)
      invariant hits + LineHits(path, lines, n, terms) == before + LineHits(path, lines, 0, terms)
    {
      if Matches(terms, lines[n]) {
        hits := hits + [Hit(path, n + 1, Snippet(lines[n]))];
        if |hits| >= maxHits { return hits, true; }
      }
      n := n + 1;
    }
    full := false;
  }

  method ScanDocument(path: string, terms: set<string>, maxHits: nat, fetch: string -> Option<string>, before: seq<Hit>)
    returns (hits: seq<Hit>, full: bool)
    requires |before| < Limit(maxHits)
    ensures full ==> |hits| == Limit(maxHits) && hits == First(Limit(maxHits), before + HitsOf(terms, fetch)(path))
    ensures !full ==> |hits| < Limit(maxHits) && hits == before + HitsOf(terms, fetch)(path)
  {
    var content := fetch(path);
    if content.None? { return before, false; }
    hits, full := ScanLines(path, Lines(content.value, 0), terms, maxHits, before);
  }

  method ScanPaths(paths: seq<string>, terms: set<string>, maxHits: nat, fetch: string -> Option<string>)
    returns (hits: seq<Hit>)
    ensures hits == First(Limit(maxHits), AllHits(paths, 0, HitsOf(terms, fetch)))
  {
    ghost var of := HitsOf(terms, fetch);
    hits := [];
    var k := 0;
    while k < |paths|
      invariant 0 <= k <= |paths| && |hits| < Limit(maxHits)
      invariant hits + AllHits(paths, k, of) == AllHits(paths, 0, of)
    {
      ghost var before, here, rest := hits, of(paths[k]), AllHits(paths, k + 1, of);
      assert before + here + rest == AllHits(paths, 0, of);
      var full;
      hits, full := ScanDocument(paths[k], terms, maxHits, fetch, hits);
      if full {
        FirstOfLonger(Limit(maxHits), before + here, rest);
        return;
      }
      k := k + 1;
    }
  }

  lemma FirstOfLonger<T>(n: nat, a: seq<T>, b: seq<T>)
    requires |a| >= n
    ensures First(n, a + b) == First(n, a)
  {
  }

  // ---------------------------------------------------------------------------------
  // The search misses nothing
  // ---------------------------------------------------------------------------------

  predicate IsLineHit(h: Hit, path: string, lines: seq<string>, n: nat, terms: set<string>)
  {
    n < |lines| && Matches(terms, lines[n]) && h == Hit(path, n + 1, Snippet(lines[n]))
  }

  lemma {:induction false} LineHitsHas(path: string, lines: seq<string>, k: nat, terms: set<string>, n: nat)
    requires k <= n < |lines| && Matches(terms, lines[n])
    ensures Hit(path, n + 1, Snippet(lines[n])) in LineHits(path, lines, k, terms)
    decreases |lines| - k
  {
    if k == n {
    } else {
      LineHitsHas(path, lines, k + 1, terms, n);
    }
  }

  lemma {:induction false} LineHitsMatch(path: string, lines: seq<string>, k: nat, terms: set<string>, h: Hit)
    requires h in LineHits(path, lines, k, terms)
    ensures h.line >= 1 && IsLineHit(h, path, lines, h.line - 1, terms)
    decreases |lines| - k
  {
    var here := if Matches(terms, lines[k]) then [Hit(path, k + 1, Snippet(lines[k]))] else [];
    if h in here {
      assert h == here[0];
    } else {
      LineHitsMatch(path, lines, k + 1, terms, h);
    }
  }

  lemma {:induction false} AllHitsHas(paths: seq<string>, k: nat, of: string -> seq<Hit>, i: nat, h: Hit)
    requires k <= i < |paths| && h in of(paths[i])
    ensures h in AllHits(paths, k, of)
    decreases |paths| - k
  {
    if k == i {
    } else {
      AllHitsHas(paths, k + 1, of, i, h);
    }
  }

  lemma {:induction false} AllHitsFrom(paths: seq<string>, k: nat, of: string -> seq<Hit>, h: Hit) returns (i: nat)
    requires h in AllHits(paths, k, of)
    ensures k <= i < |paths| && h in of(paths[i])
    decreases |paths| - k
  {
    if h in of(paths[k]) {
      i := k;
    } else {
      i := AllHitsFrom(paths, k + 1, of, h);
    }
  }

  ghost predicate Serves(fetch: string -> Option<string>, docs: map<string, string>)
  {
    forall p :: p in docs ==> fetch(p) == Some(docs[p])
  }

  ghost predicate IsMatch(docs: map<string, string>, terms: set<string>, h: Hit)
  {
    terms != {} && Candidate(docs, terms, h.path) && h.line >= 1 &&
    IsLineHit(h, h.path, Lines(docs[h.path], 0), h.line - 1, terms)
  }

  /** Every hit is a line, of a document holding all terms as tokens, that contains every term. */
  lemma HitsAreMatches(
    docs: map<string, string>, query: string, maxHits: nat, fetch: string -> Option<string>, hits: seq<Hit>, h: Hit)
    requires IsSearchResult(docs, query, maxHits, fetch, hits) && Serves(fetch, docs) && h in hits
    ensures exists terms :: IsTokenSet(query, terms) && IsMatch(docs, terms, h)
  {
    var terms, paths :|
      Found(docs, query, terms, paths) && hits == First(Limit(maxHits), AllHits(paths, 0, HitsOf(terms, fetch)));
    var i := AllHitsFrom(paths, 0, HitsOf(terms, fetch), h);
    assert paths[i] in paths;
    LineHitsMatch(paths[i], Lines(docs[paths[i]], 0), 0, terms, h);
    assert IsMatch(docs, terms, h);
  }

  predicate Precedes(h: Hit, path: string, line: nat)
  {
    Less(h.path, path) || (h.path == path && h.line < line)
  }

  predicate HitBefore(a: Hit, b: Hit)
  {
    Precedes(a, b.path, b.line)
  }

  /** Hits come in order of path and line. */
  ghost predicate InOrder(hits: seq<Hit>)
  {
    forall i, j {:trigger HitBefore(hits[i], hits[j])} :: 0 <= i < j < |hits| ==> HitBefore(hits[i], hits[j])
  }

  lemma {:induction false} LineHitsInOrder(path: string, lines: seq<string>, k: nat, terms: set<string>)
    ensures InOrder(LineHits(path, lines, k, terms))
    ensures forall h :: h in LineHits(path, lines, k, terms) ==> h.path == path && h.line > k
    decreases |lines| - k
  {
    if k >= |lines| {
    } else {
      LineHitsInOrder(path, lines, k + 1, terms);
    }
  }

  lemma Joined(a: seq<Hit>, b: seq<Hit>)
    requires InOrder(a) && InOrder(b) && forall x, y :: x in a && y in b ==> HitBefore(x, y)
    ensures InOrder(a + b)
  {
    var all := a + b;
    forall i, j | 0 <= i < j < |all| ensures HitBefore(all[i], all[j]) {
      if j < |a| {
        assert HitBefore(a[i], a[j]);
      } else if i >= |a| {
        assert HitBefore(b[i - |a|], b[j - |a|]);
      } else {
        assert a[i] in a && b[j - |a|] in b;
      }
    }
  }

  lemma {:induction false} AllHitsInOrder(
      paths: seq<string>, k: nat, terms: set<string>, fetch: string -> Option<string>)
    requires Ascending(paths)
    ensures InOrder(AllHits(paths, k, HitsOf(terms, fetch)))
    ensures forall h :: h in AllHits(paths, k, HitsOf(terms, fetch)) ==>
      exists i: nat :: k <= i < |paths| && paths[i] == h.path
    decreases |paths| - k
  {
    if k >= |paths| {
    } else {
      var here, rest := HitsOf(terms, fetch)(paths[k]), AllHits(paths, k + 1, HitsOf(terms, fetch));
      DocumentHitsInOrder(paths[k], terms, fetch);
      AllHitsInOrder(paths, k + 1, terms, fetch);
      forall x, y | x in here && y in rest ensures HitBefore(x, y) {
        var i: nat :| k + 1 <= i < |paths| && paths[i] == y.path;
        assert Less(paths[k], paths[i]);
      }
      Joined(here, rest);
      forall h: Hit | h in here + rest ensures exists i: nat :: k <= i < |paths| && paths[i] == h.path {
        if h in here { assert paths[k] == h.path; }
      }
    }
  }

  lemma DocumentHitsInOrder(path: string, terms: set<string>, fetch: string -> Option<string>)
    ensures InOrder(HitsOf(terms, fetch)(path)) && forall h: Hit :: h in HitsOf(terms, fetch)(path) ==> h.path == path
  {
    if fetch(path).Some? { LineHitsInOrder(path, Lines(fetch(path).value, 0), 0, terms); }
  }

  /** Whatever is cut off comes after every hit that is returned. */
  lemma CutIsLater(all: seq<Hit>, n: nat, h: Hit)
    requires InOrder(all) && h in all && h !in First(n, all)
    ensures |First(n, all)| == n && forall x :: x in First(n, all) ==> HitBefore(x, h)
  {
    var i :| 0 <= i < |all| && all[i] == h;
    assert i >= n;
    forall x | x in First(n, all) ensures HitBefore(x, h) {
      var j :| 0 <= j < n && First(n, all)[j] == x;
      assert HitBefore(all[j], all[i]);
    }
  }

  /** Hits are returned in order of path and line. */
  lemma HitsAreInOrder(
    docs: map<string, string>, query: string, maxHits: nat, fetch: string -> Option<string>, hits: seq<Hit>)
    requires IsSearchResult(docs, query, maxHits, fetch, hits)
    ensures InOrder(hits) && |hits| <= if maxHits == 0 then 1 else maxHits
  {
    var terms, paths :|
      Found(docs, query, terms, paths) && hits == First(Limit(maxHits), AllHits(paths, 0, HitsOf(terms, fetch)));
    AllHitsInOrder(paths, 0, terms, fetch);
    var all := AllHits(paths, 0, HitsOf(terms, fetch));
    forall i, j | 0 <= i < j < |hits| ensures HitBefore(hits[i], hits[j]) {
      assert HitBefore(all[i], all[j]);
    }
  }

  /** A line whose own tokens include every term is returned, unless the limit was reached by
    * lines that come before it. */
  lemma SearchMissesNoLine(
    docs: map<string, string>, query: string, maxHits: nat, fetch: string -> Option<string>, hits: seq<Hit>,
    path: string, n: nat)
    requires IsSearchResult(docs, query, maxHits, fetch, hits) && Serves(fetch, docs)
    requires path in docs && n < |Lines(docs[path], 0)|
    requires exists t :: HasToken(query, t)
    requires forall t :: HasToken(query, t) ==> HasToken(Lines(docs[path], 0)[n], t)
    ensures var h := Hit(path, n + 1, Snippet(Lines(docs[path], 0)[n]));
      h in hits || (|hits| == Limit(maxHits) && forall x :: x in hits ==> HitBefore(x, h))
  {
    var terms, paths :|
      Found(docs, query, terms, paths) && hits == First(Limit(maxHits), AllHits(paths, 0, HitsOf(terms, fetch)));
    var lines := Lines(docs[path], 0);
    var h := Hit(path, n + 1, Snippet(lines[n]));
    var t0 :| HasToken(query, t0);
    assert t0 in terms;
    LineIsCandidate(docs, terms, path, n);
    assert path in paths;
    var i :| 0 <= i < |paths| && paths[i] == path;
    LineHitsHas(path, lines, 0, terms, n);
    AllHitsHas(paths, 0, HitsOf(terms, fetch), i, h);
    AllHitsInOrder(paths, 0, terms, fetch);
    if h !in hits { CutIsLater(AllHits(paths, 0, HitsOf(terms, fetch)), Limit(maxHits), h); }
  }

  /** Line `line` of what path now holds contains every term, and all of them are tokens of what was
    * last indexed for path. */
  ghost predicate IsHitLine(
      docs: map<string, string>, query: string, fetch: string -> Option<string>, path: string, line: nat)
  {
    (exists t :: HasToken(query, t)) && path in docs && fetch(path).Some? &&
    1 <= line <= |Lines(fetch(path).value, 0)| &&
    forall t :: HasToken(query, t) ==>
      HasToken(docs[path], t) && Contains(Lower(Lines(fetch(path).value, 0)[line - 1]), t)
  }

  /** Every hit is such a line, and shows it. */
  lemma HitsAreLines(
    docs: map<string, string>, query: string, maxHits: nat, fetch: string -> Option<string>, hits: seq<Hit>, h: Hit)
    requires IsSearchResult(docs, query, maxHits, fetch, hits) && h in hits
    ensures IsHitLine(docs, query, fetch, h.path, h.line)
    ensures Shows(Lines(fetch(h.path).value, 0)[h.line - 1], h.snippet)
  {
    var terms, paths :|
      Found(docs, query, terms, paths) && hits == First(Limit(maxHits), AllHits(paths, 0, HitsOf(terms, fetch)));
    var i := AllHitsFrom(paths, 0, HitsOf(terms, fetch), h);
    assert paths[i] in paths;
    var lines := Lines(fetch(paths[i]).value, 0);
    LineHitsMatch(paths[i], lines, 0, terms, h);
    SnippetShows(lines[h.line - 1]);
    var t :| t in terms;
    assert HasToken(query, t);
  }

  /** Every such line is a hit, unless as many lines as were asked for, and at least one, come before
    * it. */
  lemma NoHitLineIsMissed(
    docs: map<string, string>, query: string, maxHits: nat, fetch: string -> Option<string>, hits: seq<Hit>,
    path: string, line: nat)
    requires IsSearchResult(docs, query, maxHits, fetch, hits) && IsHitLine(docs, query, fetch, path, line)
    ensures (exists h :: h in hits && h.path == path && h.line == line) ||
      (|hits| == (if maxHits == 0 then 1 else maxHits) && forall x :: x in hits ==> Precedes(x, path, line))
  {
    var terms, paths :|
      Found(docs, query, terms, paths) && hits == First(Limit(maxHits), AllHits(paths, 0, HitsOf(terms, fetch)));
    var lines := Lines(fetch(path).value, 0);
    var h := Hit(path, line, Snippet(lines[line - 1]));
    var t0 :| HasToken(query, t0);
    assert t0 in terms && Candidate(docs, terms, path) && path in paths;
    var i :| 0 <= i < |paths| && paths[i] == path;
    LineHitsHas(path, lines, 0, terms, line - 1);
    AllHitsHas(paths, 0, HitsOf(terms, fetch), i, h);
    AllHitsInOrder(paths, 0, terms, fetch);
    if h !in hits { CutIsLater(AllHits(paths, 0, HitsOf(terms, fetch)), Limit(maxHits), h); }
  }

  lemma LineIsCandidate(docs: map<string, string>, terms: set<string>, path: string, n: nat)
    requires path in docs && n < |Lines(docs[path], 0)|
    requires forall t :: t in terms ==> HasToken(Lines(docs[path], 0)[n], t)
    ensures Candidate(docs, terms, path) && Matches(terms, Lines(docs[path], 0)[n])
  {
    forall t | t in terms ensures HasToken(docs[path], t) && Contains(Lower(Lines(docs[path], 0)[n]), t) {
      LineTokens(docs[path], 0, n, t);
      TokenOccurs(Lines(docs[path], 0)[n], t);
    }
  }
}
