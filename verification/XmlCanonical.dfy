/** What makes a canonical form canonical: which trees it leaves alone, which elements share
  * one, and what an equal one says. */
module XmlCanonical {
  import opened Wrappers
  import opened Lists
  import opened XmlText
  import opened XmlTree
  import opened XmlCanon

  // ---------------------------------------------------------------------------------
  // Canonical trees
  // ---------------------------------------------------------------------------------

  /** Every declaration is of a utilized prefix, and changes its binding. */
  predicate Needed(decls: List<NsDecl>, ps: List<Str>, scope: Scope)
  {
    decls == Nil ||
    (Has(ps, Key(decls.head)) && decls.head.uri != Lookup(scope, Key(decls.head)) &&
     decls.head == DeclOf(Key(decls.head), decls.head.uri) && (Key(decls.head) == Nil || decls.head.uri != Nil) &&
     Needed(decls.tail, ps, scope))
  }

  /** Declarations are needed and in order of prefix; attributes are in order of URI and name. */
  predicate IsCanonical(e: Element, scope: Scope, incl: List<Str>)
  {
    Ascending(Keys(e.decls)) && Needed(e.decls, Utilized(e.name, e.attrs, incl), scope) &&
    Sorted(e.attrs, DeclareAll(scope, e.decls)) && AreCanonical(e.children, DeclareAll(scope, e.decls), incl)
  }

  predicate AreCanonical(ns: Nodes, scope: Scope, incl: List<Str>)
  {
    match ns
    case Done => true
    case Text(_, rest) => AreCanonical(rest, scope, incl)
    case Child(e, rest) => IsCanonical(e, scope, incl) && AreCanonical(rest, scope, incl)
  }

  lemma {:induction false} EmitIsNeeded(todo: List<Str>, ps: List<Str>, inner: Scope, rendered: Scope, s: Scope)
    requires Same(s, rendered) && forall p :: Has(todo, p) ==> Has(ps, p)
    ensures Needed(Emit(todo, inner, rendered), ps, s)
  {
    if todo == Nil {
    } else {
      assert Has(todo, todo.head);
      assert Lookup(s, todo.head) == Lookup(rendered, todo.head);
      EmitIsNeeded(todo.tail, ps, inner, rendered, s);
    }
  }

  lemma {:induction false} SortedAgrees(attrs: List<Attr>, s1: Scope, s2: Scope)
    requires SameUris(attrs, s1, s2) && Sorted(attrs, s1)
    ensures Sorted(attrs, s2)
  {
    if attrs == Nil {
    } else {
      SortedAgrees(attrs.tail, s1, s2);
    }
  }

  /** Canonicalization gives canonical trees, under the tree's own declarations. */
  lemma {:induction false} CanonIsCanonical(e: Element, scope: Scope, rendered: Scope, s: Scope, incl: List<Str>)
    requires Plain(e) && Covered(scope, rendered) && Same(s, rendered)
    ensures IsCanonical(Canon(e, scope, rendered, incl), s, incl)
    decreases e
  {
    var inner := DeclareAll(scope, e.decls);
    var ps := Utilized(e.name, e.attrs, incl);
    var emitted := Emit(ps, inner, rendered);
    var outer := DeclareAll(s, emitted);
    CoveredInside(scope, rendered, e.decls);
    RenderedAgrees(ps, inner, rendered);
    SameInside(s, rendered, emitted);
    SortUtilized(e.attrs, inner, Cons(PrefixKey(e.name), Nil));
    DeclarationsAreSorted(e.name, e.attrs, incl, inner, rendered);
    EmitIsNeeded(ps, ps, inner, rendered, s);
    UtilizedAgree(e.name, e.attrs, incl, inner, outer);
    SortAgrees(e.attrs, inner, outer);
    SortIsSorted(e.attrs, inner);
    SortedAgrees(SortAttrs(e.attrs, inner), inner, outer);
    CanonNodesAreCanonical(e.children, inner, RenderAll(rendered, emitted), outer, incl);
  }

  lemma {:induction false} CanonNodesAreCanonical(ns: Nodes, scope: Scope, rendered: Scope, s: Scope, incl: List<Str>)
    requires PlainNodes(ns) && Covered(scope, rendered) && Same(s, rendered)
    ensures AreCanonical(CanonNodes(ns, scope, rendered, incl), s, incl)
    decreases ns
  {
    match ns
    case Done =>
    case Text(_, rest) => CanonNodesAreCanonical(rest, scope, rendered, s, incl);
    case Child(e, rest) =>
      CanonIsCanonical(e, scope, rendered, s, incl);
      CanonNodesAreCanonical(rest, scope, rendered, s, incl);
  }

  // ---------------------------------------------------------------------------------
  // Canonical trees are left alone
  // ---------------------------------------------------------------------------------

  lemma {:induction false} FinalOfUndeclared(decls: List<NsDecl>, p: Str, uri: Str)
    requires !Has(Keys(decls), p)
    ensures Final(decls, p, uri) == uri
  {
    if decls == Nil {
    } else {
      FinalOfUndeclared(decls.tail, p, uri);
    }
  }

  lemma {:induction false} AboveIsAbsent(p: Str, ps: List<Str>)
    requires Above(p, ps)
    ensures !Has(ps, p)
  {
    LtIsTotal(p, p);
    if ps == Nil {
    } else {
      AboveIsAbsent(p, ps.tail);
    }
  }

  /** Every declaration is in force, and declares what was not so before. */
  predicate InForce(decls: List<NsDecl>, inner: Scope)
  {
    decls == Nil || (Lookup(inner, Key(decls.head)) == decls.head.uri && InForce(decls.tail, inner))
  }

  lemma {:induction false} DeclaredIsInForce(all: List<NsDecl>, decls: List<NsDecl>, scope: Scope, outer: Scope)
    requires Ascending(Keys(decls)) && DeclareAll(scope, decls) == DeclareAll(outer, all)
    ensures InForce(decls, DeclareAll(outer, all))
    decreases decls
  {
    if decls == Nil {
    } else {
      var d := decls.head;
      DeclareAllAt(scope, decls, Key(d));
      AboveIsAbsent(Key(d), Keys(decls.tail));
      FinalOfUndeclared(decls.tail, Key(d), d.uri);
      DeclaredIsInForce(all, decls.tail, Declare(scope, d), outer);
    }
  }

  /** Emitting rebuilds an ascending list of needed declarations. */
  lemma {:induction false} EmitRebuilds(
    todo: List<Str>, decls: List<NsDecl>, ps: List<Str>, inner: Scope, s: Scope, rendered: Scope)
    requires Ascending(todo) && Ascending(Keys(decls)) && Needed(decls, ps, s)
    requires InForce(decls, inner) && Same(s, rendered)
    requires forall p :: Has(Keys(decls), p) ==> Has(todo, p)
    requires forall p :: Has(todo, p) && !Has(Keys(decls), p) ==> Lookup(inner, p) == Lookup(s, p)
    ensures Emit(todo, inner, rendered) == decls
    decreases todo
  {
    assert decls.Cons? ==> Has(Keys(decls), Key(decls.head));
    if todo == Nil {
    } else {
      var p := todo.head;
      assert Lookup(s, p) == Lookup(rendered, p);
      AboveIsAbsent(p, todo.tail);
      if decls.Cons? && Key(decls.head) == p {
        AboveIsAbsent(p, Keys(decls.tail));
        forall q | Has(Keys(decls.tail), q) ensures Has(todo.tail, q) {
          assert Has(Keys(decls), q);
        }
        EmitRebuilds(todo.tail, decls.tail, ps, inner, s, rendered);
      } else {
        NotAmongKeys(todo, decls);
        EmitRebuilds(todo.tail, decls, ps, inner, s, rendered);
      }
    }
  }

  lemma {:induction false} NotAmongKeys(todo: List<Str>, decls: List<NsDecl>)
    requires todo.Cons? && Ascending(todo) && Ascending(Keys(decls)) && forall p :: Has(Keys(decls), p) ==> Has(todo, p)
    requires decls == Nil || Key(decls.head) != todo.head
    ensures !Has(Keys(decls), todo.head)
  {
    if decls.Cons? {
      assert Has(Keys(decls), Key(decls.head));
      HasIsAbove(todo.head, todo.tail, Key(decls.head));
      AboveTransitive(todo.head, Key(decls.head), Keys(decls.tail));
      AboveIsAbsent(todo.head, Keys(decls));
    }
  }

  lemma {:induction false} HasIsAbove(p: Str, ps: List<Str>, q: Str)
    requires Above(p, ps) && Has(ps, q)
    ensures Lt(p, q)
  {
    if ps.head == q {
    } else {
      HasIsAbove(p, ps.tail, q);
    }
  }

  lemma {:induction false} NeededHas(decls: List<NsDecl>, ps: List<Str>, scope: Scope, p: Str)
    requires Needed(decls, ps, scope) && Has(Keys(decls), p)
    ensures Has(ps, p)
  {
    if Key(decls.head) == p {
    } else {
      NeededHas(decls.tail, ps, scope, p);
    }
  }

  /** A canonical tree is its own canonical form. */
  lemma {:induction false} CanonicalIsFixed(t: Element, s: Scope, rendered: Scope, incl: List<Str>)
    requires IsCanonical(t, s, incl) && Same(s, rendered)
    ensures Canon(t, s, rendered, incl) == t
    decreases t
  {
    var inner, ps := DeclareAll(s, t.decls), Utilized(t.name, t.attrs, incl);
    InsertAttrPrefixesIsAscending(t.attrs, Cons(PrefixKey(t.name), Nil));
    InsertAllIsAscending(incl, InsertAttrPrefixes(t.attrs, Cons(PrefixKey(t.name), Nil)));
    DeclaredIsInForce(t.decls, t.decls, s, s);
    forall p | Has(Keys(t.decls), p) ensures Has(ps, p) {
      NeededHas(t.decls, ps, s, p);
    }
    forall p | Has(ps, p) && !Has(Keys(t.decls), p) ensures Lookup(inner, p) == Lookup(s, p) {
      DeclareAllAt(s, t.decls, p);
      FinalOfUndeclared(t.decls, p, Lookup(s, p));
    }
    EmitRebuilds(ps, t.decls, ps, inner, s, rendered);
    SortOfSorted(t.attrs, inner);
    SameInside(s, rendered, t.decls);
    CanonicalNodesAreFixed(t.children, inner, RenderAll(rendered, t.decls), incl);
  }

  lemma {:induction false} CanonicalNodesAreFixed(ns: Nodes, s: Scope, rendered: Scope, incl: List<Str>)
    requires AreCanonical(ns, s, incl) && Same(s, rendered)
    ensures CanonNodes(ns, s, rendered, incl) == ns
    decreases ns
  {
    match ns
    case Done =>
    case Text(_, rest) => CanonicalNodesAreFixed(rest, s, rendered, incl);
    case Child(e, rest) =>
      CanonicalIsFixed(e, s, rendered, incl);
      CanonicalNodesAreFixed(rest, s, rendered, incl);
  }

  /** The trees that canonicalization leaves alone are exactly the canonical ones. */
  lemma FixedExactlyWhenCanonical(t: Element, incl: List<Str>)
    requires Plain(t)
    ensures Canon(t, map[], map[], incl) == t <==> IsCanonical(t, map[], incl)
  {
    if IsCanonical(t, map[], incl) { CanonicalIsFixed(t, map[], map[], incl); }
    CanonIsCanonical(t, map[], map[], map[], incl);
  }

  // ---------------------------------------------------------------------------------
  // Elements that share a canonical form
  // ---------------------------------------------------------------------------------

  function Bag<T(==)>(l: List<T>): multiset<T>
  {
    match l
    case Nil => multiset{}
    case Cons(x, t) => multiset{x} + Bag(t)
  }

  lemma {:induction false} BagHas<T>(l: List<T>, x: T)
    ensures x in Bag(l) <==> Has(l, x)
  {
    if l == Nil {
    } else {
      BagHas(l.tail, x);
    }
  }

  lemma EmptyBag<T>(l: List<T>)
    ensures Bag(l) == multiset{} <==> l == Nil
  {
    if l.Cons? { assert l.head in Bag(l); }
  }

  function Take<T(==)>(l: List<T>, x: T): List<T>
  {
    if l == Nil then Nil
    else if l.head == x then l.tail
    else Cons(l.head, Take(l.tail, x))
  }

  lemma {:induction false} BagOfTake<T>(l: List<T>, x: T)
    requires Has(l, x)
    ensures Bag(l) == multiset{x} + Bag(Take(l, x))
  {
    if l.head == x {
    } else {
      BagOfTake(l.tail, x);
    }
  }

  lemma {:induction false} TakeHas<T>(l: List<T>, x: T, y: T)
    requires Has(Take(l, x), y)
    ensures Has(l, y)
  {
    if l == Nil || l.head == x || y == l.head {
    } else {
      TakeHas(l.tail, x, y);
    }
  }

  predicate Apart(a: Attr, b: Attr, scope: Scope)
  {
    a == b || Before(a, b, scope) || Before(b, a, scope)
  }

  /** Different attributes have different expanded names. */
  ghost predicate NoTies(attrs: List<Attr>, scope: Scope)
  {
    forall a, b {:trigger Apart(a, b, scope)} :: Has(attrs, a) && Has(attrs, b) ==> Apart(a, b, scope)
  }

  lemma BeforeIsTransitive(a: Attr, b: Attr, c: Attr, scope: Scope)
    requires Before(a, b, scope) && Before(b, c, scope)
    ensures Before(a, c, scope)
  {
    var u, v, w := AttrUri(a, scope), AttrUri(b, scope), AttrUri(c, scope);
    if Lt(u, v) && Lt(v, w) { LtIsTransitive(u, v, w); }
    if Lt(a.name.local, b.name.local) && Lt(b.name.local, c.name.local) {
      LtIsTransitive(a.name.local, b.name.local, c.name.local);
    }
  }

  lemma {:induction false} InsertAttrCommutes(a: Attr, b: Attr, attrs: List<Attr>, scope: Scope)
    requires Before(a, b, scope)
    ensures InsertAttr(a, InsertAttr(b, attrs, scope), scope) == InsertAttr(b, InsertAttr(a, attrs, scope), scope)
  {
    BeforeIsAsymmetric(a, b, scope);
    if attrs == Nil {
    } else {
      if Before(attrs.head, a, scope) { BeforeIsTransitive(attrs.head, a, b, scope); }
      InsertAttrCommutes(a, b, attrs.tail, scope);
    }
  }

  lemma {:induction false} SortTakesOut(attrs: List<Attr>, a: Attr, scope: Scope)
    requires Has(attrs, a) && NoTies(attrs, scope)
    ensures SortAttrs(attrs, scope) == InsertAttr(a, SortAttrs(Take(attrs, a), scope), scope)
  {
    var h := attrs.head;
    if h == a {
    } else {
      assert Apart(a, h, scope);
      forall x, y | Has(attrs.tail, x) && Has(attrs.tail, y) ensures Apart(x, y, scope) {
        assert Has(attrs, x) && Has(attrs, y);
      }
      SortTakesOut(attrs.tail, a, scope);
      var rest := SortAttrs(Take(attrs.tail, a), scope);
      if Before(a, h, scope) { InsertAttrCommutes(a, h, rest, scope); } else { InsertAttrCommutes(h, a, rest, scope); }
    }
  }

  lemma NoTiesOfTake(attrs: List<Attr>, a: Attr, scope: Scope)
    requires NoTies(attrs, scope)
    ensures NoTies(Take(attrs, a), scope)
  {
    forall x, y | Has(Take(attrs, a), x) && Has(Take(attrs, a), y) ensures Apart(x, y, scope) {
      TakeHas(attrs, a, x);
      TakeHas(attrs, a, y);
    }
  }

  lemma BagWithout<T>(a: T, rest: List<T>, l: List<T>)
    requires Bag(Cons(a, rest)) == Bag(l)
    ensures Has(l, a) && Bag(rest) == Bag(Take(l, a))
  {
    assert a in Bag(Cons(a, rest));
    BagHas(l, a);
    BagOfTake(l, a);
    SameRest(a, Bag(rest), Bag(Take(l, a)));
  }

  lemma SameRest<T>(a: T, x: multiset<T>, y: multiset<T>)
    requires multiset{a} + x == multiset{a} + y
    ensures x == y
  {
    assert x == (multiset{a} + x) - multiset{a} && y == (multiset{a} + y) - multiset{a};
  }

  /** The order in which attributes are written does not matter. */
  lemma {:induction false} SortIgnoresOrder(a1: List<Attr>, a2: List<Attr>, scope: Scope)
    requires Bag(a1) == Bag(a2) && NoTies(a2, scope)
    ensures SortAttrs(a1, scope) == SortAttrs(a2, scope)
    decreases a1
  {
    match a1
    case Nil => EmptyBag(a2);
    case Cons(a, t) =>
      BagWithout(a, t, a2);
      NoTiesOfTake(a2, a, scope);
      SortIgnoresOrder(t, Take(a2, a), scope);
      SortTakesOut(a2, a, scope);
  }

  lemma {:induction false} BagOfInsert(a: Attr, attrs: List<Attr>, scope: Scope)
    ensures Bag(InsertAttr(a, attrs, scope)) == multiset{a} + Bag(attrs)
  {
    if attrs == Nil || !Before(attrs.head, a, scope) {
    } else {
      BagOfInsert(a, attrs.tail, scope);
    }
  }

  lemma {:induction false} BagOfSort(attrs: List<Attr>, scope: Scope)
    ensures Bag(SortAttrs(attrs, scope)) == Bag(attrs)
  {
    match attrs
    case Nil =>
    case Cons(a, t) =>
      BagOfSort(t, scope);
      BagOfInsert(a, SortAttrs(t, scope), scope);
  }

  // ---------------------------------------------------------------------------------
  // When the written order shows
  // ---------------------------------------------------------------------------------

  /** The attributes have the same expanded name, as far as the scope tells. */
  predicate Ties(a: Attr, b: Attr, scope: Scope)
  {
    AttrUri(a, scope) == AttrUri(b, scope) && a.name.local == b.name.local
  }

  /** The attributes that tie with a, as written. */
  function Tied(attrs: List<Attr>, a: Attr, scope: Scope): List<Attr>
  {
    match attrs
    case Nil => Nil
    case Cons(x, t) => if Ties(x, a, scope) then Cons(x, Tied(t, a, scope)) else Tied(t, a, scope)
  }

  /** The same attributes, of which those that tie are written in the same order. */
  ghost predicate SameButOrder(a1: List<Attr>, a2: List<Attr>, scope: Scope)
  {
    forall a :: Tied(a1, a, scope) == Tied(a2, a, scope)
  }

  lemma BeforeOrTies(a: Attr, b: Attr, scope: Scope)
    ensures Ties(a, b, scope) <==> !Before(a, b, scope) && !Before(b, a, scope)
  {
    LtIsTotal(AttrUri(a, scope), AttrUri(b, scope));
    LtIsTotal(a.name.local, b.name.local);
  }

  lemma {:induction false} InsertTied(a: Attr, attrs: List<Attr>, x: Attr, scope: Scope)
    ensures Tied(InsertAttr(a, attrs, scope), x, scope) == Tied(Cons(a, attrs), x, scope)
  {
    if attrs == Nil || !Before(attrs.head, a, scope) {
    } else {
      BeforeOrTies(attrs.head, a, scope);
      InsertTied(a, attrs.tail, x, scope);
    }
  }

  /** The sort is stable. */
  lemma {:induction false} SortTied(attrs: List<Attr>, x: Attr, scope: Scope)
    ensures Tied(SortAttrs(attrs, scope), x, scope) == Tied(attrs, x, scope)
  {
    match attrs
    case Nil =>
    case Cons(a, t) =>
      SortTied(t, x, scope);
      InsertTied(a, SortAttrs(t, scope), x, scope);
  }

  lemma NotBeforeIsTransitive(a: Attr, b: Attr, c: Attr, scope: Scope)
    requires !Before(a, b, scope) && !Before(b, c, scope)
    ensures !Before(a, c, scope)
  {
    BeforeOrTies(a, b, scope);
    BeforeOrTies(b, c, scope);
    BeforeOrTies(a, c, scope);
    if Before(c, b, scope) && Before(b, a, scope) {
      BeforeIsTransitive(c, b, a, scope);
      BeforeIsAsymmetric(c, a, scope);
    }
  }

  lemma {:induction false} HeadIsLeast(attrs: List<Attr>, a: Attr, scope: Scope)
    requires Sorted(attrs, scope) && Has(attrs, a)
    ensures !Before(a, attrs.head, scope)
  {
    BeforeOrTies(attrs.head, attrs.head, scope);
    if a == attrs.head {
    } else {
      HeadIsLeast(attrs.tail, a, scope);
      NotBeforeIsTransitive(a, attrs.tail.head, attrs.head, scope);
    }
  }

  lemma {:induction false} TiedHas(attrs: List<Attr>, a: Attr, scope: Scope)
    requires Tied(attrs, a, scope).Cons?
    ensures Has(attrs, Tied(attrs, a, scope).head)
  {
    if Ties(attrs.head, a, scope) {
    } else {
      TiedHas(attrs.tail, a, scope);
    }
  }

  lemma SameHead(x: List<Attr>, y: List<Attr>, scope: Scope)
    requires x.Cons? && y.Cons? && Sorted(x, scope) && Sorted(y, scope) && SameButOrder(x, y, scope)
    ensures x.head == y.head
  {
    var a, b := x.head, y.head;
    assert Tied(x, a, scope) == Tied(y, a, scope) && Tied(x, b, scope) == Tied(y, b, scope);
    TiedHas(y, a, scope);
    TiedHas(x, b, scope);
    HeadIsLeast(y, a, scope);
    HeadIsLeast(x, b, scope);
    BeforeOrTies(a, b, scope);
  }

  lemma {:induction false} SortedUnique(x: List<Attr>, y: List<Attr>, scope: Scope)
    requires Sorted(x, scope) && Sorted(y, scope) && SameButOrder(x, y, scope)
    ensures x == y
  {
    assert x.Cons? ==> Tied(x, x.head, scope) == Tied(y, x.head, scope);
    assert y.Cons? ==> Tied(x, y.head, scope) == Tied(y, y.head, scope);
    if x == Nil {
    } else {
      SameHead(x, y, scope);
      forall a ensures Tied(x.tail, a, scope) == Tied(y.tail, a, scope) {
        assert Tied(x, a, scope) == Tied(y, a, scope);
      }
      SortedUnique(x.tail, y.tail, scope);
    }
  }

  /** Attributes come out alike exactly when they are the same but for the order of those with
    * different expanded names. */
  lemma SortsAlikeExactly(a1: List<Attr>, a2: List<Attr>, scope: Scope)
    ensures SortAttrs(a1, scope) == SortAttrs(a2, scope) <==> SameButOrder(a1, a2, scope)
  {
    forall a
      ensures Tied(SortAttrs(a1, scope), a, scope) == Tied(a1, a, scope)
      ensures Tied(SortAttrs(a2, scope), a, scope) == Tied(a2, a, scope)
    {
      SortTied(a1, a, scope);
      SortTied(a2, a, scope);
    }
    if SameButOrder(a1, a2, scope) {
      SortIsSorted(a1, scope);
      SortIsSorted(a2, scope);
      SortedUnique(SortAttrs(a1, scope), SortAttrs(a2, scope), scope);
    }
  }

  ghost predicate OrderIsHidden(attrs: List<Attr>, scope: Scope)
  {
    forall a1 :: Bag(a1) == Bag(attrs) ==> SortAttrs(a1, scope) == SortAttrs(attrs, scope)
  }

  lemma TakeTwo<T>(l: List<T>, a: T, b: T) returns (rest: List<T>)
    requires Has(l, a) && Has(l, b) && a != b
    ensures Bag(l) == Bag(Cons(a, Cons(b, rest)))
  {
    BagOfTake(l, a);
    BagHas(l, b);
    BagHas(Take(l, a), b);
    BagOfTake(Take(l, a), b);
    rest := Take(Take(l, a), b);
  }

  lemma BagOfSwapped<T>(a: T, b: T, rest: List<T>)
    ensures Bag(Cons(a, Cons(b, rest))) == Bag(Cons(b, Cons(a, rest)))
  {
    assert Bag(Cons(a, Cons(b, rest))) == multiset{a} + (multiset{b} + Bag(rest));
    assert Bag(Cons(b, Cons(a, rest))) == multiset{b} + (multiset{a} + Bag(rest));
  }

  lemma SwappedShows(attrs: List<Attr>, a: Attr, b: Attr, scope: Scope)
    requires Has(attrs, a) && Has(attrs, b) && a != b && Ties(a, b, scope)
    ensures !OrderIsHidden(attrs, scope)
  {
    var rest := TakeTwo(attrs, a, b);
    BagOfSwapped(a, b, rest);
    TiedDiffer(a, b, rest, scope);
  }

  lemma TiedDiffer(a: Attr, b: Attr, rest: List<Attr>, scope: Scope)
    requires a != b && Ties(a, b, scope)
    ensures SortAttrs(Cons(a, Cons(b, rest)), scope) != SortAttrs(Cons(b, Cons(a, rest)), scope)
  {
    var one, two := Cons(a, Cons(b, rest)), Cons(b, Cons(a, rest));
    SortsAlikeExactly(one, two, scope);
    assert Tied(one, a, scope).head == a && Tied(two, a, scope).head == b;
  }

  /** The order in which attributes are written never shows exactly when no two of them tie. */
  lemma OrderIsHiddenExactly(attrs: List<Attr>, scope: Scope)
    ensures OrderIsHidden(attrs, scope) <==> NoTies(attrs, scope)
  {
    if NoTies(attrs, scope) {
      forall a1 | Bag(a1) == Bag(attrs) ensures SortAttrs(a1, scope) == SortAttrs(attrs, scope) {
        SortIgnoresOrder(a1, attrs, scope);
      }
    } else {
      var a, b :| Has(attrs, a) && Has(attrs, b) && !Apart(a, b, scope);
      BeforeOrTies(a, b, scope);
      SwappedShows(attrs, a, b, scope);
    }
  }

  /** Without ties, being the same but for the order is having the same attributes. */
  lemma SameButOrderIsBag(a1: List<Attr>, a2: List<Attr>, scope: Scope)
    requires NoTies(a2, scope)
    ensures SameButOrder(a1, a2, scope) <==> Bag(a1) == Bag(a2)
  {
    SortsAlikeExactly(a1, a2, scope);
    BagOfSort(a1, scope);
    BagOfSort(a2, scope);
    if Bag(a1) == Bag(a2) { SortIgnoresOrder(a1, a2, scope); }
  }

  // ---------------------------------------------------------------------------------
  // Equivalent elements
  // ---------------------------------------------------------------------------------

  /** Same names, the same attributes but for their order, and the same bindings for the utilized
    * prefixes, however and wherever they are declared. */
  ghost predicate Equivalent(e1: Element, s1: Scope, e2: Element, s2: Scope, incl: List<Str>)
    decreases e1
  {
    var i1, i2 := DeclareAll(s1, e1.decls), DeclareAll(s2, e2.decls);
    e1.name == e2.name && SameButOrder(e1.attrs, e2.attrs, i1) &&
    AgreeOn(Utilized(e2.name, e2.attrs, incl), i1, i2) && EquivalentNodes(e1.children, i1, e2.children, i2, incl)
  }

  ghost predicate EquivalentNodes(ns1: Nodes, s1: Scope, ns2: Nodes, s2: Scope, incl: List<Str>)
    decreases ns1
  {
    match ns1
    case Done => ns2 == Done
    case Text(t, rest) => ns2.Text? && t == ns2.text && EquivalentNodes(rest, s1, ns2.rest, s2, incl)
    case Child(e, rest) =>
      ns2.Child? && Equivalent(e, s1, ns2.elem, s2, incl) && EquivalentNodes(rest, s1, ns2.rest, s2, incl)
  }

  lemma {:induction false} EquivalentCanon(
      e1: Element, s1: Scope, e2: Element, s2: Scope, rendered: Scope, incl: List<Str>)
    requires Equivalent(e1, s1, e2, s2, incl)
    ensures Canon(e1, s1, rendered, incl) == Canon(e2, s2, rendered, incl)
    decreases e1
  {
    var i1, i2 := DeclareAll(s1, e1.decls), DeclareAll(s2, e2.decls);
    var own := Cons(PrefixKey(e1.name), Nil);
    SortsAlikeExactly(e1.attrs, e2.attrs, i1);
    SortUtilized(e1.attrs, i1, own);
    SortUtilized(e2.attrs, i1, own);
    var ps := Utilized(e2.name, e2.attrs, incl);
    EmitAgrees(ps, i1, i2, rendered);
    UtilizedAgree(e2.name, e2.attrs, incl, i1, i2);
    SortAgrees(e2.attrs, i1, i2);
    EquivalentCanonNodes(e1.children, i1, e2.children, i2, RenderAll(rendered, Emit(ps, i1, rendered)), incl);
  }

  lemma {:induction false} EquivalentCanonNodes(
    ns1: Nodes, s1: Scope, ns2: Nodes, s2: Scope, rendered: Scope, incl: List<Str>)
    requires EquivalentNodes(ns1, s1, ns2, s2, incl)
    ensures CanonNodes(ns1, s1, rendered, incl) == CanonNodes(ns2, s2, rendered, incl)
    decreases ns1
  {
    match ns1
    case Done =>
    case Text(_, rest) => EquivalentCanonNodes(rest, s1, ns2.rest, s2, rendered, incl);
    case Child(e, rest) =>
      EquivalentCanon(e, s1, ns2.elem, s2, rendered, incl);
      EquivalentCanonNodes(rest, s1, ns2.rest, s2, rendered, incl);
  }

  /** Elements that differ only in the order of attributes that do not tie, and in where namespaces
    * are declared, have the same canonical bytes. */
  lemma EquivalentShareBytes(e1: Element, s1: Scope, e2: Element, s2: Scope, incl: List<Str>)
    requires Equivalent(e1, s1, e2, s2, incl)
    ensures CanonText(e1, incl, s1) == CanonText(e2, incl, s2)
  {
    EquivalentCanon(e1, s1, e2, s2, map[], incl);
  }

  /** Elements with the same canonical bytes mean the same. */
  lemma BytesPinMeaning(e1: Element, s1: Scope, incl1: List<Str>, e2: Element, s2: Scope, incl2: List<Str>)
    requires Good(e1) && Plain(e1) && GoodScope(s1) && Good(e2) && Plain(e2) && GoodScope(s2)
    requires CanonText(e1, incl1, s1) == CanonText(e2, incl2, s2)
    ensures MeaningOf(e1, s1) == MeaningOf(e2, s2)
  {
    CanonicalizationKeepsMeaning(e1, incl1, s1);
    CanonicalizationKeepsMeaning(e2, incl2, s2);
  }

  // ---------------------------------------------------------------------------------
  // Equal bytes mean equivalent elements
  // ---------------------------------------------------------------------------------

  /** What the start tags of two canonical forms say when they are equal. */
  lemma SameTags(e1: Element, s1: Scope, e2: Element, s2: Scope, rendered: Scope, incl: List<Str>)
    requires Plain(e1) && Plain(e2) && Covered(s1, rendered) && Covered(s2, rendered)
    requires Canon(e1, s1, rendered, incl).(children := Done) == Canon(e2, s2, rendered, incl).(children := Done)
    ensures e1.name == e2.name && SameButOrder(e1.attrs, e2.attrs, DeclareAll(s1, e1.decls))
    ensures var i1, i2, ps := DeclareAll(s1, e1.decls), DeclareAll(s2, e2.decls), Utilized(e2.name, e2.attrs, incl);
      var inside := RenderAll(rendered, Emit(ps, i2, rendered));
      AgreeOn(ps, i1, i2) && Covered(i1, inside) && Covered(i2, inside) && SameUris(e2.attrs, i1, i2) &&
      Utilized(e1.name, e1.attrs, incl) == ps && Emit(ps, i1, rendered) == Emit(ps, i2, rendered)
  {
    var i1, i2, ps := DeclareAll(s1, e1.decls), DeclareAll(s2, e2.decls), Utilized(e2.name, e2.attrs, incl);
    var own := Cons(PrefixKey(e1.name), Nil);
    SortUtilized(e1.attrs, i1, own);
    SortUtilized(e2.attrs, i2, own);
    CoveredInside(s1, rendered, e1.decls);
    CoveredInside(s2, rendered, e2.decls);
    RenderedAgrees(ps, i1, rendered);
    RenderedAgrees(ps, i2, rendered);
    UtilizedAgree(e2.name, e2.attrs, incl, i1, i2);
    SortAgrees(e2.attrs, i1, i2);
    SortsAlikeExactly(e1.attrs, e2.attrs, i1);
  }

  lemma {:induction false} SameCanon(e1: Element, s1: Scope, e2: Element, s2: Scope, rendered: Scope, incl: List<Str>)
    requires Plain(e1) && Plain(e2) && Covered(s1, rendered) && Covered(s2, rendered)
    requires Canon(e1, s1, rendered, incl) == Canon(e2, s2, rendered, incl)
    ensures Equivalent(e1, s1, e2, s2, incl)
    decreases e1
  {
    var i1, i2 := DeclareAll(s1, e1.decls), DeclareAll(s2, e2.decls);
    var ps := Utilized(e2.name, e2.attrs, incl);
    SameTags(e1, s1, e2, s2, rendered, incl);
    SameCanonNodes(e1.children, i1, e2.children, i2, RenderAll(rendered, Emit(ps, i2, rendered)), incl);
  }

  lemma {:induction false} SameCanonNodes(
      ns1: Nodes, s1: Scope, ns2: Nodes, s2: Scope, rendered: Scope, incl: List<Str>)
    requires PlainNodes(ns1) && PlainNodes(ns2) && Covered(s1, rendered) && Covered(s2, rendered)
    requires CanonNodes(ns1, s1, rendered, incl) == CanonNodes(ns2, s2, rendered, incl)
    ensures EquivalentNodes(ns1, s1, ns2, s2, incl)
    decreases ns1
  {
    match ns1
    case Done =>
    case Text(_, rest) => SameCanonNodes(rest, s1, ns2.rest, s2, rendered, incl);
    case Child(e, rest) =>
      SameCanon(e, s1, ns2.elem, s2, rendered, incl);
      SameCanonNodes(rest, s1, ns2.rest, s2, rendered, incl);
  }

  lemma {:induction false} PlainMerged(e: Element)
    ensures Plain(e) ==> Plain(Merge(e))
    decreases e
  {
    PlainMergedNodes(e.children);
  }

  lemma {:induction false} PlainMergedNodes(ns: Nodes)
    ensures PlainNodes(ns) ==> PlainNodes(MergeNodes(ns))
    decreases ns
  {
    match ns
    case Done =>
    case Text(_, rest) => PlainMergedNodes(rest);
    case Child(e, rest) =>
      PlainMerged(e);
      PlainMergedNodes(rest);
  }

  /** Two elements have the same canonical bytes exactly when they differ only in the order of
    * attributes that do not tie, in where namespaces are declared, and in how text is broken up. */
  lemma SameBytesExactlyWhenEquivalent(e1: Element, s1: Scope, e2: Element, s2: Scope, incl: List<Str>)
    requires Good(e1) && Plain(e1) && GoodScope(s1)
    requires Good(e2) && Plain(e2) && GoodScope(s2)
    ensures CanonText(e1, incl, s1) == CanonText(e2, incl, s2) <==> Equivalent(Merge(e1), s1, Merge(e2), s2, incl)
  {
    CanonTextOfMerged(e1, incl, s1);
    CanonTextOfMerged(e2, incl, s2);
    if Equivalent(Merge(e1), s1, Merge(e2), s2, incl) {
      EquivalentShareBytes(Merge(e1), s1, Merge(e2), s2, incl);
    }
    if CanonText(e1, incl, s1) == CanonText(e2, incl, s2) {
      CanonIsGood(e1, s1, map[], incl);
      CanonIsGood(e2, s2, map[], incl);
      ParsePrinted(Canon(e1, s1, map[], incl));
      ParsePrinted(Canon(e2, s2, map[], incl));
      CanonMerged(e1, s1, map[], incl);
      CanonMerged(e2, s2, map[], incl);
      PlainMerged(e1);
      PlainMerged(e2);
      SameCanon(Merge(e1), s1, Merge(e2), s2, map[], incl);
    }
  }

  function Lang(value: Str): Attr
  {
    Attr(QName(None, Cons('l', Cons('a', Cons('n', Cons('g', Nil))))), value)
  }

  function XmlLang(value: Str): Attr
  {
    Attr(QName(Some(Cons('x', Cons('m', Cons('l', Nil)))), Lang(value).name.local), value)
  }

  lemma LangIsGood(x: Str, y: Str)
    ensures GoodAttrName(Lang(x).name) && GoodAttrName(XmlLang(y).name)
  {
    var g, l := Cons('g', Nil), Cons('l', Nil);
    assert AllNameChars(g) && AllNameChars(l);
    assert AllNameChars(Cons('n', g)) && AllNameChars(Cons('m', l));
    assert AllNameChars(Cons('a', Cons('n', g)));
  }

  /** Attributes that Namespaces in XML 1.0 tells apart can tie: the prefix xml needs no declaration
    * and is not bound here, so xml:lang ties with lang, and the canonical bytes show which of the
    * two came first. */
  lemma XmlLangShows(name: QName, x: Str, y: Str)
    requires GoodElementName(name)
    ensures var one := Element(name, Nil, Cons(Lang(x), Cons(XmlLang(y), Nil)), Done);
      var two := Element(name, Nil, Cons(XmlLang(y), Cons(Lang(x), Nil)), Done);
      CanonText(one, Nil, map[]) != CanonText(two, Nil, map[])
  {
    var one := Element(name, Nil, Cons(Lang(x), Cons(XmlLang(y), Nil)), Done);
    var two := Element(name, Nil, Cons(XmlLang(y), Cons(Lang(x), Nil)), Done);
    LangIsGood(x, y);
    assert GoodAttrs(Cons(XmlLang(y), Nil)) && GoodAttrs(Cons(Lang(x), Nil));
    SameBytesExactlyWhenEquivalent(one, map[], two, map[], Nil);
    TiedDiffer(Lang(x), XmlLang(y), Nil, map[]);
    SortsAlikeExactly(one.attrs, two.attrs, map[]);
    assert Merge(one) == one && Merge(two) == two;
  }
}
