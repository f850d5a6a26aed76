/** Exclusive canonicalization as a tree transformation: it keeps meaning, is idempotent, does
  * not depend on context, and ignores enveloped signatures. */
module XmlCanon {
  import opened Wrappers
  import opened Lists
  import opened XmlText
  import opened XmlTree

  // ---------------------------------------------------------------------------------
  // Namespace scopes
  // ---------------------------------------------------------------------------------

  /** Prefix (empty for the default namespace) to URI. */
  type Scope = map<Str, Str>

  function Lookup(scope: Scope, p: Str): Str
  {
    if p in scope then scope[p] else Nil
  }

  function Key(d: NsDecl): Str
  {
    if d.prefix.Some? then d.prefix.value else Nil
  }

  function Declare(scope: Scope, d: NsDecl): Scope
  {
    if Key(d) == Nil && d.uri == Nil then scope - {Nil} else scope[Key(d) := d.uri]
  }

  /** The scope inside an element with the given declarations. */
  function DeclareAll(scope: Scope, decls: List<NsDecl>): Scope
    decreases decls
  {
    match decls
    case Nil => scope
    case Cons(d, t) => DeclareAll(Declare(scope, d), t)
  }

  function RenderAll(rendered: Scope, decls: List<NsDecl>): Scope
    decreases decls
  {
    match decls
    case Nil => rendered
    case Cons(d, t) => RenderAll(rendered[Key(d) := d.uri], t)
  }

  /** What p is bound to after the declarations, if it was bound to uri before them. */
  function Final(decls: List<NsDecl>, p: Str, uri: Str): Str
  {
    match decls
    case Nil => uri
    case Cons(d, t) => Final(t, p, if Key(d) == p then d.uri else uri)
  }

  lemma {:induction false} DeclareAllAt(scope: Scope, decls: List<NsDecl>, p: Str)
    ensures Lookup(DeclareAll(scope, decls), p) == Final(decls, p, Lookup(scope, p))
    decreases decls
  {
    if decls == Nil {
    } else {
      DeclareAllAt(Declare(scope, decls.head), decls.tail, p);
    }
  }

  lemma {:induction false} RenderAllAt(rendered: Scope, decls: List<NsDecl>, p: Str)
    ensures Lookup(RenderAll(rendered, decls), p) == Final(decls, p, Lookup(rendered, p))
    decreases decls
  {
    if decls == Nil {
    } else {
      RenderAllAt(rendered[Key(decls.head) := decls.head.uri], decls.tail, p);
    }
  }

  // ---------------------------------------------------------------------------------
  // Order
  // ---------------------------------------------------------------------------------

  predicate Lt(a: Str, b: Str)
  {
    b.Cons? && (a == Nil || a.head < b.head || (a.head == b.head && Lt(a.tail, b.tail)))
  }

  lemma {:induction false} LtIsTotal(a: Str, b: Str)
    ensures a == b || Lt(a, b) || Lt(b, a)
    ensures !(Lt(a, b) && Lt(b, a)) && !Lt(a, a)
  {
    if a.Cons? && b.Cons? { LtIsTotal(a.tail, b.tail); }
    if a == Nil {
    } else {
      LtIsTotal(a.tail, a.tail);
    }
  }

  /** After what they share, a ends or goes on with the smaller character. */
  predicate Smaller(a: Str, b: Str, shared: Str, x: Str, y: Str)
  {
    a == Append(shared, x) && b == Append(shared, y) && y.Cons? && (x == Nil || x.head < y.head)
  }

  /** The order is that of a dictionary. */
  lemma {:induction false} LtIsLexicographic(a: Str, b: Str)
    ensures Lt(a, b) <==> exists shared, x, y :: Smaller(a, b, shared, x, y)
  {
    if a.Cons? && b.Cons? && a.head == b.head {
      LtIsLexicographic(a.tail, b.tail);
      if Lt(a.tail, b.tail) {
        var shared, x, y :| Smaller(a.tail, b.tail, shared, x, y);
        assert Smaller(a, b, Cons(a.head, shared), x, y);
      }
      forall shared, x, y | Smaller(a, b, shared, x, y) ensures Lt(a, b) {
        if shared.Cons? { assert Smaller(a.tail, b.tail, shared.tail, x, y); }
      }
    } else {
      if Lt(a, b) { assert Smaller(a, b, Nil, a, b); }
      forall shared, x, y | Smaller(a, b, shared, x, y) ensures Lt(a, b) {
        assert shared == Nil;
      }
    }
  }

  lemma {:induction false} LtIsTransitive(a: Str, b: Str, c: Str)
    requires Lt(a, b) && Lt(b, c)
    ensures Lt(a, c)
  {
    if a == Nil || !(a.head == b.head == c.head) {
    } else {
      LtIsTransitive(a.tail, b.tail, c.tail);
    }
  }

  /** Insertion into an ascending list without repetition. */
  function InsertPrefix(p: Str, ps: List<Str>): List<Str>
  {
    if ps == Nil || Lt(p, ps.head) then Cons(p, ps)
    else if p == ps.head then ps
    else Cons(ps.head, InsertPrefix(p, ps.tail))
  }

  lemma {:induction false} InsertCommutes(p: Str, q: Str, ps: List<Str>)
    ensures InsertPrefix(p, InsertPrefix(q, ps)) == InsertPrefix(q, InsertPrefix(p, ps))
  {
    LtIsTotal(p, q);
    if ps == Nil {
    } else {
      LtIsTotal(p, ps.head);
      LtIsTotal(q, ps.head);
      if Lt(p, ps.head) && Lt(ps.head, q) { LtIsTransitive(p, ps.head, q); }
      if Lt(q, ps.head) && Lt(ps.head, p) { LtIsTransitive(q, ps.head, p); }
      InsertCommutes(p, q, ps.tail);
    }
  }

  predicate Has<T(==)>(l: List<T>, x: T)
  {
    l.Cons? && (l.head == x || Has(l.tail, x))
  }

  lemma {:induction false} InsertHas(p: Str, ps: List<Str>, x: Str)
    ensures Has(InsertPrefix(p, ps), x) <==> x == p || Has(ps, x)
  {
    if ps == Nil {
    } else {
      InsertHas(p, ps.tail, x);
    }
  }

  // ---------------------------------------------------------------------------------
  // Visibly utilized prefixes
  // ---------------------------------------------------------------------------------

  function InsertAll(more: List<Str>, ps: List<Str>): List<Str>
  {
    match more
    case Nil => ps
    case Cons(p, t) => InsertAll(t, InsertPrefix(p, ps))
  }

  function InsertAttrPrefix(a: Attr, ps: List<Str>): List<Str>
  {
    match a.name.prefix
    case None => ps
    case Some(p) => InsertPrefix(p, ps)
  }

  function InsertAttrPrefixes(attrs: List<Attr>, ps: List<Str>): List<Str>
  {
    match attrs
    case Nil => ps
    case Cons(a, t) => InsertAttrPrefixes(t, InsertAttrPrefix(a, ps))
  }

  function PrefixKey(q: QName): Str
  {
    if q.prefix.Some? then q.prefix.value else Nil
  }

  /** The prefixes an element uses for its own name and attributes, and the inclusive ones. */
  function Utilized(name: QName, attrs: List<Attr>, incl: List<Str>): List<Str>
  {
    InsertAll(incl, InsertAttrPrefixes(attrs, Cons(PrefixKey(name), Nil)))
  }

  predicate AttrUses(attrs: List<Attr>, p: Str)
  {
    attrs.Cons? && (attrs.head.name.prefix == Some(p) || AttrUses(attrs.tail, p))
  }

  lemma {:induction false} InsertAllHas(more: List<Str>, ps: List<Str>, x: Str)
    ensures Has(InsertAll(more, ps), x) <==> Has(more, x) || Has(ps, x)
  {
    if more == Nil {
    } else {
      InsertHas(more.head, ps, x);
      InsertAllHas(more.tail, InsertPrefix(more.head, ps), x);
    }
  }

  lemma {:induction false} InsertAttrPrefixesHas(attrs: List<Attr>, ps: List<Str>, x: Str)
    ensures Has(InsertAttrPrefixes(attrs, ps), x) <==> AttrUses(attrs, x) || Has(ps, x)
  {
    if attrs == Nil {
    } else {
      if attrs.head.name.prefix.Some? { InsertHas(attrs.head.name.prefix.value, ps, x); }
      InsertAttrPrefixesHas(attrs.tail, InsertAttrPrefix(attrs.head, ps), x);
    }
  }

  lemma UtilizedHas(name: QName, attrs: List<Attr>, incl: List<Str>, x: Str)
    ensures Has(Utilized(name, attrs, incl), x) <==> x == PrefixKey(name) || AttrUses(attrs, x) || Has(incl, x)
  {
    InsertAttrPrefixesHas(attrs, Cons(PrefixKey(name), Nil), x);
    InsertAllHas(incl, InsertAttrPrefixes(attrs, Cons(PrefixKey(name), Nil)), x);
  }

  // ---------------------------------------------------------------------------------
  // Declarations to emit
  // ---------------------------------------------------------------------------------

  /** Whether a declaration of p is needed: the binding differs from the rendered one; a prefix
    * without a URI is never declared, an empty default namespace is. */
  predicate Emits(scope: Scope, rendered: Scope, p: Str)
  {
    Lookup(scope, p) != Lookup(rendered, p) && (p == Nil || Lookup(scope, p) != Nil)
  }

  function DeclOf(p: Str, uri: Str): NsDecl
  {
    NsDecl(if p == Nil then None else Some(p), uri)
  }

  function Emit(ps: List<Str>, scope: Scope, rendered: Scope): List<NsDecl>
  {
    match ps
    case Nil => Nil
    case Cons(p, t) =>
      if Emits(scope, rendered, p) then Cons(DeclOf(p, Lookup(scope, p)), Emit(t, scope, rendered))
      else Emit(t, scope, rendered)
  }

  lemma {:induction false} FinalOfEmit(ps: List<Str>, scope: Scope, rendered: Scope, p: Str, uri: Str)
    ensures Final(Emit(ps, scope, rendered), p, uri) ==
      if Has(ps, p) && Emits(scope, rendered, p) then Lookup(scope, p) else uri
  {
    if ps == Nil {
    } else {
      FinalOfEmit(ps.tail, scope, rendered, p, uri);
      FinalOfEmit(ps.tail, scope, rendered, p, Lookup(scope, ps.head));
    }
  }

  predicate Above(p: Str, ps: List<Str>)
  {
    ps == Nil || (Lt(p, ps.head) && Above(p, ps.tail))
  }

  predicate Ascending(ps: List<Str>)
  {
    ps == Nil || (Above(ps.head, ps.tail) && Ascending(ps.tail))
  }

  function Keys(decls: List<NsDecl>): List<Str>
  {
    match decls
    case Nil => Nil
    case Cons(d, t) => Cons(Key(d), Keys(t))
  }

  lemma {:induction false} AboveTransitive(p: Str, q: Str, ps: List<Str>)
    requires Lt(p, q) && Above(q, ps)
    ensures Above(p, ps)
  {
    if ps == Nil {
    } else {
      LtIsTransitive(p, q, ps.head);
      AboveTransitive(p, q, ps.tail);
    }
  }

  lemma {:induction false} InsertIsAbove(q: Str, p: Str, ps: List<Str>)
    requires Lt(q, p) && Above(q, ps)
    ensures Above(q, InsertPrefix(p, ps))
  {
    if ps == Nil {
    } else {
      InsertIsAbove(q, p, ps.tail);
    }
  }

  lemma {:induction false} InsertIsAscending(p: Str, ps: List<Str>)
    requires Ascending(ps)
    ensures Ascending(InsertPrefix(p, ps))
  {
    if ps == Nil {
    } else {
      LtIsTotal(p, ps.head);
      if Lt(p, ps.head) {
        AboveTransitive(p, ps.head, ps.tail);
      } else if p != ps.head {
        InsertIsAscending(p, ps.tail);
        InsertIsAbove(ps.head, p, ps.tail);
      }
    }
  }

  lemma {:induction false} InsertAttrPrefixesIsAscending(attrs: List<Attr>, ps: List<Str>)
    requires Ascending(ps)
    ensures Ascending(InsertAttrPrefixes(attrs, ps))
  {
    if attrs == Nil {
    } else {
      if attrs.head.name.prefix.Some? { InsertIsAscending(attrs.head.name.prefix.value, ps); }
      InsertAttrPrefixesIsAscending(attrs.tail, InsertAttrPrefix(attrs.head, ps));
    }
  }

  lemma {:induction false} InsertAllIsAscending(more: List<Str>, ps: List<Str>)
    requires Ascending(ps)
    ensures Ascending(InsertAll(more, ps))
  {
    if more == Nil {
    } else {
      InsertIsAscending(more.head, ps);
      InsertAllIsAscending(more.tail, InsertPrefix(more.head, ps));
    }
  }

  lemma {:induction false} EmitIsAbove(p: Str, ps: List<Str>, scope: Scope, rendered: Scope)
    requires Above(p, ps)
    ensures Above(p, Keys(Emit(ps, scope, rendered)))
  {
    if ps == Nil {
    } else {
      EmitIsAbove(p, ps.tail, scope, rendered);
    }
  }

  lemma {:induction false} EmitIsAscending(ps: List<Str>, scope: Scope, rendered: Scope)
    requires Ascending(ps)
    ensures Ascending(Keys(Emit(ps, scope, rendered)))
  {
    if ps == Nil {
    } else {
      EmitIsAscending(ps.tail, scope, rendered);
      EmitIsAbove(ps.head, ps.tail, scope, rendered);
    }
  }

  /** Declarations come out in strictly ascending order of prefix, the default namespace first. */
  lemma DeclarationsAreSorted(name: QName, attrs: List<Attr>, incl: List<Str>, scope: Scope, rendered: Scope)
    ensures Ascending(Keys(Emit(Utilized(name, attrs, incl), scope, rendered)))
  {
    InsertAttrPrefixesIsAscending(attrs, Cons(PrefixKey(name), Nil));
    InsertAllIsAscending(incl, InsertAttrPrefixes(attrs, Cons(PrefixKey(name), Nil)));
    EmitIsAscending(Utilized(name, attrs, incl), scope, rendered);
  }

  function InsertDecl(d: NsDecl, decls: List<NsDecl>): List<NsDecl>
  {
    if decls == Nil || !Lt(Key(decls.head), Key(d)) then Cons(d, decls)
    else Cons(decls.head, InsertDecl(d, decls.tail))
  }

  /** Stable sort by prefix. */
  function SortDecls(decls: List<NsDecl>): List<NsDecl>
  {
    match decls
    case Nil => Nil
    case Cons(d, t) => InsertDecl(d, SortDecls(t))
  }

  lemma {:induction false} SortOfAscending(decls: List<NsDecl>)
    requires Ascending(Keys(decls))
    ensures SortDecls(decls) == decls
  {
    if decls == Nil {
    } else {
      SortOfAscending(decls.tail);
      if decls.tail.Cons? { LtIsTotal(Key(decls.head), Key(decls.tail.head)); }
    }
  }

  // ---------------------------------------------------------------------------------
  // Attribute order
  // ---------------------------------------------------------------------------------

  function AttrUri(a: Attr, scope: Scope): Str
  {
    if a.name.prefix.Some? then Lookup(scope, a.name.prefix.value) else Nil
  }

  predicate Before(a: Attr, b: Attr, scope: Scope)
  {
    Lt(AttrUri(a, scope), AttrUri(b, scope)) ||
    (AttrUri(a, scope) == AttrUri(b, scope) && Lt(a.name.local, b.name.local))
  }

  function InsertAttr(a: Attr, attrs: List<Attr>, scope: Scope): List<Attr>
  {
    if attrs == Nil || !Before(attrs.head, a, scope) then Cons(a, attrs)
    else Cons(attrs.head, InsertAttr(a, attrs.tail, scope))
  }

  /** Stable sort by namespace URI and local name. */
  function SortAttrs(attrs: List<Attr>, scope: Scope): List<Attr>
  {
    match attrs
    case Nil => Nil
    case Cons(a, t) => InsertAttr(a, SortAttrs(t, scope), scope)
  }

  predicate Sorted(attrs: List<Attr>, scope: Scope)
  {
    attrs.Cons? && attrs.tail.Cons? ==> !Before(attrs.tail.head, attrs.head, scope) && Sorted(attrs.tail, scope)
  }

  lemma BeforeIsAsymmetric(a: Attr, b: Attr, scope: Scope)
    requires Before(a, b, scope)
    ensures !Before(b, a, scope)
  {
    LtIsTotal(AttrUri(a, scope), AttrUri(b, scope));
    LtIsTotal(a.name.local, b.name.local);
  }

  lemma {:induction false} InsertKeepsSorted(a: Attr, attrs: List<Attr>, scope: Scope)
    requires Sorted(attrs, scope)
    ensures Sorted(InsertAttr(a, attrs, scope), scope)
  {
    if attrs == Nil || !Before(attrs.head, a, scope) {
    } else {
      BeforeIsAsymmetric(attrs.head, a, scope);
      InsertKeepsSorted(a, attrs.tail, scope);
    }
  }

  lemma {:induction false} SortIsSorted(attrs: List<Attr>, scope: Scope)
    ensures Sorted(SortAttrs(attrs, scope), scope)
  {
    if attrs == Nil {
    } else {
      SortIsSorted(attrs.tail, scope);
      InsertKeepsSorted(attrs.head, SortAttrs(attrs.tail, scope), scope);
    }
  }

  /** Attributes are ordered by namespace URI, those without one first, and then by local name. */
  predicate ByUriThenName(attrs: List<Attr>, scope: Scope)
  {
    attrs.Cons? && attrs.tail.Cons? ==>
      var a, b := attrs.head, attrs.tail.head;
      (Lt(AttrUri(a, scope), AttrUri(b, scope)) ||
       (AttrUri(a, scope) == AttrUri(b, scope) && !Lt(b.name.local, a.name.local))) &&
      ByUriThenName(attrs.tail, scope)
  }

  lemma {:induction false} SortedIsByUriThenName(attrs: List<Attr>, scope: Scope)
    ensures Sorted(attrs, scope) <==> ByUriThenName(attrs, scope)
  {
    if attrs == Nil || attrs.tail == Nil {
    } else {
      LtIsTotal(AttrUri(attrs.head, scope), AttrUri(attrs.tail.head, scope));
      SortedIsByUriThenName(attrs.tail, scope);
    }
  }

  lemma SortIsByUriThenName(attrs: List<Attr>, scope: Scope)
    ensures ByUriThenName(SortAttrs(attrs, scope), scope)
  {
    SortIsSorted(attrs, scope);
    SortedIsByUriThenName(SortAttrs(attrs, scope), scope);
  }

  lemma {:induction false} SortOfSorted(attrs: List<Attr>, scope: Scope)
    requires Sorted(attrs, scope)
    ensures SortAttrs(attrs, scope) == attrs
  {
    if attrs == Nil {
    } else {
      SortOfSorted(attrs.tail, scope);
    }
  }

  lemma {:induction false} InsertAttrUtilized(a: Attr, attrs: List<Attr>, scope: Scope, ps: List<Str>)
    ensures InsertAttrPrefixes(InsertAttr(a, attrs, scope), ps) == InsertAttrPrefixes(attrs, InsertAttrPrefix(a, ps))
  {
    if attrs == Nil {
    } else {
      var h := attrs.head;
      if a.name.prefix.Some? && h.name.prefix.Some? { InsertCommutes(a.name.prefix.value, h.name.prefix.value, ps); }
      InsertAttrUtilized(a, attrs.tail, scope, InsertAttrPrefix(h, ps));
    }
  }

  /** Sorting the attributes does not change the prefixes in use. */
  lemma {:induction false} SortUtilized(attrs: List<Attr>, scope: Scope, ps: List<Str>)
    ensures InsertAttrPrefixes(SortAttrs(attrs, scope), ps) == InsertAttrPrefixes(attrs, ps)
  {
    if attrs == Nil {
    } else {
      InsertAttrUtilized(attrs.head, SortAttrs(attrs.tail, scope), scope, ps);
      SortUtilized(attrs.tail, scope, InsertAttrPrefix(attrs.head, ps));
    }
  }

  // ---------------------------------------------------------------------------------
  // Canonical form
  // ---------------------------------------------------------------------------------

  function Canon(e: Element, scope: Scope, rendered: Scope, incl: List<Str>): Element
  {
    var inner := DeclareAll(scope, e.decls);
    var emitted := Emit(Utilized(e.name, e.attrs, incl), inner, rendered);
    Element(
      e.name, emitted, SortAttrs(e.attrs, inner), CanonNodes(e.children, inner, RenderAll(rendered, emitted), incl))
  }

  function CanonNodes(ns: Nodes, scope: Scope, rendered: Scope, incl: List<Str>): Nodes
  {
    match ns
    case Done => Done
    case Text(t, rest) => Text(t, CanonNodes(rest, scope, rendered, incl))
    case Child(e, rest) => Child(Canon(e, scope, rendered, incl), CanonNodes(rest, scope, rendered, incl))
  }

  /** The canonical bytes of e in an inherited scope. */
  function CanonText(e: Element, incl: List<Str>, inherited: Scope): Str
  {
    Print(Canon(e, inherited, map[], incl), Nil)
  }

  predicate HasDecl(decls: List<NsDecl>, d: NsDecl)
  {
    decls.Cons? && (decls.head == d || HasDecl(decls.tail, d))
  }

  lemma {:induction false} EmitHas(ps: List<Str>, scope: Scope, rendered: Scope, d: NsDecl)
    ensures HasDecl(Emit(ps, scope, rendered), d) <==>
      Has(ps, Key(d)) && Emits(scope, rendered, Key(d)) && d == DeclOf(Key(d), Lookup(scope, Key(d)))
  {
    if ps == Nil {
    } else {
      EmitHas(ps.tail, scope, rendered, d);
    }
  }

  /** An element is rendered with a declaration exactly when its prefix is that of the element's
    * name or of an attribute or an inclusive one, what it is bound to is not what was rendered for
    * it outside, and it is bound to something, or is the default namespace. */
  lemma DeclaresExactly(e: Element, scope: Scope, rendered: Scope, incl: List<Str>, prefix: Option<Str>, uri: Str)
    requires prefix != Some(Nil)
    ensures var p := if prefix.Some? then prefix.value else Nil;
      HasDecl(Canon(e, scope, rendered, incl).decls, NsDecl(prefix, uri)) <==>
      (p == PrefixKey(e.name) || AttrUses(e.attrs, p) || Has(incl, p)) && uri == Final(e.decls, p, Lookup(scope, p)) &&
      uri != Lookup(rendered, p) && (prefix == None || uri != Nil)
  {
    var d := NsDecl(prefix, uri);
    var inner := DeclareAll(scope, e.decls);
    EmitHas(Utilized(e.name, e.attrs, incl), inner, rendered, d);
    UtilizedHas(e.name, e.attrs, incl, Key(d));
    DeclareAllAt(scope, e.decls, Key(d));
  }

  // ---------------------------------------------------------------------------------
  // Scopes that agree
  // ---------------------------------------------------------------------------------

  ghost predicate AgreeOn(ps: List<Str>, s1: Scope, s2: Scope)
  {
    forall p :: Has(ps, p) ==> Lookup(s1, p) == Lookup(s2, p)
  }

  ghost predicate Same(s1: Scope, s2: Scope)
  {
    forall p :: Lookup(s1, p) == Lookup(s2, p)
  }

  predicate SameUris(attrs: List<Attr>, s1: Scope, s2: Scope)
  {
    attrs == Nil || (AttrUri(attrs.head, s1) == AttrUri(attrs.head, s2) && SameUris(attrs.tail, s1, s2))
  }

  lemma {:induction false} SameUrisWhenUsed(attrs: List<Attr>, s1: Scope, s2: Scope)
    requires forall p :: AttrUses(attrs, p) ==> Lookup(s1, p) == Lookup(s2, p)
    ensures SameUris(attrs, s1, s2)
  {
    if attrs == Nil {
    } else {
      assert attrs.head.name.prefix.Some? ==> AttrUses(attrs, attrs.head.name.prefix.value);
      SameUrisWhenUsed(attrs.tail, s1, s2);
    }
  }

  lemma UtilizedAgree(name: QName, attrs: List<Attr>, incl: List<Str>, s1: Scope, s2: Scope)
    requires AgreeOn(Utilized(name, attrs, incl), s1, s2)
    ensures Lookup(s1, PrefixKey(name)) == Lookup(s2, PrefixKey(name)) && SameUris(attrs, s1, s2)
  {
    UtilizedHas(name, attrs, incl, PrefixKey(name));
    forall p | AttrUses(attrs, p) ensures Lookup(s1, p) == Lookup(s2, p) {
      UtilizedHas(name, attrs, incl, p);
    }
    SameUrisWhenUsed(attrs, s1, s2);
  }

  lemma {:induction false} EmitAgrees(ps: List<Str>, s1: Scope, s2: Scope, rendered: Scope)
    requires AgreeOn(ps, s1, s2)
    ensures Emit(ps, s1, rendered) == Emit(ps, s2, rendered)
  {
    if ps == Nil {
    } else {
      assert Has(ps, ps.head);
      EmitAgrees(ps.tail, s1, s2, rendered);
    }
  }

  lemma {:induction false} InsertAgrees(a: Attr, attrs: List<Attr>, s1: Scope, s2: Scope)
    requires SameUris(Cons(a, attrs), s1, s2)
    ensures InsertAttr(a, attrs, s1) == InsertAttr(a, attrs, s2) && SameUris(InsertAttr(a, attrs, s1), s1, s2)
  {
    if attrs == Nil {
    } else {
      InsertAgrees(a, attrs.tail, s1, s2);
    }
  }

  lemma {:induction false} SortAgrees(attrs: List<Attr>, s1: Scope, s2: Scope)
    requires SameUris(attrs, s1, s2)
    ensures SortAttrs(attrs, s1) == SortAttrs(attrs, s2) && SameUris(SortAttrs(attrs, s1), s1, s2)
  {
    if attrs == Nil {
    } else {
      SortAgrees(attrs.tail, s1, s2);
      InsertAgrees(attrs.head, SortAttrs(attrs.tail, s1), s1, s2);
    }
  }

  /** Sorting again, in a scope that agrees, changes nothing. */
  lemma SortTwice(attrs: List<Attr>, s1: Scope, s2: Scope)
    requires SameUris(attrs, s1, s2)
    ensures SortAttrs(SortAttrs(attrs, s1), s2) == SortAttrs(attrs, s1)
  {
    SortAgrees(attrs, s1, s2);
    SortIsSorted(attrs, s2);
    SortOfSorted(SortAttrs(attrs, s2), s2);
  }

  // ---------------------------------------------------------------------------------
  // What one element does to the scopes
  // ---------------------------------------------------------------------------------

  /** No prefix is undeclared, as Namespaces in XML 1.0 requires. */
  predicate NoUndeclaring(decls: List<NsDecl>)
  {
    decls == Nil || ((Key(decls.head) == Nil || decls.head.uri != Nil) && NoUndeclaring(decls.tail))
  }

  predicate Plain(e: Element)
  {
    NoUndeclaring(e.decls) && PlainNodes(e.children)
  }

  predicate PlainNodes(ns: Nodes)
  {
    match ns
    case Done => true
    case Text(_, rest) => PlainNodes(rest)
    case Child(e, rest) => Plain(e) && PlainNodes(rest)
  }

  /** Every rendered prefix is still bound. */
  ghost predicate Covered(scope: Scope, rendered: Scope)
  {
    forall p :: p != Nil && Lookup(rendered, p) != Nil ==> Lookup(scope, p) != Nil
  }

  lemma {:induction false} StaysBound(decls: List<NsDecl>, p: Str, uri: Str)
    requires NoUndeclaring(decls) && p != Nil && uri != Nil
    ensures Final(decls, p, uri) != Nil
  {
    if decls.Cons? { StaysBound(decls.tail, p, if Key(decls.head) == p then decls.head.uri else uri); }
  }

  lemma CoveredInside(scope: Scope, rendered: Scope, decls: List<NsDecl>)
    requires Covered(scope, rendered) && NoUndeclaring(decls)
    ensures Covered(DeclareAll(scope, decls), rendered)
  {
    forall p | p != Nil && Lookup(rendered, p) != Nil ensures Lookup(DeclareAll(scope, decls), p) != Nil {
      DeclareAllAt(scope, decls, p);
      StaysBound(decls, p, Lookup(scope, p));
    }
  }

  /** After emitting, the rendered declarations give every utilized prefix its binding. */
  lemma RenderedAgrees(ps: List<Str>, inner: Scope, rendered: Scope)
    requires Covered(inner, rendered)
    ensures AgreeOn(ps, inner, RenderAll(rendered, Emit(ps, inner, rendered)))
    ensures Covered(inner, RenderAll(rendered, Emit(ps, inner, rendered)))
  {
    var emitted := Emit(ps, inner, rendered);
    forall p
      ensures Has(ps, p) ==> Lookup(inner, p) == Lookup(RenderAll(rendered, emitted), p)
      ensures p != Nil && Lookup(RenderAll(rendered, emitted), p) != Nil ==> Lookup(inner, p) != Nil
    {
      RenderAllAt(rendered, emitted, p);
      FinalOfEmit(ps, inner, rendered, p, Lookup(rendered, p));
    }
  }

  lemma SameInside(s: Scope, rendered: Scope, decls: List<NsDecl>)
    requires Same(s, rendered)
    ensures Same(DeclareAll(s, decls), RenderAll(rendered, decls))
  {
    forall p ensures Lookup(DeclareAll(s, decls), p) == Lookup(RenderAll(rendered, decls), p) {
      DeclareAllAt(s, decls, p);
      RenderAllAt(rendered, decls, p);
    }
  }

  // ---------------------------------------------------------------------------------
  // Idempotence
  // ---------------------------------------------------------------------------------

  lemma {:induction false} CanonTwice(e: Element, scope: Scope, rendered: Scope, s: Scope, incl: List<Str>)
    requires Plain(e) && Covered(scope, rendered) && Same(s, rendered)
    ensures Canon(Canon(e, scope, rendered, incl), s, rendered, incl) == Canon(e, scope, rendered, incl)
    decreases e
  {
    var inner := DeclareAll(scope, e.decls);
    var ps := Utilized(e.name, e.attrs, incl);
    var emitted := Emit(ps, inner, rendered);
    var outer := DeclareAll(s, emitted);
    CoveredInside(scope, rendered, e.decls);
    RenderedAgrees(ps, inner, rendered);
    SameInside(s, rendered, emitted);
    SortUtilized(e.attrs, inner, Cons(PrefixKey(e.name), Nil));
    EmitAgrees(ps, inner, outer, rendered);
    UtilizedAgree(e.name, e.attrs, incl, inner, outer);
    SortTwice(e.attrs, inner, outer);
    CanonNodesTwice(e.children, inner, RenderAll(rendered, emitted), outer, incl);
  }

  lemma {:induction false} CanonNodesTwice(ns: Nodes, scope: Scope, rendered: Scope, s: Scope, incl: List<Str>)
    requires PlainNodes(ns) && Covered(scope, rendered) && Same(s, rendered)
    ensures CanonNodes(CanonNodes(ns, scope, rendered, incl), s, rendered, incl) ==
      CanonNodes(ns, scope, rendered, incl)
    decreases ns
  {
    match ns
    case Done =>
    case Text(_, rest) => CanonNodesTwice(rest, scope, rendered, s, incl);
    case Child(e, rest) =>
      CanonTwice(e, scope, rendered, s, incl);
      CanonNodesTwice(rest, scope, rendered, s, incl);
  }

  // ---------------------------------------------------------------------------------
  // Merged text and good names
  // ---------------------------------------------------------------------------------

  lemma {:induction false} CanonMerged(e: Element, scope: Scope, rendered: Scope, incl: List<Str>)
    ensures Canon(Merge(e), scope, rendered, incl) == Merge(Canon(e, scope, rendered, incl))
    decreases e
  {
    var inner := DeclareAll(scope, e.decls);
    var emitted := Emit(Utilized(e.name, e.attrs, incl), inner, rendered);
    CanonNodesMerged(e.children, inner, RenderAll(rendered, emitted), incl);
  }

  lemma {:induction false} CanonNodesMerged(ns: Nodes, scope: Scope, rendered: Scope, incl: List<Str>)
    ensures CanonNodes(MergeNodes(ns), scope, rendered, incl) == MergeNodes(CanonNodes(ns, scope, rendered, incl))
    decreases ns
  {
    match ns
    case Done =>
    case Text(_, rest) => CanonNodesMerged(rest, scope, rendered, incl);
    case Child(e, rest) =>
      CanonMerged(e, scope, rendered, incl);
      CanonNodesMerged(rest, scope, rendered, incl);
  }

  /** Breaks within text do not show. */
  lemma CanonTextOfMerged(e: Element, incl: List<Str>, inherited: Scope)
    ensures CanonText(Merge(e), incl, inherited) == CanonText(e, incl, inherited)
  {
    CanonMerged(e, inherited, map[], incl);
    PrintMerged(Canon(e, inherited, map[], incl), Nil);
  }

  /** Every bound prefix is a name the parser can read back. */
  ghost predicate GoodScope(scope: Scope)
  {
    forall p :: p != Nil && Lookup(scope, p) != Nil ==> IsName(p)
  }

  lemma {:induction false} FinalIsGood(decls: List<NsDecl>, p: Str, uri: Str)
    requires GoodDecls(decls) && p != Nil && Final(decls, p, uri) != Nil
    ensures IsName(p) || uri != Nil
  {
    if decls.Cons? { FinalIsGood(decls.tail, p, if Key(decls.head) == p then decls.head.uri else uri); }
  }

  lemma GoodInside(scope: Scope, decls: List<NsDecl>)
    requires GoodScope(scope) && GoodDecls(decls)
    ensures GoodScope(DeclareAll(scope, decls))
  {
    forall p | p != Nil && Lookup(DeclareAll(scope, decls), p) != Nil ensures IsName(p) {
      DeclareAllAt(scope, decls, p);
      FinalIsGood(decls, p, Lookup(scope, p));
    }
  }

  lemma {:induction false} EmitIsGood(ps: List<Str>, scope: Scope, rendered: Scope)
    requires GoodScope(scope)
    ensures GoodDecls(Emit(ps, scope, rendered))
  {
    if ps == Nil {
    } else {
      EmitIsGood(ps.tail, scope, rendered);
    }
  }

  lemma {:induction false} InsertIsGood(a: Attr, attrs: List<Attr>, scope: Scope)
    requires GoodAttrs(Cons(a, attrs))
    ensures GoodAttrs(InsertAttr(a, attrs, scope))
  {
    if attrs == Nil {
    } else {
      InsertIsGood(a, attrs.tail, scope);
    }
  }

  lemma {:induction false} SortIsGood(attrs: List<Attr>, scope: Scope)
    requires GoodAttrs(attrs)
    ensures GoodAttrs(SortAttrs(attrs, scope))
  {
    if attrs == Nil {
    } else {
      SortIsGood(attrs.tail, scope);
      InsertIsGood(attrs.head, SortAttrs(attrs.tail, scope), scope);
    }
  }

  lemma {:induction false} CanonIsGood(e: Element, scope: Scope, rendered: Scope, incl: List<Str>)
    requires Good(e) && GoodScope(scope)
    ensures Good(Canon(e, scope, rendered, incl))
    decreases e
  {
    var inner := DeclareAll(scope, e.decls);
    var emitted := Emit(Utilized(e.name, e.attrs, incl), inner, rendered);
    GoodInside(scope, e.decls);
    EmitIsGood(Utilized(e.name, e.attrs, incl), inner, rendered);
    SortIsGood(e.attrs, inner);
    CanonNodesIsGood(e.children, inner, RenderAll(rendered, emitted), incl);
  }

  lemma {:induction false} CanonNodesIsGood(ns: Nodes, scope: Scope, rendered: Scope, incl: List<Str>)
    requires GoodNodes(ns) && GoodScope(scope)
    ensures GoodNodes(CanonNodes(ns, scope, rendered, incl))
    decreases ns
  {
    match ns
    case Done =>
    case Text(_, rest) => CanonNodesIsGood(rest, scope, rendered, incl);
    case Child(e, rest) =>
      CanonIsGood(e, scope, rendered, incl);
      CanonNodesIsGood(rest, scope, rendered, incl);
  }

  /** The canonical form parses, and canonicalizing what was parsed gives the same bytes. */
  lemma CanonicalizationIsIdempotent(e: Element, incl: List<Str>, inherited: Scope)
    requires Good(e) && Plain(e) && GoodScope(inherited)
    ensures var once := CanonText(e, incl, inherited);
      Parse(once).Some? && CanonText(Parse(once).value, incl, map[]) == once
  {
    var t := Canon(e, inherited, map[], incl);
    CanonIsGood(e, inherited, map[], incl);
    ParsePrinted(t);
    CanonTwice(e, inherited, map[], map[], incl);
    CanonMerged(t, map[], map[], incl);
    PrintMerged(t, Nil);
  }

  // ---------------------------------------------------------------------------------
  // Meaning
  // ---------------------------------------------------------------------------------

  datatype ExpandedName = ExpandedName(uri: Str, local: Str)

  datatype Property = Property(name: ExpandedName, value: Str)

  /** An element without prefixes, declarations, attribute order or breaks within text. */
  datatype Meaning = Meaning(name: ExpandedName, attrs: multiset<Property>, children: Meanings)

  datatype Meanings = NoMore | Words(text: Str, rest: Meanings) | Inner(elem: Meaning, rest: Meanings)

  function PropertyOf(a: Attr, scope: Scope): Property
  {
    Property(ExpandedName(AttrUri(a, scope), a.name.local), a.value)
  }

  function Properties(attrs: List<Attr>, scope: Scope): multiset<Property>
  {
    match attrs
    case Nil => multiset{}
    case Cons(a, t) => multiset{PropertyOf(a, scope)} + Properties(t, scope)
  }

  function JoinWords(t: Str, ms: Meanings): Meanings
  {
    if t == Nil then ms
    else if ms.Words? then Words(Append(t, ms.text), ms.rest)
    else Words(t, ms)
  }

  function MeaningOf(e: Element, scope: Scope): Meaning
  {
    var inner := DeclareAll(scope, e.decls);
    Meaning(ExpandedName(Lookup(inner, PrefixKey(e.name)), e.name.local), Properties(e.attrs, inner),
            MeaningOfNodes(e.children, inner))
  }

  function MeaningOfNodes(ns: Nodes, scope: Scope): Meanings
  {
    match ns
    case Done => NoMore
    case Text(t, rest) => JoinWords(t, MeaningOfNodes(rest, scope))
    case Child(e, rest) => Inner(MeaningOf(e, scope), MeaningOfNodes(rest, scope))
  }

  lemma {:induction false} InsertProperties(a: Attr, attrs: List<Attr>, order: Scope, scope: Scope)
    ensures Properties(InsertAttr(a, attrs, order), scope) == Properties(Cons(a, attrs), scope)
  {
    if attrs == Nil {
    } else {
      InsertProperties(a, attrs.tail, order, scope);
    }
  }

  lemma {:induction false} SortProperties(attrs: List<Attr>, order: Scope, scope: Scope)
    ensures Properties(SortAttrs(attrs, order), scope) == Properties(attrs, scope)
  {
    if attrs == Nil {
    } else {
      SortProperties(attrs.tail, order, scope);
      InsertProperties(attrs.head, SortAttrs(attrs.tail, order), order, scope);
    }
  }

  lemma {:induction false} PropertiesAgree(attrs: List<Attr>, s1: Scope, s2: Scope)
    requires SameUris(attrs, s1, s2)
    ensures Properties(attrs, s1) == Properties(attrs, s2)
  {
    if attrs == Nil {
    } else {
      PropertiesAgree(attrs.tail, s1, s2);
    }
  }

  lemma {:induction false} CanonKeepsMeaning(e: Element, scope: Scope, rendered: Scope, s: Scope, incl: List<Str>)
    requires Plain(e) && Covered(scope, rendered) && Same(s, rendered)
    ensures MeaningOf(Canon(e, scope, rendered, incl), s) == MeaningOf(e, scope)
    decreases e
  {
    var inner := DeclareAll(scope, e.decls);
    var ps := Utilized(e.name, e.attrs, incl);
    var emitted := Emit(ps, inner, rendered);
    var outer := DeclareAll(s, emitted);
    CoveredInside(scope, rendered, e.decls);
    RenderedAgrees(ps, inner, rendered);
    SameInside(s, rendered, emitted);
    UtilizedAgree(e.name, e.attrs, incl, inner, outer);
    SortProperties(e.attrs, inner, outer);
    PropertiesAgree(e.attrs, inner, outer);
    CanonNodesKeepsMeaning(e.children, inner, RenderAll(rendered, emitted), outer, incl);
  }

  lemma {:induction false} CanonNodesKeepsMeaning(ns: Nodes, scope: Scope, rendered: Scope, s: Scope, incl: List<Str>)
    requires PlainNodes(ns) && Covered(scope, rendered) && Same(s, rendered)
    ensures MeaningOfNodes(CanonNodes(ns, scope, rendered, incl), s) == MeaningOfNodes(ns, scope)
    decreases ns
  {
    match ns
    case Done =>
    case Text(_, rest) => CanonNodesKeepsMeaning(rest, scope, rendered, s, incl);
    case Child(e, rest) =>
      CanonKeepsMeaning(e, scope, rendered, s, incl);
      CanonNodesKeepsMeaning(rest, scope, rendered, s, incl);
  }

  lemma JoinWordsOfJoined(t: Str, ns: Nodes, scope: Scope)
    ensures MeaningOfNodes(JoinText(t, ns), scope) == JoinWords(t, MeaningOfNodes(ns, scope))
  {
    if t.Cons? && ns.Text? {
      AppendNil(t);
      var ms := MeaningOfNodes(ns.rest, scope);
      if ms.Words? { AppendAssoc(t, ns.text, ms.text); }
    }
  }

  lemma {:induction false} MeaningOfMerged(e: Element, scope: Scope)
    ensures MeaningOf(Merge(e), scope) == MeaningOf(e, scope)
    decreases e
  {
    MeaningOfMergedNodes(e.children, DeclareAll(scope, e.decls));
  }

  lemma {:induction false} MeaningOfMergedNodes(ns: Nodes, scope: Scope)
    ensures MeaningOfNodes(MergeNodes(ns), scope) == MeaningOfNodes(ns, scope)
    decreases ns
  {
    match ns
    case Done =>
    case Text(t, rest) =>
      MeaningOfMergedNodes(rest, scope);
      JoinWordsOfJoined(t, MergeNodes(rest), scope);
    case Child(e, rest) =>
      MeaningOfMerged(e, scope);
      MeaningOfMergedNodes(rest, scope);
  }

  /** Re-parsing the canonical form, on its own, gives the element's expanded names, attributes
    * and merged text. */
  lemma CanonicalizationKeepsMeaning(e: Element, incl: List<Str>, inherited: Scope)
    requires Good(e) && Plain(e) && GoodScope(inherited)
    ensures var parsed := Parse(CanonText(e, incl, inherited));
      parsed.Some? && MeaningOf(parsed.value, map[]) == MeaningOf(e, inherited)
  {
    var t := Canon(e, inherited, map[], incl);
    CanonIsGood(e, inherited, map[], incl);
    ParsePrinted(t);
    MeaningOfMerged(t, map[]);
    CanonKeepsMeaning(e, inherited, map[], map[], incl);
  }

  // ---------------------------------------------------------------------------------
  // Context independence
  // ---------------------------------------------------------------------------------

  /** Whether the subtree visibly uses p, in the name or an attribute of some element. */
  predicate Uses(e: Element, p: Str)
  {
    PrefixKey(e.name) == p || AttrUses(e.attrs, p) || NodesUse(e.children, p)
  }

  predicate NodesUse(ns: Nodes, p: Str)
  {
    match ns
    case Done => false
    case Text(_, rest) => NodesUse(rest, p)
    case Child(e, rest) => Uses(e, p) || NodesUse(rest, p)
  }

  lemma {:induction false} CanonInContext(e: Element, s1: Scope, s2: Scope, rendered: Scope, incl: List<Str>)
    requires forall p :: Uses(e, p) || Has(incl, p) ==> Lookup(s1, p) == Lookup(s2, p)
    ensures Canon(e, s1, rendered, incl) == Canon(e, s2, rendered, incl)
    decreases e
  {
    var i1, i2 := DeclareAll(s1, e.decls), DeclareAll(s2, e.decls);
    var ps := Utilized(e.name, e.attrs, incl);
    forall p | Uses(e, p) || Has(incl, p) ensures Lookup(i1, p) == Lookup(i2, p) {
      DeclareAllAt(s1, e.decls, p);
      DeclareAllAt(s2, e.decls, p);
    }
    forall p | Has(ps, p) ensures Lookup(i1, p) == Lookup(i2, p) {
      UtilizedHas(e.name, e.attrs, incl, p);
      assert Uses(e, p) || Has(incl, p);
    }
    EmitAgrees(ps, i1, i2, rendered);
    UtilizedAgree(e.name, e.attrs, incl, i1, i2);
    SortAgrees(e.attrs, i1, i2);
    forall p | NodesUse(e.children, p) || Has(incl, p) ensures Lookup(i1, p) == Lookup(i2, p) {
      assert Uses(e, p) || Has(incl, p);
    }
    CanonNodesInContext(e.children, i1, i2, RenderAll(rendered, Emit(ps, i1, rendered)), incl);
  }

  lemma {:induction false} CanonNodesInContext(ns: Nodes, s1: Scope, s2: Scope, rendered: Scope, incl: List<Str>)
    requires forall p :: NodesUse(ns, p) || Has(incl, p) ==> Lookup(s1, p) == Lookup(s2, p)
    ensures CanonNodes(ns, s1, rendered, incl) == CanonNodes(ns, s2, rendered, incl)
    decreases ns
  {
    match ns
    case Done =>
    case Text(_, rest) => CanonNodesInContext(rest, s1, s2, rendered, incl);
    case Child(e, rest) =>
      CanonInContext(e, s1, s2, rendered, incl);
      CanonNodesInContext(rest, s1, s2, rendered, incl);
  }

  /** Inherited scopes that agree on the prefixes in use give the same bytes. */
  lemma CanonicalizationIgnoresContext(e: Element, incl: List<Str>, s1: Scope, s2: Scope)
    requires forall p :: Uses(e, p) || Has(incl, p) ==> Lookup(s1, p) == Lookup(s2, p)
    ensures CanonText(e, incl, s1) == CanonText(e, incl, s2)
  {
    CanonInContext(e, s1, s2, map[], incl);
  }
}
