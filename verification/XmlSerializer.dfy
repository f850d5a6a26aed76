/** The canonicalizer as it runs: scopes and lists filled by loops and characters pushed onto an
  * output string, proved to write the canonical form of XmlCanon. Each writing method takes the
  * text that will follow as a ghost argument, and states what the output followed by that text is. */
module XmlSerializer {
  import opened Wrappers
  import opened Lists
  import opened XmlText
  import opened XmlTree
  import opened XmlCanon
  import opened XmlParser
  import XmlNesting

  // ---------------------------------------------------------------------------------
  // Writing text
  // ---------------------------------------------------------------------------------

  method PushChar(out: string, c: char, ghost after: Str) returns (r: string)
    ensures Onto(r, after) == Onto(out, Cons(c, after))
  {
    OntoPush(out, c, after);
    r := out + [c];
  }

  method PushStr(out: string, s: Str, ghost after: Str) returns (r: string)
    ensures Onto(r, after) == Onto(out, Append(s, after))
  {
    r := out;
    var rest := s;
    while rest.Cons?
      invariant Onto(r, Append(rest, after)) == Onto(out, Append(s, after))
      decreases rest
    {
      r := PushChar(r, rest.head, Append(rest.tail, after));
      rest := rest.tail;
    }
  }

  /** Push s with the escapes of text or of an attribute value. */
  method PushEscaped(out: string, s: Str, attr: bool, ghost after: Str) returns (r: string)
    ensures Onto(r, after) == Onto(out, PutEscaped(s, attr, after))
  {
    r := out;
    var rest := s;
    while rest.Cons?
      invariant Onto(r, PutEscaped(rest, attr, after)) == Onto(out, PutEscaped(s, attr, after))
      decreases rest
    {
      ghost var next := PutEscaped(rest.tail, attr, after);
      var escaped := if attr then PutAttrChar(rest.head, Nil) else PutTextChar(rest.head, Nil);
      EscapeAppends(rest.head, attr, next);
      r := PushStr(r, escaped, next);
      rest := rest.tail;
    }
  }

  lemma EscapeAppends(c: char, attr: bool, post: Str)
    ensures Append(if attr then PutAttrChar(c, Nil) else PutTextChar(c, Nil), post) ==
      if attr then PutAttrChar(c, post) else PutTextChar(c, post)
  {
    Appends4('&', 'l', 't', ';', post);
    Appends4('&', 'g', 't', ';', post);
    Appends4('a', 'm', 'p', ';', post);
    Appends4('u', 'o', 't', ';', post);
    Appends4('#', 'x', 'D', ';', post);
    Appends4('#', 'x', 'A', ';', post);
    Appends4('#', 'x', '9', ';', post);
  }

  lemma Appends4(a: char, b: char, c: char, d: char, post: Str)
    ensures Append(Cons(a, Cons(b, Cons(c, Cons(d, Nil)))), post) == Cons(a, Cons(b, Cons(c, Cons(d, post))))
  {
    assert Append(Cons(d, Nil), post) == Cons(d, post);
    assert Append(Cons(c, Cons(d, Nil)), post) == Cons(c, Cons(d, post));
  }

  method PushName(out: string, q: QName, ghost after: Str) returns (r: string)
    ensures Onto(r, after) == Onto(out, PutName(q, after))
  {
    match q.prefix
    case None => r := PushStr(out, q.local, after);
    case Some(p) =>
      r := PushStr(out, p, Cons(':', Append(q.local, after)));
      r := PushChar(r, ':', Append(q.local, after));
      r := PushStr(r, q.local, after);
  }

  method PushAttr(out: string, q: QName, value: Str, ghost after: Str) returns (r: string)
    ensures Onto(r, after) == Onto(out, PutAttr(q, value, after))
  {
    ghost var closed := Cons('"', after);
    ghost var quoted := Cons('"', PutEscaped(value, true, closed));
    r := PushChar(out, ' ', PutName(q, Cons('=', quoted)));
    r := PushName(r, q, Cons('=', quoted));
    r := PushChar(r, '=', quoted);
    r := PushChar(r, '"', PutEscaped(value, true, closed));
    r := PushEscaped(r, value, true, closed);
    r := PushChar(r, '"', after);
  }

  // ---------------------------------------------------------------------------------
  // Scopes and declarations
  // ---------------------------------------------------------------------------------

  method InScope(parent: Scope, decls: List<NsDecl>) returns (scope: Scope)
    ensures scope == DeclareAll(parent, decls)
  {
    scope := parent;
    var rest := decls;
    while rest.Cons?
      invariant DeclareAll(scope, rest) == DeclareAll(parent, decls)
      decreases rest
    {
      var d := rest.head;
      if Key(d) == Nil && d.uri == Nil {
        scope := scope - {Nil};
      } else {
        scope := scope[Key(d) := d.uri];
      }
      rest := rest.tail;
    }
  }

  method VisiblyUtilized(e: Element, incl: List<Str>) returns (ps: List<Str>)
    ensures ps == Utilized(e.name, e.attrs, incl)
  {
    ps := Cons(PrefixKey(e.name), Nil);
    ghost var own := ps;
    var attrs := e.attrs;
    while attrs.Cons?
      invariant InsertAttrPrefixes(attrs, ps) == InsertAttrPrefixes(e.attrs, own)
      decreases attrs
    {
      if attrs.head.name.prefix.Some? { ps := InsertPrefix(attrs.head.name.prefix.value, ps); }
      attrs := attrs.tail;
    }
    var more := incl;
    while more.Cons?
      invariant InsertAll(more, ps) == Utilized(e.name, e.attrs, incl)
      decreases more
    {
      ps := InsertPrefix(more.head, ps);
      more := more.tail;
    }
  }

  /** Which declarations to render, and the rendered scope that results. */
  method Declarations(ps: List<Str>, scope: Scope, parent: Scope) returns (emitted: seq<NsDecl>, rendered: Scope)
    ensures Onto(emitted, Nil) == Emit(ps, scope, parent)
    ensures rendered == RenderAll(parent, Emit(ps, scope, parent))
  {
    emitted, rendered := [], parent;
    var rest := ps;
    while rest.Cons?
      invariant Onto(emitted, Emit(rest, scope, parent)) == Emit(ps, scope, parent)
      invariant RenderAll(rendered, Emit(rest, scope, parent)) == RenderAll(parent, Emit(ps, scope, parent))
      decreases rest
    {
      var p := rest.head;
      rest := rest.tail;
      var uri := if p in scope then scope[p] else Nil;
      if p == Nil && uri == Nil {
        if Nil in parent && parent[Nil] != Nil {
          OntoPush(emitted, NsDecl(None, Nil), Emit(rest, scope, parent));
          emitted, rendered := emitted + [NsDecl(None, Nil)], rendered[Nil := Nil];
        }
      } else if uri != Nil && !(p in parent && parent[p] == uri) {
        OntoPush(emitted, DeclOf(p, uri), Emit(rest, scope, parent));
        emitted, rendered := emitted + [DeclOf(p, uri)], rendered[p := uri];
      }
    }
  }

  // ---------------------------------------------------------------------------------
  // The serializer
  // ---------------------------------------------------------------------------------

  method PushDecls(out: string, decls: List<NsDecl>, ghost after: Str) returns (r: string)
    ensures Onto(r, after) == Onto(out, PutDecls(decls, after))
  {
    r := out;
    var rest := decls;
    while rest.Cons?
      invariant Onto(r, PutDecls(rest, after)) == Onto(out, PutDecls(decls, after))
      decreases rest
    {
      r := PushAttr(r, DeclName(rest.head), rest.head.uri, PutDecls(rest.tail, after));
      rest := rest.tail;
    }
  }

  method PushAttrs(out: string, attrs: List<Attr>, ghost after: Str) returns (r: string)
    ensures Onto(r, after) == Onto(out, PutAttrs(attrs, after))
  {
    r := out;
    var rest := attrs;
    while rest.Cons?
      invariant Onto(r, PutAttrs(rest, after)) == Onto(out, PutAttrs(attrs, after))
      decreases rest
    {
      r := PushAttr(r, rest.head.name, rest.head.value, PutAttrs(rest.tail, after));
      rest := rest.tail;
    }
  }

  method PushTag(out: string, e: Element, ghost after: Str) returns (r: string)
    ensures Onto(r, after) ==
      Onto(out, Cons('<', PutName(e.name, PutDecls(e.decls, PutAttrs(e.attrs, Cons('>', after))))))
  {
    ghost var attrs := PutAttrs(e.attrs, Cons('>', after));
    ghost var decls := PutDecls(e.decls, attrs);
    r := PushChar(out, '<', PutName(e.name, decls));
    r := PushName(r, e.name, decls);
    r := PushDecls(r, e.decls, attrs);
    r := PushAttrs(r, e.attrs, Cons('>', after));
    r := PushChar(r, '>', after);
  }

  method PushEnd(out: string, q: QName, ghost after: Str) returns (r: string)
    ensures Onto(r, after) == Onto(out, PutEnd(q, after))
  {
    ghost var name := PutName(q, Cons('>', after));
    r := PushChar(out, '<', Cons('/', name));
    r := PushChar(r, '/', name);
    r := PushName(r, q, Cons('>', after));
    r := PushChar(r, '>', after);
  }

  method Serialize(e: Element, scope: Scope, rendered: Scope, incl: List<Str>, out: string, ghost after: Str)
    returns (r: string)
    ensures Onto(r, after) == Onto(out, Print(Canon(e, scope, rendered, incl), after))
    decreases e
  {
    var inner := InScope(scope, e.decls);
    var utilized := VisiblyUtilized(e, incl);
    var emitted, inside := Declarations(utilized, inner, rendered);
    ghost var t := Canon(e, scope, rendered, incl);
    ghost var end := PutEnd(e.name, after);
    DeclarationsAreSorted(e.name, e.attrs, incl, inner, rendered);
    SortOfAscending(Onto(emitted, Nil));
    var tag := Element(e.name, SortDecls(Onto(emitted, Nil)), SortAttrs(e.attrs, inner), Done);
    r := PushTag(out, tag, PrintNodes(t.children, end));
    var ns := e.children;
    while ns != Done
      invariant ns == e.children || ns < e
      invariant Onto(r, PrintNodes(CanonNodes(ns, inner, inside, incl), end)) == Onto(out, Print(t, after))
      decreases ns
    {
      ghost var next := PrintNodes(CanonNodes(ns.rest, inner, inside, incl), end);
      match ns
      case Text(text, rest) =>
        r := PushEscaped(r, text, false, next);
        ns := rest;
      case Child(child, rest) =>
        r := Serialize(child, inner, inside, incl, r, next);
        ns := rest;
    }
    r := PushEnd(r, e.name, after);
  }

  /** The canonical form of e in an inherited scope. */
  method ExcC14nScoped(e: Element, incl: List<Str>, inherited: Scope) returns (out: string)
    ensures Onto(out, Nil) == CanonText(e, incl, inherited)
    ensures Good(e) && GoodScope(inherited) ==> XmlNesting.WellNested(Onto(out, Nil))
  {
    if Good(e) && GoodScope(inherited) { XmlNesting.CanonTextIsWellNested(e, incl, inherited); }
    out := Serialize(e, inherited, map[], incl, [], Nil);
  }
}
