/** A scanner for the form of Canonical XML, reading one character at a time with a stack of open
  * tags. It knows nothing of trees or of the printer. What the canonicalizer writes passes it. */
module XmlNesting {
  import opened Wrappers
  import opened Lists
  import opened XmlText
  import opened XmlTree
  import opened XmlCanon

  // ---------------------------------------------------------------------------------
  // The scanner
  // ---------------------------------------------------------------------------------

  /** Where the scanner is. An attribute's place in its tag is late once an attribute proper has
    * been seen; declarations come before. */
  datatype Mode =
    | Root
    | Content
    | Opening
    | StartName(name: Str)
    | AttrName(name: Str, late: bool)
    | BeforeQuote(late: bool)
    | Value(late: bool)
    | AfterValue(late: bool)
    | EndName(left: Str)

  predicate OneOf(s: Str, a: Str, b: Str, c: Str)
  {
    StartsWith(s, a) || StartsWith(s, b) || StartsWith(s, c)
  }

  function S2(a: char, b: char): Str { Cons(a, Cons(b, Cons(';', Nil))) }
  function S3(a: char, b: char, c: char): Str { Cons(a, S2(b, c)) }
  function S4(a: char, b: char, c: char, d: char): Str { Cons(a, S3(b, c, d)) }

  /** A character of text, with what follows it: no raw '>' and no raw carriage return, and an
    * ampersand only as the start of one of four references. */
  predicate TextChar(c: char, after: Str)
  {
    c != '>' && c != '\r' &&
    (c == '&' ==> OneOf(after, S3('a', 'm', 'p'), S2('l', 't'), S2('g', 't')) || StartsWith(after, S3('#', 'x', 'D')))
  }

  /** A character of an attribute value: no raw '<', tab, line feed or carriage return, and an
    * ampersand only as the start of one of six references. */
  predicate ValueChar(c: char, after: Str)
  {
    c != '<' && c != '\t' && c != '\n' && c != '\r' &&
    (c == '&' ==>
       OneOf(after, S3('a', 'm', 'p'), S2('l', 't'), S4('q', 'u', 'o', 't')) ||
       OneOf(after, S3('#', 'x', '9'), S3('#', 'x', 'A'), S3('#', 'x', 'D')))
  }

  predicate NamePart(c: char)
  {
    c != ' ' && c != '\t' && c != '\n' && c != '\r' && c != '>' && c != '/' && c != '='
  }

  predicate IsDeclName(name: Str)
  {
    TakeUntil(':', name).taken == Xmlns(Nil)
  }

  predicate Scan(s: Str, mode: Mode, open: List<Str>)
  {
    match s
    case Nil => mode == Content && open == Nil
    case Cons(c, t) =>
      match mode
      case Root => c == '<' && Scan(t, Opening, open)
      case Content =>
        open != Nil && if c == '<' then Scan(t, Opening, open) else TextChar(c, t) && Scan(t, Content, open)
      case Opening =>
        if c == '/' then open != Nil && Scan(t, EndName(open.head), open.tail)
        else NamePart(c) && Scan(t, StartName(Cons(c, Nil)), open)
      case StartName(name) =>
        if c == ' ' then Scan(t, AttrName(Nil, false), Cons(name, open))
        else if c == '>' then Scan(t, Content, Cons(name, open))
        else NamePart(c) && Scan(t, StartName(Append(name, Cons(c, Nil))), open)
      case AttrName(name, late) =>
        if c == '=' then !(late && IsDeclName(name)) && Scan(t, BeforeQuote(late || !IsDeclName(name)), open)
        else NamePart(c) && Scan(t, AttrName(Append(name, Cons(c, Nil)), late), open)
      case BeforeQuote(late) => c == '"' && Scan(t, Value(late), open)
      case Value(late) =>
        if c == '"' then Scan(t, AfterValue(late), open) else ValueChar(c, t) && Scan(t, Value(late), open)
      case AfterValue(late) =>
        if c == ' ' then Scan(t, AttrName(Nil, late), open) else c == '>' && Scan(t, Content, open)
      case EndName(left) =>
        if left == Nil then c == '>' && Scan(t, Content, open)
        else c == left.head && Scan(t, EndName(left.tail), open)
  }

  /** One element, every end tag with the name of the start tag it closes, written as Canonical
    * XML writes it. */
  predicate WellNested(s: Str)
  {
    Scan(s, Root, Nil)
  }

  // ---------------------------------------------------------------------------------
  // Text and values
  // ---------------------------------------------------------------------------------

  predicate NoMarkup(c: char)
  {
    c != '<' && c != '>' && c != '&' && c != '"' && c != '\r' && c != '\t' && c != '\n'
  }

  lemma Refers2(a: char, b: char, post: Str)
    ensures StartsWith(Cons(a, Cons(b, Cons(';', post))), S2(a, b))
  {
    assert StartsWith(Cons(';', post), Cons(';', Nil));
    assert StartsWith(Cons(b, Cons(';', post)), Cons(b, Cons(';', Nil)));
  }

  lemma Refers3(a: char, b: char, c: char, post: Str)
    ensures StartsWith(Cons(a, Cons(b, Cons(c, Cons(';', post)))), S3(a, b, c))
  {
    Refers2(b, c, post);
  }

  lemma Refers4(a: char, b: char, c: char, d: char, post: Str)
    ensures StartsWith(Cons(a, Cons(b, Cons(c, Cons(d, Cons(';', post))))), S4(a, b, c, d))
  {
    Refers3(b, c, d, post);
  }

  lemma PassText2(a: char, b: char, post: Str, open: List<Str>)
    requires NoMarkup(a) && NoMarkup(b) && open != Nil
    ensures Scan(Cons(a, Cons(b, Cons(';', post))), Content, open) == Scan(post, Content, open)
  {
    assert Scan(Cons(b, Cons(';', post)), Content, open) == Scan(Cons(';', post), Content, open);
  }

  lemma PassText3(a: char, b: char, c: char, post: Str, open: List<Str>)
    requires NoMarkup(a) && NoMarkup(b) && NoMarkup(c) && open != Nil
    ensures Scan(Cons(a, Cons(b, Cons(c, Cons(';', post)))), Content, open) == Scan(post, Content, open)
  {
    PassText2(b, c, post, open);
  }

  lemma PassTextChar(c: char, post: Str, open: List<Str>)
    requires open != Nil
    ensures Scan(PutTextChar(c, post), Content, open) == Scan(post, Content, open)
  {
    if c == '&' {
      Refers3('a', 'm', 'p', post);
      PassText3('a', 'm', 'p', post, open);
    } else if c == '<' {
      Refers2('l', 't', post);
      PassText2('l', 't', post, open);
    } else if c == '>' {
      Refers2('g', 't', post);
      PassText2('g', 't', post, open);
    } else if c == '\r' {
      Refers3('#', 'x', 'D', post);
      PassText3('#', 'x', 'D', post, open);
    }
  }

  lemma {:induction false} PassText(s: Str, post: Str, open: List<Str>)
    requires open != Nil
    ensures Scan(PutEscaped(s, false, post), Content, open) == Scan(post, Content, open)
  {
    if s == Nil {
    } else {
      PassText(s.tail, post, open);
      PassTextChar(s.head, PutEscaped(s.tail, false, post), open);
    }
  }

  lemma PassValue2(a: char, b: char, late: bool, post: Str, open: List<Str>)
    requires NoMarkup(a) && NoMarkup(b)
    ensures Scan(Cons(a, Cons(b, Cons(';', post))), Value(late), open) == Scan(post, Value(late), open)
  {
    assert Scan(Cons(b, Cons(';', post)), Value(late), open) == Scan(Cons(';', post), Value(late), open);
  }

  lemma PassValue3(a: char, b: char, c: char, late: bool, post: Str, open: List<Str>)
    requires NoMarkup(a) && NoMarkup(b) && NoMarkup(c)
    ensures Scan(Cons(a, Cons(b, Cons(c, Cons(';', post)))), Value(late), open) == Scan(post, Value(late), open)
  {
    PassValue2(b, c, late, post, open);
  }

  lemma PassReference(c: char, late: bool, post: Str, open: List<Str>)
    requires c == '9' || c == 'A' || c == 'D'
    ensures Scan(Put5('&', '#', 'x', c, ';', post), Value(late), open) == Scan(post, Value(late), open)
  {
    Refers3('#', 'x', c, post);
    PassValue3('#', 'x', c, late, post, open);
  }

  lemma PassValueChar(c: char, late: bool, post: Str, open: List<Str>)
    ensures Scan(PutAttrChar(c, post), Value(late), open) == Scan(post, Value(late), open)
  {
    if c == '&' {
      Refers3('a', 'm', 'p', post);
      PassValue3('a', 'm', 'p', late, post, open);
    } else if c == '<' {
      Refers2('l', 't', post);
      PassValue2('l', 't', late, post, open);
    } else if c == '"' {
      Refers4('q', 'u', 'o', 't', post);
      PassValue3('u', 'o', 't', late, post, open);
    } else if c == '\t' {
      PassReference('9', late, post, open);
    } else if c == '\n' {
      PassReference('A', late, post, open);
    } else if c == '\r' {
      PassReference('D', late, post, open);
    }
  }

  lemma {:induction false} PassValue(s: Str, late: bool, post: Str, open: List<Str>)
    ensures Scan(PutEscaped(s, true, post), Value(late), open) == Scan(post, Value(late), open)
  {
    if s == Nil {
    } else {
      PassValue(s.tail, late, post, open);
      PassValueChar(s.head, late, PutEscaped(s.tail, true, post), open);
    }
  }

  // ---------------------------------------------------------------------------------
  // Names
  // ---------------------------------------------------------------------------------

  predicate NameParts(s: Str)
  {
    s == Nil || (NamePart(s.head) && NameParts(s.tail))
  }

  /** A name as it is written. */
  function Raw(q: QName): Str
  {
    PutName(q, Nil)
  }

  lemma PutNameIsRaw(q: QName, post: Str)
    ensures PutName(q, post) == Append(Raw(q), post)
  {
    AppendNil(q.local);
    if q.prefix.Some? { AppendAssoc(q.prefix.value, Cons(':', q.local), post); }
  }

  lemma {:induction false} NamePartsOf(a: Str, b: Str)
    requires AllNameChars(a) && NameParts(b)
    ensures NameParts(Append(a, b))
  {
    if a == Nil {
    } else {
      NamePartsOf(a.tail, b);
    }
  }

  lemma RawIsName(q: QName)
    requires GoodName(q)
    ensures NameParts(Raw(q)) && Raw(q).Cons?
    ensures IsDeclName(Raw(q)) <==> q == QName(None, Xmlns(Nil)) || q.prefix == Some(Xmlns(Nil))
  {
    NamePartsOf(q.local, Nil);
    AppendNil(q.local);
    ColonAfterName(q.local, Nil);
    if q.prefix.Some? {
      NamePartsOf(q.prefix.value, Cons(':', q.local));
      ColonAfterName(q.prefix.value, Cons(':', q.local));
      AppendNil(q.prefix.value);
    }
  }

  lemma {:induction false} PassStartName(name: Str, seen: Str, post: Str, open: List<Str>)
    requires NameParts(name)
    ensures Scan(Append(name, post), StartName(seen), open) == Scan(post, StartName(Append(seen, name)), open)
  {
    if name == Nil {
      AppendNil(seen);
    } else {
      PassStartName(name.tail, Append(seen, Cons(name.head, Nil)), post, open);
      AppendAssoc(seen, Cons(name.head, Nil), name.tail);
    }
  }

  lemma {:induction false} PassAttrName(name: Str, seen: Str, late: bool, post: Str, open: List<Str>)
    requires NameParts(name)
    ensures Scan(Append(name, post), AttrName(seen, late), open) == Scan(post, AttrName(Append(seen, name), late), open)
  {
    if name == Nil {
      AppendNil(seen);
    } else {
      PassAttrName(name.tail, Append(seen, Cons(name.head, Nil)), late, post, open);
      AppendAssoc(seen, Cons(name.head, Nil), name.tail);
    }
  }

  lemma {:induction false} PassEndName(name: Str, post: Str, open: List<Str>)
    ensures Scan(Append(name, Cons('>', post)), EndName(name), open) == Scan(post, Content, open)
  {
    if name == Nil {
    } else {
      PassEndName(name.tail, post, open);
    }
  }

  // ---------------------------------------------------------------------------------
  // Tags
  // ---------------------------------------------------------------------------------

  lemma PassAttr(q: QName, value: Str, late: bool, post: Str, open: List<Str>)
    requires GoodName(q) && !(late && IsDeclName(Raw(q)))
    ensures Scan(PutAttr(q, value, post), AfterValue(late), open) ==
      Scan(post, AfterValue(late || !IsDeclName(Raw(q))), open)
  {
    var next := late || !IsDeclName(Raw(q));
    var quoted := PutEscaped(value, true, Cons('"', post));
    PutNameIsRaw(q, Cons('=', Cons('"', quoted)));
    RawIsName(q);
    PassAttrName(Raw(q), Nil, late, Cons('=', Cons('"', quoted)), open);
    assert Append(Nil, Raw(q)) == Raw(q);
    assert Scan(Cons('=', Cons('"', quoted)), AttrName(Raw(q), late), open) ==
      Scan(Cons('"', quoted), BeforeQuote(next), open);
    PassValue(value, next, Cons('"', post), open);
  }

  lemma {:induction false} PassAttrs(attrs: List<Attr>, late: bool, post: Str, open: List<Str>)
    requires GoodAttrs(attrs)
    ensures Scan(PutAttrs(attrs, Cons('>', post)), AfterValue(late), open) == Scan(post, Content, open)
  {
    match attrs
    case Nil =>
    case Cons(a, t) =>
      RawIsName(a.name);
      PassAttrs(t, true, post, open);
      PassAttr(a.name, a.value, late, PutAttrs(t, Cons('>', post)), open);
  }

  lemma {:induction false} PassDecls(decls: List<NsDecl>, attrs: List<Attr>, post: Str, open: List<Str>)
    requires GoodDecls(decls) && GoodAttrs(attrs)
    ensures Scan(PutDecls(decls, PutAttrs(attrs, Cons('>', post))), AfterValue(false), open) ==
      Scan(post, Content, open)
  {
    match decls
    case Nil => PassAttrs(attrs, false, post, open);
    case Cons(d, t) =>
      XmlnsIsName();
      RawIsName(DeclName(d));
      PassDecls(t, attrs, post, open);
      PassAttr(DeclName(d), d.uri, false, PutDecls(t, PutAttrs(attrs, Cons('>', post))), open);
  }

  /** After an element's name the tag goes on as it does after a value. */
  lemma NameThenTag(s: Str, name: Str, open: List<Str>)
    requires s.Cons? && (s.head == ' ' || s.head == '>')
    ensures Scan(s, StartName(name), open) == Scan(s, AfterValue(false), Cons(name, open))
  {
  }

  lemma PassStartTag(e: Element, inside: Str, open: List<Str>)
    requires GoodElementName(e.name) && GoodDecls(e.decls) && GoodAttrs(e.attrs)
    ensures Scan(PutName(e.name, PutDecls(e.decls, PutAttrs(e.attrs, Cons('>', inside)))), Opening, open) ==
      Scan(inside, Content, Cons(Raw(e.name), open))
  {
    var tag, name := PutDecls(e.decls, PutAttrs(e.attrs, Cons('>', inside))), Raw(e.name);
    PutNameIsRaw(e.name, tag);
    RawIsName(e.name);
    PassStartName(name.tail, Cons(name.head, Nil), tag, open);
    assert Append(Cons(name.head, Nil), name.tail) == Cons(name.head, Append(Nil, name.tail));
    NameThenTag(tag, name, open);
    PassDecls(e.decls, e.attrs, inside, Cons(name, open));
  }

  lemma PassEndTag(q: QName, post: Str, open: List<Str>)
    ensures Scan(PutEnd(q, post), Content, Cons(Raw(q), open)) == Scan(post, Content, open)
  {
    PutNameIsRaw(q, Cons('>', post));
    PassEndName(Raw(q), post, open);
    var s := PutEnd(q, post);
    assert Scan(s, Content, Cons(Raw(q), open)) == Scan(s.tail, Opening, Cons(Raw(q), open));
  }

  lemma {:induction false} PassElement(e: Element, post: Str, open: List<Str>)
    requires Good(e)
    ensures Scan(Print(e, post).tail, Opening, open) == Scan(post, Content, open)
    decreases e, 1
  {
    var inside := PrintNodes(e.children, PutEnd(e.name, post));
    PassStartTag(e, inside, open);
    PassNodes(e.children, PutEnd(e.name, post), Cons(Raw(e.name), open));
    PassEndTag(e.name, post, open);
  }

  lemma {:induction false} PassNodes(ns: Nodes, post: Str, open: List<Str>)
    requires GoodNodes(ns) && open != Nil
    ensures Scan(PrintNodes(ns, post), Content, open) == Scan(post, Content, open)
    decreases ns
  {
    match ns
    case Done =>
    case Text(t, rest) =>
      PassNodes(rest, post, open);
      PassText(t, PrintNodes(rest, post), open);
    case Child(e, rest) =>
      PassNodes(rest, post, open);
      PassElement(e, PrintNodes(rest, post), open);
  }

  /** What is printed for a tree is well nested. */
  lemma PrintedIsWellNested(e: Element)
    requires Good(e)
    ensures WellNested(Print(e, Nil))
  {
    PassElement(e, Nil, Nil);
  }

  /** So is the canonical text of an element: one element, each end tag with its start tag's name,
    * one space before each declaration and attribute, declarations first, double quotes, and the
    * escapes of Canonical XML and no others. */
  lemma CanonTextIsWellNested(e: Element, incl: List<Str>, inherited: Scope)
    requires Good(e) && GoodScope(inherited)
    ensures WellNested(CanonText(e, incl, inherited))
  {
    CanonIsGood(e, inherited, map[], incl);
    PrintedIsWellNested(Canon(e, inherited, map[], incl));
  }
}
