/** The XML tree, its parser, and a literal printer: parsing what was printed gives the tree
  * back, with adjacent text merged. */
module XmlTree {
  import opened Wrappers
  import opened Lists
  import opened XmlText

  datatype QName = QName(prefix: Option<Str>, local: Str)

  datatype Attr = Attr(name: QName, value: Str)

  /** A namespace declaration; no prefix is the default namespace. */
  datatype NsDecl = NsDecl(prefix: Option<Str>, uri: Str)

  datatype Element = Element(name: QName, decls: List<NsDecl>, attrs: List<Attr>, children: Nodes)

  datatype Nodes = Done | Text(text: Str, rest: Nodes) | Child(elem: Element, rest: Nodes)

  // ---------------------------------------------------------------------------------
  // Parser
  // ---------------------------------------------------------------------------------

  datatype Parsed<T> = Parsed(value: T, rest: Str)

  predicate IsSpace(c: char)
  {
    c == ' ' || c == '\t' || c == '\n' || c == '\r' || c == '\U{000C}'
  }

  predicate EndsName(c: char)
  {
    c == ' ' || c == '\t' || c == '\r' || c == '\n' || c == '>' || c == '/' || c == '='
  }

  function SkipSpace(s: Str): (r: Str)
    ensures Length(r) <= Length(s)
  {
    match s
    case Nil => Nil
    case Cons(c, t) => if IsSpace(c) then SkipSpace(t) else s
  }

  function TakeName(s: Str): (r: Cut)
    ensures Length(r.rest) <= Length(s)
  {
    match s
    case Nil => Cut(Nil, Nil)
    case Cons(c, t) =>
      if EndsName(c) then Cut(Nil, s)
      else
        var cut := TakeName(t);
        Cut(Cons(c, cut.taken), cut.rest)
  }

  /** Split a raw name at its first colon. */
  function SplitColon(raw: Str): QName
  {
    var cut := TakeUntil(':', raw);
    if cut.rest == Nil then QName(None, raw) else QName(Some(cut.taken), cut.rest.tail)
  }

  function Xmlns(post: Str): Str
  {
    Put5('x', 'm', 'l', 'n', 's', post)
  }

  /** What follows the name in a start tag. */
  datatype Tag = Tag(decls: List<NsDecl>, attrs: List<Attr>, selfClosed: bool, rest: Str)

  /** File an attribute as a namespace declaration or as an attribute proper. */
  function Attach(q: QName, value: Str, tag: Tag): Tag
  {
    if q.prefix == Some(Xmlns(Nil)) then tag.(decls := Cons(NsDecl(Some(q.local), value), tag.decls))
    else if q == QName(None, Xmlns(Nil)) then tag.(decls := Cons(NsDecl(None, value), tag.decls))
    else tag.(attrs := Cons(Attr(q, value), tag.attrs))
  }

  /** The quoted value at s, decoded, and what follows its closing quote. */
  function ParseValue(s: Str): (r: Option<Cut>)
    ensures r.Some? ==> Length(r.value.rest) < Length(s)
  {
    if s.Cons? && (s.head == '"' || s.head == '\'') then
      var cut := TakeUntil(s.head, s.tail);
      TakeUntilShrinks(s.head, s.tail);
      Some(Cut(Decode(cut.taken), if cut.rest == Nil then Nil else cut.rest.tail))
    else None
  }

  /** One attribute: a name, an equals sign and a quoted value. */
  function ParseAttr(s: Str): (r: Option<Parsed<Attr>>)
    ensures r.Some? ==> Length(r.value.rest) < Length(s)
  {
    var name := TakeName(s);
    var eq := SkipSpace(name.rest);
    if eq == Nil || eq.head != '=' then None
    else
      match ParseValue(SkipSpace(eq.tail))
      case None => None
      case Some(v) => Some(Parsed(Attr(SplitColon(name.taken), v.taken), v.rest))
  }

  function ParseTag(s0: Str): (r: Option<Tag>)
    ensures r.Some? ==> Length(r.value.rest) < Length(s0)
    decreases Length(s0)
  {
    var s := SkipSpace(s0);
    if s == Nil then None
    else if s.head == '/' then
      assert s.tail.Cons? ==> Length(s.tail) == 1 + Length(s.tail.tail);
      if s.tail.Cons? && s.tail.head == '>' then Some(Tag(Nil, Nil, true, s.tail.tail)) else None
    else if s.head == '>' then Some(Tag(Nil, Nil, false, s.tail))
    else
      match ParseAttr(s)
      case None => None
      case Some(a) =>
        match ParseTag(a.rest)
        case None => None
        case Some(tag) => Some(Attach(a.value.name, a.value.value, tag))
  }

  predicate StartsWith(s: Str, needle: Str)
  {
    needle == Nil || (s.Cons? && s.head == needle.head && StartsWith(s.tail, needle.tail))
  }

  function Drop(s: Str, n: nat): (r: Str)
    ensures Length(r) <= Length(s)
    ensures n > 0 && s.Cons? ==> Length(r) < Length(s)
  {
    if n == 0 || s == Nil then s else Drop(s.tail, n - 1)
  }

  /** What comes before the first occurrence of needle, and the rest from there on. */
  function Find(s: Str, needle: Str): (r: Option<Cut>)
    ensures r.Some? ==> Length(r.value.rest) <= Length(s)
  {
    if StartsWith(s, needle) then Some(Cut(Nil, s))
    else if s == Nil then None
    else
      match Find(s.tail, needle)
      case None => None
      case Some(cut) => Some(Cut(Cons(s.head, cut.taken), cut.rest))
  }

  function CommentOpen(): Str { Cons('<', Cons('!', Cons('-', Cons('-', Nil)))) }
  function CommentClose(): Str { Cons('-', Cons('-', Cons('>', Nil))) }
  function CdataOpen(): Str
  {
    Cons('<', Cons('!', Cons('[', Cons('C', Cons('D', Cons('A', Cons('T', Cons('A', Cons('[', Nil)))))))))
  }
  function CdataClose(): Str { Cons(']', Cons(']', Cons('>', Nil))) }
  function PiOpen(): Str { Cons('<', Cons('?', Nil)) }
  function PiClose(): Str { Cons('?', Cons('>', Nil)) }

  function ParseElement(s: Str): (r: Option<Parsed<Element>>)
    ensures r.Some? ==> Length(r.value.rest) < Length(s)
    decreases Length(s), 0
  {
    if s == Nil || s.head != '<' then None
    else
      var name := TakeName(s.tail);
      match ParseTag(name.rest)
      case None => None
      case Some(tag) =>
        var q := SplitColon(name.taken);
        if tag.selfClosed then Some(Parsed(Element(q, tag.decls, tag.attrs, Done), tag.rest))
        else
          match ParseNodes(tag.rest)
          case None => None
          case Some(p) => Some(Parsed(Element(q, tag.decls, tag.attrs, p.value), p.rest))
  }

  /** Children up to and including the end tag, whose name is not compared. */
  function ParseNodes(s: Str): (r: Option<Parsed<Nodes>>)
    ensures r.Some? ==> Length(r.value.rest) < Length(s)
    decreases Length(s), 1
  {
    if s == Nil then None
    else if s.head != '<' then
      var cut := TakeUntil('<', s);
      TextShrinks(s);
      match ParseNodes(cut.rest)
      case None => None
      case Some(p) => Some(Parsed(Text(Decode(cut.taken), p.value), p.rest))
    else if s.tail.Cons? && s.tail.head == '/' then
      var close := SkipSpace(TakeName(s.tail.tail).rest);
      if close.Cons? && close.head == '>' then Some(Parsed(Done, close.tail)) else None
    else if StartsWith(s, CommentOpen()) then
      match Find(s, CommentClose())
      case None => None
      case Some(cut) => FindShrinks(s, CommentClose()); ParseNodes(Drop(cut.rest, 3))
    else if StartsWith(s, CdataOpen()) then
      match Find(Drop(s, 9), CdataClose())
      case None => None
      case Some(cut) =>
        (match ParseNodes(Drop(cut.rest, 3))
         case None => None
         case Some(p) => Some(Parsed(Text(cut.taken, p.value), p.rest)))
    else
      match ParseElement(s)
      case None => None
      case Some(e) =>
        match ParseNodes(e.rest)
        case None => None
        case Some(p) => Some(Parsed(Child(e.value, p.value), p.rest))
  }

  lemma TextShrinks(s: Str)
    requires s.Cons? && s.head != '<'
    ensures Length(TakeUntil('<', s).rest) < Length(s)
  {
    TakeUntilShrinks('<', s.tail);
  }

  lemma {:induction false} FindShrinks(s: Str, needle: Str)
    requires needle.Cons? && Find(s, needle).Some?
    ensures Find(s, needle).value.rest.Cons?
  {
    if StartsWith(s, needle) {
    } else {
      FindShrinks(s.tail, needle);
    }
  }

  /** Skip declarations and comments before the root; refuse a DTD. */
  function SkipProlog(s0: Str): Option<Str>
    decreases Length(s0)
  {
    var s := SkipSpace(s0);
    if StartsWith(s, PiOpen()) then
      match Find(s, PiClose())
      case None => None
      case Some(cut) => FindShrinks(s, PiClose()); SkipProlog(Drop(cut.rest, 2))
    else if StartsWith(s, CommentOpen()) then
      match Find(s, CommentClose())
      case None => None
      case Some(cut) => FindShrinks(s, CommentClose()); SkipProlog(Drop(cut.rest, 3))
    else if s.Cons? && s.head == '<' && s.tail.Cons? && s.tail.head == '!' then None
    else Some(s)
  }

  function Parse(s: Str): Option<Element>
  {
    match SkipProlog(s)
    case None => None
    case Some(t) =>
      match ParseElement(t)
      case None => None
      case Some(p) => Some(p.value)
  }

  // ---------------------------------------------------------------------------------
  // Printer
  // ---------------------------------------------------------------------------------

  function PutName(q: QName, post: Str): Str
  {
    match q.prefix
    case None => Append(q.local, post)
    case Some(p) => Append(p, Cons(':', Append(q.local, post)))
  }

  function PutAttr(q: QName, value: Str, post: Str): Str
  {
    Cons(' ', PutName(q, Cons('=', Cons('"', PutEscaped(value, true, Cons('"', post))))))
  }

  function DeclName(d: NsDecl): QName
  {
    match d.prefix
    case None => QName(None, Xmlns(Nil))
    case Some(p) => QName(Some(Xmlns(Nil)), p)
  }

  function PutDecls(decls: List<NsDecl>, post: Str): Str
  {
    match decls
    case Nil => post
    case Cons(d, t) => PutAttr(DeclName(d), d.uri, PutDecls(t, post))
  }

  function PutAttrs(attrs: List<Attr>, post: Str): Str
  {
    match attrs
    case Nil => post
    case Cons(a, t) => PutAttr(a.name, a.value, PutAttrs(t, post))
  }

  function PutEnd(q: QName, post: Str): Str
  {
    Cons('<', Cons('/', PutName(q, Cons('>', post))))
  }

  function Print(e: Element, post: Str): Str
  {
    var inside := PrintNodes(e.children, PutEnd(e.name, post));
    Cons('<', PutName(e.name, PutDecls(e.decls, PutAttrs(e.attrs, Cons('>', inside)))))
  }

  function PrintNodes(ns: Nodes, post: Str): Str
  {
    match ns
    case Done => post
    case Text(t, rest) => PutEscaped(t, false, PrintNodes(rest, post))
    case Child(e, rest) => Print(e, PrintNodes(rest, post))
  }

  // ---------------------------------------------------------------------------------
  // Trees whose names the parser can read back
  // ---------------------------------------------------------------------------------

  predicate NameChar(c: char)
  {
    !EndsName(c) && !IsSpace(c) && c != ':'
  }

  predicate AllNameChars(s: Str)
  {
    s == Nil || (NameChar(s.head) && AllNameChars(s.tail))
  }

  predicate IsName(s: Str)
  {
    s.Cons? && AllNameChars(s)
  }

  predicate GoodName(q: QName)
  {
    IsName(q.local) && (q.prefix.Some? ==> IsName(q.prefix.value))
  }

  /** An element name that cannot be taken for a comment, CDATA section or declaration. */
  predicate GoodElementName(q: QName)
  {
    GoodName(q) && var first := (if q.prefix.Some? then q.prefix.value else q.local).head; first != '!' && first != '?'
  }

  predicate GoodAttrName(q: QName)
  {
    GoodName(q) && q.prefix != Some(Xmlns(Nil)) && q != QName(None, Xmlns(Nil))
  }

  predicate GoodAttrs(attrs: List<Attr>)
  {
    attrs == Nil || (GoodAttrName(attrs.head.name) && GoodAttrs(attrs.tail))
  }

  predicate GoodDecls(decls: List<NsDecl>)
  {
    decls == Nil || ((decls.head.prefix.Some? ==> IsName(decls.head.prefix.value)) && GoodDecls(decls.tail))
  }

  predicate Good(e: Element)
  {
    GoodElementName(e.name) && GoodDecls(e.decls) && GoodAttrs(e.attrs) && GoodNodes(e.children)
  }

  predicate GoodNodes(ns: Nodes)
  {
    match ns
    case Done => true
    case Text(_, rest) => GoodNodes(rest)
    case Child(e, rest) => Good(e) && GoodNodes(rest)
  }

  // ---------------------------------------------------------------------------------
  // Merged text
  // ---------------------------------------------------------------------------------

  /** Text in front of ns, joined to the text that is already there; empty text is none. */
  function JoinText(t: Str, ns: Nodes): Nodes
  {
    if t == Nil then ns
    else if ns.Text? then Text(Append(t, ns.text), ns.rest)
    else Text(t, ns)
  }

  function Merge(e: Element): Element
  {
    e.(children := MergeNodes(e.children))
  }

  function MergeNodes(ns: Nodes): Nodes
  {
    match ns
    case Done => Done
    case Text(t, rest) => JoinText(t, MergeNodes(rest))
    case Child(e, rest) => Child(Merge(e), MergeNodes(rest))
  }

  /** Merging text does not change what is printed. */
  lemma {:induction false} PrintMerged(e: Element, post: Str)
    ensures Print(Merge(e), post) == Print(e, post)
    decreases e
  {
    PrintMergedNodes(e.children, PutEnd(e.name, post));
  }

  lemma {:induction false} PrintMergedNodes(ns: Nodes, post: Str)
    ensures PrintNodes(MergeNodes(ns), post) == PrintNodes(ns, post)
    decreases ns
  {
    match ns
    case Done =>
    case Text(t, rest) =>
      PrintMergedNodes(rest, post);
      PrintJoined(t, MergeNodes(rest), post);
    case Child(e, rest) =>
      PrintMergedNodes(rest, post);
      PrintMerged(e, PrintNodes(rest, post));
  }

  lemma PrintJoined(t: Str, ns: Nodes, post: Str)
    ensures PrintNodes(JoinText(t, ns), post) == PutEscaped(t, false, PrintNodes(ns, post))
  {
    if ns.Text? { EscapedAppend(t, ns.text, false, PrintNodes(ns.rest, post)); }
  }

  // ---------------------------------------------------------------------------------
  // Parsing undoes printing
  // ---------------------------------------------------------------------------------

  lemma {:induction false} TakeNameOfAppend(s: Str, post: Str)
    requires AllNameChars(s)
    ensures TakeName(Append(s, post)) == Cut(Append(s, TakeName(post).taken), TakeName(post).rest)
  {
    if s == Nil {
    } else {
      TakeNameOfAppend(s.tail, post);
    }
  }

  lemma {:induction false} ColonAfterName(s: Str, post: Str)
    requires AllNameChars(s)
    ensures TakeUntil(':', Append(s, post)) == Cut(Append(s, TakeUntil(':', post).taken), TakeUntil(':', post).rest)
  {
    if s == Nil {
    } else {
      ColonAfterName(s.tail, post);
    }
  }

  /** A printed name is read back, up to the character that ends it. */
  lemma ReadName(q: QName, post: Str)
    requires GoodName(q) && post.Cons? && EndsName(post.head)
    ensures TakeName(PutName(q, post)).rest == post && SplitColon(TakeName(PutName(q, post)).taken) == q
    ensures PutName(q, post).Cons? && NameChar(PutName(q, post).head)
  {
    TakeNameOfAppend(q.local, post);
    AppendNil(q.local);
    match q.prefix
    case None =>
      ColonAfterName(q.local, Nil);
    case Some(p) =>
      TakeNameOfAppend(p, Cons(':', Append(q.local, post)));
      ColonAfterName(p, Cons(':', q.local));
      AppendNil(p);
  }

  lemma ReadValue(value: Str, post: Str)
    ensures ParseValue(Cons('"', PutEscaped(value, true, Cons('"', post)))) == Some(Cut(value, post))
  {
    TakeUntilEscaped('"', value, true, Cons('"', post));
    DecodeEscaped(value, true, Nil);
    AppendNil(value);
  }

  lemma ReadOneAttr(q: QName, value: Str, post: Str)
    requires GoodName(q)
    ensures ParseAttr(PutName(q, Cons('=', Cons('"', PutEscaped(value, true, Cons('"', post)))))) ==
      Some(Parsed(Attr(q, value), post))
  {
    ReadName(q, Cons('=', Cons('"', PutEscaped(value, true, Cons('"', post)))));
    ReadValue(value, post);
  }

  lemma ReadAttr(q: QName, value: Str, post: Str)
    requires GoodName(q)
    ensures ParseTag(PutAttr(q, value, post)) ==
      if ParseTag(post).None? then None else Some(Attach(q, value, ParseTag(post).value))
  {
    var quoted := Cons('"', PutEscaped(value, true, Cons('"', post)));
    ReadName(q, Cons('=', quoted));
    ReadOneAttr(q, value, post);
    assert SkipSpace(PutAttr(q, value, post)) == PutName(q, Cons('=', quoted));
  }

  lemma {:induction false} ReadAttrs(attrs: List<Attr>, post: Str)
    requires GoodAttrs(attrs)
    ensures ParseTag(PutAttrs(attrs, Cons('>', post))) == Some(Tag(Nil, attrs, false, post))
  {
    if attrs == Nil {
    } else {
      ReadAttrs(attrs.tail, post);
      ReadAttr(attrs.head.name, attrs.head.value, PutAttrs(attrs.tail, Cons('>', post)));
    }
  }

  lemma AttachDecl(d: NsDecl, tag: Tag)
    requires GoodDecls(Cons(d, Nil))
    ensures GoodName(DeclName(d)) && Attach(DeclName(d), d.uri, tag) == tag.(decls := Cons(d, tag.decls))
  {
    XmlnsIsName();
  }

  lemma {:induction false} ReadDecls(decls: List<NsDecl>, attrs: List<Attr>, post: Str)
    requires GoodDecls(decls) && GoodAttrs(attrs)
    ensures ParseTag(PutDecls(decls, PutAttrs(attrs, Cons('>', post)))) == Some(Tag(decls, attrs, false, post))
  {
    match decls
    case Nil => ReadAttrs(attrs, post);
    case Cons(d, t) =>
      ReadDecls(t, attrs, post);
      AttachDecl(d, Tag(t, attrs, false, post));
      ReadAttr(DeclName(d), d.uri, PutDecls(t, PutAttrs(attrs, Cons('>', post))));
  }

  lemma XmlnsIsName()
    ensures IsName(Xmlns(Nil))
  {
    assert AllNameChars(Cons('s', Nil));
    assert AllNameChars(Cons('n', Cons('s', Nil)));
    assert AllNameChars(Cons('l', Cons('n', Cons('s', Nil))));
  }

  lemma {:induction false} MergedTextIsNonempty(ns: Nodes)
    ensures MergeNodes(ns).Text? ==> MergeNodes(ns).text != Nil
  {
    if !ns.Text? {
    } else {
      MergedTextIsNonempty(ns.rest);
    }
  }

  lemma {:induction false} ReadElement(e: Element, post: Str)
    requires Good(e)
    ensures ParseElement(Print(e, post)) == Some(Parsed(Merge(e), post))
    decreases e, 1
  {
    var body := PrintNodes(e.children, PutEnd(e.name, post));
    var tag := PutDecls(e.decls, PutAttrs(e.attrs, Cons('>', body)));
    ReadName(e.name, tag);
    ReadDecls(e.decls, e.attrs, body);
    ReadNodes(e.children, e.name, post);
  }

  /** Printed children are read back up to and including the end tag, with text merged. */
  lemma {:induction false} ReadNodes(ns: Nodes, q: QName, post: Str)
    requires GoodNodes(ns) && GoodName(q)
    ensures ParseNodes(PrintNodes(ns, PutEnd(q, post))) == Some(Parsed(MergeNodes(ns), post))
    decreases ns
  {
    match ns
    case Done => ReadName(q, Cons('>', post));
    case Text(t, rest) =>
      ReadNodes(rest, q, post);
      if t != Nil { ReadText(t, rest, q, post); }
    case Child(e, rest) =>
      ReadNodes(rest, q, post);
      ReadElement(e, PrintNodes(rest, PutEnd(q, post)));
      NotMarkup(e, PrintNodes(rest, PutEnd(q, post)));
  }

  lemma ReadText(t: Str, rest: Nodes, q: QName, post: Str)
    requires t != Nil && ParseNodes(PrintNodes(rest, PutEnd(q, post))) == Some(Parsed(MergeNodes(rest), post))
    ensures ParseNodes(PutEscaped(t, false, PrintNodes(rest, PutEnd(q, post)))) ==
      Some(Parsed(JoinText(t, MergeNodes(rest)), post))
  {
    var after := PrintNodes(rest, PutEnd(q, post));
    if after.head == '<' {
      PrintMergedNodes(rest, PutEnd(q, post));
      MergedTextIsNonempty(rest);
      ReadTextBeforeMarkup(t, after, MergeNodes(rest), post);
    } else {
      ReadTextBeforeText(t, after, MergeNodes(rest), post);
    }
  }

  lemma ReadTextBeforeMarkup(t: Str, after: Str, ns: Nodes, post: Str)
    requires t != Nil && ParseNodes(after) == Some(Parsed(ns, post)) && after.head == '<' && !ns.Text?
    ensures ParseNodes(PutEscaped(t, false, after)) == Some(Parsed(JoinText(t, ns), post))
  {
    TakeUntilEscaped('<', t, false, after);
    EscapedNeverStartsWith(t, false, after);
    DecodeEscaped(t, false, Nil);
    AppendNil(t);
  }

  lemma ReadTextBeforeText(t: Str, after: Str, ns: Nodes, post: Str)
    requires t != Nil && ParseNodes(after) == Some(Parsed(ns, post)) && after.head != '<'
    ensures ParseNodes(PutEscaped(t, false, after)) == Some(Parsed(JoinText(t, ns), post))
  {
    TakeUntilEscaped('<', t, false, after);
    EscapedNeverStartsWith(t, false, after);
    DecodeEscaped(t, false, TakeUntil('<', after).taken);
  }

  lemma NotMarkup(e: Element, post: Str)
    requires Good(e)
    ensures var s := Print(e, post); s.tail.Cons? && s.tail.head != '/' && s.tail.head != '!' && s.tail.head != '?'
    ensures !StartsWith(Print(e, post), CommentOpen()) && !StartsWith(Print(e, post), CdataOpen())
    ensures !StartsWith(Print(e, post), PiOpen())
  {
    var body := PrintNodes(e.children, PutEnd(e.name, post));
    var s := Print(e, post);
    assert s.tail.head == (if e.name.prefix.Some? then e.name.prefix.value else e.name.local).head;
    assert !StartsWith(s.tail, CommentOpen().tail) && !StartsWith(s.tail, CdataOpen().tail);
    assert !StartsWith(s.tail, PiOpen().tail);
    ReadName(e.name, PutDecls(e.decls, PutAttrs(e.attrs, Cons('>', body))));
  }

  /** Parsing undoes printing, up to the merging of adjacent text. */
  lemma ParsePrinted(e: Element)
    requires Good(e)
    ensures Parse(Print(e, Nil)) == Some(Merge(e))
  {
    ReadElement(e, Nil);
    NotMarkup(e, Nil);
  }
}
