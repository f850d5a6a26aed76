/** The parser as it runs: a cursor moved through the input by loops, proved equal to the
  * recursive parser of XmlTree. */
module XmlParser {
  import opened Wrappers
  import opened Lists
  import opened XmlText
  import opened XmlTree
  import XmlSpelling

  /** The characters of b between lo and hi, followed by post. */
  function Span(b: string, lo: nat, hi: nat, post: Str): Str
    requires hi <= |b|
  {
    if lo < hi then Span(b, lo, hi - 1, Cons(b[hi - 1], post)) else post
  }

  /** The elements of a vector in front of a list. */
  function Onto<T>(v: seq<T>, post: List<T>): List<T>
  {
    if v == [] then post else Onto(v[..|v| - 1], Cons(v[|v| - 1], post))
  }

  lemma OntoPush<T>(v: seq<T>, x: T, post: List<T>)
    ensures Onto(v + [x], post) == Onto(v, Cons(x, post))
  {
    assert (v + [x])[..|v|] == v;
  }

  datatype Node = TextNode(text: Str) | ElementNode(elem: Element)

  function PutNode(n: Node, post: Nodes): Nodes
  {
    match n
    case TextNode(t) => Text(t, post)
    case ElementNode(e) => Child(e, post)
  }

  function NodesOnto(v: seq<Node>, post: Nodes): Nodes
  {
    if v == [] then post else NodesOnto(v[..|v| - 1], PutNode(v[|v| - 1], post))
  }

  lemma NodesOntoPush(v: seq<Node>, x: Node, post: Nodes)
    ensures NodesOnto(v + [x], post) == NodesOnto(v, PutNode(x, post))
  {
    assert (v + [x])[..|v|] == v;
  }

  /** Replace entities, one character or entity at a time. */
  method DecodeEntities(s: Str) returns (r: Str)
    ensures r == Decode(s)
  {
    var out: string := [];
    var rest := s;
    while rest.Cons?
      invariant Onto(out, Decode(rest)) == Decode(s)
      decreases Length(rest)
    {
      var entity := if rest.head == '&' then EntityAt(rest.tail) else NoEntity;
      if entity.Entity? {
        OntoPush(out, entity.c, Decode(entity.rest));
        out, rest := out + [entity.c], entity.rest;
      } else {
        OntoPush(out, rest.head, Decode(rest.tail));
        out, rest := out + [rest.head], rest.tail;
      }
    }
    r := Onto(out, Nil);
  }

  /** tag with the declarations and attributes read before it. */
  function Prepend(decls: seq<NsDecl>, attrs: seq<Attr>, tag: Option<Tag>): Option<Tag>
  {
    match tag
    case None => None
    case Some(t) => Some(t.(decls := Onto(decls, t.decls), attrs := Onto(attrs, t.attrs)))
  }

  function PrependNodes(children: seq<Node>, parsed: Option<Parsed<Nodes>>): Option<Parsed<Nodes>>
  {
    match parsed
    case None => None
    case Some(p) => Some(Parsed(NodesOnto(children, p.value), p.rest))
  }

  class Parser {
    const b: string
    var i: nat

    constructor (input: string)
      ensures b == input && i == 0
    {
      b, i := input, 0;
    }

    function Rest(): Str
      reads this
    {
      From(b, i)
    }

    method SkipWs()
      modifies this
      ensures i >= old(i) && Rest() == SkipSpace(old(Rest()))
    {
      while i < |b| && IsSpace(b[i])
        invariant i >= old(i) && SkipSpace(Rest()) == SkipSpace(old(Rest()))
        decreases |b| - i
      {
        i := i + 1;
      }
    }

    method ParseName() returns (q: QName)
      modifies this
      ensures i >= old(i)
      ensures Rest() == TakeName(old(Rest())).rest && q == SplitColon(TakeName(old(Rest())).taken)
    {
      var start := i;
      while i < |b| && !EndsName(b[i])
        invariant start <= i && (i > start ==> i <= |b|)
        invariant TakeName(From(b, start)).rest == TakeName(Rest()).rest
        invariant i <= |b| ==> TakeName(From(b, start)).taken == Span(b, start, i, TakeName(Rest()).taken)
        decreases |b| - i
      {
        i := i + 1;
      }
      q := SplitColon(if i <= |b| then Span(b, start, i, Nil) else Nil);
    }

    /** The position of the first needle at or after the cursor. */
    method Position(needle: Str) returns (r: Option<nat>)
      ensures r.None? <==> Find(Rest(), needle).None?
      ensures r.Some? ==> i <= r.value && From(b, r.value) == Find(Rest(), needle).value.rest
      ensures r.Some? && r.value <= |b| ==> Span(b, i, r.value, Nil) == Find(Rest(), needle).value.taken
    {
      var p := i;
      while !StartsWith(From(b, p), needle)
        invariant i <= p && (i < p ==> p <= |b|)
        invariant Find(Rest(), needle).None? <==> Find(From(b, p), needle).None?
        invariant Find(Rest(), needle).Some? ==> Find(Rest(), needle).value.rest == Find(From(b, p), needle).value.rest
        invariant Find(Rest(), needle).Some? && p <= |b| ==>
          Find(Rest(), needle).value.taken == Span(b, i, p, Find(From(b, p), needle).value.taken)
        decreases |b| - p
      {
        if p >= |b| { return None; }
        p := p + 1;
      }
      r := Some(p);
    }

    /** Move past the next needle, which has n characters. */
    method SkipPast(needle: Str, n: nat) returns (ok: bool)
      requires n > 0
      modifies this
      ensures i >= old(i)
      ensures match Find(old(Rest()), needle)
        case None => !ok
        case Some(cut) => ok && i > old(i) && Rest() == Drop(cut.rest, n)
    {
      var end := Position(needle);
      if end.None? { return false; }
      DropFrom(b, end.value, n);
      i := end.value + n;
      ok := true;
    }

    /** The quoted attribute value at the cursor. */
    method QuotedValue() returns (r: Option<Str>)
      modifies this
      ensures i >= old(i)
      ensures match ParseValue(old(Rest()))
        case None => r == None
        case Some(v) => i > old(i) && r == Some(v.taken) && Rest() == v.rest
    {
      if i >= |b| || (b[i] != '"' && b[i] != '\'') { return None; }
      var quote := b[i];
      i := i + 1;
      var start := i;
      while i < |b| && b[i] != quote
        invariant start <= i <= |b|
        invariant TakeUntil(quote, From(b, start)).rest == TakeUntil(quote, Rest()).rest
        invariant TakeUntil(quote, From(b, start)).taken == Span(b, start, i, TakeUntil(quote, Rest()).taken)
        decreases |b| - i
      {
        i := i + 1;
      }
      var value := DecodeEntities(Span(b, start, i, Nil));
      i := i + 1;
      r := Some(value);
    }

    /** The attribute at the cursor; None is a parse error. */
    method ParseAttribute() returns (r: Option<Attr>)
      modifies this
      ensures i >= old(i)
      ensures match ParseAttr(old(Rest()))
        case None => r == None
        case Some(p) => i > old(i) && r == Some(p.value) && Rest() == p.rest
    {
      var q := ParseName();
      SkipWs();
      if i >= |b| || b[i] != '=' { return None; }
      i := i + 1;
      SkipWs();
      var value := QuotedValue();
      r := if value.None? then None else Some(Attr(q, value.value));
    }

    /** What follows the name in a start tag; not ok is a parse error. */
    method ParseAttributes() returns (ok: bool, decls: seq<NsDecl>, attrs: seq<Attr>, selfClosed: bool)
      modifies this
      ensures i >= old(i)
      ensures match ParseTag(old(Rest()))
        case None => !ok
        case Some(t) => ok && i > old(i) && t == Tag(Onto(decls, Nil), Onto(attrs, Nil), selfClosed, Rest())
    {
      decls, attrs, selfClosed := [], [], false;
      ok := false;
      while true
        invariant i >= old(i) && ParseTag(old(Rest())) == Prepend(decls, attrs, ParseTag(Rest()))
        decreases |b| - i
      {
        SkipWs();
        if i >= |b| { return; }
        assert From(b, i) == Cons(b[i], From(b, i + 1));
        if b[i] == '/' {
          i := i + 1;
          if i >= |b| || b[i] != '>' { return; }
          i := i + 1;
          ok, selfClosed := true, true;
          return;
        }
        if b[i] == '>' {
          i := i + 1;
          ok := true;
          return;
        }
        var a := ParseAttribute();
        if a.None? { return; }
        Push(decls, attrs, a.value, ParseTag(Rest()));
        if a.value.name.prefix == Some(Xmlns(Nil)) {
          decls := decls + [NsDecl(Some(a.value.name.local), a.value.value)];
        } else if a.value.name == QName(None, Xmlns(Nil)) {
          decls := decls + [NsDecl(None, a.value.value)];
        } else {
          attrs := attrs + [a.value];
        }
      }
    }

    /** An element at the cursor; None is a parse error. */
    method ParseElementAt() returns (r: Option<Element>)
      modifies this
      ensures i >= old(i)
      ensures match ParseElement(old(Rest()))
        case None => r == None
        case Some(p) => i > old(i) && r == Some(p.value) && Rest() == p.rest
      decreases |b| - i, 0
    {
      if i >= |b| || b[i] != '<' { return None; }
      i := i + 1;
      var q := ParseName();
      var ok, decls, attrs, selfClosed := ParseAttributes();
      if !ok { return None; }
      if selfClosed { return Some(Element(q, Onto(decls, Nil), Onto(attrs, Nil), Done)); }
      var children := ParseChildren();
      if children.None? { return None; }
      r := Some(Element(q, Onto(decls, Nil), Onto(attrs, Nil), NodesOnto(children.value, Done)));
    }

    /** Children up to and including the end tag; None is a parse error. */
    method ParseChildren() returns (r: Option<seq<Node>>)
      modifies this
      ensures i >= old(i)
      ensures match ParseNodes(old(Rest()))
        case None => r == None
        case Some(p) => i > old(i) && r.Some? && NodesOnto(r.value, Done) == p.value && Rest() == p.rest
      decreases |b| - i, 1
    {
      var children: seq<Node> := [];
      while true
        invariant i >= old(i) && ParseNodes(old(Rest())) == PrependNodes(children, ParseNodes(Rest()))
        decreases |b| - i
      {
        if i >= |b| { return None; }
        assert From(b, i) == Cons(b[i], From(b, i + 1));
        if b[i] == '<' && i + 1 < |b| && b[i + 1] == '/' {
          var ok := CloseTag();
          return if ok then Some(children) else None;
        } else if StartsWith(Rest(), CommentOpen()) {
          var ok := SkipPast(CommentClose(), 3);
          if !ok { return None; }
        } else if StartsWith(Rest(), CdataOpen()) {
          var text := CdataSection();
          if text.None? { return None; }
          PushNode(children, TextNode(text.value), ParseNodes(Rest()));
          children := children + [TextNode(text.value)];
        } else if b[i] == '<' {
          var e := ParseElementAt();
          if e.None? { return None; }
          PushNode(children, ElementNode(e.value), ParseNodes(Rest()));
          children := children + [ElementNode(e.value)];
        } else {
          var text := CharacterData();
          PushNode(children, TextNode(text), ParseNodes(Rest()));
          children := children + [TextNode(text)];
        }
      }
    }

    /** The rest of an end tag, whose name is not compared with the start tag's. */
    method CloseTag() returns (ok: bool)
      requires i + 1 < |b| && b[i] == '<' && b[i + 1] == '/'
      modifies this
      ensures i > old(i)
      ensures match ParseNodes(old(Rest()))
        case None => !ok
        case Some(p) => ok && p == Parsed(Done, Rest())
    {
      assert From(b, i).tail == From(b, i + 1) && From(b, i + 1).tail == From(b, i + 2);
      i := i + 2;
      var name := ParseName();
      SkipWs();
      ok := i < |b| && b[i] == '>';
      if ok { i := i + 1; }
    }

    method CdataSection() returns (r: Option<Str>)
      requires StartsWith(Rest(), CdataOpen())
      modifies this
      ensures i > old(i)
      ensures match Find(Drop(old(Rest()), 9), CdataClose())
        case None => r == None
        case Some(cut) => r == Some(cut.taken) && Rest() == Drop(cut.rest, 3)
    {
      DropFrom(b, i, 9);
      i := i + 9;
      var end := Position(CdataClose());
      if end.None? { return None; }
      FindShrinks(Rest(), CdataClose());
      r := Some(Span(b, i, end.value, Nil));
      DropFrom(b, end.value, 3);
      i := end.value + 3;
    }

    method CharacterData() returns (r: Str)
      requires i < |b| && b[i] != '<'
      modifies this
      ensures i > old(i)
      ensures r == Decode(TakeUntil('<', old(Rest())).taken) && Rest() == TakeUntil('<', old(Rest())).rest
    {
      var start := i;
      while i < |b| && b[i] != '<'
        invariant start <= i <= |b|
        invariant TakeUntil('<', From(b, start)).rest == TakeUntil('<', Rest()).rest
        invariant TakeUntil('<', From(b, start)).taken == Span(b, start, i, TakeUntil('<', Rest()).taken)
        decreases |b| - i
      {
        i := i + 1;
      }
      r := DecodeEntities(Span(b, start, i, Nil));
    }

    method SkipPrologAt() returns (ok: bool)
      modifies this
      ensures match SkipProlog(old(Rest()))
        case None => !ok
        case Some(s) => ok && Rest() == s
    {
      while true
        invariant SkipProlog(old(Rest())) == SkipProlog(Rest())
        decreases |b| - i
      {
        SkipWs();
        assert i < |b| ==> From(b, i).tail == From(b, i + 1);
        assert i + 1 < |b| ==> From(b, i + 1).head == b[i + 1];
        if StartsWith(Rest(), PiOpen()) {
          var found := SkipPast(PiClose(), 2);
          if !found { return false; }
        } else if StartsWith(Rest(), CommentOpen()) {
          var found := SkipPast(CommentClose(), 3);
          if !found { return false; }
        } else if i + 1 < |b| && b[i] == '<' && b[i + 1] == '!' {
          return false;
        } else {
          return true;
        }
      }
    }
  }

  /** Parse a document into its root element: whatever element the input is a way to write. */
  method ParseDocument(input: string) returns (r: Option<Element>)
    ensures r == Parse(From(input, 0))
    ensures forall e :: XmlSpelling.Spells(From(input, 0), e) ==> r.Some? && Merge(r.value) == Merge(e)
  {
    forall e | XmlSpelling.Spells(From(input, 0), e)
      ensures Parse(From(input, 0)).Some? && Merge(Parse(From(input, 0)).value) == Merge(e)
    {
      XmlSpelling.SpellingIsRead(From(input, 0), e);
    }
    var p := new Parser(input);
    var ok := p.SkipPrologAt();
    if !ok { return None; }
    r := p.ParseElementAt();
  }

  lemma {:induction false} DropFrom(b: string, i: nat, n: nat)
    ensures Drop(From(b, i), n) == From(b, i + n)
    decreases n
  {
    if n == 0 {
    } else {
      DropFrom(b, i + 1, n - 1);
    }
  }

  lemma PushNode(children: seq<Node>, n: Node, after: Option<Parsed<Nodes>>)
    ensures PrependNodes(children + [n], after) ==
      PrependNodes(
        children, if after.None? then None else Some(Parsed(PutNode(n, after.value.value), after.value.rest)))
  {
    if after.Some? { NodesOntoPush(children, n, after.value.value); }
  }

  lemma Push(decls: seq<NsDecl>, attrs: seq<Attr>, a: Attr, tag: Option<Tag>)
    ensures var attached := if tag.None? then None else Some(Attach(a.name, a.value, tag.value));
      Prepend(decls, attrs, attached) ==
      if a.name.prefix == Some(Xmlns(Nil)) then Prepend(decls + [NsDecl(Some(a.name.local), a.value)], attrs, tag)
      else if a.name == QName(None, Xmlns(Nil)) then Prepend(decls + [NsDecl(None, a.value)], attrs, tag)
      else Prepend(decls, attrs + [a], tag)
  {
    if tag.Some? {
      OntoPush(decls, NsDecl(Some(a.name.local), a.value), tag.value.decls);
      OntoPush(decls, NsDecl(None, a.value), tag.value.decls);
      OntoPush(attrs, a, tag.value.attrs);
    }
  }
}
