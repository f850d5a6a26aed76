/** The ways to write an element down, and what each means. A written document is described by
  * its own types, with a writer and a meaning; the parser is proved to read every one of them. */
module XmlSpelling {
  import opened Wrappers
  import opened Lists
  import opened XmlText
  import opened XmlTree

  // ---------------------------------------------------------------------------------
  // Characters
  // ---------------------------------------------------------------------------------

  /** A digit; upper says how a letter is written. */
  datatype Digit = Digit(value: nat, upper: bool)

  /** Digits, the most significant first; there is at least one. */
  datatype Numeral = One(last: Digit) | More(front: Numeral, last: Digit)

  datatype Named = Lt | Gt | Amp | Quot | Apos

  /** One character: as it is, by one of the five names, or by its number. */
  datatype Piece =
    | Plain(c: char)
    | ByName(name: Named)
    | ByHex(digits: Numeral, upperX: bool)
    | ByDecimal(digits: Numeral)

  predicate DigitsBelow(n: Numeral, radix: nat)
  {
    n.last.value < radix && (n.More? ==> DigitsBelow(n.front, radix))
  }

  function NumeralValue(n: Numeral, radix: nat): nat
  {
    match n
    case One(d) => d.value
    case More(front, d) => radix * NumeralValue(front, radix) + d.value
  }

  function DigitChar(d: Digit): char
    requires d.value < 16
  {
    if d.upper then "0123456789ABCDEF"[d.value] else "0123456789abcdef"[d.value]
  }

  function PutNumeral(n: Numeral, radix: nat, post: Str): Str
    requires radix <= 16 && DigitsBelow(n, radix)
  {
    match n
    case One(d) => Cons(DigitChar(d), post)
    case More(front, d) => PutNumeral(front, radix, Cons(DigitChar(d), post))
  }

  predicate IsScalar(n: nat)
  {
    n <= 0xD7FF || 0xE000 <= n <= 0x10_FFFF
  }

  predicate GoodNumeral(n: Numeral, radix: nat)
  {
    DigitsBelow(n, radix) && IsScalar(NumeralValue(n, radix))
  }

  /** A character written as it is must be neither an ampersand nor what ends the text it is in. */
  predicate GoodPiece(p: Piece, stop: char)
  {
    match p
    case Plain(c) => c != '&' && c != stop
    case ByName(_) => true
    case ByHex(n, _) => GoodNumeral(n, 16)
    case ByDecimal(n) => GoodNumeral(n, 10)
  }

  function PieceChar(p: Piece, stop: char): char
    requires GoodPiece(p, stop)
  {
    match p
    case Plain(c) => c
    case ByName(Lt) => '<'
    case ByName(Gt) => '>'
    case ByName(Amp) => '&'
    case ByName(Quot) => '"'
    case ByName(Apos) => '\''
    case ByHex(n, _) => NumeralValue(n, 16) as char
    case ByDecimal(n) => NumeralValue(n, 10) as char
  }

  function PutNamed(n: Named, post: Str): Str
  {
    match n
    case Lt => Cons('l', Cons('t', post))
    case Gt => Cons('g', Cons('t', post))
    case Amp => Cons('a', Cons('m', Cons('p', post)))
    case Quot => Cons('q', Cons('u', Cons('o', Cons('t', post))))
    case Apos => Cons('a', Cons('p', Cons('o', Cons('s', post))))
  }

  function PutPiece(p: Piece, stop: char, post: Str): Str
    requires GoodPiece(p, stop)
  {
    match p
    case Plain(c) => Cons(c, post)
    case ByName(n) => Cons('&', PutNamed(n, Cons(';', post)))
    case ByHex(n, upper) => Cons('&', Cons('#', Cons(if upper then 'X' else 'x', PutNumeral(n, 16, Cons(';', post)))))
    case ByDecimal(n) => Cons('&', Cons('#', PutNumeral(n, 10, Cons(';', post))))
  }

  lemma DigitIsRead(d: Digit, radix: nat)
    requires d.value < radix && (radix == 10 || radix == 16)
    ensures DigitValue(DigitChar(d), radix) == Some(d.value)
  {
    assert d.value < 10 ==> "0123456789ABCDEF"[d.value] == "0123456789"[d.value] == "0123456789abcdef"[d.value];
  }

  lemma NextDigit(d: Digit, radix: nat, acc: nat, post: Str)
    requires d.value < radix && (radix == 10 || radix == 16) && acc < 0x1_0000_0000
    ensures Digits(Cons(DigitChar(d), post), radix, acc) == Digits(post, radix, radix * acc + d.value)
  {
    DigitIsRead(d, radix);
  }

  lemma FrontIsSmaller(n: Numeral, radix: nat)
    requires n.More? && (radix == 10 || radix == 16)
    ensures NumeralValue(n.front, radix) <= NumeralValue(n, radix)
  {
  }

  predicate ReadsAs(s: Str, radix: nat, post: Str, value: nat)
  {
    Digits(s, radix, 0) == Digits(post, radix, value)
  }

  lemma NextDigitReadsAs(s: Str, d: Digit, radix: nat, acc: nat, post: Str)
    requires d.value < radix && (radix == 10 || radix == 16) && acc < 0x1_0000_0000
    requires ReadsAs(s, radix, Cons(DigitChar(d), post), acc)
    ensures ReadsAs(s, radix, post, radix * acc + d.value)
  {
    NextDigit(d, radix, acc, post);
  }

  /** The digits read so far are the value of the numeral. */
  lemma {:induction false} NumeralIsRead(n: Numeral, radix: nat, post: Str)
    requires (radix == 10 || radix == 16) && DigitsBelow(n, radix) && NumeralValue(n, radix) < 0x1_0000_0000
    ensures ReadsAs(PutNumeral(n, radix, post), radix, post, NumeralValue(n, radix))
  {
    match n
    case One(d) => NextDigitReadsAs(Cons(DigitChar(d), post), d, radix, 0, post);
    case More(front, d) =>
      FrontIsSmaller(n, radix);
      NumeralIsRead(front, radix, Cons(DigitChar(d), post));
      NextDigitReadsAs(PutNumeral(n, radix, post), d, radix, NumeralValue(front, radix), post);
  }

  lemma {:induction false} NumeralHas(n: Numeral, radix: nat, stop: char, post: Str)
    requires radix <= 16 && DigitsBelow(n, radix)
    requires stop == ';' || stop == '<' || stop == '"' || stop == '\''
    ensures var cut := TakeUntil(stop, post);
      TakeUntil(stop, PutNumeral(n, radix, post)) == Cut(PutNumeral(n, radix, cut.taken), cut.rest)
    ensures var s := PutNumeral(n, radix, post); s.Cons? && s.head != '+' && s.head != 'x' && s.head != 'X'
  {
    match n
    case One(_) =>
    case More(front, d) => NumeralHas(front, radix, stop, Cons(DigitChar(d), post));
  }

  lemma NumeralIsNumber(n: Numeral, radix: nat)
    requires (radix == 10 || radix == 16) && GoodNumeral(n, radix)
    ensures ScalarValue(Number(PutNumeral(n, radix, Nil), radix)) == Some(NumeralValue(n, radix) as char)
  {
    NumeralIsRead(n, radix, Nil);
    NumeralHas(n, radix, ';', Nil);
  }

  lemma NamedIsEntity(n: Named, post: Str)
    ensures TakeUntil(';', PutNamed(n, Cons(';', post))) == Cut(PutNamed(n, Nil), Cons(';', post))
    ensures EntityChar(PutNamed(n, Nil)) == Some(PieceChar(ByName(n), '<'))
  {
    match n
    case Lt => EntityOf2('l', 't', post);
    case Gt => EntityOf2('g', 't', post);
    case Amp => EntityOf3('a', 'm', 'p', post);
    case Quot => EntityOf4('q', 'u', 'o', 't', post);
    case Apos => EntityOf4('a', 'p', 'o', 's', post);
  }

  lemma HexIsEntity(n: Numeral, x: char, post: Str)
    requires GoodNumeral(n, 16) && (x == 'x' || x == 'X')
    ensures EntityAt(Cons('#', Cons(x, PutNumeral(n, 16, Cons(';', post))))) ==
      Entity(NumeralValue(n, 16) as char, post)
  {
    NumeralHas(n, 16, ';', Cons(';', post));
    NumeralIsNumber(n, 16);
    var digits := PutNumeral(n, 16, Cons(';', post));
    assert TakeUntil(';', Cons(x, digits)) == Cut(Cons(x, PutNumeral(n, 16, Nil)), Cons(';', post));
  }

  lemma DecimalIsEntity(n: Numeral, post: Str)
    requires GoodNumeral(n, 10)
    ensures EntityAt(Cons('#', PutNumeral(n, 10, Cons(';', post)))) == Entity(NumeralValue(n, 10) as char, post)
  {
    NumeralHas(n, 10, ';', Cons(';', post));
    NumeralHas(n, 10, ';', Nil);
    NumeralIsNumber(n, 10);
  }

  /** A written character is decoded to what it stands for. */
  lemma PieceIsDecoded(p: Piece, stop: char, post: Str)
    requires GoodPiece(p, stop)
    ensures Decode(PutPiece(p, stop, post)) == Cons(PieceChar(p, stop), Decode(post))
  {
    match p
    case Plain(_) =>
    case ByName(n) => NamedIsEntity(n, post);
    case ByHex(n, upper) => HexIsEntity(n, if upper then 'X' else 'x', post);
    case ByDecimal(n) => DecimalIsEntity(n, post);
  }

  lemma NamedHas(n: Named, stop: char, post: Str)
    requires stop == '<' || stop == '"' || stop == '\''
    ensures var cut := TakeUntil(stop, post);
      TakeUntil(stop, PutNamed(n, Cons(';', post))) == Cut(PutNamed(n, Cons(';', cut.taken)), cut.rest)
  {
    Skips4(stop, 'a', 'm', 'p', ';', post);
    Skips4(stop, 'u', 'o', 't', ';', post);
    Skips4(stop, 'p', 'o', 's', ';', post);
    Skips4(stop, '&', 'l', 't', ';', post);
    Skips4(stop, '&', 'g', 't', ';', post);
  }

  /** A written character does not hold what ends the text it is in. */
  lemma PieceHas(p: Piece, stop: char, post: Str)
    requires GoodPiece(p, stop) && (stop == '<' || stop == '"' || stop == '\'')
    ensures var cut := TakeUntil(stop, post);
      TakeUntil(stop, PutPiece(p, stop, post)) == Cut(PutPiece(p, stop, cut.taken), cut.rest)
    ensures PutPiece(p, stop, post).Cons? && PutPiece(p, stop, post).head != stop
  {
    var semi, cut := Cons(';', post), TakeUntil(stop, post);
    assert TakeUntil(stop, semi) == Cut(Cons(';', cut.taken), cut.rest);
    match p
    case Plain(_) =>
    case ByName(n) => NamedHas(n, stop, post);
    case ByHex(n, upper) =>
      NumeralHas(n, 16, stop, semi);
      var x := if upper then 'X' else 'x';
      assert TakeUntil(stop, Cons(x, PutNumeral(n, 16, semi))) ==
        Cut(Cons(x, PutNumeral(n, 16, Cons(';', cut.taken))), cut.rest);
    case ByDecimal(n) => NumeralHas(n, 10, stop, semi);
  }

  /** Without a semicolon there is no entity, and the text stands for itself. */
  lemma {:induction false} NoSemicolonIsPlain(s: Str)
    requires TakeUntil(';', s).rest == Nil
    ensures Decode(s) == s
  {
    if s == Nil {
    } else {
      NoSemicolonIsPlain(s.tail);
    }
  }

  predicate GoodPieces(ps: List<Piece>, stop: char)
  {
    ps == Nil || (GoodPiece(ps.head, stop) && GoodPieces(ps.tail, stop))
  }

  function PutPieces(ps: List<Piece>, stop: char, post: Str): Str
    requires GoodPieces(ps, stop)
  {
    match ps
    case Nil => post
    case Cons(p, t) => PutPiece(p, stop, PutPieces(t, stop, post))
  }

  function PiecesText(ps: List<Piece>, stop: char): Str
    requires GoodPieces(ps, stop)
  {
    match ps
    case Nil => Nil
    case Cons(p, t) => Cons(PieceChar(p, stop), PiecesText(t, stop))
  }

  lemma {:induction false} PiecesAreRead(ps: List<Piece>, stop: char, post: Str)
    requires GoodPieces(ps, stop) && (stop == '<' || stop == '"' || stop == '\'')
    ensures TakeUntil(stop, PutPieces(ps, stop, Cons(stop, post))) == Cut(PutPieces(ps, stop, Nil), Cons(stop, post))
    ensures Decode(PutPieces(ps, stop, Nil)) == PiecesText(ps, stop)
  {
    match ps
    case Nil =>
    case Cons(p, t) =>
      PiecesAreRead(t, stop, post);
      PieceHas(p, stop, PutPieces(t, stop, Cons(stop, post)));
      PieceIsDecoded(p, stop, PutPieces(t, stop, Nil));
  }

  // ---------------------------------------------------------------------------------
  // Tags
  // ---------------------------------------------------------------------------------

  /** The white space of XML. */
  predicate AllWhite(s: Str)
  {
    s == Nil || ((s.head == ' ' || s.head == '\t' || s.head == '\r' || s.head == '\n') && AllWhite(s.tail))
  }

  /** White space before a name, before its equals sign and after it, and the quote. */
  datatype Layout = Layout(lead: Str, beforeEq: Str, afterEq: Str, quote: char)

  datatype Item =
    | DeclItem(prefix: Option<Str>, uri: List<Piece>, layout: Layout)
    | AttrItem(name: QName, value: List<Piece>, layout: Layout)

  predicate GoodLayout(l: Layout)
  {
    l.lead != Nil && AllWhite(l.lead) && AllWhite(l.beforeEq) && AllWhite(l.afterEq) &&
    (l.quote == '"' || l.quote == '\'')
  }

  predicate GoodItem(i: Item)
  {
    GoodLayout(i.layout) &&
    match i
    case DeclItem(prefix, uri, l) => (prefix.Some? ==> IsName(prefix.value)) && GoodPieces(uri, l.quote)
    case AttrItem(name, value, l) => GoodAttrName(name) && GoodPieces(value, l.quote)
  }

  predicate GoodItems(items: List<Item>)
  {
    items == Nil || (GoodItem(items.head) && GoodItems(items.tail))
  }

  function PutValue(name: QName, value: List<Piece>, l: Layout, post: Str): Str
    requires GoodPieces(value, l.quote)
  {
    var quoted := Cons(l.quote, PutPieces(value, l.quote, Cons(l.quote, post)));
    Append(l.lead, PutName(name, Append(l.beforeEq, Cons('=', Append(l.afterEq, quoted)))))
  }

  function XmlnsName(prefix: Option<Str>): QName
  {
    match prefix
    case None => QName(None, Xmlns(Nil))
    case Some(p) => QName(Some(Xmlns(Nil)), p)
  }

  function PutItem(i: Item, post: Str): Str
    requires GoodItem(i)
  {
    match i
    case DeclItem(prefix, uri, l) => PutValue(XmlnsName(prefix), uri, l, post)
    case AttrItem(name, value, l) => PutValue(name, value, l, post)
  }

  function PutItems(items: List<Item>, post: Str): Str
    requires GoodItems(items)
  {
    match items
    case Nil => post
    case Cons(i, t) => PutItem(i, PutItems(t, post))
  }

  function ItemDecls(items: List<Item>): List<NsDecl>
    requires GoodItems(items)
  {
    match items
    case Nil => Nil
    case Cons(DeclItem(prefix, uri, l), t) => Cons(NsDecl(prefix, PiecesText(uri, l.quote)), ItemDecls(t))
    case Cons(AttrItem(_, _, _), t) => ItemDecls(t)
  }

  function ItemAttrs(items: List<Item>): List<Attr>
    requires GoodItems(items)
  {
    match items
    case Nil => Nil
    case Cons(AttrItem(name, value, l), t) => Cons(Attr(name, PiecesText(value, l.quote)), ItemAttrs(t))
    case Cons(DeclItem(_, _, _), t) => ItemAttrs(t)
  }

  lemma {:induction false} WhiteIsSkipped(white: Str, post: Str)
    requires AllWhite(white) && (post == Nil || !IsSpace(post.head))
    ensures SkipSpace(Append(white, post)) == post
    ensures white.Cons? ==> EndsName(white.head)
  {
    if white == Nil {
    } else {
      WhiteIsSkipped(white.tail, post);
    }
  }

  lemma ValueIsRead(value: List<Piece>, quote: char, post: Str)
    requires GoodPieces(value, quote) && (quote == '"' || quote == '\'')
    ensures ParseValue(Cons(quote, PutPieces(value, quote, Cons(quote, post)))) ==
      Some(Cut(PiecesText(value, quote), post))
  {
    PiecesAreRead(value, quote, post);
  }

  lemma AttrIsRead(name: QName, value: List<Piece>, l: Layout, post: Str)
    requires GoodName(name) && GoodLayout(l) && GoodPieces(value, l.quote)
    ensures ParseTag(PutValue(name, value, l, post)) ==
      if ParseTag(post).None? then None else Some(Attach(name, PiecesText(value, l.quote), ParseTag(post).value))
  {
    var quoted := Cons(l.quote, PutPieces(value, l.quote, Cons(l.quote, post)));
    var eq := Cons('=', Append(l.afterEq, quoted));
    var s := PutName(name, Append(l.beforeEq, eq));
    WhiteIsSkipped(l.beforeEq, eq);
    WhiteIsSkipped(l.afterEq, quoted);
    ReadName(name, Append(l.beforeEq, eq));
    ValueIsRead(value, l.quote, post);
    assert ParseAttr(s) == Some(Parsed(Attr(name, PiecesText(value, l.quote)), post));
    WhiteIsSkipped(l.lead, s);
  }

  function PutClose(selfClosed: bool, post: Str): Str
  {
    if selfClosed then Cons('/', Cons('>', post)) else Cons('>', post)
  }

  function AddDecl(d: NsDecl, tag: Tag): Tag
  {
    tag.(decls := Cons(d, tag.decls))
  }

  function AddAttr(a: Attr, tag: Tag): Tag
  {
    tag.(attrs := Cons(a, tag.attrs))
  }

  lemma DeclItemIsRead(prefix: Option<Str>, uri: List<Piece>, l: Layout, tag: Tag, post: Str)
    requires GoodItem(DeclItem(prefix, uri, l)) && ParseTag(post) == Some(tag)
    ensures ParseTag(PutItem(DeclItem(prefix, uri, l), post)) ==
      Some(AddDecl(NsDecl(prefix, PiecesText(uri, l.quote)), tag))
  {
    XmlnsIsName();
    AttrIsRead(XmlnsName(prefix), uri, l, post);
  }

  lemma AttrItemIsRead(name: QName, value: List<Piece>, l: Layout, tag: Tag, post: Str)
    requires GoodItem(AttrItem(name, value, l)) && ParseTag(post) == Some(tag)
    ensures ParseTag(PutItem(AttrItem(name, value, l), post)) ==
      Some(AddAttr(Attr(name, PiecesText(value, l.quote)), tag))
  {
    AttrIsRead(name, value, l, post);
  }

  /** The declarations and the attributes of a tag are read, each kind in its order. */
  lemma {:induction false} ItemsAreRead(items: List<Item>, end: Str, selfClosed: bool, post: Str)
    requires GoodItems(items) && ParseTag(end) == Some(Tag(Nil, Nil, selfClosed, post))
    ensures ParseTag(PutItems(items, end)) == Some(Tag(ItemDecls(items), ItemAttrs(items), selfClosed, post))
  {
    match items
    case Nil =>
    case Cons(i, t) =>
      ItemsAreRead(t, end, selfClosed, post);
      var tag := Tag(ItemDecls(t), ItemAttrs(t), selfClosed, post);
      if i.DeclItem? {
        DeclItemIsRead(i.prefix, i.uri, i.layout, tag, PutItems(t, end));
      } else {
        AttrItemIsRead(i.name, i.value, i.layout, tag, PutItems(t, end));
      }
  }

  lemma CloseIsRead(trail: Str, selfClosed: bool, post: Str)
    requires AllWhite(trail)
    ensures ParseTag(Append(trail, PutClose(selfClosed, post))) == Some(Tag(Nil, Nil, selfClosed, post))
  {
    WhiteIsSkipped(trail, PutClose(selfClosed, post));
  }

  /** A tag goes on with a character that ends the element's name. */
  lemma TagEndsName(items: List<Item>, trail: Str, selfClosed: bool, post: Str)
    requires GoodItems(items) && AllWhite(trail)
    ensures var s := PutItems(items, Append(trail, PutClose(selfClosed, post))); s.Cons? && EndsName(s.head)
  {
  }

  // ---------------------------------------------------------------------------------
  // Comments, CDATA sections and processing instructions
  // ---------------------------------------------------------------------------------

  /** What XML allows in a comment: no two dashes in a row, and no dash at the end. */
  predicate LegalComment(body: Str)
  {
    body == Nil || ((body.head == '-' ==> body.tail.Cons? && body.tail.head != '-') && LegalComment(body.tail))
  }

  /** The comment's opening and the start of its body already read as an end of comment. */
  predicate ClosesEarly(body: Str)
  {
    body.Cons? && (body.head == '>' || (body.head == '-' && body.tail.Cons? && body.tail.head == '>'))
  }

  /** The text does not hold the needle. */
  predicate Lacks(text: Str, needle: Str)
  {
    !StartsWith(text, needle) && (text == Nil || Lacks(text.tail, needle))
  }

  function PutComment(body: Str, post: Str): Str
  {
    Cons('<', Cons('!', Cons('-', Cons('-', Append(body, Cons('-', Cons('-', Cons('>', post))))))))
  }

  function PutCdata(text: Str, post: Str): Str
  {
    Append(CdataOpen(), Append(text, Cons(']', Cons(']', Cons('>', post)))))
  }

  function PutPi(body: Str, post: Str): Str
  {
    Cons('<', Cons('?', Append(body, Cons('?', Cons('>', post)))))
  }

  /** Where reading goes on after the comment that s starts with. */
  function AfterComment(s: Str): Option<Str>
  {
    match Find(s, CommentClose())
    case None => None
    case Some(cut) => Some(Drop(cut.rest, 3))
  }

  lemma AtDashes(s: Str)
    ensures StartsWith(s, CommentClose()) <==>
      s.Cons? && s.head == '-' && s.tail.Cons? && s.tail.head == '-' && s.tail.tail.Cons? && s.tail.tail.head == '>'
  {
    if s.Cons? && s.tail.Cons? {
      assert StartsWith(s.tail.tail, Cons('>', Nil)) <==> s.tail.tail.Cons? && s.tail.tail.head == '>';
      assert StartsWith(s.tail, Cons('-', Cons('>', Nil))) <==>
        s.tail.head == '-' && StartsWith(s.tail.tail, Cons('>', Nil));
    }
  }

  lemma {:induction false} BodyHasNoClose(body: Str, post: Str)
    requires LegalComment(body)
    ensures var close := Cons('-', Cons('-', Cons('>', post)));
      Find(Append(body, close), CommentClose()) == Some(Cut(body, close))
  {
    AtDashes(Append(body, Cons('-', Cons('-', Cons('>', post)))));
    if body == Nil {
    } else {
      BodyHasNoClose(body.tail, post);
    }
  }

  lemma DropsThree(a: char, b: char, c: char, post: Str)
    ensures Drop(Cons(a, Cons(b, Cons(c, post))), 3) == post
  {
    assert Drop(Cons(b, Cons(c, post)), 2) == Drop(Cons(c, post), 1) == Drop(post, 0);
  }

  lemma {:induction false} LengthOfAppend(a: Str, b: Str)
    ensures Length(Append(a, b)) == Length(a) + Length(b)
  {
    if a == Nil {
    } else {
      LengthOfAppend(a.tail, b);
    }
  }

  lemma CommentFound(body: Str, post: Str)
    requires LegalComment(body)
    ensures var close := Cons('-', Cons('-', Cons('>', post)));
      var two := Cons('-', Cons('-', Append(body, close)));
      Find(two, CommentClose()) ==
      if body.Cons? && body.head == '>' then Some(Cut(Nil, two))
      else if ClosesEarly(body) then Some(Cut(Cons('-', Nil), two.tail))
      else Some(Cut(Cons('-', Cons('-', body)), close))
  {
    var close := Cons('-', Cons('-', Cons('>', post)));
    var two := Cons('-', Cons('-', Append(body, close)));
    AtDashes(two);
    AtDashes(two.tail);
    BodyHasNoClose(body, post);
  }

  lemma CommentFoundFromOpen(s: Str)
    ensures Find(Cons('<', Cons('!', s)), CommentClose()) ==
      match Find(s, CommentClose()) {
        case None => None
        case Some(cut) => Some(Cut(Cons('<', Cons('!', cut.taken)), cut.rest))
      }
  {
    assert !StartsWith(Cons('!', s), CommentClose());
  }

  /** A legal comment is skipped whole if and only if it starts neither with '>' nor with "->". */
  lemma CommentSkippedExactly(body: Str, post: Str)
    requires LegalComment(body)
    ensures AfterComment(PutComment(body, post)) == Some(post) <==> !ClosesEarly(body)
  {
    var close := Cons('-', Cons('-', Cons('>', post)));
    var inside := Append(body, close);
    CommentFound(body, post);
    CommentFoundFromOpen(Cons('-', Cons('-', inside)));
    DropsThree('-', '-', '>', post);
    LengthOfAppend(body, close);
    if body.Cons? && body.head == '>' {
      DropsThree('-', '-', '>', inside.tail);
    } else if ClosesEarly(body) {
      DropsThree('-', '-', '>', inside.tail.tail);
    }
  }

  lemma AtCdataEnd(s: Str)
    ensures StartsWith(s, CdataClose()) <==>
      s.Cons? && s.head == ']' && s.tail.Cons? && s.tail.head == ']' && s.tail.tail.Cons? && s.tail.tail.head == '>'
  {
    if s.Cons? && s.tail.Cons? {
      assert StartsWith(s.tail.tail, Cons('>', Nil)) <==> s.tail.tail.Cons? && s.tail.tail.head == '>';
      assert StartsWith(s.tail, Cons(']', Cons('>', Nil))) <==>
        s.tail.head == ']' && StartsWith(s.tail.tail, Cons('>', Nil));
    }
  }

  lemma {:induction false} CdataFound(text: Str, post: Str)
    requires Lacks(text, CdataClose())
    ensures var close := Cons(']', Cons(']', Cons('>', post)));
      Find(Append(text, close), CdataClose()) == Some(Cut(text, close))
  {
    var close := Cons(']', Cons(']', Cons('>', post)));
    AtCdataEnd(text);
    AtCdataEnd(Append(text, close));
    if text == Nil {
    } else {
      CdataFound(text.tail, post);
    }
  }

  lemma {:induction false} DropsAll(a: Str, post: Str)
    ensures Drop(Append(a, post), Length(a)) == post
  {
    if a == Nil {
    } else {
      DropsAll(a.tail, post);
    }
  }

  lemma {:induction false} StartsWithIt(a: Str, post: Str)
    ensures StartsWith(Append(a, post), a)
  {
    if a == Nil {
    } else {
      StartsWithIt(a.tail, post);
    }
  }

  lemma CdataOpenIsNine()
    ensures Length(CdataOpen()) == 9
  {
    var three := Cons('T', Cons('A', Cons('[', Nil)));
    assert Length(three) == 3;
    var six := Cons('C', Cons('D', Cons('A', three)));
    assert Length(six) == 6;
  }

  lemma AtPiEnd(s: Str)
    ensures StartsWith(s, PiClose()) <==> s.Cons? && s.head == '?' && s.tail.Cons? && s.tail.head == '>'
  {
    if s.Cons? { assert StartsWith(s.tail, Cons('>', Nil)) <==> s.tail.Cons? && s.tail.head == '>'; }
  }

  lemma {:induction false} PiBodyFound(body: Str, post: Str)
    requires Lacks(body, PiClose())
    ensures var close := Cons('?', Cons('>', post)); Find(Append(body, close), PiClose()) == Some(Cut(body, close))
  {
    var close := Cons('?', Cons('>', post));
    AtPiEnd(body);
    AtPiEnd(Append(body, close));
    if body == Nil {
    } else {
      PiBodyFound(body.tail, post);
    }
  }

  // ---------------------------------------------------------------------------------
  // Elements
  // ---------------------------------------------------------------------------------

  /** An element as it is written. The white space trail is that before the end of the start tag. */
  datatype Written = Written(name: QName, items: List<Item>, trail: Str, body: Body)

  /** Closed in its start tag, or with content up to an end tag. */
  datatype Body = SelfClosed | Open(content: Content)

  datatype Content =
    | EndTag(trail: Str)
    | Char(piece: Piece, rest: Content)
    | Comment(body: Str, rest: Content)
    | Cdata(text: Str, rest: Content)
    | Inner(elem: Written, rest: Content)

  predicate GoodWritten(w: Written)
  {
    GoodElementName(w.name) && GoodItems(w.items) && AllWhite(w.trail) && (w.body.Open? ==> GoodContent(w.body.content))
  }

  predicate GoodContent(c: Content)
  {
    match c
    case EndTag(trail) => AllWhite(trail)
    case Char(piece, rest) => GoodPiece(piece, '<') && GoodContent(rest)
    case Comment(body, rest) => LegalComment(body) && !ClosesEarly(body) && GoodContent(rest)
    case Cdata(text, rest) => Lacks(text, CdataClose()) && GoodContent(rest)
    case Inner(elem, rest) => GoodWritten(elem) && GoodContent(rest)
  }

  function Write(w: Written, post: Str): Str
    requires GoodWritten(w)
  {
    Cons('<', PutName(w.name, PutItems(w.items, Append(w.trail,
      match w.body
      case SelfClosed => PutClose(true, post)
      case Open(content) => PutClose(false, WriteContent(content, w.name, post))))))
  }

  function WriteContent(c: Content, name: QName, post: Str): Str
    requires GoodContent(c)
  {
    match c
    case EndTag(trail) => Cons('<', Cons('/', PutName(name, Append(trail, Cons('>', post)))))
    case Char(piece, rest) => PutPiece(piece, '<', WriteContent(rest, name, post))
    case Comment(body, rest) => PutComment(body, WriteContent(rest, name, post))
    case Cdata(text, rest) => PutCdata(text, WriteContent(rest, name, post))
    case Inner(elem, rest) => Write(elem, WriteContent(rest, name, post))
  }

  /** The element a written element means. */
  function Meant(w: Written): Element
    requires GoodWritten(w)
  {
    Element(w.name, ItemDecls(w.items), ItemAttrs(w.items),
      match w.body
      case SelfClosed => Done
      case Open(content) => MeantContent(content))
  }

  function MeantContent(c: Content): Nodes
    requires GoodContent(c)
  {
    match c
    case EndTag(_) => Done
    case Char(piece, rest) => Text(Cons(PieceChar(piece, '<'), Nil), MeantContent(rest))
    case Comment(_, rest) => MeantContent(rest)
    case Cdata(text, rest) => Text(text, MeantContent(rest))
    case Inner(elem, rest) => Child(Meant(elem), MeantContent(rest))
  }

  lemma EndTagIsRead(trail: Str, name: QName, post: Str)
    requires AllWhite(trail) && GoodName(name)
    ensures ParseNodes(WriteContent(EndTag(trail), name, post)) == Some(Parsed(Done, post))
  {
    WhiteIsSkipped(trail, Cons('>', post));
    ReadName(name, Append(trail, Cons('>', post)));
  }

  lemma JoinOneMore(c: char, t: Str, ns: Nodes)
    ensures JoinText(Cons(c, t), ns) == JoinText(Cons(c, Nil), JoinText(t, ns))
  {
    var joined := JoinText(t, ns);
    if joined.Text? { assert Append(Cons(c, Nil), joined.text) == Cons(c, Append(Nil, joined.text)); }
  }

  lemma CharIsRead(piece: Piece, after: Str, ns: Nodes, post: Str) returns (all: Nodes)
    requires GoodPiece(piece, '<') && ParseNodes(after) == Some(Parsed(ns, post))
    ensures ParseNodes(PutPiece(piece, '<', after)) == Some(Parsed(all, post))
    ensures MergeNodes(all) == JoinText(Cons(PieceChar(piece, '<'), Nil), MergeNodes(ns))
  {
    var c, cut := PieceChar(piece, '<'), TakeUntil('<', after);
    PieceHas(piece, '<', after);
    PieceIsDecoded(piece, '<', cut.taken);
    if after.head == '<' {
      all := Text(Cons(c, Nil), ns);
    } else {
      all := Text(Cons(c, ns.text), ns.rest);
      JoinOneMore(c, ns.text, MergeNodes(ns.rest));
    }
  }

  lemma AppendTwo(a: char, b: char, t: Str, post: Str)
    ensures Append(Cons(a, Cons(b, t)), post) == Cons(a, Cons(b, Append(t, post)))
  {
    assert Append(Cons(b, t), post) == Cons(b, Append(t, post));
  }

  lemma CommentIsMarkup(body: Str, post: Str)
    ensures var s := PutComment(body, post); StartsWith(s, CommentOpen()) && s.head == '<' && s.tail.head == '!'
  {
    var rest, two := Append(body, Cons('-', Cons('-', Cons('>', post)))), Cons('-', Cons('-', Nil));
    StartsWithIt(CommentOpen(), rest);
    AppendTwo('<', '!', two, rest);
    AppendTwo('-', '-', Nil, rest);
  }

  lemma CommentIsRead(body: Str, after: Str)
    requires LegalComment(body) && !ClosesEarly(body)
    ensures ParseNodes(PutComment(body, after)) == ParseNodes(after)
  {
    CommentSkippedExactly(body, after);
    CommentIsMarkup(body, after);
  }

  lemma CdataIsMarkup(text: Str, after: Str)
    ensures var s := PutCdata(text, after); StartsWith(s, CdataOpen()) && !StartsWith(s, CommentOpen())
    ensures var s := PutCdata(text, after); s.Cons? && s.head == '<' && s.tail.Cons? && s.tail.head == '!'
  {
    var close := Append(text, Cons(']', Cons(']', Cons('>', after))));
    StartsWithIt(CdataOpen(), close);
    var s := PutCdata(text, after);
    assert s.tail == Append(CdataOpen().tail, close) && s.tail.tail == Append(CdataOpen().tail.tail, close);
    assert !StartsWith(s.tail.tail, Cons('-', Cons('-', Nil)));
    assert !StartsWith(s.tail, Cons('!', Cons('-', Cons('-', Nil))));
  }

  lemma CdataIsRead(text: Str, after: Str, ns: Nodes, post: Str)
    requires Lacks(text, CdataClose()) && ParseNodes(after) == Some(Parsed(ns, post))
    ensures ParseNodes(PutCdata(text, after)) == Some(Parsed(Text(text, ns), post))
  {
    CdataIsMarkup(text, after);
    CdataOpenIsNine();
    DropsAll(CdataOpen(), Append(text, Cons(']', Cons(']', Cons('>', after)))));
    CdataFound(text, after);
    DropsThree(']', ']', '>', after);
  }

  lemma WrittenIsNotMarkup(w: Written, post: Str)
    requires GoodWritten(w)
    ensures var s := Write(w, post); s.tail.Cons? && s.tail.head != '/' && s.tail.head != '!' && s.tail.head != '?'
    ensures !StartsWith(Write(w, post), CommentOpen()) && !StartsWith(Write(w, post), CdataOpen())
    ensures !StartsWith(Write(w, post), PiOpen())
  {
    var s := Write(w, post);
    assert s.tail.head == (if w.name.prefix.Some? then w.name.prefix.value else w.name.local).head;
    assert !StartsWith(s.tail, CommentOpen().tail) && !StartsWith(s.tail, CdataOpen().tail);
    assert !StartsWith(s.tail, PiOpen().tail);
  }

  lemma InnerIsRead(w: Written, e: Element, after: Str, ns: Nodes, post: Str)
    requires GoodWritten(w) && ParseElement(Write(w, after)) == Some(Parsed(e, after))
    requires ParseNodes(after) == Some(Parsed(ns, post))
    ensures ParseNodes(Write(w, after)) == Some(Parsed(Child(e, ns), post))
  {
    WrittenIsNotMarkup(w, after);
  }

  /** Every written element is read, as what it means up to the joining of adjacent text. */
  lemma {:induction false} WrittenIsRead(w: Written, post: Str) returns (e: Element)
    requires GoodWritten(w)
    ensures ParseElement(Write(w, post)) == Some(Parsed(e, post)) && Merge(e) == Merge(Meant(w))
    decreases w, 1
  {
    var name, decls, attrs := w.name, ItemDecls(w.items), ItemAttrs(w.items);
    if w.body.SelfClosed? {
      e := Element(name, decls, attrs, Done);
      StartTagIsRead(name, w.items, w.trail, true, post);
    } else {
      var inside := WriteContent(w.body.content, name, post);
      var ns := ContentIsRead(w.body.content, name, post);
      e := Element(name, decls, attrs, ns);
      StartTagIsRead(name, w.items, w.trail, false, inside);
    }
  }

  lemma StartTagIsRead(name: QName, items: List<Item>, trail: Str, selfClosed: bool, post: Str)
    requires GoodElementName(name) && GoodItems(items) && AllWhite(trail)
    ensures var s := PutName(name, PutItems(items, Append(trail, PutClose(selfClosed, post))));
      SplitColon(TakeName(s).taken) == name &&
      ParseTag(TakeName(s).rest) == Some(Tag(ItemDecls(items), ItemAttrs(items), selfClosed, post))
  {
    var end := Append(trail, PutClose(selfClosed, post));
    TagEndsName(items, trail, selfClosed, post);
    ReadName(name, PutItems(items, end));
    CloseIsRead(trail, selfClosed, post);
    ItemsAreRead(items, end, selfClosed, post);
  }

  /** ns is what is read of c, up to the joining of adjacent text. */
  predicate ReadsContent(c: Content, name: QName, post: Str, ns: Nodes)
    requires GoodContent(c)
  {
    ParseNodes(WriteContent(c, name, post)) == Some(Parsed(ns, post)) && MergeNodes(ns) == MergeNodes(MeantContent(c))
  }

  lemma CharStep(piece: Piece, rest: Content, name: QName, post: Str, after: Nodes) returns (ns: Nodes)
    requires GoodContent(Char(piece, rest)) && ReadsContent(rest, name, post, after)
    ensures ReadsContent(Char(piece, rest), name, post, ns)
  {
    ns := CharIsRead(piece, WriteContent(rest, name, post), after, post);
  }

  lemma CdataStep(text: Str, rest: Content, name: QName, post: Str, after: Nodes)
    requires GoodContent(Cdata(text, rest)) && ReadsContent(rest, name, post, after)
    ensures ReadsContent(Cdata(text, rest), name, post, Text(text, after))
  {
    CdataIsRead(text, WriteContent(rest, name, post), after, post);
  }

  lemma InnerStep(elem: Written, e: Element, rest: Content, name: QName, post: Str, after: Nodes)
    requires GoodContent(Inner(elem, rest)) && ReadsContent(rest, name, post, after)
    requires var s := WriteContent(rest, name, post); ParseElement(Write(elem, s)) == Some(Parsed(e, s))
    requires Merge(e) == Merge(Meant(elem))
    ensures ReadsContent(Inner(elem, rest), name, post, Child(e, after))
  {
    InnerIsRead(elem, e, WriteContent(rest, name, post), after, post);
  }

  lemma {:induction false} ContentIsRead(c: Content, name: QName, post: Str) returns (ns: Nodes)
    requires GoodContent(c) && GoodName(name)
    ensures ReadsContent(c, name, post, ns)
    decreases c
  {
    match c
    case EndTag(trail) =>
      EndTagIsRead(trail, name, post);
      ns := Done;
    case Char(piece, rest) =>
      var after := ContentIsRead(rest, name, post);
      ns := CharStep(piece, rest, name, post, after);
    case Comment(body, rest) =>
      ns := ContentIsRead(rest, name, post);
      CommentIsRead(body, WriteContent(rest, name, post));
    case Cdata(text, rest) =>
      var after := ContentIsRead(rest, name, post);
      CdataStep(text, rest, name, post, after);
      ns := Text(text, after);
    case Inner(elem, rest) =>
      var after := ContentIsRead(rest, name, post);
      var e := WrittenIsRead(elem, WriteContent(rest, name, post));
      InnerStep(elem, e, rest, name, post, after);
      ns := Child(e, after);
  }

  // ---------------------------------------------------------------------------------
  // Documents
  // ---------------------------------------------------------------------------------

  /** White space, processing instructions and comments before the root. */
  datatype Prolog =
    | Start(white: Str)
    | Pi(white: Str, body: Str, rest: Prolog)
    | Remark(white: Str, body: Str, rest: Prolog)

  predicate GoodProlog(p: Prolog)
  {
    AllWhite(p.white) &&
    match p
    case Start(_) => true
    case Pi(_, body, rest) => Lacks(body, PiClose()) && (body.Cons? ==> body.head != '>') && GoodProlog(rest)
    case Remark(_, body, rest) => LegalComment(body) && !ClosesEarly(body) && GoodProlog(rest)
  }

  function PutProlog(p: Prolog, post: Str): Str
  {
    Append(p.white,
      match p
      case Start(_) => post
      case Pi(_, body, rest) => PutPi(body, PutProlog(rest, post))
      case Remark(_, body, rest) => PutComment(body, PutProlog(rest, post)))
  }

  lemma PiIsSkipped(body: Str, after: Str)
    requires Lacks(body, PiClose()) && (body.Cons? ==> body.head != '>')
    ensures SkipProlog(PutPi(body, after)) == SkipProlog(after)
  {
    var close := Cons('?', Cons('>', after));
    var s := PutPi(body, after);
    AtPiEnd(s);
    AtPiEnd(s.tail);
    PiBodyFound(body, after);
    StartsWithIt(PiOpen(), Append(body, close));
    AppendTwo('<', '?', Nil, Append(body, close));
    assert Find(s, PiClose()) == Some(Cut(Cons('<', Cons('?', body)), close));
    assert Drop(close, 2) == Drop(close.tail, 1) == Drop(after, 0);
  }

  lemma RemarkIsSkipped(body: Str, after: Str)
    requires LegalComment(body) && !ClosesEarly(body)
    ensures SkipProlog(PutComment(body, after)) == SkipProlog(after)
  {
    CommentSkippedExactly(body, after);
    CommentIsMarkup(body, after);
    assert !StartsWith(PutComment(body, after), PiOpen());
  }

  lemma WhiteBefore(white: Str, s: Str)
    requires AllWhite(white) && (s == Nil || !IsSpace(s.head))
    ensures SkipProlog(Append(white, s)) == SkipProlog(s)
  {
    WhiteIsSkipped(white, s);
    assert SkipSpace(s) == s;
  }

  lemma {:induction false} PrologIsSkipped(p: Prolog, post: Str)
    requires GoodProlog(p) && (post == Nil || !IsSpace(post.head))
    ensures SkipProlog(PutProlog(p, post)) == SkipProlog(post)
  {
    match p
    case Start(white) =>
      WhiteBefore(white, post);
    case Pi(white, body, rest) =>
      PrologIsSkipped(rest, post);
      PiIsSkipped(body, PutProlog(rest, post));
      WhiteBefore(white, PutPi(body, PutProlog(rest, post)));
    case Remark(white, body, rest) =>
      PrologIsSkipped(rest, post);
      RemarkIsSkipped(body, PutProlog(rest, post));
      WhiteBefore(white, PutComment(body, PutProlog(rest, post)));
  }

  /** s is a way to write e: a prolog, e written in some way, and anything after it. */
  ghost predicate Spells(s: Str, e: Element)
  {
    exists p, w, post ::
      GoodProlog(p) && GoodWritten(w) && s == PutProlog(p, Write(w, post)) && Merge(Meant(w)) == Merge(e)
  }

  /** Every way to write an element down is read as that element, up to the joining of text. */
  lemma SpellingIsRead(s: Str, e: Element)
    requires Spells(s, e)
    ensures Parse(s).Some? && Merge(Parse(s).value) == Merge(e)
  {
    var p, w, post :|
      GoodProlog(p) && GoodWritten(w) && s == PutProlog(p, Write(w, post)) && Merge(Meant(w)) == Merge(e);
    PrologIsSkipped(p, Write(w, post));
    WrittenIsNotMarkup(w, post);
    var read := WrittenIsRead(w, post);
  }

  /** A text is a way to write one element only. */
  lemma SpellingIsUnambiguous(s: Str, a: Element, b: Element)
    requires Spells(s, a) && Spells(s, b)
    ensures Merge(a) == Merge(b)
  {
    SpellingIsRead(s, a);
    SpellingIsRead(s, b);
  }

  lemma EarlyCloseGoesOn(end: Str)
    ensures ParseNodes(PutComment(Cons('>', Nil), end)) == ParseNodes(Cons('-', Cons('-', Cons('>', end))))
  {
    var body, left := Cons('>', Nil), Cons('-', Cons('-', Cons('>', end)));
    assert Append(body, left) == Cons('>', Append(Nil, left));
    CommentFound(body, end);
    CommentFoundFromOpen(Cons('-', Cons('-', Append(body, left))));
    DropsThree('-', '-', '>', left);
    CommentIsMarkup(body, end);
  }

  lemma DashesAreText(end: Str)
    requires end.Cons? && end.head == '<' && ParseNodes(end) == Some(Parsed(Done, Nil))
    ensures ParseNodes(Cons('-', Cons('-', Cons('>', end)))) ==
      Some(Parsed(Text(Cons('-', Cons('-', Cons('>', Nil))), Done), Nil))
  {
    var text := Cons('-', Cons('-', Cons('>', Nil)));
    assert TakeUntil('<', Cons('>', end)) == Cut(text.tail.tail, end);
    assert TakeUntil('<', Cons('-', Cons('>', end))) == Cut(text.tail, end);
    assert TakeUntil(';', text.tail.tail).rest == Nil && TakeUntil(';', text.tail).rest == Nil;
    NoSemicolonIsPlain(text);
  }

  /** The legal comment <!-->--> is not skipped whole: its last three characters are left as text. */
  lemma EarlyCloseLeavesText()
    ensures var q, body := QName(None, Cons('a', Nil)), Cons('>', Nil);
      LegalComment(body) && ParseElement(Cons('<', Cons('a', Cons('>', PutComment(body, PutEnd(q, Nil)))))) ==
      Some(Parsed(Element(q, Nil, Nil, Text(Cons('-', Cons('-', Cons('>', Nil))), Done)), Nil))
  {
    var q, body := QName(None, Cons('a', Nil)), Cons('>', Nil);
    assert IsName(q.local) by { assert AllNameChars(Nil); }
    EndTagIsRead(Nil, q, Nil);
    DashesAreText(PutEnd(q, Nil));
    EarlyCloseGoesOn(PutEnd(q, Nil));
    StartTagIsRead(q, Nil, Nil, false, PutComment(body, PutEnd(q, Nil)));
    var inside := Cons('>', PutComment(body, PutEnd(q, Nil)));
    assert PutName(q, inside) == Cons('a', inside);
  }

  /** A document type declaration is refused. */
  lemma DoctypeIsRefused(p: Prolog, s: Str)
    requires GoodProlog(p) && !StartsWith(s, Cons('-', Cons('-', Nil)))
    ensures Parse(PutProlog(p, Cons('<', Cons('!', s)))) == None
  {
    var decl := Cons('<', Cons('!', s));
    PrologIsSkipped(p, decl);
    assert StartsWith(decl, CommentOpen()) <==> StartsWith(decl.tail, CommentOpen().tail);
    assert StartsWith(decl.tail, CommentOpen().tail) <==> StartsWith(s, CommentOpen().tail.tail);
    assert !StartsWith(decl, PiOpen());
  }
}
