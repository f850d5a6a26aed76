/** Text as lists of characters, with the escapes of the canonicalizer and the entity decoding
  * of the parser. Printing is written with a continuation: Put(x, post) is x followed by post. */
module XmlText {
  import opened Wrappers
  import opened Lists

  type Str = List<char>

  // ---------------------------------------------------------------------------------
  // Escapes
  // ---------------------------------------------------------------------------------

  function Put5(a: char, b: char, c: char, d: char, e: char, post: Str): Str
  {
    Cons(a, Cons(b, Cons(c, Cons(d, Cons(e, post)))))
  }

  function PutTextChar(c: char, post: Str): Str
  {
    if c == '&' then Put5('&', 'a', 'm', 'p', ';', post)
    else if c == '<' then Cons('&', Cons('l', Cons('t', Cons(';', post))))
    else if c == '>' then Cons('&', Cons('g', Cons('t', Cons(';', post))))
    else if c == '\r' then Put5('&', '#', 'x', 'D', ';', post)
    else Cons(c, post)
  }

  function PutAttrChar(c: char, post: Str): Str
  {
    if c == '&' then Put5('&', 'a', 'm', 'p', ';', post)
    else if c == '<' then Cons('&', Cons('l', Cons('t', Cons(';', post))))
    else if c == '"' then Cons('&', Put5('q', 'u', 'o', 't', ';', post))
    else if c == '\t' then Put5('&', '#', 'x', '9', ';', post)
    else if c == '\n' then Put5('&', '#', 'x', 'A', ';', post)
    else if c == '\r' then Put5('&', '#', 'x', 'D', ';', post)
    else Cons(c, post)
  }

  /** Escaped text or attribute value s, followed by post. */
  function PutEscaped(s: Str, attr: bool, post: Str): Str
  {
    match s
    case Nil => post
    case Cons(c, t) =>
      if attr then PutAttrChar(c, PutEscaped(t, attr, post)) else PutTextChar(c, PutEscaped(t, attr, post))
  }

  // ---------------------------------------------------------------------------------
  // Entities
  // ---------------------------------------------------------------------------------

  datatype Cut = Cut(taken: Str, rest: Str)

  /** The characters before the first c, and the rest from that c on. */
  function TakeUntil(c: char, s: Str): Cut
  {
    match s
    case Nil => Cut(Nil, Nil)
    case Cons(x, t) =>
      if x == c then Cut(Nil, s)
      else
        var cut := TakeUntil(c, t);
        Cut(Cons(x, cut.taken), cut.rest)
  }

  function DigitValue(c: char, radix: nat): Option<nat>
  {
    if '0' <= c <= '9' then Some((c - '0') as int)
    else if radix == 16 && 'a' <= c <= 'f' then Some(10 + (c - 'a') as int)
    else if radix == 16 && 'A' <= c <= 'F' then Some(10 + (c - 'A') as int)
    else None
  }

  /** The digits of s after the value acc, as an unsigned 32-bit number. */
  function Digits(s: Str, radix: nat, acc: nat): Option<nat>
  {
    if acc >= 0x1_0000_0000 then None
    else
      match s
      case Nil => Some(acc)
      case Cons(c, t) =>
        match DigitValue(c, radix)
        case None => None
        case Some(d) => Digits(t, radix, radix * acc + d)
  }

  function Number(s: Str, radix: nat): Option<nat>
  {
    var digits := if s.Cons? && s.head == '+' then s.tail else s;
    if digits == Nil then None else Digits(digits, radix, 0)
  }

  function ScalarValue(n: Option<nat>): Option<char>
  {
    match n
    case None => None
    case Some(v) => if v < 0xD800 || 0xE000 <= v < 0x11_0000 then Some(v as char) else None
  }

  /** The character an entity name stands for. */
  function EntityChar(ent: Str): Option<char>
  {
    match ent
    case Cons('l', Cons('t', Nil)) => Some('<')
    case Cons('g', Cons('t', Nil)) => Some('>')
    case Cons('a', Cons('m', Cons('p', Nil))) => Some('&')
    case Cons('q', Cons('u', Cons('o', Cons('t', Nil)))) => Some('"')
    case Cons('a', Cons('p', Cons('o', Cons('s', Nil)))) => Some('\'')
    case Cons('#', Cons('x', hex)) => ScalarValue(Number(hex, 16))
    case Cons('#', Cons('X', hex)) => ScalarValue(Number(hex, 16))
    case Cons('#', dec) => ScalarValue(Number(dec, 10))
    case _ => None
  }

  datatype Entity = NoEntity | Entity(c: char, rest: Str)

  /** The entity at the start of s, which follows an ampersand. */
  function EntityAt(s: Str): (r: Entity)
    ensures r.Entity? ==> Length(r.rest) < Length(s)
  {
    var cut := TakeUntil(';', s);
    TakeUntilShrinks(';', s);
    if cut.rest == Nil then NoEntity
    else
      match EntityChar(cut.taken)
      case None => NoEntity
      case Some(c) => Entity(c, cut.rest.tail)
  }

  lemma {:induction false} TakeUntilShrinks(c: char, s: Str)
    ensures Length(TakeUntil(c, s).rest) <= Length(s)
    ensures TakeUntil(c, s).rest.Cons? ==> TakeUntil(c, s).rest.head == c
  {
    if s == Nil {
    } else {
      TakeUntilShrinks(c, s.tail);
    }
  }

  function Decode(s: Str): Str
    decreases Length(s)
  {
    match s
    case Nil => Nil
    case Cons(c, t) =>
      if c == '&' && EntityAt(t).Entity? then Cons(EntityAt(t).c, Decode(EntityAt(t).rest))
      else Cons(c, Decode(t))
  }

  // ---------------------------------------------------------------------------------
  // Decoding undoes escaping
  // ---------------------------------------------------------------------------------

  lemma EntityOf2(a: char, b: char, rest: Str)
    requires a != ';' && b != ';'
    ensures TakeUntil(';', Cons(a, Cons(b, Cons(';', rest)))) == Cut(Cons(a, Cons(b, Nil)), Cons(';', rest))
  {
    var t := Cons(';', rest);
    assert TakeUntil(';', t) == Cut(Nil, t);
    assert TakeUntil(';', Cons(b, t)) == Cut(Cons(b, Nil), t);
  }

  lemma EntityOf3(a: char, b: char, c: char, rest: Str)
    requires a != ';' && b != ';' && c != ';'
    ensures TakeUntil(';', Cons(a, Cons(b, Cons(c, Cons(';', rest))))) ==
      Cut(Cons(a, Cons(b, Cons(c, Nil))), Cons(';', rest))
  {
    EntityOf2(b, c, rest);
  }

  lemma EntityOf4(a: char, b: char, c: char, d: char, rest: Str)
    requires a != ';' && b != ';' && c != ';' && d != ';'
    ensures TakeUntil(';', Cons(a, Cons(b, Cons(c, Cons(d, Cons(';', rest)))))) ==
      Cut(Cons(a, Cons(b, Cons(c, Cons(d, Nil)))), Cons(';', rest))
  {
    EntityOf3(b, c, d, rest);
  }

  lemma HexEntities()
    ensures EntityChar(Cons('#', Cons('x', Cons('D', Nil)))) == Some('\r')
    ensures EntityChar(Cons('#', Cons('x', Cons('A', Nil)))) == Some('\n')
    ensures EntityChar(Cons('#', Cons('x', Cons('9', Nil)))) == Some('\t')
  {
    assert Digits(Nil, 16, 13) == Some(13) && Digits(Nil, 16, 10) == Some(10) && Digits(Nil, 16, 9) == Some(9);
    assert Number(Cons('D', Nil), 16) == Some(13);
    assert Number(Cons('A', Nil), 16) == Some(10);
    assert Number(Cons('9', Nil), 16) == Some(9);
  }

  lemma DecodeEscapedChar(c: char, attr: bool, rest: Str)
    ensures Decode(if attr then PutAttrChar(c, rest) else PutTextChar(c, rest)) == Cons(c, Decode(rest))
  {
    if attr {
      DecodeAttrChar(c, rest);
    } else {
      DecodeTextChar(c, rest);
    }
  }

  lemma DecodeTextChar(c: char, rest: Str)
    ensures Decode(PutTextChar(c, rest)) == Cons(c, Decode(rest))
  {
    HexEntities();
    EntityOf3('a', 'm', 'p', rest);
    EntityOf2('l', 't', rest);
    EntityOf2('g', 't', rest);
    EntityOf3('#', 'x', 'D', rest);
  }

  lemma DecodeAttrChar(c: char, rest: Str)
    ensures Decode(PutAttrChar(c, rest)) == Cons(c, Decode(rest))
  {
    if c == '\t' || c == '\n' || c == '\r' {
      DecodeHexChar(c, rest);
    } else {
      EntityOf3('a', 'm', 'p', rest);
      EntityOf2('l', 't', rest);
      EntityOf4('q', 'u', 'o', 't', rest);
    }
  }

  lemma DecodeHexChar(c: char, rest: Str)
    requires c == '\t' || c == '\n' || c == '\r'
    ensures Decode(PutAttrChar(c, rest)) == Cons(c, Decode(rest))
  {
    HexEntities();
    EntityOf3('#', 'x', '9', rest);
    EntityOf3('#', 'x', 'A', rest);
    EntityOf3('#', 'x', 'D', rest);
  }

  /** Decoding an escaped text or attribute value gives it back. */
  lemma {:induction false} DecodeEscaped(s: Str, attr: bool, post: Str)
    ensures Decode(PutEscaped(s, attr, post)) == Append(s, Decode(post))
  {
    if s == Nil {
    } else {
      DecodeEscapedChar(s.head, attr, PutEscaped(s.tail, attr, post));
      DecodeEscaped(s.tail, attr, post);
    }
  }

  /** An escaped value holds no c, if c is always escaped: it is cut off whole at the next c. */
  lemma {:induction false} TakeUntilEscaped(c: char, s: Str, attr: bool, post: Str)
    requires c == if attr then '"' else '<'
    ensures var cut := TakeUntil(c, post);
      TakeUntil(c, PutEscaped(s, attr, post)) == Cut(PutEscaped(s, attr, cut.taken), cut.rest)
  {
    if s == Nil {
    } else {
      TakeUntilEscaped(c, s.tail, attr, post);
      TakeUntilEscapedChar(c, s.head, attr, PutEscaped(s.tail, attr, post));
    }
  }

  lemma TakeUntilEscapedChar(c: char, x: char, attr: bool, post: Str)
    requires c == if attr then '"' else '<'
    ensures var cut := TakeUntil(c, post);
      TakeUntil(c, if attr then PutAttrChar(x, post) else PutTextChar(x, post)) ==
      Cut(if attr then PutAttrChar(x, cut.taken) else PutTextChar(x, cut.taken), cut.rest)
  {
    var cut := TakeUntil(c, post);
    Skips4(c, '&', 'l', 't', ';', post);
    Skips4(c, '&', 'g', 't', ';', post);
    Skips4(c, 'a', 'm', 'p', ';', post);
    Skips4(c, 'u', 'o', 't', ';', post);
    Skips4(c, '#', 'x', 'D', ';', post);
    Skips4(c, '#', 'x', 'A', ';', post);
    Skips4(c, '#', 'x', '9', ';', post);
  }

  lemma Skips4(c: char, x1: char, x2: char, x3: char, x4: char, post: Str)
    requires c != x1 && c != x2 && c != x3 && c != x4
    ensures var cut := TakeUntil(c, post);
      TakeUntil(c, Cons(x1, Cons(x2, Cons(x3, Cons(x4, post))))) ==
      Cut(Cons(x1, Cons(x2, Cons(x3, Cons(x4, cut.taken)))), cut.rest)
  {
    var cut := TakeUntil(c, post);
    assert TakeUntil(c, Cons(x4, post)) == Cut(Cons(x4, cut.taken), cut.rest);
    assert TakeUntil(c, Cons(x3, Cons(x4, post))) == Cut(Cons(x3, Cons(x4, cut.taken)), cut.rest);
  }

  lemma {:induction false} EscapedNeverStartsWith(s: Str, attr: bool, post: Str)
    requires s != Nil
    ensures PutEscaped(s, attr, post).Cons? && PutEscaped(s, attr, post).head != '<'
  {
  }

  lemma {:induction false} EscapedAppend(a: Str, b: Str, attr: bool, post: Str)
    ensures PutEscaped(Append(a, b), attr, post) == PutEscaped(a, attr, PutEscaped(b, attr, post))
  {
    if a == Nil {
    } else {
      EscapedAppend(a.tail, b, attr, post);
    }
  }
}
