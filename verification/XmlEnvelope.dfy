/** The enveloped-signature transform and the search for an element with its inherited scope. */
module XmlEnvelope {
  import opened Wrappers
  import opened Lists
  import opened XmlText
  import opened XmlTree
  import opened XmlCanon

  // ---------------------------------------------------------------------------------
  // Enveloped signatures
  // ---------------------------------------------------------------------------------

  function SignatureName(): Str
  {
    Cons('S', Cons('i', Cons('g', Cons('n', Put5('a', 't', 'u', 'r', 'e', Nil)))))
  }

  predicate IsSignature(e: Element)
  {
    e.name.local == SignatureName()
  }

  /** Remove every descendant Signature element; the root is kept whatever its name. */
  function Strip(e: Element): Element
  {
    e.(children := StripNodes(e.children))
  }

  function StripNodes(ns: Nodes): Nodes
  {
    match ns
    case Done => Done
    case Text(t, rest) => Text(t, StripNodes(rest))
    case Child(e, rest) => if IsSignature(e) then StripNodes(rest) else Child(Strip(e), StripNodes(rest))
  }

  function EnvelopedText(e: Element, incl: List<Str>, inherited: Scope): Str
  {
    CanonText(Strip(e), incl, inherited)
  }

  predicate SignatureFree(ns: Nodes)
  {
    match ns
    case Done => true
    case Text(_, rest) => SignatureFree(rest)
    case Child(e, rest) => !IsSignature(e) && SignatureFree(e.children) && SignatureFree(rest)
  }

  /** signed is e with Signature elements inserted anywhere below the root, also inside text. */
  ghost predicate Signed(e: Element, signed: Element)
    decreases signed
  {
    e.name == signed.name && e.decls == signed.decls && e.attrs == signed.attrs &&
    SignedNodes(e.children, signed.children)
  }

  ghost predicate SignedNodes(ns: Nodes, signed: Nodes)
    decreases signed
  {
    match signed
    case Done => ns == Done
    case Text(t, rest) => ns.Text? && exists u :: SplitsInto(ns.text, t, u) && SignedNodes(AfterSplit(u, ns.rest), rest)
    case Child(e, rest) =>
      if IsSignature(e) then SignedNodes(ns, rest)
      else ns.Child? && Signed(ns.elem, e) && SignedNodes(ns.rest, rest)
  }

  predicate SplitsInto(text: Str, front: Str, back: Str)
  {
    text == Append(front, back)
  }

  function AfterSplit(back: Str, rest: Nodes): Nodes
  {
    if back == Nil then rest else Text(back, rest)
  }

  lemma JoinTwice(a: Str, b: Str, ns: Nodes)
    ensures JoinText(a, JoinText(b, ns)) == JoinText(Append(a, b), ns)
  {
    AppendNil(a);
    if ns.Text? { AppendAssoc(a, b, ns.text); }
  }

  lemma {:induction false} StripUndoes(e: Element, signed: Element)
    requires Signed(e, signed) && SignatureFree(e.children)
    ensures Merge(Strip(signed)) == Merge(e)
    decreases signed
  {
    StripNodesUndoes(e.children, signed.children);
  }

  lemma {:induction false} StripNodesUndoes(ns: Nodes, signed: Nodes)
    requires SignedNodes(ns, signed) && SignatureFree(ns)
    ensures MergeNodes(StripNodes(signed)) == MergeNodes(ns)
    decreases signed
  {
    match signed
    case Done =>
    case Text(t, rest) =>
      var u :| SplitsInto(ns.text, t, u) && SignedNodes(AfterSplit(u, ns.rest), rest);
      StripNodesUndoes(AfterSplit(u, ns.rest), rest);
      JoinTwice(t, u, MergeNodes(ns.rest));
    case Child(e, rest) =>
      if IsSignature(e) {
        StripNodesUndoes(ns, rest);
      } else {
        StripUndoes(ns.elem, e);
        StripNodesUndoes(ns.rest, rest);
      }
  }

  /** Inserting signatures anywhere leaves the enveloped canonical form as it was. */
  lemma SigningKeepsCanonicalForm(e: Element, signed: Element, incl: List<Str>, inherited: Scope)
    requires Signed(e, signed) && SignatureFree(e.children)
    ensures EnvelopedText(signed, incl, inherited) == CanonText(e, incl, inherited)
  {
    StripUndoes(e, signed);
    CanonTextOfMerged(Strip(signed), incl, inherited);
    CanonTextOfMerged(e, incl, inherited);
  }

  /** Every element is its stripped form with signatures inserted. */
  lemma {:induction false} StripIsUnsigned(e: Element)
    ensures Signed(Strip(e), e) && SignatureFree(Strip(e).children)
    decreases e
  {
    StripNodesIsUnsigned(e.children);
  }

  lemma {:induction false} StripNodesIsUnsigned(ns: Nodes)
    ensures SignedNodes(StripNodes(ns), ns) && SignatureFree(StripNodes(ns))
    decreases ns
  {
    match ns
    case Done =>
    case Text(t, rest) =>
      StripNodesIsUnsigned(rest);
      AppendNil(t);
      assert SplitsInto(StripNodes(ns).text, t, Nil);
    case Child(e, rest) =>
      StripIsUnsigned(e);
      StripNodesIsUnsigned(rest);
  }

  // ---------------------------------------------------------------------------------
  // Finding an element with the scope it inherits
  // ---------------------------------------------------------------------------------

  datatype Found = Found(elem: Element, scope: Scope)

  function Find(e: Element, inherited: Scope, pred: Element -> bool): Option<Found>
  {
    if pred(e) then Some(Found(e, inherited))
    else FindInNodes(e.children, DeclareAll(inherited, e.decls), pred)
  }

  function FindInNodes(ns: Nodes, scope: Scope, pred: Element -> bool): Option<Found>
  {
    match ns
    case Done => None
    case Text(_, rest) => FindInNodes(rest, scope, pred)
    case Child(e, rest) =>
      var found := Find(e, scope, pred);
      if found.Some? then found else FindInNodes(rest, scope, pred)
  }

  /** All elements in document order, each with its inherited scope, followed by post. */
  function Occurrences(e: Element, inherited: Scope, post: List<Found>): List<Found>
  {
    Cons(Found(e, inherited), OccurrencesInNodes(e.children, DeclareAll(inherited, e.decls), post))
  }

  function OccurrencesInNodes(ns: Nodes, scope: Scope, post: List<Found>): List<Found>
  {
    match ns
    case Done => post
    case Text(_, rest) => OccurrencesInNodes(rest, scope, post)
    case Child(e, rest) => Occurrences(e, scope, OccurrencesInNodes(rest, scope, post))
  }

  function FirstMatch(l: List<Found>, pred: Element -> bool): Option<Found>
  {
    match l
    case Nil => None
    case Cons(f, t) => if pred(f.elem) then Some(f) else FirstMatch(t, pred)
  }

  /** The search returns the first match in document order. */
  lemma {:induction false} FindIsFirst(e: Element, inherited: Scope, pred: Element -> bool, post: List<Found>)
    ensures FirstMatch(Occurrences(e, inherited, post), pred) ==
      if Find(e, inherited, pred).Some? then Find(e, inherited, pred) else FirstMatch(post, pred)
    decreases e
  {
    FindInNodesIsFirst(e.children, DeclareAll(inherited, e.decls), pred, post);
  }

  lemma {:induction false} FindInNodesIsFirst(ns: Nodes, scope: Scope, pred: Element -> bool, post: List<Found>)
    ensures FirstMatch(OccurrencesInNodes(ns, scope, post), pred) ==
      if FindInNodes(ns, scope, pred).Some? then FindInNodes(ns, scope, pred) else FirstMatch(post, pred)
    decreases ns
  {
    match ns
    case Done =>
    case Text(_, rest) => FindInNodesIsFirst(rest, scope, pred, post);
    case Child(e, rest) =>
      FindIsFirst(e, scope, pred, OccurrencesInNodes(rest, scope, post));
      FindInNodesIsFirst(rest, scope, pred, post);
  }

  predicate Within(m: Meaning, whole: Meaning)
  {
    m == whole || WithinAny(m, whole.children)
  }

  predicate WithinAny(m: Meaning, ms: Meanings)
  {
    match ms
    case NoMore => false
    case Words(_, rest) => WithinAny(m, rest)
    case Inner(e, rest) => Within(m, e) || WithinAny(m, rest)
  }

  lemma {:induction false} FoundIsWithin(e: Element, inherited: Scope, pred: Element -> bool)
    requires Good(e) && Plain(e) && GoodScope(inherited) && Find(e, inherited, pred).Some?
    ensures var f := Find(e, inherited, pred).value;
      Good(f.elem) && Plain(f.elem) && GoodScope(f.scope) && Within(MeaningOf(f.elem, f.scope), MeaningOf(e, inherited))
    decreases e
  {
    if !pred(e) {
      GoodInside(inherited, e.decls);
      FoundInNodesIsWithin(e.children, DeclareAll(inherited, e.decls), pred);
    }
  }

  lemma {:induction false} FoundInNodesIsWithin(ns: Nodes, scope: Scope, pred: Element -> bool)
    requires GoodNodes(ns) && PlainNodes(ns) && GoodScope(scope) && FindInNodes(ns, scope, pred).Some?
    ensures var f := FindInNodes(ns, scope, pred).value;
      Good(f.elem) && Plain(f.elem) && GoodScope(f.scope) &&
      WithinAny(MeaningOf(f.elem, f.scope), MeaningOfNodes(ns, scope))
    decreases ns
  {
    match ns
    case Done =>
    case Text(_, rest) => FoundInNodesIsWithin(rest, scope, pred);
    case Child(e, rest) =>
      if Find(e, scope, pred).Some? {
        FoundIsWithin(e, scope, pred);
      } else {
        FoundInNodesIsWithin(rest, scope, pred);
      }
  }

  /** Canonicalizing an inner element with the scope it was found with keeps the meaning it has
    * in the document. */
  lemma FoundKeepsMeaning(root: Element, pred: Element -> bool, incl: List<Str>)
    requires Good(root) && Plain(root) && Find(root, map[], pred).Some?
    ensures var f := Find(root, map[], pred).value;
      var parsed := Parse(CanonText(f.elem, incl, f.scope));
      parsed.Some? && MeaningOf(parsed.value, map[]) == MeaningOf(f.elem, f.scope) &&
      Within(MeaningOf(f.elem, f.scope), MeaningOf(root, map[]))
  {
    var f := Find(root, map[], pred).value;
    FoundIsWithin(root, map[], pred);
    CanonicalizationKeepsMeaning(f.elem, incl, f.scope);
  }
}
