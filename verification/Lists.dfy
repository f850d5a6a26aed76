/** Linked lists. */
module Lists {
  datatype List<T> = Nil | Cons(head: T, tail: List<T>)

  function Append<T>(a: List<T>, b: List<T>): List<T>
  {
    match a
    case Nil => b
    case Cons(x, t) => Cons(x, Append(t, b))
  }

  function Length<T>(a: List<T>): nat
  {
    match a
    case Nil => 0
    case Cons(_, t) => 1 + Length(t)
  }

  lemma {:induction false} AppendNil<T>(a: List<T>)
    ensures Append(a, Nil) == a
  {
    if a == Nil {
    } else {
      AppendNil(a.tail);
    }
  }

  lemma {:induction false} AppendAssoc<T>(a: List<T>, b: List<T>, c: List<T>)
    ensures Append(Append(a, b), c) == Append(a, Append(b, c))
  {
    if a == Nil {
    } else {
      AppendAssoc(a.tail, b, c);
    }
  }

  function Reverse<T>(a: List<T>): List<T>
  {
    match a
    case Nil => Nil
    case Cons(x, t) => Append(Reverse(t), Cons(x, Nil))
  }

  /** The elements of a sequence from index i on. */
  function From<T>(s: seq<T>, i: nat): List<T>
    decreases |s| - i
  {
    if i < |s| then Cons(s[i], From(s, i + 1)) else Nil
  }
}
