/** Which checks the limiter allows: exactly those that keep every interval up to now within the
  * capacity and what refills in it, unless the table is full. */
module RateExact {
  import opened Lists
  import opened RateLimiter

  /** One more check at e would stay within the rate of the interval that starts at `from`. */
  predicate Fits(c: Config, w: World, es: List<Event>, e: Event, from: real)
  {
    Accepts(c, w, es, e.key, from, e.at) as real + 1.0 <= c.capacity + c.gain(e.at - from)
  }

  lemma {:induction false} OneMoreCheck(c: Config, w: World, es: List<Event>, e: Event, from: real)
    requires from <= e.at
    ensures Accepts(c, w, Append(es, Cons(e, Nil)), e.key, from, e.at) ==
      Accepts(c, w, es, e.key, from, e.at) + if AnswerTo(c, Run(c, w, es), e) == Allowed then 1 else 0
    decreases es
  {
    match es
    case Nil => assert Accepts(c, Step(c, w, e), Nil, e.key, from, e.at) == 0;
    case Cons(first, rest) => OneMoreCheck(c, Step(c, w, first), rest, e, from);
  }

  /** The ideal bucket of the key is short by no more than the n checks allowed since `from`. */
  predicate Owes(c: Config, ideal: map<string, Bucket>, key: string, from: real, n: nat)
  {
    key in ideal ==>
      var b := ideal[key]; from <= b.last && c.capacity + c.gain(b.last - from) <= b.tokens + n as real
  }

  /** A check that is refused for lack of tokens would not have fitted. */
  lemma RefusedDoesNotFit(c: Config, ideal: map<string, Bucket>, now: real, e: Event, from: real, n: nat)
    requires Valid(c) && AllSane(c, ideal, now) && now <= e.at && Owes(c, ideal, e.key, from, n)
    requires Take(c, ideal, e.key, e.at).1 == Limited
    ensures n as real + 1.0 > c.capacity + c.gain(e.at - from) && from <= e.at
  {
    GainGrows(c, 0.0, 0.0);
    if e.key in ideal { GainAdds(c, ideal[e.key].last - from, e.at - ideal[e.key].last); }
  }

  /** What is owed after a check: since then, if the bucket was full, else since before. */
  lemma OwesNext(c: Config, ideal: map<string, Bucket>, now: real, e: Event, from: real, n: nat) returns (full: bool)
    requires Valid(c) && AllSane(c, ideal, now) && now <= e.at && Owes(c, ideal, e.key, from, n)
    ensures var (next, answer) := Take(c, ideal, e.key, e.at);
      if full then answer == Allowed && Owes(c, next, e.key, e.at, 1)
      else from <= e.at && Owes(c, next, e.key, from, if answer == Allowed then n + 1 else n)
  {
    GainGrows(c, 0.0, 0.0);
    full := Level(c, Bucketed(c, ideal, e.key, e.at), e.at) == c.capacity;
    if e.key in ideal { GainAdds(c, ideal[e.key].last - from, e.at - ideal[e.key].last); }
  }

  /** With n checks allowed before, one more at e would pass the rate of the interval. */
  predicate Over(c: Config, w: World, es: List<Event>, e: Event, from: real, n: nat)
  {
    n as real + Accepts(c, w, es, e.key, from, e.at) as real + 1.0 > c.capacity + c.gain(e.at - from)
  }

  lemma {:induction false} LastIsLatest(now: real, es: List<Event>, e: Event)
    requires Monotone(now, Append(es, Cons(e, Nil)))
    ensures now <= e.at
    decreases es
  {
    if es == Nil {
    } else {
      LastIsLatest(es.head.at, es.tail, e);
    }
  }

  /** The ideal buckets at a time up to now, and the limiter's beside them. */
  ghost predicate InSync(c: Config, w: World, now: real)
  {
    AllSane(c, w.ideal, now) && Related(c, w.limiter.buckets, w.ideal, now)
  }

  predicate Counts(c: Config, w: World, e: Event, key: string)
  {
    e.key == key && AnswerTo(c, w, e) == Allowed
  }

  /** What is owed after a step of the run. */
  lemma OwesAfter(c: Config, w: World, now: real, e: Event, key: string, from: real, n: nat) returns (full: bool)
    requires Valid(c) && c.gain(c.idle) >= c.capacity && now <= e.at && InSync(c, w, now)
    requires Owes(c, w.ideal, key, from, n)
    ensures var next := Step(c, w, e).ideal;
      if full then Counts(c, w, e, key) && Owes(c, next, key, e.at, 1)
      else
        (Counts(c, w, e, key) ==> from <= e.at) &&
        Owes(c, next, key, from, if Counts(c, w, e, key) then n + 1 else n)
  {
    StepKeepsRelated(c, w, e, now);
    full := false;
    if e.key == key && AnswerTo(c, w, e) != TableFull { full := OwesNext(c, w.ideal, now, e, from, n); }
  }

  lemma SyncAfter(c: Config, w: World, now: real, e: Event)
    requires Valid(c) && c.gain(c.idle) >= c.capacity && now <= e.at && InSync(c, w, now)
    ensures InSync(c, Step(c, w, e), e.at)
  {
    StepKeepsRelated(c, w, e, now);
  }

  lemma OverBefore(c: Config, w: World, first: Event, rest: List<Event>, e: Event, from: real, n: nat)
    requires first.at <= e.at && (Counts(c, w, first, e.key) ==> from <= first.at)
    requires Over(c, Step(c, w, first), rest, e, from, if Counts(c, w, first, e.key) then n + 1 else n)
    ensures Over(c, w, Cons(first, rest), e, from, n)
  {
  }

  lemma OverStays(c: Config, w: World, first: Event, rest: List<Event>, e: Event, from: real)
    requires Over(c, Step(c, w, first), rest, e, from, 0)
    ensures Over(c, w, Cons(first, rest), e, from, 0)
  {
  }

  lemma OverAtOnce(c: Config, w: World, now: real, e: Event, from: real, n: nat)
    requires Valid(c) && c.gain(c.idle) >= c.capacity && now <= e.at && InSync(c, w, now)
    requires Owes(c, w.ideal, e.key, from, n) && AnswerTo(c, w, e) == Limited
    ensures Over(c, w, Nil, e, from, n)
  {
    StepKeepsRelated(c, w, e, now);
    RefusedDoesNotFit(c, w.ideal, now, e, from, n);
  }

  /** A check is refused for lack of tokens only if it does not fit some interval: one that starts
    * in this run, or the one that is owed since `from`. */
  lemma {:induction false} SomeIntervalIsOver(
      c: Config, w: World, now: real, es: List<Event>, e: Event, from: real, n: nat)
    returns (at: real, carried: bool)
    requires Valid(c) && c.gain(c.idle) >= c.capacity && Monotone(now, Append(es, Cons(e, Nil))) && InSync(c, w, now)
    requires Owes(c, w.ideal, e.key, from, n) && from <= e.at && AnswerTo(c, Run(c, w, es), e) == Limited
    ensures at <= e.at && if carried then at == from && Over(c, w, es, e, from, n) else Over(c, w, es, e, at, 0)
    decreases es
  {
    if es == Nil {
      OverAtOnce(c, w, now, e, from, n);
      at, carried := from, true;
    } else {
      var first, next := es.head, Step(c, w, es.head);
      SyncAfter(c, w, now, first);
      LastIsLatest(first.at, es.tail, e);
      var full := OwesAfter(c, w, now, first, e.key, from, n);
      var since, before := if full then first.at else from, if full then 0 else n;
      var more := if Counts(c, w, first, e.key) then before + 1 else before;
      at, carried := SomeIntervalIsOver(c, next, first.at, es.tail, e, since, more);
      if carried {
        OverBefore(c, w, first, es.tail, e, since, before);
        carried := !full;
      } else {
        OverStays(c, w, first, es.tail, e, at);
      }
    }
  }

  lemma AllowedFits(c: Config, start: real, es: List<Event>, e: Event, from: real)
    requires Valid(c) && c.gain(c.idle) >= c.capacity && Monotone(start, Append(es, Cons(e, Nil)))
    requires AnswerTo(c, Run(c, Start(start), es), e) == Allowed && from <= e.at
    ensures Fits(c, Start(start), es, e, from)
  {
    OneMoreCheck(c, Start(start), es, e, from);
    AcceptsAreBounded(c, start, Append(es, Cons(e, Nil)), e.key, from, e.at);
  }

  lemma LimitedDoesNotFit(c: Config, start: real, es: List<Event>, e: Event) returns (from: real)
    requires Valid(c) && c.gain(c.idle) >= c.capacity && Monotone(start, Append(es, Cons(e, Nil)))
    requires AnswerTo(c, Run(c, Start(start), es), e) == Limited
    ensures from <= e.at && !Fits(c, Start(start), es, e, from)
  {
    var carried;
    from, carried := SomeIntervalIsOver(c, Start(start), start, es, e, e.at, 0);
  }

  /** After any run, a check is allowed exactly when the table has room for its key and it fits
    * every interval that ends with it, provided an idle bucket has time to fill. */
  lemma AllowedExactlyWhenItFits(c: Config, start: real, es: List<Event>, e: Event)
    requires Valid(c) && c.gain(c.idle) >= c.capacity && Monotone(start, Append(es, Cons(e, Nil)))
    ensures var busy := Busy(c, Served(c, Start(start), es, map[]), e.at);
      AnswerTo(c, Run(c, Start(start), es), e) == Allowed <==>
      (|busy| < c.maxKeys || e.key in busy) && forall from :: from <= e.at ==> Fits(c, Start(start), es, e, from)
  {
    FullExactlyWhenBusy(c, start, es, e);
    var answer := AnswerTo(c, Run(c, Start(start), es), e);
    if answer == Allowed {
      forall from | from <= e.at ensures Fits(c, Start(start), es, e, from) {
        AllowedFits(c, start, es, e, from);
      }
    } else if answer == Limited {
      var from := LimitedDoesNotFit(c, start, es, e);
    }
  }
}
