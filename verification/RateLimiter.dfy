/** The token-bucket limiter with eviction, against buckets that are never evicted. Time and
  * tokens are reals. */
module RateLimiter {
  import opened Lists

  datatype Bucket = Bucket(tokens: real, last: real)

  /** gain(t) is what refills in time t: the proofs use only that it is linear. */
  datatype Config = Config(capacity: real, refill: real, gain: real -> real, maxKeys: nat, idle: real)

  predicate GainIs(c: Config, elapsed: real)
  {
    c.gain(elapsed) == elapsed * c.refill
  }

  /** The bounds that the constructor forces; a duration is never negative. */
  ghost predicate Valid(c: Config)
  {
    c.capacity >= 1.0 && c.refill > 0.0 && c.maxKeys >= 1 && c.idle >= 0.0 &&
    forall t {:trigger GainIs(c, t)} :: GainIs(c, t)
  }

  datatype State = State(buckets: map<string, Bucket>, lastSweep: real)

  datatype Answer = Allowed | Limited | TableFull

  /** Time since an earlier moment, zero for one to come. */
  function Since(now: real, earlier: real): real
  {
    if now >= earlier then now - earlier else 0.0
  }

  lemma GainAdds(c: Config, a: real, b: real)
    requires Valid(c)
    ensures c.gain(a + b) == c.gain(a) + c.gain(b)
  {
    assert GainIs(c, a + b) && GainIs(c, a) && GainIs(c, b);
  }

  lemma GainGrows(c: Config, a: real, b: real)
    requires Valid(c) && a <= b
    ensures c.gain(a) <= c.gain(b) && (a < b ==> c.gain(a) < c.gain(b)) && c.gain(0.0) == 0.0
  {
    GainAdds(c, a, b - a);
    assert GainIs(c, b - a) && GainIs(c, 0.0);
  }

  function Min(a: real, b: real): real
  {
    if a <= b then a else b
  }

  function Max(a: real, b: real): real
  {
    if a >= b then a else b
  }

  /** The bucket's tokens at time now. */
  function Level(c: Config, b: Bucket, now: real): real
  {
    Min(b.tokens + c.gain(Since(now, b.last)), c.capacity)
  }

  function Retain(c: Config, buckets: map<string, Bucket>, now: real): map<string, Bucket>
  {
    map k | k in buckets && Since(now, buckets[k].last) < c.idle :: buckets[k]
  }

  function Bucketed(c: Config, buckets: map<string, Bucket>, key: string, now: real): Bucket
  {
    if key in buckets then buckets[key] else Bucket(c.capacity, now)
  }

  /** Take one token from the key's bucket, new and full if there is none. */
  function Take(c: Config, buckets: map<string, Bucket>, key: string, now: real): (map<string, Bucket>, Answer)
  {
    var level := Level(c, Bucketed(c, buckets, key, now), now);
    if level >= 1.0 then (buckets[key := Bucket(level - 1.0, now)], Allowed)
    else (buckets[key := Bucket(level, now)], Limited)
  }

  function Swept(c: Config, s: State, now: real): State
  {
    if Since(now, s.lastSweep) >= c.idle then State(Retain(c, s.buckets, now), now) else s
  }

  function MakeRoom(c: Config, buckets: map<string, Bucket>, key: string, now: real): map<string, Bucket>
  {
    if key !in buckets && |buckets| >= c.maxKeys then Retain(c, buckets, now) else buckets
  }

  /** One check of the limiter. */
  function Check(c: Config, s: State, key: string, now: real): (State, Answer)
  {
    var swept := Swept(c, s, now);
    var buckets := MakeRoom(c, swept.buckets, key, now);
    if key !in buckets && |buckets| >= c.maxKeys then (State(buckets, swept.lastSweep), TableFull)
    else
      var (taken, answer) := Take(c, buckets, key, now);
      (State(taken, swept.lastSweep), answer)
  }

  // ---------------------------------------------------------------------------------
  // The limiter as it runs
  // ---------------------------------------------------------------------------------

  class Limiter {
    const c: Config
    var buckets: map<string, Bucket>
    var lastSweep: real

    function Now(): State
      reads this
    {
      State(buckets, lastSweep)
    }

    constructor (capacity: real, refill: real, maxKeys: nat, idle: real, now: real)
      requires idle >= 0.0
      ensures Valid(c) && Now() == State(map[], now)
      ensures c.capacity == Max(capacity, 1.0) && c.refill == Max(refill, 0.0001)
      ensures c.maxKeys == (if maxKeys >= 1 then maxKeys else 1) && c.idle == idle
    {
      var rate := Max(refill, 0.0001);
      c := Config(Max(capacity, 1.0), rate, elapsed => elapsed * rate, if maxKeys >= 1 then maxKeys else 1, idle);
      buckets, lastSweep := map[], now;
    }

    method CheckKey(key: string, now: real) returns (ok: bool)
      modifies this
      ensures Now() == Check(c, old(Now()), key, now).0
      ensures ok <==> Check(c, old(Now()), key, now).1 == Allowed
    {
      if Since(now, lastSweep) >= c.idle {
        buckets := Retain(c, buckets, now);
        lastSweep := now;
      }
      if key !in buckets && |buckets| >= c.maxKeys {
        buckets := Retain(c, buckets, now);
        if |buckets| >= c.maxKeys { return false; }
      }
      ok := TakeToken(key, now);
    }

    method TakeToken(key: string, now: real) returns (ok: bool)
      modifies `buckets
      ensures buckets == Take(c, old(buckets), key, now).0
      ensures ok <==> Take(c, old(buckets), key, now).1 == Allowed
    {
      var b := if key in buckets then buckets[key] else Bucket(c.capacity, now);
      var tokens := Min(b.tokens + c.gain(Since(now, b.last)), c.capacity);
      ok := tokens >= 1.0;
      buckets := buckets[key := Bucket(if ok then tokens - 1.0 else tokens, now)];
    }
  }

  // ---------------------------------------------------------------------------------
  // Runs
  // ---------------------------------------------------------------------------------

  datatype Event = Event(key: string, at: real)

  predicate Monotone(now: real, es: List<Event>)
    decreases es
  {
    es == Nil || (es.head.at >= now && Monotone(es.head.at, es.tail))
  }

  /** The limiter beside buckets that are never evicted; a refusal for a full table does not
    * reach the latter. */
  datatype World = World(limiter: State, ideal: map<string, Bucket>)

  function Start(now: real): World
  {
    World(State(map[], now), map[])
  }

  function Step(c: Config, w: World, e: Event): World
  {
    var (limiter, answer) := Check(c, w.limiter, e.key, e.at);
    World(limiter, if answer == TableFull then w.ideal else Take(c, w.ideal, e.key, e.at).0)
  }

  function AnswerTo(c: Config, w: World, e: Event): Answer
  {
    Check(c, w.limiter, e.key, e.at).1
  }

  function IdealAnswer(c: Config, w: World, e: Event): Answer
  {
    Take(c, w.ideal, e.key, e.at).1
  }

  /** Every answer along the run is a refusal for a full table or the eviction-free answer. */
  predicate Agrees(c: Config, w: World, es: List<Event>)
    decreases es
  {
    es == Nil ||
    ((AnswerTo(c, w, es.head) == TableFull || AnswerTo(c, w, es.head) == IdealAnswer(c, w, es.head)) &&
     Agrees(c, Step(c, w, es.head), es.tail))
  }

  function Run(c: Config, w: World, es: List<Event>): World
    decreases es
  {
    match es
    case Nil => w
    case Cons(e, t) => Run(c, Step(c, w, e), t)
  }

  // ---------------------------------------------------------------------------------
  // The table stays bounded
  // ---------------------------------------------------------------------------------

  lemma RetainShrinks(c: Config, buckets: map<string, Bucket>, now: real)
    ensures |Retain(c, buckets, now)| <= |buckets|
  {
    var kept := Retain(c, buckets, now);
    SubsetSize(kept.Keys, buckets.Keys);
    assert |kept| == |kept.Keys| && |buckets| == |buckets.Keys|;
  }

  lemma {:induction false} SubsetSize<T>(a: set<T>, b: set<T>)
    requires a <= b
    ensures |a| <= |b|
  {
    if a == {} {
    } else {
      var x :| x in a;
      SubsetSize(a - {x}, b - {x});
    }
  }

  lemma CheckIsBounded(c: Config, s: State, key: string, now: real)
    requires Valid(c) && |s.buckets| <= c.maxKeys
    ensures |Check(c, s, key, now).0.buckets| <= c.maxKeys
  {
    RetainShrinks(c, s.buckets, now);
    var buckets := Swept(c, s, now).buckets;
    RetainShrinks(c, buckets, now);
  }

  /** The table never holds more than the configured number of keys, whatever the clock does. */
  lemma {:induction false} TableIsBounded(c: Config, w: World, es: List<Event>)
    requires Valid(c) && |w.limiter.buckets| <= c.maxKeys
    ensures |Run(c, w, es).limiter.buckets| <= c.maxKeys
    decreases es
  {
    if es == Nil {
    } else {
      CheckIsBounded(c, w.limiter, es.head.key, es.head.at);
      TableIsBounded(c, Step(c, w, es.head), es.tail);
    }
  }

  lemma RetainTwice(c: Config, buckets: map<string, Bucket>, now: real)
    ensures Retain(c, Retain(c, buckets, now), now) == Retain(c, buckets, now)
  {
  }

  lemma FullWhenRetainedFill(c: Config, s: State, key: string, now: real)
    ensures Check(c, s, key, now).1 == TableFull <==>
      |Retain(c, s.buckets, now)| >= c.maxKeys && key !in Swept(c, s, now).buckets
  {
    RetainTwice(c, s.buckets, now);
    RetainShrinks(c, s.buckets, now);
  }

  /** When each key was last served along a run, that is, not refused for a full table. */
  function Served(c: Config, w: World, es: List<Event>, seen: map<string, real>): map<string, real>
    decreases es
  {
    match es
    case Nil => seen
    case Cons(e, t) =>
      Served(c, Step(c, w, e), t, if AnswerTo(c, w, e) == TableFull then seen else seen[e.key := e.at])
  }

  /** The keys served within the idle time. */
  function Busy(c: Config, seen: map<string, real>, now: real): set<string>
  {
    set k | k in seen && Since(now, seen[k]) < c.idle
  }

  /** The buckets are stamped with the time of service, and only idle keys have none. */
  ghost predicate Stamped(c: Config, buckets: map<string, Bucket>, seen: map<string, real>, now: real)
  {
    (forall k :: k in buckets ==> k in seen && buckets[k].last == seen[k]) &&
    (forall k :: k in seen ==> seen[k] <= now && (k in buckets || now - seen[k] >= c.idle))
  }

  lemma StampsLater(c: Config, buckets: map<string, Bucket>, seen: map<string, real>, now: real, later: real)
    requires Stamped(c, buckets, seen, now) && now <= later
    ensures Stamped(c, buckets, seen, later) && Stamped(c, Retain(c, buckets, later), seen, later)
  {
  }

  lemma TakeKeepsStamps(c: Config, buckets: map<string, Bucket>, seen: map<string, real>, key: string, now: real)
    requires Stamped(c, buckets, seen, now)
    ensures Stamped(c, Take(c, buckets, key, now).0, seen[key := now], now)
  {
  }

  lemma StepKeepsStamps(c: Config, w: World, seen: map<string, real>, now: real, e: Event)
    requires Stamped(c, w.limiter.buckets, seen, now) && now <= e.at
    ensures Stamped(c, Step(c, w, e).limiter.buckets,
      if AnswerTo(c, w, e) == TableFull then seen else seen[e.key := e.at], e.at)
  {
    var swept := Swept(c, w.limiter, e.at);
    StampsLater(c, w.limiter.buckets, seen, now, e.at);
    StampsLater(c, swept.buckets, seen, e.at, e.at);
    TakeKeepsStamps(c, MakeRoom(c, swept.buckets, e.key, e.at), seen, e.key, e.at);
  }

  lemma RetainedAreBusy(c: Config, buckets: map<string, Bucket>, seen: map<string, real>, now: real, later: real)
    requires Stamped(c, buckets, seen, now) && now <= later
    ensures |Retain(c, buckets, later)| == |Busy(c, seen, later)| && Busy(c, seen, later) <= buckets.Keys
    ensures |Busy(c, seen, later)| >= |buckets| ==> Busy(c, seen, later) == buckets.Keys
  {
    var busy := Busy(c, seen, later);
    assert Retain(c, buckets, later).Keys == busy;
    if busy != buckets.Keys { SmallerSubset(busy, buckets.Keys); }
  }

  lemma SmallerSubset<T>(a: set<T>, b: set<T>)
    requires a < b
    ensures |a| < |b|
  {
    var x :| x in b && x !in a;
    SubsetSize(a, b - {x});
  }

  lemma {:induction false} FullFromStamped(
      c: Config, w: World, seen: map<string, real>, now: real, es: List<Event>, e: Event)
    requires Valid(c) && Monotone(now, Append(es, Cons(e, Nil)))
    requires Stamped(c, w.limiter.buckets, seen, now) && |w.limiter.buckets| <= c.maxKeys
    ensures var busy := Busy(c, Served(c, w, es, seen), e.at);
      AnswerTo(c, Run(c, w, es), e) == TableFull <==> |busy| >= c.maxKeys && e.key !in busy
    decreases es
  {
    match es
    case Nil =>
      FullWhenRetainedFill(c, w.limiter, e.key, e.at);
      RetainedAreBusy(c, w.limiter.buckets, seen, now, e.at);
    case Cons(first, rest) =>
      StepKeepsStamps(c, w, seen, now, first);
      CheckIsBounded(c, w.limiter, first.key, first.at);
      FullFromStamped(c, Step(c, w, first),
        if AnswerTo(c, w, first) == TableFull then seen else seen[first.key := first.at], first.at, rest, e);
  }

  /** After any run, a check is refused for a full table exactly when as many other keys as the
    * table holds were served within the idle time. */
  lemma FullExactlyWhenBusy(c: Config, start: real, es: List<Event>, e: Event)
    requires Valid(c) && Monotone(start, Append(es, Cons(e, Nil)))
    ensures var busy := Busy(c, Served(c, Start(start), es, map[]), e.at);
      AnswerTo(c, Run(c, Start(start), es), e) == TableFull <==> |busy| >= c.maxKeys && e.key !in busy
  {
    FullFromStamped(c, Start(start), map[], start, es, e);
  }

  // ---------------------------------------------------------------------------------
  // Eviction is unobservable
  // ---------------------------------------------------------------------------------

  predicate Sane(c: Config, b: Bucket, now: real)
  {
    0.0 <= b.tokens <= c.capacity && b.last <= now
  }

  ghost predicate AllSane(c: Config, ideal: map<string, Bucket>, now: real)
  {
    forall k :: k in ideal ==> Sane(c, ideal[k], now)
  }

  /** Kept buckets are the ideal ones, and a bucket that was evicted is full by now. */
  ghost predicate Related(c: Config, buckets: map<string, Bucket>, ideal: map<string, Bucket>, now: real)
  {
    (forall k :: k in buckets ==> k in ideal && buckets[k] == ideal[k]) &&
    (forall k :: k in ideal && k !in buckets ==> Level(c, ideal[k], now) == c.capacity)
  }

  lemma LevelGrows(c: Config, b: Bucket, now: real, later: real)
    requires Valid(c) && b.last <= now <= later
    ensures Level(c, b, now) <= Level(c, b, later)
  {
    GainGrows(c, now - b.last, later - b.last);
  }

  lemma IdleIsFull(c: Config, b: Bucket, now: real)
    requires Valid(c) && c.gain(c.idle) >= c.capacity && Sane(c, b, now) && Since(now, b.last) >= c.idle
    ensures Level(c, b, now) == c.capacity
  {
    GainGrows(c, c.idle, now - b.last);
  }

  lemma RelatedLater(c: Config, buckets: map<string, Bucket>, ideal: map<string, Bucket>, now: real, later: real)
    requires Valid(c) && AllSane(c, ideal, now) && Related(c, buckets, ideal, now) && now <= later
    ensures AllSane(c, ideal, later) && Related(c, buckets, ideal, later)
  {
    forall k | k in ideal && k !in buckets ensures Level(c, ideal[k], later) == c.capacity {
      LevelGrows(c, ideal[k], now, later);
    }
  }

  lemma RetainKeepsRelated(c: Config, buckets: map<string, Bucket>, ideal: map<string, Bucket>, now: real)
    requires Valid(c) && c.gain(c.idle) >= c.capacity && AllSane(c, ideal, now) && Related(c, buckets, ideal, now)
    ensures Related(c, Retain(c, buckets, now), ideal, now)
  {
    var kept := Retain(c, buckets, now);
    forall k | k in ideal && k !in kept ensures Level(c, ideal[k], now) == c.capacity {
      if k in buckets { IdleIsFull(c, ideal[k], now); }
    }
  }

  lemma TakeKeepsRelated(c: Config, buckets: map<string, Bucket>, ideal: map<string, Bucket>, key: string, now: real)
    requires Valid(c) && AllSane(c, ideal, now) && Related(c, buckets, ideal, now)
    ensures Take(c, buckets, key, now).1 == Take(c, ideal, key, now).1
    ensures AllSane(c, Take(c, ideal, key, now).0, now)
    ensures Related(c, Take(c, buckets, key, now).0, Take(c, ideal, key, now).0, now)
  {
    GainGrows(c, 0.0, 0.0);
    if key in ideal { GainGrows(c, 0.0, now - ideal[key].last); }
  }

  lemma StepKeepsRelated(c: Config, w: World, e: Event, now: real)
    requires Valid(c) && c.gain(c.idle) >= c.capacity && now <= e.at
    requires AllSane(c, w.ideal, now) && Related(c, w.limiter.buckets, w.ideal, now)
    ensures AnswerTo(c, w, e) == TableFull || AnswerTo(c, w, e) == IdealAnswer(c, w, e)
    ensures var next := Step(c, w, e);
      AllSane(c, next.ideal, e.at) && Related(c, next.limiter.buckets, next.ideal, e.at)
  {
    RelatedLater(c, w.limiter.buckets, w.ideal, now, e.at);
    RetainKeepsRelated(c, w.limiter.buckets, w.ideal, e.at);
    var swept := Swept(c, w.limiter, e.at);
    RetainKeepsRelated(c, swept.buckets, w.ideal, e.at);
    TakeKeepsRelated(c, MakeRoom(c, swept.buckets, e.key, e.at), w.ideal, e.key, e.at);
  }

  lemma {:induction false} RunAgrees(c: Config, w: World, now: real, es: List<Event>)
    requires Valid(c) && c.gain(c.idle) >= c.capacity && Monotone(now, es)
    requires AllSane(c, w.ideal, now) && Related(c, w.limiter.buckets, w.ideal, now)
    ensures Agrees(c, w, es)
    decreases es
  {
    if es == Nil {
    } else {
      StepKeepsRelated(c, w, es.head, now);
      RunAgrees(c, Step(c, w, es.head), es.head.at, es.tail);
    }
  }

  // ---------------------------------------------------------------------------------
  // Accepted checks are bounded
  // ---------------------------------------------------------------------------------

  /** How many checks of key are allowed between the times from and to. */
  function Accepts(c: Config, w: World, es: List<Event>, key: string, from: real, to: real): nat
    decreases es
  {
    match es
    case Nil => 0
    case Cons(e, t) =>
      (if e.key == key && from <= e.at <= to && AnswerTo(c, w, e) == Allowed then 1 else 0) +
      Accepts(c, Step(c, w, e), t, key, from, to)
  }

  /** What an eviction-free bucket can still give out until time to. */
  function Budget(c: Config, ideal: map<string, Bucket>, now: real, key: string, from: real, to: real): real
  {
    if now > to then 0.0
    else if key in ideal && ideal[key].last >= from then ideal[key].tokens + c.gain(to - ideal[key].last)
    else c.capacity + c.gain(to - from)
  }

  lemma BudgetIsSpent(c: Config, ideal: map<string, Bucket>, now: real, e: Event, key: string, from: real, to: real)
    requires Valid(c) && AllSane(c, ideal, now) && now <= e.at && e.key == key && from <= to
    ensures var (next, answer) := Take(c, ideal, key, e.at);
      (if from <= e.at <= to && answer == Allowed then 1.0 else 0.0) + Budget(c, next, e.at, key, from, to) <=
      Budget(c, ideal, now, key, from, to)
  {
    GainGrows(c, 0.0, to - from);
    if key in ideal {
      var last := ideal[key].last;
      GainAdds(c, e.at - last, to - e.at);
      if now <= to { GainGrows(c, 0.0, to - last); }
    }
    if from <= e.at { GainGrows(c, to - e.at, to - from); }
  }

  lemma BudgetIsKept(c: Config, ideal: map<string, Bucket>, now: real, later: real, key: string, from: real, to: real)
    requires Valid(c) && AllSane(c, ideal, now) && now <= later && from <= to
    ensures 0.0 <= Budget(c, ideal, later, key, from, to) <= Budget(c, ideal, now, key, from, to)
  {
    GainGrows(c, 0.0, to - from);
    if key in ideal && now <= to { GainGrows(c, 0.0, to - ideal[key].last); }
  }

  lemma TakeSpendsBudget(c: Config, ideal: map<string, Bucket>, now: real, e: Event, key: string, from: real, to: real)
    requires Valid(c) && AllSane(c, ideal, now) && now <= e.at && from <= to
    ensures var (next, answer) := Take(c, ideal, e.key, e.at);
      (if e.key == key && from <= e.at <= to && answer == Allowed then 1.0 else 0.0) +
      Budget(c, next, e.at, key, from, to) <= Budget(c, ideal, now, key, from, to)
  {
    if e.key == key {
      BudgetIsSpent(c, ideal, now, e, key, from, to);
    } else {
      BudgetIsKept(c, ideal, now, e.at, key, from, to);
    }
  }

  lemma StepSpendsBudget(c: Config, w: World, e: Event, now: real, key: string, from: real, to: real)
    requires Valid(c) && c.gain(c.idle) >= c.capacity && now <= e.at && from <= to
    requires AllSane(c, w.ideal, now) && Related(c, w.limiter.buckets, w.ideal, now)
    ensures (if e.key == key && from <= e.at <= to && AnswerTo(c, w, e) == Allowed then 1.0 else 0.0) +
      Budget(c, Step(c, w, e).ideal, e.at, key, from, to) <= Budget(c, w.ideal, now, key, from, to)
  {
    StepKeepsRelated(c, w, e, now);
    BudgetIsKept(c, w.ideal, now, e.at, key, from, to);
    TakeSpendsBudget(c, w.ideal, now, e, key, from, to);
  }

  lemma {:induction false} AcceptsWithinBudget(
    c: Config, w: World, now: real, es: List<Event>, key: string, from: real, to: real)
    requires Valid(c) && c.gain(c.idle) >= c.capacity && Monotone(now, es) && from <= to
    requires AllSane(c, w.ideal, now) && Related(c, w.limiter.buckets, w.ideal, now)
    ensures Accepts(c, w, es, key, from, to) as real <= Budget(c, w.ideal, now, key, from, to)
    decreases es
  {
    if es.Cons? {
      StepKeepsRelated(c, w, es.head, now);
      StepSpendsBudget(c, w, es.head, now, key, from, to);
      AcceptsWithinBudget(c, Step(c, w, es.head), es.head.at, es.tail, key, from, to);
    } else {
      BudgetIsKept(c, w.ideal, now, now, key, from, to);
    }
  }

  /** In any interval, a key is allowed at most its capacity and what refills in that time. */
  lemma AcceptsAreBounded(c: Config, start: real, es: List<Event>, key: string, from: real, to: real)
    requires Valid(c) && c.gain(c.idle) >= c.capacity && Monotone(start, es) && from <= to
    ensures Accepts(c, Start(start), es, key, from, to) as real <= c.capacity + c.gain(to - from)
  {
    AcceptsWithinBudget(c, Start(start), start, es, key, from, to);
    GainGrows(c, 0.0, to - from);
  }

  // ---------------------------------------------------------------------------------
  // Eviction shows when idle buckets are not yet full
  // ---------------------------------------------------------------------------------

  /** One key, with x tokens in the limiter and y in the ideal bucket at time last. */
  function Solo(key: string, x: real, y: real, last: real, lastSweep: real): World
  {
    World(State(map[key := Bucket(x, last)], lastSweep), map[key := Bucket(y, last)])
  }

  function After(level: real): real
  {
    if level >= 1.0 then level - 1.0 else level
  }

  function LimiterLevel(c: Config, x: real, elapsed: real): real
  {
    if elapsed >= c.idle then c.capacity else Min(x + c.gain(elapsed), c.capacity)
  }

  function IdealLevel(c: Config, y: real, elapsed: real): real
  {
    Min(y + c.gain(elapsed), c.capacity)
  }

  lemma SoloTake(c: Config, key: string, b: Bucket, at: real)
    requires b.last <= at
    ensures var level := IdealLevel(c, b.tokens, at - b.last);
      Take(c, map[key := b], key, at) ==
      (map[key := Bucket(After(level), at)], if level >= 1.0 then Allowed else Limited)
  {
    var level := IdealLevel(c, b.tokens, at - b.last);
    assert map[key := b][key := Bucket(After(level), at)] == map[key := Bucket(After(level), at)];
  }

  lemma FreshTake(c: Config, key: string, at: real)
    requires Valid(c)
    ensures Take(c, map[], key, at) == (map[key := Bucket(c.capacity - 1.0, at)], Allowed)
  {
    GainGrows(c, 0.0, 0.0);
    assert Level(c, Bucket(c.capacity, at), at) == c.capacity;
  }

  lemma SoloSwept(c: Config, key: string, b: Bucket, lastSweep: real, at: real)
    requires Valid(c) && lastSweep <= b.last <= at
    ensures var swept := Swept(c, State(map[key := b], lastSweep), at);
      swept.buckets == (if at - b.last >= c.idle then map[] else map[key := b]) &&
      swept.lastSweep == (if at - lastSweep >= c.idle then at else lastSweep)
  {
    assert Retain(c, map[key := b], at) == if at - b.last >= c.idle then map[] else map[key := b];
  }

  lemma SoloCheckEvicted(c: Config, key: string, b: Bucket, lastSweep: real, at: real)
    requires Valid(c) && lastSweep <= b.last <= at && at - b.last >= c.idle
    ensures Check(c, State(map[key := b], lastSweep), key, at) ==
      (State(map[key := Bucket(c.capacity - 1.0, at)], at), Allowed)
  {
    SoloSwept(c, key, b, lastSweep, at);
    FreshTake(c, key, at);
  }

  lemma SoloCheckKept(c: Config, key: string, b: Bucket, lastSweep: real, at: real)
    requires Valid(c) && lastSweep <= b.last <= at && at - b.last < c.idle
    ensures var taken := Take(c, map[key := b], key, at);
      Check(c, State(map[key := b], lastSweep), key, at) ==
      (State(taken.0, if at - lastSweep >= c.idle then at else lastSweep), taken.1)
  {
    SoloSwept(c, key, b, lastSweep, at);
  }

  lemma SoloCheck(c: Config, key: string, x: real, last: real, lastSweep: real, at: real)
    requires Valid(c) && lastSweep <= last <= at
    ensures var level := LimiterLevel(c, x, at - last);
      Check(c, State(map[key := Bucket(x, last)], lastSweep), key, at) ==
      (State(map[key := Bucket(After(level), at)], if at - lastSweep >= c.idle then at else lastSweep),
       if level >= 1.0 then Allowed else Limited)
  {
    var b := Bucket(x, last);
    if at - last >= c.idle {
      SoloCheckEvicted(c, key, b, lastSweep, at);
    } else {
      SoloCheckKept(c, key, b, lastSweep, at);
      SoloTake(c, key, b, at);
    }
  }

  function At(key: string, times: List<real>): List<Event>
  {
    match times
    case Nil => Nil
    case Cons(at, t) => Cons(Event(key, at), At(key, t))
  }

  predicate Increasing(last: real, times: List<real>)
    decreases times
  {
    times == Nil || (times.head >= last && Increasing(times.head, times.tail))
  }

  /** Whether a single key is answered alike with x tokens evicted when idle, and y never evicted. */
  predicate SoloAgrees(c: Config, x: real, y: real, last: real, times: List<real>)
    decreases times
  {
    times == Nil ||
    (var lx, ly := LimiterLevel(c, x, times.head - last), IdealLevel(c, y, times.head - last);
     (lx >= 1.0 <==> ly >= 1.0) && SoloAgrees(c, After(lx), After(ly), times.head, times.tail))
  }

  lemma {:induction false} SoloRun(
      c: Config, key: string, x: real, y: real, last: real, lastSweep: real, times: List<real>)
    requires Valid(c) && lastSweep <= last && Increasing(last, times)
    ensures Monotone(last, At(key, times))
    ensures Agrees(c, Solo(key, x, y, last, lastSweep), At(key, times)) ==> SoloAgrees(c, x, y, last, times)
    decreases times
  {
    if times == Nil {
    } else {
      var at := times.head;
      SoloCheck(c, key, x, last, lastSweep, at);
      SoloTake(c, key, Bucket(y, last), at);
      SoloRun(c, key, After(LimiterLevel(c, x, at - last)), After(IdealLevel(c, y, at - last)), at,
              if at - lastSweep >= c.idle then at else lastSweep, times.tail);
    }
  }

  /** The time in which the missing part of a token refills. */
  lemma WaitFor(c: Config, tokens: real) returns (wait: real)
    requires Valid(c) && tokens < 1.0
    ensures wait > 0.0 && c.gain(wait) == 1.0 - tokens
  {
    wait := (1.0 - tokens) / c.refill;
    assert GainIs(c, wait);
  }

  /** Fewer ideal tokens than limiter tokens show up sooner or later. */
  lemma {:induction false} Diverge(c: Config, x: real, y: real, last: real) returns (times: List<real>)
    requires Valid(c) && 0.0 <= y < x <= c.capacity
    ensures Increasing(last, times) && !SoloAgrees(c, x, y, last, times)
    decreases y.Floor
  {
    GainGrows(c, 0.0, 0.0);
    var lx := LimiterLevel(c, x, 0.0);
    if lx < 1.0 {
      var wait := WaitFor(c, x);
      times := Cons(last + wait, Nil);
    } else if y < 1.0 {
      times := Cons(last, Nil);
    } else {
      var more := Diverge(c, lx - 1.0, y - 1.0, last);
      times := Cons(last, more);
    }
  }

  lemma EvictThenDiverge(c: Config, z: real, last: real) returns (times: List<real>)
    requires Valid(c) && 0.0 <= z && z + c.gain(c.idle) < c.capacity
    ensures Increasing(last, times) && !SoloAgrees(c, z, z, last, times)
  {
    GainGrows(c, 0.0, c.idle);
    var at := last + c.idle;
    var y := z + c.gain(c.idle);
    if y < 1.0 {
      times := Cons(at, Nil);
    } else {
      var more := Diverge(c, c.capacity - 1.0, y - 1.0, at);
      times := Cons(at, more);
    }
  }

  lemma {:induction false} DrainThenDiverge(c: Config, z: real, last: real) returns (times: List<real>)
    requires Valid(c) && c.gain(c.idle) < c.capacity && 0.0 <= z <= c.capacity
    ensures Increasing(last, times) && !SoloAgrees(c, z, z, last, times)
    decreases z.Floor
  {
    if z + c.gain(c.idle) < c.capacity {
      times := EvictThenDiverge(c, z, last);
    } else if z >= 1.0 {
      GainGrows(c, 0.0, 0.0);
      var more := DrainThenDiverge(c, z - 1.0, last);
      times := Cons(last, more);
    } else {
      var wait := WaitFor(c, z);
      if wait >= c.idle { GainGrows(c, c.idle, wait); }
      var more := EvictThenDiverge(c, 0.0, last + wait);
      times := Cons(last + wait, more);
    }
  }

  lemma StartStep(c: Config, key: string, start: real)
    requires Valid(c)
    ensures Step(c, Start(start), Event(key, start)) == Solo(key, c.capacity - 1.0, c.capacity - 1.0, start, start)
  {
    assert Swept(c, Start(start).limiter, start) == Start(start).limiter;
    FreshTake(c, key, start);
  }

  /** Whether eviction can be seen in some run from the given start. */
  ghost predicate EvictionIsUnobservable(c: Config, start: real)
  {
    forall es :: Monotone(start, es) ==> Agrees(c, Start(start), es)
  }

  lemma EvictionShows(c: Config, start: real) returns (es: List<Event>)
    requires Valid(c) && c.gain(c.idle) < c.capacity
    ensures Monotone(start, es) && !Agrees(c, Start(start), es)
  {
    var key, z := "", c.capacity - 1.0;
    StartStep(c, key, start);
    var times := DrainThenDiverge(c, z, start);
    SoloRun(c, key, z, z, start, start, times);
    es := Cons(Event(key, start), At(key, times));
  }

  /** Eviction is unobservable exactly when an idle bucket has time to fill. */
  lemma UnobservableExactlyWhenIdleFills(c: Config, start: real)
    requires Valid(c)
    ensures EvictionIsUnobservable(c, start) <==> c.gain(c.idle) >= c.capacity
  {
    if c.gain(c.idle) >= c.capacity {
      forall es | Monotone(start, es) ensures Agrees(c, Start(start), es) {
        RunAgrees(c, Start(start), start, es);
      }
    } else {
      var es := EvictionShows(c, start);
    }
  }
}
