/** When the limiter keeps its promise: how many checks a key is allowed in an interval. */
module RateBound {
  import opened Lists
  import opened RateLimiter

  /** How many of the checks at the given times the limiter allows a single key with x tokens. */
  function SoloAccepts(c: Config, x: real, last: real, times: List<real>): nat
    decreases times
  {
    match times
    case Nil => 0
    case Cons(at, t) =>
      var level := LimiterLevel(c, x, at - last);
      (if level >= 1.0 then 1 else 0) + SoloAccepts(c, After(level), at, t)
  }

  function EndOf(last: real, times: List<real>): real
    decreases times
  {
    match times
    case Nil => last
    case Cons(at, t) => EndOf(at, t)
  }

  lemma {:induction false} EndIsLater(last: real, times: List<real>)
    requires Increasing(last, times)
    ensures last <= EndOf(last, times)
    decreases times
  {
    if times == Nil {
    } else {
      EndIsLater(times.head, times.tail);
    }
  }

  lemma SoloStep(c: Config, key: string, x: real, y: real, last: real, lastSweep: real, at: real)
    requires Valid(c) && lastSweep <= last <= at
    ensures var w, e := Solo(key, x, y, last, lastSweep), Event(key, at);
      var lx, ly := LimiterLevel(c, x, at - last), IdealLevel(c, y, at - last);
      Step(c, w, e) == Solo(key, After(lx), After(ly), at, if at - lastSweep >= c.idle then at else lastSweep) &&
      (AnswerTo(c, w, e) == Allowed <==> lx >= 1.0)
  {
    SoloCheck(c, key, x, last, lastSweep, at);
    SoloTake(c, key, Bucket(y, last), at);
  }

  lemma {:induction false} SoloCounts(
      c: Config, key: string, x: real, y: real, last: real, lastSweep: real, times: List<real>, from: real, to: real)
    requires Valid(c) && lastSweep <= last && Increasing(last, times) && from <= last && EndOf(last, times) <= to
    ensures Accepts(c, Solo(key, x, y, last, lastSweep), At(key, times), key, from, to) ==
      SoloAccepts(c, x, last, times)
    ensures Monotone(last, At(key, times))
    decreases times
  {
    if times == Nil {
    } else {
      var at := times.head;
      EndIsLater(at, times.tail);
      SoloStep(c, key, x, y, last, lastSweep, at);
      SoloCounts(c, key, After(LimiterLevel(c, x, at - last)), After(IdealLevel(c, y, at - last)), at,
                 if at - lastSweep >= c.idle then at else lastSweep, times.tail, from, to);
    }
  }

  lemma CheckAgain(c: Config, x: real, at: real, rest: List<real>)
    requires Valid(c) && 1.0 <= x <= c.capacity && c.idle > 0.0
    ensures SoloAccepts(c, x, at, Cons(at, rest)) == 1 + SoloAccepts(c, x - 1.0, at, rest)
  {
    GainGrows(c, 0.0, 0.0);
    assert LimiterLevel(c, x, at - at) == x;
  }

  lemma CheckWhenIdle(c: Config, x: real, last: real, rest: List<real>)
    requires Valid(c)
    ensures SoloAccepts(c, x, last, Cons(last + c.idle, rest)) ==
      1 + SoloAccepts(c, c.capacity - 1.0, last + c.idle, rest)
  {
    assert LimiterLevel(c, x, last + c.idle - last) == c.capacity;
  }

  lemma CheckWhenRefilled(c: Config, x: real, last: real, wait: real, rest: List<real>)
    requires Valid(c) && 0.0 < wait < c.idle && c.gain(wait) == 1.0 - x
    ensures SoloAccepts(c, x, last, Cons(last + wait, rest)) == 1 + SoloAccepts(c, 0.0, last + wait, rest)
  {
    assert LimiterLevel(c, x, last + wait - last) == 1.0;
  }

  /** j checks at one time, then the rest. */
  function Burst(at: real, j: nat, rest: List<real>): List<real>
  {
    if j == 0 then rest else Cons(at, Burst(at, j - 1, rest))
  }

  lemma {:induction false} BurstIsAllowed(c: Config, x: real, y: real, at: real, j: nat, rest: List<real>)
    requires Valid(c) && 0.0 <= y == x - j as real && x <= c.capacity && (j > 0 ==> c.idle > 0.0)
    ensures SoloAccepts(c, x, at, Burst(at, j, rest)) == j + SoloAccepts(c, y, at, rest)
    decreases j
  {
    if j == 0 {
    } else {
      CheckAgain(c, x, at, Burst(at, j - 1, rest));
      BurstIsAllowed(c, x - 1.0, y, at, j - 1, rest);
    }
  }

  lemma {:induction false} BurstTakesNoTime(at: real, j: nat, rest: List<real>)
    requires Increasing(at, rest)
    ensures EndOf(at, Burst(at, j, rest)) == EndOf(at, rest) && Increasing(at, Burst(at, j, rest))
  {
    if j == 0 {
    } else {
      BurstTakesNoTime(at, j - 1, rest);
    }
  }

  /** What one cycle of idling and draining takes beyond what refills meanwhile. */
  function Excess(c: Config): real
  {
    var n := c.gain(c.idle).Floor + 1;
    if n as real <= c.capacity then n as real - c.gain(c.idle) else c.capacity - c.gain(c.idle)
  }

  function Sum(k: nat, d: real): real
  {
    if k == 0 then 0.0 else d + Sum(k - 1, d)
  }

  /** The checks run ahead of what refills by the given amount. */
  predicate Ahead(c: Config, x: real, last: real, times: List<real>, lead: real)
  {
    Increasing(last, times) && SoloAccepts(c, x, last, times) as real >= c.gain(EndOf(last, times) - last) + lead
  }

  /** Checks that were allowed n times up to `at`, before the rest. */
  lemma AheadByMore(
      c: Config, x: real, last: real, times: List<real>, y: real, at: real, rest: List<real>, n: nat, lead: real)
    requires Valid(c) && Ahead(c, y, at, rest, lead) && Increasing(last, times)
    requires SoloAccepts(c, x, last, times) == n + SoloAccepts(c, y, at, rest)
    requires EndOf(last, times) == EndOf(at, rest)
    ensures Ahead(c, x, last, times, n as real - c.gain(at - last) + lead)
  {
    GainAdds(c, at - last, EndOf(at, rest) - at);
  }

  lemma IdleAndBurst(c: Config, x: real, last: real, rest: List<real>, n: nat, y: real)
    requires Valid(c) && 1 <= n && 0.0 <= y == c.capacity - n as real && (n > 1 ==> c.idle > 0.0)
    requires Increasing(last + c.idle, rest)
    ensures var at := last + c.idle; var times := Cons(at, Burst(at, n - 1, rest));
      SoloAccepts(c, x, last, times) == n + SoloAccepts(c, y, at, rest) &&
      EndOf(last, times) == EndOf(at, rest) && Increasing(last, times)
  {
    var at := last + c.idle;
    CheckWhenIdle(c, x, last, Burst(at, n - 1, rest));
    BurstIsAllowed(c, c.capacity - 1.0, y, at, n - 1, rest);
    BurstTakesNoTime(at, n - 1, rest);
  }

  /** Idle, then take n tokens at once. */
  lemma ShortCycle(c: Config, x: real, last: real, rest: List<real>, lead: real, n: nat) returns (times: List<real>)
    requires Valid(c) && n as real - 1.0 <= c.gain(c.idle) && 1 <= n && n as real <= c.capacity
    requires Ahead(c, c.capacity - n as real, last + c.idle, rest, lead)
    ensures Ahead(c, x, last, times, n as real - c.gain(c.idle) + lead)
  {
    var at, y := last + c.idle, c.capacity - n as real;
    GainGrows(c, 0.0, 0.0);
    times := Cons(at, Burst(at, n - 1, rest));
    IdleAndBurst(c, x, last, rest, n, y);
    AheadByMore(c, x, last, times, y, at, rest, n, lead);
  }

  /** Idle, take all but one of n tokens, and the last one when it has refilled. */
  lemma LongCycle(c: Config, x: real, last: real, wait: real, rest: List<real>, lead: real, n: nat)
    returns (times: List<real>)
    requires Valid(c) && n as real - 1.0 <= c.gain(c.idle) < c.capacity < n as real && 2 <= n
    requires 0.0 < wait && c.gain(wait) == n as real - c.capacity
    requires Ahead(c, 0.0, last + c.idle + wait, rest, lead)
    ensures Ahead(c, x, last, times, c.capacity - c.gain(c.idle) + lead)
  {
    var at, y := last + c.idle, c.capacity - n as real + 1.0;
    var more := Cons(at + wait, rest);
    GainGrows(c, 0.0, 0.0);
    if wait >= c.idle { GainGrows(c, c.idle, wait); }
    times := Cons(at, Burst(at, n - 2, more));
    IdleAndBurst(c, x, last, more, n - 1, y);
    CheckWhenRefilled(c, y, at, wait, rest);
    AheadByMore(c, y, at, more, 0.0, at + wait, rest, 1, lead);
    AheadByMore(c, x, last, times, y, at, more, n - 1, 1.0 - c.gain(wait) + lead);
  }

  lemma {:induction false} Overdraw(c: Config, x: real, last: real, k: nat) returns (times: List<real>)
    requires Valid(c) && c.gain(c.idle) < c.capacity
    ensures Ahead(c, x, last, times, Sum(k, Excess(c)))
    decreases k
  {
    GainGrows(c, 0.0, c.idle);
    if k == 0 {
      times := Nil;
    } else {
      var n := c.gain(c.idle).Floor + 1;
      if n as real <= c.capacity {
        var rest := Overdraw(c, c.capacity - n as real, last + c.idle, k - 1);
        times := ShortCycle(c, x, last, rest, Sum(k - 1, Excess(c)), n);
      } else {
        var wait := WaitFor(c, c.capacity - n as real + 1.0);
        var rest := Overdraw(c, 0.0, last + c.idle + wait, k - 1);
        times := LongCycle(c, x, last, wait, rest, Sum(k - 1, Excess(c)), n);
      }
    }
  }

  lemma {:induction false} SumIsProduct(k: nat, d: real)
    ensures Sum(k, d) == k as real * d
  {
    if k == 0 {
    } else {
      SumIsProduct(k - 1, d);
    }
  }

  lemma SumPasses(need: real, d: real) returns (k: nat)
    requires need >= 0.0 && d > 0.0
    ensures Sum(k, d) > need
  {
    var q := need / d;
    k := q.Floor + 1;
    SumIsProduct(k, d);
    assert q * d == need && (k as real - q) * d > 0.0;
  }

  predicate Bounded(c: Config, w: World, es: List<Event>, key: string, from: real, to: real)
  {
    Accepts(c, w, es, key, from, to) as real <= c.capacity + c.gain(to - from)
  }

  /** In every run and interval, a key is allowed at most its capacity and what refills in that time. */
  ghost predicate AlwaysBounded(c: Config, start: real)
  {
    forall es, key, from, to {:trigger Bounded(c, Start(start), es, key, from, to)} ::
      Monotone(start, es) && from <= to ==> Bounded(c, Start(start), es, key, from, to)
  }

  lemma FromTheStart(c: Config, start: real, key: string, times: List<real>)
    requires Valid(c) && Increasing(start, times)
    ensures var es := Cons(Event(key, start), At(key, times));
      Monotone(start, es) &&
      Accepts(c, Start(start), es, key, start, EndOf(start, times)) >= SoloAccepts(c, c.capacity - 1.0, start, times)
  {
    var z := c.capacity - 1.0;
    StartStep(c, key, start);
    SoloCounts(c, key, z, z, start, start, times, start, EndOf(start, times));
  }

  lemma BoundIsPassed(c: Config, start: real) returns (es: List<Event>, key: string, from: real, to: real)
    requires Valid(c) && c.gain(c.idle) < c.capacity
    ensures Monotone(start, es) && from <= to && !Bounded(c, Start(start), es, key, from, to)
  {
    var k := SumPasses(c.capacity, Excess(c));
    var times := Overdraw(c, c.capacity - 1.0, start, k);
    EndIsLater(start, times);
    key, from, to := "", start, EndOf(start, times);
    es := Cons(Event(key, start), At(key, times));
    FromTheStart(c, start, key, times);
  }

  /** That bound holds exactly when an idle bucket has time to fill. */
  lemma BoundedExactlyWhenIdleFills(c: Config, start: real)
    requires Valid(c)
    ensures AlwaysBounded(c, start) <==> c.gain(c.idle) >= c.capacity
  {
    if c.gain(c.idle) >= c.capacity {
      forall es, key, from, to {:trigger Bounded(c, Start(start), es, key, from, to)}
        | Monotone(start, es) && from <= to
        ensures Bounded(c, Start(start), es, key, from, to)
      {
        AcceptsAreBounded(c, start, es, key, from, to);
      }
    } else {
      var _, _, _, _ := BoundIsPassed(c, start);
    }
  }
}
