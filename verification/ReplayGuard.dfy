/** The replay guard over whole runs of requests and reopenings. Nonces stand for their hex form.
  * The file may fail to be written, or to be read when the guard is reopened, and neither is
  * noticed. */
module ReplayGuard {
  import opened Wrappers
  import opened Lists

  const MAX_U64: nat := 0xFFFF_FFFF_FFFF_FFFF

  type U64 = n: nat | n <= MAX_U64

  type Nonce = string

  /** Nonce to the second it was last accepted. */
  type Seen = map<Nonce, U64>

  datatype Guard = Guard(ttl: U64, skew: U64)

  /** The table in memory, and the one that opening the file would give. */
  datatype State = State(seen: Seen, file: Seen)

  datatype Outcome = Accepted | Stale | Replayed

  function SaturatingSub(a: U64, b: U64): U64
  {
    if a >= b then a - b else 0
  }

  function SaturatingAdd(a: U64, b: U64): U64
  {
    if a + b <= MAX_U64 then a + b else MAX_U64
  }

  function Floor(g: Guard, now: U64): U64
  {
    SaturatingSub(now, g.ttl)
  }

  predicate Fresh(g: Guard, timestamp: U64, now: U64)
  {
    Floor(g, now) <= timestamp <= SaturatingAdd(now, g.skew)
  }

  function Prune(g: Guard, seen: Seen, now: U64): Seen
  {
    map n | n in seen && seen[n] >= Floor(g, now) :: seen[n]
  }

  function OutcomeOf(g: Guard, s: State, nonce: Nonce, timestamp: U64, now: U64): Outcome
  {
    if !Fresh(g, timestamp, now) then Stale
    else if nonce in Prune(g, s.seen, now) then Replayed
    else Accepted
  }

  /** A replay is refused with memory pruned and the file as it was. */
  function CheckAndRecord(g: Guard, s: State, nonce: Nonce, timestamp: U64, now: U64, saved: bool): State
  {
    match OutcomeOf(g, s, nonce, timestamp, now)
    case Stale => s
    case Replayed => s.(seen := Prune(g, s.seen, now))
    case Accepted =>
      var seen := Prune(g, s.seen, now)[nonce := now];
      State(seen, if saved then seen else s.file)
  }

  class Guarded {
    const g: Guard
    var seen: Seen
    var file: Option<Seen>

    function Now(): State
      reads this
    {
      State(seen, Contents(file))
    }

    constructor Open(stored: Option<Seen>, ttl: U64, skew: U64)
      ensures g == Guard(ttl, skew) && file == stored && Now() == State(Contents(stored), Contents(stored))
    {
      g, file := Guard(ttl, skew), stored;
      seen := if stored.Some? then stored.value else map[];
    }

    /** saved says whether the file can be written. */
    method CheckAndRecordAt(nonce: Nonce, timestamp: U64, now: U64, saved: bool) returns (outcome: Outcome)
      modifies this
      ensures outcome == OutcomeOf(g, old(Now()), nonce, timestamp, now)
      ensures Now() == CheckAndRecord(g, old(Now()), nonce, timestamp, now, saved)
    {
      var floor := SaturatingSub(now, g.ttl);
      if timestamp < floor || timestamp > SaturatingAdd(now, g.skew) { return Stale; }
      seen := Prune(g, seen, now);
      if nonce in seen { return Replayed; }
      seen := seen[nonce := now];
      Persist(saved);
      outcome := Accepted;
    }

    method Persist(saved: bool)
      modifies `file
      ensures file == if saved then Some(seen) else old(file)
    {
      if saved { file := Some(seen); }
    }
  }

  /** A missing, unreadable or malformed file opens as an empty table. */
  function Contents(file: Option<Seen>): Seen
  {
    if file.Some? then file.value else map[]
  }

  // ---------------------------------------------------------------------------------
  // Runs
  // ---------------------------------------------------------------------------------

  /** A blind reopening is one that cannot read the file. */
  datatype Event = Request(nonce: Nonce, timestamp: U64, at: U64, saved: bool) | Reopen | BlindReopen

  predicate Monotone(now: U64, es: List<Event>)
    decreases es
  {
    match es
    case Nil => true
    case Cons(Request(_, _, at, _), t) => now <= at && Monotone(at, t)
    case Cons(_, t) => Monotone(now, t)
  }

  function Step(g: Guard, s: State, e: Event): State
  {
    match e
    case Reopen => State(s.file, s.file)
    case BlindReopen => State(map[], s.file)
    case Request(nonce, timestamp, at, saved) => CheckAndRecord(g, s, nonce, timestamp, at, saved)
  }

  predicate Accepts(g: Guard, s: State, e: Event)
  {
    e.Request? && OutcomeOf(g, s, e.nonce, e.timestamp, e.at) == Accepted
  }

  /** Whether the last acceptance is still missing from the file. */
  function Unsaved(g: Guard, s: State, unsaved: bool, e: Event): bool
  {
    if Accepts(g, s, e) then !e.saved else unsaved
  }

  /** No reopening is blind. */
  predicate Sighted(es: List<Event>)
  {
    es == Nil || (!es.head.BlindReopen? && Sighted(es.tail))
  }

  /** The guard is never reopened while the last acceptance is missing from the file, nor blindly. */
  predicate ReopensSaved(g: Guard, s: State, unsaved: bool, es: List<Event>)
    decreases es
  {
    match es
    case Nil => true
    case Cons(e, t) =>
      !e.BlindReopen? && (e.Reopen? ==> !unsaved) && ReopensSaved(g, Step(g, s, e), Unsaved(g, s, unsaved, e), t)
  }

  datatype Acceptance = Acceptance(nonce: Nonce, timestamp: U64, at: U64)

  /** The requests accepted along a run, in order. */
  function Acceptances(g: Guard, s: State, es: List<Event>): List<Acceptance>
    decreases es
  {
    match es
    case Nil => Nil
    case Cons(e, t) =>
      var more := Acceptances(g, Step(g, s, e), t);
      if Accepts(g, s, e)
      then Cons(Acceptance(e.nonce, e.timestamp, e.at), more)
      else more
  }

  /** No acceptance of nonce in the list within ttl of the given time. */
  predicate AllAfter(g: Guard, nonce: Nonce, at: U64, l: List<Acceptance>)
  {
    l == Nil || ((l.head.nonce == nonce ==> l.head.at > at + g.ttl) && AllAfter(g, nonce, at, l.tail))
  }

  /** No repetition of the request in the list. */
  predicate Absent(nonce: Nonce, timestamp: U64, l: List<Acceptance>)
  {
    l == Nil || ((l.head.nonce, l.head.timestamp) != (nonce, timestamp) && Absent(nonce, timestamp, l.tail))
  }

  predicate AllFresh(g: Guard, l: List<Acceptance>)
  {
    l == Nil || (Fresh(g, l.head.timestamp, l.head.at) && AllFresh(g, l.tail))
  }

  /** Two acceptances of one nonce are more than ttl apart, and a request whose timestamp is not
    * in the future is accepted once. */
  predicate Safe(g: Guard, l: List<Acceptance>)
  {
    l == Nil ||
    (AllAfter(g, l.head.nonce, l.head.at, l.tail) &&
     (l.head.timestamp <= l.head.at ==> Absent(l.head.nonce, l.head.timestamp, l.tail)) &&
     Safe(g, l.tail))
  }

  /** The table remembers an acceptance of nonce at time at, unless ttl has passed since. */
  predicate Remembers(g: Guard, seen: Seen, nonce: Nonce, at: U64, now: U64)
  {
    (nonce in seen && seen[nonce] >= at) || at + g.ttl < now
  }

  /** An acceptance is remembered in memory, and in the file unless it is still unsaved. */
  predicate Kept(g: Guard, s: State, unsaved: bool, nonce: Nonce, at: U64, now: U64)
  {
    Remembers(g, s.seen, nonce, at, now) && (unsaved || Remembers(g, s.file, nonce, at, now))
  }

  function TimeAfter(now: U64, e: Event): U64
  {
    if e.Request? then e.at else now
  }

  lemma StepKeeps(g: Guard, s: State, unsaved: bool, nonce: Nonce, at: U64, now: U64, e: Event)
    requires at <= now <= TimeAfter(now, e) && Kept(g, s, unsaved, nonce, at, now)
    requires !e.BlindReopen? && (e.Reopen? ==> !unsaved)
    ensures Kept(g, Step(g, s, e), Unsaved(g, s, unsaved, e), nonce, at, TimeAfter(now, e))
  {
  }

  /** A saved acceptance stays in the file, whatever happens to later writes. */
  lemma StepKeepsSaved(g: Guard, s: State, nonce: Nonce, at: U64, now: U64, e: Event)
    requires at <= now <= TimeAfter(now, e) && Kept(g, s, false, nonce, at, now) && !e.BlindReopen?
    ensures Kept(g, Step(g, s, e), false, nonce, at, TimeAfter(now, e))
  {
  }

  lemma {:induction false} RunRemembers(
      g: Guard, s: State, unsaved: bool, nonce: Nonce, at: U64, now: U64, es: List<Event>)
    requires at <= now && Kept(g, s, unsaved, nonce, at, now)
    requires Monotone(now, es) && Sighted(es) && (unsaved ==> ReopensSaved(g, s, unsaved, es))
    ensures AllAfter(g, nonce, at, Acceptances(g, s, es))
    decreases es
  {
    if es == Nil {
    } else if unsaved {
      StepKeeps(g, s, unsaved, nonce, at, now, es.head);
      RunRemembers(
        g, Step(g, s, es.head), Unsaved(g, s, unsaved, es.head), nonce, at, TimeAfter(now, es.head), es.tail);
    } else {
      StepKeepsSaved(g, s, nonce, at, now, es.head);
      RunRemembers(g, Step(g, s, es.head), false, nonce, at, TimeAfter(now, es.head), es.tail);
    }
  }

  lemma {:induction false} AcceptancesAreFresh(g: Guard, s: State, es: List<Event>)
    ensures AllFresh(g, Acceptances(g, s, es))
    decreases es
  {
    if es == Nil {
    } else {
      AcceptancesAreFresh(g, Step(g, s, es.head), es.tail);
    }
  }

  lemma {:induction false} NotRepeated(g: Guard, nonce: Nonce, timestamp: U64, at: U64, l: List<Acceptance>)
    requires AllAfter(g, nonce, at, l) && AllFresh(g, l) && (timestamp <= at || at + g.ttl >= MAX_U64)
    ensures Absent(nonce, timestamp, l)
  {
    if l == Nil {
    } else {
      NotRepeated(g, nonce, timestamp, at, l.tail);
    }
  }

  lemma {:induction false} SavedIsSighted(g: Guard, s: State, unsaved: bool, es: List<Event>)
    requires ReopensSaved(g, s, unsaved, es)
    ensures Sighted(es)
    decreases es
  {
    if es == Nil {
    } else {
      SavedIsSighted(g, Step(g, s, es.head), Unsaved(g, s, unsaved, es.head), es.tail);
    }
  }

  /** Whatever the file held at first, every run is safe, across any reopenings that find the last
    * acceptance saved. */
  lemma {:induction false} EveryRunIsSafe(g: Guard, s: State, unsaved: bool, now: U64, es: List<Event>)
    requires Monotone(now, es) && ReopensSaved(g, s, unsaved, es)
    ensures Safe(g, Acceptances(g, s, es))
    decreases es
  {
    if es == Nil {
    } else {
      var e := es.head;
      var next := Step(g, s, e);
      EveryRunIsSafe(g, next, Unsaved(g, s, unsaved, e), TimeAfter(now, e), es.tail);
      if Accepts(g, s, e) {
        SavedIsSighted(g, next, !e.saved, es.tail);
        RunRemembers(g, next, !e.saved, e.nonce, e.at, e.at, es.tail);
        AcceptancesAreFresh(g, next, es.tail);
        if e.timestamp <= e.at { NotRepeated(g, e.nonce, e.timestamp, e.at, Acceptances(g, next, es.tail)); }
      }
    }
  }

  // ---------------------------------------------------------------------------------
  // When a request is refused as a replay
  // ---------------------------------------------------------------------------------

  function Run(g: Guard, s: State, es: List<Event>): State
    decreases es
  {
    match es
    case Nil => s
    case Cons(e, t) => Run(g, Step(g, s, e), t)
  }

  function LastTime(now: U64, es: List<Event>): U64
    decreases es
  {
    match es
    case Nil => now
    case Cons(Request(_, _, at, _), t) => LastTime(at, t)
    case Cons(_, t) => LastTime(now, t)
  }

  /** The list holds an acceptance of nonce at the given time. */
  predicate AcceptedAt(l: List<Acceptance>, nonce: Nonce, at: U64)
  {
    l.Cons? && ((l.head.nonce == nonce && l.head.at == at) || AcceptedAt(l.tail, nonce, at))
  }

  /** What a table remembers was accepted, before or along the run. */
  ghost predicate Justified(seen: Seen, past: iset<(Nonce, U64)>)
  {
    forall n :: n in seen ==> (n, seen[n]) in past
  }

  lemma {:induction false} RunIsJustified(g: Guard, s: State, es: List<Event>, past: iset<(Nonce, U64)>, nonce: Nonce)
    requires Justified(s.seen, past) && Justified(s.file, past)
    ensures var end := Run(g, s, es);
      nonce in end.seen ==>
        (nonce, end.seen[nonce]) in past || AcceptedAt(Acceptances(g, s, es), nonce, end.seen[nonce])
    decreases es
  {
    if es == Nil {
    } else {
      var e, next := es.head, Step(g, s, es.head);
      if Accepts(g, s, e) {
        RunIsJustified(g, next, es.tail, past + iset{(e.nonce, e.at)}, nonce);
      } else {
        RunIsJustified(g, next, es.tail, past, nonce);
      }
    }
  }

  lemma {:induction false} EndRemembers(
      g: Guard, s: State, unsaved: bool, nonce: Nonce, at: U64, now: U64, es: List<Event>)
    requires at <= now && Kept(g, s, unsaved, nonce, at, now)
    requires Monotone(now, es) && ReopensSaved(g, s, unsaved, es)
    ensures Remembers(g, Run(g, s, es).seen, nonce, at, LastTime(now, es)) && now <= LastTime(now, es)
    decreases es
  {
    if es == Nil {
    } else {
      StepKeeps(g, s, unsaved, nonce, at, now, es.head);
      EndRemembers(
        g, Step(g, s, es.head), Unsaved(g, s, unsaved, es.head), nonce, at, TimeAfter(now, es.head), es.tail);
    }
  }

  lemma {:induction false} RunRemembersAll(
      g: Guard, s: State, unsaved: bool, now: U64, es: List<Event>, nonce: Nonce, at: U64)
    requires Monotone(now, es) && ReopensSaved(g, s, unsaved, es) && AcceptedAt(Acceptances(g, s, es), nonce, at)
    ensures Remembers(g, Run(g, s, es).seen, nonce, at, LastTime(now, es)) && at <= LastTime(now, es)
    decreases es
  {
    var e, next := es.head, Step(g, s, es.head);
    if Accepts(g, s, e) && e.nonce == nonce && e.at == at {
      EndRemembers(g, next, !e.saved, nonce, at, at, es.tail);
    } else {
      RunRemembersAll(g, next, Unsaved(g, s, unsaved, e), TimeAfter(now, e), es.tail, nonce, at);
    }
  }

  /** After any run from an empty file, whose reopenings find the last acceptance saved, a fresh
    * request is refused as a replay exactly when its nonce was accepted within the retention
    * window. */
  lemma RefusedExactlyWhenReplayed(g: Guard, es: List<Event>, nonce: Nonce, timestamp: U64, now: U64)
    requires Monotone(0, es) && ReopensSaved(g, State(map[], map[]), false, es)
    requires LastTime(0, es) <= now && Fresh(g, timestamp, now)
    ensures var s := Run(g, State(map[], map[]), es);
      OutcomeOf(g, s, nonce, timestamp, now) == Replayed <==>
      exists at: U64 :: at >= Floor(g, now) && AcceptedAt(Acceptances(g, State(map[], map[]), es), nonce, at)
  {
    var start := State(map[], map[]);
    var s := Run(g, start, es);
    RunIsJustified(g, start, es, iset{}, nonce);
    forall at: U64 | at >= Floor(g, now) && AcceptedAt(Acceptances(g, start, es), nonce, at)
      ensures nonce in Prune(g, s.seen, now)
    {
      RunRemembersAll(g, start, false, 0, es, nonce, at);
    }
  }

  // ---------------------------------------------------------------------------------
  // When an accepted request can be accepted again
  // ---------------------------------------------------------------------------------

  /** Some continuation of the run accepts the same request again, without a blind reopening. */
  ghost predicate CanRecur(g: Guard, s: State, nonce: Nonce, timestamp: U64, now: U64)
  {
    exists es :: Monotone(now, es) && Sighted(es) && !Absent(nonce, timestamp, Acceptances(g, s, es))
  }

  /** Whatever the file still holds at time now, memory does too. */
  ghost predicate Backed(g: Guard, s: State, now: U64)
  {
    forall n :: n in s.file && s.file[n] >= Floor(g, now) ==> n in s.seen && s.seen[n] >= s.file[n]
  }

  lemma StepIsBacked(g: Guard, s: State, now: U64, e: Event)
    requires Backed(g, s, now) && now <= TimeAfter(now, e) && !e.BlindReopen?
    ensures Backed(g, Step(g, s, e), TimeAfter(now, e))
  {
  }

  /** So it is in every state a guard gets into without a blind reopening. */
  lemma {:induction false} RunIsBacked(g: Guard, s: State, now: U64, es: List<Event>)
    requires Backed(g, s, now) && Monotone(now, es) && Sighted(es)
    ensures Backed(g, Run(g, s, es), LastTime(now, es))
    decreases es
  {
    if es == Nil {
    } else {
      StepIsBacked(g, s, now, es.head);
      RunIsBacked(g, Step(g, s, es.head), TimeAfter(now, es.head), es.tail);
    }
  }

  lemma AcceptedOnce(g: Guard, s: State, nonce: Nonce, timestamp: U64, now: U64, at: U64)
    requires now <= at && OutcomeOf(g, s, nonce, timestamp, at) == Accepted
    ensures var es := Cons(Request(nonce, timestamp, at, true), Nil);
      Monotone(now, es) && Sighted(es) && !Absent(nonce, timestamp, Acceptances(g, s, es))
  {
    var again := Request(nonce, timestamp, at, true);
    assert Acceptances(g, Step(g, s, again), Nil) == Nil;
    assert Monotone(at, Nil) && Sighted(Nil);
  }

  lemma RecursAt(g: Guard, s: State, nonce: Nonce, timestamp: U64, now: U64, at: U64)
    requires now <= at && OutcomeOf(g, s, nonce, timestamp, at) == Accepted
    ensures CanRecur(g, s, nonce, timestamp, now)
  {
    AcceptedOnce(g, s, nonce, timestamp, now, at);
  }

  lemma RecursAfter(g: Guard, s: State, nonce: Nonce, timestamp: U64, now: U64, at: U64)
    requires now <= at && OutcomeOf(g, Step(g, s, Reopen), nonce, timestamp, at) == Accepted
    ensures CanRecur(g, s, nonce, timestamp, now)
  {
    var es := Cons(Request(nonce, timestamp, at, true), Nil);
    AcceptedOnce(g, Step(g, s, Reopen), nonce, timestamp, now, at);
    assert Acceptances(g, s, Cons(Reopen, es)) == Acceptances(g, Step(g, s, Reopen), es);
    assert Monotone(now, Cons(Reopen, es)) && Sighted(Cons(Reopen, es));
  }

  /** Since when both memory and file have held the nonce, if they do. */
  function HeldSince(g: Guard, s: State, nonce: Nonce, now: U64): Option<U64>
  {
    if nonce in s.file && s.file[nonce] >= Floor(g, now)
    then Some(if s.file[nonce] <= now then s.file[nonce] else now)
    else None
  }

  lemma NotHeldRecurs(g: Guard, s: State, nonce: Nonce, timestamp: U64, now: U64, saved: bool)
    requires OutcomeOf(g, s, nonce, timestamp, now) == Accepted
    ensures var next := CheckAndRecord(g, s, nonce, timestamp, now, saved);
      var held := HeldSince(g, next, nonce, now);
      held.None? || (timestamp > held.value && held.value + g.ttl < MAX_U64) ==>
        CanRecur(g, next, nonce, timestamp, now)
  {
    var next := CheckAndRecord(g, s, nonce, timestamp, now, saved);
    var held := HeldSince(g, next, nonce, now);
    if held.None? {
      RecursAfter(g, next, nonce, timestamp, now, now);
    } else if timestamp > held.value && held.value + g.ttl < MAX_U64 {
      var at := held.value + g.ttl + 1;
      if held.value == now {
        RecursAt(g, next, nonce, timestamp, now, at);
      } else {
        RecursAfter(g, next, nonce, timestamp, now, at);
      }
    }
  }

  /** In every state, a request just accepted can be accepted again exactly when the file does not
    * hold its nonce, or holds it since before the request's own time and the clock can still pass
    * the retention window. */
  lemma RecursExactlyWhenNotHeld(g: Guard, s: State, nonce: Nonce, timestamp: U64, now: U64, saved: bool)
    requires OutcomeOf(g, s, nonce, timestamp, now) == Accepted
    ensures var next := CheckAndRecord(g, s, nonce, timestamp, now, saved);
      var held := HeldSince(g, next, nonce, now);
      CanRecur(g, next, nonce, timestamp, now) <==>
      held.None? || (timestamp > held.value && held.value + g.ttl < MAX_U64)
  {
    var next := CheckAndRecord(g, s, nonce, timestamp, now, saved);
    var held := HeldSince(g, next, nonce, now);
    NotHeldRecurs(g, s, nonce, timestamp, now, saved);
    if held.Some? && !(timestamp > held.value && held.value + g.ttl < MAX_U64) {
      forall es | Monotone(now, es) && Sighted(es) ensures Absent(nonce, timestamp, Acceptances(g, next, es)) {
        RunRemembers(g, next, false, nonce, held.value, now, es);
        AcceptancesAreFresh(g, next, es);
        NotRepeated(g, nonce, timestamp, held.value, Acceptances(g, next, es));
      }
    }
  }

  /** In a state reached without a blind reopening: exactly when its record was not saved, or its
    * timestamp was in the future and the clock can still pass the retention window. */
  lemma RecursExactlyWhenLostOrFromTheFuture(
      g: Guard, s: State, nonce: Nonce, timestamp: U64, now: U64, saved: bool)
    requires OutcomeOf(g, s, nonce, timestamp, now) == Accepted && Backed(g, s, now)
    ensures CanRecur(g, CheckAndRecord(g, s, nonce, timestamp, now, saved), nonce, timestamp, now) <==>
      !saved || (timestamp > now && now + g.ttl < MAX_U64)
  {
    RecursExactlyWhenNotHeld(g, s, nonce, timestamp, now, saved);
  }

  /** With a blind reopening every accepted request can be accepted again, at once. */
  lemma BlindReopenForgets(g: Guard, s: State, nonce: Nonce, timestamp: U64, now: U64, saved: bool)
    requires OutcomeOf(g, s, nonce, timestamp, now) == Accepted
    ensures var next := CheckAndRecord(g, s, nonce, timestamp, now, saved);
      var es := Cons(BlindReopen, Cons(Request(nonce, timestamp, now, true), Nil));
      Monotone(now, es) && !Absent(nonce, timestamp, Acceptances(g, next, es))
  {
    var next := CheckAndRecord(g, s, nonce, timestamp, now, saved);
    var es := Cons(Request(nonce, timestamp, now, true), Nil);
    AcceptedOnce(g, Step(g, next, BlindReopen), nonce, timestamp, now, now);
    assert Acceptances(g, next, Cons(BlindReopen, es)) == Acceptances(g, Step(g, next, BlindReopen), es);
  }

  // ---------------------------------------------------------------------------------
  // When a request is stale
  // ---------------------------------------------------------------------------------

  /** A request is refused as stale exactly when its timestamp is more than ttl in the past or more
    * than the allowed skew in the future. */
  lemma StaleExactly(g: Guard, s: State, nonce: Nonce, timestamp: U64, now: U64)
    ensures OutcomeOf(g, s, nonce, timestamp, now) == Stale <==> timestamp + g.ttl < now || timestamp > now + g.skew
  {
  }
}
