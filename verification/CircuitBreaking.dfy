/** The circuit breaker of `offchain/crates/resilience`, and the history it stands for. */
module CircuitBreaking {
  import opened Basics

  datatype BreakerState = Closed | Open | HalfOpen

  /** Trip after `threshold` failures in a row; stay open for `cooldown` milliseconds. */
  datatype Settings = Settings(threshold: nat, cooldown: nat)

  datatype Inner = Inner(state: BreakerState, failures: nat, openedAt: nat)

  /** What happens to a breaker, with the clock readings that it takes. */
  datatype Event = Success | Failure(at: nat) | Query(at: nat)

  const FRESH := Inner(Closed, 0, 0)

  function Observe(s: Settings, inner: Inner, now: nat): Inner {
    if inner.state == Open && SaturatingSub(now, inner.openedAt) >= s.cooldown then inner.(state := HalfOpen) else inner
  }

  /** What a 32-bit word holds of a count. */
  function Wrapped(n: nat): (w: nat)
    ensures w <= U32_MAX
  {
    n % (U32_MAX + 1)
  }

  lemma WrappedNext(n: nat)
    ensures Wrapped(Wrapped(n) + 1) == Wrapped(n + 1) && Wrapped(0) == 0
  {
  }

  /** The failure counter is a 32-bit word that wraps. */
  function Fail(s: Settings, inner: Inner, now: nat): Inner {
    var failures := Wrapped(inner.failures + 1);
    if failures >= s.threshold then Inner(Open, failures, now) else inner.(failures := failures)
  }

  function Next(s: Settings, inner: Inner, e: Event): Inner {
    match e
    case Success => Inner(Closed, 0, inner.openedAt)
    case Failure(at) => Fail(s, inner, at)
    case Query(at) => Observe(s, inner, at)
  }

  function After(s: Settings, history: seq<Event>): Inner {
    if history == [] then FRESH
    else Next(s, After(s, history[..|history| - 1]), history[|history| - 1])
  }

  /** Failures since the last success. */
  function FailuresInARow(history: seq<Event>): nat {
    if history == [] then 0
    else
      var earlier := FailuresInARow(history[..|history| - 1]);
      match history[|history| - 1]
      case Success => 0
      case Failure(_) => earlier + 1
      case Query(_) => earlier
  }

  function LastFailure(history: seq<Event>): nat {
    if history == [] then 0
    else match history[|history| - 1]
      case Failure(at) => at
      case _ => LastFailure(history[..|history| - 1])
  }

  /** The last failure, since the last success, at which the wrapped count reached the
      threshold: the moment from which the cooldown runs. */
  function LastTrip(s: Settings, history: seq<Event>): Option<nat> {
    if history == [] then None
    else
      var before := history[..|history| - 1];
      match history[|history| - 1]
      case Success => None
      case Failure(at) => if Wrapped(FailuresInARow(history)) >= s.threshold then Some(at) else LastTrip(s, before)
      case Query(_) => LastTrip(s, before)
  }

  /** Some query since the last trip has seen the cooldown elapsed. */
  predicate SeenCool(s: Settings, history: seq<Event>) {
    history != [] &&
      var before := history[..|history| - 1];
      match history[|history| - 1]
      case Success => false
      case Failure(_) => Wrapped(FailuresInARow(history)) < s.threshold && SeenCool(s, before)
      case Query(at) => SeenCool(s, before) || IsCool(s, LastTrip(s, before), at)
  }

  predicate IsCool(s: Settings, trip: Option<nat>, now: nat) {
    trip.Some? && SaturatingSub(now, trip.value) >= s.cooldown
  }

  /** The breaker as a function of its history alone, with no stored state. */
  function Verdict(s: Settings, history: seq<Event>, now: nat): BreakerState {
    if LastTrip(s, history).None? then Closed
    else if SeenCool(s, history) || IsCool(s, LastTrip(s, history), now) then HalfOpen
    else Open
  }

  /** The same on a clock that never goes back: no query matters. */
  function TimedVerdict(s: Settings, history: seq<Event>, now: nat): BreakerState {
    match LastTrip(s, history)
    case None => Closed
    case Some(at) => if SaturatingSub(now, at) < s.cooldown then Open else HalfOpen
  }

  /** The clock readings in `history` never go back and stay at or below `now`. */
  predicate WellTimed(history: seq<Event>, now: nat) {
    history != [] ==>
      var last := history[|history| - 1];
      && (last.Success? || last.at <= now)
      && WellTimed(history[..|history| - 1], if last.Success? then now else last.at)
  }

  /** The stored fields, read through one more query, are the verdict of the history,
      whatever the clock does. */
  lemma {:induction false} BreakerEqualsItsHistory(s: Settings, history: seq<Event>, now: nat)
    ensures var inner := After(s, history);
      && Observe(s, inner, now).state == Verdict(s, history, now)
      && inner.failures == Wrapped(FailuresInARow(history))
      && (LastTrip(s, history).Some? ==> LastTrip(s, history) == Some(inner.openedAt))
  {
    FieldsOfHistory(s, history);
  }

  lemma {:induction false} FieldsOfHistory(s: Settings, history: seq<Event>)
    ensures var inner, trip := After(s, history), LastTrip(s, history);
      && inner.state == (if trip.None? then Closed else if SeenCool(s, history) then HalfOpen else Open)
      && inner.failures == Wrapped(FailuresInARow(history))
      && (trip.Some? ==> trip == Some(inner.openedAt))
    decreases |history|
  {
    hide Wrapped;
    WrappedNext(0);
    if history != [] {
      WrappedNext(FailuresInARow(history[..|history| - 1]));
      FieldsOfHistory(s, history[..|history| - 1]);
    }
  }

  lemma {:induction false} SeenCoolStays(s: Settings, history: seq<Event>, now: nat)
    requires WellTimed(history, now)
    ensures LastTrip(s, history).Some? ==> LastTrip(s, history).value <= now
    ensures SeenCool(s, history) ==> IsCool(s, LastTrip(s, history), now)
    decreases |history|
  {
    if history != [] {
      hide Wrapped;
      var last := history[|history| - 1];
      SeenCoolStays(s, history[..|history| - 1], if last.Success? then now else last.at);
    }
  }

  /** On a clock that never goes back the verdict is that of the last trip alone. */
  lemma {:induction false} VerdictOnTheClock(s: Settings, history: seq<Event>, now: nat)
    requires WellTimed(history, now)
    ensures Verdict(s, history, now) == TimedVerdict(s, history, now)
  {
    SeenCoolStays(s, history, now);
  }

  /** As long as the counter has not wrapped, the breaker has tripped exactly when the
      failures since the last success reach the threshold, and the last failure is the trip. */
  lemma {:induction false} TripWithoutWrap(s: Settings, history: seq<Event>)
    requires FailuresInARow(history) <= U32_MAX
    ensures var failures := FailuresInARow(history);
      LastTrip(s, history) ==
      if failures == 0 || failures < s.threshold then None else Some(LastFailure(history))
    decreases |history|
  {
    if history != [] && !history[|history| - 1].Success? {
      TripWithoutWrap(s, history[..|history| - 1]);
    }
  }

  /** The cooldown is over when that many milliseconds have passed since the trip; a reading
      before the trip ends no cooldown but an empty one. */
  lemma CooldownInPlainNumbers(s: Settings, at: nat, now: nat)
    ensures IsCool(s, Some(at), now) <==> s.cooldown == 0 || now - at >= s.cooldown
  {
  }

  /** The breaker as its users know it, on a clock that never goes back and up to 2^32 - 1
      failures in a row: closed below the threshold, then open for the cooldown after the last
      failure, then half open. */
  lemma {:induction false} BreakerInPlainNumbers(s: Settings, history: seq<Event>, now: nat)
    requires WellTimed(history, now) && FailuresInARow(history) < 0x1_0000_0000
    ensures Observe(s, After(s, history), now).state ==
      if FailuresInARow(history) == 0 || FailuresInARow(history) < s.threshold then Closed
      else if now - LastFailure(history) < s.cooldown then Open
      else HalfOpen
  {
    BreakerEqualsItsHistory(s, history, now);
    VerdictOnTheClock(s, history, now);
    SeenCoolStays(s, history, now);
    TripWithoutWrap(s, history);
  }

  /** The counter keeps the failures in a row modulo 2^32. */
  lemma {:induction false} CounterWraps(s: Settings, history: seq<Event>, turns: nat, rest: nat)
    requires FailuresInARow(history) == 0x1_0000_0000 * turns + rest && rest < 0x1_0000_0000
    ensures After(s, history).failures == rest
  {
    FieldsOfHistory(s, history);
  }

  /** Past the wrap, a failure restarts the cooldown exactly when the wrapped count has
      reached the threshold again; until then the older trip stands. */
  lemma {:induction false} FailureAfterWrap(s: Settings, history: seq<Event>, at: nat)
    ensures LastTrip(s, history + [Failure(at)]) ==
      if Wrapped(FailuresInARow(history) + 1) >= s.threshold then Some(at) else LastTrip(s, history)
  {
    assert (history + [Failure(at)])[..|history|] == history;
  }

  function WithoutQueries(history: seq<Event>): seq<Event> {
    if history == [] then []
    else
      var last := history[|history| - 1];
      WithoutQueries(history[..|history| - 1]) + if last.Query? then [] else [last]
  }

  /** Asking the breaker changes a later answer exactly when the clock went back: a query saw
      the cooldown over, and the later one reads a time at which it is not. */
  lemma {:induction false} QueriesAreTransparent(s: Settings, history: seq<Event>, now: nat)
    ensures Observe(s, After(s, WithoutQueries(history)), now).state == Observe(s, After(s, history), now).state <==>
      (SeenCool(s, history) ==> IsCool(s, LastTrip(s, history), now))
    ensures WellTimed(history, now) ==>
      Observe(s, After(s, WithoutQueries(history)), now).state == Observe(s, After(s, history), now).state
  {
    WithoutQueriesSame(s, history);
    BreakerEqualsItsHistory(s, history, now);
    BreakerEqualsItsHistory(s, WithoutQueries(history), now);
    if SeenCool(s, history) {
      SeenCoolNeedsTrip(s, history);
    }
    if WellTimed(history, now) {
      SeenCoolStays(s, history, now);
    }
  }

  lemma {:induction false} SeenCoolNeedsTrip(s: Settings, history: seq<Event>)
    requires SeenCool(s, history)
    ensures LastTrip(s, history).Some?
    decreases |history|
  {
    hide Wrapped;
    var before := history[..|history| - 1];
    if SeenCool(s, before) {
      SeenCoolNeedsTrip(s, before);
    }
  }

  lemma {:induction false} WithoutQueriesSame(s: Settings, history: seq<Event>)
    ensures FailuresInARow(WithoutQueries(history)) == FailuresInARow(history)
    ensures LastTrip(s, WithoutQueries(history)) == LastTrip(s, history)
    ensures !SeenCool(s, WithoutQueries(history))
    decreases |history|
  {
    if history != [] {
      var before, last := history[..|history| - 1], history[|history| - 1];
      WithoutQueriesSame(s, before);
      var kept := WithoutQueries(before);
      if last.Query? {
        assert WithoutQueries(history) == kept;
      } else {
        assert WithoutQueries(history) == kept + [last];
        assert (kept + [last])[..|kept|] == kept;
      }
    }
  }

  /** Half open lets every caller through until a result is reported, not only one probe:
      no number of queries moves the stored fields, and each later one is admitted. */
  lemma {:induction false} HalfOpenAdmitsEveryProbe(s: Settings, history: seq<Event>, probes: seq<Event>, later: nat)
    requires After(s, history).state == HalfOpen
    requires forall i :: 0 <= i < |probes| ==> probes[i].Query?
    ensures After(s, history + probes) == After(s, history)
    ensures Observe(s, After(s, history + probes), later).state == HalfOpen
    decreases |probes|
  {
    if probes == [] {
      assert history + probes == history;
    } else {
      var n := |probes| - 1;
      HalfOpenAdmitsEveryProbe(s, history, probes[..n], later);
      assert (history + probes)[..|history + probes| - 1] == history + probes[..n];
    }
  }

  class CircuitBreaker {
    const settings: Settings
    var state: BreakerState
    var failures: nat
    var openedAt: nat
    ghost var history: seq<Event>

    /** The fields are what the history of calls makes them. */
    ghost predicate Valid()
      reads this
    {
      failures <= U32_MAX && Inner(state, failures, openedAt) == After(settings, history)
    }

    constructor (threshold: nat, cooldown: nat)
      requires threshold <= U32_MAX
      ensures Valid() && settings == Settings(threshold, cooldown) && history == []
      ensures state == Closed && failures == 0 && openedAt == 0
    {
      settings := Settings(threshold, cooldown);
      state, failures, openedAt := Closed, 0, 0;
      history := [];
    }

    method State(now: nat) returns (r: BreakerState)
      requires Valid()
      modifies this
      ensures Valid() && history == old(history) + [Query(now)]
      ensures r == Observe(settings, After(settings, old(history)), now).state
      ensures r == Verdict(settings, old(history), now)
      ensures WellTimed(old(history), now) ==> r == TimedVerdict(settings, old(history), now)
    {
      BreakerEqualsItsHistory(settings, history, now);
      if WellTimed(history, now) {
        VerdictOnTheClock(settings, history, now);
      }
      if state == Open && SaturatingSub(now, openedAt) >= settings.cooldown {
        state := HalfOpen;
      }
      AfterAppend(settings, history, Query(now));
      history := history + [Query(now)];
      r := state;
    }

    /** `ok` is false where the source returns `BreakerOpen`. */
    method Acquire(now: nat) returns (ok: bool)
      requires Valid()
      modifies this
      ensures Valid() && history == old(history) + [Query(now)]
      ensures ok == (Observe(settings, After(settings, old(history)), now).state != Open)
      ensures ok == (Verdict(settings, old(history), now) != Open)
      ensures WellTimed(old(history), now) ==> ok == (TimedVerdict(settings, old(history), now) != Open)
    {
      var r := State(now);
      ok := r != Open;
    }

    method OnSuccess()
      requires Valid()
      modifies this
      ensures Valid() && history == old(history) + [Success]
    {
      AfterAppend(settings, history, Success);
      failures := 0;
      state := Closed;
      history := history + [Success];
    }

    method OnFailure(now: nat)
      requires Valid()
      modifies this
      ensures Valid() && history == old(history) + [Failure(now)]
    {
      AfterAppend(settings, history, Failure(now));
      failures := Wrapped(failures + 1);
      if failures >= settings.threshold {
        state := Open;
        openedAt := now;
      }
      history := history + [Failure(now)];
    }
  }

  lemma {:induction false} AfterAppend(s: Settings, history: seq<Event>, e: Event)
    ensures After(s, history + [e]) == Next(s, After(s, history), e)
  {
    assert (history + [e])[..|history|] == history;
  }
}
