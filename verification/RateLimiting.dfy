/** The token-bucket rate limiter of `offchain/crates/resilience`. Token amounts are
    reals here: rounding of the 64-bit floats is not modelled. */
module RateLimiting {
  import opened Basics

  datatype Limits = Limits(capacity: real, refillPerSec: real)

  datatype Bucket = Bucket(tokens: real, lastRefill: nat)

  /** A request for `n` tokens made when the clock shows `now` milliseconds. */
  datatype Call = Call(now: nat, n: real)

  function Min(a: real, b: real): real {
    if a <= b then a else b
  }

  /** Tokens flowing in over `millis` milliseconds. */
  function Drip(limits: Limits, millis: int): real {
    millis as real / 1000.0 * limits.refillPerSec
  }

  /** What the bucket holds once refilled at `now`. */
  function Level(limits: Limits, b: Bucket, now: nat): real {
    Min(b.tokens + Drip(limits, SaturatingSub(now, b.lastRefill)), limits.capacity)
  }

  predicate Admits(limits: Limits, b: Bucket, call: Call) {
    Level(limits, b, call.now) >= call.n
  }

  function Next(limits: Limits, b: Bucket, call: Call): Bucket {
    var level := Level(limits, b, call.now);
    Bucket(if level >= call.n then level - call.n else level, call.now)
  }

  /** The bucket created full at `start`, after `calls`. */
  function After(limits: Limits, start: nat, calls: seq<Call>): Bucket {
    if calls == [] then Bucket(limits.capacity, start)
    else Next(limits, After(limits, start, calls[..|calls| - 1]), calls[|calls| - 1])
  }

  predicate Granted(limits: Limits, start: nat, calls: seq<Call>, k: nat)
    requires k < |calls|
  {
    Admits(limits, After(limits, start, calls[..k]), calls[k])
  }

  /** Tokens granted by the calls from `j` (or the first) up to, not including, `k`. */
  function Spent(limits: Limits, start: nat, calls: seq<Call>, j: int, k: nat): real
    requires k <= |calls|
  {
    if k == 0 || k <= j then 0.0
    else Spent(limits, start, calls, j, k - 1) +
         if Granted(limits, start, calls, k - 1) then calls[k - 1].n else 0.0
  }

  /** Milliseconds credited from creation to call `k`: every forward step of the clock
      counts, a backward step counts as none. `k == -1` stands for the creation. */
  function Credited(start: nat, calls: seq<Call>, k: int): nat
    requires -1 <= k < |calls|
  {
    if k == -1 then 0
    else Credited(start, calls, k - 1) +
         SaturatingSub(calls[k].now, if k == 0 then start else calls[k - 1].now)
  }

  predicate Monotone(start: nat, calls: seq<Call>) {
    && (forall i :: 0 <= i < |calls| ==> start <= calls[i].now)
    && (forall i, j :: 0 <= i <= j < |calls| ==> calls[i].now <= calls[j].now)
  }

  /** What a window opened at call `j` still allows at call `k`. */
  function Room(limits: Limits, start: nat, calls: seq<Call>, j: int, k: nat): real
    requires -1 <= j <= k < |calls|
  {
    limits.capacity + Drip(limits, Credited(start, calls, k) - Credited(start, calls, j))
      - Spent(limits, start, calls, j, k)
  }

  lemma DripAdds(limits: Limits, a: int, b: int)
    ensures Drip(limits, a + b) == Drip(limits, a) + Drip(limits, b)
  {
    assert (a + b) as real == a as real + b as real;
  }

  lemma {:induction false} RoomNext(limits: Limits, start: nat, calls: seq<Call>, j: int, k: nat)
    requires -1 <= j <= k && k + 1 < |calls|
    ensures Room(limits, start, calls, j, k + 1) == Room(limits, start, calls, j, k)
      + Drip(limits, SaturatingSub(calls[k + 1].now, calls[k].now))
      - if Granted(limits, start, calls, k) then calls[k].n else 0.0
  {
    var step := SaturatingSub(calls[k + 1].now, calls[k].now);
    assert Credited(start, calls, k + 1) == Credited(start, calls, k) + step;
    DripAdds(limits, Credited(start, calls, k) - Credited(start, calls, j), step);
  }

  lemma {:induction false} LevelNext(limits: Limits, start: nat, calls: seq<Call>, k: nat)
    requires k + 1 < |calls|
    ensures Level(limits, After(limits, start, calls[..k + 1]), calls[k + 1].now) ==
      Min(Level(limits, After(limits, start, calls[..k]), calls[k].now)
          - (if Granted(limits, start, calls, k) then calls[k].n else 0.0)
          + Drip(limits, SaturatingSub(calls[k + 1].now, calls[k].now)), limits.capacity)
  {
    assert calls[..k + 1][..k] == calls[..k];
  }

  /** A window at or above the level stays there, and one at the level stays at it unless
      the capacity cuts the level. */
  lemma {:induction false} RoomStaysAbove(limits: Limits, start: nat, calls: seq<Call>, j: int, k: nat)
    requires -1 <= j <= k && k + 1 < |calls|
    ensures var level := Level(limits, After(limits, start, calls[..k]), calls[k].now);
      var next := Level(limits, After(limits, start, calls[..k + 1]), calls[k + 1].now);
      && (level <= Room(limits, start, calls, j, k) ==> next <= Room(limits, start, calls, j, k + 1))
      && (level == Room(limits, start, calls, j, k) ==>
            next == Min(Room(limits, start, calls, j, k + 1), limits.capacity))
      && next <= limits.capacity
  {
    LevelNext(limits, start, calls, k);
    RoomNext(limits, start, calls, j, k);
    hide Room, Level, After, Drip, Credited, Granted, Spent;
  }

  lemma FullWindow(limits: Limits, start: nat, calls: seq<Call>, k: nat)
    requires k < |calls|
    ensures Room(limits, start, calls, k, k) == limits.capacity
  {
  }

  lemma {:induction false} FirstWindows(limits: Limits, start: nat, calls: seq<Call>)
    requires calls != []
    ensures var drip := Drip(limits, Credited(start, calls, 0));
      && Room(limits, start, calls, 0, 0) == limits.capacity
      && Room(limits, start, calls, -1, 0) == limits.capacity + drip
      && Level(limits, After(limits, start, calls[..0]), calls[0].now) == Min(limits.capacity + drip, limits.capacity)
  {
    assert calls[..0] == [];
    assert Credited(start, calls, 0) == SaturatingSub(calls[0].now, start);
  }

  /** The bucket's level is the tightest of all windows: no window is exceeded, and the
      returned one is exhausted exactly. Holds for every clock and every refill rate. */
  lemma {:induction false} LevelIsTightestWindow(limits: Limits, start: nat, calls: seq<Call>, k: nat)
      returns (tight: int)
    requires k < |calls|
    ensures -1 <= tight <= k
    ensures Level(limits, After(limits, start, calls[..k]), calls[k].now) == Room(limits, start, calls, tight, k)
    ensures forall j :: -1 <= j <= k ==>
      Level(limits, After(limits, start, calls[..k]), calls[k].now) <= Room(limits, start, calls, j, k)
    decreases k
  {
    if k == 0 {
      FirstWindows(limits, start, calls);
      hide Room, Level, After, Drip, Credited;
      tight := if Drip(limits, Credited(start, calls, 0)) <= 0.0 then -1 else 0;
    } else {
      tight := LevelIsTightestWindow(limits, start, calls, k - 1);
      hide Room, Level, After, Drip, Credited, Granted, Spent;
      var level := Level(limits, After(limits, start, calls[..k]), calls[k].now);
      forall j | -1 <= j <= k - 1
        ensures level <= Room(limits, start, calls, j, k)
        ensures j == tight ==> level == Min(Room(limits, start, calls, j, k), limits.capacity)
      {
        RoomStaysAbove(limits, start, calls, j, k - 1);
      }
      FullWindow(limits, start, calls, k);
      if Room(limits, start, calls, tight, k) > limits.capacity {
        tight := k;
      }
    }
  }

  /** A request is granted exactly when every window, back to the creation, has room. */
  lemma {:induction false} GrantedIffEveryWindowHasRoom(limits: Limits, start: nat, calls: seq<Call>, k: nat)
    requires k < |calls|
    ensures Granted(limits, start, calls, k) <==>
      forall j :: -1 <= j <= k ==> calls[k].n <= Room(limits, start, calls, j, k)
  {
    var tight := LevelIsTightestWindow(limits, start, calls, k);
  }

  /** What is over the capacity flows in during `millis` milliseconds. */
  lemma DripInPlainNumbers(limits: Limits, millis: int, x: real)
    ensures x <= limits.capacity + Drip(limits, millis) <==>
      1000.0 * (x - limits.capacity) <= limits.refillPerSec * millis as real
  {
    var r := limits.refillPerSec * millis as real;
    assert 1000.0 * Drip(limits, millis) == r;
  }

  /** The window opened at call `j` has room for the request of call `k`: what was granted
      since plus the request exceeds the capacity by at most the rate times the seconds that
      the clock went forward. */
  predicate RoomFor(limits: Limits, start: nat, calls: seq<Call>, j: int, k: nat)
    requires -1 <= j <= k < |calls|
  {
    1000.0 * (Spent(limits, start, calls, j, k) + calls[k].n - limits.capacity)
      <= limits.refillPerSec * (Credited(start, calls, k) - Credited(start, calls, j)) as real
  }

  /** The bucket law for every clock and every rate. */
  lemma {:induction false} BucketLaw(limits: Limits, start: nat, calls: seq<Call>, k: nat)
    requires k < |calls|
    ensures Granted(limits, start, calls, k) <==> forall j :: -1 <= j <= k ==> RoomFor(limits, start, calls, j, k)
  {
    hide Spent, Granted, Credited, Drip;
    GrantedIffEveryWindowHasRoom(limits, start, calls, k);
    forall j | -1 <= j <= k
      ensures RoomFor(limits, start, calls, j, k) <==> calls[k].n <= Room(limits, start, calls, j, k)
    {
      RoomInPlainNumbers(limits, start, calls, j, k);
    }
  }

  lemma {:induction false} RoomInPlainNumbers(limits: Limits, start: nat, calls: seq<Call>, j: int, k: nat)
    requires -1 <= j <= k < |calls|
    ensures RoomFor(limits, start, calls, j, k) <==> calls[k].n <= Room(limits, start, calls, j, k)
  {
    hide Spent, Credited, Drip;
    var x := Spent(limits, start, calls, j, k) + calls[k].n;
    DripInPlainNumbers(limits, Credited(start, calls, k) - Credited(start, calls, j), x);
  }

  /** A clock that went back credits nothing for the step; one that went forward, the step. */
  lemma {:induction false} CreditedSteps(start: nat, calls: seq<Call>, k: nat)
    requires k < |calls|
    ensures var before := if k == 0 then start else calls[k - 1].now;
      var credit := Credited(start, calls, k) - Credited(start, calls, k - 1);
      && (calls[k].now <= before ==> credit == 0)
      && (calls[k].now >= before ==> credit == calls[k].now - before)
    ensures Credited(start, calls, -1) == 0
  {
  }

  lemma {:induction false} CreditedIsElapsed(start: nat, calls: seq<Call>, k: nat)
    requires k < |calls| && Monotone(start, calls)
    ensures Credited(start, calls, k) == calls[k].now - start
    decreases k
  {
    if k > 0 {
      CreditedIsElapsed(start, calls, k - 1);
    } else {
      assert Credited(start, calls, -1) == 0;
    }
  }

  /** With a monotone clock and a non-negative rate: `n` tokens are granted exactly when, for
      every earlier call and the present one, what was granted since plus `n` exceeds the
      capacity by at most the rate times the seconds since. */
  lemma {:induction false} ExactBucketLaw(limits: Limits, start: nat, calls: seq<Call>, k: nat)
    requires k < |calls| && Monotone(start, calls) && limits.refillPerSec >= 0.0
    ensures Granted(limits, start, calls, k) <==>
      forall j {:trigger calls[j]} :: 0 <= j <= k ==>
        1000.0 * (Spent(limits, start, calls, j, k) + calls[k].n - limits.capacity)
          <= limits.refillPerSec * (calls[k].now - calls[j].now) as real
  {
    hide Room, Drip, Spent, Granted, Credited;
    BucketLaw(limits, start, calls, k);
    CreationWindowIsLoose(limits, start, calls, k);
    assert Granted(limits, start, calls, k) ==> forall j :: 0 <= j <= k ==> RoomFor(limits, start, calls, j, k);
    forall j {:trigger calls[j]} | 0 <= j <= k
      ensures RoomFor(limits, start, calls, j, k) <==>
        1000.0 * (Spent(limits, start, calls, j, k) + calls[k].n - limits.capacity)
          <= limits.refillPerSec * (calls[k].now - calls[j].now) as real
    {
      CreditedIsElapsed(start, calls, j);
      CreditedIsElapsed(start, calls, k);
    }
    if forall j {:trigger calls[j]} :: 0 <= j <= k ==>
        1000.0 * (Spent(limits, start, calls, j, k) + calls[k].n - limits.capacity)
          <= limits.refillPerSec * (calls[k].now - calls[j].now) as real {
      forall j | -1 <= j <= k
        ensures RoomFor(limits, start, calls, j, k)
      {
        var i := if j == -1 then 0 else j;
        assert calls[i] == calls[i];
      }
    }
  }

  lemma {:induction false} SpentFromCreation(limits: Limits, start: nat, calls: seq<Call>, k: nat)
    requires k <= |calls|
    ensures Spent(limits, start, calls, -1, k) == Spent(limits, start, calls, 0, k)
    decreases k
  {
    if k > 0 {
      SpentFromCreation(limits, start, calls, k - 1);
    }
  }

  lemma {:induction false} CreationWindowIsLoose(limits: Limits, start: nat, calls: seq<Call>, k: nat)
    requires k < |calls| && limits.refillPerSec >= 0.0
    ensures RoomFor(limits, start, calls, 0, k) ==> RoomFor(limits, start, calls, -1, k)
  {
    RoomInPlainNumbers(limits, start, calls, 0, k);
    RoomInPlainNumbers(limits, start, calls, -1, k);
    hide RoomFor;
    SpentFromCreation(limits, start, calls, k);
    DripAdds(limits, Credited(start, calls, k) - Credited(start, calls, 0), Credited(start, calls, 0));
    DripSign(limits, Credited(start, calls, 0));
  }

  lemma DripSign(limits: Limits, millis: nat)
    requires limits.refillPerSec >= 0.0
    ensures Drip(limits, millis) >= 0.0
  {
  }

  lemma {:induction false} GrantFits(limits: Limits, start: nat, calls: seq<Call>, j: nat, k: nat)
    requires j <= k < |calls| && Monotone(start, calls) && Granted(limits, start, calls, k)
    ensures Spent(limits, start, calls, j, k) + calls[k].n
      <= limits.capacity + Drip(limits, calls[k].now - calls[j].now)
  {
    hide Drip, Spent, Granted;
    GrantedIffEveryWindowHasRoom(limits, start, calls, k);
    assert calls[k].n <= Room(limits, start, calls, j, k);
    CreditedIsElapsed(start, calls, j);
    CreditedIsElapsed(start, calls, k);
  }

  lemma {:induction false} WindowBoundInDrips(limits: Limits, start: nat, calls: seq<Call>, j: nat, k: nat)
    requires j <= k < |calls| && Monotone(start, calls)
    requires limits.refillPerSec >= 0.0 && limits.capacity >= 0.0
    ensures Spent(limits, start, calls, j, k + 1) <= limits.capacity + Drip(limits, calls[k].now - calls[j].now)
    decreases k
  {
    DripSign(limits, 0);
    if Granted(limits, start, calls, k) {
      GrantFits(limits, start, calls, j, k);
    } else if k > j {
      WindowBoundInDrips(limits, start, calls, j, k - 1);
      DripAdds(limits, calls[k - 1].now - calls[j].now, calls[k].now - calls[k - 1].now);
      DripSign(limits, calls[k].now - calls[k - 1].now);
    } else {
      assert Spent(limits, start, calls, j, k + 1) == 0.0;
    }
  }

  /** Whatever is asked for, what a window of calls is granted exceeds the capacity by at most
      the rate times the window's seconds. */
  lemma {:induction false} WindowBound(limits: Limits, start: nat, calls: seq<Call>, j: nat, k: nat)
    requires j <= k < |calls| && Monotone(start, calls)
    requires limits.refillPerSec >= 0.0 && limits.capacity >= 0.0
    ensures 1000.0 * (Spent(limits, start, calls, j, k + 1) - limits.capacity)
      <= limits.refillPerSec * (calls[k].now - calls[j].now) as real
  {
    hide Spent, Drip, Monotone;
    WindowBoundInDrips(limits, start, calls, j, k);
    DripInPlainNumbers(limits, calls[k].now - calls[j].now, Spent(limits, start, calls, j, k + 1));
  }

  /** The answers to all calls of a run. */
  function Answers(limits: Limits, start: nat, calls: seq<Call>): (answers: seq<bool>)
    ensures |answers| == |calls|
  {
    if calls == [] then []
    else
      var before := calls[..|calls| - 1];
      Answers(limits, start, before) + [Admits(limits, After(limits, start, before), calls[|calls| - 1])]
  }

  /** The elements of `s` whose mark is set. */
  function Kept<T>(s: seq<T>, marks: seq<bool>): seq<T>
    requires |s| == |marks|
  {
    if s == [] then []
    else Kept(s[..|s| - 1], marks[..|s| - 1]) + if marks[|s| - 1] then [s[|s| - 1]] else []
  }

  predicate NoneLater(start: nat, calls: seq<Call>, now: nat) {
    start <= now && forall i :: 0 <= i < |calls| ==> calls[i].now <= now
  }

  /** Refilling in two steps is refilling once. */
  lemma {:induction false} RefillTwice(limits: Limits, b: Bucket, now: nat, later: nat)
    requires limits.refillPerSec >= 0.0 && b.lastRefill <= now <= later
    ensures Level(limits, b, later) == Min(Level(limits, b, now) + Drip(limits, later - now), limits.capacity)
  {
    DripAdds(limits, now - b.lastRefill, later - now);
    DripSign(limits, later - now);
  }

  lemma NextAtLaterTime(limits: Limits, b: Bucket, call: Call, later: nat)
    requires limits.refillPerSec >= 0.0 && b.lastRefill <= call.now <= later
    ensures Level(limits, Next(limits, b, call), later) ==
      Min(Level(limits, b, call.now) - (if Admits(limits, b, call) then call.n else 0.0)
          + Drip(limits, later - call.now), limits.capacity)
  {
  }

  lemma {:induction false} LastRefillBounded(limits: Limits, start: nat, calls: seq<Call>, now: nat)
    requires NoneLater(start, calls, now)
    ensures After(limits, start, calls).lastRefill <= now
  {
    if calls != [] {
      assert calls[|calls| - 1].now <= now;
    }
  }

  lemma {:induction false} NoneLaterKept(start: nat, calls: seq<Call>, marks: seq<bool>, now: nat)
    requires |marks| == |calls| && NoneLater(start, calls, now)
    ensures NoneLater(start, Kept(calls, marks), now)
  {
    if calls != [] {
      assert NoneLater(start, calls[..|calls| - 1], now);
      NoneLaterKept(start, calls[..|calls| - 1], marks[..|calls| - 1], now);
    }
  }

  /** Two buckets level now stay level: after a call both see, or that one skips because
      the other refuses it. */
  lemma LevelBucketsStayLevel(limits: Limits, b: Bucket, c: Bucket, call: Call, both: bool, now: nat)
    requires limits.refillPerSec >= 0.0 && b.lastRefill <= call.now <= now && c.lastRefill <= call.now
    requires Level(limits, b, call.now) == Level(limits, c, call.now)
    requires both || !Admits(limits, b, call)
    ensures Admits(limits, b, call) == Admits(limits, c, call)
    ensures Level(limits, Next(limits, b, call), now) == Level(limits, if both then Next(limits, c, call) else c, now)
  {
    NextAtLaterTime(limits, b, call, now);
    if both {
      NextAtLaterTime(limits, c, call, now);
    } else {
      RefillTwice(limits, c, call.now, now);
    }
  }

  lemma {:induction false} AfterAppend(limits: Limits, start: nat, calls: seq<Call>, call: Call)
    ensures After(limits, start, calls + [call]) == Next(limits, After(limits, start, calls), call)
    ensures Granted(limits, start, calls + [call], |calls|) == Admits(limits, After(limits, start, calls), call)
  {
    assert (calls + [call])[..|calls|] == calls;
  }

  lemma {:induction false} AnswersAppend(limits: Limits, start: nat, calls: seq<Call>, call: Call)
    ensures Answers(limits, start, calls + [call]) ==
      Answers(limits, start, calls) + [Admits(limits, After(limits, start, calls), call)]
  {
    assert (calls + [call])[..|calls|] == calls;
  }

  lemma {:induction false} KeptAppend<T>(s: seq<T>, marks: seq<bool>, x: T, mark: bool)
    requires |s| == |marks|
    ensures Kept(s + [x], marks + [mark]) == Kept(s, marks) + if mark then [x] else []
  {
    assert (s + [x])[..|s|] == s && (marks + [mark])[..|s|] == marks;
  }

  /** Every call that is not marked is refused. */
  predicate DropsOnlyRefused(limits: Limits, start: nat, calls: seq<Call>, marks: seq<bool>)
    requires |marks| == |calls|
  {
    forall i :: 0 <= i < |calls| && !marks[i] ==> !Granted(limits, start, calls, i)
  }

  lemma {:induction false} DropsPrefix(limits: Limits, start: nat, before: seq<Call>, marks: seq<bool>, call: Call,
                                       mark: bool)
    requires |marks| == |before| && DropsOnlyRefused(limits, start, before + [call], marks + [mark])
    ensures DropsOnlyRefused(limits, start, before, marks)
    ensures mark || !Admits(limits, After(limits, start, before), call)
  {
    var calls, n := before + [call], |before|;
    assert mark == (marks + [mark])[n];
    assert Granted(limits, start, calls, n) == Admits(limits, After(limits, start, before), call) by {
      AfterAppend(limits, start, before, call);
    }
    forall i | 0 <= i < n && !marks[i]
      ensures !Granted(limits, start, before, i)
    {
      assert !(marks + [mark])[i] && calls[..i] == before[..i];
    }
  }

  predicate SameForTheRest(limits: Limits, start: nat, calls: seq<Call>, marks: seq<bool>, now: nat)
    requires |marks| == |calls|
  {
    && Answers(limits, start, Kept(calls, marks)) == Kept(Answers(limits, start, calls), marks)
    && Level(limits, After(limits, start, Kept(calls, marks)), now) == Level(limits, After(limits, start, calls), now)
  }

  lemma {:induction false} OneMoreCall(limits: Limits, start: nat, before: seq<Call>, marks: seq<bool>, call: Call,
                                       mark: bool, now: nat)
    requires |marks| == |before| && limits.refillPerSec >= 0.0 && call.now <= now
    requires After(limits, start, before).lastRefill <= call.now
    requires After(limits, start, Kept(before, marks)).lastRefill <= call.now
    requires mark || !Admits(limits, After(limits, start, before), call)
    requires SameForTheRest(limits, start, before, marks, call.now)
    ensures SameForTheRest(limits, start, before + [call], marks + [mark], now)
  {
    hide After, Answers, Level, Admits, Next, Kept;
    var b, c := After(limits, start, before), After(limits, start, Kept(before, marks));
    LevelBucketsStayLevel(limits, b, c, call, mark, now);
    KeptAppend(before, marks, call, mark);
    KeptAppend(Answers(limits, start, before), marks, Admits(limits, b, call), mark);
    AnswersAppend(limits, start, before, call);
    AfterAppend(limits, start, before, call);
    if mark {
      AnswersAppend(limits, start, Kept(before, marks), call);
      AfterAppend(limits, start, Kept(before, marks), call);
    } else {
      assert Kept(before, marks) + [] == Kept(before, marks);
    }
  }

  /** Deleting any refused calls from a run changes no other answer, and no later level. */
  lemma {:induction false} RefusedCallsAreTransparent(limits: Limits, start: nat, calls: seq<Call>, marks: seq<bool>,
                                                      now: nat)
    requires |marks| == |calls| && limits.refillPerSec >= 0.0
    requires Monotone(start, calls) && NoneLater(start, calls, now)
    requires DropsOnlyRefused(limits, start, calls, marks)
    ensures Answers(limits, start, Kept(calls, marks)) == Kept(Answers(limits, start, calls), marks)
    ensures Level(limits, After(limits, start, Kept(calls, marks)), now)
         == Level(limits, After(limits, start, calls), now)
    decreases |calls|
  {
    if calls != [] {
      var n := |calls| - 1;
      var before, call, dropped, mark := calls[..n], calls[n], marks[..n], marks[n];
      assert calls == before + [call] && marks == dropped + [mark];
      assert Monotone(start, before) && NoneLater(start, before, call.now);
      hide Level, After, Answers, Kept, Admits;
      DropsPrefix(limits, start, before, dropped, call, mark);
      RefusedCallsAreTransparent(limits, start, before, dropped, call.now);
      NoneLaterKept(start, before, dropped, call.now);
      LastRefillBounded(limits, start, before, call.now);
      LastRefillBounded(limits, start, Kept(before, dropped), call.now);
      OneMoreCall(limits, start, before, dropped, call, mark, now);
    }
  }

  class RateLimiter {
    const limits: Limits
    var tokens: real
    var lastRefill: nat
    ghost const start: nat
    ghost var calls: seq<Call>

    /** The fields are what the history of calls makes them. */
    ghost predicate Valid()
      reads this
    {
      Bucket(tokens, lastRefill) == After(limits, start, calls)
    }

    constructor (now: nat, capacity: real, refillPerSec: real)
      ensures Valid() && limits == Limits(capacity, refillPerSec) && start == now && calls == []
    {
      limits := Limits(capacity, refillPerSec);
      tokens := capacity;
      lastRefill := now;
      start := now;
      calls := [];
    }

    method TryAcquireN(now: nat, n: real) returns (ok: bool)
      requires Valid()
      modifies this
      ensures Valid() && calls == old(calls) + [Call(now, n)]
      ensures ok == Granted(limits, start, calls, |old(calls)|)
    {
      hide Drip, After;
      ghost var before := Bucket(tokens, lastRefill);
      ghost var call := Call(now, n);
      tokens := Min(tokens + Drip(limits, SaturatingSub(now, lastRefill)), limits.capacity);
      lastRefill := now;
      calls := calls + [call];
      AfterAppend(limits, start, old(calls), call);
      assert tokens == Level(limits, before, now);
      if tokens >= n {
        tokens := tokens - n;
        return true;
      } else {
        return false;
      }
    }

    method TryAcquire(now: nat) returns (ok: bool)
      requires Valid()
      modifies this
      ensures Valid() && calls == old(calls) + [Call(now, 1.0)]
      ensures ok == Granted(limits, start, calls, |old(calls)|)
    {
      ok := TryAcquireN(now, 1.0);
    }
  }
}
