/** One cycle of `schedule_coin_withdraw`: up to `Interval` checks, one minute of
    sleep after every check that did not return `True`, an early exit on the first
    `True`, and always a closing sleep of `Interval` minutes. The outer
    `while True` repeats cycles for ever; `Run` models a bounded number of them.
    `ask(k)` is what the k-th check of the whole run returns, and a cycle that
    begins at check `start` asks `ask(start)`, `ask(start + 1)`, ... */
module Scheduler {
  import opened Util

  const Interval: nat := 7  // minutes, and the number of checks per cycle
  const CheckFor: nat := 1  // minutes

  /** What the loop does, in order: a call of the decision step, or a `time.sleep`. */
  datatype Event = Check | Sleep(seconds: nat)

  const ShortSleep: Event := Sleep(CheckFor * 60)
  const LongSleep: Event := Sleep(Interval * 60)

  /** `if check_coin_balance_and_withdraw(coin):` takes the branch only for `True`;
      `False` and `None` both fall through. */
  predicate Truthy(r: Option<bool>) {
    r == Some(true)
  }

  /** The `j`-th check of the cycle that begins at check `start` returned `True`. */
  predicate Succeeds(ask: nat -> Option<bool>, start: nat, j: nat) {
    Truthy(ask(start + j))
  }

  /** The inner `for` loop from its `i`-th iteration on. */
  function InnerFrom(ask: nat -> Option<bool>, start: nat, i: nat): seq<Event>
    requires i <= Interval
    decreases Interval - i
  {
    if i == Interval then []
    else if Succeeds(ask, start, i) then [Check]
    else [Check, ShortSleep] + InnerFrom(ask, start, i + 1)
  }

  /** One iteration of the outer loop. */
  function Cycle(ask: nat -> Option<bool>, start: nat): seq<Event> {
    InnerFrom(ask, start, 0) + [LongSleep]
  }

  /** `k` rounds of "check, then sleep a minute". */
  function Repeat(k: nat): (t: seq<Event>)
    ensures |t| == 2 * k
  {
    if k == 0 then [] else [Check, ShortSleep] + Repeat(k - 1)
  }

  /** How many times `e` occurs in the trace. */
  function Count(t: seq<Event>, e: Event): nat {
    if t == [] then 0 else (if t[0] == e then 1 else 0) + Count(t[1..], e)
  }

  lemma {:induction false} CountAppend(s: seq<Event>, t: seq<Event>, e: Event)
    ensures Count(s + t, e) == Count(s, e) + Count(t, e)
  {
    if s == [] {
      assert s + t == t;
    } else {
      assert (s + t)[1..] == s[1..] + t;
      CountAppend(s[1..], t, e);
    }
  }

  lemma CountPair(a: Event, b: Event, e: Event)
    ensures Count([a, b], e) == (if a == e then 1 else 0) + (if b == e then 1 else 0)
  {
    assert [a, b][1..] == [b];
    assert [b][1..] == [];
    assert Count([b], e) == (if b == e then 1 else 0) + Count([], e);
  }

  lemma {:induction false} CountRepeat(k: nat)
    ensures Count(Repeat(k), Check) == k
    ensures Count(Repeat(k), ShortSleep) == k
    ensures Count(Repeat(k), LongSleep) == 0
  {
    if k > 0 {
      CountRepeat(k - 1);
      CountPair(Check, ShortSleep, Check);
      CountPair(Check, ShortSleep, ShortSleep);
      CountPair(Check, ShortSleep, LongSleep);
      CountAppend([Check, ShortSleep], Repeat(k - 1), Check);
      CountAppend([Check, ShortSleep], Repeat(k - 1), ShortSleep);
      CountAppend([Check, ShortSleep], Repeat(k - 1), LongSleep);
    }
  }

  /** A failed check is followed by a one-minute sleep and the next iteration. */
  lemma InnerStep(ask: nat -> Option<bool>, start: nat, i: nat)
    requires i < Interval && !Succeeds(ask, start, i)
    ensures InnerFrom(ask, start, i) == [Check, ShortSleep] + InnerFrom(ask, start, i + 1)
  {
  }

  /** While checks fail, the loop only checks and sleeps a minute. */
  lemma {:induction false} InnerPrefix(ask: nat -> Option<bool>, start: nat, i: nat, j: nat)
    requires i <= j <= Interval
    requires forall k :: i <= k < j ==> !Succeeds(ask, start, k)
    ensures InnerFrom(ask, start, i) == Repeat(j - i) + InnerFrom(ask, start, j)
    decreases j - i
  {
    if i < j {
      var r, rest := Repeat(j - (i + 1)), InnerFrom(ask, start, j);
      calc {
        InnerFrom(ask, start, i);
      == { InnerStep(ask, start, i); }
        [Check, ShortSleep] + InnerFrom(ask, start, i + 1);
      == { InnerPrefix(ask, start, i + 1, j); }
        [Check, ShortSleep] + (r + rest);
      == 
        ([Check, ShortSleep] + r) + rest;
      == { assert Repeat(j - i) == [Check, ShortSleep] + r; }
        Repeat(j - i) + rest;
      }
    } else {
      assert Repeat(j - i) == [];
    }
  }

  /** The loop appends its rounds at the end. */
  lemma {:induction false} RepeatSnoc(k: nat)
    ensures Repeat(k + 1) == Repeat(k) + [Check, ShortSleep]
  {
    if k > 0 {
      RepeatSnoc(k - 1);
      assert [Check, ShortSleep] + (Repeat(k - 1) + [Check, ShortSleep])
          == ([Check, ShortSleep] + Repeat(k - 1)) + [Check, ShortSleep];
    }
  }

  /** A cycle whose first `True` comes at its check `k + 1`: exactly `k + 1`
      checks, `k` one-minute sleeps, then the seven-minute sleep, and nothing else. */
  lemma CycleFirstSuccess(ask: nat -> Option<bool>, start: nat, k: nat)
    requires k < Interval && Succeeds(ask, start, k)
    requires forall j :: 0 <= j < k ==> !Succeeds(ask, start, j)
    ensures Cycle(ask, start) == Repeat(k) + [Check, LongSleep]
    ensures Count(Cycle(ask, start), Check) == k + 1
    ensures Count(Cycle(ask, start), ShortSleep) == k
    ensures Count(Cycle(ask, start), LongSleep) == 1
  {
    InnerPrefix(ask, start, 0, k);
    CountRepeat(k);
    CountPair(Check, LongSleep, Check);
    CountPair(Check, LongSleep, ShortSleep);
    CountPair(Check, LongSleep, LongSleep);
    CountAppend(Repeat(k), [Check, LongSleep], Check);
    CountAppend(Repeat(k), [Check, LongSleep], ShortSleep);
    CountAppend(Repeat(k), [Check, LongSleep], LongSleep);
  }

  /** A cycle with no `True` (every check returned `False` or `None`): seven checks,
      seven one-minute sleeps, then the seven-minute sleep. */
  lemma CycleNoSuccess(ask: nat -> Option<bool>, start: nat)
    requires forall j :: 0 <= j < Interval ==> !Succeeds(ask, start, j)
    ensures Cycle(ask, start) == Repeat(Interval) + [LongSleep]
    ensures Count(Cycle(ask, start), Check) == Interval
    ensures Count(Cycle(ask, start), ShortSleep) == Interval
    ensures Count(Cycle(ask, start), LongSleep) == 1
  {
    InnerPrefix(ask, start, 0, Interval);
    CountRepeat(Interval);
    CountAppend(Repeat(Interval), [LongSleep], Check);
    CountAppend(Repeat(Interval), [LongSleep], ShortSleep);
    CountAppend(Repeat(Interval), [LongSleep], LongSleep);
  }

  /** The first `True` among the cycle's checks from its `i`-th on, if any. */
  function FirstSuccessFrom(ask: nat -> Option<bool>, start: nat, i: nat): (r: Option<nat>)
    requires i <= Interval
    ensures r.Some? ==> i <= r.value < Interval && Succeeds(ask, start, r.value)
    ensures r.Some? ==> forall j :: i <= j < r.value ==> !Succeeds(ask, start, j)
    ensures r.None? ==> forall j :: i <= j < Interval ==> !Succeeds(ask, start, j)
    decreases Interval - i
  {
    if i == Interval then None
    else if Succeeds(ask, start, i) then Some(i)
    else FirstSuccessFrom(ask, start, i + 1)
  }

  /** Every cycle makes between one and seven checks; every check but the last
      failed, and the last succeeded unless it was the seventh; the cycle ends with
      its only seven-minute sleep, and there is one one-minute sleep per failed check. */
  lemma CycleShape(ask: nat -> Option<bool>, start: nat)
    ensures var c := Cycle(ask, start);
            var m := Count(c, Check);
            && 1 <= m <= Interval
            && (forall j :: 0 <= j < m - 1 ==> !Succeeds(ask, start, j))
            && (Succeeds(ask, start, m - 1) || m == Interval)
            && c[|c| - 1] == LongSleep
            && Count(c, LongSleep) == 1
            && Count(c, ShortSleep) == (if Succeeds(ask, start, m - 1) then m - 1 else m)
  {
    match FirstSuccessFrom(ask, start, 0)
    case Some(k) => CycleFirstSuccess(ask, start, k);
    case None => CycleNoSuccess(ask, start);
  }

  lemma CycleCounts(ask: nat -> Option<bool>, start: nat)
    ensures Count(Cycle(ask, start), LongSleep) == 1
    ensures 1 <= Count(Cycle(ask, start), Check) <= Interval
  {
    CycleShape(ask, start);
  }

  /** `None` (the exception handler ran) counts exactly as `False`. */
  lemma NoneIsFailure(ask: nat -> Option<bool>, start: nat)
    ensures Cycle(ask, start)
         == Cycle((k: nat) => if ask(k).None? then Some(false) else ask(k), start)
  {
    var ask' := (k: nat) => if ask(k).None? then Some(false) else ask(k);
    assert forall k: nat :: Truthy(ask(k)) <==> Truthy(ask'(k));
    match FirstSuccessFrom(ask, start, 0)
    case Some(k) =>
      CycleFirstSuccess(ask, start, k);
      CycleFirstSuccess(ask', start, k);
    case None =>
      CycleNoSuccess(ask, start);
      CycleNoSuccess(ask', start);
  }

  /** The outer loop's body as the program runs it, statement by statement. */
  method RunCycle(ask: nat -> Option<bool>, start: nat) returns (trace: seq<Event>)
    ensures trace == Cycle(ask, start)
    ensures 1 <= Count(trace, Check) <= Interval
    ensures trace[|trace| - 1] == LongSleep
  {
    trace := [];
    var i := 0;
    var success := false;
    while i < Interval
      invariant 0 <= i <= Interval
      invariant forall j :: 0 <= j < i ==> !Succeeds(ask, start, j)
      invariant trace == Repeat(i)
      invariant !success
    {
      if Succeeds(ask, start, i) {
        trace := trace + [Check];
        success := true;
        break;
      }
      RepeatSnoc(i);
      trace := trace + [Check, ShortSleep];
      i := i + 1;
    }
    trace := trace + [LongSleep];
    if success {
      CycleFirstSuccess(ask, start, i);
    } else {
      CycleNoSuccess(ask, start);
    }
    CycleShape(ask, start);
  }

  /** `n` iterations of the outer loop, the first starting at check `start`. */
  function Run(ask: nat -> Option<bool>, start: nat, n: nat): seq<Event>
    decreases n
  {
    if n == 0 then []
    else
      var c := Cycle(ask, start);
      c + Run(ask, start + Count(c, Check), n - 1)
  }

  /** Over `n` cycles there are exactly `n` seven-minute sleeps, and between `n`
      and `7 * n` checks. */
  lemma {:induction false} RunBounds(ask: nat -> Option<bool>, start: nat, n: nat)
    ensures Count(Run(ask, start, n), LongSleep) == n
    ensures n <= Count(Run(ask, start, n), Check) <= Interval * n
    decreases n
  {
    if n > 0 {
      var c := Cycle(ask, start);
      var next := start + Count(c, Check);
      var rest := Run(ask, next, n - 1);
      assert Run(ask, start, n) == c + rest;
      CycleCounts(ask, start);
      RunBounds(ask, next, n - 1);
      CountAppend(c, rest, LongSleep);
      CountAppend(c, rest, Check);
      assert Interval * n == Interval * (n - 1) + Interval;
    }
  }
}
