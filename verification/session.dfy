/** The scheduler driven by the real decision step: at the k-th check of a run the
    exchange answers `funding(k)` to the balance request and `withdrawal(k)` to a
    withdrawal request, and the cycle's checks issue the requests of
    `check_coin_balance_and_withdraw` in order. The counting lemmas are stated for
    any sequence of steps and then applied to the decision step. */
module Session {
  import opened Util
  import opened Decision
  import opened Scheduler

  /** Everything a run depends on: the configured destination and coin, the
      exchange's replies indexed by the check of the run they answer, and `float(str)`. */
  datatype Bot = Bot(target: Target, coin: string,
                     funding: nat -> Result<Json>, withdrawal: nat -> Result<Json>,
                     parse: string -> Option<real>)

  /** The balance the k-th check looks up, or `Raised` when the reply or the lookup raised. */
  function BalanceAt(b: Bot, k: nat): Result<real> {
    match b.funding(k)
    case Raised => Raised
    case Ok(assets) => GetCoinBalance(assets, b.coin, b.parse)
  }

  /** The k-th check of the run. */
  function StepAt(b: Bot, k: nat): Step {
    CheckAndWithdraw(b.target, b.coin, b.funding(k), b.withdrawal(k), b.parse)
  }

  /** The steps of a run, by check number. */
  function Steps(b: Bot): nat -> Step {
    (k: nat) => StepAt(b, k)
  }

  /** What each check returns to the scheduler. */
  function Ask(steps: nat -> Step): nat -> Option<bool> {
    (k: nat) => Returned(steps(k).outcome)
  }

  /** The requests of checks `start` to `start + m - 1`, in order. */
  function Issued(steps: nat -> Step, start: nat, m: nat): seq<Request> {
    if m == 0 then [] else Issued(steps, start, m - 1) + steps(start + (m - 1)).requests
  }

  /** The requests one cycle issues. */
  function CycleRequests(steps: nat -> Step, start: nat): seq<Request> {
    Issued(steps, start, Count(Cycle(Ask(steps), start), Check))
  }

  /** How many of the requests go to the withdrawal endpoint. */
  function Withdrawals(rs: seq<Request>): nat {
    if rs == [] then 0
    else Withdrawals(rs[..|rs| - 1]) + (if rs[|rs| - 1].path == WithdrawPath then 1 else 0)
  }

  lemma {:induction false} WithdrawalsAppend(rs: seq<Request>, qs: seq<Request>)
    ensures Withdrawals(rs + qs) == Withdrawals(rs) + Withdrawals(qs)
    decreases |qs|
  {
    if qs == [] {
      assert rs + qs == rs;
    } else {
      assert (rs + qs)[..|rs + qs| - 1] == rs + qs[..|qs| - 1];
      WithdrawalsAppend(rs, qs[..|qs| - 1]);
    }
  }

  /** A step that issues a withdrawal request exactly when it reports a withdrawal,
      and never more than one. */
  predicate WithdrawsOnce(st: Step) {
    && Withdrawals(st.requests) <= 1
    && (Withdrawals(st.requests) == 1 <==> st.outcome.Withdrew?)
  }

  /** The decision step issues at most one withdrawal request, and, when the
      withdrawal reply comes back, it issues one exactly when it returns `True`. */
  lemma StepWithdrawals(b: Bot, k: nat)
    ensures Withdrawals(StepAt(b, k).requests) <= 1
    ensures b.withdrawal(k).Ok? ==> WithdrawsOnce(StepAt(b, k))
  {
    var st := StepAt(b, k);
    DecisionCases(b.target, b.coin, b.funding(k), b.withdrawal(k), b.parse);
    var rs := st.requests;
    assert FundingPath != WithdrawPath;
    if |rs| == 1 {
      assert Withdrawals(rs) == Withdrawals([]) + 0;
    } else {
      assert rs[..1] == [rs[0]];
      assert Withdrawals(rs[..1]) == Withdrawals([]) + 0;
    }
  }

  lemma IssuedWithdrawals(steps: nat -> Step, start: nat, m: nat)
    requires m > 0
    ensures Withdrawals(Issued(steps, start, m))
         == Withdrawals(Issued(steps, start, m - 1)) + Withdrawals(steps(start + (m - 1)).requests)
  {
    WithdrawalsAppend(Issued(steps, start, m - 1), steps(start + (m - 1)).requests);
  }

  /** The `j`-th check of the cycle that begins at check `start` issued no withdrawal request. */
  predicate QuietAt(steps: nat -> Step, start: nat, j: nat) {
    Withdrawals(steps(start + j).requests) == 0
  }

  /** Checks that each issued no withdrawal request together issued none. */
  lemma {:induction false} QuietChecks(steps: nat -> Step, start: nat, m: nat)
    requires forall j :: 0 <= j < m ==> QuietAt(steps, start, j)
    ensures Withdrawals(Issued(steps, start, m)) == 0
  {
    if m == 0 {
      assert Issued(steps, start, m) == [];
    } else {
      QuietChecks(steps, start, m - 1);
      assert QuietAt(steps, start, m - 1);
      IssuedWithdrawals(steps, start, m);
    }
  }

  /** The cycle that begins at check `start` issues at most one withdrawal request,
      and issues one exactly when its last check returned `True`. */
  predicate WithdrawsOncePerCycle(steps: nat -> Step, start: nat) {
    var m := Count(Cycle(Ask(steps), start), Check);
    && Withdrawals(CycleRequests(steps, start)) <= 1
    && (Withdrawals(CycleRequests(steps, start)) == 1 <==> 0 < m && Succeeds(Ask(steps), start, m - 1))
  }

  /** For steps that withdraw once, every cycle withdraws at most once, and exactly
      when its last check returned `True`. */
  lemma CycleWithdrawsAtMostOnce(steps: nat -> Step, start: nat)
    requires forall k :: WithdrawsOnce(steps(k))
    ensures WithdrawsOncePerCycle(steps, start)
  {
    var ask := Ask(steps);
    var m := Count(Cycle(ask, start), Check);
    CycleShape(ask, start);
    forall j | 0 <= j < m - 1
      ensures QuietAt(steps, start, j)
    {
      assert !Succeeds(ask, start, j);
      assert WithdrawsOnce(steps(start + j));
    }
    QuietChecks(steps, start, m - 1);
    assert WithdrawsOnce(steps(start + (m - 1)));
    assert Succeeds(ask, start, m - 1) <==> steps(start + (m - 1)).outcome.Withdrew?;
    IssuedWithdrawals(steps, start, m);
  }

  /** While withdrawal replies come back, a cycle of the script issues at most one
      withdrawal request, and it issues one exactly when its last check returned `True`. */
  lemma AtMostOneWithdrawalPerCycle(b: Bot, start: nat)
    requires forall k :: b.withdrawal(k).Ok?
    ensures WithdrawsOncePerCycle(Steps(b), start)
  {
    DecisionWithdrawsOnce(b);
    CycleWithdrawsAtMostOnce(Steps(b), start);
  }

  /** While withdrawal replies come back, every check of the run withdraws once. */
  lemma DecisionWithdrawsOnce(b: Bot)
    requires forall k :: b.withdrawal(k).Ok?
    ensures forall k :: WithdrawsOnce(Steps(b)(k))
  {
    forall k: nat
      ensures WithdrawsOnce(Steps(b)(k))
    {
      StepWithdrawals(b, k);
    }
  }

  /** A funding reply listing `coin` with a free balance of 5. */
  function FiveOf(coin: string): Result<Json> {
    Ok(JArr([JObj(map["asset" := JStr(coin), "free" := JNum(5.0)])]))
  }

  /** A run in which the balance is always 5 and the reply to the first withdrawal
      request is lost: that call raises after the request left. */
  function LostReplyBot(t: Target, coin: string, parse: string -> Option<real>): Bot {
    Bot(t, coin, (k: nat) => FiveOf(coin), (k: nat) => if k == 0 then Raised else Ok(JNull), parse)
  }

  /** In that run the first check issues a withdrawal request and returns `None`;
      the second issues another and returns `True`. */
  lemma LostReplySteps(t: Target, coin: string, parse: string -> Option<real>)
    ensures var b := LostReplyBot(t, coin, parse);
            && Ask(Steps(b))(0) == None && Withdrawals(Steps(b)(0).requests) == 1
            && Ask(Steps(b))(1) == Some(true) && Withdrawals(Steps(b)(1).requests) == 1
  {
    var b := LostReplyBot(t, coin, parse);
    var rec := JObj(map["asset" := JStr(coin), "free" := JNum(5.0)]);
    assert BalanceAt(b, 0) == Ok(5.0) == BalanceAt(b, 1) by {
      assert b.funding(0) == FiveOf(coin) == Ok(JArr([rec])) == b.funding(1);
      BalanceOfFirstMatch([rec], coin, parse, 0);
      assert FreeOf(rec.fields, parse) == Ok(5.0);
    }
    assert b.withdrawal(0) == Raised && b.withdrawal(1) == Ok(JNull);
    assert Ask(Steps(b))(0) == None && Withdrawals(Steps(b)(0).requests) == 1 by {
      DecisionCases(t, coin, b.funding(0), b.withdrawal(0), parse);
      StepWithdrawals(b, 0);
      assert Steps(b)(0) == StepAt(b, 0);
      assert StepAt(b, 0).outcome.Error?;
    }
    WithdrawStep(b, 1, 5.0);
    StepWithdrawals(b, 1);
  }

  /** When the reply to a withdrawal request is lost, the step returns `None`, the
      loop sleeps a minute and checks again, and the same cycle issues a second
      withdrawal request. */
  lemma LostReplyWithdrawsTwice(t: Target, coin: string, parse: string -> Option<real>)
    ensures var b := LostReplyBot(t, coin, parse);
            && Cycle(Ask(Steps(b)), 0) == [Check, ShortSleep, Check, LongSleep]
            && Withdrawals(CycleRequests(Steps(b), 0)) == 2
  {
    var steps := Steps(LostReplyBot(t, coin, parse));
    var ask := Ask(steps);
    LostReplySteps(t, coin, parse);
    assert Cycle(ask, 0) == [Check, ShortSleep, Check, LongSleep]
        && Count(Cycle(ask, 0), Check) == 2 by {
      assert !Succeeds(ask, 0, 0) && Succeeds(ask, 0, 1);
      CycleFirstSuccess(ask, 0, 1);
      assert Repeat(1) == [Check, ShortSleep];
    }
    IssuedWithdrawals(steps, 0, 2);
    IssuedWithdrawals(steps, 0, 1);
  }

  /** A check that finds a zero balance issues only the balance request and returns `False`. */
  lemma ZeroStep(b: Bot, k: nat)
    requires BalanceAt(b, k) == Ok(0.0)
    ensures Steps(b)(k).requests == [Request("POST", FundingPath, [])]
    ensures Ask(Steps(b))(k) == Some(false)
  {
    DecisionCases(b.target, b.coin, b.funding(k), b.withdrawal(k), b.parse);
  }

  /** A check that finds `x != 0.0` and whose withdrawal reply comes back issues the
      balance request and a withdrawal request carrying `x`, and returns `True`. */
  lemma WithdrawStep(b: Bot, k: nat, x: real)
    requires BalanceAt(b, k) == Ok(x) && x != 0.0
    requires b.withdrawal(k).Ok?
    ensures Steps(b)(k).requests
         == [Request("POST", FundingPath, []),
             Request("POST", WithdrawPath, WithdrawalPayload(b.target, b.coin, x))]
    ensures Ask(Steps(b))(k) == Some(true)
  {
    DecisionCases(b.target, b.coin, b.funding(k), b.withdrawal(k), b.parse);
  }

  /** The trace of the example cycle: balance 0, 0, then `x`, so the checks return
      `False`, `False`, `True` and the cycle sleeps a minute twice, then seven minutes. */
  lemma ZeroZeroCycle(b: Bot, start: nat, x: real)
    requires BalanceAt(b, start) == Ok(0.0)
    requires BalanceAt(b, start + 1) == Ok(0.0)
    requires BalanceAt(b, start + 2) == Ok(x) && x != 0.0
    requires b.withdrawal(start + 2).Ok?
    ensures Cycle(Ask(Steps(b)), start) == [Check, ShortSleep, Check, ShortSleep, Check, LongSleep]
    ensures Count(Cycle(Ask(Steps(b)), start), Check) == 3
  {
    var ask := Ask(Steps(b));
    assert !Succeeds(ask, start, 0) by { ZeroStep(b, start); }
    assert !Succeeds(ask, start, 1) by { ZeroStep(b, start + 1); }
    assert Succeeds(ask, start, 2) by { WithdrawStep(b, start + 2, x); }
    CycleFirstSuccess(ask, start, 2);
    assert Repeat(1) == [Check, ShortSleep];
    assert Repeat(2) == [Check, ShortSleep, Check, ShortSleep];
  }

  /** The example run of a cycle: balance 0, 0, then `x`. The checks return `False`,
      `False`, `True`; the cycle sleeps a minute twice and then seven minutes, and
      issues three balance requests and one withdrawal request carrying `x`. */
  lemma ZeroZeroThenWithdraw(b: Bot, start: nat, x: real)
    requires BalanceAt(b, start) == Ok(0.0)
    requires BalanceAt(b, start + 1) == Ok(0.0)
    requires BalanceAt(b, start + 2) == Ok(x) && x != 0.0
    requires b.withdrawal(start + 2).Ok?
    ensures Cycle(Ask(Steps(b)), start) == [Check, ShortSleep, Check, ShortSleep, Check, LongSleep]
    ensures CycleRequests(Steps(b), start)
         == [Request("POST", FundingPath, []), Request("POST", FundingPath, []),
             Request("POST", FundingPath, []),
             Request("POST", WithdrawPath, WithdrawalPayload(b.target, b.coin, x))]
  {
    var steps := Steps(b);
    var funding := Request("POST", FundingPath, []);
    var withdraw := Request("POST", WithdrawPath, WithdrawalPayload(b.target, b.coin, x));
    ZeroZeroCycle(b, start, x);
    assert Issued(steps, start, 3) == [funding, funding, funding, withdraw] by {
      ZeroStep(b, start);
      ZeroStep(b, start + 1);
      WithdrawStep(b, start + 2, x);
      assert Issued(steps, start, 1) == [funding];
      assert Issued(steps, start, 2) == [funding, funding];
    }
  }
}
