/** The withdrawal decision of main.py: `get_coin_balance` and
    `check_coin_balance_and_withdraw`. The exchange's replies are inputs: the
    funding-asset reply as decoded JSON (or `Raised` when the call or the decoding
    raised), the withdrawal reply likewise. Python's `float(str)` is the parameter
    `parse`. A step reports the requests it issued, in order, and its outcome. */
module Decision {
  import opened Util
  import opened UrlEncode

  /** A decoded JSON value, as `response.json()` hands it to Python. */
  datatype Json =
    | JNull
    | JBool(b: bool)
    | JNum(x: real)
    | JStr(s: string)
    | JArr(items: seq<Json>)
    | JObj(fields: map<string, Json>)

  /** The fixed destination, read once from the environment. */
  datatype Target = Target(address: string, network: string, memo: string)

  const FundingPath: string := "/sapi/v1/asset/get-funding-asset"
  const WithdrawPath: string := "/sapi/v1/capital/withdraw/apply"

  /** One call of `send_signed_request`. */
  datatype Request = Request(verb: string, path: string, payload: Payload)

  /** What one decision step came to: a withdrawal request was answered, the
      balance was zero, or an exception was caught. */
  datatype Outcome = Withdrew(payload: Payload) | Zero | Error

  /** The requests a step issued, in order, and its outcome. */
  datatype Step = Step(requests: seq<Request>, outcome: Outcome)

  /** The Python value `check_coin_balance_and_withdraw` returns for an outcome:
      `True`, `False`, or `None` when the exception handler ran. */
  function Returned(o: Outcome): (r: Option<bool>)
    ensures r == Some(true) <==> o.Withdrew?
    ensures r == Some(false) <==> o.Zero?
    ensures r.None? <==> o.Error?
  {
    match o
    case Withdrew(_) => Some(true)
    case Zero => Some(false)
    case Error => None
  }

  /** `float(x)` on a decoded JSON value: strings go through `parse`, numbers and
      booleans convert, anything else raises. */
  function ToFloat(j: Json, parse: string -> Option<real>): Result<real> {
    match j
    case JStr(s) => (match parse(s) case Some(x) => Ok(x) case None => Raised)
    case JNum(x) => Ok(x)
    case JBool(b) => Ok(if b then 1.0 else 0.0)
    case _ => Raised
  }

  /** A funding-asset record whose `asset` is exactly `name`. */
  predicate IsRecordFor(j: Json, name: string) {
    j.JObj? && "asset" in j.fields && j.fields["asset"] == JStr(name)
  }

  /** `float(coin["free"])` on the matched record; a missing key raises. */
  function FreeOf(fields: map<string, Json>, parse: string -> Option<real>): Result<real> {
    if "free" in fields then ToFloat(fields["free"], parse) else Raised
  }

  /** The lazy scan of `next(...)` over a list: stops at the first match, and
      `.get` on an element that is not an object raises. */
  function Scan(items: seq<Json>, name: string, parse: string -> Option<real>): (r: Result<real>)
    ensures r.Ok? && r.value != 0.0 ==>
              exists i :: 0 <= i < |items| && IsRecordFor(items[i], name)
                          && r == FreeOf(items[i].fields, parse)
    ensures r.Raised? ==>
              exists i :: 0 <= i < |items| && (!items[i].JObj? || IsRecordFor(items[i], name))
  {
    if items == [] then Ok(0.0)
    else if !items[0].JObj? then Raised
    else if IsRecordFor(items[0], name) then FreeOf(items[0].fields, parse)
    else
      var r := Scan(items[1..], name, parse);
      assert forall i :: 0 <= i < |items| - 1 ==> items[1..][i] == items[i + 1];
      r
  }

  /** `get_coin_balance(assets, name)`. Iterating an object yields its keys and
      iterating a string its characters; both are strings, which have no `.get`,
      so either raises unless empty. Other values are not iterable. */
  function GetCoinBalance(assets: Json, name: string, parse: string -> Option<real>): (r: Result<real>)
    ensures r.Ok? && r.value != 0.0 ==>
              assets.JArr? && exists i :: 0 <= i < |assets.items| && IsRecordFor(assets.items[i], name)
                                          && r == FreeOf(assets.items[i].fields, parse)
  {
    match assets
    case JArr(items) => Scan(items, name, parse)
    case JObj(fields) => if fields == map[] then Ok(0.0) else Raised
    case JStr(s) => if s == [] then Ok(0.0) else Raised
    case _ => Raised
  }

  /** The balance is the `free` of the first record for `name` when every earlier
      element is a record for another asset. */
  lemma {:induction false} BalanceOfFirstMatch(items: seq<Json>, name: string,
                                               parse: string -> Option<real>, i: nat)
    requires i < |items| && IsRecordFor(items[i], name)
    requires forall k :: 0 <= k < i ==> items[k].JObj? && !IsRecordFor(items[k], name)
    ensures GetCoinBalance(JArr(items), name, parse) == FreeOf(items[i].fields, parse)
  {
    if i > 0 {
      BalanceOfFirstMatch(items[1..], name, parse, i - 1);
    }
  }

  /** With no record for `name`, and nothing but records, the balance is 0.0. */
  lemma {:induction false} BalanceAbsent(items: seq<Json>, name: string,
                                         parse: string -> Option<real>)
    requires forall k :: 0 <= k < |items| ==> items[k].JObj? && !IsRecordFor(items[k], name)
    ensures GetCoinBalance(JArr(items), name, parse) == Ok(0.0)
  {
    if items != [] {
      BalanceAbsent(items[1..], name, parse);
    }
  }

  /** An element that is not an object, reached before any match, makes the lookup raise. */
  lemma {:induction false} BalanceNonRecordRaises(items: seq<Json>, name: string,
                                                  parse: string -> Option<real>, i: nat)
    requires i < |items| && !items[i].JObj?
    requires forall k :: 0 <= k < i ==> items[k].JObj? && !IsRecordFor(items[k], name)
    ensures GetCoinBalance(JArr(items), name, parse) == Raised
  {
    if i > 0 {
      BalanceNonRecordRaises(items[1..], name, parse, i - 1);
    }
  }

  /** A record for another asset never affects the result, wherever it sits. */
  lemma {:induction false} NonMatchingRecordIrrelevant(xs: seq<Json>, r: Json, ys: seq<Json>,
                                                       name: string, parse: string -> Option<real>)
    requires r.JObj? && !IsRecordFor(r, name)
    ensures GetCoinBalance(JArr(xs + [r] + ys), name, parse)
         == GetCoinBalance(JArr(xs + ys), name, parse)
  {
    if xs == [] {
      assert (xs + [r] + ys)[1..] == ys;
      assert xs + ys == ys;
    } else {
      assert (xs + [r] + ys)[0] == xs[0] == (xs + ys)[0];
      assert (xs + [r] + ys)[1..] == xs[1..] + [r] + ys;
      assert (xs + ys)[1..] == xs[1..] + ys;
      NonMatchingRecordIrrelevant(xs[1..], r, ys, name, parse);
    }
  }

  /** Nothing after the first record for `name` is looked at. */
  lemma {:induction false} SuffixAfterMatchIrrelevant(xs: seq<Json>, ys: seq<Json>,
                                                      name: string, parse: string -> Option<real>)
    requires exists i :: 0 <= i < |xs| && IsRecordFor(xs[i], name)
    ensures GetCoinBalance(JArr(xs + ys), name, parse) == GetCoinBalance(JArr(xs), name, parse)
  {
    assert xs != [];
    assert (xs + ys)[0] == xs[0];
    if xs[0].JObj? && !IsRecordFor(xs[0], name) {
      var i :| 0 <= i < |xs| && IsRecordFor(xs[i], name);
      assert IsRecordFor(xs[1..][i - 1], name);
      assert (xs + ys)[1..] == xs[1..] + ys;
      SuffixAfterMatchIrrelevant(xs[1..], ys, name, parse);
    }
  }

  /** A value present in a payload under `key` (the first entry with that key). */
  function Lookup(p: Payload, key: string): Option<Value> {
    if p == [] then None
    else if p[0].key == key then Some(p[0].value)
    else Lookup(p[1..], key)
  }

  /** The value of a payload's first entry with `key`. */
  lemma {:induction false} LookupFirst(p: Payload, key: string, i: nat)
    requires i < |p| && p[i].key == key
    requires forall j :: 0 <= j < i ==> p[j].key != key
    ensures Lookup(p, key) == Some(p[i].value)
  {
    if i > 0 {
      LookupFirst(p[1..], key, i - 1);
    }
  }

  lemma {:induction false} LookupAbsent(p: Payload, key: string)
    requires forall j :: 0 <= j < |p| ==> p[j].key != key
    ensures Lookup(p, key) == None
  {
    if p != [] {
      LookupAbsent(p[1..], key);
    }
  }

  function Keys(p: Payload): (ks: seq<string>)
    ensures |ks| == |p|
    ensures forall i :: 0 <= i < |p| ==> ks[i] == p[i].key
  {
    if p == [] then [] else [p[0].key] + Keys(p[1..])
  }

  /** The withdrawal payload for `amount` of `coin`: `coin`, `amount`, `network`,
      `address` in that order, then `addressTag` only when a memo is configured. */
  function WithdrawalPayload(t: Target, coin: string, amount: real): (p: Payload)
    ensures Keys(p) == ["coin", "amount", "network", "address"]
                       + (if t.memo != [] then ["addressTag"] else [])
    ensures Lookup(p, "coin") == Some(One(Str(coin)))
    ensures Lookup(p, "amount") == Some(One(Num(amount)))
    ensures Lookup(p, "network") == Some(One(Str(t.network)))
    ensures Lookup(p, "address") == Some(One(Str(t.address)))
    ensures Lookup(p, "addressTag") == (if t.memo != [] then Some(One(Str(t.memo))) else None)
  {
    var base := [Param("coin", One(Str(coin))), Param("amount", One(Num(amount))),
                 Param("network", One(Str(t.network))), Param("address", One(Str(t.address)))];
    var p := if t.memo != [] then base + [Param("addressTag", One(Str(t.memo)))] else base;
    LookupFirst(p, "coin", 0);
    LookupFirst(p, "amount", 1);
    LookupFirst(p, "network", 2);
    LookupFirst(p, "address", 3);
    if t.memo != [] then
      LookupFirst(p, "addressTag", 4);
      p
    else
      LookupAbsent(p, "addressTag");
      p
  }

  /** `check_coin_balance_and_withdraw(coin)` against the given replies. */
  function CheckAndWithdraw(t: Target, coin: string, funding: Result<Json>,
                            withdrawal: Result<Json>, parse: string -> Option<real>): (st: Step)
    ensures 1 <= |st.requests| <= 2
    ensures st.requests[0] == Request("POST", FundingPath, [])
    ensures st.outcome.Zero? ==> |st.requests| == 1
    ensures st.outcome.Withdrew? ==>
              st.requests == [Request("POST", FundingPath, []),
                              Request("POST", WithdrawPath, st.outcome.payload)]
    ensures |st.requests| == 2 ==> st.requests[1].path == WithdrawPath
  {
    var balanceRequest := Request("POST", FundingPath, []);
    match funding
    case Raised => Step([balanceRequest], Error)
    case Ok(assets) =>
      match GetCoinBalance(assets, coin, parse)
      case Raised => Step([balanceRequest], Error)
      case Ok(amount) =>
        if amount == 0.0 then Step([balanceRequest], Zero)
        else
          var p := WithdrawalPayload(t, coin, amount);
          var withdraw := Request("POST", WithdrawPath, p);
          match withdrawal
          case Raised => Step([balanceRequest, withdraw], Error)
          case Ok(_) => Step([balanceRequest, withdraw], Withdrew(p))
  }

  /** The decision in terms of the looked-up balance, both directions: zero balance
      and nothing else gives `Zero`; a non-zero balance issues exactly one
      withdrawal request carrying that balance unchanged, and the step is
      `Withdrew` exactly when that request's reply came back. */
  lemma DecisionCases(t: Target, coin: string, funding: Result<Json>,
                      withdrawal: Result<Json>, parse: string -> Option<real>)
    ensures var st := CheckAndWithdraw(t, coin, funding, withdrawal, parse);
            var bal := if funding.Ok? then GetCoinBalance(funding.value, coin, parse) else Raised;
            && (st.outcome.Zero? <==> bal == Ok(0.0))
            && (|st.requests| == 2 <==> bal.Ok? && bal.value != 0.0)
            && (|st.requests| == 2 ==>
                  st.requests[1] == Request("POST", WithdrawPath,
                                            WithdrawalPayload(t, coin, bal.value)))
            && (st.outcome.Withdrew? <==> bal.Ok? && bal.value != 0.0 && withdrawal.Ok?)
            && (st.outcome.Error? <==> bal.Raised? || (bal.value != 0.0 && withdrawal.Raised?))
  {
  }

  /** The Python value the step returns, from the looked-up balance and the
      withdrawal reply: `True` exactly when a non-zero balance was withdrawn and
      the reply came back, `False` exactly on a zero balance, and `None` exactly
      when the lookup raised or the withdrawal call raised. */
  lemma ReturnValue(t: Target, coin: string, funding: Result<Json>,
                    withdrawal: Result<Json>, parse: string -> Option<real>)
    ensures var r := Returned(CheckAndWithdraw(t, coin, funding, withdrawal, parse).outcome);
            var bal := if funding.Ok? then GetCoinBalance(funding.value, coin, parse) else Raised;
            && (r == Some(true) <==> bal.Ok? && bal.value != 0.0 && withdrawal.Ok?)
            && (r == Some(false) <==> bal == Ok(0.0))
            && (r.None? <==> bal.Raised? || (bal.value != 0.0 && withdrawal.Raised?))
  {
    DecisionCases(t, coin, funding, withdrawal, parse);
  }
}
