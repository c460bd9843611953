# Binance auto-withdraw: a Dafny model

`main.py` polls a Binance account's funding wallet for one coin. When it finds a
non-zero free balance, it withdraws all of it to a fixed address. Each exchange call
is an HMAC-signed REST request. This project models the deterministic core of the
script and proves properties of it:

- **Request construction** (`send_signed_request`, `send_public_request`).
  - `Quote`: the per-token escaping of `urlencode`, i.e. `quote_plus` over UTF-8.
  - `UrlEncode`: `urlencode(payload, True)` over an ordered payload, where list
    values expand into repeated keys.
  - `Client`: the signed query with its trailing `timestamp`, the hex HMAC
    signature, and the final URLs.
  - Each encoding has an independent reader beside it (`UnquotePlus`,
    `ParseQuery`, `SignedMessage`), and the lemmas prove that reading back recovers
    exactly what was written.
- **The withdrawal decision** (`Decision`). `get_coin_balance` works over decoded
  JSON, so the same exceptions Python raises (a non-object before the match, a
  missing `free`) surface as `Raised`. `check_coin_balance_and_withdraw` becomes a
  `Step`: the requests it issued, in order, and an outcome `Withdrew(payload)`,
  `Zero` or `Error`. The outcome maps to the Python return value `True`, `False` or
  `None`.
- **The scheduler** (`Scheduler`). One iteration of the outer `while True` is a
  trace of `Check`, `Sleep(60)` and `Sleep(420)` events. `Run` strings together a
  bounded number of iterations.
- **The composition** (`Session`). Exchange replies, indexed by check number, drive
  the scheduler through the real decision step. This gives the requests a whole
  cycle issues.

Foreign behaviour enters as parameters:

- `mac` is HMAC-SHA256 (RFC 2104) from (secret, message) to digest bytes;
- `ts` is the millisecond clock reading;
- `show` is Python's `str(float)`;
- `parse` is `float(str)`.

The exchange's replies are inputs: `Ok(json)`, or `Raised` when the HTTP call or
JSON decoding raised.

`dispatch_request` reads as if an unknown verb fell back to GET. It does not:
`.get(http_method, "GET")` returns the string `"GET"`, and calling that raises.
The model follows the code. It only ever issues `POST`, so this path is never
reached, and dispatch itself is left out (see below).

A consequence of the code's structure is proved rather than reported as a defect.
Suppose the withdrawal request was sent but its reply raised. Then the step returns
`None`, the loop sleeps one minute, and the next check can withdraw again within the
same cycle (`Session.LostReplyWithdrawsTwice`). While withdrawal replies come back,
a cycle issues at most one withdrawal (`Session.AtMostOneWithdrawalPerCycle`).

## Model

| member | source | states |
|---|---|---|
| `Util.Decimal` | main.py:54-56 | The timestamp as `format` writes an int: one or more decimal digits, no leading zero. |
| `Util.DecimalRoundTrip` | main.py:54-56 | Reading the rendered timestamp back gives the same number, so the rendering loses nothing. |
| `Client.HexDigest` | main.py:27-30 | `hexdigest()` writes two lower-case hex digits per digest byte. |
| `Client.HexDigestInjective` | main.py:27-30 | Distinct digests give distinct signature strings. |
| `Quote.Utf8RoundTrip` | main.py:52 | The UTF-8 bytes escaped for each character decode back to that character. |
| `Quote.QuoteChar` | main.py:52 | A character is written as itself exactly when it is an ASCII letter or digit or one of `_.-~`; a non-ASCII letter is escaped. A space becomes `+`. Any other character becomes three characters per UTF-8 byte, and reading them back as `%XY` escapes gives exactly its UTF-8 bytes. |
| `Quote.QuotePlus` | main.py:52 | An escaped token contains only ASCII letters and digits and `_.-~+%`; it never contains `&`, `=` or `?`; a token made only of safe characters is unchanged. |
| `Quote.UnquoteQuotePlus` | main.py:52 | Reading an escaped token back gives the original, so distinct keys or values never collide. |
| `UrlEncode.Encode` | main.py:52 | `urlencode(payload, True)` is the escaped assignments joined by `&`. It contains only escaped-token characters, `&` and `=`, so never a `?`. What it encodes is pinned down by `UrlEncode.ParseEncode` and `UrlEncode.EncodeEmpty`. |
| `UrlEncode.FieldsAppend` | main.py:52 | The assignments of concatenated payloads are the concatenation of their assignments: insertion order is kept. |
| `UrlEncode.EncodeList` | main.py:52 | A list-valued entry expands to one escaped `key=element` per element, joined by `&`. |
| `UrlEncode.EncodeEmpty` | main.py:52-53 | The encoding is empty exactly when the payload emits no assignment, e.g. an empty payload. |
| `UrlEncode.ParseEncode` | main.py:52 | Splitting the encoding at `&` and `=` and unescaping recovers exactly the payload's assignments, in insertion order. |
| `Client.Signature` | main.py:27-30 | `hashing(query_string)` is the hex MAC of the query under the secret: two lower-case hex digits per digest byte. `Client.HexDigestInjective` shows distinct digests give distinct signatures. |
| `Client.SignedQuery` | main.py:52-56 | The signed query is never empty and starts with the payload's encoding. Its exact content is stated by `Client.SignedQueryAppendsTimestamp` and `Client.SignedQueryFields`. |
| `Client.SignedUrl` | main.py:58-60 | The signed URL starts with `BASE_URL + path + "?"` followed by the signed query. `Client.SignedUrlMessage` and `Client.SignedUrlFields` state what follows it. |
| `Client.PublicUrl` | main.py:68-72 | The public URL starts with `BASE_URL + path`, and is exactly that when the payload's encoding is empty. `Client.PublicUrlQuery` states its query. |
| `Client.SignedQueryAppendsTimestamp` | main.py:52-56 | The signed query is the encoding of the payload with `timestamp=<ts>` appended as its last entry. This covers both branches: the bare `timestamp=<ts>` for an empty encoding, and `&timestamp=<ts>` after a non-empty one. |
| `Client.SignedQueryFields` | main.py:52-56 | The signed query reads back as the payload's assignments followed by `("timestamp", ts)`, and nothing else. |
| `Client.SignedUrlMessage` | main.py:58-60 | In the URL, the text between the first `?` and the last `&signature=` is exactly the signed query. The value after it is the hex MAC of that text under the secret, so the URL authenticates. |
| `Client.SignedUrlFields` | main.py:52-60 | The URL's query reads back as the payload's assignments, then `timestamp`, then `signature`. |
| `Client.PublicUrlQuery` | main.py:68-72 | The public URL starts with `BASE_URL + path`. It has a `?` query exactly when the payload emits an assignment, and that query reads back as the payload's assignments alone (no timestamp, no signature). |
| `Decision.Scan` | main.py:82-85 | The lazy scan of `next(...)`: a non-zero result is the parsed `free` of some record for the coin, and it raises only if the list holds a non-object or a record for the coin. |
| `Decision.GetCoinBalance` | main.py:81-86 | A non-zero balance only ever comes from a list, as the parsed `free` of a record for the coin. Exactly which record and which error are stated by `Decision.BalanceOfFirstMatch`, `Decision.BalanceAbsent` and `Decision.BalanceNonRecordRaises`. |
| `Decision.BalanceOfFirstMatch` | main.py:81-85 | The balance is the parsed `free` of the first record whose `asset` equals the coin exactly, when everything before it is a record for another asset. |
| `Decision.BalanceAbsent` | main.py:81-86 | With no record for the coin, and every element an object, the balance is 0.0. A non-object element makes the lookup raise instead (`Decision.BalanceNonRecordRaises`). |
| `Decision.BalanceNonRecordRaises` | main.py:82 | An element that is not an object, reached before any match, makes the lookup raise. |
| `Decision.NonMatchingRecordIrrelevant` | main.py:82 | Inserting a record for another asset anywhere in the list never changes the result. |
| `Decision.SuffixAfterMatchIrrelevant` | main.py:82 | Nothing after the first matching record is looked at. |
| `Decision.ReturnValue` | main.py:89-112 | The Python value the step returns, from the looked-up balance and the withdrawal reply. It is `True` exactly when the balance is non-zero and the withdrawal reply came back. It is `False` exactly when the balance is 0.0. It is `None` exactly when the lookup raised, or the balance is non-zero and the withdrawal call raised. |
| `Decision.WithdrawalPayload` | main.py:95-102 | The payload keys are `coin, amount, network, address`, in that order, with `addressTag` appended exactly when the memo is non-empty. Each key holds the coin argument, the balance unchanged, or the configured value. |
| `Decision.CheckAndWithdraw` | main.py:89-112 | The funding-asset request always comes first, and at most one further request is issued. A zero balance issues nothing more. A withdrawal means exactly the funding request followed by one withdraw request carrying the payload. |
| `Decision.DecisionCases` | main.py:89-112 | Both directions, in terms of the looked-up balance: `Zero` iff the balance is 0.0; a withdraw request iff the balance is non-zero; that request carries `WithdrawalPayload` of the balance; `Withdrew` iff additionally its reply came back; `Error` iff the lookup raised or the withdrawal reply raised. |
| `Scheduler.Cycle` | main.py:119-124 | One iteration of `while True`: the inner `for` (`InnerFrom`) asks at most 7 times, sleeps 60 s after each answer that is not `True`, and the iteration ends with the 420 s sleep. Its shape is stated by `Scheduler.CycleShape`, `Scheduler.CycleFirstSuccess` and `Scheduler.CycleNoSuccess`. |
| `Scheduler.CycleFirstSuccess` | main.py:115-124 | If the first `True` comes at the cycle's check k+1, the trace is k rounds of (check, 60 s), then a check, then 420 s: k+1 checks, k short sleeps, one long sleep. |
| `Scheduler.CycleNoSuccess` | main.py:115-124 | With no `True`, the trace is 7 rounds of (check, 60 s) and then 420 s. |
| `Scheduler.CycleShape` | main.py:115-124 | Every cycle makes 1 to 7 checks. All but the last failed, and the last succeeded unless it was the seventh. There is one 60 s sleep per failed check, and the trace ends with its only 420 s sleep. |
| `Scheduler.NoneIsFailure` | main.py:120-122 | Replacing every `None` with `False` leaves the cycle's trace unchanged. |
| `Scheduler.RunCycle` | main.py:118-124 | The loop body as written (for, break, sleeps) produces the trace `Cycle` describes: 1 to 7 checks, ending with the 420 s sleep. |
| `Scheduler.Run` | main.py:118-124 | `n` iterations of `while True`, each starting at the check after the previous one's last. Its counts are stated by `Scheduler.RunBounds`. |
| `Scheduler.RunBounds` | main.py:118-124 | Over n outer iterations there are exactly n long sleeps and between n and 7n checks. |
| `Session.StepWithdrawals` | main.py:89-112 | One step issues at most one withdraw request. When its reply comes back, it issues one exactly when the step returns `True`. |
| `Session.CycleWithdrawsAtMostOnce` | main.py:115-122 | For any steps that each issue a withdraw request exactly when they return `True`, a cycle issues at most one, and issues one exactly when its last check returned `True`. |
| `Session.AtMostOneWithdrawalPerCycle` | main.py:89-124 | While withdrawal replies come back, a cycle issues at most one withdraw request, and issues one exactly when its last check returned `True`. |
| `Session.LostReplyWithdrawsTwice` | main.py:104-122 | With a balance of 5 and a first withdrawal reply that raises, one cycle issues two withdraw requests. |
| `Session.ZeroZeroThenWithdraw` | main.py:89-124 | Balances 0, 0, then x ≠ 0 give the trace check, 60 s, check, 60 s, check, 420 s. The cycle issues three funding requests and then one withdraw request whose `amount` is x. |

## Left out

- HTTP dispatch, the session and its headers (main.py:37-47) are network I/O. The exchange's replies are inputs instead. The unknown-verb path of `dispatch_request`, which raises rather than falling back to GET, is unreachable from the modelled calls.
- HMAC-SHA256 internals (main.py:27-30) are a foreign library call, and appear as the uninterpreted parameter `mac`. The UTF-8 encoding of secret and message is part of it.
- `get_timestamp` (main.py:33-34) reads the clock with float arithmetic. The timestamp is the natural-number parameter `ts`.
- `float(coin["free"])` (main.py:84) and `str(float)` inside `urlencode` (main.py:52) are the parameters `parse` and `show`. IEEE-754 details such as `-0.0`, NaN and rounding are not modelled; `amount != 0.0` compares the parsed real exactly.
- Environment loading (main.py:10-21) is treated as the immutable record `Decision.Target` plus the coin argument.
- Console output (`print`, main.py:61, 73, 104, 109, 112, 123) is not modelled. `print` of the withdrawal reply is taken not to raise.
- Real sleeping and the unbounded `while True` (main.py:118) are modelled as the event trace of one cycle (`Cycle`, `RunCycle`) and of n cycles (`Run`).
- A Python dict cannot hold a key twice, but a `Payload` sequence can. The source's payloads never repeat a key, so dict overwrite semantics are not modelled.
- `UnquotePlus`, `ParseQuery` and `SignedMessage` are reference readers written for the proofs, not models of Python's `unquote_plus` or `parse_qsl`.
- Client.SignedUrlMessage: assumes the path contains no `?`, as every path the script uses is a constant without one.
- Client.SignedUrlFields: assumes the path contains no `?`, for the same reason.
- Client.PublicUrlQuery: assumes the path contains no `?`. It also states "no timestamp or signature" as "the query is the payload's own assignments". A payload that itself has a `timestamp` key would show one.
- Strings are sequences of Unicode scalar values (Dafny `char`), so a Python `str` holding a lone surrogate cannot be expressed. For such a string `quote_plus` (main.py:52) and the HMAC's UTF-8 encoding (main.py:29) raise `UnicodeEncodeError`, and the step would return `None`; the model does not cover that path.
- `urlencode` on `bytes` values, and on iterables other than lists, is not modelled: the script passes only strings and a float.
