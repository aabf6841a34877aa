# BlockPad task bot: retry policy, input loading and proxy assignment

A Dafny model of the deterministic core of the BlockPad multi-account task bot
(`index.js`). It covers three pieces:

- `executeWithRetry`: the retry helper every task method goes through.
- `loadAccounts` / `loadProxies`: the text-to-list parsing of `accounts.txt` and
  `proxy.txt`.
- The start-up part of `main`: exit with code 1 when no account was loaded,
  otherwise pair each account with a proxy round-robin.

Modules, one per file:

- `Wrappers` (`wrappers.dfy`): `Option`, for JavaScript's `null`.
- `JsText` (`js_text.dfy`): the JavaScript string operations the bot uses.
  These are `trim`, with the ECMAScript whitespace and line-terminator set, and
  `split` on one character, with `join` as its inverse. Also `slice(0, n)` and
  `includes`.
- `Loading` (`loading.dfy`):
  - line splitting, trimming and blank-line filtering;
  - the `token[,label]` account-line parser;
  - account and proxy list loading.
- `Retry` (`retry.dfy`): the retry helper.
  - The operation is an oracle `op: nat -> Outcome<V>`: `op(k)` is what the
    k-th call settles to.
  - A `Run` records three things: what the helper's promise settles to
    (`Returned`, `Null`, `Undefined` or `Rejected`), how many calls were made,
    and the ordered log and sleep events.
  - `ExecuteFrom` / `Execute` are the recursive reference definition.
  - `ExecuteWithRetry` is the for-loop written statement by statement and
    proved equal to it.
- `Bootstrap` (`bootstrap.dfy`): proxy choice per account index, runner
  assignment and the start-up decision.

The catch block of the retry helper is modelled as follows:

- **Cooldown refusal.** A status of 400 plus a string body `error` containing
  `Faucet on cooldown`. The helper logs two notices and settles with `null` at
  once, with no further attempt.
- **Non-string body `error` at status 400.** Numbers, booleans and objects have
  no `includes`, so the test throws a `TypeError` inside the catch block. The
  helper's promise rejects (`Rejected`).
- **Any other failure.**
  - On the last attempt: a final report, plus a proxy hint for `ECONNRESET`,
    `ECONNABORTED` or `ETIMEDOUT`, then `null`.
  - Otherwise: a warning, a 10-second sleep and the next attempt.
  - The message reported is the body's `error` when that is truthy, else the
    transport message.
- **`maxRetries < 1`.** The loop never runs and the helper returns `undefined`.

The label default follows what the code does rather than what its own comment
says:

- The comment at `index.js:151` calls the default label the "first 15 chars of
  token".
- The code takes those 15 characters from the first comma-separated field *as
  written*, before it is trimmed (`token.slice(0, 15)` on the raw field).
- The two differ only when that field ends in whitespace, as in `abc ,` or
  `abc , `.

## Model

| member | source | states |
|---|---|---|
| JsText.WhitespaceCodePoints | index.js:145 | a character is removed by `trim` exactly when its code point is one of the ECMAScript white-space and line-terminator code points: tab, LF, VT, FF, CR, space, no-break space, U+1680, U+2000 to U+200A, LS, PS, U+202F, U+205F, U+3000 and the byte-order mark |
| JsText.Trim | index.js:145 | `trim` never lengthens a line, yields the empty string exactly when the line is all whitespace, and otherwise starts and ends with a non-whitespace character |
| JsText.TextStart | index.js:145 | the index where the text after the leading whitespace starts: everything before it is whitespace and the character there is not |
| JsText.TextEnd | index.js:145 | the end of the text before the trailing whitespace: everything after it is whitespace and the character before it is not |
| JsText.TrimAt | index.js:145 | `trim` keeps a window of the line with only whitespace outside it and non-whitespace at both of its ends |
| JsText.TrimWindowUnique | index.js:145 | any window with whitespace only outside and non-whitespace ends is exactly what `trim` returns, so trimming is fully determined |
| JsText.TrimEmptyIff | index.js:145-146 | a trimmed line is empty, and so dropped by `filter(Boolean)`, exactly when the line is all whitespace |
| JsText.TrimIdempotent | index.js:145 | trimming an already trimmed line changes nothing |
| JsText.TrimOfTrimmed | index.js:150 | a string with no whitespace at either end is its own trim |
| JsText.TrimKeepsContents | index.js:145 | every character `trim` keeps comes from the input |
| JsText.Split | index.js:144 | `split` yields at least one piece and no piece contains the separator |
| JsText.JoinSplit | index.js:144 | joining the pieces of a split with the separator gives back the original text |
| JsText.SplitJoin | index.js:144 | splitting the join of separator-free pieces gives back the pieces |
| JsText.SplitWithoutSeparator | index.js:148 | a line without a comma is one field |
| JsText.SplitConcat | index.js:144 | splitting at one separator occurrence splits the two sides independently and concatenates the pieces in order |
| JsText.SplitKeepsContents | index.js:148 | every character of every field comes from the split line |
| JsText.IncludesInfix | index.js:46 | `includes` finds a pattern wherever it is placed in the text |
| JsText.IncludesLength | index.js:46 | `includes` never finds a pattern longer than the text |
| JsText.Prefix | index.js:151 | `slice(0, 15)` is a prefix of the field of length min(15, field length) |
| Loading.NonBlank | index.js:145-146 | trimming and dropping empty lines never adds lines and never keeps an empty one |
| Loading.NonBlankFromInput | index.js:145-146 | every kept line is the trim of some input line and is itself trimmed |
| Loading.NonBlankKeepsAll | index.js:145-146 | no line with non-whitespace content is lost |
| Loading.NonBlankCount | index.js:145-146 | exactly as many lines come out as there are input lines that are not all whitespace |
| Loading.NonBlankConcat | index.js:145-146 | filtering works line by line and keeps the order |
| Loading.Lines | index.js:163 | every line loaded is non-empty, contains no line break and is trimmed |
| Loading.LinesOfOneLine | index.js:163 | a single line yields its trim, or nothing when it is blank |
| Loading.LinesConcat | index.js:163 | a line break separates two blocks that are loaded independently, in order |
| Loading.LinesEmptyIff | index.js:163 | a file yields no lines exactly when it is all whitespace, line breaks included |
| Loading.ParseAccountLine | index.js:147-152 | the token is trimmed; the label is either at most 15 characters long or a non-empty trimmed label |
| Loading.AccountLineFromLine | index.js:148-151 | neither token nor label contains a comma, and both consist of characters of the line |
| Loading.AccountLineWithoutLabel | index.js:148-151 | a line without a comma gives its trimmed self as token and its first 15 characters as label |
| Loading.AccountLineWithLabel | index.js:148-151 | `first,second` gives the trimmed first field as token and the trimmed second field as label, or the first 15 characters of the untrimmed first field when the second is blank |
| Loading.AccountLineIgnoresExtraFields | index.js:148 | fields after the second are ignored |
| Loading.AccountLineOfTrimmed | index.js:148-151 | a trimmed `token,label` line parses to exactly that token and label |
| Loading.AccountLineOfShortToken | index.js:151 | a bare token of at most 15 characters is also its own label |
| Loading.MapSeq | index.js:147 | `map` yields one result per element, the k-th being the callback applied to the k-th element |
| Loading.ParseAccounts | index.js:144-153 | one account per loaded line: account k is line k of the file, after blank lines are dropped, parsed as `token[,label]` |
| Loading.ParseAccountsConcat | index.js:144-153 | accounts come out in file order: the accounts of two blocks joined by a line break are those of the first followed by those of the second |
| Loading.ParseAccountsEmptyIff | index.js:144-153 | no account is loaded exactly when the accounts file is all whitespace |
| Loading.TwoAccountLines | index.js:144-153 | `token1,label1` followed by a short bare `token2` loads exactly two accounts, the second labelled with its token |
| Loading.ParseProxies | index.js:163 | every proxy loaded is non-empty, contains no line break and is trimmed |
| Retry.Classify | index.js:46 | a failure is a cooldown refusal exactly when the status is 400 and the body `error` is a string containing `Faucet on cooldown`, and the refusal keeps that text and the remaining hours; at status 400 a non-string `error` throws; without a response, or with any other status, the failure is ordinary |
| Retry.ReportedMessage | index.js:52 | the body `error` is reported exactly when there is a response whose `error` is truthy; otherwise the transport message is |
| Retry.ConnectionFaultExactly | index.js:55 | the proxy hint condition holds exactly for the codes `ECONNRESET`, `ECONNABORTED` and `ETIMEDOUT` |
| Retry.CooldownBodyIsReported | index.js:46-52 | a cooldown refusal's body text is never empty, so it is also the message such a failure would be reported with |
| Retry.Settle | index.js:44-58 | the attempt that ends the loop makes exactly one call and never yields `undefined`; it returns a value exactly when the call succeeded |
| Retry.ExecuteFrom | index.js:42-63 | from attempt `a`: no call and `undefined` exactly when `a > maxRetries`, and at most `maxRetries - a + 1` calls |
| Retry.Execute | index.js:41-64 | at most `maxRetries` calls; the helper yields `undefined` exactly when `maxRetries < 1` |
| Retry.SleepsBetweenCalls | index.js:60-61 | a run of `n > 0` calls sleeps exactly `n - 1` times, always for 10 seconds |
| Retry.SleepCountFrom | index.js:60-61 | from any attempt, a run of `n > 0` calls sleeps exactly `n - 1` times |
| Retry.SleepLengthFrom | index.js:61 | from any attempt, every sleep lasts 10 seconds |
| Retry.TaskRetryBudget | index.js:73 | with the tasks' limit of 3, a task makes between 1 and 3 calls, pauses at most twice and never yields `undefined` |
| Retry.OrdinaryStretch | index.js:42-62 | a stretch of ordinary failures adds one call, one warning and one sleep per attempt and hands the result to the attempt after it |
| Retry.FirstSuccessReturns | index.js:44 | the first success returns its value after exactly `k` calls, logging only the warnings and sleeps of the failures before it |
| Retry.CooldownStopsRetrying | index.js:46-49 | a cooldown refusal yields `null` after exactly `k` calls; its two notices are the last events, with no sleep after it |
| Retry.PersistentFailureGivesUp | index.js:52-58 | when every call fails ordinarily there are exactly `maxRetries` calls, then `null`; the final report comes last, followed by the proxy hint exactly for a connection-fault code |
| Retry.NonTextCooldownTestRejects | index.js:46 | a non-string body error at status 400 makes the helper's promise reject after that call |
| Retry.RunShapeFrom | index.js:42-63 | every run from attempt `a` that calls the operation is a stretch of ordinary failures ended by one deciding call, and its result is read off that call |
| Retry.RunShape | index.js:41-64 | the same for the whole run: the last call either settled the run or was attempt `maxRetries` |
| Retry.ProxyHintFrom | index.js:53-57 | from attempt `a`, the proxy hint is logged exactly when every remaining attempt failed ordinarily and the last had a connection-fault code |
| Retry.ProxyHintOnlyAfterLastAttempt | index.js:53-57 | the proxy hint appears exactly when all `maxRetries` attempts failed ordinarily and the last error code is `ECONNRESET`, `ECONNABORTED` or `ETIMEDOUT` |
| Retry.ExecuteWithRetry | index.js:41-64 | the for-loop as written returns the same result, call count and events as the recursive definition |
| Bootstrap.ProxyFor | index.js:239 | no proxy exactly when the proxy list is empty; otherwise one of the listed proxies |
| Bootstrap.ProxyForFirstLap | index.js:239 | the first accounts get the proxies in list order |
| Bootstrap.ProxyForPeriodic | index.js:239 | the assignment repeats every `proxies.length` accounts |
| Bootstrap.ProxyForExactly | index.js:239 | with distinct proxies, account `i` gets proxy `j` exactly when `i` mod `proxies.length` is `j` |
| Bootstrap.AssignProxies | index.js:238-241 | one runner per account, in order, with its own account; every runner is unproxied exactly when the proxy list is empty; otherwise runner `i` gets `proxies[i % proxies.length]` |
| Bootstrap.EveryProxyUsed | index.js:238-241 | with at least as many accounts as proxies, every proxy is used, the one at position `j` by account `j` |
| Bootstrap.Startup | index.js:222-241 | exit with code 1 exactly when the accounts file is all whitespace; otherwise one runner per loaded account, in file order and carrying that account, each unproxied exactly when the proxy file is all whitespace and otherwise given loaded proxy number `i` mod the number of loaded proxies |
| Bootstrap.StartupWithoutProxies | index.js:222-241 | with an accounts file that is not all whitespace and a blank proxy file, every loaded account gets a runner without a proxy |
| Bootstrap.StartupTwoAccountsNoProxies | index.js:222-241 | `abc123,Alice` plus `def456` with an empty proxy file, for arbitrary trimmed comma-free tokens: two unproxied runners, labelled `Alice` and `def456` |

## Left out

- Reading `accounts.txt` and `proxy.txt`, and the catch paths that turn a read error into an empty list: the model starts from the file contents.
- Every HTTP request, `axios`, the proxy agent and the task methods' bodies. The retry helper sees each call only through the oracle `op`.
- The log text, colours, the account label and the operation name inside messages. Events record only what is logged and with which message or value.
- The wall-clock duration of `sleep`: a pause is the event `Slept(10)`.
- The per-account infinite task loop, `Promise.all`, the restart after a fatal error and the `SIGINT` handler. None of them is part of the pure core.
- The numeric amounts of swaps, liquidity and staking.
- Retry.Classify: a body `error` that is an array does have `includes`, so it would be tested by element equality instead of throwing. The model treats every non-string `error` as throwing.
- Retry.Execute: `maxRetries` is an integer. The tasks always pass 3; fractional or non-numeric limits are not modelled.
- Retry.Response: `remainingHours` is kept as the text that gets logged, whatever JSON value it was.
- Loading.ParseAccountLine: `slice(0, 15)` counts UTF-16 code units, but the model counts Unicode scalar values. They differ only for characters outside the Basic Multilingual Plane.
