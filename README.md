# Weather lookup core, modelled in Dafny

The weather app (`app.js`) takes a place name typed by the user, finds the
place with a geocoding service and shows its current weather. This project
models the logic in that file that does not depend on the page or the
network, and proves what it does:

- **The circuit breaker** (`circuit_breaker.dfy`). This is the shared record
  `{state, failureCount, openUntil}` and `isCircuitOpen`, `recordSuccess` and
  `recordFailure`. The record is the class `Circuit`, whose methods update
  its fields in place. Each method is proved to perform one transition
  function on a `Breaker` value (`Poll`, `AfterSuccess`, `AfterFailure`). The
  lemmas about those functions cover single calls and whole runs of calls
  from the initial record. The wall clock `Date.now()` is the parameter
  `now`, in milliseconds.
- **The retry loop** (`retry.dfy`). `fetchWithRetry` makes up to three
  attempts with a one-second pause after each failed attempt but the last.
  The network is a function from the attempt number to what that attempt
  sees: an ok response, a response with a bad status, or a transport error.
  The method returns what it returns or throws, how many attempts it made,
  how many pauses it took and how long it waited in total.
- **Query handling** (`query.dfy`). This covers `sanatizeInput`, the
  two-character acceptance test of the Enter handler, and
  `parseLocationQuery`. They rest on models of JavaScript's `trim`,
  `toLowerCase` and `split` in `text.dfy`, and on a sequence filter in
  `seqs.dfy`. Ranking also uses `text.dfy`'s model of `includes`.
- **Result ranking** (`ranking.dfy`). `pickBestResult` is modelled twice:
  - as the function `PickBestResult`, which applies the hint tier, the
    exact-name tier and a stable sort by descending population, then takes
    the head;
  - as the method `PickBest`, which follows the loops of app.js and is proved
    to compute that function.

  Lemmas state directly which candidate is chosen: an eligible candidate of
  greatest population, and the earliest one on a tie.

`Option` (`options.dfy`) stands for JavaScript's missing values.
`x || fallback` on a possibly missing field is `GetOr(fallback)`.

### Behaviours worth noting

- app.js defines `recordSuccess` (app.js:20-22) but never calls it. The
  successful paths of `geocode` and `fetchWeather` (app.js:117, 145) return
  without recording a success. So failures add up across successful lookups,
  and only the expiry branch of `isCircuitOpen` (app.js:12-14) clears the
  count. The trace lemmas allow `Succeed` events so that they also cover
  `recordSuccess` as defined; runs app.js can produce are those without one
  (`NoSuccess`).
- `recordFailure` re-opens the circuit, moving `openUntil` to 30 s after the
  latest failure, whenever the count before it is at least 2
  (`FailureAtThresholdReopens`). With no success recorded, an open breaker
  always has such a count, so in app.js every failure while the circuit is
  open re-opens it (`OpenWithoutSuccessHasThree`, `FailureWhileOpenReopens`).
- `recordSuccess` only clears the failure count. A success never closes an
  open circuit; only `isCircuitOpen` does that, once the open period is over
  (`SuccessOnlyResetsCount`).
- `parseLocationQuery` splits on every comma. The name is the first piece
  that is not blank after trimming, the hint the second such piece, and any
  further pieces are ignored (`ParseFirstPiece`, `ParseSecondPiece`). Only
  when every piece is blank is the raw query used as the name
  (`ParseLocationQuery`).
- The hint must occur inside the country, admin1 or admin2 name, or equal
  the country code. A postal abbreviation such as "tx" matches neither
  "Texas" nor the code "US". So for "paris, tx" the hint is unmatched, the
  whole list stays in play (`UnmatchedHintIsIgnored`), and the most populous
  Paris is chosen.

## Model

| member | source | states |
|---|---|---|
| CircuitBreaker.Circuit.constructor | app.js:4-8 | The breaker starts closed, with no failures and `openUntil` 0. |
| CircuitBreaker.Circuit.IsCircuitOpen | app.js:10-18 | The answer and the new record are those of `Poll`. The answer is true exactly when the breaker was open and `now` is before `openUntil`. |
| CircuitBreaker.Circuit.RecordSuccess | app.js:20-22 | The new record is `AfterSuccess` of the old one. |
| CircuitBreaker.Circuit.RecordFailure | app.js:24-30 | The new record is `AfterFailure(old, now)`. |
| CircuitBreaker.Poll | app.js:10-18 | The answer is true exactly when the breaker is open and `now` is before `openUntil`. A true answer leaves the record unchanged, a false one leaves it not open, and `openUntil` never changes. |
| CircuitBreaker.AfterSuccess | app.js:20-22 | The count becomes 0; the state and `openUntil` stay as they were. |
| CircuitBreaker.AfterFailure | app.js:24-30 | The count goes up by one. The breaker is open afterwards exactly when it was open or the new count is at least 3, and `openUntil` moves to `now` + 30000 exactly when the new count is at least 3. |
| CircuitBreaker.PollCases | app.js:10-18 | The three cases of isCircuitOpen. A closed breaker gives false and is unchanged. An open breaker before `openUntil` gives true and is unchanged. An open breaker at or after `openUntil` gives false and becomes closed with count 0, keeping `openUntil`. |
| CircuitBreaker.FailureAtThresholdReopens | app.js:24-30 | When the incremented count reaches 3, the breaker is open with that count until `now` + 30000, whatever its previous state. |
| CircuitBreaker.SuccessOnlyResetsCount | app.js:20-22 | recordSuccess sets the count to 0 and keeps the state and `openUntil`. |
| CircuitBreaker.OperationsKeepHealthy | app.js:4-30 | "Closed implies count < 3" holds initially and is preserved by all three operations. |
| CircuitBreaker.ThreeFailuresOpen | app.js:10-30 | Three failures from any record open the circuit until 30 s after the third. It refuses exactly before then, and the first check after it closes the breaker with count 0. |
| CircuitBreaker.ReachableIsHealthy | app.js:4-30 | Every record reachable from the initial one by any sequence of calls satisfies the invariant. |
| CircuitBreaker.ClosedWithoutThreeInARow | app.js:4-30 | In a run from the initial record that never has three failures in a row, the breaker stays closed, its count is the current failure streak and `openUntil` stays 0. |
| CircuitBreaker.ThirdFailureInARowOpens | app.js:24-30 | The first failure that completes three in a row opens the circuit with count 3 until 30 s after that failure. |
| CircuitBreaker.SuccessBreaksTheStreak | app.js:20-30 | Two failures, a success and two more failures leave the circuit closed. |
| CircuitBreaker.OpenWithoutSuccessHasThree | app.js:4-30 | In a run from the initial record with no `recordSuccess` call, as in app.js, an open breaker has a count of at least 3. |
| CircuitBreaker.FailureWhileOpenReopens | app.js:24-30 | In such a run, a failure while the breaker is open re-opens it with the count one higher, until 30 s after that failure. |
| Retry.FetchWithRetry | app.js:32-45 | There are between 1 and 3 attempts, and every attempt before the last one made failed. A returned response is the first ok one and has ok true. A throw happens only after three failed attempts and throws the third attempt's error. There are k-1 pauses on success at attempt k, and 2 pauses when all fail. The time waited is 1000 ms per pause. |
| Retry.ErrorOf | app.js:37-41 | A delivered response with a bad status becomes an HTTP error carrying that status; a rejected fetch passes its own error through. |
| Query.SanitizeInput | app.js:208-210 | The result has at most 100 characters and contains no '<' or '>'. |
| Query.SanitizeIsLowerCase | app.js:209 | The result has no upper-case letter, and each of its characters comes from the lower-cased input. |
| Query.SanitizeKeepsCleanInput | app.js:209 | Input that is already trimmed, lower-case, free of brackets and at most 100 characters long comes back unchanged. |
| Query.SanitizeIgnoresCase | app.js:209 | Lower-casing the input first does not change the result. |
| Query.SanitizeCanLeaveEdgeSpace | app.js:209 | Brackets are removed after trimming, so "< ab" gives " ab", which starts with a space. |
| Query.IsAcceptedQuery | app.js:56-60 | The Enter handler's test on the sanitised query. An accepted query has at least two characters after trimming. |
| Query.AcceptedQueryHasName | app.js:56-60 | A query that passes the two-character check parses to a non-empty name. |
| Text.Trim | app.js:209 | The result is trimmed and made of characters of the input. It is empty exactly when the input is all whitespace. |
| Text.TrimPadded | app.js:209 | Trimming a trimmed string with whitespace margins gives that string. |
| Text.Split | app.js:149 | There is at least one piece, no piece contains the separator, and joining the pieces with the separator gives back the input. |
| Text.SplitJoin | app.js:149 | Splitting a join of separator-free pieces gives back the pieces. |
| Text.Lower | app.js:209 | Lower-casing keeps the length, leaves no upper-case letter and leaves every other character as it was. |
| Text.Contains | app.js:168-170 | `includes` can only hold when the searched-for string is no longer than the string searched. |
| Text.ContainsOccurs | app.js:168-170 | `includes` holds exactly when the searched-for string is the slice of the other at some position. |
| Seqs.Filter | app.js:161-172 | `filter` keeps no more elements than it is given, and every element it keeps passes the test. |
| Query.TrimmedPieces | app.js:149 | `split(',')` followed by a trim of each piece: one entry per piece, each the trimmed piece. |
| Query.Parts | app.js:149 | Every kept piece is non-empty, trimmed and comma-free. No piece is kept exactly when every piece of `split(',')` trims to the empty string. |
| Query.ParseLocationQuery | app.js:148-153 | The hint is empty, or trimmed and comma-free. The name is the raw query, or a non-empty, trimmed, comma-free string. When every comma-separated piece is blank, the result is the raw query with no hint. |
| Query.ParseFirstPiece | app.js:149-151 | If piece i is the first piece that is not blank, the name is that piece trimmed. The hint is empty exactly when every later piece is blank. |
| Query.ParseSecondPiece | app.js:149-152 | If pieces i < j are the first two that are not blank, the result is those two pieces trimmed, whatever follows them. |
| Query.ParseWithoutComma | app.js:148-153 | Without a comma the hint is empty. The name is the trimmed query, or the raw query when that is blank. |
| Query.ParseNameAndHint | app.js:148-153 | "name, hint" parses back to that name and hint for any non-empty, trimmed, comma-free name and hint. |
| Ranking.SortByPopulation | app.js:198-203 | The sorted copy has the same length, is a permutation of its input, and is in descending population order (a missing population counts as 0). |
| Ranking.MatchesHint | app.js:162-171 | The hint test of the filter callback. An empty lower-cased hint matches every candidate. |
| Ranking.MatchesName | app.js:185-186 | The exact-name test. Only a lower-case name of the candidate's name length can match. |
| Ranking.HintPool | app.js:156-181 | The pool is empty exactly when the results are, and is no longer than them. When the hint is non-empty and something matches it, every pool candidate matches it. |
| Ranking.RankedPool | app.js:183-196 | The ranked list is empty exactly when the results are, and is no longer than them. When the pool has an exact-name match, every ranked candidate has the query's name. |
| Ranking.PickBestResult | app.js:155-206 | There is a result exactly when the list is non-empty, and it is a candidate of the ranked list (the sort only reorders). Which candidate it is, is stated by `PickBestResultIsBest`. |
| Ranking.InsertKeepsSorted | app.js:198-203 | Inserting into a list sorted by descending population keeps it sorted. |
| Ranking.SortHeadIsFirstMax | app.js:198-205 | The head of the stable sort is the earliest candidate of greatest population. |
| Ranking.HintPoolIsEligible | app.js:159-181 | The pool is exactly the candidates that match the hint when the hint is non-empty and some candidate matches it, and is every candidate otherwise. |
| Ranking.RankedPoolIsEligible | app.js:176-196 | The ranked list is exactly the pool candidates with the query's name when any exist, and is the pool otherwise. |
| Ranking.PickBestResultIsBest | app.js:155-206 | For a non-empty list, the result is the candidate at some index i, and it is eligible. No eligible candidate has a larger population, and every eligible candidate before i has a smaller one. |
| Ranking.PickBestResultIsMember | app.js:155-206 | There is a result exactly when the list is non-empty, and the result is an element of the list. |
| Ranking.MatchedHintIsObeyed | app.js:159-181 | If the hint is non-empty and some candidate matches it, the result matches it. |
| Ranking.UnmatchedHintIsIgnored | app.js:159-181 | A hint that no candidate matches gives the same result as no hint. |
| Ranking.ExactNameIsPreferred | app.js:183-196 | If some candidate that survives the hint tier has a lower-cased name equal to the lower-cased query name, the result has that name. |
| Ranking.CollectExactMatches | app.js:183-189 | The loop collects exactly the pool candidates whose lower-cased name equals the query name, in pool order. |
| Ranking.HighestPopulation | app.js:198-205 | For a non-empty list, the single scan finds the head of the stable population sort. |
| Ranking.PickBest | app.js:155-206 | The procedure returns exactly `PickBestResult`. |

## Left out

- The page and its events (app.js:1-2, 47-89) are not modelled. This covers element lookups, focus, the keydown handler, HTML templating, the online check and date formatting. Only the handler's two-character test is kept (`IsAcceptedQuery`).
- `geocode` and `fetchWeather` (app.js:91-146) are not modelled. They build URLs, call the services and decode JSON. None of their error paths is reproduced:
  - The breaker-open paths (app.js:92-94, 121-123) throw a plain `Error` before any request.
  - Each error path after the breaker check throws a comma expression, whose last operand is a `console.error` call. The `new Error(...)` of its first operand is built and dropped.
  - The network-error paths (app.js:101-103, 129-131) call `recordFailure` and log the caught `error`. What they throw is `undefined`, the value `console.error` returns.
  - The `!response.ok` paths (app.js:106-108, 134-136) and the missing-weather path (app.js:141-143) call `recordFailure` and then refer to an `error` that is not in scope.
  - The not-found path (app.js:113-114) refers to that undefined `error` without calling `recordFailure`.
- Time: `Date.now()` is the parameter `now`. The pauses of `setTimeout` are counted, not waited for. `async`/`await` interleaving, and with it any concurrent use of the shared breaker, is not modelled.
- Retry.FetchWithRetry: the `url` argument is not modelled. The network function already stands for that one request.
- Floating-point fields (latitude, longitude, temperature, wind speed) are not modelled. They are only passed through.
- Text.Lower: only ASCII 'A'..'Z' are lower-cased. The full Unicode mapping of `toLowerCase` is not modelled.
- Query.SanitizeInput: the 100-character cut counts characters, not UTF-16 code units.
- Ranking.PickBest: it does not sort a copy in place. It finds the sort's head with one scan that is proved equal to the head of the stable sort. The input list is an immutable value here, so "the input is not reordered" holds trivially.
- Ranking.SortByPopulation: its contract states a permutation in descending population order, but not stability. The order of equal-population candidates after the head is not stated. Stability matters only for the head, which `SortHeadIsFirstMax` states.
- Ranking.PopulationOf: populations are natural numbers. A negative or fractional population from the service is not modelled.
