# rrl — a rolling-window rate limiter over a Redis sorted set, in Dafny

rrl keeps one Redis sorted set per caller identity. Each entry is one request: its score is the request time in microseconds and its member is a random token. `RateLimiter.TimeLeft(id)` does five things:

- It computes `clearBefore = now − intervalInMillis·1000`.
- It queues four commands in one MULTI/EXEC transaction:
  - `ZREMRANGEBYSCORE id 0 clearBefore`;
  - `ZRANGE id 0 -1 WITHSCORES`;
  - `ZADD id now token`;
  - `EXPIRE id intervalInMillis/1000`.
- It prints the reply of the range read as text.
- It parses that text back with `zparts`.
- It gives advice:
  - 0 when fewer than `maxInInterval` entries were read;
  - otherwise `(oldest − clearBefore)/1000` milliseconds, the wait until the oldest entry leaves the window.

Tokens come from `uuid`: 16 random bytes, printed as upper-case hex in 4-2-2-2-6 byte groups joined by dashes.

## Modules

| file | module | contents |
|---|---|---|
| `wrappers.dfy` | `Wrappers` | `Option` and `Result` |
| `goint.dfy` | `GoInt` | Go's `int64`: wrap-around (`Wrap64`) and division truncated toward zero (`Quo`) |
| `gostrings.dfy` | `GoStrings` | `strings.Split`, `Join`, `Trim`, `TrimSpace`, with the white-space set of `unicode.IsSpace` |
| `uuid.dfy` | `Uuid` | `uuid()`: hex formatting with its inverse, and the token-or-error result |
| `zparts.dfy` | `Zparts` | the parser as a method with its loop, the function that specifies it, the text go-redis prints, and score text |
| `store.dfy` | `SortedSetStore` | class `Store`: key → (member → score) and key → TTL, with the four commands |
| `rrl.dfy` | `Rrl` | class `RateLimiter`, `TimeLeft`, the decision on the window, and its properties |

## How the system is modelled

- **The store.** A sorted set is a map from member to score. ZADD on an existing member moves it to the new score. ZRANGE WITHSCORES returns some listing sorted by score. Members with equal scores may come in any order.
- **Parameters.**
  - The clock reading (`now`, in microseconds) is a parameter.
  - The outcome of `rand.Read` is a parameter (`Uuid.Entropy`).
  - So is the fate of the transaction (`Rrl.Fault`):
    - `Delivered`;
    - `LostBeforeExec`: nothing is applied;
    - `LostAfterExec`: everything is applied, but the answer is an error.
- **Runtime panics become error values** (`IndexOutOfRange`). There are two:
  - indexing `elements[0]` of an empty list;
  - the lone last token in zparts's pairing loop.
- **Scores are integers.** The printed reply spells each score in decimal. `Zparts.ParseScore` reads it back for zparts, and like `strconv.ParseFloat` with its error ignored, it gives 0 for text that is not a number.
- **Two levels of specification.**
  - `TimeLeft` is specified against `Rrl.Advice`, the advice computed from what zparts returns.
  - `Rrl.Decide` is an independent definition on the window itself: how many entries there are, and the lowest score.
  - `Rrl.AdviceMatchesDecide` proves that the two agree when the key has no `:` and every member is a plain token.
  - `Rrl.RecordedStaysPlain` shows that a set written only by `TimeLeft` always holds plain members.

## Where the code behaves differently from its usual description

The model follows the code in each case:

- **Pruning is inclusive.** `ZREMRANGEBYSCORE id 0 clearBefore` also removes an entry scored exactly `clearBefore`. It does not remove a negative score.
- **Zero does not mean "fewer than capacity".** The doc comment on `TimeLeft` (rrl.go:43-46) says zero means requests remain. But the wait is truncated to whole milliseconds. So 0 also comes back when the window is full and its oldest entry leaves within the next millisecond. `Rrl.DecisionRule` states the exact rule, in both directions.
- **A full window can still panic.** With `maxInInterval ≤ 0` and an empty window, `elements[0]` panics.
- **The caller's entry is always recorded.** This happens even when the caller is told to wait. So a waiting caller pushes back the next opening (`Rrl.AdvisoryScenario`: 0, 0, 800 ms, then 99 ms).
- **The TTL is in whole seconds.** It is `intervalInMillis/1000`, truncated, not the window's length: an interval under one second gives a TTL of 0.
- **Configuration is not checked.** `NewRateLimiter` takes any interval and capacity.
- **A key containing `:` breaks the parse.**
  - The printed reply starts with the command line, which contains the key.
  - zparts reads the text between the first and second colons. For such a key, that text is the command's own words, not the window.
  - So the advice no longer depends on what the window holds (`Zparts.ColonInKeyIgnoresWindow`, and the `':' in id` clause of `TimeLeft`).

## Model

| member | source | states |
|---|---|---|
| GoInt.Wrap64 | rrl.go:49 | int64 wrap-around: a value in range is unchanged, and the result is congruent to the input modulo 2^64 |
| GoInt.Quo | rrl.go:88 | Go's integer division: the remainder has the dividend's sign and is smaller than the divisor in magnitude |
| GoStrings.Split | rrl.go:100 | `strings.Split` by one character: at least one piece, and no piece holds the separator |
| GoStrings.SplitCount | rrl.go:100-102 | the split has a single piece exactly when the separator does not occur, which is zparts's first empty case |
| GoStrings.JoinSplit | rrl.go:112 | joining the pieces of a split with the separator gives back the string |
| GoStrings.SplitJoin | rrl.go:112 | splitting a join of separator-free pieces gives back the pieces |
| GoStrings.IndexOfAppend | rrl.go:100 | the first separator of a concatenation is the left part's first, or else the right part's shifted by the left's length |
| GoStrings.TrimEnds | rrl.go:106-119 | `strings.Trim` keeps one slice of the string, from where the left trim stopped; everything dropped on either side is a cut character, and the slice's own ends are not |
| GoStrings.TrimFixed | rrl.go:106-119 | a string with no cut character at either end is left unchanged |
| GoStrings.TrimSpace | rrl.go:106 | `strings.TrimSpace`: the result starts and ends with a non-space character, and a string that already does is returned unchanged |
| GoStrings.TrimAround | rrl.go:106-111 | `strings.Trim` removes exactly a surrounding run of cut characters, and keeps a core whose ends are not cut characters |
| Uuid.Hex | rrl.go:21 | `%X` of a byte slice: two upper-case hex digits per byte |
| Uuid.Format | rrl.go:21 | the printed token is 36 characters long, with a dash at 8, 13, 18 and 23 |
| Uuid.UnhexHex | rrl.go:21 | the hex printing is undone by reading the digits back |
| Uuid.FormatShape | rrl.go:21 | a token is 36 characters long, with dashes at 8, 13, 18 and 23 and upper-case hex everywhere else |
| Uuid.ParseFormat | rrl.go:21 | the 16 bytes can be recovered from a token, in order |
| Uuid.FormatInjective | rrl.go:21 | different byte blocks give different tokens, and equal ones the same |
| Uuid.HexUnhex | rrl.go:21 | reading hex digit pairs back and printing them again gives the same digits |
| Uuid.FormatParse | rrl.go:21 | every string of the token's shape is the token of the block it parses to, so the shape describes exactly the strings `uuid()` can return |
| Uuid.NewToken | rrl.go:14-22 | an error with no token exactly when `rand.Read` fails; otherwise a well-formed token that encodes the random bytes |
| Zparts.PairUp | rrl.go:114-127 | the pairing loop: even token count ⇔ success; pair k is built from tokens 2k and 2k+1 with `{` and `}` trimmed; an odd count indexes past the end |
| Zparts.ParseReply | rrl.go:97-130 | the parser, loop and all, returns what `Zparts.Parse` specifies |
| Zparts.Render | rrl.go:76 | the first colon of a printed reply is the first colon of its header, so zparts splits there |
| Zparts.RangeReply | rrl.go:76 | the first colon of the printed `ZRANGE` reply is the first colon of the key when it has one; otherwise it is the one right after the command line |
| Zparts.ParseRender | rrl.go:97-130 | zparts reads back exactly the pairs go-redis printed, in order, when the header has no colon and the tokens are plain |
| Zparts.ParseRangeReply | rrl.go:76 | the same for the printed reply to rrl's own `ZRANGE id 0 -1 WITHSCORES`, when `id` has no colon |
| Zparts.OnlySecondPart | rrl.go:100-106 | only the text between the first and second colons is read, and whatever follows a second colon is dropped |
| Zparts.EmptyCases | rrl.go:100-109 | an empty list is returned when there is no colon, or when the piece after it trims to `[]` |
| Zparts.BlankAfterColonPanics | rrl.go:106-116 | a colon followed only by white space leaves one empty token, and pairing it indexes past the end |
| Zparts.ColonInKeyIgnoresWindow | rrl.go:76 | with a colon in the key, the parse of the reply is the same whatever the window holds |
| Zparts.ParseScore | rrl.go:118 | a positive score only from digit text, a negative one only from `-` followed by digits; any other text reads as 0 |
| Zparts.ParseDecimal | rrl.go:118 | a printed score reads back as the same integer |
| SortedSetStore.InsertByScoreSorted | rrl.go:61 | inserting into a score-ordered listing keeps it ordered |
| SortedSetStore.InsertByScorePermutes | rrl.go:61 | the insertion adds exactly the new entry, and drops and duplicates nothing |
| SortedSetStore.Store.ZRemRangeByScore | rrl.go:60 | the members scored inside [min, max], both ends included, are removed from the key's set; nothing else changes |
| SortedSetStore.Store.ZRangeWithScores | rrl.go:61 | lists every member of the key's set once, with its score, in ascending score order |
| SortedSetStore.Store.ZAdd | rrl.go:62 | the member is added, or moved, to the given score; nothing else changes |
| SortedSetStore.Store.Expire | rrl.go:63 | the TTL is recorded only for a key that exists; the sets are untouched |
| Rrl.ClearBefore | rrl.go:49 | without int64 overflow, it is `now − intervalInMillis·1000` |
| Rrl.TtlSeconds | rrl.go:63 | the whole number of seconds in the interval, truncated: `secs·1000 ≤ interval < secs·1000 + 1000` |
| Rrl.Prune | rrl.go:60 | the survivors are exactly the entries scored below 0 or above `clearBefore`, with their scores |
| Rrl.Oldest | rrl.go:85-88 | the lowest score in a non-empty window, held by one of its members |
| Rrl.Recorded | rrl.go:60-62 | after a call, the set holds the survivors of the prune plus the caller's token at `now`, and nothing else |
| Rrl.HeadIsOldest | rrl.go:85-88 | the head of the sorted listing carries the window's oldest score |
| Rrl.Advice | rrl.go:76-92 | a panic exactly when zparts panicked, or when it returned no pairs and `maxInInterval ≤ 0`; a panic answers -1; a non-zero wait only when at least `maxInInterval` pairs were read |
| Rrl.AdviceMatchesDecide | rrl.go:74-92 | for a colon-free key and plain members, the advice read off the printed reply equals the decision on the window, for every order of ties |
| Rrl.RecordedStaysPlain | rrl.go:52-62 | rrl's own tokens are plain, so a set only TimeLeft writes keeps plain members |
| Rrl.DecisionRule | rrl.go:81-88 | on a pruned window: 0 ⇔ fewer than `maxInInterval` entries, or the oldest leaves within 1 ms; panic ⇔ empty window and `maxInInterval ≤ 0`; otherwise the wait is the truncated quotient |
| Rrl.WaitWithinInterval | rrl.go:48-88 | with scores in [0, now] and no overflow: `maxInInterval ≥ 1` rules out the panic, and every wait lies in [0, intervalInMillis] |
| Rrl.CountExcludesCaller | rrl.go:61-62 | the count read excludes the caller: the recorded set is one larger than the window the decision saw |
| Rrl.AdvisoryScenario | rrl.go:47-93 | with a 1000 ms window and capacity 2, calls at 0, 100, 200 and 1001 ms get 0, 0, 800 and 99 ms, because the third call was recorded |
| Rrl.RateLimiter.constructor | rrl.go:35-41 | the limiter holds the given interval, capacity and store unchanged |
| Rrl.RateLimiter.ExecPipeline | rrl.go:59-67 | the four commands in order: the listing is the sorted pruned window; the set becomes the pruned window plus the caller; the TTL is refreshed |
| Rrl.RateLimiter.AdviseFrom | rrl.go:74-92 | prints the listing, parses it with zparts and returns the advice on the parsed list |
| Rrl.RateLimiter.TimeLeft | rrl.go:47-93 | a failed `rand.Read` gives -1 and an error before any store command; a lost transaction gives -1 and an error; otherwise the set is pruned and the caller recorded; on delivery the advice is read off the printed reply (the decision on the window for a colon-free key; independent of the window for a key with a colon) |

## Left out

- Go's native types:
  - Floating point. Scores are integer microseconds. `float64(now)` is exact only below 2^53 µs. Out-of-range `int64(score)` conversion is not modelled.
  - go-redis prints scores in `%v` shortest form (`1.508595813639e+12`). The model prints them in decimal.
- `Zparts.ParseScore`:
  - It reads only `[-]digits`.
  - Fractions, exponents, `inf`, `nan` and the other forms that `strconv.ParseFloat` accepts all read as 0 here.
  - This matters only for a key containing a colon, whose words zparts then reads as scores.
- `Rrl.TtlSeconds`: does not model the int64 nanosecond overflow of `time.Duration(interval/1000)*time.Second`, which happens for intervals above about 9.2·10^12 ms. (`Rrl.ClearBefore` models the int64 overflow of `intervalInMillis*1000`, which needs intervals above about 9.2·10^15 ms.)
- Redis behaviour left unmodelled:
  - `EXPIRE` with 0 or fewer seconds, which every interval below 1000 ms produces (truncation gives 0 down to −999 ms, and a negative TTL below that). Redis then deletes the key; the model only records the TTL.
  - The TTL countdown, and a key's expiry over time.
  - Redis's deletion of a set emptied by `ZREMRANGEBYSCORE`. The model keeps the empty set with its TTL. Redis's `ZADD` recreates the key without a TTL, and the two states agree again only once the `EXPIRE` that follows in the same transaction has run.
  - The tie order of equal scores, which Redis breaks by member. The model allows any order. `TimeLeft` states the advice over some sorted listing.
  - A key holding a value that is not a sorted set. The modelled store holds only sorted sets, so no such key exists here. In Redis, `ZREMRANGEBYSCORE`, `ZRANGE` and `ZADD` would each fail with `WRONGTYPE` on it, and only `EXPIRE` would apply.
  - `TxPipeline`'s choice of which command error to report. The model has one failure value, `LostAfterExec`, whose store state is that of all four commands applied.
- Environment outside the model:
  - Concurrency between callers, the network transport, and MULTI/EXEC atomicity. Calls are sequential.
  - `time.Now`, `crypto/rand` and logrus. The clock and the random bytes are parameters, and logging is dropped.
  - The crash of a goroutine on a panic. A panic is returned as an `IndexOutOfRange` error value.
- Other files: `sample/main.go` (an HTTP front end) and `scale/simple.py` (a load script) are not part of this model.
