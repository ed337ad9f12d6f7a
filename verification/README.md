# SmartCacheDB: a verified model

SmartCacheDB is a Redis-like server in C++: three in-memory stores (strings, lists, hashes) under one
lock, an adaptive predictive cache that scores keys and chooses what to evict, a pool of worker
threads, and the RESP protocol between client and server. This project models those four parts in
Dafny and proves what they are for. `dafny verify dfyconfig.toml` checks all of it.

Two layers run through the project. The objects of the source are classes whose methods update their
fields as the source does (`RedisDatabase`, `AdaptivePredictiveCache`, `ThreadPool`), and loops of the
source are loops. Each is proved against a function on values (`Keyspace`, `Scoring`, `PoolProtocol`,
`Resp`, `ClientLine`, `ListSurgery`), and the theorems are about those functions, over every input,
every run and every interleaving.

| module | what is in it |
|---|---|
| `Bytes` | byte strings, enumerations of a set |
| `Resp`, `RespProofs` | request encoder and parser; round trip and truncation |
| `ClientLine` | the client's quote-aware command line, from the keyboard to the server's tokens; the inline format |
| `ListSurgery` | the three removal modes of LREM |
| `Scoring`, `ScoreLaws`, `PredictiveCache` | metadata, deadlines, scores in numbers and in order, the choice of a victim; the cache object |
| `Keyspace` | every command as a function on the state, eviction, runs under a clock that never goes back |
| `KeyspaceInvariants`, `Runs` | agreement of data and metadata, capacity; how runs are put together |
| `EagerExpiry` | lazy expiry with eviction simulates eager expiry, and is simulated by it |
| `EmptyKey` | a run in which the key "" keeps eviction from the policy |
| `Bounded` | the bounded database refines the unbounded one, exactly until a write starts a forgotten key over |
| `Deadlines`, `Dominance`, `Renaming` | what TTLs, scores and RENAME mean over runs |
| `Observations`, `CommandLaws`, `Accesses` | what clients see of a key and what each command makes of it; what counts as an access, and how accesses add up |
| `Pushes`, `PushHandlers` | multi-element pushes whose per-element locks interleave |
| `SlotUpdates`, `Database` | the database object, method by method |
| `PoolProtocol`, `ThreadPools` | the worker pool as a state machine, and as an object |

Choices that shape the model:

- Every clock reading is a parameter, one per operation, in nanosecond ticks of a steady clock; durations
  are truncated to whole seconds by integer division. TTLs and scores are exact reals. The library's
  `log1p` is a parameter, required to be strictly increasing, zero at zero, and below the largest double.
- The order in which a hash container is traversed is arbitrary: a fresh enumeration each time.
- A command on one key touches only that key's slot (its string, its list, its hash, its metadata), so it
  is a function on slots; a key may sit in several stores at once, as in the source.
- A run is a sequence of commands with their times and the key each of them evicted, if any. Every method
  of the database holds the mutex throughout, so runs are all there is to its concurrency.
- `getTotalKeyCount`, `delInternal` and `isExpired` follow src/RedisDatabase.cpp, where they are defined;
  include/RedisDatabase.h does not declare them. HKEYS and HVALS return two sides of what HGETALL returns,
  and share its command in `Keyspace`.
- `stoi` is modelled with its exceptions, and the parser's `int` and unsigned arithmetic with its limits, so
  the round trip is stated as an equivalence: it holds if and only if the number of arguments fits an `int`
  and each length plus two does. A longer payload ends in an exception or a signed overflow.

What the code does and its documentation does not say, each stated as a lemma:

- RENAME of a key to itself deletes the key and reports failure (`Renaming.RenameToItselfDeletes`); a failed
  RENAME still deletes a target unless the source had expired (`Renaming.RenameFails`).
- DEL and EXPIRE of an expired key, and RENAME of an expired key onto a live one, are exactly the commands by
  which a client can tell lazy from eager expiry (`EagerExpiry.SameExactly`).
- An expired key named "" shields itself from eviction, at the cost of a live key
  (`EmptyKey.EmptyKeyShieldsItself`); `EagerExpiry.EvictionKeepsPolicyExactly` says exactly when eviction
  keeps to the policy, and `Dominance.DominatedGoesFirst` what the exception means for dominance.
- A push or a hash write to a key that was evicted starts it over, where the same server without a limit would
  extend it; so does a SET where the key also held a list or a hash (`Bounded.AfterRefines` says exactly when,
  `Bounded.RestartReached` gives a run for every limit).
- Popping or removing the last element of a list, or deleting the last field of a hash, deletes a string of the
  same name (`CommandLaws.PopMayTakeTheString`, `LRemMayTakeTheString`, `HDelMayTakeTheString`).
- A bulk string of length -1 swallows all the rest of the input (`RespProofs.NullBulkTakesTheRest`).
- HMSET without a pair would track a key that holds nothing; its handler rules that out
  (`KeyspaceInvariants.HMSetAgreement`).
- A TTL with a fraction of a second ends at the next whole second (`Deadlines.SetDeadline`).
- Quoting carries an argument through the client's tokenizer exactly if it has no double quote, or begins with
  one and has no blank (`ClientLine.QuotingRoundTrip`).
- A pool without workers never drains, in any execution (`PoolProtocol.NoWorkersNoDrain`).

## Model

| member | source | states |
|---|---|---|
| Resp.BuildRespCommand | RedisClient/src/CommandHandler.cpp:28-36 | the stream loop writes exactly the encoding of the argument list |
| Resp.FindCrlf | src/RedisCommandHandler.cpp:31-41 | finds the first CRLF at or after a position, and nothing only if there is none |
| Resp.SplitWords | src/RedisCommandHandler.cpp:18-25 | repeated stream extraction yields the words of the line |
| Resp.ReadElement | src/RedisCommandHandler.cpp:38-48 | one turn of the element loop: stop, raise, or token and next position; what that means for a bulk string is RespProofs.ReadBulk |
| Resp.ReadElements | src/RedisCommandHandler.cpp:37-52 | the element loop with its early exits reads what the recursive grammar reads |
| Resp.ParseRespCommand | src/RedisCommandHandler.cpp:14-54 | the whole parser, inline fallback and exceptions included |
| RespProofs.DecimalRoundTrip | RedisClient/src/CommandHandler.cpp:30-33 | printing a number in decimal and reading its digits gives the number back |
| RespProofs.StoiOfDecimal | src/RedisCommandHandler.cpp:34-43 | stoi reads every printed number up to the largest int and raises on the rest |
| RespProofs.ReadBulk | src/RedisCommandHandler.cpp:38-48 | a bulk string is read whole once its payload has arrived, not at all before, and raises if its size does not fit |
| RespProofs.ReadBulks | src/RedisCommandHandler.cpp:37-52 | from a stream cut anywhere, exactly the arguments that have wholly arrived are read |
| RespProofs.ArrivedExactly | src/RedisCommandHandler.cpp:45 | an argument counts as arrived if and only if its last payload byte has |
| RespProofs.OversizedRaises | src/RedisCommandHandler.cpp:43-48 | a payload too long for int arithmetic makes the parser raise, wherever it stands |
| RespProofs.RoundTrip | src/RedisCommandHandler.cpp:26-52 | parsing an encoded command followed by any bytes gives back its arguments, whatever they contain, if and only if the sizes fit |
| RespProofs.Truncation | src/RedisCommandHandler.cpp:14-54 | every prefix of the stream parses to exactly the leading arguments whose payload bytes are all there |
| RespProofs.DecimalDigits | RedisClient/src/CommandHandler.cpp:30-33 | numbers are written in decimal digits, the most significant first |
| RespProofs.OnTheWire | RedisClient/src/CommandHandler.cpp:28-36 | GET k, one empty argument, and none, byte for byte |
| RespProofs.StoiUnsigned | src/RedisCommandHandler.cpp:34-43 | stoi skips the six blanks, reads the digits and ignores what follows |
| RespProofs.StoiSigned | src/RedisCommandHandler.cpp:34-43 | the same with a sign, down to the smallest int |
| RespProofs.NegativeCount | src/RedisCommandHandler.cpp:34-37 | an array header with a negative count yields no tokens |
| RespProofs.ForeignMarkStops | src/RedisCommandHandler.cpp:38 | an element that does not start with a dollar sign ends the command |
| RespProofs.NullBulkTakesTheRest | src/RedisCommandHandler.cpp:43-47 | a bulk string of length -1 is read as all the rest of the input |
| ClientLine.SplitArgs | RedisClient/src/CommandHandler.cpp:4-21 | the match loop and its quote stripping compute the regular expression's tokens |
| ClientLine.SplitsBack | RedisClient/src/CommandHandler.cpp:4-21 | a line of bare and quoted arguments splits into those arguments, empty and blank ones included |
| ClientLine.SplitsSpread | RedisClient/src/CommandHandler.cpp:4-21 | tabs, line ends and runs of blanks separate arguments as a single blank does |
| ClientLine.TypedBytes | RedisClient/src/CommandHandler.cpp:7-16 | in bytes: a word, a blank, and text between double quotes are two arguments |
| ClientLine.QuotingRoundTrip | RedisClient/src/CommandHandler.cpp:7-16 | quoting every argument and splitting gives the arguments back exactly if each is quotable |
| ClientLine.TypedLineArrives | RedisClient/src/CommandHandler.cpp:4-36 | a typed line goes through tokenizer, encoder and parser and arrives as the arguments typed |
| ClientLine.InlineArrives | src/RedisCommandHandler.cpp:17-25 | a line of words sent as it is arrives as those words, exactly if it does not start with a star |
| ClientLine.InlineSpreadArrives | src/RedisCommandHandler.cpp:17-25 | an inline command may begin with blanks, end in CRLF and hold tabs and runs of blanks; it arrives as its words |
| ListSurgery.EraseAll | src/RedisDatabase.cpp:351-354 | remove-and-erase drops all matches and reports how many |
| ListSurgery.EraseForward | src/RedisDatabase.cpp:355-363 | the erasing loop from the head removes the first count matches |
| ListSurgery.EraseBackward | src/RedisDatabase.cpp:364-376 | the reverse-iterator loop removes the last count matches |
| ListSurgery.Erase | src/RedisDatabase.cpp:351-376 | the three branches together |
| ListSurgery.RemoveFirstCut | src/RedisDatabase.cpp:355-363 | up to some point min(count, occurrences) matches are dropped and nothing else, and from there nothing changes |
| ListSurgery.RemoveLastCut | src/RedisDatabase.cpp:364-376 | the same from the tail |
| ListSurgery.BackwardIsMirroredForward | src/RedisDatabase.cpp:364-376 | the tail mode is reverse, head mode, reverse |
| ListSurgery.RemovedConserves | src/RedisDatabase.cpp:338-385 | in every mode the occurrences drop by exactly the quota and all other elements keep their order |
| ListSurgery.RemoveFirstComposes | src/RedisDatabase.cpp:355-363 | removing m and then n from the head is removing m + n |
| ListSurgery.NothingToRemove | src/RedisDatabase.cpp:378-383 | a removal that removes nothing leaves the list as it was |
| Scoring.ExpiredExactly | src/AdaptivePredictiveCache.cpp:21-33 | with elapsed time truncated to seconds, a key is expired exactly from its deadline on |
| Scoring.ExpiryIsForGood | src/RedisDatabase.cpp:36-43 | once expired, always expired |
| Scoring.ScoreBounds | src/AdaptivePredictiveCache.cpp:35-65 | live scores are positive, and every score is below the scan's start value |
| Scoring.ScanMeetsPolicy | src/AdaptivePredictiveCache.cpp:67-98 | in any iteration order the single pass returns an expired key if there is one, else one of minimal current score |
| Scoring.EveryCandidateReachable | src/AdaptivePredictiveCache.cpp:67-98 | every key so allowed is returned for some order: stored scores never matter |
| Scoring.DominanceScores | src/AdaptivePredictiveCache.cpp:35-65 | at least as recent, strictly more accesses and no smaller TTL share give a strictly higher score |
| ScoreLaws.RemainingRunsDown | src/AdaptivePredictiveCache.cpp:21-33 | what remains of a TTL runs down second by second and stops at zero |
| ScoreLaws.ScoreInNumbers | src/AdaptivePredictiveCache.cpp:35-65 | the score after d idle seconds and e seconds of the TTL, in numbers, the three weights included |
| ScoreLaws.IdlenessCosts | src/AdaptivePredictiveCache.cpp:45-47 | d idle seconds cost half of d / (1 + d) |
| ScoreLaws.AccessesAreWorth | src/AdaptivePredictiveCache.cpp:49-50 | accesses are worth 0.3 times the difference of their log1p |
| ScoreLaws.FreshTtlIsWorth | include/AdaptivePredictiveCache.h:22-24 | a TTL just set is worth 0.2 |
| ScoreLaws.ExpiredScoresLowest | src/AdaptivePredictiveCache.cpp:55-60 | an expired key scores below every live one |
| ScoreLaws.BeatsScores | src/AdaptivePredictiveCache.cpp:35-65 | as good in recency, accesses and TTL share, and better in one of them, is a strictly higher score |
| ScoreLaws.LaterUseWins | src/AdaptivePredictiveCache.cpp:45-47 | of keys otherwise alike, the one used a second or more later is ahead |
| ScoreLaws.LaterTtlWins | src/AdaptivePredictiveCache.cpp:52-62 | of keys otherwise alike, the one whose TTL was set a second or more later is ahead |
| PredictiveCache.AdaptivePredictiveCache.RecordAccess | src/AdaptivePredictiveCache.cpp:4-11 | the count goes up by one and the last access is now, field by field, on the entry or a default one; TTL and its start stay; the cached score becomes current |
| PredictiveCache.AdaptivePredictiveCache.SetTTL | src/AdaptivePredictiveCache.cpp:13-19 | TTL, its start and the last access are set, the count kept; the cached score becomes current |
| PredictiveCache.AdaptivePredictiveCache.GetTTLRemaining | src/AdaptivePredictiveCache.cpp:21-33 | in the second that begins e seconds after the TTL was set, exactly the TTL less e, never negative; zero without a TTL |
| PredictiveCache.AdaptivePredictiveCache.UpdateScore | src/AdaptivePredictiveCache.cpp:35-65 | changes this key's cached score to its current one and nothing else |
| PredictiveCache.AdaptivePredictiveCache.EvictCandidate | src/AdaptivePredictiveCache.cpp:67-98 | the loop with its running minimum returns the scan's key, whatever scores were cached |
| PredictiveCache.AdaptivePredictiveCache.RemoveKey | src/AdaptivePredictiveCache.cpp:100-102 | exactly this key's metadata goes |
| PredictiveCache.AdaptivePredictiveCache.GetScore | src/AdaptivePredictiveCache.cpp:108-115 | the current score, zero for an unknown key |
| PredictiveCache.AdaptivePredictiveCache.Clear | src/AdaptivePredictiveCache.cpp:117-119 | no metadata is left |
| KeyspaceInvariants.AgreementMeans | src/RedisDatabase.cpp:24-33 | slot by slot agreement is: metadata keys are the union of the stores' keys, counts are positive, no list or hash is empty |
| KeyspaceInvariants.HMSetAgreement | src/RedisCommandHandler.cpp:327-337 | HMSET keeps agreement exactly if it has a pair or the key is live, which is why the handler checks |
| KeyspaceInvariants.KeysAt | src/RedisDatabase.cpp:120-139 | what KEYS does to each key: expired ones go, the others are accessed |
| KeyspaceInvariants.RenameAt | src/RedisDatabase.cpp:188-247 | what RENAME does to each key, target deletion before the source check included, and when it succeeds |
| KeyspaceInvariants.AfterAgrees | src/RedisDatabase.cpp:72-568 | every command keeps data and metadata in agreement |
| KeyspaceInvariants.AfterCount | src/RedisDatabase.cpp:82-568 | a creating write adds at most one to the store sizes; no other command, RENAME included, adds any |
| KeyspaceInvariants.VictimHasData | src/RedisDatabase.cpp:46-70 | whatever key eviction chooses, by policy or by fallback, holds data, so room is freed |
| KeyspaceInvariants.NextWithinLimit | src/RedisDatabase.cpp:46-70 | one eviction is always enough |
| KeyspaceInvariants.EveryCommandRuns | src/RedisDatabase.cpp:46-70 | an overfull database always finds a key to evict, so every command completes |
| KeyspaceInvariants.RunKeepsInvariants | src/RedisDatabase.cpp:16-568 | agreement and capacity hold over every run |
| KeyspaceInvariants.ReachableInvariants | include/RedisDatabase.h:64-70 | from an empty server, every reachable state has agreeing metadata and at most the limit of keys |
| EagerExpiry.PurgeTwice | src/RedisDatabase.cpp:36-43 | purging now and again later is purging later |
| EagerExpiry.SameExactly | src/RedisDatabase.cpp:82-568 | a command gives the same answer and the same purged state on the lazy and the purged database if and only if it is not one of the three divergent ones |
| EagerExpiry.VictimIsCandidate | src/RedisDatabase.cpp:46-70 | unless the policy may pick the key "", the fallback is never used: victims are exactly the policy's candidates |
| EagerExpiry.FallbackOrder | src/RedisDatabase.cpp:58-66 | a victim against the policy is a string if there is any, else a list if there is any, else a hash |
| EagerExpiry.FallbackAny | src/RedisDatabase.cpp:53-66 | and any such key may be the one once "" may be picked |
| EagerExpiry.EvictionKeepsPolicyExactly | src/RedisDatabase.cpp:53-66 | eviction keeps to the policy if and only if, when the key "" may be picked, all keys of the first non-empty store are candidates |
| EagerExpiry.EagerStep | src/RedisDatabase.cpp:24-70 | a lazy step that is not divergent, and evicts an expired key if there is one, is an eager step, which then evicts nothing |
| EagerExpiry.EagerStepExactly | src/RedisDatabase.cpp:24-70 | a lazy step is matched by some eager step, with the same answer and the same purged state, if and only if it is such a step |
| EagerExpiry.LazyStep | src/RedisDatabase.cpp:24-70 | an eager step that is not divergent is a lazy one, if the lazy database finds an expired key to evict where it must evict and some key is expired |
| EagerExpiry.LazyStepExactly | src/RedisDatabase.cpp:24-70 | an eager step is matched by some lazy step if and only if that holds |
| EagerExpiry.LazyRefinesEager | src/RedisDatabase.cpp:24-568 | every run without divergent commands, whose evictions take expired keys first, is matched by an eager run with the same answers and the same purged states |
| EagerExpiry.EagerRefinesLazy | src/RedisDatabase.cpp:24-568 | every eager run whose steps can each be followed is matched by a lazy one in the same way |
| EagerExpiry.EagerKeepsInvariants | src/RedisDatabase.cpp:24-568 | the eager system keeps agreement and capacity, and never holds an expired key after a command |
| EagerExpiry.NamedRunsConform | src/RedisDatabase.cpp:53-58 | while no key is called "", every run without divergent commands is such a run: evictions take expired keys first |
| EagerExpiry.NamedRunsFollowable | src/RedisDatabase.cpp:53-58 | and every eager run without divergent commands can be followed |
| EmptyKey.EmptyKeyShieldsItself | src/RedisDatabase.cpp:53-66 | under every limit from 2 on, a run from an empty server in which the expired key "" stays and a live key, not a candidate, is evicted |
| Bounded.SubDbMeans | src/RedisDatabase.cpp:46-70 | the relation proved over runs is sub-map: contents of all stores, TTLs, the times at which they were set, and hence expiry |
| Bounded.AfterRefines | src/RedisDatabase.cpp:72-568 | every command misses or agrees, and keeps the sub-map relation if and only if it does not start a forgotten live key over |
| Bounded.UnlimitedRuns | include/RedisDatabase.h:70 | the run without eviction is a run of the same code under a limit the commands cannot reach |
| Bounded.BoundedRefinesUnlimited | src/RedisDatabase.cpp:46-568 | over any run of any commands that starts no forgotten key over, the bounded keyspace stays a sub-map and every answer agrees or is a miss |
| Bounded.StringsNeverStartOver | src/RedisDatabase.cpp:82-102 | runs of string commands never start a key over, so they always refine |
| Bounded.EveryGetMissesOrAgrees | src/RedisDatabase.cpp:104-118 | from an empty server, on runs of string commands, every GET misses or returns exactly what the unlimited server returns |
| Bounded.ListsStartOver | src/RedisDatabase.cpp:250-298 | what clients see of a list started over: LGET answers the push alone, the unlimited server the whole list |
| Bounded.RestartReached | src/RedisDatabase.cpp:46-70 | under every positive limit, a run from an empty server that starts a forgotten list over, and the two different LGET answers after it |
| Deadlines.VisibleToClients | src/RedisDatabase.cpp:120-164 | visible means that TYPE finds the key, and that KEYS lists it |
| Deadlines.CalmNext | src/RedisDatabase.cpp:250-568 | no read, push or hash write moves a deadline, and an expired key stays gone until written anew |
| Deadlines.StaysOnCourse | src/RedisDatabase.cpp:36-43 | so it is over whole runs |
| Deadlines.DeadlineExact | src/AdaptivePredictiveCache.cpp:4-33 | in any run that leaves the deadline alone, the key is visible exactly before it |
| Deadlines.ExpireDeadline | src/RedisDatabase.cpp:171-186 | EXPIRE k s at t: visible at every moment before t + s and at none from t + s on |
| Deadlines.SetDeadline | src/RedisDatabase.cpp:82-102 | SET with a TTL: the same, with fractions of a second rounded up |
| Deadlines.ExpireRunsDown | src/AdaptivePredictiveCache.cpp:21-33 | after EXPIRE k s at t, in the second that begins at t + e exactly s - e seconds remain |
| Deadlines.SetRunsDown | src/AdaptivePredictiveCache.cpp:21-33 | and after SET with a TTL the TTL less e |
| Dominance.DominatedGoesFirst | src/AdaptivePredictiveCache.cpp:67-98 | while a key it dominates is tracked, a live key is evicted if and only if the key "" is picked and the fallback takes it |
| Dominance.BeatenGoesFirst | src/AdaptivePredictiveCache.cpp:67-98 | the same for any key that it beats: as good in recency, accesses and TTL share, and better in one |
| Dominance.IdlerGoesFirst | src/AdaptivePredictiveCache.cpp:45-47 | idle time counts: of two keys without TTL and equally often used, the one idle for a second more goes first |
| Dominance.EndingTtlGoesFirst | src/AdaptivePredictiveCache.cpp:52-62 | of two keys with the same TTL and otherwise alike, the one with a second less of it left goes first |
| Dominance.OutrankedGoesFirst | src/AdaptivePredictiveCache.cpp:35-98 | between two keys without TTL this stays so over any run that accesses neither but by KEYS and never evicts while "" may be picked: if the outranked one is left, the other is, still ahead |
| Dominance.NamedByPolicy | src/RedisDatabase.cpp:53-58 | runs whose keys all have names are such runs |
| Renaming.RenameMoves | src/RedisDatabase.cpp:188-247 | a live source moves with contents in all stores, deadline and count plus one; the old target is gone, all else unchanged, no key is gained |
| Renaming.RenameFails | src/RedisDatabase.cpp:191-203 | exactly when RENAME fails, and exactly what is lost when it does |
| Renaming.RenameToItselfDeletes | src/RedisDatabase.cpp:197-203 | a key renamed to itself is deleted and the reply says failure |
| CommandLaws.SetThenGet | src/RedisDatabase.cpp:82-118 | GET returns what SET stored, up to its deadline and not after |
| CommandLaws.PopUndoesPush | src/RedisDatabase.cpp:278-336 | a push extends one end, and the pop at that end returns the element and restores the list |
| CommandLaws.LSetThenLIndex | src/RedisDatabase.cpp:387-429 | LINDEX sees LSET's element at its position, negative or not, and the old ones elsewhere |
| CommandLaws.HSetThenHGet | src/RedisDatabase.cpp:432-460 | HGET sees HSET's field and the others as before |
| CommandLaws.HMSetThenHGet | src/RedisDatabase.cpp:556-568 | of several pairs for a field the last one counts; other fields keep their values |
| CommandLaws.HDelThenHGet | src/RedisDatabase.cpp:476-492 | HDEL takes its field and no other |
| CommandLaws.PopMayTakeTheString | src/RedisDatabase.cpp:300-336 | a string under a list's key survives a pop exactly if the list does |
| CommandLaws.HDelMayTakeTheString | src/RedisDatabase.cpp:476-492 | a string under a hash's key survives HDEL exactly if another field does |
| CommandLaws.LRemMayTakeTheString | src/RedisDatabase.cpp:338-385 | a string under a list's key survives LREM exactly if an element does, that is unless all elements match and the count covers them |
| Observations.ContentsAnswered | src/RedisDatabase.cpp:104-118 | GET, LGET and HGETALL answer the contents of a live key, and nothing of an expired one |
| Observations.SizesAnswered | src/RedisDatabase.cpp:264-276 | LLEN and HLEN answer the sizes of what LGET and HGETALL answer |
| Observations.IndexAnswered | src/RedisDatabase.cpp:387-407 | LINDEX answers the element of LGET's list counted from 0 at the head or from -1 at the tail |
| Observations.FieldAnswered | src/RedisDatabase.cpp:444-474 | HGET and HEXISTS answer what HGETALL shows of the field |
| Observations.TypeAnswered | src/RedisDatabase.cpp:141-164 | TYPE names the first kind of content there is: string, list, hash, or none |
| Observations.ReadsChangeNothing | src/RedisDatabase.cpp:104-118 | no read changes what can be seen of a key |
| Observations.ExpiredIsDeleted | src/RedisDatabase.cpp:106-109 | every command but a creating write and EXPIRE deletes an expired key |
| Observations.SetSeen | src/RedisDatabase.cpp:82-102 | SET stores the string and leaves a list and a hash under the key alone |
| Observations.DelSeen | src/RedisDatabase.cpp:24-33 | DEL deletes all there is, expired or not, and says whether there was anything |
| Observations.ExpireNow | src/RedisDatabase.cpp:181-184 | EXPIRE with zero or fewer seconds deletes the key at once and for good |
| Observations.ExpireLater | src/RedisDatabase.cpp:171-180 | EXPIRE with seconds succeeds exactly on a key that holds something: TTL set from now, one access |
| Observations.FlushAllSeen | src/RedisDatabase.cpp:72-79 | nothing is left after FLUSHALL |
| Observations.PushSeen | src/RedisDatabase.cpp:278-298 | LPUSH adds at the head, RPUSH at the tail, and nothing else changes |
| Observations.PopSeen | src/RedisDatabase.cpp:300-336 | LPOP takes and answers the head, RPOP the last element; an emptied list takes the key along |
| Observations.LSetSeen | src/RedisDatabase.cpp:409-429 | LSET replaces the element at its position, from either end, and fails where there is none |
| Observations.LRemSeen | src/RedisDatabase.cpp:338-385 | LREM answers the drop in length; an emptied list takes the key along |
| Observations.LRemHead | src/RedisDatabase.cpp:355-363 | a positive count removes the first matches up to a cut and answers how many; the rest of the list stays |
| Observations.LRemTail | src/RedisDatabase.cpp:364-376 | a negative count removes the last matches from a cut on and answers how many; the list before it stays |
| Observations.LRemAll | src/RedisDatabase.cpp:351-354 | count zero removes all matches and answers how many |
| Observations.HSetSeen | src/RedisDatabase.cpp:432-442 | HSET sets its field in what HGETALL answers, and nothing else changes |
| Observations.HMSetSeen | src/RedisDatabase.cpp:556-568 | HMSET sets each field to its last value, and nothing else changes |
| Observations.HMSetIsHSets | src/RedisDatabase.cpp:556-568 | HMSET is its pairs set one after the other, as HSET would |
| Observations.HDelSeen | src/RedisDatabase.cpp:476-492 | HDEL takes out its field and says whether it was there; the last field takes the key along |
| Accesses.SlotAccess | src/RedisDatabase.cpp:82-568 | a command that finds what it is about is one access, now, and moves no TTL but SET's and EXPIRE's; any other leaves the metadata alone |
| Accesses.ExpiredStartsAnew | src/RedisDatabase.cpp:82-89 | a write on an expired key starts as on a missing one |
| Accesses.KeysAccesses | src/RedisDatabase.cpp:120-139 | KEYS is an access to every live key and deletes the expired ones |
| Accesses.AccessIsRemembered | src/AdaptivePredictiveCache.cpp:4-11 | in the metadata of the database: one access more, the last one now, the TTL as it was |
| Accesses.AnsweredGetIsRemembered | src/RedisDatabase.cpp:104-118 | in particular a GET that is answered |
| Accesses.AccessesAddUp | src/AdaptivePredictiveCache.cpp:4-11 | over any run in which the key stays, the count grows by its accesses and the last access is the time of the last of them |
| Pushes.ListGrows | src/RedisDatabase.cpp:278-298 | in any undisturbed run the list grows at each end by the elements pushed there, in lock order, mirrored at the front |
| Pushes.InterleavedPushes | src/RedisCommandHandler.cpp:158-179 | under any interleaving of any number of LPUSH and RPUSH commands the list grows at each end by an order-preserving shuffle of their arguments, mirrored at the front |
| Pushes.PushReplies | src/RedisCommandHandler.cpp:166-178 | each reply lies between initial length plus own arguments and final length |
| PushHandlers.HandlePush | src/RedisCommandHandler.cpp:158-179 | LPUSH needs three tokens and RPUSH two; the handler loop runs its program of one push per element and one LLEN, and replies with that length |
| SlotUpdates.DataMoved | src/RedisDatabase.cpp:210-232 | moving the three store entries is moving the slot's data |
| Database.RedisDatabase.constructor | include/RedisDatabase.h:59-70 | starts empty, with the limit of 10000 unless told otherwise |
| Database.RedisDatabase.DelInternal | src/RedisDatabase.cpp:24-33 | the key leaves all stores, and the metadata if it had data |
| Database.RedisDatabase.IsExpired | src/RedisDatabase.cpp:36-43 | tells whether the key has expired; refreshes a cached score and nothing else |
| Database.RedisDatabase.DeleteIfExpired | src/RedisDatabase.cpp:252-255 | the lazy expiry that opens every command on a key |
| Database.RedisDatabase.CheckAndEvict | src/RedisDatabase.cpp:46-70 | an overfull database loses exactly one key, a policy candidate or the fallback; any other is unchanged |
| Database.RedisDatabase.FlushAll | src/RedisDatabase.cpp:72-79 | takes the step of FLUSHALL |
| Database.RedisDatabase.Set | src/RedisDatabase.cpp:82-102 | takes the step of SET, eviction included |
| Database.RedisDatabase.Get | src/RedisDatabase.cpp:104-118 | takes the step and gives the answer of GET |
| Database.RedisDatabase.Keys | src/RedisDatabase.cpp:120-139 | takes the step of KEYS and lists exactly the live keys, each once |
| Database.RedisDatabase.VisitKey | src/RedisDatabase.cpp:130-137 | one turn of that loop |
| Database.RedisDatabase.Type | src/RedisDatabase.cpp:141-164 | takes the step and gives the answer of TYPE |
| Database.RedisDatabase.Del | src/RedisDatabase.cpp:166-169 | takes the step and gives the answer of DEL |
| Database.RedisDatabase.Expire | src/RedisDatabase.cpp:171-186 | takes the step and gives the answer of EXPIRE |
| Database.RedisDatabase.LGet | src/RedisDatabase.cpp:250-262 | takes the step and gives the answer of LGET |
| Database.RedisDatabase.LLen | src/RedisDatabase.cpp:264-276 | takes the step and gives the answer of LLEN |
| Database.RedisDatabase.LPush | src/RedisDatabase.cpp:278-287 | takes the step of LPUSH, eviction included |
| Database.RedisDatabase.RPush | src/RedisDatabase.cpp:289-298 | takes the step of RPUSH, eviction included |
| Database.RedisDatabase.RPop | src/RedisDatabase.cpp:300-317 | takes the step and gives the answer of RPOP |
| Database.RedisDatabase.LPop | src/RedisDatabase.cpp:319-336 | takes the step and gives the answer of LPOP |
| Database.RedisDatabase.LRem | src/RedisDatabase.cpp:338-385 | takes the step and gives the answer of LREM |
| Database.RedisDatabase.LIndex | src/RedisDatabase.cpp:387-407 | takes the step and gives the answer of LINDEX |
| Database.RedisDatabase.LSet | src/RedisDatabase.cpp:409-429 | takes the step and gives the answer of LSET |
| Database.RedisDatabase.HSet | src/RedisDatabase.cpp:432-442 | takes the step of HSET, eviction included |
| Database.RedisDatabase.HGet | src/RedisDatabase.cpp:444-460 | takes the step and gives the answer of HGET |
| Database.RedisDatabase.HExists | src/RedisDatabase.cpp:462-474 | takes the step and gives the answer of HEXISTS |
| Database.RedisDatabase.HDel | src/RedisDatabase.cpp:476-492 | takes the step and gives the answer of HDEL |
| Database.RedisDatabase.HGetAll | src/RedisDatabase.cpp:494-506 | takes the step and gives the answer of HGETALL |
| Database.RedisDatabase.HKeys | src/RedisDatabase.cpp:508-523 | lists the fields, each once |
| Database.RedisDatabase.HVals | src/RedisDatabase.cpp:525-540 | lists the values, one for each field |
| Database.RedisDatabase.HLen | src/RedisDatabase.cpp:542-554 | takes the step and gives the answer of HLEN |
| Database.RedisDatabase.HMSet | src/RedisDatabase.cpp:556-568 | takes the step of HMSET, eviction included |
| Database.RedisDatabase.MoveData | src/RedisDatabase.cpp:210-232 | the three blocks move what the stores hold from one key to the other |
| Database.RedisDatabase.TransferStats | src/RedisDatabase.cpp:234-245 | the target gets the source's statistics and one access more |
| Database.RedisDatabase.Rename | src/RedisDatabase.cpp:188-247 | takes the step and gives the answer of RENAME |
| PoolProtocol.StepKeepsWakeups | src/ThreadPool.cpp:6-20 | every step keeps: while a worker sleeps, queued work is covered by notifications and testing workers; after stop, sleepers wait only for notify_all |
| PoolProtocol.StepKeepsOrder | include/ThreadPool.h:28-39 | every step keeps: started then queued is accepted, and exits only from a drained, stopped pool |
| PoolProtocol.StepKeepsCount | src/ThreadPool.cpp:16-19 | every step keeps: each started item is in the hands of one worker or finished |
| PoolProtocol.ReachableInv | src/ThreadPool.cpp:3-34 | in every reachable state: no lost wakeup, FIFO, nothing started twice, drained exits |
| PoolProtocol.SubmissionsAccepted | include/ThreadPool.h:28-38 | each submission is one accepted task, none is forgotten, and no worker comes or goes |
| PoolProtocol.RefusedAfterStop | include/ThreadPool.h:33-35 | submissions are refused after the stop and never before it |
| PoolProtocol.QueuedWorkMoves | src/ThreadPool.cpp:9-19 | with work queued, some worker or notification can move |
| PoolProtocol.StopMeasureDecreases | src/ThreadPool.cpp:25-33 | after stop every worker step, notification and spurious wakeup decreases a measure |
| PoolProtocol.ShutdownNeverStuck | src/ThreadPool.cpp:25-33 | while a worker has not exited, a step other than a spurious wakeup is enabled |
| PoolProtocol.JoinedDrained | src/ThreadPool.cpp:31-33 | when the joins return, every accepted item was started in order and has finished |
| PoolProtocol.AllSubmittedFinish | src/ThreadPool.cpp:25-33 | from start to join, as many tasks have finished as were submitted, none twice |
| PoolProtocol.ShutdownTerminates | src/ThreadPool.cpp:25-33 | from any reachable stopped pool every execution is bounded, and ends joined and drained |
| PoolProtocol.NoWorkersNoDrain | src/ThreadPool.cpp:3-4 | with no worker nothing queued is ever taken, in any execution, and the joins return at any time |
| PoolProtocol.QuietPoolDrains | src/ThreadPool.cpp:6-20 | a running pool left alone works off its queue in a bounded number of steps |
| ThreadPools.ThreadPool.constructor | src/ThreadPool.cpp:3-23 | the given number of workers, all about to test the predicate |
| ThreadPools.ThreadPool.EnqueueLocked | include/ThreadPool.h:28-38 | the push under the lock, or the refusal after stop |
| ThreadPools.ThreadPool.NotifyOneWaiter | include/ThreadPool.h:39 | wakes some sleeper if there is one |
| ThreadPools.ThreadPool.WorkerSection | src/ThreadPool.cpp:8-18 | predicate, exit test and dequeue in one critical section |
| ThreadPools.ThreadPool.TaskReturns | src/ThreadPool.cpp:19 | the worker goes back for more |
| ThreadPools.ThreadPool.WakesUp | src/ThreadPool.cpp:10-12 | a spurious wakeup only leads to another test of the predicate |
| ThreadPools.ThreadPool.SetStop | src/ThreadPool.cpp:26-29 | stop is set and notify_all pending |
| ThreadPools.ThreadPool.NotifyAllWaiters | src/ThreadPool.cpp:30 | every sleeper wakes |
| ThreadPools.ThreadPool.Destroy | src/ThreadPool.cpp:25-34 | against any scheduler the destructor terminates with all workers exited and, given a worker, everything accepted finished |

## Left out

- `dump` and `load`, and the 300-second persistence thread: `dump` writes a backslash and an `n` for a newline, and `load` takes a lock it already holds, so no round trip is true of them.
- Sockets, signals, the accept loop, the command-line loops: input and output.
- Reply formatting and the client's reply parser: several replies are not what their commands computed (LGET, LPOP, RPOP in src/RedisCommandHandler.cpp:140-200); list properties are stated on the database's methods.
- The dispatch of command names and the argument-count messages, but for the checks of HMSET and of the pushes.
- Floating-point rounding, the value of `log1p`, overflow of access counts, of `-count` in LREM and of list sizes beyond an `int`, hash-table growth and iterator validity.
- Several clock readings within one operation: there is one per operation.
- Resp.Parse: covers inputs of any length; std::string's own size limit is not modelled, but for sums of position and length that wrap around, which exceed any size.
- What pooled work does: it runs for a while and returns; an exception in it, and the future that `enqueue` returns, are not modelled.
