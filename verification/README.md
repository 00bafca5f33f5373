# MediaRoulette Reddit source: a Dafny model

This project models the Reddit media source of the MediaRoulette bot. It covers three parts:

- **Prefetch cache (`RedditProvider`).** For each subreddit the provider keeps three things in memory:
  - a FIFO queue of media results;
  - a set of fingerprints of the results it has already queued;
  - the time of the last refresh.

  Two persistent caches mirror the queue (`reddit_media_cache.json`) and the refresh time (`reddit_timestamps.json`). A request works in three steps:
  - it chooses a subreddit;
  - it loads the subreddit's saved state once;
  - it refreshes when the queue holds fewer than 10 items or is older than ten minutes.

  Then it polls the head of the queue. A refresh merges the shuffled results of the `hot`, `top` and `new` listings into the queue. The merge stops at 200 queued items, skips results whose fingerprint was already seen, and empties the fingerprint set once it holds more than 400 entries.
- **Subreddit memo and fallback (`SubredditManager`).**
  - A memo records which subreddits exist. It is cleared when it grows past 1000 entries.
  - A fallback draws a subreddit from the shuffled, trimmed lines of the bundled `subreddits.txt`. It checks at most min(10, list size) candidates.
- **RedGifs URL helpers (`RedGifsResolver`).**
  - `canResolve` tests for the RedGifs domain.
  - `resolve` rewrites a watch page URL to the video URL with `.m4s` turned into `.mp4`, or gives the page URL back.
  - The poster-name extraction takes the last piece of a URL split on `/`.

## Files

| File | Contents |
|---|---|
| `wrappers.dfy` | `Option` and `Result`. |
| `java_strings.dfy` | The `java.lang.String` behaviour the code relies on: `contains`, `replace`, `split` (trailing empty pieces dropped; `[s]` when there is no separator), `trim` and `hashCode` (32-bit wrap-around). |
| `media_queue.dfy` | One subreddit's cache as values, with lemmas: the merge loop, the seen-set clearing, snapshot and reload, load, refresh, ready and take, and the queue total. |
| `subreddit_manager.dfy` | The memo step and the fallback loop as functions, with lemmas. Class `SubredditManager` holds the memo as a `map` field, and its methods are proved against those functions. |
| `reddit_provider.dfy` | Class `RedditProvider` with the five maps as fields. Every method states its new state through the functions of `media_queue.dfy`. |
| `redgifs_resolver.dfy` | `canResolve`, `resolve` and `extractGifNameFromPoster` as functions, with lemmas. |

## Parameters in place of effects

Whatever the network, the clock or randomness would supply is a parameter:

- **`now`** is `System.currentTimeMillis()`.
- **`about`** gives, for a subreddit name, the parsed reply of its `/about` request:
  - `Json(hasErrorKey)`;
  - `IoFailure`, an `IOException`;
  - `UncheckedFailure`, a runtime exception: the request failing inside `join`, or a body that is not JSON.
- **`refill`** holds the three listings' results, one list per sort order, and their shuffled concatenation. A fetch that fails with an exception of its own gives an empty list; a fetch cut off by the timeout is not a `refill` (see "## Left out"). The shuffle is required to be a permutation (`Refill.Shuffles`).
- **`shuffledNames`** is the order `Collections.shuffle` gave the trimmed names. It is required to be a permutation of them.
- **`lines`** are the lines of `subreddits.txt`.
- **`dictionaryWord`** is the dictionary service's answer.
- **`stillValid`** stands for `CachedMediaResult.isValid` with the ten-minute window.
- **`gifId` and `videoFor`** are the two lookups of the M3U8 parser. Each can find a value, find nothing (`null`) or throw.

Two behaviours follow the code rather than a looser reading of it:

- **Unchecked exceptions.** The fallback loop catches only `IOException` (`SubredditManager.java:80`). A runtime exception from an existence check therefore ends `getRandomSubreddit` (`Aborted`) instead of moving on to the next candidate. `getRandomRedditMedia` wraps only the fallback's `IOException`s. The other outcomes propagate unchanged: an existence check's `IOException` (`ExistenceCheckFailed`) and runtime exceptions (`UncheckedError`).
- **Small queues.** A queue of three items is below `MIN_QUEUE_SIZE` (10), so every request on it attempts a refresh even when the last refresh was just now. `MediaQueue.DrainWithEmptyFetches` states the three-item scenario with that in mind.

## Model

| member | source | states |
|---|---|---|
| JavaStrings.ContainsIffOccurs | src/main/java/me/mediaroulette/reddit/resolvers/RedGifsResolver.java:17-19 | `String.contains` holds exactly when some window of the string equals the pattern, in both directions |
| JavaStrings.ContainsPrefixOfPattern | src/main/java/me/mediaroulette/reddit/resolvers/RedGifsResolver.java:23 | a string containing `p + q` contains `p` |
| JavaStrings.ReplaceAbsent | src/main/java/me/mediaroulette/reddit/resolvers/RedGifsResolver.java:36 | `replace` leaves a string without the target unchanged |
| JavaStrings.ReplaceKeepsLength | src/main/java/me/mediaroulette/reddit/resolvers/RedGifsResolver.java:36 | `replace` with a replacement as long as the target keeps the length |
| JavaStrings.ReplaceKeepsCharOut | src/main/java/me/mediaroulette/reddit/resolvers/RedGifsResolver.java:50 | `replace` introduces no character that is in neither the string nor the replacement |
| JavaStrings.Split | src/main/java/me/mediaroulette/reddit/resolvers/RedGifsResolver.java:48 | splitting gives at least one piece, and no piece contains the separator |
| JavaStrings.JoinSplit | src/main/java/me/mediaroulette/reddit/resolvers/RedGifsResolver.java:48 | joining the pieces of a split with the separator gives the string back |
| JavaStrings.SplitAllEmpty | src/main/java/me/mediaroulette/reddit/resolvers/RedGifsResolver.java:48 | every piece is empty exactly when the string is made only of separators |
| JavaStrings.DropTrailingEmpty | src/main/java/me/mediaroulette/reddit/resolvers/RedGifsResolver.java:48 | the result is a prefix of the pieces, everything dropped is empty, and the result does not end with an empty piece |
| JavaStrings.JavaSplitEmpty | src/main/java/me/mediaroulette/reddit/resolvers/RedGifsResolver.java:48-49 | `split("/")` returns no piece exactly for a non-empty string of slashes |
| JavaStrings.DropAllEmpty | src/main/java/me/mediaroulette/reddit/resolvers/RedGifsResolver.java:48 | a list made only of empty pieces is dropped whole |
| JavaStrings.JoinAppend | src/main/java/me/mediaroulette/reddit/resolvers/RedGifsResolver.java:48 | joining two lists of pieces is joining each, with one separator between them |
| JavaStrings.JoinEmptyPieces | src/main/java/me/mediaroulette/reddit/resolvers/RedGifsResolver.java:48 | joining empty pieces gives separators only |
| JavaStrings.JoinEndsWithLast | src/main/java/me/mediaroulette/reddit/resolvers/RedGifsResolver.java:48-49 | the join of several pieces is the join of all but the last, a separator, then the last piece |
| JavaStrings.JoinEmptyTail | src/main/java/me/mediaroulette/reddit/resolvers/RedGifsResolver.java:48 | empty pieces after the `n`-th add only a run of separators to the join |
| JavaStrings.JoinLastPiece | src/main/java/me/mediaroulette/reddit/resolvers/RedGifsResolver.java:48-49 | when every piece from the `n`-th on is empty, the join ends with piece `n - 1` followed by separators only, after nothing or a separator |
| JavaStrings.JavaSplitLast | src/main/java/me/mediaroulette/reddit/resolvers/RedGifsResolver.java:48-49 | the last piece `split("/")` keeps is the last `/`-free run of the string before any trailing slashes, and it is empty only for the empty string |
| JavaStrings.TrimStart | src/main/java/me/mediaroulette/reddit/reddit/SubredditManager.java:57 | the first kept index: everything skipped is at or below the space, and what it stops at is above it |
| JavaStrings.TrimEnd | src/main/java/me/mediaroulette/reddit/reddit/SubredditManager.java:57 | the kept end: everything cut is at or below the space, and the last kept character is above it |
| JavaStrings.Trim | src/main/java/me/mediaroulette/reddit/reddit/SubredditManager.java:57 | `trim` keeps a middle slice whose cut ends are all at or below the space, and a non-empty result starts and ends above the space |
| JavaStrings.HashBits | src/main/java/me/mediaroulette/reddit/providers/RedditProvider.java:300 | the hash `31*h + c` stays within 32 bits |
| JavaStrings.HashCode | src/main/java/me/mediaroulette/reddit/providers/RedditProvider.java:300 | the hash read as a signed value lies in Java's `int` range |
| JavaStrings.HashBitsSuffix | src/main/java/me/mediaroulette/reddit/providers/RedditProvider.java:300 | strings with equal hashes keep equal hashes after any common suffix |
| MediaQueue.ResultId | src/main/java/me/mediaroulette/reddit/providers/RedditProvider.java:298-301 | the fingerprint of a result is a Java `int` |
| MediaQueue.MergeLoop | src/main/java/me/mediaroulette/reddit/providers/RedditProvider.java:242-253 | the loop keeps the old queue, appends at most one item per result, and only adds to the seen-set |
| MediaQueue.SubsequenceMembers | src/main/java/me/mediaroulette/reddit/providers/RedditProvider.java:242-253 | every item of a subsequence of the results is one of the results |
| MediaQueue.MergeLoopAppends | src/main/java/me/mediaroulette/reddit/providers/RedditProvider.java:242-253 | the loop keeps the old queue as a prefix and appends, in order, results with distinct fingerprints not seen before; the seen-set grows by exactly their fingerprints |
| MediaQueue.PrependUnseen | src/main/java/me/mediaroulette/reddit/providers/RedditProvider.java:247-251 | appending an unseen result and recording its fingerprint keeps the appended items distinct and unseen |
| MediaQueue.MergeLoopBounded | src/main/java/me/mediaroulette/reddit/providers/RedditProvider.java:242-246 | a queue at the cap of 200 is left alone, and a queue within the cap stays within it |
| MediaQueue.MergeLoopSkipsOnlyKnown | src/main/java/me/mediaroulette/reddit/providers/RedditProvider.java:242-253 | when the loop ends below the cap, every result's fingerprint has been recorded, so a result is skipped only as a duplicate |
| MediaQueue.AddResults | src/main/java/me/mediaroulette/reddit/providers/RedditProvider.java:237-261 | `addResultsToQueue`: a queue at the cap of 200 is left alone, a queue within the cap stays within it, and the old queue stays in front; `AddResultsAppendsUnseen` and `AddResultsTakesFirstUnseen` state what is appended and recorded |
| MediaQueue.AddResultsAppendsUnseen | src/main/java/me/mediaroulette/reddit/providers/RedditProvider.java:237-261 | appends only unseen, pairwise distinct results, in order; the seen-set grows by exactly their fingerprints and is emptied exactly when it grew past 400; below the cap, every result's fingerprint is among the old seen-set and the appended items' fingerprints |
| MediaQueue.FirstUnseenCons | src/main/java/me/mediaroulette/reddit/providers/RedditProvider.java:242-253 | the back-to-front filter of first unseen results, read from the front, takes the first result when its fingerprint is unseen and then counts that fingerprint as seen |
| MediaQueue.MergeLoopTakesFirstUnseen | src/main/java/me/mediaroulette/reddit/providers/RedditProvider.java:242-253 | the loop appends exactly the filtered results of some prefix of the results (each kept iff unseen and no earlier result shares its fingerprint), and stops before the end only at the cap of 200 |
| MediaQueue.SkipTakesFirstUnseen | src/main/java/me/mediaroulette/reddit/providers/RedditProvider.java:248-249 | a skipped seen result extends the consumed prefix by one without appending |
| MediaQueue.AppendTakesFirstUnseen | src/main/java/me/mediaroulette/reddit/providers/RedditProvider.java:248-252 | an appended unseen result extends the consumed prefix by one and heads the appended items |
| MediaQueue.AddResultsTakesFirstUnseen | src/main/java/me/mediaroulette/reddit/providers/RedditProvider.java:237-261 | `addResultsToQueue` appends exactly the first-of-their-fingerprint unseen results of a prefix of the results, in order; it leaves later results out only because the queue reached the cap |
| MediaQueue.SameFingerprintQueuedOnce | src/main/java/me/mediaroulette/reddit/providers/RedditProvider.java:247-252 | two results with the same fingerprint are never both appended |
| MediaQueue.CollidingResultIsDropped | src/main/java/me/mediaroulette/reddit/providers/RedditProvider.java:298-301 | different results whose `url|title` strings collide under the Java hash ("Aa" vs "BB") are treated as duplicates, and only the first is queued |
| MediaQueue.Snapshot | src/main/java/me/mediaroulette/reddit/providers/RedditProvider.java:354-359 | the snapshot has one entry per queued item; `SnapshotStampsEach` states the entries |
| MediaQueue.SnapshotStampsEach | src/main/java/me/mediaroulette/reddit/providers/RedditProvider.java:354-359 | entry i of the snapshot holds queued item i stamped with the time of the save |
| MediaQueue.Restore | src/main/java/me/mediaroulette/reddit/providers/RedditProvider.java:152-158 | the reload yields at most one item per entry, and one for every entry when all are still valid; `RestoreKeepsOrder` and `RestoreAppend` state the order |
| MediaQueue.RestoreKeepsOrder | src/main/java/me/mediaroulette/reddit/providers/RedditProvider.java:155-158 | the reloaded items are a subsequence of the snapshot's items: order is kept whatever has expired |
| MediaQueue.RestoreAppend | src/main/java/me/mediaroulette/reddit/providers/RedditProvider.java:155-158 | the reload filters entry by entry: reloading a concatenation is concatenating the reloads |
| MediaQueue.RestoreSnapshot | src/main/java/me/mediaroulette/reddit/providers/RedditProvider.java:147-163 | saving a queue and reloading it gives the same queue back when no entry has expired |
| MediaQueue.RestoreKeepsValid | src/main/java/me/mediaroulette/reddit/providers/RedditProvider.java:155-158 | an item is reloaded exactly when some still-valid entry of the snapshot holds it |
| MediaQueue.InFlatten | src/main/java/me/mediaroulette/reddit/providers/RedditProvider.java:196-199 | every result of the flattened list comes from one of the per-sort lists |
| MediaQueue.Load | src/main/java/me/mediaroulette/reddit/providers/RedditProvider.java:147-163 | the load stamps the entry with the persisted timestamp, or 0 without one; it keeps the queue as a prefix and leaves the seen-set alone; `LoadAppendsRestored` states what is appended |
| MediaQueue.LoadAppendsRestored | src/main/java/me/mediaroulette/reddit/providers/RedditProvider.java:147-163 | without a persisted timestamp the queue is unchanged; with one, the queue becomes the old queue followed by exactly the reload of the snapshot, if any |
| MediaQueue.NeedsRefresh | src/main/java/me/mediaroulette/reddit/providers/RedditProvider.java:137-140 | a queue under 10 items always needs a refresh, and so does an entry last stamped more than ten minutes (600000 ms) ago, a missing stamp counting as 0; an entry stamped with the current time needs one exactly when its queue is under 10 items |
| MediaQueue.Refresh | src/main/java/me/mediaroulette/reddit/providers/RedditProvider.java:165-170 | a refresh stamps both timestamps with `now` and keeps the queue as a prefix |
| MediaQueue.Ready | src/main/java/me/mediaroulette/reddit/providers/RedditProvider.java:126-145 | making an entry ready keeps its queue as a prefix; `ReadyRefreshesWhenNeeded` states when it refreshes |
| MediaQueue.ReadyCacheHit | src/main/java/me/mediaroulette/reddit/providers/RedditProvider.java:132-144 | a loaded entry that needs no refresh is served as it is: nothing is loaded, fetched or saved |
| MediaQueue.ReadyRefreshesWhenNeeded | src/main/java/me/mediaroulette/reddit/providers/RedditProvider.java:126-145 | after the load, a low or stale entry is refreshed: both stamps become the current time, the loaded queue stays in front, and what is appended comes from the fetches; an entry needing no refresh is kept and its store untouched |
| MediaQueue.Take | src/main/java/me/mediaroulette/reddit/providers/RedditProvider.java:105-118 | after an item is served, the persisted snapshot is exactly the rest of the queue, stamped with the time of the request |
| MediaQueue.RefreshAppendsFetchedOnly | src/main/java/me/mediaroulette/reddit/providers/RedditProvider.java:165-210 | a refresh keeps the queue as a prefix and appends only fetched results; both timestamps become `now`; with nothing fetched only the timestamps change |
| MediaQueue.RefreshWithinCap | src/main/java/me/mediaroulette/reddit/providers/RedditProvider.java:242-246 | a refresh never takes a queue past 200 items |
| MediaQueue.TakePopsHead | src/main/java/me/mediaroulette/reddit/providers/RedditProvider.java:105-120 | a request returns the head of the ready queue and removes exactly that item, and gets nothing when the ready queue is empty |
| MediaQueue.DrainWithEmptyFetches | src/main/java/me/mediaroulette/reddit/providers/RedditProvider.java:105-145 | three queued items and empty fetches: three requests return the items in FIFO order, and the fourth gets none |
| MediaQueue.SumSizesAt | src/main/java/me/mediaroulette/reddit/providers/RedditProvider.java:406 | the sum of queue sizes can be split at any subreddit |
| MediaQueue.SumSizesAgree | src/main/java/me/mediaroulette/reddit/providers/RedditProvider.java:406 | queues of equal lengths give equal sums |
| MediaQueue.TotalQueuedUpdate | src/main/java/me/mediaroulette/reddit/providers/RedditProvider.java:406 | replacing one subreddit's queue changes the total by the difference in that queue's length |
| Subreddits.ExistsStep | src/main/java/me/mediaroulette/reddit/reddit/SubredditManager.java:27-48 | a failed request leaves the memo unchanged, and an answer the memo keeps is the answer returned; `MemoKeepsOtherEntries` states the hit and the insert for any memo |
| Subreddits.MemoIsTransparent | src/main/java/me/mediaroulette/reddit/reddit/SubredditManager.java:27-48 | with a memo that agrees with upstream, `doesSubredditExist` answers as upstream does, and the memo keeps agreeing |
| Subreddits.RepeatIsMemoHit | src/main/java/me/mediaroulette/reddit/reddit/SubredditManager.java:28-30 | after an answer, the same question is a memo hit with the same answer, unless the memo was just cleared |
| Subreddits.MemoBounded | src/main/java/me/mediaroulette/reddit/reddit/SubredditManager.java:41-46 | the memo never exceeds 1000 entries; the insert that would overflow it empties it and still returns the fresh answer |
| Subreddits.MemoKeepsOtherEntries | src/main/java/me/mediaroulette/reddit/reddit/SubredditManager.java:27-48 | for any memo: a name in it is answered from it and the memo is unchanged; a miss gets upstream's verdict; an answered miss adds exactly that name and keeps every other entry, and the memo ends empty exactly when it already held 1000 entries |
| Subreddits.MemoHitAfterOtherQuestion | src/main/java/me/mediaroulette/reddit/reddit/SubredditManager.java:27-48 | asking about A, then B, then A again with room in the memo: the third question is a memo hit with the first answer |
| Subreddits.TryCandidates | src/main/java/me/mediaroulette/reddit/reddit/SubredditManager.java:65-86 | the attempt loop never reports an empty list; a pick is one of the candidates; the attempts it reports are those already made plus at most one per candidate |
| Subreddits.SelectSubreddit | src/main/java/me/mediaroulette/reddit/reddit/SubredditManager.java:50-88 | an empty list leaves the memo alone, and a pick is one of the shuffled names |
| Subreddits.ExhaustedSpendsBudget | src/main/java/me/mediaroulette/reddit/reddit/SubredditManager.java:65-86 | giving up reports the whole budget as attempts made |
| Subreddits.ChosenWithinBudget | src/main/java/me/mediaroulette/reddit/reddit/SubredditManager.java:68-77 | the chosen subreddit is a candidate within the budget |
| Subreddits.FirstValidCandidate | src/main/java/me/mediaroulette/reddit/reddit/SubredditManager.java:68-83 | with a consistent memo: the pick is the first existing candidate after skippable ones; giving up means every candidate in the budget was skippable; aborting means a runtime exception after skippable candidates |
| Subreddits.SelectionOutcome | src/main/java/me/mediaroulette/reddit/reddit/SubredditManager.java:50-88 | an empty list fails, exactly then, and leaves the memo alone; giving up reports min(10, list size) attempts; the pick is among the first min(10, list size) shuffled names |
| Subreddits.TryKeepsConsistent | src/main/java/me/mediaroulette/reddit/reddit/SubredditManager.java:65-86 | the attempt loop keeps a memo that agrees with upstream in agreement |
| Subreddits.SelectionKeepsConsistent | src/main/java/me/mediaroulette/reddit/reddit/SubredditManager.java:50-88 | with a memo that agrees with upstream, a picked subreddit exists upstream and the memo keeps agreeing |
| Subreddits.SubredditManager.constructor | src/main/java/me/mediaroulette/reddit/reddit/SubredditManager.java:19-25 | the memo starts as the persisted one |
| Subreddits.SubredditManager.DoesSubredditExist | src/main/java/me/mediaroulette/reddit/reddit/SubredditManager.java:27-48 | the answer and the new memo are those of the memo step |
| Subreddits.SubredditManager.GetRandomSubreddit | src/main/java/me/mediaroulette/reddit/reddit/SubredditManager.java:50-88 | the outcome and the new memo are those of the selection function, so `SelectionOutcome` holds of them |
| RedGifs.CanResolve | src/main/java/me/mediaroulette/reddit/resolvers/RedGifsResolver.java:17-19 | true exactly for a non-null URL in which `redgifs.com` occurs at some position |
| RedGifs.WatchUrlsAreResolvable | src/main/java/me/mediaroulette/reddit/resolvers/RedGifsResolver.java:17-25 | every watch page URL passes `canResolve` |
| RedGifs.Resolve | src/main/java/me/mediaroulette/reddit/resolvers/RedGifsResolver.java:22-44 | a non-watch URL comes back unchanged; a changed result contains no `.m4s` and came from a resolvable URL; with both lookups found, the result is the video URL with `.m4s` rewritten; a watch URL whose gif id or video URL is not found, or whose lookup throws, comes back unchanged |
| RedGifs.ContainsNeedsRoom | src/main/java/me/mediaroulette/reddit/resolvers/RedGifsResolver.java:36 | a string shorter than the pattern does not contain it |
| RedGifs.RewriteHead | src/main/java/me/mediaroulette/reddit/resolvers/RedGifsResolver.java:36 | the rewrite starts with '.' where it replaced, and otherwise with the original first character |
| RedGifs.RewriteKeepsDotFreePrefix | src/main/java/me/mediaroulette/reddit/resolvers/RedGifsResolver.java:36 | a '.'-free prefix of the rewritten string was already a prefix of the original |
| RedGifs.RewriteLeavesNoM4s | src/main/java/me/mediaroulette/reddit/resolvers/RedGifsResolver.java:36 | after `replace(".m4s", ".mp4")` no `.m4s` remains |
| RedGifs.ExtractGifNameFromPoster | src/main/java/me/mediaroulette/reddit/resolvers/RedGifsResolver.java:46-54 | the result is null exactly for a null URL or a non-empty URL made only of slashes; otherwise it is the last `/`-free piece of the URL before any trailing slashes (empty only for the empty URL), less "-mobile.jpg" and then ".jpg" |
| RedGifs.PosterWithoutSlash | src/main/java/me/mediaroulette/reddit/resolvers/RedGifsResolver.java:48-50 | a URL without '/' is taken whole, less its "-mobile.jpg" and ".jpg" |
| Provider.PutGet | src/main/java/me/mediaroulette/reddit/providers/RedditProvider.java:147-163 | helper: writing back a map's own value leaves it unchanged |
| Provider.PutTwice | src/main/java/me/mediaroulette/reddit/providers/RedditProvider.java:165-170 | helper: a key reads back its last write, and a second write replaces the first |
| Provider.ReadBack | src/main/java/me/mediaroulette/reddit/providers/RedditProvider.java:126-145 | helper: a subreddit's entry and store read back what was written for them |
| Provider.PutEntryTwice | src/main/java/me/mediaroulette/reddit/providers/RedditProvider.java:126-145 | helper: a second write for the same subreddit replaces the first |
| Provider.CreateEntry | src/main/java/me/mediaroulette/reddit/providers/RedditProvider.java:128-129 | helper: the two `computeIfAbsent` calls write back the subreddit's own entry, empty when it had none |
| Provider.PollState | src/main/java/me/mediaroulette/reddit/providers/RedditProvider.java:107-118 | helper: replacing a subreddit's queue and snapshot changes only those two parts of its state |
| Provider.ServeState | src/main/java/me/mediaroulette/reddit/providers/RedditProvider.java:107-120 | polling the ready queue and saving the rest is the take step; an empty ready queue changes nothing further |
| Provider.SaveAll | src/main/java/me/mediaroulette/reddit/providers/RedditProvider.java:372-373 | after saving the queues under some keys, exactly those keys hold the stamped queues and every other entry is as before |
| Provider.SaveAllStep | src/main/java/me/mediaroulette/reddit/providers/RedditProvider.java:372-373 | saving one more queue is the same as saving the enlarged set of keys |
| Provider.RefreshState | src/main/java/me/mediaroulette/reddit/providers/RedditProvider.java:165-170 | the merge followed by the two timestamp writes is the refresh step on values |
| Provider.ServingLowersTotal | src/main/java/me/mediaroulette/reddit/providers/RedditProvider.java:105-145 | a request on a fresh, full enough queue serves an item and lowers `total_cached_images` by exactly one |
| Provider.Fallback | src/main/java/me/mediaroulette/reddit/providers/RedditProvider.java:95-103 | the fallback returns the selection's memo; a pick becomes the result; an empty list or running out of candidates becomes the "Unable to find a valid subreddit" error carrying the selection's outcome; an escaping runtime exception is passed on |
| Provider.FallbackReportsAttempts | src/main/java/me/mediaroulette/reddit/providers/RedditProvider.java:95-101 | an empty list gives the "no subreddits" cause, and otherwise the "no valid subreddit" cause carries the min(10, n) attempts made |
| Provider.Confirm | src/main/java/me/mediaroulette/reddit/providers/RedditProvider.java:95-103 | the subreddit kept is the one in hand or a listed one, and no failure is the "no images" one |
| Provider.Choose | src/main/java/me/mediaroulette/reddit/providers/RedditProvider.java:80-103 | the choice is the requested subreddit, the dictionary's word or a listed subreddit, and no failure is the "no images" one |
| Provider.ConfirmWithConsistentMemo | src/main/java/me/mediaroulette/reddit/providers/RedditProvider.java:94-103 | with a memo that agrees with upstream: an existing subreddit in hand is kept; a missing one, or none, is replaced by a listed subreddit that exists, the result and memo being exactly the fallback's on the memo after the check; an exception is passed on; the memo keeps agreeing |
| Provider.ChooseWithConsistentMemo | src/main/java/me/mediaroulette/reddit/providers/RedditProvider.java:80-103 | with a memo that agrees with upstream: an existing requested subreddit is used; with none requested and a user known, an existing dictionary word is used; a missing one (or none) is replaced by a listed subreddit that exists, the result and memo being exactly the fallback's, including its failure; an existence check's exception is passed on; every chosen subreddit exists; the memo keeps agreeing |
| Provider.RedditProvider.constructor | src/main/java/me/mediaroulette/reddit/providers/RedditProvider.java:38-64 | the in-memory maps start empty; the persistent caches hold what was saved |
| Provider.RedditProvider.ServeFromQueue | src/main/java/me/mediaroulette/reddit/providers/RedditProvider.java:105-120 | the new state and the returned item, or the "no images" error, are those of the take step |
| Provider.RedditProvider.GetRandomRedditMedia | src/main/java/me/mediaroulette/reddit/providers/RedditProvider.java:79-121 | the memo and the choice are those of `Choose`; a failed choice is returned and changes no cache; otherwise the chosen subreddit is served by the take step |
| Provider.RedditProvider.ResolveSubreddit | src/main/java/me/mediaroulette/reddit/providers/RedditProvider.java:80-103 | the result and the new memo are those of `Choose` on the memo before the call |
| Provider.RedditProvider.EnsureCacheReady | src/main/java/me/mediaroulette/reddit/providers/RedditProvider.java:126-145 | the subreddit gets an entry, and the new state is that of the ready step |
| Provider.RedditProvider.LoadFromPersistentCache | src/main/java/me/mediaroulette/reddit/providers/RedditProvider.java:147-163 | the new state is that of the load step; the persistent caches are untouched |
| Provider.RedditProvider.RefreshCache | src/main/java/me/mediaroulette/reddit/providers/RedditProvider.java:165-170 | the new state is that of the refresh step |
| Provider.RedditProvider.UpdateImageQueue | src/main/java/me/mediaroulette/reddit/providers/RedditProvider.java:196-209 | nothing fetched changes nothing; otherwise the shuffled results are merged and the queue saved |
| Provider.RedditProvider.AddResultsToQueue | src/main/java/me/mediaroulette/reddit/providers/RedditProvider.java:237-265 | the loop computes `AddResults`; the subreddit's queue, seen-set and snapshot are replaced, and nothing else changes |
| Provider.RedditProvider.SaveToPersistentCache | src/main/java/me/mediaroulette/reddit/providers/RedditProvider.java:354-363 | only the subreddit's snapshot changes, to the stamped queue |
| Provider.RedditProvider.Cleanup | src/main/java/me/mediaroulette/reddit/providers/RedditProvider.java:368-378 | every queue is saved to the persistent cache, then the three in-memory maps are empty; the timestamps are untouched |
| Provider.RedditProvider.GetCacheStats | src/main/java/me/mediaroulette/reddit/providers/RedditProvider.java:403-409 | the counts are the number of cached subreddits, the total of all queue sizes and the number of persisted snapshots |

## Left out

- HTTP, OAuth and JSON parsing of the Reddit API (`fetchImagesFromSubreddit`, `RedditClient`, `RedditPostProcessor`) are left out: their results enter as the `refill` and `about` parameters.
- Concurrency is left out. The model treats `ConcurrentHashMap` and the executor as sequential code, with every fetch completed when the refresh collects the results.
- The timeout path of `updateImageQueue` is not modelled. When the three fetches take longer than 30 seconds, the futures are cancelled (`RedditProvider.java:189`). `future.get()` then throws a `CancellationException` (`RedditProvider.java:227`), which the catch at `RedditProvider.java:228` does not handle. The exception escapes `refreshCache` before either timestamp is written, and reaches the caller of `getRandomImage`. The model has no such outcome: every `refill` is a completed fetch.
- An interrupt while waiting for the fetches (`RedditProvider.java:190-192`) is not modelled either: the model has no thread state.
- Asynchronous saves (`CompletableFuture.runAsync` in `addResultsToQueue` and `getRandomRedditMedia`) happen synchronously at the point they are scheduled. A later mutation of the queue before the write runs is not modelled.
- `Collections.shuffle` randomness is left out: each shuffle is a parameter that must be a permutation of its input.
- Provider.RedditProvider.GetRandomRedditMedia: does not model the `ExecutionException`/`InterruptedException` wrapping of `getRandomImage`, or the logging, the console output and the `ErrorReporter` calls, because none of them changes a result or a cache.
- The processed-id set holds the decimal `String` of the hash. The model keeps the integer, because that rendering is one-to-one.
- JavaStrings.HashBits: a Dafny `char` is a Unicode scalar value, while Java hashes UTF-16 units. For a string with a character outside the Basic Multilingual Plane the hash differs from Java's: for "😀" Java gives 1772899, the model 128512. `trim`, `split`, `contains` and `replace` are not affected, because they only look for ASCII characters, which never occur inside a surrogate pair.
- MediaQueue.ResultId: inherits that difference, so two results that collide in Java may not collide in the model, and the other way round, when their URL or title holds such a character.
- Null media fields and a null subreddit name in the queue are not modelled: items are values.
- `CachedMediaResult.isValid` is a parameter, `stillValid`, because its body is not part of this model. So are `M3u8Parser.extractGifId`, `buildRedGifsM3u8Url` and `extractVideoUrl`, which become `gifId` and `videoFor`.
- `DictionaryIntegration.getRandomWordForSource` is a parameter, `dictionaryWord`.
- `isUrlAccessible` (RedGifs) is a HEAD request with no pure logic, so it is left out.
- `getPriority` of the resolver is the constant `RedGifs.PRIORITY` (10). The provider's descriptive getters (`getName`, `getPriority` 90 and so on) are left out.
- Reading `subreddits.txt` (its `IOException`, a missing resource) is left out: the lines are a parameter.
- `PersistentCache`'s file writing is left out: the persistent caches are `map` fields.
- The existence memo is a static field shared by all `SubredditManager` instances. The model gives it to one instance.
- The executor shutdown in `cleanup` is left out. So is the order of the parallel per-subreddit saves, which write distinct keys and so give the same result in any order.
- Subreddits.SubredditManager.DoesSubredditExist: the request and body reading are one oracle call, so a failure while closing the response is not distinguished.
- Provider.ChooseWithConsistentMemo: what the choice is, in terms of upstream's replies, is stated only for a memo that agrees with upstream. With any other memo, `Choose` still gives the exact outcome, but only in terms of the memo.
- RedGifs.Resolve: takes a non-null URL. `resolve(null)` throws a `NullPointerException` at `RedGifsResolver.java:23` before any future is made; that outcome is not modelled.
