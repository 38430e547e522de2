# Discourse: verified models of its core algorithms and protocols

This project models the parts of Discourse's `lib/` whose correctness cannot be read off one
function body, and proves what they promise.

- **O(NP) comparison** (`EditScript`, `EditGraph`, `OnpPath`, `OnpFront`, `OnpDiff`). `ONPDiff` is a
  class with the source's `fp`, `@path` and `@backtrack` arrays and its loops. Every array index is in
  range, the loops end, and the script is a shortest one. The proof is the furthest-point theory of the
  algorithm: `Front` says, diagonal by diagonal, what both arrays hold in the middle of a level. The
  cut-off at 1000 levels is part of the model. Minimality and replay hold exactly when it is not reached.
- **Its consumers** (`ShortScript`, `ParagraphScript`, `Markdown`, `DiscourseDiff`): merging runs, pairing
  paragraphs, tokenizing, and the side-by-side table, which shows both texts in full exactly when none of
  its comparisons is cut off.
- **Presence channels** (`PresenceScripts`, `PresenceCounts`, `PresenceStream`, `PresenceSessions`,
  `PresenceChannel`). Each
  Lua script is one atomic step, an aborted `auto_leave` included. Processes interleave script, publish
  and release in any order. What `user_ids` and `count` return is the fold of the published messages up
  to the id returned with them. This needs the guard that the comment above `redis_key_mutex` describes.
  The guard as written in `leave` compares HGET's string with a number, which is never equal, so `leave`
  never waits for the mutex: a step breaks the order exactly if such a leave steals a mutex whose holder
  still has to publish.
- **Lock and limiter** (`DistributedMutex`, `RateLimiter`): mutual exclusion over all runs, and the capped
  list as a refinement of an unbounded log of admissions.
- **Documents** (`LineBreaks`, `LineBreakJoints`, `HtmlToMarkdown`, `Whitespace`, `WhitespaceTree`): splitting inline elements around `<br>`s,
  with the measure that makes the loop end, and white space removal as a transformation that keeps words.
- **Locales and revisions** (`JsLocale`, `PostRevisor`): de-duplication of fallback translations, and
  folding of edits into revisions from which every earlier version can be read back.
- **Index and scan algorithms** (`ConsecutiveVisits`, `Gaps`): a gaps-and-islands query and a two-pointer scan.

Where the code updates objects step by step, the model is a class with methods, each proved against a
specification function; the properties are lemmas about those functions.

## What turned out false of the code

Each of these has a member that says exactly when the code does meet the property.

- Past the cut-off `diff` is empty, so `diff_size` is 0 and a complete rewrite counts as a small edit
  (`OnpDiff.DiffSizeIsDistance`, `PostRevisor.SmallEditJudgesDistance`); so it is for any two texts of 1000
  characters or more with none in common (`OnpDiff.RewriteIsNotMeasured`, `PostRevisor.ThousandLetters`).
- A call whose `publish_message` raises releases the mutex all the same, and from then on what is read differs
  from the stream (`PresenceStream.LostMessageIsVisible`).
- `leave`'s guard, as above (`PresenceStream.StealIsVisible`, `PresenceStream.LiteralGuardCounterexample`).
- `can_perform?` allows what `performed!` refuses when the maximum is not positive
  (`RateLimiter.CanPerformForetells`, `RateLimiter.ForetellsWrongly`); `remaining` may be 0 although an attempt is admitted
  (`RateLimiter.RemainingIsUnderLimit`, `RateLimiter.NothingRemainsYetAdmitted`).
- The warning about a tampered lock can be a false alarm (`DistributedMutex.TamperingWarning`,
  `DistributedMutex.FalseAlarm`).
- A translation is lost when an earlier locale has a text where the later one has a hash, because
  `include?` then searches that text (`JsLocale.TextIsSearched`, `JsLocale.FallbackPreservedIff`).
- A change from nil to an empty text is recorded although it shows nothing, so a revision then holds a
  field whose text did not change (`PostRevisor.InvisibleChangeIsRecorded`, `PostRevisor.ExactIsVisible`).
- `remove_trailing_space!` looks at the last leaf only and leaves a space that stands before it
  (`Whitespace.SpaceStaysExactly`, `Whitespace.SpaceBeforeBlankLeafStays`).
- `find_gaps` never ends for an empty original and a subset that is not empty (`Gaps.LoopEnds`).

## Model

| member | source | states |
|---|---|---|
| `EditGraph.ScriptsAreNoShorter` | lib/onpdiff.rb:3-4 | no script at all that turns one sequence into the other makes fewer changes than the LCS distance |
| `EditGraph.EditDistanceIsLeast` | lib/onpdiff.rb:3-4 | for any two sequences some script makes as many changes as the LCS distance says, and none makes fewer |
| `EditGraph.NothingInCommon` | lib/onpdiff.rb:78 | sequences without a common token have nothing a script could keep |
| `EditGraph.SnakeIsFurthest` | lib/onpdiff.rb:73-87 | a point no common token follows, reached from the furthest points of both neighbours, is the furthest of its diagonal at that level |
| `EditGraph.UnopenedIsEmpty` | lib/onpdiff.rb:46-56 | diagonals a level does not visit hold no point within its number of deletions |
| `OnpPath.RecordedPathBounds` | lib/onpdiff.rb:83-84 | every arena entry lies in the grid and records at least as many deletions as a best path to it needs |
| `OnpPath.ChainIsPath` | lib/onpdiff.rb:61-68 | following predecessors from any arena entry ends at the root and gives a path of legs with the recorded deletions |
| `OnpPath.ScriptReplays` | lib/onpdiff.rb:89-117 | replaying any path spells exactly the two prefixes it covers, inputs swapped or not, with exactly its deletions |
| `OnpFront.FrontReady` | lib/onpdiff.rb:46-58 | before each assignment the neighbouring slots are in range and hold the furthest points, and their paths, the snake needs |
| `OnpFront.FrontAdvances` | lib/onpdiff.rb:48-58 | each assignment to `fp` and `@path` keeps the whole front right, one diagonal further |
| `OnpFront.CornerIsFurther` | lib/onpdiff.rb:59 | a level that misses the corner proves that more deletions are needed, so levels stay below the length of the shorter input |
| `OnpFront.LevelVerdict` | lib/onpdiff.rb:59-61 | at the loop's end test the recorded path is a shortest one, or the front is ready for the next level |
| `OnpDiff.ONPDiff.constructor` | lib/onpdiff.rb:7-17 | both inputs are kept, the shorter one as the first, with the state the algorithm starts from |
| `OnpDiff.ONPDiff.Snake` | lib/onpdiff.rb:73-87 | the point reached is in the grid, at the end of a run of common tokens that cannot go on, and is appended to the arena with the better neighbour as predecessor |
| `OnpDiff.ONPDiff.Visit` | lib/onpdiff.rb:48-58 | one assignment moves the front past one diagonal |
| `OnpDiff.ONPDiff.RunLevel` | lib/onpdiff.rb:46-58 | one round visits every diagonal of its level, from both ends to the corner's |
| `OnpDiff.ONPDiff.ReachCorner` | lib/onpdiff.rb:41-59 | the outer loop ends, and finds a path of least deletions exactly if fewer than 1000 are needed |
| `OnpDiff.ONPDiff.Compose` | lib/onpdiff.rb:33-71 | the memoized path is a shortest one from corner to corner, or empty past the cut-off |
| `OnpDiff.ONPDiff.Trace` | lib/onpdiff.rb:65-68 | following predecessors ends and gives a path with the recorded deletions |
| `OnpDiff.ONPDiff.BuildEditScript` | lib/onpdiff.rb:89-117 | the nested replay loops end and give the script of the path, of which ScriptReplays tells the meaning |
| `OnpDiff.ONPDiff.BuildShortEditScript` | lib/onpdiff.rb:119-159 | the merging replay gives the full script with neighbouring equal operations joined |
| `OnpDiff.ONPDiff.PairParagraphs` | lib/onpdiff.rb:212-222 | the pairs are the two runs interleaved |
| `OnpDiff.ONPDiff.BuildParagraphEditScript` | lib/onpdiff.rb:161-210 | the loop, which moves its index in the middle of its body, ends and pairs runs as the specification does |
| `OnpDiff.ONPDiff.Diff` | lib/onpdiff.rb:19-21 | past the cut-off empty, else a script of exactly edit-distance many changes that replays to both inputs |
| `OnpDiff.ONPDiff.ShortDiff` | lib/onpdiff.rb:23-25 | `diff` with its runs joined, computed on its own and memoized |
| `OnpDiff.ONPDiff.ParagraphDiff` | lib/onpdiff.rb:27-29 | `diff` with its runs paired, memoized |
| `OnpDiff.DiffIsShortest` | lib/onpdiff.rb:19-21 | below the cut-off no script whatsoever makes fewer changes than `diff` |
| `OnpDiff.DiffReplays` | lib/onpdiff.rb:44 | `diff` replays to both inputs if and only if the cut-off is not reached |
| `OnpDiff.ShortDiffReplays` | lib/onpdiff.rb:119-159 | `short_diff` keeps both texts, and no two neighbours have the same operation |
| `OnpDiff.ParagraphDiffReplays` | lib/onpdiff.rb:161-222 | `paragraph_diff` still replays to both inputs |
| `OnpDiff.DiffSize` | lib/post_revisor.rb:424-429 | the sum over the short diff is the edit distance of the characters, or 0 past the cut-off |
| `OnpDiff.DiffSizeIsDistance` | lib/post_revisor.rb:424-429 | `diff_size` is the true character edit distance if and only if the cut-off is not reached |
| `OnpDiff.ShortTextsAreMeasured` | lib/post_revisor.rb:424-429 | it always is when one of the texts has fewer than 1000 characters |
| `OnpDiff.RewriteIsNotMeasured` | lib/post_revisor.rb:424-429 | two texts of 1000 characters or more with none in common have a `diff_size` of 0, though every character changes |
| `ShortScript.CompressKeepsText` | lib/onpdiff.rb:127-149 | joining entries changes neither side's text |
| `ShortScript.CompressAlternates` | lib/onpdiff.rb:128-130 | joined scripts have no two neighbouring entries of one operation |
| `ShortScript.CompressJoinsRuns` | lib/onpdiff.rb:119-159 | however a script is split into maximal runs, the short script is exactly those runs joined |
| `ShortScript.CompressKeepsSize` | lib/post_revisor.rb:424-429 | joining entries keeps the amount of changed text |
| `ParagraphScript.InterleaveSides` | lib/onpdiff.rb:212-222 | of two interleaved runs each side keeps its own, in order |
| `ParagraphScript.BlockPairsUp` | lib/onpdiff.rb:189-203 | with two or more opposite entries, entries of both runs alternate until one run is used up, after what the first has too much |
| `ParagraphScript.RunsArePaired` | lib/onpdiff.rb:164-206 | for a longest run of one operation and the longest of the opposite one behind it: two or more of the latter are put in turn with the former, as many as the shorter has; one or none leaves all as it is |
| `ParagraphScript.CommonStays` | lib/onpdiff.rb:165-166 | a common entry stays and the rest follows |
| `ParagraphScript.TwoAndTwo` | lib/onpdiff.rb:191-199 | two deletions and two insertions come out as deletion, insertion, deletion, insertion |
| `ParagraphScript.ParagraphsKeepSides` | lib/onpdiff.rb:161-210 | for every script, pairing keeps the deleted-and-common and the added-and-common tokens in order |
| `Markdown.EscapedHasNoMarkup` | lib/discourse_diff.rb:158-159 | escaped text holds no angle bracket, so that markup added later can be told from it |
| `Markdown.EscapeIsInjective` | lib/discourse_diff.rb:158-159 | different texts stay different when escaped |
| `Markdown.LinesKeepText` | lib/discourse_diff.rb:164-166 | the lines join to the text without its leading line ends |
| `Markdown.LinesAreWhole` | lib/discourse_diff.rb:164-166 | they are whole lines, each with all the line ends behind it |
| `Markdown.MarkdownJoins` | lib/discourse_diff.rb:168-191 | the tokens join to the text from any position the loop starts a token at |
| `Markdown.TokensAreWhole` | lib/discourse_diff.rb:168-191 | they are whole words with all blanks behind them and single other characters, one behind the other |
| `DiscourseDiff.TokenizeMarkdown` | lib/discourse_diff.rb:168-191 | the loop, which looks ahead and steps back, gives the specified tokens |
| `DiscourseDiff.GenerateSideBySideMarkdown` | lib/discourse_diff.rb:255-269 | the deleted pieces are the old side's entries and the inserted pieces the new side's, in order, the changed ones tagged |
| `DiscourseDiff.PiecesShow` | lib/discourse_diff.rb:255-269 | of a diff of escaped text such pieces, with markup taken off, spell that side's text |
| `DiscourseDiff.DiscourseDiff.LineByLineDiff` | lib/discourse_diff.rb:155-162 | the memoized comparison of the two escaped texts by lines |
| `DiscourseDiff.DiscourseDiff.SharedRow` | lib/discourse_diff.rb:102-124 | the cells of a row two entries share are the two sides of a shortest diff of their tokens, by words or, if their numbers differ by more than 200, by lines |
| `DiscourseDiff.SharedRowShows` | lib/discourse_diff.rb:112-125 | such a row shows both entries in full if that comparison is not cut off, and nothing otherwise |
| `DiscourseDiff.DiscourseDiff.OwnRow` | lib/discourse_diff.rb:98-134 | an entry without a neighbour of the opposite operation behind it stands alone on the side, or sides, it belongs to |
| `DiscourseDiff.RowsShowEverything` | lib/discourse_diff.rb:92-142 | the table's columns spell both texts if and only if neither the outer nor any inner comparison is cut off |
| `DiscourseDiff.ShortTextFits` | lib/discourse_diff.rb:92-142 | no comparison is cut off when one of the escaped texts has fewer than 1000 characters |
| `DiscourseDiff.DiscourseDiff.SideBySideMarkdown` | lib/discourse_diff.rb:92-142 | the HTML is the table of one such row after the other for the whole line diff, and loses nothing if and only if no comparison is cut off; so for texts as short as that |
| `PresenceCounts.PresentKeepsCounts` | lib/presence_channel.rb:474-501 | after `present` each user's count is the number of that user's sessions, and users without one are not listed |
| `PresenceCounts.LeaveKeepsCounts` | lib/presence_channel.rb:503-531 | likewise after `leave`, with either guard |
| `PresenceCounts.AutoLeaveSweeps` | lib/presence_channel.rb:583-626 | `auto_leave` removes exactly the expired sessions and reports, once each, exactly the users left without one; aborted or not, counts agree |
| `PresenceCounts.AutoLeaveLocksExactly` | lib/presence_channel.rb:596-611 | `auto_leave` raises the mutex error if and only if the mutex is taken and some user would have to go |
| `PresenceCounts.AbortedSweepIsHarmless` | lib/presence_channel.rb:606-621 | a sweep stopped by the error, which is not rolled back, has removed no user and only expired sessions |
| `PresenceCounts.PresentListsInTime` | lib/presence_channel.rb:484-495 | with `NX`, a session is listed in time if and only if it does not expire before the score already there |
| `PresenceCounts.AutoLeaveListsInTime` | lib/presence_channel.rb:619-623 | a finished or aborted sweep leaves the channel's score no later than its earliest session |
| `PresenceSessions.PresentDoes` | lib/presence_channel.rb:477-500 | `present` is refused exactly if the mutex is taken and the user has no session; else the session has the new expiry, no other changes, and the user is reported exactly if it is its first |
| `PresenceSessions.LeaveDoes` | lib/presence_channel.rb:506-530 | `leave` is refused exactly if the guard asks for the taken mutex for a user's only session; else just that session goes, and the user is reported exactly if it was its only one |
| `PresenceSessions.SweepDoes` | lib/presence_channel.rb:606-621 | `auto_leave`, finished or aborted, takes away exactly the expired sessions up to the first that would cost a user its last while the mutex is taken |
| `PresenceSessions.SessionsOfRun` | lib/presence_channel.rb:474-626 | over any run, with either guard, a session is there exactly if it was presented and neither left nor was swept since, with the expiry of the last `present` |
| `PresenceSessions.UsersOfRun` | lib/presence_channel.rb:474-626 | and a user is in the hash exactly if one of its sessions is there |
| `PresenceStream.LeaveKeepsInv` | lib/presence_channel.rb:506-528 | a `leave` keeps the stream in order if and only if it steals no mutex whose holder still has to publish |
| `PresenceStream.StepKeepsInvExactly` | lib/presence_channel.rb:474-626 | every step of script, publish and release keeps the invariant if and only if it is no such steal |
| `PresenceStream.RunKeepsInv` | lib/presence_channel.rb:362-374 | with the guard of the comment, every interleaving keeps it: users in the hash are the fold of the messages published plus the one outstanding |
| `PresenceStream.RunWithoutStealsKeepsInv` | lib/presence_channel.rb:506-512 | with the guard as written, so does every interleaving without a steal |
| `PresenceStream.CountsAddUp` | lib/presence_channel.rb:563-581 | for a client that only adds up count changes, the sum is the number of users the messages leave |
| `PresenceStream.SnapshotsAgree` | lib/presence_channel.rb:542-581 | over any run, users and count read are the fold of the messages up to the id returned with them |
| `PresenceStream.ClientsStayUpToDate` | lib/presence_channel.rb:166-185 | a snapshot plus all later messages is what any later snapshot returns |
| `PresenceStream.HolderCanFinish` | lib/presence_channel.rb:369-374 | from any state in order the mutex holder can publish and release by itself, after which nothing waits and snapshots can be read |
| `PresenceStream.LostMessageIsVisible` | lib/presence_channel.rb:140-146 | if the holder's message is not published, every reader after its release sees what the stream does not say |
| `PresenceStream.UndisturbedCall` | lib/presence_channel.rb:127-210 | script, message and release of one call, undisturbed, are a run of the protocol, which ends in order if and only if the script is no steal |
| `PresenceStream.StealIsVisible` | lib/presence_channel.rb:508 | with the guard as written, a leave lets a reader see users the stream does not tell of if and only if it is a steal |
| `PresenceStream.LiteralGuardCounterexample` | lib/presence_channel.rb:508 | a run of two scripts from an empty channel that reaches such a state |
| `PresenceStream.StepKeepsTimely` | lib/presence_channel.rb:460-470 | every step whose expiry time does not go back keeps the channel listed no later than its earliest expiry |
| `PresenceStream.AutoLeaveAllMissesNone` | lib/presence_channel.rb:223-227 | over any runs in which expiry times do not go back, `auto_leave_all` visits every channel that holds an expired session, whichever guard `leave` uses |
| `PresenceChannel.PresenceChannel.EvalPresent` | lib/presence_channel.rb:474-501 | the script's commands, in order, do to the keys what the step does |
| `PresenceChannel.PresenceChannel.EvalLeave` | lib/presence_channel.rb:503-531 | likewise for `leave` |
| `PresenceChannel.PresenceChannel.EvalAutoLeave` | lib/presence_channel.rb:583-626 | likewise for `auto_leave`, an error leaving the keys as far as the loop got |
| `PresenceChannel.PresenceChannel.EvalReleaseMutex` | lib/presence_channel.rb:533-540 | releases the mutex only for the value that took it |
| `PresenceChannel.PresenceChannel.EvalUserIds` | lib/presence_channel.rb:542-581 | nothing while the mutex is taken, else users and last id of one state |
| `PresenceChannel.PresenceChannel.PresentNow` | lib/presence_channel.rb:127-147 | undisturbed, from any state of the protocol, the call is the run of script, message and release, and ends in order |
| `PresenceChannel.PresenceChannel.LeaveNow` | lib/presence_channel.rb:150-164 | likewise for `leave`, with either guard; it ends in order if and only if it steals no mutex |
| `PresenceChannel.PresenceChannel.AutoLeaveNow` | lib/presence_channel.rb:196-210 | likewise for `auto_leave`, one message for all users |
| `DistributedMutex.KeyOutlivesExpiry` | lib/distributed_mutex.rb:17 | with its extra second of life the key is never dropped before its expiry has passed |
| `DistributedMutex.TokensIncrease` | lib/distributed_mutex.rb:9-20 | a new token is later than those of all acquisitions not yet released, so none is mistaken for another |
| `DistributedMutex.StepKeepsInv` | lib/distributed_mutex.rb:9-31 | each lock, unlock and passing of time keeps tokens distinct, a valid one stored, and the stored one that of the latest acquisition not yet released |
| `DistributedMutex.MutualExclusion` | lib/distributed_mutex.rb:3-4 | over any run and any validities no two unreleased acquisitions are both within their expiry |
| `DistributedMutex.AcquisitionLasts` | lib/distributed_mutex.rb:10-19 | over any run, after an acquisition and until its release the lock is refused to everybody for `validity` seconds after the second it was made in, and from then on never because of it |
| `DistributedMutex.UnlockIsPrecise` | lib/distributed_mutex.rb:22-31 | an unlock in time succeeds, and an unlock at any time leaves the stored key of another holder in place, expired or not |
| `DistributedMutex.UnlockFailsExactly` | lib/distributed_mutex.rb:25-30 | an unlock fails if and only if the key was dropped or taken over by a later acquisition; if it succeeds, all others are earlier and expired |
| `DistributedMutex.LockIsPrecise` | lib/distributed_mutex.rb:9-20 | the lock is refused if and only if some holder is within its expiry; at all other times it is acquired |
| `DistributedMutex.TamperingWarning` | lib/distributed_mutex.rb:55-65 | without tampering the warning is given if and only if the expiry passed between clock read and unlock and the key was dropped or taken over |
| `DistributedMutex.FalseAlarm` | lib/distributed_mutex.rb:63-65 | a run of one acquisition and a wait of any length past the key's life that ends in that warning, for every validity |
| `DistributedMutex.Redis.EvalLock` | lib/distributed_mutex.rb:9-20 | LOCK_SCRIPT on the key and its expiry |
| `DistributedMutex.Redis.EvalUnlock` | lib/distributed_mutex.rb:22-31 | UNLOCK_SCRIPT on the key and its expiry |
| `DistributedMutex.Redis.Finish` | lib/distributed_mutex.rb:54-66 | the `ensure` block: without a warning the process was the last holder to the end; a warning about tampering means that its expiry has passed |
| `RateLimiter.AdmitsCountsWindow` | lib/rate_limiter.rb:88-89 | looking at length and last entry of the capped list decides whether fewer than max entries are younger than secs |
| `RateLimiter.PerformMovesWindow` | lib/rate_limiter.rb:80-98 | an attempt is admitted exactly if the window has room, and only then (or when aggressive) enters it |
| `RateLimiter.RunRefinesHistory` | lib/rate_limiter.rb:80-123 | on any attempts the capped, expiring list decides as the unbounded log does |
| `RateLimiter.NoWindowOverflows` | lib/rate_limiter.rb:80-122 | no secs seconds contain more than max admissions, with either script |
| `RateLimiter.AggressiveAdmitsLess` | lib/rate_limiter.rb:100-122 | on the same attempts the aggressive script admits only what the normal one admits |
| `RateLimiter.SameWindowSameDecisions` | lib/rate_limiter.rb:80-123 | stores with the same window decide alike for ever |
| `RateLimiter.RollbackUndoes` | lib/rate_limiter.rb:138-143 | an admitted attempt rolled back at once changes no later decision |
| `RateLimiter.UnderLimitIsAdmission` | lib/rate_limiter.rb:179-186 | `is_under_limit?` says what an attempt made now would be told |
| `RateLimiter.RemainingIsUnderLimit` | lib/rate_limiter.rb:145-152 | under the limit means a positive `remaining`, but for a full list whose oldest entry is exactly secs old |
| `RateLimiter.AdmittedAtOnce` | lib/rate_limiter.rb:80-98 | of any number of attempts at one time, those are admitted for which the window has room |
| `RateLimiter.RemainingIsAdmissions` | lib/rate_limiter.rb:145-152 | `remaining` never exceeds that number, and is it exactly if no entry is secs old to the second |
| `RateLimiter.NothingRemainsYetAdmitted` | lib/rate_limiter.rb:145-152 | with a maximum of 1, secs after an admission nothing remains and an attempt is admitted |
| `RateLimiter.WaitingIsExact` | lib/rate_limiter.rb:75-129 | in the state a refusal leaves, with either script, the next attempt is admitted if and only if the `seconds_to_wait` read there have passed |
| `RateLimiter.CanPerformForetells` | lib/rate_limiter.rb:71-73 | on any list `can_perform?` foretells `performed!` if and only if the maximum is positive or the oldest entry, time 0 if none, is younger than secs |
| `RateLimiter.ForetellsWrongly` | lib/rate_limiter.rb:71-73 | with a maximum of 0 and nothing recorded it does not, from time secs on |
| `RateLimiter.RateLimiter.PerformNow` | lib/rate_limiter.rb:125-136 | `performed!` with its unlimited, non-positive, raising and refusing cases, on the stored list |
| `RateLimiter.RateLimiter.Rollback` | lib/rate_limiter.rb:138-143 | `rollback!` takes the newest entry off the stored list |
| `RateLimiter.RateLimiter.RemainingNow` | lib/rate_limiter.rb:145-152 | `remaining`, by a loop over at most max + 1 entries |
| `LineBreaks.HoistInLeaves` | lib/html_to_markdown.rb:63-77 | splitting an inline parent moves just its `<br>` one element outwards; all other leaves keep place and ancestors |
| `LineBreaks.HoistingPays` | lib/html_to_markdown.rb:60-80 | each turn of the loop lowers by one the sum, over marked `<br>`s, of one plus the inline elements around them |
| `LineBreaks.BreaksLandInBlocks` | lib/html_to_markdown.rb:47-85 | once settled each `<br>` stands directly in the innermost block element around it |
| `LineBreakJoints.HoistInJoints` | lib/html_to_markdown.rb:63-77 | a turn changes how many elements neighbouring leaves share just as far as its `<br>` has left one, so that one copy of the inline element stands on each side |
| `HtmlToMarkdown.HtmlToMarkdown.HoistLineBreaks` | lib/html_to_markdown.rb:48-85 | the nested loops end on every document with a block root, with every `<br>` settled, all other leaves as before in document order, and neighbouring leaves sharing what they can still share |
| `HtmlToMarkdown.NeighboursStayTogether` | lib/html_to_markdown.rb:47-77 | in such a document two neighbouring leaves other than `<br>`s share as many elements as before |
| `HtmlToMarkdown.HtmlToMarkdown.HoistOnce` | lib/html_to_markdown.rb:53-83 | one pass over the marked `<br>`s either changes something and lowers the measure, or leaves none marked |
| `Whitespace.CollapsedIsTight` | lib/html_to_markdown.rb:112-122 | collapsed text has single spaces and no leading one, and such a text is left alone |
| `Whitespace.CollapsedKeepsWords` | lib/html_to_markdown.rb:112-122 | collapsing keeps the sequence of words |
| `Whitespace.CollapseIsFlat` | lib/html_to_markdown.rb:109-131 | carrying the flag through a tree does to its whole text what collapsing one text does |
| `Whitespace.CollapseSpaces` | lib/html_to_markdown.rb:109-131 | the loops over nodes and characters compute that collapsed tree and the flag |
| `Whitespace.CleanRunKeepsWords` | lib/html_to_markdown.rb:97 | a cleaned run of inline nodes has the same words, single spaces and no leading one |
| `Whitespace.SpaceStaysExactly` | lib/html_to_markdown.rb:133-141 | it still ends in a space if and only if white space ends it that begins before its last leaf |
| `Whitespace.SpaceBeforeBlankLeafStays` | lib/html_to_markdown.rb:133-141 | an element with a word and a space, then a blank text: the space stays |
| `WhitespaceTree.CleanedKeepsShape` | lib/html_to_markdown.rb:89-102 | only texts change: every element, `<br>` and text node stays where it is |
| `WhitespaceTree.CleanedIsTidy` | lib/html_to_markdown.rb:89-107 | at any depth, every stretch of inline nodes without an inline neighbour is tidied as a whole, except in `pre` and in elements without a description, which stay as they are |
| `WhitespaceTree.InlineKidsKeepWords` | lib/html_to_markdown.rb:92-102 | the words across any neighbouring inline children stay: none are run together and none torn apart |
| `WhitespaceTree.CleanedTwice` | lib/html_to_markdown.rb:89-102 | cleaning a cleaned document changes nothing |
| `WhitespaceTree.RemoveWhitespaces` | lib/html_to_markdown.rb:89-102 | the recursion over runs and children computes that document |
| `JsLocale.DeepDeleteMatches` | lib/js_locale_helper.rb:73-90 | deleting and replacing entries in a copy, key by key in any order, leaves the specified hash |
| `JsLocale.DeepDeleteLookup` | lib/js_locale_helper.rb:73-90 | exactly the texts some checked hash covers are gone, at every path; the others are as before |
| `JsLocale.LoadTranslationsMerged` | lib/js_locale_helper.rb:92-112 | the loop strips each locale of what the already stripped ones before it cover |
| `JsLocale.KeptOnceInFirst` | lib/js_locale_helper.rb:92-112 | for locales of one shape each text is kept in exactly one locale, the first of the chain that has it |
| `JsLocale.FallbackPreserved` | lib/js_locale_helper.rb:92-112 | so lookup through the chain gives the same text before and after |
| `JsLocale.LostIsCovered` | lib/js_locale_helper.rb:73-110 | read off the locale trees alone: a path is covered by the stripped trees before a locale if and only if an earlier locale has a text at it or below, or one above it that is searched and not lost itself |
| `JsLocale.TextCovers` | lib/js_locale_helper.rb:79-86 | a text covers a path exactly if it has the first key as a part, and each key the next one |
| `JsLocale.FallbackPreservedExactly` | lib/js_locale_helper.rb:86 | for locales of any shapes, lookup through the merged chain gives the first locale's text unless it is lost in that sense, and nothing if it is |
| `JsLocale.FallbackPreservedIff` | lib/js_locale_helper.rb:92-112 | lookup at a path is unchanged if and only if the first locale with a text there does not lose it |
| `JsLocale.TextIsSearched` | lib/js_locale_helper.rb:79-86 | a text of an earlier locale that contains a key of a later one makes the later text disappear |
| `PostRevisor.PostRevisor.ReviseAndCreateNewVersion` | lib/post_revisor.rb:457-473 | both version numbers grow and a revision of that number takes all changes |
| `PostRevisor.PostRevisor.Revise` | lib/post_revisor.rb:468-473 | an edit of the latest version saves its fields and folds its changes in |
| `PostRevisor.PostRevisor.UpdateRevision` | lib/post_revisor.rb:608-634 | field by field in any order: entries are kept, replaced, added or deleted, and an emptied revision goes together with its version |
| `PostRevisor.FoldedTells` | lib/post_revisor.rb:613-625 | whatever the edit, folding keeps a revision holding every field whose text changed since the version's start, with both texts |
| `PostRevisor.FoldedDescribes` | lib/post_revisor.rb:613-625 | a revision that holds exactly those fields still does after folding if and only if each change it had no entry for shows in the text |
| `PostRevisor.StepsBackExactly` | lib/post_revisor.rb:627-632 | the version steps back if and only if the edit takes every text back to the start of the version and leaves no entry that shows nothing, new or untouched |
| `PostRevisor.RevisedKeepsInv` | lib/post_revisor.rb:587-637 | every edit keeps revisions numbered 2..version and each telling what its version changed, stepping back included |
| `PostRevisor.EditIsSaved` | lib/post_revisor.rb:457-473 | every edit is saved; a new version holds exactly the changed values, old and new; without a revision for the version nothing else changes, and earlier revisions never do |
| `PostRevisor.LastEditIsSaved` | lib/post_revisor.rb:477-499 | after any run a field has the value of the last edit that names it, or the one it began with |
| `PostRevisor.RunKeepsInv` | lib/post_revisor.rb:457-637 | so does every run of edits from a new post, and public and plain version agree |
| `PostRevisor.ExactIsVisible` | lib/post_revisor.rb:613-625 | after any run the revisions hold exactly the fields whose text changed if and only if every entry shows in the text |
| `PostRevisor.RevisedStaysExact` | lib/post_revisor.rb:587-637 | an edit keeps that so if and only if each of its changes without an entry shows in the text |
| `PostRevisor.RewindReachesEveryVersion` | lib/post_revisor.rb:613-625 | after any run, taking the revisions back one after the other gives the texts of every earlier version |
| `PostRevisor.InvisibleChangeIsRecorded` | lib/post_revisor.rb:593-612 | a change from nil to an empty text is recorded though the text is the same |
| `PostRevisor.SmallEdit` | lib/post_revisor.rb:434-443 | the size and distance part of `grace_period_edit?` |
| `PostRevisor.SmallEditJudgesDistance` | lib/post_revisor.rb:440-443 | an edit is small if and only if its edit distance is, except past the cut-off, where only the sizes count |
| `PostRevisor.RewriteIsSmall` | lib/post_revisor.rb:440-443 | replacing a text of 1000 characters or more by one as long that has none of its characters is a small edit for every limit |
| `PostRevisor.ThousandLetters` | lib/post_revisor.rb:440-443 | a text of a's turned into as many b's is such an edit |
| `ConsecutiveVisits.OffsetsTellIslands` | lib/badge_queries.rb:266-268 | day minus dense rank never falls, and is the same for two days if and only if every day between them was visited |
| `ConsecutiveVisits.GroupsAreRuns` | lib/badge_queries.rb:268-275 | the group of a day is exactly the maximal run of consecutive days around it |
| `ConsecutiveVisits.LongGroupsAreLongRuns` | lib/badge_queries.rb:276 | a group passes HAVING if and only if the run from its first day has that many days |
| `ConsecutiveVisits.RankOneIsEarliest` | lib/badge_queries.rb:273-281 | rank 1 exists if and only if a long enough run does, and is the earliest one, for any number of days |
| `ConsecutiveVisits.AwardedForEarliestStreak` | lib/badge_queries.rb:263-283 | a user is awarded if and only if there are that many visited days in a row, dated that many days after the first day of the earliest of them |
| `Gaps.Gaps.constructor` | lib/gaps.rb:13-20 | no gaps for a nil argument, else what `find_gaps` records |
| `Gaps.Gaps.FindGaps` | lib/gaps.rb:26-52 | the two-pointer loop records for each element found what lies between it and the one before, and at the end what is left over |
| `Gaps.LoopEnds` | lib/gaps.rb:33-49 | the loop ends if and only if there is nothing to show or something to search |
| `Gaps.RebuildsOriginal` | lib/gaps.rb:26-52 | the gaps and the shown elements give the original back if and only if what is shown is a subsequence of it |
| `Gaps.MissingEndsSearch` | lib/gaps.rb:33-51 | from the first element that is not found on nothing is recorded, and what is shown before it is given back with its gaps |
| `Gaps.RecordedOnce` | lib/gaps.rb:7-8 | no element is recorded in two gaps, before or after, nor in a gap and as shown |

## Left out

- ONPDiff: `short_diff` appends to the strings of its inputs in place, so that they are changed for whoever shares them; tokens are values here.
- DiscourseDiff: `inline_html`, `side_by_side_html` and HtmlTokenizer, which depend on an HTML parser.
- PresenceStream: expiry of the mutex key and of the channel's keys; a process that dies after its script; channels whose messages go to nobody; permissions and configuration.
- PresenceStream.RunKeepsInv: publishing succeeds in every run; what follows when it raises is LostMessageIsVisible. Retries after the mutex error are new attempts, with the same value as often as one likes, and may go on for ever.
- PresenceStream.AutoLeaveAllMissesNone: expiry times given to `present` do not go back on a channel.
- PresenceChannel: the list of all channels is modelled as one score a channel.
- DistributedMutex: the back-off loop of `get_lock`, read-only Redis, the process-local mutex and the formatting of large numbers; a process holds one acquisition at a time.
- RateLimiter: choice of limits for staff, read-only Redis, per-day and per-minute keys. Time is the caller's clock, with Redis lagging by an arbitrary amount.
- RateLimiter.RunRefinesHistory: times do not decrease, and no rollback happens in between.
- LineBreaks: documents are trees of values; node identity other than that of a `<br>`, and attributes, which the copies of a split element do not have, are not modelled. A no-break space counts as content, as in serialized HTML.
- HtmlToMarkdown.HtmlToMarkdown.HoistLineBreaks: white space between elements may be lost, as in the source; it is not among the leaves.
- WhitespaceTree: the table of element descriptions is a parameter.
- HtmlToMarkdown: parsing, removal of hidden elements and the `visit_` methods that emit Markdown.
- JsLocale: loading of files, memoization, and repeated or missing locales in a chain.
- PostRevisor: which edits open a new version beyond their size, `skip_revision`, failures, cached originals of raw and cooked, hidden revisions, and everything a revision triggers.
- PostRevisor.RunKeepsInv: of stored values the texts are told, and post and topic fields have different names.
- OnpDiff.DiffSize: a revisor keeps its first `diff_size` and answers with it for any other pair of texts; a size is computed for each pair here.
- Gaps.RebuildsOriginal: elements shown are distinct; with repeated ones the later gap replaces the earlier.
- Gaps.Gaps.FindGaps: called only where LoopEnds says that the loop ends.
- ConsecutiveVisits: other badge queries.
- `lib/content_buffer.rb`: edits of several lines have no clear intended result.
- `lib/base62.rb`, `lib/image_sizer.rb`, `lib/markdown_linker.rb`, `lib/job_time_spacer.rb`, `lib/promotion.rb`: short functions without state of their own or loops to reason about.
