# A verified model of the kanto-backend services

This project models the seven services of the backend that hold real algorithms or state machines,
and proves properties of them. Prisma tables are maps, sets or sequences of rows, a Redis cache is a
map whose entries may expire at any time, and one service call (or `$transaction`) is one atomic step,
except where two requests are interleaved on purpose (`EventInterleaving`).

`dafny verify dfyconfig.toml` checks everything.

| file | what it models |
|---|---|
| `EditDistance.dfy`, `Bigrams.dfy`, `TextNormalizer.dfy`, `Similarity.dfy`, `DuplicateScan.dfy`, `DuplicateEdge.dfy` | duplicate detection: the matrix, the bigram counts, the canonical text, the two scores, the scan, and two rows whose order decides |
| `EventSeats.dfy`, `EventQueue.dfy`, `EventOverbooking.dfy`, `EventDesk.dfy`, `EventInterleaving.dfy` | participation in an event: seats, waiting list, promotion; the order of the waiting list; runs that reach the bounds; the calls on mutable state; concurrent registrations |
| `EventRewards.dfy`, `RewardDesk.dfy` | the reward ledger with winner caps tested against a stale snapshot |
| `SeededShuffle.dfy`, `CitationAnswers.dfy`, `CitationCache.dfy` | the seeded listing with its pages, the answers of the citations service, and its read-through cache |
| `Badges.dfy` | badges that pay experience that unlocks badges |
| `CivicQuiz.dfy`, `QuizSessions.dfy` | shuffled choices, grading, scoring; sessions on mutable state |
| `Contributions.dfy`, `ContributionDesk.dfy` | the life of a contribution, its audit trail, disputes and purge; the calls on mutable state |
| `Friends.dfy` | the friendship relation and its batched views |
| `Wrappers.dfy`, `Basics.dfy` | options, and small facts about numbers, sets and lists |

The services that update rows step by step are classes (`EventDesk`, `RewardDesk`, `CitationsService`,
`BadgesService`, `QuizService`, `ContributionDesk`, `FriendsService`). Where a property is about whole
runs of calls, each method is proved to perform the effect of the call as a function on the rows
(`Apply`), and the property is proved of that function over every run.

## Where the code falls short of what one would expect

Each of these is a theorem of the model, stated with the exact condition under which the expected
behaviour does hold where there is one a caller could check, and with a concrete run otherwise.

- Duplicate verdicts depend on the order of the rows when the best raw score equals the threshold
  (`DuplicateScan.VerdictIsExact`); `DuplicateEdge.OppositeVerdicts` gives a submission and two stored
  texts with opposite verdicts in the two orders.
- An exact copy of a stored text scores 1 only if the text has no stop word and no one-letter word,
  because the input is stripped of them and the stored text is not (`Similarity.ExactCopyScoresOne`;
  `Similarity.CopyWithAStopWord`).
- The waiting list is not first come, first served, although the comments of the service speak of the
  first participant of the list: a run keeps the joining order if and only if no registration
  overtakes the last one waiting (`EventQueue.ServedInJoiningOrder`), which cannot happen as long as
  nobody departs from in front of somebody else (`EventQueue.NoGapNoOvertaking`) and does happen in
  `EventQueue.LaterJoinerOvertakes`.
- A submission from the waiting list or after a cancellation takes a seat that the counter does not
  record (`EventSeats.RunOfNewEvent`): for any number of such submissions there is a run with that
  many seat holders too many (`EventOverbooking.OverbookingIsReached`), and one in which the counter
  is clamped (`EventOverbooking.ClampFires`).
- Concurrent requests can overbook (`EventInterleaving.OverbookingBound`,
  `EventInterleaving.BoundIsAttained`), count one seat twice (`EventInterleaving.InterleavedAccounting`,
  `EventInterleaving.DoubleReactivation`), and leave somebody waiting for a free seat, exactly when a
  request that has read a full event joins the waiting list while a seat is free by then
  (`EventInterleaving.InterleavedConservation`, `EventInterleaving.InterleavingStrandsAWaiter`).
- A podium reward can exceed its cap by two (`EventRewards.PodiumOvershoot`, `EventRewards.CapExceededByTwo`).
- Confirming a duplicate and accepting a dispute move the status without an audit entry: the logs are in
  step throughout a run if and only if it has no such move (`Contributions.AuditReplay`). A log that has
  drifted is in step again if and only if nothing was written to it meanwhile and the status is back
  (`Contributions.DriftedLogs`, `Contributions.RecoveredLog`, `Contributions.BrokenLog`).
- A contribution is published and paid once for each accepted approval (`Contributions.PaymentsOverRuns`),
  and an approval publishes it a second time exactly when its log already shows one
  (`Contributions.SecondPublication`, `Contributions.ApprovedTwice`).
- A contribution can be approved without being published: exactly by accepting a dispute for one whose
  log shows no approval (`Contributions.ApprovedStep`, `Contributions.ApprovedUnpublished`).
- A progress bar can be full before the badge is reached (`Badges.FullBarBeforeTheTarget`,
  `Badges.FullBarOfALockedBadge`).
- A question that lists its right choice twice is graded wrongly at one of the two positions
  (`CivicQuiz.GradingCommutesWithShuffling`, `CivicQuiz.RightChoiceTwice`), and so is a shuffled question
  once the answers map has expired (`CivicQuiz.GradingWithoutTheMap`, `CivicQuiz.WrongChoiceWithoutTheMap`).
- A negative number of questions is not refused: it opens a session on all questions save that many
  (`QuizSessions.WhatIsSelected`).
- Questions that a session has not shown can be answered in it; only without such answers is the score
  bound to stay within the total (`QuizSessions.ScoreWithinTotal`, `QuizSessions.ScoreBeyondTotal`).
- A cached citation lags behind by exactly the reports since it was cached, in their number and in the
  time of its last update (`CitationCache.CitationsService.FindOne`, `CitationCache.StaleDetail`).
- A cached list is current if and only if none of its rows was viewed or reported since and no approved
  contribution was published that it should list, with one exception in the seeded branch
  (`CitationAnswers.CurrentIff`, `CitationCache.CitationsService.FindAll`; stale runs in
  `CitationCache.StaleList` and `CitationCache.StaleAfterApproval`): the service that approves a
  contribution drops no key of this cache.
- Accepting a request also accepts a row that was blocked, exactly when the received row found is one
  (`Friends.FriendsService.AcceptFriendRequest`, `Friends.AcceptedBlock`). No code of the backend
  writes such a row; it can only come from outside.

## Model

| member | source | states |
|---|---|---|
| EditDistance.ShortestScript | src/contributions/duplicate-detection.service.ts:119-134 | for any two texts there is a script of insertions, deletions and substitutions, as long as the recurrence says, that turns one into the other |
| EditDistance.NoShorterScript | src/contributions/duplicate-detection.service.ts:119-134 | no script, with edits applied anywhere and through any intermediate texts, is shorter than the recurrence |
| EditDistance.DistanceIsShortest | src/contributions/duplicate-detection.service.ts:125-134 | a number is the length of a shortest script if and only if it is the value of the recurrence |
| EditDistance.FillMatrix | src/contributions/duplicate-detection.service.ts:119-134 | the matrix filled in place ends with every cell the length of a shortest script between the two prefixes |
| EditDistance.DistanceZero | src/contributions/duplicate-detection.service.ts:119-134 | the distance is zero exactly for equal texts |
| EditDistance.DistanceSymmetric | src/contributions/duplicate-detection.service.ts:119-134 | the distance is symmetric |
| EditDistance.DistanceTriangle | src/contributions/duplicate-detection.service.ts:119-134 | the triangle inequality |
| EditDistance.DistanceBounds | src/contributions/duplicate-detection.service.ts:136-137 | the distance lies between the difference of the lengths and the longer length, so the score lies in [0,1] |
| Bigrams.CountBigrams | src/contributions/duplicate-detection.service.ts:84-91 | the count map holds exactly the multiset of bigrams of the text |
| Bigrams.BigramsArePairs | src/contributions/duplicate-detection.service.ts:84-91 | the bigrams of a text are its adjacent pairs, with multiplicity |
| Bigrams.CountShared | src/contributions/duplicate-detection.service.ts:96-101 | the loop over the entries adds up the size of the multiset intersection |
| Bigrams.EditLoss | src/contributions/duplicate-detection.service.ts:84-104 | one edit destroys at most two bigrams |
| Bigrams.QGramLemma | src/contributions/duplicate-detection.service.ts:84-138 | texts at distance d share at least max(length) - 1 - 2d bigrams: the two similarity functions are tied together |
| TextNormalizer.NormalizeIsJoinedWords | src/contributions/duplicate-detection.service.ts:51-71 | the canonical text is the maximal runs of [a-z0-9] joined by single blanks, without stop words and one-letter words in the default mode |
| TextNormalizer.NormalizeIsCanonical | src/contributions/duplicate-detection.service.ts:51-71 | over [a-z0-9 ] with single inner blanks and none at the ends, for every input and both modes |
| TextNormalizer.NormalizeIdempotent | src/contributions/duplicate-detection.service.ts:176-192 | normalising an already normalised input changes nothing, which the scan relies on |
| Similarity.CalculateDice | src/contributions/duplicate-detection.service.ts:77-105 | twice the shared bigrams over all bigrams, with the cases of equal and of short texts |
| Similarity.CalculateLevenshtein | src/contributions/duplicate-detection.service.ts:110-138 | the similarity derived from the shortest script, with the cases of empty texts |
| Similarity.GetCombinedSimilarity | src/contributions/duplicate-detection.service.ts:143-148 | the greater of the two scores of the canonical texts |
| Similarity.DiceLaws | src/contributions/duplicate-detection.service.ts:77-105 | symmetric, in [0,1], and 1 exactly for equal texts or equal multisets of bigrams |
| Similarity.LevenshteinLaws | src/contributions/duplicate-detection.service.ts:110-138 | symmetric, in [0,1], and 1 exactly for equal texts |
| Similarity.CombinedLaws | src/contributions/duplicate-detection.service.ts:143-148 | the combined score is symmetric, lies in [0,1], and is 1 exactly when one of the two is |
| Similarity.DiceOfCloseTexts | src/contributions/duplicate-detection.service.ts:103-137 | d edits cost the Dice score at most 4d over the number of bigrams |
| Similarity.ExactCopyScoresOne | src/contributions/duplicate-detection.service.ts:176-192 | an exact copy of the submitted text scores 1 if and only if the text has no stop word and no one-letter word |
| Similarity.CopyWithAStopWord | src/contributions/duplicate-detection.service.ts:19-71 | an exact copy of any text that begins with one of the twenty stop words or a one-letter word scores less than 1, a copy of any other single word 1 |
| DuplicateScan.ScanFindsMaximum | src/contributions/duplicate-detection.service.ts:177-232 | comparing raw scores with a rounded best still yields the rounded true maximum, and a target whose raw score is within 0.01 of it |
| DuplicateScan.VerdictIsExact | src/contributions/duplicate-detection.service.ts:193-223 | for a threshold in hundredths the verdict is positive if and only if the maximum exceeds it, or equals it and the first score that rounds to it is not below it |
| DuplicateScan.EdgeDependsOnOrder | src/contributions/duplicate-detection.service.ts:193-223 | of two scores that both round to the threshold, the verdict is positive exactly when the one equal to it comes first |
| DuplicateEdge.CharacterLoss | src/contributions/duplicate-detection.service.ts:119-134 | the characters that only one text has are no more than the edits between the two |
| DuplicateEdge.OppositeVerdicts | src/contributions/duplicate-detection.service.ts:160-233 | one submission, two rows, two orders, opposite verdicts of the whole call |
| DuplicateScan.DetectDuplicate | src/contributions/duplicate-detection.service.ts:160-233 | short texts match nothing; otherwise every item, and every contribution whose text does not begin with a brace, scores at most the reported score, and the target is one of them; without a target there is no match; the verdict is faithful to the raw scores |
| EventSeats.BalancedStep | src/events/events.service.ts:376-399 | every call keeps the counter equal to the seat holders plus cancellations from COMPLETED minus submissions without a seat plus clamped decrements |
| EventSeats.SeatAccounting | src/events/events.service.ts:612-674 | the same over every run of joins, reactivations, cancellations, submissions and status changes |
| EventSeats.NeverUndercounts | src/events/events.service.ts:663-672 | without submissions from outside the seats the counter never undercounts and the clamp never fires |
| EventSeats.WorkConservation | src/events/events.service.ts:406-418 | over every run with fixed settings: whenever somebody waits the counter is at the capacity, and the number waiting respects a positive waiting list capacity |
| EventSeats.RunOfNewEvent | src/events/events.service.ts:538-785 | all of it for a new event, and seat holders never exceed the capacity by more than the submissions that took a seat without a capacity test |
| EventSeats.LeaderboardNeverLags | src/events/events.service.ts:766-805 | over every run the leaderboard lists exactly the participants with a positive score, with their best score |
| EventQueue.JoinKeepsLine | src/events/events.service.ts:476-497 | a newcomer stands behind everybody who waits if and only if the position of the last one is at most the number waiting, or one more with an older row |
| EventQueue.LineStep | src/events/events.service.ts:634-660 | a call keeps the waiting list in joining order if and only if it is not a registration that overtakes |
| EventQueue.ServedInJoiningOrder | src/events/events.service.ts:635-674 | over every run: in joining order throughout if and only if nobody overtakes, and then every promotion takes the one who joined first |
| EventQueue.GaplessStep | src/events/events.service.ts:486-492 | a call leaves the positions exactly 1 to n if and only if nobody departs from in front of somebody |
| EventQueue.NoGapNoOvertaking | src/events/events.service.ts:476-497 | a run without such a departure has no overtaking |
| EventQueue.LaterJoinerOvertakes | src/events/events.service.ts:634-660 | a possible run that puts a participant in front of somebody who was waiting before |
| EventOverbooking.OverbookingIsReached | src/events/events.service.ts:739-785 | for every capacity and all numbers of submissions without a seat and of implicit joins a run ends with that many seat holders too many |
| EventOverbooking.ClampFires | src/events/events.service.ts:663-672 | for every event a run in which the decrement is skipped |
| EventDesk.EventDesk.ParticipateInEvent | src/events/events.service.ts:317-588 | refused in this order: outside PUBLISHED and ACTIVE, after the deadline, for a tier below the reserved one, without a seat or a place to wait; a participant keeps his row, anybody else gets a seat or the next position; the reply is the row and whether it waits |
| EventDesk.EventDesk.CancelParticipation | src/events/events.service.ts:594-710 | the participant withdraws before the start; a possible first waiting participant is promoted, else the seat is given back |
| EventDesk.EventDesk.AdminCancelParticipant | src/events/events.service.ts:1877-2031 | the same by an administrator, at any time but not twice |
| EventDesk.EventDesk.SubmitProgress | src/events/events.service.ts:715-805 | best score and progress are kept, completion at 100, implicit participation in open events only |
| EventDesk.EventDesk.FindNextInWaitlist | src/events/events.service.ts:635-644 | the participant returned is first by position and then by creation, and nobody is returned only when nobody waits |
| EventDesk.EventDesk.SetStatus | src/events/events.service.ts:1328-1353 | the status of the event changes and nothing else |
| EventInterleaving.UninterruptedJoin | src/events/events.service.ts:322-588 | read and write of a registration without interruption are the atomic call |
| EventInterleaving.OverbookingBound | src/events/events.service.ts:376-398 | with at most k requests holding a not-full snapshot, every interleaving with cancellations and submissions keeps the counter at most maxParticipants + k - 1 plus the participations that submissions create |
| EventInterleaving.BoundIsAttained | src/events/events.service.ts:465-554 | for every capacity and every k a run reaches exactly that bound |
| EventInterleaving.InterleavedAccounting | src/events/events.service.ts:376-399 | over every interleaving the counter is the number of seat holders with the tally of the calls, plus one for each commit that wrote over a seat |
| EventInterleaving.DoubleReactivation | src/events/events.service.ts:366-399 | two requests that read the same cancelled row: two on the counter, one seat |
| EventInterleaving.CommitStrands | src/events/events.service.ts:465-500 | a commit leaves somebody waiting for a free seat if and only if it queues a request that read a full event while a seat is free by now |
| EventInterleaving.InterleavedConservation | src/events/events.service.ts:406-500 | an interleaving keeps work conservation in all its states if and only if it has no such commit |
| EventInterleaving.InterleavingStrandsAWaiter | src/events/events.service.ts:465-500 | an interleaving that leaves somebody waiting for a free seat |
| EventRewards.AwardKeepsPayments | src/events/events.service.ts:866-905 | every balance stays what the claims of its owner pay |
| EventRewards.AwardKeepsBadges | src/events/events.service.ts:906-922 | the badges granted stay those of the claims |
| EventRewards.AwardAllExactly | src/events/events.service.ts:844-882 | a sequence of awards adds exactly its winners to the claims and to the count of a reward |
| EventRewards.CallWinners | src/events/events.service.ts:1456-1483 | one call gives an uncapped reward to all its candidates without a claim, and a capped one to nobody |
| EventRewards.ClaimsAfterDistribution | src/events/events.service.ts:1456-1483 | a distribution adds to the claims of a reward below its cap the first of the board if it is for the first, the first three if it is for the podium, and nobody otherwise |
| EventRewards.ClaimsAfterCompletion | src/events/events.service.ts:807-829 | a completed participation adds exactly the rewards for completion below their cap |
| EventRewards.LedgerOverRuns | src/events/events.service.ts:807-882 | over every run counts equal claim rows, nobody claims twice, balances match claims, and caps are kept for completion and first place and exceeded by at most 2 for the podium |
| EventRewards.PodiumOvershoot | src/events/events.service.ts:1463-1482 | a podium reward below its cap exceeds it in a distribution if and only if it has fewer places left than there are new users on the podium |
| EventRewards.CapExceededByTwo | src/events/events.service.ts:1463-1482 | a distribution that gives a reward for one winner to three |
| EventRewards.SecondDistributionIsIdle | src/events/events.service.ts:1434-1483 | a second distribution on the same leaderboard changes nothing, in whatever order the rewards are read |
| RewardDesk.RewardDesk.AwardSingleReward | src/events/events.service.ts:844-922 | one award against the snapshot of the caller: claim row, count and payment or badge, or nothing |
| RewardDesk.RewardDesk.AwardCompletion | src/events/events.service.ts:807-829 | the loop over completion rewards performs the modelled call and counts its claims |
| RewardDesk.RewardDesk.DistributeRewards | src/events/events.service.ts:1434-1500 | the nested loops perform the modelled call: the first reward goes to the first of the board, a podium reward to the first three, any other to nobody; the reported number is the number of new claims |
| SeededShuffle.HashRoundIsPolynomial | src/citations/citations.service.ts:278-282 | one round of the hash, with its two conversions, is one step of the base-31 polynomial modulo 2^32 |
| SeededShuffle.Hash | src/citations/citations.service.ts:278-282 | the loop yields the signed 32-bit value of the base-31 polynomial of the seed |
| SeededShuffle.GeneratorIsExact | src/citations/citations.service.ts:283-286 | from any 32-bit hash, negative ones included, no product leaves the exact integers and the generator stays below its modulus |
| SeededShuffle.AdvanceFollows | src/citations/citations.service.ts:283-286 | the next value is congruent to 9301 times the hash plus 49297 modulo 233280, smaller than the modulus, with the sign of that number |
| SeededShuffle.SwapIndexPicks | src/citations/citations.service.ts:288-289 | the swap index is the one whose share of the modulus, divided into i + 1 equal parts, holds the absolute value of the generator |
| SeededShuffle.SwapIndexInRange | src/citations/citations.service.ts:288-289 | every swap index lies in 0..i |
| SeededShuffle.Shuffle | src/citations/citations.service.ts:277-293 | the in-place shuffle returns a permutation that depends on the list and the seed only, reached from the list by one exchange for each value of the generator, at the position it picks |
| SeededShuffle.ShuffleOfThree | src/citations/citations.service.ts:277-293 | any three elements with the seed x: the draws 232297 and 4334 bring the second one to the front |
| SeededShuffle.CalculatePagination | src/common/utils/pagination.util.ts:29-43 | an absent page is the first and an absent limit 20; a page is at least 1 and a limit in 1..100, kept where they are in range and clamped elsewhere; skip their product |
| SeededShuffle.LastPageIsNeeded | src/common/utils/pagination.util.ts:48-60 | the announced number of pages is the least that holds the total, and one for none |
| SeededShuffle.AllPagesShowEverythingOnce | src/citations/citations.service.ts:216-224 | the announced pages show every listed element exactly once in shuffled order, and no later page has anything |
| SeededShuffle.Reorder | src/citations/citations.service.ts:238-241 | the map by id, read along the page, gives the rows of the page in page order |
| SeededShuffle.PageIsRestored | src/citations/citations.service.ts:226-241 | whatever order the database returns the rows of a page in, they come out in shuffled order |
| CitationAnswers.SeededWalkIsComplete | src/citations/citations.service.ts:199-224 | walking the ids of all pages of a seeded query shows each matching citation exactly once, or each citation of the fallback when everything is excluded |
| CitationAnswers.WalkShowsEveryRowOnce | src/citations/citations.service.ts:198-254 | the answers to all pages of a seeded query, one after the other, carry the row of every such citation exactly once, in shuffled order, and nothing else |
| CitationAnswers.MatchingGrown | src/citations/citations.service.ts:152-196 | no filter reads a counter: after views, reports and publications a query lists what it listed before and the published rows that match |
| CitationAnswers.ListedColumns | src/citations/citations.service.ts:152-196 | a query lists exactly the published rows of the author and theme asked for that the search finds and that are not excluded |
| CitationAnswers.FallsBackExactly | src/citations/citations.service.ts:199-214 | the exclusion is dropped if and only if a seed is given, something is excluded and every other row fails a filter |
| CitationAnswers.AnswerColumns | src/citations/citations.service.ts:139-275 | every row of an answer is stored, published and has what was asked for; without a seed the newest come first |
| CitationAnswers.AnswerMeta | src/citations/citations.service.ts:139-275 | the total is the number of matching rows, a page has at most as many rows as its limit, and the announced pages are the fewest that hold the total |
| CitationAnswers.NobodyEnters | src/citations/citations.service.ts:152-274 | while no published row is listed, an answer has the same citations in the same order, with the views and reports replayed on each |
| CitationAnswers.OtherCitations | src/citations/citations.service.ts:205-214 | a published row that ends the fallback of a seeded query replaces all its citations: the answer is the same only on a page beyond the end, with as many citations as before |
| CitationAnswers.CurrentIff | src/citations/citations.service.ts:145-150 | a cached page is the answer if and only if none of its rows was touched and no published row is listed, with the exception of the ended fallback |
| CitationCache.CoherentAfterChange | src/citations/citations.service.ts:525-557 | a report, a publication, or a view that drops the detail of its row, keeps every cached answer exact up to the changes since |
| CitationCache.CitationsPatternCoversAll | src/common/constants/cache.constant.ts:16-18 | the pattern for lists also deletes every detail key |
| CitationCache.CitationsService.FindAll | src/citations/citations.service.ts:139-275 | in every reachable state the page returned is the answer of the table when it was cached, from which the present table has grown by the views, reports and publications since; it is the uncached answer exactly under the condition of CurrentIff |
| CitationCache.CitationsService.FindOne | src/citations/citations.service.ts:295-328 | in every reachable state the stored row is the one returned with the reports since replayed; the two are equal if and only if there were none; a missing row is reported as missing |
| CitationCache.StaleDetail | src/citations/citations.service.ts:295-557 | a run that reads a reported citation without the report |
| CitationCache.StaleList | src/citations/citations.service.ts:139-540 | after a view of its first row every nonempty list is answered as before, and so wrongly |
| CitationCache.CitationsService.PublishApproved | src/contributions/contributions.service.ts:1489-1498 | an approved citation is stored with these columns, and no cached answer is dropped |
| CitationCache.StaleAfterApproval | src/contributions/contributions.service.ts:1489-1498 | after the approval of a citation that a query lists, the list is answered without it |
| CitationCache.CitationsService.Create | src/citations/citations.service.ts:30-67 | the new row is published and every cached answer is dropped |
| CitationCache.CitationsService.Update | src/citations/citations.service.ts:69-118 | only the given columns change, each to the given value, and every cached answer is dropped |
| CitationCache.CitationsService.Remove | src/citations/citations.service.ts:120-137 | the row goes with its likes and every cached answer is dropped |
| CitationCache.CitationsService.Like | src/citations/citations.service.ts:330-383 | idempotent; the counter stays the number of like rows |
| CitationCache.CitationsService.Unlike | src/citations/citations.service.ts:385-434 | idempotent; the counter stays the number of like rows, so the clamp at zero never fires |
| CitationCache.CitationsService.IncrementView | src/citations/citations.service.ts:502-540 | one view more, and only the detail of the row is dropped; the separate counter never runs ahead of the column, so the column is what is returned |
| CitationCache.CitationsService.Report | src/citations/citations.service.ts:542-572 | one report more, and nothing is dropped |
| Badges.CheckKeepsEntitled | src/badges/badges.service.ts:150-200 | a check gives nobody a badge that is not in every closed set, and accounts for the experience |
| Badges.RepeatedChecksReachLeastClosedSet | src/badges/badges.service.ts:150-243 | at most as many checks as locked badges end in the least set of badges closed under eligibility, with exactly the rewards of the new badges paid |
| Badges.OrderOfCatalogIsIrrelevant | src/badges/badges.service.ts:78-110 | reordering the catalogue changes neither the final badges nor the final experience |
| Badges.ReachedByCategory | src/badges/badges.service.ts:81-110 | when a badge of each category is reached, by the figure that counts for it; a whole point of experience counts as soon as it is begun, and sixty are one civic unit |
| Badges.FullBarBeforeTheTarget | src/badges/badges.service.ts:118-123 | the bar shows 100 if and only if 99.5 percent of the target is reached |
| Badges.FullBarOfALockedBadge | src/badges/badges.constants.ts:194-205 | 995 of a thousand points: locked, with a full bar |
| Badges.BadgesService.GetUserBadges | src/badges/badges.service.ts:66-143 | every badge in catalogue order: the figure of its category as the value, experience rounded up, whether it is held, and the percentage of the target rounded half up |
| Badges.BadgesService.CheckAndUnlockBadges | src/badges/badges.service.ts:150-243 | one check: the new badges are those reached and not yet held, their own sum is the bonus, the experience grows by it, and the number unlocked |
| CivicQuiz.ShuffleArray | src/civic/civic-quiz.service.ts:20-27 | the permutation that the random numbers pick, each position having an equal share of the unit interval |
| CivicQuiz.EveryOrderIsDrawnOnce | src/civic/civic-quiz.service.ts:17-27 | the shuffle is uniform: of different elements every order comes from exactly one choice of positions, and nothing but the orders of the list comes out |
| CivicQuiz.ShuffleChoices | src/civic/civic-quiz.service.ts:33-48 | the same choices in the order drawn, and an index in range points at the first choice with the right text; any other index stays |
| CivicQuiz.GradingCommutesWithShuffling | src/civic/civic-quiz.service.ts:428-506 | an answer by position is graded right exactly at the positions that show the right text, if and only if that text is listed once |
| CivicQuiz.RightChoiceTwice | src/civic/civic-quiz.service.ts:428-506 | a question whose right choice is shown at two positions and graded right at one |
| CivicQuiz.GradingWithoutTheMap | src/civic/civic-quiz.service.ts:478-484 | without the answers map that holds if and only if the shuffle left the right choice in its place |
| CivicQuiz.WrongChoiceWithoutTheMap | src/civic/civic-quiz.service.ts:478-484 | a shuffled question whose wrong choice is graded right once the map is gone |
| CivicQuiz.TextAnswersIgnoreOrder | src/civic/civic-quiz.service.ts:501-506 | an answer by text is graded the same with or without the map and in every order: right if and only if the right choice is not empty and the two are equal once folded |
| CivicQuiz.ComputeScore | src/civic/civic-quiz.service.ts:555-570 | the number of right answers, the length of the longest slice without a wrong one, ten points an answer and 10 or 15 more for a slice of three or five |
| CivicQuiz.ScoreBounds | src/civic/civic-quiz.service.ts:555-570 | the result is determined by the answers, the streak is at most the score, the points at most ten an answer plus 15 |
| QuizSessions.LevelsAreFull | src/civic/civic-quiz.service.ts:373-389 | every available level has exactly the number of questions asked for, none twice |
| QuizSessions.LevelsAreDisjoint | src/civic/civic-quiz.service.ts:383-389 | no question is in two levels |
| QuizSessions.WhatIsSelected | src/civic/civic-quiz.service.ts:373-403 | which requests are accepted and how many questions they get, negative counts included |
| QuizSessions.QuizService.StartSession | src/civic/civic-quiz.service.ts:355-445 | refused exactly for a level that does not exist or too few questions; otherwise shows the questions of that slice of the ids, or the first of the scrambled ones, each once with shuffled choices, and keeps their map |
| QuizSessions.QuizService.AnswerQuestion | src/civic/civic-quiz.service.ts:447-534 | the first answer to a question is graded and kept, later ones repeat its grade: right exactly for the position expected or a text equal to the right choice once folded; with the map present a position is right exactly if it shows the right text |
| QuizSessions.QuizService.FinishSession | src/civic/civic-quiz.service.ts:536-600 | scored and paid the first time; afterwards nothing changes |
| QuizSessions.FinishingPays | src/civic/civic-quiz.service.ts:583-597 | every session is paid at most once, exactly its points, and balances are what was paid |
| QuizSessions.ScoreWithinTotal | src/civic/civic-quiz.service.ts:457-553 | a score exceeds the number of questions shown by at most the number of other questions answered |
| QuizSessions.RightAnswers | src/civic/civic-quiz.service.ts:548-555 | the score of a session is the number of different questions answered right in it |
| QuizSessions.ScoreBeyondTotal | src/civic/civic-quiz.service.ts:467-597 | a session of one question that scores two and is paid for both |
| Contributions.AuditStep | src/contributions/contributions.service.ts:2260-2383 | a call keeps the log in step with the status if and only if it is not a confirmation of a non-draft or an accepted dispute of a non-approved contribution |
| Contributions.AuditReplay | src/contributions/contributions.service.ts:1341-2383 | in a run of any calls every log replays from DRAFT to the current status of its row in all states if and only if no call moves a status silently; so in every run of create, submit, validate, update and remove |
| Contributions.ChainStep | src/contributions/contributions.service.ts:1359-1852 | the entries of a log go on fitting one after the other if and only if none is written while the log has drifted |
| Contributions.DriftedLogs | src/contributions/contributions.service.ts:1341-2383 | after a run of any calls a log is in step again if and only if nothing was written to it while it had drifted and the status is that of its last entry |
| Contributions.BrokenLog | src/contributions/contributions.service.ts:723-2268 | a contribution confirmed as a duplicate while in review and submitted again: its log no longer chains |
| Contributions.RecoveredLog | src/contributions/contributions.service.ts:2260-2383 | an approved contribution confirmed as a duplicate and rehabilitated: two silent moves, and back in step |
| Contributions.PaymentsOverRuns | src/contributions/contributions.service.ts:1454-1597 | over every run of any calls a contribution is published once for each accepted approval of it, and an author gains fifty points for each accepted approval of a contribution of his |
| Contributions.NobodyApprovesHisOwn | src/contributions/contributions.service.ts:1346-1350 | over every run of any calls no accepted approval was given by the author of the contribution |
| Contributions.LogsTellOverRuns | src/contributions/contributions.service.ts:1600-1609 | over every run of any calls the log of a row has one approval for each time it was published |
| Contributions.SecondPublication | src/contributions/contributions.service.ts:1341-1597 | after any run an accepted approval publishes a contribution again if and only if its log already shows an approval |
| Contributions.ApprovedTwice | src/contributions/contributions.service.ts:1454-1597 | any new contribution approved twice: two catalogue rows and a hundred points |
| Contributions.ApprovedStep | src/contributions/contributions.service.ts:2371-2383 | a call keeps all approved contributions published if and only if it does not accept a dispute for one whose log shows no approval |
| Contributions.ApprovedOverRuns | src/contributions/contributions.service.ts:1454-2383 | in every run without such a dispute, every editorial run included, whatever is approved has been published |
| Contributions.ApprovedUnpublished | src/contributions/contributions.service.ts:2250-2383 | a run that ends with an approved contribution that was never published |
| Contributions.ReflectStep | src/contributions/contributions.service.ts:2250-2445 | the duplicate columns of a row always say what its history of confirmations and disputes says |
| Contributions.PurgeIsExact | src/contributions/contributions.service.ts:2451-2470 | after any run a purge selects a contribution if and only if it stands confirmed, no dispute is open, and 24 hours have passed since the latest confirmation or refusal |
| Contributions.OpenDisputeProtects | src/contributions/contributions.service.ts:2330-2339 | between a dispute and its resolution no call makes the contribution due, a new confirmation included |
| ContributionDesk.ContributionDesk.Create | src/contributions/contributions.service.ts:378-430 | the call performs the modelled effect: draft or pending, with the first log entry |
| ContributionDesk.ContributionDesk.SubmitForReview | src/contributions/contributions.service.ts:723-768 | refused for exactly the stated reasons, else pending with a log entry |
| ContributionDesk.ContributionDesk.Validate | src/contributions/contributions.service.ts:1334-1609 | request for changes, rejection or approval with publication and payment; refused if and only if the contribution is missing or an author approves his own |
| ContributionDesk.ContributionDesk.Update | src/contributions/contributions.service.ts:1675-1795 | edits under the guards of role, status and 48 hours, and submits again where the status asks for it |
| ContributionDesk.ContributionDesk.Remove | src/contributions/contributions.service.ts:1800-1852 | a draft goes with its log, anything else is archived, under the guards of role and 24 hours |
| ContributionDesk.ContributionDesk.ConfirmDuplicate | src/contributions/contributions.service.ts:2250-2299 | back to draft with a day's notice |
| ContributionDesk.ContributionDesk.SubmitDispute | src/contributions/contributions.service.ts:2306-2347 | the author of a confirmed duplicate stops the countdown |
| ContributionDesk.ContributionDesk.ResolveDispute | src/contributions/contributions.service.ts:2354-2445 | only an open dispute; rehabilitation or a last day's notice |
| ContributionDesk.ContributionDesk.PurgeExpiredDuplicates | src/contributions/contributions.service.ts:2451-2476 | deletes exactly the contributions that their history makes due, and counts them |
| Friends.ViewIsUnique | src/friends/friends.service.ts:182-224 | with at most one row a pair the view does not depend on which row the database returns first |
| Friends.ViewColumns | src/friends/friends.service.ts:182-224 | the view on the columns: friends for an accepted row, blocked for a blocked one, and a pending request sent or received by who sent it |
| Friends.ViewsAreDual | src/friends/friends.service.ts:182-224 | what one side sees is the dual of what the other side sees |
| Friends.WriteRow | src/friends/friends.service.ts:281-312 | writing the row of a pair keeps one row a pair and is seen by no other pair |
| Friends.DeleteRow | src/friends/friends.service.ts:399-451 | deleting the row of a pair leaves it unrelated and is seen by no other pair |
| Friends.FriendsService.GetFriendshipStatus | src/friends/friends.service.ts:182-224 | returns the view |
| Friends.FriendsService.SendFriendRequest | src/friends/friends.service.ts:230-332 | refused exactly for oneself, unknown, befriended, blocked and already asked users; crossed requests make friends |
| Friends.FriendsService.AcceptFriendRequest | src/friends/friends.service.ts:337-380 | a received row found by its id or its sender becomes a friendship, whatever its status was; a block is lifted exactly when that row was one |
| Friends.AcceptedBlock | src/friends/friends.service.ts:337-380 | a blocked pair that a single call makes friends |
| Friends.FriendsService.RejectFriendRequest | src/friends/friends.service.ts:385-404 | a received row found by its id or its sender is deleted, whatever its status was |
| Friends.FriendsService.CancelFriendRequest | src/friends/friends.service.ts:409-427 | possible exactly for a pending request of one's own |
| Friends.FriendsService.RemoveFriend | src/friends/friends.service.ts:432-454 | possible exactly for friends, for both sides at once |
| Friends.FriendsService.SearchUsers | src/friends/friends.service.ts:481-524 | the batched statuses equal the single views, with a block shown as no relation |
| Friends.FriendsService.GetFriends | src/friends/friends.service.ts:50-113 | lists exactly the friends, each once, and the batched flag tells whether they were encouraged on the UTC day of the call |
| Friends.FriendsService.CanEncourageNow | src/friends/friends.service.ts:530-555 | true if and only if the two are different users and no call for them, in this direction, was accepted on the UTC day of the question |
| Friends.FriendsService.EncourageUser | src/friends/friends.service.ts:563-627 | once a day for a pair and direction; every balance stays the number of encouragements sent and received |

## Left out

- Controllers, guards, throttling, e-mail, notifications, real-time channels, image storage and logging: input and output without state of their own.
- Lower-casing, NFD and the removal of combining marks in `normalizeText`, and `trim().toLowerCase()` in grading, are abstract functions; the first is taken to leave texts over [a-z0-9 ] unchanged.
- IEEE rounding: similarity ratios, swap indices, scores and experience points are exact rationals; texts are sequences of characters, and only the seed of the shuffle is a sequence of UTF-16 code units.
- The order in which the database lists citations is a function of the ids and creation times of the matching rows, newest first without a seed; a storage order that changes between two pages of a seeded query is not modelled.
- The text search, the split of the excluded ids and the look-up or creation of an author are parameters of the citations model.
- Database failures, cache outages and the gap between a write and the invalidation that follows it; audit writes succeed.
- Races other than the two halves of a registration.
- Changes of the capacity of an event during a run, and events that start with a non-zero counter.
- SeededShuffle.Shuffle: the swap indices are computed in exact rationals, so a rounding that moves a product across an integer is not modelled.
- CitationCache.CitationsService.FindAll: the order among rows created at the same time, and that of the ids before the shuffle, are parameters, fixed for one set of matching rows.
- EventDesk.EventDesk.SubmitProgress: the rewards for completion that the call hands out are modelled in RewardDesk.AwardCompletion, on a ledger of their own.
- ContributionDesk.ContributionDesk.Create: the columns that keep the result of the duplicate check, which no guard reads, are not modelled.
- ContributionDesk.ContributionDesk.Validate: publication is one catalogue row with the content, its author and its contribution; slugs and the tables of the six categories are not modelled.
- The progress column of a badge that an event reward grants, the fulfilment of physical lots, and the sorting of the leaderboard, which arrives ranked.
- Levels, coins and streaks of the progression service; `awardXp` adds its amount.
- Badges.BadgesService.CheckAndUnlockBadges: the uniqueness conflict of two concurrent checks is not modelled.
- QuizSessions.QuizService.StartSession: the number of questions and the level are integers; the request handler also lets other values through.
- Scripts that write citations while the service runs.
- The play statistics of quiz questions, and edits of a question while a session runs.
- The creation variants for kabary, poems, recitations and tales, anonymous flags, votes and comments of contributions: they repeat `create` or touch no status.
- Tales, civic lessons, history, announcements, app versions, user administration and seed scripts: further row handling that would add only easy members.
