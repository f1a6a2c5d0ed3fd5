# The self-improvement loop, modelled and proved in Dafny

The repository reviews its own pull requests and learns from the reviews. Each review's findings are archived;
a versioned *improvement policy* (ordered topics, keywords, weights, a threshold) sorts the findings into topics;
a measurement replays the archive and compares the weighted recurrence of each topic with failures seen in the
field; and a decision procedure then leaves the policy alone, revises it (new topics mined from unclassified
findings, repaired weights) or rolls it back to an ancestor. This project models that loop as a state machine over
(archive, policy, history), proves what every run keeps, and proves the smaller algorithms the loop and its
neighbours rely on: tie-averaged ranks and rank correlation, archive merging, evidence building, location peeling,
secret redaction, the signed request format of service calls, and the matcher for repository names in comments.

Check it with `dafny verify dfyconfig.toml`.

## How to read it

| file | models |
|---|---|
| `Text.dfy`, `Sorting.dfy`, `Records.dfy` | substring search, splitting, replacing; stable sorting; the JSON documents as datatypes |
| `ImprovementPolicy.dfy` | `scripts/improvement_policy.py`: validation, content hash, classification, succession |
| `Statistics.dfy`, `SpearmanLaws.dfy`, `Rounds.dfy`, `Measuring.dfy`, `Definitions.dfy`, `MeasuredValues.dfy` | `scripts/measure-policy-validity.py` |
| `Mining.dfy`, `MiningRule.dfy`, `Revising.dfy`, `Meaning.dfy`, `Locations.dfy`, `PlaceNames.dfy` | `scripts/revise-improvement-policy.py` |
| `Runs.dfy`, `RollbackRule.dfy`, `RevisionRule.dfy`, `Pace.dfy` | whole runs: archive growth and decisions, from the builtin policy, and exactly when each decision is taken |
| `Archiving.dfy` | `detect-recurring-pattern.py`, `analyze-latest-review.py`, `archive-round.py`, `merge-archive-rounds.py` |
| `FailureMining.dfy`, `TraceEvidence.dfy`, `Replaying.dfy` | `mine-trace-failures.py`, `replay-policy-history.py` |
| `Redaction.dfy`, `RemovedStretches.dfy` | `scripts/redact-secrets.py` |
| `ServiceAuth.dfy` | `packages/shared/src/service-auth.ts` |
| `Mentions.dfy` | `packages/linear-bot/src/target-resolution.ts` |

Code that works by loops over changing variables is a `method` proved equal to a specification function or
predicate; the theorems are lemmas about that specification. The archive file and the policy and history files are
classes whose methods tie the new contents to the old.

Conventions of the model:

- Arithmetic is on exact reals; coverage, weighted counts and validity are rounded to four digits, ties to even, as
  the scripts round them. Validity is rounded without a square root, by comparing squares;
  `Statistics.SpearmanIsRoundedRho` shows that the result is Spearman's coefficient, rounded.
- The policy hash, the archive digest and the evidence digest are taken to be free of collisions: each is
  represented by the content it covers. The tag of a historical definition is any injective function.
- The tokenizer and the secret scrubber are function parameters. Of the tokenizer only the shape of its tokens is
  used, and only where validity of mined names is at stake.
- A JSON field that may be absent or null is an `Option`. Timestamps are milliseconds.

Where the code and what is said about it differ, the model follows the code:

- `canonicalizeQuery` is described as sorting decoded entries so that reordered queries sign identically. With a NUL
  in a key two different entries can compare equal, and then the order of the query shows through. The exact
  condition is `ServiceAuth.QueryOrderBlindIff`; `ServiceAuth.NulShowsTheOrder` is a pair of such queries.
- `redact` is described as replacing every occurrence of every secret. A secret inside the word `REDACTED` survives
  in the markers, and one that begins with `]` can be completed by the text after a marker. The exact condition is
  `Redaction.OneSecretLeaksIff` for one secret over all characters and `Redaction.CompleteExactlyWhen` for any set of
  secrets without brackets; `Redaction.NoSecretSurvives` covers every set that cannot run into the marker. Of secrets
  that overlap in the text, one is left in part (`RemovedStretches.OverlappingSecretsLeave`); when nothing is left is
  `RemovedStretches.NothingIsLeft`.
- A topic is matched on a failure's sightings joined by spaces, so a keyword with a space can match across two
  sightings although neither alone matches; its times are then unknown (`FailureMining.JoinedAloneIsUndated`). When
  mining can build such a failure is `FailureMining.JoiningAddsNothingIff`, an equivalence on the keywords; with the
  builtin "exit code" it does (`FailureMining.ExitCodeApart`).
- The detector and the measurement are meant to count one signal. Replay skips entries without a number and the
  detector does not: `Archiving.OneSignalIff` is the exact condition, `Archiving.UnnumberedIsSkipped` an archive
  that fails it.
- Replay is causal only in time order: a review archived with an older clock inserts itself earlier and changes
  epochs already measured (`Rounds.OlderClockInserts`). `Rounds.ReplayIsCausal` and `Measuring.MeasurementIsCausal`
  state this as an equivalence.

## Model

| member | source | states |
|---|---|---|
| ImprovementPolicy.FirstMatchIsFirst | scripts/improvement_policy.py:269-277 | Classification answers the first topic in policy order with a keyword in the text, and nothing exactly when no topic has one |
| ImprovementPolicy.FirstMatchAppend | scripts/improvement_policy.py:269-277 | Topics added at the end never change an answer already given, and otherwise decide alone |
| Text.LowerFolds | scripts/improvement_policy.py:269-277 | Lower-casing, on ASCII, turns each capital into its small letter and changes nothing else |
| ImprovementPolicy.BuiltinIsValid | scripts/improvement_policy.py:66-78 | The builtin root policy passes validation and has exactly the builtin keyword table |
| ImprovementPolicy.ValidPolicyIs | scripts/improvement_policy.py:205-235 | A policy is valid exactly when version and threshold are positive and it has topics with distinct names, each trimmed, not empty and without '@', with keywords none of which is empty, and a positive weight |
| ImprovementPolicy.SameRoundIff | scripts/improvement_policy.py:156-168 | Two entries are one round exactly when they name the same commit or, neither naming one, have the same number |
| Statistics.AverageRanks | scripts/measure-policy-validity.py:239-251 | The nested tie loops, writing into an array, give each value the rank (number below) + (number equal + 1)/2 |
| Statistics.RanksSum | scripts/measure-policy-validity.py:239-251 | Tie-averaged ranks always sum to n(n+1)/2 |
| Statistics.RanksKeepOrder | scripts/measure-policy-validity.py:239-251 | Ranks order and tie exactly as the values do |
| Statistics.SpearmanByRanks | scripts/measure-policy-validity.py:254-266 | The computation through rank arrays equals the rank-correlation specification, rounding and undefined cases included |
| Statistics.SpearmanDefined | scripts/measure-policy-validity.py:254-266 | Undefined exactly for unequal lengths, fewer than three points or a constant side: the zero-variance branch adds nothing |
| Statistics.VarianceVanishes | scripts/measure-policy-validity.py:260-265 | The rank variance is zero exactly when all values are equal |
| Statistics.CauchySchwarz | scripts/measure-policy-validity.py:260-266 | The squared covariance is at most the product of the variances |
| Statistics.SpearmanSymmetric | scripts/measure-policy-validity.py:254-266 | Exchanging the two signals changes nothing, definedness included |
| Statistics.SpearmanInvariant | scripts/measure-policy-validity.py:254-266 | Only the order of a signal matters: any order-preserving change of either side keeps the correlation |
| Statistics.SpearmanExtremes | scripts/measure-policy-validity.py:254-266 | Equally ordered signals correlate at 1, oppositely ordered ones at -1 |
| Statistics.SpearmanIsRoundedRho | scripts/measure-policy-validity.py:260-266 | The score is the covariance divided by the square roots of both variances, rounded half to even at four digits, for whatever positive roots and quotient satisfy those equations; the quotient lies in [-1, 1] |
| SpearmanLaws.SpearmanPermutes | scripts/measure-policy-validity.py:254-266 | Moving the topics of both signals by one permutation keeps the score |
| SpearmanLaws.SpearmanWithoutTies | scripts/measure-policy-validity.py:254-266 | Without ties the score is 1 - 6D/(n(n^2 - 1)), rounded, where D is the sum of the squared rank differences |
| SpearmanLaws.SpearmanOfThree | scripts/measure-policy-validity.py:254-266 | Credits 1, 2, 3 against counts 2, 1, 3 score 0.5 |
| Rounds.MergeByRound | scripts/measure-policy-validity.py:106-121 | The first loop of rounds_in_order makes, for each identity, one record of its own entries: the first number, all findings in order, the latest time |
| Rounds.CarryTimes | scripts/measure-policy-validity.py:122-133 | The second loop gives each round its own time or, undated, the time of the last dated round before it, and changes nothing else |
| Rounds.RoundsInOrder | scripts/measure-policy-validity.py:106-135 | Both loops and both sorts together compute the replayed rounds |
| Rounds.ReplayedRecord | scripts/measure-policy-validity.py:106-135 | A replayed round has exactly the findings of the entries of its identity, in archive order, their first number and, if any is dated, their latest time |
| Rounds.OneRoundPerKey | scripts/measure-policy-validity.py:106-135 | Replay yields exactly one record for each round identity in the archive, in time order |
| Rounds.FindingsConserved | scripts/measure-policy-validity.py:106-135 | The multiset of findings of the numbered entries is conserved |
| Rounds.ReplayIsCausal | scripts/measure-policy-validity.py:106-135 | Archiving a fresh review leaves the replayed rounds a prefix, with one more at the end, if and only if no archived round is later |
| Rounds.OlderClockInserts | scripts/measure-policy-validity.py:122-135 | Two concrete reviews of which the second has the older clock: it is replayed first |
| Measuring.CountFindings | scripts/measure-policy-validity.py:272-300 | The counting loops tally totals, classified and unclassified findings and, per topic, the set of rounds that credit it |
| Measuring.MeasureEpoch | scripts/measure-policy-validity.py:272-334 | One epoch's record, loops included, is the specified one |
| Measuring.CoverageOfArchive | scripts/measure-policy-validity.py:272-334 | Coverage is the share of classified findings among the archived ones, whatever the replay order |
| Measuring.MeasurementIsCausal | scripts/measure-policy-validity.py:360-387 | Archiving a fresh review appends one epoch, and keeps all measured epochs if and only if it is not earlier than an archived round |
| MeasuredValues.CurrentCount | scripts/measure-policy-validity.py:198-233 | Without a cut-off, the count of a policy's topic is the number of sessions that show its own words, unknown if those were not searched or cut-off text may hide them |
| MeasuredValues.CurrentAnchor | scripts/measure-policy-validity.py:360-420 | The current epoch has field counts exactly when a session was observed, and then that count for every topic of the policy |
| MeasuredValues.CandidateCounts | scripts/revise-improvement-policy.py:843-880 | Whatever policy was measured, a candidate's topic whose name was searched is compared on the field count of the candidate's own definition |
| MeasuredValues.ForeignCounts | scripts/revise-improvement-policy.py:843-880 | A plainly named search for a topic the candidate does not have keeps its own count |
| MeasuredValues.AgreementIs | scripts/measure-policy-validity.py:272-334 | Agreement is the score over any listing of the topics with a known count; the others have no say |
| MeasuredValues.SignalIs | scripts/measure-policy-validity.py:272-334 | A topic's signal is the credit, at its weight, of the number of rounds with a finding classified as it |
| MeasuredValues.CreditIs | scripts/measure-policy-validity.py:272-334 | Credit is rounds times weight, rounded to four digits, which loses nothing at weights 1, 1/2 and 1/4 |
| MeasuredValues.CurrentValidity | scripts/measure-policy-validity.py:388-420 | The current validity is the score of the rounds the evidence could have seen, and the others are counted as rounds after it |
| MeasuredValues.CurrentDevOnly | scripts/measure-policy-validity.py:388-420 | Dev-only are exactly the topics credited in two seen rounds or more whose field count is known to be zero |
| MeasuredValues.CoverageIs | scripts/measure-policy-validity.py:272-334 | Coverage is the rounded share of classified findings, undefined without findings |
| MeasuredValues.Round4IsNearest | scripts/measure-policy-validity.py:254-300 | Rounding to four digits gives a nearest multiple, the even one of two |
| MeasuredValues.ValidityIs | scripts/revise-improvement-policy.py:750-778 | A policy is compared on the score of its signals in the given entries against the given counts |
| MeasuredValues.EpochIs | scripts/measure-policy-validity.py:360-387 | The epoch of a round counts the rounds replayed so far, and the field as it was at the round's time |
| Definitions.ResolvesExactly | scripts/measure-policy-validity.py:182-195 | A definition resolves to a key of its own name with exactly its words, if and only if it is recorded |
| Definitions.NewKeyIsUnused | scripts/measure-policy-validity.py:146-175 | The tagged key chosen for a differing definition never overwrites another |
| Definitions.NoDefinitionIsLost | scripts/measure-policy-validity.py:146-195 | Every (topic, keywords) pair of any recorded version resolves to a key searched with exactly those keywords |
| Runs.ReachableDefinitionsAreFound | scripts/measure-policy-validity.py:146-195 | In every reachable state each definition of each version, the builtin root included, resolves to a key of its topic searched with exactly its keywords |
| Mining.UnusedName | scripts/revise-improvement-policy.py:706-714 | The renaming loop terminates with the first numbered variant that is free |
| Mining.MineTopics | scripts/revise-improvement-policy.py:656-747 | The mining loop over shrinking work computes the specified topics |
| MiningRule.MiningIsGreedy | scripts/revise-improvement-policy.py:656-747 | Each topic's head is in as many of the findings left as any token that recurs, first in string order of equals; its companions are, in order, those most often with the head; the name is the first free one; mining stops short of two topics only when nothing recurs or the next topic would cover fewer than two findings |
| Mining.MiningIsBoundedAndSeparated | scripts/revise-improvement-policy.py:656-747 | For every input: at most two topics with new, distinct names, disjoint keywords that avoid existing and background tokens and are publishable, and exact evidence of at least two findings, each counted once |
| Mining.FieldTextIsUnseen | scripts/revise-improvement-policy.py:656-747 | Non-interference of field text: inputs that differ only in field findings with the same sessions, allowed tokens and occurring keywords are mined into the same topics and evidence |
| Mining.MinedAreValid | scripts/revise-improvement-policy.py:656-747 | Mined names and keywords pass validation, given only the shape of tokens |
| Revising.CollectAncestors | scripts/revise-improvement-policy.py:918-940 | The walk with its seen-set terminates for any history and lists the ancestor chain |
| Revising.FirstBestIsFirst | scripts/revise-improvement-policy.py:1075-1113 | The running best is the first maximum of the defined scores |
| Revising.RollbackPicksTheBest | scripts/revise-improvement-policy.py:1057-1147 | A rollback happens exactly when the policy may be judged and some unrejected ancestor beats it, on coverage first and else on validity, and restores the first maximum of that score |
| Revising.WorseThanParentIsBeaten | scripts/revise-improvement-policy.py:1075-1125 | The separate test against the parent never decides alone |
| Revising.TargetIsUnrejected | scripts/revise-improvement-policy.py:883-892 | The target is an ancestor, no rollback has rejected its configuration, and it differs from the current one |
| Revising.DiscountTopics | scripts/revise-improvement-policy.py:815-823 | The discount loop lowers exactly the named topics whose weight the discount lowers |
| Revising.RestoreTopics | scripts/revise-improvement-policy.py:824-830 | The restoration loop overrides discounts by the original weight, field-corroborated topics only |
| Revising.RepairWeights | scripts/revise-improvement-policy.py:791-840 | Both loops, the staleness skip and the validity guard together give the specified repair |
| Revising.RefusedForMinedTopics | scripts/revise-improvement-policy.py:781-840 | Weight repair is never to blame: a candidate is refused for its validity only if topics were mined and these alone, with no weight touched, would lower or lose it |
| Revising.WeightsFollowTheField | scripts/revise-improvement-policy.py:815-830 | Exactly the field-corroborated topics below 1 are doubled and exactly the uncorroborated dev-only topics above 1/4 are halved |
| Revising.AnchorIsOwnDefinition | scripts/revise-improvement-policy.py:843-880 | In either format of measurement a policy's topic is judged by counts searched under exactly its own keywords, or is unknown; never by another definition of the same name |
| Revising.AnchorKnowsItsOwn | scripts/revise-improvement-policy.py:843-880 | Conversely a topic whose name and words were searched has the count of a key of just that name and those words |
| Revising.WeightRepairKeepsTaxonomy | scripts/revise-improvement-policy.py:791-840 | Repair changes no name, keyword, evidence or order, and keeps weights among 1, 1/2, 1/4 |
| Revising.ProposalFacts | scripts/revise-improvement-policy.py:1180-1218 | A proposal is the old taxonomy followed by the mined topics, up to weights |
| Revising.ProposalIsValid | scripts/improvement_policy.py:205-235 | From a valid policy with standard weights every proposal validates |
| Meaning.RevisionKeepsMeaning | scripts/revise-improvement-policy.py:1180-1218 | No finding the old policy classifies changes topic under a revision |
| Meaning.NewlyClassifiedIsEvidence | scripts/revise-improvement-policy.py:1180-1218 | The archive findings that become classified are counted exactly by the archive evidence of the new topics |
| Meaning.CoverageGuardNeverFires | scripts/revise-improvement-policy.py:1269-1277 | The refusal to lower coverage never applies to a candidate built from a faithful measurement |
| Meaning.NewKeywordsArePublic | scripts/revise-improvement-policy.py:643-747 | Whatever field text a revision is mined from, every keyword it adds is a fixed safe word or a token of an archived finding |
| Runs.PolicyFiles.Reconsider | scripts/revise-improvement-policy.py:1345-1408 | One invocation on the files is one step of the state machine, and changes nothing when it refuses |
| Runs.ReachableIsLawful | scripts/improvement_policy.py:171-235 | In every reachable state the policy is valid and matches its history, versions count records, the threshold is the builtin one, weights are 1, 1/2 or 1/4, the builtin definitions come first, and no builtin classification has moved |
| Runs.ReachableHistoryIsComplete | scripts/revise-improvement-policy.py:918-994 | Every version up to the current one is found under its own number; ancestor chains fall strictly and run to the end of ancestry |
| Runs.AncestorsDescend | scripts/revise-improvement-policy.py:918-952 | Under lineage the seen-guard never cuts a chain short |
| Runs.ReachableDecisionsAreWellFormed | scripts/improvement_policy.py:280-306 | No reachable decision is refused for a malformed successor |
| Runs.ReachableRevisesExactlyWhen | scripts/revise-improvement-policy.py:1149-1290 | In a reachable state every candidate validates, and on a faithful measurement a revision happens exactly when nothing is rolled back, the wait is over, something triggered and changed, the candidate was not rejected and validity does not regress; no other guard ever decides |
| RollbackRule.ReachableRollsBackExactlyWhen | scripts/revise-improvement-policy.py:1046-1147 | In a reachable state the decision is a rollback if and only if the policy is not the root, has an ancestor and two rounds of its own, a coverage was measured, and some ancestor no rollback rejected beats it, on coverage of those rounds or on validity of those the evidence could have seen |
| RollbackRule.ReachableRollbackRestoresTheBest | scripts/revise-improvement-policy.py:1075-1147 | It restores verbatim the unrejected ancestor with the best coverage if one covers better, else with the best validity, the newest of equals |
| RevisionRule.ReachableRevisesJustWhen | scripts/revise-improvement-policy.py:1149-1290 | In a reachable state, on a faithful measurement, the decision is a revision if and only if it is no rollback, the policy is the root or has two rounds of its own, coverage is below 0.8 or validity below 0.3 or five field excerpts are unclassified or a weight would rise, the proposal differs from the policy, no rollback rejected it on this archive and evidence, and it neither lowers nor loses validity |
| RevisionRule.ProposalIs | scripts/revise-improvement-policy.py:1180-1218 | The proposal is the policy with its mined topics and repaired weights; it reports no change exactly when it equals the policy |
| RevisionRule.MinedExactlyWhen | scripts/revise-improvement-policy.py:1168-1200 | Mining happens exactly when coverage is below 0.8 or five field excerpts are unclassified, greedily, over the unclassified findings and those excerpts |
| RevisionRule.RepairIs | scripts/revise-improvement-policy.py:791-840 | Every weight moves as its rule says, or none when the repaired policy would agree less; discounts only on evidence that saw every round; a change is reported exactly when a weight moved |
| RevisionRule.BlindSpotsAre | scripts/revise-improvement-policy.py:1004-1033 | Of the field failures each distinct unclassified excerpt is mined once, under the session that showed it first |
| RevisionRule.VocabularyIs | scripts/revise-improvement-policy.py:643-653 | Field failures may contribute exactly the safe words and the tokens of archived findings |
| RevisionRule.BackgroundIs | scripts/revise-improvement-policy.py:617-640 | Background are exactly the tokens in ten and in more than a fifth of the classified findings, or of all when there is no taxonomy |
| Pace.ReachableWaitsExactlyWhen | scripts/revise-improvement-policy.py:1149-1165 | In a reachable state the loop waits exactly while a policy other than the root has fewer than two rounds of its own |
| Pace.TwoReviewsEndTheWait | scripts/archive-round.py:74-91 | Two completed reviews of new commits under a policy end its wait |
| Runs.ReachableRefusesOthers | scripts/improvement_policy.py:171-202 | With a history, exactly the recorded version, origin and content are accepted as the policy in force |
| Runs.HistoryCanBeAudited | scripts/revise-improvement-policy.py:1057-1408 | In any run whose measurements, out of date ones included, were taken by the measurement, every history record judged again from the history alone is justified: a rollback restored exactly the ancestor that wins, a revision was made because none wins and neither lowers nor loses coverage or validity, each after the wait, on archives that extend one another |
| Runs.RollbacksCannotOscillate | scripts/revise-improvement-policy.py:943-952 | Consecutive rollbacks restore strictly older versions; a streak that replaces version v first has at most v - 1 |
| Runs.RejectedStaysRejected | scripts/revise-improvement-policy.py:883-915 | A rejected configuration never returns by rollback, and by revision only on another archive or other evidence |
| Runs.VersionsNeedRounds | scripts/revise-improvement-policy.py:967-985 | Version n needs at least 2(n - 2) stamped archive entries, however the archive grows |
| Archiving.Analyze | scripts/detect-recurring-pattern.py:83-125 | One recommendation for each topic met, with its number of distinct rounds, most first, advising a mechanism exactly at the weighted threshold |
| Archiving.MechanismIs | scripts/detect-recurring-pattern.py:108-113 | A mechanism is advised exactly when the number of rounds that mention the topic, times its weight, reaches the threshold |
| Archiving.CreditedRounds | scripts/improvement_policy.py:156-168 | The rounds a measurement credits with a topic are the identities of the numbered entries that mention it |
| Archiving.OneSignalIff | scripts/improvement_policy.py:156-168 | The detector and the measurement count one signal if and only if every entry without a number that mentions the topic shares its identity with a numbered one that does |
| Archiving.UnnumberedIsSkipped | scripts/measure-policy-validity.py:106-115 | A concrete entry without a number that the detector counts and replay does not |
| Archiving.Merge | scripts/merge-archive-rounds.py:35-50 | The merge loop computes the specified archive and reports exactly the numbers it gave out |
| Archiving.MaxRoundIsMax | scripts/merge-archive-rounds.py:39 | Numbering continues from the greatest number present, or from 0 |
| Archiving.MergeAppendsNewCommits | scripts/merge-archive-rounds.py:35-50 | Base is a prefix; each new commit is appended once and numbered consecutively above base; no commit is lost |
| Archiving.MergeComposes | scripts/merge-archive-rounds.py:35-50 | Merging b onto a merge of a equals merging a and b at once |
| Archiving.MergeIsIdempotent | scripts/merge-archive-rounds.py:35-50 | Re-merging the same rounds changes nothing |
| Archiving.MergeKeepsRecurrence | scripts/improvement_policy.py:156-168 | Renumbering by a merge is invisible to the detector's recurrence counts |
| Archiving.FindNewlyCrossedTopics | scripts/analyze-latest-review.py:71-94 | Reports exactly the topics advised with the imagined entry and not without it |
| Archiving.ArchiveFile.Process | scripts/archive-round.py:99-171 | One run appends the entry or leaves the file alone, and reports exactly the topics this review takes across |
| Pace.ArchivedExactlyWhen | scripts/archive-round.py:99-171 | A review enters the archive exactly when it completed and its commit is new |
| Pace.ReviewIsRecorded | scripts/archive-round.py:74-91 | The new entry has the review's findings, commit and time, the next number, and a round identity of its own |
| Pace.NextNumberIs | scripts/analyze-latest-review.py:61-63 | Its number is one more than the greatest so far, or 1 |
| Pace.ReviewCountsForItsPolicy | scripts/archive-round.py:74-91 | It adds one round to the policy in force, and none to a policy with another version or content |
| Archiving.HypotheticalIsFaithful | scripts/analyze-latest-review.py:80-84 | The imagined entry, which has no commit, crosses exactly what the appended entry crosses |
| Archiving.MechanismPersists | scripts/detect-recurring-pattern.py:108-113 | Once advised, a topic stays advised as the archive grows |
| Archiving.ReportedMeansCrossing | scripts/archive-round.py:116-160 | A step reports a topic exactly when the archive before it is below the threshold and after it is not |
| Archiving.AnnouncedExactlyOnce | scripts/archive-round.py:116-160 | Over any sequence of reviews a topic is reported once if it crosses and never otherwise |
| Archiving.ReprocessingChangesNothing | scripts/archive-round.py:70-71 | After a usable review of a commit, and any reviews since, any further review of it changes nothing and reports nothing |
| Archiving.ArchivingIsCausal | scripts/archive-round.py:74-91 | One archiving step adds one epoch and keeps all measured ones, under any policy and evidence, if and only if its clock is not behind the archive |
| TraceEvidence.ScanOccurrences | scripts/mine-trace-failures.py:380-392 | The scan collects the times of matching occurrences and of cut-off ones without a visible match |
| TraceEvidence.FirstMatchMeans | scripts/mine-trace-failures.py:401-426 | The first match is t exactly when a matching occurrence has time t and every occurrence that matches or may have matched is dated no earlier |
| TraceEvidence.FirstOfEvery | scripts/mine-trace-failures.py:372-426 | Of one failure, a known list of matches has the first match as its minimum |
| TraceEvidence.EveryMatchMeans | scripts/mine-trace-failures.py:372-398 | The list of matches is known exactly when some occurrence matches, every match is dated and no cut-off text may hide one; then it lists the matching times in order |
| FailureMining.MineTrace | scripts/mine-trace-failures.py:297-353 | The mining loop makes one failure for each tool, shortened command and excerpt, with one sighting for each of its events in order, cut off at the cap |
| FailureMining.BuiltIsCollected | scripts/mine-trace-failures.py:297-353 | The failures that the theorems below speak of are exactly those that the loop can yield |
| FailureMining.JoiningAddsNothingIff | scripts/mine-trace-failures.py:297-438 | Mining can yield a failure matched on its joined text alone if and only if some keyword with a space has no piece between spaces that shows the topic; from texts that are not cut off, if and only if moreover no keyword is just a space |
| FailureMining.JoinedAloneIsUndated | scripts/mine-trace-failures.py:372-426 | A failure matched on joined text alone has neither a first match nor a list of matches |
| FailureMining.ExitCodeApart | scripts/mine-trace-failures.py:297-438 | Command "code#" failing twice with output "#exit" yields a failure that matches a builtin topic neither sighting shows, and has no known time |
| TraceEvidence.RecordMatch | scripts/mine-trace-failures.py:466-484 | Updating a session's entry in place is the specified combination, a new session's entry included |
| TraceEvidence.BuildEvidence | scripts/mine-trace-failures.py:446-505 | The snapshot has, per topic, exactly one entry for each session that shows it, with the least first match and all matches, unknown absorbing, and lists the topics cut-off text may hide |
| TraceEvidence.EvidenceIgnoresOrder | scripts/mine-trace-failures.py:455-505 | But for the number of failures, the snapshot depends only on which failures there are, not on their order or repetition |
| TraceEvidence.TimesAgree | scripts/mine-trace-failures.py:474-484 | Wherever a session's match list is known, its stored timestamp is the list's minimum |
| TraceEvidence.HiddenIs | scripts/mine-trace-failures.py:455-465 | A topic is hidden exactly when some failure with a cut-off sighting does not show it |
| TraceEvidence.ReadBackIs | scripts/mine-trace-failures.py:356-369 | A record read back from disk is matched on its command and excerpt, at its own time |
| Replaying.RestrictTopics | scripts/replay-policy-history.py:100-112 | The loop keeps exactly the wholly dated topics, and of each the sessions seen after the cut-off |
| Replaying.HistoricalCount | scripts/measure-policy-validity.py:182-233 | For every cut-off and every topic of any policy, the count is unknown when no search was for the topic under just its words; otherwise it is that of such a search: unknown when cut-off text or an undated session hides it, and else the number of sessions with an occurrence that showed the topic by then |
| Replaying.WindowsCover | scripts/replay-policy-history.py:91-115 | Replay keeps a topic exactly when all its matches are placed in time, and then the sessions matched after the cut-off; with those counted up to it they account for every session |
| Locations.LineRefEnd | scripts/revise-improvement-policy.py:318-337 | The bounded backward scan equals repeatedly removing a line reference found by searching the whole window |
| Locations.PeelTwice | scripts/revise-improvement-policy.py:318-337 | Removing line references is idempotent |
| Locations.FragmentStart | scripts/revise-improvement-policy.py:352-364 | The backward scan finds exactly the trailing fragment of the specification |
| Locations.DropCases | scripts/revise-improvement-policy.py:383-393 | Punctuation, line reference and fragment exclude each other at the end of a word, so their order is immaterial |
| Locations.IsLocation | scripts/revise-improvement-policy.py:367-405 | The peel loop terminates, and decides on the word with leading decorations stripped and the end peeled one thing at a time until nothing changes |
| Locations.CoreTwice | scripts/revise-improvement-policy.py:379-395 | The peeled word is a fixpoint: peeling it again, as a word of its own, changes nothing |
| Locations.DecorationsNeverDecide | scripts/revise-improvement-policy.py:367-405 | For every word: a leading decoration, trailing punctuation, a line reference or a fragment added to it never changes the answer |
| PlaceNames.PlainWordIsPlace | scripts/revise-improvement-policy.py:396-405 | Words of letters and slashes are places exactly when they start with a slash or with a known directory |
| PlaceNames.TwoWords | scripts/revise-improvement-policy.py:396-405 | Two words with a slash between are a place exactly when the first is a known directory |
| PlaceNames.FileIsPlace | scripts/revise-improvement-policy.py:396-405 | A word that ends in a known extension is a place, with or without a line reference |
| PlaceNames.FileExample | scripts/revise-improvement-policy.py:367-405 | allocator.py and allocator.py:41-43 are places |
| PlaceNames.RelativeIsPlace | scripts/revise-improvement-policy.py:396-399 | A relative path or one from a home directory is a place |
| PlaceNames.UrlIsPlace | scripts/revise-improvement-policy.py:396-399 | A word that contains a web address is a place |
| PlaceNames.LineRefIs | scripts/revise-improvement-policy.py:330-334 | A line reference is a number, or two with a hyphen between |
| PlaceNames.FragmentForms | scripts/revise-improvement-policy.py:352-364 | A fragment is a line or two, with or without the letter |
| Redaction.Redact | scripts/redact-secrets.py:96-103 | The loop replaces the secrets in some order from the longest to the shortest |
| Redaction.NoneLeft | scripts/redact-secrets.py:102 | Replacing a secret that cannot run into the marker leaves none of it |
| Redaction.NoneCreated | scripts/redact-secrets.py:102 | Replacing anything never creates such a secret |
| Redaction.NoSecretSurvives | scripts/redact-secrets.py:96-103 | If no secret can run into the marker, none occurs in the result, for any text |
| Redaction.CompleteExactlyWhen | scripts/redact-secrets.py:96-103 | For secrets without brackets, no text leaks any of them if and only if none lies inside REDACTED |
| Redaction.OneSecretLeaksIff | scripts/redact-secrets.py:96-103 | For one secret over all characters, some text leaks it if and only if the end of a marker can spell it, or its own start, matched nowhere earlier, can run into a marker |
| Redaction.TwoBracketsNeverLeak | scripts/redact-secrets.py:96-103 | "[[" shares an end with the marker and yet no text leaks it |
| Redaction.BracketedSecretLeaks | scripts/redact-secrets.py:96-103 | A secret that starts with the closing bracket, the only one of its set, is left over after the marker in a text made from it |
| Redaction.WholeSecretVanishes | scripts/redact-secrets.py:97-100 | A text that is one secret becomes exactly the marker, because no shorter secret breaks it up first |
| Redaction.ShortestFirstLeaks | scripts/redact-secrets.py:97-99 | In the opposite order the rest of a longer secret would be left standing |
| RemovedStretches.NothingIsLeft | scripts/redact-secrets.py:96-103 | If no secret can run into the marker and no proper end of one is a proper start of one, the result is the text with some stretches replaced by a marker each, and every occurrence of every secret lies wholly in one of them |
| RemovedStretches.OneSecretGoneIff | scripts/redact-secrets.py:96-103 | For one secret, every occurrence in every text is removed whole if and only if no proper end of it is a proper start |
| RemovedStretches.OverlappingSecretsLeave | scripts/redact-secrets.py:96-103 | Two concrete secrets that overlap in a text: whichever is replaced first, part of the other is left |
| ServiceAuth.CompareUtf8Bytes | packages/shared/src/service-auth.ts:66-77 | The comparator is bytewise lexicographic order, with zero exactly for equal texts |
| ServiceAuth.DecodeEncode | packages/shared/src/service-auth.ts:90-92 | Percent-encoding is undone by form decoding, for every byte string |
| ServiceAuth.EscapesDecode | packages/shared/src/service-auth.ts:86-92 | A percent escape decodes to its byte, in capitals or not, whatever follows |
| ServiceAuth.PlusIsSpace | packages/shared/src/service-auth.ts:86-92 | A plus sign decodes to a space, as %20 does |
| ServiceAuth.OthersDecode | packages/shared/src/service-auth.ts:86-92 | Every other character stands for itself, a percent sign without two digits included |
| ServiceAuth.EncodesByteByByte | packages/shared/src/service-auth.ts:90-92 | Encoding keeps letters, digits and nine marks and escapes every other byte in capitals |
| ServiceAuth.ParsesParts | packages/shared/src/service-auth.ts:79-86 | Parameters split at & and =, an empty one counts for nothing, and one without an equals sign has an empty value |
| ServiceAuth.ParseRendered | packages/shared/src/service-auth.ts:86-93 | A rendered list of entries parses back to itself |
| ServiceAuth.NulFreeHasNoTies | packages/shared/src/service-auth.ts:86-93 | Keys without NUL never tie |
| ServiceAuth.CanonicalIff | packages/shared/src/service-auth.ts:79-93 | Without ties in one of them, two queries have one canonical string if and only if their decoded entries are one multiset |
| ServiceAuth.OrderBlindIff | packages/shared/src/service-auth.ts:86-93 | Every order of the same entries gives one canonical string if and only if no two different entries share key, NUL and value run together |
| ServiceAuth.QueryOrderBlindIff | packages/shared/src/service-auth.ts:79-93 | The same for query strings: all queries with the parameters of one are signed alike if and only if no two different parameters tie |
| ServiceAuth.NulShowsTheOrder | packages/shared/src/service-auth.ts:79-93 | Two concrete queries with the same parameters in different order and different canonical strings |
| ServiceAuth.CanonicalTwice | packages/shared/src/service-auth.ts:86-93 | A canonical string is its own canonical form |
| ServiceAuth.LayoutIsUnambiguous | packages/shared/src/service-auth.ts:99-114 | Equal signed texts mean equal fields, the method up to case, when all fields but the actor are single lines |
| ServiceAuth.SignedTextIsLines | packages/shared/src/service-auth.ts:99-121 | The signed text is nine lines: version, service, time, nonce, method, path, query, body digest, actor |
| ServiceAuth.UpperFolds | packages/shared/src/service-auth.ts:116-121 | The method's small letters become capitals and nothing else changes |
| ServiceAuth.HeaderRoundTrip | packages/shared/src/service-auth.ts:201-227 | A built header parses back to its timestamp, nonce and signature; only its age can reject it |
| ServiceAuth.ParsedHeaderShape | packages/shared/src/service-auth.ts:201-227 | An accepted header consists of exactly the four parts of the grammar and is inside the window |
| ServiceAuth.SignsEveryOrderIff | packages/shared/src/service-auth.ts:95-114 | The signed text is one for all requests equal up to method case and parameter order if and only if the query has no ties |
| ServiceAuth.VerifiesExactlyTheSigned | packages/shared/src/service-auth.ts:229-260 | Without ties in the query, a header signed for one request verifies for exactly the requests equal up to method case and parameter order, inside the window |
| ServiceAuth.VerifyCompletes | packages/shared/src/service-auth.ts:154-264 | Signer and verifier meet for every reordering of a query without ties, with nothing assumed of the MAC but its shape |
| Mentions.ExtendsRepositoryPath | packages/linear-bot/src/target-resolution.ts:30-38 | A neighbour extends the path exactly when a walk over dots from it comes to a path character |
| Mentions.IsNamed | packages/linear-bot/src/target-resolution.ts:49-61 | The search loop accepts a name exactly when some occurrence is guarded on both sides |
| Mentions.MatchExplicitRepo | packages/linear-bot/src/target-resolution.ts:47-65 | A repository is returned exactly when one list entry is mentioned and no other |
| Mentions.AcceptedNeverOverlap | packages/linear-bot/src/target-resolution.ts:40-61 | Two accepted occurrences of any repository names are the same span or disjoint |
| Mentions.MentionsOfApp | packages/linear-bot/src/target-resolution.ts:30-61 | A name before a full stop is mentioned; inside a longer path, a dotted one included, it is not |

## Left out

- Reading and writing JSON, argument parsing, calls to `traces`, `git` and `wrangler`, output-path checks and messages: I/O. Clocks and nonces are parameters.
- Regular expressions of `tokenize` and `scrub_secrets`, and the fixed safe vocabulary of mining: function and set parameters.
- Lower-casing, digits and path characters beyond ASCII: one case folding for ASCII letters throughout.
- Floating point: exact reals throughout, rounded where the scripts round. A value whose double-precision error crosses a rounding boundary can differ in the last digit.
- Collisions of the 12-digit policy hash, of digests and of definition tags: idealised as injective.
- Bookkeeping without influence on a decision: `rationale`, `created_at`, reasons and change texts, coverage and validity copied into history records, event numbers, `kept`, `target`, example texts and round lists of recommendations, `validity_all_rounds`, `anchor_only_topics`.
- Order among recommendations with equal recurrence, and among secrets of equal length: any order is allowed.
- Documents that make the Python raise: findings that are not strings, round numbers that are null where a maximum is taken, a measurement that names dev-only topics outside the policy (the model passes over such a name).
- Weights below 0.00025, which rounding to three digits would restore to zero: no run reaches them (`Runs.ReachableIsLawful`).
- Which events are failures, how results are paired with their calls, and the scrubbing of commands: `FailureMining` starts from failed results with scrubbed commands; how a command is shortened and an output excerpted are function parameters.
- FailureMining.JoiningAddsNothingIff: assumes that the keywords leave some character unused, and that each is at least two characters shorter than the cap of twenty million.
- The agents of a snapshot and of its sessions, its event types and its completeness flag, all of which the evidence digest covers: snapshots that differ only there have one digest here.
- Elements of a match list that are not numbers: match lists hold numbers only.
- `rounds_after` and the table of `replay`: a filter by time and calls of the measurement.
- The secret collectors of `redact-secrets.py`: they supply the set; it never contains the empty string, which `Redaction.Redact` requires.
- URL parsing, SHA-256 and HMAC: a request is given as its parsed parts, and the MAC is a function parameter. `URLSearchParams` is modelled on bytes, without replacement of invalid UTF-8. Timestamps above 2^53, which JavaScript would round, lie outside the validity window.
- `timingSafeEqual`: string equality.
- The rest of the target ladder (mappings, suggestions, the classifier), the bots, the control plane and the dashboard.
- Redaction.CompleteExactlyWhen: states the equivalence for sets without brackets. For sets of several secrets of which one has a bracket, only the sufficient condition of NoSecretSurvives is given; one secret alone is settled by OneSecretLeaksIff for all characters.
- Meaning.CoverageGuardNeverFires: assumes a measurement taken of this archive under this policy; the script checks digests that stand for exactly that.
- Runs.HistoryCanBeAudited: assumes that each measurement handed in is the output of the measurement for some archive, policy and evidence; beyond the two digests the script takes the document on trust.
