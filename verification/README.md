# Verified model of the Oracle diagnostic toolkit

A Dafny model of the decision code of a local, read-only Oracle diagnostic toolkit, with proofs about whole runs,
arbitrary inputs and the agreement of independently written parts. `dafny verify dfyconfig.toml` checks it.

The toolkit, and the modules here that model each part:

* **Knowledge base** (`KbModel`, `KbReview`, `KbStore`, `KbAnswers`, `KbRecords`, `KbFiles`, `KbUnique`, and the runs in
  `KbEpisodes`, `KbMisfiled`, `KbSuperseded`): a versioned store of articles with a ten-state lifecycle. Human decisions
  are authorizations bound to one article, digest and version; inserting reviews for duplicates and conflicts,
  publishing supersedes older versions. Adding writes the article file, then its page, then the manifest, and each of
  the three can fail. `KbStore.KbStore` is the store as an object; the lemmas are about every sequence of calls on an
  empty store, refused and failed calls included.
* **Root-cause analysis** (`RcaRules`, `RcaHypotheses`, `RcaCausality`, `RcaMeaning`, `RcaSurvivors`, `RcaActions`,
  `RcaContract`, `Timeline`, `TimelineEvents`): rules matched against evidence, the status of hypotheses, the
  completeness gate, the root cause and recommendations, the event timeline; and the consumer's independent consistency
  checks, which must accept what the engine emits.
* **Forecast mathematics** (`Regression`, `Outliers`, `Trend`, `TrendRules`, `Calendar`, `Normalization`,
  `NormalizationRules`, `Segmentation`): least squares, robust outliers, daily aggregation, calendar horizons, sample
  validation and resize segmentation, over the real numbers.
* **SQL bind scanner and renderer** (`SqlAtoms`, `SqlScan`, `SqlRescan`, `SqlRender`, `SqlLiterals`, `SqlValues`): a
  hand-written lexer, and a printer whose output is meant to be lexed to the same structure again.
* **Gateway** (`Json`, `Rpc`, `LineServer`, `Gateway`, `GatewayRules`, `EvidenceStore`, `GatewaySession`): a line-framed
  JSON-RPC server, the budgets of a session, the row caps of the fixture and the lab adapter, a bounded store whose
  entries expire, and sessions that collect evidence and fetch it again.
* **Release judgement** (`LogText`, `RunLog`, `LogLines`, `TestRunner`, `Governance`, `GovernanceRules`): the test runner
  as the printer of a log, the independent parser and judge of it, and records whose history proves their lifecycle
  state.
* **Markdown escaping** (`Markdown`, `MarkdownRules`): four text passes and their inverse.
* Shared: `Options`, `Sorting` (a stable sort by any order), `Numbers`, `TextOrder` (string order), `Digits` (decimal
  texts), `UtcText` (ISO texts of instants).

Hashes are modelled as constructors of what they digest, so equal digests mean equal contents. Randomness, clocks, the
network and the database enter as parameters. Objects the code updates in place are classes; each method is proved equal
to a specification function of the old state, and the properties are lemmas about those functions. What each operation
answers is also stated without them, from the fields of its arguments (`KbAnswers`, `RcaMeaning`, `TimelineEvents`,
`TrendRules`, `NormalizationRules`, `SqlValues`, `GatewayRules`, `LogLines`, `GovernanceRules`, `MarkdownRules`, and in `Rpc` and `LineServer`).

## Where the code does less than its documentation

Each of these is stated as a lemma that gives the exact condition, with a concrete failing input.

* Adding to the knowledge base is not atomic. When the page cannot be rendered, or a page or the manifest is too large, the
  article file stays behind, and its entry takes no further version, ever. An entry is blocked if and only if an earlier
  add of it failed after writing its article file (`KbFiles.BlockedExactly`, `KbFiles.BlockedForEver`,
  `KbFiles.UnrenderableBlocks`, `KbFiles.OversizeManifestBlocks`).
* A supersession event says it came from PUBLISHED even when the version was due for review
  (`KbRecords.SupersessionFrom`), and its decision time is compared with nothing (`KbRecords.SupersessionChronology`);
  a run of nine calls shows both at once (`KbSuperseded.WrongOriginOutOfOrder`).
* Decision times are compared as strings, so `...00Z` sorts after `...00.5Z` and after the same instant written
  `...00+00:00` (`UtcText.StringOrderOfTimes`, `UtcText.LaterSortsFirst`, `UtcText.SameInstantSortsFirst`).
* Inserting does not compare the entry id with the dedup key, so two versions of one entry can both become current
  (`KbMisfiled.BothCurrent`); with matching ids they cannot (`KbUnique.EveryRunHasOneCurrent`).
* An unclosed `/*` can send the SQL scanner back to index 1 for ever (`SqlScan.TerminatesExactly`, `SqlScan.NeverEnds`).
  In rendered text a colon directly behind a bind can turn into a bind (`SqlRender.RenderingReadsBack`,
  `SqlLiterals.ExposedColon`), and a quoted value next to a string becomes one literal with it
  (`SqlLiterals.RenderedLiterals`, `SqlLiterals.JoinedLiterals`).
* For thresholds below 0.6745 the outlier rule can flag six of seven values and the trend falls back to the full series
  (`Outliers.HalfIffThreshold`, `Trend.FallbackIffThreshold`).
* Adding months has no result in December 9999 (`Calendar.AddMonthsDefined`).
* A hypothesis confirmed by temporal proof alone is refused by the consumer (`RcaContract.PipelineIsAccepted`,
  `RcaContract.TemporalProofAloneIsRejected`).
* The budgets of a target bound what is collected, not what is sent: stored evidence can be fetched any number of times
  and no call and no row is counted (`GatewaySession.SentBeyondAnyBound`, `GatewaySession.BeyondBudget`).
* The lab adapter reports every truncation only while the certified query's own row limit is not below the effective cap
  (`Gateway.TruncationIsReported`, `Gateway.TruncationLost`); the file is read again at each call, and its digest covers
  the SQL, not that limit.
* In a log in program order, a script that leaves its last output line unfinished swallows its own result line, and the run
  becomes INCONCLUSIVE (`TestRunner.RunnerIsJudgedRightly`). The judge requires the log's last line but does not look at
  what it says (`RunLog.FinalLineIsNotCompared`, `TestRunner.ContradictionPasses`).
* Only the first review of a governed artifact is compared with the proposer, so every review is independent only where
  there is at most one (`Governance.IndependentIffOneReview`, `Governance.SelfReviewAccepted`).
* JSON-RPC array parameters are refused, with a reply even to a notification (`Rpc.ArrayParamsRefused`). A line that ends in
  a newline may be one byte longer than the limit, which leaves room for a carriage return; the last line of the input,
  when no newline ends it, may not, carriage return or not (`LineServer.Serve`).
* A raw sample with impossible numbers still keeps a later, correct one with its key out
  (`Normalization.DuplicateExactly`, `Normalization.BadSampleWins`).

## Model

| member | source | states |
|---|---|---|
| `KbModel.VerifyAuthorization` | change_documentation_knowledge/authorization.py:57-75 | a record is accepted exactly when it approves this artifact, digest and version and its author is outside the proposers |
| `KbReview.ReviewDuplicates` | change_documentation_knowledge/knowledge.py:222-265 | whatever the order of the rows, the loop's verdict is the most severe relation any live row of the family has to the candidate, and it reports all related entries |
| `KbReview.SameKey` | change_documentation_knowledge/knowledge.py:64-82 | equal family and equal scope together mean equal dedup keys |
| `KbAnswers.VerdictByFields` | change_documentation_knowledge/knowledge.py:222-265 | another family, rule or error code makes a row count for nothing, any other difference in the key makes it a difference of scope, and on equal keys cause, recommendations and the declared supersession decide; each verdict if and only if |
| `KbStore.KbStore.constructor` | change_documentation_knowledge/kb_store.py:52-53 | a new knowledge base holds nothing |
| `KbStore.KbStore.SaveManifest` | change_documentation_knowledge/kb_store.py:84-86 | the manifest is replaced, or refused for its size and left as it was |
| `KbStore.KbStore.WriteFiles` | change_documentation_knowledge/kb_store.py:184-185 | the article file is written unless it is too large or there already, and is there even when the page then fails, for lack of a field, for its size or because a page is there |
| `KbStore.KbStore.AddCandidate` | change_documentation_knowledge/kb_store.py:153-197 | the outcome and the whole new store: a candidate refused before the article file changes nothing, one that fails later leaves its files, and one that is added has files and record |
| `KbAnswers.AddAnswers` | change_documentation_knowledge/kb_store.py:153-197 | each answer to a candidate if and only if its condition, in terms of the candidate, the stored versions and the files |
| `KbAnswers.AddLeaves` | change_documentation_knowledge/kb_store.py:184-195 | the record, the article and the page a successful add leaves, field by field, and that nothing else changes |
| `KbAnswers.FailedAddLeaves` | change_documentation_knowledge/kb_store.py:184-195 | what any other add leaves: the manifest as it was, the article exactly if the add came to write it, the page exactly if it came to write that |
| `KbStore.KbStore.ExistingForReview` | change_documentation_knowledge/kb_store.py:107-113 | review sees every stored version and nothing else |
| `KbStore.KbStore.OpenConflicts` | change_documentation_knowledge/kb_store.py:202-210 | exactly the other open versions with different recommendations that the article does not supersede |
| `KbStore.KbStore.IsUsed` | change_documentation_knowledge/kb_store.py:238-242 | an authorization id counts as used when any event of any version of the entry carries it |
| `KbStore.KbStore.AuthorizeStep` | change_documentation_knowledge/kb_store.py:235-245 | human edges need a bound, unused authorization not earlier as text than the decisions before it; other edges take none |
| `KbStore.KbStore.Precheck` | change_documentation_knowledge/kb_store.py:213-234 | the refusals before authorization, in the code's order: usage, presence, integrity, edge, gate, conflict |
| `KbStore.KbStore.SupersedeOlder` | change_documentation_knowledge/kb_store.py:256-266 | exactly the other current versions of the entry become superseded, with the event the code writes |
| `KbStore.KbStore.Transition` | change_documentation_knowledge/kb_store.py:213-270 | the result and the whole new store; a refused transition, the size of the rewritten manifest included, changes nothing |
| `KbAnswers.EdgesAndDecisions` | change_documentation_knowledge/common.py:101-123 | the table is the table read backwards, and an edge takes an authorization exactly when it leads to one of five states |
| `KbAnswers.TransitionAnswers` | change_documentation_knowledge/kb_store.py:213-245 | each refusal of a move if and only if its condition, in terms of the stored fields: E_CONFLICT exactly for a promotion that passes all before and whose article does not supersede its entry while another version, in one of the six open states, says something else |
| `KbAnswers.AuthorizationAnswers` | change_documentation_knowledge/kb_store.py:235-245 | each refusal of an authorization if and only if its condition, and the decision an accepted one leaves |
| `KbAnswers.PassedMove` | change_documentation_knowledge/kb_store.py:246-270 | a move that passes every check is refused only for the size of the manifest it would leave |
| `KbAnswers.MoveLeaves` | change_documentation_knowledge/kb_store.py:246-266 | after an accepted move the version has the new state and the event written out, every other version that was published or due is superseded exactly if the move publishes an article that supersedes its entry, and nothing else has changed |
| `KbRecords.EveryRunKeepsRecords` | change_documentation_knowledge/kb_store.py:153-268 | after any sequence of calls each record matches its article, its history walks the transition table, decisions stand exactly on human edges, are bound to the record's digest, given by non-proposers, used once and in text order, and gated states passed the quality gate |
| `KbRecords.ArticlesStayIntact` | change_documentation_knowledge/kb_store.py:89-104 | over every run, the article of every version in the manifest is present, with the digest recorded |
| `KbFiles.BlockedExactly` | change_documentation_knowledge/kb_store.py:184-195 | over every run, the file of an entry's next version is already there if and only if an earlier add of that entry failed after writing its article file |
| `KbFiles.BlockedForEver` | change_documentation_knowledge/kb_store.py:184-195 | after such a failure no later call of any kind makes the entry take another version |
| `KbFiles.LateFailureSpoilsNext` | change_documentation_knowledge/kb_store.py:184 | a candidate that nothing refused before gets E_OUTPUT_EXISTS after another one of its entry failed late |
| `KbFiles.UnrenderableBlocks` | change_documentation_knowledge/kb_store.py:185 | a concrete candidate whose page cannot be rendered, and the valid one refused after it |
| `KbFiles.OversizeManifestBlocks` | change_documentation_knowledge/safety.py:363-367 | a concrete run in which the manifest outgrows 512000 bytes after both files were written, and the retry refused |
| `KbRecords.PublicationIsBacked` | change_documentation_knowledge/common.py:101-123 | a publication event is preceded by an approval event with another authorization, both bound to the digest and independent of the proposers |
| `KbRecords.EveryPublicationIsBacked` | change_documentation_knowledge/kb_store.py:213-268 | in every reachable store, whatever was ever published was approved before by a different authorization, both bound to its unchanging digest, and its RCA was CONFIRMED at extraction |
| `KbRecords.RunsOnlyExtend` | change_documentation_knowledge/kb_store.py:183-192 | later calls never change an article, a digest or proposers, and histories only grow |
| `KbRecords.SupersessionFrom` | change_documentation_knowledge/kb_store.py:258-261 | the recorded previous state is wrong exactly for a version that was due for review |
| `KbRecords.SupersessionChronology` | change_documentation_knowledge/kb_store.py:261-264 | the older version's decisions stay in order exactly when the publishing decision is not earlier than any of them |
| `KbSuperseded.WrongOriginOutOfOrder` | change_documentation_knowledge/kb_store.py:256-266 | a run of nine accepted calls from the empty store ends with a supersession event from PUBLISHED behind one to REVIEW_DUE, and with decisions out of order |
| `KbSuperseded.SuccessionExists` | change_documentation_knowledge/kb_store.py:256-266 | two concrete articles and decision times that such a run takes, the later decision earlier in time |
| `KbUnique.AddedIsNew` | change_documentation_knowledge/kb_store.py:166-168 | a candidate that review lets through repeats the recommendations of no live version of its entry stored under its dedup key |
| `KbUnique.PublishKeepsOneCurrent` | change_documentation_knowledge/kb_store.py:226-266 | publishing keeps one current version if and only if it supersedes its own entry or no other current version says the same |
| `KbUnique.EveryRunHasOneCurrent` | change_documentation_knowledge/kb_store.py:153-268 | in every store reachable with entry ids derived from the dedup key, each entry has at most one version PUBLISHED or REVIEW_DUE and no two live versions say the same |
| `KbMisfiled.BothCurrent` | change_documentation_knowledge/kb_store.py:164-172 | with an entry id of another key a run of eight accepted calls ends with two published versions |
| `KbMisfiled.MisfiledExists` | change_documentation_knowledge/kb_store.py:164-172 | two concrete articles that such a run takes |
| `UtcText.IsoOrderIsTimeOrder` | rca_engine/timeline.py:91 | sorting isoformat texts of UTC instants as strings is sorting by time |
| `UtcText.Elapsed` | change_documentation_knowledge/common.py:203-213 | the seconds between two instants are counted with days of 86400, hours of 3600 and minutes of 60 |
| `UtcText.StringOrderOfTimes` | change_documentation_knowledge/kb_store.py:243-245 | for any two timestamps `is_utc_timestamp` accepts, ending in Z or +00:00, string order is time order if and only if they are one text, or fall in different seconds, or are different instants of which neither ends in Z where the other's fraction goes on |
| `UtcText.LaterSortsFirst` | change_documentation_knowledge/common.py:203-213 | half a second past sorts before the whole second, both ending in Z |
| `UtcText.SameInstantSortsFirst` | change_documentation_knowledge/common.py:203-213 | of one instant the spelling with +00:00 sorts before the one with Z |
| `RcaRules.EvaluateRule` | rca_engine/rules.py:134-181 | the nested loops compute the matched ids in first-met order, sources, missing evidence, contradiction and temporal proof |
| `RcaMeaning.ComparisonsOfNumbers` | rca_engine/rules.py:99-113 | the six comparisons are the order of the numbers |
| `RcaMeaning.ComparisonsOfOthers` | rca_engine/rules.py:99-113 | a list compares by membership, and what no number compares with only as other |
| `RcaMeaning.SymptomsShown` | rca_engine/rules.py:116-131 | a symptom is shown by evidence other than recovery with a listed certified signature, or of a listed type where no signature is listed |
| `RcaRules.IdsForHolds` | rca_engine/rules.py:145-156 | the collected ids are exactly those of evidence matching some condition, each once |
| `RcaMeaning.IdsInFirstMetOrder` | rca_engine/rules.py:145-156 | the ids stand in the order in which they are first met, condition by condition and for each item by item |
| `RcaMeaning.SymptomsInParts` | rca_engine/rules.py:143 | symptoms are listed in the order of the evidence |
| `RcaMeaning.MissingInParts` | rca_engine/rules.py:148-157 | what is missing is listed in the order of the conditions |
| `RcaRules.SupportGrows` | rca_engine/rules.py:145-166 | more evidence keeps every supporting source and every critical contradiction |
| `RcaRules.RecoveryIsIrrelevant` | rca_engine/common.py:65-73 | recovery evidence, wherever it stands, changes nothing in a rule's evaluation |
| `RcaHypotheses.GenerateHypotheses` | rca_engine/hypothesis.py:50-86 | the kept hypotheses and the truncated ones are together the ranked candidates |
| `RcaMeaning.StatusByEvidence` | rca_engine/hypothesis.py:32-47 | status, confidence, sources and ids of a rule's hypothesis from the evidence that speaks for it, against it and in time, each status if and only if |
| `RcaMeaning.CandidateByEvidence` | rca_engine/hypothesis.py:58-62 | a rule is a candidate exactly when some evidence shows its symptom |
| `RcaHypotheses.RankedIsOrdered` | rca_engine/hypothesis.py:78-82 | ranking permutes the candidates, and none stands behind a weaker one |
| `RcaHypotheses.MoreEvidence` | rca_engine/hypothesis.py:32-47 | adding evidence never turns WEAKENED or REJECTED into CONFIRMED, and without contradictions a status only rises |
| `RcaHypotheses.EvidenceOrderDoesNotMatter` | rca_engine/hypothesis.py:50-86 | the same evidence in any order gives the same hypotheses in the same order with the same status and source count |
| `RcaHypotheses.RecoveryChangesNoHypothesis` | rca_engine/hypothesis.py:50-86 | recovery evidence changes no generated hypothesis |
| `RcaCausality.ApplyGate` | rca_engine/causality.py:27-46 | the gate's loop caps each CONFIRMED hypothesis when declared evidence is missing and leaves all else alone |
| `RcaMeaning.GateByEvidence` | rca_engine/causality.py:27-46 | exactly the CONFIRMED hypotheses become SUPPORTED, with the reason noted, exactly when some declared reference is no evidence's id |
| `RcaCausality.ConfirmedExactly` | rca_engine/causality.py:49-65 | the root cause is CONFIRMED exactly when some hypothesis is, and names exactly those |
| `RcaCausality.UnconfirmedExactly` | rca_engine/causality.py:67-91 | otherwise INSUFFICIENT, PROBABLE or INCONCLUSIVE as none, one alone or several SUPPORTED hypotheses have the most sources, and the competing ones are exactly those |
| `RcaMeaning.NamedInOrder` | rca_engine/causality.py:49-62 | the named hypotheses stand in the order of the hypotheses |
| `RcaMeaning.NamesOnly` | rca_engine/causality.py:49-91 | which of the two lists a root cause fills in each outcome |
| `RcaCausality.BuildRecommendations` | rca_engine/causality.py:94-115 | the nested loops number the actions of the confirmed hypotheses' rules in order |
| `RcaActions.RunRecommends` | rca_engine/causality.py:94-115 | the recommended actions of a run are, for each CONFIRMED hypothesis in order, its rule's actions in one block in order, and nothing else |
| `RcaActions.RecommendedExactly` | rca_engine/causality.py:94-115 | an action is recommended if and only if the rule of some CONFIRMED hypothesis of the result lists it |
| `RcaActions.RecommendationsNumbered` | rca_engine/causality.py:105-113 | recommendations are numbered from 001 under the root cause's id, and none is executed |
| `RcaCausality.RunRca` | rca_engine/engine.py:66-84 | the composition of manifest, generation, gate, aggregation and recommendations |
| `RcaContract.AdaptHypotheses` | change_documentation_knowledge/schema.py:197-239 | the adapter's loop with its set of seen ids accepts exactly consistent hypotheses with distinct ids within the limits |
| `RcaContract.LimitsAreSizes` | change_documentation_knowledge/schema.py:183-300 | the adapter's limits are eleven sizes, safe ids and inert recommendations |
| `RcaContract.ConsistentExactly` | change_documentation_knowledge/schema.py:197-239 | what is asked of each hypothesis, if and only if |
| `RcaContract.AcceptedIsBacked` | change_documentation_knowledge/schema.py:183-300 | what any accepted result guarantees, whoever composed it: confirmed causes are uncontradicted and supported by known evidence with nothing missing, ids are distinct and refer, rules and domains are the catalogue's, recommendations are linked and unexecuted |
| `RcaSurvivors.GeneratedComeFrom` | rca_engine/hypothesis.py:58-80 | every generated hypothesis is the evaluation of one rule, and no id occurs twice |
| `RcaSurvivors.SurvivesExactly` | rca_engine/hypothesis.py:78-86 | a rule's hypothesis is kept exactly when the rule has a symptom match and fewer such rules than the limit rank ahead of it |
| `RcaContract.RootCauseIsConsistent` | change_documentation_knowledge/schema.py:242-260 | every aggregated root cause passes the adapter's root-cause checks |
| `RcaContract.RecommendationsAreConsistent` | change_documentation_knowledge/schema.py:262-300 | recommendation ids have the required form and are distinct, up to 999 of them |
| `RcaContract.PipelineIsAccepted` | change_documentation_knowledge/schema.py:183-300 | within the adapter's limits, a composed result is accepted exactly when no reference is declared twice and every rule that survives the ranking has an allowed domain and, unless declared evidence is missing, some support, a critical contradiction, or neither temporal proof nor a zero source minimum |
| `RcaContract.FewCandidatesAccepted` | change_documentation_knowledge/schema.py:183-300 | with no more candidates than are kept, the same for every rule with a symptom match, whatever the ranking |
| `RcaContract.TemporalProofAloneIsRejected` | change_documentation_knowledge/schema.py:220-221 | a concrete rule and piece of evidence whose confirmed result no adapter settings accept |
| `Timeline.BuildTimeline` | rca_engine/timeline.py:122-164 | the grouping loop yields one event for each key in order of first occurrence, and the timeline is degraded exactly when some evidence is |
| `Timeline.EventsPartition` | rca_engine/timeline.py:136-160 | the counts add up to the timed evidence, and each timed item is in exactly one event |
| `TimelineEvents.OneEventExactly` | rca_engine/timeline.py:114-119 | two timed items share an event if and only if they agree in source, domain, type and signature and lie between the same multiples of the window since 1970, or without a window in the same second |
| `TimelineEvents.EventSays` | rca_engine/timeline.py:145-160 | an event's key, evidence ids, sources and degradation are those of exactly the items that belong together |
| `TimelineEvents.EventCounts` | rca_engine/timeline.py:145-160 | and its count is their number |
| `Timeline.MembersBelongTogether` | rca_engine/timeline.py:114-119 | the members of an event share source, domain, type and signature and lie strictly within one window |
| `Timeline.ChronologyIsInTimeOrder` | rca_engine/timeline.py:131-134 | the text sort puts the evidence in order of time, ties in input order |
| `Timeline.EventsInTimeOrder` | rca_engine/timeline.py:145-160 | events come out in non-decreasing time, first and last seen being the earliest and latest member's |
| `Regression.ResidualOfAnyLine` | capacity_engine/stats.py:24-68 | any line's residual is the fitted line's plus two squares, in the difference of slopes and of the lines at the mean |
| `Regression.FitIsLeastSquares` | capacity_engine/stats.py:24-68 | no line has a smaller residual, and only the fitted line attains it |
| `Regression.RSquaredIsAShare` | capacity_engine/stats.py:45-47 | the residual lies between 0 and the total, so the guard around R squared never acts over the reals |
| `Regression.NoVarianceMeansOneX` | capacity_engine/stats.py:38-41 | the fit is refused for lack of variance exactly when all x are equal |
| `Outliers.FlaggedExactly` | capacity_engine/stats.py:109-131 | the flagged indices are exactly those whose score passes the threshold, in increasing order |
| `Outliers.OutliersExactly` | capacity_engine/stats.py:109-131 | of at least four values, exactly those whose distance from the median times 0.6745 exceeds the threshold times the median of the distances, or their mean where that is zero |
| `Outliers.MedianTurned` | capacity_engine/stats.py:121-123 | turning the values round turns the median round |
| `Outliers.AtMostHalfFlagged` | capacity_engine/stats.py:109-131 | for thresholds of at least 0.6745 both branches flag at most half of the values |
| `Outliers.HalfIffThreshold` | capacity_engine/stats.py:109-131 | never more than half, for every series, if and only if the threshold is at least 0.6745 |
| `Trend.AggregateDaily` | capacity_engine/aggregation.py:30-62 | one aggregate for each day that has samples, in strict order of days, its mean, percentile, peak, mean utilization and count computed from exactly that day's samples |
| `TrendRules.OnDay` | capacity_engine/aggregation.py:39-44 | a sample belongs to the day between whose local midnights its time lies |
| `TrendRules.AggregateSays` | capacity_engine/aggregation.py:48-61 | a day's count, mean, greatest value and mean utilization are those of exactly its samples |
| `TrendRules.PercentileBetween` | capacity_engine/aggregation.py:20-27 | the percentile lies between the values on either side of 95 hundredths of the way |
| `TrendRules.PercentileOfSteps` | capacity_engine/aggregation.py:20-27 | and on values in equal steps exactly there |
| `Trend.OffsetsIncrease` | capacity_engine/aggregation.py:46-55 | day offsets start at zero and strictly increase |
| `Trend.EverySampleCounted` | capacity_engine/aggregation.py:40-44 | every sample is counted in exactly one day |
| `Trend.NoFallback` | capacity_engine/trend.py:44-58 | from two points and a threshold of at least 0.6745 on, at least two points remain and the fallback is not taken |
| `Trend.FitNeverFails` | capacity_engine/trend.py:60-62 | on increasing offsets the fit never fails for lack of variance |
| `TrendRules.TrendIsLeastSquares` | capacity_engine/trend.py:44-62 | no line misses the points that are not excluded by less than the trend, and only the trend's own by as little |
| `TrendRules.TrendIsAFit` | capacity_engine/trend.py:44-62 | the outliers are left out unless that leaves fewer than two points |
| `TrendRules.TrendClassified` | capacity_engine/trend.py:64-88 | two points by the sign of the slope; more by its sign exactly if it exceeds twice its standard error, otherwise volatile exactly if the residual deviation exceeds 0.15 times every difference of two values, else stable |
| `Trend.DailySeriesGetsATrend` | capacity_engine/trend.py:27-62 | daily aggregates of two days or more always get a trend, without fallback |
| `Trend.FallbackIffThreshold` | capacity_engine/trend.py:53-58 | the fallback is unreachable if and only if the threshold is at least 0.6745 |
| `Calendar.BeforeIsEarlier` | capacity_engine/stats.py:101-106 | calendar order is the order of day numbers, leap years included |
| `Calendar.AddMonthsDefined` | capacity_engine/stats.py:89-106 | a valid date with the day kept or cut to the month's end, exactly unless December 9999 or another year is reached |
| `Calendar.AddMonthsMonotone` | capacity_engine/stats.py:89-98 | a later start never gives an earlier result |
| `Calendar.HorizonDays` | capacity_engine/engine.py:229-231 | one, three and six months move 28-31, 89-92 and 181-184 days for every date |
| `Calendar.HorizonInsideThresholdWindow` | capacity_engine/threshold.py:23 | every horizon lies within the threshold's 186 days |
| `Calendar.HorizonBoundsAreTight` | capacity_engine/engine.py:36 | all six bounds are attained |
| `Normalization.NormalizeSamples` | capacity_engine/normalization.py:57-209 | the loop's samples, issues and excluded count, the samples sorted by time, and as many duplicates as readable samples with an earlier one's key |
| `NormalizationRules.FateSays` | capacity_engine/normalization.py:72-170 | each exclusion if and only if its condition on what the raw sample states |
| `NormalizationRules.SamplesTell` | capacity_engine/normalization.py:112-203 | each sample that comes out tells what the raw sample at its index states: its names and time, its total in the unit's measure, its share, and the stated utilization where only that is given |
| `NormalizationRules.InInputOrder` | capacity_engine/normalization.py:72-203 | issues come in the order of the input |
| `NormalizationRules.SameTimeKeepsOrder` | capacity_engine/normalization.py:205 | and samples of one time keep it through the sort by time |
| `NormalizationRules.KeptTells` | capacity_engine/normalization.py:172-184 | and a kept sample is flagged exactly when both numbers are given and differ by more than two per cent of the greater |
| `NormalizationRules.FactorIsListed` | capacity_engine/normalization.py:150-160 | a unit is known exactly if it is one of eleven, and stands for a power of ten or of two |
| `NormalizationRules.StripMeans` | capacity_engine/normalization.py:143-160 | stripping a unit takes the white space off both ends and nothing else |
| `NormalizationRules.LowerMeans` | capacity_engine/normalization.py:143-160 | lower case replaces exactly the 26 capitals by their small letters |
| `Normalization.EveryIndexOnce` | capacity_engine/normalization.py:72-203 | each raw index becomes exactly one sample or exactly one excluding issue |
| `Normalization.DuplicateExactly` | capacity_engine/normalization.py:91-98 | a sample is a duplicate exactly when an earlier readable one, kept or not, has its target, metric and instant |
| `Normalization.BadSampleWins` | capacity_engine/normalization.py:91-106 | a concrete sample with an impossible total and the correct one of the same instant it keeps out |
| `Normalization.NormalizedSamples` | capacity_engine/normalization.py:100-205 | the samples are in order of time, of one kind, and use between 0 and 1.01 times their positive total |
| `Normalization.SamplesAreOrderly` | capacity_engine/normalization.py:91-203 | no two kept samples share target, metric and instant |
| `Segmentation.DetectCapacityEvents` | capacity_engine/segmentation.py:22-43 | one event for each step of the total beyond the tolerance, in order |
| `Segmentation.ResizedMeans` | capacity_engine/segmentation.py:32-35 | a resize is a total more than half a per cent above or below the one before |
| `Segmentation.EveryResizeIsAnEvent` | capacity_engine/segmentation.py:28-43 | each resize leaves one event in its place, with the later sample's time and evidence and both totals, and there are no others |
| `Segmentation.SegmentIsSettled` | capacity_engine/segmentation.py:46-54 | the segment starts exactly at the last resize, and detecting again on it finds nothing |
| `Segmentation.DriftIsBounded` | capacity_engine/segmentation.py:33-35 | over k steps of a settled segment the total stays between 0.995^k and 1.005^k times itself |
| `Segmentation.NormalizedIsSeries` | capacity_engine/engine.py:149-150 | normalized samples of one target and metric have strictly increasing times and positive totals |
| `SqlScan.BindMeans` | human_evidence/params.py:54-59 | a bind begins at a colon that no letter, digit, underscore or colon precedes and a letter or underscore follows, and its name is the longest run from there |
| `SqlScan.TerminatesExactly` | human_evidence/params.py:33-66 | the scanner reaches the end of a text if and only if no unclosed comment can send it back behind its own start |
| `SqlScan.NeverEnds` | human_evidence/params.py:48-53 | on the text `x/*` the scanner stays at index 1 for ever |
| `SqlScan.ClosedNeverStalls` | human_evidence/params.py:48-53 | a text whose comments all close never sends the scanner back |
| `SqlScan.Scan` | human_evidence/params.py:33-66 | the chunks hold exactly what the scan reads, a second pass after being sent back included, and rejoin to the text exactly when it was never sent back |
| `SqlRescan.Rescan` | human_evidence/params.py:33-66 | scanning rendered text reads a bind exactly where a colon was exposed, otherwise the source with values in place |
| `SqlRender.BindsOf` | human_evidence/params.py:69-74 | exactly the binds of the chunks, each once |
| `SqlRender.LiteralIsSafe` | human_evidence/params.py:84-102 | every literal is closed in itself: its quotes pair up and outside them nothing opens a comment or a bind |
| `SqlValues.LiteralDenotes` | human_evidence/params.py:84-102 | a value has a literal exactly when its type admits it, and the literal denotes it: the same number without leading zeros, the same text between quotes, or the value's own digits at the places of the format |
| `SqlValues.RenderedValues` | human_evidence/params.py:117-123 | in the place of each bind a rendering has a literal that denotes the value given for it |
| `SqlValues.WindowInTime` | human_evidence/params.py:121-122 | a window is accepted exactly when its start is strictly before its end in time |
| `SqlValues.AcceptedExactly` | human_evidence/params.py:105-122 | parameters are accepted exactly when they are the binds, of known types that admit the values, with an ordered window |
| `SqlRender.Join` | human_evidence/params.py:123 | the join puts each value in its bind's place |
| `SqlRender.LiteralsFor` | human_evidence/params.py:117-120 | accepted exactly when every bind is supported and its value valid |
| `SqlRender.Render` | human_evidence/params.py:105-125 | rendered exactly when the parameters are the binds, valid, with an ordered window, and the result passes the guard; otherwise each refusal exactly for the first of these that fails |
| `SqlRender.RenderingReadsBack` | human_evidence/params.py:105-125 | scanning a rendering again finds a bind exactly where a colon stood exposed behind a bind; otherwise it reads as the source with values in place: no bind, the same comments, all other text in order |
| `SqlLiterals.ChunkIsRun` | human_evidence/params.py:38-47 | a string chunk ends where string text ends, so chunks of strings are the maximal runs of it |
| `SqlLiterals.RenderedLiterals` | human_evidence/params.py:105-125 | a rendering without an exposed colon reads as many string literals as source and values have together, less one for each quoted value that touches a string or another quoted value; as many if and only if none does |
| `SqlLiterals.ExposedColon` | human_evidence/params.py:54-59 | the rendering of `:a:b` binds `b`, which the source does not |
| `SqlLiterals.JoinedLiterals` | human_evidence/params.py:38-47 | the value and the string of `:a'x'` are read back as one literal |
| `Json.Measure` | mcp_gateway/server.py:29-41 | the recursion with a shared counter and early exits accepts exactly what stays within the node and depth limits |
| `Json.LimitsByExample` | mcp_gateway/server.py:29-41 | a value may stand in 24 arrays and not in 25, an array may hold 1999 values and not 2000 |
| `Rpc.OneReplyEach` | mcp_gateway/server.py:82-112 | no reply exactly to a well-formed notification, one to everything else, a request's own id in it |
| `Rpc.ArrayParamsRefused` | mcp_gateway/server.py:101-103 | array parameters get an error reply even on a notification |
| `Rpc.RequestAnswered` | mcp_gateway/server.py:120-156 | the one answer to a well-formed request, and the state after it, by its method, its parameters and the phase |
| `Rpc.OthersAnswered` | mcp_gateway/server.py:82-118 | what any other line gets, and that only the initialized notification changes the state |
| `Rpc.ToolsExactly` | mcp_gateway/server.py:143-144 | the tool list goes exactly to well-formed tools/list requests in READY |
| `Rpc.ToolResultExactly` | mcp_gateway/server.py:145-155 | a tool's result goes exactly to well-formed tools/call requests in READY that name the tool |
| `Rpc.PhaseStep` | mcp_gateway/server.py:114-131 | a message moves the phase forward by one step at most, and only the two handshake messages do |
| `Rpc.ToolsNeedReady` | mcp_gateway/server.py:143-156 | tools are listed or called only in READY with a session present |
| `Rpc.ConversationIsCoherent` | mcp_gateway/server.py:82-156 | over every conversation the state stays coherent and the replies are as many as the messages that are owed one |
| `Rpc.HandshakeBehind` | mcp_gateway/server.py:114-131 | past a phase the conversation went through the message that enters it |
| `Rpc.ToolsOnlyAfterHandshake` | mcp_gateway/server.py:120-156 | a tool reply comes only after an accepted initialize and then the initialized notification |
| `LineServer.LinesRejoin` | mcp_gateway/server.py:159-177 | the reference's lines hold no newline and join to the input |
| `LineServer.LinesOfJoined` | mcp_gateway/server.py:159-177 | the split is the only one with that property |
| `LineServer.McpServer.HandleLine` | mcp_gateway/server.py:82-112 | the new state and replies for one line of bytes |
| `LineServer.LineAnswered` | mcp_gateway/server.py:82-112 | the answer to one line: the size complaint, silence, the parser's complaint, or its message's answer |
| `LineServer.ToolRepliesOnTheWire` | mcp_gateway/server.py:143-155 | whatever bytes arrive, the tool list and each tool's result go out under an id exactly when some message asks for them under that id in READY |
| `LineServer.McpServer.Discard` | mcp_gateway/server.py:166-171 | the discard loop stops exactly behind the line's newline |
| `LineServer.McpServer.Serve` | mcp_gateway/server.py:159-179 | the bounded reads answer exactly as the reference that splits the whole input and answers each line once |
| `LineServer.OversizeLineIsForgotten` | mcp_gateway/server.py:166-173 | an oversize line costs one error reply; what follows is answered as if it had not been sent |
| `LineServer.StreamIsAConversation` | mcp_gateway/server.py:159-179 | a byte stream drives the server through the states of the conversation of its messages |
| `LineServer.ToolsOnlyAfterHandshakeOnTheWire` | mcp_gateway/server.py:120-179 | whatever bytes arrive, tool replies come only after the handshake |
| `Gateway.SanitizeRows` | mcp_gateway/evidence.py:184-215 | rows within the cap, truncation, and every field of them kept, dropped or invalid, none lost |
| `GatewayRules.CleanInParts` | mcp_gateway/evidence.py:190-212 | fields are kept one by one in order |
| `GatewayRules.CleanRowsInParts` | mcp_gateway/evidence.py:190-212 | and so are rows, those of which nothing is left aside |
| `Gateway.Collect` | mcp_gateway/gateway.py:272-290 | the response and the session's counters after one call, failures included |
| `GatewayRules.ServedExactly` | mcp_gateway/gateway.py:216-229 | over every session a call is served if and only if its row request is in range, target and collector are registered, enabled and allowed, the capability is given, and calls and rows so far are below the three limits |
| `GatewayRules.RefusalNamed` | mcp_gateway/gateway.py:216-229 | which failing condition each refusal names, and that a refused call changes no counter |
| `GatewayRules.CallServed` | mcp_gateway/gateway.py:272-290 | what a served call gets and costs |
| `GatewayRules.CapIsSmallestLimit` | mcp_gateway/gateway.py:280-284 | the cap on a call's rows is the smallest of the request, the collector's, the target's remaining, the gateway's, the profile's and the hard limit |
| `Gateway.BudgetsHold` | mcp_gateway/gateway.py:216-229 | over every sequence of collect calls the counters are exactly the calls that reached an adapter and stay within their limits, and the rows those calls deliver for a target stay within its budget |
| `GatewaySession.GetEvidence` | mcp_gateway/gateway.py:338-353 | the reply and what is left in the store, whether unknown, disabled, not found, too large to send or sent |
| `GatewaySession.CollectAndStore` | mcp_gateway/gateway.py:272-297 | the counters, the store and the response after a collect call, the evidence being stored even when the response cannot be sent |
| `GatewaySession.CollectedWithinBudget` | mcp_gateway/gateway.py:216-229 | over every session of collect calls and retrievals the rows collected for a target, and all rows sent but those sent again, are within its budget |
| `GatewaySession.SentAgainWasCollected` | mcp_gateway/gateway.py:338-353 | whatever a retrieval sends was collected before, for that target and under that reference |
| `GatewaySession.SentBeyondAnyBound` | mcp_gateway/gateway.py:338-353 | retrievals alone take the rows sent for a target past a bound if and only if they are past it already or some stored evidence of an enabled target that has rows can be fetched |
| `GatewaySession.FetchableAfterCollect` | mcp_gateway/gateway.py:288-290 | what a collect call has just stored can be fetched until it expires |
| `GatewaySession.BeyondBudget` | mcp_gateway/gateway.py:338-353 | a concrete session that sends two rows on a budget of one |
| `Gateway.TruncationIsReported` | mcp_gateway_lab/oracle_sql.py:254-292 | truncation is reported exactly when the source exceeds the effective cap and, for the lab adapter, the query's own limit is not below the cap |
| `Gateway.TruncationLost` | mcp_gateway_lab/oracle_sql.py:254-292 | a concrete query limit of 1 below a cap of 2 with which a truncated answer does not say so |
| `Gateway.CatalogLimitSuffices` | mcp_gateway/catalog.py:235-236 | with the limit the catalog demands at load, every truncation is reported |
| `EvidenceStore.Store.constructor` | mcp_gateway/evidence.py:233-237 | a new store is empty |
| `EvidenceStore.Store.Purge` | mcp_gateway/evidence.py:239-242 | exactly the expired entries go |
| `EvidenceStore.Store.Put` | mcp_gateway/evidence.py:244-252 | expired entries go, the oldest is evicted when full, the new entry is assigned to its reference |
| `EvidenceStore.Store.Get` | mcp_gateway/evidence.py:254-262 | the entry with the reference if session, target and digest match, the same refusal otherwise |
| `EvidenceStore.Store.ClearSession` | mcp_gateway/evidence.py:264-268 | exactly the session's entries go, and their number is returned |
| `EvidenceStore.StoreStaysBounded` | mcp_gateway/evidence.py:244-268 | in every run the store holds no more than its limit, and only entries as they were put |
| `EvidenceStore.RetrievalIsScoped` | mcp_gateway/evidence.py:254-262 | in every run a retrieval returns only an unexpired entry of the same session, target and reference with its payload |
| `EvidenceStore.StoreIsNewestLive` | mcp_gateway/evidence.py:239-252 | with a steady clock and fresh references the store is exactly the newest unexpired puts up to its limit |
| `EvidenceStore.EvidenceIsAvailable` | mcp_gateway/evidence.py:239-262 | an entry is returned to its session and target exactly until it expires or as many newer ones as the limit are put |
| `LogText.MarksConcat` | release_readiness/runlog.py:27-50 | complete lines are read apart from what follows them |
| `LogText.SummaryLineIsTotals` | tests/run_all.py:53 | the printed totals are read back as the same numbers |
| `LogLines.LineMeans` | release_readiness/runlog.py:19-24 | a line is a header, a result, the totals or the last line exactly if it spells one |
| `LogLines.SkipMeans` | release_readiness/runlog.py:24 | and a skip exactly if it is none of these and begins with either marker in any case |
| `LogText.GluedTerminalIsLost` | release_readiness/runlog.py:19-24 | a result line printed behind an unfinished line means nothing to the parser |
| `RunLog.Parse` | release_readiness/runlog.py:27-46 | the line loop collects exactly the marks of the text |
| `RunLog.Judge` | release_readiness/runlog.py:63-99 | the verdict by its conditions, with no reasons exactly on PASS |
| `LogLines.VerdictMeans` | release_readiness/runlog.py:63-99 | inconclusive exactly for a timeout, a missing exit code, header, total or last line, a result that is missing, unannounced or doubled, a doubled header, or totals that disagree; otherwise a failure exactly for another exit code, a skip, a failed script or an expected one that is not there |
| `LogLines.ReasonsMean` | release_readiness/runlog.py:63-99 | each reason exactly for its cause, the causes of failure only when nothing is in doubt |
| `RunLog.PassExactlyWhenGreen` | release_readiness/runlog.py:27-99 | on any log PASS means exactly: in time, exit code 0, unique headers with one PASS line each, no orphans or skips, nothing expected missing, totals in agreement |
| `RunLog.FinalLineIsNotCompared` | release_readiness/runlog.py:21-22 | what the last line says never changes the verdict |
| `TestRunner.RunAll` | tests/run_all.py:31-62 | the printed log and the exit code, 0 exactly when there are scripts and all pass |
| `TestRunner.PrintedInParts` | tests/run_all.py:40-51 | what is printed of scripts is printed one after the other, and so are the failures noted |
| `TestRunner.PrintedOfOne` | tests/run_all.py:42-51 | of one script its header, its output and its result, noted exactly if it failed |
| `TestRunner.EndingPrinted` | tests/run_all.py:53-62 | the totals between two rules, the listing only if something failed, and the last line |
| `TestRunner.PrintedIsSeen` | tests/run_all.py:40-62 | the marks of the log are those of its sections and its ending, in order |
| `TestRunner.ResultsRecovered` | release_readiness/runlog.py:47-60 | the parser's passed and failed sets are exactly the scripts that passed and failed |
| `TestRunner.RunnerIsJudgedRightly` | tests/run_all.py:40-62 | for distinct well-named scripts without marker lines in their output and a log in program order: INCONCLUSIVE exactly when some output is unfinished, else PASS exactly when all passed and none expected is missing |
| `TestRunner.ContradictionPasses` | release_readiness/runlog.py:21-22 | a concrete log whose last line announces a failure and that is judged PASS |
| `Governance.Validate` | release_readiness/governance.py:100-156 | the history loop and the duty checks give exactly the findings of the specification |
| `GovernanceRules.FindingsNamed` | release_readiness/governance.py:100-156 | each finding if and only if its condition |
| `GovernanceRules.AcceptedExactly` | release_readiness/governance.py:100-156 | a record has no findings exactly when its history proves its state, duties are separate, and review, release reference and evidence are there where the state demands them and not before |
| `Governance.AcceptedHistory` | release_readiness/governance.py:100-126 | no history findings exactly for a walk from PROPOSED by the proposer, in time order, of at most 20 entries, ending in the state |
| `Governance.ApprovalIsIndependent` | release_readiness/governance.py:128-149 | an accepted record past approval holds exactly one APPROVED step, by the recorded approver, who is not the proposer; others hold none |
| `Governance.FirstReviewIsIndependent` | release_readiness/governance.py:129-134 | the first review is never by the proposer |
| `Governance.LaterReviewIsUnchecked` | release_readiness/governance.py:129-134 | in any accepted record a later review may be replaced by one of the proposer's |
| `Governance.IndependentIffOneReview` | release_readiness/governance.py:128-134 | acceptance guarantees every review of a course of states and times independent of the proposer if and only if the course holds at most one review |
| `Governance.SelfReviewAccepted` | release_readiness/governance.py:129-134 | a concrete accepted record with a review by its proposer |
| `Governance.TransitionKeepsHistory` | release_readiness/governance.py:203-213 | a transition leaves no history findings exactly when it is legal, in time, by a well-formed actor and within 20 entries |
| `Markdown.EscapeReadsBack` | change_documentation_knowledge/safety.py:228-241 | resolving backslash escapes and the entity (section 2.4 of CommonMark 0.31) gives back any text, and no special character stands unescaped |
| `MarkdownRules.OneCharacter` | change_documentation_knowledge/safety.py:228-238 | the ampersand becomes its entity, eleven characters get a backslash, others stay |
| `MarkdownRules.UnderscoreEscaped` | change_documentation_knowledge/safety.py:228-239 | an underscore gets its backslash unless a letter or digit stands on either side of it |
| `MarkdownRules.LineStartEscaped` | change_documentation_knowledge/safety.py:240 | a dash, colon or full stop gets its backslash exactly where only white space stands before it on its line |

## Left out

- KbStore.KbStore.AddCandidate: the secret-pattern and id-grammar checks are not modelled, nor is what is missing from a candidate before its article file is written. Which pages render, which records are complete and how large each text is are parameters; a write that the operating system fails is not modelled.
- KbStore.KbStore.Transition: the grammar checks of the call's arguments other than the timestamp, and free-text notes in events, are not modelled; versions are positions in a sequence, so the version text grammar is not.
- RcaRules.EvaluateRule: attributes are numbers, as intake leaves them; an unknown operator in a rule, which aborts a run, and NaN are not modelled.
- RcaContract.PipelineIsAccepted: the identifier and executable-text checks are parameters; contract version, target token, timeline fields, texts and warnings of the adapter are not modelled.
- Timeline.BuildTimeline: reading timestamps is a parameter of the model; float rounding of epoch seconds in the bucket and the list of degradation reasons are not modelled.
- Regression.FitIsLeastSquares: floating-point rounding is not modelled; standard errors are kept as squares, and the prediction interval is absent.
- Normalization.NormalizeSamples: non-finite floats are one value, Unicode white space and case of units are not modelled, and reading a timestamp is a parameter. The canonical unit label of a sample is its kind; technology and source id are dropped.
- Segmentation.DetectCapacityEvents: the source label and resource type of an event are not modelled.
- SqlRender.RenderingReadsBack: the few texts with an unclosed comment that the scanner still gets through are excluded; for them SqlScan.Scan says what is read, twice over in part, and SqlRender.Render what is rendered. The read-only guard is a parameter.
- SqlRender.LiteralsFor: digits are ASCII; the source's patterns also match other decimal digits, and it renders values written with them.
- SqlRender.Render: the same, for the values of a rendering.
- SqlScan.Scan: which non-ASCII characters are alphanumeric is a parameter.
- Rpc.OneReplyEach: the internal-error reply to an unexpected exception is not modelled; a tool call always has a result, whose content is the gateway's.
- LineServer.McpServer.Serve: decoding UTF-8 and parsing JSON are a parameter; clearing the session's evidence at the end of input is EvidenceStore.Store.ClearSession, not part of the loop here.
- Gateway.Collect: capability evaluation, the adapter's own failures and the final audit are inputs of a call; audit records, provenance, architecture and clock checks are not modelled (storing the evidence is GatewaySession.CollectAndStore), nor the identity collector, whose single row never needs a cap.
- Gateway.SanitizeRows: the typed validation and masking of one field is a parameter.
- GatewaySession.SentBeyondAnyBound: one session; incident analysis, which reads stored evidence but returns no rows, and other sessions' use of the store are not part of a session here.
- EvidenceStore.EvidenceIsAvailable: payloads are values, so a payload changed after being stored, which the digest check guards against, cannot occur.
- LogText.SummaryLineIsTotals: Python's limit on the digits of an integer text is not modelled.
- TestRunner.RunAll: the log is in program order; buffering that moves a child's output relative to the runner's own lines is not modelled, nor is a missing bash.
- Governance.Validate: the grammar of other fields, revalidation dates, urgent changes and exceptions are not modelled; a history that is not a list counts as empty.
- Markdown.EscapeReadsBack: values that are not texts, Unicode white space at the start of a line and entities other than the one the escaper writes are not modelled.
- Intake validation (required fields, duplicate evidence ids, skewed clocks), masking and per-session aliases, prediction intervals, data-quality scores and threshold dates are not modelled: single checks or formulas with nothing that spans operations.
- Regex secret detection and redaction, token derivation, report and document assembly, evidence parsers, capability and version tables, file access and the database driver are not modelled: foreign code, heuristics without a specification, or case tables.
