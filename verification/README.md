# Medha: verified models of the memory server's core

Medha captures what a coding agent does, deduplicates and queues it, turns it into long-term
memories, and searches them again. This project models the algorithms and protocols inside it
whose correctness is not visible from one function body, and proves what they promise. SQL
tables are maps or sequences, files are byte sequences, clocks are integers that never decrease
(a value read from one may be used later), and floats are reals.

Code that works by changing things step by step is modelled by classes and methods, each proved
equal to a function of its inputs or of the old state; the laws are lemmas about those functions
over every input and every run. Code that runs concurrently is modelled by atomic steps, and the
laws hold for every interleaving of them.

| module | what it models |
|---|---|
| `EditDistance` | the capped Levenshtein table and the duplicate check around it |
| `JsonText`, `JsonLayout`, `CanonicalJson`, `CanonicalShape`, `CanonicalStandard` | JSON text, canonical JSON, what it looks like, and the deduplication key |
| `MemoryQueue`, `QueueAcceptance` | the job queue: publish, consume, retry, dead-letter, close |
| `GraphTraversal`, `GraphSearch` | bounded breadth-first traversal of the knowledge graph and the engine that scores by it |
| `TranscriptText`, `TranscriptClaims` | ingesting and claiming byte ranges of a growing transcript |
| `ActionPlan`, `Leases` | the action graph's frontier, crystallizing, and leases on actions |
| `DedupWindow`, `RateLimiter` | the rolling deduplication window and the per-key limiter |
| `RankFusion`, `FusionLaws` | reciprocal rank fusion, boosts, diversity cap and the hybrid pipeline, and what they do in numbers |
| `ViewerHub` | event fan-out to subscribed clients |
| `KeyValue`, `Glossary`, `GlossaryNames` | prefix-keyed rows, the first-write-wins glossary on top of them, and the project names that keep its law |
| `Decay` | strength decay and eviction of memories |
| `TimelinePaging` | the chronological list and its cursor |
| `EntityMerge` | merging extracted entities over pipeline stages |

## Where the code and its documentation differ

The models follow the code. Where a law is named, it proves the difference or says exactly when the
documented behaviour holds.

- Decay is documented as `strength *= rate^days`. Every run applies the whole age again to a
  strength that already decayed, so ages add up over runs (`Decay.DecayCompounds`). Over any runs a
  survivor never exceeds the documented law, and meets it exactly when nothing can decay, everything
  is lost at once, or all runs but the last came before the memory had any age
  (`Decay.DocumentedLawIff`); with daily runs that is the first run only (`Decay.DailyRunsOverDecay`).
- The limiter is documented as `rate` tokens per window. A bucket refills as a whole, so up to
  `2 * rate - 1` requests pass in a stretch shorter than one window, and that bound is attained
  (`RateLimiter.BoundIsAttained`). The documented limit holds of exactly the configurations with a
  rate of one, or a window of one tick (`RateLimiter.DocumentedLimitIff`); a stretch exceeds the rate
  only if its key's bucket is refilled inside it (`RateLimiter.OverrunNeedsRefill`).
- `Publish` is documented to return an error on a closed queue. After a close a send can panic,
  however much later, exactly when the close falls between a publisher's check and its send
  (`MemoryQueue.PanicIffCloseCutsIn`, `MemoryQueue.CleanCloseNeverPanics`).
- `AcquireLease` is documented to refuse while another holder's lease is live. `ReleaseLease` and
  `ScrubLeases` read first and delete by key later, so a delete can remove a lease granted in
  between (`Leases.StaleReleaseRobs`, `Leases.StaleScrubRobs`). A live lease that nobody
  releases from now on can be lost exactly when a delete of its row is already on its way, or a scrub
  listed the key with an earlier expiry (`Leases.RobbableIffExposed`); with no acquire granted between
  a read and its delete every handover waits for the expiry (`Leases.HandoverWaitsForExpiry`). Scrubs are
  invisible exactly when none deletes the row of a live lease (`Leases.ScrubsInvisibleIff`).
- A buffer size of 0 is documented as a synchronous handoff; the constructor replaces it by 64.
- `ListByPrefix` is documented to return every key that starts with the prefix, up to 1000. It
  matches with LIKE and does not escape the prefix, so it does so exactly for prefixes without
  percent sign, underscore and backslash (`KeyValue.LikeIsPrefixIff`).
- First write wins therefore depends on the project's name. A backslash hides the project's own
  entries (`GlossaryNames.OwnEntriesListedIffNoBackslash`, `GlossaryNames.BackslashLosesFirstWrite`);
  a wildcard lets other projects fill the 1000 rows: the glossaries of `a-b` and `a.b` together hide
  what `a_b` stored (`GlossaryNames.UnderscoreIsCrowdedOut`). In a given store a merge keeps what is
  stored exactly when the listing shows all own entries or 500 abbreviations
  (`Glossary.FirstWriteWinsIff`). Over all stores, with keys in code point order, the law holds for
  exactly the names without percent sign, underscore and backslash
  (`GlossaryNames.FirstWriteWinsIffLiteral`).
- The deduplication window is documented to report a key that was recorded within the window. A
  sighting reads the clock before it takes the lock, so another call can evict under a later clock in
  between, and the key is accepted again too soon (`DedupWindow.SweepCutsIn`). All answers are right
  exactly when that happens to no call (`DedupWindow.InterleavedAnswersMatchIff`).
- The reinforcement is documented as added each time a memory is retrieved. Every run after a
  retrieval adds it again, so from the second run on a survivor is stronger than one bonus explains
  (`Decay.BonusRepeats`).
- Glossary values are stored as JSON strings, but the reader only strips quotes, so an expansion
  comes back changed exactly when the encoder escaped something in it
  (`Glossary.ReadsBackIffNothingEscaped`).
- The cursor holds only a creation time, so the walk skips rows that share their time with the
  last row of a full page (`TimelinePaging.WalkCompleteIffEndsClean`).
- Claiming is documented to prevent double ingestion. Over a whole run no byte is claimed twice
  exactly when no claim follows a reset or deletion of the trace state that itself follows a claim
  (`TranscriptClaims.ClaimsDisjointIff`).
- Claimed transcript ranges tile the file, but a range that ends inside a line splits an entry,
  and a range of more than two mebibytes loses its tail
  (`TranscriptClaims.OnePassIffBoundariesSafe`).
- The key is documented as the hash of the concatenation of session, tool and canonical input;
  the code separates them by NUL bytes, which identifies the three parts exactly when none of them
  contains NUL (`CanonicalJson.UnambiguousIffNulFree`).
- The encoding is called RFC 8785-style. Member names come in the order of section 3.2.3 of RFC 8785
  exactly when no two of them first differ between a character from U+E000 to U+FFFF and one above
  U+FFFF (`CanonicalStandard.StandardOrderIff`); a string is spelled as section 3.2.2.2 demands exactly
  when it has none of `<`, `>`, `&`, U+2028 and U+2029 (`CanonicalStandard.StandardSpellingIff`).

## Model

| member | source | states |
|---|---|---|
| `EditDistance.LevIsShortestScript` | medha-api/internal/state/entity_dedup.go:143-151 | the recurrence is the length of a shortest chain of single-byte insertions, deletions and substitutions, and nothing else is |
| `EditDistance.LevTriangle` | medha-api/internal/state/entity_dedup.go:143-151 | triangle inequality |
| `EditDistance.LevSymmetric` | medha-api/internal/state/entity_dedup.go:143-151 | the distance is symmetric |
| `EditDistance.LevZero` | medha-api/internal/state/entity_dedup.go:143-151 | the distance is 0 exactly between equal strings |
| `EditDistance.LevBounds` | medha-api/internal/state/entity_dedup.go:143-151 | the distance lies between the length difference and the longer length |
| `EditDistance.Levenshtein` | medha-api/internal/state/entity_dedup.go:126-153 | for strings of at most 20 bytes the result is the length of a shortest edit script; otherwise 0 for equal strings and the constant 3 |
| `EditDistance.FillTable` | medha-api/internal/state/entity_dedup.go:134-152 | the two-dimensional table, filled in place, ends with the recurrence's value for the whole strings |
| `EditDistance.Min3` | medha-api/internal/state/entity_dedup.go:155-166 | the result is one of the three arguments and none is smaller |
| `EditDistance.FlaggedIffCloseAndShort` | medha-api/internal/state/entity_dedup.go:112-113 | a pair is flagged exactly when both names have at most 20 bytes and a shortest script has one or two edits; the shortcut value never causes a flag |
| `EditDistance.Store.UpsertSameAs` | medha-api/internal/state/entity_dedup.go:20-30 | a new pair is pending; a known one keeps its status, takes the larger confidence and the new match type |
| `EditDistance.Store.CheckAndFlagDuplicates` | medha-api/internal/state/entity_dedup.go:77-123 | the table afterwards is the old one with the exact rows and then the flagged fuzzy rows written in order, and the count is their number |
| `EditDistance.RecordKeepsReviews` | medha-api/internal/state/entity_dedup.go:20-30 | a whole check adds exactly the flagged pairs as pending, never changes a review status, never lowers a confidence and leaves all other pairs alone |
| `EditDistance.FuzzyFlagsAreClosePairs` | medha-api/internal/state/entity_dedup.go:109-119 | the fuzzy flags are exactly those of the candidates whose lower-cased names are short and one edit (confidence 0.9) or two edits (0.8) away |
| `EditDistance.FlagsAre` | medha-api/internal/state/entity_dedup.go:77-123 | flagged are exactly the exact rows, with confidence 0.98, and for names of at least three bytes the close candidates |
| `EditDistance.LastFlagNamesTheType` | medha-api/internal/state/entity_dedup.go:20-30 | a pair has the match type of the last flag written for it |
| `JsonLayout.ParseLayout` | medha-api/internal/dedup/window.go:67-68 | any laid-out document, with any whitespace, member order and escape spelling, parses to the document's value |
| `JsonText.ParsedIsPrinted` | medha-api/internal/dedup/window.go:67-68 | numbers in a parsed value are in the form in which they are printed |
| `CanonicalJson.SortStrings` | medha-api/internal/dedup/window.go:80-84 | the keys are sorted whatever order the map is iterated in |
| `CanonicalJson.SortingIsUnique` | medha-api/internal/dedup/window.go:80-84 | a set of keys has one sorting only |
| `CanonicalJson.MarshalCanonical` | medha-api/internal/dedup/window.go:77-120 | the appended bytes are the canonical text of the value, at every nesting depth |
| `CanonicalJson.RoundTrip` | medha-api/internal/dedup/window.go:77-120 | parsing canonical text gives the value back |
| `CanonicalJson.CanonicalIsInjective` | medha-api/internal/dedup/window.go:77-120 | two parsed values have the same canonical text exactly when they are equal |
| `CanonicalShape.CanonicalIsTheTidyText` | medha-api/internal/dedup/window.go:73-120 | every value has a layout without whitespace, with names in increasing order at every level, one spelling per character and printed numbers, and the text of any such layout is the canonical text |
| `CanonicalShape.TidyIsCanonical` | medha-api/internal/dedup/window.go:73-120 | a value has no second such layout |
| `CanonicalShape.ElementsAreCommaSeparated` | medha-api/internal/dedup/window.go:99-113 | the empty array is `[]`, and the last element follows the others behind a comma and nothing else |
| `CanonicalShape.MembersAreCommaSeparated` | medha-api/internal/dedup/window.go:77-98 | the empty object is `{}`, and the member of the greatest name follows the others behind a comma: quoted name, colon, value |
| `CanonicalShape.ScalarsAreVerbatim` | medha-api/internal/dedup/window.go:114-118 | null, booleans, numbers and strings without special characters are written as they are |
| `CanonicalJson.CanonicalJson` | medha-api/internal/dedup/window.go:41-74 | nothing becomes null, text that is not JSON is kept verbatim, anything else becomes the canonical text of its value |
| `CanonicalJson.MeaningIsKept` | medha-api/internal/dedup/window.go:41-74 | canonical text means what the raw text meant |
| `CanonicalJson.SameTextIffSameMeaning` | medha-api/internal/dedup/window.go:35-40 | two inputs get the same canonical text exactly when they mean the same |
| `CanonicalJson.CanonicalIsFixpoint` | medha-api/internal/dedup/window.go:41-74 | canonicalising twice is canonicalising once |
| `CanonicalJson.LayoutIsInvisible` | medha-api/internal/dedup/window.go:4-7 | member order, whitespace and escape spelling never change the canonical text, and different values always do |
| `CanonicalJson.ComputeKey` | medha-api/internal/dedup/window.go:21-33 | the hash is taken of session, NUL, tool, NUL and canonical input, written out |
| `CanonicalJson.PreimageIdentifies` | medha-api/internal/dedup/window.go:21-33 | with NUL-free session and tool names the hashed bytes agree exactly when session, tool and meaning of the input agree |
| `CanonicalJson.UnambiguousIffNulFree` | medha-api/internal/dedup/window.go:26-31 | over arbitrary strings the hashed bytes determine the three parts exactly when none of them contains NUL |
| `CanonicalStandard.OrdersDifferIff` | medha-api/internal/dedup/window.go:84 | byte order and the order of UTF-16 code units compare two names differently exactly when their first difference is between U+E000..U+FFFF and above U+FFFF |
| `CanonicalStandard.StandardOrderIff` | medha-api/internal/dedup/window.go:80-84 | the members of an object come in the order of section 3.2.3 of RFC 8785 exactly when no two names differ that way |
| `CanonicalStandard.StandardSpellingIff` | medha-api/internal/dedup/window.go:90 | a string is spelled as section 3.2.2.2 of RFC 8785 demands exactly when it has none of the five characters escaped for HTML |
| `MemoryQueue.Queue.constructor` | medha-api/internal/consolidation/queue_memory.go:25-36 | buffer size and retry limit with their defaults; the queue starts open with no dead jobs |
| `MemoryQueue.Queue.HandleOne` | medha-api/internal/consolidation/queue_memory.go:85-107 | the handler is called until it succeeds, the attempts are used up or the backoff is cancelled, at most max(1, Max - Attempt) times; exactly the exhausted job is dead-lettered, with its attempts on record |
| `MemoryQueue.HandlingIsARun` | medha-api/internal/consolidation/queue_memory.go:85-107 | every result of handling one job is a run of handler and backoff steps that leaves the consumer idle and the job settled that way |
| `MemoryQueue.StepMovesJobs` | medha-api/internal/consolidation/queue_memory.go:39-107 | an accepted send adds one job in one place; every other step leaves the number of places of every job unchanged |
| `MemoryQueue.JobsAreConserved` | medha-api/internal/consolidation/queue_memory.go:39-107 | in every interleaving each accepted job is in exactly one of buffered, in flight, acknowledged, dead-lettered and abandoned, and the buffer holds the not yet received jobs in send order within its bound |
| `QueueAcceptance.AcceptedIff` | medha-api/internal/consolidation/queue_memory.go:38-59 | a call on its own can get its job accepted, last and waiting in the buffer, exactly when the type is compress or consolidate and the queue is open with room; other types are invalid, valid ones refused on a closed queue |
| `QueueAcceptance.AcceptedIsAnswered` | medha-api/internal/consolidation/queue_memory.go:38-59 | over any run the accepted jobs are those of the calls that returned success, one each, and all of a known type |
| `QueueAcceptance.FirstJobCanBeHandled` | medha-api/internal/consolidation/queue_memory.go:64-107 | an idle consumer can take the job sent first and settle it with one successful call, and can return from a closed empty queue |
| `MemoryQueue.RetriesAreBounded` | medha-api/internal/consolidation/queue_memory.go:85-107 | a job accepted fresh was handed to the handler not at all while buffered, at most Max times in the handler or acknowledged, fewer than Max times in backoff or abandoned, and exactly Max times, with Attempt = Max, when dead-lettered |
| `MemoryQueue.OneConsumerWorksInSendOrder` | medha-api/internal/consolidation/queue_memory.go:62-83 | from an empty queue a lone consumer settles exactly job 0, job 1, job 2, ... in the order they were sent, every received one but the job in its hands, which is the last received |
| `MemoryQueue.NothingAcceptedAfterClose` | medha-api/internal/consolidation/queue_memory.go:118-131 | after a close no job is accepted any more and every later publish call is turned away |
| `MemoryQueue.ShutdownLosesNothing` | medha-api/internal/consolidation/queue_memory.go:70-83 | once all consumers returned from a drained queue, whatever is cancelled later, each accepted job was settled exactly once, and acknowledged or dead-lettered unless some consumer was cancelled before it returned |
| `MemoryQueue.CleanCloseNeverPanics` | medha-api/internal/consolidation/queue_memory.go:43-56 | no send hits a closed channel in a run whose closes never fall between a publisher's check and its send |
| `MemoryQueue.PanicIffCloseCutsIn` | medha-api/internal/consolidation/queue_memory.go:43-56 | after the close of an open queue some run, of any length, ends in a panic exactly when some publisher is between its check and its send at the close |
| `GraphTraversal.BfsTraverse` | medha-api/internal/search/graph.go:161-215 | the result maps exactly the nodes within the depth bound of a seed over undirected edges of the project with enough confidence, each to the length of a shortest walk, for any edges, row order and repeated seeds |
| `GraphTraversal.QueryEdges` | medha-api/internal/search/graph.go:175-192 | the rows are the edges of the project with enough confidence that touch the frontier at either end |
| `GraphTraversal.TraversalIffLayered` | medha-api/internal/search/graph.go:161-215 | the result is the map in which exactly the seeds have depth 0, every other node hangs by an edge that counts on one of the layer before, and every such edge at a node nearer than the bound is followed |
| `GraphTraversal.OwnTrustedEdgesAreFollowed` | medha-api/internal/search/graph.go:175-192 | for a named project each node found beyond the seeds is an end of an edge of that project with enough confidence, one layer further, and each such edge at a node nearer than the bound leads into the result |
| `GraphTraversal.OtherEdgesAreIrrelevant` | medha-api/internal/search/graph.go:177-179 | edges of other projects and edges with too little confidence change nothing |
| `GraphTraversal.ReachesIffWalk` | medha-api/internal/search/graph.go:168-213 | reaching a node hop by hop is the same as having a walk of that length |
| `GraphTraversal.NextLayer` | medha-api/internal/search/graph.go:196-212 | one round through the rows extends exact distances by one layer |
| `GraphTraversal.NothingFurther` | medha-api/internal/search/graph.go:168 | an empty frontier means that no walk of any length reaches anything new |
| `GraphSearch.Search` | medha-api/internal/search/graph.go:218-293 | nothing without a match; otherwise the first hits of a ranking in which every observation linked to a reached entity occurs once, scored by confidence and true distance |
| `GraphSearch.GatherScores` | medha-api/internal/search/graph.go:263-279 | exactly the linked observations get a score, the sum over their links of weight / (1 + distance), with 0.5 for a missing or zero confidence |
| `GraphSearch.LinkAdds` | medha-api/internal/search/graph.go:246-279 | a link of a reached entity adds its confidence, one half if there is none, over one more than its distance; other links add nothing |
| `GraphSearch.SeedsAreMatched` | medha-api/internal/search/graph.go:230-238 | the seeds are the matched entities, each with the confidence it was matched with last |
| `GraphSearch.FoundIffLinked` | medha-api/internal/search/graph.go:263-272 | found are exactly the observations named by links of reached entities |
| `GraphSearch.TraversalIsUnique` | medha-api/internal/search/graph.go:161-215 | the sets of edges and seeds determine the depth map |
| `GraphSearch.LinkOrderIsIrrelevant` | medha-api/internal/search/graph.go:264-279 | scores do not depend on the order of the link rows |
| `GraphSearch.StorageOrderIsIrrelevant` | medha-api/internal/search/graph.go:218-288 | neither the order of edges and links nor repeated edges change which observations are ranked or their scores |
| `GraphSearch.MatchOutweighsReachedIff` | medha-api/internal/search/graph.go:273-278 | a link of a matched entity adds more than any link of an entity merely reached exactly when the match's confidence is over a quarter, or zero |
| `TranscriptText.IngestTranscriptRange` | medha-api/cmd/hooks/transcript.go:35-76 | the texts are those decoded from the non-empty lines of the range, cut at two mebibytes and at the end of the file |
| `TranscriptText.TextsLineByLine` | medha-api/cmd/hooks/transcript.go:61-76 | a line up to the next newline gives its text if it is not empty and has one; the rest follows |
| `TranscriptClaims.TraceState.Claim` | medha-api/cmd/hooks/handlers.go:291-300 | the claim runs from the stored offset to the present file size and stores the latter, as in the interleaved model; without a readable transcript it is empty and nothing changes |
| `TranscriptClaims.TraceState.BeginSession` | medha-api/cmd/hooks/handlers.go:206-213 | startup, clear and an absent source reset turn, offset and injected ids; any other source keeps all three |
| `TranscriptClaims.NextClaimAfterBegin` | medha-api/cmd/hooks/handlers.go:206-213 | after startup, clear or no source the next claim starts at the front of the file, otherwise where the last one ended |
| `TranscriptClaims.ClaimsTile` | medha-api/cmd/hooks/handlers.go:287-335 | in every interleaving of appends, claims, ingests and resets the claims since the last reset tile the claimed part of the file, and each ingest, also of earlier claims, read its own range however late it ran |
| `TranscriptClaims.EveryByteClaimedOnce` | medha-api/cmd/hooks/handlers.go:283-286 | the bytes below the offset are exactly those of the claims since the last reset, each in one claim only |
| `TranscriptClaims.ClaimsDisjointIff` | medha-api/cmd/hooks/handlers.go:206-213 | over a whole run, resets and deletions included, no two claims share a byte exactly when no claim follows a reset that itself follows a claim |
| `TranscriptText.EntriesJoin` | medha-api/cmd/hooks/transcript.go:62-65 | cutting bytes at a newline keeps the non-empty lines; any other cut makes one more of them |
| `TranscriptText.PiecesSeeAllEntries` | medha-api/cmd/hooks/transcript.go:51-65 | reading the capped pieces sees the lines of the whole exactly when every inner boundary touches a newline and the cap cut off nothing but newlines |
| `TranscriptClaims.OnePassIffBoundariesSafe` | medha-api/cmd/hooks/transcript.go:31-76 | the texts taken claim by claim are those of one pass over the file, for every line decoder, exactly when all boundaries are safe |
| `TranscriptClaims.WholeLinesAreNeverSplit` | medha-api/cmd/hooks/transcript.go:31-34 | after any interleaving, the claims since the last reset, if they end on a newline and hold at most two mebibytes, give the texts of one pass |
| `ActionPlan.Frontier` | medha-api/internal/state/orchestration.go:78-104 | the rows returned are the pending ones all of whose dependencies are known and completed, in listing order; with one row per id their ids are the frontier of the plan the rows describe |
| `ActionPlan.ClaimableMeansUnblocked` | medha-api/internal/state/orchestration.go:78-104 | with one row per id a row is returned exactly when it is pending and each dependency names a completed row |
| `ActionPlan.FrontierIgnoresOrder` | medha-api/internal/state/orchestration.go:83-102 | the ids returned for rows that agree with a plan are those of its frontier among them, in whatever order the rows are listed |
| `ActionPlan.PlanHoldsRows` | medha-api/internal/state/orchestration.go:83-86 | with one row per id the map built from the rows holds exactly their actions |
| `ActionPlan.FrontierNonEmpty` | medha-api/internal/state/orchestration.go:76-104 | an unblocked acyclic plan with something pending has something claimable |
| `ActionPlan.CompleteKeepsFrontier` | medha-api/internal/state/orchestration.go:76-104 | completing one claimable action leaves every other one claimable |
| `ActionPlan.OrderIsTopological` | medha-api/internal/state/orchestration.go:76-104 | working through the frontier in any order meets every dependency first and takes no action twice |
| `ActionPlan.AnyOrderFinishes` | medha-api/internal/state/orchestration.go:76-104 | however the next action is picked, an unblocked acyclic plan never gets stuck and is done after exactly as many steps as actions were pending |
| `ActionPlan.FinishableIffUnblockedAndAcyclic` | medha-api/internal/state/orchestration.go:76-104 | a plan can be worked off exactly when no pending action waits for something neither pending nor completed and no pending actions wait for each other in a circle |
| `ActionPlan.Store.Crystallize` | medha-api/internal/state/orchestration.go:379-421 | the found sources are retired into the summary; the summary, completed, without dependencies, with the found titles joined, is added and returned; all other actions are unchanged |
| `ActionPlan.FrontierAfterCrystallize` | medha-api/internal/state/orchestration.go:377-378 | sources leave the frontier, nothing else does, exactly the actions that waited for sources enter, and with completed sources it stays the same |
| `Leases.Store.AcquireLease` | medha-api/internal/state/orchestration.go:119-171 | missing ids are rejected; another holder's live lease refuses; otherwise the lease row is replaced by the new grant |
| `Leases.Store.ReleaseLease` | medha-api/internal/state/orchestration.go:174-190 | run without interference, the row goes if it is the caller's, unowned, or the caller names nobody; a missing row is fine; another's row stays |
| `Leases.ReleaseAlone` | medha-api/internal/state/orchestration.go:179-189 | reading and then deleting, with nothing in between, is that release |
| `Leases.Store.ScrubLeases` | medha-api/internal/state/orchestration.go:440-464 | run without interference, exactly the listed rows past their expiry go, and their number is returned |
| `Leases.ScrubAlone` | medha-api/internal/state/orchestration.go:446-462 | listing, comparing and then deleting row by row, with nothing in between, is that scrub |
| `Leases.ScrubRemovesOwnExpired` | medha-api/internal/state/orchestration.go:440-464 | for a project name without special characters a scrub that lists all its rows removes exactly those under its prefix that expired before |
| `Leases.HandoverWaitsForExpiry` | medha-api/internal/state/orchestration.go:114-146 | from any state and with any calls under way: after a grant no other holder is granted before the time asked for, ten minutes if none was, is over unless it was released by its holder or without naming one, or a delete followed an acquire granted since its read |
| `Leases.GrantedIff` | medha-api/internal/state/orchestration.go:119-143 | an acquire is granted exactly when it names a holder and the key is free, expired or held by the same holder |
| `Leases.GrantedFromExpiryOn` | medha-api/internal/state/orchestration.go:123-158 | with nothing in between another holder is granted exactly from that time on, and the holder itself at any time |
| `Leases.RobbableIffExposed` | medha-api/internal/state/orchestration.go:174-190 | a live lease can be taken over before it expires, without being released from now on, exactly when a delete of its row is on its way or a scrub listed the key with an earlier expiry |
| `Leases.StaleReleaseRobs` | medha-api/internal/state/orchestration.go:179-189 | the failing interleaving of a release: read, expiry, another acquire, delete, and a third holder is granted the key |
| `Leases.StaleScrubRobs` | medha-api/internal/state/orchestration.go:446-458 | the failing interleaving of a scrub |
| `Leases.ScrubsInvisibleIff` | medha-api/internal/state/orchestration.go:437-464 | at no point of a run can an acquire tell that there are scrubs, exactly when no scrub deletes the row of a live lease (in runs without overtaken releases) |
| `Leases.ScrubsAreInvisible` | medha-api/internal/state/orchestration.go:437-439 | scrubs inserted anywhere change no outcome as long as no acquire of a key is granted between a read of its row and the delete that follows |
| `DedupWindow.Window.constructor` | medha-api/internal/dedup/store.go:38-48 | empty window; a non-positive duration becomes five minutes |
| `DedupWindow.Window.Seen` | medha-api/internal/dedup/store.go:52-82 | the answer and the new buckets: unexpired keys are duplicates and change nothing, others are recorded, oversized buckets lose their expired entries |
| `DedupWindow.Window.EvictExpired` | medha-api/internal/dedup/store.go:100-112 | exactly the expired entries go, and their number is returned |
| `DedupWindow.Window.Sweep` | medha-api/internal/dedup/store.go:86-98 | every bucket loses exactly its expired entries, empty buckets go, and the count is the loss |
| `DedupWindow.Window.Size` | medha-api/internal/dedup/store.go:115-123 | the number of session and key pairs held |
| `DedupWindow.AnswersMatchMemoryIff` | medha-api/internal/dedup/store.go:50-112 | for calls in the order in which they take the lock, with any clock values: each answer is that of a map that never evicts, exactly when no call finds the entry evicted by an earlier one under a later clock |
| `DedupWindow.AcceptedSightingsAreApartIff` | medha-api/internal/dedup/store.go:50-51 | two accepted sightings of a key in a session are always at least the duration apart, exactly when no call is so overtaken |
| `DedupWindow.AcceptedIffApart` | medha-api/internal/dedup/store.go:50-82 | as long as no call was overtaken a sighting is accepted exactly when each accepted one of its key in its session is at least the duration back |
| `DedupWindow.InOrderAnswersMatch` | medha-api/internal/dedup/store.go:57-58 | calls that take the lock in the order of their clocks answer like that map and keep the distance |
| `DedupWindow.InterleavedAnswersMatchIff` | medha-api/internal/dedup/store.go:57-89 | in every interleaving of clock readings, locked parts and sweeps the answers are those of the map exactly when no other call reads a later clock, takes the lock and evicts the entry between a call's clock reading and its lock |
| `DedupWindow.SweepCutsIn` | medha-api/internal/dedup/store.go:57-89 | the failing interleaving: a sweep between reading the clock and taking the lock lets a key be recorded twice less than the duration apart |
| `DedupWindow.BucketIsBounded` | medha-api/internal/dedup/store.go:31-33 | whatever the order of the clocks, after a recording call a bucket has at most 256 entries or only as many as keys were recorded within the last duration |
| `RateLimiter.NewPolicy` | medha-api/internal/api/ratelimit.go:26-38 | no limiter for a non-positive rate; a non-positive window becomes one minute |
| `RateLimiter.Limiter.Allow` | medha-api/internal/api/ratelimit.go:75-96 | the answer and the new buckets: create full, refill when a window has passed, then take a token if there is one |
| `RateLimiter.RatePerWindow` | medha-api/internal/api/ratelimit.go:74-96 | of the requests in the window after a key's first request, or its first due one, exactly the first `rate` are allowed |
| `RateLimiter.OtherTrafficIsIrrelevant` | medha-api/internal/api/ratelimit.go:9-11 | requests of other keys change no answer |
| `RateLimiter.IntervalBound` | medha-api/internal/api/ratelimit.go:75-96 | in any stretch of length L of any run at most rate * (floor(L / window) + 2) - 1 requests of a key pass |
| `RateLimiter.ShortIntervalBound` | medha-api/internal/api/ratelimit.go:75-96 | in less than a window at most 2 * rate - 1 pass |
| `RateLimiter.BoundIsAttained` | medha-api/internal/api/ratelimit.go:85-90 | for every rate, every window of at least two ticks and every number of windows some run lets exactly the bound through |
| `RateLimiter.DocumentedLimitIff` | medha-api/internal/api/ratelimit.go:9-10 | every stretch shorter than a window of every run lets at most `rate` requests of a key pass exactly when the rate is one or the window is a single tick |
| `RateLimiter.OverrunNeedsRefill` | medha-api/internal/api/ratelimit.go:85-90 | a stretch of any length lets more than `rate` requests of a key pass only if the key's bucket is refilled after its first request there |
| `RankFusion.RrfFuse` | medha-api/internal/search/rrf.go:16-33 | every listed id once, with the sum of its reciprocal ranks, best first |
| `FusionLaws.ScoreInOneList` | medha-api/internal/search/rrf.go:21-25 | an id at rank i of one duplicate-free list scores 1 / (k + i + 1) |
| `FusionLaws.ScoreInTwoLists` | medha-api/internal/search/rrf.go:21-25 | an id in two lists scores the sum |
| `FusionLaws.TwoListsBeatOneIff` | medha-api/internal/search/rrf.go:16-33 | in the result an id at rank j of two lists is ahead of one at rank i of a single list exactly when 2 * (k + i + 1) > k + j + 1, where k is 60 unless positive |
| `FusionLaws.ProvenanceScales` | medha-api/internal/search/rrf.go:150-163 | a hit labelled user leaves with twice its score, an episode with seven tenths, any other unchanged |
| `FusionLaws.UserOutranks` | medha-api/internal/search/rrf.go:147-149 | a user's memory is ahead of an extracted one with less than twice its score, and of an episode with less than twenty sevenths |
| `FusionLaws.RecencyBonusHalves` | medha-api/internal/search/rrf.go:98-116 | the bonus is the weight for a new hit and halves with each half-life, seven days unless positive; without a positive weight there is none |
| `FusionLaws.RecencyScales` | medha-api/internal/search/rrf.go:246-258 | hits of known age are scaled by their bonus, others are not |
| `FusionLaws.RerankingReplacesTheTop` | medha-api/internal/search/rrf.go:262-286 | the reranker sees the first 30 hits, or the number configured; an answer replaces the list, none or an empty one leaves it |
| `FusionLaws.NothingBeyondThePool` | medha-api/internal/search/rrf.go:268-271 | with a faithful reranker that answers, nothing from beyond its pool is found |
| `FusionLaws.NothingIsLost` | medha-api/internal/search/rrf.go:165-298 | without reranker and cap, and with room for all, exactly what some engine found is returned |
| `RankFusion.SortIsStable` | medha-api/internal/search/rrf.go:31 | the sort never swaps two hits unless the later one scores strictly higher |
| `RankFusion.SortKeepsIds` | medha-api/internal/search/rrf.go:31 | the sort keeps the hits, their number and their distinctness |
| `RankFusion.ListOrderIsIrrelevant` | medha-api/internal/search/rrf.go:20-26 | fused scores do not depend on the order of the lists |
| `RankFusion.DominanceScoresHigher` | medha-api/internal/search/rrf.go:10-15 | a hit ranked ahead of another in every list that has the other scores strictly higher |
| `RankFusion.BoostAndSort` | medha-api/internal/search/rrf.go:231-238 | every score is multiplied by the factor of its id, if it has one, and the list is sorted again |
| `RankFusion.RecencyFavoursYoung` | medha-api/internal/search/rrf.go:97-115 | the recency factor is at least 1 and does not grow with age |
| `RankFusion.EqualFactorsKeepOrder` | medha-api/internal/search/rrf.go:231-262 | a boost keeps the order of hits with equal factors |
| `RankFusion.EqualStandingKeepsFusedOrder` | medha-api/internal/search/rrf.go:212-262 | hits with equal provenance and recency factors leave both boosts in their fused order |
| `RankFusion.DiversityBoost` | medha-api/internal/search/rrf.go:38-52 | the output is the hits preceded by fewer than the cap of their non-empty group, in order; without a cap or a lookup it is the input |
| `RankFusion.DiverseGroupSize` | medha-api/internal/search/rrf.go:44-50 | of every non-empty group as many hits are kept as there are, up to the cap |
| `RankFusion.DiverseIsIdempotent` | medha-api/internal/search/rrf.go:35-52 | capping twice is capping once |
| `RankFusion.DiverseIsSubsequence` | medha-api/internal/search/rrf.go:44-50 | kept hits come from the input, in input order and without new repetition |
| `RankFusion.HybridSearch` | medha-api/internal/search/rrf.go:160-298 | the result is the pipeline applied to some fusion of the engine lists, and empty without any list |
| `RankFusion.SearchGuarantees` | medha-api/internal/search/rrf.go:289-297 | at most `limit` results and no non-empty group over its cap; with a reranker that returns distinct candidates, or none, also no repeated id and only ids from engine lists |
| `ViewerHub.Hub.Subscribe` | medha-api/internal/viewer/hub.go:53-71 | below the limit a fresh open channel is registered; at the limit the channel comes closed and nothing else changes |
| `ViewerHub.Hub.Unsubscribe` | medha-api/internal/viewer/hub.go:64-70 | a registered channel is removed and closed; a second call does nothing |
| `ViewerHub.Hub.Publish` | medha-api/internal/viewer/hub.go:76-89 | each registered channel gets the event once if its buffer has room and is unchanged otherwise |
| `ViewerHub.PublishIsARun` | medha-api/internal/viewer/hub.go:80-88 | a publish call on its own is a run of steps that offers the event once to every client, in any order, and to nobody else |
| `ViewerHub.SubscribersAreAddressed` | medha-api/internal/viewer/hub.go:53-71 | a subscriber is registered exactly when there is no positive limit or it is not reached, and a publish call addresses all registered clients |
| `ViewerHub.HubNeverFaults` | medha-api/internal/viewer/hub.go:53-89 | in every interleaving no channel is closed twice or sent to after its close, and a positive client limit is kept |
| `ViewerHub.EveryClientServedOnce` | medha-api/internal/viewer/hub.go:74-89 | once a publish call is over each client it started with got the event exactly once or lost it while its buffer was full, and nobody else got it |
| `ViewerHub.AuthorsOrderIsKept` | medha-api/internal/viewer/hub.go:80-88 | each client gets one publisher's events in the order in which they were published |
| `KeyValue.ListByPrefix` | medha-api/internal/state/kv.go:134-153 | the rows returned match the pattern; all matching rows are returned when there are at most 1000, otherwise the 1000 with the least keys in the database's order |
| `KeyValue.LikeSelectsPrefix` | medha-api/internal/state/kv.go:132-138 | a prefix without a backslash selects every key that starts with it |
| `KeyValue.LikeIsPrefixIff` | medha-api/internal/state/kv.go:132-138 | the pattern selects exactly the keys that start with the prefix exactly when the prefix has no percent sign, underscore or backslash |
| `KeyValue.ListedIffAhead` | medha-api/internal/state/kv.go:136-137 | a row is returned exactly when it is selected and fewer than 1000 selected rows come ahead of it |
| `KeyValue.LikeByFirst` | medha-api/internal/state/kv.go:136-137 | a percent sign in front of a pattern skips any number of characters, an underscore one, a backslash takes the next character as it is |
| `KeyValue.KeyParts` | medha-api/internal/state/kv.go:70-83 | keys are scope, project and id separated by colons, empty parts left out |
| `Glossary.EntryKeyInjective` | medha-api/internal/state/glossary.go:39-42 | two storable entries have the same key exactly when project and abbreviation agree |
| `Glossary.PrefixMeetsOnlySubprojects` | medha-api/internal/state/glossary.go:32-37 | reading project p meets an entry of project q exactly when q is p or starts with p and a colon, or p has no name |
| `Glossary.TrimIsStable` | medha-api/internal/state/glossary.go:119-120 | trimming twice is trimming once, so the check sees what is stored |
| `Glossary.TrimCutsSpaces` | medha-api/internal/state/glossary.go:119-120 | trimming cuts spaces from both ends and nothing else |
| `Glossary.StoredIff` | medha-api/internal/state/glossary.go:54-79 | a pair is stored exactly when its trimmed abbreviation has 2 to 16 characters and no separator, its expansion at most 200, more bytes and not the same letters, and the listing shows neither the abbreviation nor 500 others |
| `Glossary.ValidIsStorable` | medha-api/internal/state/glossary.go:54-66 | an accepted abbreviation is non-empty and holds no separator |
| `Glossary.Store.GetGlossary` | medha-api/internal/state/glossary.go:83-100 | the glossary holds exactly the abbreviations of the listed keys with their values as read back |
| `Glossary.GlossaryInFields` | medha-api/internal/state/glossary.go:39-52 | an abbreviation is in the glossary exactly when the listing has the row of scope, project and abbreviation, with that row's value as read back |
| `Glossary.Store.MergeGlossary` | medha-api/internal/state/glossary.go:107-138 | the rows and the count are those of offering the pairs one by one in some order |
| `Glossary.MergeKeepsStore` | medha-api/internal/state/glossary.go:102-137 | a merge whose listing shows all own entries, or 500 abbreviations, changes no stored row, returns the growth, leaves other projects alone and keeps every row valid and every glossary within 500 |
| `Glossary.FirstWriteWinsIff` | medha-api/internal/state/glossary.go:102-137 | in any sound store and for any listing, no offered pairs change a stored expansion exactly when the listing shows all own entries or 500 abbreviations |
| `Glossary.FirstWriteWins` | medha-api/internal/state/glossary.go:102-106 | over any run of such merges on any projects stored values never change, stored pairs are valid and no glossary exceeds 500 |
| `Glossary.LiteralNamesAreShown` | medha-api/internal/state/glossary.go:111-129 | every run of merges on names without percent sign, underscore and backslash is such a run, with no limit on the rows selected |
| `Glossary.UncutSuffices` | medha-api/internal/state/kv.go:136-137 | for a name without a backslash a listing that is not cut off shows all own entries |
| `GlossaryNames.FirstWriteWinsIffLiteral` | medha-api/internal/state/glossary.go:102-106 | with keys in code point order, first write wins in all sound stores for exactly the names without percent sign, underscore and backslash |
| `GlossaryNames.UnderscoreIsCrowdedOut` | medha-api/internal/state/kv.go:136-137 | 500 entries each of `a-b` and `a.b` hide the entry of `a_b`, and a merge overwrites it |
| `GlossaryNames.HiddenOrCrowded` | medha-api/internal/state/kv.go:136-137 | a pattern with a special character either matches none of its own keys or has two fillings that come ahead of all of them |
| `GlossaryNames.OwnEntriesListedIffNoBackslash` | medha-api/internal/state/kv.go:136-137 | a project without a percent sign in its name sees its own entries exactly when its name has no backslash |
| `GlossaryNames.BackslashLosesFirstWrite` | medha-api/internal/state/glossary.go:111-133 | with a backslash and no percent sign in the name a merge overwrites whatever is stored |
| `Glossary.ReadsBackIffNothingEscaped` | medha-api/internal/state/glossary.go:96-97 | a stored expansion reads back unchanged exactly when the encoder escaped nothing in it |
| `Decay.Engine.Run` | medha-api/internal/consolidation/decay.go:74-147 | the store afterwards is the decayed one without the evicted rows, and the report counts evaluated, evicted and updated rows |
| `Decay.RunInFields` | medha-api/internal/consolidation/decay.go:78-133 | other tiers, user-written and superseded rows are left alone; any other gets its reinforced strength times the rate to its age and goes exactly when that is below the threshold |
| `Decay.EvaluateOne` | medha-api/internal/consolidation/decay.go:109-124 | one row's new strength: reinforced when retrieved later, faded by its exact age, never negative |
| `Decay.FadeIsPower` | medha-api/internal/consolidation/decay.go:121 | fading tick by tick is multiplying by the power of the rate |
| `Decay.FadeByDays` | medha-api/internal/consolidation/decay.go:117-121 | over whole days the rate per tick gives the powers of the configured daily rate |
| `Decay.RunKeepsRange` | medha-api/internal/consolidation/decay.go:96-133 | strengths stay between 0 and 1, and surviving decayed rows are at or above the threshold and no stronger than before (after reinforcement) |
| `Decay.DecayCompounds` | medha-api/internal/consolidation/decay.go:117-121 | a memory never retrieved that survives runs at any times, at ages d1, ..., dn, has strength s * rate^(d1 + ... + dn) |
| `Decay.DocumentedLawIff` | medha-api/internal/consolidation/decay.go:49-50 | over runs at any times a survivor never exceeds the documented law, and meets it exactly when its strength is zero, the rate is one, the rate is zero at a positive age, or every run before the last found it without age |
| `Decay.DailyRunsOverDecay` | medha-api/internal/consolidation/decay.go:49-50 | under daily runs the strength equals the documented law after one run and is strictly below it from the second on |
| `Decay.EvictedWithin` | medha-api/internal/consolidation/decay.go:126-128 | under daily runs a memory never retrieved is gone after n runs as soon as 1 + n(n+1)/2 * (1 - rate) exceeds 1 / threshold |
| `Decay.EvictionIsCertain` | medha-api/internal/consolidation/decay.go:126-128 | for a rate below one and a positive threshold such an n always exists |
| `Decay.BonusRepeats` | medha-api/internal/consolidation/decay.go:110-116 | a retrieved memory that survives runs after its retrieval is at least as strong as one bonus and the ages of the runs give, and exactly so strong after one run only |
| `Decay.OldMemoriesAreEvicted` | medha-api/internal/consolidation/decay.go:110-128 | retrieved or not, a memory is gone after any runs of which one came n days after its creation or last retrieval, as soon as 1 + n * (1 - rate) exceeds 1 / threshold |
| `Decay.OnlyRetrievalKeeps` | medha-api/internal/consolidation/decay.go:126-128 | for a rate below one and a positive threshold one such n serves all memories and all runs |
| `TimelinePaging.Timeline` | medha-api/internal/state/timeline.go:36-113 | the first `limit` rows of some chronological ordering of the matching rows, rows of equal time in any order |
| `TimelinePaging.List` | medha-api/internal/api/timeline.go:24-59 | one page of such an ordering, and its last time as cursor exactly when the page is full |
| `TimelinePaging.ListedIffAllFiltersMatch` | medha-api/internal/state/timeline.go:36-113 | a row is listed as often as it is stored if it passes each filter that is given, and not at all otherwise |
| `TimelinePaging.SortedIsAscending` | medha-api/internal/state/timeline.go:90 | a chronological ordering exists that loses and adds nothing |
| `TimelinePaging.AfterIsSuffix` | medha-api/internal/state/timeline.go:69-72 | asking for later rows gives an ordering of the full list without its front |
| `TimelinePaging.WalkCompleteIffEndsClean` | medha-api/internal/api/timeline.go:51-54 | following the cursor, whatever order the database gives rows of equal time in each request, yields rows in chronological order, and every matching row once exactly when no page end falls between rows of equal time; it then takes floor(n / limit) + 1 requests |
| `TimelinePaging.DistinctTimesAreComplete` | medha-api/internal/api/timeline.go:51-54 | with distinct creation times every walk yields the one chronological list, in floor(n / limit) + 1 requests |
| `TimelinePaging.WalkExists` | medha-api/internal/api/timeline.go:51-54 | every filter and limit admits a walk |
| `EntityMerge.Merge` | medha-extraction/medha/extraction/pipeline.py:50-78 | the list after merging each new entity into place, with the index kept up to date |
| `EntityMerge.Extract` | medha-extraction/medha/extraction/pipeline.py:41-47 | the stages' results merged one after the other |
| `EntityMerge.OneRecordPerNameAndType` | medha-extraction/medha/extraction/pipeline.py:50-78 | no two records agree in lower-cased name and type, each was extracted, and none extracted is more confident than the record of its name and type |
| `EntityMerge.StagesDoNotMatter` | medha-extraction/medha/extraction/pipeline.py:41-47 | merging stage by stage is one merge of all results in order |
| `EntityMerge.PipelineKeepsBest` | medha-extraction/medha/extraction/pipeline.py:50-51 | every key of any stage comes out once, in the order of first appearance, as the earliest of its most confident records |

## Left out

- JSON input that is not well-formed UTF-8, and the decoder's limit on nesting depth.
- Printing of doubles: `shortest`, reading a literal and printing it back, is a parameter that must print what it reads back.
- Tool inputs that arrive as other values than raw JSON; they are marshalled first.
- SHA-256 is an arbitrary function; collisions of the hash itself are not modelled.
- Store.CheckAndFlagDuplicates: the two candidate queries and their limits of 10 and 20 rows are inputs, and lower-casing is a parameter.
- Creation and review times of similar-name pairs.
- Queue.HandleOne: the backoff delays; a cancelled context is a parameter.
- Waiting of `Close` for jobs in flight, a nil handler, and the payload of a job.
- Search: matching entities to the query and reading the observation id out of a link record are inputs; database errors are left out everywhere.
- IngestTranscriptRange: joining the texts, the cap of 8000 runes, and reading one line, which is a parameter.
- Locks on a deleted lock file, failing writes of the trace state, and sessions without an id, which claim nothing: a claim is one atomic step.
- The 1000-row cap of the action listing, sketches that share the actions' rows, and signals, routines and checkpoints.
- Store.AcquireLease: its transaction is one atomic step; stored lease rows always decode.
- Store.MergeGlossary: merges run one after the other, though the original lists first and writes later; a failing write ends the merge early.
- Store.Crystallize: no other call changes the actions between its reads and its writes.
- Case folding in the glossary check is a parameter that equates only strings of the same number of characters.
- The collation of the database is a parameter; the law on names fixes it to code point order.
- Floating-point rounding, everywhere; the existence of a root of the decay rate per tick of the clock; the exponential in the recency boost, which is any positive falling function.
- Expiry of working and episodic observations in a decay run, and failing updates.
- The engines' answers, provenance and time lookups, reranking and group lookup: they are inputs of the search.
- HybridSearch: routing to a single engine by mode, and the default limit of 10.
- Timeline: a file filter is membership, without its JSON quoting.
- Merge: the union of source observation ids, which the original stores under an alias and not in the field.
- Hub.Publish: the default timestamp of an event, and the counters and logs of the hub.
- HTTP, WebSocket and MCP plumbing, configuration and dashboards: no state worth a proof.
