# Simard in Dafny

A Dafny model of the algorithmic core of Simard, a Rust agent runtime: hybrid knowledge
retrieval, the concurrent cost ledger, the fact write gate, snapshots and curated state with
crashes, the access-control guard, the evaluation watchdog, the turn parser and the done-criteria
detector. Each file is one module; `Text`, `Sequences`, `Citation`, `Sums` and
`Sorting` hold what several of them share.

`dafny verify dfyconfig.toml` checks the project.

## What is modelled, and under which assumptions

* **Retrieval** (`LikePattern`, `GraphWalk`, `Fusion`, `HybridRank`, `Vectors`). Tables are
  sequences of rows, queries succeed on well-typed rows and return them in any order; scores and
  vectors are over the reals, with a square root given by its defining equation.
* **Ledger** (`CostLedger`). Writers are interleaved lock, partial-write, failure and unlock steps
  over one file. The serializer emits no raw newline and has an inverse. Token totals wrap at 64
  bits.
* **Write gate** (`ConceptLabel`, `FactGate`, `FactRules`). The character tables (alphanumeric,
  lower case) are parameters; the memory backend may match queries in any way and scans may fail.
  A run is any sequence of commits.
* **Durable state** (`Snapshots`, `CuratedState`). A rename is atomic; a crash or a failed write
  can stop an import or a save at every point; snapshot and collection texts parse back.
* **Guards and parsers** (`AclVerdict`, `AclForms`, `ScopedGrant`, `Watchdog`, `TurnParser`,
  `DoneCriteria`). Closures are given by how they end (success, error or panic), and a panic raised
  by a destructor during an unwind aborts the process. Hash-map iteration order is unspecified.
  Where a module depends on a large table (whitespace, headings, announcements), its main results
  hold for every table with a few listed properties, and a lemma shows that the program's own table
  has them (`ShippedIsFit`, `ShippedRulesStable`).

Lower-casing is the ASCII one, as in the source, except where a module says otherwise. Loops of
the source are loops here, objects that the source updates are classes, and each such method is
proved against a function or a predicate; what that function computes is then stated without it,
in terms of the inputs alone.

## Where the code does not do what one might expect

* **The cited URL depends on row order.** When one candidate has several best rows with different
  URLs, the first one wins (`UrlCanDependOnRowOrder`). Scores and ranks never depend on it, and the
  URL does not exactly when the best rows leave one outcome (`UrlIgnoresRowOrderIff`).
* **Bucket order can decide the watchdog's verdict.** The identical-scores check compares with the
  newest score of whichever bucket comes first, within the machine epsilon
  (`BucketOrderCanDecide`). `BucketOrderMattersIff` gives the exact condition, and
  `SeparatedScoresIgnoreBucketOrder` the separation that rules it out. A window of zero fires
  with empty counts when no scenario is demanded (`ZeroWindow`).
* **A done-gate repair can go unnoticed.** The marker is looked for within the first 8192
  characters only, so a long description defeats the repair (`RepairCanFail`); `RepairWorksIff`
  gives the exact condition.
* **File-name order is epoch order only for equal digit counts** (`NameOrderCanInvert`,
  `NameOrderIff`).
* **A revoke closure that panics during an unwind leaves outer grants in place**, because the
  process aborts (`OuterGrantCanLeak`). In any state with a live grant, a scope is safe around
  every body whose own revokes return exactly when its revoke does not panic (`NestingIsSafeIff`).
* **Pruning can lose the only snapshot that loads** (`PruneCanLoseLatest`). `PruneKeepsLatestIff`
  says exactly when it cannot.
* **A torn append takes the next record with it.** A record appended after a torn one is glued to
  the torn text and no longer parses, although its own append succeeded (`TornAppendLosesNext`).
  `ReadIsSurvivors` says exactly which records are read back.
* **Moving a method option past other tokens can hide a mutating phrase** (`MovingPairCanMatter`),
  whereas reordering method options among their places cannot (`VerdictIgnoresPairOrder`).
* **The token estimate rounds up except for the last lengths a 64-bit count can hold**, where the
  addition saturates (`EstimateRoundsUpIff`). A word cap of zero acts as a cap of one
  (`DistinctInformativeWords`).

## Model

| member | source | states |
|---|---|---|
| LikePattern.LikeContainsPattern | src/native_knowledge.rs:256-267 | the loop builds the `%keyword%` pattern with every `%`, `_` and escape character of the keyword escaped |
| LikePattern.PatternIsLiteralSubstring | src/native_knowledge.rs:245-267 | for every keyword and text, the LIKE matcher with ESCAPE accepts the text on the generated pattern exactly when the keyword stands in it literally, up to case folding |
| LikePattern.ScoreCountsLiteralHits | src/native_knowledge.rs:341-363 | the projected score is twice the keywords that stand literally in the title plus those in the content, and a row is selected exactly when its score is positive |
| GraphWalk.WithinIsPathDistance | src/native_knowledge.rs:688-780 | the inductive "within k hops" is reachability of an existing entity from a seed by a path of at most k relationships, in either direction |
| GraphWalk.WithinStable | src/native_knowledge.rs:719-722 | once a hop discovers nothing, stopping early loses nothing: no later hop would discover anything and all edges are already collected |
| GraphWalk.FetchEdges | src/native_knowledge.rs:593-616 | exactly the relationships with an endpoint among the ids |
| GraphWalk.FetchEntitiesById | src/native_knowledge.rs:622-646 | exactly the entities whose id is among the ids |
| GraphWalk.CollectSeeds | src/native_knowledge.rs:706-712 | each seed id is known once, with a row of the table, and listed once, in order of first appearance |
| GraphWalk.CollectHop | src/native_knowledge.rs:723-740 | the edges stay distinct and gain exactly the hop's edges; the new ids are exactly the unknown endpoints |
| GraphWalk.AddNeighbours | src/native_knowledge.rs:741-749 | the known entities gain exactly the fetched ones, the order is extended by the new frontier, and nothing is listed twice |
| GraphWalk.Hop | src/native_knowledge.rs:719-750 | one hop takes "all within h explored" to "all within h + 1 explored": known entities, frontier, layered order and edges |
| GraphWalk.Walk | src/native_knowledge.rs:702-750 | the walk is exact: the known ids are the entities within the bound, `order` lists each once in nondecreasing distance starting with the seeds as they were ranked, and the edges are exactly the distinct relationships that touch an entity nearer than the bound |
| GraphWalk.QueryGraphScored | src/native_knowledge.rs:688-780 | no signal exactly when no seed matched; otherwise the first `limit` entities in walk order, each with its name as title, its type or `entity` as section, its URL and its rank score |
| GraphWalk.ScoreIsReciprocalRank | src/native_knowledge.rs:752-764 | the score times the rank is one |
| GraphWalk.NearerScoresHigher | src/native_knowledge.rs:752-777 | an entity nearer to the seeds scores strictly above a farther one, and all scores are positive |
| Fusion.MaxIsMax | src/native_knowledge.rs:1128-1131 | the fold is the largest raw score, or zero when none is positive |
| Fusion.BestIsHighest | src/native_knowledge.rs:1132-1149 | the row a candidate collapses to is one of its rows with the highest raw score |
| Fusion.ContributionBounded | src/native_knowledge.rs:1122-1164 | with nonnegative scores a signal gives a candidate between nothing and its weight, and its best candidate exactly its weight |
| Fusion.ContributionIgnoresRowOrder | src/native_knowledge.rs:1122-1164 | permuting or duplicating rows inside a signal changes neither its maximum, its candidates nor any contribution |
| Fusion.SurfacedIff | src/native_knowledge.rs:1128-1131 | a signal puts a candidate forward exactly when it has a row of it and some positive score |
| Fusion.ContributionIsShare | src/native_knowledge.rs:1150-1163 | a candidate's contribution times the signal's highest raw score is the weight times the candidate's highest raw score |
| Fusion.ContributionsAreProportional | src/native_knowledge.rs:1150-1163 | within a signal the contributions of any two candidates are proportional to their highest raw scores |
| Fusion.TotalIgnoresSignalOrder | src/native_knowledge.rs:1122-1164 | the fused scores and the candidates do not depend on the order of the signals |
| Fusion.TotalIgnoresRowOrder | src/native_knowledge.rs:1122-1164 | signals holding the same rows give the same scores and candidates |
| Fusion.Collapse | src/native_knowledge.rs:1132-1149 | one highest row per candidate, candidates in order of first appearance |
| Fusion.FoldRow | src/native_knowledge.rs:1150-1163 | a candidate's contribution is added to its entry, whose missing URL is filled in, or opens a new entry at the end of the order |
| Fusion.FuseSignal | src/native_knowledge.rs:1122-1164 | every candidate's entry gains weight times (best raw score / signal maximum), new candidates are appended once, and a signal without a positive score changes nothing |
| HybridRank.FuseAll | src/native_knowledge.rs:1211-1215 | after all signals, each candidate carries the sum of its contributions and the first URL offered for it |
| HybridRank.BeforeIsStrictWeak | src/native_knowledge.rs:1221-1229 | the comparator (score descending, title, section) is a strict weak order, so the sort is well defined |
| HybridRank.BestListIgnoresRowOrder | src/native_knowledge.rs:1211-1231 | there is only one best list, and it is the same for signals holding the same rows in any order |
| HybridRank.SortedRowsAreBest | src/native_knowledge.rs:1217-1231 | the sorted rows start with the best list: the `limit` best candidates, each once, best first |
| HybridRank.QueryHybrid | src/native_knowledge.rs:1191-1255 | the result is the best list with one citation per candidate, none exactly when no candidate is listed, and it counts as graph-grounded exactly when a listed candidate came from the graph signal |
| HybridRank.HybridTotal | src/native_knowledge.rs:1211-1215 | a candidate's score is the sum of its keyword, vector and graph contributions |
| HybridRank.HybridScore | src/native_knowledge.rs:1099-1215 | the fused score is 0.2, 0.5 and 0.3 times the candidate's highest over the highest raw score in the keyword, vector and graph signal, and it is a candidate exactly when some signal puts it forward |
| HybridRank.BestListDescends | src/native_knowledge.rs:1221-1231 | every candidate after a listed one, or cut off, scores less, or the same with a later title, or the same with that title and a later section |
| HybridRank.KeywordOnlyRanksBelow | src/native_knowledge.rs:1099-1104 | a candidate found only by keyword ranks strictly below the best vector candidate and the best graph candidate |
| HybridRank.UrlIgnoresRowOrderIff | src/native_knowledge.rs:1132-1163 | the cited URL is the same for all row orders exactly when the candidate's best rows leave a single outcome |
| HybridRank.UrlCanDependOnRowOrder | src/native_knowledge.rs:1132-1163 | swapping two equally scored rows of a candidate with different URLs changes the URL the query cites, whatever the other signals hold |
| Vectors.CauchySchwarz | src/native_knowledge.rs:916-932 | the three accumulators satisfy dot squared at most na times nb, for vectors of every equal length |
| Vectors.CosineInUnit | src/native_knowledge.rs:916-932 | similarity is symmetric and lies in [-1, 1], mismatched lengths and zero vectors included |
| Vectors.CosineSimilarity | src/native_knowledge.rs:916-932 | the loop computes the cosine, zero for mismatched lengths, empty and zero vectors, and stays in [-1, 1] |
| Vectors.CosineScale | src/native_knowledge.rs:916-932 | scaling a vector by a positive factor changes no similarity |
| Vectors.DotBasis | src/native_knowledge.rs:916-932 | the accumulated product with a basis vector is the coordinate |
| Vectors.DotSum | src/native_knowledge.rs:916-932 | the accumulated product is additive |
| Vectors.CosineOfSelf | src/native_knowledge.rs:916-932 | a nonzero vector has similarity one to itself |
| Vectors.NormalizedIsUnit | src/native_knowledge.rs:903-910 | normalizing gives a unit vector or leaves the zero vector alone, and changes no similarity |
| Vectors.UnitCosineIsDot | src/native_knowledge.rs:880-883 | between unit vectors similarity is the dot product |
| Vectors.L2Normalize | src/native_knowledge.rs:903-910 | the array is normalized in place |
| Vectors.EmbedText | src/native_knowledge.rs:884-899 | the words are lower-cased, stripped of punctuation and dropped up to two bytes; each remaining token adds its sign to its bucket, and the result is normalized; dimension zero acts as one |
| Vectors.WordCounts | src/native_knowledge.rs:884-899 | one more word in a text, in any letter case and with punctuation around it, changes the counts at its bucket only: by nothing if it has at most two bytes, by one for a hash below 2 to the power 63, and by minus one above |
| Vectors.Utf8LengthIs | src/native_knowledge.rs:889-891 | the byte length is the number of characters plus those past each step of the encoding |
| Vectors.EmbeddingIgnoresTokenOrder | src/native_knowledge.rs:884-899 | permuting the tokens does not change the embedding |
| CostLedger.ReadEntries | src/cost_tracking.rs:167-185 | the reader returns the entries of the lines that parse, in order, skipping blank and unparsable ones |
| CostLedger.PaddedRecordReads | src/cost_tracking.rs:172-185 | a record is read from its line whatever blanks surround it |
| CostLedger.ReachedIsKept | src/cost_tracking.rs:150-165 | in every reachable state of every interleaving the file is what the lock periods wrote, in lock order, each a prefix of its record; each writer's entries are taken in order and none is lost or invented |
| CostLedger.ReadAtAnyTime | src/cost_tracking.rs:150-185 | at every moment, failed appends and an open write included, a read returns exactly what the lock periods let it recover |
| CostLedger.UntornEntrySurvives | src/cost_tracking.rs:150-185 | in every reachable state a whole record is read back if the failed appends since the last whole record before it left nothing on the line |
| CostLedger.ReadIsSurvivors | src/cost_tracking.rs:150-185 | if no glued line parses, a read of a reachable state returns exactly the whole records that start on a line of their own, in lock order, and what an unfinished last line parses to |
| CostLedger.TornAppendLosesNext | src/cost_tracking.rs:150-185 | if glued lines do not parse: after an append torn anywhere past its first byte, the next writer's append succeeds and its record is not read back |
| CostLedger.FinishedEntriesReadBack | src/cost_tracking.rs:150-185 | without I/O errors every finished entry is read back once and in lock order, and at most the open one besides; with the lock free, exactly those |
| CostLedger.LedgerIsWholeRecords | src/cost_tracking.rs:150-165 | without I/O errors, whenever the lock is free the ledger is the concatenation of whole records in lock order |
| CostLedger.NothingLostOrDuplicated | src/cost_tracking.rs:150-185 | once all writers are done, a read returns every recorded entry exactly once, each writer's in its order |
| CostLedger.Summarize | src/cost_tracking.rs:188-204 | the accumulators are the exact sums over the period's entries, token totals modulo 2^64 |
| CostLedger.TotalsGrow | src/cost_tracking.rs:188-204 | an entry of the period adds each of its figures to the total of the same name and one to the count; any other entry adds nothing |
| CostLedger.TotalsPartition | src/cost_tracking.rs:188-204 | the totals of a period and of the rest add up to the totals of everything |
| CostLedger.WrappedLosesWraps | src/cost_tracking.rs:188-204 | a reported token total differs from the exact one by a multiple of 2 to the power 64 |
| CostLedger.TotalsAreOrderFree | src/cost_tracking.rs:188-204 | the totals of every period are indifferent to the order of the entries |
| CostLedger.SummaryIgnoresInterleaving | src/cost_tracking.rs:150-204 | any two complete runs of the same writers, however interleaved, give the same summary |
| CostLedger.EstimateRoundsUpIff | src/cost_tracking.rs:53-55 | the estimate covers the characters exactly up to the last lengths a 64-bit count can hold, and is never a whole token too large |
| ConceptLabel.TrimmedFoldIsJoin | src/fact_reliability.rs:78-97 | folding separators and trimming hyphens leaves exactly the words joined by single hyphens |
| ConceptLabel.FoldSeparators | src/fact_reliability.rs:78-95 | the loop with its hyphen flag computes the folding of the lower-cased label |
| ConceptLabel.CanonicalConcept | src/fact_reliability.rs:70-105 | the function returns the known concept with the label's words, or nothing |
| ConceptLabel.CanonicalIffSameWords | src/fact_reliability.rs:56-105 | a label maps to a known concept exactly when, stripped of edge punctuation, it has the same words in the same order |
| ConceptLabel.VariantIsRecognized | src/fact_reliability.rs:56-105 | every spelling of the three concepts is recognized: any letter case, any run of underscores, spaces and hyphens between the words, blanks and punctuation around |
| ConceptLabel.CanonicalIsStable | src/fact_reliability.rs:70-105 | a canonical label canonicalizes to itself |
| FactRules.ShippedRulesStable | src/fact_reliability.rs:70-105 | the program's own canonicalization satisfies what the gate results ask of it |
| FactGate.DistinctInformativeWords | src/fact_reliability.rs:130-147 | the early-exit scan returns the smaller of the cap and the number of distinct normalized words |
| FactGate.WordsIgnoreCaseAndPunctuation | src/fact_reliability.rs:130-147 | words that differ in letter case or in characters that are not alphanumeric are one word |
| FactGate.WordIffAlphanumeric | src/fact_reliability.rs:130-147 | a token is a word exactly when it has an alphanumeric character |
| FactGate.ScoreFactReliability | src/fact_reliability.rs:163-195 | the accumulated score is the reliability score and lies in [0, 1] |
| FactGate.PassesIffGroundedAndInformative | src/fact_reliability.rs:163-205 | a fact passes the gate exactly when it is grounded and has an informative word, whatever its concept |
| FactGate.ScoreLevels | src/fact_reliability.rs:163-195 | the nine confidences the gate can compute and what each says about words, grounding and concept |
| FactGate.KeysAgreeIff | src/fact_reliability.rs:226-231 | keys agree exactly when the contents have the same words in order, and a key is its own key |
| FactGate.SameIdentitySameScore | src/fact_reliability.rs:163-231 | equal canonical concept and key force equal score |
| FactGate.VariantsAreOneFact | src/fact_reliability.rs:330-349 | requests whose concepts have one canonical label and whose contents differ in whitespace only make one fact, stored under that label; an unknown concept is kept verbatim |
| FactGate.AnyBlocks | src/fact_reliability.rs:385-396 | a candidate blocks exactly when it has the same canonical concept and key and at least the confidence |
| FactGate.Memory.SearchFacts | src/fact_reliability.rs:345-384 | a scan answers exactly when the backend works; it returns at most the limit of stored facts, each at most as often as stored, and leaves out a matching fact above the minimum only by filling the limit with facts at least as confident |
| FactGate.Memory.CommitGatedFact | src/fact_reliability.rs:321-414 | past the threshold both scans are made; a request that repeats an equal-or-stronger fact, shown by a working scan and among the five most confident, is quarantined and the store is unchanged; a grounded, informative request without such a fact is stored under its label with its score if the backend accepts it |
| FactGate.RepeatIsQuarantined | src/fact_reliability.rs:352-397 | on any store, whatever the scans rank and return, a repeated fact is not stored again |
| FactGate.NewIsStored | src/fact_reliability.rs:352-414 | on any store a request with at most weaker facts of its identity is stored |
| FactGate.StoreIsVetted | src/fact_reliability.rs:321-414 | over every run, whatever the scans return, each stored fact came from a grounded, informative request and carries a canonical label where there is one |
| FactGate.StoredConfidence | src/fact_reliability.rs:163-414 | over every run a stored confidence tells exactly whether the fact has three distinct words and whether its concept is known |
| FactGate.DuplicateOnlyIfHidden | src/fact_reliability.rs:352-396 | a second fact of one identity is stored only if both scans failed, missed the first, or were full of facts at least as confident |
| FactGate.StoredIffNothingVisible | src/fact_reliability.rs:321-414 | on a vetted store a request is stored exactly when it is grounded and informative, the write works, and neither scan shows a fact of its identity |
| FactGate.NoDuplicatesUnlessHidden | src/fact_reliability.rs:352-396 | over every run in which at each commit at least one of the two scans works, hits the prior and is not cut before it, no identity is stored twice |
| FactGate.NoDuplicatesUnlessCut | src/fact_reliability.rs:352-396 | in particular no identity is stored twice when the concept scans work and are not cut by the limit |
| Snapshots.LatestIsUnique | src/memory_snapshot.rs:91-150 | at most one name is the newest loadable one |
| Snapshots.LoadLatestSnapshot | src/memory_snapshot.rs:91-150 | the walk from the newest name down returns the newest snapshot that loads, or none; an unreadable directory gives none |
| Snapshots.PruneSnapshots | src/memory_snapshot.rs:159-186 | exactly the snapshot files with at least `keep` newer ones are deleted, except those whose deletion fails; other files are untouched |
| Snapshots.PruneKeepsLatestIff | src/memory_snapshot.rs:91-186 | whichever of those deletions happen, what loads stays the same, exactly when nothing was loadable or one of the `keep` newest is |
| Snapshots.PruneCanLoseLatest | src/memory_snapshot.rs:91-186 | keeping one file when the newest does not load loses the only snapshot that does |
| Snapshots.NameOrderIff | src/memory_snapshot.rs:65-66 | for one agent an earlier epoch's file sorts first exactly when the epoch is at most the leading digits of the later one |
| Snapshots.EqualDigitsOrder | src/memory_snapshot.rs:65-66 | with equal digit counts file-name order is epoch order |
| Snapshots.NameOrderCanInvert | src/memory_snapshot.rs:65-66 | the file of epoch 10 sorts before the file of epoch 9 |
| Snapshots.MemoryStore.ImportSnapshot | src/remote_transfer/mod.rs:510-533 | facts then procedures are appended one by one to any store; a failing write leaves a prefix |
| Snapshots.MemoryStore.AutoRestoreLatestIfEmpty | src/memory_snapshot.rs:275-290 | nothing is written unless the store was read and is empty; then, if the directory can be listed, the newest snapshot that loads is imported whole, or as far as the writes succeed, and counted |
| Snapshots.StartupIsRestore | src/memory_snapshot.rs:245-290 | the run model's startup changes the items exactly as the guarded restore does |
| Snapshots.AtMostOneSnapshot | src/memory_snapshot.rs:225-290 | over every run of startups, probe failures, broken imports, sessions and resets the store is a prefix of one snapshot, each item once, followed by its own items |
| Snapshots.StartupFillsStore | src/memory_snapshot.rs:225-290 | over every run, after a startup that can read the store, load a nonempty snapshot and write, the store is nonempty and, until a reset, everything in it stays |
| CuratedState.PathsNeverMeet | src/identity_curated_state.rs:115-154 | distinct names get distinct files below the tree, and no temporary file is any collection's file |
| CuratedState.PlainNamesResolve | src/identity_curated_state.rs:115-154 | exactly the names of letters, digits, `.`, `_` and `-` without a leading `-` or `..` have a file, below the identity's directory |
| CuratedState.SaveIsAtomic | src/identity_curated_state.rs:187-228 | at every crash point a load sees the whole old collection or the whole new one, and no other collection changes |
| CuratedState.AddRefinesMap | src/identity_curated_state.rs:254-270 | adding is map update |
| CuratedState.AddKeepsOrder | src/identity_curated_state.rs:254-270 | an existing key keeps its place and a new one goes last |
| CuratedState.RemoveRefinesMap | src/identity_curated_state.rs:273-283 | removing is map removal and the other keys keep their order |
| CuratedState.UniqueKeysKept | src/identity_curated_state.rs:254-283 | adding and removing keep keys unique |
| CuratedState.Upsert | src/identity_curated_state.rs:254-270 | the loop overwrites the first item with the key or appends the item |
| CuratedState.Retain | src/identity_curated_state.rs:273-283 | exactly the items with the key are dropped |
| CuratedState.CuratedStore.Save | src/identity_curated_state.rs:187-228 | the files change as the interrupted or completed save says, and success is reported exactly on completion |
| CuratedState.CuratedStore.AddItem | src/identity_curated_state.rs:254-270 | a bad name changes nothing; otherwise the files and the result are those of loading, upserting and saving |
| CuratedState.CuratedStore.RemoveItem | src/identity_curated_state.rs:273-283 | a bad name changes nothing; otherwise the files and the result are those of loading, removing and saving |
| CuratedState.CuratedStore.LoadOrSeedCollection | src/identity_curated_state.rs:233-251 | an existing file is returned and the seed not consulted; an absent one is seeded and saved |
| CuratedState.FilesRefineCollections | src/identity_curated_state.rs:160-283 | over every run, with crashes anywhere, each file loads as the collection that the completed calls built |
| CuratedState.SeedUsedOnlyBeforeFirstSave | src/identity_curated_state.rs:233-251 | once a save of a collection has completed, no later call consults the seed |
| CuratedState.CorruptIsNeverOverwritten | src/identity_curated_state.rs:156-283 | a file that does not parse survives every run of calls and crashes, and every call on its collection fails |
| CuratedState.KeysStayUnique | src/identity_curated_state.rs:160-283 | keys stay unique over every run whose seeds have unique keys |
| AclVerdict.ExplicitMethods | src/ado_acl_guard.rs:149-175 | the loop collects each token's methods in order, each token judged with the one after it |
| AclVerdict.ClusterBodyIgnoresNext | src/ado_acl_guard.rs:110-139 | whether a short-option cluster carries a body does not depend on the next token |
| AclVerdict.ReadIffNoSuspect | src/ado_acl_guard.rs:181-210 | a command is provably a read exactly when no token, judged with its successor, carries a body or a write method |
| AclForms.ClusterIs | src/ado_acl_guard.rs:110-139 | a short-option cluster is decided by its first `X`, `d`, `F` or `T`, and by nothing without one |
| AclForms.ReadIff | src/ado_acl_guard.rs:110-210 | a command is provably a read exactly when no token is a body option in any of its written forms and every method set in any of its written forms is GET, HEAD or OPTIONS |
| AclForms.BodyCluster | src/ado_acl_guard.rs:110-139 | a cluster with `d`, `F` or `T` before any other deciding letter, glued or not, is a body option |
| AclForms.LongBodyFlag | src/ado_acl_guard.rs:181-195 | each long body flag, alone or with `=`, is a body option |
| AclForms.MethodCluster | src/ado_acl_guard.rs:110-139 | a cluster with `X` sets the method glued to it or following it |
| AclForms.GluedMethod | src/ado_acl_guard.rs:156-171 | each method prefix and the `-m` alias set the method glued to them |
| AclForms.FlaggedIffWrites | src/ado_acl_guard.rs:197-252 | on an access-control surface a command without a mutating phrase is flagged exactly when some token sends a body or sets a method that does not read |
| AclForms.WriteOnSurfaceIsFlagged | src/ado_acl_guard.rs:197-252 | a write in one token and any of the five surfaces, in any letter case, in another flag the command |
| AclForms.SubcommandIsFlagged | src/ado_acl_guard.rs:220-238 | the four mutating subcommands are flagged in any letter case wherever they stand |
| AclVerdict.FlaggedStaysFlagged | src/ado_acl_guard.rs:110-252 | a flagged command stays flagged with any tokens before and after it |
| AclVerdict.OnlyFlagsTakeNext | src/ado_acl_guard.rs:110-175 | a method flag, grouped clusters such as `-sX` included, takes the next token as a method, and the methods of every other token do not depend on the next one |
| AclVerdict.ReadIgnoresPairOrder | src/ado_acl_guard.rs:149-210 | permuting whole method-option pairs among the slots where they stand, with any tokens between them, never changes whether the command is provably a read; in a read every pair's value is a read method |
| AclVerdict.PhraseIgnoresReadPairs | src/ado_acl_guard.rs:220-252 | with read pairs in its slots the joined command contains a phrase exactly when a segment, a flag or a value does: the pairs neither make nor break one |
| AclVerdict.VerdictIgnoresPairOrder | src/ado_acl_guard.rs:149-252 | on an access-control target, permuting whole method-option pairs among their slots, with any tokens between them, never changes the verdict |
| AclVerdict.MovingPairCanMatter | src/ado_acl_guard.rs:220-252 | moving a pair past other tokens can: it can stand between the words of a mutating phrase |
| ScopedGrant.RunKeeps | src/ado_acl_guard.rs:295-368 | every program keeps the counts of grants and revokes, touches no guard it cannot reach and, unless the process aborts, leaves no guard of its own unrevoked |
| ScopedGrant.RevokedExactlyOnce | src/ado_acl_guard.rs:299-409 | in every run each revoke follows a successful grant and happens at most once, and exactly once per successful grant unless the process aborts |
| ScopedGrant.WrapperGuardIsPrivate | src/ado_acl_guard.rs:387-409 | no body can revoke the grant of the wrapper around it |
| ScopedGrant.WrapperSucceedsIff | src/ado_acl_guard.rs:387-409 | the wrapper succeeds exactly when grant, body and revoke do; a body error is handed on, first in the message |
| ScopedGrant.WrapperNamesFailure | src/ado_acl_guard.rs:376-409 | the wrapper's error ends in the failed grant's or the failed revoke's own message |
| ScopedGrant.HoldEnds | src/ado_acl_guard.rs:342-366 | the destructor adds to its body nothing after an early revoke, else the one revoke, a report if that fails, and a panic if that panics |
| ScopedGrant.EarlyRevoke | src/ado_acl_guard.rs:330-340 | an early revoke runs the closure once and hands on its failure; a second one does nothing |
| ScopedGrant.WrapperBrackets | src/ado_acl_guard.rs:376-409 | grant, then everything the body does, then the one revoke |
| ScopedGrant.ScopeAbortsIff | src/ado_acl_guard.rs:340-368 | a scope aborts exactly when its body does or its body unwinds into an unrevoked guard whose revoke panics |
| ScopedGrant.ReturningRevokesAllRun | src/ado_acl_guard.rs:285-368 | if no revoke panics, no program aborts and every successful grant is revoked exactly once |
| ScopedGrant.OuterGrantCanLeak | src/ado_acl_guard.rs:340-368 | a body panic followed by a revoke panic leaves the outer grant in place |
| ScopedGrant.PanicStrands | src/ado_acl_guard.rs:342-409 | a body panic in a scope of either kind whose revoke panics too strands every live grant around it, in any state |
| ScopedGrant.NestingIsSafeIff | src/ado_acl_guard.rs:342-409 | in any consistent state with a live grant, a scope of either kind strands that grant around no body whose own revokes return exactly when its revoke does not panic |
| ScopedGrant.Acquire | src/ado_acl_guard.rs:304-321 | a guard that owns the revoke exactly when the grant succeeds; otherwise nothing is scheduled |
| ScopedGrant.ScopedAclGrant.RevokeNow | src/ado_acl_guard.rs:334-340 | the first call runs the closure and returns its result, later ones do nothing and succeed |
| ScopedGrant.ScopedAclGrant.Drop | src/ado_acl_guard.rs:342-368 | an active guard revokes; a failure is reported and not propagated |
| ScopedGrant.ExecuteScope | src/ado_acl_guard.rs:342-409 | a hand-held guard and the wrapper, executed on guard objects, do what the meaning of programs says |
| ScopedGrant.Execute | src/ado_acl_guard.rs:299-409 | executing any program of nested guards on guard objects gives the log, guards and exit that its meaning says |
| Watchdog.FrontIsInspected | src/eval_watchdog.rs:125-133 | a trimmed bucket holds exactly the newest `window` records of its scenario, ties in listed order, each once |
| Watchdog.DetectIsExpected | src/eval_watchdog.rs:107-172 | for every configuration and bucket order the verdict and counts are determined by the inspected records and the newest score of the first scenario |
| Watchdog.AllZeroIff | src/eval_watchdog.rs:113-154 | with a window of at least one, all-zero is returned exactly when there are enough records and scenarios and the newest records of every scenario are zero, with the exact counts |
| Watchdog.IdenticalIff | src/eval_watchdog.rs:107-172 | with a window of at least one, identical is returned exactly when there are enough records and scenarios, the newest score of the first bucket is not zero and all inspected scores are less than 2 to the power -52 from it |
| Watchdog.ZeroWindow | src/eval_watchdog.rs:130-154 | with a window of zero it fires, with empty counts, exactly when no scenario is demanded |
| Watchdog.RecordOrderIgnored | src/eval_watchdog.rs:107-172 | with distinct timestamps per scenario, verdict and counts ignore the record order |
| Watchdog.BucketOrderMattersIff | src/eval_watchdog.rs:156-169 | the bucket order changes the verdict exactly when two scenarios' newest scores differ and one is nonzero and within epsilon of every inspected score |
| Watchdog.SeparatedScoresIgnoreBucketOrder | src/eval_watchdog.rs:156-169 | if unequal inspected scores are at least epsilon apart, the bucket order is irrelevant |
| Watchdog.BucketOrderCanDecide | src/eval_watchdog.rs:156-169 | a score of zero and any positive one below the epsilon: whether it fires depends on the bucket order |
| Watchdog.BucketByScenario | src/eval_watchdog.rs:117-123 | one bucket per scenario, with the scenario's records in listed order |
| Watchdog.TrimBuckets | src/eval_watchdog.rs:125-133 | every bucket sorted newest first and cut, in some order of the scenarios |
| Watchdog.RetainNonEmpty | src/eval_watchdog.rs:135-137 | exactly the nonempty buckets remain |
| Watchdog.Inspect | src/eval_watchdog.rs:138-171 | the accumulated counts and flags give the verdict, and the first score is never looked up in an empty list |
| Watchdog.DetectDeadSignal | src/eval_watchdog.rs:107-172 | the detector returns the verdict for some bucket order, and all-zero exactly under the stated condition, for every configuration |
| TurnParser.ParsesAreWellFormed | src/base_type_turn.rs:434-496 | whatever the text, the output has trimmed, nonempty, single-line actions whose kinds have no em dash, a trimmed single-line explanation and a confidence in [0, 1] |
| TurnParser.ParseUndoesPrint | src/base_type_turn.rs:114-121 | printing any such output as prescribed and parsing it returns the same actions in order, explanation and confidence |
| TurnParser.ParsedIffWellFormed | src/base_type_turn.rs:434-496 | the outputs the parser can produce are exactly these |
| TurnParser.ReadPrintedAction | src/base_type_turn.rs:451-473 | a printed action line reads back as that action |
| TurnParser.ReadHyphenAction | src/base_type_turn.rs:451-463 | without an em dash, the first hyphen between spaces separates kind and description |
| TurnParser.ReadPlainAction | src/base_type_turn.rs:464-472 | an action line with neither dash is an action of unknown kind with the whole text as description |
| TurnParser.ReadProse | src/base_type_turn.rs:491-494 | in text without announcements the first nonblank line is the explanation and the rest is ignored |
| TurnParser.AnnounceIgnoresCase | src/base_type_turn.rs:498-507 | each announcement is recognized in any letter case and leaves the rest of the line untouched |
| TurnParser.ShippedIsFit | src/base_type_turn.rs:498-507 | the program's trimming and its case-insensitive announcements have what these results ask for |
| TurnParser.LastExplanationCounts | src/base_type_turn.rs:473-494 | the last nonempty announced explanation is the explanation, whatever prose and actions there are |
| TurnParser.FirstProseCounts | src/base_type_turn.rs:491-494 | without one, the first nonblank line of prose is, if no action comes before it, and nothing otherwise |
| TurnParser.LastConfidenceCounts | src/base_type_turn.rs:481-489 | the last announced number is the confidence |
| TurnParser.ActionsInOrder | src/base_type_turn.rs:451-472 | the actions of all lines are kept in order |
| TurnParser.ConfidenceIsNearest | src/base_type_turn.rs:481-489 | a number is read as the nearest one between zero and one, anything else as none |
| TurnParser.ReadHalfAction | src/base_type_turn.rs:451-472 | an action line with a blank kind or description is an action of unknown kind, dash and all |
| TurnParser.ReadEach | src/base_type_turn.rs:443-495 | the loop over the lines, updating three variables, gives the output that these lines decide |
| TurnParser.ParseTurnOutput | src/base_type_turn.rs:434-496 | the parser trims, rejects blank text and gives the output that its lines decide |
| TurnParser.RejectedIffBlank | src/base_type_turn.rs:434-442 | text is rejected exactly when it is all whitespace |
| DoneCriteria.StartsWithOrderedItem | src/done_criteria.rs:83-93 | the loop accepts exactly a nonempty run of digits followed by a dot or a closing parenthesis |
| DoneCriteria.MatchedIsFirst | src/done_criteria.rs:109-111 | the reported heading is the first of the list that the scan contains |
| DoneCriteria.ItemsSplit | src/done_criteria.rs:82-104 | a line break separates the checkable items before it from those after it |
| DoneCriteria.AppendingKeepsMeasurable | src/done_criteria.rs:151-171 | a measurable description stays measurable under appending, and a stated criteria section stays the reason |
| DoneCriteria.CriteriaSectionIsMeasurable | src/done_criteria.rs:42-171 | any of the seven headings in any letter case, followed by an indented line with a bullet, a checkbox or a number, within the cap, makes a description measurable by its own criteria |
| DoneCriteria.FinishLineWorksIff | src/done_criteria.rs:151-171 | a description with the marker appended is measurable exactly when the marker ends within the cap or the description was measurable without it |
| DoneCriteria.ApplyingAgainReplaces | src/goal_board_store/done_gate_pins.rs:159-163 | applying another finish line replaces the first: lines never stack |
| DoneCriteria.AppliedKeepsText | src/goal_board_store/done_gate_pins.rs:147-164 | applying keeps the text before the first marker and ends in the marker and the new finish line |
| DoneCriteria.RepairWorksIff | src/goal_board_store/done_gate_pins.rs:147-164 | a repaired goal is measurable exactly when its own text leaves room for the marker within the cap or was measurable already |
| DoneCriteria.RepairCanFail | src/goal_board_store/done_gate_pins.rs:147-164 | a long plain description is not measurable after the repair |
| DoneCriteria.ShippedIsFit | src/done_criteria.rs:42-104 | the program's headings and checkable items have what these results ask for |

## Left out

- SQL text, schema probing, pack discovery, connection caching and RPC registration in `src/native_knowledge.rs`; the model starts from the rows a query returns.
- Answer text, its truncation and its confidence estimate.
- The vector query's row loop and the parsing of stored embeddings; a signal is any list of scored rows.
- Vectors.EmbedText: takes the hash and the alphanumeric test as functions, because their values play no part in the results.
- Floating-point rounding, infinities and not-a-number values; scores, costs and confidences are reals.
- Appends by several processes at once, and ledger text that is not valid Unicode.
- CostLedger.Summarize: the period is any predicate on entries; date labels and clocks are not modelled.
- FactGate.Memory.SearchFacts: the backend's matching is an arbitrary relation, because the gate does not rely on it; provenance edges and tags are carried by no property and omitted.
- FactGate.ScoreFactReliability: demands the shipped canonicalization, which is the only one the program has.
- Store maintenance that forgets facts between commits.
- Concurrent writers of a snapshot directory or of one curated collection; the source asks for a single writer.
- The environment opt-in and the refusal text of the access-control guard.
- ScopedGrant.Execute: guards that are leaked, moved out of their scope or cut off by a hard kill, which run no destructor.
- The assembly of the turn prompt other than the prescribed response format.
- Work-in-progress references and the pin file of the done gate.
- Health checks, clients, transports, prompt assets, identity tables and launchers: orchestration or lookups without further algorithmic content.
