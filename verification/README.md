# Swallow: a verified model

This project models the algorithms and state machines of Swallow that decide what a task sees and which
results it accepts, and proves what they guarantee. Loops and objects that the program updates in place are
methods and classes here; each is proved against a specification, and the properties are proved about
that specification for all inputs, runs and settings.

| part | files | what is modelled |
|---|---|---|
| relation expansion | `RelationExpansion*.dfy` | the FIFO walk over the knowledge graph with a depth limit, score decay, a cut-off, a traversed-pair set and in-place merging of duplicate paths; its specification is a breadth-first walk without queue entries for known objects and without a traversed set |
| chunking | `LineRanges.dfy`, `MarkdownChunks.dfy` | cutting line ranges at blank lines under a size bound, overlap, and the chunks of markdown and source files |
| task knowledge | `KnowledgeEntries.dfy`, `KnowledgeFiles.dfy`, `KnowledgeStore.dfy`, `SourceEvidence*.dfy` | one view stored as a list file and two directories, merged again on load; the write plan; materialising source evidence |
| route fallback | `Routes.dfy`, `RouteFallback*.dfy` | looking up routes, resolving the chain, and the mutual recursion that moves a failed task from route to route |
| review | `ReviewGate.dfy`, `DebateLoop.dfy` | the local checks and the reviewer panel, feedback, and the bounded retry loop |
| relation suggestions | `RelationSuggestions.dfy` | alias resolution, and applying suggested relations as a dry or a real run |
| raw-material references | `Percent.dfy`, `RawMaterialRefs.dfy` | UTF-8, percent-encoding (sections 2.1 and 2.3 of RFC 3986), POSIX path components, printing, parsing and displaying references |
| reranking | `Rerank.dfy` | completing a reranker's order to a permutation and reordering the items |
| evidence pack | `EvidencePack.dfy` | routing items to buckets and merging by source anchor, with entries shared between buckets |
| knowledge decisions | `KnowledgeDecisions.dfy` | promotions and rejections, their log, and the index |
| shared | `Text.dfy`, `Collections.dfy` | whitespace and trimming, decimal numbers, sets and sequences |

Strings are sequences of Unicode characters, scores are real numbers, and a missing field of a stored
object is its default. What the program gets from outside (executor and reviewer results, HTTP payloads,
clock readings, settings) is a parameter.

## What was found

Several properties one might expect do not hold as such. The code is modelled as it is; for each there is a
concrete input that shows the failure, and a theorem that says for all inputs exactly when the property holds.

- A too-long range can lose text: `LineRanges.SplitRangeByMaxLines` gives the exact condition (two or more
  leading blank lines at a window's start), `LineRanges.LeadingBlanksLoseText` an input. Heading sections
  never lose any. Overlap brings lost text back exactly when it reaches it (`MarkdownChunks.ShowsExactly`,
  `MarkdownChunks.OverlapBringsBack`).
- The write plan and the direct write of a view differ exactly when an entry whose first non-empty id is
  blank, although a later one is not, is not overwritten under both of its names
  (`KnowledgeStore.PlanMatchesMirrorExactly`, `KnowledgeStore.HiddenEntryDiffers`).
- An id that materialising returns need not exist afterwards (`SourceEvidenceTheorems.MaterializedObjects`,
  `SourceEvidenceTheorems.ShadowedIdNotCreated`).
- A real run of relation suggestions raises part-way exactly when some suggestion asks for a relation between
  resolved objects that is not stored and cannot be created (`RelationSuggestions.RaisesExactly`,
  `RelationSuggestions.SelfRelationRaises`).
- An artifact path that is `.`, or that starts or ends with whitespace, is printed but not read back
  (`RawMaterialRefs.RoundTripExactly`, `RawMaterialRefs.DotIsNotReadBack`).
- A candidate that a reranker scores twice is placed by its best score but noted with its last one; the two
  agree exactly when no earlier result of it scores above the last (`Rerank.NotedIsPlacingExactly`,
  `Rerank.NotedScoreIsLast`).
- An entry that is in two buckets counts duplicates of both (`EvidencePack.EntryCounts`,
  `EvidencePack.SharedEntryMiscounts`).
- With repeated or untrimmed object ids the decision log can be wrong about an object
  (`KnowledgeDecisions.LogTellsExactly`, `KnowledgeDecisions.SharedIdsMislead`).

## Model

| member | source | states |
|---|---|---|
| RelationExpansionQueue.ExpandByRelations | src/swallow/knowledge_retrieval/retrieval.py:1191-1299 | for every graph (cycles included), seed list, lookup and setting the loop ends, and its items are those of the level-by-level walk that never re-queues an object and keeps no traversed set; an unreadable listing gives no items |
| RelationExpansionQueue.Drain | src/swallow/knowledge_retrieval/retrieval.py:1230-1299 | the outer loop ends by the pair of untraversed graph edges and queue length, and computes the walk from the queued seeds |
| RelationExpansionQueue.FollowRelations | src/swallow/knowledge_retrieval/retrieval.py:1238-1298 | the edges of a popped object are followed only when it is popped for the first time below the limit; later pops of it change neither items nor what is pending |
| RelationExpansionQueue.RecordHop | src/swallow/knowledge_retrieval/retrieval.py:1253-1298 | one unpruned hop: a new target is emitted and queued, a known one has its item merged and is queued again below the limit |
| RelationExpansionQueue.NewPair | src/swallow/knowledge_retrieval/retrieval.py:1238-1245 | a pair is untraversed exactly at the first relation to its target on the first pop of its object |
| RelationExpansionQueue.QueueOld | src/swallow/knowledge_retrieval/retrieval.py:1289-1298 | queueing an object that was reached before leaves the pending entries, their order and depths as they were |
| RelationExpansionQueue.QueuePop | src/swallow/knowledge_retrieval/retrieval.py:1230-1233 | the queue holds at most two consecutive depths in order; a popped entry is a handled object or the head of the current level |
| RelationExpansionFacts.WalkFacts | src/swallow/knowledge_retrieval/retrieval.py:1213-1299 | at the end every object has a justified depth and score, every object above the limit had all its unpruned first edges followed once, in order of depth |
| RelationExpansionFacts.BuildItemPaths | src/swallow/knowledge_retrieval/retrieval.py:1302-1321 | an item built from distinct paths has their sources as parents, the first one as its parent, and their number as its path count |
| RelationExpansionFacts.BuildItemTypes | src/swallow/knowledge_retrieval/retrieval.py:1302-1321 | the relation types of an item are those of its paths, without blank ones among the merged, each once |
| RelationExpansionTheorems.EmissionTheorem | src/swallow/knowledge_retrieval/retrieval.py:1213-1299 | pruning included: exactly the retrieval-ready non-seed objects reached are emitted, each once, by non-decreasing depth; each has a path from a seed whose running score stays at or above the cut-off and ends at its score, length equal to its depth, and exactly the objects with a surviving first edge to it as parents, counted by its path count |
| RelationExpansionPaths.ScoresOnPaths | src/swallow/knowledge_retrieval/retrieval.py:1213-1299 | every emitted item has a path of as many first edges as its depth from a seed; its score is the first score of the seed times the decay to the power of the depth times the product of the confidences on the path, and the same value of every non-empty prefix is at least the cut-off; its parent, relation type and confidence are those of the last step |
| RelationExpansionTheorems.NothingExpanded | src/swallow/knowledge_retrieval/retrieval.py:1201-1211 | without a positive depth limit or decay, or without a lookup, nothing is emitted |
| RelationExpansionTheorems.DistanceTheorem | src/swallow/knowledge_retrieval/retrieval.py:1213-1299 | when nothing can be pruned, expansion emits exactly the retrieval-ready objects at graph distance 1 to the depth limit, nearest first, labelled with their shortest distance, also through objects that are not in the lookup |
| RelationExpansionTheorems.ParentsExact | src/swallow/knowledge_retrieval/retrieval.py:1246-1298 | an object is among the parents of another if and only if it was reached above the limit and its first relation to it is not pruned |
| RelationExpansionTheorems.ReadableRun | src/swallow/knowledge_retrieval/retrieval.py:1234-1237 | with all listings readable the walk does not fail |
| RelationExpansionTheorems.FailsExactly | src/swallow/knowledge_retrieval/retrieval.py:1230-1237 | the walk fails if and only if some object that is reached above the depth limit, with the unreadable listings taken as empty, has an unreadable listing |
| LineRanges.SplitRangeByMaxLines | src/swallow/knowledge_retrieval/retrieval_adapters.py:648-685 | short ranges stay whole; a too-long one is cut into pieces in order, in bounds, at most the limit long, starting and ending on text and ending before the last blank line of their window; every line of text is kept if and only if the range does not meet the loss condition |
| LineRanges.CutWindow | src/swallow/knowledge_retrieval/retrieval_adapters.py:662-679 | one window yields its piece, or nothing exactly when it is blank or loses its text |
| LineRanges.PiecesUnique | src/swallow/knowledge_retrieval/retrieval_adapters.py:658-685 | the contract of a too-long range determines the pieces: no other cut meets it |
| LineRanges.BackedUpUnique | src/swallow/knowledge_retrieval/retrieval_adapters.py:629-645 | there is only one start that meets the overlap contract |
| LineRanges.TextStartKeepsAll | src/swallow/knowledge_retrieval/retrieval_adapters.py:673-679 | a range that starts on text loses nothing |
| LineRanges.LeadingBlanksLoseText | src/swallow/knowledge_retrieval/retrieval_adapters.py:673-679 | two blank lines before four lines of text, cut with size four, lose text |
| LineRanges.ExpandRangeWithOverlap | src/swallow/knowledge_retrieval/retrieval_adapters.py:629-645 | the start moves back over exactly min(overlap, earlier lines of text) lines of text, and stops on the last of them or on line 1 |
| MarkdownChunks.BuildMarkdownChunks | src/swallow/knowledge_retrieval/retrieval_adapters.py:692-829 | the chunks are those of the preface and the sections, in order; a chunk is named after the number of heading lines up to its base start (full file without headings, preface before the first) and, exactly when its section has several chunks, numbered by one more than the earlier chunks of the section; they come in line order with distinct ids, none longer than the limit before its overlap is added, none crossing a heading, starts backed up by the overlap; before overlap is added they hold every line of text if and only if the part before the first heading does not lose text; with overlap they show every line of text if and only if the overlap is at least the number of lines of text before the first chunk's base line |
| MarkdownChunks.FileIds | src/swallow/knowledge_retrieval/retrieval_adapters.py:706-829 | every id is told by the headings above the chunk and the chunks of its section before it |
| MarkdownChunks.ShowsExactly | src/swallow/knowledge_retrieval/retrieval_adapters.py:692-829 | for every overlap, all text is shown if and only if the overlap reaches the text before the first base line, which is read off the lines and the size; a file without chunks has no text to show |
| MarkdownChunks.CoversExactly | src/swallow/knowledge_retrieval/retrieval_adapters.py:692-829 | the chunks' own lines hold all text if and only if there is none before the first base line |
| MarkdownChunks.OverlapBringsBack | src/swallow/knowledge_retrieval/retrieval_adapters.py:629-685 | two blank lines and four of text, cut with size four: all text is shown if and only if the overlap is at least two |
| MarkdownChunks.FileCutUnique | src/swallow/knowledge_retrieval/retrieval_adapters.py:692-829 | the contract of the chunks of a markdown file determines them, ids, starts and ends included |
| MarkdownChunks.BuildRepoChunks | src/swallow/knowledge_retrieval/retrieval_adapters.py:840-883 | exactly the blocks of 40 lines (from lines 1, 41, 81 and so on) that have text with their overlap, in order, named by their first and last line; they hold every line of text |
| MarkdownChunks.IdTextInjective | src/swallow/knowledge_retrieval/retrieval_adapters.py:728-808 | no two kinds or numbers of chunks print to the same id |
| MarkdownChunks.AddRegion | src/swallow/knowledge_retrieval/retrieval_adapters.py:749-827 | adding a preface or section keeps order, bounds and distinct ids, and coverage changes exactly by whether the region loses text |
| KnowledgeEntries.NormalizeFacts | src/swallow/knowledge_retrieval/_internal_knowledge_store.py:54-113 | normalising reaches a normal form, keeps the ids, and makes an entry a wiki entry exactly when its stage is canonical |
| KnowledgeEntries.NormalizeFields | src/swallow/knowledge_retrieval/_internal_knowledge_store.py:54-113 | field by field: ids and text stay; an evidence entry loses its wiki fields and gets a stage; a wiki entry has its fields trimmed, its own id as evidence when it names none, and the first of its capture date, its promotion date and the clock as date |
| KnowledgeEntries.EntryIdTells | src/swallow/knowledge_retrieval/_internal_knowledge_store.py:46-51 | an entry goes by the first of its three ids that is not blank, trimmed |
| KnowledgeEntries.NormalFixed | src/swallow/knowledge_retrieval/_internal_knowledge_store.py:54-113 | normalising again, at any time, changes nothing |
| KnowledgeEntries.MergeViews | src/swallow/knowledge_retrieval/_internal_knowledge_store.py:169-182 | the merge holds one entry per key in first-seen order: the last wiki entry of the key if there is one, else its last entry |
| KnowledgeEntries.WinnerSnoc | src/swallow/knowledge_retrieval/_internal_knowledge_store.py:176-181 | one more entry replaces the winner of its own key only, and never a wiki winner by evidence |
| KnowledgeFiles.RoundTrip | src/swallow/knowledge_retrieval/_internal_knowledge_store.py:185-189 | loading what a persist left gives the merge of the normalised view, for every view, duplicate ids included, whatever the clock readings |
| KnowledgeFiles.FilesOfFacts | src/swallow/knowledge_retrieval/_internal_knowledge_store.py:255-265 | the file of an id holds the last entry with that id, and there are no other files |
| KnowledgeFiles.EvidenceFileAbsorbed | src/swallow/knowledge_retrieval/_internal_knowledge_store.py:169-189 | no file of the evidence directory changes the merge of the list file |
| KnowledgeFiles.WikiFileAbsorbed | src/swallow/knowledge_retrieval/_internal_knowledge_store.py:169-189 | no file of the wiki directory changes the merge of the list file |
| KnowledgeFiles.AbsorbAll | src/swallow/knowledge_retrieval/_internal_knowledge_store.py:169-182 | merging in entries that already won, or evidence under a wiki winner, changes neither keys nor winners |
| KnowledgeStore.WriteStoreEntries | src/swallow/knowledge_retrieval/_internal_knowledge_store.py:255-265 | whatever the directory held, it ends up with exactly the last entry of each id: stale files are gone |
| KnowledgeStore.ListDir | src/swallow/knowledge_retrieval/_internal_knowledge_store.py:147-156 | the entries of all files of a directory, in lexicographic order of the file names: a proper prefix first, else by the first character that differs |
| KnowledgeFiles.LexExactly | src/swallow/knowledge_retrieval/_internal_knowledge_store.py:152 | names are ordered lexicographically, character by character |
| KnowledgeFiles.ListingOrder | src/swallow/knowledge_retrieval/_internal_knowledge_store.py:147-156 | the specification of a listing has every file once, in that order |
| KnowledgeFiles.LoadGathers | src/swallow/knowledge_retrieval/_internal_knowledge_store.py:185-189 | what is merged is the list file, then the evidence files, then the wiki files, the files in that order and each entry normalised as its kind |
| KnowledgeStore.SplitView | src/swallow/knowledge_retrieval/_internal_knowledge_store.py:116-124 | each normalised entry goes to its own kind, in order |
| KnowledgeStore.KnowledgeBase.PersistTaskKnowledgeView | src/swallow/knowledge_retrieval/_internal_knowledge_store.py:268-293 | the three copies of the task become the mirror of the view, whatever was there; other tasks are untouched |
| KnowledgeFiles.MirrorTells | src/swallow/knowledge_retrieval/_internal_knowledge_store.py:116-293 | the files of a persisted view: the list file has every entry, and each directory exactly one file for each id of its kind, named after it and holding the last such entry, all normalised |
| KnowledgeStore.KnowledgeBase.LoadTaskKnowledgeView | src/swallow/knowledge_retrieval/_internal_knowledge_store.py:185-189 | the result is the merge of the three normalised copies |
| KnowledgeStore.BuildKnowledgeStoreWritePlan | src/swallow/orchestration/knowledge_flow.py:28-55 | applied to the files it was made for, the plan leaves exactly the planned files |
| KnowledgeStore.IdsAgree | src/swallow/orchestration/knowledge_flow.py:23-25 | the two id functions agree if and only if the id is not hidden behind a blank field; a hidden one is written without an id |
| KnowledgeStore.BlankIdHides | src/swallow/orchestration/knowledge_flow.py:23-25 | a blank object id before a source object id gives two different ids |
| KnowledgeStore.SameFilesExactly | src/swallow/orchestration/knowledge_flow.py:23-49 | a list of entries gives the same files under both id functions if and only if every hidden entry is overwritten under both names |
| KnowledgeStore.PlanMatchesMirror | src/swallow/orchestration/knowledge_flow.py:28-55 | for views without hidden ids, applying the plan to any prior state gives the files of the direct write |
| KnowledgeStore.PlanMatchesMirrorExactly | src/swallow/orchestration/knowledge_flow.py:23-55 | for every view the two ways of writing agree if and only if, in either directory, every entry with a hidden id is followed by a plain one with its key and by a plain one with the key of entries without an id |
| KnowledgeStore.HiddenEntryDiffers | src/swallow/orchestration/knowledge_flow.py:23-25 | a lone entry whose blank object id hides its source object id is written to two different files |
| SourceEvidence.SourceEvidenceBase.KnowledgeObjectExists | src/swallow/knowledge_retrieval/_internal_knowledge_store.py:530-542 | true exactly when some task's loaded view has an object with the trimmed id |
| SourceEvidence.SourceEvidenceBase.Materialize | src/swallow/knowledge_retrieval/_internal_knowledge_store.py:351-397 | the returned ids are those of the pack, each once, in first-occurrence order; the task is rewritten with the missing entries merged in, or nothing is written when none is missing |
| SourceEvidence.PackIds | src/swallow/knowledge_retrieval/_internal_knowledge_store.py:369-379 | the ids of the pack are duplicate-free and not blank |
| SourceEvidence.PackIdsComplete | src/swallow/knowledge_retrieval/_internal_knowledge_store.py:369-379 | the ids are exactly the non-blank trimmed ids of the pack |
| SourceEvidence.IdsInOrder | src/swallow/knowledge_retrieval/_internal_knowledge_store.py:369-379 | the ids are those of the first entry of each id, in the order of the pack |
| SourceEvidence.MissingInOrder | src/swallow/knowledge_retrieval/_internal_knowledge_store.py:369-386 | the entries added are the first ones of each id that does not exist yet, in the order of the pack |
| SourceEvidenceTheorems.MaterializedObjects | src/swallow/knowledge_retrieval/_internal_knowledge_store.py:351-397 | afterwards an object exists if and only if it existed before, or it is in the pack and no wiki entry of the task holds its key |
| SourceEvidenceTheorems.ShadowedIdNotCreated | src/swallow/knowledge_retrieval/_internal_knowledge_store.py:376-379 | a returned id, in the form source anchors get, that does not exist afterwards |
| SourceEvidenceTheorems.MaterializedAgain | src/swallow/knowledge_retrieval/_internal_knowledge_store.py:351-397 | repeating the call, at any later time, changes no file |
| SourceEvidenceTheorems.ExistsAnyTime | src/swallow/knowledge_retrieval/_internal_knowledge_store.py:530-542 | whether an object exists does not depend on the clock |
| SourceEvidenceTheorems.MergedObjects | src/swallow/knowledge_retrieval/_internal_knowledge_store.py:386-389 | merging entries with new ids into a view loses no object and adds exactly those whose key no wiki entry holds |
| Routes.ResolveFallbackChain | src/swallow/provider_router/route_selection.py:95-114 | the chain starts with the route, follows the fallback names, has no repetitions, and stops only where there is no fallback or one comes back |
| Routes.ChainUnique | src/swallow/provider_router/route_selection.py:95-114 | there is only one such chain |
| Routes.NextNameTells | src/swallow/provider_router/route_selection.py:74-114 | the chain goes from a name to the name of the route its fallback name finds, if there is one |
| Routes.LookupKeepsName | src/swallow/provider_router/route_selection.py:57-71 | with every route registered under its own unaliased name, looking up the name of a found route, a derived detached one included, finds it again |
| Routes.LookupPlain | src/swallow/provider_router/route_selection.py:57-64 | a name without suffix finds the route of its alias, or else of its own name |
| Routes.LookupDetached | src/swallow/provider_router/route_selection.py:15-71 | a name with the detached suffix finds the route of that name, the rest taken through its alias, or else the detached, local variant of the rest, which differs in the five fields named and no others |
| RouteFallback.TaskState.ApplyRoute | src/swallow/orchestration/executor.py:545-565 | all route fields become those of the new route; the chain stays |
| RouteFallback.Runner.RunPromptExecutor | src/swallow/orchestration/executor.py:616-668 | for every registry whose lookups return trimmed, non-empty names, and every outcome oracle, the routes run, the final state and the outcome are those of the fallback plan; told by the first outcome: an unknown executor raises before anything is run; a run that completed, that a plain executor made, or that the HTTP executor had rate-limited stays alone, its failure kind kept and the result not degraded; a failed HTTP run, and any agent run that did not complete, goes on to the next route of the chain if the route is enabled and there is a new registered one, and stays alone otherwise |
| RouteFallback.Runner.RunExecutor | src/swallow/orchestration/executor.py:1224-1303 | the same for the HTTP executor and the agents: only a completed run, a rate-limited HTTP run and a run without an enabled route or a new next one stay on their route |
| RouteFallback.RunTells | src/swallow/orchestration/executor.py:616-764 | the fallback plan meets that description for every state |
| RouteFallback.NextIsCandidate | src/swallow/orchestration/executor.py:522-542 | the next route is the one registered under the chain's entry after the first that names the current route, unless its entry or its name was seen |
| RouteFallback.ExecutorNames | src/swallow/orchestration/executor.py:616-668 | the executor is the named one, after aliases; the one of the environment when none or the default is named |
| RouteFallback.Runner.ApplyExecutorRouteFallback | src/swallow/orchestration/executor.py:726-764 | the recursion ends for every chain and every registry whose lookups return trimmed, non-empty names, and runs, state and outcome are those of the routes after the failed one |
| RouteFallback.CandidateProgress | src/swallow/orchestration/executor.py:742-761 | each fallback takes a new name out of the finitely many targets of the chain |
| RouteFallback.ThroughLast | src/swallow/orchestration/executor.py:545-565 | the state ends on the last route taken over, with a reason that names the route before it, and its chain as it was |
| RouteFallbackTheorems.NoRouteTwice | src/swallow/orchestration/executor.py:742-761 | without any assumption: no route is run twice, and there are no more fallbacks than chain targets |
| RouteFallbackTheorems.AlongChain | src/swallow/orchestration/executor.py:522-542 | when names are kept and the chain has no repetition, the routes run are a contiguous segment of it that ends exactly where a run does not move on or no registered route follows |
| RouteFallbackTheorems.SegmentUnique | src/swallow/orchestration/executor.py:726-764 | there is only one such segment |
| RouteFallbackTheorems.RunReport | src/swallow/orchestration/executor.py:568-579 | a result is degraded if and only if another route was run; then it names the first and the last route, the state is on the last one, and completion is that of the last run |
| RouteFallbackTheorems.RunAlongResolvedChain | src/swallow/orchestration/executor.py:726-764 | from a registered route with its resolved chain, the routes run are a prefix of that chain |
| ReviewGate.ValidateOutputSchema | src/swallow/orchestration/review_gate.py:41-100 | the check and its explanation; it passes if and only if nothing is demanded, or the output is an object with all required fields and constants, where an absent field reads as null |
| ReviewGate.ListsInOrder | src/swallow/orchestration/review_gate.py:60-94 | the missing fields and the wrong constants are listed in the order of the schema |
| ReviewGate.SchemaWording | src/swallow/orchestration/review_gate.py:41-100 | the explanation names the missing fields, else the wrong constants, else what was validated |
| ReviewGate.ReviewExecutorOutput | src/swallow/orchestration/review_gate.py:188-212 | the gate passes if and only if the run completed with non-blank output that meets the schema |
| ReviewGate.LocalWording | src/swallow/orchestration/review_gate.py:188-212 | what the two local checks are called, when they pass and what they say |
| ReviewGate.NormalizedReviewerRoutes | src/swallow/orchestration/review_gate.py:220-229 | the non-blank routes, trimmed, each once, in order |
| ReviewGate.ReviewersInOrder | src/swallow/orchestration/review_gate.py:220-229 | reviewers are listed by their first entry |
| ReviewGate.RunReviewGate | src/swallow/orchestration/review_gate.py:527-631 | the verdict and checks with their explanations, for every reviewer behaviour |
| ReviewGate.FailedGateHasFailedCheck | src/swallow/orchestration/review_gate.py:527-603 | a failed gate always carries a failed check |
| ReviewGate.MajorityBySet | src/swallow/orchestration/review_gate.py:572-602 | under the majority policy the gate passes if and only if the result is locally fine and more than half of the distinct named reviewers reply with the status passed, whatever their order and repetition |
| ReviewGate.VetoByFirst | src/swallow/orchestration/review_gate.py:574-594 | under the veto policy the gate passes if and only if the result is locally fine and the first non-blank reviewer replies with the status passed |
| ReviewGate.RefusalsFail | src/swallow/orchestration/review_gate.py:291-603 | a reply of failed or of any other word, and each of the five reviews without a reply, is no approval: when all voters give such a review the gate fails, whatever the policy |
| ReviewGate.NoReplyWording | src/swallow/orchestration/review_gate.py:291-524 | the check of a reviewer without a reply is named after the route and says what happened |
| ReviewGate.ReplyWording | src/swallow/orchestration/review_gate.py:302-331 | a verdict is explained by its message or its word; another word is called invalid |
| ReviewGate.ConsensusTells | src/swallow/orchestration/review_gate.py:545-602 | the checks of a panel: the baseline, one per reviewer in order, and the verdict |
| ReviewGate.BaselineTells | src/swallow/orchestration/review_gate.py:543-550 | what the baseline check is called and says |
| ReviewGate.ConsensusWording | src/swallow/orchestration/review_gate.py:393-411 | the verdict tells the approvals and, under the majority policy, the least number that is more than half |
| DebateLoop.BuildReviewFeedback | src/swallow/orchestration/review_gate.py:130-155 | feedback lists the failed checks, all of them and in order, one suggestion for each, none twice, and shows the first 500 characters of the trimmed output, the last three of them dots if it is longer |
| DebateLoop.FailedInOrder | src/swallow/orchestration/review_gate.py:137 | the listed checks are those at the increasing places where a check failed |
| DebateLoop.SnippetShows | src/swallow/orchestration/review_gate.py:103-108 | a text of up to 500 characters is shown whole; of a longer one the first 497 without trailing whitespace, and dots |
| DebateLoop.FeedbackExists | src/swallow/orchestration/review_gate.py:137-139 | there is feedback if and only if the gate failed with a failed check |
| DebateLoop.SuggestionsCover | src/swallow/orchestration/review_gate.py:141-147 | the suggestions are exactly those of the failed checks |
| DebateLoop.SuggestionNext | src/swallow/orchestration/review_gate.py:141-147 | the suggestion of one more failed check goes to the end, unless it is there already |
| DebateLoop.SuggestionWording | src/swallow/orchestration/review_gate.py:111-121 | which suggestion belongs to each of the four named checks |
| DebateLoop.RouteSuggestion | src/swallow/orchestration/review_gate.py:122-124 | the suggestion for a reviewer check names its route |
| DebateLoop.OtherSuggestion | src/swallow/orchestration/review_gate.py:125-127 | the suggestion for any other check names it and gives its detail |
| DebateLoop.Debate.DebateLoopCore | src/swallow/orchestration/execution_attempts.py:254-303 | for every outcome of the attempts: which attempt is last, that attempt k + 1 runs under the feedback on attempt k, what is stored and recorded, and that only giving up leaves feedback in the state |
| DebateLoop.DebateEnds | src/swallow/orchestration/execution_attempts.py:254-303 | under the real gate the loop stops at the first attempt that passed or did not complete, and gives up if and only if all four completed and failed; the exit for missing feedback is never taken |
| DebateLoop.DocumentsOfRounds | src/swallow/orchestration/orchestrator.py:485-497 | each round's feedback document is stored under its own reference |
| DebateLoop.RunSingleTaskWithDebate | src/swallow/orchestration/orchestrator.py:864-970 | a result handed back as completed has passed review; giving up hands back a failed result after exactly four attempts, with the reference of the third feedback |
| RelationSuggestions.ResolveKnowledgeObjectId | src/swallow/knowledge_retrieval/_internal_canonical_registry.py:65-114 | an existing object is itself; a canonical id beats aliases; an alias resolves only when live records give it to one object |
| RelationSuggestions.ResolveTells | src/swallow/knowledge_retrieval/_internal_canonical_registry.py:65-114 | an existing object is itself; else the first record with this canonical id decides; else the objects that live records give the alias to: none is unknown, one is the result, two are ambiguous |
| RelationSuggestions.ResolveIdempotent | src/swallow/knowledge_retrieval/_internal_canonical_registry.py:65-114 | a resolved id is that of an existing object and resolves to itself |
| RelationSuggestions.NormalizeRelationSuggestions | src/swallow/knowledge_retrieval/_internal_knowledge_suggestions.py:31-57 | the usable suggestions in order, trimmed, with a non-negative confidence |
| RelationSuggestions.NormalizedTells | src/swallow/knowledge_retrieval/_internal_knowledge_suggestions.py:31-57 | an entry is usable exactly with both ends and a kind; texts are trimmed; a confidence that is negative or unreadable is zero |
| RelationSuggestions.NormalizedNext | src/swallow/knowledge_retrieval/_internal_knowledge_suggestions.py:31-57 | usable entries keep their order |
| RelationSuggestions.CreatesWhatIsMeant | src/swallow/knowledge_retrieval/_internal_knowledge_relations.py:68-125 | creating a resolved suggestion inserts just that relation or raises, by whether its ends differ, its type is supported and its store types fit |
| RelationSuggestions.RelationStore.ApplyRelationSuggestions | src/swallow/knowledge_retrieval/_internal_knowledge_suggestions.py:60-132 | a dry run and a real run that gets through report the same, and the real run has added what it reports as applied; a real run that raises has added what came before |
| RelationSuggestions.CountsAdd | src/swallow/knowledge_retrieval/_internal_knowledge_suggestions.py:63-131 | the three counts sum to the suggestion count and are the lengths of their lists |
| RelationSuggestions.AppliedExactly | src/swallow/knowledge_retrieval/_internal_knowledge_suggestions.py:77-131 | the applied relations are exactly the resolvable suggested ones not yet stored, no key twice, whatever the order of the suggestions |
| RelationSuggestions.ReportTells | src/swallow/knowledge_retrieval/_internal_knowledge_suggestions.py:77-131 | each list is in the order of the suggestions: applied are the first suggestions of edges between resolved objects that are not stored, invalid those with an end that does not resolve, duplicates all others |
| RelationSuggestions.RaisesExactly | src/swallow/knowledge_retrieval/_internal_knowledge_suggestions.py:77-129 | a real run gets through if and only if no suggestion asks for a relation between resolved objects that is not stored and cannot be created |
| RelationSuggestions.RaisesAsReported | src/swallow/knowledge_retrieval/_internal_knowledge_suggestions.py:108-129 | a real run gets through if and only if everything a dry run reports as applied can be created |
| RelationSuggestions.SelfRelationRaises | src/swallow/knowledge_retrieval/_internal_knowledge_suggestions.py:108-128 | a relation of an object to itself is applied in a dry run and raises in a real one |
| RelationSuggestions.SecondRun | src/swallow/knowledge_retrieval/_internal_knowledge_suggestions.py:60-132 | a second real run creates nothing; it gets through or raises like the first, at the same suggestion |
| Percent.UnquoteQuote | src/swallow/knowledge_retrieval/raw_material.py:178-184 | decoding undoes encoding for every text, whether or not slashes are kept |
| Percent.QuoteBytesChars | src/swallow/knowledge_retrieval/raw_material.py:93-96 | encoded text has only unreserved characters, percent signs and kept slashes |
| Percent.QuoteAscii | src/swallow/knowledge_retrieval/raw_material.py:93-96 | exactly the unreserved characters, and the slash where it is kept, stand for themselves; any other ASCII character is a percent sign and its two upper-case hexadecimal digits |
| Percent.OnlyUtf8 | src/swallow/knowledge_retrieval/raw_material.py:178-184 | a character is decoded exactly where its own bytes stand: no other bytes give it |
| Percent.Utf8Samples | src/swallow/knowledge_retrieval/raw_material.py:93-96 | the bytes of characters of two, three and four bytes |
| Percent.EscapesRead | src/swallow/knowledge_retrieval/raw_material.py:178-184 | an escape is read in either case; a percent sign without two digits stays |
| Percent.HexDigits | src/swallow/knowledge_retrieval/raw_material.py:178-184 | the value of every hexadecimal digit of either case |
| RawMaterialRefs.PartsJoin | src/swallow/knowledge_retrieval/raw_material.py:203-212 | joining clean components and splitting again gives them back |
| RawMaterialRefs.PosixFixed | src/swallow/knowledge_retrieval/raw_material.py:203-212 | the printed form of a relative path is stable, relative and no longer than the path |
| RawMaterialRefs.SplitPrinted | src/swallow/knowledge_retrieval/raw_material.py:62-75 | a printed reference is split exactly at the places it was put together at |
| RawMaterialRefs.SplitComposed | src/swallow/knowledge_retrieval/raw_material.py:62-75 | a URI of scheme, authority, path, query and fragment splits into these parts, the scheme in lower case |
| RawMaterialRefs.SplitWithoutAuthority | src/swallow/knowledge_retrieval/raw_material.py:62-75 | without a double slash after the scheme there is no authority |
| RawMaterialRefs.ParseTells | src/swallow/knowledge_retrieval/raw_material.py:62-75 | a reference that is blank or has no scheme is refused, as is one with a blank key; any other gives its scheme, key and decoded fragment |
| RawMaterialRefs.SchemeChars | src/swallow/knowledge_retrieval/raw_material.py:67-69 | the characters a scheme can have, and those it can start with |
| RawMaterialRefs.CombinedTells | src/swallow/knowledge_retrieval/raw_material.py:178-184 | the key is the decoded path without authority, the authority without path, and else both with one slash between them |
| RawMaterialRefs.ParsePrinted | src/swallow/knowledge_retrieval/raw_material.py:62-96 | an artifact reference, with or without fragment, parses to its scheme, its task and path joined, and its fragment |
| RawMaterialRefs.RoundTripExactly | src/swallow/knowledge_retrieval/raw_material.py:93-96 | printing and parsing gives back the task and the normalised path if and only if the path has a component and is trimmed |
| RawMaterialRefs.AcceptedExactly | src/swallow/knowledge_retrieval/raw_material.py:93-96 | a task is accepted if and only if it is one component other than a dot or two without backslashes, a path if and only if it is relative without parent components, both after trimming; the reference printed is of these |
| RawMaterialRefs.DotIsNotReadBack | src/swallow/knowledge_retrieval/raw_material.py:224-235 | the path `.` is accepted and printed but refused when parsed |
| RawMaterialRefs.LegacyDisplaysExactly | src/swallow/knowledge_retrieval/raw_material.py:99-117 | a converted legacy reference is displayed in printed form if and only if its task and path are trimmed, and as itself without its fragment if and only if it is in printed form as well; the fragment is kept |
| RawMaterialRefs.LegacyAcceptedExactly | src/swallow/knowledge_retrieval/raw_material.py:99-117 | a legacy reference converts if and only if it has the five components and its task and path are accepted; what follows its first hash becomes the fragment |
| RawMaterialRefs.ArtifactStays | src/swallow/knowledge_retrieval/raw_material.py:99-105 | a reference that is an artifact URI already stays, exactly when it can be read |
| RawMaterialRefs.DisplayTells | src/swallow/knowledge_retrieval/evidence_pack.py:472-488 | what is displayed for workspace files, for artifacts with a task and a path, and for all other references |
| RawMaterialRefs.Roots | src/swallow/knowledge_retrieval/evidence_pack.py:472-488 | the root of an absolute key: one slash, or two when there are exactly two |
| RawMaterialRefs.DisplayPrinted | src/swallow/knowledge_retrieval/evidence_pack.py:472-488 | what is displayed for a printed reference is computed from its own task and path |
| Rerank.NormalizeOrderedIndexes | src/swallow/knowledge_retrieval/retrieval_adapters.py:602-621 | the usable indexes in first-occurrence order, then the others ascending; nothing when none is usable |
| Rerank.OrderIsPermutation | src/swallow/knowledge_retrieval/retrieval_adapters.py:602-621 | that order is a permutation of the candidates |
| Rerank.ParseResponse | src/swallow/knowledge_retrieval/retrieval_adapters.py:547-599 | the order and scores of every payload, or that it is unusable |
| Rerank.OrderTells | src/swallow/knowledge_retrieval/retrieval_adapters.py:567-599 | of two candidates with results the one placed earlier has a result that beats all of the other, by score and then by place; those without results come last, ascending |
| Rerank.DefaultKeepsOrder | src/swallow/knowledge_retrieval/retrieval_adapters.py:577-587 | without readable scores the candidates keep the order in which the results first name them |
| Rerank.NotedTells | src/swallow/knowledge_retrieval/retrieval_adapters.py:567-587 | the noted score is that of the last result naming the candidate: its relevance score, else its score, else one that falls with its place |
| Rerank.PayloadChoice | src/swallow/knowledge_retrieval/retrieval_adapters.py:547-566 | an explicit order beats results, and results beat data |
| Rerank.ResponseIsPermutation | src/swallow/knowledge_retrieval/retrieval_adapters.py:547-599 | every payload that does not raise gives a permutation |
| Rerank.PlacedByBest | src/swallow/knowledge_retrieval/retrieval_adapters.py:586-598 | of two scored candidates the one placed earlier has the better best result |
| Rerank.BestExists | src/swallow/knowledge_retrieval/retrieval_adapters.py:586-598 | every scored candidate is listed and has a best result |
| Rerank.NotedIsLast | src/swallow/knowledge_retrieval/retrieval_adapters.py:567-587 | a score is noted for exactly the candidates with a usable result, and it is that of the last one |
| Rerank.NotedIsPlacingExactly | src/swallow/knowledge_retrieval/retrieval_adapters.py:586-599 | the noted score of a candidate is the one that places it if and only if no earlier usable result of it scores above its last one |
| Rerank.NotedScoreIsLast | src/swallow/knowledge_retrieval/retrieval_adapters.py:586-599 | a payload whose noted scores contradict its order |
| Rerank.RerankRetrievalItems | src/swallow/knowledge_retrieval/retrieval.py:931-1024 | no item is lost or added; the reranker is asked exactly when it is on and set up, there is a query, and it has two items to order; with a usable response the first items move to the places it gives, noted with place and score, the others stay; without one all stay; final ranks are 1 to n, and a raw score that is already noted stays |
| Rerank.AnnotateRerankTrace | src/swallow/knowledge_retrieval/retrieval.py:1027-1053 | final ranks are 1 to n in order, a raw score that is already noted stays, and nothing else but the two marks changes |
| Rerank.TakenKeepsAll | src/swallow/knowledge_retrieval/retrieval.py:1000-1018 | taking items in the order of a permutation keeps their multiset |
| EvidencePack.BuildEvidencePack | src/swallow/knowledge_retrieval/evidence_pack.py:90-149 | bucket sizes plus counters are the numbers of items routed; places are in the order they were opened; entries agree with the per-anchor account, those without an anchor are of their own item; pointers likewise |
| EvidencePack.RoutedTells | src/swallow/knowledge_retrieval/evidence_pack.py:90-149 | an anchor's items go to support if they are labelled supporting evidence or are artifacts and are not labelled as truth, and to fallback if they have the fallback flag, in order |
| EvidencePack.SlotsTell | src/swallow/knowledge_retrieval/evidence_pack.py:283-312 | entries are opened exactly by the items without an anchor and by the first item of each anchor that goes to the bucket |
| EvidencePack.CountsTell | src/swallow/knowledge_retrieval/evidence_pack.py:90-149 | the totals the bucket sizes and counters add up to are the numbers of items with those labels and flags |
| EvidencePack.TrackMeaning | src/swallow/knowledge_retrieval/evidence_pack.py:283-325 | per anchor: which items the entries are of, and what they count, shared or not |
| EvidencePack.EntryCounts | src/swallow/knowledge_retrieval/evidence_pack.py:283-325 | the support entry is the first one labelled supporting evidence, else the last; the fallback entry is the first; both counts are the numbers of merged duplicates if and only if the buckets do not start with the same item or merged nothing |
| EvidencePack.AnchorsUnique | src/swallow/knowledge_retrieval/evidence_pack.py:283-312 | no two entries of a bucket have the same anchor |
| EvidencePack.PointerIsFirst | src/swallow/knowledge_retrieval/evidence_pack.py:328-345 | the pointer of an anchor is the first resolved one, else the first |
| EvidencePack.SharedEntryMiscounts | src/swallow/knowledge_retrieval/evidence_pack.py:110-135 | in every finished pack of two such items the fallback entry reports two duplicates where one was merged |
| KnowledgeDecisions.ApplyKnowledgeDecision | src/swallow/knowledge_retrieval/knowledge_review.py:146-216 | which decisions are refused or denied, and which object and record the others give |
| KnowledgeDecisions.DecisionTells | src/swallow/knowledge_retrieval/knowledge_review.py:146-216 | the whole table of decisions on the first object with the id: what each kind and target needs, sets and logs, with the intent to promote set by a canonical promotion of an object without intent |
| KnowledgeDecisions.UnknownIdRefused | src/swallow/knowledge_retrieval/knowledge_review.py:155-160 | a decision on an id no object has is refused |
| KnowledgeDecisions.LogChains | src/swallow/knowledge_retrieval/knowledge_review.py:146-216 | over any sequence of decisions, the records of an object chain from its first state to the state it is in |
| KnowledgeDecisions.CanonicalOverRun | src/swallow/knowledge_retrieval/knowledge_review.py:173-199 | canonical is absorbing, and is reached only by a verified, artifact-backed object under a logged allowed authority |
| KnowledgeDecisions.RunKeeps | src/swallow/knowledge_retrieval/knowledge_review.py:155-204 | decisions never change ids, evidence or text |
| KnowledgeDecisions.LatestDecisionsByObject | src/swallow/knowledge_retrieval/knowledge_review.py:25-31 | for each non-blank trimmed id of the log its last record, and nothing else |
| KnowledgeDecisions.LatestIsLast | src/swallow/knowledge_retrieval/knowledge_review.py:25-31 | an id is read exactly when it is the non-blank trimmed id of some record, and its record is the last such |
| KnowledgeDecisions.LogReproduces | src/swallow/knowledge_retrieval/knowledge_review.py:25-31 | the log tells the state of an object with a non-blank trimmed id that no other reached object shares after trimming, whatever the other ids are |
| KnowledgeDecisions.LogTellsExactly | src/swallow/knowledge_retrieval/knowledge_review.py:25-31 | the log tells an object after every sequence of decisions if and only if, for a clean id, every other reached object whose id trims to it can only end up in its state, and for another id, no decision can change it |
| KnowledgeDecisions.RebuiltExactly | src/swallow/knowledge_retrieval/knowledge_review.py:25-31 | all objects can be rebuilt from the start and the log after every run if and only if that condition holds for each of them |
| KnowledgeDecisions.CleanIdsTell | src/swallow/knowledge_retrieval/knowledge_review.py:25-31 | unique trimmed ids meet the condition |
| KnowledgeDecisions.ActiveFromLog | src/swallow/knowledge_retrieval/knowledge_index.py:21-63 | when the log tells an object, its record is in the active index after a run if and only if the state the log tells is ready |
| KnowledgeDecisions.IndexFromLog | src/swallow/knowledge_retrieval/knowledge_index.py:21-63 | when the log tells every object, both parts of the index after a run, in order, are those built from the start and the log |
| KnowledgeDecisions.BuildKnowledgeIndex | src/swallow/knowledge_retrieval/knowledge_index.py:21-63 | the active and inactive records, in order |
| KnowledgeDecisions.RecordsInOrder | src/swallow/knowledge_retrieval/knowledge_index.py:25-51 | both parts follow the order of the objects |
| KnowledgeDecisions.IndexRecordTells | src/swallow/knowledge_retrieval/knowledge_index.py:25-51 | a record tells the object's id and state, is active exactly for a verified, artifact-backed candidate, and else tells the reason |
| KnowledgeDecisions.RecordsExactly | src/swallow/knowledge_retrieval/knowledge_index.py:25-51 | the active records are exactly those of the ready objects, the inactive ones those of the other candidates |
| KnowledgeDecisions.IndexSplits | src/swallow/knowledge_retrieval/knowledge_index.py:25-51 | an object's record is in the active part if and only if it is ready, and in the inactive part if and only if it is another candidate |
| KnowledgeDecisions.ReasonExactly | src/swallow/knowledge_retrieval/knowledge_index.py:8-18 | the reason names the first of the three conditions that fails: candidate, verified, artifact-backed; it says active exactly when all hold |
| KnowledgeDecisions.SharedIdsMislead | src/swallow/knowledge_retrieval/knowledge_review.py:155-160 | two objects with one id: the log describes the first only |

## Left out

- RelationExpansionQueue.ExpandByRelations: previews, titles and the other metadata of emitted items are carried by the document; scores are real numbers, so rounding is not captured; how the lookup is built is a parameter.
- MarkdownChunks.BuildMarkdownChunks: chunk titles and texts, and the patterns for headings and blank lines (lines are classified, every heading being non-blank).
- KnowledgeStore.KnowledgeBase.PersistTaskKnowledgeView: the file backend only; ids are plain file names, JSON is the identity, and the write authority of the SQLite backend is not modelled.
- KnowledgeEntries.NormalizeWiki: fields the code does not touch are one text field; a missing field and its default are the same.
- SourceEvidence.SourceEvidenceBase.Materialize: how an anchor is hashed into an entry; one call uses one clock reading for all its loads, which `ExistsAnyTime` shows not to matter for what exists.
- RouteFallback.Runner.RunExecutor: the text of results, prompts, processes and HTTP are replaced by an outcome per run; a rate limit is any failure to a command-line agent; the asynchronous twins repeat this code.
- RouteFallback.Runner.RunPromptExecutor: its registry returns trimmed, non-empty names, as the registry's own normaliser makes them; descriptive route fields are grouped in one record, and the dialect of a route is already resolved.
- Routes.ResolveFallbackChain: routes are found in a map; how registry and policy files are read is not modelled.
- ReviewGate.RunReviewGate: reviewers answer through a function instead of concurrently; the nested checks inside a reviewer's check, prompts and JSON repair are left out.
- DebateLoop.Debate.DebateLoopCore: events are recorded by their reference; the rendering of feedback as markdown and the asynchronous twin are left out.
- DebateLoop.RunSingleTaskWithDebate: librarian side effects and the binary fallback inside an attempt are part of its outcome.
- RelationSuggestions.ResolveKnowledgeObjectId: the names a record's references give are a set; splitting references into base names is left out.
- RelationSuggestions.RelationStore.CreateKnowledgeRelation: relation ids, creation times and creators.
- Percent.Decode: malformed UTF-8 in percent escapes is replaced byte by byte, where Python replaces maximal broken parts.
- RawMaterialRefs.UrlSplit: removal of control characters, bracketed hosts and their errors, and `;` parameters.
- RawMaterialRefs.Display: references to workspace files are parsed and displayed, but printing them from file-system paths is left out.
- Rerank.RerankRetrievalItems: documents, the HTTP call and backend names in the trace.
- EvidencePack.BuildEvidencePack: labels and flags are given; the plain buckets of primary and canonical objects, expansion path counts and the resolving of pointers are left out; entries are numbered cells instead of heap objects, which keeps sharing visible.
- KnowledgeDecisions.ApplyKnowledgeDecision: times, notes and the deciding user of a record; the review queue.
- Policy tables, reports, command line, checkpoints and stop policy: flat case analysis or string formatting.
- Retrieval scoring, embeddings, vector search and the SQLite store: outside code or floating point.
