# Verification model of the Phoenix trace core and the Anvesha server

A Dafny 4.11 model of the parts of the repository that keep derived state or refine one form of data
by another, with proofs of what these parts are for. `dafny verify dfyconfig.toml` checks all of it.

* **Span ingestion** (`Forest`, `SpanCounts`, `SpanIngestion`). Spans arrive in any order. Each insert
  sums the children already stored, stores the row unless its span id is taken, and raises all stored
  ancestors. The counters always equal the sum over the stored subtree; trace and session windows are
  exact hulls. Deleting a span keeps the counters exact only under a condition that is proved exact.
* **Dotted attributes** (`Text`, `Keys`, `Tries`, `Walks`, `Orders`, `Precedence`, `Outcomes`, `Flattening`,
  `Unflatten`, `Collisions`, `LoneKeys`, `RoundTrip`, `Otlp`). Flattening, the mutable trie, the walk over
  unordered sets, and the OTLP attribute codec on top. The trie is canonical; the walk is followed
  through every order in which its sets can iterate, and the condition under which the result is the
  same in all of them is proved exact. Unflattening undoes flattening, flattening undoes unflattening
  exactly when lists are numbered without gaps, and the codec round-trips.
* **Queries and calendar** (`Calendar`, `TimeBuckets`, `Revisions`, `IncompleteRuns`,
  `IncompleteEvaluations`, `Pagination`). The bucket generator and the SQLite truncation are both
  measured against what a bucket boundary is; ranked revisions are compared with replaying the log; the
  two-path query and the completeness counts, on lists of rows, with what they stand for; their pages
  are followed while the tables change.
* **Bulk inserter** (`BulkInsertion`). One consumer and any number of producers; every await of the
  consumer lets producers do anything they can, over any number of rounds.
* **Anvesha** (`AnveshaIngest`, `AnveshaInvariants`, `AnveshaAttributes`, `TraceTree`). All-or-nothing
  requests that replay without effect, what holds in every reachable database, nested writes where the
  last comparable write wins, and the trace page's tree.
* **Price manifest** (`Manifest`). Reconciling built-in price models with the manifest at start-up.
* `Wrappers`, `Finite` and `Hulls` hold what several parts share.

Tables are maps and sets of records keyed by the columns the schema declares unique. Code that updates
state in place is a class whose methods are proved against functions on values; lemmas state what these
functions mean. Clocks, sessions that open or fail, regular expressions that compile, JSON text and
integer conversion are parameters or free choices.

Where code and documentation differ the model follows the code. The documentation of the attribute
module says empty key segments are ignored (line 53); the trie keeps them, so `a..b` and `a.b` can
collide (`Collisions.EmptySegmentsCollide`). A result is the same for every order of iteration exactly
when nodes that print alike and are not overtaken agree (`Unflatten.ResultIsDeterminedExactly`); `.0.b`
always overtakes `0.b` (`Collisions.DeterminedKeys`). Deleting the last span of a trace leaves ancestors in other
traces uncorrected (`SpanIngestion.DeleteExactness`). The summed example count of a dataset without
revisions is NULL, which `extracted-core/src/phoenix/db/models.py:1243` passes on although the getter at
line 1218 insists on an integer, while the list of datasets counts zero
(`Revisions.NewDatasetHasNoCount`). Run numbers above the experiment's repetitions are accepted, and an
example with enough of them is dropped from the incomplete runs (`IncompleteRuns.DroppedExactlyWhen`,
`IncompleteRuns.SecondRepetitionDropped`). The manifest run looks models up by the name as written and
stores the stripped one (`Manifest.SecondRun`), and cannot give a built-in model a new name while
keeping its pattern and provider (`Manifest.RenamingRefused`). In the Anvesha server a span without a
session id widens its trace and not the session (`AnveshaInvariants.CoverageKeptExactlyWhen`).

## Model

| member | source | states |
|---|---|---|
| SpanIngestion.SpanStore.InsertSpan | extracted-core/src/phoenix/db/insertion/span.py:25-197 | one submission keeps every stored counter equal to the sum over the span's stored subtree, the windows exact and each session in the project of the first trace that was given its id, and reports a new row exactly when the span id was free |
| SpanIngestion.SpanStore.InsertAll | extracted-core/src/phoenix/db/insertion/span.py:25-197 | the same for a whole batch, with late parents, late children and duplicates; also says which rows and windows result |
| SpanIngestion.SpanStore.TouchTrace | extracted-core/src/phoenix/db/insertion/span.py:32-104 | the trace row is created or widened and given its first session before the span row is tried, so duplicates widen it too |
| SpanIngestion.SpanStore.TouchSession | extracted-core/src/phoenix/db/insertion/span.py:66-98 | the session row is created with the project and window of the trace, or widened to that window |
| SpanIngestion.SpanStore.Touch | extracted-core/src/phoenix/db/insertion/span.py:32-104 | the two steps together keep trace windows, session windows and the projects of sessions what the history makes them |
| SpanIngestion.NewSessionOpens | extracted-core/src/phoenix/db/insertion/span.py:76-90 | a session row is created by the first submission that gives its id to a trace without a session |
| SpanIngestion.SessionKeepsProject | extracted-core/src/phoenix/db/insertion/span.py:82-90 | the project of a session is that of its first trace, one only, and no later submission changes it |
| SpanIngestion.SessionIdRead | extracted-core/src/phoenix/db/insertion/span.py:62-63 | the session id is what stands between the surrounding spaces, and empty without the attribute |
| SpanIngestion.CountersMean | extracted-core/src/phoenix/db/insertion/span.py:106-142 | with exact counters every span shows how many spans of its subtree failed and the sums of the prompt and of the completion token counts that could be read there |
| SpanIngestion.SpanStore.SumOverChildren | extracted-core/src/phoenix/db/insertion/span.py:131-142 | the totals of the rows that already name the new span as their parent, added up |
| SpanIngestion.SpanStore.AncestorsOf | extracted-core/src/phoenix/db/insertion/span.py:175-185 | the recursive walk meets every stored ancestor once, nearest first, and ends |
| SpanIngestion.SpanStore.InsertRow | extracted-core/src/phoenix/db/insertion/span.py:143-196 | a conflicting span id changes nothing; otherwise the row is stored and counters stay exact |
| SpanIngestion.SpanStore.StoreAndRaise | extracted-core/src/phoenix/db/insertion/span.py:171-196 | the new subtree's total goes to exactly the stored proper ancestors |
| SpanCounts.InsertKeepsExact | extracted-core/src/phoenix/db/insertion/span.py:106-196 | counting the children once and raising the ancestors turns exact counters into exact counters |
| SpanCounts.NewRowTotal | extracted-core/src/phoenix/db/insertion/span.py:131-142 | a late parent's own values plus its children's counters are its subtree's total |
| SpanCounts.ChildrenTotals | extracted-core/src/phoenix/db/insertion/span.py:131-142 | children's counters cover disjoint subtrees |
| SpanCounts.OldRowTotal | extracted-core/src/phoenix/db/insertion/span.py:171-196 | storing a row adds its subtree's total to exactly its stored ancestors |
| Forest.WalkEndsIffAcyclic | extracted-core/src/phoenix/db/insertion/span.py:175-185 | the walk with UNION ALL ends from every start if and only if no span is its own ancestor |
| SpanIngestion.ArrivalOrderIrrelevant | extracted-core/src/phoenix/db/insertion/span.py:106-196 | any order and any repetition of the same submissions give the same rows and the same counters |
| SpanIngestion.TracesStayMatched | extracted-core/src/phoenix/db/insertion/span.py:32-60 | a trace's window stays the least interval over all spans submitted for it, its project the first one named, its session the first one given |
| SpanIngestion.SessionsStayMatched | extracted-core/src/phoenix/db/insertion/span.py:66-98 | a session's window stays the least interval over its traces' windows |
| SpanIngestion.BatchKeepsWindows | extracted-core/src/phoenix/db/insertion/span.py:32-98 | windows stay exact over any number of submissions |
| SpanIngestion.SessionAndProjectStay | extracted-core/src/phoenix/db/insertion/span.py:37-80 | once set, neither the session nor the project of a trace changes |
| SpanIngestion.SpanStore.DeleteSpan | extracted-core/src/phoenix/server/api/routers/v1/spans.py:1359-1408 | after a deletion the counters are exact if and only if the span's trace survives, or it had no stored parent, or its subtree's total was zero |
| SpanIngestion.SpanStore.RemoveRow | extracted-core/src/phoenix/server/api/routers/v1/spans.py:1359-1408 | only the stored proper ancestors are lowered, and only when the trace keeps a span |
| SpanIngestion.DeleteExactness | extracted-core/src/phoenix/server/api/routers/v1/spans.py:1377-1408 | the exact condition under which a deletion keeps every counter exact |
| SpanIngestion.DeleteCanSpoilCounters | extracted-core/src/phoenix/server/api/routers/v1/spans.py:1386-1389 | the failing input: a child alone in its trace, with values of its own, whose parent lies in another trace |
| SpanCounts.WalkAfterRemoval | extracted-core/src/phoenix/db/db/helpers.py:475-499 | the ancestor walk run after the removal still finds all proper ancestors of the removed row |
| Tries.Trie.SetValue | extracted-core/src/phoenix/trace/attributes.py:242-248 | writing a value turns the node's indices into branches and changes nothing else in what the trie records |
| Tries.Trie.AddIndex | extracted-core/src/phoenix/trace/attributes.py:250-255 | passing through a numeric child makes it an index unless a value or an ended key forbids it |
| Tries.Trie.AddBranch | extracted-core/src/phoenix/trace/attributes.py:257-261 | a key ending in a child makes the child a branch for good |
| Tries.BuildTrie | extracted-core/src/phoenix/trace/attributes.py:264-302 | for all pairs in any order, the trie built is the one determined by the last value other than None given for each path |
| Tries.Descend | extracted-core/src/phoenix/trace/attributes.py:279-301 | the segment loop ends at the node of the parsed path, having visited its prefixes only |
| Tries.NodeWithIndex | extracted-core/src/phoenix/trace/attributes.py:250-255 | what an index does to every node of the trie |
| Tries.NodeWithBranch | extracted-core/src/phoenix/trace/attributes.py:257-261 | what a branch does to every node of the trie |
| Unflatten.TrieInvariants | extracted-core/src/phoenix/trace/attributes.py:242-261 | in every trie indices and branches are disjoint, a valued node has no indices, and an index child has no value |
| Keys.ParseKeyClean | extracted-core/src/phoenix/trace/attributes.py:279-299 | whatever the key, its segments are trimmed, without dots, and numbers only as indices |
| Keys.SegmentsRead | extracted-core/src/phoenix/trace/attributes.py:279-301 | every key is read segment by segment; an empty segment after the last dot does not count |
| Keys.KeyHasSegments | extracted-core/src/phoenix/trace/attributes.py:279-301 | every key is some segments joined by dots |
| Keys.PaddedReads | extracted-core/src/phoenix/trace/attributes.py:287-290 | a segment reads the same whatever space surrounds it, a number as an index |
| Keys.ZerosRead | extracted-core/src/phoenix/trace/attributes.py:289-290 | leading zeros make no difference to a number |
| Text.StripParts | extracted-core/src/phoenix/trace/attributes.py:288 | stripping removes space at both ends and leaves none there |
| Text.StripBetween | extracted-core/src/phoenix/trace/attributes.py:288 | text between spaces is exactly what stripping leaves |
| Keys.PrintAlike | extracted-core/src/phoenix/trace/attributes.py:337-338 | two paths are walked under the same key if and only if they agree after their leading empty segments |
| Walks.DictionaryYields | extracted-core/src/phoenix/trace/attributes.py:305-339 | the walk of one dictionary yields exactly one pair for each node to be emitted |
| Walks.FunctionalExactly | extracted-core/src/phoenix/trace/attributes.py:305-339 | the pairs walked for one dictionary give no key two values if and only if the nodes emitted that differ only in leading empty segments carry the same value |
| Orders.WalkIsVisit | extracted-core/src/phoenix/trace/attributes.py:305-339 | in any order of its sets, the walk yields the pairs of the nodes visited, one after the other: a node's own pair, then its indices, then its branches, the pairs of one child together |
| Orders.VisitHolds | extracted-core/src/phoenix/trace/attributes.py:305-339 | in any order, the nodes visited are exactly those to be emitted |
| Precedence.VisitInSequence | extracted-core/src/phoenix/trace/attributes.py:318-339 | whatever the order, no node comes before one it overtakes: one it lies below, or one that goes on through an index where it goes on through a branch |
| Precedence.FavouredIsLast | extracted-core/src/phoenix/trace/attributes.py:326-339 | for every node emitted there is an order after which only nodes that overtake it come |
| Outcomes.KeptIsTop | extracted-core/src/phoenix/trace/attributes.py:101-109 | the value a key keeps is that of a node that no other node of the key overtakes |
| Outcomes.TopIsKept | extracted-core/src/phoenix/trace/attributes.py:101-109 | every node that no other node of its key overtakes keeps the key in some order |
| Unflatten.WalkPairs | extracted-core/src/phoenix/trace/attributes.py:305-339 | in every trie, the walk yields exactly the sequence of pairs that belongs to the order its sets iterate in |
| Unflatten.WalkLabels | extracted-core/src/phoenix/trace/attributes.py:326-339 | the loop over children yields the pairs of each child together, in the order of the children |
| Unflatten.WalkDictionary | extracted-core/src/phoenix/trace/attributes.py:101-109 | collecting the walk keeps the last value of each key |
| Unflatten.WalkList | extracted-core/src/phoenix/trace/attributes.py:321-325 | list elements come in the order of their indices, each collected in the order its sets iterate in |
| Walks.SortedHolds | extracted-core/src/phoenix/trace/attributes.py:324 | sorting a set of indices puts each at its rank |
| Unflatten.Unflatten | extracted-core/src/phoenix/trace/attributes.py:101-109 | for all pairs the result is what the trie of the last values is collected into in some order of its sets, and the expected one wherever nodes that print alike agree |
| Unflatten.ResultIsDeterminedExactly | extracted-core/src/phoenix/trace/attributes.py:101-339 | for all pairs the result does not depend on the order of iteration if and only if, in the result and inside the values that survive in it, nodes that differ only in leading empty segments and are not overtaken by one another have the same value |
| Outcomes.OneOutcomeExactly | extracted-core/src/phoenix/trace/attributes.py:305-339 | the same for the walk of any node of any trie; otherwise two orders of its sets give two different dictionaries |
| Outcomes.ExpectedOutcome | extracted-core/src/phoenix/trace/attributes.py:305-339 | where nodes that print alike agree, every order gives the dictionary of the pairs walked |
| Unflatten.DeterminedWithoutEmptySegments | extracted-core/src/phoenix/trace/attributes.py:101-339 | every order gives the expected result if no key has an empty segment, and for a single key whatever its segments |
| Unflatten.UnflattenCanonical | extracted-core/src/phoenix/trace/attributes.py:229-339 | pairs with the same map from key to last value other than None give the same trie and the same result |
| RoundTrip.UnflattenAfterFlatten | extracted-core/src/phoenix/trace/attributes.py:101-146 | unflattening undoes flattening for all well-formed nested attributes, whichever way the pairs come ordered or repeated |
| RoundTrip.UnflattenAfterLeaves | extracted-core/src/phoenix/trace/attributes.py:101-146 | the same when dictionaries at chosen entries travel whole instead of being flattened |
| RoundTrip.FlattenIsLeaves | extracted-core/src/phoenix/trace/attributes.py:342-410 | flattening yields exactly the leaves, each under the key of its path |
| Flattening.FlattenAfterUnflatten | extracted-core/src/phoenix/trace/attributes.py:242-410 | flattening the unflattened pairs gives back every written value, list indices renumbered in their order |
| Flattening.ListFlattens | extracted-core/src/phoenix/trace/attributes.py:383-412 | a list with a dictionary in it is flattened item by item under the positions, its other items dropped; any other list is left whole |
| Flattening.LosslessWithoutGaps | extracted-core/src/phoenix/trace/attributes.py:242-410 | with gapless indices the flattened pairs are exactly the keys with their last values, dotted conflicts included |
| Flattening.LosslessExactlyWithoutGaps | extracted-core/src/phoenix/trace/attributes.py:242-410 | nothing is lost if and only if every list is numbered without gaps |
| Unflatten.FlattenUnflattenByKey | extracted-core/src/phoenix/trace/attributes.py:101-146 | the same, in terms of keys |
| Collisions.EmptySegmentsCollide | extracted-core/src/phoenix/trace/attributes.py:328-339 | the keys `a..b` and `a.b` with different values: two orders of the same trie give two different results |
| Collisions.IndexBeforeBranch | extracted-core/src/phoenix/trace/attributes.py:326-339 | a numbered path and the same path below an empty segment collide, and yet the result is determined |
| Collisions.LaterBranchWins | extracted-core/src/phoenix/trace/attributes.py:326-339 | in every order the value kept for that number is the one below the empty segment |
| Collisions.ChainIsDetermined | extracted-core/src/phoenix/trace/attributes.py:318-339 | for keys that extend one another the result is determined, whatever their segments |
| Collisions.DeterminedKeys | extracted-core/src/phoenix/trace/attributes.py:318-339 | so it is for `0.b` with `.0.b`, and for the empty key with `..` |
| LoneKeys.LoneKeyComesBack | extracted-core/src/phoenix/trace/attributes.py:242-410 | for a single key whatever its segments: what it unflattens to, and the one key that comes back when this is flattened again |
| LoneKeys.EmptySegmentsAreLost | extracted-core/src/phoenix/trace/attributes.py:242-410 | the key that comes back has no empty segment before its last, and is as long as the original if and only if that had none either |
| LoneKeys.GapComesBackShorter | extracted-core/src/phoenix/trace/attributes.py:242-410 | `a..b` comes back as `a.b` |
| Keys.ParseShow | extracted-core/src/phoenix/trace/attributes.py:279-301 | reading a printed path gives the path back |
| Keys.ShowInjective | extracted-core/src/phoenix/trace/attributes.py:337-338 | different paths print as different keys |
| Otlp.EncodesExactly | extracted-core/src/phoenix/trace/otel.py:289-302 | a value is encoded if and only if nothing in it is absent, a mapping or an integer of more than 64 bits, and then as the wire value of its own kind, lists element by element |
| Otlp.DecodeEncoded | extracted-core/src/phoenix/trace/otel.py:147-302 | decoding what encoding gives for an encodable value returns the value |
| Otlp.KvListReads | extracted-core/src/phoenix/trace/otel.py:140-165 | a key-value list reads as a dictionary in which a repeated key keeps its last value |
| Otlp.JsonKeysEnd | extracted-core/src/phoenix/trace/attributes.py:80-85 | JSON keys are those that end in one of the listed names |
| Otlp.FlattenJsonIsFlatten | extracted-core/src/phoenix/trace/attributes.py:342-410 | flattening with JSON-string keys is flattening the value with each dictionary under such a key replaced by its text |
| Otlp.SentLeaves | extracted-core/src/phoenix/trace/attributes.py:342-410 | the leaves of what is sent are the leaves of the value, dictionaries under JSON keys as text |
| Otlp.FlattenTop | extracted-core/src/phoenix/trace/otel.py:198-228 | one attribute is dropped when absent, replaced by its text or by what it flattens into, or left as it is |
| Otlp.FlatAttributes | extracted-core/src/phoenix/trace/otel.py:196-231 | the attribute loop leaves exactly the flattened pairs, and the span kind when it was missing |
| Otlp.EncodeAttributes | extracted-core/src/phoenix/trace/otel.py:280-302 | every attribute is sent once, as its wire value, in any order; encoding raises if and only if some value holds something absent, a mapping or an integer of more than 64 bits |
| Otlp.Update | extracted-core/src/phoenix/trace/otel.py:207-228 | updating a dictionary from pairs in any order sets exactly their keys |
| Otlp.DecodeAttributes | extracted-core/src/phoenix/trace/otel.py:77-89 | for whatever keys arrive, decoding collects the coerced pairs in some order of the trie's sets and patches an input value that is not text; the expected attributes wherever nodes that print alike agree |
| Otlp.OneMoreReceived | extracted-core/src/phoenix/trace/otel.py:57-77 | one more pair sets its path to what it reads as: an integer for a token count that can be one, the loaded value for JSON text unless that is empty, itself otherwise; nothing else changes |
| Otlp.InputIsText | extracted-core/src/phoenix/trace/otel.py:84-89 | an input value that is neither text nor empty is replaced by its JSON text, marked as JSON, and nothing else is touched |
| Otlp.UnsetReadsAsNothing | extracted-core/src/phoenix/trace/otel.py:147-167 | an attribute sent without a value leaves the attributes as they were |
| Otlp.OtlpRoundTrip | extracted-core/src/phoenix/trace/otel.py:57-106 | decoding what encoding sends gives the attributes back, dictionaries sent as JSON text included, with the span kind put in place where they had none |
| Otlp.SendAttributes | extracted-core/src/phoenix/trace/otel.py:57-302 | flattening, encoding, decoding and patching composed: the attributes come back with their span kind, and encoding raises if and only if the text of some leaf holds something absent, a mapping or an integer of more than 64 bits |
| RoundTrip.PutLeaves | extracted-core/src/phoenix/trace/otel.py:230-231 | putting a value under a dotted key where there is room adds one leaf and keeps the others |
| Calendar.FindDate | extracted-core/src/phoenix/datetime_utils.py:181-222 | the date of a day number, leap years included |
| Calendar.OrdinalInjective | extracted-core/src/phoenix/datetime_utils.py:181-222 | different dates have different day numbers |
| Calendar.DatesAreGregorian | extracted-core/src/phoenix/datetime_utils.py:181-222 | month lengths, valid days and day numbers follow the Gregorian rule of one leap year in four, except centuries, except every fourth century |
| Calendar.WeekdaysAreGregorian | extracted-core/src/phoenix/datetime_utils.py:191-192 | weekdays follow one another from a Saturday on January 1st 2000 |
| TimeBuckets.FloorFinds | extracted-core/src/phoenix/datetime_utils.py:180-198 | the start is rounded down to the bucket boundary at or before it |
| TimeBuckets.SuccessorFinds | extracted-core/src/phoenix/datetime_utils.py:206-223 | each step leads to the next bucket boundary, over months, years and leap days |
| TimeBuckets.SqliteFinds | extracted-core/src/phoenix/db/db/helpers.py:433-472 | SQLite truncation finds the bucket boundary at or before the local time, Monday weeks included |
| TimeBuckets.GetTimestampRange | extracted-core/src/phoenix/datetime_utils.py:176-223 | the generator yields, strictly increasing, all bucket starts from the start's bucket up to the end |
| TimeBuckets.RangeIsTruncation | extracted-core/src/phoenix/datetime_utils.py:118-223 | the yielded starts are exactly the truncated values of the instants in the range, if and only if the range is not empty or ends before the start's bucket |
| Revisions.RankingIsReplay | extracted-core/src/phoenix/db/db/helpers.py:100-224 | the rows ranked first and not deleted are what replaying the log leaves on show |
| Revisions.RankOneIsLast | extracted-core/src/phoenix/db/db/helpers.py:120-131 | ranked first means last in the log |
| Revisions.SnapshotIsReplay | extracted-core/src/phoenix/db/db/helpers.py:149-224 | the snapshot at a version is the replay of CREATE, PATCH and DELETE up to that version |
| Revisions.FilterCommutes | extracted-core/src/phoenix/db/db/helpers.py:195-224 | filtering by example commutes with ranking |
| Revisions.FilteredSnapshot | extracted-core/src/phoenix/db/db/helpers.py:181-224 | with any filters and any version, known or not, the query returns the part of the snapshot that passes all of them; two kinds of split filter at once are refused |
| Revisions.WithoutDataset | extracted-core/src/phoenix/db/db/helpers.py:133-141 | without a dataset the query is about the dataset of the version, and returns nothing for an unknown version |
| Revisions.ExperimentSeesSnapshot | extracted-core/src/phoenix/db/db/helpers.py:227-283 | an experiment is given exactly the revisions that the dataset query returns for its splits |
| Revisions.CountIsSnapshotSize | extracted-core/src/phoenix/db/models.py:1222-1242 | for well-formed histories the summed count is the size of what is on show if and only if there is any revision |
| Revisions.NewDatasetHasNoCount | extracted-core/src/phoenix/db/models.py:1213-1242 | a dataset without revisions has no count, although nothing is on show |
| Revisions.CountIsQuerySize | extracted-core/src/phoenix/db/models.py:1222-1242 | the count equals the size of the ranked query's newest snapshot if and only if the dataset has any revision; creations minus deletions equals it always |
| IncompleteRuns.IncompleteRunsExact | extracted-core/src/phoenix/db/db/helpers.py:1004-1119 | in the combined rows each example is listed at most once, with exactly its missing and failed repetitions and none of them twice; it is listed if and only if fewer of its successes lie beyond 1..R than repetitions are left |
| IncompleteRuns.QueryRows | extracted-core/src/phoenix/db/db/helpers.py:1054-1119 | both strategies return exactly one row for each example with fewer successes than repetitions, duplicates counted |
| IncompleteRuns.PathsApart | extracted-core/src/phoenix/db/db/helpers.py:1083-1119 | combining the two paths without removing duplicates lists no revision twice |
| IncompleteRuns.FastPathAgrees | extracted-core/src/phoenix/db/db/helpers.py:1054-1119 | for one repetition the fast path is the general path, row by row in the same order |
| IncompleteRuns.GroupsAreRows | extracted-core/src/phoenix/db/db/helpers.py:572-711 | the grouped outer join holds one row for each partially complete example, with the complement of its successful repetitions |
| IncompleteRuns.CountIsSuccessful | extracted-core/src/phoenix/db/db/helpers.py:509-569 | the summed count is the number of successful repetitions |
| IncompleteRuns.DroppedExactlyWhen | extracted-core/src/phoenix/db/db/helpers.py:509-711 | an example with repetitions left is dropped if and only if at least as many successes lie beyond 1..R |
| IncompleteRuns.SecondRepetitionDropped | extracted-core/src/phoenix/server/api/api/routers/v1/experiment_runs.py:31 | the failing input: two repetitions wanted, the first and a third reported as done, and the second is not listed |
| IncompleteEvaluations.EvaluationsByCount | extracted-core/src/phoenix/db/db/helpers.py:903-941 | of the helper: a successful run is returned if and only if it lacks an evaluation wanted or a name is given twice |
| IncompleteEvaluations.RepeatedNameReturnsAll | extracted-core/src/phoenix/db/db/helpers.py:903-941 | of the helper: a run that is complete for a name is returned when the name is given twice |
| IncompleteEvaluations.RequestedNames | extracted-core/src/phoenix/server/api/api/routers/v1/experiment_runs.py:336-337 | names are stripped, empty ones dropped, and each is kept once |
| IncompleteEvaluations.RunsWithIncompleteEvaluations | extracted-core/src/phoenix/server/api/api/routers/v1/experiment_runs.py:336-380 | for every list of names accepted, exactly the successful runs that lack an evaluation wanted are returned, each once |
| Pagination.GetPage | extracted-core/src/phoenix/server/api/api/routers/v1/experiments.py:534-546 | for any rows, any cursor and any limit above zero: the first rows from the cursor on, in the order of their ids, and the id of the row after them as the next cursor if there is one |
| Pagination.ReturnedInTurn | extracted-core/src/phoenix/db/db/helpers.py:762-768 | while the tables change between requests, a row is returned if and only if it is listed at the one request at which its id comes up |
| Pagination.EachRowOnce | extracted-core/src/phoenix/db/db/helpers.py:762-768 | all pages together ascend by id, no id twice; every id listed at each request is returned, and every row as it was listed at one of them |
| Pagination.RunsPaged | extracted-core/src/phoenix/server/api/api/routers/v1/experiments.py:526-546 | runs may be repeated between the pages: an example listed throughout is returned, none is returned twice, and each row has exactly the repetitions left at one of the requests |
| Pagination.EvaluationsPaged | extracted-core/src/phoenix/server/api/api/routers/v1/experiment_runs.py:372-455 | evaluations may arrive between the pages: a successful run is returned at most once, it is if it lacks an evaluation throughout, and only if it lacks one at some request |
| BulkInsertion.BulkInserter.EnqueueSpan | extracted-core/src/phoenix/db/bulk_inserter.py:131-132 | a span is appended at the end of its queue |
| BulkInsertion.BulkInserter.EnqueueEvaluation | extracted-core/src/phoenix/db/bulk_inserter.py:134-135 | an evaluation is appended, after the spans enqueued so far |
| BulkInsertion.BulkInserter.EnqueueOperation | extracted-core/src/phoenix/db/bulk_inserter.py:128-129 | an operation is appended at the end of its queue, or refused if and only if the queue is bounded and full |
| BulkInsertion.BulkInserter.InsertSpans | extracted-core/src/phoenix/db/bulk_inserter.py:185-226 | pops the given number of spans once a session opens, under any interleaving with producers |
| BulkInsertion.BulkInserter.InsertEvaluations | extracted-core/src/phoenix/db/bulk_inserter.py:242-261 | pops at most the given number of evaluations, with no span popped in between |
| BulkInsertion.BulkInserter.RunOperations | extracted-core/src/phoenix/db/bulk_inserter.py:159-169 | runs at most a batch of operations; nothing catches a session that does not open |
| BulkInsertion.BulkInserter.InsertBatches | extracted-core/src/phoenix/db/bulk_inserter.py:170-180 | the two batches whose sizes are fixed together keep evaluations behind their spans |
| BulkInsertion.BulkInserter.Round | extracted-core/src/phoenix/db/bulk_inserter.py:158-183 | popped then queued is enqueued, in order; at most a batch of each kind is popped; evaluations come after the spans they may refer to |
| BulkInsertion.BulkInserter.BulkInsert | extracted-core/src/phoenix/db/bulk_inserter.py:139-183 | told to stop, with producers stopped and sessions that open, the loop ends with all queues empty |
| BulkInsertion.BulkInserter.Iteration | extracted-core/src/phoenix/db/bulk_inserter.py:139-183 | one iteration sleeps if and only if nothing is queued, and is a turn otherwise |
| BulkInsertion.BulkInserter.Serve | extracted-core/src/phoenix/db/bulk_inserter.py:139-183 | for any number of iterations while producers go on appending: every iteration with something queued is a turn, in which a batch of spans, or all there are, is popped if the session opens; nothing is lost or reordered; with sessions that open, what was queued at the start comes out a batch of each kind per iteration |
| BulkInsertion.EveryEvaluationHasATurn | extracted-core/src/phoenix/db/bulk_inserter.py:139-183 | every evaluation popped belongs to one round and stands there as it should to the spans enqueued before it |
| BulkInsertion.SpanIsOutFirst | extracted-core/src/phoenix/db/bulk_inserter.py:170-180 | a span enqueued before the evaluation, within the first batch of the queue or in a queue that fits in a batch, is popped before it |
| AnveshaIngest.Server.InsertSpan | anvesha-server/src/anvesha_server/services/insert_span.py:120-197 | a stored span changes nothing; a new one is refused if and only if it carries a session id and its trace has a session of another id, and is added otherwise |
| AnveshaIngest.Server.GetOrCreateTrace | anvesha-server/src/anvesha_server/services/insert_span.py:32-69 | an existing trace is returned as it is, a missing one created with its project |
| AnveshaIngest.Server.GetOrCreateSession | anvesha-server/src/anvesha_server/services/insert_span.py:72-117 | fails if and only if the trace has a session of another id; otherwise the trace's session, or the one of that id in the trace's project, found or created |
| AnveshaIngest.Server.AttachSession | anvesha-server/src/anvesha_server/services/insert_span.py:153-165 | the session is widened to the trace |
| AnveshaIngest.Server.WidenTrace | anvesha-server/src/anvesha_server/services/insert_span.py:137-151 | the trace is widened to the span |
| AnveshaIngest.Server.PostTraces | anvesha-server/src/anvesha_server/api/traces.py:55-65 | a request is refused if and only if one of its spans cannot be decoded or conflicts with what its predecessors left; it is committed whole or not at all |
| AnveshaIngest.Server.PostScope | anvesha-server/src/anvesha_server/api/traces.py:57-63 | the first span that cannot be decoded or inserted fails the scope |
| AnveshaIngest.Server.PostResource | anvesha-server/src/anvesha_server/api/traces.py:55-63 | the same over the scopes of a resource |
| AnveshaIngest.InsertFailsExactly | anvesha-server/src/anvesha_server/services/insert_span.py:80-86 | inserting fails if and only if a new span with a session id meets a trace whose session has another id |
| AnveshaIngest.RefusedExactly | anvesha-server/src/anvesha_server/api/traces.py:55-63 | the same for requests, span by span |
| AnveshaIngest.ItemsAreInOrder | anvesha-server/src/anvesha_server/api/traces.py:55-63 | the spans of a request are taken resource by resource and scope by scope, in order |
| AnveshaIngest.SessionIdRead | anvesha-server/src/anvesha_server/services/insert_span.py:153-154 | the session id is what stands between the surrounding spaces, and empty without the attribute |
| AnveshaIngest.IngestIdempotent | anvesha-server/src/anvesha_server/api/traces.py:55-65 | replaying a request changes nothing, from any state |
| AnveshaInvariants.ReachableIsGood | anvesha-server/src/anvesha_server/services/insert_span.py:44-197 | in every reachable state spans are unique per trace and span id, trace windows exact, sessions within their project and exact over the spans that told them; no requests take a trace's project or session away |
| AnveshaInvariants.InsertKeepsGood | anvesha-server/src/anvesha_server/services/insert_span.py:120-197 | one insertion keeps all of this |
| AnveshaInvariants.CoverageKeptExactlyWhen | anvesha-server/src/anvesha_server/services/insert_span.py:133-165 | after a new span sessions still cover their traces if and only if the span has a session id, or opens its trace, or its trace has no session, or it lies within the session's window |
| AnveshaInvariants.CoveredExactlyWhen | anvesha-server/src/anvesha_server/services/insert_span.py:133-165 | in every reachable state a trace lies within its session if and only if each of its spans is reached by spans that told the session |
| AnveshaInvariants.TellingLastIsCovered | anvesha-server/src/anvesha_server/services/insert_span.py:133-165 | in every reachable state a trace whose last span carried a session id lies within its session |
| AnveshaInvariants.SessionIsHullExactlyWhen | anvesha-server/src/anvesha_server/services/insert_span.py:133-165 | in every reachable state a session's window is the hull of its traces if and only if it covers them |
| AnveshaInvariants.SessionMayLagBehind | anvesha-server/src/anvesha_server/services/insert_span.py:133-165 | a second span without a session id is covered if and only if the first one covers it |
| AnveshaAttributes.Nested.Write | anvesha-server/src/anvesha_server/otel/attributes.py:37-44 | a write replaces what lies at the path and opens dictionaries on the way |
| AnveshaAttributes.Nested.Unflatten | anvesha-server/src/anvesha_server/otel/attributes.py:29-45 | the nested dictionaries hold what the writes amount to |
| AnveshaAttributes.Nested.GetAttributeValue | anvesha-server/src/anvesha_server/otel/attributes.py:48-68 | a lookup finds what lies at the path of the key as written |
| AnveshaAttributes.LastWriterWins | anvesha-server/src/anvesha_server/otel/attributes.py:29-68 | a lookup finds a value, a dictionary or nothing according to the last write to a prefix or extension of the path |
| AnveshaAttributes.FoundExactlyWhenClean | anvesha-server/src/anvesha_server/otel/attributes.py:34-58 | of the lookup function, for atomic written values: after any history, a key just written is found under itself if and only if all its parts are non-empty and trimmed |
| AnveshaAttributes.UncleanKeyFindsNothing | anvesha-server/src/anvesha_server/otel/attributes.py:48-68 | of the lookup function, for atomic written values: a key with an empty or padded part finds nothing, whatever keys were written |
| AnveshaAttributes.LookupDoesNotClean | anvesha-server/src/anvesha_server/otel/attributes.py:34-58 | of the lookup function: a key with a doubled dot is found under its cleaned form only |
| AnveshaAttributes.PartsCleaned | anvesha-server/src/anvesha_server/otel/attributes.py:34 | a part is written without the space around it, and left out if it is nothing else |
| AnveshaAttributes.FoundUnderCleaned | anvesha-server/src/anvesha_server/otel/attributes.py:34-44 | whatever its parts, a key just written is found under its cleaned parts |
| TraceTree.BuildTraceTree | anvesha-frontend/app.js:332-348 | roots are the spans without a present parent, children lists and roots in start order, a repeated id in its first place with its last entry |
| TraceTree.LinksAreParents | anvesha-frontend/app.js:336-344 | an id is linked to the parent its last entry names, and to none if that is absent or empty |
| TraceTree.IdsInOrder | anvesha-frontend/app.js:336-339 | ids stand in the order of their first entries |
| TraceTree.View.FlattenTree | anvesha-frontend/app.js:350-358 | the shared list grows by the listing of the nodes while recursing |
| TraceTree.View.Render | anvesha-frontend/app.js:332-358 | the page lists exactly the spans with a finite ancestor chain and no collapsed proper ancestor, once, in pre-order, siblings in start order, each as deep as it has present ancestors |
| TraceTree.ListingPreOrder | anvesha-frontend/app.js:350-358 | the rows below a span are exactly the run of deeper rows after it |
| TraceTree.ListingShows | anvesha-frontend/app.js:350-358 | which spans are listed, and at which depth |
| TraceTree.ListingSorted | anvesha-frontend/app.js:332-358 | siblings keep the order of the sorted spans |
| TraceTree.ViewIsComplete | anvesha-frontend/app.js:332-358 | with nothing collapsed every span is listed if and only if parents are acyclic, and a span is missing just when its chain is cyclic |
| Manifest.SyncPrices | extracted-core/src/phoenix/db/db/facilitator.py:492-522 | the price loop, quote by quote |
| Manifest.SyncedIsRated | extracted-core/src/phoenix/db/db/facilitator.py:492-522 | with each kind quoted once, the stored prices become exactly the quotes with a truthy rate |
| Manifest.SyncedDistinctExactly | extracted-core/src/phoenix/db/db/facilitator.py:492-522 | prices are unique per kind afterwards if and only if no kind is quoted twice at a rate |
| Manifest.RatedHolds | extracted-core/src/phoenix/db/db/facilitator.py:501-504 | quotes without a rate or with a zero rate are skipped |
| Manifest.Catalog.ReadManifest | extracted-core/src/phoenix/db/db/facilitator.py:452-522 | the loop over the manifest with its skip rules |
| Manifest.Catalog.Upsert | extracted-core/src/phoenix/db/db/facilitator.py:475-491 | a model found under the name as written is updated, otherwise one is created |
| Manifest.Catalog.EnsureModelCosts | extracted-core/src/phoenix/db/db/facilitator.py:430-539 | the whole run; a refused commit changes nothing |
| Manifest.ScanApart | extracted-core/src/phoenix/db/db/facilitator.py:449-473 | accepted entries have distinct names and distinct pattern and provider pairs |
| Manifest.ScanExactly | extracted-core/src/phoenix/db/db/facilitator.py:449-473 | accepted are exactly the entries that have a name no earlier entry has, a pattern that compiles, and no earlier such entry with their pattern and provider, in order |
| Manifest.CustomAndDeletedStay | extracted-core/src/phoenix/db/db/facilitator.py:436-446 | custom and deleted models are left alone, and every accepted entry has a built-in model that is not deleted |
| Manifest.RunReconciles | extracted-core/src/phoenix/db/db/facilitator.py:430-539 | exactly when the run commits, and that each accepted entry then has one row with its rated quotes while other live built-ins are deleted if and only if no cost refers to them |
| Manifest.SecondRun | extracted-core/src/phoenix/db/db/facilitator.py:430-539 | a second run changes nothing if and only if every accepted name is written stripped or names a live built-in; otherwise its commit is refused |
| Manifest.SpacedNameRefusedLater | extracted-core/src/phoenix/db/db/facilitator.py:452-475 | names with space around them are accepted once and then refused |
| Manifest.RenamingRefused | extracted-core/src/phoenix/db/db/facilitator.py:475-491 | a new name for a live built-in with the same pattern and provider is refused |

## Left out

- Concurrent transactions, savepoints and recovery from integrity errors: each insert is one sequential step.
- Surrogate row ids: rows are identified by their unique columns (span id, trace id, session id, project name).
- Cyclic and self-parent spans: ingestion requires the stored links to stay acyclic; `Forest.WalkEndsIffAcyclic` shows why.
- SpanIngestion.SpanStore.InsertSpan: windows are exact for histories without deletions, because deleting rows does not narrow windows.
- Trace transfer between projects, and other routes that delete or move rows.
- `prefix_exclusions`, separators other than a dot, `recurse_on_sequence=False`, numpy arrays, and digits outside ASCII in `isdigit`.
- Flattening.FlattenAfterUnflatten: flattening again what was unflattened is followed for any keys without empty segments, where every key prints as its path, and for any single key (`LoneKeys.LoneKeyComesBack`); several keys with empty segments are not followed back, even where the result is determined.
- The order of iteration of a set is any order at all; that small integers iterate in a fixed order in some interpreters is not used.
- Otlp.FlatAttributes: requires good keys and well-formed values, because keys with dots or empty segments can collide and the result then depends on dictionary order.
- Otlp.OtlpRoundTrip: promised for well-formed attributes that carry a span kind or have room for one, integer token counts, a text input value, and values under JSON keys that are dictionaries or do not read as JSON, as the codec coerces or rewrites the others; that JSON text loads as what was dumped is a property of the JSON library and a premise.
- Identifiers, timestamps, status and events of OTLP spans, and the span kind of unknown strings.
- SQLite's rounding of stored fractions of a second, PostgreSQL's `date_trunc`, and local times before year 1 or after year 9999.
- The join of the incomplete-run query with revision payloads, cursors that are not ids, and the listings of runs and experiments that go by descending id.
- Task cancellation of the bulk inserter, transactions that fail to commit, annotation queues, span costs and evaluation insertion; a full span queue is the callers' concern.
- BulkInsertion.BulkInserter.BulkInsert: drains the queues once the inserter has been told to stop, since before that the loop need not end.
- AnveshaAttributes.Nested.Write: written values are atomic, so dictionaries that the decoder reads from JSON text are not modelled, neither extended by later keys nor looked into.
- AnveshaAttributes.UncleanKeyFindsNothing: promised for atomic written values; a key with a padded part can be found inside a written dictionary.
- AnveshaAttributes.FoundExactlyWhenClean: promised for atomic written values, for the same reason.
- Naive datetimes, content negotiation, decompression and protobuf parsing of the Anvesha server.
- Sorting spans by start time in the trace page: the tree builder is given the sorted spans.
- Manifest.Catalog.EnsureModelCosts: unique indexes are checked once all rows are written, not row by row, so a manifest that swaps names or patterns between models may be refused earlier than the model says.
- Custom models in the manifest run: the run leaves them untouched, and the indexes separate them from built-in ones.
- `SpanCost.append_detail`, `dedup`, project-name and evaluation-trace queries: simple functions with no property across operations.
- HTTP and gRPC servers, authentication, configuration, metrics, the DOM and the rest of the page: plumbing around libraries.
