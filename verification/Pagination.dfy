/** Listings read page by page while the tables change: each request asks for the rows from a cursor on,
    one more than the page holds, and the extra row becomes the next cursor. */
module Pagination {
  import opened Finite
  import opened IncompleteEvaluations
  import opened IncompleteRuns
  import opened Walks
  import opened Wrappers

  /** Rows with their ids, and the id from which the next page goes on. */
  datatype Page<T> = Page(rows: seq<(nat, T)>, next: Option<nat>)

  predicate Before(i: nat, end: Option<nat>)
  {
    end.Some? ==> i < end.value
  }

  predicate NotBefore(i: nat, cursor: Option<nat>)
  {
    cursor.Some? ==> cursor.value <= i
  }

  ghost predicate Ascending<T>(rows: seq<(nat, T)>)
  {
    forall i, j :: 0 <= i < j < |rows| ==> rows[i].0 < rows[j].0
  }

  /** The rows listed from the cursor up to the next one, in the order of their ids. */
  ghost predicate IsPage<T(!new)>(listed: map<nat, T>, cursor: Option<nat>, limit: nat, page: Page<T>)
  {
    && Ascending(page.rows)
    && (forall row :: row in page.rows <==>
          && row.0 in listed && row.1 == listed[row.0]
          && NotBefore(row.0, cursor) && Before(row.0, page.next))
    && |page.rows| <= limit
    && (page.next.Some? ==> |page.rows| == limit && page.next.value in listed)
  }

  lemma {:induction false} SortedElements(s: set<nat>, i: nat)
    ensures i in Sorted(s) <==> i in s
  {
    if i in Sorted(s) {
      var k :| 0 <= k < |s| && Sorted(s)[k] == i;
      SortedHolds(s, k);
    }
    if i in s {
      SortedRank(s, i);
    }
  }

  lemma {:induction false} SortedAscends(s: set<nat>, i: nat, j: nat)
    requires i < j < |s|
    ensures Sorted(s)[i] < Sorted(s)[j]
  {
    SortedHolds(s, i);
    SortedHolds(s, j);
    var low, high := Sorted(s)[i], Sorted(s)[j];
    if high <= low {
      SubsetSize(Smaller(high, s), Smaller(low, s));
    }
  }

  /** `ORDER BY id`, `id >= cursor` */
  function Found<T>(listed: map<nat, T>, cursor: Option<nat>): seq<nat>
  {
    Sorted(set i | i in listed && NotBefore(i, cursor))
  }

  lemma {:induction false} FoundHolds<T>(listed: map<nat, T>, cursor: Option<nat>)
    ensures forall i :: i in Found(listed, cursor) <==> i in listed && NotBefore(i, cursor)
    ensures forall a, b :: 0 <= a < b < |Found(listed, cursor)| ==> Found(listed, cursor)[a] < Found(listed, cursor)[b]
  {
    var ids := set i | i in listed && NotBefore(i, cursor);
    forall i
      ensures i in Sorted(ids) <==> i in ids
    {
      SortedElements(ids, i);
    }
    forall a, b | 0 <= a < b < |ids|
      ensures Sorted(ids)[a] < Sorted(ids)[b]
    {
      SortedAscends(ids, a, b);
    }
  }

  /** One request: `LIMIT limit + 1`, and the cut at the limit. */
  method GetPage<T(!new)>(listed: map<nat, T>, cursor: Option<nat>, limit: nat) returns (page: Page<T>)
    requires limit > 0
    ensures IsPage(listed, cursor, limit, page)
  {
    var ids := Found(listed, cursor);
    FoundHolds(listed, cursor);
    var fetched := if |ids| > limit + 1 then ids[..limit + 1] else ids;
    var shown := if |fetched| > limit then fetched[..limit] else fetched;
    assert forall k :: 0 <= k < |shown| ==> shown[k] == ids[k] && ids[k] in ids;
    page := Page(seq(|shown|, k requires 0 <= k < |shown| => (shown[k], listed[shown[k]])),
                 if |fetched| > limit then Some(fetched[limit]) else None);
    PageHolds(listed, cursor, limit, page);
  }

  /** The page has the first ids found, and the id after them as the next cursor. */
  ghost predicate IsCut<T(!new)>(listed: map<nat, T>, limit: nat, ids: seq<nat>, page: Page<T>)
  {
    && |page.rows| == (if |ids| > limit then limit else |ids|)
    && (forall k :: 0 <= k < |page.rows| ==> ids[k] in listed && page.rows[k] == (ids[k], listed[ids[k]]))
    && page.next == if |ids| > limit then Some(ids[limit]) else None
  }

  lemma {:induction false} PageHolds<T(!new)>(listed: map<nat, T>, cursor: Option<nat>, limit: nat, page: Page<T>)
    requires IsCut(listed, limit, Found(listed, cursor), page)
    ensures IsPage(listed, cursor, limit, page)
  {
    var ids := Found(listed, cursor);
    FoundHolds(listed, cursor);
    PageMembers(listed, limit, ids, page);
    assert |ids| > limit ==> ids[limit] in ids;
  }

  lemma {:induction false} PageMembers<T(!new)>(listed: map<nat, T>, limit: nat, ids: seq<nat>, page: Page<T>)
    requires IsCut(listed, limit, ids, page) && forall a, b :: 0 <= a < b < |ids| ==> ids[a] < ids[b]
    ensures forall row :: row in page.rows <==>
              row.0 in ids && row.0 in listed && row.1 == listed[row.0] && Before(row.0, page.next)
  {
    var shown := if |ids| > limit then ids[..limit] else ids;
    CutHolds(ids, limit);
    RowsHold(listed, shown, page.rows);
  }

  /** What is shown is what comes before the next cursor. */
  lemma {:induction false} CutHolds(ids: seq<nat>, limit: nat)
    requires forall a, b :: 0 <= a < b < |ids| ==> ids[a] < ids[b]
    ensures |ids| > limit ==> forall i :: i in ids[..limit] <==> i in ids && i < ids[limit]
  {
    if |ids| > limit {
      forall i
        ensures i in ids[..limit] <==> i in ids && i < ids[limit]
      {
        if i in ids && i < ids[limit] {
          var k :| 0 <= k < |ids| && ids[k] == i;
          assert k < limit ==> ids[..limit][k] == i;
        }
      }
    }
  }

  lemma {:induction false} RowsHold<T(!new)>(listed: map<nat, T>, ids: seq<nat>, rows: seq<(nat, T)>)
    requires |rows| == |ids| && forall k :: 0 <= k < |ids| ==> ids[k] in listed && rows[k] == (ids[k], listed[ids[k]])
    ensures forall row :: row in rows <==> row.0 in ids && row.0 in listed && row.1 == listed[row.0]
  {
    forall row: (nat, T) | row.0 in ids && row.0 in listed && row.1 == listed[row.0]
      ensures row in rows
    {
      var k :| 0 <= k < |ids| && ids[k] == row.0;
      assert rows[k] == row;
    }
  }

  // ---------------------------------------------------------------- page after page

  function CursorOf<T>(pages: seq<Page<T>>, k: nat): Option<nat>
    requires k <= |pages|
  {
    if k == 0 then None else pages[k - 1].next
  }

  /** Each page is read from the table as it is at the time, at the cursor the one before it gave. */
  ghost predicate IsListing<T(!new)>(tables: seq<map<nat, T>>, limit: nat, pages: seq<Page<T>>)
  {
    && 0 < limit && |tables| == |pages|
    && (forall k :: 0 <= k < |pages| ==> IsPage(tables[k], CursorOf(pages, k), limit, pages[k]))
    && (forall k :: 0 <= k < |pages| - 1 ==> pages[k].next.Some?)
  }

  function RowsOf<T>(pages: seq<Page<T>>): seq<(nat, T)>
  {
    if pages == [] then [] else RowsOf(pages[..|pages| - 1]) + pages[|pages| - 1].rows
  }

  /** The id comes up at the page `k`, whether a row with it is listed by then or not. */
  ghost predicate InTurn<T(!new)>(pages: seq<Page<T>>, k: nat, i: nat)
  {
    k < |pages| && NotBefore(i, CursorOf(pages, k)) && Before(i, pages[k].next)
  }

  lemma {:induction false} ListingInit<T(!new)>(tables: seq<map<nat, T>>, limit: nat, pages: seq<Page<T>>)
    requires IsListing(tables, limit, pages) && pages != []
    ensures IsListing(tables[..|pages| - 1], limit, pages[..|pages| - 1])
    ensures |pages| > 1 ==> CursorOf(pages, |pages| - 1).Some?
  {
    var init := pages[..|pages| - 1];
    forall k | 0 <= k < |init|
      ensures IsPage(tables[..|init|][k], CursorOf(init, k), limit, init[k])
    {
      assert CursorOf(init, k) == CursorOf(pages, k);
    }
  }

  /** A page that names a next one ends after its own cursor. */
  lemma {:induction false} CursorsAdvance<T(!new)>(tables: seq<map<nat, T>>, limit: nat, pages: seq<Page<T>>, k: nat)
    requires IsListing(tables, limit, pages) && k < |pages| && pages[k].next.Some?
    ensures CursorOf(pages, k).Some? ==> CursorOf(pages, k).value < pages[k].next.value
  {
    assert pages[k].rows[0] in pages[k].rows;
  }

  /** The ids of all pages together ascend, so that none comes twice, and stay below the next cursor. */
  lemma {:induction false} RowsAscend<T(!new)>(tables: seq<map<nat, T>>, limit: nat, pages: seq<Page<T>>)
    requires IsListing(tables, limit, pages)
    ensures Ascending(RowsOf(pages))
    ensures forall row :: row in RowsOf(pages) && pages != [] ==> Before(row.0, CursorOf(pages, |pages|))
    decreases |pages|
  {
    if pages != [] {
      var init, last := pages[..|pages| - 1], pages[|pages| - 1];
      ListingInit(tables, limit, pages);
      RowsAscend(tables[..|init|], limit, init);
      if last.next.Some? {
        CursorsAdvance(tables, limit, pages, |init|);
      }
      AscendingAppend(RowsOf(init), last.rows, CursorOf(pages, |init|));
    }
  }

  lemma {:induction false} AscendingAppend<T(!new)>(xs: seq<(nat, T)>, ys: seq<(nat, T)>, cursor: Option<nat>)
    requires Ascending(xs) && Ascending(ys) && (cursor.None? ==> xs == [])
    requires (forall x :: x in xs ==> Before(x.0, cursor)) && (forall y :: y in ys ==> NotBefore(y.0, cursor))
    ensures Ascending(xs + ys)
  {
    forall i, j | 0 <= i < |xs| && 0 <= j < |ys|
      ensures xs[i].0 < ys[j].0
    {
      assert xs[i] in xs && ys[j] in ys;
    }
  }

  /** The row is listed at the request `k`, and it is the turn of its id. */
  ghost predicate ListedInTurn<T(!new)>(tables: seq<map<nat, T>>, pages: seq<Page<T>>, k: nat, row: (nat, T))
  {
    k < |tables| && InTurn(pages, k, row.0) && row.0 in tables[k] && tables[k][row.0] == row.1
  }

  lemma {:induction false} TurnsInit<T(!new)>(tables: seq<map<nat, T>>, pages: seq<Page<T>>, k: nat, row: (nat, T))
    requires |tables| == |pages| && pages != [] && k < |pages| - 1
    ensures ListedInTurn(tables[..|pages| - 1], pages[..|pages| - 1], k, row) <==> ListedInTurn(tables, pages, k, row)
  {
    assert CursorOf(pages[..|pages| - 1], k) == CursorOf(pages, k);
  }

  /** A row is returned exactly when it is listed at the request at which its id comes up. */
  lemma {:induction false} ReturnedInTurn<T(!new)>(tables: seq<map<nat, T>>, limit: nat, pages: seq<Page<T>>,
                                            row: (nat, T))
    requires IsListing(tables, limit, pages)
    ensures row in RowsOf(pages) <==> exists k :: ListedInTurn(tables, pages, k, row)
    decreases |pages|
  {
    if pages != [] {
      var n := |pages| - 1;
      ListingInit(tables, limit, pages);
      ReturnedInTurn(tables[..n], limit, pages[..n], row);
      if k: nat :| ListedInTurn(tables[..n], pages[..n], k, row) {
        TurnsInit(tables, pages, k, row);
      }
      if k: nat :| ListedInTurn(tables, pages, k, row) && k != n {
        TurnsInit(tables, pages, k, row);
      }
      assert row in pages[n].rows <==> ListedInTurn(tables, pages, n, row);
    }
  }

  /** Once the last page names no next one, every id has had exactly one turn. */
  lemma {:induction false} EveryIdHasATurn<T(!new)>(tables: seq<map<nat, T>>, limit: nat, pages: seq<Page<T>>, i: nat)
    returns (k: nat)
    requires IsListing(tables, limit, pages) && pages != [] && Before(i, CursorOf(pages, |pages|))
    ensures InTurn(pages, k, i)
    decreases |pages|
  {
    k := |pages| - 1;
    if !NotBefore(i, CursorOf(pages, k)) {
      ListingInit(tables, limit, pages);
      assert CursorOf(pages[..k], k) == CursorOf(pages, k);
      k := EveryIdHasATurn(tables[..k], limit, pages[..k], i);
      assert CursorOf(pages[..|pages| - 1], k) == CursorOf(pages, k);
    }
  }

  ghost predicate StaysListed<T(!new)>(tables: seq<map<nat, T>>, i: nat)
  {
    forall k :: 0 <= k < |tables| ==> i in tables[k]
  }

  ghost predicate IsReturned<T(!new)>(pages: seq<Page<T>>, i: nat)
  {
    exists row :: row in RowsOf(pages) && row.0 == i
  }

  ghost predicate IsFinished<T(!new)>(tables: seq<map<nat, T>>, limit: nat, pages: seq<Page<T>>)
  {
    IsListing(tables, limit, pages) && pages != [] && pages[|pages| - 1].next.None?
  }

  lemma {:induction false} StayingIsReturned<T(!new)>(tables: seq<map<nat, T>>, limit: nat, pages: seq<Page<T>>, i: nat)
    requires IsFinished(tables, limit, pages) && StaysListed(tables, i)
    ensures IsReturned(pages, i)
  {
    var k := EveryIdHasATurn(tables, limit, pages, i);
    var row := (i, tables[k][i]);
    assert ListedInTurn(tables, pages, k, row);
    ReturnedInTurn(tables, limit, pages, row);
  }

  lemma {:induction false} ReturnedWasListed<T(!new)>(tables: seq<map<nat, T>>, limit: nat, pages: seq<Page<T>>,
                                               row: (nat, T))
    returns (k: nat)
    requires IsFinished(tables, limit, pages) && row in RowsOf(pages)
    ensures k < |tables| && row.0 in tables[k] && tables[k][row.0] == row.1
  {
    ReturnedInTurn(tables, limit, pages, row);
    k :| ListedInTurn(tables, pages, k, row);
  }

  /** A finished listing returns no id twice, every id that stays listed all the while, and every row as
      it is listed at one of the requests, however the tables change in between. */
  lemma {:induction false} EachRowOnce<T(!new)>(tables: seq<map<nat, T>>, limit: nat, pages: seq<Page<T>>)
    requires IsFinished(tables, limit, pages)
    ensures Ascending(RowsOf(pages))
    ensures forall i :: StaysListed(tables, i) ==> IsReturned(pages, i)
    ensures forall row :: row in RowsOf(pages) ==>
                            exists k :: 0 <= k < |tables| && row.0 in tables[k] && tables[k][row.0] == row.1
  {
    RowsAscend(tables, limit, pages);
    forall i | StaysListed(tables, i)
      ensures IsReturned(pages, i)
    {
      StayingIsReturned(tables, limit, pages, i);
    }
    forall row | row in RowsOf(pages)
      ensures exists k :: 0 <= k < |tables| && row.0 in tables[k] && tables[k][row.0] == row.1
    {
      var k := ReturnedWasListed(tables, limit, pages, row);
    }
  }

  // ---------------------------------------------------------------- the two listings of an experiment

  /** The rows of the query by the ids of their runs. */
  ghost predicate ByRun(table: map<nat, RunRow>, rows: seq<RunRow>)
  {
    forall i, row :: i in table && table[i] == row <==> row in rows && row.0.id == i
  }

  /** The table is what the query lists at the time. */
  ghost predicate EvaluationTable(runs: seq<Run>, examples: seq<Example>, annotations: seq<Annotation>,
                                  experiment: nat, names: seq<string>, table: map<nat, RunRow>)
  {
    OnePerName(annotations) && ByRun(table, IncompleteEvaluationsQuery(runs, examples, annotations, experiment, names))
  }

  lemma {:induction false} EvaluationListed(runs: seq<Run>, examples: seq<Example>, annotations: seq<Annotation>,
                                            experiment: nat, names: seq<string>, table: map<nat, RunRow>, row: RunRow)
    requires Constraints(runs, examples) && IdsDiffer(runs) && NoRepeats(names)
    requires EvaluationTable(runs, examples, annotations, experiment, names, table)
    requires IsRun(runs, examples, experiment, row)
    ensures row.0.id in table && table[row.0.id] == row <==>
            LacksEvaluation(annotations, row.0.id, ElementsOf(names))
  {
    EvaluationsByCount(runs, examples, annotations, experiment, names, row);
  }

  ghost predicate LacksThroughout(states: seq<seq<Annotation>>, run: nat, names: set<string>)
  {
    forall k :: 0 <= k < |states| ==> LacksEvaluation(states[k], run, names)
  }

  ghost predicate LacksAtSomeTime(states: seq<seq<Annotation>>, run: nat, names: set<string>)
  {
    exists k :: 0 <= k < |states| && LacksEvaluation(states[k], run, names)
  }

  /** Evaluations may arrive between the pages: a successful run is returned at most once, and it is if
      it lacks an evaluation throughout, and only if it lacks one at some request. */
  lemma {:induction false} EvaluationsPaged(runs: seq<Run>, examples: seq<Example>, states: seq<seq<Annotation>>,
                                            experiment: nat, names: seq<string>, limit: nat,
                                            tables: seq<map<nat, RunRow>>, pages: seq<Page<RunRow>>, row: RunRow)
    requires Constraints(runs, examples) && IdsDiffer(runs) && NoRepeats(names)
    requires |tables| == |states| && forall k :: 0 <= k < |states| ==>
               EvaluationTable(runs, examples, states[k], experiment, names, tables[k])
    requires IsFinished(tables, limit, pages) && IsRun(runs, examples, experiment, row)
    ensures Ascending(RowsOf(pages))
    ensures LacksThroughout(states, row.0.id, ElementsOf(names)) ==> IsReturned(pages, row.0.id)
    ensures (row.0.id, row) in RowsOf(pages) ==> LacksAtSomeTime(states, row.0.id, ElementsOf(names))
  {
    RowsAscend(tables, limit, pages);
    if LacksThroughout(states, row.0.id, ElementsOf(names)) {
      forall k | 0 <= k < |states|
        ensures row.0.id in tables[k]
      {
        EvaluationListed(runs, examples, states[k], experiment, names, tables[k], row);
      }
      StayingIsReturned(tables, limit, pages, row.0.id);
    }
    if (row.0.id, row) in RowsOf(pages) {
      var k := ReturnedWasListed(tables, limit, pages, (row.0.id, row));
      EvaluationListed(runs, examples, states[k], experiment, names, tables[k], row);
    }
  }

  /** The rows of the query by the ids of their examples. */
  ghost predicate ByExample(table: map<nat, IncompleteRow>, examples: seq<Example>, experiment: nat,
                            rows: seq<IncompleteRow>)
  {
    forall x, row :: OfExperiment(examples, experiment, x) ==>
      (x.exampleId in table && table[x.exampleId] == row <==> row in rows && row.revisionId == x.revisionId)
  }

  /** The table is what the query lists at the time. */
  ghost predicate RunTable(runs: seq<Run>, examples: seq<Example>, experiment: nat, repetitions: nat,
                           table: map<nat, IncompleteRow>)
  {
    && Constraints(runs, examples)
    && ByExample(table, examples, experiment, IncompleteRunsQuery(runs, examples, experiment, repetitions))
  }

  /** At every request fewer successes lie beyond 1..R than repetitions are left to run. */
  ghost predicate LeftThroughout(states: seq<seq<Run>>, experiment: nat, repetitions: nat, example: nat)
  {
    forall k :: 0 <= k < |states| ==>
      |Stray(states[k], experiment, repetitions, example)| < |Incomplete(states[k], experiment, repetitions, example)|
  }

  /** The row has what was left to run at some time. */
  ghost predicate WasLeft(states: seq<seq<Run>>, experiment: nat, repetitions: nat, example: nat, row: IncompleteRow)
  {
    exists k :: 0 <= k < |states|
      && RepetitionsOf(row, repetitions) == Incomplete(states[k], experiment, repetitions, example) != {}
  }

  /** Runs may be repeated between the pages: an example with something left to run throughout is
      returned, no example is returned twice, and every row has what is left at the time of its request. */
  lemma {:induction false} RunsPaged(states: seq<seq<Run>>, examples: seq<Example>, experiment: nat, repetitions: nat,
                                     limit: nat, tables: seq<map<nat, IncompleteRow>>, pages: seq<Page<IncompleteRow>>,
                                     x: Example, row: IncompleteRow)
    requires |tables| == |states| && forall k :: 0 <= k < |states| ==>
               RunTable(states[k], examples, experiment, repetitions, tables[k])
    requires IsFinished(tables, limit, pages) && OfExperiment(examples, experiment, x)
    ensures Ascending(RowsOf(pages))
    ensures LeftThroughout(states, experiment, repetitions, x.exampleId) ==> IsReturned(pages, x.exampleId)
    ensures (x.exampleId, row) in RowsOf(pages) ==> WasLeft(states, experiment, repetitions, x.exampleId, row)
  {
    RowsAscend(tables, limit, pages);
    if LeftThroughout(states, experiment, repetitions, x.exampleId) {
      forall k | 0 <= k < |states|
        ensures x.exampleId in tables[k]
      {
        TableIsExact(states[k], examples, experiment, repetitions, tables[k], x);
        IncompleteRunsExact(states[k], examples, experiment, repetitions, x);
      }
      StayingIsReturned(tables, limit, pages, x.exampleId);
    }
    if (x.exampleId, row) in RowsOf(pages) {
      var k := ReturnedWasListed(tables, limit, pages, (x.exampleId, row));
      TableIsExact(states[k], examples, experiment, repetitions, tables[k], x);
    }
  }

  lemma {:induction false} TableIsExact(runs: seq<Run>, examples: seq<Example>, experiment: nat, repetitions: nat,
                                        table: map<nat, IncompleteRow>, x: Example)
    requires RunTable(runs, examples, experiment, repetitions, table) && OfExperiment(examples, experiment, x)
    ensures IsListed(runs, examples, experiment, repetitions, x) ==> x.exampleId in table
    ensures x.exampleId in table ==> RepetitionsOf(table[x.exampleId], repetitions)
                                     == Incomplete(runs, experiment, repetitions, x.exampleId) != {}
  {
    IncompleteRunsExact(runs, examples, experiment, repetitions, x);
    if row :| IsRowOf(runs, examples, experiment, repetitions, x, row) {
      assert x.exampleId in table;
    }
    if x.exampleId in table {
      assert IsRowOf(runs, examples, experiment, repetitions, x, table[x.exampleId]);
    }
  }
}
