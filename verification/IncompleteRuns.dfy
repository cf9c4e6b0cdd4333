/** Which repetitions of an experiment are still to be run.

    A table is a sequence of rows in any order, and so is what a query returns: a join, a UNION ALL
    or an aggregated array can hold a row or a number twice, and it is proved that it does not. */
module IncompleteRuns {
  import opened Wrappers
  import opened Finite

  datatype Run = Run(id: nat, experimentId: nat, exampleId: nat, repetition: nat, error: Option<string>)

  /** An example of an experiment, with the revision the experiment was given. */
  datatype Example = Example(experimentId: nat, exampleId: nat, revisionId: nat)

  /** A row of the incomplete-runs query; no repetitions listed stands for all of them. */
  datatype IncompleteRow = IncompleteRow(revisionId: nat, successfulCount: nat, repetitions: seq<nat>)

  predicate SameSlot(r: Run, s: Run)
  {
    r.experimentId == s.experimentId && r.exampleId == s.exampleId && r.repetition == s.repetition
  }

  predicate SameExample(x: Example, y: Example)
  {
    x.experimentId == y.experimentId && (x.exampleId == y.exampleId || x.revisionId == y.revisionId)
  }

  /** The unique constraints on runs and on the examples of an experiment, and that a revision
      belongs to one example. */
  ghost predicate Constraints(runs: seq<Run>, examples: seq<Example>)
  {
    && (forall i, j :: 0 <= i < j < |runs| ==> !SameSlot(runs[i], runs[j]))
    && (forall i, j :: 0 <= i < j < |examples| ==> !SameExample(examples[i], examples[j]))
  }

  /** The repetitions of the experiment lie in 1..R. */
  ghost predicate InRange(runs: seq<Run>, experiment: nat, repetitions: nat)
  {
    forall r :: r in runs && r.experimentId == experiment ==> 1 <= r.repetition <= repetitions
  }

  // ---------------------------------------------------------------- what is wanted

  /** 1..R */
  function AllRepetitions(n: nat): set<nat>
    ensures forall i :: i in AllRepetitions(n) <==> 1 <= i <= n
    ensures |AllRepetitions(n)| == n
  {
    if n == 0 then {} else AllRepetitions(n - 1) + {n}
  }

  predicate Succeeded(r: Run, experiment: nat, example: nat)
  {
    r.experimentId == experiment && r.exampleId == example && r.error.None?
  }

  /** The repetitions of an example that ran without an error. */
  function Successful(runs: seq<Run>, experiment: nat, example: nat): set<nat>
  {
    set r | r in runs && r.experimentId == experiment && r.exampleId == example && r.error == None :: r.repetition
  }

  /** The repetitions of an example that are missing or failed. */
  function Incomplete(runs: seq<Run>, experiment: nat, repetitions: nat, example: nat): set<nat>
  {
    AllRepetitions(repetitions) - Successful(runs, experiment, example)
  }

  /** The successful repetitions of an example beyond 1..R. */
  function Stray(runs: seq<Run>, experiment: nat, repetitions: nat, example: nat): set<nat>
  {
    Successful(runs, experiment, example) - AllRepetitions(repetitions)
  }

  // ---------------------------------------------------------------- GROUP BY

  type Key = (nat, nat)

  /** A row to be grouped: its key and the value that is aggregated. */
  type Keyed = (Key, nat)

  /** The groups, one for each key that occurs. */
  function KeysOf(rows: seq<Keyed>): seq<Key>
  {
    if rows == [] then []
    else
      var before, k := KeysOf(rows[..|rows| - 1]), rows[|rows| - 1].0;
      if k in before then before else before + [k]
  }

  /** The values of one group, as `array_agg` and `json_group_array` list them. */
  function ValuesOf(rows: seq<Keyed>, k: Key): seq<nat>
  {
    if rows == [] then []
    else
      var before, last := ValuesOf(rows[..|rows| - 1], k), rows[|rows| - 1];
      if last.0 == k then before + [last.1] else before
  }

  function Sum(values: seq<nat>): nat
  {
    if values == [] then 0 else Sum(values[..|values| - 1]) + values[|values| - 1]
  }

  lemma {:induction false} KeysHold(rows: seq<Keyed>)
    ensures NoRepeats(KeysOf(rows))
    ensures forall k :: k in KeysOf(rows) <==> exists row :: row in rows && row.0 == k
    decreases |rows|
  {
    if rows != [] {
      var init, last := rows[..|rows| - 1], rows[|rows| - 1];
      assert rows == init + [last];
      KeysHold(init);
    }
  }

  lemma {:induction false} ValuesOfConcat(xs: seq<Keyed>, ys: seq<Keyed>, k: Key)
    ensures ValuesOf(xs + ys, k) == ValuesOf(xs, k) + ValuesOf(ys, k)
    decreases |ys|
  {
    if ys == [] {
      assert xs + ys == xs;
    } else {
      assert (xs + ys)[..|xs + ys| - 1] == xs + ys[..|ys| - 1];
      ValuesOfConcat(xs, ys[..|ys| - 1], k);
    }
  }

  lemma {:induction false} OtherKey(rows: seq<Keyed>, k: Key)
    requires forall row :: row in rows ==> row.0 != k
    ensures ValuesOf(rows, k) == []
    decreases |rows|
  {
    if rows != [] {
      assert rows == rows[..|rows| - 1] + [rows[|rows| - 1]];
      OtherKey(rows[..|rows| - 1], k);
    }
  }

  // ---------------------------------------------------------------- the queries

  datatype CountRow = CountRow(revisionId: nat, exampleId: nat, successfulCount: nat)

  /** The runs joined to an example, each counting one if it succeeded. */
  function RunsOf(runs: seq<Run>, experiment: nat, x: Example): seq<Keyed>
  {
    if runs == [] then []
    else
      var before, r := RunsOf(runs[..|runs| - 1], experiment, x), runs[|runs| - 1];
      if r.experimentId == experiment && r.exampleId == x.exampleId
      then before + [((x.revisionId, x.exampleId), if r.error.None? then 1 else 0)]
      else before
  }

  /** The rows of one example in the outer join: without a run, one row that counts nothing. */
  function OwnRows(runs: seq<Run>, experiment: nat, x: Example): seq<Keyed>
  {
    var rows := RunsOf(runs, experiment, x);
    if rows == [] then [((x.revisionId, x.exampleId), 0)] else rows
  }

  /** The examples of the experiment outer joined with their runs. */
  function Joined(runs: seq<Run>, examples: seq<Example>, experiment: nat): seq<Keyed>
  {
    if examples == [] then []
    else
      var before, x := Joined(runs, examples[..|examples| - 1], experiment), examples[|examples| - 1];
      if x.experimentId == experiment then before + OwnRows(runs, experiment, x) else before
  }

  /** The groups whose sum stays below the number of repetitions. */
  function Below(keys: seq<Key>, rows: seq<Keyed>, repetitions: nat): seq<CountRow>
  {
    if keys == [] then []
    else
      var before, k := Below(keys[..|keys| - 1], rows, repetitions), keys[|keys| - 1];
      var count := Sum(ValuesOf(rows, k));
      if count < repetitions then before + [CountRow(k.0, k.1, count)] else before
  }

  /** `get_successful_run_counts_subquery` */
  function RunCounts(runs: seq<Run>, examples: seq<Example>, experiment: nat, repetitions: nat): seq<CountRow>
  {
    var rows := Joined(runs, examples, experiment);
    Below(KeysOf(rows), rows, repetitions)
  }

  datatype Slot = Slot(counted: CountRow, repetition: nat)

  /** 1..R for one example. */
  function Series(c: CountRow, repetitions: nat): seq<Slot>
  {
    if repetitions == 0 then [] else Series(c, repetitions - 1) + [Slot(c, repetitions)]
  }

  /** `generate_expected_repetitions_cte`: every repetition of the partially complete examples. */
  function Expected(counts: seq<CountRow>, repetitions: nat): seq<Slot>
  {
    if counts == [] then []
    else
      var before, c := Expected(counts[..|counts| - 1], repetitions), counts[|counts| - 1];
      if 0 < c.successfulCount then before + Series(c, repetitions) else before
  }

  predicate Done(runs: seq<Run>, experiment: nat, s: Slot)
  {
    exists r :: r in runs && Succeeded(r, experiment, s.counted.exampleId) && r.repetition == s.repetition
  }

  /** The outer join with successful runs, restricted to the expected repetitions without one. */
  function Unmatched(runs: seq<Run>, experiment: nat, expected: seq<Slot>): seq<Keyed>
  {
    if expected == [] then []
    else
      var before, s := Unmatched(runs, experiment, expected[..|expected| - 1]), expected[|expected| - 1];
      if Done(runs, experiment, s) then before
      else before + [((s.counted.revisionId, s.counted.successfulCount), s.repetition)]
  }

  function RowsOf(keys: seq<Key>, rows: seq<Keyed>): seq<IncompleteRow>
  {
    seq(|keys|, i requires 0 <= i < |keys| => IncompleteRow(keys[i].0, keys[i].1, ValuesOf(rows, keys[i])))
  }

  /** `get_incomplete_repetitions_query`: grouped by revision and count. */
  function GroupedRepetitions(unmatched: seq<Keyed>): seq<IncompleteRow>
  {
    RowsOf(KeysOf(unmatched), unmatched)
  }

  /** The strategy for a single repetition. */
  function FastPath(counts: seq<CountRow>): seq<IncompleteRow>
  {
    if counts == [] then []
    else
      var c := counts[|counts| - 1];
      FastPath(counts[..|counts| - 1]) + [IncompleteRow(c.revisionId, c.successfulCount, [])]
  }

  function CompletelyMissing(counts: seq<CountRow>): seq<IncompleteRow>
  {
    if counts == [] then []
    else
      var before, c := CompletelyMissing(counts[..|counts| - 1]), counts[|counts| - 1];
      if c.successfulCount == 0 then before + [IncompleteRow(c.revisionId, 0, [])] else before
  }

  /** The strategy for several repetitions: completely missing examples apart from the others, put
      together with UNION ALL. */
  function TwoPaths(runs: seq<Run>, experiment: nat, repetitions: nat, counts: seq<CountRow>): seq<IncompleteRow>
  {
    CompletelyMissing(counts) + GroupedRepetitions(Unmatched(runs, experiment, Expected(counts, repetitions)))
  }

  /** `get_experiment_incomplete_runs_query`, up to the join with the revisions. */
  function IncompleteRunsQuery(runs: seq<Run>, examples: seq<Example>, experiment: nat,
                               repetitions: nat): seq<IncompleteRow>
  {
    var counts := RunCounts(runs, examples, experiment, repetitions);
    if repetitions == 1 then FastPath(counts) else TwoPaths(runs, experiment, repetitions, counts)
  }

  /** What the caller makes of a row. */
  function RepetitionsOf(row: IncompleteRow, repetitions: nat): set<nat>
  {
    if row.successfulCount == 0 then AllRepetitions(repetitions) else ElementsOf(row.repetitions)
  }

  // ---------------------------------------------------------------- counting is exact

  /** The values joined to an example add up to its successful repetitions. */
  lemma {:induction false} RunsOfSum(runs: seq<Run>, experiment: nat, x: Example)
    requires forall i, j :: 0 <= i < j < |runs| ==> !SameSlot(runs[i], runs[j])
    ensures Sum(ValuesOf(RunsOf(runs, experiment, x), (x.revisionId, x.exampleId)))
         == |Successful(runs, experiment, x.exampleId)|
    ensures forall row :: row in RunsOf(runs, experiment, x) ==> row.0 == (x.revisionId, x.exampleId)
    decreases |runs|
  {
    if runs == [] {
      assert Successful(runs, experiment, x.exampleId) == {};
    } else {
      var init, r := runs[..|runs| - 1], runs[|runs| - 1];
      assert runs == init + [r];
      RunsOfSum(init, experiment, x);
      OneMoreRun(init, r, experiment, x.exampleId);
    }
  }

  lemma OneMoreRun(runs: seq<Run>, r: Run, experiment: nat, example: nat)
    requires forall i :: 0 <= i < |runs| ==> !SameSlot(runs[i], r)
    ensures |Successful(runs + [r], experiment, example)|
         == |Successful(runs, experiment, example)| + if Succeeded(r, experiment, example) then 1 else 0
  {
    var before, after := Successful(runs, experiment, example), Successful(runs + [r], experiment, example);
    if Succeeded(r, experiment, example) {
      assert r.repetition !in before;
      assert after == before + {r.repetition};
    } else {
      assert after == before;
    }
  }

  ghost predicate OfExperiment(examples: seq<Example>, experiment: nat, x: Example)
  {
    x in examples && x.experimentId == experiment
  }

  lemma {:induction false} JoinedKeys(runs: seq<Run>, examples: seq<Example>, experiment: nat, k: Key)
    ensures (exists row :: row in Joined(runs, examples, experiment) && row.0 == k)
       <==> exists x :: OfExperiment(examples, experiment, x) && k == (x.revisionId, x.exampleId)
    decreases |examples|
  {
    if examples != [] {
      var init, x := examples[..|examples| - 1], examples[|examples| - 1];
      assert examples == init + [x];
      JoinedKeys(runs, init, experiment, k);
      RunsOfKeys(runs, experiment, x);
      forall y
        ensures OfExperiment(examples, experiment, y) <==>
                  OfExperiment(init, experiment, y) || (y == x && x.experimentId == experiment)
      {
      }
      if x.experimentId == experiment {
        var own := OwnRows(runs, experiment, x);
        assert own[0] in own && own[0].0 == (x.revisionId, x.exampleId);
      }
    }
  }

  lemma {:induction false} RunsOfKeys(runs: seq<Run>, experiment: nat, x: Example)
    ensures forall row :: row in RunsOf(runs, experiment, x) ==> row.0 == (x.revisionId, x.exampleId)
    decreases |runs|
  {
    if runs != [] {
      RunsOfKeys(runs[..|runs| - 1], experiment, x);
    }
  }

  lemma OwnSum(runs: seq<Run>, experiment: nat, x: Example)
    requires forall i, j :: 0 <= i < j < |runs| ==> !SameSlot(runs[i], runs[j])
    ensures Sum(ValuesOf(OwnRows(runs, experiment, x), (x.revisionId, x.exampleId)))
         == |Successful(runs, experiment, x.exampleId)|
  {
    RunsOfSum(runs, experiment, x);
    var k := (x.revisionId, x.exampleId);
    assert ValuesOf([(k, 0)], k) == [0] && Sum([0]) == 0;
  }

  lemma NewKey(runs: seq<Run>, examples: seq<Example>, experiment: nat, x: Example)
    requires Constraints(runs, examples + [x]) && x.experimentId == experiment
    ensures ValuesOf(Joined(runs, examples, experiment), (x.revisionId, x.exampleId)) == []
  {
    var k, before := (x.revisionId, x.exampleId), Joined(runs, examples, experiment);
    forall row | row in before
      ensures row.0 != k
    {
      JoinedKeys(runs, examples, experiment, row.0);
      var y :| OfExperiment(examples, experiment, y) && row.0 == (y.revisionId, y.exampleId);
      var i :| 0 <= i < |examples| && examples[i] == y;
      assert !SameExample((examples + [x])[i], (examples + [x])[|examples|]);
    }
    OtherKey(before, k);
  }

  lemma OtherExample(runs: seq<Run>, examples: seq<Example>, experiment: nat, x: Example, last: Example)
    requires Constraints(runs, examples + [last]) && OfExperiment(examples, experiment, x)
    ensures last.experimentId == experiment ==>
            ValuesOf(OwnRows(runs, experiment, last), (x.revisionId, x.exampleId)) == []
  {
    var i :| 0 <= i < |examples| && examples[i] == x;
    assert !SameExample((examples + [last])[i], (examples + [last])[|examples|]);
    if last.experimentId == experiment {
      RunsOfKeys(runs, experiment, last);
      OtherKey(OwnRows(runs, experiment, last), (x.revisionId, x.exampleId));
    }
  }

  /** The count column counts successful repetitions: the group of an example holds its own runs only. */
  lemma {:induction false} CountIsSuccessful(runs: seq<Run>, examples: seq<Example>, experiment: nat, x: Example)
    requires Constraints(runs, examples) && OfExperiment(examples, experiment, x)
    ensures Sum(ValuesOf(Joined(runs, examples, experiment), (x.revisionId, x.exampleId)))
         == |Successful(runs, experiment, x.exampleId)|
    decreases |examples|
  {
    var init, last := examples[..|examples| - 1], examples[|examples| - 1];
    var k, before := (x.revisionId, x.exampleId), Joined(runs, init, experiment);
    assert examples == init + [last];
    ValuesOfConcat(before, OwnRows(runs, experiment, last), k);
    if last == x {
      NewKey(runs, init, experiment, x);
      OwnSum(runs, experiment, x);
      NothingAdded(ValuesOf(OwnRows(runs, experiment, x), k));
    } else {
      OtherExample(runs, init, experiment, x, last);
      CountIsSuccessful(runs, init, experiment, x);
      NothingAdded(ValuesOf(before, k));
    }
  }

  lemma NothingAdded(values: seq<nat>)
    ensures [] + values == values && values + [] == values
  {
  }

  /** What the counts ought to say of an example. */
  function CountOf(runs: seq<Run>, experiment: nat, x: Example): CountRow
  {
    CountRow(x.revisionId, x.exampleId, |Successful(runs, experiment, x.exampleId)|)
  }

  ghost predicate OneRowPerRevision(counts: seq<CountRow>)
  {
    forall i, j :: 0 <= i < j < |counts| ==> counts[i].revisionId != counts[j].revisionId
  }

  lemma {:induction false} BelowHolds(keys: seq<Key>, rows: seq<Keyed>, repetitions: nat)
    requires NoRepeats(keys)
    ensures forall c :: c in Below(keys, rows, repetitions) <==>
                          (c.revisionId, c.exampleId) in keys
                          && c.successfulCount == Sum(ValuesOf(rows, (c.revisionId, c.exampleId))) < repetitions
    ensures NoRepeats(Below(keys, rows, repetitions))
    decreases |keys|
  {
    if keys != [] {
      var init, k := keys[..|keys| - 1], keys[|keys| - 1];
      assert keys == init + [k];
      BelowHolds(init, rows, repetitions);
      assert k !in init;
    }
  }

  /** One row for each example with fewer successes than repetitions, and no two rows alike. */
  lemma CountsHold(runs: seq<Run>, examples: seq<Example>, experiment: nat, repetitions: nat)
    requires Constraints(runs, examples)
    ensures forall c :: c in RunCounts(runs, examples, experiment, repetitions) <==>
                          exists x :: OfExperiment(examples, experiment, x) && c == CountOf(runs, experiment, x)
                                      && c.successfulCount < repetitions
    ensures OneRowPerRevision(RunCounts(runs, examples, experiment, repetitions))
  {
    var rows, counts := Joined(runs, examples, experiment), RunCounts(runs, examples, experiment, repetitions);
    KeysHold(rows);
    BelowHolds(KeysOf(rows), rows, repetitions);
    forall c
      ensures c in counts <==> exists x :: OfExperiment(examples, experiment, x) && c == CountOf(runs, experiment, x)
                                           && c.successfulCount < repetitions
    {
      JoinedKeys(runs, examples, experiment, (c.revisionId, c.exampleId));
      if c in counts {
        var x :| OfExperiment(examples, experiment, x) && (c.revisionId, c.exampleId) == (x.revisionId, x.exampleId);
        CountIsSuccessful(runs, examples, experiment, x);
      }
      if x :| OfExperiment(examples, experiment, x) && c == CountOf(runs, experiment, x)
              && c.successfulCount < repetitions {
        CountIsSuccessful(runs, examples, experiment, x);
      }
    }
    CountsDiffer(runs, examples, experiment, counts);
  }

  lemma CountsDiffer(runs: seq<Run>, examples: seq<Example>, experiment: nat, counts: seq<CountRow>)
    requires Constraints(runs, examples) && NoRepeats(counts)
    requires forall c :: c in counts ==>
             exists x :: OfExperiment(examples, experiment, x) && c == CountOf(runs, experiment, x)
    ensures OneRowPerRevision(counts)
  {
    forall i, j | 0 <= i < j < |counts|
      ensures counts[i].revisionId != counts[j].revisionId
    {
      assert counts[i] in counts && counts[j] in counts;
      var x :| OfExperiment(examples, experiment, x) && counts[i] == CountOf(runs, experiment, x);
      var y :| OfExperiment(examples, experiment, y) && counts[j] == CountOf(runs, experiment, y);
      SameRevision(runs, examples, experiment, x, y);
    }
  }

  lemma SameRevision(runs: seq<Run>, examples: seq<Example>, experiment: nat, x: Example, y: Example)
    requires Constraints(runs, examples) && OfExperiment(examples, experiment, x)
             && OfExperiment(examples, experiment, y)
    ensures x.revisionId == y.revisionId ==> x == y
  {
    var m :| 0 <= m < |examples| && examples[m] == x;
    var n :| 0 <= n < |examples| && examples[n] == y;
    assert m < n ==> !SameExample(examples[m], examples[n]);
    assert n < m ==> !SameExample(examples[n], examples[m]);
  }

  /** Fewer successes than repetitions are fewer successes beyond 1..R than repetitions undone. */
  lemma Pigeonhole(done: set<nat>, repetitions: nat)
    ensures |done| < repetitions <==> |done - AllRepetitions(repetitions)| < |AllRepetitions(repetitions) - done|
  {
    var all := AllRepetitions(repetitions);
    assert done == (done * all) + (done - all);
    assert all == (done * all) + (all - done);
  }

  // ---------------------------------------------------------------- the aggregated repetitions

  lemma {:induction false} UnmatchedConcat(runs: seq<Run>, experiment: nat, xs: seq<Slot>, ys: seq<Slot>)
    ensures Unmatched(runs, experiment, xs + ys) == Unmatched(runs, experiment, xs) + Unmatched(runs, experiment, ys)
    decreases |ys|
  {
    if ys == [] {
      assert xs + ys == xs;
    } else {
      assert (xs + ys)[..|xs + ys| - 1] == xs + ys[..|ys| - 1];
      UnmatchedConcat(runs, experiment, xs, ys[..|ys| - 1]);
    }
  }

  function KeyOf(c: CountRow): Key
  {
    (c.revisionId, c.successfulCount)
  }

  /** The open slots of one example, one more repetition considered. */
  lemma OpenStep(runs: seq<Run>, experiment: nat, c: CountRow, repetitions: nat)
    requires repetitions != 0
    ensures var last := Slot(c, repetitions);
            Unmatched(runs, experiment, Series(c, repetitions))
            == Unmatched(runs, experiment, Series(c, repetitions - 1))
               + if Done(runs, experiment, last) then [] else [(KeyOf(c), repetitions)]
    ensures Done(runs, experiment, Slot(c, repetitions)) <==> repetitions in Successful(runs, experiment, c.exampleId)
  {
    var series := Series(c, repetitions - 1);
    assert Series(c, repetitions)[..|series|] == series;
  }

  /** All rows belong to the group, and its values are the given ones, each once. */
  ghost predicate OneGroup(rows: seq<Keyed>, k: Key, values: set<nat>)
  {
    && (forall row :: row in rows ==> row.0 == k)
    && NoRepeats(ValuesOf(rows, k)) && ElementsOf(ValuesOf(rows, k)) == values
  }

  lemma OneGroupMore(rows: seq<Keyed>, k: Key, values: set<nat>, v: nat)
    requires OneGroup(rows, k, values) && v !in values
    ensures OneGroup(rows + [(k, v)], k, values + {v})
  {
    assert (rows + [(k, v)])[..|rows|] == rows;
    ElementsOfMore(ValuesOf(rows, k), v);
  }

  lemma OneGroupStep(before: seq<Keyed>, after: seq<Keyed>, k: Key, values: set<nat>, more: set<nat>,
                     v: nat, done: bool)
    requires OneGroup(before, k, values) && v !in values
    requires after == before + if done then [] else [(k, v)]
    requires more == values + if done then {} else {v}
    ensures OneGroup(after, k, more)
  {
    if done {
      assert before + [] == before && values + {} == values;
    } else {
      OneGroupMore(before, k, values, v);
    }
  }

  lemma {:induction false} SeriesOpen(runs: seq<Run>, experiment: nat, c: CountRow, repetitions: nat)
    ensures OneGroup(Unmatched(runs, experiment, Series(c, repetitions)), KeyOf(c),
                     Incomplete(runs, experiment, repetitions, c.exampleId))
    decreases repetitions
  {
    if repetitions == 0 {
      NoneIncomplete(runs, experiment, c.exampleId);
    } else {
      SeriesOpen(runs, experiment, c, repetitions - 1);
      OpenStep(runs, experiment, c, repetitions);
      IncompleteStep(runs, experiment, repetitions, c.exampleId);
      OneGroupStep(Unmatched(runs, experiment, Series(c, repetitions - 1)),
                   Unmatched(runs, experiment, Series(c, repetitions)), KeyOf(c),
                   Incomplete(runs, experiment, repetitions - 1, c.exampleId),
                   Incomplete(runs, experiment, repetitions, c.exampleId), repetitions,
                   repetitions in Successful(runs, experiment, c.exampleId));
    }
  }

  lemma NoneIncomplete(runs: seq<Run>, experiment: nat, example: nat)
    ensures Incomplete(runs, experiment, 0, example) == {}
  {
  }

  lemma IncompleteStep(runs: seq<Run>, experiment: nat, repetitions: nat, example: nat)
    requires repetitions != 0
    ensures repetitions !in Incomplete(runs, experiment, repetitions - 1, example)
    ensures Incomplete(runs, experiment, repetitions, example)
         == Incomplete(runs, experiment, repetitions - 1, example)
            + if repetitions in Successful(runs, experiment, example) then {} else {repetitions}
  {
  }

  /** Every open slot belongs to a partially complete example. */
  lemma {:induction false} OpenKeys(runs: seq<Run>, experiment: nat, repetitions: nat, counts: seq<CountRow>)
    ensures forall row :: row in Unmatched(runs, experiment, Expected(counts, repetitions)) ==>
                            exists c :: c in counts && 0 < c.successfulCount && row.0 == KeyOf(c)
    decreases |counts|
  {
    if counts != [] {
      var init, c := counts[..|counts| - 1], counts[|counts| - 1];
      assert counts == init + [c];
      OpenKeys(runs, experiment, repetitions, init);
      SeriesOpen(runs, experiment, c, repetitions);
      UnmatchedConcat(runs, experiment, Expected(init, repetitions), Series(c, repetitions));
    }
  }

  /** The array of a partially complete example lists its missing and failed repetitions, each once. */
  lemma {:induction false} GroupOf(runs: seq<Run>, experiment: nat, repetitions: nat, counts: seq<CountRow>,
                                   c: CountRow)
    requires OneRowPerRevision(counts) && c in counts && 0 < c.successfulCount
    ensures var open := ValuesOf(Unmatched(runs, experiment, Expected(counts, repetitions)), KeyOf(c));
            NoRepeats(open) && ElementsOf(open) == Incomplete(runs, experiment, repetitions, c.exampleId)
    decreases |counts|
  {
    var init, last := counts[..|counts| - 1], counts[|counts| - 1];
    assert counts == init + [last];
    var before, series := Unmatched(runs, experiment, Expected(init, repetitions)), Series(last, repetitions);
    UnmatchedConcat(runs, experiment, Expected(init, repetitions), series);
    ValuesOfConcat(before, Unmatched(runs, experiment, series), KeyOf(c));
    SeriesOpen(runs, experiment, last, repetitions);
    if last == c {
      OpenKeys(runs, experiment, repetitions, init);
      OtherKey(before, KeyOf(c));
    } else {
      GroupOf(runs, experiment, repetitions, init, c);
      OtherKey(Unmatched(runs, experiment, series), KeyOf(c));
      var open := ValuesOf(before, KeyOf(c));
      assert open + [] == open;
    }
  }

  lemma {:induction false} GroupNotEmpty(rows: seq<Keyed>, k: Key)
    ensures k in KeysOf(rows) <==> ValuesOf(rows, k) != []
    decreases |rows|
  {
    if rows != [] {
      GroupNotEmpty(rows[..|rows| - 1], k);
    }
  }

  // ---------------------------------------------------------------- the two paths

  /** The row that the query ought to hold for a row of the counts. */
  ghost predicate RowFor(row: IncompleteRow, c: CountRow, runs: seq<Run>, experiment: nat, repetitions: nat)
  {
    && row.revisionId == c.revisionId && row.successfulCount == c.successfulCount
    && NoRepeats(row.repetitions)
    && ElementsOf(row.repetitions)
       == if c.successfulCount == 0 then {} else Incomplete(runs, experiment, repetitions, c.exampleId)
  }

  /** No two rows for one revision. */
  ghost predicate ListsOnce(rows: seq<IncompleteRow>)
  {
    forall i, j :: 0 <= i < j < |rows| ==> rows[i].revisionId != rows[j].revisionId
  }

  lemma {:induction false} MissingRows(counts: seq<CountRow>)
    requires OneRowPerRevision(counts)
    ensures forall row :: row in CompletelyMissing(counts) <==>
                            exists c :: c in counts && c.successfulCount == 0
                              && row == IncompleteRow(c.revisionId, 0, [])
    ensures ListsOnce(CompletelyMissing(counts))
    decreases |counts|
  {
    if counts != [] {
      var init, c := counts[..|counts| - 1], counts[|counts| - 1];
      assert counts == init + [c];
      MissingRows(init);
      forall row | row in CompletelyMissing(init)
        ensures row.revisionId != c.revisionId
      {
        var d :| d in init && d.successfulCount == 0 && row == IncompleteRow(d.revisionId, 0, []);
        var i :| 0 <= i < |init| && init[i] == d;
        assert counts[i] == d;
      }
    }
  }

  /** For one repetition the fast path is the general one, row by row. */
  lemma {:induction false} AllMissing(counts: seq<CountRow>)
    requires forall c :: c in counts ==> c.successfulCount == 0
    ensures FastPath(counts) == CompletelyMissing(counts) && Expected(counts, 1) == []
    decreases |counts|
  {
    if counts != [] {
      var init, c := counts[..|counts| - 1], counts[|counts| - 1];
      assert counts == init + [c];
      AllMissing(init);
    }
  }

  /** The rows of the grouped path: one for each partially complete example. */
  lemma GroupsAreRows(runs: seq<Run>, experiment: nat, repetitions: nat, counts: seq<CountRow>)
    requires OneRowPerRevision(counts)
    ensures var rows := GroupedRepetitions(Unmatched(runs, experiment, Expected(counts, repetitions)));
            && ListsOnce(rows)
            && (forall row :: row in rows ==>
                  exists c :: c in counts && 0 < c.successfulCount && RowFor(row, c, runs, experiment, repetitions))
            && (forall c | c in counts && 0 < c.successfulCount
                           && Incomplete(runs, experiment, repetitions, c.exampleId) != {} ::
                  exists row :: row in rows && RowFor(row, c, runs, experiment, repetitions))
  {
    var open := Unmatched(runs, experiment, Expected(counts, repetitions));
    var rows := GroupedRepetitions(open);
    KeysHold(open);
    forall i | 0 <= i < |rows|
      ensures exists c :: c in counts && 0 < c.successfulCount && KeyOf(c) == KeysOf(open)[i]
                          && RowFor(rows[i], c, runs, experiment, repetitions)
    {
      GroupRow(runs, experiment, repetitions, counts, KeysOf(open)[i]);
    }
    forall i, j | 0 <= i < j < |rows|
      ensures rows[i].revisionId != rows[j].revisionId
    {
      var c :| c in counts && 0 < c.successfulCount && KeyOf(c) == KeysOf(open)[i];
      var d :| d in counts && 0 < d.successfulCount && KeyOf(d) == KeysOf(open)[j];
      OneCount(counts, c, d);
    }
    forall c | c in counts && 0 < c.successfulCount && Incomplete(runs, experiment, repetitions, c.exampleId) != {}
      ensures exists row :: row in rows && RowFor(row, c, runs, experiment, repetitions)
    {
      GroupOf(runs, experiment, repetitions, counts, c);
      GroupNotEmpty(open, KeyOf(c));
      var i :| 0 <= i < |KeysOf(open)| && KeysOf(open)[i] == KeyOf(c);
      assert rows[i] in rows;
    }
  }

  lemma OneCount(counts: seq<CountRow>, c: CountRow, d: CountRow)
    requires OneRowPerRevision(counts) && c in counts && d in counts
    ensures c.revisionId == d.revisionId ==> c == d
  {
    var i :| 0 <= i < |counts| && counts[i] == c;
    var j :| 0 <= j < |counts| && counts[j] == d;
  }

  lemma GroupRow(runs: seq<Run>, experiment: nat, repetitions: nat, counts: seq<CountRow>, k: Key)
    requires OneRowPerRevision(counts)
    requires k in KeysOf(Unmatched(runs, experiment, Expected(counts, repetitions)))
    ensures exists c :: c in counts && 0 < c.successfulCount && KeyOf(c) == k
              && RowFor(IncompleteRow(k.0, k.1,
                                      ValuesOf(Unmatched(runs, experiment, Expected(counts, repetitions)), k)),
                        c, runs, experiment, repetitions)
  {
    var open := Unmatched(runs, experiment, Expected(counts, repetitions));
    KeysHold(open);
    OpenKeys(runs, experiment, repetitions, counts);
    var row :| row in open && row.0 == k;
    var c :| c in counts && 0 < c.successfulCount && row.0 == KeyOf(c);
    GroupOf(runs, experiment, repetitions, counts, c);
  }

  /** For one repetition the fast path is the general one, row by row and in the same order. */
  lemma FastPathAgrees(runs: seq<Run>, examples: seq<Example>, experiment: nat)
    requires Constraints(runs, examples)
    ensures var counts := RunCounts(runs, examples, experiment, 1);
            FastPath(counts) == TwoPaths(runs, experiment, 1, counts)
  {
    var counts := RunCounts(runs, examples, experiment, 1);
    CountsHold(runs, examples, experiment, 1);
    AllMissing(counts);
    assert CompletelyMissing(counts) + [] == CompletelyMissing(counts);
  }

  /** Both strategies of the query return the same: one row for each example with fewer successes than
      repetitions. UNION ALL removes nothing, and there is nothing to remove. */
  lemma QueryRows(runs: seq<Run>, examples: seq<Example>, experiment: nat, repetitions: nat)
    requires Constraints(runs, examples)
    ensures var query, counts := IncompleteRunsQuery(runs, examples, experiment, repetitions),
                                 RunCounts(runs, examples, experiment, repetitions);
            && ListsOnce(query)
            && (forall row :: row in query ==> exists c :: c in counts && RowFor(row, c, runs, experiment, repetitions))
            && (forall c :: c in counts ==> exists row :: row in query && RowFor(row, c, runs, experiment, repetitions))
  {
    var counts := RunCounts(runs, examples, experiment, repetitions);
    CountsHold(runs, examples, experiment, repetitions);
    if repetitions == 1 {
      FastPathAgrees(runs, examples, experiment);
    }
    forall c | c in counts
      ensures Incomplete(runs, experiment, repetitions, c.exampleId) != {}
    {
      Pigeonhole(Successful(runs, experiment, c.exampleId), repetitions);
    }
    TwoPathRows(runs, experiment, repetitions, counts);
  }

  lemma TwoPathRows(runs: seq<Run>, experiment: nat, repetitions: nat, counts: seq<CountRow>)
    requires OneRowPerRevision(counts)
    requires forall c :: c in counts ==> Incomplete(runs, experiment, repetitions, c.exampleId) != {}
    ensures var rows := TwoPaths(runs, experiment, repetitions, counts);
            && ListsOnce(rows)
            && (forall row :: row in rows ==> exists c :: c in counts && RowFor(row, c, runs, experiment, repetitions))
            && (forall c :: c in counts ==> exists row :: row in rows && RowFor(row, c, runs, experiment, repetitions))
  {
    var first := CompletelyMissing(counts);
    var second := GroupedRepetitions(Unmatched(runs, experiment, Expected(counts, repetitions)));
    PathsApart(runs, experiment, repetitions, counts);
    forall c | c in counts
      ensures exists row :: row in first + second && RowFor(row, c, runs, experiment, repetitions)
    {
      var row := RowInEitherPath(runs, experiment, repetitions, counts, c);
      assert row in first + second;
    }
    forall row | row in first + second
      ensures exists c :: c in counts && RowFor(row, c, runs, experiment, repetitions)
    {
      var c := CountOfEitherPath(runs, experiment, repetitions, counts, row);
    }
  }

  lemma RowInEitherPath(runs: seq<Run>, experiment: nat, repetitions: nat, counts: seq<CountRow>, c: CountRow)
    returns (row: IncompleteRow)
    requires OneRowPerRevision(counts) && c in counts && Incomplete(runs, experiment, repetitions, c.exampleId) != {}
    ensures row in CompletelyMissing(counts)
            || row in GroupedRepetitions(Unmatched(runs, experiment, Expected(counts, repetitions)))
    ensures RowFor(row, c, runs, experiment, repetitions)
  {
    if c.successfulCount == 0 {
      MissingRows(counts);
      row := IncompleteRow(c.revisionId, 0, []);
    } else {
      GroupsAreRows(runs, experiment, repetitions, counts);
      row :| row in GroupedRepetitions(Unmatched(runs, experiment, Expected(counts, repetitions)))
             && RowFor(row, c, runs, experiment, repetitions);
    }
  }

  lemma CountOfEitherPath(runs: seq<Run>, experiment: nat, repetitions: nat, counts: seq<CountRow>, row: IncompleteRow)
    returns (c: CountRow)
    requires OneRowPerRevision(counts)
    requires row in CompletelyMissing(counts)
             || row in GroupedRepetitions(Unmatched(runs, experiment, Expected(counts, repetitions)))
    ensures c in counts && RowFor(row, c, runs, experiment, repetitions)
    ensures row in CompletelyMissing(counts) ==> c.successfulCount == 0
    ensures row in GroupedRepetitions(Unmatched(runs, experiment, Expected(counts, repetitions))) ==>
            0 < c.successfulCount
  {
    MissingRows(counts);
    GroupsAreRows(runs, experiment, repetitions, counts);
    if row in CompletelyMissing(counts) {
      c :| c in counts && c.successfulCount == 0 && row == IncompleteRow(c.revisionId, 0, []);
    } else {
      c :| c in counts && 0 < c.successfulCount && RowFor(row, c, runs, experiment, repetitions);
    }
  }

  /** No revision comes from both paths, nor twice from one. */
  lemma PathsApart(runs: seq<Run>, experiment: nat, repetitions: nat, counts: seq<CountRow>)
    requires OneRowPerRevision(counts)
    ensures ListsOnce(TwoPaths(runs, experiment, repetitions, counts))
  {
    var first := CompletelyMissing(counts);
    var second := GroupedRepetitions(Unmatched(runs, experiment, Expected(counts, repetitions)));
    MissingRows(counts);
    GroupsAreRows(runs, experiment, repetitions, counts);
    forall x, y | x in first && y in second
      ensures x.revisionId != y.revisionId
    {
      var c := CountOfEitherPath(runs, experiment, repetitions, counts, x);
      var d := CountOfEitherPath(runs, experiment, repetitions, counts, y);
      OneCount(counts, c, d);
    }
    ListsOnceConcat(first, second);
  }

  lemma ListsOnceConcat(xs: seq<IncompleteRow>, ys: seq<IncompleteRow>)
    requires ListsOnce(xs) && ListsOnce(ys)
    requires forall x, y :: x in xs && y in ys ==> x.revisionId != y.revisionId
    ensures ListsOnce(xs + ys)
  {
    forall i, j | 0 <= i < j < |xs + ys|
      ensures (xs + ys)[i].revisionId != (xs + ys)[j].revisionId
    {
      if i < |xs| <= j {
        assert xs[i] in xs && ys[j - |xs|] in ys;
      }
    }
  }

  // ---------------------------------------------------------------- what is listed

  ghost predicate IsRowOf(runs: seq<Run>, examples: seq<Example>, experiment: nat, repetitions: nat, x: Example,
                          row: IncompleteRow)
  {
    row in IncompleteRunsQuery(runs, examples, experiment, repetitions) && row.revisionId == x.revisionId
  }

  ghost predicate IsListed(runs: seq<Run>, examples: seq<Example>, experiment: nat, repetitions: nat, x: Example)
  {
    exists row :: IsRowOf(runs, examples, experiment, repetitions, x, row)
  }

  lemma CountOfRow(runs: seq<Run>, examples: seq<Example>, experiment: nat, repetitions: nat, row: IncompleteRow)
    returns (c: CountRow)
    requires Constraints(runs, examples) && row in IncompleteRunsQuery(runs, examples, experiment, repetitions)
    ensures c in RunCounts(runs, examples, experiment, repetitions) && RowFor(row, c, runs, experiment, repetitions)
  {
    QueryRows(runs, examples, experiment, repetitions);
    c :| c in RunCounts(runs, examples, experiment, repetitions) && RowFor(row, c, runs, experiment, repetitions);
  }

  lemma RowOfCount(runs: seq<Run>, examples: seq<Example>, experiment: nat, repetitions: nat, c: CountRow)
    returns (row: IncompleteRow)
    requires Constraints(runs, examples) && c in RunCounts(runs, examples, experiment, repetitions)
    ensures row in IncompleteRunsQuery(runs, examples, experiment, repetitions)
            && RowFor(row, c, runs, experiment, repetitions)
  {
    QueryRows(runs, examples, experiment, repetitions);
    row :| row in IncompleteRunsQuery(runs, examples, experiment, repetitions)
      && RowFor(row, c, runs, experiment, repetitions);
  }

  /** The counts hold an example's row exactly when it has fewer successes than repetitions. */
  lemma CountOfExample(runs: seq<Run>, examples: seq<Example>, experiment: nat, repetitions: nat, x: Example,
                       c: CountRow)
    requires Constraints(runs, examples) && OfExperiment(examples, experiment, x) && c.revisionId == x.revisionId
    ensures c in RunCounts(runs, examples, experiment, repetitions)
       <==> c == CountOf(runs, experiment, x) && c.successfulCount < repetitions
  {
    CountsHold(runs, examples, experiment, repetitions);
    if c in RunCounts(runs, examples, experiment, repetitions) {
      var y :| OfExperiment(examples, experiment, y) && c == CountOf(runs, experiment, y)
        && c.successfulCount < repetitions;
      SameRevision(runs, examples, experiment, x, y);
    }
  }

  lemma RowOfExample(runs: seq<Run>, examples: seq<Example>, experiment: nat, repetitions: nat, x: Example,
                     row: IncompleteRow)
    requires Constraints(runs, examples) && OfExperiment(examples, experiment, x)
    requires IsRowOf(runs, examples, experiment, repetitions, x, row)
    ensures RowFor(row, CountOf(runs, experiment, x), runs, experiment, repetitions)
    ensures |Successful(runs, experiment, x.exampleId)| < repetitions
  {
    var c := CountOfRow(runs, examples, experiment, repetitions, row);
    CountOfExample(runs, examples, experiment, repetitions, x, c);
  }

  /** An example is listed exactly when it has fewer successes than repetitions. */
  lemma ListedByCount(runs: seq<Run>, examples: seq<Example>, experiment: nat, repetitions: nat, x: Example)
    requires Constraints(runs, examples) && OfExperiment(examples, experiment, x)
    ensures IsListed(runs, examples, experiment, repetitions, x) <==>
            |Successful(runs, experiment, x.exampleId)| < repetitions
  {
    if row :| IsRowOf(runs, examples, experiment, repetitions, x, row) {
      RowOfExample(runs, examples, experiment, repetitions, x, row);
    }
    if |Successful(runs, experiment, x.exampleId)| < repetitions {
      var c := CountOf(runs, experiment, x);
      CountOfExample(runs, examples, experiment, repetitions, x, c);
      var row := RowOfCount(runs, examples, experiment, repetitions, c);
      assert IsRowOf(runs, examples, experiment, repetitions, x, row);
    }
  }

  lemma RowIsExact(runs: seq<Run>, examples: seq<Example>, experiment: nat, repetitions: nat, x: Example,
                   row: IncompleteRow)
    requires Constraints(runs, examples) && OfExperiment(examples, experiment, x)
    requires IsRowOf(runs, examples, experiment, repetitions, x, row)
    ensures NoRepeats(row.repetitions) && row.successfulCount == |Successful(runs, experiment, x.exampleId)|
    ensures RepetitionsOf(row, repetitions) == Incomplete(runs, experiment, repetitions, x.exampleId) != {}
  {
    RowOfExample(runs, examples, experiment, repetitions, x, row);
    Pigeonhole(Successful(runs, experiment, x.exampleId), repetitions);
    if row.successfulCount == 0 {
      assert Successful(runs, experiment, x.exampleId) == {};
    }
  }

  /** An example of the experiment has at most one row, and in it exactly its missing and failed
      repetitions, none of them twice. It has one exactly when fewer of its successes lie beyond 1..R
      than repetitions are missing or failed; with all repetitions in 1..R, exactly when any is. */
  lemma IncompleteRunsExact(runs: seq<Run>, examples: seq<Example>, experiment: nat, repetitions: nat, x: Example)
    requires Constraints(runs, examples) && OfExperiment(examples, experiment, x)
    ensures ListsOnce(IncompleteRunsQuery(runs, examples, experiment, repetitions))
    ensures forall row :: IsRowOf(runs, examples, experiment, repetitions, x, row) ==>
                            && NoRepeats(row.repetitions)
                            && RepetitionsOf(row, repetitions)
                               == Incomplete(runs, experiment, repetitions, x.exampleId) != {}
                            && row.successfulCount == |Successful(runs, experiment, x.exampleId)|
    ensures IsListed(runs, examples, experiment, repetitions, x)
       <==> |Stray(runs, experiment, repetitions, x.exampleId)|
            < |Incomplete(runs, experiment, repetitions, x.exampleId)|
    ensures InRange(runs, experiment, repetitions) ==>
              (IsListed(runs, examples, experiment, repetitions, x) <==>
                Incomplete(runs, experiment, repetitions, x.exampleId) != {})
  {
    QueryRows(runs, examples, experiment, repetitions);
    ListedByCount(runs, examples, experiment, repetitions, x);
    Pigeonhole(Successful(runs, experiment, x.exampleId), repetitions);
    forall row | IsRowOf(runs, examples, experiment, repetitions, x, row)
      ensures NoRepeats(row.repetitions) && row.successfulCount == |Successful(runs, experiment, x.exampleId)|
      ensures RepetitionsOf(row, repetitions) == Incomplete(runs, experiment, repetitions, x.exampleId) != {}
    {
      RowIsExact(runs, examples, experiment, repetitions, x, row);
    }
    if InRange(runs, experiment, repetitions) {
      assert Stray(runs, experiment, repetitions, x.exampleId) == {};
    }
  }

  /** Whatever the repetition numbers: an example with something left to run is dropped exactly when at
      least as many successes lie beyond 1..R as repetitions are left. */
  lemma DroppedExactlyWhen(runs: seq<Run>, examples: seq<Example>, experiment: nat, repetitions: nat, x: Example)
    requires Constraints(runs, examples) && OfExperiment(examples, experiment, x)
    requires Incomplete(runs, experiment, repetitions, x.exampleId) != {}
    ensures !IsListed(runs, examples, experiment, repetitions, x)
       <==> |Incomplete(runs, experiment, repetitions, x.exampleId)|
            <= |Stray(runs, experiment, repetitions, x.exampleId)|
  {
    IncompleteRunsExact(runs, examples, experiment, repetitions, x);
  }

  /** Two repetitions wanted, the first and a third reported as done: the second is never listed. */
  lemma SecondRepetitionDropped(runs: seq<Run>, examples: seq<Example>, x: Example)
    requires x == Example(1, 1, 1) && examples == [x]
    requires runs == [Run(1, 1, 1, 1, None), Run(2, 1, 1, 3, None)]
    ensures Constraints(runs, examples) && 2 in Incomplete(runs, 1, 2, 1) && !IsListed(runs, examples, 1, 2, x)
  {
    var done := Successful(runs, 1, 1);
    assert runs[0] in runs && runs[1] in runs;
    assert done == {1, 3};
    assert Incomplete(runs, 1, 2, 1) == {2} && Stray(runs, 1, 2, 1) == {3};
    IncompleteRunsExact(runs, examples, 1, 2, x);
  }
}
