/** Which runs of an experiment still lack an evaluation, as decided by comparing counts. */
module IncompleteEvaluations {
  import opened Wrappers
  import opened Finite
  import opened IncompleteRuns
  import Text

  datatype Annotation = Annotation(runId: nat, name: string, error: Option<string>)

  /** A row of the query: the run, and the revision of its example. */
  type RunRow = (Run, nat)

  /** The unique constraint on annotations. */
  ghost predicate OnePerName(annotations: seq<Annotation>)
  {
    forall i, j :: 0 <= i < j < |annotations| ==>
                     annotations[i].runId != annotations[j].runId || annotations[i].name != annotations[j].name
  }

  predicate Counts(a: Annotation, run: nat, names: seq<string>)
  {
    a.runId == run && a.name in names && a.error.None?
  }

  /** The error-free annotations of a run under the requested names, as counted per run. */
  function SuccessfulCount(annotations: seq<Annotation>, run: nat, names: seq<string>): nat
  {
    if annotations == [] then 0
    else
      SuccessfulCount(annotations[..|annotations| - 1], run, names)
      + if Counts(annotations[|annotations| - 1], run, names) then 1 else 0
  }

  predicate Joins(r: Run, x: Example, experiment: nat)
  {
    x.experimentId == experiment && x.exampleId == r.exampleId && r.experimentId == experiment && r.error.None?
  }

  /** The join of one run with the examples of the experiment. */
  function WithRevision(r: Run, examples: seq<Example>, experiment: nat): seq<RunRow>
  {
    if examples == [] then []
    else
      var before, x := WithRevision(r, examples[..|examples| - 1], experiment), examples[|examples| - 1];
      if Joins(r, x, experiment) then before + [(r, x.revisionId)] else before
  }

  /** `get_runs_with_incomplete_evaluations_query`: the (run, revision) rows. */
  function IncompleteEvaluationsQuery(runs: seq<Run>, examples: seq<Example>, annotations: seq<Annotation>,
                                      experiment: nat, names: seq<string>): seq<RunRow>
  {
    if runs == [] then []
    else
      var before := IncompleteEvaluationsQuery(runs[..|runs| - 1], examples, annotations, experiment, names);
      var r := runs[|runs| - 1];
      if SuccessfulCount(annotations, r.id, names) < |names| then before + WithRevision(r, examples, experiment)
      else before
  }

  // ---------------------------------------------------------------- what is wanted

  ghost predicate Evaluated(annotations: seq<Annotation>, run: nat, n: string)
  {
    exists a :: a in annotations && a.runId == run && a.name == n && a.error.None?
  }

  /** Some requested name has no error-free annotation for the run. */
  ghost predicate LacksEvaluation(annotations: seq<Annotation>, run: nat, names: set<string>)
  {
    exists n :: n in names && !Evaluated(annotations, run, n)
  }

  /** The requested names the run has been evaluated under. */
  ghost function EvaluatedNames(annotations: seq<Annotation>, run: nat, names: seq<string>): set<string>
  {
    set n | n in names && Evaluated(annotations, run, n)
  }

  lemma {:induction false} CountIsNames(annotations: seq<Annotation>, run: nat, names: seq<string>)
    requires OnePerName(annotations)
    ensures SuccessfulCount(annotations, run, names) == |EvaluatedNames(annotations, run, names)|
    decreases |annotations|
  {
    if annotations == [] {
      assert EvaluatedNames(annotations, run, names) == {};
    } else {
      var init, a := annotations[..|annotations| - 1], annotations[|annotations| - 1];
      assert annotations == init + [a];
      CountIsNames(init, run, names);
      OneMoreAnnotation(init, a, run, names);
    }
  }

  lemma OneMoreAnnotation(annotations: seq<Annotation>, a: Annotation, run: nat, names: seq<string>)
    requires OnePerName(annotations + [a])
    ensures |EvaluatedNames(annotations + [a], run, names)|
         == |EvaluatedNames(annotations, run, names)| + if Counts(a, run, names) then 1 else 0
  {
    var more := annotations + [a];
    forall n
      ensures Evaluated(more, run, n) <==>
              Evaluated(annotations, run, n) || (a.runId == run && a.name == n && a.error.None?)
    {
      assert a in more;
    }
    if Counts(a, run, names) {
      forall i | 0 <= i < |annotations|
        ensures annotations[i].runId != a.runId || annotations[i].name != a.name
      {
        assert more[i] == annotations[i] && more[|annotations|] == a;
      }
      assert EvaluatedNames(more, run, names) == EvaluatedNames(annotations, run, names) + {a.name};
    } else {
      assert EvaluatedNames(more, run, names) == EvaluatedNames(annotations, run, names);
    }
  }

  /** Fewer counted than requested: a name is lacking, or one is requested twice. */
  lemma ComparingCounts(annotations: seq<Annotation>, run: nat, names: seq<string>)
    requires OnePerName(annotations)
    ensures SuccessfulCount(annotations, run, names) < |names|
       <==> LacksEvaluation(annotations, run, ElementsOf(names)) || !NoRepeats(names)
  {
    var all, done := ElementsOf(names), EvaluatedNames(annotations, run, names);
    CountIsNames(annotations, run, names);
    NoRepeatsSize(names);
    SubsetSize(done, all);
    if LacksEvaluation(annotations, run, all) {
      var n :| n in all && !Evaluated(annotations, run, n);
      assert n !in done;
    } else {
      assert done == all;
    }
  }

  // ---------------------------------------------------------------- the query

  lemma {:induction false} WithRevisionHolds(r: Run, examples: seq<Example>, experiment: nat)
    requires forall i, j :: 0 <= i < j < |examples| ==> !SameExample(examples[i], examples[j])
    ensures forall row :: row in WithRevision(r, examples, experiment) <==>
                            row.0 == r && exists x :: x in examples && Joins(r, x, experiment) && row.1 == x.revisionId
    ensures |WithRevision(r, examples, experiment)| <= 1
    decreases |examples|
  {
    if examples != [] {
      var init, x := examples[..|examples| - 1], examples[|examples| - 1];
      assert examples == init + [x];
      WithRevisionHolds(r, init, experiment);
      var before := WithRevision(r, init, experiment);
      assert before == [] || before[0] in before;
      if Joins(r, x, experiment) {
        NoOtherJoins(r, init, x, experiment);
      }
    }
  }

  lemma NoOtherJoins(r: Run, examples: seq<Example>, x: Example, experiment: nat)
    requires forall i :: 0 <= i < |examples| ==> !SameExample(examples[i], x)
    requires Joins(r, x, experiment)
    ensures forall y :: y in examples ==> !Joins(r, y, experiment)
  {
    forall i | 0 <= i < |examples|
      ensures !Joins(r, examples[i], experiment)
    {
      assert !SameExample(examples[i], x);
    }
  }

  ghost predicate OneRowPerRun(rows: seq<RunRow>)
  {
    forall i, j :: 0 <= i < j < |rows| ==> rows[i].0.id != rows[j].0.id
  }

  ghost predicate IdsDiffer(runs: seq<Run>)
  {
    forall i, j :: 0 <= i < j < |runs| ==> runs[i].id != runs[j].id
  }

  /** The row belongs to a run of the query whose count stays below the number of names. */
  ghost predicate IsCounted(runs: seq<Run>, examples: seq<Example>, annotations: seq<Annotation>, experiment: nat,
                            names: seq<string>, row: RunRow)
  {
    && row.0 in runs && SuccessfulCount(annotations, row.0.id, names) < |names|
    && exists x :: x in examples && Joins(row.0, x, experiment) && row.1 == x.revisionId
  }

  lemma {:induction false} QueryHolds(runs: seq<Run>, examples: seq<Example>, annotations: seq<Annotation>,
                                      experiment: nat,
                                      names: seq<string>)
    requires Constraints(runs, examples) && IdsDiffer(runs)
    ensures var query := IncompleteEvaluationsQuery(runs, examples, annotations, experiment, names);
            && OneRowPerRun(query)
            && forall row :: row in query <==> IsCounted(runs, examples, annotations, experiment, names, row)
    decreases |runs|
  {
    if runs != [] {
      var init, r := runs[..|runs| - 1], runs[|runs| - 1];
      assert runs == init + [r];
      QueryHolds(init, examples, annotations, experiment, names);
      WithRevisionHolds(r, examples, experiment);
      var before := IncompleteEvaluationsQuery(init, examples, annotations, experiment, names);
      forall row | row in before
        ensures row.0.id != r.id
      {
        var i :| 0 <= i < |init| && init[i] == row.0;
        assert runs[i] == row.0;
      }
      forall row
        ensures IsCounted(runs, examples, annotations, experiment, names, row) <==>
                || IsCounted(init, examples, annotations, experiment, names, row)
                || (SuccessfulCount(annotations, r.id, names) < |names| && row in WithRevision(r, examples, experiment))
      {
      }
    }
  }

  /** A successful run of the experiment, with the revision of its example. */
  ghost predicate IsRun(runs: seq<Run>, examples: seq<Example>, experiment: nat, row: RunRow)
  {
    && row.0 in runs && row.0.experimentId == experiment && row.0.error == None
    && exists x :: x in examples && x.experimentId == experiment && x.exampleId == row.0.exampleId
                   && row.1 == x.revisionId
  }

  /** The helper returns a successful run, in one row, exactly when it lacks an evaluation under a
      requested name or some name is requested twice. Its counts are thus right for distinct names. */
  lemma EvaluationsByCount(runs: seq<Run>, examples: seq<Example>, annotations: seq<Annotation>, experiment: nat,
                           names: seq<string>, row: RunRow)
    requires Constraints(runs, examples) && IdsDiffer(runs) && OnePerName(annotations)
    requires IsRun(runs, examples, experiment, row)
    ensures var query := IncompleteEvaluationsQuery(runs, examples, annotations, experiment, names);
            && OneRowPerRun(query)
            && (row in query <==> LacksEvaluation(annotations, row.0.id, ElementsOf(names)) || !NoRepeats(names))
  {
    QueryHolds(runs, examples, annotations, experiment, names);
    ComparingCounts(annotations, row.0.id, names);
  }

  /** A name requested twice: a run evaluated under it is returned by the helper all the same. */
  lemma RepeatedNameReturnsAll(runs: seq<Run>, examples: seq<Example>, annotations: seq<Annotation>, n: string,
                               row: RunRow)
    requires runs == [row.0] && row == (Run(1, 1, 1, 1, None), 1) && examples == [Example(1, 1, 1)]
    requires annotations == [Annotation(1, n, None)]
    ensures !LacksEvaluation(annotations, 1, {n})
            && row in IncompleteEvaluationsQuery(runs, examples, annotations, 1, [n, n])
  {
    assert annotations[0] in annotations && Evaluated(annotations, 1, n);
    assert row.0 in runs && examples[0] in examples && Joins(row.0, examples[0], 1);
    assert [n, n][0] == [n, n][1];
    EvaluationsByCount(runs, examples, annotations, 1, [n, n], row);
  }

  // ---------------------------------------------------------------- the endpoint

  /** What the caller asks for: the names without surrounding space, empty ones dropped. */
  function Wanted(raw: seq<string>): set<string>
  {
    set n | n in raw && Text.Strip(n) != "" :: Text.Strip(n)
  }

  /** `list(set(name.strip() for name in evaluation_name if name.strip()))`, in whatever order. */
  method RequestedNames(raw: seq<string>) returns (names: seq<string>)
    ensures NoRepeats(names) && ElementsOf(names) == Wanted(raw)
  {
    var unique: set<string> := {};
    for i := 0 to |raw|
      invariant unique == Wanted(raw[..i])
    {
      assert raw[..i + 1] == raw[..i] + [raw[i]];
      WantedMore(raw[..i], raw[i]);
      var name := Text.Strip(raw[i]);
      if name != "" {
        unique := unique + {name};
      }
    }
    assert raw[..|raw|] == raw;
    names := [];
    var todo := unique;
    while todo != {}
      invariant todo <= unique && NoRepeats(names) && ElementsOf(names) == unique - todo
      decreases todo
    {
      var n :| n in todo;
      assert n !in ElementsOf(names);
      ElementsOfMore(names, n);
      names, todo := names + [n], todo - {n};
    }
  }

  lemma WantedMore(raw: seq<string>, n: string)
    ensures Wanted(raw + [n]) == Wanted(raw) + if Text.Strip(n) != "" then {Text.Strip(n)} else {}
  {
    var more := raw + [n];
    assert n in more;
    forall w
      ensures w in Wanted(more) <==> w in Wanted(raw) || (w == Text.Strip(n) && w != "")
    {
      if w in Wanted(more) {
        var m :| m in more && Text.Strip(m) != "" && Text.Strip(m) == w;
        assert m in raw || m == n;
      }
      if w in Wanted(raw) {
        var m :| m in raw && Text.Strip(m) != "" && Text.Strip(m) == w;
        assert m in more;
      }
    }
  }

  datatype Response = BadRequest | Rows(rows: seq<RunRow>)

  predicate HasNull(name: string)
  {
    '\0' in name
  }

  /** The names part of the endpoint and its query: for every list of names that is accepted, the
      rows are exactly the successful runs that lack one of the evaluations wanted, each once. */
  method RunsWithIncompleteEvaluations(runs: seq<Run>, examples: seq<Example>, annotations: seq<Annotation>,
                                       experiment: nat, raw: seq<string>) returns (response: Response)
    requires Constraints(runs, examples) && IdsDiffer(runs) && OnePerName(annotations)
    ensures response.BadRequest? <==> Wanted(raw) == {} || exists n :: n in Wanted(raw) && HasNull(n)
    ensures response.Rows? ==>
              && OneRowPerRun(response.rows)
              && forall row :: row in response.rows <==>
                                 IsRun(runs, examples, experiment, row)
                                   && LacksEvaluation(annotations, row.0.id, Wanted(raw))
  {
    var names := RequestedNames(raw);
    if names == [] {
      return BadRequest;
    }
    for i := 0 to |names|
      invariant forall k :: 0 <= k < i ==> !HasNull(names[k])
    {
      if HasNull(names[i]) {
        assert names[i] in Wanted(raw);
        return BadRequest;
      }
    }
    assert names[0] in Wanted(raw);
    var rows := IncompleteEvaluationsQuery(runs, examples, annotations, experiment, names);
    AnswerIsExact(runs, examples, annotations, experiment, names);
    response := Rows(rows);
  }

  lemma AnswerIsExact(runs: seq<Run>, examples: seq<Example>, annotations: seq<Annotation>, experiment: nat,
                      names: seq<string>)
    requires Constraints(runs, examples) && IdsDiffer(runs) && OnePerName(annotations) && NoRepeats(names)
    ensures var query := IncompleteEvaluationsQuery(runs, examples, annotations, experiment, names);
            && OneRowPerRun(query)
            && forall row :: row in query <==>
                               && IsRun(runs, examples, experiment, row)
                               && LacksEvaluation(annotations, row.0.id, ElementsOf(names))
  {
    QueryHolds(runs, examples, annotations, experiment, names);
    forall row | IsRun(runs, examples, experiment, row)
      ensures SuccessfulCount(annotations, row.0.id, names) < |names| <==>
              LacksEvaluation(annotations, row.0.id, ElementsOf(names))
    {
      ComparingCounts(annotations, row.0.id, names);
    }
  }
}
