/** Dataset snapshots: which revision of each example a dataset version shows. The queries rank the
    revisions of an example by version; what a version ought to show is what replaying the revisions
    in version order leaves. */
module Revisions {
  import opened Wrappers

  datatype Kind = CREATE | PATCH | DELETE

  datatype Revision = Revision(id: nat, exampleId: nat, versionId: nat, kind: Kind)

  /** The tables the queries read. */
  datatype Tables = Tables(
    revisions: set<Revision>,
    datasetOfExample: map<nat, nat>,
    datasetOfVersion: map<nat, nat>,
    splitIdOfName: map<string, nat>,
    splitMembers: set<(nat, nat)>)  // (split id, example id)

  /** The unique constraint on (example, version). */
  ghost predicate UniquePerVersion(rows: set<Revision>)
  {
    forall r, s :: r in rows && s in rows && r.exampleId == s.exampleId && r.versionId == s.versionId ==> r == s
  }

  // ---------------------------------------------------------------- the queries

  function Newer(rows: set<Revision>, r: Revision): set<Revision>
  {
    set s | s in rows && s.exampleId == r.exampleId && s.versionId > r.versionId
  }

  /** `row_number() over (partition by example order by version desc)` */
  function RowNumber(rows: set<Revision>, r: Revision): nat
  {
    1 + |Newer(rows, r)|
  }

  /** The outer select over the ranked rows: rank one, unless it is a deletion. */
  function LatestLive(rows: set<Revision>): set<Revision>
  {
    set r | r in rows && RowNumber(rows, r) == 1 && r.kind != DELETE
  }

  /** `_build_ranked_revisions_query`, up to the ranking. */
  function RankedRows(t: Tables, version: nat, dataset: Option<nat>, examples: Option<set<nat>>): set<Revision>
  {
    var wanted := if dataset.Some? then dataset
                  else if version in t.datasetOfVersion then Some(t.datasetOfVersion[version]) else None;
    set r | r in t.revisions
            && r.versionId <= version
            && r.exampleId in t.datasetOfExample && Some(t.datasetOfExample[r.exampleId]) == wanted
            && (examples.None? || r.exampleId in examples.value)
  }

  function MembersOfSplits(t: Tables, splits: set<nat>): set<nat>
  {
    set m | m in t.splitMembers && m.0 in splits :: m.1
  }

  function InExamples(rows: set<Revision>, examples: set<nat>): set<Revision>
  {
    set r | r in rows && r.exampleId in examples
  }

  /** `get_dataset_example_revisions`; `None` where it raises. */
  function DatasetExampleRevisions(t: Tables, version: nat, dataset: Option<nat>, examples: Option<set<nat>>,
                                   splitIds: Option<set<nat>>, splitNames: Option<set<string>>): Option<set<Revision>>
  {
    if splitIds.Some? && splitNames.Some? then None
    else
      var rows := RankedRows(t, version, dataset, examples);
      var kept :=
        if splitNames.Some? then
          var splitIds := set n | n in t.splitIdOfName && n in splitNames.value :: t.splitIdOfName[n];
          InExamples(rows, MembersOfSplits(t, splitIds))
        else if splitIds.Some? then InExamples(rows, MembersOfSplits(t, splitIds.value))
        else rows;
      Some(LatestLive(kept))
  }

  /** `create_experiment_examples_snapshot_insert`: the (example, revision) pairs inserted for an
      experiment that is assigned these splits. */
  function ExperimentSnapshot(t: Tables, version: nat, dataset: nat, splits: set<nat>): set<(nat, nat)>
  {
    var rows := set r | r in RankedRows(t, version, Some(dataset), None)
                        && (splits == {} || r.exampleId in MembersOfSplits(t, splits));
    set r | r in LatestLive(rows) :: (r.exampleId, r.id)
  }

  // ---------------------------------------------------------------- replaying the log

  /** What one revision does to the examples on show. */
  function Apply(shown: map<nat, Revision>, r: Revision): map<nat, Revision>
  {
    match r.kind
    case DELETE => shown - {r.exampleId}
    case _ => shown[r.exampleId := r]
  }

  function Replay(log: seq<Revision>): map<nat, Revision>
  {
    if log == [] then map[] else Apply(Replay(log[..|log| - 1]), log[|log| - 1])
  }

  ghost predicate InVersionOrder(log: seq<Revision>)
  {
    forall i, j :: 0 <= i < j < |log| ==> log[i].versionId <= log[j].versionId
  }

  /** The log lists the rows, in the order of their versions. */
  ghost predicate LogOf(log: seq<Revision>, rows: set<Revision>)
  {
    (forall r :: r in log <==> r in rows) && InVersionOrder(log)
  }

  /** `r` is the last revision of its example in the log. */
  ghost predicate IsLast(log: seq<Revision>, r: Revision)
  {
    exists i :: IsLastAt(log, r.exampleId, i) && log[i] == r
  }

  /** Index `i` holds the last revision of the example. */
  ghost predicate IsLastAt(log: seq<Revision>, e: nat, i: int)
  {
    0 <= i < |log| && log[i].exampleId == e && forall j :: i < j < |log| ==> log[j].exampleId != e
  }

  lemma {:induction false} ReplayShowsLast(log: seq<Revision>, e: nat)
    ensures e in Replay(log) ==>
              Replay(log)[e].exampleId == e && Replay(log)[e].kind != DELETE && IsLast(log, Replay(log)[e])
    ensures forall r :: IsLast(log, r) && r.exampleId == e && r.kind != DELETE ==>
            e in Replay(log) && Replay(log)[e] == r
    decreases |log|
  {
    if log != [] {
      var init, last := log[..|log| - 1], log[|log| - 1];
      ReplayShowsLast(init, e);
      if e in Replay(log) {
        LastOfMore(init, last, Replay(log)[e]);
      }
      forall r | IsLast(log, r) && r.exampleId == e && r.kind != DELETE
        ensures e in Replay(log) && Replay(log)[e] == r
      {
        LastOfMore(init, last, r);
      }
      assert log == init + [last];
    }
  }

  lemma LastOfMore(init: seq<Revision>, last: Revision, r: Revision)
    ensures IsLast(init + [last], r) <==> r == last || (IsLast(init, r) && r.exampleId != last.exampleId)
  {
    var log := init + [last];
    if IsLast(log, r) && r != last {
      var i :| IsLastAt(log, r.exampleId, i) && log[i] == r;
      assert i != |init| && log[|init|] == last;
      assert forall j :: i < j < |init| ==> log[j] == init[j];
      assert IsLastAt(init, r.exampleId, i);
    }
    if r == last {
      assert IsLastAt(log, r.exampleId, |init|);
    }
    if IsLast(init, r) && r.exampleId != last.exampleId {
      var i :| IsLastAt(init, r.exampleId, i) && init[i] == r;
      assert IsLastAt(log, r.exampleId, i);
    }
  }

  lemma {:induction false} LastIndex(log: seq<Revision>, e: nat, r: Revision) returns (i: int)
    requires r in log && r.exampleId == e
    ensures IsLastAt(log, e, i)
    decreases |log|
  {
    var init, last := log[..|log| - 1], log[|log| - 1];
    if last.exampleId == e {
      i := |log| - 1;
    } else {
      assert log == init + [last];
      i := LastIndex(init, e, r);
    }
  }

  lemma NewestIsLast(log: seq<Revision>, rows: set<Revision>, r: Revision)
    requires UniquePerVersion(rows) && LogOf(log, rows) && r in rows && Newer(rows, r) == {}
    ensures IsLast(log, r)
  {
    var i := LastIndex(log, r.exampleId, r);
    var k :| 0 <= k < |log| && log[k] == r;
    assert log[i] in rows && log[i] !in Newer(rows, r);
    assert k <= i;
  }

  lemma LastIsNewest(log: seq<Revision>, rows: set<Revision>, r: Revision)
    requires LogOf(log, rows) && IsLast(log, r)
    ensures r in rows && Newer(rows, r) == {}
  {
    var i :| IsLastAt(log, r.exampleId, i) && log[i] == r;
    forall s | s in rows && s.exampleId == r.exampleId
      ensures s.versionId <= r.versionId
    {
      var j :| 0 <= j < |log| && log[j] == s;
      assert j <= i;
    }
  }

  /** Being ranked first means being last in the log. */
  lemma RankOneIsLast(log: seq<Revision>, rows: set<Revision>, r: Revision)
    requires UniquePerVersion(rows) && LogOf(log, rows)
    ensures r in rows && RowNumber(rows, r) == 1 <==> IsLast(log, r)
  {
    if r in rows && RowNumber(rows, r) == 1 {
      NewestIsLast(log, rows, r);
    }
    if IsLast(log, r) {
      LastIsNewest(log, rows, r);
    }
  }

  /** The ranked query returns exactly the revisions on show after replaying the rows. */
  lemma RankingIsReplay(log: seq<Revision>, rows: set<Revision>, r: Revision)
    requires UniquePerVersion(rows) && LogOf(log, rows)
    ensures r in LatestLive(rows) <==> r.exampleId in Replay(log) && Replay(log)[r.exampleId] == r
  {
    RankOneIsLast(log, rows, r);
    ReplayShowsLast(log, r.exampleId);
  }

  /** The part of the log up to a version. */
  function Upto(log: seq<Revision>, version: nat): seq<Revision>
  {
    if log == [] then []
    else
      var init, last := log[..|log| - 1], log[|log| - 1];
      Upto(init, version) + if last.versionId <= version then [last] else []
  }

  lemma {:induction false} UptoMember(log: seq<Revision>, version: nat, r: Revision)
    ensures r in Upto(log, version) <==> r in log && r.versionId <= version
    decreases |log|
  {
    if log != [] {
      var init, last := log[..|log| - 1], log[|log| - 1];
      assert log == init + [last];
      UptoMember(init, version, r);
    }
  }

  lemma {:induction false} UptoOrdered(log: seq<Revision>, version: nat)
    requires InVersionOrder(log)
    ensures InVersionOrder(Upto(log, version))
    decreases |log|
  {
    if log != [] {
      var init, last := log[..|log| - 1], log[|log| - 1];
      UptoOrdered(init, version);
      forall i | 0 <= i < |Upto(init, version)|
        ensures Upto(init, version)[i].versionId <= last.versionId
      {
        UptoMember(init, version, Upto(init, version)[i]);
        var k :| 0 <= k < |init| && init[k] == Upto(init, version)[i];
        assert log[k] == init[k];
      }
    }
  }

  /** The snapshot of a dataset at a version is what replaying the dataset's revisions up to that
      version leaves on show. */
  lemma SnapshotIsReplay(t: Tables, version: nat, dataset: nat, log: seq<Revision>, r: Revision)
    requires UniquePerVersion(t.revisions)
    requires LogOf(log, set s | s in t.revisions && s.exampleId in t.datasetOfExample
                                && t.datasetOfExample[s.exampleId] == dataset)
    ensures var query := DatasetExampleRevisions(t, version, Some(dataset), None, None, None);
            var shown := Replay(Upto(log, version));
            query.Some? && (r in query.value <==> r.exampleId in shown && shown[r.exampleId] == r)
  {
    var rows := RankedRows(t, version, Some(dataset), None);
    var all := set s | s in t.revisions && s.exampleId in t.datasetOfExample
                       && t.datasetOfExample[s.exampleId] == dataset;
    UptoOrdered(log, version);
    forall s
      ensures s in Upto(log, version) <==> s in rows
    {
      UptoMember(log, version, s);
    }
    assert rows == set s | s in all && s.versionId <= version;
    RankingIsReplay(Upto(log, version), rows, r);
  }

  // ---------------------------------------------------------------- filters

  /** Filtering by example before or after ranking makes no difference: the ranking of an example
      looks at that example's rows only. */
  lemma FilterCommutes(rows: set<Revision>, examples: set<nat>)
    ensures LatestLive(InExamples(rows, examples)) == InExamples(LatestLive(rows), examples)
  {
    forall r: Revision | r.exampleId in examples
      ensures Newer(InExamples(rows, examples), r) == Newer(rows, r)
    {
    }
  }

  /** The dataset a query is about: the one given, or else the one the version belongs to. */
  function DatasetWanted(t: Tables, version: nat, dataset: Option<nat>): Option<nat>
  {
    if dataset.Some? then dataset
    else if version in t.datasetOfVersion then Some(t.datasetOfVersion[version]) else None
  }

  ghost predicate InSomeSplit(t: Tables, splits: set<nat>, example: nat)
  {
    exists split :: split in splits && (split, example) in t.splitMembers
  }

  ghost predicate InSomeNamedSplit(t: Tables, names: set<string>, example: nat)
  {
    exists n :: n in names && n in t.splitIdOfName && (t.splitIdOfName[n], example) in t.splitMembers
  }

  lemma SplitMembers(t: Tables, splits: set<nat>, example: nat)
    ensures example in MembersOfSplits(t, splits) <==> InSomeSplit(t, splits, example)
  {
    if split :| split in splits && (split, example) in t.splitMembers {
      assert (split, example).1 == example;
    }
    if example in MembersOfSplits(t, splits) {
      var m :| m in t.splitMembers && m.0 in splits && m.1 == example;
      assert m == (m.0, example);
    }
  }

  lemma NamedSplitMembers(t: Tables, names: set<string>, example: nat)
    ensures InSomeSplit(t, set n | n in t.splitIdOfName && n in names :: t.splitIdOfName[n], example)
       <==> InSomeNamedSplit(t, names, example)
  {
    var ids := set n | n in t.splitIdOfName && n in names :: t.splitIdOfName[n];
    if n :| n in names && n in t.splitIdOfName && (t.splitIdOfName[n], example) in t.splitMembers {
      assert t.splitIdOfName[n] in ids;
    }
  }

  /** Whatever the filters, the query returns the part of the dataset version's snapshot whose
      examples pass all of them, an empty filter passing none; only two kinds of split filter at once
      are refused. Without a dataset, an unknown version has no rows. */
  lemma FilteredSnapshot(t: Tables, version: nat, dataset: Option<nat>, examples: Option<set<nat>>,
                         splitIds: Option<set<nat>>, splitNames: Option<set<string>>, r: Revision)
    ensures var query := DatasetExampleRevisions(t, version, dataset, examples, splitIds, splitNames);
            var all := DatasetExampleRevisions(t, version, DatasetWanted(t, version, dataset), None, None, None);
            && (query.None? <==> splitIds.Some? && splitNames.Some?) && all.Some?
            && (query.Some? ==>
                  (r in query.value <==>
                     && DatasetWanted(t, version, dataset).Some? && r in all.value
                     && (examples.Some? ==> r.exampleId in examples.value)
                     && (splitIds.Some? ==> InSomeSplit(t, splitIds.value, r.exampleId))
                     && (splitNames.Some? ==> InSomeNamedSplit(t, splitNames.value, r.exampleId))))
  {
    var wanted := DatasetWanted(t, version, dataset);
    var whole := RankedRows(t, version, wanted, None);
    var rows := RankedRows(t, version, dataset, examples);
    assert rows == if examples.Some? then InExamples(whole, examples.value) else whole;
    if examples.Some? {
      FilterCommutes(whole, examples.value);
    }
    if splitIds.Some? {
      FilterCommutes(rows, MembersOfSplits(t, splitIds.value));
      SplitMembers(t, splitIds.value, r.exampleId);
    }
    if splitNames.Some? {
      var ids := set n | n in t.splitIdOfName && n in splitNames.value :: t.splitIdOfName[n];
      FilterCommutes(rows, MembersOfSplits(t, ids));
      SplitMembers(t, ids, r.exampleId);
      NamedSplitMembers(t, splitNames.value, r.exampleId);
    }
  }

  /** Without a dataset the query is about the dataset of the version, and about none if it has none. */
  lemma WithoutDataset(t: Tables, version: nat)
    ensures version in t.datasetOfVersion ==>
              DatasetExampleRevisions(t, version, None, None, None, None)
              == DatasetExampleRevisions(t, version, Some(t.datasetOfVersion[version]), None, None, None)
    ensures version !in t.datasetOfVersion ==>
              DatasetExampleRevisions(t, version, None, None, None, None) == Some({})
  {
    if version !in t.datasetOfVersion {
      assert RankedRows(t, version, None, None) == {};
      var none: set<Revision> := {};
      assert LatestLive(none) == {};
    }
  }

  /** An experiment is given exactly the revisions that the dataset query returns for its splits, or
      for the whole version when it has no splits. */
  lemma ExperimentSeesSnapshot(t: Tables, version: nat, dataset: nat, splits: set<nat>)
    ensures var query := DatasetExampleRevisions(t, version, Some(dataset), None,
                                                 if splits == {} then None else Some(splits), None);
            query.Some?
            && ExperimentSnapshot(t, version, dataset, splits) == set r | r in query.value :: (r.exampleId, r.id)
  {
    var rows := RankedRows(t, version, Some(dataset), None);
    var kept := set r | r in rows && (splits == {} || r.exampleId in MembersOfSplits(t, splits));
    assert kept == if splits == {} then rows else InExamples(rows, MembersOfSplits(t, splits));
  }

  // ---------------------------------------------------------------- counting examples

  function OfKind(rows: set<Revision>, kind: Kind): set<Revision>
  {
    set r | r in rows && r.kind == kind
  }

  function RowsOf(log: seq<Revision>): set<Revision>
  {
    set r | r in log
  }

  /** Creations minus deletions. */
  function Balance(rows: set<Revision>): int
  {
    |OfKind(rows, CREATE)| - |OfKind(rows, DELETE)|
  }

  /** `Dataset.example_count`: the sum over all revisions of the dataset, which is NULL over no rows. */
  function ExampleCount(rows: set<Revision>): Option<int>
  {
    if rows == {} then None else Some(Balance(rows))
  }

  /** An example is created while it is not on show, and changed or deleted while it is; and no
      revision is listed twice. */
  ghost predicate WellFormedHistory(log: seq<Revision>)
  {
    if log == [] then true
    else
      var init, last := log[..|log| - 1], log[|log| - 1];
      WellFormedHistory(init) && last !in init && (last.kind == CREATE <==> last.exampleId !in Replay(init))
  }

  lemma ApplySize(shown: map<nat, Revision>, r: Revision)
    requires r.kind == CREATE <==> r.exampleId !in shown
    ensures |Apply(shown, r)| == |shown| + Step(r.kind)
  {
    if r.kind == DELETE {
      assert (shown - {r.exampleId}).Keys == shown.Keys - {r.exampleId};
    } else {
      assert shown[r.exampleId := r].Keys == shown.Keys + {r.exampleId};
    }
  }

  function Step(kind: Kind): int
  {
    match kind
    case CREATE => 1
    case PATCH => 0
    case DELETE => -1
  }

  /** For well-formed histories creations minus deletions is the number of examples on show. */
  lemma {:induction false} BalanceIsSnapshotSize(log: seq<Revision>)
    requires WellFormedHistory(log)
    ensures Balance(RowsOf(log)) == |Replay(log)|
    decreases |log|
  {
    if log == [] {
      assert OfKind(RowsOf(log), CREATE) == {} && OfKind(RowsOf(log), DELETE) == {};
    } else {
      var init, last := log[..|log| - 1], log[|log| - 1];
      assert log == init + [last];
      BalanceIsSnapshotSize(init);
      assert RowsOf(log) == RowsOf(init) + {last};
      CountOneMore(RowsOf(init), last);
      ApplySize(Replay(init), last);
    }
  }

  /** The count is the number of examples on show, unless there is no revision at all. */
  lemma CountIsSnapshotSize(log: seq<Revision>)
    requires WellFormedHistory(log)
    ensures ExampleCount(RowsOf(log)) == Some(|Replay(log)|) <==> log != []
  {
    BalanceIsSnapshotSize(log);
    if log != [] {
      assert log[0] in RowsOf(log);
    }
  }

  lemma CountOneMore(rows: set<Revision>, r: Revision)
    requires r !in rows
    ensures Balance(rows + {r}) == Balance(rows) + Step(r.kind)
  {
    KindOneMore(rows, r, CREATE);
    KindOneMore(rows, r, DELETE);
  }

  lemma KindOneMore(rows: set<Revision>, r: Revision, kind: Kind)
    requires r !in rows
    ensures |OfKind(rows + {r}, kind)| == |OfKind(rows, kind)| + if r.kind == kind then 1 else 0
  {
    assert OfKind(rows + {r}, kind) == if r.kind == kind then OfKind(rows, kind) + {r} else OfKind(rows, kind);
  }

  /** The ranked query shows as many examples as the replayed log. */
  lemma QueryIsSnapshotSize(log: seq<Revision>, rows: set<Revision>)
    requires UniquePerVersion(rows) && LogOf(log, rows)
    ensures |LatestLive(rows)| == |Replay(log)|
  {
    var shown := Replay(log);
    forall r
      ensures r in LatestLive(rows) <==> r.exampleId in shown && shown[r.exampleId] == r
    {
      RankingIsReplay(log, rows, r);
    }
    forall e | e in shown
      ensures shown[e].exampleId == e
    {
      ReplayShowsLast(log, e);
    }
    OnePerKey(LatestLive(rows), shown);
  }

  /** For well-formed histories the count is the size of the newest snapshot exactly when the dataset
      has any revision; a dataset whose examples have all been deleted counts zero. */
  lemma CountIsQuerySize(log: seq<Revision>, rows: set<Revision>)
    requires UniquePerVersion(rows) && LogOf(log, rows) && WellFormedHistory(log)
    ensures ExampleCount(rows) == Some(|LatestLive(rows)|) <==> rows != {}
    ensures Balance(rows) == |LatestLive(rows)|
  {
    BalanceIsSnapshotSize(log);
    QueryIsSnapshotSize(log, rows);
    assert RowsOf(log) == rows;
  }

  /** A dataset just created has no count, although its snapshot has a size. */
  lemma NewDatasetHasNoCount()
    ensures WellFormedHistory([]) && LogOf([], {}) && UniquePerVersion({})
    ensures ExampleCount({}) == None && LatestLive({}) == {} && ExampleCount({}) != Some(|LatestLive({})|)
  {
    var none: set<Revision> := {};
    assert LatestLive(none) == {};
  }

  /** A set that holds exactly one row per key is as large as the map. */
  lemma {:induction false} OnePerKey(rows: set<Revision>, shown: map<nat, Revision>)
    requires forall r :: r in rows <==> r.exampleId in shown && shown[r.exampleId] == r
    requires forall e :: e in shown ==> shown[e].exampleId == e
    ensures |rows| == |shown|
    decreases rows
  {
    if rows == {} {
      assert forall e :: e in shown ==> shown[e] in rows;
      assert shown.Keys == {};
    } else {
      var r :| r in rows;
      var rest := shown - {r.exampleId};
      OnePerKey(rows - {r}, rest);
      assert rest.Keys == shown.Keys - {r.exampleId};
    }
  }
}
