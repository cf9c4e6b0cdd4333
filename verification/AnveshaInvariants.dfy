/** What every database of the Anvesha server has in common, however its requests came in. */
module AnveshaInvariants {
  import opened Wrappers
  import opened Finite
  import opened Hulls
  import opened AnveshaIngest

  // ---------------------------------------------------------------- one insertion

  /** The session of the trace after the insertion: unchanged without a session id, and otherwise that
      of the id, which is the one the trace had if it had any. */
  ghost predicate SessionFollows(was: Option<SessionKey>, row: TraceRow, sessionId: string)
  {
    if sessionId == "" then row.session == was
    else
      && row.session.Some? && row.session.value.1 == sessionId
      && row.session == if was.Some? then was else Some((row.project, sessionId))
  }

  /** The trace row of the span before the insertion, if there was one, in relation to the one after. */
  ghost predicate RowFollows(db: Db, span: Span, project: string, row: TraceRow)
  {
    if span.traceId in db.traces then
      var was := db.traces[span.traceId];
      && row.project == was.project
      && row.startTime == Min(was.startTime, span.startTime) && row.endTime == Max(was.endTime, span.endTime)
      && SessionFollows(was.session, row, span.SessionId())
    else
      && row.project == project && row.startTime == span.startTime && row.endTime == span.endTime
      && SessionFollows(None, row, span.SessionId())
  }

  function RowOf(span: Span): SpanRow
  {
    SpanRow(span.traceId, span.spanId, span.startTime, span.endTime)
  }

  /** What a span that is not stored yet changes: its own trace, its trace's session if it carries a
      session id, and one more row. */
  ghost predicate InsertStep(db: Db, span: Span, project: string, row: TraceRow, after: Db)
  {
    && RowFollows(db, span, project, row)
    && after.traces == db.traces[span.traceId := row]
    && after.spans == db.spans + [RowOf(span)]
    && after.projects == (if span.traceId in db.traces then db.projects else db.projects + {project})
    && after.sessions
       == (if span.SessionId() == "" then db.sessions else WidenedSessions(db.sessions, row.session.value, row))
  }

  lemma InsertIsStep(db: Db, span: Span, project: string, after: Db) returns (row: TraceRow)
    requires !IsStored(db, span) && Insert(db, span, project) == Some(after)
    ensures InsertStep(db, span, project, row, after)
  {
    row := after.traces[span.traceId];
  }

  lemma StoredIsSame(db: Db, span: Span, project: string, after: Db)
    requires IsStored(db, span) && Insert(db, span, project) == Some(after)
    ensures after == db
  {
  }

  // ---------------------------------------------------------------- unique spans

  ghost predicate SpansUnique(spans: seq<SpanRow>)
  {
    forall i, j :: 0 <= i < j < |spans| ==>
      !(spans[i].traceId == spans[j].traceId && spans[i].spanId == spans[j].spanId)
  }

  lemma SpansStayUnique(db: Db, span: Span)
    requires SpansUnique(db.spans) && !IsStored(db, span)
    ensures SpansUnique(db.spans + [RowOf(span)])
  {
    var after := db.spans + [RowOf(span)];
    forall i, j | 0 <= i < j < |after|
      ensures !(after[i].traceId == after[j].traceId && after[i].spanId == after[j].spanId)
    {
      assert after[i] == db.spans[i];
    }
  }

  // ---------------------------------------------------------------- traces

  /** The windows of the stored spans of a trace. */
  ghost function WindowsIn(spans: seq<SpanRow>, traceId: string): set<Window>
  {
    set s | s in spans && s.traceId == traceId :: (s.startTime, s.endTime)
  }

  lemma WindowsInMore(spans: seq<SpanRow>, s: SpanRow, t: string)
    ensures WindowsIn(spans + [s], t) == WindowsIn(spans, t) + if s.traceId == t then {(s.startTime, s.endTime)} else {}
  {
    var more := spans + [s];
    assert s in more;
    assert forall x :: x in more <==> x in spans || x == s;
  }

  /** Every span's trace is stored. */
  ghost predicate TracesStored(db: Db)
  {
    forall s :: s in db.spans ==> s.traceId in db.traces
  }

  /** The trace's window is the hull of its stored spans. */
  ghost predicate WindowExact(db: Db, t: string)
    requires t in db.traces
  {
    IsHull(WindowsIn(db.spans, t), db.traces[t].startTime, db.traces[t].endTime)
  }

  ghost predicate WindowsExact(db: Db)
  {
    forall t :: t in db.traces ==> WindowExact(db, t)
  }

  /** A trace's project is stored, and so is its session, which belongs to that project. */
  ghost predicate Belongs(db: Db)
  {
    forall t :: t in db.traces ==>
                  && db.traces[t].project in db.projects
                  && (db.traces[t].session.Some? ==>
                        db.traces[t].session.value in db.sessions
                          && db.traces[t].session.value.0 == db.traces[t].project)
  }

  lemma TracesStayStored(db: Db, span: Span, project: string, row: TraceRow, after: Db)
    requires TracesStored(db) && InsertStep(db, span, project, row, after)
    ensures TracesStored(after)
  {
  }

  lemma WindowStaysExact(db: Db, span: Span, project: string, row: TraceRow, after: Db, t: string)
    requires TracesStored(db) && InsertStep(db, span, project, row, after) && t in after.traces
    requires t in db.traces ==> WindowExact(db, t)
    ensures WindowExact(after, t)
  {
    var own := (span.startTime, span.endTime);
    WindowsInMore(db.spans, RowOf(span), t);
    if t == span.traceId {
      HullOfOne(own);
      if t in db.traces {
        HullOfUnion(WindowsIn(db.spans, t), db.traces[t].startTime, db.traces[t].endTime, {own}, own.0, own.1);
      } else {
        assert WindowsIn(db.spans, t) == {};
        assert {} + {own} == {own};
      }
    } else {
      assert WindowsIn(db.spans, t) + {} == WindowsIn(db.spans, t);
    }
  }

  lemma WindowsStayExact(db: Db, span: Span, project: string, row: TraceRow, after: Db)
    requires TracesStored(db) && WindowsExact(db) && InsertStep(db, span, project, row, after)
    ensures WindowsExact(after)
  {
    forall t | t in after.traces
      ensures WindowExact(after, t)
    {
      WindowStaysExact(db, span, project, row, after, t);
    }
  }

  lemma BelongsStays(db: Db, span: Span, project: string, row: TraceRow, after: Db)
    requires Belongs(db) && InsertStep(db, span, project, row, after)
    ensures Belongs(after)
  {
  }

  /** Traces keep their project and, once they have one, their session. */
  ghost predicate Settled(db: Db, after: Db)
  {
    forall t :: t in db.traces ==>
                  && t in after.traces && after.traces[t].project == db.traces[t].project
                  && (db.traces[t].session.Some? ==> after.traces[t].session == db.traces[t].session)
  }

  lemma StepSettled(db: Db, span: Span, project: string, row: TraceRow, after: Db)
    requires InsertStep(db, span, project, row, after)
    ensures Settled(db, after)
  {
  }

  // ---------------------------------------------------------------- sessions

  /** The spans inserted so far, in order. */
  ghost predicate LogMatches(db: Db, log: seq<Span>)
  {
    |log| == |db.spans| && forall i :: 0 <= i < |log| ==> db.spans[i] == RowOf(log[i])
  }

  /** The span or a later one of its trace carried a session id: at that point the session was widened
      to the trace. */
  ghost predicate Told(log: seq<Span>, i: int)
    requires 0 <= i < |log|
  {
    exists j :: i <= j < |log| && log[j].traceId == log[i].traceId && log[j].SessionId() != ""
  }

  predicate InSession(traces: map<string, TraceRow>, t: string, key: SessionKey)
  {
    t in traces && traces[t].session == Some(key)
  }

  ghost predicate TellsOf(traces: map<string, TraceRow>, log: seq<Span>, key: SessionKey, i: int)
    requires 0 <= i < |log|
  {
    Told(log, i) && InSession(traces, log[i].traceId, key)
  }

  function WindowOf(span: Span): Window
  {
    (span.startTime, span.endTime)
  }

  ghost function ToldWindows(traces: map<string, TraceRow>, log: seq<Span>, key: SessionKey): set<Window>
  {
    set i | 0 <= i < |log| && TellsOf(traces, log, key, i) :: WindowOf(log[i])
  }

  /** A session's window is the hull of the spans of its traces that came no later than a span of the
      same trace with a session id. */
  ghost predicate SessionsTold(db: Db, log: seq<Span>)
  {
    forall key :: key in db.sessions ==>
                    IsHull(ToldWindows(db.traces, log, key), db.sessions[key].startTime, db.sessions[key].endTime)
  }

  lemma ToldMore(log: seq<Span>, span: Span, i: int)
    requires 0 <= i < |log|
    ensures Told(log + [span], i) <==> Told(log, i) || (span.SessionId() != "" && log[i].traceId == span.traceId)
  {
    var more := log + [span];
    assert more[|log|] == span;
    if Told(more, i) {
      var j :| i <= j < |more| && more[j].traceId == more[i].traceId && more[j].SessionId() != "";
      assert j < |log| ==> more[j] == log[j];
    }
    if Told(log, i) {
      var j :| i <= j < |log| && log[j].traceId == log[i].traceId && log[j].SessionId() != "";
      assert more[j] == log[j];
    }
  }

  lemma ToldLast(log: seq<Span>, span: Span)
    ensures Told(log + [span], |log|) <==> span.SessionId() != ""
  {
    assert (log + [span])[|log|] == span;
  }

  lemma TraceOfLogStored(db: Db, log: seq<Span>, i: int)
    requires TracesStored(db) && LogMatches(db, log) && 0 <= i < |log|
    ensures log[i].traceId in db.traces
  {
    assert db.spans[i] in db.spans;
  }

  /** Whether an earlier span counts for the session changes only if its trace is given the session. */
  lemma TellsOfMore(db: Db, log: seq<Span>, span: Span, project: string, row: TraceRow, after: Db, key: SessionKey,
                    i: int)
    requires TracesStored(db) && LogMatches(db, log) && InsertStep(db, span, project, row, after) && 0 <= i < |log|
    ensures TellsOf(after.traces, log + [span], key, i) <==>
            || TellsOf(db.traces, log, key, i)
            || (span.SessionId() != "" && row.session == Some(key) && log[i].traceId == span.traceId)
  {
    ToldMore(log, span, i);
    TraceOfLogStored(db, log, i);
  }

  lemma TellsOfLast(db: Db, log: seq<Span>, span: Span, project: string, row: TraceRow, after: Db, key: SessionKey)
    requires InsertStep(db, span, project, row, after)
    ensures TellsOf(after.traces, log + [span], key, |log|) <==> span.SessionId() != "" && row.session == Some(key)
  {
    ToldLast(log, span);
  }

  lemma ToldWindowsSame(db: Db, log: seq<Span>, span: Span, project: string, row: TraceRow, after: Db, key: SessionKey)
    requires TracesStored(db) && LogMatches(db, log) && InsertStep(db, span, project, row, after)
    requires span.SessionId() == "" || row.session != Some(key)
    ensures ToldWindows(after.traces, log + [span], key) == ToldWindows(db.traces, log, key)
  {
    var more := log + [span];
    TellsOfLast(db, log, span, project, row, after, key);
    forall i | 0 <= i < |log|
      ensures TellsOf(after.traces, more, key, i) <==> TellsOf(db.traces, log, key, i)
    {
      TellsOfMore(db, log, span, project, row, after, key, i);
    }
    assert forall i :: 0 <= i < |log| ==> more[i] == log[i];
  }

  lemma ToldWindowsMore(db: Db, log: seq<Span>, span: Span, project: string, row: TraceRow, after: Db, key: SessionKey)
    requires TracesStored(db) && LogMatches(db, log) && InsertStep(db, span, project, row, after)
    requires span.SessionId() != "" && row.session == Some(key)
    ensures ToldWindows(after.traces, log + [span], key)
         == ToldWindows(db.traces, log, key) + WindowsIn(after.spans, span.traceId)
  {
    var more := log + [span];
    var told, before := ToldWindows(after.traces, more, key), ToldWindows(db.traces, log, key);
    var own := WindowsIn(after.spans, span.traceId);
    forall w
      ensures w in told <==> w in before || w in own
    {
      if w in told {
        var i :| 0 <= i < |more| && TellsOf(after.traces, more, key, i) && WindowOf(more[i]) == w;
        ToldWindowFrom(db, log, span, project, row, after, key, i);
      }
      if w in before {
        ToldWindowStays(db, log, span, project, row, after, key, w);
      }
      if w in own {
        OwnWindowTold(db, log, span, project, row, after, key, w);
      }
    }
  }

  lemma ToldWindowStays(db: Db, log: seq<Span>, span: Span, project: string, row: TraceRow, after: Db, key: SessionKey,
                        w: Window)
    requires TracesStored(db) && LogMatches(db, log) && InsertStep(db, span, project, row, after)
    requires w in ToldWindows(db.traces, log, key)
    ensures w in ToldWindows(after.traces, log + [span], key)
  {
    var i :| 0 <= i < |log| && TellsOf(db.traces, log, key, i) && WindowOf(log[i]) == w;
    TellsOfMore(db, log, span, project, row, after, key, i);
    assert (log + [span])[i] == log[i];
  }

  lemma OwnWindowTold(db: Db, log: seq<Span>, span: Span, project: string, row: TraceRow, after: Db, key: SessionKey,
                      w: Window)
    requires TracesStored(db) && LogMatches(db, log) && InsertStep(db, span, project, row, after)
    requires span.SessionId() != "" && row.session == Some(key) && w in WindowsIn(after.spans, span.traceId)
    ensures w in ToldWindows(after.traces, log + [span], key)
  {
    LogStaysMatched(db, log, span, project, row, after);
    var i := IndexIn(after, log + [span], span.traceId, w);
    if i < |log| {
      TellsOfMore(db, log, span, project, row, after, key, i);
    } else {
      TellsOfLast(db, log, span, project, row, after, key);
    }
  }

  lemma ToldWindowFrom(db: Db, log: seq<Span>, span: Span, project: string, row: TraceRow, after: Db, key: SessionKey,
                       i: int)
    requires TracesStored(db) && LogMatches(db, log) && InsertStep(db, span, project, row, after)
    requires 0 <= i <= |log| && TellsOf(after.traces, log + [span], key, i)
    ensures var w := WindowOf((log + [span])[i]);
            w in ToldWindows(db.traces, log, key) || w in WindowsIn(after.spans, span.traceId)
  {
    if i < |log| {
      assert (log + [span])[i] == log[i];
      TellsOfMore(db, log, span, project, row, after, key, i);
      assert after.spans[i] == RowOf(log[i]) && after.spans[i] in after.spans;
    } else {
      assert after.spans[i] == RowOf(span) && after.spans[i] in after.spans;
    }
  }

  lemma LogStaysMatched(db: Db, log: seq<Span>, span: Span, project: string, row: TraceRow, after: Db)
    requires LogMatches(db, log) && InsertStep(db, span, project, row, after)
    ensures LogMatches(after, log + [span])
  {
  }

  lemma IndexIn(db: Db, log: seq<Span>, t: string, w: Window) returns (i: int)
    requires LogMatches(db, log) && w in WindowsIn(db.spans, t)
    ensures 0 <= i < |log| && log[i].traceId == t && WindowOf(log[i]) == w
  {
    var s :| s in db.spans && s.traceId == t && (s.startTime, s.endTime) == w;
    i :| 0 <= i < |db.spans| && db.spans[i] == s;
  }

  /** One insertion keeps every session's window the hull of what the session was told. */
  lemma SessionStaysTold(db: Db, log: seq<Span>, span: Span, project: string, row: TraceRow, after: Db, key: SessionKey)
    requires TracesStored(db) && Belongs(db) && LogMatches(db, log) && SessionsTold(db, log)
    requires InsertStep(db, span, project, row, after) && WindowExact(after, span.traceId) && key in after.sessions
    ensures IsHull(ToldWindows(after.traces, log + [span], key),
                   after.sessions[key].startTime, after.sessions[key].endTime)
  {
    if span.SessionId() == "" || row.session != Some(key) {
      ToldWindowsSame(db, log, span, project, row, after, key);
    } else {
      ToldWindowsMore(db, log, span, project, row, after, key);
      if key in db.sessions {
        HullOfUnion(ToldWindows(db.traces, log, key), db.sessions[key].startTime, db.sessions[key].endTime,
                    WindowsIn(after.spans, span.traceId), row.startTime, row.endTime);
      } else {
        assert ToldWindows(db.traces, log, key) == {};
        assert {} + WindowsIn(after.spans, span.traceId) == WindowsIn(after.spans, span.traceId);
      }
    }
  }

  // ---------------------------------------------------------------- every reachable database

  ghost predicate Good(db: Db)
  {
    SpansUnique(db.spans) && TracesStored(db) && WindowsExact(db) && Belongs(db)
  }

  /** A good database and the spans that made it. */
  ghost predicate Explained(db: Db, log: seq<Span>)
  {
    Good(db) && LogMatches(db, log) && SessionsTold(db, log)
  }

  lemma StepKeepsGood(db: Db, span: Span, project: string, row: TraceRow, after: Db)
    requires Good(db) && !IsStored(db, span) && InsertStep(db, span, project, row, after)
    ensures Good(after)
  {
    SpansStayUnique(db, span);
    TracesStayStored(db, span, project, row, after);
    WindowsStayExact(db, span, project, row, after);
    BelongsStays(db, span, project, row, after);
  }

  lemma StepKeepsTold(db: Db, log: seq<Span>, span: Span, project: string, row: TraceRow, after: Db)
    requires Explained(db, log) && InsertStep(db, span, project, row, after)
    ensures SessionsTold(after, log + [span])
  {
    WindowsStayExact(db, span, project, row, after);
    assert span.traceId in after.traces;
    forall key | key in after.sessions
      ensures IsHull(ToldWindows(after.traces, log + [span], key),
                     after.sessions[key].startTime, after.sessions[key].endTime)
    {
      SessionStaysTold(db, log, span, project, row, after, key);
    }
  }

  /** The log after a span: a span that is stored already adds nothing. */
  function Logged(db: Db, log: seq<Span>, span: Span): seq<Span>
  {
    if IsStored(db, span) then log else log + [span]
  }

  /** One insertion keeps every property of a good database, and every trace's project and session. */
  lemma InsertKeepsGood(db: Db, log: seq<Span>, span: Span, project: string, after: Db)
    requires Explained(db, log) && Insert(db, span, project) == Some(after)
    ensures Explained(after, Logged(db, log, span)) && Settled(db, after)
  {
    if IsStored(db, span) {
      StoredIsSame(db, span, project, after);
    } else {
      var row := InsertIsStep(db, span, project, after);
      StepKeepsGood(db, span, project, row, after);
      LogStaysMatched(db, log, span, project, row, after);
      StepKeepsTold(db, log, span, project, row, after);
      StepSettled(db, span, project, row, after);
    }
  }

  /** The spans a list adds to the database. */
  function LogEach(db: Db, log: seq<Span>, items: seq<Item>): seq<Span>
  {
    if items == [] then log
    else
      var init, last := items[..|items| - 1], items[|items| - 1];
      var before := InsertEach(Some(db), init);
      if before.Some? && last.0.Decoded? then Logged(before.value, LogEach(db, log, init), last.0.span)
      else LogEach(db, log, init)
  }

  lemma SettledTrans(a: Db, b: Db, c: Db)
    requires Settled(a, b) && Settled(b, c)
    ensures Settled(a, c)
  {
  }

  lemma {:induction false} EachKeepsGood(db: Db, log: seq<Span>, items: seq<Item>)
    requires Explained(db, log) && InsertEach(Some(db), items).Some?
    ensures Explained(InsertEach(Some(db), items).value, LogEach(db, log, items))
    ensures Settled(db, InsertEach(Some(db), items).value)
    decreases |items|
  {
    if items != [] {
      var init, last := items[..|items| - 1], items[|items| - 1];
      EachKeepsGood(db, log, init);
      var mid, after := InsertEach(Some(db), init).value, InsertEach(Some(db), items).value;
      InsertKeepsGood(mid, LogEach(db, log, init), last.0.span, last.1, after);
      SettledTrans(db, mid, after);
    }
  }

  /** The spans inserted by a sequence of requests; a failed request inserts none. */
  function LogAfter(db: Db, requests: seq<seq<ResourceSpans>>): seq<Span>
  {
    if requests == [] then []
    else
      var init, last := requests[..|requests| - 1], requests[|requests| - 1];
      var before, log := After(db, init), LogAfter(db, init);
      if InsertAll(Some(before), last).Some? then LogEach(before, log, ItemsOf(last)) else log
  }

  /** In every reachable database spans are unique per trace and span id, each trace's window is the hull
      of its stored spans, sessions belong to their traces' projects, and each session's window is the
      hull of the spans it was told of. No request takes a trace's project or session away. */
  lemma {:induction false} ReachableIsGood(requests: seq<seq<ResourceSpans>>)
    ensures Explained(After(EMPTY_DB, requests), LogAfter(EMPTY_DB, requests))
    ensures requests != [] ==> Settled(After(EMPTY_DB, requests[..|requests| - 1]), After(EMPTY_DB, requests))
    decreases |requests|
  {
    if requests != [] {
      var init, last := requests[..|requests| - 1], requests[|requests| - 1];
      ReachableIsGood(init);
      var before := After(EMPTY_DB, init);
      RequestIsList(Some(before), last);
      if InsertAll(Some(before), last).Some? {
        EachKeepsGood(before, LogAfter(EMPTY_DB, init), ItemsOf(last));
      }
    }
  }

  // ---------------------------------------------------------------- when sessions cover their traces

  /** The trace lies within its session's window, if it has a session. */
  ghost predicate Covered(db: Db, t: string)
    requires t in db.traces
  {
    db.traces[t].session.Some? ==>
      && db.traces[t].session.value in db.sessions
      && var s := db.sessions[db.traces[t].session.value];
         s.startTime <= db.traces[t].startTime && db.traces[t].endTime <= s.endTime
  }

  ghost predicate Covers(db: Db)
  {
    forall t :: t in db.traces ==> Covered(db, t)
  }

  /** The span cannot carry its trace beyond the session: it tells the session, or the trace has none,
      or the session's window contains the span already. */
  predicate StaysWithin(db: Db, span: Span)
  {
    || span.SessionId() != ""
    || span.traceId !in db.traces
    || db.traces[span.traceId].session.None?
    || (db.traces[span.traceId].session.value in db.sessions
        && var s := db.sessions[db.traces[span.traceId].session.value];
           s.startTime <= span.startTime && span.endTime <= s.endTime)
  }

  /** A new span leaves sessions covering their traces exactly when it stays within. */
  lemma CoverageKeptExactlyWhen(db: Db, span: Span, project: string, after: Db)
    requires Belongs(db) && Covers(db) && !IsStored(db, span) && Insert(db, span, project) == Some(after)
    ensures Covers(after) <==> StaysWithin(db, span)
  {
    var row := InsertIsStep(db, span, project, after);
    CoverageStep(db, span, project, row, after);
  }

  lemma CoverageStep(db: Db, span: Span, project: string, row: TraceRow, after: Db)
    requires Belongs(db) && Covers(db) && InsertStep(db, span, project, row, after)
    ensures Covers(after) <==> StaysWithin(db, span)
  {
    assert span.traceId in after.traces && after.traces[span.traceId] == row;
    assert Covered(after, span.traceId) <==> StaysWithin(db, span) by {
      assert span.traceId in db.traces ==> Covered(db, span.traceId);
    }
    forall t | t in db.traces && t != span.traceId
      ensures Covered(after, t)
    {
      assert Covered(db, t);
    }
  }

  /** Some span the session was told of starts no later than the span, and some ends no earlier. */
  ghost predicate Reached(traces: map<string, TraceRow>, log: seq<Span>, key: SessionKey, span: Span)
  {
    && (exists w :: w in ToldWindows(traces, log, key) && w.0 <= span.startTime)
    && (exists w :: w in ToldWindows(traces, log, key) && span.endTime <= w.1)
  }

  /** In any reachable database a trace lies within its session exactly when each of its spans is
      reached by spans the session was told of. */
  lemma CoveredExactlyWhen(db: Db, log: seq<Span>, t: string, key: SessionKey)
    requires Explained(db, log) && InSession(db.traces, t, key)
    ensures Covered(db, t) <==>
            forall i :: 0 <= i < |log| && log[i].traceId == t ==> Reached(db.traces, log, key, log[i])
  {
    var told, s := ToldWindows(db.traces, log, key), db.sessions[key];
    assert IsHull(told, s.startTime, s.endTime);
    assert WindowExact(db, t);
    if Covered(db, t) {
      forall i | 0 <= i < |log| && log[i].traceId == t
        ensures Reached(db.traces, log, key, log[i])
      {
        assert db.spans[i] in db.spans;
        assert WindowOf(log[i]) in WindowsIn(db.spans, t);
      }
    }
    if forall i :: 0 <= i < |log| && log[i].traceId == t ==> Reached(db.traces, log, key, log[i]) {
      var first :| first in WindowsIn(db.spans, t) && first.0 == db.traces[t].startTime;
      var last :| last in WindowsIn(db.spans, t) && last.1 == db.traces[t].endTime;
      var i := IndexIn(db, log, t, first);
      var j := IndexIn(db, log, t, last);
      assert Reached(db.traces, log, key, log[i]) && Reached(db.traces, log, key, log[j]);
    }
  }

  /** A trace whose last span carried a session id lies within its session. */
  lemma TellingLastIsCovered(db: Db, log: seq<Span>, t: string, key: SessionKey, last: int)
    requires Explained(db, log) && InSession(db.traces, t, key)
    requires 0 <= last < |log| && log[last].traceId == t && log[last].SessionId() != ""
    requires forall i :: last < i < |log| ==> log[i].traceId != t
    ensures Covered(db, t)
  {
    forall i | 0 <= i < |log| && log[i].traceId == t
      ensures Reached(db.traces, log, key, log[i])
    {
      assert Told(log, i) && TellsOf(db.traces, log, key, i);
      assert WindowOf(log[i]) in ToldWindows(db.traces, log, key);
    }
    CoveredExactlyWhen(db, log, t, key);
  }

  /** The windows of a session's traces. */
  ghost function TraceWindows(db: Db, key: SessionKey): set<Window>
  {
    set t | t in db.traces && InSession(db.traces, t, key) :: (db.traces[t].startTime, db.traces[t].endTime)
  }

  /** A session's window never reaches beyond its traces, so it is their hull exactly when it covers them. */
  lemma SessionIsHullExactlyWhen(db: Db, log: seq<Span>, key: SessionKey)
    requires Explained(db, log) && key in db.sessions
    ensures IsHull(TraceWindows(db, key), db.sessions[key].startTime, db.sessions[key].endTime)
       <==> forall t :: InSession(db.traces, t, key) ==> Covered(db, t)
  {
    var windows, s := TraceWindows(db, key), db.sessions[key];
    if IsHull(windows, s.startTime, s.endTime) {
      forall t | InSession(db.traces, t, key)
        ensures Covered(db, t)
      {
        assert (db.traces[t].startTime, db.traces[t].endTime) in windows;
      }
    }
    if forall t :: InSession(db.traces, t, key) ==> Covered(db, t) {
      CoveringIsHull(db, log, key);
    }
  }

  /** A span that a session was told of lies within one of the session's traces. */
  lemma ToldWithinTrace(db: Db, log: seq<Span>, key: SessionKey, w: Window) returns (t: string)
    requires Good(db) && LogMatches(db, log) && w in ToldWindows(db.traces, log, key)
    ensures InSession(db.traces, t, key) && db.traces[t].startTime <= w.0 && w.1 <= db.traces[t].endTime
    ensures (db.traces[t].startTime, db.traces[t].endTime) in TraceWindows(db, key)
  {
    var i :| 0 <= i < |log| && TellsOf(db.traces, log, key, i) && WindowOf(log[i]) == w;
    SpanWithinTrace(db, log, i);
    t := log[i].traceId;
  }

  lemma CoveringIsHull(db: Db, log: seq<Span>, key: SessionKey)
    requires Explained(db, log) && key in db.sessions
    requires forall t :: InSession(db.traces, t, key) ==> Covered(db, t)
    ensures IsHull(TraceWindows(db, key), db.sessions[key].startTime, db.sessions[key].endTime)
  {
    var told, s := ToldWindows(db.traces, log, key), db.sessions[key];
    assert IsHull(told, s.startTime, s.endTime);
    var first :| first in told && first.0 == s.startTime;
    var last :| last in told && last.1 == s.endTime;
    var t := ToldWithinTrace(db, log, key, first);
    var u := ToldWithinTrace(db, log, key, last);
    assert Covered(db, t) && Covered(db, u);
    forall w | w in TraceWindows(db, key)
      ensures s.startTime <= w.0 && w.1 <= s.endTime
    {
      var v :| v in db.traces && InSession(db.traces, v, key) && w == (db.traces[v].startTime, db.traces[v].endTime);
      assert Covered(db, v);
    }
  }

  lemma SpanWithinTrace(db: Db, log: seq<Span>, i: int)
    requires Good(db) && LogMatches(db, log) && 0 <= i < |log|
    ensures log[i].traceId in db.traces
    ensures var row := db.traces[log[i].traceId]; row.startTime <= log[i].startTime && log[i].endTime <= row.endTime
  {
    assert db.spans[i] in db.spans;
    assert WindowExact(db, log[i].traceId);
    assert WindowOf(log[i]) in WindowsIn(db.spans, log[i].traceId);
  }

  /** For instance: a second span without a session id widens its trace only, and the session no longer
      covers it, unless the first span covers the second. */
  lemma SessionMayLagBehind(first: Span, second: Span, project: string)
    requires first.traceId == second.traceId && first.spanId != second.spanId
    requires first.SessionId() != "" && second.SessionId() == ""
    ensures var one := Insert(EMPTY_DB, first, project);
            one.Some? && var two := Insert(one.value, second, project);
                         two.Some? && (Covers(two.value) <==>
                           first.startTime <= second.startTime && second.endTime <= first.endTime)
  {
    var one := Insert(EMPTY_DB, first, project).value;
    var row := InsertIsStep(EMPTY_DB, first, project, one);
    BelongsStays(EMPTY_DB, first, project, row, one);
    CoverageKeptExactlyWhen(EMPTY_DB, first, project, one);
    assert one.spans == [RowOf(first)] && !IsStored(one, second);
    CoverageKeptExactlyWhen(one, second, project, Insert(one, second, project).value);
  }
}
