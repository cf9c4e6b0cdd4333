/** Ingesting spans: one call of `insert_span` per submitted span, and the deletion of a span.

    Rows are keyed by the column the schema declares unique (`span_id`, `trace_id`, `session_id`,
    project name); the surrogate row ids that stand for those keys are not modelled. */
module SpanIngestion {
  import opened Wrappers
  import opened Finite
  import opened Forest
  import opened Hulls
  import opened SpanCounts
  import Text

  datatype Span = Span(
    traceId: string,
    spanId: Id,
    parentId: Option<Id>,
    startTime: int,
    endTime: int,
    sessionAttribute: Option<string>,  // the session id attribute as text, if there is one
    isError: bool,
    promptTokens: Option<int>,         // None: missing, falsy or not convertible to an integer
    completionTokens: Option<int>)
  {
    function SessionId(): string {
      if sessionAttribute.Some? then Text.Strip(sessionAttribute.value) else ""
    }

    function Own(): Counts {
      Counts(if isError then 1 else 0,
             if promptTokens.Some? then promptTokens.value else 0,
             if completionTokens.Some? then completionTokens.value else 0)
    }

    function ToFact(): Fact {
      Fact(traceId, parentId, Own())
    }
  }

  datatype Submission = Submission(span: Span, projectName: string)

  datatype TraceRow = TraceRow(project: string, session: Option<string>, startTime: int, endTime: int)

  datatype SessionRow = SessionRow(project: string, startTime: int, endTime: int)

  datatype SpanInsertionEvent = SpanInsertionEvent(project: string, spanId: Id, traceId: string)

  // ---------------------------------------------------------------- what a history amounts to

  /** The facts once a submission has been stored: a span id already taken is left alone. */
  ghost function StoredWith(facts: Facts, sub: Submission): Facts
  {
    if sub.span.spanId in facts then facts else facts[sub.span.spanId := sub.span.ToFact()]
  }

  ghost function FactsFrom(facts: Facts, batch: seq<Submission>): Facts
    decreases |batch|
  {
    if batch == [] then facts else FactsFrom(StoredWith(facts, batch[0]), batch[1..])
  }

  /** The deleted span was the only stored one of its trace. */
  ghost predicate EmptiesTrace(facts: Facts, spanId: Id)
    requires spanId in facts
  {
    forall id :: id in facts && id != spanId ==> facts[id].traceId != facts[spanId].traceId
  }

  /** When deleting a span leaves every counter exact: parents are matched across traces, but the
      ancestors are told only if the span's own trace survives. */
  ghost predicate CanDelete(facts: Facts, spanId: Id)
    requires spanId in facts
  {
    || !EmptiesTrace(facts, spanId)
    || facts[spanId].parent.None?
    || facts[spanId].parent.value !in facts
    || SubtreeTotal(facts, spanId) == ZERO
  }

  ghost predicate Submitted(log: seq<Submission>, traceId: string)
  {
    exists i :: 0 <= i < |log| && log[i].span.traceId == traceId
  }

  /** The project named by the first submission for the trace. */
  ghost function ProjectOf(log: seq<Submission>, traceId: string): Option<string>
  {
    if log == [] then None
    else if log[0].span.traceId == traceId then Some(log[0].projectName)
    else ProjectOf(log[1..], traceId)
  }

  /** The first non-empty session id submitted for the trace. */
  ghost function SessionOf(log: seq<Submission>, traceId: string): Option<string>
  {
    if log == [] then None
    else if log[0].span.traceId == traceId && log[0].span.SessionId() != "" then Some(log[0].span.SessionId())
    else SessionOf(log[1..], traceId)
  }

  /** The windows of the spans submitted for a trace, spans that were already stored included. */
  ghost function SubmittedWindows(log: seq<Submission>, traceId: string): set<Window>
  {
    set sub | sub in log && sub.span.traceId == traceId :: (sub.span.startTime, sub.span.endTime)
  }

  ghost predicate TraceHull(log: seq<Submission>, traceId: string, lo: int, hi: int)
  {
    IsHull(SubmittedWindows(log, traceId), lo, hi)
  }

  /** The windows of the traces of a session. */
  ghost function TraceWindows(traces: map<string, TraceRow>, sessionId: string): set<Window>
  {
    set t | t in traces && traces[t].session == Some(sessionId) :: (traces[t].startTime, traces[t].endTime)
  }

  ghost predicate SessionHull(traces: map<string, TraceRow>, sessionId: string, lo: int, hi: int)
  {
    IsHull(TraceWindows(traces, sessionId), lo, hi)
  }

  ghost predicate TracesMatch(log: seq<Submission>, traces: map<string, TraceRow>)
  {
    && (forall t :: t in traces <==> Submitted(log, t))
    && (forall t :: t in traces ==>
                      && TraceHull(log, t, traces[t].startTime, traces[t].endTime)
                      && ProjectOf(log, t) == Some(traces[t].project)
                      && SessionOf(log, t) == traces[t].session)
  }

  ghost predicate SessionsMatch(traces: map<string, TraceRow>, sessions: map<string, SessionRow>)
  {
    && (forall s :: s in sessions <==> exists t :: t in traces && traces[t].session == Some(s))
    && (forall s :: s in sessions ==> SessionHull(traces, s, sessions[s].startTime, sessions[s].endTime))
  }

  /** The `i`-th submission gives the session id to a trace that had none. */
  ghost predicate GivesSession(log: seq<Submission>, i: nat, sessionId: string)
  {
    && i < |log| && sessionId != "" && log[i].span.SessionId() == sessionId
    && SessionOf(log[..i], log[i].span.traceId).None?
  }

  /** It is the first submission to do so. */
  ghost predicate OpensSession(log: seq<Submission>, i: nat, sessionId: string)
  {
    GivesSession(log, i, sessionId) && forall j: nat :: j < i ==> !GivesSession(log, j, sessionId)
  }

  /** The project of the trace that was the first to be given the session id. */
  ghost predicate SessionProjectIs(log: seq<Submission>, sessionId: string, project: string)
  {
    exists i: nat :: OpensSession(log, i, sessionId) && ProjectOf(log, log[i].span.traceId) == Some(project)
  }

  ghost predicate SessionsOwned(log: seq<Submission>, sessions: map<string, SessionRow>)
  {
    forall s :: s in sessions ==> SessionProjectIs(log, s, sessions[s].project)
  }

  /** Trace and session rows are the exact hulls of the history, and each session belongs to the project
      of its first trace. Deleting rows ends this. */
  ghost predicate WindowsExact(log: seq<Submission>, traces: map<string, TraceRow>, sessions: map<string, SessionRow>)
  {
    TracesMatch(log, traces) && SessionsMatch(traces, sessions) && SessionsOwned(log, sessions)
  }

  /** The parent links form a forest and every counter equals the sum over the stored subtree. */
  ghost predicate CountersExact(facts: Facts, cumulative: Counters)
  {
    Acyclic(ParentsOf(facts)) && Exact(facts, cumulative)
  }

  ghost predicate SessionsStored(traces: map<string, TraceRow>, sessions: map<string, SessionRow>)
  {
    forall t :: t in traces && traces[t].session.Some? ==> traces[t].session.value in sessions
  }

  // ---------------------------------------------------------------- one submission, on values

  /** The trace row of the submitted span once the submission has been taken into account. */
  function TraceAfter(traces: map<string, TraceRow>, sub: Submission): TraceRow
  {
    var span := sub.span;
    var row := if span.traceId in traces
               then var was := traces[span.traceId];
                    was.(startTime := Min(was.startTime, span.startTime), endTime := Max(was.endTime, span.endTime))
               else TraceRow(sub.projectName, None, span.startTime, span.endTime);
    if row.session.None? && span.SessionId() != "" then row.(session := Some(span.SessionId())) else row
  }

  /** The session rows once they cover this trace row. */
  function SessionsAfter(sessions: map<string, SessionRow>, trace: TraceRow): map<string, SessionRow>
  {
    if trace.session.None? then sessions
    else
      var id := trace.session.value;
      if id !in sessions then sessions[id := SessionRow(trace.project, trace.startTime, trace.endTime)]
      else
        var was := sessions[id];
        sessions[id := was.(startTime := Min(was.startTime, trace.startTime),
                            endTime := Max(was.endTime, trace.endTime))]
  }

  /** The session id is read without the space around it; there is none without the attribute. */
  lemma SessionIdRead(span: Span, left: string, id: string, right: string)
    requires Text.AllSpace(left) && Text.AllSpace(right) && Text.Trimmed(id)
    ensures span.sessionAttribute == None ==> span.SessionId() == ""
    ensures span.sessionAttribute == Some(left + id + right) ==> span.SessionId() == id
  {
    Text.StripBetween(left, id, right);
  }

  lemma {:induction false} FirstOnesStay(log: seq<Submission>, sub: Submission, t: string)
    ensures ProjectOf(log + [sub], t)
         == if ProjectOf(log, t).Some? then ProjectOf(log, t)
            else if sub.span.traceId == t then Some(sub.projectName) else None
    ensures SessionOf(log + [sub], t)
         == if SessionOf(log, t).Some? then SessionOf(log, t)
            else if sub.span.traceId == t && sub.span.SessionId() != "" then Some(sub.span.SessionId()) else None
    ensures ProjectOf(log, t).Some? <==> Submitted(log, t)
    ensures SessionOf(log, t).Some? ==> Submitted(log, t)
  {
    if log != [] {
      assert (log + [sub])[1..] == log[1..] + [sub];
      FirstOnesStay(log[1..], sub, t);
      if Submitted(log[1..], t) {
        var i :| 0 <= i < |log[1..]| && log[1..][i].span.traceId == t;
        assert log[i + 1].span.traceId == t;
      }
      if Submitted(log, t) && log[0].span.traceId != t {
        var i :| 0 <= i < |log| && log[i].span.traceId == t;
        assert log[1..][i - 1].span.traceId == t;
      }
    }
  }

  lemma SubmittedWindowsMore(log: seq<Submission>, sub: Submission, t: string)
    ensures SubmittedWindows(log + [sub], t)
         == SubmittedWindows(log, t) + if sub.span.traceId == t then {(sub.span.startTime, sub.span.endTime)} else {}
  {
    var more := log + [sub];
    assert sub in more;
    assert forall x :: x in more <==> x in log || x == sub;
  }

  lemma HullGrows(log: seq<Submission>, sub: Submission, lo: int, hi: int)
    requires TraceHull(log, sub.span.traceId, lo, hi)
    ensures TraceHull(log + [sub], sub.span.traceId, Min(lo, sub.span.startTime), Max(hi, sub.span.endTime))
  {
    var own := (sub.span.startTime, sub.span.endTime);
    SubmittedWindowsMore(log, sub, sub.span.traceId);
    HullOfOne(own);
    HullOfUnion(SubmittedWindows(log, sub.span.traceId), lo, hi, {own}, own.0, own.1);
  }

  lemma HullUntouched(log: seq<Submission>, sub: Submission, t: string, lo: int, hi: int)
    requires TraceHull(log, t, lo, hi) && t != sub.span.traceId
    ensures TraceHull(log + [sub], t, lo, hi)
  {
    SubmittedWindowsMore(log, sub, t);
    assert SubmittedWindows(log, t) + {} == SubmittedWindows(log, t);
  }

  lemma HullFirst(log: seq<Submission>, sub: Submission)
    requires !Submitted(log, sub.span.traceId)
    ensures TraceHull(log + [sub], sub.span.traceId, sub.span.startTime, sub.span.endTime)
  {
    var own := (sub.span.startTime, sub.span.endTime);
    SubmittedWindowsMore(log, sub, sub.span.traceId);
    assert SubmittedWindows(log, sub.span.traceId) == {};
    assert {} + {own} == {own};
    HullOfOne(own);
  }

  lemma SubmittedMore(log: seq<Submission>, sub: Submission, t: string)
    ensures Submitted(log + [sub], t) <==> Submitted(log, t) || sub.span.traceId == t
  {
    var more := log + [sub];
    assert more[|log|] == sub;
    if Submitted(log, t) {
      var i :| 0 <= i < |log| && log[i].span.traceId == t;
      assert more[i].span.traceId == t;
    }
  }

  /** One submission keeps every trace window the exact hull of what was submitted for the trace. */
  lemma TracesStayMatched(log: seq<Submission>, traces: map<string, TraceRow>, sub: Submission)
    requires TracesMatch(log, traces)
    ensures TracesMatch(log + [sub], traces[sub.span.traceId := TraceAfter(traces, sub)])
  {
    var after := traces[sub.span.traceId := TraceAfter(traces, sub)];
    forall t
      ensures t in after <==> Submitted(log + [sub], t)
      ensures t in after ==> ProjectOf(log + [sub], t) == Some(after[t].project)
      ensures t in after ==> SessionOf(log + [sub], t) == after[t].session
      ensures t in after ==> TraceHull(log + [sub], t, after[t].startTime, after[t].endTime)
    {
      SubmittedMore(log, sub, t);
      FirstOnesStay(log, sub, t);
      if t != sub.span.traceId {
        if t in traces {
          HullUntouched(log, sub, t, traces[t].startTime, traces[t].endTime);
        }
      } else if t in traces {
        HullGrows(log, sub, traces[t].startTime, traces[t].endTime);
      } else {
        HullFirst(log, sub);
      }
    }
  }

  /** Each session that was the hull of its traces still is once one trace row has been widened. */
  lemma SessionStaysHull(traces: map<string, TraceRow>, sessions: map<string, SessionRow>, t: string, row: TraceRow,
                         s: string)
    requires SessionsMatch(traces, sessions) && s in sessions
    requires t in traces ==> row.startTime <= traces[t].startTime && traces[t].endTime <= row.endTime
    requires t in traces && traces[t].session.Some? ==> row.session == traces[t].session
    ensures var after := SessionsAfter(sessions, row);
            s in after && SessionHull(traces[t := row], s, after[s].startTime, after[s].endTime)
  {
    var after := traces[t := row];
    TraceWindowsAfter(traces, t, row, s);
    assert SessionHull(traces, s, sessions[s].startTime, sessions[s].endTime);
    if row.session == Some(s) {
      HullReplaced(TraceWindows(traces, s), sessions[s].startTime, sessions[s].endTime, (row.startTime, row.endTime),
                   TraceWindows(after, s));
    }
  }

  /** How the windows of a session's traces change with one trace row. */
  lemma TraceWindowsAfter(traces: map<string, TraceRow>, t: string, row: TraceRow, s: string)
    requires t in traces ==> row.startTime <= traces[t].startTime && traces[t].endTime <= row.endTime
    requires t in traces && traces[t].session.Some? ==> row.session == traces[t].session
    ensures row.session != Some(s) ==> TraceWindows(traces[t := row], s) == TraceWindows(traces, s)
    ensures row.session == Some(s) ==>
              var own := (row.startTime, row.endTime);
              var before, after := TraceWindows(traces, s), TraceWindows(traces[t := row], s);
              && own in after && (forall w :: w in after ==> w in before || w == own)
              && (forall w :: w in before ==> w in after || (own.0 <= w.0 && w.1 <= own.1))
  {
    var more, before, after := traces[t := row], TraceWindows(traces, s), TraceWindows(traces[t := row], s);
    assert t in more && more[t] == row;
    forall w | w in before
      ensures w in after || (row.session == Some(s) && row.startTime <= w.0 && w.1 <= row.endTime)
    {
      var u :| u in traces && traces[u].session == Some(s) && w == (traces[u].startTime, traces[u].endTime);
      assert u != t ==> u in more && more[u] == traces[u];
    }
    forall w | w in after
      ensures w in before || (row.session == Some(s) && w == (row.startTime, row.endTime))
    {
      var u :| u in more && more[u].session == Some(s) && w == (more[u].startTime, more[u].endTime);
      assert u != t ==> u in traces && more[u] == traces[u];
    }
  }

  lemma NewSessionIsHull(traces: map<string, TraceRow>, sessions: map<string, SessionRow>, t: string, row: TraceRow)
    requires SessionsMatch(traces, sessions) && row.session.Some? && row.session.value !in sessions
    ensures SessionHull(traces[t := row], row.session.value, row.startTime, row.endTime)
  {
    var after := traces[t := row];
    assert t in after && after[t] == row;
    forall u | u in after && u != t
      ensures after[u].session != row.session
    {
      assert u in traces;
    }
    assert TraceWindows(after, row.session.value) == {(row.startTime, row.endTime)};
    HullOfOne((row.startTime, row.endTime));
  }

  /** Widening one trace row and then its session keeps every session the hull of its traces. */
  lemma SessionsStayMatched(traces: map<string, TraceRow>, sessions: map<string, SessionRow>, t: string, row: TraceRow)
    requires SessionsMatch(traces, sessions)
    requires t in traces ==> row.startTime <= traces[t].startTime && traces[t].endTime <= row.endTime
    requires t in traces && traces[t].session.Some? ==> row.session == traces[t].session
    ensures SessionsMatch(traces[t := row], SessionsAfter(sessions, row))
  {
    var after, sessionsAfter := traces[t := row], SessionsAfter(sessions, row);
    assert t in after && after[t] == row;
    forall s | s in sessionsAfter
      ensures SessionHull(after, s, sessionsAfter[s].startTime, sessionsAfter[s].endTime)
    {
      if s in sessions {
        SessionStaysHull(traces, sessions, t, row, s);
      } else {
        NewSessionIsHull(traces, sessions, t, row);
      }
    }
    forall u | u in after && after[u].session.Some?
      ensures after[u].session.value in sessionsAfter
    {
      assert u != t ==> u in traces && traces[u] == after[u];
    }
  }

  /** A trace keeps the session id it is given. */
  lemma GivenStays(log: seq<Submission>, i: nat, sessionId: string)
    requires GivesSession(log, i, sessionId)
    ensures SessionOf(log, log[i].span.traceId) == Some(sessionId)
  {
    var t := log[i].span.traceId;
    FirstOnesStay(log[..i], log[i], t);
    SessionAndProjectStay(log[..i] + [log[i]], log[i + 1..], t);
    assert log[..i] + [log[i]] + log[i + 1..] == log;
  }

  lemma GivesSessionPrefix(log: seq<Submission>, sub: Submission, i: nat, sessionId: string)
    requires i < |log|
    ensures GivesSession(log + [sub], i, sessionId) <==> GivesSession(log, i, sessionId)
  {
    assert (log + [sub])[..i] == log[..i];
  }

  /** A later submission does not change which project a session belongs to. */
  lemma SessionProjectStays(log: seq<Submission>, sub: Submission, sessionId: string, project: string)
    requires SessionProjectIs(log, sessionId, project)
    ensures SessionProjectIs(log + [sub], sessionId, project)
  {
    var i: nat :| OpensSession(log, i, sessionId) && ProjectOf(log, log[i].span.traceId) == Some(project);
    forall j: nat | j <= i
      ensures GivesSession(log + [sub], j, sessionId) <==> GivesSession(log, j, sessionId)
    {
      GivesSessionPrefix(log, sub, j, sessionId);
    }
    FirstOnesStay(log, sub, log[i].span.traceId);
    assert OpensSession(log + [sub], i, sessionId);
  }

  /** It is one project only. */
  lemma SessionProjectUnique(log: seq<Submission>, sessionId: string, project: string, other: string)
    requires SessionProjectIs(log, sessionId, project) && SessionProjectIs(log, sessionId, other)
    ensures project == other
  {
    var i: nat :| OpensSession(log, i, sessionId) && ProjectOf(log, log[i].span.traceId) == Some(project);
    var j: nat :| OpensSession(log, j, sessionId) && ProjectOf(log, log[j].span.traceId) == Some(other);
  }

  lemma GivenIsStored(log: seq<Submission>, traces: map<string, TraceRow>, sessions: map<string, SessionRow>,
                      i: nat, sessionId: string)
    requires TracesMatch(log, traces) && SessionsMatch(traces, sessions) && GivesSession(log, i, sessionId)
    ensures sessionId in sessions
  {
    GivenStays(log, i, sessionId);
    assert log[i].span.traceId in traces;
  }

  /** No trace had the id of a session that is not stored yet, so this submission opens it. */
  lemma NewSessionOpens(log: seq<Submission>, traces: map<string, TraceRow>, sessions: map<string, SessionRow>,
                        sub: Submission)
    requires TracesMatch(log, traces) && SessionsMatch(traces, sessions) && TraceAfter(traces, sub).session.Some?
    requires TraceAfter(traces, sub).session.value !in sessions
    ensures OpensSession(log + [sub], |log|, TraceAfter(traces, sub).session.value)
  {
    var id, more := TraceAfter(traces, sub).session.value, log + [sub];
    assert more[..|log|] == log && more[|log|] == sub;
    FirstOnesStay(log, sub, sub.span.traceId);
    forall j: nat | j < |log|
      ensures GivesSession(more, j, id) ==> id in sessions
    {
      GivesSessionPrefix(log, sub, j, id);
      if GivesSession(log, j, id) {
        GivenIsStored(log, traces, sessions, j, id);
      }
    }
  }

  lemma NewSessionOwned(log: seq<Submission>, traces: map<string, TraceRow>, sessions: map<string, SessionRow>,
                        sub: Submission)
    requires TracesMatch(log, traces) && SessionsMatch(traces, sessions) && TraceAfter(traces, sub).session.Some?
    requires TraceAfter(traces, sub).session.value !in sessions
    requires ProjectOf(log + [sub], sub.span.traceId) == Some(TraceAfter(traces, sub).project)
    ensures SessionProjectIs(log + [sub], TraceAfter(traces, sub).session.value, TraceAfter(traces, sub).project)
  {
    NewSessionOpens(log, traces, sessions, sub);
    assert (log + [sub])[|log|] == sub;
  }

  lemma OwnedAfter(log: seq<Submission>, sessions: map<string, SessionRow>, row: TraceRow)
    requires SessionsOwned(log, sessions)
    requires row.session.Some? && row.session.value !in sessions ==>
               SessionProjectIs(log, row.session.value, row.project)
    ensures SessionsOwned(log, SessionsAfter(sessions, row))
  {
  }

  lemma SessionsStayOwned(log: seq<Submission>, traces: map<string, TraceRow>, sessions: map<string, SessionRow>,
                          sub: Submission)
    requires TracesMatch(log, traces) && SessionsMatch(traces, sessions) && SessionsOwned(log, sessions)
    requires ProjectOf(log + [sub], sub.span.traceId) == Some(TraceAfter(traces, sub).project)
    ensures SessionsOwned(log + [sub], SessionsAfter(sessions, TraceAfter(traces, sub)))
  {
    var row := TraceAfter(traces, sub);
    OldSessionsOwned(log, sessions, sub);
    if row.session.Some? && row.session.value !in sessions {
      NewSessionOwned(log, traces, sessions, sub);
    }
    OwnedAfter(log + [sub], sessions, row);
  }

  lemma OldSessionsOwned(log: seq<Submission>, sessions: map<string, SessionRow>, sub: Submission)
    requires SessionsOwned(log, sessions)
    ensures SessionsOwned(log + [sub], sessions)
  {
    forall s | s in sessions
      ensures SessionProjectIs(log + [sub], s, sessions[s].project)
    {
      SessionProjectStays(log, sub, s, sessions[s].project);
    }
  }

  /** One submission keeps all windows exact. */
  lemma WindowsStayExact(log: seq<Submission>, traces: map<string, TraceRow>, sessions: map<string, SessionRow>,
                         sub: Submission)
    requires WindowsExact(log, traces, sessions)
    ensures var row := TraceAfter(traces, sub);
            WindowsExact(log + [sub], traces[sub.span.traceId := row], SessionsAfter(sessions, row))
  {
    TracesStayMatched(log, traces, sub);
    SessionsStayMatched(traces, sessions, sub.span.traceId, TraceAfter(traces, sub));
    SessionsStayOwned(log, traces, sessions, sub);
  }

  /** The trace and session tables. */
  datatype Windows = Windows(traces: map<string, TraceRow>, sessions: map<string, SessionRow>)

  /** The tables once one submission has been taken into account. */
  function Touched(w: Windows, sub: Submission): Windows
  {
    var row := TraceAfter(w.traces, sub);
    Windows(w.traces[sub.span.traceId := row], SessionsAfter(w.sessions, row))
  }

  function TouchedByAll(w: Windows, batch: seq<Submission>): Windows
  {
    if batch == [] then w else Touched(TouchedByAll(w, batch[..|batch| - 1]), batch[|batch| - 1])
  }

  lemma OneFurther<T>(xs: seq<T>, i: nat)
    requires i < |xs|
    ensures xs[i..][1..] == xs[i + 1..] && xs[..i + 1] == xs[..i] + [xs[i]] && xs[..i + 1][..i] == xs[..i]
  {
  }

  lemma AppendLast<T>(before: seq<T>, more: seq<T>)
    requires more != []
    ensures before + more[..|more| - 1] + [more[|more| - 1]] == before + more
  {
  }

  /** A batch keeps all windows exact. */
  lemma {:induction false} BatchKeepsWindows(log: seq<Submission>, w: Windows, batch: seq<Submission>)
    requires WindowsExact(log, w.traces, w.sessions)
    ensures WindowsExact(log + batch, TouchedByAll(w, batch).traces, TouchedByAll(w, batch).sessions)
    decreases |batch|
  {
    if batch == [] {
      assert log + batch == log;
    } else {
      var init, last := batch[..|batch| - 1], batch[|batch| - 1];
      var before := TouchedByAll(w, init);
      BatchKeepsWindows(log, w, init);
      WindowsStayExact(log + init, before.traces, before.sessions, last);
      AppendLast(log, batch);
    }
  }

  lemma {:induction false} FactsOnlyGrow(facts: Facts, batch: seq<Submission>)
    ensures forall id :: id in facts ==> id in FactsFrom(facts, batch) && FactsFrom(facts, batch)[id] == facts[id]
    decreases |batch|
  {
    if batch != [] {
      FactsOnlyGrow(StoredWith(facts, batch[0]), batch[1..]);
    }
  }

  /** A batch that ends in a forest has a forest after its first submission. */
  lemma StepIsAcyclic(facts: Facts, batch: seq<Submission>)
    requires batch != [] && Acyclic(ParentsOf(FactsFrom(facts, batch)))
    ensures Acyclic(ParentsOf(StoredWith(facts, batch[0])))
  {
    FactsOnlyGrow(StoredWith(facts, batch[0]), batch[1..]);
    AcyclicPart(ParentsOf(StoredWith(facts, batch[0])), ParentsOf(FactsFrom(facts, batch)));
  }

  /** The first `i` submissions of the batch are taken into account, the others still to come. */
  ghost predicate BatchDone(facts: Facts, log: seq<Submission>, w: Windows, batch: seq<Submission>, i: nat,
                            nowFacts: Facts, nowLog: seq<Submission>, now: Windows)
    requires i <= |batch|
  {
    && FactsFrom(nowFacts, batch[i..]) == FactsFrom(facts, batch)
    && nowLog == log + batch[..i] && now == TouchedByAll(w, batch[..i])
  }

  lemma BatchStarts(facts: Facts, log: seq<Submission>, w: Windows, batch: seq<Submission>)
    ensures BatchDone(facts, log, w, batch, 0, facts, log, w)
  {
    assert batch[0..] == batch;
  }

  lemma OneMoreDone(facts: Facts, log: seq<Submission>, w: Windows, batch: seq<Submission>, i: nat,
                    nowFacts: Facts, nowLog: seq<Submission>, now: Windows)
    requires i < |batch| && BatchDone(facts, log, w, batch, i, nowFacts, nowLog, now)
    ensures BatchDone(facts, log, w, batch, i + 1,
                      StoredWith(nowFacts, batch[i]), nowLog + [batch[i]], Touched(now, batch[i]))
  {
    OneFurther(batch, i);
  }

  lemma BatchEnds(facts: Facts, log: seq<Submission>, w: Windows, batch: seq<Submission>,
                  nowFacts: Facts, nowLog: seq<Submission>, now: Windows)
    requires BatchDone(facts, log, w, batch, |batch|, nowFacts, nowLog, now)
    ensures nowFacts == FactsFrom(facts, batch) && nowLog == log + batch && now == TouchedByAll(w, batch)
  {
    assert batch[..|batch|] == batch;
  }

  lemma TwoRowsAcyclic(q: Parents, a: Id, b: Id)
    requires a != b && q == map[a := None, b := Some(a)]
    ensures Acyclic(q)
  {
    forall id: Id, n: nat | 0 < n
      ensures Up(q, id, n) != Some(id)
    {
      assert Up(q, a, n) == None;
      assert 2 <= n ==> Up(q, b, n) == Up(q, a, n - 1) == None;
      assert id != b || n != 1 || Up(q, b, 1) == Up(q, a, 0) == Some(a);
    }
  }

  /** A stored forest whose counters deletion spoils: the deleted span is alone in its trace and its
      parent, in another trace, keeps counting it. */
  lemma DeleteCanSpoilCounters(facts: Facts, parent: Id, child: Id)
    requires parent != child && facts.Keys == {parent, child}
    requires facts[parent].parent == None && facts[child].parent == Some(parent)
    requires facts[parent].traceId != facts[child].traceId && facts[child].own != ZERO
    ensures Acyclic(ParentsOf(facts)) && !CanDelete(facts, child)
  {
    TwoRowsAcyclic(ParentsOf(facts), parent, child);
    LeafTotal(facts, child);
  }

  lemma {:induction false} FactsFromBatch(facts: Facts, batch: seq<Submission>, id: Id)
    ensures id in FactsFrom(facts, batch) <==> id in facts || exists sub :: sub in batch && sub.span.spanId == id
    ensures id in FactsFrom(facts, batch) && id !in facts ==>
              exists sub :: sub in batch && sub.span.spanId == id && FactsFrom(facts, batch)[id] == sub.span.ToFact()
    decreases |batch|
  {
    FactsOnlyGrow(facts, batch);
    if batch != [] {
      FactsFromBatch(StoredWith(facts, batch[0]), batch[1..], id);
      FactsOnlyGrow(StoredWith(facts, batch[0]), batch[1..]);
      assert batch == [batch[0]] + batch[1..];
    }
  }

  /** Resubmissions of a span id carry what the first submission carried. */
  ghost predicate Consistent(batch: seq<Submission>)
  {
    forall x, y :: x in batch && y in batch && x.span.spanId == y.span.spanId ==> x.span.ToFact() == y.span.ToFact()
  }

  lemma SameFact(facts: Facts, xs: seq<Submission>, ys: seq<Submission>, id: Id)
    requires Consistent(xs)
    requires forall sub :: sub in xs <==> sub in ys
    ensures id in FactsFrom(facts, xs) <==> id in FactsFrom(facts, ys)
    ensures id in FactsFrom(facts, xs) ==> FactsFrom(facts, xs)[id] == FactsFrom(facts, ys)[id]
  {
    FactsOnlyGrow(facts, xs);
    FactsOnlyGrow(facts, ys);
    FactsFromBatch(facts, xs, id);
    FactsFromBatch(facts, ys, id);
  }

  /** Two batches of the same submissions, in any order and with any repetition, leave the same rows
      and the same counters: late parents, late children and duplicates make no difference. */
  lemma ArrivalOrderIrrelevant(facts: Facts, xs: seq<Submission>, ys: seq<Submission>, c: Counters, d: Counters)
    requires Consistent(xs)
    requires forall sub :: sub in xs <==> sub in ys
    requires Exact(FactsFrom(facts, xs), c) && Exact(FactsFrom(facts, ys), d)
    ensures FactsFrom(facts, xs) == FactsFrom(facts, ys)
    ensures c == d
  {
    forall id
      ensures id in FactsFrom(facts, xs) <==> id in FactsFrom(facts, ys)
      ensures id in FactsFrom(facts, xs) ==> FactsFrom(facts, xs)[id] == FactsFrom(facts, ys)[id]
    {
      SameFact(facts, xs, ys, id);
    }
    assert FactsFrom(facts, xs) == FactsFrom(facts, ys);
    assert forall a :: a in c ==> c[a] == d[a];
  }

  /** Once a trace has a session or a project, no later submission changes it. */
  lemma {:induction false} SessionAndProjectStay(log: seq<Submission>, more: seq<Submission>, t: string)
    ensures SessionOf(log, t).Some? ==> SessionOf(log + more, t) == SessionOf(log, t)
    ensures ProjectOf(log, t).Some? ==> ProjectOf(log + more, t) == ProjectOf(log, t)
    decreases |more|
  {
    if more == [] {
      assert log + more == log;
    } else {
      FirstOnesStay(log, more[0], t);
      SessionAndProjectStay(log + [more[0]], more[1..], t);
      assert log + [more[0]] + more[1..] == log + more;
    }
  }

  /** Which project a session belongs to is settled by its first trace, whatever comes later. */
  lemma {:induction false} SessionKeepsProject(log: seq<Submission>, more: seq<Submission>, sessionId: string,
                                               project: string)
    requires SessionProjectIs(log, sessionId, project)
    ensures forall other :: SessionProjectIs(log + more, sessionId, other) <==> other == project
    decreases |more|
  {
    if more == [] {
      assert log + more == log;
      forall other | SessionProjectIs(log, sessionId, other)
        ensures other == project
      {
        SessionProjectUnique(log, sessionId, project, other);
      }
    } else {
      SessionProjectStays(log, more[0], sessionId, project);
      SessionKeepsProject(log + [more[0]], more[1..], sessionId, project);
      assert log + [more[0]] + more[1..] == log + more;
    }
  }

  /** What the deletion of `s` does to the counters of the remaining rows. */
  ghost predicate Lowered(facts: Facts, s: Id, before: Counters, after: Counters)
    requires s in facts && s in before
  {
    && after.Keys == before.Keys - {s}
    && forall a :: a in after ==>
         after[a] == if !EmptiesTrace(facts, s) && StrictlyAbove(facts, s, a)
                     then before[a].Plus(ZERO.Minus(before[s])) else before[a]
  }

  lemma RowAfterDelete(facts: Facts, before: Counters, s: Id, after: Counters, a: Id)
    requires s in facts && CountersExact(facts, before) && Lowered(facts, s, before, after)
    requires a in facts && a != s
    ensures after[a] == SubtreeTotal(facts - {s}, a)
       <==> !EmptiesTrace(facts, s) || !StrictlyAbove(facts, s, a) || SubtreeTotal(facts, s) == ZERO
  {
    TotalsAfterRemoval(facts, s, a);
    var lowered := !EmptiesTrace(facts, s) && StrictlyAbove(facts, s, a);
    assert after[a] == if lowered then before[a].Plus(ZERO.Minus(before[s])) else before[a];
    RestAfter(SubtreeTotal(facts - {s}, a), SubtreeTotal(facts, s));
  }

  /** Taking a part away leaves the rest; leaving it in comes to the same exactly when it is zero. */
  lemma RestAfter(rest: Counts, part: Counts)
    ensures rest.Plus(part).Plus(ZERO.Minus(part)) == rest
    ensures rest.Plus(part) == rest <==> part == ZERO
  {
  }

  lemma ParentIsAbove(facts: Facts, s: Id)
    requires s in facts && Acyclic(ParentsOf(facts)) && facts[s].parent.Some?
    ensures facts[s].parent.value in facts ==>
            StrictlyAbove(facts, s, facts[s].parent.value) && facts[s].parent.value != s
    ensures facts[s].parent.value !in facts ==> forall a :: !StrictlyAbove(facts, s, a)
  {
    var u := facts[s].parent.value;
    if u in facts {
      assert Up(ParentsOf(facts), u, 0) == Some(u);
      StrictlyAboveIsUnder(facts, s, s);
    } else {
      forall a
        ensures !StrictlyAbove(facts, s, a)
      {
        UnderIsStored(ParentsOf(facts), u, a);
      }
    }
  }

  /** Deleting keeps the counters exact exactly when `CanDelete` says so. */
  lemma DeleteExactness(facts: Facts, before: Counters, s: Id, after: Counters)
    requires s in facts && CountersExact(facts, before) && Lowered(facts, s, before, after)
    ensures CountersExact(facts - {s}, after) <==> CanDelete(facts, s)
  {
    AcyclicPart(ParentsOf(facts - {s}), ParentsOf(facts));
    if facts[s].parent.Some? {
      ParentIsAbove(facts, s);
    }
    if CanDelete(facts, s) {
      forall a | a in facts && a != s
        ensures after[a] == SubtreeTotal(facts - {s}, a)
      {
        RowAfterDelete(facts, before, s, after, a);
      }
    } else {
      RowAfterDelete(facts, before, s, after, facts[s].parent.value);
    }
  }

  // ---------------------------------------------------------------- what the counters say about the spans

  /** The rows are those of these spans, each under its own id. */
  ghost predicate AreRowsOf(facts: Facts, spans: map<Id, Span>)
  {
    facts.Keys == spans.Keys && forall id :: id in facts ==> spans[id].spanId == id && facts[id] == spans[id].ToFact()
  }

  ghost function FailedIn(spans: map<Id, Span>, ids: set<Id>): set<Id>
  {
    set id | id in ids && id in spans && spans[id].isError
  }

  /** The prompt token counts that could be read. */
  ghost function PromptsRead(spans: map<Id, Span>): map<Id, int>
  {
    map id | id in spans && spans[id].promptTokens.Some? :: spans[id].promptTokens.value
  }

  ghost function CompletionsRead(spans: map<Id, Span>): map<Id, int>
  {
    map id | id in spans && spans[id].completionTokens.Some? :: spans[id].completionTokens.value
  }

  /** The values at the ids that have one, added up. */
  ghost function Added(values: map<Id, int>, ids: set<Id>): int
  {
    if ids == {} then 0
    else
      var x :| x in ids;
      (if x in values then values[x] else 0) + Added(values, ids - {x})
  }

  lemma {:induction false} AddedRemove(values: map<Id, int>, ids: set<Id>, x: Id)
    requires x in ids
    ensures Added(values, ids) == (if x in values then values[x] else 0) + Added(values, ids - {x})
    decreases ids
  {
    var y :| y in ids && Added(values, ids) == (if y in values then values[y] else 0) + Added(values, ids - {y});
    if y != x {
      AddedRemove(values, ids - {y}, x);
      AddedRemove(values, ids - {x}, y);
      assert ids - {y} - {x} == ids - {x} - {y};
    }
  }

  lemma FailedRemove(spans: map<Id, Span>, ids: set<Id>, x: Id)
    requires x in ids && x in spans
    ensures |FailedIn(spans, ids)| == (if spans[x].isError then 1 else 0) + |FailedIn(spans, ids - {x})|
  {
    assert FailedIn(spans, ids) == FailedIn(spans, ids - {x}) + if spans[x].isError then {x} else {};
  }

  ghost function Meant(spans: map<Id, Span>, ids: set<Id>): Counts
  {
    Counts(|FailedIn(spans, ids)|, Added(PromptsRead(spans), ids), Added(CompletionsRead(spans), ids))
  }

  lemma MeantRemove(facts: Facts, spans: map<Id, Span>, ids: set<Id>, x: Id)
    requires AreRowsOf(facts, spans) && x in ids && x in facts
    ensures Meant(spans, ids) == facts[x].own.Plus(Meant(spans, ids - {x}))
  {
    FailedRemove(spans, ids, x);
    AddedRemove(PromptsRead(spans), ids, x);
    AddedRemove(CompletionsRead(spans), ids, x);
  }

  lemma {:induction false} SumsMean(facts: Facts, spans: map<Id, Span>, ids: set<Id>)
    requires AreRowsOf(facts, spans) && ids <= facts.Keys
    ensures SumOf(OwnOf(facts), ids) == Meant(spans, ids)
    decreases ids
  {
    if ids == {} {
      assert FailedIn(spans, ids) == {};
    } else {
      var x :| x in ids;
      SumRemove(OwnOf(facts), ids, x);
      MeantRemove(facts, spans, ids, x);
      SumsMean(facts, spans, ids - {x});
    }
  }

  /** With exact counters every span shows how many spans of its subtree failed, and the sums of the
      prompt and of the completion token counts that could be read there. */
  lemma {:induction false} CountersMean(facts: Facts, cumulative: Counters, spans: map<Id, Span>, a: Id)
    requires CountersExact(facts, cumulative) && AreRowsOf(facts, spans) && a in facts
    ensures var below := Subtree(ParentsOf(facts), a);
            && cumulative[a].errors == |FailedIn(spans, below)|
            && cumulative[a].prompt == Added(PromptsRead(spans), below)
            && cumulative[a].completion == Added(CompletionsRead(spans), below)
  {
    SumsMean(facts, spans, Subtree(ParentsOf(facts), a));
  }

  class SpanStore {
    var projects: set<string>
    var traces: map<string, TraceRow>
    var sessions: map<string, SessionRow>
    // The span table: the columns fixed at insertion, and the cumulative columns.
    var facts: Facts
    var cumulative: Counters

    /** Everything submitted so far, in order. */
    ghost var log: seq<Submission>

    constructor ()
      ensures CountersExact(facts, cumulative) && SessionsStored(traces, sessions)
              && WindowsExact(log, traces, sessions)
      ensures facts == map[] && traces == map[] && sessions == map[] && log == []
    {
      projects, traces, sessions, facts, cumulative, log := {}, map[], map[], map[], map[], [];
    }

    /** Creates or widens the trace row and then the session row of the submitted span. This runs
        before the span row is tried, so a span that is already stored still widens its trace. */
    method TouchTrace(span: Span, projectName: string) returns (project: string)
      requires SessionsStored(traces, sessions)
      modifies this`projects, this`traces, this`sessions, this`log
      ensures SessionsStored(traces, sessions)
      ensures log == old(log) + [Submission(span, projectName)]
      ensures var row := TraceAfter(old(traces), Submission(span, projectName));
              && traces == old(traces)[span.traceId := row]
              && sessions == SessionsAfter(old(sessions), row)
              && project == row.project
      ensures projects == old(projects) + if span.traceId in old(traces) then {} else {projectName}
    {
      log := log + [Submission(span, projectName)];
      var trace: TraceRow;
      if span.traceId in traces {
        trace := traces[span.traceId];
        if trace.endTime < span.endTime {
          trace := trace.(endTime := span.endTime);
        }
        if span.startTime < trace.startTime {
          trace := trace.(startTime := span.startTime);
        }
      } else {
        trace := TraceRow(projectName, None, span.startTime, span.endTime);
        projects := projects + {projectName};
      }
      project := trace.project;

      var sessionId := if trace.session.Some? then trace.session.value else span.SessionId();
      if trace.session.Some? || sessionId != "" {
        TouchSession(sessionId, trace);
        trace := trace.(session := Some(sessionId));
      }
      assert trace == TraceAfter(traces, Submission(span, projectName));
      traces := traces[span.traceId := trace];
    }

    /** The trace and session rows are brought up to date with the submission, and stay exact. */
    method Touch(span: Span, projectName: string) returns (project: string)
      requires SessionsStored(traces, sessions)
      modifies this`projects, this`traces, this`sessions, this`log
      ensures SessionsStored(traces, sessions)
      ensures log == old(log) + [Submission(span, projectName)]
      ensures Windows(traces, sessions) == Touched(old(Windows(traces, sessions)), Submission(span, projectName))
      ensures project == traces[span.traceId].project
      ensures old(WindowsExact(log, traces, sessions)) ==> WindowsExact(log, traces, sessions)
    {
      project := TouchTrace(span, projectName);
      if old(WindowsExact(log, traces, sessions)) {
        WindowsStayExact(old(log), old(traces), old(sessions), Submission(span, projectName));
      }
    }

    /** Creates the session row from the trace's window, or widens it to cover that window. */
    method TouchSession(sessionId: string, trace: TraceRow)
      modifies this`sessions
      ensures sessions == SessionsAfter(old(sessions), trace.(session := Some(sessionId)))
    {
      if sessionId !in sessions {
        sessions := sessions[sessionId := SessionRow(trace.project, trace.startTime, trace.endTime)];
      } else {
        var session := sessions[sessionId];
        if trace.startTime < session.startTime {
          session := session.(startTime := trace.startTime);
        }
        if session.endTime < trace.endTime {
          session := session.(endTime := trace.endTime);
        }
        sessions := sessions[sessionId := session];
      }
    }

    /** The counters of the rows naming `spanId` as their parent, added up. */
    method SumOverChildren(spanId: Id) returns (total: Counts)
      requires cumulative.Keys == facts.Keys
      ensures total == SumOf(cumulative, Children(ParentsOf(facts), spanId))
    {
      total := ZERO;
      var children := Children(ParentsOf(facts), spanId);
      var todo := children;
      while todo != {}
        invariant todo <= children
        invariant SumOf(cumulative, children) == total.Plus(SumOf(cumulative, todo))
      {
        var c :| c in todo;
        SumRemove(cumulative, todo, c);
        PlusSwap(total, cumulative[c], SumOf(cumulative, todo - {c}));
        total := total.Plus(cumulative[c]);
        todo := todo - {c};
      }
    }

    /** The recursive walk over parent ids: every stored ancestor, once, nearest first. */
    method AncestorsOf(parent: Option<Id>) returns (ids: seq<Id>)
      requires Acyclic(ParentsOf(facts))
      ensures forall a :: a in ids <==> parent.Some? && Under(ParentsOf(facts), parent.value, a)
      ensures forall j, k :: 0 <= j < k < |ids| ==> ids[j] != ids[k]
      ensures forall k :: 0 <= k < |ids| ==> parent.Some? && Up(ParentsOf(facts), parent.value, k) == Some(ids[k])
    {
      ghost var p := ParentsOf(facts);
      ghost var seen: set<Id> := {};
      ids := [];
      var cursor := parent;
      while cursor.Some? && cursor.value in facts
        invariant ids != [] ==> parent.Some?
        invariant ids == [] ==> cursor == parent
        invariant forall k :: 0 <= k < |ids| ==> Up(p, parent.value, k) == Some(ids[k])
        invariant parent.Some? ==>
                    Up(p, parent.value, |ids|) == if cursor.Some? && cursor.value in p then cursor else None
        invariant forall a :: a in seen <==> a in ids
        decreases p.Keys - seen
      {
        forall k | 0 <= k < |ids|
          ensures ids[k] != cursor.value
        {
          UpCompose(p, parent.value, k, |ids| - k);
        }
        OneStep(p, parent.value, |ids|);
        ids, seen := ids + [cursor.value], seen + {cursor.value};
        cursor := facts[cursor.value].parent;
      }
      forall j, k | 0 <= j < k < |ids|
        ensures ids[j] != ids[k]
      {
        UpCompose(p, parent.value, j, k - j);
      }
      if parent.Some? {
        forall a | Under(p, parent.value, a)
          ensures a in ids
        {
          var n: nat :| Up(p, parent.value, n) == Some(a);
          if |ids| <= n {
            PrefixStored(p, parent.value, |ids|, n);
          }
        }
      }
    }

    /** Ingests one submitted span. Ancestor counters grow only when the span row is new. */
    method InsertSpan(span: Span, projectName: string) returns (event: Option<SpanInsertionEvent>)
      requires CountersExact(facts, cumulative) && SessionsStored(traces, sessions)
      requires span.spanId in facts || Acyclic(ParentsOf(facts[span.spanId := span.ToFact()]))
      modifies this
      ensures CountersExact(facts, cumulative) && SessionsStored(traces, sessions)
      ensures facts == if span.spanId in old(facts) then old(facts) else old(facts)[span.spanId := span.ToFact()]
      ensures old(WindowsExact(log, traces, sessions)) ==> WindowsExact(log, traces, sessions)
      ensures log == old(log) + [Submission(span, projectName)]
      ensures Windows(traces, sessions) == Touched(old(Windows(traces, sessions)), Submission(span, projectName))
      ensures event == if span.spanId in old(facts) then None
                       else Some(SpanInsertionEvent(traces[span.traceId].project, span.spanId, span.traceId))
    {
      var project := Touch(span, projectName);
      var below := SumOverChildren(span.spanId);
      var stored := InsertRow(span, span.Own().Plus(below));
      event := if stored then Some(SpanInsertionEvent(project, span.spanId, span.traceId)) else None;
    }

    /** Stores the row unless its span id is taken, then raises the counters of its ancestors. */
    method InsertRow(span: Span, total: Counts) returns (stored: bool)
      requires CountersExact(facts, cumulative)
      requires span.spanId in facts || Acyclic(ParentsOf(facts[span.spanId := span.ToFact()]))
      requires total == span.Own().Plus(SumOf(cumulative, Children(ParentsOf(facts), span.spanId)))
      modifies this`facts, this`cumulative
      ensures CountersExact(facts, cumulative)
      ensures stored == (span.spanId !in old(facts))
      ensures facts == if stored then old(facts)[span.spanId := span.ToFact()] else old(facts)
    {
      if span.spanId in facts {
        return false;
      }
      StoreAndRaise(span, total);
      InsertKeepsExact(old(facts), old(cumulative), span.spanId, span.ToFact(), total, cumulative);
      stored := true;
    }

    method StoreAndRaise(span: Span, total: Counts)
      requires span.spanId !in facts && Acyclic(ParentsOf(facts[span.spanId := span.ToFact()]))
      requires cumulative.Keys == facts.Keys
      modifies this`facts, this`cumulative
      ensures facts == old(facts)[span.spanId := span.ToFact()]
      ensures Raised(facts, span.spanId, total, old(cumulative), cumulative)
    {
      facts := facts[span.spanId := span.ToFact()];
      cumulative := cumulative[span.spanId := total];
      var ancestors := AncestorsOf(span.parentId);
      StrictlyAboveIsUnder(facts, span.spanId, span.spanId);
      RaiseAll(ancestors, total);
    }

    /** Adds `amount` to the counters of the listed rows, each row once. */
    method RaiseAll(ids: seq<Id>, amount: Counts)
      modifies this`cumulative
      ensures cumulative.Keys == old(cumulative.Keys)
      ensures forall a :: a in cumulative ==>
                cumulative[a] == if a in ids then old(cumulative)[a].Plus(amount) else old(cumulative)[a]
    {
      cumulative := map a | a in cumulative :: if a in ids then cumulative[a].Plus(amount) else cumulative[a];
    }

    /** Ingests a batch in order, as the bulk inserter does with the spans it has dequeued. */
    method InsertAll(batch: seq<Submission>)
      requires CountersExact(facts, cumulative) && SessionsStored(traces, sessions)
      requires Acyclic(ParentsOf(FactsFrom(facts, batch)))
      modifies this
      ensures CountersExact(facts, cumulative) && SessionsStored(traces, sessions)
      ensures facts == FactsFrom(old(facts), batch) && log == old(log) + batch
      ensures Windows(traces, sessions) == TouchedByAll(old(Windows(traces, sessions)), batch)
      ensures old(WindowsExact(log, traces, sessions)) ==> WindowsExact(log, traces, sessions)
    {
      BatchStarts(facts, log, Windows(traces, sessions), batch);
      for i := 0 to |batch|
        invariant CountersExact(facts, cumulative) && SessionsStored(traces, sessions)
        invariant BatchDone(old(facts), old(log), old(Windows(traces, sessions)), batch, i,
                            facts, log, Windows(traces, sessions))
      {
        StepIsAcyclic(facts, batch[i..]);
        OneMoreDone(old(facts), old(log), old(Windows(traces, sessions)), batch, i,
                    facts, log, Windows(traces, sessions));
        var event := InsertSpan(batch[i].span, batch[i].projectName);
      }
      BatchEnds(old(facts), old(log), old(Windows(traces, sessions)), batch, facts, log, Windows(traces, sessions));
      if old(WindowsExact(log, traces, sessions)) {
        BatchKeepsWindows(old(log), old(Windows(traces, sessions)), batch);
      }
    }

    /** Deletes one span row, and its trace row when no other span of the trace is left. The
        ancestors' counters are lowered only when the trace row stays. */
    method DeleteSpan(spanId: Id) returns (found: bool)
      requires CountersExact(facts, cumulative) && SessionsStored(traces, sessions)
      modifies this`facts, this`cumulative, this`traces
      ensures SessionsStored(traces, sessions)
      ensures found == (spanId in old(facts))
      ensures facts == old(facts) - {spanId}
      ensures found ==> (CountersExact(facts, cumulative) <==> CanDelete(old(facts), spanId))
      ensures !found ==> cumulative == old(cumulative) && traces == old(traces)
      ensures found ==> traces == if EmptiesTrace(old(facts), spanId) then old(traces) - {old(facts)[spanId].traceId}
                                  else old(traces)
    {
      if spanId !in facts {
        assert facts - {spanId} == facts;
        return false;
      }
      var target := facts[spanId];
      var traceIsEmpty := RemoveRow(spanId);
      if traceIsEmpty {
        traces := traces - {target.traceId};
      }
      DeleteExactness(old(facts), old(cumulative), spanId, cumulative);
      found := true;
    }

    method RemoveRow(spanId: Id) returns (traceIsEmpty: bool)
      requires spanId in facts && Acyclic(ParentsOf(facts)) && cumulative.Keys == facts.Keys
      modifies this`facts, this`cumulative
      ensures facts == old(facts) - {spanId}
      ensures traceIsEmpty == EmptiesTrace(old(facts), spanId)
      ensures Lowered(old(facts), spanId, old(cumulative), cumulative)
    {
      var target, total := facts[spanId], cumulative[spanId];
      facts, cumulative := facts - {spanId}, cumulative - {spanId};
      AcyclicPart(ParentsOf(facts), ParentsOf(old(facts)));
      assert forall id :: id in old(facts) && id != spanId ==> id in facts && facts[id] == old(facts)[id];
      traceIsEmpty := !exists id :: id in facts && facts[id].traceId == target.traceId;
      if !traceIsEmpty && target.parent.Some? {
        var ancestors := AncestorsOf(target.parent);
        RaiseAll(ancestors, ZERO.Minus(total));
      }
      forall a
        ensures StrictlyAbove(old(facts), spanId, a)
           <==> target.parent.Some? && Under(ParentsOf(facts), target.parent.value, a)
      {
        WalkAfterRemoval(old(facts), spanId, a);
      }
    }
  }
}
