/** The ingest of the Anvesha server: one request inserts its spans one by one and commits at the end,
    or fails and leaves the database as it was. */
module AnveshaIngest {
  import opened Wrappers
  import opened Finite
  import Text

  datatype Span = Span(traceId: string, spanId: string, startTime: int, endTime: int, sessionAttribute: Option<string>)
  {
    function SessionId(): string {
      if sessionAttribute.Some? then Text.Strip(sessionAttribute.value) else ""
    }
  }

  /** A session is identified by its project and its session id. */
  type SessionKey = (string, string)

  datatype SessionRow = SessionRow(startTime: int, endTime: int)

  datatype TraceRow = TraceRow(project: string, session: Option<SessionKey>, startTime: int, endTime: int)

  datatype SpanRow = SpanRow(traceId: string, spanId: string, startTime: int, endTime: int)

  datatype Db = Db(projects: set<string>, sessions: map<SessionKey, SessionRow>, traces: map<string, TraceRow>,
                   spans: seq<SpanRow>)

  const EMPTY_DB := Db({}, map[], map[], [])

  // ---------------------------------------------------------------- one span, on values

  predicate IsStored(db: Db, span: Span)
  {
    exists i :: 0 <= i < |db.spans| && db.spans[i].traceId == span.traceId && db.spans[i].spanId == span.spanId
  }

  /** The span's trace, created if need be and widened to the span. */
  function WidenedTrace(db: Db, span: Span, project: string): TraceRow
  {
    if span.traceId in db.traces then
      var t := db.traces[span.traceId];
      t.(startTime := Min(t.startTime, span.startTime), endTime := Max(t.endTime, span.endTime))
    else TraceRow(project, None, span.startTime, span.endTime)
  }

  /** The session the trace belongs to once the span's session id is taken into account; the outer
      `None` where the ids conflict. */
  function SessionFor(trace: TraceRow, sessionId: string): Option<Option<SessionKey>>
  {
    if sessionId == "" then Some(trace.session)
    else if trace.session.None? then Some(Some((trace.project, sessionId)))
    else if trace.session.value.1 != sessionId then None
    else Some(trace.session)
  }

  function WidenedSessions(sessions: map<SessionKey, SessionRow>, key: SessionKey,
                           trace: TraceRow): map<SessionKey, SessionRow>
  {
    if key !in sessions then sessions[key := SessionRow(trace.startTime, trace.endTime)]
    else
      var s := sessions[key];
      sessions[key := SessionRow(Min(s.startTime, trace.startTime), Max(s.endTime, trace.endTime))]
  }

  /** `insert_span` on values; `None` where it raises. */
  function Insert(db: Db, span: Span, project: string): Option<Db>
  {
    if IsStored(db, span) then Some(db)
    else
      var trace := WidenedTrace(db, span, project);
      var session := SessionFor(trace, span.SessionId());
      if session.None? then None
      else
        Some(Db(
          if span.traceId in db.traces then db.projects else db.projects + {project},
          if span.SessionId() == "" then db.sessions else WidenedSessions(db.sessions, session.value.value, trace),
          db.traces[span.traceId := trace.(session := session.value)],
          db.spans + [SpanRow(span.traceId, span.spanId, span.startTime, span.endTime)]))
  }

  /** A new span with a session id whose trace already has a session of another id. */
  predicate Conflicts(db: Db, span: Span)
  {
    && !IsStored(db, span) && span.SessionId() != "" && span.traceId in db.traces
    && OtherSession(db.traces[span.traceId], span.SessionId())
  }

  predicate OtherSession(trace: TraceRow, sessionId: string)
  {
    trace.session.Some? && trace.session.value.1 != sessionId
  }

  /** An insertion fails exactly when the session ids conflict. */
  lemma InsertFailsExactly(db: Db, span: Span, project: string)
    ensures Insert(db, span, project).None? <==> Conflicts(db, span)
  {
    if IsStored(db, span) {
    } else if span.traceId in db.traces {
      assert WidenedTrace(db, span, project).session == db.traces[span.traceId].session;
    } else {
      assert WidenedTrace(db, span, project).session == None;
    }
  }

  // ---------------------------------------------------------------- one request, on values

  /** What decoding a span of a request yields. */
  datatype Decoded = Undecodable | Decoded(span: Span)

  datatype ResourceSpans = ResourceSpans(project: string, scopes: seq<seq<Decoded>>)

  function InsertDecoded(db: Option<Db>, d: Decoded, project: string): Option<Db>
  {
    if db.None? || d.Undecodable? then None else Insert(db.value, d.span, project)
  }

  function InsertScope(db: Option<Db>, spans: seq<Decoded>, project: string): Option<Db>
  {
    if spans == [] then db
    else InsertDecoded(InsertScope(db, spans[..|spans| - 1], project), spans[|spans| - 1], project)
  }

  function InsertScopes(db: Option<Db>, scopes: seq<seq<Decoded>>, project: string): Option<Db>
  {
    if scopes == [] then db
    else InsertScope(InsertScopes(db, scopes[..|scopes| - 1], project), scopes[|scopes| - 1], project)
  }

  function InsertAll(db: Option<Db>, request: seq<ResourceSpans>): Option<Db>
  {
    if request == [] then db
    else
      var last := request[|request| - 1];
      InsertScopes(InsertAll(db, request[..|request| - 1]), last.scopes, last.project)
  }

  /** The database after a request: all of it or nothing. */
  function Ingest(db: Db, request: seq<ResourceSpans>): Db
  {
    var after := InsertAll(Some(db), request);
    if after.Some? then after.value else db
  }

  // ---------------------------------------------------------------- the steps

  class Server {
    // The committed tables.
    var committed: Db

    // The tables as the open transaction sees them.
    var projects: set<string>
    var sessions: map<SessionKey, SessionRow>
    var traces: map<string, TraceRow>
    var spans: seq<SpanRow>

    function Seen(): Db
      reads this
    {
      Db(projects, sessions, traces, spans)
    }

    constructor ()
      ensures committed == EMPTY_DB && Seen() == EMPTY_DB
    {
      committed := EMPTY_DB;
      projects, sessions, traces, spans := {}, map[], map[], [];
    }

    method Begin()
      modifies this`projects, this`sessions, this`traces, this`spans
      ensures Seen() == committed
    {
      projects, sessions, traces, spans := committed.projects, committed.sessions, committed.traces, committed.spans;
    }

    method GetOrCreateTrace(traceId: string, project: string, startTime: int, endTime: int) returns (trace: TraceRow)
      modifies this`projects, this`traces
      ensures traceId in old(traces) ==> projects == old(projects) && traces == old(traces) && trace == traces[traceId]
      ensures traceId !in old(traces) ==>
                && trace == TraceRow(project, None, startTime, endTime)
                && projects == old(projects) + {project} && traces == old(traces)[traceId := trace]
    {
      if traceId in traces {
        return traces[traceId];
      }
      if project !in projects {
        projects := projects + {project};
      }
      trace := TraceRow(project, None, startTime, endTime);
      traces := traces[traceId := trace];
    }

    /** The session of the trace, looked up or created; `None` where the ids conflict. */
    method GetOrCreateSession(trace: TraceRow, sessionId: string) returns (key: Option<SessionKey>)
      requires sessionId != ""
      requires trace.session.Some? ==> trace.session.value in sessions
      modifies this`sessions
      ensures key.None? <==> OtherSession(trace, sessionId)
      ensures key.Some? ==> key == if trace.session.Some? then trace.session else Some((trace.project, sessionId))
      ensures sessions == if key.Some? && key.value !in old(sessions)
                          then old(sessions)[key.value := SessionRow(trace.startTime, trace.endTime)] else old(sessions)
    {
      if trace.session.Some? {
        if trace.session.value.1 != sessionId {
          return None;
        }
        return trace.session;
      }
      var own := (trace.project, sessionId);
      if own !in sessions {
        sessions := sessions[own := SessionRow(trace.startTime, trace.endTime)];
      }
      key := Some(own);
    }

    /** Finds or creates the session and widens it to the trace. */
    method AttachSession(trace: TraceRow, sessionId: string) returns (key: Option<SessionKey>)
      requires sessionId != ""
      requires trace.session.Some? ==> trace.session.value in sessions
      modifies this`sessions
      ensures key.None? <==> OtherSession(trace, sessionId)
      ensures key.Some? ==> key == if trace.session.Some? then trace.session else Some((trace.project, sessionId))
      ensures sessions == if key.Some? then WidenedSessions(old(sessions), key.value, trace) else old(sessions)
    {
      key := GetOrCreateSession(trace, sessionId);
      if key.Some? {
        var session := sessions[key.value];
        if trace.startTime < session.startTime {
          session := session.(startTime := trace.startTime);
        }
        if session.endTime < trace.endTime {
          session := session.(endTime := trace.endTime);
        }
        sessions := sessions[key.value := session];
      }
    }

    method WidenTrace(span: Span, project: string) returns (trace: TraceRow)
      modifies this`projects, this`traces
      ensures trace == WidenedTrace(old(Seen()), span, project) && traces == old(traces)[span.traceId := trace]
      ensures projects == if span.traceId in old(traces) then old(projects) else old(projects) + {project}
    {
      trace := GetOrCreateTrace(span.traceId, project, span.startTime, span.endTime);
      if span.startTime < trace.startTime {
        trace := trace.(startTime := span.startTime);
      }
      if trace.endTime < span.endTime {
        trace := trace.(endTime := span.endTime);
      }
      traces := traces[span.traceId := trace];
    }

    method InsertSpan(span: Span, project: string) returns (ok: bool)
      requires SessionsExist(traces, sessions)
      modifies this`projects, this`sessions, this`traces, this`spans
      ensures ok <==> !Conflicts(old(Seen()), span)
      ensures ok ==> Insert(old(Seen()), span, project) == Some(Seen()) && SessionsExist(traces, sessions)
      ensures ok ==> spans == if exists s :: s in old(spans) && s.traceId == span.traceId && s.spanId == span.spanId
                              then old(spans)
                              else old(spans) + [SpanRow(span.traceId, span.spanId, span.startTime, span.endTime)]
    {
      InsertFailsExactly(Seen(), span, project);
      if exists i :: 0 <= i < |spans| && spans[i].traceId == span.traceId && spans[i].spanId == span.spanId {
        return true;
      }
      ok := InsertNew(span, project);
    }

    /** A span that is not stored yet: its trace, its session, and its row. */
    method InsertNew(span: Span, project: string) returns (ok: bool)
      requires SessionsExist(traces, sessions) && !IsStored(Seen(), span)
      modifies this`projects, this`sessions, this`traces, this`spans
      ensures ok <==> Insert(old(Seen()), span, project).Some?
      ensures ok ==> Insert(old(Seen()), span, project) == Some(Seen()) && SessionsExist(traces, sessions)
    {
      var trace := WidenTrace(span, project);
      if span.SessionId() != "" {
        var key := AttachSession(trace, span.SessionId());
        if key.None? {
          return false;
        }
        trace := trace.(session := key);
        traces := traces[span.traceId := trace];
      }
      spans := spans + [SpanRow(span.traceId, span.spanId, span.startTime, span.endTime)];
      assert traces == old(traces)[span.traceId := trace];
      ok := true;
    }

    /** One span of a request: it is inserted if it can be decoded. */
    method PostSpan(d: Decoded, project: string) returns (ok: bool)
      requires SessionsExist(traces, sessions)
      modifies this`projects, this`sessions, this`traces, this`spans
      ensures ok <==> InsertDecoded(Some(old(Seen())), d, project).Some?
      ensures ok ==> InsertDecoded(Some(old(Seen())), d, project) == Some(Seen()) && SessionsExist(traces, sessions)
    {
      ok := false;
      if d.Decoded? {
        InsertFailsExactly(Seen(), d.span, project);
        ok := InsertSpan(d.span, project);
      }
    }

    method PostScope(scope: seq<Decoded>, project: string) returns (ok: bool)
      requires SessionsExist(traces, sessions)
      modifies this`projects, this`sessions, this`traces, this`spans
      ensures ok <==> InsertScope(Some(old(Seen())), scope, project).Some?
      ensures ok ==> InsertScope(Some(old(Seen())), scope, project) == Some(Seen()) && SessionsExist(traces, sessions)
    {
      ghost var start := Some(Seen());
      for k := 0 to |scope|
        invariant InsertScope(start, scope[..k], project) == Some(Seen()) && SessionsExist(traces, sessions)
      {
        assert scope[..k + 1][..k] == scope[..k];
        ok := PostSpan(scope[k], project);
        if !ok {
          FailedScope(start, scope, project, k + 1);
          return;
        }
      }
      assert scope[..|scope|] == scope;
      ok := true;
    }

    method PostResource(resource: ResourceSpans) returns (ok: bool)
      requires SessionsExist(traces, sessions)
      modifies this`projects, this`sessions, this`traces, this`spans
      ensures ok <==> InsertScopes(Some(old(Seen())), resource.scopes, resource.project).Some?
      ensures ok ==> InsertScopes(Some(old(Seen())), resource.scopes, resource.project) == Some(Seen())
                     && SessionsExist(traces, sessions)
    {
      ghost var start := Some(Seen());
      for j := 0 to |resource.scopes|
        invariant InsertScopes(start, resource.scopes[..j], resource.project) == Some(Seen())
                  && SessionsExist(traces, sessions)
      {
        assert resource.scopes[..j + 1][..j] == resource.scopes[..j];
        ok := PostScope(resource.scopes[j], resource.project);
        if !ok {
          FailedScopes(start, resource.scopes, resource.project, j + 1);
          return;
        }
      }
      assert resource.scopes[..|resource.scopes|] == resource.scopes;
      ok := true;
    }

    /** `post_traces`: commits after the last span, or gives up at the first error. */
    method PostTraces(request: seq<ResourceSpans>) returns (ok: bool)
      requires SessionsExist(committed.traces, committed.sessions)
      modifies this
      ensures ok <==> !IsRefused(old(committed), ItemsOf(request))
      ensures committed == Ingest(old(committed), request) && (!ok ==> committed == old(committed))
      ensures SessionsExist(committed.traces, committed.sessions)
    {
      RefusedExactly(committed, request);
      Begin();
      ghost var start := Some(Seen());
      for i := 0 to |request|
        invariant committed == old(committed)
        invariant InsertAll(start, request[..i]) == Some(Seen()) && SessionsExist(traces, sessions)
      {
        assert request[..i + 1][..i] == request[..i];
        ok := PostResource(request[i]);
        if !ok {
          FailedRequest(start, request, i + 1);
          return;
        }
      }
      assert request[..|request|] == request;
      committed := Seen();
      ok := true;
    }
  }

  predicate SessionsExist(traces: map<string, TraceRow>, sessions: map<SessionKey, SessionRow>)
  {
    forall t :: t in traces && traces[t].session.Some? ==> traces[t].session.value in sessions
  }

  lemma {:induction false} FailedScope(db: Option<Db>, spans: seq<Decoded>, project: string, k: nat)
    requires k <= |spans| && InsertScope(db, spans[..k], project).None?
    ensures InsertScope(db, spans, project).None?
    decreases |spans|
  {
    if k < |spans| {
      assert spans[..|spans| - 1][..k] == spans[..k];
      FailedScope(db, spans[..|spans| - 1], project, k);
    } else {
      assert spans[..k] == spans;
    }
  }

  lemma {:induction false} NoneStays(spans: seq<Decoded>, project: string)
    ensures InsertScope(None, spans, project).None?
    decreases |spans|
  {
    if spans != [] {
      NoneStays(spans[..|spans| - 1], project);
    }
  }

  lemma {:induction false} FailedScopes(db: Option<Db>, scopes: seq<seq<Decoded>>, project: string, j: nat)
    requires j <= |scopes| && InsertScopes(db, scopes[..j], project).None?
    ensures InsertScopes(db, scopes, project).None?
    decreases |scopes|
  {
    if j < |scopes| {
      assert scopes[..|scopes| - 1][..j] == scopes[..j];
      FailedScopes(db, scopes[..|scopes| - 1], project, j);
      NoneStays(scopes[|scopes| - 1], project);
    } else {
      assert scopes[..j] == scopes;
    }
  }

  lemma {:induction false} NoneStaysScopes(scopes: seq<seq<Decoded>>, project: string)
    ensures InsertScopes(None, scopes, project).None?
    decreases |scopes|
  {
    if scopes != [] {
      NoneStaysScopes(scopes[..|scopes| - 1], project);
      NoneStays(scopes[|scopes| - 1], project);
    }
  }

  lemma {:induction false} FailedRequest(db: Option<Db>, request: seq<ResourceSpans>, i: nat)
    requires i <= |request| && InsertAll(db, request[..i]).None?
    ensures InsertAll(db, request).None?
    decreases |request|
  {
    if i < |request| {
      assert request[..|request| - 1][..i] == request[..i];
      FailedRequest(db, request[..|request| - 1], i);
      NoneStaysScopes(request[|request| - 1].scopes, request[|request| - 1].project);
    } else {
      assert request[..i] == request;
    }
  }

  // ---------------------------------------------------------------- replaying a request

  ghost predicate Keeps(db: Db, after: Db)
  {
    db.spans <= after.spans
  }

  lemma InsertStores(db: Db, span: Span, project: string)
    requires Insert(db, span, project).Some?
    ensures IsStored(Insert(db, span, project).value, span) && Keeps(db, Insert(db, span, project).value)
  {
    if !IsStored(db, span) {
      var after := Insert(db, span, project).value;
      assert after.spans[|db.spans|].traceId == span.traceId;
    }
  }

  lemma StoredStays(db: Db, after: Db, span: Span)
    requires IsStored(db, span) && Keeps(db, after)
    ensures IsStored(after, span)
  {
    var i :| 0 <= i < |db.spans| && db.spans[i].traceId == span.traceId && db.spans[i].spanId == span.spanId;
    assert after.spans[i] == db.spans[i];
  }

  // ---------------------------------------------------------------- a request as one list

  /** A span of a request, and the project it is for. */
  type Item = (Decoded, string)

  function InsertEach(db: Option<Db>, items: seq<Item>): Option<Db>
  {
    if items == [] then db
    else
      var last := items[|items| - 1];
      InsertDecoded(InsertEach(db, items[..|items| - 1]), last.0, last.1)
  }

  function ItemsOfScope(spans: seq<Decoded>, project: string): seq<Item>
  {
    if spans == [] then [] else ItemsOfScope(spans[..|spans| - 1], project) + [(spans[|spans| - 1], project)]
  }

  function ItemsOfScopes(scopes: seq<seq<Decoded>>, project: string): seq<Item>
  {
    if scopes == [] then []
    else ItemsOfScopes(scopes[..|scopes| - 1], project) + ItemsOfScope(scopes[|scopes| - 1], project)
  }

  /** The spans of a request in the order of the nested loops. */
  function ItemsOf(request: seq<ResourceSpans>): seq<Item>
  {
    if request == [] then []
    else
      var last := request[|request| - 1];
      ItemsOf(request[..|request| - 1]) + ItemsOfScopes(last.scopes, last.project)
  }

  lemma {:induction false} InsertEachConcat(db: Option<Db>, xs: seq<Item>, ys: seq<Item>)
    ensures InsertEach(db, xs + ys) == InsertEach(InsertEach(db, xs), ys)
    decreases |ys|
  {
    if ys == [] {
      assert xs + ys == xs;
    } else {
      assert (xs + ys)[..|xs + ys| - 1] == xs + ys[..|ys| - 1];
      InsertEachConcat(db, xs, ys[..|ys| - 1]);
    }
  }

  lemma {:induction false} ScopeIsList(db: Option<Db>, spans: seq<Decoded>, project: string)
    ensures InsertScope(db, spans, project) == InsertEach(db, ItemsOfScope(spans, project))
    decreases |spans|
  {
    if spans != [] {
      ScopeIsList(db, spans[..|spans| - 1], project);
      var items := ItemsOfScope(spans, project);
      assert items[..|items| - 1] == ItemsOfScope(spans[..|spans| - 1], project);
    }
  }

  lemma {:induction false} ScopesAreList(db: Option<Db>, scopes: seq<seq<Decoded>>, project: string)
    ensures InsertScopes(db, scopes, project) == InsertEach(db, ItemsOfScopes(scopes, project))
    decreases |scopes|
  {
    if scopes != [] {
      var init, last := scopes[..|scopes| - 1], scopes[|scopes| - 1];
      ScopesAreList(db, init, project);
      ScopeIsList(InsertScopes(db, init, project), last, project);
      InsertEachConcat(db, ItemsOfScopes(init, project), ItemsOfScope(last, project));
    }
  }

  /** The nested loops insert the listed spans one after the other. */
  lemma {:induction false} RequestIsList(db: Option<Db>, request: seq<ResourceSpans>)
    ensures InsertAll(db, request) == InsertEach(db, ItemsOf(request))
    decreases |request|
  {
    if request != [] {
      var init, last := request[..|request| - 1], request[|request| - 1];
      RequestIsList(db, init);
      ScopesAreList(InsertAll(db, init), last.scopes, last.project);
      InsertEachConcat(db, ItemsOf(init), ItemsOfScopes(last.scopes, last.project));
    }
  }

  /** The list goes through the resources, their scopes and their spans in order. */
  lemma ItemsAreInOrder(request: seq<ResourceSpans>, resource: ResourceSpans, scope: seq<Decoded>, d: Decoded)
    ensures ItemsOf(request + [resource]) == ItemsOf(request) + ItemsOfScopes(resource.scopes, resource.project)
    ensures ItemsOfScopes(resource.scopes + [scope], resource.project)
         == ItemsOfScopes(resource.scopes, resource.project) + ItemsOfScope(scope, resource.project)
    ensures ItemsOfScope(scope + [d], resource.project)
            == ItemsOfScope(scope, resource.project) + [(d, resource.project)]
  {
    assert (request + [resource])[..|request|] == request;
    assert (resource.scopes + [scope])[..|resource.scopes|] == resource.scopes;
    assert (scope + [d])[..|scope|] == scope;
  }

  /** The `k`-th span cannot be decoded, or conflicts with what the ones before it have left. */
  ghost predicate RefusedAt(db: Db, items: seq<Item>, k: nat)
  {
    && k < |items| && InsertEach(Some(db), items[..k]).Some?
    && (items[k].0.Undecodable? || Conflicts(InsertEach(Some(db), items[..k]).value, items[k].0.span))
  }

  ghost predicate IsRefused(db: Db, items: seq<Item>)
  {
    exists k :: RefusedAt(db, items, k)
  }

  lemma RefusedBefore(db: Db, items: seq<Item>, k: nat)
    requires items != [] && k < |items| - 1
    ensures RefusedAt(db, items, k) <==> RefusedAt(db, items[..|items| - 1], k)
  {
    assert items[..|items| - 1][..k] == items[..k];
  }

  lemma LastRefused(db: Db, items: seq<Item>)
    requires items != [] && InsertEach(Some(db), items[..|items| - 1]).Some?
    ensures InsertEach(Some(db), items).None? <==> RefusedAt(db, items, |items| - 1)
  {
    var before, last := InsertEach(Some(db), items[..|items| - 1]).value, items[|items| - 1];
    if last.0.Decoded? {
      InsertFailsExactly(before, last.0.span, last.1);
    }
  }

  lemma {:induction false} EachFailsExactly(db: Db, items: seq<Item>)
    ensures InsertEach(Some(db), items).None? <==> IsRefused(db, items)
    decreases |items|
  {
    if items != [] {
      var init := items[..|items| - 1];
      EachFailsExactly(db, init);
      forall k: nat | k < |init|
        ensures RefusedAt(db, items, k) <==> RefusedAt(db, init, k)
      {
        RefusedBefore(db, items, k);
      }
      if InsertEach(Some(db), init).Some? {
        LastRefused(db, items);
      } else {
        var k :| RefusedAt(db, init, k);
        assert RefusedAt(db, items, k);
      }
    }
  }

  /** A request is refused exactly when one of its spans cannot be decoded or carries a session id that
      conflicts with what was stored before it or by the spans before it. */
  lemma RefusedExactly(db: Db, request: seq<ResourceSpans>)
    ensures InsertAll(Some(db), request).None? <==> IsRefused(db, ItemsOf(request))
  {
    RequestIsList(Some(db), request);
    EachFailsExactly(db, ItemsOf(request));
  }

  // ---------------------------------------------------------------- replaying a request

  /** Every listed span can be decoded and is stored already. */
  ghost predicate AllStored(db: Db, items: seq<Item>)
  {
    forall k :: 0 <= k < |items| ==> items[k].0.Decoded? && IsStored(db, items[k].0.span)
  }

  lemma AllStoredStays(db: Db, after: Db, items: seq<Item>)
    requires AllStored(db, items) && Keeps(db, after)
    ensures AllStored(after, items)
  {
    forall k | 0 <= k < |items|
      ensures items[k].0.Decoded? && IsStored(after, items[k].0.span)
    {
      StoredStays(db, after, items[k].0.span);
    }
  }

  lemma {:induction false} EachStores(db: Option<Db>, items: seq<Item>)
    requires InsertEach(db, items).Some?
    ensures db.Some? && Keeps(db.value, InsertEach(db, items).value) && AllStored(InsertEach(db, items).value, items)
    decreases |items|
  {
    if items != [] {
      var init, last := items[..|items| - 1], items[|items| - 1];
      EachStores(db, init);
      var mid, after := InsertEach(db, init).value, InsertEach(db, items).value;
      InsertStores(mid, last.0.span, last.1);
      AllStoredStays(mid, after, init);
      assert items == init + [last];
    }
  }

  lemma {:induction false} StoredAreNoop(db: Db, items: seq<Item>)
    requires AllStored(db, items)
    ensures InsertEach(Some(db), items) == Some(db)
    decreases |items|
  {
    if items != [] {
      StoredAreNoop(db, items[..|items| - 1]);
    }
  }

  /** Sending a request again changes nothing, from any state of the database. */
  lemma IngestIdempotent(db: Db, request: seq<ResourceSpans>)
    ensures Ingest(Ingest(db, request), request) == Ingest(db, request)
  {
    RequestIsList(Some(db), request);
    if InsertAll(Some(db), request).Some? {
      var after := Ingest(db, request);
      EachStores(Some(db), ItemsOf(request));
      StoredAreNoop(after, ItemsOf(request));
      RequestIsList(Some(after), request);
    }
  }

  /** The database after a sequence of requests, failed ones included. */
  function After(db: Db, requests: seq<seq<ResourceSpans>>): Db
  {
    if requests == [] then db else Ingest(After(db, requests[..|requests| - 1]), requests[|requests| - 1])
  }

  /** The session id is read without the space around it; there is none without the attribute. */
  lemma SessionIdRead(span: Span, left: string, id: string, right: string)
    requires Text.AllSpace(left) && Text.AllSpace(right) && Text.Trimmed(id)
    ensures span.sessionAttribute == None ==> span.SessionId() == ""
    ensures span.sessionAttribute == Some(left + id + right) ==> span.SessionId() == id
  {
    Text.StripBetween(left, id, right);
  }
}
