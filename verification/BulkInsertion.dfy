/** The bulk inserter: one consumer that pops queued spans and evaluations in rounds, and producers
    that may append whenever the consumer awaits something.

    Every suspension point of the consumer is a call of `Await`, which lets the producers do
    anything they are able to do; what is proved of a method therefore holds for every interleaving. */
module BulkInsertion {
  import opened Finite

  type Span = string
  type Evaluation = string
  type Operation = string

  /** Everything that went into and came out of the queues, in order. For each evaluation enqueued,
      `spansBefore` is the number of spans enqueued before it; for each evaluation popped,
      `spansPopped` is the number of spans popped before it. */
  datatype History = History(
    spansIn: seq<Span>, spansOut: seq<Span>,
    evaluationsIn: seq<Evaluation>, evaluationsOut: seq<Evaluation>,
    operationsIn: seq<Operation>, operationsOut: seq<Operation>,
    spansBefore: seq<nat>, spansPopped: seq<nat>)

  const NOTHING_YET := History([], [], [], [], [], [], [], [])

  /** Nothing is lost, duplicated or reordered: what was popped followed by what is queued is what
      was enqueued. */
  ghost predicate Conserved(h: History, spans: seq<Span>, evaluations: seq<Evaluation>, operations: seq<Operation>)
  {
    && h.spansOut + spans == h.spansIn
    && h.evaluationsOut + evaluations == h.evaluationsIn
    && h.operationsOut + operations == h.operationsIn
    && |h.spansBefore| == |h.evaluationsIn| && |h.spansPopped| == |h.evaluationsOut|
    && (forall k :: 0 <= k < |h.spansBefore| ==> h.spansBefore[k] <= |h.spansIn|)
    && (forall k :: 0 <= k < |h.spansPopped| ==> h.spansPopped[k] <= |h.spansOut|)
  }

  /** The producers may only have added to `h`. */
  ghost predicate Appended(h: History, after: History)
  {
    && h.spansIn <= after.spansIn && h.evaluationsIn <= after.evaluationsIn && h.operationsIn <= after.operationsIn
    && h.spansBefore <= after.spansBefore
    && h.spansOut == after.spansOut && h.evaluationsOut == after.evaluationsOut
    && h.operationsOut == after.operationsOut
    && h.spansPopped == after.spansPopped
  }

  /** As `Appended`, but spans may also have been popped. */
  ghost predicate AppendedButSpans(h: History, after: History)
  {
    h.spansOut <= after.spansOut && Appended(h, after.(spansOut := h.spansOut))
  }

  ghost predicate AppendedButEvaluations(h: History, after: History)
  {
    && h.evaluationsOut <= after.evaluationsOut && h.spansPopped <= after.spansPopped
    && Appended(h, after.(evaluationsOut := h.evaluationsOut, spansPopped := h.spansPopped))
  }

  ghost predicate AppendedButOperations(h: History, after: History)
  {
    h.operationsOut <= after.operationsOut && Appended(h, after.(operationsOut := h.operationsOut))
  }

  /** What had happened by `h` is how everything that has happened by `after` began. */
  ghost predicate Earlier(h: History, after: History)
  {
    && h.spansIn <= after.spansIn && h.evaluationsIn <= after.evaluationsIn && h.operationsIn <= after.operationsIn
    && h.spansOut <= after.spansOut && h.evaluationsOut <= after.evaluationsOut
    && h.operationsOut <= after.operationsOut
    && h.spansBefore <= after.spansBefore && h.spansPopped <= after.spansPopped
  }

  /** A round pops at most `maxOps` items of each kind, in order, and otherwise leaves what happened. */
  ghost predicate OnlyProgress(h: History, after: History, maxOps: nat)
  {
    && Earlier(h, after)
    && |after.spansOut| <= |h.spansOut| + maxOps
    && |after.evaluationsOut| <= |h.evaluationsOut| + maxOps
    && |after.operationsOut| <= |h.operationsOut| + maxOps
  }

  ghost predicate NothingIn(h: History, after: History)
  {
    h.spansIn == after.spansIn && h.evaluationsIn == after.evaluationsIn && h.operationsIn == after.operationsIn
  }

  /** How the `k`-th evaluation, popped in a round whose batch sizes were fixed at `at`, stands to the
      spans enqueued before it. */
  ghost predicate InOrder(h: History, k: nat, at: History, ready: bool, maxOps: nat)
  {
    && k < |h.spansBefore| && k < |h.spansPopped|
    && h.spansBefore[k] <= |at.spansIn|
    && (ready ==> Min(h.spansBefore[k], |at.spansOut| + maxOps) <= h.spansPopped[k])
    && (!ready ==> h.spansPopped[k] == |at.spansOut|)
  }

  /** The evaluations popped from `at` on, up to `next`, are in order. */
  ghost predicate AllInOrder(h: History, at: History, next: History, ready: bool, maxOps: nat)
  {
    forall k :: |at.evaluationsOut| <= k < |next.evaluationsOut| ==> InOrder(h, k, at, ready, maxOps)
  }

  /** Items only leave the queue, and some do if there are any. */
  ghost predicate Shrinks(before: seq<string>, after: seq<string>, maxOps: nat)
  {
    |after| == if |before| <= maxOps then 0 else |before| - maxOps
  }

  ghost function WithEvaluationPopped(h: History, evaluation: Evaluation): History
  {
    h.(evaluationsOut := h.evaluationsOut + [evaluation], spansPopped := h.spansPopped + [|h.spansOut|])
  }

  /** The evaluations popped since `h` were popped with no span popped in between. */
  ghost predicate PoppedAtOnce(h: History, after: History)
  {
    forall k :: |h.evaluationsOut| <= k < |after.spansPopped| ==> after.spansPopped[k] == |after.spansOut|
  }

  lemma EvaluationStep(start: History, before: History, popped: History, after: History)
    requires AppendedButEvaluations(start, before) && PoppedAtOnce(start, before)
    requires |before.evaluationsOut| == |before.spansPopped|
    requires exists e :: popped == WithEvaluationPopped(before, e)
    requires Appended(popped, after)
    ensures AppendedButEvaluations(start, after) && PoppedAtOnce(start, after)
    ensures |after.evaluationsOut| == |before.evaluationsOut| + 1
  {
  }

  lemma BatchProgress(atGrab: History, afterSpans: History, afterEvaluations: History, end: History, maxOps: nat)
    requires AppendedButSpans(atGrab, afterSpans) && |afterSpans.spansOut| <= |atGrab.spansOut| + maxOps
    requires AppendedButEvaluations(afterSpans, afterEvaluations)
    requires |afterEvaluations.evaluationsOut| <= |afterSpans.evaluationsOut| + maxOps
    requires Appended(afterEvaluations, end)
    ensures OnlyProgress(atGrab, end, maxOps) && atGrab.operationsOut == end.operationsOut
  {
  }

  /** The operations of a round only bring `at` about; the batches make progress from there. */
  lemma RoundProgress(start: History, at: History, end: History, maxOps: nat)
    requires AppendedButOperations(start, at) && |at.operationsOut| <= |start.operationsOut| + maxOps
    requires OnlyProgress(at, end, maxOps) && at.operationsOut == end.operationsOut
    ensures OnlyProgress(start, end, maxOps) && Earlier(start, at)
    ensures at.spansOut == start.spansOut && at.evaluationsOut == start.evaluationsOut
  {
  }

  lemma RoundOrder(at: History, afterSpans: History, afterEvaluations: History, end: History,
                   k: nat, batch: nat, ready: bool, maxOps: nat)
    requires AppendedButSpans(at, afterSpans) && AppendedButEvaluations(afterSpans, afterEvaluations)
    requires Appended(afterEvaluations, end)
    requires |at.evaluationsOut| <= k < |afterEvaluations.evaluationsOut| <= |at.evaluationsOut| + batch
    requires |at.evaluationsOut| + batch <= |at.spansBefore|
    requires |at.spansOut| <= |at.spansIn| && at.spansBefore[k] <= |at.spansIn|
    requires |afterSpans.spansOut| == |at.spansOut| + if ready then Min(maxOps, |at.spansIn| - |at.spansOut|) else 0
    requires |afterEvaluations.spansPopped| == |afterEvaluations.evaluationsOut|
    requires PoppedAtOnce(afterSpans, afterEvaluations)
    ensures InOrder(end, k, at, ready, maxOps)
  {
    assert end.spansBefore[k] == at.spansBefore[k];
  }

  lemma BatchOrder(at: History, afterSpans: History, afterEvaluations: History, end: History,
                   batch: nat, ready: bool, maxOps: nat)
    requires AppendedButSpans(at, afterSpans) && AppendedButEvaluations(afterSpans, afterEvaluations)
    requires Appended(afterEvaluations, end)
    requires |afterEvaluations.evaluationsOut| <= |at.evaluationsOut| + batch <= |at.spansBefore|
    requires |at.spansOut| <= |at.spansIn|
    requires forall k :: 0 <= k < |at.spansBefore| ==> at.spansBefore[k] <= |at.spansIn|
    requires |afterSpans.spansOut| == |at.spansOut| + if ready then Min(maxOps, |at.spansIn| - |at.spansOut|) else 0
    requires |afterEvaluations.spansPopped| == |afterEvaluations.evaluationsOut|
    requires PoppedAtOnce(afterSpans, afterEvaluations)
    ensures AllInOrder(end, at, end, ready, maxOps)
  {
    forall k | |at.evaluationsOut| <= k < |end.evaluationsOut|
      ensures InOrder(end, k, at, ready, maxOps)
    {
      RoundOrder(at, afterSpans, afterEvaluations, end, k, batch, ready, maxOps);
    }
  }

  /** What the order of a round comes to: a span that was enqueued before the evaluation, and was not
      beyond the first `maxOps` of the queue when the round's batch sizes were fixed, is among the spans
      popped before the evaluation; so all of them are, if the queue fitted in a batch. */
  lemma SpanIsOutFirst(h: History, spans: seq<Span>, evaluations: seq<Evaluation>, operations: seq<Operation>,
                       k: nat, at: History, maxOps: nat, j: nat)
    requires Conserved(h, spans, evaluations, operations) && k < |h.evaluationsOut|
    requires InOrder(h, k, at, true, maxOps)
    requires j < h.spansBefore[k] && (|at.spansIn| <= |at.spansOut| + maxOps || j < |at.spansOut| + maxOps)
    ensures j < h.spansPopped[k] <= |h.spansOut| && h.spansOut[..h.spansPopped[k]][j] == h.spansIn[j]
  {
    assert h.spansIn[j] == (h.spansOut + spans)[j];
  }

  // ---------------------------------------------------------------- any number of rounds

  /** One round: what had happened when its batch sizes were fixed, and whether the span session opened. */
  datatype Turn = Turn(at: History, ready: bool)

  ghost function NextAt(turns: seq<Turn>, i: nat, h: History): History
  {
    if i + 1 < |turns| then turns[i + 1].at else h
  }

  /** How much a turn pops: a batch of spans, or all there are, if the span session opens; and with
      sessions that always open and nothing unforeseen the same of evaluations. */
  ghost predicate Pops(at: History, next: History, ready: bool, reliable: bool, maxOps: nat)
  {
    && |next.spansOut| == |at.spansOut| + (if ready then Min(maxOps, |at.spansIn| - |at.spansOut|) else 0)
    && |next.evaluationsOut| <= |at.evaluationsOut| + maxOps
    && (reliable ==>
          && ready
          && |next.evaluationsOut| == |at.evaluationsOut| + Min(maxOps, |at.evaluationsIn| - |at.evaluationsOut|))
  }

  /** From one turn to the next a batch of each kind is popped, the evaluations in order. */
  ghost predicate IsTurn(turns: seq<Turn>, i: nat, h: History, reliable: bool, maxOps: nat)
    requires i < |turns|
  {
    var at, next := turns[i].at, NextAt(turns, i, h);
    && Earlier(at, next) && Earlier(next, h)
    && Pops(at, next, turns[i].ready, reliable, maxOps)
    && AllInOrder(h, at, next, turns[i].ready, maxOps)
  }

  /** Everything popped from the span and evaluation queues since `start` was popped in these turns. */
  ghost predicate AreTurns(start: History, turns: seq<Turn>, h: History, reliable: bool, maxOps: nat)
  {
    var first := if turns == [] then h else turns[0].at;
    && Earlier(start, h) && first.spansOut == start.spansOut && first.evaluationsOut == start.evaluationsOut
    && forall i :: 0 <= i < |turns| ==> IsTurn(turns, i, h, reliable, maxOps)
  }

  ghost predicate NothingQueued(h: History)
  {
    h.spansOut == h.spansIn && h.evaluationsOut == h.evaluationsIn && h.operationsOut == h.operationsIn
  }

  /** Each of these moments lies between `start` and `h`, and nothing was queued then. */
  ghost predicate AreSleeps(start: History, sleeps: seq<History>, h: History)
  {
    forall i :: 0 <= i < |sleeps| ==> Earlier(start, sleeps[i]) && Earlier(sleeps[i], h) && NothingQueued(sleeps[i])
  }

  /** At least what was queued at the start has come out by `h`, or `most` items have. */
  ghost predicate ComesOut(start: History, h: History, most: nat)
  {
    && Min(|start.spansIn|, |start.spansOut| + most) <= |h.spansOut|
    && Min(|start.evaluationsIn|, |start.evaluationsOut| + most) <= |h.evaluationsOut|
    && Min(|start.operationsIn|, |start.operationsOut| + most) <= |h.operationsOut|
  }

  lemma SleepsLater(start: History, sleeps: seq<History>, h: History, after: History)
    requires AreSleeps(start, sleeps, h) && Earlier(h, after)
    ensures AreSleeps(start, sleeps, after)
  {
    forall i | 0 <= i < |sleeps|
      ensures Earlier(sleeps[i], after)
    {
      EarlierStill(sleeps[i], h, after);
    }
  }

  /** Once nothing is queued, everything has come out. */
  lemma AllOut(start: History, h: History, most: nat)
    requires Earlier(start, h) && NothingQueued(h)
    ensures ComesOut(start, h, most)
  {
  }

  lemma Drained(h: History)
    requires Conserved(h, [], [], [])
    ensures NothingQueued(h)
  {
    assert h.spansOut + [] == h.spansOut && h.evaluationsOut + [] == h.evaluationsOut;
    assert h.operationsOut + [] == h.operationsOut;
  }

  lemma LimitReached(start: History, h: History, done: nat, limit: nat, maxOps: nat)
    requires Earlier(start, h) && ComesOut(start, h, done * maxOps) && (done == limit || NothingQueued(h))
    ensures ComesOut(start, h, limit * maxOps)
  {
    if done != limit {
      AllOut(start, h, limit * maxOps);
    }
  }

  /** Before the first iteration. */
  lemma NoTurns(start: History, reliable: bool, maxOps: nat)
    ensures AreTurns(start, [], start, reliable, maxOps) && AreSleeps(start, [], start)
    ensures ComesOut(start, start, 0 * maxOps)
  {
    assert 0 * maxOps == 0;
  }

  /** Another round brings out another batch. */
  lemma ComesOutMore(start: History, h: History, at: History, after: History, most: nat, maxOps: nat)
    requires ComesOut(start, h, most) && Earlier(start, h) && Earlier(h, at) && Earlier(at, after)
    requires at.spansOut == h.spansOut && at.evaluationsOut == h.evaluationsOut
    requires Pops(at, after, true, true, maxOps)
    requires Min(|h.operationsIn|, |h.operationsOut| + maxOps) <= |after.operationsOut|
    ensures ComesOut(start, after, most + maxOps)
  {
  }

  lemma OneMoreSleep(start: History, turns: seq<Turn>, sleeps: seq<History>, h: History, after: History, reliable: bool,
                     maxOps: nat)
    requires AreTurns(start, turns, h, reliable, maxOps) && AreSleeps(start, sleeps, h)
    requires NothingQueued(h) && Appended(h, after)
    ensures AreTurns(start, turns, after, reliable, maxOps) && AreSleeps(start, sleeps + [h], after)
  {
    TurnsLater(start, turns, h, after, reliable, maxOps);
    SleepsLater(start, sleeps, h, after);
  }

  lemma TurnTaken(start: History, turns: seq<Turn>, sleeps: seq<History>, h: History, more: Turn, after: History,
                  reliable: bool, maxOps: nat, most: nat)
    requires AreTurns(start, turns, h, reliable, maxOps) && AreSleeps(start, sleeps, h)
    requires Earlier(h, more.at) && Earlier(more.at, after)
    requires more.at.spansOut == h.spansOut && more.at.evaluationsOut == h.evaluationsOut
    requires Pops(more.at, after, more.ready, reliable, maxOps)
    requires AllInOrder(after, more.at, after, more.ready, maxOps)
    requires reliable ==> ComesOut(start, h, most)
    requires reliable ==> Min(|h.operationsIn|, |h.operationsOut| + maxOps) <= |after.operationsOut|
    ensures AreTurns(start, turns + [more], after, reliable, maxOps) && AreSleeps(start, sleeps, after)
    ensures reliable ==> ComesOut(start, after, most + maxOps)
  {
    EarlierStill(h, more.at, after);
    SleepsLater(start, sleeps, h, after);
    if reliable {
      ComesOutMore(start, h, more.at, after, most, maxOps);
    }
    OneMoreTurn(start, turns, h, more, after, reliable, maxOps);
  }

  lemma OneBatchMore(done: nat, maxOps: nat)
    ensures (done + 1) * maxOps == done * maxOps + maxOps
  {
  }

  lemma InOrderLater(h: History, after: History, at: History, next: History, ready: bool, maxOps: nat)
    requires AllInOrder(h, at, next, ready, maxOps) && Earlier(h, after)
    ensures AllInOrder(after, at, next, ready, maxOps)
  {
    forall k | |at.evaluationsOut| <= k < |next.evaluationsOut|
      ensures InOrder(after, k, at, ready, maxOps)
    {
      assert InOrder(h, k, at, ready, maxOps);
    }
  }

  lemma EarlierStill(h: History, later: History, after: History)
    requires Earlier(h, later) && Earlier(later, after)
    ensures Earlier(h, after)
  {
  }

  /** While no span and no evaluation is popped the turns stay what they are. */
  lemma TurnsLater(start: History, turns: seq<Turn>, h: History, after: History, reliable: bool, maxOps: nat)
    requires AreTurns(start, turns, h, reliable, maxOps) && Earlier(h, after)
    requires h.spansOut == after.spansOut && h.evaluationsOut == after.evaluationsOut
    ensures AreTurns(start, turns, after, reliable, maxOps)
  {
    EarlierStill(start, h, after);
    forall i | 0 <= i < |turns|
      ensures IsTurn(turns, i, after, reliable, maxOps)
    {
      var next := NextAt(turns, i, after);
      assert IsTurn(turns, i, h, reliable, maxOps);
      EarlierStill(turns[i].at, NextAt(turns, i, h), next);
      EarlierStill(NextAt(turns, i, h), h, after);
      InOrderLater(h, after, turns[i].at, NextAt(turns, i, h), turns[i].ready, maxOps);
    }
  }

  /** The turns before the last end where they ended before. */
  lemma TurnBefore(turns: seq<Turn>, more: Turn, i: nat, h: History, after: History, reliable: bool, maxOps: nat)
    requires i < |turns| && IsTurn(turns, i, h, reliable, maxOps) && Earlier(h, more.at) && Earlier(more.at, after)
    requires more.at.spansOut == h.spansOut && more.at.evaluationsOut == h.evaluationsOut
    ensures IsTurn(turns + [more], i, after, reliable, maxOps)
  {
    var at, last := turns[i].at, NextAt(turns, i, h);
    EarlierStill(h, more.at, after);
    EarlierStill(last, h, after);
    EarlierStill(last, h, more.at);
    EarlierStill(at, last, more.at);
    InOrderLater(h, after, at, last, turns[i].ready, maxOps);
  }

  lemma OneMoreTurn(start: History, turns: seq<Turn>, h: History, more: Turn, after: History, reliable: bool,
                    maxOps: nat)
    requires AreTurns(start, turns, h, reliable, maxOps) && Earlier(h, more.at) && Earlier(more.at, after)
    requires more.at.spansOut == h.spansOut && more.at.evaluationsOut == h.evaluationsOut
    requires Pops(more.at, after, more.ready, reliable, maxOps)
    requires AllInOrder(after, more.at, after, more.ready, maxOps)
    ensures AreTurns(start, turns + [more], after, reliable, maxOps)
  {
    EarlierStill(start, h, more.at);
    EarlierStill(start, more.at, after);
    forall i | 0 <= i < |turns|
      ensures IsTurn(turns + [more], i, after, reliable, maxOps)
    {
      TurnBefore(turns, more, i, h, after, reliable, maxOps);
    }
    assert IsTurn(turns + [more], |turns|, after, reliable, maxOps);
  }

  /** Every evaluation popped belongs to one of the turns, and is in order there. */
  lemma {:induction false} EveryEvaluationHasATurn(start: History, turns: seq<Turn>, h: History, reliable: bool,
                                                   maxOps: nat, k: nat) returns (i: nat)
    requires AreTurns(start, turns, h, reliable, maxOps) && |start.evaluationsOut| <= k < |h.evaluationsOut|
    ensures i < |turns| && |turns[i].at.evaluationsOut| <= k < |NextAt(turns, i, h).evaluationsOut|
    ensures InOrder(h, k, turns[i].at, turns[i].ready, maxOps)
  {
    i := 0;
    while i + 1 < |turns| && |turns[i + 1].at.evaluationsOut| <= k
      invariant i < |turns| && |turns[i].at.evaluationsOut| <= k
    {
      i := i + 1;
    }
    assert IsTurn(turns, i, h, reliable, maxOps);
  }

  class BulkInserter {
    const maxOps: nat
    const maxQueue: nat

    var running: bool
    var spans: seq<Span>
    var evaluations: seq<Evaluation>
    var operations: seq<Operation>

    // What the environment does: whether producers are still active, and whether the database always
    // opens a session and never fails in an unforeseen way.
    var producing: bool
    const reliable: bool

    ghost var history: History

    ghost predicate Valid()
      reads this
    {
      Conserved(history, spans, evaluations, operations) && (0 < maxQueue ==> |operations| <= maxQueue)
    }

    constructor (maxOps: nat, maxQueue: nat, reliable: bool)
      ensures Valid() && history == NOTHING_YET && running && producing
      ensures this.maxOps == maxOps && this.maxQueue == maxQueue && this.reliable == reliable
    {
      this.maxOps, this.maxQueue, this.reliable := maxOps, maxQueue, reliable;
      running, producing := true, true;
      spans, evaluations, operations, history := [], [], [], NOTHING_YET;
    }

    method EnqueueSpan(span: Span)
      requires Valid()
      modifies this`spans, this`history
      ensures Valid() && spans == old(spans) + [span] && Appended(old(history), history)
      ensures history.spansIn == old(history).spansIn + [span]
    {
      spans := spans + [span];
      history := history.(spansIn := history.spansIn + [span]);
    }

    method EnqueueEvaluation(evaluation: Evaluation)
      requires Valid()
      modifies this`evaluations, this`history
      ensures Valid() && evaluations == old(evaluations) + [evaluation] && Appended(old(history), history)
      ensures history.evaluationsIn == old(history).evaluationsIn + [evaluation]
      ensures history.spansBefore == old(history).spansBefore + [|old(history).spansIn|]
    {
      evaluations := evaluations + [evaluation];
      history := history.(evaluationsIn := history.evaluationsIn + [evaluation],
                          spansBefore := history.spansBefore + [|history.spansIn|]);
    }

    /** The operations queue may be bounded: a full one takes nothing, and the caller is told so. */
    method EnqueueOperation(operation: Operation) returns (taken: bool)
      requires Valid()
      modifies this`operations, this`history
      ensures Valid() && Appended(old(history), history)
      ensures taken <==> maxQueue == 0 || |old(operations)| < maxQueue
      ensures operations == if taken then old(operations) + [operation] else old(operations)
      ensures history.operationsIn == old(history).operationsIn + if taken then [operation] else []
      ensures !taken ==> history == old(history)
    {
      taken := maxQueue == 0 || |operations| < maxQueue;
      if taken {
        operations := operations + [operation];
        history := history.(operationsIn := history.operationsIn + [operation]);
      }
    }

    /** A suspension point: any number of producers append, in any order, and the inserter may be
        told to stop. */
    method Await()
      requires Valid()
      modifies this`spans, this`evaluations, this`operations, this`history, this`running, this`producing
      ensures Valid() && Appended(old(history), history)
      ensures old(spans) <= spans && old(evaluations) <= evaluations && old(operations) <= operations
      ensures !old(producing) ==> !producing && spans == old(spans) && evaluations == old(evaluations)
                                  && operations == old(operations) && history == old(history)
      ensures running ==> old(running)
    {
      var steps: nat :| 0 <= steps;
      for i := 0 to steps
        invariant Valid() && Appended(old(history), history)
        invariant old(spans) <= spans && old(evaluations) <= evaluations && old(operations) <= operations
        invariant !old(producing) ==> !producing && spans == old(spans) && evaluations == old(evaluations)
                                      && operations == old(operations) && history == old(history)
        invariant running ==> old(running)
      {
        var choice: int, item: string := *, *;
        if producing && choice == 0 {
          EnqueueSpan(item);
        } else if producing && choice == 1 {
          EnqueueEvaluation(item);
        } else if producing && choice == 2 {
          var taken := EnqueueOperation(item);
        } else if choice == 3 {
          running, producing := false, false;
        }
      }
    }

    /** Whether a database session opens. */
    method OpenSession() returns (ready: bool)
      requires Valid()
      modifies this`spans, this`evaluations, this`operations, this`history, this`running, this`producing
      ensures Valid() && Appended(old(history), history)
      ensures old(spans) <= spans && old(evaluations) <= evaluations && old(operations) <= operations
      ensures !old(producing) ==> !producing && spans == old(spans) && evaluations == old(evaluations)
                                  && operations == old(operations) && history == old(history)
      ensures running ==> old(running)
      ensures reliable ==> ready
    {
      Await();
      ready := *;
      ready := ready || reliable;
    }

    /** `_insert_spans`: once the session is open, pops the given number of spans, whatever becomes of
        the single insertions. */
    method InsertSpans(num: nat) returns (ready: bool)
      requires Valid() && num <= |spans|
      modifies this`spans, this`evaluations, this`operations, this`history, this`running, this`producing
      ensures Valid() && AppendedButSpans(old(history), history)
      ensures reliable ==> ready
      ensures |history.spansOut| == |old(history).spansOut| + if ready then num else 0
      ensures !old(producing) ==>
              !producing && NothingIn(old(history), history) && evaluations == old(evaluations)
                && operations == old(operations)
      ensures running ==> old(running)
    {
      if num == 0 || spans == [] {
        return true;
      }
      ready := OpenSession();
      if !ready {
        return;
      }
      var left := num;
      while 0 < left
        invariant Valid() && AppendedButSpans(old(history), history)
        invariant 0 <= left <= num && left <= |spans|
        invariant |history.spansOut| == |old(history).spansOut| + num - left
        invariant !old(producing) ==>
                  !producing && NothingIn(old(history), history) && evaluations == old(evaluations)
                    && operations == old(operations)
        invariant running ==> old(running)
        decreases left
      {
        left := left - 1;
        if spans == [] {
          break;
        }
        InsertSpan(old(history));
      }
      Await();
    }

    /** Pops one span and inserts it, whatever becomes of the insertion. */
    method InsertSpan(ghost start: History)
      requires Valid() && spans != [] && AppendedButSpans(start, history)
      modifies this`spans, this`evaluations, this`operations, this`history, this`running, this`producing
      ensures Valid() && AppendedButSpans(start, history)
      ensures |history.spansOut| == |old(history).spansOut| + 1 && |old(spans)| <= |spans| + 1
      ensures !old(producing) ==>
              !producing && NothingIn(old(history), history) && evaluations == old(evaluations)
                && operations == old(operations)
      ensures running ==> old(running)
    {
      PopSpan();
      Await();
    }

    method PopSpan()
      requires Valid() && spans != []
      modifies this`spans, this`history
      ensures Valid() && spans == old(spans)[1..]
      ensures history == old(history).(spansOut := old(history).spansOut + [old(spans)[0]])
    {
      history := history.(spansOut := history.spansOut + [spans[0]]);
      spans := spans[1..];
    }

    method PopEvaluation()
      requires Valid() && evaluations != []
      modifies this`evaluations, this`history
      ensures Valid() && evaluations == old(evaluations)[1..]
      ensures history == WithEvaluationPopped(old(history), old(evaluations)[0])
    {
      history := WithEvaluationPopped(history, evaluations[0]);
      evaluations := evaluations[1..];
    }

    /** `_insert_evaluations`: pops up to the given number; an unforeseen failure ends the batch early. */
    method InsertEvaluations(num: nat)
      requires Valid() && num <= |evaluations|
      modifies this`spans, this`evaluations, this`operations, this`history, this`running, this`producing
      ensures Valid() && AppendedButEvaluations(old(history), history)
      ensures |history.evaluationsOut| <= |old(history).evaluationsOut| + num
      ensures reliable ==> |history.evaluationsOut| == |old(history).evaluationsOut| + num
      ensures PoppedAtOnce(old(history), history)
      ensures !old(producing) ==>
              !producing && NothingIn(old(history), history) && spans == old(spans) && operations == old(operations)
      ensures running ==> old(running)
    {
      if num == 0 || evaluations == [] {
        return;
      }
      var ready := OpenSession();
      if !ready {
        return;
      }
      var left := num;
      while 0 < left
        invariant Valid() && AppendedButEvaluations(old(history), history)
        invariant 0 <= left <= num && left <= |evaluations|
        invariant |history.evaluationsOut| == |old(history).evaluationsOut| + num - left
        invariant PoppedAtOnce(old(history), history)
        invariant !old(producing) ==>
                  !producing && NothingIn(old(history), history) && spans == old(spans) && operations == old(operations)
        invariant running ==> old(running)
        decreases left
      {
        left := left - 1;
        if evaluations == [] {
          break;
        }
        InsertEvaluation(old(history));
        var failed: bool := *;
        if failed && !reliable {
          break;
        }
      }
      Await();
    }

    /** Pops one evaluation and inserts it, whatever becomes of the insertion. */
    method InsertEvaluation(ghost start: History)
      requires Valid() && evaluations != []
      requires AppendedButEvaluations(start, history) && PoppedAtOnce(start, history)
      modifies this`spans, this`evaluations, this`operations, this`history, this`running, this`producing
      ensures Valid() && AppendedButEvaluations(start, history) && PoppedAtOnce(start, history)
      ensures |history.evaluationsOut| == |old(history).evaluationsOut| + 1 && |old(evaluations)| <= |evaluations| + 1
      ensures !old(producing) ==>
              !producing && NothingIn(old(history), history) && spans == old(spans) && operations == old(operations)
      ensures running ==> old(running)
    {
      ghost var before := history;
      PopEvaluation();
      ghost var popped := history;
      Await();
      EvaluationStep(start, before, popped, history);
    }

    /** The queued operations, at most `maxOps` of them; nothing catches a session that does not open. */
    method RunOperations() returns (ok: bool)
      requires Valid()
      modifies this`spans, this`evaluations, this`operations, this`history, this`running, this`producing
      ensures Valid() && AppendedButOperations(old(history), history)
      ensures |history.operationsOut| <= |old(history).operationsOut| + maxOps
      ensures reliable ==> ok
      ensures ok ==> Min(|old(history).operationsIn|, |old(history).operationsOut| + maxOps) <= |history.operationsOut|
      ensures reliable && 0 < maxOps && old(operations) != [] ==> |old(history).operationsOut| < |history.operationsOut|
      ensures !old(producing) ==>
              !producing && NothingIn(old(history), history) && spans == old(spans) && evaluations == old(evaluations)
      ensures running ==> old(running)
    {
      ok := OpenSession();
      if !ok {
        return;
      }
      var left := maxOps;
      while left != 0 && operations != []
        invariant Valid() && AppendedButOperations(old(history), history)
        invariant 0 <= left <= maxOps && (left == maxOps ==> old(operations) <= operations)
        invariant |history.operationsOut| == |old(history).operationsOut| + maxOps - left
        invariant !old(producing) ==>
                  !producing && NothingIn(old(history), history) && spans == old(spans)
                    && evaluations == old(evaluations)
        invariant running ==> old(running)
        decreases left
      {
        left := left - 1;
        RunOperation(old(history));
      }
      Await();
    }

    /** Takes one operation off the queue and runs it, whatever becomes of it. */
    method RunOperation(ghost start: History)
      requires Valid() && operations != [] && AppendedButOperations(start, history)
      modifies this`spans, this`evaluations, this`operations, this`history, this`running, this`producing
      ensures Valid() && AppendedButOperations(start, history)
      ensures |history.operationsOut| == |old(history).operationsOut| + 1
      ensures !old(producing) ==>
                !producing && NothingIn(old(history), history) && spans == old(spans) && evaluations == old(evaluations)
      ensures running ==> old(running)
    {
      history := history.(operationsOut := history.operationsOut + [operations[0]]);
      operations := operations[1..];
      Await();
    }

    /** The span and evaluation batches of a round, whose sizes are fixed together. */
    method InsertBatches() returns (ghost ready: bool)
      requires Valid()
      modifies this`spans, this`evaluations, this`operations, this`history, this`running, this`producing
      ensures Valid() && OnlyProgress(old(history), history, maxOps)
      ensures history.operationsOut == old(history).operationsOut
      ensures AllInOrder(history, old(history), history, ready, maxOps)
      ensures Pops(old(history), history, ready, reliable, maxOps)
      ensures !old(producing) ==> !producing && NothingIn(old(history), history) && operations == old(operations)
      ensures !old(producing) && reliable ==>
                Shrinks(old(spans), spans, maxOps) && Shrinks(old(evaluations), evaluations, maxOps)
      ensures running ==> old(running)
    {
      var numSpans := if maxOps <= |spans| then maxOps else |spans|;
      var numEvaluations := if maxOps <= |evaluations| then maxOps else |evaluations|;
      var ok := InsertSpans(numSpans);
      ready := ok;
      ghost var afterSpans := history;
      InsertEvaluations(numEvaluations);
      ghost var afterEvaluations := history;
      Await();
      BatchProgress(old(history), afterSpans, afterEvaluations, history, maxOps);
      BatchOrder(old(history), afterSpans, afterEvaluations, history, numEvaluations, ready, maxOps);
    }

    /** One round of the consumer: operations, then spans, then evaluations, each up to `maxOps`.

        `at` is what had happened when the batch sizes were fixed. If the span session opens, each
        evaluation of the round is popped after every span that was enqueued before it and stood
        among the first `maxOps` of the queue at that time. If the session does not open, the
        evaluations go ahead of all spans then queued. The round ends the consumer when there is no
        session for the operations. */
    method Round() returns (alive: bool, ghost at: History, ghost ready: bool)
      requires Valid()
      modifies this`spans, this`evaluations, this`operations, this`history, this`running, this`producing
      ensures Valid() && OnlyProgress(old(history), history, maxOps)
      ensures Earlier(old(history), at) && Earlier(at, history)
      ensures at.spansOut == old(history).spansOut && at.evaluationsOut == old(history).evaluationsOut
      ensures AllInOrder(history, at, history, ready, maxOps) && Pops(at, history, ready, reliable, maxOps)
      ensures !alive ==> history.spansOut == at.spansOut && history.evaluationsOut == at.evaluationsOut
      ensures alive ==> Min(|old(history).operationsIn|,
              |old(history).operationsOut| + maxOps) <= |history.operationsOut|
      ensures !old(producing) ==> !producing && NothingIn(old(history), history)
      ensures reliable ==> alive
      ensures !old(producing) && reliable && 0 < maxOps ==>
                Shrinks(old(spans), spans, maxOps) && Shrinks(old(evaluations), evaluations, maxOps)
                && (old(operations) != [] ==> |operations| < |old(operations)|) && |operations| <= |old(operations)|
      ensures running ==> old(running)
    {
      ready := false;
      alive := RunOperations();
      at := history;
      if alive {
        ready := InsertBatches();
        RoundProgress(old(history), at, history, maxOps);
      }
    }

    predicate Idle()
      reads this
    {
      operations == [] && spans == [] && evaluations == []
    }

    /** One iteration of the consumer's loop: it sleeps if nothing is queued, and is a turn otherwise. */
    method Iteration(ghost start: History, ghost turns: seq<Turn>, ghost sleeps: seq<History>, ghost most: nat)
        returns (alive: bool, ghost turnsAfter: seq<Turn>, ghost sleepsAfter: seq<History>)
      requires Valid() && AreTurns(start, turns, history, reliable, maxOps) && AreSleeps(start, sleeps, history)
      requires reliable ==> ComesOut(start, history, most)
      modifies this`spans, this`evaluations, this`operations, this`history, this`running, this`producing
      ensures Valid() && AreTurns(start, turnsAfter, history, reliable, maxOps)
      ensures AreSleeps(start, sleepsAfter, history) && |turnsAfter| + |sleepsAfter| == |turns| + |sleeps| + 1
      ensures |sleepsAfter| == |sleeps| + if old(Idle()) then 1 else 0
      ensures reliable ==> alive && ComesOut(start, history, most + maxOps)
    {
      ghost var before := history;
      if Idle() {
        Await();
        OneMoreSleep(start, turns, sleeps, before, history, reliable, maxOps);
        AllOut(start, before, most + maxOps);
        alive, turnsAfter, sleepsAfter := true, turns, sleeps + [before];
      } else {
        ghost var at, ready;
        alive, at, ready := Round();
        TurnTaken(start, turns, sleeps, before, Turn(at, ready), history, reliable, maxOps, most);
        turnsAfter, sleepsAfter := turns + [Turn(at, ready)], sleeps;
      }
    }

    /** The first `limit` iterations of the consumer's loop, while producers go on appending: an iteration
        sleeps only when nothing is queued, and is a turn otherwise; everything popped is popped in order
        in one of the turns, and what is not popped is still queued. If sessions open, what was queued
        at the start comes out at the rate of a batch in each iteration. */
    method Serve(limit: nat) returns (alive: bool, ghost turns: seq<Turn>, ghost sleeps: seq<History>)
      requires Valid()
      modifies this`spans, this`evaluations, this`operations, this`history, this`running, this`producing
      ensures Valid() && AreTurns(old(history), turns, history, reliable, maxOps)
      ensures AreSleeps(old(history), sleeps, history) && |turns| + |sleeps| <= limit
      ensures |turns| + |sleeps| == limit || !alive || (!running && Idle())
      ensures reliable ==> alive && ComesOut(old(history), history, limit * maxOps)
    {
      alive, turns, sleeps := true, [], [];
      NoTurns(history, reliable, maxOps);
      var done := 0;
      while done < limit && alive && (running || !Idle())
        invariant Valid() && AreTurns(old(history), turns, history, reliable, maxOps)
        invariant AreSleeps(old(history), sleeps, history) && |turns| + |sleeps| == done <= limit
        invariant reliable ==> alive && ComesOut(old(history), history, done * maxOps)
      {
        OneBatchMore(done, maxOps);
        alive, turns, sleeps := Iteration(old(history), turns, sleeps, done * maxOps);
        done := done + 1;
      }
      if done < limit && alive {
        Drained(history);
      }
      if reliable {
        LimitReached(old(history), history, done, limit, maxOps);
      }
    }

    /** The consumer's loop once it has been told to stop and the producers have stopped: it drains
        every queue and ends. */
    method BulkInsert()
      requires Valid() && !running && !producing && reliable && 0 < maxOps
      modifies this`spans, this`evaluations, this`operations, this`history, this`running, this`producing
      ensures Valid() && Idle()
      ensures NothingIn(old(history), history)
      ensures history.spansOut == history.spansIn && history.evaluationsOut == history.evaluationsIn
      ensures history.operationsOut == history.operationsIn
    {
      while running || !Idle()
        invariant Valid() && !running && !producing && NothingIn(old(history), history)
        decreases |operations| + |spans| + |evaluations|
      {
        var alive, at, ready := Round();
      }
    }
  }
}
