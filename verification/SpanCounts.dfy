/** What the cumulative counters of the span table mean, and how a row more or less changes them. */
module SpanCounts {
  import opened Wrappers
  import opened Forest

  /** The columns of a span row that no later submission changes. */
  datatype Fact = Fact(traceId: string, parent: Option<Id>, own: Counts)

  type Facts = map<Id, Fact>

  /** The cumulative columns of the span table. */
  type Counters = map<Id, Counts>

  function ParentsOf(facts: Facts): Parents
  {
    map id | id in facts :: facts[id].parent
  }

  function OwnOf(facts: Facts): map<Id, Counts>
  {
    map id | id in facts :: facts[id].own
  }

  /** The counters a span ought to show: own values summed over the span and all its stored
      descendants, whichever way the rows came in. */
  ghost function SubtreeTotal(facts: Facts, a: Id): Counts
  {
    SumOf(OwnOf(facts), Subtree(ParentsOf(facts), a))
  }

  /** Every stored span shows the total of its subtree. */
  ghost predicate Exact(facts: Facts, cumulative: Counters)
  {
    && cumulative.Keys == facts.Keys
    && forall a {:trigger cumulative[a]} :: a in facts ==> cumulative[a] == SubtreeTotal(facts, a)
  }

  // ---------------------------------------------------------------- one more row

  /** The rows below `s` that hang from the children in `cs`. */
  ghost function Below(p: Parents, cs: set<Id>): set<Id>
  {
    set t | t in p && exists c :: c in cs && Under(p, t, c)
  }

  lemma BelowSplits(p: Parents, s: Id, c: Id, rest: set<Id>)
    requires s !in p && c !in rest && {c} + rest <= Children(p, s)
    ensures Subtree(p, c) !! Below(p, rest)
    ensures Below(p, {c} + rest) == Subtree(p, c) + Below(p, rest)
  {
    forall t | t in Subtree(p, c) && t in Below(p, rest)
      ensures false
    {
      var d :| d in rest && Under(p, t, d);
      ChildrenDisjoint(p, s, t, c, d);
    }
  }

  /** Summing the stored counters of several children sums their disjoint subtrees. */
  lemma {:induction false} ChildrenTotals(facts: Facts, cumulative: Counters, s: Id, cs: set<Id>)
    requires Exact(facts, cumulative)
    requires s !in facts && cs <= Children(ParentsOf(facts), s)
    ensures SumOf(cumulative, cs) == SumOf(OwnOf(facts), Below(ParentsOf(facts), cs))
    decreases cs
  {
    var p := ParentsOf(facts);
    if cs == {} {
      assert Below(p, cs) == {};
    } else {
      var c :| c in cs;
      var rest := cs - {c};
      assert {c} + rest == cs;
      BelowSplits(p, s, c, rest);
      SumUnion(OwnOf(facts), Subtree(p, c), Below(p, rest));
      SumRemove(cumulative, cs, c);
      ChildrenTotals(facts, cumulative, s, rest);
    }
  }

  /** A late parent starts from its own values plus the counters of the children already stored. */
  lemma NewRowTotal(facts: Facts, cumulative: Counters, s: Id, fact: Fact)
    requires Exact(facts, cumulative)
    requires s !in facts && Acyclic(ParentsOf(facts[s := fact]))
    ensures SubtreeTotal(facts[s := fact], s)
         == fact.own.Plus(SumOf(cumulative, Children(ParentsOf(facts), s)))
  {
    var grown := facts[s := fact];
    var p, q := ParentsOf(facts), ParentsOf(grown);
    var cs := Children(p, s);
    assert q == p[s := q[s]];
    forall t
      ensures t in Subtree(q, s) - {s} <==> t in Below(p, cs)
    {
      SubtreeOfNewRow(p, q, s, t);
    }
    SubtreeOfNewRow(p, q, s, s);
    assert Subtree(q, s) - {s} == Below(p, cs);
    SumRemove(OwnOf(grown), Subtree(q, s), s);
    SumSame(OwnOf(grown), OwnOf(facts), Below(p, cs));
    ChildrenTotals(facts, cumulative, s, cs);
  }

  lemma LeafTotal(facts: Facts, s: Id)
    requires s in facts && Acyclic(ParentsOf(facts)) && Children(ParentsOf(facts), s) == {}
    ensures SubtreeTotal(facts, s) == facts[s].own.Plus(ZERO)
  {
    var rest := facts - {s};
    var totals := map a | a in rest :: SubtreeTotal(rest, a);
    assert facts == rest[s := facts[s]];
    assert Children(ParentsOf(rest), s) <= Children(ParentsOf(facts), s);
    NewRowTotal(rest, totals, s, facts[s]);
  }

  /** Storing a row adds its subtree's total to exactly its stored ancestors. */
  lemma OldRowTotal(facts: Facts, s: Id, fact: Fact, a: Id)
    requires s !in facts && a in facts && Acyclic(ParentsOf(facts[s := fact]))
    ensures SubtreeTotal(facts[s := fact], a)
         == if Under(ParentsOf(facts[s := fact]), s, a)
            then SubtreeTotal(facts, a).Plus(SubtreeTotal(facts[s := fact], s))
            else SubtreeTotal(facts, a)
  {
    var grown := facts[s := fact];
    var p, q := ParentsOf(facts), ParentsOf(grown);
    assert q == p[s := q[s]];
    forall t | t in p
      ensures Under(q, t, a) <==> Under(p, t, a) || (Under(q, t, s) && Under(q, s, a))
    {
      UnderAfterAdd(p, q, s, t, a);
    }
    SumSame(OwnOf(grown), OwnOf(facts), Subtree(p, a));
    assert Up(q, s, 0) == Some(s);
    if Under(q, s, a) {
      forall t | t in Subtree(p, a) && t in Subtree(q, s)
        ensures false
      {
        OldAndNewDisjoint(p, q, s, t, a);
      }
      assert Subtree(q, a) == Subtree(p, a) + Subtree(q, s);
      SumUnion(OwnOf(grown), Subtree(p, a), Subtree(q, s));
    } else {
      assert Subtree(q, a) == Subtree(p, a);
    }
  }

  /** The proper ancestors of a stored span, all of them stored. */
  ghost predicate StrictlyAbove(facts: Facts, s: Id, a: Id)
    requires s in facts
  {
    facts[s].parent.Some? && Under(ParentsOf(facts), facts[s].parent.value, a)
  }

  lemma StrictlyAboveIsUnder(facts: Facts, s: Id, a: Id)
    requires s in facts && Acyclic(ParentsOf(facts))
    ensures StrictlyAbove(facts, s, a) <==> a != s && Under(ParentsOf(facts), s, a)
  {
    var q := ParentsOf(facts);
    if q[s].Some? {
      assert forall n: nat :: Up(q, s, n + 1) == Up(q, q[s].value, n);
    }
    if a != s && Under(q, s, a) {
      var n: nat :| Up(q, s, n) == Some(a);
      assert Up(q, q[s].value, n - 1) == Some(a);
    }
  }

  /** `after` is `before` with the row `s` added at `total` and its stored ancestors raised by it. */
  ghost predicate Raised(grown: Facts, s: Id, total: Counts, before: Counters, after: Counters)
    requires s in grown
  {
    && after.Keys == before.Keys + {s}
    && after[s] == total
    && forall a :: a in before && a != s ==>
         after[a] == if StrictlyAbove(grown, s, a) then before[a].Plus(total) else before[a]
  }

  /** Ingestion's update turns exact counters into exact counters for one row more. */
  lemma InsertKeepsExact(facts: Facts, before: Counters, s: Id, fact: Fact, total: Counts, after: Counters)
    requires Exact(facts, before)
    requires s !in facts && Acyclic(ParentsOf(facts[s := fact]))
    requires total == fact.own.Plus(SumOf(before, Children(ParentsOf(facts), s)))
    requires Raised(facts[s := fact], s, total, before, after)
    ensures Exact(facts[s := fact], after)
  {
    var grown := facts[s := fact];
    NewRowTotal(facts, before, s, fact);
    forall a | a in facts
      ensures after[a] == SubtreeTotal(grown, a)
    {
      OldRowTotal(facts, s, fact, a);
      StrictlyAboveIsUnder(grown, s, a);
    }
  }

  // ---------------------------------------------------------------- one row less

  /** Taking a row out leaves its descendants in place but cuts them off: exactly the ancestors of
      the row lose the row's whole former total. */
  lemma TotalsAfterRemoval(facts: Facts, s: Id, a: Id)
    requires s in facts && a in facts && a != s && Acyclic(ParentsOf(facts))
    ensures SubtreeTotal(facts, a)
         == if StrictlyAbove(facts, s, a)
            then SubtreeTotal(facts - {s}, a).Plus(SubtreeTotal(facts, s))
            else SubtreeTotal(facts - {s}, a)
  {
    var rest := facts - {s};
    assert facts == rest[s := facts[s]];
    OldRowTotal(rest, s, facts[s], a);
    StrictlyAboveIsUnder(facts, s, a);
  }

  /** The ancestor walk run after the removal still finds all proper ancestors of the removed row. */
  lemma WalkAfterRemoval(facts: Facts, s: Id, a: Id)
    requires s in facts && Acyclic(ParentsOf(facts))
    ensures StrictlyAbove(facts, s, a)
       <==> facts[s].parent.Some? && Under(ParentsOf(facts - {s}), facts[s].parent.value, a)
  {
    var p, q := ParentsOf(facts - {s}), ParentsOf(facts);
    assert q == p[s := q[s]];
    StrictlyAboveIsUnder(facts, s, s);
    if facts[s].parent.Some? {
      var u := facts[s].parent.value;
      if u in p && a in p {
        UnderAfterAdd(p, q, s, u, a);
      } else {
        assert Up(q, s, 0) == Some(s);
        UnderIsStored(p, u, a);
        UnderIsStored(q, u, a);
      }
    }
  }

  lemma UnderIsStored(p: Parents, t: Id, a: Id)
    ensures Under(p, t, a) ==> t in p && a in p
  {
    if Under(p, t, a) {
      var n: nat :| Up(p, t, n) == Some(a);
      UpIsStored(p, t, n);
    }
  }
}
