/** What a walk can be collected into: one dictionary for every order in which the sets iterate, and
    the exact condition under which they are all the same. */
module Outcomes {
  import opened Finite
  import opened Keys
  import opened Orders
  import opened Precedence
  import opened Tries
  import opened Walks
  import opened Wrappers

  // ---------------------------------------------------------------- orders that agree below a node

  ghost predicate SameBelow(nodes: Nodes, o: Order, u: Order, p: Path)
  {
    nodes.Keys <= o.at.Keys && nodes.Keys <= u.at.Keys && forall q :: q in Reach(nodes, p) ==> o.at[q] == u.at[q]
  }

  lemma {:induction false} SameDeeper(nodes: Nodes, o: Order, u: Order, p: Path, l: Label)
    requires SameBelow(nodes, o, u, p) && p in nodes
    ensures SameBelow(nodes, o, u, p + [l])
  {
    ReachShrinks(nodes, p, l);
  }

  /** What is walked at a node depends on the order at the nodes below it only. */
  lemma {:induction false} WalkInSame(nodes: Nodes, o: Order, u: Order, p: Path, prefix: string)
    requires p in nodes && SameBelow(nodes, o, u, p)
    ensures WalkIn(nodes, o, p, prefix) == WalkIn(nodes, u, p, prefix)
    decreases Reach(nodes, p), if prefix == "" then 4 else 6, 0
  {
    assert p in Reach(nodes, p);
    LabelsInSame(nodes, o, u, p, prefix, o.at[p].indices);
    LabelsInSame(nodes, o, u, p, prefix, o.at[p].branches);
    if prefix != "" {
      ListInSame(nodes, o, u, p);
      DictInSame(nodes, o, u, p);
    }
  }

  lemma {:induction false} LabelsInSame(nodes: Nodes, o: Order, u: Order, p: Path, prefix: string, labels: seq<Label>)
    requires p in nodes && SameBelow(nodes, o, u, p)
    ensures LabelsIn(nodes, o, p, prefix, labels) == LabelsIn(nodes, u, p, prefix, labels)
    decreases Reach(nodes, p), 3, |labels|
  {
    if labels != [] {
      var l := labels[|labels| - 1];
      LabelsInSame(nodes, o, u, p, prefix, labels[..|labels| - 1]);
      ReachShrinks(nodes, p, l);
      if p + [l] in nodes {
        SameDeeper(nodes, o, u, p, l);
        WalkInSame(nodes, o, u, p + [l], Join(prefix, ShowLabel(l)));
      }
    }
  }

  lemma {:induction false} DictInSame(nodes: Nodes, o: Order, u: Order, p: Path)
    requires p in nodes && SameBelow(nodes, o, u, p)
    ensures DictIn(nodes, o, p) == DictIn(nodes, u, p)
    decreases Reach(nodes, p), 5, 0
  {
    WalkInSame(nodes, o, u, p, "");
  }

  lemma {:induction false} ListInSame(nodes: Nodes, o: Order, u: Order, p: Path)
    requires p in nodes && SameBelow(nodes, o, u, p)
    ensures ListIn(nodes, o, p) == ListIn(nodes, u, p)
    decreases Reach(nodes, p), 1, 0
  {
    var order := Sorted(nodes[p].indices);
    forall k | 0 <= k < |order|
      ensures ItemIn(nodes, o, p, order[k]) == ItemIn(nodes, u, p, order[k])
    {
      ReachShrinks(nodes, p, Idx(order[k]));
      if p + [Idx(order[k])] in nodes {
        SameDeeper(nodes, o, u, p, Idx(order[k]));
        DictInSame(nodes, o, u, p + [Idx(order[k])]);
      }
    }
    assert ListIn(nodes, o, p).items == ListIn(nodes, u, p).items;
  }

  lemma {:induction false} EmitInSame(nodes: Nodes, o: Order, u: Order, p: Path)
    requires p in nodes && SameBelow(nodes, o, u, p)
    ensures EmitIn(nodes, o, p) == EmitIn(nodes, u, p)
  {
    ListInSame(nodes, o, u, p);
    DictInSame(nodes, o, u, p);
  }

  /** Favouring a node changes nothing below it. */
  lemma {:induction false} FavouringAbove(nodes: Nodes, o: Order, base: Path, s: Path)
    requires nodes.Keys <= o.at.Keys
    ensures SameBelow(nodes, o, Favouring(o, base, s), base + s)
  {
  }

  // ---------------------------------------------------------------- which nodes can keep their key

  /** No node that prints alike comes after this one in every order. */
  ghost predicate IsTop(nodes: Nodes, base: Path, s: Path)
  {
    && IsEmitted(nodes, base, s)
    && forall t :: IsEmitted(nodes, base, t) && Core(t) == Core(s) ==> !Overtakes(nodes, base, s, t)
  }

  /** A trie as pairs build it, and an order for its sets. */
  ghost predicate Given(nodes: Nodes, o: Order, base: Path)
  {
    IsOrder(nodes, o) && TrieLike(nodes) && CleanNodes(nodes) && base in nodes
  }

  lemma {:induction false} AlikeCores(nodes: Nodes, base: Path, s: Path, t: Path)
    requires CleanNodes(nodes) && IsEmitted(nodes, base, s) && IsEmitted(nodes, base, t)
    ensures ShowPath(s) == ShowPath(t) <==> Core(s) == Core(t)
  {
    CleanTail(base, s);
    CleanTail(base, t);
    PrintAlike(s, t);
  }

  lemma {:induction false} DictVisits(nodes: Nodes, o: Order, base: Path)
    requires base in nodes && nodes.Keys <= o.at.Keys
    ensures base + [] in nodes
    ensures DictIn(nodes, o, base) == DictOf(PairsAt(nodes, o, base, VisitIn(nodes, o, base, [])))
  {
    assert base + [] == base;
    WalkIsVisit(nodes, o, base, []);
  }

  /** The nodes visited for a dictionary are all its nodes emitted. */
  lemma {:induction false} AllVisited(nodes: Nodes, o: Order, base: Path, s: Path)
    requires Given(nodes, o, base)
    ensures base + [] in nodes && (s in VisitIn(nodes, o, base, []) <==> IsEmitted(nodes, base, s))
  {
    assert base + [] == base && [] <= s;
    VisitHolds(nodes, o, base, [], s);
  }

  /** The node whose value a key keeps is not overtaken. */
  lemma {:induction false} KeptIsTop(nodes: Nodes, o: Order, base: Path, k: string) returns (s: Path)
    requires Given(nodes, o, base) && k in DictIn(nodes, o, base)
    ensures IsTop(nodes, base, s) && ShowPath(s) == k && DictIn(nodes, o, base)[k] == EmitIn(nodes, o, base + s)
  {
    DictVisits(nodes, o, base);
    var at := VisitIn(nodes, o, base, []);
    var i := LastOfKey(PairsAt(nodes, o, base, at), k);
    s := at[i];
    AllVisited(nodes, o, base, s);
    forall t | IsEmitted(nodes, base, t) && Core(t) == Core(s)
      ensures !Overtakes(nodes, base, s, t)
    {
      AllVisited(nodes, o, base, t);
      AlikeCores(nodes, base, s, t);
      NotAfterLast(nodes, o, base, at, i, t);
    }
  }

  lemma {:induction false} NotAfterLast(nodes: Nodes, o: Order, base: Path, at: seq<Path>, i: nat, t: Path)
    requires Given(nodes, o, base) && base + [] in nodes && at == VisitIn(nodes, o, base, [])
    requires IsLastOfKey(PairsAt(nodes, o, base, at), i) && t in at && ShowPath(t) == ShowPath(at[i])
    ensures !Overtakes(nodes, base, at[i], t)
  {
    var j :| 0 <= j < |at| && at[j] == t;
    assert PairsAt(nodes, o, base, at)[j].0 == PairsAt(nodes, o, base, at)[i].0;
    VisitInSequence(nodes, o, base, []);
  }

  /** A node that is not overtaken keeps its key in the order that favours it. */
  lemma {:induction false} TopIsKept(nodes: Nodes, o: Order, base: Path, s: Path)
    requires Given(nodes, o, base) && IsTop(nodes, base, s)
    ensures Given(nodes, Favouring(o, base, s), base)
    ensures var kept := DictIn(nodes, Favouring(o, base, s), base);
            ShowPath(s) in kept && kept[ShowPath(s)] == EmitIn(nodes, o, base + s)
  {
    var f := Favouring(o, base, s);
    FavouringIsOrder(nodes, o, base, s);
    DictVisits(nodes, f, base);
    assert base + [] == base && [] <= s;
    FavouredIsLast(nodes, o, base, [], s);
    var at := VisitIn(nodes, f, base, []);
    var i: nat :| IsLastFrom(nodes, base, at, s, i);
    LastKeepsKey(nodes, f, base, at, s, i);
    DictOfLast(PairsAt(nodes, f, base, at), i);
    FavouringAbove(nodes, o, base, s);
    EmitInSame(nodes, o, f, base + s);
  }

  lemma {:induction false} LastKeepsKey(nodes: Nodes, f: Order, base: Path, at: seq<Path>, s: Path, i: nat)
    requires Given(nodes, f, base) && IsTop(nodes, base, s)
    requires base + [] in nodes && at == VisitIn(nodes, f, base, []) && IsLastFrom(nodes, base, at, s, i)
    ensures IsLastOfKey(PairsAt(nodes, f, base, at), i)
  {
    forall j | i < j < |at|
      ensures ShowPath(at[j]) != ShowPath(s)
    {
      AllVisited(nodes, f, base, at[j]);
      AlikeCores(nodes, base, s, at[j]);
    }
  }

  ghost predicate IsKey(nodes: Nodes, base: Path, k: string)
  {
    exists s :: IsEmitted(nodes, base, s) && ShowPath(s) == k
  }

  /** The keys are the same in every order. */
  lemma {:induction false} KeysAre(nodes: Nodes, o: Order, base: Path, k: string)
    requires Given(nodes, o, base)
    ensures k in DictIn(nodes, o, base) <==> IsKey(nodes, base, k)
  {
    DictVisits(nodes, o, base);
    var pairs := PairsAt(nodes, o, base, VisitIn(nodes, o, base, []));
    if k in DictIn(nodes, o, base) {
      var s := KeptIsTop(nodes, o, base, k);
    }
    if s :| IsEmitted(nodes, base, s) && ShowPath(s) == k {
      AllVisited(nodes, o, base, s);
      var i :| 0 <= i < |pairs| && VisitIn(nodes, o, base, [])[i] == s;
      KeyCollected(pairs, i);
    }
  }

  lemma {:induction false} KeyCollected(pairs: Pairs, i: nat)
    requires i < |pairs|
    ensures pairs[i].0 in DictOf(pairs)
    decreases |pairs|
  {
    if i < |pairs| - 1 {
      KeyCollected(pairs[..|pairs| - 1], i);
    }
  }

  // ---------------------------------------------------------------- one outcome

  /** The dictionary at `base` is the same in every order. */
  ghost predicate OneOutcome(nodes: Nodes, base: Path)
    requires base in nodes
  {
    forall o, u :: IsOrder(nodes, o) && IsOrder(nodes, u) ==> DictIn(nodes, o, base) == DictIn(nodes, u, base)
  }

  lemma {:induction false} ReachBelow(nodes: Nodes, base: Path, s: Path)
    requires base in nodes && s != []
    ensures Reach(nodes, base + s) < Reach(nodes, base)
  {
    assert base in Reach(nodes, base) && base !in Reach(nodes, base + s);
    forall q | q in Reach(nodes, base + s)
      ensures q in Reach(nodes, base)
    {
      assert base <= base + s <= q;
    }
  }

  /** Nodes of the dictionary that print alike and are not overtaken have the same value in the order. */
  ghost predicate TopsAgree(nodes: Nodes, o: Order, base: Path)
    requires nodes.Keys <= o.at.Keys
  {
    forall s, t :: IsTop(nodes, base, s) && IsTop(nodes, base, t) && Core(s) == Core(t) ==>
      EmitIn(nodes, o, base + s) == EmitIn(nodes, o, base + t)
  }

  /** So it is in this dictionary, and in the dictionaries inside it that are not overtaken. */
  ghost predicate Determined(nodes: Nodes, o: Order, base: Path)
    requires base in nodes && nodes.Keys <= o.at.Keys
    decreases Reach(nodes, base), 0
  {
    TopsAgree(nodes, o, base)
    && forall s :: s != [] && IsTop(nodes, base, s) ==>
         (ReachBelow(nodes, base, s); DeterminedAt(nodes, o, base + s))
  }

  ghost predicate DeterminedAt(nodes: Nodes, o: Order, p: Path)
    requires p in nodes && nodes.Keys <= o.at.Keys
    decreases Reach(nodes, p), 1
  {
    var node := nodes[p];
    if node.value.Some? then true
    else if node.indices != {} then
      forall i :: i in node.indices && p + [Idx(i)] in nodes ==>
        (ReachShrinks(nodes, p, Idx(i)); Determined(nodes, o, p + [Idx(i)]))
    else Determined(nodes, o, p)
  }

  lemma {:induction false} SameOutcome(nodes: Nodes, o: Order, u: Order, base: Path)
    requires Given(nodes, o, base) && IsOrder(nodes, u) && Determined(nodes, o, base)
    ensures DictIn(nodes, u, base) == DictIn(nodes, o, base)
    decreases Reach(nodes, base), 0
  {
    forall k
      ensures k in DictIn(nodes, u, base) <==> k in DictIn(nodes, o, base)
      ensures k in DictIn(nodes, o, base) ==> DictIn(nodes, u, base)[k] == DictIn(nodes, o, base)[k]
    {
      KeysAre(nodes, o, base, k);
      KeysAre(nodes, u, base, k);
      if k in DictIn(nodes, o, base) {
        var s := KeptIsTop(nodes, o, base, k);
        var t := KeptIsTop(nodes, u, base, k);
        AlikeCores(nodes, base, s, t);
        if t != [] {
          ReachBelow(nodes, base, t);
          SameEmitted(nodes, o, u, base + t);
        }
      }
    }
  }

  lemma {:induction false} SameEmitted(nodes: Nodes, o: Order, u: Order, p: Path)
    requires Given(nodes, o, p) && IsOrder(nodes, u) && DeterminedAt(nodes, o, p)
    ensures EmitIn(nodes, u, p) == EmitIn(nodes, o, p)
    decreases Reach(nodes, p), 1
  {
    if nodes[p].value.None? && nodes[p].indices != {} {
      var order := Sorted(nodes[p].indices);
      forall k | 0 <= k < |order|
        ensures ItemIn(nodes, u, p, order[k]) == ItemIn(nodes, o, p, order[k])
      {
        SortedHolds(nodes[p].indices, k);
        ReachShrinks(nodes, p, Idx(order[k]));
        if p + [Idx(order[k])] in nodes {
          SameOutcome(nodes, o, u, p + [Idx(order[k])]);
        }
      }
      assert ListIn(nodes, u, p).items == ListIn(nodes, o, p).items;
    } else if nodes[p].value.None? {
      SameOutcome(nodes, o, u, p);
    }
  }

  // ---------------------------------------------------------------- otherwise there are several

  /** Two orders that favour nodes printing alike, and differ in the values of these. */
  lemma {:induction false} EitherKept(nodes: Nodes, o: Order, s: Path, u: Order, t: Path, base: Path)
    requires Given(nodes, o, base) && Given(nodes, u, base)
    requires IsTop(nodes, base, s) && IsTop(nodes, base, t) && Core(s) == Core(t)
    requires EmitIn(nodes, o, base + s) != EmitIn(nodes, u, base + t)
    ensures Given(nodes, Favouring(o, base, s), base) && Given(nodes, Favouring(u, base, t), base)
    ensures DictIn(nodes, Favouring(o, base, s), base) != DictIn(nodes, Favouring(u, base, t), base)
  {
    TopIsKept(nodes, o, base, s);
    TopIsKept(nodes, u, base, t);
    AlikeCores(nodes, base, s, t);
  }

  lemma {:induction false} OtherOutcome(nodes: Nodes, o: Order, base: Path) returns (x: Order, y: Order)
    requires Given(nodes, o, base) && !Determined(nodes, o, base)
    ensures IsOrder(nodes, x) && IsOrder(nodes, y) && DictIn(nodes, x, base) != DictIn(nodes, y, base)
    decreases Reach(nodes, base), 0
  {
    if !TopsAgree(nodes, o, base) {
      var s, t :| IsTop(nodes, base, s) && IsTop(nodes, base, t) && Core(s) == Core(t)
                  && EmitIn(nodes, o, base + s) != EmitIn(nodes, o, base + t);
      EitherKept(nodes, o, s, o, t, base);
      x, y := Favouring(o, base, s), Favouring(o, base, t);
    } else {
      var s :| s != [] && IsTop(nodes, base, s) && !DeterminedAt(nodes, o, base + s);
      ReachBelow(nodes, base, s);
      var a, b := OtherEmitted(nodes, o, base + s);
      EitherKept(nodes, a, s, b, s, base);
      x, y := Favouring(a, base, s), Favouring(b, base, s);
    }
  }

  lemma {:induction false} OtherEmitted(nodes: Nodes, o: Order, p: Path) returns (x: Order, y: Order)
    requires Given(nodes, o, p) && !DeterminedAt(nodes, o, p)
    ensures IsOrder(nodes, x) && IsOrder(nodes, y) && EmitIn(nodes, x, p) != EmitIn(nodes, y, p)
    decreases Reach(nodes, p), 1
  {
    if nodes[p].indices != {} {
      var i :| i in nodes[p].indices && p + [Idx(i)] in nodes && !Determined(nodes, o, p + [Idx(i)]);
      ReachShrinks(nodes, p, Idx(i));
      x, y := OtherOutcome(nodes, o, p + [Idx(i)]);
      OtherList(nodes, x, y, p, i);
    } else {
      x, y := OtherOutcome(nodes, o, p);
    }
  }

  lemma {:induction false} OtherList(nodes: Nodes, x: Order, y: Order, p: Path, i: nat)
    requires p in nodes && nodes.Keys <= x.at.Keys && nodes.Keys <= y.at.Keys
    requires i in nodes[p].indices && p + [Idx(i)] in nodes
    requires DictIn(nodes, x, p + [Idx(i)]) != DictIn(nodes, y, p + [Idx(i)])
    ensures ListIn(nodes, x, p) != ListIn(nodes, y, p)
  {
    SortedRank(nodes[p].indices, i);
    var k := Rank(i, nodes[p].indices);
    assert ListIn(nodes, x, p).items[k] == ItemIn(nodes, x, p, i);
    assert ListIn(nodes, y, p).items[k] == ItemIn(nodes, y, p, i);
  }

  /** A walk is collected into the same dictionary, whatever order the sets iterate in, exactly when in
      that dictionary the nodes that differ only in leading empty segments and are not overtaken have one
      value, and so on inside these nodes. The values may be compared in any one order. */
  lemma {:induction false} OneOutcomeExactly(nodes: Nodes, o: Order, base: Path)
    requires Given(nodes, o, base)
    ensures OneOutcome(nodes, base) <==> Determined(nodes, o, base)
  {
    if Determined(nodes, o, base) {
      forall u, v | IsOrder(nodes, u) && IsOrder(nodes, v)
        ensures DictIn(nodes, u, base) == DictIn(nodes, v, base)
      {
        SameOutcome(nodes, o, u, base);
        SameOutcome(nodes, o, v, base);
      }
    } else {
      var x, y := OtherOutcome(nodes, o, base);
    }
  }

  // ---------------------------------------------------------------- nodes that always come in the same order

  /** Of any two nodes that print alike one overtakes the other. */
  ghost predicate Ordered(nodes: Nodes, base: Path)
  {
    forall s, t :: IsEmitted(nodes, base, s) && IsEmitted(nodes, base, t) && Core(s) == Core(t) && s != t ==>
      Overtakes(nodes, base, s, t) || Overtakes(nodes, base, t, s)
  }

  ghost predicate AllOrdered(nodes: Nodes)
  {
    forall p :: p in nodes ==> Ordered(nodes, p)
  }

  lemma {:induction false} DeterminedIfOrdered(nodes: Nodes, o: Order, base: Path)
    requires base in nodes && nodes.Keys <= o.at.Keys && AllOrdered(nodes)
    ensures Determined(nodes, o, base)
    decreases Reach(nodes, base), 0
  {
    forall s, t | IsTop(nodes, base, s) && IsTop(nodes, base, t) && Core(s) == Core(t)
      ensures s == t
    {
    }
    forall s | s != [] && IsTop(nodes, base, s)
      ensures DeterminedAt(nodes, o, base + s)
    {
      ReachBelow(nodes, base, s);
      DeterminedAtIfOrdered(nodes, o, base + s);
    }
  }

  lemma {:induction false} DeterminedAtIfOrdered(nodes: Nodes, o: Order, p: Path)
    requires p in nodes && nodes.Keys <= o.at.Keys && AllOrdered(nodes)
    ensures DeterminedAt(nodes, o, p)
    decreases Reach(nodes, p), 1
  {
    if nodes[p].indices != {} {
      forall i | i in nodes[p].indices && p + [Idx(i)] in nodes
        ensures Determined(nodes, o, p + [Idx(i)])
      {
        ReachShrinks(nodes, p, Idx(i));
        DeterminedIfOrdered(nodes, o, p + [Idx(i)]);
      }
    } else {
      DeterminedIfOrdered(nodes, o, p);
    }
  }

  /** Where all keys at or below it extend one another, so do the nodes of a dictionary. */
  lemma {:induction false} ChainOrdered(written: map<Path, Value>, base: Path, q: Path)
    requires forall k :: k in written && base <= k ==> k <= q
    ensures Ordered(TrieOf(written), base)
  {
    forall s, t | IsEmitted(TrieOf(written), base, s) && IsEmitted(TrieOf(written), base, t) && s != t
      ensures Overtakes(TrieOf(written), base, s, t) || Overtakes(TrieOf(written), base, t, s)
    {
      OnChain(written, base, q, s);
      OnChain(written, base, q, t);
      if |s| <= |t| {
        PrefixesOfOne(base, s, t, q);
      } else {
        PrefixesOfOne(base, t, s, q);
      }
    }
  }

  lemma {:induction false} OnChain(written: map<Path, Value>, base: Path, q: Path, s: Path)
    requires base + s in TrieOf(written) && forall k :: k in written && base <= k ==> k <= q
    ensures base + s <= q
  {
    InTrie(written, base + s);
    if base + s != [] {
      var k :| k in written && base + s <= k;
      assert base <= base + s <= k <= q;
    }
  }

  // ---------------------------------------------------------------- where no value is lost

  ghost predicate AllAgree(nodes: Nodes)
  {
    forall p :: p in nodes ==> Agree(nodes, p)
  }

  lemma {:induction false} KeptValue(nodes: Nodes, base: Path, s: Path)
    requires base in nodes && Functional(Walk(nodes, base, "")) && IsEmitted(nodes, base, s)
    ensures ShowPath(s) in AsDict(Walk(nodes, base, ""))
    ensures AsDict(Walk(nodes, base, ""))[ShowPath(s)] == Emitted(nodes, base + s)
  {
    var kv := (ShowPath(s), Emitted(nodes, base + s));
    assert Yields(nodes, base, s, kv);
    DictionaryYields(nodes, base, kv);
    AsDictLooksUp(Walk(nodes, base, ""), kv);
  }

  lemma {:induction false} KeyWalked(nodes: Nodes, base: Path, k: string)
    requires base in nodes
    ensures k in AsDict(Walk(nodes, base, "")) ==> IsKey(nodes, base, k)
  {
    if kv :| kv in Walk(nodes, base, "") && kv.0 == k {
      DictionaryYields(nodes, base, kv);
      var s :| Yields(nodes, base, s, kv);
    }
  }

  /** Where nodes that print alike always agree, every order gives the dictionary of the pairs walked. */
  lemma {:induction false} ExpectedOutcome(nodes: Nodes, o: Order, base: Path)
    requires Given(nodes, o, base) && AllAgree(nodes)
    ensures DictIn(nodes, o, base) == AsDict(Walk(nodes, base, ""))
    decreases Reach(nodes, base), 0
  {
    var d := AsDict(Walk(nodes, base, ""));
    FunctionalExactly(nodes, base);
    forall k
      ensures k in DictIn(nodes, o, base) <==> k in d
      ensures k in d ==> DictIn(nodes, o, base)[k] == d[k]
    {
      KeysAre(nodes, o, base, k);
      KeyWalked(nodes, base, k);
      if k in DictIn(nodes, o, base) {
        var s := KeptIsTop(nodes, o, base, k);
        KeptValue(nodes, base, s);
        if s != [] {
          ReachBelow(nodes, base, s);
          ExpectedEmitted(nodes, o, base + s);
        }
      }
    }
  }

  lemma {:induction false} ExpectedEmitted(nodes: Nodes, o: Order, p: Path)
    requires Given(nodes, o, p) && AllAgree(nodes)
    ensures EmitIn(nodes, o, p) == Emitted(nodes, p)
    decreases Reach(nodes, p), 1
  {
    if nodes[p].value.None? && nodes[p].indices != {} {
      var order := Sorted(nodes[p].indices);
      forall k | 0 <= k < |order|
        ensures ItemIn(nodes, o, p, order[k]) == ElementAt(nodes, p, order[k])
      {
        SortedHolds(nodes[p].indices, k);
        ReachShrinks(nodes, p, Idx(order[k]));
        if p + [Idx(order[k])] in nodes {
          ExpectedOutcome(nodes, o, p + [Idx(order[k])]);
        }
      }
      assert ListIn(nodes, o, p).items == ListAt(nodes, p).items;
    } else if nodes[p].value.None? {
      ExpectedOutcome(nodes, o, p);
    }
  }

  lemma {:induction false} GoodAllAgree(written: map<Path, Value>)
    requires GoodPaths(written)
    ensures AllAgree(TrieOf(written))
  {
    forall p | p in TrieOf(written)
      ensures Agree(TrieOf(written), p)
    {
      GoodAgree(written, p);
    }
  }

  lemma {:induction false} CoreExtends(s: Path, u: Path)
    requires Core(s) != []
    ensures Core(s + u) == Core(s) + u
    decreases |s|
  {
    if s[0] == NO_NAME {
      assert (s + u)[1..] == s[1..] + u;
      CoreExtends(s[1..], u);
    }
  }

  /** A longer path prints alike only while nothing but empty segments has been seen. */
  lemma {:induction false} CoreLonger(s: Path, t: Path)
    requires s <= t && s != t && Core(s) == Core(t)
    ensures Core(s) == []
  {
    var u := t[|s|..];
    assert t == s + u;
    if Core(s) != [] {
      CoreExtends(s, u);
    }
  }

  lemma {:induction false} PrefixesOfOne(base: Path, s: Path, t: Path, q: Path)
    requires base + s <= q && base + t <= q && |s| <= |t|
    ensures s <= t
  {
    assert s == q[|base|..|base| + |s|] && t == q[|base|..|base| + |t|];
  }

  /** All that is written at or below `base` is written to `q`. */
  ghost predicate OnlyKeyBelow(written: map<Path, Value>, base: Path, q: Path)
  {
    q in written && CleanPath(q) && forall k :: k in written && base <= k ==> k == q
  }

  lemma {:induction false} LonePaths(written: map<Path, Value>, q: Path, base: Path, s: Path, t: Path)
    requires OnlyKeyBelow(written, base, q) && |s| <= |t|
    requires IsEmitted(TrieOf(written), base, s) && IsEmitted(TrieOf(written), base, t) && Core(s) == Core(t)
    ensures s == t
  {
    InLoneTrie(written, q, base, s);
    InLoneTrie(written, q, base, t);
    PrefixesOfOne(base, s, t, q);
    if s != t {
      CoreLonger(s, t);
      EndsThere(written, q, base, s);
      EndsThere(written, q, base, t);
    }
  }

  /** A node that prints as nothing is emitted for its value only. */
  lemma {:induction false} EndsThere(written: map<Path, Value>, q: Path, base: Path, s: Path)
    requires OnlyKeyBelow(written, base, q) && IsEmitted(TrieOf(written), base, s) && CleanPath(s) && Core(s) == []
    ensures |q| == |base| + |s|
  {
    ShowPathCore(s);
    TrieNode(written, base + s, Idx(0));
    assert base <= base + s;
  }

  lemma {:induction false} InLoneTrie(written: map<Path, Value>, q: Path, base: Path, s: Path)
    requires OnlyKeyBelow(written, base, q) && base + s in TrieOf(written)
    ensures base + s <= q && CleanPath(s)
  {
    InTrie(written, base + s);
    if base + s != [] {
      var k :| k in written && base + s <= k;
      assert base <= base + s <= k;
    }
    assert CleanPath(base + s);
    CleanTail(base, s);
  }

  /** With one key at or below it a dictionary has no two nodes that print alike. */
  lemma {:induction false} LoneAgree(written: map<Path, Value>, base: Path, q: Path)
    requires OnlyKeyBelow(written, base, q)
    ensures Agree(TrieOf(written), base)
  {
    forall s, t | IsEmitted(TrieOf(written), base, s) && IsEmitted(TrieOf(written), base, t) && Core(s) == Core(t)
      ensures s == t
    {
      if |s| <= |t| {
        LonePaths(written, q, base, s, t);
      } else {
        LonePaths(written, q, base, t, s);
      }
    }
  }

  lemma {:induction false} LoneAllAgree(written: map<Path, Value>, q: Path)
    requires written.Keys == {q} && CleanPath(q)
    ensures AllAgree(TrieOf(written))
  {
    forall p | p in TrieOf(written)
      ensures Agree(TrieOf(written), p)
    {
      LoneAgree(written, p, q);
    }
  }

  /** One of the dictionaries that the walk at `base` can be collected into. */
  ghost predicate IsOutcome(nodes: Nodes, base: Path, m: map<string, Value>)
  {
    base in nodes && exists o :: IsOrder(nodes, o) && m == DictIn(nodes, o, base)
  }
}
