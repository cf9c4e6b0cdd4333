/** `unflatten`: the trie is built, walked in whatever order the sets iterate, and collected. */
module Unflatten {
  import opened Finite
  import opened Flattening
  import opened Keys
  import opened Orders
  import opened Outcomes
  import opened Precedence
  import opened Tries
  import opened Walks
  import opened Wrappers

  // ---------------------------------------------------------------- what the walk rests on

  /** In every trie that pairs can build: a valued node has no indices, indices and branches are
      disjoint, and the child under an index has no value. */
  lemma TrieInvariants(written: map<Path, Value>, p: Path, i: nat)
    requires p in TrieOf(written)
    ensures TrieOf(written)[p].value.Some? ==> TrieOf(written)[p].indices == {}
    ensures !(i in TrieOf(written)[p].indices && Idx(i) in TrieOf(written)[p].branches)
    ensures i in TrieOf(written)[p].indices ==>
              p + [Idx(i)] in TrieOf(written) && TrieOf(written)[p + [Idx(i)]].value.None?
  {
    TrieNode(written, p, Idx(i));
    if p + [Idx(i)] in TrieOf(written) {
      TrieNode(written, p + [Idx(i)], Idx(0));
    }
    forall j: nat
      ensures p in written ==> j !in TrieOf(written)[p].indices
    {
      TrieNode(written, p, Idx(j));
    }
  }

  lemma {:induction false} TrieIsLike(written: map<Path, Value>)
    ensures TrieLike(TrieOf(written))
  {
    forall p, l | p in TrieOf(written) && l in IndexLabels(TrieOf(written)[p]) + TrieOf(written)[p].branches
      ensures p + [l] in TrieOf(written)
      ensures !(l in IndexLabels(TrieOf(written)[p]) && l in TrieOf(written)[p].branches)
    {
      TrieNode(written, p, l);
      if l.Idx? {
        TrieInvariants(written, p, l.i);
      }
    }
  }

  // ---------------------------------------------------------------- in whatever order the sets iterate

  /** The elements of a set in no particular order. */
  method AnyTurn(labels: set<Label>) returns (turn: seq<Label>)
    ensures Enumerates(turn, labels)
  {
    turn := [];
    var todo := labels;
    while todo != {}
      invariant todo <= labels && Enumerates(turn, labels - todo)
      decreases todo
    {
      var l :| l in todo;
      turn, todo := turn + [l], todo - {l};
    }
  }

  /** The order in which the sets of the trie happen to iterate: any order at all. */
  method AnyOrder(nodes: Nodes) returns (o: Order)
    ensures IsOrder(nodes, o)
  {
    var at: map<Path, Turns> := map[];
    var todo := nodes.Keys;
    while todo != {}
      invariant todo <= nodes.Keys
      invariant forall p :: p in nodes.Keys - todo ==>
                  p in at && Enumerates(at[p].indices, IndexLabels(nodes[p]))
                  && Enumerates(at[p].branches, nodes[p].branches)
      decreases todo
    {
      var p :| p in todo;
      var indices := AnyTurn(IndexLabels(nodes[p]));
      var branches := AnyTurn(nodes[p].branches);
      at, todo := at[p := Turns(indices, branches)], todo - {p};
    }
    o := Order(at);
  }

  /** `_walk`, with the order of iteration as it happens to be. */
  method WalkPairs(nodes: Nodes, o: Order, p: Path, prefix: string) returns (out: Pairs)
    requires IsOrder(nodes, o) && TrieLike(nodes) && p in nodes
    ensures out == WalkIn(nodes, o, p, prefix)
    decreases Reach(nodes, p), if prefix == "" then 4 else 6, 0
  {
    var node, turns := nodes[p], o.at[p];
    out := [];
    if node.value.Some? {
      out := [(prefix, node.value.value)];
    } else if prefix != "" && node.indices != {} {
      var items := WalkList(nodes, o, p);
      out := [(prefix, List(items))];
    } else if node.indices != {} {
      out := WalkLabels(nodes, o, p, prefix, turns.indices);
    } else if prefix != "" {
      var inner := WalkDictionary(nodes, o, p);
      return [(prefix, Dict(inner))];
    }
    var rest := WalkLabels(nodes, o, p, prefix, turns.branches);
    out := out + rest;
    NoIndexTurn(nodes, o, p);
  }

  lemma {:induction false} NoIndexTurn(nodes: Nodes, o: Order, p: Path)
    requires IsOrder(nodes, o) && p in nodes
    ensures nodes[p].indices == {} ==> o.at[p].indices == []
  {
    if o.at[p].indices != [] {
      assert o.at[p].indices[0] in IndexLabels(nodes[p]);
    }
  }

  /** The loop over the children under `labels`. */
  method WalkLabels(nodes: Nodes, o: Order, p: Path, prefix: string, labels: seq<Label>) returns (out: Pairs)
    requires IsOrder(nodes, o) && TrieLike(nodes) && p in nodes
    requires forall l :: l in labels ==> p + [l] in nodes
    ensures out == LabelsIn(nodes, o, p, prefix, labels)
    decreases Reach(nodes, p), 3, 0
  {
    out := [];
    for k := 0 to |labels|
      invariant out == LabelsIn(nodes, o, p, prefix, labels[..k])
    {
      ReachShrinks(nodes, p, labels[k]);
      var more := WalkPairs(nodes, o, p + [labels[k]], Join(prefix, ShowLabel(labels[k])));
      assert labels[..k + 1][..k] == labels[..k];
      out := out + more;
    }
    assert labels[..|labels|] == labels;
  }

  /** `dict(_walk(trie))` */
  method WalkDictionary(nodes: Nodes, o: Order, p: Path) returns (m: map<string, Value>)
    requires IsOrder(nodes, o) && TrieLike(nodes) && p in nodes
    ensures m == DictIn(nodes, o, p)
    decreases Reach(nodes, p), 5, 0
  {
    var pairs := WalkPairs(nodes, o, p, "");
    m := DictOf(pairs);
  }

  /** `[dict(_walk(trie[index])) for index in sorted(trie.indices)]` */
  method WalkList(nodes: Nodes, o: Order, p: Path) returns (items: seq<Value>)
    requires IsOrder(nodes, o) && TrieLike(nodes) && p in nodes
    ensures List(items) == ListIn(nodes, o, p)
    decreases Reach(nodes, p), 1, 0
  {
    var order := Sorted(nodes[p].indices);
    ghost var all := ListIn(nodes, o, p).items;
    items := [];
    for k := 0 to |order|
      invariant items == all[..k]
    {
      SortedHolds(nodes[p].indices, k);
      assert Idx(order[k]) in IndexLabels(nodes[p]);
      ReachShrinks(nodes, p, Idx(order[k]));
      var item := WalkDictionary(nodes, o, p + [Idx(order[k])]);
      assert all[k] == ItemIn(nodes, o, p, order[k]);
      TakeOneMore(all, k);
      items := items + [Dict(item)];
    }
    assert all[..|order|] == all;
  }

  lemma TakeOneMore<T>(xs: seq<T>, k: nat)
    requires k < |xs|
    ensures xs[..k + 1] == xs[..k] + [xs[k]]
  {
  }

  // ---------------------------------------------------------------- unflatten

  /** No key with a value has an empty segment. */
  ghost predicate NoEmptySegments(pairs: Pairs)
  {
    forall f :: f in pairs && f.1 != Null ==> GoodPath(ParseKey(f.0))
  }

  lemma {:induction false} NoEmptySegmentsGood(pairs: Pairs)
    requires NoEmptySegments(pairs)
    ensures GoodPaths(LastWrites(pairs))
    decreases |pairs|
  {
    if pairs != [] {
      var init, last := pairs[..|pairs| - 1], pairs[|pairs| - 1];
      assert pairs == init + [last];
      NoEmptySegmentsGood(init);
    }
  }

  /** The trie that pairs build: its segments are as reading produces them. */
  lemma {:induction false} WritesAreClean(pairs: Pairs)
    ensures forall q :: q in LastWrites(pairs) ==> q != [] && CleanPath(q)
    decreases |pairs|
  {
    if pairs != [] {
      WritesAreClean(pairs[..|pairs| - 1]);
      ParseKeyClean(pairs[|pairs| - 1].0);
    }
  }

  lemma {:induction false} CleanTrie(written: map<Path, Value>)
    requires forall q :: q in written ==> CleanPath(q)
    ensures CleanNodes(TrieOf(written)) && TrieLike(TrieOf(written)) && [] in TrieOf(written)
  {
    TrieIsLike(written);
    InTrie(written, []);
    forall p | p in TrieOf(written)
      ensures CleanPath(p)
    {
      InTrie(written, p);
    }
  }

  /** `unflatten`: what the trie of the last values is collected into in some order; the expected
      attributes where nodes that print alike agree. */
  method Unflatten(pairs: Pairs) returns (m: map<string, Value>)
    ensures IsOutcome(TrieOf(LastWrites(pairs)), [], m)
    ensures AllAgree(TrieOf(LastWrites(pairs))) ==> m == Unflattened(LastWrites(pairs))
  {
    var trie := BuildTrie(pairs);
    WritesAreClean(pairs);
    CleanTrie(LastWrites(pairs));
    var o := AnyOrder(trie.nodes);
    m := WalkDictionary(trie.nodes, o, []);
    if AllAgree(trie.nodes) {
      ExpectedOutcome(trie.nodes, o, []);
    }
  }

  /** For any pairs: the result does not depend on the order the sets iterate in exactly when, in the
      result and inside the values that survive in it, nodes that differ only in leading empty segments
      and are not overtaken by one another have the same value. */
  lemma {:induction false} ResultIsDeterminedExactly(pairs: Pairs, o: Order)
    requires IsOrder(TrieOf(LastWrites(pairs)), o)
    ensures [] in TrieOf(LastWrites(pairs))
    ensures OneOutcome(TrieOf(LastWrites(pairs)), []) <==> Determined(TrieOf(LastWrites(pairs)), o, [])
  {
    WritesAreClean(pairs);
    CleanTrie(LastWrites(pairs));
    OneOutcomeExactly(TrieOf(LastWrites(pairs)), o, []);
  }

  /** Without empty segments, and for a single key whatever its segments, there is no choice at all. */
  lemma {:induction false} DeterminedWithoutEmptySegments(pairs: Pairs)
    requires NoEmptySegments(pairs) || exists q :: LastWrites(pairs).Keys == {q}
    ensures AllAgree(TrieOf(LastWrites(pairs)))
    ensures forall m :: IsOutcome(TrieOf(LastWrites(pairs)), [], m) <==> m == Unflattened(LastWrites(pairs))
  {
    var written := LastWrites(pairs);
    WritesAreClean(pairs);
    CleanTrie(written);
    if NoEmptySegments(pairs) {
      NoEmptySegmentsGood(pairs);
      GoodAllAgree(written);
    } else {
      var q :| written.Keys == {q};
      LoneAllAgree(written, q);
    }
    SomeOrderIsOrder(TrieOf(written));
    ExpectedOutcome(TrieOf(written), SomeOrder(TrieOf(written)), []);
    forall o | IsOrder(TrieOf(written), o)
      ensures DictIn(TrieOf(written), o, []) == Unflattened(written)
    {
      ExpectedOutcome(TrieOf(written), o, []);
    }
  }

  // ---------------------------------------------------------------- only the last values matter

  /** The last value other than `Null` given for each key. */
  function LastByKey(pairs: Pairs): map<string, Value>
  {
    if pairs == [] then map[]
    else
      var before, last := LastByKey(pairs[..|pairs| - 1]), pairs[|pairs| - 1];
      if last.1 == Null then before else before[last.0 := last.1]
  }

  ghost predicate NormalKeys(pairs: Pairs)
  {
    forall f :: f in pairs && f.1 != Null ==> Normal(f.0)
  }

  /** Normal keys and paths correspond one to one. */
  lemma {:induction false} LastByKeyIsLastWrites(pairs: Pairs)
    requires NormalKeys(pairs)
    ensures forall k :: k in LastByKey(pairs) <==> Normal(k) && ParseKey(k) in LastWrites(pairs)
    ensures forall k :: k in LastByKey(pairs) ==> LastWrites(pairs)[ParseKey(k)] == LastByKey(pairs)[k]
    ensures forall p :: p in LastWrites(pairs) ==> ShowPath(p) in LastByKey(pairs) && ParseKey(ShowPath(p)) == p
    decreases |pairs|
  {
    if pairs != [] {
      var init, last := pairs[..|pairs| - 1], pairs[|pairs| - 1];
      assert pairs == init + [last];
      assert last in pairs;
      LastByKeyIsLastWrites(init);
    }
  }

  /** The result of `unflatten` depends only on the map from key to last value: neither the order of
      the pairs nor overwritten values nor absent values make a difference. */
  lemma UnflattenCanonical(xs: Pairs, ys: Pairs)
    requires NormalKeys(xs) && NormalKeys(ys) && LastByKey(xs) == LastByKey(ys)
    ensures LastWrites(xs) == LastWrites(ys)
    ensures TrieOf(LastWrites(xs)) == TrieOf(LastWrites(ys))
            && Unflattened(LastWrites(xs)) == Unflattened(LastWrites(ys))
  {
    LastByKeyIsLastWrites(xs);
    LastByKeyIsLastWrites(ys);
    forall p
      ensures p in LastWrites(xs) <==> p in LastWrites(ys)
      ensures p in LastWrites(xs) ==> LastWrites(xs)[p] == LastWrites(ys)[p]
    {
      if p in LastWrites(xs) {
        assert ShowPath(p) in LastByKey(xs);
      }
      if p in LastWrites(ys) {
        assert ShowPath(p) in LastByKey(ys);
      }
    }
    assert LastWrites(xs) == LastWrites(ys);
  }

  /** In terms of keys: flattening the result of `unflatten` returns exactly the keys with their last
      values if and only if every list is numbered without gaps. */
  lemma FlattenUnflattenByKey(pairs: Pairs)
    requires NormalKeys(pairs) && Leaves(LastWrites(pairs))
    ensures (forall f :: f in Flatten("", Dict(Unflattened(LastWrites(pairs)))) <==>
                         f.0 in LastByKey(pairs) && LastByKey(pairs)[f.0] == f.1)
       <==> Gapless(TrieOf(LastWrites(pairs)))
  {
    var written, last := LastWrites(pairs), LastByKey(pairs);
    NoEmptySegmentsGood(pairs);
    LastByKeyIsLastWrites(pairs);
    LosslessExactlyWithoutGaps(written);
    forall f: (string, Value)
      ensures (f.0 in last && last[f.0] == f.1) <==> exists q :: q in written && f == (ShowPath(q), written[q])
    {
      if f.0 in last && last[f.0] == f.1 {
        var q := ParseKey(f.0);
        assert q in written && f == (ShowPath(q), written[q]);
      }
    }
  }
}
