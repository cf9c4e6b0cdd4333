/** Flattening nested attributes, and what flattening makes of unflattened ones. */
module Flattening {
  import opened Wrappers
  import opened Keys
  import opened Tries
  import opened Walks

  predicate HasMapping(items: seq<Value>)
  {
    exists i :: 0 <= i < |items| && items[i].Dict?
  }

  /** The pairs `flatten(..., recurse_on_sequence=True)` yields for a value under a key. */
  ghost function Flatten(key: string, v: Value): PairSet
    decreases v
  {
    match v
    case Null => {}
    case Atom(_) => {(key, v)}
    case Dict(entries) =>
      set k, kv | k in entries && kv in Flatten(Join(key, k), entries[k]) :: kv
    case List(items) =>
      (if HasMapping(items) then {} else {(key, v)})
      + set i, kv | 0 <= i < |items| && items[i].Dict? && kv in Flatten(Join(key, Show(i)), items[i]) :: kv
  }

  /** A list is flattened item by item, numbered by position, as soon as one of its items is a
      dictionary; its other items are then dropped. Without dictionaries it is left whole. */
  lemma ListFlattens(key: string, items: seq<Value>, f: (string, Value))
    ensures (exists d :: d in items && d.Dict?) ==>
              (f in Flatten(key, List(items)) <==>
                exists i :: 0 <= i < |items| && items[i].Dict? && f in Flatten(Join(key, Show(i)), items[i]))
    ensures (forall d :: d in items ==> !d.Dict?) ==> (f in Flatten(key, List(items)) <==> f == (key, List(items)))
  {
    if d :| d in items && d.Dict? {
      var i :| 0 <= i < |items| && items[i] == d;
      assert HasMapping(items);
    }
  }

  /** A value that flattening leaves whole. */
  predicate Leaf(v: Value)
  {
    v.Atom? || (v.List? && !HasMapping(v.items))
  }

  ghost predicate Leaves(written: map<Path, Value>)
  {
    forall q :: q in written ==> Leaf(written[q])
  }

  // ---------------------------------------------------------------- which nodes become lists

  /** The node is walked under an empty prefix: the root, or an element of a list. */
  ghost predicate Bare(nodes: Nodes, p: Path)
    decreases |p|, 0
  {
    p == [] || IsElement(nodes, p[..|p| - 1], p[|p| - 1])
  }

  /** The child `l` of `p` is an element of the list that `p` turns into. */
  ghost predicate IsElement(nodes: Nodes, p: Path, l: Label)
    decreases |p|, 1
  {
    p in nodes && nodes[p].value.None? && l.Idx? && l.i in nodes[p].indices && !Bare(nodes, p)
  }

  /** The path with the index of every list element replaced by its position in the list. */
  ghost function Compact(nodes: Nodes, p: Path): Path
    decreases |p|
  {
    if p == [] then []
    else
      var u, l := p[..|p| - 1], p[|p| - 1];
      Compact(nodes, u) + [if IsElement(nodes, u, l) then Idx(Rank(l.i, nodes[u].indices)) else l]
  }

  lemma CompactChild(nodes: Nodes, p: Path, l: Label)
    ensures Compact(nodes, p + [l])
         == Compact(nodes, p) + [if IsElement(nodes, p, l) then Idx(Rank(l.i, nodes[p].indices)) else l]
    ensures Bare(nodes, p + [l]) <==> IsElement(nodes, p, l)
  {
    assert (p + [l])[..|p|] == p;
  }

  lemma {:induction false} CompactGood(nodes: Nodes, p: Path)
    requires GoodPath(p)
    ensures GoodPath(Compact(nodes, p)) && |Compact(nodes, p)| == |p|
    decreases |p|
  {
    if p != [] {
      CompactGood(nodes, p[..|p| - 1]);
    }
  }

  // ---------------------------------------------------------------- flattening what a walk yields

  /** `f` comes out of the pair `kv` of the dictionary for `base`, flattened under its own key. */
  ghost predicate FlatPair(nodes: Nodes, base: Path, kv: (string, Value), f: (string, Value))
  {
    f in Flatten(Join(ShowPath(Compact(nodes, base)), kv.0), kv.1)
  }

  /** The flattened pair `f` comes out of what is walked at `base + r` under the prefix for `r`,
      when the dictionary for `base` is itself flattened under its own key. */
  ghost predicate FlatIn(nodes: Nodes, base: Path, r: Path, f: (string, Value))
    requires base + r in nodes
  {
    exists kv :: kv in Walk(nodes, base + r, ShowPath(r)) && FlatPair(nodes, base, kv, f)
  }

  /** Where a walk can stand: a bare start, or a dotted prefix whose labels need no renumbering. */
  ghost predicate Standing(written: map<Path, Value>, base: Path, r: Path)
  {
    var nodes := TrieOf(written);
    && base + r in nodes && GoodPaths(written) && Leaves(written)
    && (r == [] ==> base !in written && (Bare(nodes, base) || nodes[base + r].indices == {}))
    && (r != [] ==> !Bare(nodes, base + r) && Compact(nodes, base + r) == Compact(nodes, base) + r)
  }

  lemma StandingKey(written: map<Path, Value>, base: Path, r: Path)
    requires Standing(written, base, r) && r != []
    ensures ShowPath(r) != ""
    ensures Join(ShowPath(Compact(TrieOf(written), base)), ShowPath(r)) == ShowPath(Compact(TrieOf(written), base + r))
  {
    var nodes := TrieOf(written);
    GoodNode(written, base + r);
    assert GoodPath(r) by { assert forall k :: 0 <= k < |r| ==> r[k] == (base + r)[|base| + k]; }
    ShowPathJoin(Compact(nodes, base), r);
  }

  lemma AppendLast(base: Path, r: Path, l: Label)
    ensures base + (r + [l]) == base + r + [l] && base + r + [l] + [] == base + r + [l]
  {
  }

  lemma StandingChild(written: map<Path, Value>, base: Path, r: Path, l: Label)
    requires Standing(written, base, r) && base + r + [l] in TrieOf(written)
    ensures base + (r + [l]) == base + r + [l]
    ensures IsElement(TrieOf(written), base + r, l) ==> Standing(written, base + r + [l], [])
    ensures !IsElement(TrieOf(written), base + r, l) ==> Standing(written, base, r + [l])
  {
    AppendLast(base, r, l);
    CompactChild(TrieOf(written), base + r, l);
    if IsElement(TrieOf(written), base + r, l) {
      TrieNode(written, base + r, l);
    } else {
      CompactAlong(written, base, r, l);
    }
  }

  /** A label that is no list element keeps its place. */
  lemma CompactAlong(written: map<Path, Value>, base: Path, r: Path, l: Label)
    requires Standing(written, base, r) && !IsElement(TrieOf(written), base + r, l)
    ensures Compact(TrieOf(written), base + (r + [l])) == Compact(TrieOf(written), base) + (r + [l])
  {
    var nodes := TrieOf(written);
    AppendLast(base, r, l);
    CompactChild(nodes, base + r, l);
    AppendLast(Compact(nodes, base), r, l);
    if r == [] {
      assert base + r == base && Compact(nodes, base) + r == Compact(nodes, base);
    }
  }

  // One step down, in each of the ways a node can be walked.

  /** A pair yielded by a child walked under a longer prefix. */
  lemma FlatChild(nodes: Nodes, base: Path, r: Path, l: Label, f: (string, Value))
    requires base + r in nodes && base + (r + [l]) in nodes
    ensures FlatIn(nodes, base, r + [l], f) <==>
            exists kv :: kv in WalkChild(nodes, base + r, l, ShowPath(r))
                         && FlatPair(nodes, base, kv, f)
  {
    assert base + r + [l] == base + (r + [l]);
    ShowPathLast(r, l);
  }

  /** Flattening the dictionary a functional set of pairs makes flattens the pairs. */
  lemma FlatDict(key: string, s: PairSet, f: (string, Value))
    requires Functional(s)
    ensures f in Flatten(key, Dict(AsDict(s))) <==> exists kv :: kv in s && f in Flatten(Join(key, kv.0), kv.1)
  {
    var d := AsDict(s);
    if kv :| kv in s && f in Flatten(Join(key, kv.0), kv.1) {
      AsDictLooksUp(s, kv);
      assert kv.0 in d;
    }
    if f in Flatten(key, Dict(d)) {
      var k :| k in d && f in Flatten(Join(key, k), d[k]);
      AsDictLooksUp(s, (k, d[k]));
    }
  }

  lemma FlatDictAt(written: map<Path, Value>, p: Path, f: (string, Value))
    requires Standing(written, p, [])
    ensures p + [] == p && p in TrieOf(written)
    ensures FlatIn(TrieOf(written), p, [], f) <==>
            f in Flatten(ShowPath(Compact(TrieOf(written), p)), Dict(AsDict(Walk(TrieOf(written), p, ""))))
  {
    assert p + [] == p;
    WalkFunctional(written, p);
    FlatPairs(TrieOf(written), p, f);
  }

  lemma FlatPairs(nodes: Nodes, p: Path, f: (string, Value))
    requires p in nodes && p + [] == p && Functional(Walk(nodes, p, ""))
    ensures FlatIn(nodes, p, [], f) <==> f in Flatten(ShowPath(Compact(nodes, p)), Dict(AsDict(Walk(nodes, p, ""))))
  {
    var key, pairs := ShowPath(Compact(nodes, p)), Walk(nodes, p, "");
    assert ShowPath([]) == "";
    FlatDict(key, pairs, f);
    forall kv
      ensures FlatPair(nodes, p, kv, f) <==> f in Flatten(Join(key, kv.0), kv.1)
    {
    }
  }

  lemma FlatItems(key: string, items: seq<Value>, f: (string, Value))
    requires items != [] && forall k :: 0 <= k < |items| ==> items[k].Dict?
    ensures f in Flatten(key, List(items)) <==>
            exists k :: 0 <= k < |items| && f in Flatten(Join(key, Show(k)), items[k])
  {
    assert items[0].Dict?;
  }

  /** The position of the element under `l` yields the pair. */
  ghost predicate YieldsAt(written: map<Path, Value>, p: Path, l: Label, f: (string, Value))
  {
    && IsElement(TrieOf(written), p, l) && p + [l] + [] in TrieOf(written)
    && FlatIn(TrieOf(written), p + [l], [], f)
  }

  /** A list of dictionaries flattens into what its elements flatten into. */
  lemma FlatListAt(written: map<Path, Value>, p: Path, f: (string, Value))
    requires GoodPaths(written) && Leaves(written)
    requires p in TrieOf(written) && p !in written && !Bare(TrieOf(written), p) && TrieOf(written)[p].indices != {}
    ensures f in Flatten(ShowPath(Compact(TrieOf(written), p)), ListAt(TrieOf(written), p)) <==>
            exists l :: YieldsAt(written, p, l, f)
  {
    var key, items := ShowPath(Compact(TrieOf(written), p)), ListAt(TrieOf(written), p).items;
    forall k | 0 <= k < |items|
      ensures items[k].Dict?
      ensures f in Flatten(Join(key, Show(k)), items[k])
         <==> YieldsAt(written, p, Idx(Sorted(TrieOf(written)[p].indices)[k]), f)
    {
      ItemFlat(written, p, k, f);
    }
    FlatItems(key, items, f);
    ElementsByRank(written, p, f);
  }

  lemma ItemFlat(written: map<Path, Value>, p: Path, k: nat, f: (string, Value))
    requires GoodPaths(written) && Leaves(written)
    requires p in TrieOf(written) && p !in written && !Bare(TrieOf(written), p)
    requires k < |TrieOf(written)[p].indices|
    ensures ListAt(TrieOf(written), p).items[k].Dict?
    ensures f in Flatten(Join(ShowPath(Compact(TrieOf(written), p)), Show(k)), ListAt(TrieOf(written), p).items[k])
       <==> YieldsAt(written, p, Idx(Sorted(TrieOf(written)[p].indices)[k]), f)
  {
    var nodes := TrieOf(written);
    var order := Sorted(nodes[p].indices);
    SortedHolds(nodes[p].indices, k);
    TrieNode(written, p, Idx(0));
    assert IsElement(nodes, p, Idx(order[k]));
    ElementFlat(written, p, Idx(order[k]), f);
    assert ListAt(nodes, p).items[k] == ElementAt(nodes, p, order[k]);
  }

  /** The elements of a list are those at the positions of its sorted indices. */
  lemma ElementsByRank(written: map<Path, Value>, p: Path, f: (string, Value))
    requires p in TrieOf(written)
    ensures (exists l :: YieldsAt(written, p, l, f)) <==>
            exists k :: 0 <= k < |TrieOf(written)[p].indices|
                        && YieldsAt(written, p, Idx(Sorted(TrieOf(written)[p].indices)[k]), f)
  {
    var indices := TrieOf(written)[p].indices;
    if l :| YieldsAt(written, p, l, f) {
      SortedRank(indices, l.i);
      assert l == Idx(Sorted(indices)[Rank(l.i, indices)]);
    }
  }

  lemma ElementFlat(written: map<Path, Value>, p: Path, l: Label, f: (string, Value))
    requires GoodPaths(written) && Leaves(written)
    requires IsElement(TrieOf(written), p, l)
    ensures p + [l] + [] in TrieOf(written) && ElementAt(TrieOf(written), p, l.i).Dict?
    ensures FlatIn(TrieOf(written), p + [l], [], f) <==>
            f in Flatten(Join(ShowPath(Compact(TrieOf(written), p)), Show(Rank(l.i, TrieOf(written)[p].indices))),
                         ElementAt(TrieOf(written), p, l.i))
  {
    var nodes := TrieOf(written);
    TrieNode(written, p, l);
    CompactChild(nodes, p, l);
    assert p + [l] + [] == p + [l];
    assert Standing(written, p + [l], []);
    FlatDictAt(written, p + [l], f);
    ShowPathLast(Compact(nodes, p), Idx(Rank(l.i, nodes[p].indices)));
    assert l == Idx(l.i);
  }

  /** The pair comes out of the walk that goes on at the child `l`. */
  ghost predicate ComesOutAt(nodes: Nodes, base: Path, r: Path, l: Label, f: (string, Value))
  {
    if IsElement(nodes, base + r, l) then base + r + [l] + [] in nodes && FlatIn(nodes, base + r + [l], [], f)
    else base + (r + [l]) in nodes && FlatIn(nodes, base, r + [l], f)
  }

  ghost predicate IsPlain(nodes: Nodes, p: Path)
    requires p in nodes
  {
    nodes[p].value.None? && nodes[p].indices == {}
  }

  lemma FlatLeaf(key: string, v: Value, f: (string, Value))
    requires Leaf(v)
    ensures f in Flatten(key, v) <==> f == (key, v)
  {
  }

  lemma OwnPair(written: map<Path, Value>, base: Path, r: Path, f: (string, Value))
    requires Standing(written, base, r) && r != [] && !IsPlain(TrieOf(written), base + r)
    ensures var nodes, p := TrieOf(written), base + r;
            f in Flatten(Join(ShowPath(Compact(nodes, base)), ShowPath(r)), Emitted(nodes, p)) <==>
              if p in written then f == (ShowPath(Compact(nodes, p)), written[p])
              else exists l :: IsElement(nodes, p, l) && ComesOutAt(TrieOf(written), base, r, l, f)
  {
    var nodes, p := TrieOf(written), base + r;
    StandingKey(written, base, r);
    TrieNode(written, p, Idx(0));
    if p in written {
      assert Emitted(nodes, p) == written[p];
      FlatLeaf(ShowPath(Compact(nodes, p)), written[p], f);
    } else {
      assert Emitted(nodes, p) == ListAt(nodes, p);
      FlatListAt(written, p, f);
      if l :| YieldsAt(written, p, l, f) {
        assert IsElement(nodes, p, l) && ComesOutAt(TrieOf(written), base, r, l, f);
      }
      if l :| IsElement(nodes, p, l) && ComesOutAt(TrieOf(written), base, r, l, f) {
        assert YieldsAt(written, p, l, f);
      }
    }
  }

  /** The walk enters exactly the children that are no list elements. */
  lemma Entered(written: map<Path, Value>, base: Path, r: Path, l: Label)
    requires Standing(written, base, r) && (r == [] || !IsPlain(TrieOf(written), base + r))
    requires base + r + [l] in TrieOf(written)
    ensures Enters(TrieOf(written)[base + r], ShowPath(r), l) <==> !IsElement(TrieOf(written), base + r, l)
  {
    var p := base + r;
    TrieNode(written, p, l);
    assert r == [] ==> p == base;
    if r != [] {
      StandingKey(written, base, r);
    }
    assert l.Idx? ==> Idx(l.i) == l;
  }

  lemma ChildPair(nodes: Nodes, base: Path, r: Path, l: Label, f: (string, Value), kv: (string, Value))
    requires base + r in nodes && ChildYields(nodes, base + r, ShowPath(r), l, kv) && FlatPair(nodes, base, kv, f)
    requires base + r + [l] in nodes ==> !IsElement(nodes, base + r, l)
    ensures ComesOutAt(nodes, base, r, l, f)
  {
    AppendLast(base, r, l);
    FlatChild(nodes, base, r, l, f);
  }

  lemma ChildReached(nodes: Nodes, base: Path, r: Path, l: Label, f: (string, Value))
    requires base + r in nodes && !IsElement(nodes, base + r, l) && ComesOutAt(nodes, base, r, l, f)
    requires Enters(nodes[base + r], ShowPath(r), l)
    ensures FlatIn(nodes, base, r, f)
  {
    var p := base + r;
    FlatChild(nodes, base, r, l, f);
    var kv :| kv in WalkChild(nodes, p, l, ShowPath(r)) && FlatPair(nodes, base, kv, f);
    assert ChildYields(nodes, p, ShowPath(r), l, kv);
    WalkCases(nodes, p, ShowPath(r), kv);
  }

  lemma FlatCases(nodes: Nodes, base: Path, r: Path, f: (string, Value))
    requires base + r in nodes
    requires forall l | base + r + [l] in nodes ::
               Enters(nodes[base + r], ShowPath(r), l) <==> !IsElement(nodes, base + r, l)
    ensures FlatIn(nodes, base, r, f) <==>
            || ((ShowPath(r) != "" || nodes[base + r].value.Some?)
                && FlatPair(nodes, base, (ShowPath(r), Emitted(nodes, base + r)), f))
            || exists l :: !IsElement(nodes, base + r, l) && ComesOutAt(nodes, base, r, l, f)
  {
    if FlatIn(nodes, base, r, f) {
      FlatSource(nodes, base, r, f);
    }
    var own := (ShowPath(r), Emitted(nodes, base + r));
    if (ShowPath(r) != "" || nodes[base + r].value.Some?) && FlatPair(nodes, base, own, f) {
      WalkCases(nodes, base + r, ShowPath(r), own);
    }
    if l :| !IsElement(nodes, base + r, l) && ComesOutAt(nodes, base, r, l, f) {
      AppendLast(base, r, l);
      ChildReached(nodes, base, r, l, f);
    }
  }

  lemma FlatSource(nodes: Nodes, base: Path, r: Path, f: (string, Value))
    requires base + r in nodes && FlatIn(nodes, base, r, f)
    requires forall l | base + r + [l] in nodes ::
               Enters(nodes[base + r], ShowPath(r), l) <==> !IsElement(nodes, base + r, l)
    ensures || ((ShowPath(r) != "" || nodes[base + r].value.Some?)
                && FlatPair(nodes, base, (ShowPath(r), Emitted(nodes, base + r)), f))
            || exists l :: !IsElement(nodes, base + r, l) && ComesOutAt(nodes, base, r, l, f)
  {
    var kv :| kv in Walk(nodes, base + r, ShowPath(r)) && FlatPair(nodes, base, kv, f);
    WalkCases(nodes, base + r, ShowPath(r), kv);
    if l :| ChildYields(nodes, base + r, ShowPath(r), l, kv) {
      ChildPair(nodes, base, r, l, f, kv);
      assert base + r + [l] in nodes;
    }
  }

  /** What comes out of a walk is the node's own value or comes out at one of the children. */
  lemma FlatStep(written: map<Path, Value>, base: Path, r: Path, f: (string, Value))
    requires Standing(written, base, r) && (r == [] || !IsPlain(TrieOf(written), base + r))
    ensures FlatIn(TrieOf(written), base, r, f) <==>
            || (base + r in written && f == (ShowPath(Compact(TrieOf(written), base + r)), written[base + r]))
            || exists l :: ComesOutAt(TrieOf(written), base, r, l, f)
  {
    var nodes, p := TrieOf(written), base + r;
    forall l | p + [l] in nodes
      ensures Enters(nodes[p], ShowPath(r), l) <==> !IsElement(nodes, p, l)
    {
      Entered(written, base, r, l);
    }
    FlatCases(nodes, base, r, f);
    if r == [] {
      StandingAtBase(written, base);
    } else {
      StandingKey(written, base, r);
      OwnPair(written, base, r, f);
    }
  }

  /** A dictionary is walked from a node without a value, none of whose children is a list element. */
  lemma StandingAtBase(written: map<Path, Value>, base: Path)
    requires Standing(written, base, [])
    ensures base + [] == base && base in TrieOf(written) && base !in written && TrieOf(written)[base].value.None?
    ensures forall l :: !IsElement(TrieOf(written), base, l)
  {
    assert base + [] == base;
    TrieNode(written, base, Idx(0));
  }

  // ---------------------------------------------------------------- the whole walk

  /** `f` is what was written to `q`, under the renumbered key. */
  ghost predicate IsWritten(written: map<Path, Value>, q: Path, f: (string, Value))
  {
    q in written && f == (ShowPath(Compact(TrieOf(written), q)), written[q])
  }

  ghost predicate WrittenBelow(written: map<Path, Value>, p: Path, f: (string, Value))
  {
    exists q :: p <= q && IsWritten(written, q, f)
  }

  lemma NextLabel(p: Path, q: Path)
    requires p <= q && p != q
    ensures p + [q[|p|]] <= q
  {
  }

  lemma WrittenStep(written: map<Path, Value>, p: Path, f: (string, Value))
    ensures WrittenBelow(written, p, f) <==>
            IsWritten(written, p, f) || exists l :: p + [l] in TrieOf(written) && WrittenBelow(written, p + [l], f)
  {
    if WrittenBelow(written, p, f) {
      var q :| p <= q && IsWritten(written, q, f);
      if q != p {
        NextLabel(p, q);
        InTrie(written, p + [q[|p|]]);
        assert WrittenBelow(written, p + [q[|p|]], f);
      }
    }
    if l :| p + [l] in TrieOf(written) && WrittenBelow(written, p + [l], f) {
      var q :| p + [l] <= q && IsWritten(written, q, f);
      assert p <= p + [l] <= q;
    }
  }

  lemma {:induction false} FlatWalk(written: map<Path, Value>, base: Path, r: Path, f: (string, Value))
    requires Standing(written, base, r)
    ensures FlatIn(TrieOf(written), base, r, f) <==> WrittenBelow(written, base + r, f)
    decreases Reach(TrieOf(written), base + r), |r|
  {
    var nodes, p := TrieOf(written), base + r;
    if r != [] && IsPlain(nodes, p) {
      FlatPlain(written, base, r, f);
      FlatWalk(written, p, [], f);
    } else {
      forall l | p + [l] in nodes
        ensures ComesOutAt(TrieOf(written), base, r, l, f) <==> WrittenBelow(written, p + [l], f)
      {
        ReachShrinks(nodes, p, l);
        StandingChild(written, base, r, l);
        assert p + [l] + [] == p + [l];
        if IsElement(nodes, p, l) {
          FlatWalk(written, p + [l], [], f);
        } else {
          FlatWalk(written, base, r + [l], f);
        }
      }
      assert forall l :: base + (r + [l]) == p + [l] == p + [l] + [];
      FlatStep(written, base, r, f);
      WrittenStep(written, p, f);
    }
  }

  /** A node with nothing but branches is walked again, as the root of a dictionary of its own. */
  lemma FlatPlain(written: map<Path, Value>, base: Path, r: Path, f: (string, Value))
    requires Standing(written, base, r) && r != [] && IsPlain(TrieOf(written), base + r)
    ensures base + r + [] == base + r && Standing(written, base + r, [])
    ensures FlatIn(TrieOf(written), base, r, f) <==> FlatIn(TrieOf(written), base + r, [], f)
  {
    var nodes, p := TrieOf(written), base + r;
    assert p + [] == p;
    StandingKey(written, base, r);
    TrieNode(written, p, Idx(0));
    FlatDictAt(written, p, f);
    var own := (ShowPath(r), Dict(AsDict(Walk(nodes, p, ""))));
    assert Walk(nodes, p, ShowPath(r)) == {own};
  }

  /** `dict(_walk(trie))`: the nested attributes for what was last written to each path. */
  ghost function Unflattened(written: map<Path, Value>): map<string, Value>
  {
    AsDict(Walk(TrieOf(written), [], ""))
  }

  /** Flattening the unflattened attributes gives back every written value, under its own key with
      the indices of each list renumbered from zero in the order of their numbers. */
  lemma FlattenAfterUnflatten(written: map<Path, Value>, f: (string, Value))
    requires GoodPaths(written) && Leaves(written)
    ensures f in Flatten("", Dict(Unflattened(written))) <==>
            exists q :: IsWritten(written, q, f)
  {
    var root: Path := [];
    InTrie(written, root);
    assert root + [] == root && ShowPath(root) == "";
    assert Standing(written, root, []);
    FlatDictAt(written, [], f);
    FlatWalk(written, [], [], f);
    if q :| IsWritten(written, q, f) {
      assert [] <= q;
      assert WrittenBelow(written, [], f);
    }
  }

  /** The elements of every list are numbered 0, 1, 2, ... without a gap. */
  ghost predicate Gapless(nodes: Nodes)
  {
    forall p, l :: IsElement(nodes, p, l) ==> forall j :: j in nodes[p].indices <==> 0 <= j < |nodes[p].indices|
  }

  lemma {:induction false} RankBelow(s: set<nat>, n: nat, i: nat)
    requires i <= n && forall j :: j in s <==> 0 <= j < n
    ensures Rank(i, s) == i
    decreases i
  {
    if i == 0 {
      assert Smaller(0, s) == {};
    } else {
      RankBelow(s, n, i - 1);
      assert Smaller(i, s) == Smaller(i - 1, s) + {i - 1};
    }
  }

  lemma {:induction false} CompactGapless(nodes: Nodes, p: Path)
    requires Gapless(nodes)
    ensures Compact(nodes, p) == p
    decreases |p|
  {
    if p != [] {
      var u, l := p[..|p| - 1], p[|p| - 1];
      CompactGapless(nodes, u);
      if IsElement(nodes, u, l) {
        RankBelow(nodes[u].indices, |nodes[u].indices|, l.i);
      }
      assert p == u + [l];
    }
  }

  /** Without gaps nothing is lost and nothing moves: the flattened pairs are exactly the keys with
      their last values, dotted keys that conflict with a value included. */
  lemma LosslessWithoutGaps(written: map<Path, Value>, f: (string, Value))
    requires GoodPaths(written) && Leaves(written) && Gapless(TrieOf(written))
    ensures f in Flatten("", Dict(Unflattened(written))) <==>
            exists q :: q in written && f == (ShowPath(q), written[q])
  {
    FlattenAfterUnflatten(written, f);
    forall q | q in written
      ensures IsWritten(written, q, f) <==> f == (ShowPath(q), written[q])
    {
      CompactGapless(TrieOf(written), q);
    }
  }

  // ---------------------------------------------------------------- only without gaps

  /** Flattening the unflattened attributes returns every key with its last value, and no more. */
  ghost predicate Lossless(written: map<Path, Value>)
  {
    forall f :: f in Flatten("", Dict(Unflattened(written))) <==>
      exists q :: q in written && f == (ShowPath(q), written[q])
  }

  function Weight(p: Path): nat
  {
    if p == [] then 0
    else Weight(p[..|p| - 1]) + if p[|p| - 1].Idx? then p[|p| - 1].i else 0
  }

  lemma {:induction false} RankAtMost(i: nat, s: set<nat>)
    ensures Rank(i, s) <= i
    decreases i
  {
    if i == 0 {
      assert Smaller(0, s) == {};
    } else {
      RankAtMost(i - 1, s);
      assert Smaller(i, s) == if i - 1 in s then Smaller(i - 1, s) + {i - 1} else Smaller(i - 1, s);
    }
  }

  /** Renumbering only ever lowers indices. */
  lemma {:induction false} CompactLowers(nodes: Nodes, p: Path)
    ensures Weight(Compact(nodes, p)) <= Weight(p)
    ensures Weight(Compact(nodes, p)) == Weight(p) ==> Compact(nodes, p) == p
    decreases |p|
  {
    if p != [] {
      var u, l := p[..|p| - 1], p[|p| - 1];
      CompactLowers(nodes, u);
      assert p == u + [l];
      CompactChild(nodes, u, l);
      var c := Compact(nodes, p);
      assert c[..|c| - 1] == Compact(nodes, u);
      if IsElement(nodes, u, l) {
        RankAtMost(l.i, nodes[u].indices);
      }
    }
  }

  lemma {:induction false} WeightsBounded(paths: set<Path>) returns (bound: nat)
    ensures forall q :: q in paths ==> Weight(q) <= bound
    decreases paths
  {
    if paths == {} {
      bound := 0;
    } else {
      var p :| p in paths;
      var rest := WeightsBounded(paths - {p});
      bound := rest + Weight(p);
      forall q | q in paths
        ensures Weight(q) <= bound
      {
        assert q == p || q in paths - {p};
      }
    }
  }

  /** If nothing is lost no key is renumbered: a renumbered key would need a heavier key that is
      renumbered to it, and so on without end. */
  lemma {:induction false} LosslessFixes(written: map<Path, Value>, q: Path, bound: nat)
    requires GoodPaths(written) && Leaves(written) && Lossless(written) && q in written
    requires forall p :: p in written ==> Weight(p) <= bound
    ensures Compact(TrieOf(written), q) == q
    decreases bound - Weight(q)
  {
    var nodes := TrieOf(written);
    if Compact(nodes, q) != q {
      var f := (ShowPath(q), written[q]);
      assert f in Flatten("", Dict(Unflattened(written)));
      FlattenAfterUnflatten(written, f);
      var p :| IsWritten(written, p, f);
      CompactGood(nodes, p);
      ShowInjective(Compact(nodes, p), q);
      CompactLowers(nodes, p);
      LosslessFixes(written, p, bound);
    }
  }

  lemma {:induction false} CompactPrefix(nodes: Nodes, p: Path, k: nat)
    requires k <= |p|
    ensures |Compact(nodes, p)| == |p| && Compact(nodes, p)[..k] == Compact(nodes, p[..k])
    decreases |p|
  {
    if k == |p| {
      assert p[..k] == p;
      if p != [] {
        CompactPrefix(nodes, p[..|p| - 1], 0);
      }
    } else {
      CompactPrefix(nodes, p[..|p| - 1], k);
      assert p[..|p| - 1][..k] == p[..k];
    }
  }

  lemma FixedIndexRank(written: map<Path, Value>, p: Path, l: Label)
    requires IsElement(TrieOf(written), p, l)
    requires forall q :: q in written ==> Compact(TrieOf(written), q) == q
    ensures Rank(l.i, TrieOf(written)[p].indices) == l.i
  {
    var nodes := TrieOf(written);
    TrieNode(written, p, l);
    InTrie(written, p + [l]);
    var q :| q in written && p + [l] <= q;
    CompactPrefix(nodes, q, |p| + 1);
    assert q[..|p| + 1] == p + [l];
    CompactChild(nodes, p, l);
    assert Compact(nodes, p + [l])[|Compact(nodes, p)|] == (p + [l])[|p|] by {
      CompactPrefix(nodes, p, 0);
    }
  }

  lemma RanksFill(s: set<nat>, n: nat)
    requires n == |s| && forall i :: i in s ==> Rank(i, s) == i
    ensures forall j :: j in s <==> 0 <= j < n
  {
    forall j
      ensures j in s <==> 0 <= j < n
    {
      if j in s {
        SortedRank(s, j);
      } else if 0 <= j < n {
        SortedHolds(s, j);
      }
    }
  }

  /** The round trip loses nothing exactly when every list is numbered without gaps. */
  lemma LosslessExactlyWithoutGaps(written: map<Path, Value>)
    requires GoodPaths(written) && Leaves(written)
    ensures Lossless(written) <==> Gapless(TrieOf(written))
  {
    var nodes := TrieOf(written);
    if Gapless(nodes) {
      forall f {
        LosslessWithoutGaps(written, f);
      }
    }
    if Lossless(written) {
      var bound := WeightsBounded(written.Keys);
      forall q | q in written
        ensures Compact(nodes, q) == q
      {
        LosslessFixes(written, q, bound);
      }
      forall p, l | IsElement(nodes, p, l)
        ensures forall j :: j in nodes[p].indices <==> 0 <= j < |nodes[p].indices|
      {
        forall i | i in nodes[p].indices
          ensures Rank(i, nodes[p].indices) == i
        {
          FixedIndexRank(written, p, Idx(i));
        }
        RanksFill(nodes[p].indices, |nodes[p].indices|);
      }
    }
  }
}
