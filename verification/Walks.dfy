/** Reading a trie back into nested dictionaries and lists, and flattening these again.

    `_walk` and `flatten` are generators over sets and dictionaries whose order does not matter to
    anyone who collects the pairs in a dictionary: they are modelled by the set of pairs yielded. */
module Walks {
  import opened Wrappers
  import opened Keys
  import opened Tries

  type PairSet = set<(string, Value)>

  /** `dict(pairs)`, for pairs that do not give one key two values. */
  ghost function AsDict(s: PairSet): map<string, Value>
  {
    map k | k in KeysIn(s) :: SomeValue(s, k)
  }

  ghost function KeysIn(s: PairSet): set<string>
  {
    set kv | kv in s :: kv.0
  }

  ghost function SomeValue(s: PairSet, k: string): (v: Value)
    requires k in KeysIn(s)
    ensures (k, v) in s
  {
    var kv :| kv in s && kv.0 == k;
    kv.1
  }

  ghost predicate Functional(s: PairSet)
  {
    forall x, y :: x in s && y in s && x.0 == y.0 ==> x == y
  }

  lemma AsDictLooksUp(s: PairSet, kv: (string, Value))
    requires Functional(s)
    ensures kv in s <==> kv.0 in AsDict(s) && AsDict(s)[kv.0] == kv.1
  {
    if kv.0 in AsDict(s) {
      assert (kv.0, AsDict(s)[kv.0]) in s;
    }
  }

  // ---------------------------------------------------------------- sorted(indices)

  predicate IsLeast(m: nat, s: set<nat>)
  {
    m in s && forall i :: i in s ==> m <= i
  }

  function Least(s: set<nat>): (m: nat)
    requires s != {}
    ensures m in s && forall i :: i in s ==> m <= i
  {
    LeastExists(s);
    var m :| IsLeast(m, s);
    m
  }

  lemma LeastExists(s: set<nat>)
    requires s != {}
    ensures exists m :: IsLeast(m, s)
  {
    var m := LeastOf(s);
  }

  lemma {:induction false} LeastOf(s: set<nat>) returns (m: nat)
    requires s != {}
    ensures IsLeast(m, s)
    decreases s
  {
    m :| m in s;
    if s != {m} {
      var n := LeastOf(s - {m});
      forall i | i in s
        ensures i == m || n <= i
      {
        assert i != m ==> i in s - {m};
      }
      m := if m < n then m else n;
    }
  }

  /** `sorted(s)` */
  function Sorted(s: set<nat>): (xs: seq<nat>)
    ensures |xs| == |s|
  {
    if s == {} then [] else var m := Least(s); [m] + Sorted(s - {m})
  }

  ghost function Smaller(i: nat, s: set<nat>): set<nat>
  {
    set j | j in s && j < i
  }

  /** The position `i` takes in `sorted(s)`. */
  ghost function Rank(i: nat, s: set<nat>): nat
  {
    |Smaller(i, s)|
  }

  lemma RankStep(s: set<nat>, i: nat)
    requires i in s
    ensures Rank(i, s) == if i == Least(s) then 0 else 1 + Rank(i, s - {Least(s)})
  {
    var m := Least(s);
    if i == m {
      assert Smaller(i, s) == {};
    } else {
      assert Smaller(i, s) == {m} + Smaller(i, s - {m});
    }
  }

  lemma {:induction false} SortedRank(s: set<nat>, i: nat)
    requires i in s
    ensures Rank(i, s) < |s| && Sorted(s)[Rank(i, s)] == i
    decreases s
  {
    RankStep(s, i);
    if i != Least(s) {
      SortedRank(s - {Least(s)}, i);
    }
  }

  lemma {:induction false} SortedHolds(s: set<nat>, k: nat)
    requires k < |s|
    ensures Sorted(s)[k] in s && Rank(Sorted(s)[k], s) == k
    decreases s
  {
    var m := Least(s);
    if k == 0 {
      RankStep(s, m);
    } else {
      SortedHolds(s - {m}, k - 1);
      assert Sorted(s)[k] == Sorted(s - {m})[k - 1];
      RankStep(s, Sorted(s)[k]);
    }
  }

  // ---------------------------------------------------------------- walking a trie

  /** The nodes at or below `p`. */
  ghost function Reach(nodes: Nodes, p: Path): set<Path>
  {
    set q | q in nodes && p <= q
  }

  lemma ReachShrinks(nodes: Nodes, p: Path, l: Label)
    requires p in nodes
    ensures Reach(nodes, p + [l]) < Reach(nodes, p)
  {
    assert p in Reach(nodes, p) && p !in Reach(nodes, p + [l]);
    forall q | q in Reach(nodes, p + [l])
      ensures q in Reach(nodes, p)
    {
      assert p <= p + [l] <= q;
    }
  }

  /** The pairs `_walk` yields at the node `p` under a prefix. */
  ghost function Walk(nodes: Nodes, p: Path, prefix: string): PairSet
    requires p in nodes
    decreases Reach(nodes, p), if prefix == "" then 2 else 3
  {
    var node := nodes[p];
    if node.value.Some? then {(prefix, node.value.value)} + WalkBranches(nodes, p, prefix)
    else if prefix != "" && node.indices != {} then {(prefix, ListAt(nodes, p))} + WalkBranches(nodes, p, prefix)
    else if prefix != "" then {(prefix, Dict(AsDict(Walk(nodes, p, ""))))}
    else WalkIndices(nodes, p) + WalkBranches(nodes, p, prefix)
  }

  ghost function WalkBranches(nodes: Nodes, p: Path, prefix: string): PairSet
    requires p in nodes
    decreases Reach(nodes, p), 1
  {
    set l, kv | l in nodes[p].branches && kv in WalkChild(nodes, p, l, prefix) :: kv
  }

  /** At the root of a dictionary there is no key for a list: indices become plain keys. */
  ghost function WalkIndices(nodes: Nodes, p: Path): PairSet
    requires p in nodes
    decreases Reach(nodes, p), 1
  {
    set i, kv | i in nodes[p].indices && kv in WalkChild(nodes, p, Idx(i), "") :: kv
  }

  ghost function WalkChild(nodes: Nodes, p: Path, l: Label, prefix: string): PairSet
    requires p in nodes
    decreases Reach(nodes, p), 0
  {
    ReachShrinks(nodes, p, l);
    if p + [l] in nodes then Walk(nodes, p + [l], Join(prefix, ShowLabel(l))) else {}
  }

  ghost function ListAt(nodes: Nodes, p: Path): Value
    requires p in nodes
    decreases Reach(nodes, p), 1
  {
    var order := Sorted(nodes[p].indices);
    List(seq(|order|, k requires 0 <= k < |order| => ElementAt(nodes, p, order[k])))
  }

  ghost function ElementAt(nodes: Nodes, p: Path, i: nat): Value
    requires p in nodes
    decreases Reach(nodes, p), 0
  {
    ReachShrinks(nodes, p, Idx(i));
    if p + [Idx(i)] in nodes then Dict(AsDict(Walk(nodes, p + [Idx(i)], ""))) else Dict(map[])
  }

  // ---------------------------------------------------------------- nodes of a canonical trie

  /** No empty segment anywhere. */
  ghost predicate GoodPaths(written: map<Path, Value>)
  {
    forall q :: q in written ==> q != [] && GoodPath(q)
  }

  lemma InTrie(written: map<Path, Value>, p: Path)
    ensures p in TrieOf(written) <==> p == [] || exists q :: q in written && p <= q
  {
    if p in TrieOf(written) && p != [] {
      var q, k :| q in written && 0 <= k <= |q| && p == q[..k];
      assert p <= q;
    }
    if exists q :: q in written && p <= q {
      var q :| q in written && p <= q;
      assert p == q[..|p|];
    }
  }

  lemma TrieNode(written: map<Path, Value>, p: Path, l: Label)
    requires p in TrieOf(written)
    ensures TrieOf(written)[p].value == if p in written then Some(written[p]) else None
    ensures l in TrieOf(written)[p].branches <==>
              p + [l] in TrieOf(written) && !(l.Idx? && p !in written && p + [l] !in written)
    ensures l.Idx? ==> (l.i in TrieOf(written)[p].indices <==>
                          p + [l] in TrieOf(written) && p !in written && p + [l] !in written)
  {
    var visited := PrefixesOf(written.Keys);
    IsChild(visited, p, l);
    if l.Idx? {
      assert Idx(l.i) == l;
    }
  }

  lemma GoodNode(written: map<Path, Value>, p: Path)
    requires GoodPaths(written) && p in TrieOf(written)
    ensures GoodPath(p)
  {
    InTrie(written, p);
  }

  // ---------------------------------------------------------------- every key is yielded once

  /** What `_walk` yields for a node, whatever the prefix it is reached under. */
  ghost function Emitted(nodes: Nodes, p: Path): Value
    requires p in nodes
  {
    var node := nodes[p];
    if node.value.Some? then node.value.value
    else if node.indices != {} then ListAt(nodes, p)
    else Dict(AsDict(Walk(nodes, p, "")))
  }

  /** The children of the node that are walked into under the prefix. */
  ghost predicate Enters(node: Node, prefix: string, l: Label)
  {
    || (l in node.branches && (prefix == "" || node.value.Some? || node.indices != {}))
    || (l.Idx? && l.i in node.indices && prefix == "" && node.value.None?)
  }

  /** The child `l` is walked under an extended prefix, and yields the pair. */
  ghost predicate ChildYields(nodes: Nodes, p: Path, prefix: string, l: Label, kv: (string, Value))
    requires p in nodes
  {
    Enters(nodes[p], prefix, l) && kv in WalkChild(nodes, p, l, prefix)
  }

  lemma BranchesYield(nodes: Nodes, p: Path, prefix: string, kv: (string, Value))
    requires p in nodes
    ensures kv in WalkBranches(nodes, p, prefix) <==>
            exists l :: l in nodes[p].branches && kv in WalkChild(nodes, p, l, prefix)
  {
  }

  lemma IndicesYield(nodes: Nodes, p: Path, kv: (string, Value))
    requires p in nodes
    ensures kv in WalkIndices(nodes, p) <==>
              exists l: Label :: l.Idx? && l.i in nodes[p].indices && kv in WalkChild(nodes, p, l, "")
  {
    if l: Label :| l.Idx? && l.i in nodes[p].indices && kv in WalkChild(nodes, p, l, "") {
      assert l == Idx(l.i);
    }
    if i :| i in nodes[p].indices && kv in WalkChild(nodes, p, Idx(i), "") {
      assert Idx(i).Idx? && Idx(i).i == i;
    }
  }

  lemma WalkCases(nodes: Nodes, p: Path, prefix: string, kv: (string, Value))
    requires p in nodes
    ensures kv in Walk(nodes, p, prefix) <==>
            || ((prefix != "" || nodes[p].value.Some?) && kv == (prefix, Emitted(nodes, p)))
            || exists l :: ChildYields(nodes, p, prefix, l, kv)
  {
    BranchesYield(nodes, p, prefix, kv);
    IndicesYield(nodes, p, kv);
    ChildrenYield(nodes, p, prefix, kv);
  }

  lemma ChildrenYield(nodes: Nodes, p: Path, prefix: string, kv: (string, Value))
    requires p in nodes
    ensures (exists l :: ChildYields(nodes, p, prefix, l, kv)) <==>
            || ((prefix == "" || nodes[p].value.Some? || nodes[p].indices != {})
               && kv in WalkBranches(nodes, p, prefix))
            || (prefix == "" && nodes[p].value.None? && kv in WalkIndices(nodes, p))
  {
    BranchesYield(nodes, p, prefix, kv);
    IndicesYield(nodes, p, kv);
    var node := nodes[p];
    if (prefix == "" || node.value.Some? || node.indices != {}) && kv in WalkBranches(nodes, p, prefix) {
      var l :| l in node.branches && kv in WalkChild(nodes, p, l, prefix);
      assert ChildYields(nodes, p, prefix, l, kv);
    }
    if prefix == "" && node.value.None? && kv in WalkIndices(nodes, p) {
      var l: Label :| l.Idx? && l.i in node.indices && kv in WalkChild(nodes, p, l, "");
      assert ChildYields(nodes, p, prefix, l, kv);
    }
  }

  // ---------------------------------------------------------------- which nodes the walk of a dictionary yields

  /** The walk for the dictionary at `base` comes to the node at `base + s`. */
  ghost predicate Walked(nodes: Nodes, base: Path, s: Path)
    decreases |s|
  {
    && base + s in nodes
    && (s != [] ==>
          var u := s[..|s| - 1];
          Walked(nodes, base, u) && Enters(nodes[base + u], ShowPath(u), s[|u|]))
  }

  /** The walk for the dictionary at `base` yields a pair for the node at `base + s`. */
  ghost predicate IsEmitted(nodes: Nodes, base: Path, s: Path)
  {
    Walked(nodes, base, s) && (ShowPath(s) != "" || nodes[base + s].value.Some?)
  }

  ghost predicate Yields(nodes: Nodes, base: Path, s: Path, kv: (string, Value))
  {
    IsEmitted(nodes, base, s) && kv == (ShowPath(s), Emitted(nodes, base + s))
  }

  ghost predicate YieldsFrom(nodes: Nodes, base: Path, r: Path, kv: (string, Value))
  {
    exists s :: r <= s && Yields(nodes, base, s, kv)
  }

  lemma WalkedChild(nodes: Nodes, base: Path, r: Path, l: Label)
    requires Walked(nodes, base, r)
    ensures base + (r + [l]) == base + r + [l] && ShowPath(r + [l]) == Join(ShowPath(r), ShowLabel(l))
    ensures Walked(nodes, base, r + [l]) <==> base + r + [l] in nodes && Enters(nodes[base + r], ShowPath(r), l)
  {
    assert (r + [l])[..|r|] == r && base + (r + [l]) == base + r + [l];
    ShowPathLast(r, l);
  }

  lemma {:induction false} WalkedPrefix(nodes: Nodes, base: Path, r: Path, s: Path)
    requires Walked(nodes, base, s) && r <= s
    ensures Walked(nodes, base, r)
    decreases |s|
  {
    if r != s {
      WalkedPrefix(nodes, base, r, s[..|s| - 1]);
    }
  }

  lemma NextStep(r: Path, s: Path) returns (l: Label)
    requires r <= s && r != s
    ensures r + [l] <= s
  {
    l := s[|r|];
  }

  ghost predicate YieldsOwn(nodes: Nodes, base: Path, r: Path, kv: (string, Value))
    requires base + r in nodes
  {
    (ShowPath(r) != "" || nodes[base + r].value.Some?) && kv == (ShowPath(r), Emitted(nodes, base + r))
  }

  ghost predicate YieldsVia(nodes: Nodes, base: Path, r: Path, l: Label, kv: (string, Value))
  {
    Walked(nodes, base, r + [l]) && YieldsFrom(nodes, base, r + [l], kv)
  }

  lemma YieldsDown(nodes: Nodes, base: Path, r: Path, s: Path, kv: (string, Value))
    requires Walked(nodes, base, r) && r <= s && Yields(nodes, base, s, kv)
    ensures YieldsOwn(nodes, base, r, kv) || exists l :: YieldsVia(nodes, base, r, l, kv)
  {
    if s != r {
      var l := NextStep(r, s);
      WalkedPrefix(nodes, base, r + [l], s);
      assert YieldsVia(nodes, base, r, l, kv);
    }
  }

  lemma YieldsUp(nodes: Nodes, base: Path, r: Path, l: Label, kv: (string, Value))
    requires YieldsVia(nodes, base, r, l, kv)
    ensures YieldsFrom(nodes, base, r, kv)
  {
    var s :| r + [l] <= s && Yields(nodes, base, s, kv);
    assert r <= r + [l] <= s;
  }

  /** What is yielded from a node on is the node's own pair or yielded from one of its children on. */
  lemma YieldsStep(nodes: Nodes, base: Path, r: Path, kv: (string, Value))
    requires Walked(nodes, base, r)
    ensures YieldsFrom(nodes, base, r, kv) <==>
            YieldsOwn(nodes, base, r, kv) || exists l :: YieldsVia(nodes, base, r, l, kv)
  {
    if YieldsFrom(nodes, base, r, kv) {
      var s :| r <= s && Yields(nodes, base, s, kv);
      YieldsDown(nodes, base, r, s, kv);
    }
    if l :| YieldsVia(nodes, base, r, l, kv) {
      YieldsUp(nodes, base, r, l, kv);
    }
    if YieldsOwn(nodes, base, r, kv) {
      assert Yields(nodes, base, r, kv);
    }
  }

  /** The walk from a node on yields exactly one pair for each node to be emitted there. */
  lemma {:induction false} WalkYields(nodes: Nodes, base: Path, r: Path, kv: (string, Value))
    requires Walked(nodes, base, r)
    ensures kv in Walk(nodes, base + r, ShowPath(r)) <==> YieldsFrom(nodes, base, r, kv)
    decreases Reach(nodes, base + r)
  {
    var p, prefix := base + r, ShowPath(r);
    WalkCases(nodes, p, prefix, kv);
    YieldsStep(nodes, base, r, kv);
    forall l
      ensures ChildYields(nodes, p, prefix, l, kv) <==> YieldsVia(nodes, base, r, l, kv)
    {
      WalkedChild(nodes, base, r, l);
      if p + [l] in nodes && Enters(nodes[p], prefix, l) {
        ReachShrinks(nodes, p, l);
        WalkYields(nodes, base, r + [l], kv);
      }
    }
  }

  lemma DictionaryYields(nodes: Nodes, base: Path, kv: (string, Value))
    requires base in nodes
    ensures kv in Walk(nodes, base, "") <==> exists s :: Yields(nodes, base, s, kv)
  {
    assert base + [] == base;
    WalkYields(nodes, base, [], kv);
    if s :| Yields(nodes, base, s, kv) {
      assert [] <= s;
    }
  }

  // ---------------------------------------------------------------- when no key is yielded twice

  /** Nodes of the dictionary at `base` that print alike are emitted with the same value. */
  ghost predicate Agree(nodes: Nodes, base: Path)
  {
    forall s, t :: IsEmitted(nodes, base, s) && IsEmitted(nodes, base, t) && Core(s) == Core(t)
                   ==> Emitted(nodes, base + s) == Emitted(nodes, base + t)
  }

  ghost predicate CleanNodes(nodes: Nodes)
  {
    forall p :: p in nodes ==> CleanPath(p)
  }

  lemma CleanTail(base: Path, s: Path)
    requires CleanPath(base + s)
    ensures CleanPath(s)
  {
    assert forall k :: 0 <= k < |s| ==> s[k] == (base + s)[|base| + k];
  }

  /** The pairs walked for a dictionary give no key two values exactly when no two of its nodes that
      differ only in leading empty segments are emitted with different values. */
  lemma FunctionalExactly(nodes: Nodes, base: Path)
    requires CleanNodes(nodes) && base in nodes
    ensures Functional(Walk(nodes, base, "")) <==> Agree(nodes, base)
  {
    forall s, t | IsEmitted(nodes, base, s) && IsEmitted(nodes, base, t)
      ensures ShowPath(s) == ShowPath(t) <==> Core(s) == Core(t)
    {
      CleanTail(base, s);
      CleanTail(base, t);
      PrintAlike(s, t);
    }
    if Functional(Walk(nodes, base, "")) {
      AgreeIfFunctional(nodes, base);
    }
    if Agree(nodes, base) {
      FunctionalIfAgree(nodes, base);
    }
  }

  /** Nodes of the dictionary print alike exactly when they agree after their leading empty segments. */
  ghost predicate AlikeByCore(nodes: Nodes, base: Path)
  {
    forall s, t :: IsEmitted(nodes, base, s) && IsEmitted(nodes, base, t)
                   ==> (ShowPath(s) == ShowPath(t) <==> Core(s) == Core(t))
  }

  lemma AgreeIfFunctional(nodes: Nodes, base: Path)
    requires base in nodes && AlikeByCore(nodes, base) && Functional(Walk(nodes, base, ""))
    ensures Agree(nodes, base)
  {
    forall s, t | IsEmitted(nodes, base, s) && IsEmitted(nodes, base, t) && Core(s) == Core(t)
      ensures Emitted(nodes, base + s) == Emitted(nodes, base + t)
    {
      var x, y := (ShowPath(s), Emitted(nodes, base + s)), (ShowPath(t), Emitted(nodes, base + t));
      DictionaryYields(nodes, base, x);
      DictionaryYields(nodes, base, y);
      assert Yields(nodes, base, s, x) && Yields(nodes, base, t, y);
    }
  }

  lemma FunctionalIfAgree(nodes: Nodes, base: Path)
    requires base in nodes && AlikeByCore(nodes, base) && Agree(nodes, base)
    ensures Functional(Walk(nodes, base, ""))
  {
    forall x, y | x in Walk(nodes, base, "") && y in Walk(nodes, base, "") && x.0 == y.0
      ensures x == y
    {
      DictionaryYields(nodes, base, x);
      DictionaryYields(nodes, base, y);
      var s :| Yields(nodes, base, s, x);
      var t :| Yields(nodes, base, t, y);
    }
  }

  // ---------------------------------------------------------------- without empty segments

  lemma GoodTail(base: Path, s: Path)
    requires GoodPath(base + s)
    ensures GoodPath(s)
  {
    assert forall k :: 0 <= k < |s| ==> s[k] == (base + s)[|base| + k];
  }

  /** Without empty segments no two nodes print alike. */
  lemma GoodAgree(written: map<Path, Value>, base: Path)
    requires GoodPaths(written) && base in TrieOf(written)
    ensures CleanNodes(TrieOf(written)) && Agree(TrieOf(written), base)
  {
    var nodes := TrieOf(written);
    forall p | p in nodes
      ensures GoodPath(p)
    {
      GoodNode(written, p);
    }
    forall s, t | IsEmitted(nodes, base, s) && IsEmitted(nodes, base, t) && Core(s) == Core(t)
      ensures s == t
    {
      GoodTail(base, s);
      GoodTail(base, t);
      CoreClean(s);
      CoreClean(t);
    }
  }

  lemma WalkFunctional(written: map<Path, Value>, base: Path)
    requires GoodPaths(written) && base in TrieOf(written)
    ensures Functional(Walk(TrieOf(written), base, ""))
  {
    GoodAgree(written, base);
    FunctionalExactly(TrieOf(written), base);
  }
}
