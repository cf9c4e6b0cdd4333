/** A single key, whatever its segments: what it unflattens to and which key comes back when the result
    is flattened again. Empty segments before the last are lost, and list elements are renumbered. */
module LoneKeys {
  import opened Collisions
  import opened Flattening
  import opened Keys
  import opened Tries
  import opened Walks
  import opened Wrappers

  /** The label after the first is passed as the index of a list. */
  predicate StartsList(r: Path)
  {
    |r| > 2 && r[1].Idx?
  }

  /** The nested dictionaries and lists for one path and its value. */
  function Nest(r: Path, v: Value): map<string, Value>
    requires r != []
    decreases |r|
  {
    if |r| > 1 && r[0] == NO_NAME then Nest(r[1..], v)
    else if |r| == 1 then map[ShowLabel(r[0]) := v]
    else if StartsList(r) then map[ShowLabel(r[0]) := List([Dict(Nest(r[2..], v))])]
    else map[ShowLabel(r[0]) := Dict(Nest(r[1..], v))]
  }

  /** The path under which the value comes back. */
  function Back(r: Path): Path
    requires r != []
    decreases |r|
  {
    if |r| > 1 && r[0] == NO_NAME then Back(r[1..])
    else if |r| == 1 then r
    else if StartsList(r) then [r[0], Idx(0)] + Back(r[2..])
    else [r[0]] + Back(r[1..])
  }

  // ---------------------------------------------------------------- the trie of one key

  /** Every node on the way has one child, an index unless the value is there. */
  lemma {:induction false} LoneNode(q: Path, v: Value, p: Path)
    requires q != [] && p <= q
    ensures p in TrieOf(map[q := v])
    ensures p == q ==> TrieOf(map[q := v])[p] == Node(Some(v), {}, {})
    ensures p != q ==>
              var l := q[|p|];
              TrieOf(map[q := v])[p] == if l.Idx? && |p| + 1 < |q| then Node(None, {l.i}, {}) else Node(None, {}, {l})
  {
    var written := map[q := v];
    LoneStep(q, v, p, NO_NAME);
    forall l: Label
      ensures l in TrieOf(written)[p].branches <==> p != q && l == q[|p|] && !(l.Idx? && |p| + 1 < |q|)
    {
      LoneStep(q, v, p, l);
    }
    forall i: nat
      ensures i in TrieOf(written)[p].indices <==> p != q && Idx(i) == q[|p|] && |p| + 1 < |q|
    {
      LoneStep(q, v, p, Idx(i));
    }
  }

  lemma {:induction false} LoneStep(q: Path, v: Value, p: Path, l: Label)
    requires q != [] && p <= q
    ensures p in TrieOf(map[q := v]) && TrieOf(map[q := v])[p].value == if p == q then Some(v) else None
    ensures l in TrieOf(map[q := v])[p].branches <==> p != q && l == q[|p|] && !(l.Idx? && |p| + 1 < |q|)
    ensures l.Idx? ==> (l.i in TrieOf(map[q := v])[p].indices <==> p != q && l == q[|p|] && |p| + 1 < |q|)
  {
    var written := map[q := v];
    assert q in written;
    InTrie(written, p);
    InTrie(written, p + [l]);
    LabelNext(p, l, q);
    TrieNode(written, p, l);
  }

  lemma {:induction false} LabelNext(p: Path, l: Label, q: Path)
    requires p <= q
    ensures p + [l] <= q <==> p != q && l == q[|p|]
    ensures p + [l] == q <==> p != q && l == q[|p|] && |p| + 1 == |q|
  {
    assert p + [l] <= q ==> (p + [l])[|p|] == q[|p|];
  }

  lemma {:induction false} AsDictOfOne(k: string, v: Value)
    ensures AsDict({(k, v)}) == map[k := v]
  {
    AsDictLooksUp({(k, v)}, (k, v));
  }

  /** A dictionary on the way yields what its one child yields. */
  lemma {:induction false} LoneChild(q: Path, v: Value, p: Path)
    requires q != [] && p <= q && p != q
    ensures var nodes, l := TrieOf(map[q := v]), q[|p|];
            p in nodes && p + [l] in nodes && Walk(nodes, p, "") == Walk(nodes, p + [l], ShowLabel(l))
  {
    var nodes, l := TrieOf(map[q := v]), q[|p|];
    LoneNode(q, v, p);
    LabelNext(p, l, q);
    LoneNode(q, v, p + [l]);
    forall kv
      ensures kv in Walk(nodes, p, "") <==> kv in WalkChild(nodes, p, l, "")
    {
      WalkCases(nodes, p, "", kv);
      assert forall k :: Enters(nodes[p], "", k) <==> k == l;
      assert kv in WalkChild(nodes, p, l, "") <==> ChildYields(nodes, p, "", l, kv);
    }
  }

  /** At the end there is the value, and below a name with one index the list of its one element. */
  lemma {:induction false} LoneOwn(q: Path, v: Value, p: Path, prefix: string)
    requires q != [] && p <= q && (prefix != "" || p == q)
    ensures var nodes := TrieOf(map[q := v]);
            && p in nodes
            && (p == q ==> Walk(nodes, p, prefix) == {(prefix, v)})
            && (p != q && nodes[p].indices == {} ==>
                  Walk(nodes, p, prefix) == {(prefix, Dict(AsDict(Walk(nodes, p, ""))))})
            && (p != q && nodes[p].indices != {} ==> Walk(nodes, p, prefix) == {(prefix, ListAt(nodes, p))})
  {
    LoneNode(q, v, p);
    assert p in TrieOf(map[q := v]);
    assert TrieOf(map[q := v])[p].branches == {} ==> WalkBranches(TrieOf(map[q := v]), p, prefix) == {};
  }

  lemma {:induction false} LoneList(q: Path, v: Value, p: Path)
    requires q != [] && p <= q && |p| + 1 < |q| && q[|p|].Idx?
    ensures var nodes := TrieOf(map[q := v]);
            && p in nodes && p + [q[|p|]] in nodes
            && ListAt(nodes, p) == List([Dict(AsDict(Walk(nodes, p + [q[|p|]], "")))])
  {
    var nodes, l := TrieOf(map[q := v]), q[|p|];
    LoneNode(q, v, p);
    LabelNext(p, l, q);
    LoneNode(q, v, p + [l]);
    SortedHolds({l.i}, 0);
    assert Sorted({l.i}) == [l.i];
    assert ListAt(nodes, p).items == [ElementAt(nodes, p, l.i)];
  }

  /** The walk from any dictionary on the way gives the nested value of the rest of the path. */
  lemma {:induction false} LoneDictionary(q: Path, v: Value, p: Path)
    requires q != [] && CleanPath(q) && p <= q && p != q
    ensures p in TrieOf(map[q := v]) && AsDict(Walk(TrieOf(map[q := v]), p, "")) == Nest(q[|p|..], v)
    decreases |q| - |p|
  {
    var nodes, l, rest := TrieOf(map[q := v]), q[|p|], q[|p|..];
    var c := p + [l];
    LoneChild(q, v, p);
    LabelNext(p, l, q);
    LabelReads(l);
    RestOfPath(q, p);
    LoneNode(q, v, c);
    if c == q || l != NO_NAME {
      LoneOwn(q, v, c, ShowLabel(l));
    }
    if c == q {
      AsDictOfOne(ShowLabel(l), v);
    } else if l == NO_NAME {
      LoneDictionary(q, v, c);
    } else if StartsList(rest) {
      var m := q[|c|];
      LoneList(q, v, c);
      LabelNext(c, m, q);
      RestOfPath(q, c);
      LoneDictionary(q, v, c + [m]);
      AsDictOfOne(ShowLabel(l), ListAt(nodes, c));
    } else {
      LoneDictionary(q, v, c);
      AsDictOfOne(ShowLabel(l), Dict(Nest(rest[1..], v)));
    }
  }

  lemma {:induction false} RestOfPath(q: Path, p: Path)
    requires p <= q && p != q
    ensures q[|p|..] == [q[|p|]] + q[|p| + 1..] && q[|p|..][1..] == q[|p + [q[|p|]]|..]
    ensures |q| - |p| > 1 ==> q[|p|..][1] == q[|p| + 1]
    ensures |q| - |p| > 2 ==> q[|p|..][2..] == q[|p| + 2..]
  {
  }

  // ---------------------------------------------------------------- flattening again

  lemma {:induction false} FlattenOne(key: string, k: string, v: Value)
    ensures Flatten(key, Dict(map[k := v])) == Flatten(Join(key, k), v)
  {
    forall f
      ensures f in Flatten(key, Dict(map[k := v])) <==> f in Flatten(Join(key, k), v)
    {
      assert k in map[k := v] && map[k := v][k] == v;
    }
  }

  lemma {:induction false} FlattenOneItem(key: string, m: map<string, Value>)
    ensures Flatten(key, List([Dict(m)])) == Flatten(Join(key, Show(0)), Dict(m))
  {
    forall f
      ensures f in Flatten(key, List([Dict(m)])) <==> f in Flatten(Join(key, Show(0)), Dict(m))
    {
      assert [Dict(m)][0].Dict? && HasMapping([Dict(m)]);
    }
  }

  lemma {:induction false} FlattenLeaf(key: string, v: Value)
    requires Leaf(v)
    ensures Flatten(key, v) == {(key, v)}
  {
    forall f
      ensures f in Flatten(key, v) <==> f == (key, v)
    {
      FlatLeaf(key, v, f);
    }
  }

  /** The key under which the value comes back, below another one. */
  function BackKey(key: string, r: Path): string
    requires r != []
    decreases |r|
  {
    if |r| > 1 && r[0] == NO_NAME then BackKey(key, r[1..])
    else
      var longer := Join(key, ShowLabel(r[0]));
      if |r| == 1 then longer
      else if StartsList(r) then BackKey(Join(longer, Show(0)), r[2..])
      else BackKey(longer, r[1..])
  }

  lemma {:induction false} FlattenNest(key: string, r: Path, v: Value)
    requires r != [] && Leaf(v)
    ensures Flatten(key, Dict(Nest(r, v))) == {(BackKey(key, r), v)}
    decreases |r|
  {
    var k := ShowLabel(r[0]);
    if |r| > 1 && r[0] == NO_NAME {
      FlattenNest(key, r[1..], v);
    } else if |r| == 1 {
      FlattenOne(key, k, v);
      FlattenLeaf(Join(key, k), v);
    } else if StartsList(r) {
      FlattenOne(key, k, List([Dict(Nest(r[2..], v))]));
      FlattenOneItem(Join(key, k), Nest(r[2..], v));
      FlattenNest(Join(Join(key, k), Show(0)), r[2..], v);
    } else {
      FlattenOne(key, k, Dict(Nest(r[1..], v)));
      FlattenNest(Join(key, k), r[1..], v);
    }
  }

  function Onto(key: string, r: Path): string
    decreases |r|
  {
    if r == [] then key else Onto(Join(key, ShowLabel(r[0])), r[1..])
  }

  lemma {:induction false} OntoFirst(key: string, l: Label, r: Path)
    ensures Onto(key, [l] + r) == Onto(Join(key, ShowLabel(l)), r)
  {
    assert ([l] + r)[1..] == r;
  }

  lemma {:induction false} ShowOnto(p: Path, r: Path)
    ensures ShowPath(p + r) == Onto(ShowPath(p), r)
    decreases |r|
  {
    if r == [] {
      assert p + r == p;
    } else {
      ShowPathLast(p, r[0]);
      ShowOnto(p + [r[0]], r[1..]);
      AppendFirst(p, r);
    }
  }

  lemma {:induction false} AppendFirst(p: Path, r: Path)
    requires r != []
    ensures p + r == p + [r[0]] + r[1..]
  {
  }

  lemma {:induction false} BackKeyIsOnto(key: string, r: Path)
    requires r != []
    ensures BackKey(key, r) == Onto(key, Back(r))
    decreases |r|
  {
    if |r| > 1 && r[0] == NO_NAME {
      BackKeyIsOnto(key, r[1..]);
    } else if |r| == 1 {
      assert r[1..] == [];
    } else {
      var longer := Join(key, ShowLabel(r[0]));
      if StartsList(r) {
        BackKeyIsOnto(Join(longer, Show(0)), r[2..]);
        OntoFirst(longer, Idx(0), Back(r[2..]));
        OntoFirst(key, r[0], [Idx(0)] + Back(r[2..]));
        assert [r[0]] + ([Idx(0)] + Back(r[2..])) == [r[0], Idx(0)] + Back(r[2..]);
      } else {
        BackKeyIsOnto(longer, r[1..]);
        OntoFirst(key, r[0], Back(r[1..]));
      }
    }
  }

  /** A single key with a value comes back as one key with that value. */
  lemma {:induction false} LoneKeyComesBack(q: Path, v: Value)
    requires q != [] && CleanPath(q) && Leaf(v)
    ensures Unflattened(map[q := v]) == Nest(q, v)
    ensures Flatten("", Dict(Unflattened(map[q := v]))) == {(ShowPath(Back(q)), v)}
  {
    var root: Path := [];
    LoneDictionary(q, v, root);
    assert q[0..] == q && root + Back(q) == Back(q) && ShowPath(root) == "";
    FlattenNest("", q, v);
    BackKeyIsOnto("", q);
    ShowOnto(root, Back(q));
  }

  /** Exactly the empty segments before the last are missing in it. */
  lemma {:induction false} EmptySegmentsAreLost(q: Path)
    requires q != []
    ensures forall k :: 0 <= k < |Back(q)| - 1 ==> Back(q)[k] != NO_NAME
    ensures 0 < |Back(q)| <= |q|
    ensures |Back(q)| == |q| <==> forall k :: 0 <= k < |q| - 1 ==> q[k] != NO_NAME
    decreases |q|
  {
    if |q| > 1 && q[0] == NO_NAME {
      EmptySegmentsAreLost(q[1..]);
    } else if StartsList(q) {
      EmptySegmentsAreLost(q[2..]);
      assert forall k :: 2 <= k < |q| ==> q[k] == q[2..][k - 2];
    } else if |q| > 1 {
      EmptySegmentsAreLost(q[1..]);
      assert forall k :: 1 <= k < |q| ==> q[k] == q[1..][k - 1];
    }
  }

  /** `a..b` comes back as `a.b`. */
  lemma {:induction false} GapComesBackShorter(q: Path, v: Value)
    requires q == ParseKey("a..b") && Leaf(v)
    ensures Flatten("", Dict(Unflattened(map[q := v]))) == {("a.b", v)}
  {
    CollidingPaths([Name("a")]);
    GapIsSkipped("a", "b", v);
    DottedLiteral();
  }

  lemma DottedLiteral()
    ensures "a" + "." + "b" == "a.b" && GoodPath([Name("a")] + [Name("b")])
  {
    assert GoodLabel(Name("a")) && GoodLabel(Name("b"));
    assert [Name("a")] + [Name("b")] == [Name("a"), Name("b")];
  }

  lemma {:induction false} GapIsSkipped(a: string, b: string, v: Value)
    requires GoodPath([Name(a)] + [Name(b)]) && Leaf(v)
    ensures Flatten("", Dict(Unflattened(map[[Name(a)] + [NO_NAME] + [Name(b)] := v]))) == {(a + "." + b, v)}
  {
    var q := [Name(a)] + [NO_NAME] + [Name(b)];
    assert ([Name(a)] + [Name(b)])[0] == Name(a) && ([Name(a)] + [Name(b)])[1] == Name(b);
    BackOverGap(Name(a), Name(b));
    TwoNamesShown(a, b);
    LoneKeyComesBack(q, v);
  }

  lemma {:induction false} TwoNamesShown(a: string, b: string)
    requires a != ""
    ensures ShowPath([Name(a)] + [Name(b)]) == a + "." + b
  {
    ShowPathLast([Name(a)], Name(b));
    ShowPathLast([], Name(a));
    assert [] + [Name(a)] == [Name(a)];
  }

  lemma {:induction false} BackOverGap(a: Label, b: Label)
    requires a != NO_NAME
    ensures Back([a] + [NO_NAME] + [b]) == [a] + [b]
  {
    var q := [a] + [NO_NAME] + [b];
    assert q[1..] == [NO_NAME] + [b] && q[1..][1..] == [b] && |q| == 3 && q[0] == a && q[1] == NO_NAME;
    assert Back([b]) == [b];
    assert Back(q[1..]) == [b];
  }
}
