/** The prefix tree the flattened attributes are collected in, and what it ends up holding.

    A trie node is identified by its path from the root: nodes are created on the way down from
    the root and never shared or moved. */
module Tries {
  import opened Wrappers
  import opened Keys

  datatype Scalar = Str(s: string) | Bool(b: bool) | Int(i: int) | Float(r: real) | Bytes(bytes: seq<bv8>)

  /** A JSON-like value; `Null` is the absent value. */
  datatype Value = Null | Atom(scalar: Scalar) | List(items: seq<Value>) | Dict(entries: map<string, Value>)

  type Pairs = seq<(string, Value)>

  /** What a trie node holds besides its children. */
  datatype Node = Node(value: Option<Value>, indices: set<nat>, branches: set<Label>)

  type Nodes = map<Path, Node>

  const EMPTY_NODE := Node(None, {}, {})

  // ---------------------------------------------------------------- the shape of a trie

  function ChildLabels(visited: set<Path>, p: Path): set<Label>
  {
    set q | q in visited && |q| == |p| + 1 && q[..|p|] == p :: q[|p|]
  }

  lemma IsChild(visited: set<Path>, p: Path, l: Label)
    ensures l in ChildLabels(visited, p) <==> p + [l] in visited
  {
    if l in ChildLabels(visited, p) {
      var q :| q in visited && |q| == |p| + 1 && q[..|p|] == p && q[|p|] == l;
      assert q == p + [l];
    }
    if p + [l] in visited {
      assert (p + [l])[..|p|] == p && (p + [l])[|p|] == l;
    }
  }

  /** A numeric child is an array index as long as its parent has no value and no key ended at it. */
  predicate IsIndex(ended: set<Path>, written: map<Path, Value>, p: Path, l: Label)
  {
    l.Idx? && p !in written && p + [l] !in ended
  }

  function NodeOver(labels: set<Label>, ended: set<Path>, written: map<Path, Value>, p: Path): Node
  {
    Node(if p in written then Some(written[p]) else None,
         set l | l in labels && IsIndex(ended, written, p, l) :: l.i,
         set l | l in labels && !IsIndex(ended, written, p, l))
  }

  function NodeAt(visited: set<Path>, ended: set<Path>, written: map<Path, Value>, p: Path): Node
  {
    NodeOver(ChildLabels(visited, p), ended, written, p)
  }

  /** The trie over the visited nodes, given where keys ended and what was written. */
  predicate IsShape(nodes: Nodes, visited: set<Path>, ended: set<Path>, written: map<Path, Value>)
  {
    nodes.Keys == visited && forall p :: p in visited ==> nodes[p] == NodeAt(visited, ended, written, p)
  }

  function PrefixesOf(paths: set<Path>): set<Path>
  {
    {[]} + set q, k | q in paths && 0 <= k <= |q| :: q[..k]
  }

  /** The trie determined by the last value written to each path. */
  function TrieOf(written: map<Path, Value>): Nodes
  {
    var visited := PrefixesOf(written.Keys);
    map p | p in visited :: NodeAt(visited, written.Keys, written, p)
  }

  predicate PrefixClosed(visited: set<Path>)
  {
    forall q :: q in visited && q != [] ==> q[..|q| - 1] in visited
  }

  /** Visiting one more child changes the child labels of its parent only, and adds an empty node. */
  lemma VisitOne(visited: set<Path>, p: Path, l: Label, q: Path)
    requires PrefixClosed(visited) && p in visited
    ensures PrefixClosed(visited + {p + [l]})
    ensures ChildLabels(visited + {p + [l]}, q) == ChildLabels(visited, q) + if q == p then {l} else {}
    ensures q !in visited ==> ChildLabels(visited, q) == {}
  {
    var more := visited + {p + [l]};
    assert (p + [l])[..|p|] == p;
    forall k: Label
      ensures k in ChildLabels(more, q) <==> k in ChildLabels(visited, q) || (q == p && k == l)
      ensures q !in visited ==> k !in ChildLabels(visited, q)
    {
      IsChild(more, q, k);
      IsChild(visited, q, k);
      assert (q + [k])[..|q|] == q && (q + [k])[|q|] == k;
      assert q + [k] == p + [l] ==> q == p && k == l by {
        if q + [k] == p + [l] {
          assert |q| == |p| && (p + [l])[|p|] == l;
        }
      }
    }
  }

  /** The last value other than `Null` given for each path. */
  function LastWrites(pairs: Pairs): map<Path, Value>
  {
    if pairs == [] then map[]
    else
      var before, last := LastWrites(pairs[..|pairs| - 1]), pairs[|pairs| - 1];
      if last.1 == Null then before else before[ParseKey(last.0) := last.1]
  }

  // ---------------------------------------------------------------- one step of building

  function WithValue(node: Node, v: Value): Node
  {
    Node(Some(v), {}, node.branches + set i | i in node.indices :: Idx(i))
  }

  function WithIndex(node: Node, i: nat): Node
  {
    if node.value.Some? then node.(branches := node.branches + {Idx(i)})
    else if Idx(i) !in node.branches then node.(indices := node.indices + {i})
    else node
  }

  function WithBranch(node: Node, l: Label): Node
  {
    node.(indices := if l.Idx? then node.indices - {l.i} else node.indices, branches := node.branches + {l})
  }

  /** Writing a value turns the indices of the node into plain branches. */
  lemma NodeWithValue(visited: set<Path>, ended: set<Path>, written: map<Path, Value>, p: Path, v: Value, q: Path)
    ensures NodeAt(visited, ended, written[p := v], q)
         == if q == p then WithValue(NodeAt(visited, ended, written, p), v) else NodeAt(visited, ended, written, q)
  {
    var after := NodeAt(visited, ended, written[p := v], q);
    var before := NodeAt(visited, ended, written, q);
    if q == p {
      assert after.indices == {};
      forall l
        ensures l in after.branches <==> l in WithValue(before, v).branches
      {
        assert l.Idx? && IsIndex(ended, written, q, l) && l in ChildLabels(visited, q) ==> l.i in before.indices;
      }
    } else {
      assert forall l :: IsIndex(ended, written[p := v], q, l) == IsIndex(ended, written, q, l);
      assert after.indices == before.indices && after.branches == before.branches;
    }
  }

  lemma OverMoreLabels(labels: set<Label>, ended: set<Path>, written: map<Path, Value>, p: Path, i: nat)
    requires p + [Idx(i)] in ended ==> Idx(i) in labels
    ensures NodeOver(labels + {Idx(i)}, ended, written, p) == WithIndex(NodeOver(labels, ended, written, p), i)
  {
    var before, after := NodeOver(labels, ended, written, p), NodeOver(labels + {Idx(i)}, ended, written, p);
    var want := WithIndex(before, i);
    forall j
      ensures j in after.indices <==> j in want.indices
    {
      assert j in after.indices <==> Idx(j) in labels + {Idx(i)} && IsIndex(ended, written, p, Idx(j));
      assert j in before.indices <==> Idx(j) in labels && IsIndex(ended, written, p, Idx(j));
    }
    assert after.branches == want.branches;
  }

  lemma OverEndedLabel(labels: set<Label>, ended: set<Path>, more: set<Path>, written: map<Path, Value>, p: Path,
                       l: Label)
    requires forall k :: p + [k] in more <==> p + [k] in ended || (k == l && l.Idx?)
    ensures NodeOver(labels + {l}, more, written, p) == WithBranch(NodeOver(labels, ended, written, p), l)
  {
    var before, after := NodeOver(labels, ended, written, p), NodeOver(labels + {l}, more, written, p);
    var want := WithBranch(before, l);
    forall j
      ensures j in after.indices <==> j in want.indices
    {
      assert j in after.indices <==> Idx(j) in labels + {l} && IsIndex(more, written, p, Idx(j));
      assert j in before.indices <==> Idx(j) in labels && IsIndex(ended, written, p, Idx(j));
    }
    assert after.branches == want.branches;
  }

  /** Passing through a numeric child makes it an index unless a value or a key ending forbids it. */
  lemma NodeWithIndex(visited: set<Path>, ended: set<Path>, written: map<Path, Value>, p: Path, i: nat, q: Path)
    requires PrefixClosed(visited) && p in visited && ended <= visited && written.Keys <= visited
    ensures NodeAt(visited + {p + [Idx(i)]}, ended, written, q)
         == if q == p then WithIndex(NodeAt(visited, ended, written, p), i)
            else if q in visited then NodeAt(visited, ended, written, q)
            else EMPTY_NODE
  {
    VisitOne(visited, p, Idx(i), q);
    if q == p {
      IsChild(visited, p, Idx(i));
      OverMoreLabels(ChildLabels(visited, p), ended, written, p, i);
    }
  }

  lemma SameIndexSameNode(visited: set<Path>, ended: set<Path>, more: set<Path>, written: map<Path, Value>, q: Path)
    requires forall l :: IsIndex(more, written, q, l) == IsIndex(ended, written, q, l)
    ensures NodeAt(visited, more, written, q) == NodeAt(visited, ended, written, q)
  {
    var x, y := NodeAt(visited, more, written, q), NodeAt(visited, ended, written, q);
    assert x.indices == y.indices && x.branches == y.branches;
  }

  lemma ChildPathsDiffer(p: Path, l: Label, q: Path, k: Label)
    ensures q + [k] == p + [l] <==> q == p && k == l
  {
    assert (q + [k])[..|q|] == q && (q + [k])[|q|] == k;
    assert (p + [l])[..|p|] == p && (p + [l])[|p|] == l;
  }

  lemma NodeOutside(visited: set<Path>, ended: set<Path>, written: map<Path, Value>, q: Path)
    requires PrefixClosed(visited) && written.Keys <= visited && q !in visited
    ensures NodeAt(visited, ended, written, q) == EMPTY_NODE
  {
    forall k
      ensures k !in ChildLabels(visited, q)
    {
      IsChild(visited, q, k);
      assert (q + [k])[..|q|] == q;
    }
  }

  /** A key ending in a child makes the child a plain branch for good. */
  lemma NodeWithBranch(visited: set<Path>, ended: set<Path>, written: map<Path, Value>, p: Path, l: Label, q: Path)
    requires PrefixClosed(visited) && p in visited && ended <= visited && written.Keys <= visited
    ensures NodeAt(visited + {p + [l]}, ended + if l.Idx? then {p + [l]} else {}, written, q)
         == if q == p then WithBranch(NodeAt(visited, ended, written, p), l)
            else if q in visited then NodeAt(visited, ended, written, q)
            else EMPTY_NODE
  {
    var more := ended + if l.Idx? then {p + [l]} else {};
    VisitOne(visited, p, l, q);
    forall k
      ensures q + [k] in more <==> q + [k] in ended || (q == p && k == l && l.Idx?)
    {
      ChildPathsDiffer(p, l, q, k);
    }
    if q == p {
      OverEndedLabel(ChildLabels(visited, p), ended, more, written, p, l);
    } else {
      assert forall k :: IsIndex(more, written, q, k) == IsIndex(ended, written, q, k);
      SameIndexSameNode(visited, ended, more, written, q);
      if q !in visited {
        NodeOutside(visited, ended, written, q);
      }
    }
  }

  /** The ghost record of what was done to a trie determines every node of it. */
  ghost predicate Records(nodes: Nodes, visited: set<Path>, ended: set<Path>, written: map<Path, Value>)
  {
    && IsShape(nodes, visited, ended, written)
    && [] in visited && PrefixClosed(visited) && ended <= visited && written.Keys <= visited
  }

  /** The nodes once the child under some label has been asked for. */
  function WithChild(nodes: Nodes, child: Path): Nodes
  {
    if child in nodes then nodes else nodes[child := EMPTY_NODE]
  }

  lemma RecordsValue(nodes: Nodes, visited: set<Path>, ended: set<Path>, written: map<Path, Value>, p: Path, v: Value)
    requires Records(nodes, visited, ended, written) && p in visited
    ensures Records(nodes[p := WithValue(nodes[p], v)], visited, ended, written[p := v])
  {
    forall q | q in visited
      ensures nodes[p := WithValue(nodes[p], v)][q] == NodeAt(visited, ended, written[p := v], q)
    {
      NodeWithValue(visited, ended, written, p, v, q);
    }
  }

  function Changed(nodes: Nodes, p: Path, node: Node, q: Path): Node
  {
    if q == p then node else if q in nodes then nodes[q] else EMPTY_NODE
  }

  /** One node changed: what the new record says of every node. */
  ghost predicate ChangesOnly(nodes: Nodes, p: Path, node: Node,
                              visited: set<Path>, ended: set<Path>, written: map<Path, Value>)
  {
    forall q :: q in visited ==> NodeAt(visited, ended, written, q) == Changed(nodes, p, node, q)
  }

  lemma WithChildLooksUp(nodes: Nodes, p: Path, node: Node, l: Label)
    requires p in nodes
    ensures WithChild(nodes[p := node], p + [l]).Keys == nodes.Keys + {p + [l]}
    ensures forall q :: q in nodes.Keys + {p + [l]} ==>
              WithChild(nodes[p := node], p + [l])[q] == Changed(nodes, p, node, q)
  {
    assert |p + [l]| == |p| + 1;
  }

  /** One node changed and one child asked for: if that is what the new record says, it is kept. */
  lemma RecordsStep(nodes: Nodes, visited: set<Path>, p: Path, node: Node, l: Label,
                    ended: set<Path>, written: map<Path, Value>)
    requires nodes.Keys == visited && [] in visited && PrefixClosed(visited) && p in visited
    requires ended <= visited + {p + [l]} && written.Keys <= visited
    requires ChangesOnly(nodes, p, node, visited + {p + [l]}, ended, written)
    ensures Records(WithChild(nodes[p := node], p + [l]), visited + {p + [l]}, ended, written)
  {
    VisitOne(visited, p, l, p);
    WithChildLooksUp(nodes, p, node, l);
    ShapeFromChanges(nodes, p, node, WithChild(nodes[p := node], p + [l]), visited + {p + [l]}, ended, written);
  }

  lemma ShapeFromChanges(nodes: Nodes, p: Path, node: Node, after: Nodes,
                         visited: set<Path>, ended: set<Path>, written: map<Path, Value>)
    requires after.Keys == visited && forall q :: q in visited ==> after[q] == Changed(nodes, p, node, q)
    requires ChangesOnly(nodes, p, node, visited, ended, written)
    ensures IsShape(after, visited, ended, written)
  {
  }

  lemma RecordsIndex(nodes: Nodes, visited: set<Path>, ended: set<Path>, written: map<Path, Value>, p: Path, i: nat)
    requires Records(nodes, visited, ended, written) && p in visited
    ensures Records(WithChild(nodes[p := WithIndex(nodes[p], i)], p + [Idx(i)]), visited + {p + [Idx(i)]},
                    ended, written)
  {
    var after := visited + {p + [Idx(i)]};
    forall q | q in after
      ensures NodeAt(after, ended, written, q) == Changed(nodes, p, WithIndex(nodes[p], i), q)
    {
      NodeWithIndex(visited, ended, written, p, i, q);
    }
    RecordsStep(nodes, visited, p, WithIndex(nodes[p], i), Idx(i), ended, written);
  }

  lemma RecordsBranch(nodes: Nodes, visited: set<Path>, ended: set<Path>, written: map<Path, Value>, p: Path, l: Label)
    requires Records(nodes, visited, ended, written) && p in visited
    ensures Records(WithChild(nodes[p := WithBranch(nodes[p], l)], p + [l]), visited + {p + [l]},
                    ended + if l.Idx? then {p + [l]} else {}, written)
  {
    var after, more := visited + {p + [l]}, ended + if l.Idx? then {p + [l]} else {};
    forall q | q in after
      ensures NodeAt(after, more, written, q) == Changed(nodes, p, WithBranch(nodes[p], l), q)
    {
      NodeWithBranch(visited, ended, written, p, l, q);
    }
    RecordsStep(nodes, visited, p, WithBranch(nodes[p], l), l, more, written);
  }

  /** The mutable trie. The ghost fields record which nodes exist, which numeric children a key has
      ended in, and the last value written to each path. */
  class Trie {
    var nodes: Nodes

    ghost var visited: set<Path>
    ghost var ended: set<Path>
    ghost var written: map<Path, Value>

    ghost predicate Valid()
      reads this
    {
      Records(nodes, visited, ended, written)
    }

    constructor ()
      ensures Valid() && visited == {[]} && ended == {} && written == map[]
    {
      nodes, visited, ended, written := map[[] := EMPTY_NODE], {[]}, {}, map[];
    }

    /** The child under `l`, created empty when it is first asked for. */
    method Child(p: Path, l: Label) returns (child: Path)
      modifies this`nodes
      ensures child == p + [l] && nodes == WithChild(old(nodes), child)
    {
      child := p + [l];
      if child !in nodes {
        nodes := nodes[child := EMPTY_NODE];
      }
    }

    method SetValue(p: Path, v: Value)
      requires Valid() && p in visited
      modifies this`nodes, this`written
      ensures Valid() && written == old(written)[p := v]
    {
      var node := nodes[p];
      nodes := nodes[p := Node(Some(v), {}, node.branches + set i | i in node.indices :: Idx(i))];
      written := written[p := v];
      RecordsValue(old(nodes), visited, ended, old(written), p, v);
    }

    method AddIndex(p: Path, i: nat) returns (child: Path)
      requires Valid() && p in visited
      modifies this`nodes, this`visited
      ensures Valid() && child == p + [Idx(i)] && visited == old(visited) + {child}
    {
      var node := nodes[p];
      if node.value.Some? {
        node := node.(branches := node.branches + {Idx(i)});
      } else if Idx(i) !in node.branches {
        node := node.(indices := node.indices + {i});
      }
      nodes := nodes[p := node];
      child := Child(p, Idx(i));
      visited := visited + {child};
      RecordsIndex(old(nodes), old(visited), ended, written, p, i);
    }

    method AddBranch(p: Path, l: Label) returns (child: Path)
      requires Valid() && p in visited
      modifies this`nodes, this`visited, this`ended
      ensures Valid() && child == p + [l] && visited == old(visited) + {child}
      ensures ended == old(ended) + if l.Idx? then {child} else {}
    {
      var node := nodes[p];
      if l.Idx? && l.i in node.indices {
        node := node.(indices := node.indices - {l.i});
      }
      nodes := nodes[p := node.(branches := node.branches + {l})];
      assert nodes[p] == WithBranch(old(nodes)[p], l);
      child := Child(p, l);
      visited := visited + {child};
      ended := ended + if l.Idx? then {child} else {};
      RecordsBranch(old(nodes), old(visited), old(ended), written, p, l);
    }
  }

  // ---------------------------------------------------------------- building

  lemma PrefixesOfMore(paths: set<Path>, p: Path)
    ensures PrefixesOf(paths + {p}) == PrefixesOf(paths) + PrefixesOf({p})
  {
  }

  lemma PrefixesOfLonger(p: Path, l: Label)
    ensures PrefixesOf({p + [l]}) == PrefixesOf({p}) + {p + [l]}
  {
    forall q
      ensures q in PrefixesOf({p + [l]}) <==> q in PrefixesOf({p}) + {p + [l]}
    {
      if q in PrefixesOf({p + [l]}) && q != [] {
        var k :| 0 <= k <= |p| + 1 && q == (p + [l])[..k];
        if k <= |p| {
          assert q == p[..k];
        } else {
          assert q == p + [l];
        }
      }
      if q in PrefixesOf({p}) && q != [] {
        var k :| 0 <= k <= |p| && q == p[..k];
        assert q == (p + [l])[..k];
      }
      if q == p + [l] {
        assert q == (p + [l])[..|p| + 1];
      }
    }
  }

  /** Keys ended in exactly those numeric children that carry a value. */
  ghost predicate EndedMatches(ended: set<Path>, written: map<Path, Value>)
  {
    forall p: Path, i: nat :: p + [Idx(i)] in ended <==> p + [Idx(i)] in written
  }

  lemma RecordsTrie(nodes: Nodes, visited: set<Path>, ended: set<Path>, written: map<Path, Value>)
    requires Records(nodes, visited, ended, written)
    requires visited == PrefixesOf(written.Keys) && EndedMatches(ended, written)
    ensures nodes == TrieOf(written)
  {
    forall p | p in visited
      ensures nodes[p] == NodeAt(visited, written.Keys, written, p)
    {
      assert forall l :: IsIndex(written.Keys, written, p, l) == IsIndex(ended, written, p, l);
      SameIndexSameNode(visited, ended, written.Keys, written, p);
    }
    assert nodes.Keys == TrieOf(written).Keys;
  }

  /** Inserts the pairs one after the other. Whatever the keys and the order, what results is the
      trie of the last value written to each path. */
  method BuildTrie(pairs: Pairs) returns (trie: Trie)
    ensures fresh(trie) && trie.Valid()
    ensures trie.nodes == TrieOf(LastWrites(pairs))
  {
    trie := new Trie();
    for n := 0 to |pairs|
      invariant fresh(trie) && trie.Valid()
      invariant trie.written == LastWrites(pairs[..n])
      invariant trie.visited == PrefixesOf(trie.written.Keys)
      invariant EndedMatches(trie.ended, trie.written)
    {
      assert pairs[..n + 1][..n] == pairs[..n];
      if pairs[n].1 != Null {
        Insert(trie, pairs[n].0, pairs[n].1);
      }
    }
    assert pairs[..|pairs|] == pairs;
    RecordsTrie(trie.nodes, trie.visited, trie.ended, trie.written);
  }

  method Insert(trie: Trie, key: string, value: Value)
    requires trie.Valid() && EndedMatches(trie.ended, trie.written)
    requires trie.visited == PrefixesOf(trie.written.Keys)
    modifies trie
    ensures trie.Valid() && EndedMatches(trie.ended, trie.written)
    ensures trie.visited == PrefixesOf(trie.written.Keys)
    ensures trie.written == old(trie.written)[ParseKey(key) := value]
  {
    ghost var ended, written := trie.ended, trie.written;
    var t := Descend(trie, key);
    MatchesAfter(ended, written, t, value);
    trie.SetValue(t, value);
  }

  /** Ending a key in a node and giving the node a value go together. */
  lemma MatchesAfter(ended: set<Path>, written: map<Path, Value>, t: Path, value: Value)
    requires EndedMatches(ended, written) && t != []
    ensures EndedMatches(ended + if t[|t| - 1].Idx? then {t} else {}, written[t := value])
    ensures PrefixesOf(written.Keys) + PrefixesOf({t}) == PrefixesOf(written[t := value].Keys)
    ensures t in PrefixesOf({t})
  {
    PrefixesOfMore(written.Keys, t);
    assert written.Keys + {t} == written[t := value].Keys;
    PathIsPrefix(t);
    forall p: Path, i: nat
      ensures p + [Idx(i)] == t ==> t[|t| - 1].Idx?
    {
    }
  }

  lemma PathIsPrefix(t: Path)
    ensures t in PrefixesOf({t})
  {
    assert t == t[..|t|];
  }

  lemma OneDown(visited: set<Path>, t: Path, l: Label)
    ensures t in visited + PrefixesOf({t})
    ensures visited + PrefixesOf({t}) + {t + [l]} == visited + PrefixesOf({t + [l]})
  {
    PathIsPrefix(t);
    PrefixesOfLonger(t, l);
  }

  ghost predicate StillAhead(t: Path, rest: string, path: Path)
  {
    t + ParseKey(rest) == path
  }

  lemma ParseStep(t: Path, rest: string, path: Path)
    requires StillAhead(t, rest, path)
    ensures var (prefix, suffix) := Partition(rest);
            var walked := t + [LabelOf(prefix)];
            if suffix == "" then walked == path else StillAhead(walked, suffix, path)
  {
    var (prefix, suffix) := Partition(rest);
    if suffix != "" {
      assert t + ([LabelOf(prefix)] + ParseKey(suffix)) == t + [LabelOf(prefix)] + ParseKey(suffix);
    }
  }

  /** Walks down segment by segment to the node where the key ends. */
  method Descend(trie: Trie, key: string) returns (t: Path)
    requires trie.Valid()
    modifies trie`nodes, trie`visited, trie`ended
    ensures trie.Valid() && t == ParseKey(key)
    ensures trie.visited == old(trie.visited) + PrefixesOf({t})
    ensures trie.ended == old(trie.ended) + if t[|t| - 1].Idx? then {t} else {}
  {
    ghost var path, visited, ended := ParseKey(key), trie.visited, trie.ended;
    var rest := key;
    t := [];
    while true
      invariant trie.Valid() && trie.ended == ended
      invariant StillAhead(t, rest, path)
      invariant trie.visited == visited + PrefixesOf({t})
      decreases |rest|
    {
      var (prefix, suffix) := Partition(rest);
      ParseStep(t, rest, path);
      OneDown(visited, t, LabelOf(prefix));
      t := Step(trie, t, LabelOf(prefix), suffix == "");
      if suffix == "" {
        break;
      }
      rest := suffix;
    }
  }

  /** One segment: an index when more segments follow a number, a branch otherwise. */
  method Step(trie: Trie, t: Path, segment: Label, last: bool) returns (child: Path)
    requires trie.Valid() && t in trie.visited
    modifies trie`nodes, trie`visited, trie`ended
    ensures trie.Valid() && child == t + [segment]
    ensures trie.visited == old(trie.visited) + {child}
    ensures trie.ended == if last && segment.Idx? then old(trie.ended) + {child} else old(trie.ended)
  {
    if segment.Idx? && !last {
      child := trie.AddIndex(t, segment.i);
    } else {
      child := trie.AddBranch(t, segment);
    }
  }
}
