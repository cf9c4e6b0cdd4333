/** The walk of a trie, for every order in which its sets can iterate.

    The walk fixes part of the order: a node's own pair comes first, then its index children, then its
    branches, and the pairs of one child stay together. Only the order of the indices among themselves
    and of the branches among themselves is open. */
module Orders {
  import opened Finite
  import opened Keys
  import opened Tries
  import opened Walks
  import opened Wrappers

  /** How the two sets of a node iterate. */
  datatype Turns = Turns(indices: seq<Label>, branches: seq<Label>)

  datatype Order = Order(at: map<Path, Turns>)

  ghost predicate Enumerates(xs: seq<Label>, s: set<Label>)
  {
    NoRepeats(xs) && forall x :: x in xs <==> x in s
  }

  function IndexLabels(node: Node): set<Label>
  {
    set i | i in node.indices :: Idx(i)
  }

  ghost predicate IsOrder(nodes: Nodes, o: Order)
  {
    forall p :: p in nodes ==>
      p in o.at && Enumerates(o.at[p].indices, IndexLabels(nodes[p])) && Enumerates(o.at[p].branches, nodes[p].branches)
  }

  ghost function SomeTurn(labels: set<Label>): (turn: seq<Label>)
    ensures Enumerates(turn, labels)
  {
    if labels == {} then [] else var l :| l in labels; SomeTurn(labels - {l}) + [l]
  }

  /** The sets always iterate in some order. */
  ghost function SomeOrder(nodes: Nodes): Order
  {
    Order(map p | p in nodes :: Turns(SomeTurn(IndexLabels(nodes[p])), SomeTurn(nodes[p].branches)))
  }

  lemma {:induction false} SomeOrderIsOrder(nodes: Nodes)
    ensures IsOrder(nodes, SomeOrder(nodes))
  {
  }

  // ---------------------------------------------------------------- dictionaries from pairs

  /** `dict(pairs)`: a repeated key keeps its last value. */
  function DictOf(pairs: Pairs): map<string, Value>
  {
    if pairs == [] then map[]
    else DictOf(pairs[..|pairs| - 1])[pairs[|pairs| - 1].0 := pairs[|pairs| - 1].1]
  }

  /** The pair at `i` is the last one of its key. */
  ghost predicate IsLastOfKey(pairs: Pairs, i: nat)
  {
    i < |pairs| && forall j :: i < j < |pairs| ==> pairs[j].0 != pairs[i].0
  }

  lemma {:induction false} DictOfLast(pairs: Pairs, i: nat)
    requires IsLastOfKey(pairs, i)
    ensures pairs[i].0 in DictOf(pairs) && DictOf(pairs)[pairs[i].0] == pairs[i].1
    decreases |pairs|
  {
    if i < |pairs| - 1 {
      DictOfLast(pairs[..|pairs| - 1], i);
    }
  }

  lemma {:induction false} LastOfKey(pairs: Pairs, k: string) returns (i: nat)
    requires k in DictOf(pairs)
    ensures IsLastOfKey(pairs, i) && pairs[i] == (k, DictOf(pairs)[k])
    decreases |pairs|
  {
    i := |pairs| - 1;
    if pairs[i].0 != k {
      i := LastOfKey(pairs[..|pairs| - 1], k);
    }
  }

  // ---------------------------------------------------------------- the walk in a given order

  /** The pairs `_walk` yields at the node `p` under a prefix, one after the other. */
  ghost function WalkIn(nodes: Nodes, o: Order, p: Path, prefix: string): Pairs
    requires p in nodes && nodes.Keys <= o.at.Keys
    decreases Reach(nodes, p), if prefix == "" then 4 else 6, 0
  {
    var node, turns := nodes[p], o.at[p];
    if node.value.Some? then
      [(prefix, node.value.value)] + LabelsIn(nodes, o, p, prefix, turns.branches)
    else if prefix != "" && node.indices != {} then
      [(prefix, ListIn(nodes, o, p))] + LabelsIn(nodes, o, p, prefix, turns.branches)
    else if prefix != "" then
      [(prefix, Dict(DictIn(nodes, o, p)))]
    else
      LabelsIn(nodes, o, p, prefix, turns.indices) + LabelsIn(nodes, o, p, prefix, turns.branches)
  }

  ghost function LabelsIn(nodes: Nodes, o: Order, p: Path, prefix: string, labels: seq<Label>): Pairs
    requires p in nodes && nodes.Keys <= o.at.Keys
    decreases Reach(nodes, p), 3, |labels|
  {
    if labels == [] then []
    else LabelsIn(nodes, o, p, prefix, labels[..|labels| - 1]) + ChildIn(nodes, o, p, prefix, labels[|labels| - 1])
  }

  ghost function ChildIn(nodes: Nodes, o: Order, p: Path, prefix: string, l: Label): Pairs
    requires p in nodes && nodes.Keys <= o.at.Keys
    decreases Reach(nodes, p), 0, 0
  {
    ReachShrinks(nodes, p, l);
    if p + [l] in nodes then WalkIn(nodes, o, p + [l], Join(prefix, ShowLabel(l))) else []
  }

  /** `dict(_walk(trie))` */
  ghost function DictIn(nodes: Nodes, o: Order, p: Path): map<string, Value>
    requires p in nodes && nodes.Keys <= o.at.Keys
    decreases Reach(nodes, p), 5, 0
  {
    DictOf(WalkIn(nodes, o, p, ""))
  }

  ghost function ListIn(nodes: Nodes, o: Order, p: Path): Value
    requires p in nodes && nodes.Keys <= o.at.Keys
    decreases Reach(nodes, p), 1, 0
  {
    var order := Sorted(nodes[p].indices);
    List(seq(|order|, k requires 0 <= k < |order| => ItemIn(nodes, o, p, order[k])))
  }

  ghost function ItemIn(nodes: Nodes, o: Order, p: Path, i: nat): Value
    requires p in nodes && nodes.Keys <= o.at.Keys
    decreases Reach(nodes, p), 0, 0
  {
    ReachShrinks(nodes, p, Idx(i));
    if p + [Idx(i)] in nodes then Dict(DictIn(nodes, o, p + [Idx(i)])) else Dict(map[])
  }

  /** What is yielded for a node. */
  ghost function EmitIn(nodes: Nodes, o: Order, p: Path): Value
    requires p in nodes && nodes.Keys <= o.at.Keys
  {
    var node := nodes[p];
    if node.value.Some? then node.value.value
    else if node.indices != {} then ListIn(nodes, o, p)
    else Dict(DictIn(nodes, o, p))
  }

  // ---------------------------------------------------------------- which node comes when

  ghost function OwnTurn(nodes: Nodes, base: Path, r: Path): seq<Path>
    requires base + r in nodes
  {
    if ShowPath(r) != "" || nodes[base + r].value.Some? then [r] else []
  }

  /** The index children walked into, where there is no key for a list. */
  function FirstTurn(node: Node, prefix: string, turns: Turns): seq<Label>
  {
    if prefix == "" && node.value.None? then turns.indices else []
  }

  /** The branches walked into; a node with nothing else becomes a dictionary of its own. */
  function SecondTurn(node: Node, prefix: string, turns: Turns): seq<Label>
  {
    if prefix != "" && node.value.None? && node.indices == {} then [] else turns.branches
  }

  lemma {:induction false} DeeperReach(nodes: Nodes, base: Path, r: Path, l: Label)
    requires base + r in nodes
    ensures base + (r + [l]) == base + r + [l] && Reach(nodes, base + (r + [l])) < Reach(nodes, base + r)
  {
    assert base + (r + [l]) == base + r + [l];
    ReachShrinks(nodes, base + r, l);
  }

  /** The nodes emitted from `r` on, relative to the dictionary at `base`, in the order of the walk. */
  ghost function VisitIn(nodes: Nodes, o: Order, base: Path, r: Path): seq<Path>
    requires base + r in nodes && nodes.Keys <= o.at.Keys
    decreases Reach(nodes, base + r), 1, 0
  {
    var node, prefix, turns := nodes[base + r], ShowPath(r), o.at[base + r];
    OwnTurn(nodes, base, r) + VisitLabels(nodes, o, base, r, FirstTurn(node, prefix, turns))
    + VisitLabels(nodes, o, base, r, SecondTurn(node, prefix, turns))
  }

  ghost function VisitLabels(nodes: Nodes, o: Order, base: Path, r: Path, labels: seq<Label>): seq<Path>
    requires base + r in nodes && nodes.Keys <= o.at.Keys
    decreases Reach(nodes, base + r), 0, |labels|
  {
    if labels == [] then []
    else
      var l := labels[|labels| - 1];
      DeeperReach(nodes, base, r, l);
      VisitLabels(nodes, o, base, r, labels[..|labels| - 1])
      + if base + (r + [l]) in nodes then VisitIn(nodes, o, base, r + [l]) else []
  }

  ghost function PairAt(nodes: Nodes, o: Order, base: Path, s: Path): (string, Value)
    requires nodes.Keys <= o.at.Keys
  {
    (ShowPath(s), if base + s in nodes then EmitIn(nodes, o, base + s) else Null)
  }

  ghost function PairsAt(nodes: Nodes, o: Order, base: Path, at: seq<Path>): Pairs
    requires nodes.Keys <= o.at.Keys
  {
    seq(|at|, i requires 0 <= i < |at| => PairAt(nodes, o, base, at[i]))
  }

  lemma {:induction false} PairsAtAppend(nodes: Nodes, o: Order, base: Path, at: seq<Path>, more: seq<Path>)
    requires nodes.Keys <= o.at.Keys
    ensures PairsAt(nodes, o, base, at + more) == PairsAt(nodes, o, base, at) + PairsAt(nodes, o, base, more)
  {
  }

  /** The walk yields the pairs of the nodes visited. */
  lemma {:induction false} WalkIsVisit(nodes: Nodes, o: Order, base: Path, r: Path)
    requires base + r in nodes && nodes.Keys <= o.at.Keys
    ensures WalkIn(nodes, o, base + r, ShowPath(r)) == PairsAt(nodes, o, base, VisitIn(nodes, o, base, r))
    decreases Reach(nodes, base + r), 1, 0
  {
    var node, prefix, turns := nodes[base + r], ShowPath(r), o.at[base + r];
    var first, second := FirstTurn(node, prefix, turns), SecondTurn(node, prefix, turns);
    LabelsAreVisit(nodes, o, base, r, first);
    LabelsAreVisit(nodes, o, base, r, second);
    var own := OwnTurn(nodes, base, r);
    PairsAtAppend(nodes, o, base, own, VisitLabels(nodes, o, base, r, first));
    PairsAtAppend(nodes, o, base, own + VisitLabels(nodes, o, base, r, first), VisitLabels(nodes, o, base, r, second));
    WalkParts(nodes, o, base, r);
  }

  lemma {:induction false} WalkParts(nodes: Nodes, o: Order, base: Path, r: Path)
    requires base + r in nodes && nodes.Keys <= o.at.Keys
    ensures var node, prefix, turns := nodes[base + r], ShowPath(r), o.at[base + r];
            WalkIn(nodes, o, base + r, prefix)
            == PairsAt(nodes, o, base, OwnTurn(nodes, base, r))
               + LabelsIn(nodes, o, base + r, prefix, FirstTurn(node, prefix, turns))
               + LabelsIn(nodes, o, base + r, prefix, SecondTurn(node, prefix, turns))
  {
    var own := OwnTurn(nodes, base, r);
    assert PairsAt(nodes, o, base, own) == if own == [] then [] else [PairAt(nodes, o, base, r)];
  }

  lemma {:induction false} LabelsAreVisit(nodes: Nodes, o: Order, base: Path, r: Path, labels: seq<Label>)
    requires base + r in nodes && nodes.Keys <= o.at.Keys
    ensures LabelsIn(nodes, o, base + r, ShowPath(r), labels)
         == PairsAt(nodes, o, base, VisitLabels(nodes, o, base, r, labels))
    decreases Reach(nodes, base + r), 0, |labels|
  {
    if labels != [] {
      var init, l := labels[..|labels| - 1], labels[|labels| - 1];
      LabelsAreVisit(nodes, o, base, r, init);
      DeeperReach(nodes, base, r, l);
      ShowPathLast(r, l);
      if base + (r + [l]) in nodes {
        WalkIsVisit(nodes, o, base, r + [l]);
        PairsAtAppend(nodes, o, base, VisitLabels(nodes, o, base, r, init), VisitIn(nodes, o, base, r + [l]));
      }
    }
  }

  // ---------------------------------------------------------------- the nodes visited

  /** What every trie is like: its children exist, and none is both an index and a branch. */
  ghost predicate TrieLike(nodes: Nodes)
  {
    forall p, l :: p in nodes && l in IndexLabels(nodes[p]) + nodes[p].branches ==>
      p + [l] in nodes && !(l in IndexLabels(nodes[p]) && l in nodes[p].branches)
  }

  /** `s` is reached through one of the labels. */
  ghost predicate Through(r: Path, labels: seq<Label>, s: Path)
  {
    exists l :: l in labels && r + [l] <= s
  }

  lemma {:induction false} EntersTurns(nodes: Nodes, o: Order, p: Path, prefix: string, l: Label)
    requires IsOrder(nodes, o) && p in nodes
    ensures Enters(nodes[p], prefix, l) <==>
            l in FirstTurn(nodes[p], prefix, o.at[p]) || l in SecondTurn(nodes[p], prefix, o.at[p])
  {
    assert l.Idx? ==> Idx(l.i) == l;
  }

  /** What is emitted from a node on is the node itself or is reached in one of its two turns. */
  lemma {:induction false} EmittedCases(nodes: Nodes, o: Order, base: Path, r: Path, s: Path)
    requires IsOrder(nodes, o) && Walked(nodes, base, r)
    ensures var node, prefix, turns := nodes[base + r], ShowPath(r), o.at[base + r];
            r <= s && IsEmitted(nodes, base, s) <==>
            || s in OwnTurn(nodes, base, r)
            || (Through(r, FirstTurn(node, prefix, turns), s) && IsEmitted(nodes, base, s))
            || (Through(r, SecondTurn(node, prefix, turns), s) && IsEmitted(nodes, base, s))
  {
    var node, prefix, turns := nodes[base + r], ShowPath(r), o.at[base + r];
    if r <= s && s != r && IsEmitted(nodes, base, s) {
      var l := NextStep(r, s);
      WalkedPrefix(nodes, base, r + [l], s);
      WalkedChild(nodes, base, r, l);
      EntersTurns(nodes, o, base + r, prefix, l);
      assert Through(r, FirstTurn(node, prefix, turns), s) || Through(r, SecondTurn(node, prefix, turns), s);
    }
    ThroughDeeper(r, FirstTurn(node, prefix, turns), s);
    ThroughDeeper(r, SecondTurn(node, prefix, turns), s);
  }

  lemma {:induction false} ThroughDeeper(r: Path, labels: seq<Label>, s: Path)
    ensures Through(r, labels, s) ==> r <= s && s != r
  {
    if l :| l in labels && r + [l] <= s {
      assert r <= r + [l] <= s;
    }
  }

  /** All labels are those of children that the walk enters. */
  ghost predicate AreEntered(nodes: Nodes, base: Path, r: Path, labels: seq<Label>)
  {
    base + r in nodes && forall l :: l in labels ==> Enters(nodes[base + r], ShowPath(r), l)
  }

  lemma {:induction false} TurnsAreEntered(nodes: Nodes, o: Order, base: Path, r: Path)
    requires IsOrder(nodes, o) && Walked(nodes, base, r)
    ensures AreEntered(nodes, base, r, FirstTurn(nodes[base + r], ShowPath(r), o.at[base + r]))
    ensures AreEntered(nodes, base, r, SecondTurn(nodes[base + r], ShowPath(r), o.at[base + r]))
  {
    forall l
      ensures l in FirstTurn(nodes[base + r], ShowPath(r), o.at[base + r]) ==> Enters(nodes[base + r], ShowPath(r), l)
      ensures l in SecondTurn(nodes[base + r], ShowPath(r), o.at[base + r]) ==> Enters(nodes[base + r], ShowPath(r), l)
    {
      EntersTurns(nodes, o, base + r, ShowPath(r), l);
    }
  }

  /** The nodes visited are the nodes emitted. */
  lemma {:induction false} VisitHolds(nodes: Nodes, o: Order, base: Path, r: Path, s: Path)
    requires IsOrder(nodes, o) && TrieLike(nodes) && Walked(nodes, base, r)
    ensures s in VisitIn(nodes, o, base, r) <==> r <= s && IsEmitted(nodes, base, s)
    decreases Reach(nodes, base + r), 1, 0
  {
    var node, prefix, turns := nodes[base + r], ShowPath(r), o.at[base + r];
    TurnsAreEntered(nodes, o, base, r);
    VisitLabelsHold(nodes, o, base, r, FirstTurn(node, prefix, turns), s);
    VisitLabelsHold(nodes, o, base, r, SecondTurn(node, prefix, turns), s);
    EmittedCases(nodes, o, base, r, s);
  }

  lemma {:induction false} VisitLabelsHold(nodes: Nodes, o: Order, base: Path, r: Path, labels: seq<Label>, s: Path)
    requires IsOrder(nodes, o) && TrieLike(nodes) && Walked(nodes, base, r) && AreEntered(nodes, base, r, labels)
    ensures s in VisitLabels(nodes, o, base, r, labels) <==> Through(r, labels, s) && IsEmitted(nodes, base, s)
    decreases Reach(nodes, base + r), 0, |labels|
  {
    if labels != [] {
      var init, l := labels[..|labels| - 1], labels[|labels| - 1];
      assert labels == init + [l];
      VisitLabelsHold(nodes, o, base, r, init, s);
      DeeperReach(nodes, base, r, l);
      EnteredIsWalked(nodes, base, r, l);
      VisitHolds(nodes, o, base, r + [l], s);
      ThroughOneMore(r, init, l, s);
    }
  }

  lemma {:induction false} ThroughOneMore(r: Path, init: seq<Label>, l: Label, s: Path)
    ensures Through(r, init + [l], s) <==> Through(r, init, s) || r + [l] <= s
  {
    assert (init + [l])[|init|] == l;
  }

  lemma {:induction false} EnteredIsWalked(nodes: Nodes, base: Path, r: Path, l: Label)
    requires TrieLike(nodes) && Walked(nodes, base, r) && Enters(nodes[base + r], ShowPath(r), l)
    ensures base + (r + [l]) in nodes && Walked(nodes, base, r + [l])
  {
    assert l in IndexLabels(nodes[base + r]) + nodes[base + r].branches;
    WalkedChild(nodes, base, r, l);
  }
}
