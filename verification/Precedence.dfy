/** Which nodes of a walk come after which others in every order of iteration, and how an order can be
    arranged in favour of one node. */
module Precedence {
  import opened Finite
  import opened Keys
  import opened Orders
  import opened Tries
  import opened Walks
  import opened Wrappers

  ghost predicate ByIndex(nodes: Nodes, p: Path, l: Label)
  {
    p in nodes && l in IndexLabels(nodes[p])
  }

  /** The two part at position `n`, the first through an index and the second through a branch. */
  ghost predicate PartAt(nodes: Nodes, base: Path, s: Path, t: Path, n: nat)
  {
    && n < |s| && n < |t| && s[..n] == t[..n]
    && ByIndex(nodes, base + s[..n], s[n]) && !ByIndex(nodes, base + s[..n], t[n])
  }

  /** `t` comes after `s` in every order: it lies below `s`, or they part at a node where `s` goes on
      through an index and `t` through a branch. */
  ghost predicate Overtakes(nodes: Nodes, base: Path, s: Path, t: Path)
  {
    (s <= t && s != t) || exists n :: PartAt(nodes, base, s, t, n)
  }

  /** Paths through different children of `r` part there. */
  lemma {:induction false} PartThere(r: Path, l: Label, k: Label, s: Path, t: Path, n: nat)
    requires r + [l] <= s && r + [k] <= t && l != k
    requires n < |s| && n < |t| && s[..n] == t[..n] && s[n] != t[n]
    ensures n == |r|
  {
    LabelAt(r, l, s);
    LabelAt(r, k, t);
    forall m: nat | m < |r|
      ensures s[m] == t[m]
    {
      assert s[..|r|][m] == t[..|r|][m];
    }
    forall m: nat | |r| < m <= |s| && m <= |t|
      ensures s[..m] != t[..m]
    {
      assert s[..m][|r|] == l && t[..m][|r|] == k;
    }
  }

  /** Below different children, only the kind of the children matters. */
  lemma {:induction false} OvertakesAcross(nodes: Nodes, base: Path, r: Path, l: Label, k: Label, s: Path, t: Path)
    requires r + [l] <= s && r + [k] <= t && l != k
    ensures Overtakes(nodes, base, s, t) <==> ByIndex(nodes, base + r, l) && !ByIndex(nodes, base + r, k)
  {
    LabelAt(r, l, s);
    LabelAt(r, k, t);
    if n: nat :| PartAt(nodes, base, s, t, n) {
      PartThere(r, l, k, s, t, n);
    }
    if ByIndex(nodes, base + r, l) && !ByIndex(nodes, base + r, k) {
      assert PartAt(nodes, base, s, t, |r|);
    }
  }

  lemma {:induction false} LabelAt(r: Path, l: Label, s: Path)
    requires r + [l] <= s
    ensures |r| < |s| && s[..|r|] == r && s[|r|] == l
  {
    assert (r + [l])[|r|] == l && (r + [l])[..|r|] == r;
  }

  /** Nothing below a node comes before it. */
  lemma {:induction false} BelowComesLater(nodes: Nodes, base: Path, r: Path, s: Path)
    requires r <= s && s != r
    ensures Overtakes(nodes, base, r, s) && !Overtakes(nodes, base, s, r)
  {
    forall n: nat
      ensures !PartAt(nodes, base, s, r, n)
    {
      assert n < |r| ==> s[n] == r[n];
    }
  }

  // ---------------------------------------------------------------- every order keeps the precedence

  /** The sequence never puts a node before one that it overtakes. */
  ghost predicate InSequence(nodes: Nodes, base: Path, at: seq<Path>)
  {
    forall i, j :: 0 <= i < |at| && 0 <= j < |at| && Overtakes(nodes, base, at[i], at[j]) ==> i < j
  }

  /** Nothing in the second sequence is overtaken by anything in the first. */
  ghost predicate NeverBack(nodes: Nodes, base: Path, at: seq<Path>, more: seq<Path>)
  {
    forall s, t :: s in more && t in at ==> !Overtakes(nodes, base, s, t)
  }

  lemma {:induction false} InSequenceAppend(nodes: Nodes, base: Path, at: seq<Path>, more: seq<Path>)
    requires InSequence(nodes, base, at) && InSequence(nodes, base, more) && NeverBack(nodes, base, at, more)
    ensures InSequence(nodes, base, at + more)
  {
    var all := at + more;
    forall i, j | |at| <= i < |all| && 0 <= j < |at|
      ensures !Overtakes(nodes, base, all[i], all[j])
    {
      assert all[i] in more && all[j] in at;
    }
    forall i, j | |at| <= i < |all| && |at| <= j < |all| && Overtakes(nodes, base, all[i], all[j])
      ensures i < j
    {
      assert all[i] == more[i - |at|] && all[j] == more[j - |at|];
    }
  }

  lemma {:induction false} NeverBackAppend(nodes: Nodes, base: Path, at: seq<Path>, more: seq<Path>, rest: seq<Path>)
    requires NeverBack(nodes, base, at, rest) && NeverBack(nodes, base, more, rest)
    ensures NeverBack(nodes, base, at + more, rest)
  {
  }

  /** Where a walk stands in a trie. */
  ghost predicate Stands(nodes: Nodes, o: Order, base: Path, r: Path)
  {
    IsOrder(nodes, o) && TrieLike(nodes) && Walked(nodes, base, r)
  }

  /** No label occurs in both, and no index of the second comes after a branch of the first. */
  ghost predicate Apart(nodes: Nodes, p: Path, labels: seq<Label>, more: seq<Label>)
  {
    forall l, k :: l in labels && k in more ==> l != k && (ByIndex(nodes, p, k) ==> ByIndex(nodes, p, l))
  }

  lemma {:induction false} NeverBackThrough(nodes: Nodes, base: Path, r: Path, labels: seq<Label>, more: seq<Label>,
                                            s: Path, t: Path)
    requires Apart(nodes, base + r, labels, more) && Through(r, more, s) && Through(r, labels, t)
    ensures !Overtakes(nodes, base, s, t)
  {
    var k :| k in more && r + [k] <= s;
    var l :| l in labels && r + [l] <= t;
    OvertakesAcross(nodes, base, r, k, l, s, t);
  }

  lemma {:induction false} NeverBackAcross(nodes: Nodes, o: Order, base: Path, r: Path, labels: seq<Label>,
                                           more: seq<Label>)
    requires Stands(nodes, o, base, r) && AreEntered(nodes, base, r, labels) && AreEntered(nodes, base, r, more)
    requires Apart(nodes, base + r, labels, more)
    ensures NeverBack(nodes, base, VisitLabels(nodes, o, base, r, labels), VisitLabels(nodes, o, base, r, more))
  {
    forall s, t | s in VisitLabels(nodes, o, base, r, more) && t in VisitLabels(nodes, o, base, r, labels)
      ensures !Overtakes(nodes, base, s, t)
    {
      VisitLabelsHold(nodes, o, base, r, more, s);
      VisitLabelsHold(nodes, o, base, r, labels, t);
      NeverBackThrough(nodes, base, r, labels, more, s, t);
    }
  }

  /** Labels of one kind, none twice. */
  ghost predicate OneKind(nodes: Nodes, p: Path, labels: seq<Label>)
  {
    NoRepeats(labels)
    && forall l, k :: l in labels && k in labels ==> (ByIndex(nodes, p, l) <==> ByIndex(nodes, p, k))
  }

  lemma {:induction false} OneKindApart(nodes: Nodes, p: Path, labels: seq<Label>)
    requires OneKind(nodes, p, labels) && labels != []
    ensures OneKind(nodes, p, labels[..|labels| - 1])
    ensures Apart(nodes, p, labels[..|labels| - 1], [labels[|labels| - 1]])
  {
    var init, last := labels[..|labels| - 1], labels[|labels| - 1];
    forall l | l in init
      ensures l in labels && l != last
    {
    }
  }

  lemma {:induction false} LabelsInSequence(nodes: Nodes, o: Order, base: Path, r: Path, labels: seq<Label>)
    requires Stands(nodes, o, base, r) && AreEntered(nodes, base, r, labels) && OneKind(nodes, base + r, labels)
    ensures InSequence(nodes, base, VisitLabels(nodes, o, base, r, labels))
    decreases Reach(nodes, base + r), 0, |labels|
  {
    if labels != [] {
      var init, l := labels[..|labels| - 1], labels[|labels| - 1];
      OneKindApart(nodes, base + r, labels);
      LabelsInSequence(nodes, o, base, r, init);
      DeeperReach(nodes, base, r, l);
      EnteredIsWalked(nodes, base, r, l);
      VisitInSequence(nodes, o, base, r + [l]);
      LoneLabel(nodes, o, base, r, l);
      NeverBackAcross(nodes, o, base, r, init, [l]);
      InSequenceAppend(nodes, base, VisitLabels(nodes, o, base, r, init), VisitIn(nodes, o, base, r + [l]));
    }
  }

  lemma {:induction false} LoneLabel(nodes: Nodes, o: Order, base: Path, r: Path, l: Label)
    requires base + r in nodes && nodes.Keys <= o.at.Keys && base + (r + [l]) in nodes
    ensures VisitLabels(nodes, o, base, r, [l]) == VisitIn(nodes, o, base, r + [l])
  {
    assert VisitLabels(nodes, o, base, r, []) == [];
    assert [l][..0] == [];
  }

  /** The turns of a node: labels of one kind each, indices in the first and branches in the second. */
  lemma {:induction false} TurnsOfOneKind(nodes: Nodes, o: Order, p: Path, prefix: string)
    requires IsOrder(nodes, o) && TrieLike(nodes) && p in nodes
    ensures OneKind(nodes, p, FirstTurn(nodes[p], prefix, o.at[p]))
            && OneKind(nodes, p, SecondTurn(nodes[p], prefix, o.at[p]))
    ensures forall l :: l in FirstTurn(nodes[p], prefix, o.at[p]) ==> ByIndex(nodes, p, l)
    ensures forall k :: k in SecondTurn(nodes[p], prefix, o.at[p]) ==> !ByIndex(nodes, p, k)
  {
  }

  /** Whatever the order, the walk puts no node before one that it overtakes. */
  lemma {:induction false} VisitInSequence(nodes: Nodes, o: Order, base: Path, r: Path)
    requires Stands(nodes, o, base, r)
    ensures InSequence(nodes, base, VisitIn(nodes, o, base, r))
    decreases Reach(nodes, base + r), 1, 0
  {
    var node, prefix, turns := nodes[base + r], ShowPath(r), o.at[base + r];
    var first, second := FirstTurn(node, prefix, turns), SecondTurn(node, prefix, turns);
    TurnsOfOneKind(nodes, o, base + r, prefix);
    TurnsAreEntered(nodes, o, base, r);
    LabelsInSequence(nodes, o, base, r, first);
    LabelsInSequence(nodes, o, base, r, second);
    NeverBackAcross(nodes, o, base, r, first, second);
    OwnNeverBack(nodes, o, base, r, first);
    OwnNeverBack(nodes, o, base, r, second);
    OwnInSequence(nodes, base, r);
    var own, a, b := OwnTurn(nodes, base, r), VisitLabels(nodes, o, base, r, first),
                     VisitLabels(nodes, o, base, r, second);
    InSequenceAppend(nodes, base, own, a);
    NeverBackAppend(nodes, base, own, a, b);
    InSequenceAppend(nodes, base, own + a, b);
  }

  lemma {:induction false} OwnInSequence(nodes: Nodes, base: Path, r: Path)
    requires base + r in nodes
    ensures InSequence(nodes, base, OwnTurn(nodes, base, r))
  {
    assert !exists n: nat :: PartAt(nodes, base, r, r, n);
  }

  lemma {:induction false} OwnNeverBack(nodes: Nodes, o: Order, base: Path, r: Path, labels: seq<Label>)
    requires Stands(nodes, o, base, r) && AreEntered(nodes, base, r, labels)
    ensures NeverBack(nodes, base, OwnTurn(nodes, base, r), VisitLabels(nodes, o, base, r, labels))
  {
    forall s | s in VisitLabels(nodes, o, base, r, labels)
      ensures !Overtakes(nodes, base, s, r)
    {
      VisitLabelsHold(nodes, o, base, r, labels, s);
      ThroughDeeper(r, labels, s);
      BelowComesLater(nodes, base, r, s);
    }
  }

  // ---------------------------------------------------------------- an order in favour of one node

  function Without(xs: seq<Label>, l: Label): seq<Label>
  {
    if xs == [] then []
    else Without(xs[..|xs| - 1], l) + if xs[|xs| - 1] == l then [] else [xs[|xs| - 1]]
  }

  function ToEnd(xs: seq<Label>, l: Label): seq<Label>
  {
    if l in xs then Without(xs, l) + [l] else xs
  }

  lemma {:induction false} WithoutHolds(xs: seq<Label>, l: Label)
    ensures forall k :: k in Without(xs, l) <==> k in xs && k != l
    ensures NoRepeats(xs) ==> NoRepeats(Without(xs, l))
    decreases |xs|
  {
    if xs != [] {
      var init, last := xs[..|xs| - 1], xs[|xs| - 1];
      assert xs == init + [last];
      WithoutHolds(init, l);
      assert NoRepeats(xs) ==> last !in init;
    }
  }

  lemma {:induction false} ToEndEnumerates(xs: seq<Label>, s: set<Label>, l: Label)
    requires Enumerates(xs, s)
    ensures Enumerates(ToEnd(xs, l), s)
  {
    WithoutHolds(xs, l);
  }

  /** On the way from the dictionary at `base` to `base + s` every child on the way goes last. */
  function Favouring(o: Order, base: Path, s: Path): Order
  {
    Order(map p | p in o.at ::
      if base <= p && p <= base + s && |p| < |base + s| then
        Turns(ToEnd(o.at[p].indices, s[|p| - |base|]), ToEnd(o.at[p].branches, s[|p| - |base|]))
      else o.at[p])
  }

  lemma {:induction false} FavouringIsOrder(nodes: Nodes, o: Order, base: Path, s: Path)
    requires IsOrder(nodes, o)
    ensures IsOrder(nodes, Favouring(o, base, s))
  {
    forall p | p in nodes
      ensures p in Favouring(o, base, s).at
      ensures Enumerates(Favouring(o, base, s).at[p].indices, IndexLabels(nodes[p]))
      ensures Enumerates(Favouring(o, base, s).at[p].branches, nodes[p].branches)
    {
      if base <= p && p <= base + s && |p| < |base + s| {
        ToEndEnumerates(o.at[p].indices, IndexLabels(nodes[p]), s[|p| - |base|]);
        ToEndEnumerates(o.at[p].branches, nodes[p].branches, s[|p| - |base|]);
      }
    }
  }

  /** After `s` comes nothing in the sequence but what overtakes it. */
  ghost predicate IsLastBut(nodes: Nodes, base: Path, at: seq<Path>, s: Path)
  {
    exists i: nat :: IsLastFrom(nodes, base, at, s, i)
  }

  ghost predicate IsLastFrom(nodes: Nodes, base: Path, at: seq<Path>, s: Path, i: nat)
  {
    i < |at| && at[i] == s && forall j :: i < j < |at| ==> Overtakes(nodes, base, s, at[j])
  }

  lemma {:induction false} LastAfterMore(nodes: Nodes, base: Path, before: seq<Path>, at: seq<Path>, s: Path)
    requires IsLastBut(nodes, base, at, s)
    ensures IsLastBut(nodes, base, before + at, s)
  {
    var i: nat :| IsLastFrom(nodes, base, at, s, i);
    var all := before + at;
    forall j | |before| + i < j < |all|
      ensures Overtakes(nodes, base, s, all[j])
    {
      assert all[j] == at[j - |before|];
    }
    assert IsLastFrom(nodes, base, all, s, |before| + i);
  }

  lemma {:induction false} LastBeforeOvertaking(nodes: Nodes, base: Path, at: seq<Path>, more: seq<Path>, s: Path)
    requires IsLastBut(nodes, base, at, s) && forall t :: t in more ==> Overtakes(nodes, base, s, t)
    ensures IsLastBut(nodes, base, at + more, s)
  {
    var i: nat :| IsLastFrom(nodes, base, at, s, i);
    var all := at + more;
    forall j | i < j < |all|
      ensures Overtakes(nodes, base, s, all[j])
    {
      if |at| <= j {
        assert all[j] == more[j - |at|];
      }
    }
    assert IsLastFrom(nodes, base, all, s, i);
  }

  /** The walk from `s` itself on: its own pair, and then what overtakes it. */
  lemma {:induction false} OwnIsLast(nodes: Nodes, f: Order, base: Path, s: Path)
    requires Stands(nodes, f, base, s) && IsEmitted(nodes, base, s)
    ensures IsLastBut(nodes, base, VisitIn(nodes, f, base, s), s)
  {
    var node, prefix, turns := nodes[base + s], ShowPath(s), f.at[base + s];
    var first, second := FirstTurn(node, prefix, turns), SecondTurn(node, prefix, turns);
    var own, a := OwnTurn(nodes, base, s), VisitLabels(nodes, f, base, s, first);
    assert IsLastFrom(nodes, base, own, s, 0);
    TurnsAreEntered(nodes, f, base, s);
    BelowOvertakes(nodes, f, base, s, first);
    BelowOvertakes(nodes, f, base, s, second);
    LastBeforeOvertaking(nodes, base, own, a, s);
    LastBeforeOvertaking(nodes, base, own + a, VisitLabels(nodes, f, base, s, second), s);
  }

  /** The walk of a node one of whose children is the last of its turn and has `s` last. */
  lemma {:induction false} ChildIsLast(nodes: Nodes, f: Order, base: Path, r: Path, l: Label, s: Path)
    requires Stands(nodes, f, base, r) && r + [l] <= s && base + (r + [l]) in nodes
    requires Enters(nodes[base + r], ShowPath(r), l)
    requires l in f.at[base + r].indices ==> f.at[base + r].indices[|f.at[base + r].indices| - 1] == l
    requires l in f.at[base + r].branches ==> f.at[base + r].branches[|f.at[base + r].branches| - 1] == l
    requires IsLastBut(nodes, base, VisitIn(nodes, f, base, r + [l]), s)
    ensures IsLastBut(nodes, base, VisitIn(nodes, f, base, r), s)
  {
    var node, prefix, turns := nodes[base + r], ShowPath(r), f.at[base + r];
    var first, second := FirstTurn(node, prefix, turns), SecondTurn(node, prefix, turns);
    EntersTurns(nodes, f, base + r, prefix, l);
    if l in first {
      FirstIsLast(nodes, f, base, r, l, s, first, second);
    } else {
      LastOfTurn(nodes, f, base, r, second, l, s);
    }
    JoinLast(nodes, base, OwnTurn(nodes, base, r), VisitLabels(nodes, f, base, r, first),
             VisitLabels(nodes, f, base, r, second), s);
  }

  lemma {:induction false} JoinLast(nodes: Nodes, base: Path, own: seq<Path>, a: seq<Path>, b: seq<Path>, s: Path)
    requires || IsLastBut(nodes, base, b, s)
             || (IsLastBut(nodes, base, a, s) && forall t :: t in b ==> Overtakes(nodes, base, s, t))
    ensures IsLastBut(nodes, base, own + a + b, s)
  {
    if IsLastBut(nodes, base, b, s) {
      LastAfterMore(nodes, base, own + a, b, s);
    } else {
      LastAfterMore(nodes, base, own, a, s);
      LastBeforeOvertaking(nodes, base, own + a, b, s);
    }
  }

  lemma {:induction false} FirstIsLast(nodes: Nodes, f: Order, base: Path, r: Path, l: Label, s: Path,
                    first: seq<Label>, second: seq<Label>)
    requires Stands(nodes, f, base, r) && r + [l] <= s && base + (r + [l]) in nodes
    requires first == FirstTurn(nodes[base + r], ShowPath(r), f.at[base + r])
    requires second == SecondTurn(nodes[base + r], ShowPath(r), f.at[base + r])
    requires l in first && first[|first| - 1] == l
    requires IsLastBut(nodes, base, VisitIn(nodes, f, base, r + [l]), s)
    ensures IsLastBut(nodes, base, VisitLabels(nodes, f, base, r, first), s)
    ensures forall t :: t in VisitLabels(nodes, f, base, r, second) ==> Overtakes(nodes, base, s, t)
  {
    TurnKinds(nodes, f, base + r, ShowPath(r), first, second);
    LastOfTurn(nodes, f, base, r, first, l, s);
    SecondIsEntered(nodes, f, base, r, second);
    BranchesOvertake(nodes, f, base, r, l, second, s);
  }

  lemma {:induction false} TurnKinds(nodes: Nodes, f: Order, p: Path, prefix: string, first: seq<Label>,
                                     second: seq<Label>)
    requires IsOrder(nodes, f) && TrieLike(nodes) && p in nodes
    requires first == FirstTurn(nodes[p], prefix, f.at[p]) && second == SecondTurn(nodes[p], prefix, f.at[p])
    ensures forall l :: l in first ==> ByIndex(nodes, p, l)
    ensures forall k :: k in second ==> !ByIndex(nodes, p, k)
  {
    TurnsOfOneKind(nodes, f, p, prefix);
  }

  lemma {:induction false} SecondIsEntered(nodes: Nodes, f: Order, base: Path, r: Path, second: seq<Label>)
    requires Stands(nodes, f, base, r) && second == SecondTurn(nodes[base + r], ShowPath(r), f.at[base + r])
    ensures AreEntered(nodes, base, r, second)
  {
    TurnsAreEntered(nodes, f, base, r);
  }

  /** The walk in the order that favours `s`. */
  lemma {:induction false} FavouredIsLast(nodes: Nodes, o: Order, base: Path, r: Path, s: Path)
    requires Stands(nodes, o, base, r) && r <= s && IsEmitted(nodes, base, s)
    ensures nodes.Keys <= Favouring(o, base, s).at.Keys
    ensures IsLastBut(nodes, base, VisitIn(nodes, Favouring(o, base, s), base, r), s)
    decreases |s| - |r|
  {
    FavouringIsOrder(nodes, o, base, s);
    if r == s {
      OwnIsLast(nodes, Favouring(o, base, s), base, s);
    } else {
      var l := NextStep(r, s);
      WalkedPrefix(nodes, base, r + [l], s);
      WalkedChild(nodes, base, r, l);
      FavouredIsLast(nodes, o, base, r + [l], s);
      FavouredTurn(nodes, o, base, r, l, s);
      ChildIsLast(nodes, Favouring(o, base, s), base, r, l, s);
    }
  }

  lemma {:induction false} BelowOvertakes(nodes: Nodes, f: Order, base: Path, r: Path, labels: seq<Label>)
    requires Stands(nodes, f, base, r) && AreEntered(nodes, base, r, labels)
    ensures forall t :: t in VisitLabels(nodes, f, base, r, labels) ==> Overtakes(nodes, base, r, t)
  {
    forall t | t in VisitLabels(nodes, f, base, r, labels)
      ensures Overtakes(nodes, base, r, t)
    {
      VisitLabelsHold(nodes, f, base, r, labels, t);
      ThroughDeeper(r, labels, t);
    }
  }

  lemma {:induction false} BranchesOvertake(nodes: Nodes, f: Order, base: Path, r: Path, l: Label, second: seq<Label>,
                                            s: Path)
    requires Stands(nodes, f, base, r) && AreEntered(nodes, base, r, second)
    requires r + [l] <= s && ByIndex(nodes, base + r, l)
    requires forall k :: k in second ==> !ByIndex(nodes, base + r, k)
    ensures forall t :: t in VisitLabels(nodes, f, base, r, second) ==> Overtakes(nodes, base, s, t)
  {
    forall t | t in VisitLabels(nodes, f, base, r, second)
      ensures Overtakes(nodes, base, s, t)
    {
      VisitLabelsHold(nodes, f, base, r, second, t);
      var k :| k in second && r + [k] <= t;
      OvertakesAcross(nodes, base, r, l, k, s, t);
    }
  }

  /** The favoured child is the last one of its turn. */
  lemma {:induction false} FavouredTurn(nodes: Nodes, o: Order, base: Path, r: Path, l: Label, s: Path)
    requires base + r in o.at && r + [l] <= s
    ensures base + r in Favouring(o, base, s).at
    ensures var f := Favouring(o, base, s).at[base + r];
            && (l in f.indices ==> f.indices[|f.indices| - 1] == l)
            && (l in f.branches ==> f.branches[|f.branches| - 1] == l)
  {
    LabelAt(r, l, s);
    assert base <= base + r && base + r <= base + s;
    WithoutHolds(o.at[base + r].indices, l);
    WithoutHolds(o.at[base + r].branches, l);
  }

  lemma {:induction false} LastOfTurn(nodes: Nodes, f: Order, base: Path, r: Path, labels: seq<Label>, l: Label,
                                      s: Path)
    requires base + r in nodes && nodes.Keys <= f.at.Keys && base + (r + [l]) in nodes
    requires labels != [] && labels[|labels| - 1] == l
    requires IsLastBut(nodes, base, VisitIn(nodes, f, base, r + [l]), s)
    ensures IsLastBut(nodes, base, VisitLabels(nodes, f, base, r, labels), s)
  {
    LastAfterMore(nodes, base, VisitLabels(nodes, f, base, r, labels[..|labels| - 1]),
                  VisitIn(nodes, f, base, r + [l]), s);
  }
}
