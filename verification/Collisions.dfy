/** Keys with empty segments that are walked under one name: which of them leave the result open, and
    which do not because one always comes last. */
module Collisions {
  import opened Finite
  import opened Keys
  import opened Orders
  import opened Outcomes
  import opened Precedence
  import opened Tries
  import opened Unflatten
  import opened Walks
  import opened Wrappers

  // ---------------------------------------------------------------- two results

  /** With an empty segment one key can be walked twice: `a..b` and `a.b` both yield `b` under `a`,
      and which value survives is up to the iteration order. */
  lemma {:induction false} EmptySegmentsCollide(written: map<Path, Value>, x: Value, y: Value)
    requires written == map[ParseKey("a..b") := x, ParseKey("a.b") := y] && x != y
    ensures [] in TrieOf(written) && !OneOutcome(TrieOf(written), [])
  {
    CollidingPaths([Name("a")]);
    GapCollides(written, Name("a"), Name("b"), x, y);
  }

  lemma {:induction false} GapCollides(written: map<Path, Value>, a: Label, b: Label, x: Value, y: Value)
    requires a.Name? && b.Name? && GoodLabel(a) && GoodLabel(b) && x != y
    requires written == map[[a] + [NO_NAME] + [b] := x, [a] + [b] := y]
    ensures [] in TrieOf(written) && !OneOutcome(TrieOf(written), [])
  {
    var o := SomeOrder(TrieOf(written));
    CleanTrie(written);
    SomeOrderIsOrder(TrieOf(written));
    BothAreTop(written, o, a, b, x, y);
    TopIsDictionary(written, o, a);
    OneOutcomeExactly(TrieOf(written), o, []);
  }

  /** A node reached through names only is never overtaken by one that prints alike. */
  lemma {:induction false} NamesAreTop(nodes: Nodes, base: Path, s: Path)
    requires IsEmitted(nodes, base, s) && Core(s) != [] && forall n :: 0 <= n < |s| ==> s[n].Name?
    ensures IsTop(nodes, base, s)
  {
    forall t | IsEmitted(nodes, base, t) && Core(t) == Core(s)
      ensures !Overtakes(nodes, base, s, t)
    {
      forall n: nat
        ensures !PartAt(nodes, base, s, t, n)
      {
      }
      if s <= t && s != t {
        CoreLonger(s, t);
      }
    }
  }

  /** A value written to a name below a node that prints as nothing. */
  lemma {:induction false} LeafEmitted(written: map<Path, Value>, base: Path, r: Path, l: Label)
    requires Walked(TrieOf(written), base, r) && ShowPath(r) == "" && base + r !in written
    requires l.Name? && base + r + [l] in written
    ensures base + (r + [l]) == base + r + [l] && IsEmitted(TrieOf(written), base, r + [l])
  {
    InTrie(written, base + r + [l]);
    TrieNode(written, base + r, l);
    TrieNode(written, base + r + [l], l);
    WalkedChild(TrieOf(written), base, r, l);
  }

  lemma {:induction false} BothAreTop(written: map<Path, Value>, o: Order, a: Label, b: Label, x: Value, y: Value)
    requires a.Name? && b.Name? && GoodLabel(b) && x != y && IsOrder(TrieOf(written), o)
    requires written == map[[a] + [NO_NAME] + [b] := x, [a] + [b] := y]
    ensures [a] in TrieOf(written) && [a] !in written && !TopsAgree(TrieOf(written), o, [a])
    ensures TrieOf(written)[[a]].indices == {} && [] !in written
  {
    GapNodes(written, a, b, x, y);
    BothEmitted(written, a, b, x, y);
    NamesAreTop(TrieOf(written), [a], [b]);
    NamesAreTop(TrieOf(written), [a], [NO_NAME] + [b]);
    TrieNode(written, [a] + [b], b);
    TrieNode(written, [a] + [NO_NAME] + [b], b);
    OnlyNamesBelow(written, [a]);
  }

  lemma {:induction false} BothEmitted(written: map<Path, Value>, a: Label, b: Label, x: Value, y: Value)
    requires a.Name? && b.Name? && GoodLabel(b)
    requires written == map[[a] + [NO_NAME] + [b] := x, [a] + [b] := y]
    ensures IsEmitted(TrieOf(written), [a], [b]) && IsEmitted(TrieOf(written), [a], [NO_NAME] + [b])
    ensures [a] + ([NO_NAME] + [b]) == [a] + [NO_NAME] + [b]
    ensures Core([b]) == [b] && Core([NO_NAME] + [b]) == [b]
  {
    var none: Path := [];
    GapNodes(written, a, b, x, y);
    assert [a] + none == [a] && none + [NO_NAME] == [NO_NAME] && none + [b] == [b];
    GapWalked(written, [a]);
    LeafEmitted(written, [a], none, b);
    LeafEmitted(written, [a], [NO_NAME], b);
    CoresOfGap(b);
  }

  /** The nodes on the way to the two paths. */
  lemma {:induction false} GapNodes(written: map<Path, Value>, a: Label, b: Label, x: Value, y: Value)
    requires b.Name? && written == map[[a] + [NO_NAME] + [b] := x, [a] + [b] := y]
    ensures [a] in TrieOf(written) && [a] + [NO_NAME] in TrieOf(written)
    ensures [] !in written && [a] !in written
    ensures b != NO_NAME ==> [a] + [NO_NAME] !in written
    ensures forall q: Path :: q in written ==> |q| > 1 && q[1].Name?
  {
    var p, q: Path := [a] + [NO_NAME] + [b], [a] + [b];
    assert [a] <= p && [a] + [NO_NAME] <= p && p in written;
    assert |p| == 3 && |q| == 2 && p[1] == NO_NAME && q[1] == b;
    InTrie(written, [a]);
    InTrie(written, [a] + [NO_NAME]);
    assert ([a] + [NO_NAME])[1] == NO_NAME;
  }

  lemma {:induction false} CoresOfGap(b: Label)
    requires GoodLabel(b)
    ensures Core([b]) == [b] && Core([NO_NAME] + [b]) == [b]
  {
    assert ([NO_NAME] + [b])[1..] == [b];
  }

  /** The walk passes through an empty segment without a value. */
  lemma {:induction false} GapWalked(written: map<Path, Value>, base: Path)
    requires base in TrieOf(written) && base !in written
    requires base + [NO_NAME] in TrieOf(written) && base + [NO_NAME] !in written
    ensures base + [] == base && Walked(TrieOf(written), base, [])
    ensures Walked(TrieOf(written), base, [NO_NAME]) && ShowPath([NO_NAME]) == ""
  {
    var none: Path := [];
    assert base + none == base && none + [NO_NAME] == [NO_NAME];
    TrieNode(written, base, NO_NAME);
    WalkedChild(TrieOf(written), base, none, NO_NAME);
  }

  /** A dictionary directly under the root is part of the result. */
  lemma {:induction false} TopIsDictionary(written: map<Path, Value>, o: Order, l: Label)
    requires GoodLabel(l) && [l] in TrieOf(written) && [l] !in written && TrieOf(written)[[l]].indices == {}
    requires [] in TrieOf(written) && [] !in written && l.Name?
    requires IsOrder(TrieOf(written), o) && !TopsAgree(TrieOf(written), o, [l])
    ensures !Determined(TrieOf(written), o, [])
  {
    var root: Path := [];
    assert root + [l] == [l];
    TrieNode(written, [l], l);
    TopIsEmitted(written, l);
    NamesAreTop(TrieOf(written), root, [l]);
    if Determined(TrieOf(written), o, root) {
      assert DeterminedAt(TrieOf(written), o, root + [l]);
    }
  }

  lemma {:induction false} TopIsEmitted(written: map<Path, Value>, l: Label)
    requires GoodLabel(l) && l.Name? && [l] in TrieOf(written) && [] in TrieOf(written) && [] !in written
    ensures IsEmitted(TrieOf(written), [], [l]) && Core([l]) == [l]
  {
    var root: Path := [];
    assert root + [l] == [l] && root + root == root;
    TrieNode(written, root, l);
    LabelReads(l);
    WalkedChild(TrieOf(written), root, root, l);
  }

  lemma OnlyNamesBelow(written: map<Path, Value>, top: Path)
    requires top in TrieOf(written) && forall q: Path :: q in written ==> |q| > |top| && q[|top|].Name?
    ensures TrieOf(written)[top].indices == {}
  {
    forall i: nat
      ensures i !in TrieOf(written)[top].indices
    {
      TrieNode(written, top, Idx(i));
      InTrie(written, top + [Idx(i)]);
    }
  }

  // ---------------------------------------------------------------- one result

  lemma {:induction false} OneOutcomeIfOrdered(written: map<Path, Value>)
    requires CleanNodes(TrieOf(written)) && TrieLike(TrieOf(written)) && [] in TrieOf(written)
    requires AllOrdered(TrieOf(written))
    ensures OneOutcome(TrieOf(written), [])
  {
    var o := SomeOrder(TrieOf(written));
    SomeOrderIsOrder(TrieOf(written));
    DeterminedIfOrdered(TrieOf(written), o, []);
    OneOutcomeExactly(TrieOf(written), o, []);
  }

  /** Keys that extend one another, empty segments or not, leave no choice. */
  lemma {:induction false} ChainIsDetermined(written: map<Path, Value>, q: Path)
    requires forall k :: k in written ==> k <= q && CleanPath(k)
    ensures [] in TrieOf(written) && OneOutcome(TrieOf(written), [])
  {
    CleanTrie(written);
    forall p | p in TrieOf(written)
      ensures Ordered(TrieOf(written), p)
    {
      ChainOrdered(written, p, q);
    }
    OneOutcomeIfOrdered(written);
  }

  /** A list and an empty segment before the same number: the branch always comes after the index. */
  lemma {:induction false} IndexBeforeBranch(written: map<Path, Value>, i: nat, u: Path, x: Value, y: Value)
    requires u != [] && CleanPath(u) && written == map[[Idx(i)] + u := x, [NO_NAME, Idx(i)] + u := y]
    ensures [] in TrieOf(written) && OneOutcome(TrieOf(written), [])
  {
    CleanTrie(written);
    forall p | p in TrieOf(written)
      ensures Ordered(TrieOf(written), p)
    {
      TwoWaysOrdered(written, p, i, u);
    }
    OneOutcomeIfOrdered(written);
  }

  lemma {:induction false} TwoWaysOrdered(written: map<Path, Value>, base: Path, i: nat, u: Path)
    requires u != [] && written.Keys == {[Idx(i)] + u, [NO_NAME, Idx(i)] + u} && base in TrieOf(written)
    ensures Ordered(TrieOf(written), base)
  {
    var p, q := [Idx(i)] + u, [NO_NAME, Idx(i)] + u;
    if base == [] {
      forall s, t | IsEmitted(TrieOf(written), base, s) && IsEmitted(TrieOf(written), base, t) && s != t
        ensures Overtakes(TrieOf(written), base, s, t) || Overtakes(TrieOf(written), base, t, s)
      {
        EitherWay(written, i, u, s);
        EitherWay(written, i, u, t);
        IndexAtRoot(written, i, u);
        TwoWaysPart(TrieOf(written), i, s, t, p, q);
      }
    } else {
      assert [] + base == base;
      EitherWay(written, i, u, base);
      var way := if base <= p then p else q;
      forall k | k in written && base <= k
        ensures k <= way
      {
        assert k[0] == base[0] == way[0] && p[0] != q[0];
      }
      ChainOrdered(written, base, way);
    }
  }

  lemma {:induction false} EitherWay(written: map<Path, Value>, i: nat, u: Path, s: Path)
    requires written.Keys == {[Idx(i)] + u, [NO_NAME, Idx(i)] + u} && [] + s in TrieOf(written)
    ensures s <= [Idx(i)] + u || s <= [NO_NAME, Idx(i)] + u
  {
    assert [] + s == s;
    InTrie(written, s);
  }

  lemma {:induction false} IndexAtRoot(written: map<Path, Value>, i: nat, u: Path)
    requires u != [] && written.Keys == {[Idx(i)] + u, [NO_NAME, Idx(i)] + u}
    ensures ByIndex(TrieOf(written), [], Idx(i))
  {
    var root: Path := [];
    assert [Idx(i)] <= [Idx(i)] + u && root + [Idx(i)] == [Idx(i)];
    InTrie(written, root);
    InTrie(written, [Idx(i)]);
    assert |[Idx(i)] + u| > 1 && |[NO_NAME, Idx(i)] + u| > 1;
    TrieNode(written, root, Idx(i));
  }

  lemma {:induction false} TwoWaysPart(nodes: Nodes, i: nat, s: Path, t: Path, p: Path, q: Path)
    requires p != [] && q != [] && p[0] == Idx(i) && q[0] == NO_NAME && ByIndex(nodes, [], Idx(i))
    requires (s <= p || s <= q) && (t <= p || t <= q) && s != t
    ensures Overtakes(nodes, [], s, t) || Overtakes(nodes, [], t, s)
  {
    if s != [] && t != [] && s[0] == Idx(i) && t[0] == NO_NAME {
      assert [] + s[..0] == [];
      assert PartAt(nodes, [], s, t, 0);
    } else if s != [] && t != [] && s[0] == NO_NAME && t[0] == Idx(i) {
      assert [] + t[..0] == [];
      assert PartAt(nodes, [], t, s, 0);
    } else {
      PrefixesCompare(s, t, p);
      PrefixesCompare(s, t, q);
    }
  }

  lemma {:induction false} PrefixesCompare(s: Path, t: Path, q: Path)
    ensures s <= q && t <= q ==> s <= t || t <= s
  {
  }

  /** In every order the number keeps what the trie has below the empty segment. */
  lemma {:induction false} LaterBranchWins(written: map<Path, Value>, i: nat, u: Path, o: Order)
    requires u != [] && CleanPath(u) && written.Keys == {[Idx(i)] + u, [NO_NAME, Idx(i)] + u}
    requires IsOrder(TrieOf(written), o)
    ensures [] in TrieOf(written) && [NO_NAME, Idx(i)] in TrieOf(written)
    ensures Show(i) in DictIn(TrieOf(written), o, [])
    ensures DictIn(TrieOf(written), o, [])[Show(i)] == EmitIn(TrieOf(written), o, [NO_NAME, Idx(i)])
  {
    var none: Path := [];
    CleanTrie(written);
    BothWalked(written, i, u);
    KeysAre(TrieOf(written), o, [], Show(i));
    var s := KeptIsTop(TrieOf(written), o, [], Show(i));
    TopIsHigh(written, i, u, s);
    assert none + [NO_NAME, Idx(i)] == [NO_NAME, Idx(i)];
  }

  lemma {:induction false} TopIsHigh(written: map<Path, Value>, i: nat, u: Path, s: Path)
    requires u != [] && CleanPath(u) && written.Keys == {[Idx(i)] + u, [NO_NAME, Idx(i)] + u}
    requires CleanNodes(TrieOf(written)) && IsTop(TrieOf(written), [], s) && ShowPath(s) == Show(i)
    ensures s == [NO_NAME, Idx(i)]
  {
    var high := [NO_NAME, Idx(i)];
    BothWalked(written, i, u);
    IndexAtRoot(written, i, u);
    CoresOfGap(Idx(i));
    AlikeCores(TrieOf(written), [], s, high);
    EitherWay(written, i, u, s);
    CoreIsNumber(i, u, s);
    IndexOvertaken(TrieOf(written), i);
  }

  lemma {:induction false} IndexOvertaken(nodes: Nodes, i: nat)
    requires ByIndex(nodes, [], Idx(i))
    ensures Overtakes(nodes, [], [Idx(i)], [NO_NAME, Idx(i)])
  {
    assert [] + [Idx(i)][..0] == [];
    assert PartAt(nodes, [], [Idx(i)], [NO_NAME, Idx(i)], 0);
  }

  lemma {:induction false} CoreIsNumber(i: nat, u: Path, s: Path)
    requires (s <= [Idx(i)] + u || s <= [NO_NAME, Idx(i)] + u) && Core(s) == [Idx(i)]
    ensures s == [Idx(i)] || s == [NO_NAME, Idx(i)]
  {
    if s[0] == NO_NAME {
      assert Core(s[1..]) == s[1..] == [Idx(i)];
      assert s == [NO_NAME] + s[1..];
    }
  }

  /** The number is walked both directly and below the empty segment. */
  lemma {:induction false} BothWalked(written: map<Path, Value>, i: nat, u: Path)
    requires u != [] && CleanPath(u) && written.Keys == {[Idx(i)] + u, [NO_NAME, Idx(i)] + u}
    ensures IsEmitted(TrieOf(written), [], [Idx(i)]) && IsEmitted(TrieOf(written), [], [NO_NAME, Idx(i)])
    ensures ShowPath([Idx(i)]) == ShowPath([NO_NAME, Idx(i)]) == Show(i)
  {
    var nodes, gap := TrieOf(written), [NO_NAME];
    var none: Path := [];
    NoneWritten(written, i, u);
    assert none + [Idx(i)] == [Idx(i)] && none + gap == gap && gap + [Idx(i)] == [NO_NAME, Idx(i)];
    GapWalked(written, none);
    TrieNode(written, none, Idx(i));
    TrieNode(written, gap, Idx(i));
    WalkedChild(nodes, none, none, Idx(i));
    WalkedChild(nodes, none, gap, Idx(i));
    LabelReads(Idx(i));
  }

  /** The nodes on the way to the two paths. */
  lemma {:induction false} NoneWritten(written: map<Path, Value>, i: nat, u: Path)
    requires u != [] && written.Keys == {[Idx(i)] + u, [NO_NAME, Idx(i)] + u}
    ensures forall p :: p in {[], [Idx(i)], [NO_NAME], [NO_NAME, Idx(i)]} ==> p in TrieOf(written) && p !in written
  {
    forall p: Path | p in {[], [Idx(i)], [NO_NAME], [NO_NAME, Idx(i)]}
      ensures p in TrieOf(written) && p !in written
    {
      InTrie(written, p);
      assert [Idx(i)] <= [Idx(i)] + u && [NO_NAME] <= [NO_NAME, Idx(i)] <= [NO_NAME, Idx(i)] + u;
      assert ([Idx(i)] + u)[0] == Idx(i) && ([NO_NAME, Idx(i)] + u)[0] == NO_NAME;
      assert |[Idx(i)] + u| > 1 && |[NO_NAME, Idx(i)] + u| > 2;
    }
  }

  /** So it is for the keys `0.b` and `.0.b`, and for a chain such as the empty key and `..`. */
  lemma {:induction false} DeterminedKeys(written: map<Path, Value>, x: Value, y: Value)
    requires || written == map[ParseKey("0.b") := x, ParseKey(".0.b") := y]
             || written == map[ParseKey("") := x, ParseKey("..") := y]
    ensures [] in TrieOf(written) && OneOutcome(TrieOf(written), [])
  {
    if written == map[ParseKey("0.b") := x, ParseKey(".0.b") := y] {
      IndexPaths();
      IndexBeforeBranch(written, 0, [Name("b")], x, y);
    } else {
      ChainIsDetermined(written, ParseKey(".."));
    }
  }

  // ---------------------------------------------------------------- reading the keys

  lemma CollidingPaths(top: Path)
    requires top == [Name("a")]
    ensures ParseKey("a..b") == top + [NO_NAME] + [Name("b")] && ParseKey("a.b") == top + [Name("b")]
  {
    ParseThree("a", "", "b");
    ParseTwo("a", "b");
    GapLiterals();
    NamesRead();
  }

  lemma IndexPaths()
    ensures ParseKey("0.b") == [Idx(0)] + [Name("b")] && ParseKey(".0.b") == [NO_NAME, Idx(0)] + [Name("b")]
  {
    ParseTwo("0", "b");
    ParseThree("", "0", "b");
    IndexLiterals();
    NamesRead();
    ZeroReads();
  }

  lemma GapLiterals()
    ensures "a" + "." + ("" + "." + "b") == "a..b" && "a" + "." + "b" == "a.b"
  {
  }

  lemma IndexLiterals()
    ensures "0" + "." + "b" == "0.b" && "" + "." + ("0" + "." + "b") == ".0.b"
  {
  }

  lemma NamesRead()
    ensures LabelOf("a") == Name("a") && LabelOf("") == NO_NAME && LabelOf("b") == Name("b")
  {
  }

  lemma ZeroReads()
    ensures LabelOf("0") == Idx(0)
  {
    LabelReads(Idx(0));
    assert Show(0) == "0";
  }

  lemma ParseThree(first: string, middle: string, last: string)
    requires '.' !in first && '.' !in middle && '.' !in last && last != ""
    ensures ParseKey(first + "." + (middle + "." + last)) == [LabelOf(first), LabelOf(middle)] + [LabelOf(last)]
  {
    ParseFirst(first, middle + "." + last);
    ParseTwo(middle, last);
  }

  lemma ParseTwo(first: string, last: string)
    requires '.' !in first && '.' !in last && last != ""
    ensures ParseKey(first + "." + last) == [LabelOf(first)] + [LabelOf(last)]
  {
    ParseFirst(first, last);
    ParseLone(last);
  }
}
