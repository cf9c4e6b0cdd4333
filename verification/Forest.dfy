/** Parent links among stored spans, and sums over the subtrees they induce.

    A span names its parent by span id. The parent may not be stored (yet), and it may be stored
    after its children, so the stored rows form a forest whose roots are the spans without a
    stored parent. */
module Forest {
  import opened Wrappers
  import opened Finite

  type Id = string

  /** The stored span ids, each with the parent id its row carries. */
  type Parents = map<Id, Option<Id>>

  /** The id reached from `id` by following `n` parent links through stored rows only. */
  function Up(p: Parents, id: Id, n: nat): Option<Id>
    decreases n
  {
    if id !in p then None
    else if n == 0 then Some(id)
    else if p[id].None? then None
    else Up(p, p[id].value, n - 1)
  }

  /** `a` is `t` itself or an ancestor of `t`, every row in between being stored. */
  ghost predicate Under(p: Parents, t: Id, a: Id)
  {
    exists n: nat :: Up(p, t, n) == Some(a)
  }

  /** No stored span is its own proper ancestor. */
  ghost predicate Acyclic(p: Parents)
  {
    forall id: Id, n: nat :: 0 < n ==> Up(p, id, n) != Some(id)
  }

  /** The stored descendants of `a`, with `a` itself. */
  ghost function Subtree(p: Parents, a: Id): set<Id>
  {
    set t | t in p && Under(p, t, a)
  }

  function Children(p: Parents, a: Id): set<Id>
  {
    set c | c in p && p[c] == Some(a)
  }

  // ---------------------------------------------------------------- walking up

  lemma {:induction false} UpCompose(p: Parents, t: Id, m: nat, n: nat)
    requires Up(p, t, m).Some?
    ensures Up(p, t, m + n) == Up(p, Up(p, t, m).value, n)
    decreases m
  {
    if m != 0 {
      UpCompose(p, p[t].value, m - 1, n);
    }
  }

  lemma {:induction false} UpIsStored(p: Parents, t: Id, n: nat)
    requires Up(p, t, n).Some?
    ensures t in p && Up(p, t, n).value in p
    decreases n
  {
    if n != 0 {
      UpIsStored(p, p[t].value, n - 1);
    }
  }

  /** Storing more rows never reroutes a chain that was already complete. */
  lemma {:induction false} UpMonotone(p: Parents, q: Parents, t: Id, n: nat)
    requires forall k :: k in p ==> k in q && q[k] == p[k]
    requires Up(p, t, n).Some?
    ensures Up(q, t, n) == Up(p, t, n)
    decreases n
  {
    if n != 0 {
      UpMonotone(p, q, p[t].value, n - 1);
    }
  }

  lemma {:induction false} OneStep(p: Parents, t: Id, n: nat)
    requires Up(p, t, n).Some?
    ensures Up(p, t, n + 1) == var a := Up(p, t, n).value;
                               if a in p && p[a].Some? && p[a].value in p then p[a] else None
  {
    UpCompose(p, t, n, 1);
    UpIsStored(p, t, n);
    var a := Up(p, t, n).value;
    if p[a].Some? {
      assert Up(p, a, 1) == Up(p, p[a].value, 0);
    }
  }

  lemma AcyclicPart(p: Parents, q: Parents)
    requires forall k :: k in p ==> k in q && q[k] == p[k]
    requires Acyclic(q)
    ensures Acyclic(p)
  {
    forall id: Id, n: nat | 0 < n
      ensures Up(p, id, n) != Some(id)
    {
      if Up(p, id, n) == Some(id) {
        UpMonotone(p, q, id, n);
      }
    }
  }

  lemma UnderTrans(p: Parents, t: Id, u: Id, a: Id)
    requires Under(p, t, u) && Under(p, u, a)
    ensures Under(p, t, a)
  {
    var m: nat :| Up(p, t, m) == Some(u);
    var n: nat :| Up(p, u, n) == Some(a);
    UpCompose(p, t, m, n);
    assert Up(p, t, m + n) == Some(a);
  }

  /** Two ancestors of the same span lie on one chain. */
  lemma UnderChain(p: Parents, t: Id, a: Id, b: Id)
    requires Under(p, t, a) && Under(p, t, b)
    ensures Under(p, a, b) || Under(p, b, a)
  {
    var m: nat :| Up(p, t, m) == Some(a);
    var n: nat :| Up(p, t, n) == Some(b);
    if m <= n {
      UpCompose(p, t, m, n - m);
      assert Up(p, a, n - m) == Some(b);
    } else {
      UpCompose(p, t, n, m - n);
      assert Up(p, b, m - n) == Some(a);
    }
  }

  lemma NotBothWays(p: Parents, a: Id, b: Id)
    requires Acyclic(p) && Under(p, a, b) && Under(p, b, a)
    ensures a == b
  {
    var m: nat :| Up(p, a, m) == Some(b);
    var n: nat :| Up(p, b, n) == Some(a);
    UpCompose(p, a, m, n);
    assert Up(p, a, m + n) == Some(a);
    assert m + n == 0;
  }

  /** The first `n` links from `t` meet no id twice. */
  ghost predicate NoLoop(p: Parents, t: Id, n: nat)
  {
    forall j: nat, k: nat :: j < k <= n && Up(p, t, j).Some? ==> Up(p, t, j) != Up(p, t, k)
  }

  lemma AcyclicNoLoop(p: Parents, t: Id, n: nat)
    requires Acyclic(p)
    ensures NoLoop(p, t, n)
  {
    forall j: nat, k: nat | j < k <= n && Up(p, t, j).Some?
      ensures Up(p, t, j) != Up(p, t, k)
    {
      UpCompose(p, t, j, k - j);
    }
  }

  /** A chain without repetition has at most as many ids as there are rows. */
  lemma ChainIsShort(p: Parents, t: Id, n: nat)
    requires NoLoop(p, t, n) && Up(p, t, n).Some?
    ensures n < |p|
  {
    var seen := ChainIds(p, t, n);
    SubsetSize(seen, p.Keys);
  }

  /** The walk up from any id ends within as many links as there are rows. */
  lemma WalkEnds(p: Parents, t: Id)
    requires Acyclic(p)
    ensures Up(p, t, |p|) == None
  {
    if Up(p, t, |p|).Some? {
      AcyclicNoLoop(p, t, |p|);
      ChainIsShort(p, t, |p|);
    }
  }

  /** `a` is met within `n` links from `t`. */
  ghost predicate MetWithin(p: Parents, t: Id, n: nat, a: Id)
  {
    exists k: nat :: k <= n && Up(p, t, k) == Some(a)
  }

  lemma {:induction false} ChainIds(p: Parents, t: Id, n: nat) returns (seen: set<Id>)
    requires NoLoop(p, t, n) && Up(p, t, n).Some?
    ensures |seen| == n + 1 && seen <= p.Keys
    ensures forall a :: a in seen ==> MetWithin(p, t, n, a)
    decreases n
  {
    UpIsStored(p, t, n);
    var last := Up(p, t, n).value;
    assert MetWithin(p, t, n, last);
    if n == 0 {
      seen := {last};
    } else {
      PrefixStored(p, t, n - 1, n);
      var before := ChainIds(p, t, n - 1);
      assert last !in before;
      seen := before + {last};
    }
  }

  lemma {:induction false} CycleNeverEnds(p: Parents, id: Id, n: nat, k: nat)
    requires 0 < n && Up(p, id, n) == Some(id)
    ensures Up(p, id, k).Some?
    decreases k
  {
    if k < n {
      PrefixStored(p, id, k, n);
    } else {
      UpCompose(p, id, n, k - n);
      CycleNeverEnds(p, id, n, k - n);
    }
  }

  ghost predicate WalkEndsFrom(p: Parents, t: Id)
  {
    exists n: nat :: Up(p, t, n) == None
  }

  /** A recursive walk that keeps every row it meets ends from every start exactly when no span is
      its own ancestor. */
  lemma WalkEndsIffAcyclic(p: Parents)
    ensures Acyclic(p) <==> forall t :: WalkEndsFrom(p, t)
  {
    if Acyclic(p) {
      forall t
        ensures WalkEndsFrom(p, t)
      {
        WalkEnds(p, t);
      }
    } else {
      var id, n: nat :| 0 < n && Up(p, id, n) == Some(id);
      forall k: nat
        ensures Up(p, id, k) != None
      {
        CycleNeverEnds(p, id, n, k);
      }
      assert !WalkEndsFrom(p, id);
    }
  }

  // ---------------------------------------------------------------- adding a row

  /** How storing the new row `s` changes ancestry among the old rows: a chain that used to stop
      at the missing parent `s` now continues through it. */
  lemma {:induction false} UnderAfterAdd(p: Parents, q: Parents, s: Id, t: Id, a: Id)
    requires s !in p && s in q && q == p[s := q[s]]
    requires t in p && a in p
    ensures Under(q, t, a) <==> Under(p, t, a) || (Under(q, t, s) && Under(q, s, a))
  {
    if Under(q, t, a) {
      var n: nat :| Up(q, t, n) == Some(a);
      NewChainSplits(p, q, s, t, a, n);
    }
    if Under(p, t, a) {
      var n: nat :| Up(p, t, n) == Some(a);
      UpMonotone(p, q, t, n);
      assert Up(q, t, n) == Some(a);
    }
    if Under(q, t, s) && Under(q, s, a) {
      UnderTrans(q, t, s, a);
    }
  }

  lemma {:induction false} NewChainSplits(p: Parents, q: Parents, s: Id, t: Id, a: Id, n: nat)
    requires s !in p && s in q && q == p[s := q[s]]
    requires t in p && a in p
    requires Up(q, t, n) == Some(a)
    ensures Under(p, t, a) || (Under(q, t, s) && Under(q, s, a))
    decreases n
  {
    if n == 0 {
      assert Up(p, t, 0) == Some(a);
    } else {
      var u := q[t].value;
      assert Up(q, t, 1) == Up(q, u, 0);
      assert Up(q, u, n - 1) == Some(a);
      if u == s {
        assert Up(q, t, 1) == Some(s);
      } else {
        UpIsStored(q, u, n - 1);
        NewChainSplits(p, q, s, u, a, n - 1);
        StepUnder(p, t, u, a);
        assert Under(q, t, u) by { assert Up(q, t, 1) == Some(u); }
        if Under(q, u, s) {
          UnderTrans(q, t, u, s);
        }
      }
    }
  }

  lemma StepUnder(p: Parents, t: Id, u: Id, a: Id)
    requires t in p && p[t] == Some(u)
    ensures Under(p, u, a) ==> Under(p, t, a)
  {
    if Under(p, u, a) {
      var n: nat :| Up(p, u, n) == Some(a);
      assert Up(p, t, n + 1) == Some(a);
    }
  }

  /** The old part and the new part of a grown subtree share no row. */
  lemma OldAndNewDisjoint(p: Parents, q: Parents, s: Id, t: Id, a: Id)
    requires s !in p && s in q && q == p[s := q[s]]
    requires Acyclic(q)
    requires a in p && Under(q, s, a)
    ensures !(Under(p, t, a) && Under(q, t, s))
  {
    if Under(p, t, a) && Under(q, t, s) {
      var n: nat :| Up(p, t, n) == Some(a);
      var m: nat :| Up(q, t, m) == Some(s);
      UpMonotone(p, q, t, n);
      if m <= n {
        PrefixStored(p, t, m, n);
        UpMonotone(p, q, t, m);
        UpIsStored(p, t, m);
      } else {
        UpCompose(q, t, n, m - n);
        assert Under(q, a, s);
        NotBothWays(q, a, s);
      }
    }
  }

  lemma {:induction false} PrefixStored(p: Parents, t: Id, m: nat, n: nat)
    requires m <= n && Up(p, t, n).Some?
    ensures Up(p, t, m).Some?
    decreases n
  {
    if m != 0 {
      PrefixStored(p, p[t].value, m - 1, n - 1);
    }
  }

  /** The subtree of the new row: the row itself and its children's old subtrees. */
  lemma {:induction false} SubtreeOfNewRow(p: Parents, q: Parents, s: Id, t: Id)
    requires s !in p && s in q && q == p[s := q[s]]
    requires Acyclic(q)
    ensures t in Subtree(q, s) <==>
              t == s || (t in p && exists c :: c in Children(p, s) && Under(p, t, c))
  {
    assert Up(q, s, 0) == Some(s);
    if t in p && Under(q, t, s) {
      var n: nat :| Up(q, t, n) == Some(s);
      LastChild(p, q, s, t, n);
    }
    if t in p && exists c :: c in Children(p, s) && Under(p, t, c) {
      var c :| c in Children(p, s) && Under(p, t, c);
      var n: nat :| Up(p, t, n) == Some(c);
      UpMonotone(p, q, t, n);
      assert Up(q, c, 1) == Up(q, s, 0);
      UpCompose(q, t, n, 1);
      assert Up(q, t, n + 1) == Some(s);
    }
  }

  lemma {:induction false} LastChild(p: Parents, q: Parents, s: Id, t: Id, n: nat)
    requires s !in p && s in q && q == p[s := q[s]]
    requires t in p && Up(q, t, n) == Some(s)
    ensures exists c :: c in Children(p, s) && Under(p, t, c)
    decreases n
  {
    var u := q[t].value;
    assert Up(q, u, n - 1) == Some(s);
    assert Up(p, t, 0) == Some(t);
    if u == s {
      assert t in Children(p, s) && Under(p, t, t);
    } else {
      UpIsStored(q, u, n - 1);
      LastChild(p, q, s, u, n - 1);
      var c :| c in Children(p, s) && Under(p, u, c);
      StepUnder(p, t, u, c);
    }
  }

  /** Different children of a missing parent head disjoint subtrees. */
  lemma ChildrenDisjoint(p: Parents, s: Id, t: Id, c: Id, d: Id)
    requires s !in p && c in Children(p, s) && d in Children(p, s)
    requires Under(p, t, c) && Under(p, t, d)
    ensures c == d
  {
    UnderChain(p, t, c, d);
    if Under(p, c, d) {
      TopOfForest(p, s, c, d);
    } else {
      TopOfForest(p, s, d, c);
    }
  }

  lemma TopOfForest(p: Parents, s: Id, c: Id, d: Id)
    requires s !in p && c in Children(p, s) && Under(p, c, d)
    ensures c == d
  {
    // From `c`, one link up already leaves the store.
    assert forall n: nat :: Up(p, c, n + 1) == Up(p, s, n);
    var n: nat :| Up(p, c, n) == Some(d);
    assert n == 0 || Up(p, c, n) == None;
  }

  // ---------------------------------------------------------------- sums over rows

  /** The three counters a span row carries. */
  datatype Counts = Counts(errors: int, prompt: int, completion: int) {
    function Plus(o: Counts): Counts {
      Counts(errors + o.errors, prompt + o.prompt, completion + o.completion)
    }
    function Minus(o: Counts): Counts {
      Counts(errors - o.errors, prompt - o.prompt, completion - o.completion)
    }
  }

  const ZERO := Counts(0, 0, 0)

  lemma PlusSwap(a: Counts, b: Counts, c: Counts)
    ensures a.Plus(b.Plus(c)) == b.Plus(a.Plus(c))
    ensures a.Plus(b.Plus(c)) == a.Plus(b).Plus(c)
  {
    assert a.Plus(b.Plus(c)).errors == b.Plus(a.Plus(c)).errors;
  }

  ghost function SumOf(f: map<Id, Counts>, s: set<Id>): Counts
    requires s <= f.Keys
  {
    if s == {} then ZERO
    else
      var x :| x in s;
      f[x].Plus(SumOf(f, s - {x}))
  }

  lemma {:induction false} SumRemove(f: map<Id, Counts>, s: set<Id>, x: Id)
    requires x in s && s <= f.Keys
    ensures SumOf(f, s) == f[x].Plus(SumOf(f, s - {x}))
    decreases s
  {
    var y :| y in s && SumOf(f, s) == f[y].Plus(SumOf(f, s - {y}));
    if y == x {
      assert s - {y} == s - {x};
    } else {
      SumRemove(f, s - {y}, x);
      SumRemove(f, s - {x}, y);
      assert s - {y} - {x} == s - {x} - {y};
      var rest := SumOf(f, s - {x} - {y});
      assert SumOf(f, s - {y}) == f[x].Plus(rest);
      assert SumOf(f, s - {x}) == f[y].Plus(rest);
      PlusSwap(f[x], f[y], rest);
    }
  }

  lemma {:induction false} SumUnion(f: map<Id, Counts>, s: set<Id>, t: set<Id>)
    requires s !! t && s + t <= f.Keys
    ensures SumOf(f, s + t) == SumOf(f, s).Plus(SumOf(f, t))
    decreases s
  {
    if s == {} {
      assert s + t == t;
    } else {
      var x :| x in s;
      WithoutOne(s, t, x);
      SumRemove(f, s, x);
      SumRemove(f, s + t, x);
      SumUnion(f, s - {x}, t);
      PlusAssociative(f[x], SumOf(f, s - {x}), SumOf(f, t));
    }
  }

  lemma WithoutOne(s: set<Id>, t: set<Id>, x: Id)
    requires s !! t && x in s
    ensures (s + t) - {x} == (s - {x}) + t && (s - {x}) !! t
  {
  }

  lemma PlusAssociative(a: Counts, b: Counts, c: Counts)
    ensures a.Plus(b.Plus(c)) == a.Plus(b).Plus(c)
  {
  }

  lemma {:induction false} SumSame(f: map<Id, Counts>, g: map<Id, Counts>, s: set<Id>)
    requires s <= f.Keys && s <= g.Keys
    requires forall x :: x in s ==> f[x] == g[x]
    ensures SumOf(f, s) == SumOf(g, s)
    decreases s
  {
    if s != {} {
      var x :| x in s;
      SumRemove(f, s, x);
      SumRemove(g, s, x);
      SumSame(f, g, s - {x});
    }
  }
}
