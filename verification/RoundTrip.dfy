/** Unflattening what flattening yields: nested attributes survive the trip through dotted keys.

    Some dictionaries may travel whole instead of being flattened; a cut says at which paths. */
module RoundTrip {
  import opened Wrappers
  import opened Keys
  import opened Tries
  import opened Walks
  import opened Flattening

  type Cut = Path -> bool

  /** Only dictionary entries are ever cut off. */
  ghost predicate CutsEntries(cut: Cut)
  {
    forall p: Path :: cut(p) ==> p != [] && p[|p| - 1].Name?
  }

  const NO_CUT: Cut := (p: Path) => false

  predicate GoodKey(k: string)
  {
    GoodLabel(Name(k))
  }

  /** A value that travels whole at this path. */
  predicate Whole(cut: Cut, v: Value, p: Path)
  {
    Leaf(v) || (v.Dict? && cut(p))
  }

  /** Nested values that dotted keys can carry: good keys, no absent value, no empty dictionary, and
      lists that hold either no dictionary at all or nothing but dictionaries. Within a dictionary
      that travels whole anything goes. */
  ghost predicate WellFormed(cut: Cut, v: Value, p: Path)
    decreases v, 1
  {
    match v
    case Null => false
    case Atom(_) => true
    case Dict(entries) => entries != map[] && (cut(p) || WellFormedEntries(cut, entries, p))
    case List(items) =>
      !HasMapping(items) || forall i :: 0 <= i < |items| ==> items[i].Dict? && WellFormed(cut, items[i], p + [Idx(i)])
  }

  ghost predicate WellFormedEntries(cut: Cut, m: map<string, Value>, p: Path)
    decreases Dict(m), 0
  {
    forall k :: k in m ==> GoodKey(k) && WellFormed(cut, m[k], p + [Name(k)])
  }

  /** The attributes of a span; these may be empty as a whole. */
  ghost predicate WellFormedAttributes(m: map<string, Value>)
  {
    WellFormedEntries(NO_CUT, m, [])
  }

  /** The child of a nested value under a label. */
  ghost predicate HasLabel(v: Value, l: Label)
  {
    match (v, l)
    case (Dict(entries), Name(k)) => k in entries
    case (List(items), Idx(i)) => i < |items| && items[i].Dict?
    case _ => false
  }

  ghost function ChildOf(v: Value, l: Label): (c: Value)
    requires HasLabel(v, l)
    ensures c < v
  {
    match v
    case Dict(entries) => entries[l.s]
    case List(items) => items[l.i]
  }

  ghost predicate HasChild(cut: Cut, v: Value, p: Path, l: Label)
  {
    !Whole(cut, v, p) && HasLabel(v, l)
  }

  /** Where flattening puts which leaf of `v`, as paths. */
  ghost predicate LeafAt(cut: Cut, v: Value, p: Path, q: Path, x: Value)
    decreases v
  {
    if Whole(cut, v, p) then q == p && x == v
    else exists l :: HasLabel(v, l) && LeafAt(cut, ChildOf(v, l), p + [l], q, x)
  }

  /** The leaf lies below the child of `v` that the next label of its path names. */
  ghost predicate LeafVia(cut: Cut, v: Value, p: Path, l: Label, q: Path, x: Value)
  {
    HasChild(cut, v, p, l) && LeafAt(cut, ChildOf(v, l), p + [l], q, x)
  }

  lemma LeafCases(cut: Cut, v: Value, p: Path, q: Path, x: Value)
    ensures LeafAt(cut, v, p, q, x) <==>
            (Whole(cut, v, p) && q == p && x == v) || exists l :: LeafVia(cut, v, p, l, q, x)
  {
    if !Whole(cut, v, p) && LeafAt(cut, v, p, q, x) {
      var l :| HasLabel(v, l) && LeafAt(cut, ChildOf(v, l), p + [l], q, x);
      assert LeafVia(cut, v, p, l, q, x);
    }
  }

  lemma {:induction false} LeafBelow(cut: Cut, v: Value, p: Path, q: Path, x: Value)
    requires LeafAt(cut, v, p, q, x)
    ensures p <= q && Whole(cut, x, q)
    decreases v
  {
    LeafCases(cut, v, p, q, x);
    if l :| LeafVia(cut, v, p, l, q, x) {
      LeafBelow(cut, ChildOf(v, l), p + [l], q, x);
      assert p <= p + [l] <= q;
    }
  }

  /** Leaves keep to the child their path goes through. */
  lemma LeafThrough(cut: Cut, v: Value, p: Path, l: Label, q: Path, x: Value)
    requires p + [l] <= q
    ensures LeafAt(cut, v, p, q, x) <==> LeafVia(cut, v, p, l, q, x)
  {
    LeafCases(cut, v, p, q, x);
    if k :| LeafVia(cut, v, p, k, q, x) {
      LeafBelow(cut, ChildOf(v, k), p + [k], q, x);
      assert q[|p|] == l && q[|p|] == k;
    }
  }

  lemma {:induction false} LeafUnique(cut: Cut, v: Value, p: Path, q: Path, x: Value, y: Value)
    requires LeafAt(cut, v, p, q, x) && LeafAt(cut, v, p, q, y)
    ensures x == y
    decreases v
  {
    LeafCases(cut, v, p, q, x);
    LeafCases(cut, v, p, q, y);
    if l :| LeafVia(cut, v, p, l, q, x) {
      LeafBelow(cut, ChildOf(v, l), p + [l], q, x);
      LeafThrough(cut, v, p, l, q, y);
      LeafUnique(cut, ChildOf(v, l), p + [l], q, x, y);
    }
  }

  /** A well-formed value has a leaf. */
  lemma {:induction false} SomeLeaf(cut: Cut, v: Value, p: Path) returns (q: Path, x: Value)
    requires WellFormed(cut, v, p)
    ensures LeafAt(cut, v, p, q, x)
    decreases v
  {
    if Whole(cut, v, p) {
      q, x := p, v;
    } else {
      var l := if v.Dict? then (var k :| k in v.entries; Name(k)) else Idx(0);
      ChildWellFormed(cut, v, p, l);
      q, x := SomeLeaf(cut, ChildOf(v, l), p + [l]);
      assert LeafVia(cut, v, p, l, q, x);
    }
    LeafCases(cut, v, p, q, x);
  }

  // ---------------------------------------------------------------- flattened pairs are leaves

  /** Every label on the way down is good, so every key reads back. */
  lemma ChildWellFormed(cut: Cut, v: Value, p: Path, l: Label)
    requires WellFormed(cut, v, p) && HasChild(cut, v, p, l)
    ensures WellFormed(cut, ChildOf(v, l), p + [l]) && GoodLabel(l)
  {
    if v.Dict? {
      assert l == Name(l.s);
    } else {
      assert l == Idx(l.i);
    }
  }

  lemma {:induction false} LeafGood(cut: Cut, v: Value, p: Path, q: Path, x: Value)
    requires WellFormed(cut, v, p) && GoodPath(p) && LeafAt(cut, v, p, q, x)
    ensures GoodPath(q) && (x.Dict? ==> x.entries != map[])
    decreases v
  {
    LeafCases(cut, v, p, q, x);
    if l :| LeafVia(cut, v, p, l, q, x) {
      ChildWellFormed(cut, v, p, l);
      LeafGood(cut, ChildOf(v, l), p + [l], q, x);
    }
  }

  lemma FlattenCases(v: Value, key: string, f: (string, Value))
    ensures f in Flatten(key, v) <==>
            || (Leaf(v) && f == (key, v))
            || exists l :: HasLabel(v, l) && f in Flatten(Join(key, ShowLabel(l)), ChildOf(v, l))
  {
    match v
    case Null =>
    case Atom(_) =>
    case Dict(entries) =>
      if k :| k in entries && f in Flatten(Join(key, k), entries[k]) {
        assert HasLabel(v, Name(k)) && ChildOf(v, Name(k)) == entries[k];
      }
    case List(items) =>
      if i: nat :| i < |items| && items[i].Dict? && f in Flatten(Join(key, Show(i)), items[i]) {
        assert HasLabel(v, Idx(i)) && ChildOf(v, Idx(i)) == items[i];
      }
  }

  lemma {:induction false} FlattenedIsLeaf(v: Value, p: Path, f: (string, Value)) returns (q: Path)
    requires f in Flatten(ShowPath(p), v)
    ensures LeafAt(NO_CUT, v, p, q, f.1) && f.0 == ShowPath(q)
    decreases v
  {
    FlattenCases(v, ShowPath(p), f);
    if l :| HasLabel(v, l) && f in Flatten(Join(ShowPath(p), ShowLabel(l)), ChildOf(v, l)) {
      ShowPathLast(p, l);
      q := FlattenedIsLeaf(ChildOf(v, l), p + [l], f);
      assert LeafVia(NO_CUT, v, p, l, q, f.1);
    } else {
      q := p;
    }
    LeafCases(NO_CUT, v, p, q, f.1);
  }

  lemma {:induction false} LeafIsFlattened(v: Value, p: Path, q: Path, x: Value)
    requires LeafAt(NO_CUT, v, p, q, x)
    ensures (ShowPath(q), x) in Flatten(ShowPath(p), v)
    decreases v
  {
    LeafCases(NO_CUT, v, p, q, x);
    FlattenCases(v, ShowPath(p), (ShowPath(q), x));
    if l :| LeafVia(NO_CUT, v, p, l, q, x) {
      ShowPathLast(p, l);
      LeafIsFlattened(ChildOf(v, l), p + [l], q, x);
    }
  }

  /** What flattening yields are the leaves, each under the key that shows its path. */
  lemma FlattenIsLeaves(v: Value, p: Path, f: (string, Value))
    ensures f in Flatten(ShowPath(p), v) <==> exists q, x :: LeafAt(NO_CUT, v, p, q, x) && f == (ShowPath(q), x)
  {
    if f in Flatten(ShowPath(p), v) {
      var q := FlattenedIsLeaf(v, p, f);
    }
    if q, x :| LeafAt(NO_CUT, v, p, q, x) && f == (ShowPath(q), x) {
      LeafIsFlattened(v, p, q, x);
    }
  }

  // ---------------------------------------------------------------- last writes

  lemma {:induction false} LastWritesFrom(pairs: Pairs, q: Path)
    ensures q in LastWrites(pairs) ==>
              exists f :: f in pairs && f.1 != Null && ParseKey(f.0) == q && LastWrites(pairs)[q] == f.1
    ensures (exists f :: f in pairs && f.1 != Null && ParseKey(f.0) == q) ==> q in LastWrites(pairs)
    decreases |pairs|
  {
    if pairs != [] {
      var init, last := pairs[..|pairs| - 1], pairs[|pairs| - 1];
      LastWritesFrom(init, q);
      assert pairs == init + [last];
    }
  }

  /** The trie below `p` holds exactly the leaves of `v`. */
  ghost predicate Holds(cut: Cut, written: map<Path, Value>, v: Value, p: Path)
  {
    forall q, x :: p <= q ==> ((q in written && written[q] == x) <==> LeafAt(cut, v, p, q, x))
  }

  /** The pair is a leaf of the attributes under its key. */
  ghost predicate IsLeafPair(cut: Cut, m: map<string, Value>, f: (string, Value))
  {
    exists q, x :: LeafAt(cut, Dict(m), [], q, x) && f == (ShowPath(q), x)
  }

  lemma PairOfLeaf(cut: Cut, m: map<string, Value>, q: Path, f: (string, Value))
    requires CutsEntries(cut) && WellFormedEntries(cut, m, []) && IsLeafPair(cut, m, f) && ParseKey(f.0) == q
    ensures LeafAt(cut, Dict(m), [], q, f.1) && f.1 != Null
  {
    var r, y :| LeafAt(cut, Dict(m), [], r, y) && f == (ShowPath(r), y);
    LeafKeyReads(cut, m, r, y);
  }

  /** The key of a leaf reads back as its path. */
  lemma LeafKeyReads(cut: Cut, m: map<string, Value>, q: Path, x: Value)
    requires CutsEntries(cut) && WellFormedEntries(cut, m, []) && LeafAt(cut, Dict(m), [], q, x)
    ensures ParseKey(ShowPath(q)) == q && x != Null
  {
    TopLeafGood(cut, m, q, x);
    ParseShow(q);
  }

  lemma WrittenIsLeaf(cut: Cut, m: map<string, Value>, pairs: Pairs, q: Path)
    requires CutsEntries(cut) && WellFormedEntries(cut, m, [])
    requires forall f :: f in pairs <==> IsLeafPair(cut, m, f)
    requires q in LastWrites(pairs)
    ensures LeafAt(cut, Dict(m), [], q, LastWrites(pairs)[q])
  {
    LastWritesFrom(pairs, q);
    var f :| f in pairs && f.1 != Null && ParseKey(f.0) == q && LastWrites(pairs)[q] == f.1;
    PairOfLeaf(cut, m, q, f);
  }

  lemma LeafIsWritten(cut: Cut, m: map<string, Value>, pairs: Pairs, q: Path, x: Value)
    requires CutsEntries(cut) && WellFormedEntries(cut, m, [])
    requires forall f :: f in pairs <==> IsLeafPair(cut, m, f)
    requires LeafAt(cut, Dict(m), [], q, x)
    ensures q in LastWrites(pairs) && LastWrites(pairs)[q] == x
  {
    var f := (ShowPath(q), x);
    LeafKeyReads(cut, m, q, x);
    assert IsLeafPair(cut, m, f);
    LastWritesFrom(pairs, q);
    assert f in pairs && f.1 != Null && ParseKey(f.0) == q;
    WrittenIsLeaf(cut, m, pairs, q);
    LeafUnique(cut, Dict(m), [], q, x, LastWrites(pairs)[q]);
  }

  lemma FlattenedIsHeld(cut: Cut, m: map<string, Value>, pairs: Pairs)
    requires CutsEntries(cut) && WellFormedEntries(cut, m, [])
    requires forall f :: f in pairs <==> IsLeafPair(cut, m, f)
    ensures Holds(cut, LastWrites(pairs), Dict(m), [])
  {
    var written := LastWrites(pairs);
    forall q, x
      ensures (q in written && written[q] == x) <==> LeafAt(cut, Dict(m), [], q, x)
    {
      if q in written && written[q] == x {
        WrittenIsLeaf(cut, m, pairs, q);
      }
      if LeafAt(cut, Dict(m), [], q, x) {
        LeafIsWritten(cut, m, pairs, q, x);
      }
    }
  }

  /** A leaf of a dictionary is a leaf of one of its values. */
  lemma EntryLeaf(cut: Cut, m: map<string, Value>, p: Path, q: Path, x: Value) returns (k: string)
    requires !cut(p) && LeafAt(cut, Dict(m), p, q, x)
    ensures k in m && LeafAt(cut, m[k], p + [Name(k)], q, x)
  {
    LeafCases(cut, Dict(m), p, q, x);
    var l :| LeafVia(cut, Dict(m), p, l, q, x);
    k := l.s;
  }

  lemma OneLabel(l: Label)
    ensures [] + [l] == [l]
  {
  }

  lemma TopLeafVia(cut: Cut, m: map<string, Value>, q: Path, x: Value) returns (k: string)
    requires CutsEntries(cut) && WellFormedEntries(cut, m, []) && LeafAt(cut, Dict(m), [], q, x)
    ensures k in m && GoodKey(k) && WellFormed(cut, m[k], [Name(k)]) && LeafAt(cut, m[k], [Name(k)], q, x)
  {
    k := EntryLeaf(cut, m, [], q, x);
    OneLabel(Name(k));
  }

  lemma TopLeafGood(cut: Cut, m: map<string, Value>, q: Path, x: Value)
    requires CutsEntries(cut) && WellFormedEntries(cut, m, []) && LeafAt(cut, Dict(m), [], q, x)
    ensures GoodPath(q) && q != [] && Whole(cut, x, q) && (x.Dict? ==> x.entries != map[])
  {
    var k := TopLeafVia(cut, m, q, x);
    LeafBelow(cut, m[k], [Name(k)], q, x);
    LeafGood(cut, m[k], [Name(k)], q, x);
  }

  // ---------------------------------------------------------------- walking gives the value back

  lemma HeldChild(cut: Cut, written: map<Path, Value>, v: Value, p: Path, l: Label)
    requires Holds(cut, written, v, p) && HasChild(cut, v, p, l)
    ensures Holds(cut, written, ChildOf(v, l), p + [l])
  {
    forall q, x | p + [l] <= q
      ensures (q in written && written[q] == x) <==> LeafAt(cut, ChildOf(v, l), p + [l], q, x)
    {
      assert p <= p + [l] <= q;
      LeafThrough(cut, v, p, l, q, x);
    }
  }

  lemma HeldNode(cut: Cut, written: map<Path, Value>, v: Value, p: Path)
    requires Holds(cut, written, v, p)
    requires WellFormed(cut, v, p)
    ensures p in TrieOf(written)
  {
    var q, x := SomeLeaf(cut, v, p);
    LeafBelow(cut, v, p, q, x);
    InTrie(written, p);
  }

  /** The trie node for a held value has the value's own children, and no value unless it is a leaf. */
  lemma HeldShape(cut: Cut, written: map<Path, Value>, v: Value, p: Path, l: Label)
    requires Holds(cut, written, v, p)
    ensures p in written ==> Whole(cut, v, p) && written[p] == v
    ensures Whole(cut, v, p) ==> p in written
    ensures p + [l] in TrieOf(written) ==> HasChild(cut, v, p, l)
  {
    if p in written {
      LeafCases(cut, v, p, p, written[p]);
      if k :| LeafVia(cut, v, p, k, p, written[p]) {
        LeafBelow(cut, ChildOf(v, k), p + [k], p, written[p]);
      }
    }
    LeafCases(cut, v, p, p, v);
    if p + [l] in TrieOf(written) {
      InTrie(written, p + [l]);
      var q :| q in written && p + [l] <= q;
      assert p <= p + [l] <= q;
      LeafThrough(cut, v, p, l, q, written[q]);
    }
  }

  /** Walked under a key, a held value is yielded whole under that key. */
  lemma {:induction false} WalkValue(cut: Cut, written: map<Path, Value>, v: Value, p: Path, prefix: string)
    requires CutsEntries(cut) && Holds(cut, written, v, p) && WellFormed(cut, v, p) && prefix != ""
    ensures p in TrieOf(written) && Walk(TrieOf(written), p, prefix) == {(prefix, v)}
    decreases v, 1
  {
    HeldNode(cut, written, v, p);
    if Whole(cut, v, p) {
      WalkWhole(cut, written, v, p, prefix);
    } else if v.Dict? {
      DictNode(cut, written, v.entries, p);
      WalkDict(cut, written, v.entries, p);
    } else {
      ListNode(cut, written, v.items, p);
      WalkItems(cut, written, v.items, p);
    }
  }

  lemma WalkWhole(cut: Cut, written: map<Path, Value>, v: Value, p: Path, prefix: string)
    requires CutsEntries(cut) && Holds(cut, written, v, p) && WellFormed(cut, v, p) && prefix != ""
    requires Whole(cut, v, p) && p in TrieOf(written)
    ensures Walk(TrieOf(written), p, prefix) == {(prefix, v)}
  {
    HeldShape(cut, written, v, p, Idx(0));
    TrieNode(written, p, Idx(0));
    NoChildren(cut, written, v, p);
  }

  /** Walked as the root of a dictionary, a held dictionary is yielded entry by entry. */
  lemma {:induction false} WalkDict(cut: Cut, written: map<Path, Value>, m: map<string, Value>, p: Path)
    requires CutsEntries(cut) && Holds(cut, written, Dict(m), p) && WellFormedEntries(cut, m, p)
    requires !cut(p) && p in TrieOf(written)
    ensures AsDict(Walk(TrieOf(written), p, "")) == m
    decreases Dict(m), 0
  {
    var nodes := TrieOf(written);
    var pairs := Walk(nodes, p, "");
    DictNode(cut, written, m, p);
    forall kv
      ensures kv in pairs <==> kv.0 in m && kv.1 == m[kv.0]
    {
      WalkCases(nodes, p, "", kv);
      if l :| ChildYields(nodes, p, "", l, kv) {
        HeldShape(cut, written, Dict(m), p, l);
        TrieNode(written, p, l);
        WalkEntry(cut, written, m, p, l.s);
      }
      if kv.0 in m && kv.1 == m[kv.0] {
        WalkEntry(cut, written, m, p, kv.0);
        TrieNode(written, p, Name(kv.0));
        assert ChildYields(nodes, p, "", Name(kv.0), kv);
      }
    }
    PairsOfMap(pairs, m);
  }

  /** A set of pairs that holds exactly the entries of a map collects to the map. */
  lemma PairsOfMap(pairs: PairSet, m: map<string, Value>)
    requires forall kv :: kv in pairs <==> kv.0 in m && kv.1 == m[kv.0]
    ensures AsDict(pairs) == m
  {
    forall k | k in m
      ensures k in KeysIn(pairs)
    {
      var kv := (k, m[k]);
      assert kv in pairs && kv.0 == k;
    }
    forall k | k in KeysIn(pairs)
      ensures k in m && SomeValue(pairs, k) == m[k]
    {
      assert (k, SomeValue(pairs, k)) in pairs;
    }
  }

  lemma {:induction false} WalkEntry(cut: Cut, written: map<Path, Value>, m: map<string, Value>, p: Path, k: string)
    requires CutsEntries(cut) && Holds(cut, written, Dict(m), p) && WellFormedEntries(cut, m, p)
    requires !cut(p) && p in TrieOf(written) && k in m
    ensures p + [Name(k)] in TrieOf(written) && WalkChild(TrieOf(written), p, Name(k), "") == {(k, m[k])}
    decreases Dict(m), 0, 0
  {
    HeldChild(cut, written, Dict(m), p, Name(k));
    WalkValue(cut, written, m[k], p + [Name(k)], k);
  }

  lemma {:induction false} WalkItems(cut: Cut, written: map<Path, Value>, items: seq<Value>, p: Path)
    requires CutsEntries(cut) && Holds(cut, written, List(items), p) && WellFormed(cut, List(items), p)
    requires HasMapping(items) && p in TrieOf(written)
    requires forall j :: j in TrieOf(written)[p].indices <==> 0 <= j < |items|
    ensures ListAt(TrieOf(written), p) == List(items)
    decreases List(items), 0
  {
    SortedCount(TrieOf(written)[p].indices, |items|);
    forall k: nat | k < |items|
      ensures ElementAt(TrieOf(written), p, k) == items[k]
    {
      WalkItem(cut, written, items, p, k);
    }
    ListOfElements(TrieOf(written), p, items);
  }

  /** `sorted` of 0, 1, 2, ... */
  lemma SortedCount(s: set<nat>, n: nat)
    requires forall j :: j in s <==> 0 <= j < n
    ensures |Sorted(s)| == n && forall k :: 0 <= k < n ==> Sorted(s)[k] == k
  {
    IndicesCount(s, n);
    forall k: nat | k < n
      ensures Sorted(s)[k] == k
    {
      SortedHolds(s, k);
      RankBelow(s, n, Sorted(s)[k]);
    }
  }

  lemma ListOfElements(nodes: Nodes, p: Path, items: seq<Value>)
    requires p in nodes && |Sorted(nodes[p].indices)| == |items|
    requires forall k :: 0 <= k < |items| ==> Sorted(nodes[p].indices)[k] == k
    requires forall k: nat :: k < |items| ==> ElementAt(nodes, p, k) == items[k]
    ensures ListAt(nodes, p) == List(items)
  {
    assert ListAt(nodes, p).items == items;
  }

  lemma {:induction false} WalkItem(cut: Cut, written: map<Path, Value>, items: seq<Value>, p: Path, k: nat)
    requires CutsEntries(cut) && Holds(cut, written, List(items), p) && WellFormed(cut, List(items), p)
    requires HasMapping(items) && p in TrieOf(written) && k < |items|
    ensures ElementAt(TrieOf(written), p, k) == items[k]
    decreases List(items), 0, 0
  {
    var element := p + [Idx(k)];
    HeldChild(cut, written, List(items), p, Idx(k));
    HeldNode(cut, written, items[k], element);
    assert element[|element| - 1] == Idx(k);
    WalkDict(cut, written, items[k].entries, element);
  }

  lemma {:induction false} IndicesCount(s: set<nat>, n: nat)
    requires forall j :: j in s <==> 0 <= j < n
    ensures |s| == n
    decreases n
  {
    if n == 0 {
      assert s == {};
    } else {
      IndicesCount(s - {n - 1}, n - 1);
    }
  }

  lemma NoChildren(cut: Cut, written: map<Path, Value>, v: Value, p: Path)
    requires Holds(cut, written, v, p) && Whole(cut, v, p) && p in TrieOf(written)
    ensures TrieOf(written)[p].branches == {} && TrieOf(written)[p].indices == {}
  {
    forall l
      ensures p + [l] !in TrieOf(written) && l !in TrieOf(written)[p].branches
    {
      HeldShape(cut, written, v, p, l);
      TrieNode(written, p, l);
    }
    forall i
      ensures i !in TrieOf(written)[p].indices
    {
      TrieNode(written, p, Idx(i));
    }
  }

  lemma DictNode(cut: Cut, written: map<Path, Value>, m: map<string, Value>, p: Path)
    requires Holds(cut, written, Dict(m), p) && !cut(p) && p in TrieOf(written)
    ensures p !in written && TrieOf(written)[p].value == None && TrieOf(written)[p].indices == {}
  {
    HeldShape(cut, written, Dict(m), p, Idx(0));
    TrieNode(written, p, Idx(0));
    forall i: nat
      ensures i !in TrieOf(written)[p].indices
    {
      HeldShape(cut, written, Dict(m), p, Idx(i));
      TrieNode(written, p, Idx(i));
    }
  }

  lemma ListNode(cut: Cut, written: map<Path, Value>, items: seq<Value>, p: Path)
    requires CutsEntries(cut) && Holds(cut, written, List(items), p) && WellFormed(cut, List(items), p)
    requires HasMapping(items) && p in TrieOf(written)
    ensures TrieOf(written)[p].value == None && TrieOf(written)[p].branches == {}
    ensures forall j :: j in TrieOf(written)[p].indices <==> 0 <= j < |items|
  {
    var nodes := TrieOf(written);
    HeldShape(cut, written, List(items), p, Idx(0));
    forall l
      ensures l !in nodes[p].branches
      ensures l.Idx? ==> (l.i in nodes[p].indices <==> l.i < |items|)
    {
      TrieNode(written, p, l);
      HeldShape(cut, written, List(items), p, l);
      if l.Idx? && l.i < |items| {
        ItemNode(cut, written, items, p, l);
      }
    }
    forall j
      ensures j in nodes[p].indices <==> 0 <= j < |items|
    {
      if 0 <= j {
        assert Idx(j).i == j;
      }
    }
  }

  lemma ItemNode(cut: Cut, written: map<Path, Value>, items: seq<Value>, p: Path, l: Label)
    requires CutsEntries(cut) && Holds(cut, written, List(items), p) && WellFormed(cut, List(items), p)
    requires HasMapping(items) && l.Idx? && l.i < |items|
    ensures p + [l] in TrieOf(written) && p + [l] !in written
  {
    assert l == Idx(l.i) && (p + [l])[|p|] == l;
    HeldChild(cut, written, List(items), p, l);
    HeldNode(cut, written, items[l.i], p + [l]);
    HeldShape(cut, written, items[l.i], p + [l], l);
  }

  /** Unflattening the leaves gives the attributes back, whichever way the pairs come ordered or
      repeated, and whichever dictionaries travelled whole. */
  lemma UnflattenAfterLeaves(cut: Cut, m: map<string, Value>, pairs: Pairs)
    requires CutsEntries(cut) && WellFormedEntries(cut, m, [])
    requires forall f :: f in pairs <==> IsLeafPair(cut, m, f)
    ensures Unflattened(LastWrites(pairs)) == m
  {
    FlattenedIsHeld(cut, m, pairs);
    InTrie(LastWrites(pairs), []);
    WalkDict(cut, LastWrites(pairs), m, []);
  }

  lemma FlattenedIsLeafPair(m: map<string, Value>, f: (string, Value))
    ensures f in Flatten("", Dict(m)) <==> IsLeafPair(NO_CUT, m, f)
  {
    var root: Path := [];
    assert ShowPath(root) == "";
    if f in Flatten("", Dict(m)) {
      var q := FlattenedIsLeaf(Dict(m), root, f);
    }
    if q, x :| LeafAt(NO_CUT, Dict(m), root, q, x) && f == (ShowPath(q), x) {
      LeafIsFlattened(Dict(m), root, q, x);
    }
  }

  /** Unflattening undoes flattening. */
  lemma UnflattenAfterFlatten(m: map<string, Value>, pairs: Pairs)
    requires WellFormedAttributes(m)
    requires forall f :: f in pairs <==> f in Flatten("", Dict(m))
    ensures Unflattened(LastWrites(pairs)) == m
  {
    forall f
      ensures f in pairs <==> IsLeafPair(NO_CUT, m, f)
    {
      FlattenedIsLeafPair(m, f);
    }
    UnflattenAfterLeaves(NO_CUT, m, pairs);
  }

  // ---------------------------------------------------------------- one more leaf

  function EntryOr(v: Value, k: string): Value
    requires v.Dict?
  {
    if k in v.entries then v.entries[k] else Dict(map[])
  }

  /** The value with `x` put under nested names, where dictionaries are made as needed. */
  function Put(v: Value, names: seq<string>, x: Value): Value
    decreases |names|
  {
    if names == [] || !v.Dict? then x
    else Dict(v.entries[names[0] := Put(EntryOr(v, names[0]), names[1..], x)])
  }

  /** The nested names lead through dictionaries, as far as these exist, to a name not taken. */
  ghost predicate HasRoom(cut: Cut, v: Value, p: Path, names: seq<string>)
    decreases |names|
  {
    && v.Dict? && !cut(p) && names != [] && GoodKey(names[0])
    && if |names| == 1 then names[0] !in v.entries
       else HasRoom(cut, EntryOr(v, names[0]), p + [Name(names[0])], names[1..])
  }

  function NamesPath(p: Path, names: seq<string>): Path
    decreases |names|
  {
    if names == [] then p else NamesPath(p + [Name(names[0])], names[1..])
  }

  lemma PutChild(cut: Cut, v: Value, p: Path, names: seq<string>, x: Value, l: Label)
    requires HasRoom(cut, v, p, names)
    ensures Put(v, names, x).Dict? && !Whole(cut, v, p) && !Whole(cut, Put(v, names, x), p)
    ensures l != Name(names[0]) ==>
              (HasLabel(Put(v, names, x), l) <==> HasLabel(v, l))
              && (HasLabel(v, l) ==> ChildOf(Put(v, names, x), l) == ChildOf(v, l))
    ensures l == Name(names[0]) ==>
              HasLabel(Put(v, names, x), l) && ChildOf(Put(v, names, x), l) == Put(EntryOr(v, names[0]), names[1..], x)
  {
    assert l.Name? ==> l == Name(l.s);
  }

  lemma NoLeaves(cut: Cut, p: Path, q: Path, y: Value)
    requires !cut(p)
    ensures !LeafAt(cut, Dict(map[]), p, q, y)
  {
    LeafCases(cut, Dict(map[]), p, q, y);
  }

  /** Whatever is below the label that is put to: as before, or the new leaf. */
  lemma {:induction false} PutBelow(cut: Cut, v: Value, p: Path, names: seq<string>, x: Value, q: Path, y: Value)
    requires HasRoom(cut, v, p, names) && Leaf(x)
    ensures var l := Name(names[0]);
            LeafVia(cut, Put(v, names, x), p, l, q, y) <==>
              LeafVia(cut, v, p, l, q, y) || (q == NamesPath(p, names) && y == x)
    decreases |names|, 0
  {
    var k, l := names[0], Name(names[0]);
    var child := EntryOr(v, k);
    PutChild(cut, v, p, names, x, l);
    if |names| == 1 {
      LeafCases(cut, x, p + [l], q, y);
    } else {
      PutLeaves(cut, child, p + [l], names[1..], x, q, y);
      if k !in v.entries {
        NoLeaves(cut, p + [l], q, y);
      }
    }
  }

  /** Putting a leaf where there is room adds this leaf and keeps the others. */
  lemma {:induction false} PutLeaves(cut: Cut, v: Value, p: Path, names: seq<string>, x: Value, q: Path, y: Value)
    requires HasRoom(cut, v, p, names) && Leaf(x)
    ensures LeafAt(cut, Put(v, names, x), p, q, y) <==> LeafAt(cut, v, p, q, y) || (q == NamesPath(p, names) && y == x)
    decreases |names|, 1
  {
    LeafCases(cut, Put(v, names, x), p, q, y);
    LeafCases(cut, v, p, q, y);
    PutBelow(cut, v, p, names, x, q, y);
    forall l
      ensures l != Name(names[0]) ==> (LeafVia(cut, Put(v, names, x), p, l, q, y) <==> LeafVia(cut, v, p, l, q, y))
    {
      PutChild(cut, v, p, names, x, l);
    }
  }

  lemma {:induction false} PutWellFormed(cut: Cut, v: Value, p: Path, names: seq<string>, x: Value)
    requires HasRoom(cut, v, p, names) && WellFormedEntries(cut, v.entries, p) && x.Atom?
    ensures Put(v, names, x).Dict? && WellFormedEntries(cut, Put(v, names, x).entries, p)
    decreases |names|
  {
    if |names| > 1 {
      PutWellFormed(cut, EntryOr(v, names[0]), p + [Name(names[0])], names[1..], x);
    }
  }
}
