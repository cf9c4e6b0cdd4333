/** The trace view: the spans of a trace arranged as a tree and listed row by row. */
module TraceTree {
  import opened Wrappers
  import opened Forest

  /** A span of the view; an absent or empty parent id means there is no parent. */
  datatype Span = Span(spanId: Id, parentId: Option<Id>)

  datatype Row = Row(spanId: Id, depth: nat)

  /** The arranged spans: roots and children in the order of the sorted spans. */
  datatype Tree = Tree(roots: seq<Id>, children: map<Id, seq<Id>>)

  // ---------------------------------------------------------------- building the tree

  function ParentOf(s: Span): Option<Id>
  {
    if s.parentId == Some("") then None else s.parentId
  }

  /** `new Map(entries)`: an id keeps its first place and its last entry. */
  function IdsOf(spans: seq<Span>): seq<Id>
  {
    if spans == [] then []
    else
      var before, id := IdsOf(spans[..|spans| - 1]), spans[|spans| - 1].spanId;
      if id in before then before else before + [id]
  }

  function LinksOf(spans: seq<Span>): Parents
  {
    if spans == [] then map[]
    else LinksOf(spans[..|spans| - 1])[spans[|spans| - 1].spanId := ParentOf(spans[|spans| - 1])]
  }

  predicate IsRoot(p: Parents, id: Id)
  {
    id in p && (p[id].None? || p[id].value !in p)
  }

  function RootsAmong(p: Parents, ids: seq<Id>): seq<Id>
  {
    if ids == [] then []
    else
      var before, id := RootsAmong(p, ids[..|ids| - 1]), ids[|ids| - 1];
      if IsRoot(p, id) then before + [id] else before
  }

  function ChildrenAmong(p: Parents, ids: seq<Id>, parent: Id): seq<Id>
  {
    if ids == [] then []
    else
      var before, id := ChildrenAmong(p, ids[..|ids| - 1], parent), ids[|ids| - 1];
      if id in p && p[id] == Some(parent) then before + [id] else before
  }

  ghost predicate Arranged(p: Parents, ids: seq<Id>, t: Tree)
  {
    && t.roots == RootsAmong(p, ids) && t.children.Keys == p.Keys
    && forall id :: id in p ==> t.children[id] == ChildrenAmong(p, ids, id)
  }

  lemma {:induction false} IdsAndLinks(spans: seq<Span>)
    ensures forall id :: id in IdsOf(spans) <==> id in LinksOf(spans)
    ensures forall i, j :: 0 <= i < j < |IdsOf(spans)| ==> IdsOf(spans)[i] != IdsOf(spans)[j]
    decreases |spans|
  {
    if spans != [] {
      IdsAndLinks(spans[..|spans| - 1]);
    }
  }

  /** The last entry of its id. */
  ghost predicate IsLastEntry(spans: seq<Span>, i: nat)
  {
    i < |spans| && forall j :: i < j < |spans| ==> spans[j].spanId != spans[i].spanId
  }

  /** The first entry of its id. */
  ghost predicate IsFirstEntry(spans: seq<Span>, i: nat)
  {
    i < |spans| && forall j :: 0 <= j < i ==> spans[j].spanId != spans[i].spanId
  }

  /** Each id is linked to the parent that its last entry names, and to none if that names none or the
      empty one. */
  lemma {:induction false} LinksAreParents(spans: seq<Span>, i: nat)
    requires IsLastEntry(spans, i)
    ensures spans[i].spanId in LinksOf(spans)
    ensures LinksOf(spans)[spans[i].spanId]
         == if spans[i].parentId in {None, Some("")} then None else spans[i].parentId
    decreases |spans|
  {
    if i < |spans| - 1 {
      LinksAreParents(spans[..|spans| - 1], i);
    }
  }

  lemma {:induction false} LinkedHasEntry(spans: seq<Span>, id: Id) returns (i: nat)
    requires id in LinksOf(spans)
    ensures IsLastEntry(spans, i) && spans[i].spanId == id
    decreases |spans|
  {
    i := |spans| - 1;
    if spans[i].spanId != id {
      i := LinkedHasEntry(spans[..|spans| - 1], id);
    }
  }

  /** The ids stand in the order of their first entries. */
  lemma {:induction false} IdsInOrder(spans: seq<Span>) returns (at: seq<nat>)
    ensures |at| == |IdsOf(spans)| && forall k, m :: 0 <= k < m < |at| ==> at[k] < at[m]
    ensures forall k :: 0 <= k < |at| ==> at[k] < |spans| && IdsOf(spans)[k] == spans[at[k]].spanId
    ensures forall i: nat :: i in at <==> IsFirstEntry(spans, i)
    decreases |spans|
  {
    at := [];
    if spans != [] {
      var init, s := spans[..|spans| - 1], spans[|spans| - 1];
      at := IdsInOrder(init);
      FirstEntryMore(init, s, at);
      assert spans == init + [s];
      if s.spanId !in IdsOf(init) {
        at := at + [|init|];
      }
    }
  }

  lemma FirstEntryMore(init: seq<Span>, s: Span, at: seq<nat>)
    requires forall k :: 0 <= k < |at| ==> at[k] < |init|
    requires forall i: nat :: i in at <==> IsFirstEntry(init, i)
    ensures forall i: nat :: IsFirstEntry(init + [s], i) <==> i in at || (i == |init| && s.spanId !in IdsOf(init))
  {
    var all := init + [s];
    forall i: nat | i < |init|
      ensures IsFirstEntry(all, i) <==> IsFirstEntry(init, i)
    {
      assert forall j :: 0 <= j <= i ==> all[j] == init[j];
    }
    IdsAndLinks(init);
    if s.spanId in IdsOf(init) {
      var j := LinkedHasEntry(init, s.spanId);
      assert all[j].spanId == s.spanId;
    } else {
      forall j | 0 <= j < |init|
        ensures all[j].spanId != s.spanId
      {
        EntryIsListed(init, j);
      }
    }
  }

  lemma {:induction false} EntryIsListed(spans: seq<Span>, j: nat)
    requires j < |spans|
    ensures spans[j].spanId in IdsOf(spans)
    decreases |spans|
  {
    if j < |spans| - 1 {
      EntryIsListed(spans[..|spans| - 1], j);
    }
  }

  /** `buildTraceTree`, on the spans sorted by start time. */
  method BuildTraceTree(spans: seq<Span>) returns (t: Tree, p: Parents)
    ensures p == LinksOf(spans) && Arranged(p, IdsOf(spans), t)
  {
    p := map[];
    var ids: seq<Id> := [];
    for i := 0 to |spans|
      invariant p == LinksOf(spans[..i]) && ids == IdsOf(spans[..i])
    {
      assert spans[..i + 1][..i] == spans[..i];
      if spans[i].spanId !in ids {
        ids := ids + [spans[i].spanId];
      }
      p := p[spans[i].spanId := ParentOf(spans[i])];
    }
    assert spans[..|spans|] == spans;
    IdsAndLinks(spans);
    t := Arrange(p, ids);
  }

  /** The second loop: each span goes to its parent's children or to the roots. */
  method Arrange(p: Parents, ids: seq<Id>) returns (t: Tree)
    requires forall id :: id in ids ==> id in p
    ensures Arranged(p, ids, t)
  {
    t := Tree([], map id | id in p :: []);
    for i := 0 to |ids|
      invariant Arranged(p, ids[..i], t)
    {
      var id := ids[i];
      ArrangeOne(p, ids[..i], id, t);
      assert ids[..i + 1] == ids[..i] + [id];
      if p[id].Some? && p[id].value in p {
        var parent := p[id].value;
        t := t.(children := t.children[parent := t.children[parent] + [id]]);
      } else {
        t := t.(roots := t.roots + [id]);
      }
    }
    assert ids[..|ids|] == ids;
  }

  lemma ArrangeOne(p: Parents, ids: seq<Id>, id: Id, t: Tree)
    requires id in p && Arranged(p, ids, t)
    ensures Arranged(p, ids + [id],
                     if IsRoot(p, id) then t.(roots := t.roots + [id])
                     else t.(children := t.children[p[id].value := t.children[p[id].value] + [id]]))
  {
    var more := ids + [id];
    assert more[..|more| - 1] == ids;
  }

  lemma {:induction false} RootsMember(p: Parents, ids: seq<Id>)
    requires forall i, j :: 0 <= i < j < |ids| ==> ids[i] != ids[j]
    ensures forall id :: id in RootsAmong(p, ids) <==> id in ids && IsRoot(p, id)
    ensures forall i, j :: 0 <= i < j < |RootsAmong(p, ids)| ==> RootsAmong(p, ids)[i] != RootsAmong(p, ids)[j]
    decreases |ids|
  {
    if ids != [] {
      var init := ids[..|ids| - 1];
      RootsMember(p, init);
      assert ids == init + [ids[|ids| - 1]];
    }
  }

  lemma {:induction false} ChildrenMember(p: Parents, ids: seq<Id>, parent: Id)
    requires forall i, j :: 0 <= i < j < |ids| ==> ids[i] != ids[j]
    ensures forall id :: id in ChildrenAmong(p, ids, parent) <==> id in ids && id in p && p[id] == Some(parent)
    ensures forall i, j :: 0 <= i < j < |ChildrenAmong(p, ids, parent)| ==>
              ChildrenAmong(p, ids, parent)[i] != ChildrenAmong(p, ids, parent)[j]
    decreases |ids|
  {
    if ids != [] {
      var init := ids[..|ids| - 1];
      ChildrenMember(p, init, parent);
      assert ids == init + [ids[|ids| - 1]];
    }
  }

  // ---------------------------------------------------------------- listing the tree

  /** The rows for some sibling nodes, each followed by the rows below it; `height` bounds how far
      down the tree goes. */
  function Listing(children: map<Id, seq<Id>>, collapsed: set<Id>, nodes: seq<Id>, depth: nat, height: nat): seq<Row>
    decreases height, |nodes|
  {
    if nodes == [] then []
    else
      [Row(nodes[0], depth)] + Below(children, collapsed, nodes[0], depth, height)
      + Listing(children, collapsed, nodes[1..], depth, height)
  }

  /** The rows of the children of a node, none when the node is collapsed. */
  function Below(children: map<Id, seq<Id>>, collapsed: set<Id>, node: Id, depth: nat, height: nat): seq<Row>
    decreases height, 0
  {
    if node in collapsed || node !in children || height == 0 then []
    else Listing(children, collapsed, children[node], depth + 1, height - 1)
  }

  /** The span has exactly `d` present ancestors. */
  ghost predicate HasDepth(p: Parents, id: Id, d: nat)
  {
    Up(p, id, d).Some? && Up(p, id, d + 1) == None
  }

  /** Some proper ancestor of the span is collapsed. */
  ghost predicate Hidden(p: Parents, collapsed: set<Id>, id: Id)
  {
    exists c :: c in collapsed && c != id && Under(p, id, c)
  }

  /** Visible siblings at one depth, with room below for everything under them. */
  ghost predicate Siblings(p: Parents, collapsed: set<Id>, nodes: seq<Id>, depth: nat, height: nat)
  {
    && (forall i :: 0 <= i < |nodes| ==> HasDepth(p, nodes[i], depth) && !Hidden(p, collapsed, nodes[i]))
    && (forall i, j :: 0 <= i < j < |nodes| ==> nodes[i] != nodes[j])
    && |p| <= depth + height + 1
  }

  /** The children of each span, in some order. */
  ghost predicate ChildLists(p: Parents, children: map<Id, seq<Id>>)
  {
    && children.Keys == p.Keys
    && forall id {:trigger children[id]} :: id in p ==>
         && (forall c :: c in children[id] <==> c in p && p[c] == Some(id))
         && (forall i, j :: 0 <= i < j < |children[id]| ==> children[id][i] != children[id][j])
  }

  lemma {:induction false} ChainEndsNoLoop(p: Parents, t: Id, d: nat)
    requires HasDepth(p, t, d)
    ensures NoLoop(p, t, d)
  {
    forall j: nat, k: nat | j < k <= d && Up(p, t, j).Some?
      ensures Up(p, t, j) != Up(p, t, k)
    {
      if Up(p, t, j) == Up(p, t, k) {
        var a := Up(p, t, j).value;
        UpCompose(p, t, j, k - j);
        CycleNeverEnds(p, a, k - j, d + 1 - j);
        UpCompose(p, t, j, d + 1 - j);
      }
    }
  }

  /** A span lies deeper than the spans it lies under, and only one span of each depth is above it. */
  lemma UnderDeeper(p: Parents, id: Id, a: Id, e: nat)
    requires Under(p, id, a) && HasDepth(p, a, e)
    ensures exists n: nat :: Up(p, id, n) == Some(a) && HasDepth(p, id, e + n)
  {
    var n: nat :| Up(p, id, n) == Some(a);
    UpCompose(p, id, n, e);
    UpCompose(p, id, n, e + 1);
    assert n + (e + 1) == e + n + 1;
    assert HasDepth(p, id, e + n);
  }

  lemma DepthUnique(p: Parents, id: Id, d: nat, e: nat)
    requires HasDepth(p, id, d) && HasDepth(p, id, e)
    ensures d == e
  {
    if d < e {
      PrefixStored(p, id, d + 1, e);
    } else if e < d {
      PrefixStored(p, id, e + 1, d);
    }
  }

  lemma SiblingsApart(p: Parents, id: Id, a: Id, b: Id, d: nat)
    requires HasDepth(p, a, d) && HasDepth(p, b, d) && Under(p, id, a) && Under(p, id, b)
    ensures a == b
  {
    UnderDeeper(p, id, a, d);
    UnderDeeper(p, id, b, d);
    var m: nat :| Up(p, id, m) == Some(a) && HasDepth(p, id, d + m);
    var n: nat :| Up(p, id, n) == Some(b) && HasDepth(p, id, d + n);
    DepthUnique(p, id, d + m, d + n);
  }

  /** Below a span lie the span itself and what lies below its children. */
  lemma UnderChildren(p: Parents, id: Id, a: Id)
    requires a in p
    ensures Under(p, id, a) <==> id == a || exists c :: c in p && p[c] == Some(a) && Under(p, id, c)
  {
    assert Up(p, a, 0) == Some(a);
    if Under(p, id, a) && id != a {
      var n: nat :| Up(p, id, n) == Some(a);
      PrefixStored(p, id, n - 1, n);
      var c := Up(p, id, n - 1).value;
      OneStep(p, id, n - 1);
      UpIsStored(p, id, n - 1);
      assert Under(p, id, c);
    }
    if c :| c in p && p[c] == Some(a) && Under(p, id, c) {
      assert Up(p, c, 1) == Up(p, a, 0);
      assert Under(p, c, a);
      UnderTrans(p, id, c, a);
    }
  }

  lemma HiddenFromAbove(p: Parents, collapsed: set<Id>, c: Id, node: Id)
    requires c in p && p[c] == Some(node) && Hidden(p, collapsed, c)
    ensures node in collapsed || Hidden(p, collapsed, node)
  {
    var a :| a in collapsed && a != c && Under(p, c, a);
    var n: nat :| Up(p, c, n) == Some(a);
    assert n != 0 && Up(p, node, n - 1) == Some(a);
    assert Under(p, node, a);
  }

  lemma ChildDepth(p: Parents, c: Id, node: Id, depth: nat)
    requires c in p && p[c] == Some(node) && HasDepth(p, node, depth)
    ensures HasDepth(p, c, depth + 1) && depth + 1 < |p|
  {
    assert Up(p, c, depth + 1) == Up(p, node, depth);
    assert Up(p, c, depth + 2) == Up(p, node, depth + 1);
    ChainEndsNoLoop(p, c, depth + 1);
    ChainIsShort(p, c, depth + 1);
  }

  /** The children of a visible, expanded span are visible siblings one level down. */
  lemma ChildrenAreSiblings(p: Parents, children: map<Id, seq<Id>>, collapsed: set<Id>, node: Id, depth: nat,
                            height: nat)
    requires ChildLists(p, children) && node in p && HasDepth(p, node, depth) && |p| <= depth + height + 1
    requires !Hidden(p, collapsed, node) && node !in collapsed
    ensures height == 0 ==> children[node] == []
    ensures height > 0 ==> Siblings(p, collapsed, children[node], depth + 1, height - 1)
  {
    var kids := children[node];
    if kids != [] {
      assert kids[0] in kids;
      ChildDepth(p, kids[0], node, depth);
    }
    forall i | 0 <= i < |kids|
      ensures HasDepth(p, kids[i], depth + 1) && !Hidden(p, collapsed, kids[i])
    {
      assert kids[i] in kids;
      ChildDepth(p, kids[i], node, depth);
      if Hidden(p, collapsed, kids[i]) {
        HiddenFromAbove(p, collapsed, kids[i], node);
      }
    }
  }

  // ---------------------------------------------------------------- which spans are listed

  /** The span is visible, `d` levels down, and lies below one of the nodes. */
  ghost predicate Shown(p: Parents, collapsed: set<Id>, nodes: seq<Id>, id: Id, d: nat)
  {
    HasDepth(p, id, d) && !Hidden(p, collapsed, id) && exists n :: n in nodes && Under(p, id, n)
  }

  /** What shows below one node: the node, and unless it is collapsed what shows below its children. */
  lemma ShownBelow(p: Parents, children: map<Id, seq<Id>>, collapsed: set<Id>, node: Id, depth: nat, id: Id, d: nat)
    requires ChildLists(p, children) && HasDepth(p, node, depth) && !Hidden(p, collapsed, node)
    ensures node in p
    ensures Shown(p, collapsed, [node], id, d) <==>
              || (id == node && d == depth)
              || (node !in collapsed && Shown(p, collapsed, children[node], id, d))
  {
    UpIsStored(p, node, depth);
    UnderChildren(p, id, node);
    assert node in [node];
    if id == node && HasDepth(p, id, d) {
      DepthUnique(p, id, d, depth);
    }
    if node !in collapsed && Shown(p, collapsed, children[node], id, d) {
      var c :| c in children[node] && Under(p, id, c);
      assert Under(p, id, node);
    }
  }

  lemma ShownSplits(p: Parents, collapsed: set<Id>, nodes: seq<Id>, id: Id, d: nat)
    requires nodes != []
    ensures Shown(p, collapsed, nodes, id, d) <==>
              Shown(p, collapsed, [nodes[0]], id, d) || Shown(p, collapsed, nodes[1..], id, d)
  {
    assert nodes == [nodes[0]] + nodes[1..];
  }

  /** The rows show what lies below the nodes, and nothing else. */
  ghost predicate Shows(p: Parents, collapsed: set<Id>, nodes: seq<Id>, rows: seq<Row>)
  {
    forall id, d: nat {:trigger Row(id, d)} :: Row(id, d) in rows <==> Shown(p, collapsed, nodes, id, d)
  }

  lemma OneMoreNode(p: Parents, children: map<Id, seq<Id>>, collapsed: set<Id>, nodes: seq<Id>, depth: nat,
                    below: seq<Row>, rest: seq<Row>)
    requires ChildLists(p, children) && nodes != [] && nodes[0] in p
    requires HasDepth(p, nodes[0], depth) && !Hidden(p, collapsed, nodes[0])
    requires if nodes[0] in collapsed then below == [] else Shows(p, collapsed, children[nodes[0]], below)
    requires Shows(p, collapsed, nodes[1..], rest)
    ensures Shows(p, collapsed, nodes, [Row(nodes[0], depth)] + below + rest)
  {
    var head := [Row(nodes[0], depth)];
    forall id, d: nat
      ensures Row(id, d) in head + below + rest <==> Shown(p, collapsed, nodes, id, d)
    {
      ShownSplits(p, collapsed, nodes, id, d);
      ShownBelow(p, children, collapsed, nodes[0], depth, id, d);
      assert Row(id, d) in head + below + rest <==> Row(id, d) in head || Row(id, d) in below || Row(id, d) in rest;
    }
  }

  /** The listing holds a row for each span that shows, and no other row. */
  lemma {:induction false} ListingShows(p: Parents, children: map<Id, seq<Id>>, collapsed: set<Id>, nodes: seq<Id>,
                                        depth: nat, height: nat)
    requires ChildLists(p, children) && Siblings(p, collapsed, nodes, depth, height)
    ensures Shows(p, collapsed, nodes, Listing(children, collapsed, nodes, depth, height))
    decreases height, |nodes|
  {
    if nodes != [] {
      var node := nodes[0];
      var below := Below(children, collapsed, node, depth, height);
      UpIsStored(p, node, depth);
      ListingShows(p, children, collapsed, nodes[1..], depth, height);
      if node !in collapsed {
        ChildrenAreSiblings(p, children, collapsed, node, depth, height);
        BelowShows(p, children, collapsed, node, depth, height);
      }
      OneMoreNode(p, children, collapsed, nodes, depth, below, Listing(children, collapsed, nodes[1..], depth, height));
    }
  }

  lemma {:induction false} BelowShows(p: Parents, children: map<Id, seq<Id>>, collapsed: set<Id>, node: Id,
                                      depth: nat, height: nat)
    requires ChildLists(p, children) && node in p && node !in collapsed
    requires if height > 0 then Siblings(p, collapsed, children[node], depth + 1, height - 1) else children[node] == []
    ensures Shows(p, collapsed, children[node], Below(children, collapsed, node, depth, height))
    decreases height, 0
  {
    if height > 0 {
      ListingShows(p, children, collapsed, children[node], depth + 1, height - 1);
    }
    ShowsBelow(p, children, collapsed, node, depth, height);
  }

  lemma ShowsBelow(p: Parents, children: map<Id, seq<Id>>, collapsed: set<Id>, node: Id, depth: nat, height: nat)
    requires node in children && node !in collapsed
    requires if height == 0 then children[node] == []
             else Shows(p, collapsed, children[node],
                        Listing(children, collapsed, children[node], depth + 1, height - 1))
    ensures Shows(p, collapsed, children[node], Below(children, collapsed, node, depth, height))
  {
  }

  // ---------------------------------------------------------------- the order of the rows

  /** Every row after `i` up to `j` is deeper than row `i`. */
  ghost predicate Deeper(rows: seq<Row>, i: nat, j: nat)
    requires i < j < |rows|
  {
    forall k | i < k <= j :: rows[i].depth < rows[k].depth
  }

  ghost predicate Placed(p: Parents, rows: seq<Row>, i: nat, j: nat)
    requires i < j < |rows|
  {
    rows[i].spanId != rows[j].spanId && (Under(p, rows[j].spanId, rows[i].spanId) <==> Deeper(rows, i, j))
  }

  /** No span twice, and the rows below a span are exactly the run of deeper rows after it. */
  ghost predicate PreOrder(p: Parents, rows: seq<Row>)
  {
    forall i: nat, j: nat | i < j < |rows| :: Placed(p, rows, i, j)
  }

  lemma PlacedInSuffix(p: Parents, xs: seq<Row>, ys: seq<Row>, i: nat, j: nat)
    requires i < j < |ys|
    ensures Placed(p, xs + ys, |xs| + i, |xs| + j) <==> Placed(p, ys, i, j)
  {
    var rows := xs + ys;
    assert forall k | 0 <= k < |ys| :: rows[|xs| + k] == ys[k];
    if Deeper(rows, |xs| + i, |xs| + j) {
      forall k | i < k <= j
        ensures ys[i].depth < ys[k].depth
      {
        assert rows[|xs| + k] == ys[k];
      }
    }
    if Deeper(ys, i, j) {
      forall k | |xs| + i < k <= |xs| + j
        ensures rows[|xs| + i].depth < rows[k].depth
      {
        assert rows[k] == ys[k - |xs|];
      }
    }
  }

  lemma PlacedInPrefix(p: Parents, xs: seq<Row>, ys: seq<Row>, i: nat, j: nat)
    requires i < j < |xs|
    ensures Placed(p, xs + ys, i, j) <==> Placed(p, xs, i, j)
  {
    assert forall k | 0 <= k < |xs| :: (xs + ys)[k] == xs[k];
  }

  lemma HeadFirst(p: Parents, head: Row, below: seq<Row>)
    requires PreOrder(p, below)
    requires forall r :: r in below ==>
             head.depth < r.depth && r.spanId != head.spanId && Under(p, r.spanId, head.spanId)
    ensures PreOrder(p, [head] + below)
  {
    var rows := [head] + below;
    forall i: nat, j: nat | i < j < |rows|
      ensures Placed(p, rows, i, j)
    {
      if i > 0 {
        PlacedInSuffix(p, [head], below, i - 1, j - 1);
        assert Placed(p, below, i - 1, j - 1);
      } else {
        assert forall k | 0 < k < |rows| :: rows[k] in below;
      }
    }
  }

  lemma OneAfterTheOther(p: Parents, depth: nat, xs: seq<Row>, ys: seq<Row>)
    requires PreOrder(p, xs) && PreOrder(p, ys)
    requires forall x :: x in xs ==> depth <= x.depth
    requires ys != [] ==> ys[0].depth == depth
    requires forall x, y :: x in xs && y in ys ==> x.spanId != y.spanId && !Under(p, y.spanId, x.spanId)
    ensures PreOrder(p, xs + ys)
  {
    var rows := xs + ys;
    var m := |xs|;
    forall i: nat, j: nat | i < j < |rows|
      ensures Placed(p, rows, i, j)
    {
      if j < m {
        PlacedInPrefix(p, xs, ys, i, j);
      } else if i >= m {
        PlacedInSuffix(p, xs, ys, i - m, j - m);
        assert Placed(p, ys, i - m, j - m);
      } else {
        assert rows[i] in xs && rows[j] in ys;
        assert rows[m] == ys[0];
      }
    }
  }

  /** Nothing below one sibling is, or lies below, anything below another. */
  lemma SiblingTreesApart(p: Parents, collapsed: set<Id>, nodes: seq<Id>, depth: nat, height: nat, x: Id, y: Id)
    requires nodes != [] && Siblings(p, collapsed, nodes, depth, height)
    requires Under(p, x, nodes[0]) && exists n :: n in nodes[1..] && Under(p, y, n)
    ensures x != y && !Under(p, y, x)
  {
    var n :| n in nodes[1..] && Under(p, y, n);
    if Under(p, y, x) {
      UnderTrans(p, y, x, nodes[0]);
      SiblingsApart(p, y, nodes[0], n, depth);
    }
    if x == y {
      SiblingsApart(p, y, nodes[0], n, depth);
    }
  }

  lemma {:induction false} ListingPreOrder(p: Parents, children: map<Id, seq<Id>>, collapsed: set<Id>,
                                           nodes: seq<Id>, depth: nat, height: nat)
    requires ChildLists(p, children) && Siblings(p, collapsed, nodes, depth, height)
    ensures PreOrder(p, Listing(children, collapsed, nodes, depth, height))
    decreases height, |nodes|
  {
    if nodes != [] {
      var node := nodes[0];
      var below := Below(children, collapsed, node, depth, height);
      UpIsStored(p, node, depth);
      if node !in collapsed {
        ChildrenAreSiblings(p, children, collapsed, node, depth, height);
        BelowPreOrder(p, children, collapsed, node, depth, height);
        BelowShows(p, children, collapsed, node, depth, height);
        BelowIsDeeper(p, children, collapsed, node, depth, below);
      }
      ListingPreOrder(p, children, collapsed, nodes[1..], depth, height);
      ListingShows(p, children, collapsed, nodes[1..], depth, height);
      JoinListing(p, collapsed, nodes, depth, height, below, Listing(children, collapsed, nodes[1..], depth, height));
    }
  }

  lemma {:induction false} BelowPreOrder(p: Parents, children: map<Id, seq<Id>>, collapsed: set<Id>, node: Id,
                                         depth: nat, height: nat)
    requires ChildLists(p, children) && node in p && node !in collapsed
    requires height > 0 ==> Siblings(p, collapsed, children[node], depth + 1, height - 1)
    ensures PreOrder(p, Below(children, collapsed, node, depth, height))
    decreases height, 0
  {
    if height > 0 {
      ListingPreOrder(p, children, collapsed, children[node], depth + 1, height - 1);
    }
    PreOrderBelow(p, children, collapsed, node, depth, height);
  }

  lemma PreOrderBelow(p: Parents, children: map<Id, seq<Id>>, collapsed: set<Id>, node: Id, depth: nat, height: nat)
    requires node in children && node !in collapsed
    requires height > 0 ==> PreOrder(p, Listing(children, collapsed, children[node], depth + 1, height - 1))
    ensures PreOrder(p, Below(children, collapsed, node, depth, height))
  {
  }

  lemma JoinListing(p: Parents, collapsed: set<Id>, nodes: seq<Id>, depth: nat, height: nat,
                    below: seq<Row>, rest: seq<Row>)
    requires nodes != [] && Siblings(p, collapsed, nodes, depth, height)
    requires PreOrder(p, below) && PreOrder(p, rest)
    requires forall r :: r in below ==> depth < r.depth && r.spanId != nodes[0] && Under(p, r.spanId, nodes[0])
    requires Shows(p, collapsed, nodes[1..], rest) && (rest != [] ==> rest[0].depth == depth)
    ensures PreOrder(p, [Row(nodes[0], depth)] + below + rest)
  {
    HeadFirst(p, Row(nodes[0], depth), below);
    UpIsStored(p, nodes[0], depth);
    assert Up(p, nodes[0], 0) == Some(nodes[0]);
    var first := [Row(nodes[0], depth)] + below;
    forall x, y | x in first && y in rest
      ensures x.spanId != y.spanId && !Under(p, y.spanId, x.spanId)
    {
      assert y == Row(y.spanId, y.depth);
      assert Shown(p, collapsed, nodes[1..], y.spanId, y.depth);
      SiblingTreesApart(p, collapsed, nodes, depth, height, x.spanId, y.spanId);
    }
    OneAfterTheOther(p, depth, first, rest);
  }

  /** The rows of the children's listing lie strictly below their parent. */
  lemma BelowIsDeeper(p: Parents, children: map<Id, seq<Id>>, collapsed: set<Id>, node: Id, depth: nat, below: seq<Row>)
    requires ChildLists(p, children) && node in p && HasDepth(p, node, depth)
    requires Shows(p, collapsed, children[node], below)
    ensures forall r :: r in below ==> depth < r.depth && r.spanId != node && Under(p, r.spanId, node)
  {
    forall r | r in below
      ensures depth < r.depth && r.spanId != node && Under(p, r.spanId, node)
    {
      assert r == Row(r.spanId, r.depth);
      assert Shown(p, collapsed, children[node], r.spanId, r.depth);
      var c :| c in children[node] && Under(p, r.spanId, c);
      UnderChildren(p, r.spanId, node);
      assert HasDepth(p, c, depth + 1) by {
        assert forall n: nat :: Up(p, c, n + 1) == Up(p, node, n);
        assert Up(p, c, depth + 2) == Up(p, node, depth + 1);
      }
      UnderDeeper(p, r.spanId, c, depth + 1);
      var n: nat :| Up(p, r.spanId, n) == Some(c) && HasDepth(p, r.spanId, depth + 1 + n);
      DepthUnique(p, r.spanId, r.depth, depth + 1 + n);
      if r.spanId == node {
        DepthUnique(p, node, r.depth, depth);
      }
    }
  }

  // ---------------------------------------------------------------- the order of siblings

  /** `a` comes before `b` among the sorted spans. */
  ghost predicate Before(ids: seq<Id>, a: Id, b: Id)
  {
    exists m, n :: 0 <= m < n < |ids| && ids[m] == a && ids[n] == b
  }

  ghost predicate Sorted(ids: seq<Id>, nodes: seq<Id>)
  {
    forall i, j | 0 <= i < j < |nodes| :: Before(ids, nodes[i], nodes[j])
  }

  ghost predicate AllSorted(ids: seq<Id>, children: map<Id, seq<Id>>)
  {
    forall id :: id in children ==> Sorted(ids, children[id])
  }

  /** Both spans are roots, or both have the same stored parent. */
  ghost predicate Brothers(p: Parents, a: Id, b: Id)
  {
    a in p && b in p && if IsRoot(p, a) then IsRoot(p, b) else p[a] == p[b]
  }

  ghost predicate BrothersSorted(p: Parents, ids: seq<Id>, rows: seq<Row>)
  {
    forall i, j | 0 <= i < j < |rows| && Brothers(p, rows[i].spanId, rows[j].spanId) ::
      Before(ids, rows[i].spanId, rows[j].spanId)
  }

  lemma SortedWithOneMore(ids: seq<Id>, nodes: seq<Id>, id: Id)
    requires Sorted(ids, nodes) && forall n :: n in nodes ==> n in ids
    ensures Sorted(ids + [id], nodes) && Sorted(ids + [id], nodes + [id])
  {
    var more := ids + [id];
    forall i, j | 0 <= i < j < |nodes| + 1
      ensures Before(more, (nodes + [id])[i], (nodes + [id])[j])
    {
      if j < |nodes| {
        assert Before(ids, nodes[i], nodes[j]);
        var m, n :| 0 <= m < n < |ids| && ids[m] == nodes[i] && ids[n] == nodes[j];
        assert more[m] == nodes[i] && more[n] == nodes[j];
      } else {
        assert nodes[i] in nodes;
        var m :| 0 <= m < |ids| && ids[m] == nodes[i];
        assert more[m] == nodes[i] && more[|ids|] == id;
      }
    }
    forall i, j | 0 <= i < j < |nodes|
      ensures Before(more, nodes[i], nodes[j])
    {
      assert (nodes + [id])[i] == nodes[i] && (nodes + [id])[j] == nodes[j];
    }
  }

  lemma {:induction false} RootsSorted(p: Parents, ids: seq<Id>)
    ensures Sorted(ids, RootsAmong(p, ids)) && forall r :: r in RootsAmong(p, ids) ==> r in ids
    decreases |ids|
  {
    if ids != [] {
      var init := ids[..|ids| - 1];
      RootsSorted(p, init);
      SortedWithOneMore(init, RootsAmong(p, init), ids[|ids| - 1]);
      assert ids == init + [ids[|ids| - 1]];
    }
  }

  lemma {:induction false} ChildrenSorted(p: Parents, ids: seq<Id>, parent: Id)
    ensures Sorted(ids, ChildrenAmong(p, ids, parent)) && forall c :: c in ChildrenAmong(p, ids, parent) ==> c in ids
    decreases |ids|
  {
    if ids != [] {
      var init := ids[..|ids| - 1];
      ChildrenSorted(p, init, parent);
      SortedWithOneMore(init, ChildrenAmong(p, init, parent), ids[|ids| - 1]);
      assert ids == init + [ids[|ids| - 1]];
    }
  }

  lemma BrothersSameDepth(p: Parents, a: Id, b: Id, d: nat)
    requires Brothers(p, a, b) && HasDepth(p, a, d)
    ensures HasDepth(p, b, d)
  {
    assert Up(p, a, 0) == Some(a);
    if IsRoot(p, a) {
      RootsHaveNoDepth(p, a);
      RootsHaveNoDepth(p, b);
      DepthUnique(p, a, d, 0);
    } else {
      var parent := p[a].value;
      assert Up(p, a, 1) == Up(p, parent, 0);
      assert d != 0;
      assert Up(p, a, d) == Up(p, parent, d - 1) == Up(p, b, d);
      assert Up(p, a, d + 1) == Up(p, parent, d) == Up(p, b, d + 1);
    }
  }

  lemma ParentStillUnder(p: Parents, x: Id, a: Id)
    requires Under(p, x, a) && x != a
    ensures x in p && p[x].Some? && p[x].value in p && Under(p, p[x].value, a)
  {
    var n: nat :| Up(p, x, n) == Some(a);
    assert Up(p, x, n) == Up(p, p[x].value, n - 1);
    UpIsStored(p, p[x].value, n - 1);
  }

  /** A brother of one of the nodes, lying below a later node, is that later node. */
  lemma BrotherIsSibling(p: Parents, collapsed: set<Id>, nodes: seq<Id>, depth: nat, height: nat, x: Id, y: Id)
    requires nodes != [] && Siblings(p, collapsed, nodes, depth, height)
    requires Under(p, x, nodes[0]) && Brothers(p, x, y)
    requires exists n :: n in nodes[1..] && Under(p, y, n)
    ensures x == nodes[0] && y in nodes[1..]
  {
    var b :| b in nodes[1..] && Under(p, y, b);
    if x != nodes[0] {
      ParentStillUnder(p, x, nodes[0]);
      if y != b {
        ParentStillUnder(p, y, b);
        SiblingsApart(p, p[x].value, nodes[0], b, depth);
      } else {
        UnderDeeper(p, x, nodes[0], depth);
        var n: nat :| Up(p, x, n) == Some(nodes[0]) && HasDepth(p, x, depth + n);
        BrothersSameDepth(p, x, y, depth + n);
        DepthUnique(p, y, depth, depth + n);
      }
    } else {
      BrothersSameDepth(p, x, y, depth);
      UnderDeeper(p, y, b, depth);
      var n: nat :| Up(p, y, n) == Some(b) && HasDepth(p, y, depth + n);
      DepthUnique(p, y, depth, depth + n);
    }
  }

  lemma SortedJoin(p: Parents, ids: seq<Id>, xs: seq<Row>, ys: seq<Row>)
    requires BrothersSorted(p, ids, xs) && BrothersSorted(p, ids, ys)
    requires forall x, y | x in xs && y in ys && Brothers(p, x.spanId, y.spanId) :: Before(ids, x.spanId, y.spanId)
    ensures BrothersSorted(p, ids, xs + ys)
  {
    var rows := xs + ys;
    forall i, j | 0 <= i < j < |rows| && Brothers(p, rows[i].spanId, rows[j].spanId)
      ensures Before(ids, rows[i].spanId, rows[j].spanId)
    {
      if j < |xs| {
        assert rows[i] == xs[i] && rows[j] == xs[j];
      } else if i >= |xs| {
        assert rows[i] == ys[i - |xs|] && rows[j] == ys[j - |xs|];
      } else {
        assert rows[i] in xs && rows[j] in ys;
      }
    }
  }

  lemma {:induction false} ListingSorted(p: Parents, ids: seq<Id>, children: map<Id, seq<Id>>, collapsed: set<Id>,
                                         nodes: seq<Id>, depth: nat, height: nat)
    requires ChildLists(p, children) && Siblings(p, collapsed, nodes, depth, height)
    requires Sorted(ids, nodes) && AllSorted(ids, children)
    ensures BrothersSorted(p, ids, Listing(children, collapsed, nodes, depth, height))
    decreases height, |nodes|
  {
    if nodes != [] {
      var node := nodes[0];
      UpIsStored(p, node, depth);
      var below := Below(children, collapsed, node, depth, height);
      if node !in collapsed {
        ChildrenAreSiblings(p, children, collapsed, node, depth, height);
        BelowSorted(p, ids, children, collapsed, node, depth, height);
        BelowShows(p, children, collapsed, node, depth, height);
        BelowIsDeeper(p, children, collapsed, node, depth, below);
      }
      var others := nodes[1..];
      assert forall i, j | 0 <= i < j < |others| :: others[i] == nodes[i + 1] && others[j] == nodes[j + 1];
      ListingSorted(p, ids, children, collapsed, others, depth, height);
      ListingShows(p, children, collapsed, others, depth, height);
      JoinSorted(p, ids, collapsed, nodes, depth, height, below, Listing(children, collapsed, others, depth, height));
    }
  }

  lemma {:induction false} BelowSorted(p: Parents, ids: seq<Id>, children: map<Id, seq<Id>>, collapsed: set<Id>,
                                       node: Id, depth: nat, height: nat)
    requires ChildLists(p, children) && node in p && AllSorted(ids, children)
    requires height > 0 ==> Siblings(p, collapsed, children[node], depth + 1, height - 1)
    ensures BrothersSorted(p, ids, Below(children, collapsed, node, depth, height))
    decreases height, 0
  {
    if height > 0 && node !in collapsed {
      ListingSorted(p, ids, children, collapsed, children[node], depth + 1, height - 1);
    }
    SortedBelow(p, ids, children, collapsed, node, depth, height);
  }

  lemma SortedBelow(p: Parents, ids: seq<Id>, children: map<Id, seq<Id>>, collapsed: set<Id>,
                    node: Id, depth: nat, height: nat)
    requires node in children
    requires height > 0 && node !in collapsed ==>
               BrothersSorted(p, ids, Listing(children, collapsed, children[node], depth + 1, height - 1))
    ensures BrothersSorted(p, ids, Below(children, collapsed, node, depth, height))
  {
  }

  lemma JoinSorted(p: Parents, ids: seq<Id>, collapsed: set<Id>, nodes: seq<Id>, depth: nat, height: nat,
                   below: seq<Row>, rest: seq<Row>)
    requires nodes != [] && Siblings(p, collapsed, nodes, depth, height) && Sorted(ids, nodes)
    requires BrothersSorted(p, ids, below) && BrothersSorted(p, ids, rest)
    requires forall r :: r in below ==> depth < r.depth && r.spanId != nodes[0] && Under(p, r.spanId, nodes[0])
    requires forall r :: r in below ==> HasDepth(p, r.spanId, r.depth)
    requires Shows(p, collapsed, nodes[1..], rest)
    ensures BrothersSorted(p, ids, [Row(nodes[0], depth)] + below + rest)
  {
    var head := [Row(nodes[0], depth)];
    UpIsStored(p, nodes[0], depth);
    assert Up(p, nodes[0], 0) == Some(nodes[0]);
    forall y | y in below
      ensures !Brothers(p, nodes[0], y.spanId)
    {
      if Brothers(p, nodes[0], y.spanId) {
        BrothersSameDepth(p, nodes[0], y.spanId, depth);
        DepthUnique(p, y.spanId, depth, y.depth);
      }
    }
    SortedJoin(p, ids, head, below);
    var first := head + below;
    forall x, y | x in first && y in rest && Brothers(p, x.spanId, y.spanId)
      ensures Before(ids, x.spanId, y.spanId)
    {
      assert y == Row(y.spanId, y.depth);
      assert Shown(p, collapsed, nodes[1..], y.spanId, y.depth);
      BrotherIsSibling(p, collapsed, nodes, depth, height, x.spanId, y.spanId);
      var k :| 1 <= k < |nodes| && nodes[k] == y.spanId;
    }
    SortedJoin(p, ids, first, rest);
  }

  // ---------------------------------------------------------------- the whole view

  /** The view shows each span with a finite chain of ancestors, none of them collapsed, once, in
      one row as deep as it has stored ancestors; subtrees are contiguous and siblings sorted. */
  ghost predicate IsView(p: Parents, ids: seq<Id>, collapsed: set<Id>, rows: seq<Row>)
  {
    && (forall id, d: nat {:trigger Row(id, d)} :: Row(id, d) in rows <==>
       HasDepth(p, id, d) && !Hidden(p, collapsed, id))
    && PreOrder(p, rows)
    && BrothersSorted(p, ids, rows)
  }

  lemma RootsHaveNoDepth(p: Parents, id: Id)
    ensures IsRoot(p, id) <==> HasDepth(p, id, 0)
  {
    if id in p && p[id].Some? {
      assert Up(p, id, 1) == Up(p, p[id].value, 0);
    }
  }

  /** A span with a depth lies under a root. */
  lemma TopIsRoot(p: Parents, id: Id, d: nat)
    requires HasDepth(p, id, d)
    ensures exists r :: IsRoot(p, r) && Under(p, id, r)
  {
    var r := Up(p, id, d).value;
    UpCompose(p, id, d, 0);
    UpCompose(p, id, d, 1);
    RootsHaveNoDepth(p, r);
    assert Under(p, id, r);
  }

  lemma RootsAreSiblings(p: Parents, ids: seq<Id>, collapsed: set<Id>)
    requires forall id :: id in ids <==> id in p
    requires forall i, j :: 0 <= i < j < |ids| ==> ids[i] != ids[j]
    ensures Siblings(p, collapsed, RootsAmong(p, ids), 0, |p|)
    ensures forall r :: r in RootsAmong(p, ids) <==> IsRoot(p, r)
  {
    RootsMember(p, ids);
    var roots := RootsAmong(p, ids);
    forall i | 0 <= i < |roots|
      ensures HasDepth(p, roots[i], 0) && !Hidden(p, collapsed, roots[i])
    {
      assert roots[i] in roots;
      RootsHaveNoDepth(p, roots[i]);
      if Hidden(p, collapsed, roots[i]) {
        var c :| c in collapsed && c != roots[i] && Under(p, roots[i], c);
        ParentStillUnder(p, roots[i], c);
      }
    }
  }

  lemma ArrangedLists(p: Parents, ids: seq<Id>, t: Tree)
    requires Arranged(p, ids, t) && forall id :: id in ids <==> id in p
    requires forall i, j :: 0 <= i < j < |ids| ==> ids[i] != ids[j]
    ensures ChildLists(p, t.children)
  {
    forall id | id in p
      ensures && (forall c :: c in t.children[id] <==> c in p && p[c] == Some(id))
              && (forall i, j :: 0 <= i < j < |t.children[id]| ==> t.children[id][i] != t.children[id][j])
    {
      ChildrenMember(p, ids, id);
    }
  }

  /** Listing the arranged tree from its roots gives the view. */
  lemma ListingIsView(p: Parents, ids: seq<Id>, t: Tree, collapsed: set<Id>)
    requires Arranged(p, ids, t) && forall id :: id in ids <==> id in p
    requires ChildLists(p, t.children) && Siblings(p, collapsed, t.roots, 0, |p|)
    requires forall r :: r in t.roots <==> IsRoot(p, r)
    ensures IsView(p, ids, collapsed, Listing(t.children, collapsed, t.roots, 0, |p|))
  {
    RootsSorted(p, ids);
    forall id | id in t.children
      ensures Sorted(ids, t.children[id])
    {
      ChildrenSorted(p, ids, id);
    }
    ListingShows(p, t.children, collapsed, t.roots, 0, |p|);
    ListingPreOrder(p, t.children, collapsed, t.roots, 0, |p|);
    ListingSorted(p, ids, t.children, collapsed, t.roots, 0, |p|);
    var rows := Listing(t.children, collapsed, t.roots, 0, |p|);
    forall id, d: nat {:trigger Row(id, d)}
      ensures Row(id, d) in rows <==> HasDepth(p, id, d) && !Hidden(p, collapsed, id)
    {
      if HasDepth(p, id, d) {
        TopIsRoot(p, id, d);
      }
    }
  }

  lemma {:induction false} DepthFromEnd(p: Parents, id: Id, n: nat)
    requires id in p && Up(p, id, n) == None
    ensures exists d: nat :: HasDepth(p, id, d)
    decreases n
  {
    if n == 0 {
    } else if Up(p, id, n - 1).Some? {
      assert HasDepth(p, id, n - 1);
    } else {
      DepthFromEnd(p, id, n - 1);
    }
  }

  /** With nothing collapsed, a span is missing from the view exactly when its ancestor chain runs
      into a cycle; with acyclic parents every span is in it. */
  lemma ViewIsComplete(p: Parents, ids: seq<Id>, rows: seq<Row>)
    requires IsView(p, ids, {}, rows)
    ensures forall id :: id in p && WalkEndsFrom(p, id) <==> exists d: nat :: Row(id, d) in rows
    ensures Acyclic(p) <==> forall id :: id in p ==> exists d: nat :: Row(id, d) in rows
  {
    forall id
      ensures id in p && WalkEndsFrom(p, id) <==> exists d: nat :: Row(id, d) in rows
    {
      if id in p && WalkEndsFrom(p, id) {
        var n: nat :| Up(p, id, n) == None;
        DepthFromEnd(p, id, n);
        var d: nat :| HasDepth(p, id, d);
        assert Row(id, d) in rows;
      }
      if d: nat :| Row(id, d) in rows {
        assert HasDepth(p, id, d);
        UpIsStored(p, id, d);
      }
    }
    WalkEndsIffAcyclic(p);
    forall id | id !in p
      ensures WalkEndsFrom(p, id)
    {
      assert Up(p, id, 0) == None;
    }
  }

  lemma ArrangedIsView(spans: seq<Span>, p: Parents, t: Tree, collapsed: set<Id>)
    requires p == LinksOf(spans) && Arranged(p, IdsOf(spans), t)
    ensures ChildLists(p, t.children) && Siblings(p, collapsed, t.roots, 0, |p|)
    ensures IsView(p, IdsOf(spans), collapsed, Listing(t.children, collapsed, t.roots, 0, |p|))
  {
    IdsAndLinks(spans);
    ArrangedLists(p, IdsOf(spans), t);
    RootsAreSiblings(p, IdsOf(spans), collapsed);
    ListingIsView(p, IdsOf(spans), t, collapsed);
  }

  /** The rows of the nodes from `i` on are missing from `all`. */
  ghost predicate StillToCome(children: map<Id, seq<Id>>, collapsed: set<Id>, nodes: seq<Id>, i: nat, depth: nat,
                              height: nat, list: seq<Row>, all: seq<Row>)
    requires i <= |nodes|
  {
    list + Listing(children, collapsed, nodes[i..], depth, height) == all
  }

  lemma OneNodeDone(children: map<Id, seq<Id>>, collapsed: set<Id>, nodes: seq<Id>, i: nat, depth: nat, height: nat,
                    before: seq<Row>, after: seq<Row>, all: seq<Row>)
    requires i < |nodes| && StillToCome(children, collapsed, nodes, i, depth, height, before, all)
    requires after == before + [Row(nodes[i], depth)] + Below(children, collapsed, nodes[i], depth, height)
    ensures StillToCome(children, collapsed, nodes, i + 1, depth, height, after, all)
  {
    var rest := Listing(children, collapsed, nodes[i + 1..], depth, height);
    assert nodes[i..][1..] == nodes[i + 1..];
    AppendThree(before, [Row(nodes[i], depth)], Below(children, collapsed, nodes[i], depth, height), rest);
  }

  lemma AppendThree(a: seq<Row>, b: seq<Row>, c: seq<Row>, d: seq<Row>)
    ensures a + (b + c + d) == a + b + c + d
  {
  }

  /** The state of the page that the trace view uses, and the list being filled. */
  class View {
    var collapsed: set<Id>
    var list: seq<Row>

    constructor (collapsed: set<Id>)
      ensures this.collapsed == collapsed && list == []
    {
      this.collapsed := collapsed;
      list := [];
    }

    /** `flattenTree`: appends the rows of the nodes to the shared list while recursing. */
    method FlattenTree(children: map<Id, seq<Id>>, nodes: seq<Id>, depth: nat, ghost p: Parents, ghost height: nat)
      requires ChildLists(p, children) && Siblings(p, collapsed, nodes, depth, height)
      modifies `list
      ensures list == old(list) + Listing(children, collapsed, nodes, depth, height)
      decreases height, 2 * |nodes|
    {
      ghost var all := list + Listing(children, collapsed, nodes, depth, height);
      assert nodes[0..] == nodes;
      for i := 0 to |nodes|
        invariant StillToCome(children, collapsed, nodes, i, depth, height, list, all)
      {
        ghost var before := list;
        FlattenNode(children, nodes[i], depth, p, height);
        OneNodeDone(children, collapsed, nodes, i, depth, height, before, list, all);
      }
    }

    /** The body of its loop: the row of the node, and those of its children unless it is collapsed. */
    method FlattenNode(children: map<Id, seq<Id>>, node: Id, depth: nat, ghost p: Parents, ghost height: nat)
      requires ChildLists(p, children) && |p| <= depth + height + 1
      requires HasDepth(p, node, depth) && !Hidden(p, collapsed, node)
      modifies `list
      ensures list == old(list) + [Row(node, depth)] + Below(children, collapsed, node, depth, height)
      decreases height, 1
    {
      UpIsStored(p, node, depth);
      list := list + [Row(node, depth)];
      if node !in collapsed {
        ChildrenAreSiblings(p, children, collapsed, node, depth, height);
        FlattenTree(children, children[node], depth + 1, p, if height == 0 then 0 else height - 1);
      }
    }

    /** The rows the trace page renders for the spans of a trace. */
    method Render(spans: seq<Span>)
      modifies `list
      ensures IsView(LinksOf(spans), IdsOf(spans), collapsed, list)
    {
      var t, p := BuildTraceTree(spans);
      ArrangedIsView(spans, p, t, collapsed);
      list := [];
      FlattenTree(t.children, t.roots, 0, p, |p|);
      assert list == Listing(t.children, collapsed, t.roots, 0, |p|);
    }
  }
}
