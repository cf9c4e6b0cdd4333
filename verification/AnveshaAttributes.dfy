/** The nested attributes of the Anvesha server: dotted keys written one after the other into nested
    dictionaries, and looked up again.

    A nested dictionary is represented by what lies at each path from the root: a dictionary or a
    plain value. Values are taken as atomic, so no written value is itself a dictionary. */
module AnveshaAttributes {
  import opened Wrappers
  import Text

  type Path = seq<string>

  datatype Cell<V> = Branch | Leaf(value: V)

  type Cells<V> = map<Path, Cell<V>>

  // ---------------------------------------------------------------- keys

  /** `key.split(".")` */
  function Split(key: string): (parts: Path)
    ensures parts != []
  {
    if key == "" then [""]
    else
      var rest := Split(key[1..]);
      if key[0] == '.' then [""] + rest else [[key[0]] + rest[0]] + rest[1..]
  }

  /** The stripped parts that are not empty. */
  function NonEmpty(parts: Path): Path
  {
    if parts == [] then []
    else
      var part := Text.Strip(parts[0]);
      (if part == "" then [] else [part]) + NonEmpty(parts[1..])
  }

  function PathOf(key: string): Path
  {
    NonEmpty(Split(key))
  }

  // ---------------------------------------------------------------- writes and what they amount to

  type Writes<V> = seq<(Path, V)>

  predicate Comparable(p: Path, q: Path)
  {
    p <= q || q <= p
  }

  /** The last write to the path itself, to a dictionary it lies in, or to something below it. */
  function LastComparable<V>(writes: Writes<V>, p: Path): Option<(Path, V)>
  {
    if writes == [] then None
    else if Comparable(writes[|writes| - 1].0, p) then Some(writes[|writes| - 1])
    else LastComparable(writes[..|writes| - 1], p)
  }

  /** What lies at a path after the writes: the last comparable write decides. */
  function At<V>(writes: Writes<V>, p: Path): Option<Cell<V>>
  {
    var last := LastComparable(writes, p);
    if p == [] then Some(Branch)
    else if last.None? then None
    else if last.value.0 == p then Some(Leaf(last.value.1))
    else if p <= last.value.0 then Some(Branch)
    else None
  }

  ghost predicate Matches<V>(cells: Cells<V>, writes: Writes<V>)
  {
    forall p :: At(writes, p) == if p in cells then Some(cells[p]) else None
  }

  /** The pairs that are written at all, with their paths. */
  function WritesOf<V>(pairs: seq<(string, Option<V>)>): Writes<V>
  {
    if pairs == [] then []
    else
      var before, last := WritesOf(pairs[..|pairs| - 1]), pairs[|pairs| - 1];
      if last.1.None? || PathOf(last.0) == [] then before else before + [(PathOf(last.0), last.1.value)]
  }

  // ---------------------------------------------------------------- one write

  predicate OnTheWay(q: Path, p: Path)
  {
    q <= p
  }

  /** The nested dictionary once every path down to `p` has been made a dictionary. */
  ghost predicate OpenedTo<V>(cells: Cells<V>, after: Cells<V>, p: Path)
  {
    && (forall q :: q in after <==> q in cells || OnTheWay(q, p))
    && (forall q :: q in after ==> after[q] == if OnTheWay(q, p) then Branch else cells[q])
  }

  /** The nested dictionary once the value has replaced whatever lay at `p`. */
  ghost predicate WrittenTo<V>(cells: Cells<V>, after: Cells<V>, p: Path, v: V)
  {
    && (forall q :: q in after <==> q == p || ((q in cells || OnTheWay(q, p)) && !OnTheWay(p, q)))
    && (forall q :: q in after ==> after[q] == if q == p then Leaf(v) else if OnTheWay(q, p) then Branch else cells[q])
  }

  /** Nothing lies below a plain value, and dictionaries hold what lies below them. */
  lemma MatchesTree<V>(cells: Cells<V>, writes: Writes<V>, q: Path, part: string)
    requires Matches(cells, writes) && q + [part] in cells
    ensures q in cells && cells[q] == Branch
  {
    var child := q + [part];
    assert At(writes, child) == Some(cells[child]);
    AtParent(writes, q, part);
  }

  lemma AtParent<V>(writes: Writes<V>, q: Path, part: string)
    requires At(writes, q + [part]).Some?
    ensures At(writes, q) == Some(Branch)
  {
    var child := q + [part];
    var last := LastComparable(writes, child).value;
    assert child <= last.0;
    LaterComparable(writes, q, part);
  }

  /** The last write below a path is also the last comparable one of its parent, or another path
      below the parent was written later still. */
  lemma {:induction false} LaterComparable<V>(writes: Writes<V>, q: Path, part: string)
    requires LastComparable(writes, q + [part]).Some? && q + [part] <= LastComparable(writes, q + [part]).value.0
    ensures LastComparable(writes, q).Some? && q < LastComparable(writes, q).value.0
    decreases |writes|
  {
    var child, last := q + [part], writes[|writes| - 1].0;
    if Comparable(last, child) {
      assert q <= child <= last;
    } else if Comparable(last, q) {
      assert q <= child;
      assert last <= q ==> last <= child;
    } else {
      LaterComparable(writes[..|writes| - 1], q, part);
    }
  }

  lemma PrefixesOfLonger(p: Path, part: string)
    ensures forall q :: OnTheWay(q, p + [part]) <==> OnTheWay(q, p) || q == p + [part]
  {
    forall q
      ensures OnTheWay(q, p + [part]) <==> OnTheWay(q, p) || q == p + [part]
    {
      if q <= p + [part] && |q| <= |p| {
        assert q == (p + [part])[..|q|] == p[..|q|];
      }
      if q <= p {
        assert q == p[..|q|] == (p + [part])[..|q|];
      }
    }
  }

  /** One more write keeps every path at what its last comparable write makes of it. */
  lemma WriteMatches<V>(cells: Cells<V>, writes: Writes<V>, after: Cells<V>, p: Path, v: V)
    requires Matches(cells, writes) && p != [] && WrittenTo(cells, after, p, v)
    ensures Matches(after, writes + [(p, v)])
  {
    var more := writes + [(p, v)];
    assert more[..|writes|] == writes;
    forall q
      ensures At(more, q) == if q in after then Some(after[q]) else None
    {
      assert At(writes, q) == if q in cells then Some(cells[q]) else None;
      assert [] <= p;
    }
  }

  class Nested<V> {
    var cells: Cells<V>

    constructor ()
      ensures Matches(cells, [])
    {
      cells := map[[] := Branch];
    }

    /** Writes a value under a non-empty path: the cursor makes a dictionary of everything on the way
        that is not one yet, and the last part is assigned. */
    method Write(parts: Path, v: V, ghost writes: Writes<V>)
      requires parts != [] && Matches(cells, writes)
      modifies this
      ensures Matches(cells, writes + [(parts, v)])
    {
      var cursor: Path := [];
      for i := 0 to |parts| - 1
        invariant cursor == parts[..i]
        invariant OpenedTo(old(cells), cells, cursor)
      {
        var child := cursor + [parts[i]];
        assert child == parts[..i + 1];
        PrefixesOfLonger(cursor, parts[i]);
        if child !in cells || cells[child] != Branch {
          cells := cells[child := Branch];
        }
        cursor := child;
      }
      var last := cursor + [parts[|parts| - 1]];
      assert last == parts;
      PrefixesOfLonger(cursor, parts[|parts| - 1]);
      cells := (map q | q in cells && !(last <= q) :: cells[q])[last := Leaf(v)];
      WriteMatches(old(cells), writes, cells, parts, v);
    }

    /** `unflatten`, into an empty dictionary. */
    method Unflatten(pairs: seq<(string, Option<V>)>)
      requires Matches(cells, [])
      modifies this
      ensures Matches(cells, WritesOf(pairs))
    {
      for i := 0 to |pairs|
        invariant Matches(cells, WritesOf(pairs[..i]))
      {
        assert pairs[..i + 1][..i] == pairs[..i];
        if pairs[i].1.None? {
          continue;
        }
        var parts := PathOf(pairs[i].0);
        if parts == [] {
          continue;
        }
        Write(parts, pairs[i].1.value, WritesOf(pairs[..i]));
      }
      assert pairs[..|pairs|] == pairs;
    }

    /** `get_attribute_value`: follows the parts of the key as long as there are dictionaries. */
    method GetAttributeValue(key: string, ghost writes: Writes<V>) returns (found: Option<Cell<V>>)
      requires Matches(cells, writes)
      ensures found == At(writes, Split(key))
    {
      var path := Split(key);
      var cursor: Path := [];
      for i := 0 to |path|
        invariant cursor == path[..i] && cursor in cells
      {
        var child := cursor + [path[i]];
        assert child == path[..i + 1];
        if cells[cursor] != Branch || child !in cells {
          if child in cells {
            MatchesTree(cells, writes, cursor, path[i]);
          }
          AtBelow(writes, child, path);
          return None;
        }
        cursor := child;
      }
      assert path[..|path|] == path;
      found := Some(cells[path]);
    }
  }

  /** Where nothing lies, nothing lies below. */
  lemma {:induction false} AtBelow<V>(writes: Writes<V>, q: Path, p: Path)
    requires q <= p && At(writes, q) == None
    ensures At(writes, p) == None
    decreases |p|
  {
    if q != p {
      var init, part := p[..|p| - 1], p[|p| - 1];
      AtBelow(writes, q, init);
      assert p == init + [part];
      if At(writes, p).Some? {
        AtParent(writes, init, part);
      }
    }
  }

  // ---------------------------------------------------------------- last writer wins

  /** The `i`-th write is the last one to a path comparable with `p`. */
  ghost predicate IsLastComparable<V>(writes: Writes<V>, p: Path, i: int)
  {
    0 <= i < |writes| && Comparable(writes[i].0, p) && forall j :: i < j < |writes| ==> !Comparable(writes[j].0, p)
  }

  lemma {:induction false} LastComparableIs<V>(writes: Writes<V>, p: Path)
    ensures LastComparable(writes, p).Some? ==>
            exists i :: IsLastComparable(writes, p, i) && writes[i] == LastComparable(writes, p).value
    ensures forall i :: IsLastComparable(writes, p, i) ==> LastComparable(writes, p) == Some(writes[i])
    decreases |writes|
  {
    if writes != [] {
      var init, n := writes[..|writes| - 1], |writes| - 1;
      LastComparableIs(init, p);
      if Comparable(writes[n].0, p) {
        assert IsLastComparable(writes, p, n);
      } else {
        if LastComparable(init, p).Some? {
          var i :| IsLastComparable(init, p, i) && init[i] == LastComparable(init, p).value;
          assert IsLastComparable(writes, p, i);
        }
        forall i | IsLastComparable(writes, p, i)
          ensures IsLastComparable(init, p, i)
        {
        }
      }
    }
  }

  /** Looking up `p` finds a value exactly when the last write to any prefix or extension of `p` wrote
      that value to `p` itself; a dictionary exactly when that write went below `p`; and nothing
      exactly when it went to a proper prefix of `p` or there was none. */
  lemma LastWriterWins<V>(writes: Writes<V>, p: Path, v: V)
    requires p != []
    ensures At(writes, p) == Some(Leaf(v)) <==> exists i :: IsLastComparable(writes, p, i) && writes[i] == (p, v)
    ensures At(writes, p) == Some(Branch) <==> exists i :: IsLastComparable(writes, p, i) && p < writes[i].0
    ensures At(writes, p) == None <==> forall i :: IsLastComparable(writes, p, i) ==> writes[i].0 < p
  {
    LastComparableIs(writes, p);
  }

  /** The parts of a key in normal form are looked up as they were written. */
  lemma {:induction false} NormalParts(parts: Path)
    requires forall k :: 0 <= k < |parts| ==> parts[k] != "" && Text.Trimmed(parts[k])
    ensures NonEmpty(parts) == parts
    decreases |parts|
  {
    if parts != [] {
      Text.StripTrimmed(parts[0]);
      NormalParts(parts[1..]);
    }
  }

  /** A key whose parts are all written as they are stored: none empty, none with space around it. */
  ghost predicate Clean(parts: Path)
  {
    forall k :: 0 <= k < |parts| ==> parts[k] != "" && Text.Trimmed(parts[k])
  }

  lemma {:induction false} NonEmptyIsClean(parts: Path)
    ensures Clean(NonEmpty(parts))
    decreases |parts|
  {
    if parts != [] {
      Text.StripIsTrimmed(parts[0]);
      NonEmptyIsClean(parts[1..]);
    }
  }

  lemma {:induction false} WritesAreClean<V>(pairs: seq<(string, Option<V>)>)
    ensures forall w :: w in WritesOf(pairs) ==> Clean(w.0)
    decreases |pairs|
  {
    if pairs != [] {
      WritesAreClean(pairs[..|pairs| - 1]);
      NonEmptyIsClean(Split(pairs[|pairs| - 1].0));
    }
  }

  /** Whatever has been written, a key with an unclean part finds nothing: keys are cleaned when they
      are written, not when they are looked up. */
  lemma UncleanKeyFindsNothing<V>(pairs: seq<(string, Option<V>)>, key: string)
    requires !Clean(Split(key))
    ensures At(WritesOf(pairs), Split(key)) == None
  {
    var writes, p := WritesOf(pairs), Split(key);
    WritesAreClean(pairs);
    forall w | w in writes
      ensures !(p <= w.0)
    {
      if p <= w.0 {
        PrefixIsClean(p, w.0);
      }
    }
    LastComparableIs(writes, p);
    assert forall i :: IsLastComparable(writes, p, i) ==> writes[i] in writes;
  }

  lemma PrefixIsClean(p: Path, q: Path)
    requires p <= q && Clean(q)
    ensures Clean(p)
  {
    assert forall k :: 0 <= k < |p| ==> p[k] == q[k];
  }

  /** After any history, a key just written is found again under the same key exactly when it is clean. */
  lemma FoundExactlyWhenClean<V>(pairs: seq<(string, Option<V>)>, key: string, v: V)
    ensures At(WritesOf(pairs + [(key, Some(v))]), Split(key)) == Some(Leaf(v)) <==> Clean(Split(key))
  {
    var more := pairs + [(key, Some(v))];
    assert more[..|more| - 1] == pairs;
    if Clean(Split(key)) {
      NormalParts(Split(key));
    } else {
      UncleanKeyFindsNothing(more, key);
    }
  }

  lemma {:induction false} SplitFirst(a: string, b: string)
    requires '.' !in a
    ensures Split(a) == [a] && Split(a + "." + b) == [a] + Split(b)
    decreases |a|
  {
    if a == "" {
      assert ("." + b)[1..] == b && a + "." + b == "." + b;
    } else {
      SplitFirst(a[1..], b);
      assert (a + "." + b)[1..] == a[1..] + "." + b;
      assert a == [a[0]] + a[1..];
    }
  }

  lemma DoubledDot(a: string, b: string)
    requires '.' !in a && '.' !in b && a != "" && b != "" && Text.Trimmed(a) && Text.Trimmed(b)
    ensures var key := a + "." + ("" + "." + b);
            Split(key) == [a, "", b] && Split(a + "." + b) == [a, b] && PathOf(key) == [a, b]
  {
    SplitFirst(a, "" + "." + b);
    SplitFirst("", b);
    SplitFirst(a, b);
    SplitFirst(b, "");
    assert [a] + ([""] + [b]) == [a, "", b];
    NormalParts([b]);
    Text.StripTrimmed(a);
    assert [a, "", b][1..] == ["", b] && ["", b][1..] == [b];
    assert NonEmpty(["", b]) == [b];
  }

  /** For instance a doubled dot: the value is found under the cleaned key only. */
  lemma LookupDoesNotClean<V>(pairs: seq<(string, Option<V>)>, a: string, b: string, v: V)
    requires '.' !in a && '.' !in b && a != "" && b != "" && Text.Trimmed(a) && Text.Trimmed(b)
    ensures var key := a + "." + ("" + "." + b);
            var writes := WritesOf(pairs + [(key, Some(v))]);
            At(writes, Split(key)) == None && At(writes, Split(a + "." + b)) == Some(Leaf(v))
  {
    var key := a + "." + ("" + "." + b);
    var more := pairs + [(key, Some(v))];
    DoubledDot(a, b);
    assert more[..|more| - 1] == pairs;
    assert [a, "", b][1] == "";
    UncleanKeyFindsNothing(more, key);
  }

  /** A part is written without the space around it, and not at all if it is nothing but space. */
  lemma PartsCleaned(left: string, s: string, right: string, rest: Path)
    requires Text.AllSpace(left) && Text.AllSpace(right) && Text.Trimmed(s)
    ensures NonEmpty([left + s + right] + rest) == (if s == "" then [] else [s]) + NonEmpty(rest)
  {
    Text.StripBetween(left, s, right);
    assert ([left + s + right] + rest)[1..] == rest;
  }

  /** Whatever its parts, a key just written is found under its cleaned parts. */
  lemma FoundUnderCleaned<V>(pairs: seq<(string, Option<V>)>, key: string, v: V)
    requires PathOf(key) != []
    ensures At(WritesOf(pairs + [(key, Some(v))]), PathOf(key)) == Some(Leaf(v))
  {
    var more := pairs + [(key, Some(v))];
    assert more[..|more| - 1] == pairs;
  }
}
