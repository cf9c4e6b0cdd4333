/** Facts about finite sets and sequences that several parts need. */
module Finite {
  function Min(a: int, b: int): int { if b < a then b else a }
  function Max(a: int, b: int): int { if a < b then b else a }

  lemma {:induction false} SubsetSize<T>(s: set<T>, t: set<T>)
    requires s <= t
    ensures |s| <= |t| && (|s| == |t| ==> s == t)
    decreases t
  {
    if t != {} {
      var x :| x in t;
      if x in s {
        SubsetSize(s - {x}, t - {x});
        assert s == s - {x} + {x} && t == t - {x} + {x};
      } else {
        SubsetSize(s, t - {x});
      }
    }
  }

  ghost predicate NoRepeats<T>(xs: seq<T>)
  {
    forall i, j :: 0 <= i < j < |xs| ==> xs[i] != xs[j]
  }

  function ElementsOf<T>(xs: seq<T>): set<T>
  {
    set x | x in xs
  }

  /** A sequence is as long as its elements are many exactly when nothing is in it twice. */
  lemma {:induction false} NoRepeatsSize<T>(xs: seq<T>)
    ensures |ElementsOf(xs)| <= |xs|
    ensures NoRepeats(xs) <==> |ElementsOf(xs)| == |xs|
    decreases |xs|
  {
    if xs == [] {
      assert ElementsOf(xs) == {};
    } else {
      var init, last := xs[..|xs| - 1], xs[|xs| - 1];
      assert xs == init + [last];
      NoRepeatsSize(init);
      assert ElementsOf(xs) == ElementsOf(init) + {last};
      assert NoRepeats(xs) <==> NoRepeats(init) && last !in ElementsOf(init);
    }
  }

  lemma ElementsOfMore<T>(xs: seq<T>, x: T)
    ensures ElementsOf(xs + [x]) == ElementsOf(xs) + {x}
    ensures NoRepeats(xs) && x !in ElementsOf(xs) ==> NoRepeats(xs + [x])
  {
  }
}
