/** Time windows and the smallest window covering several. */
module Hulls {
  import opened Finite

  /** A start and an end. */
  type Window = (int, int)

  /** `[lo, hi]` is the smallest window that covers all the given ones. */
  ghost predicate IsHull(ws: set<Window>, lo: int, hi: int)
  {
    && (forall w :: w in ws ==> lo <= w.0 && w.1 <= hi)
    && (exists w :: w in ws && w.0 == lo)
    && (exists w :: w in ws && w.1 == hi)
  }

  lemma HullOfOne(w: Window)
    ensures IsHull({w}, w.0, w.1)
  {
    assert w in {w};
  }

  lemma HullOfUnion(a: set<Window>, lo: int, hi: int, b: set<Window>, lo': int, hi': int)
    requires IsHull(a, lo, hi) && IsHull(b, lo', hi')
    ensures IsHull(a + b, Min(lo, lo'), Max(hi, hi'))
  {
    var first :| first in (if lo' < lo then b else a) && first.0 == Min(lo, lo');
    var last :| last in (if hi < hi' then b else a) && last.1 == Max(hi, hi');
    assert first in a + b && last in a + b;
  }

  /** One window joins, and may take the place of windows it covers. */
  lemma HullReplaced(before: set<Window>, lo: int, hi: int, own: Window, after: set<Window>)
    requires IsHull(before, lo, hi) && own in after
    requires forall w :: w in after ==> w in before || w == own
    requires forall w :: w in before ==> w in after || (own.0 <= w.0 && w.1 <= own.1)
    ensures IsHull(after, Min(lo, own.0), Max(hi, own.1))
  {
    var first :| first in before && first.0 == lo;
    var last :| last in before && last.1 == hi;
    assert (if own.0 <= lo then own else first) in after;
    assert (if hi <= own.1 then own else last) in after;
  }
}
