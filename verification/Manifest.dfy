/** Bringing the built-in price models in line with the cost manifest at start-up. */
module Manifest {
  import opened Text
  import opened Wrappers

  /** A kind of token: its type and whether it counts as prompt. */
  datatype Kind = Kind(tokenType: string, isPrompt: bool)

  /** A stored token price; a model row keeps its prices in a list. */
  datatype Price = Price(kind: Kind, rate: real)

  datatype Model = Model(name: string, provider: string, pattern: string, builtIn: bool, deleted: bool,
                         prices: seq<Price>)

  /** A price in the manifest, which may lack a rate. */
  datatype Quote = Quote(kind: Kind, baseRate: Option<real>)

  /** A model in the manifest, as written there. */
  datatype Entry = Entry(name: string, pattern: string, provider: string, quotes: seq<Quote>)

  type RowId = nat
  type Rows = map<RowId, Model>

  // ---------------------------------------------------------------- token prices

  /** The quotes that carry a rate: neither missing nor zero. */
  function Rated(quotes: seq<Quote>): seq<Price>
  {
    if quotes == [] then []
    else
      var before, q := Rated(quotes[..|quotes| - 1]), quotes[|quotes| - 1];
      if q.baseRate.None? || q.baseRate.value == 0.0 then before else before + [Price(q.kind, q.baseRate.value)]
  }

  predicate DistinctKinds(prices: seq<Price>)
  {
    forall i, j | 0 <= i < j < |prices| :: prices[i].kind != prices[j].kind
  }

  function KindsOf(prices: seq<Price>): set<Kind>
  {
    set x | x in prices :: x.kind
  }

  /** The stored price of one kind gets a new rate. */
  function Repriced(prices: seq<Price>, kind: Kind, rate: real): seq<Price>
  {
    seq(|prices|, i requires 0 <= i < |prices| => if prices[i].kind == kind then Price(kind, rate) else prices[i])
  }

  /** The prices that are not left over. */
  function Kept(prices: seq<Price>, left: set<Kind>): seq<Price>
  {
    if prices == [] then []
    else
      var before, x := Kept(prices[..|prices| - 1], left), prices[|prices| - 1];
      if x.kind in left then before else before + [x]
  }

  /** The prices and the kinds not met yet, after the given rated quotes. */
  function Synced(stored: seq<Price>, rated: seq<Price>): (seq<Price>, set<Kind>)
  {
    if rated == [] then (stored, KindsOf(stored))
    else
      var (prices, left) := Synced(stored, rated[..|rated| - 1]);
      var x := rated[|rated| - 1];
      if x.kind in left then (Repriced(prices, x.kind, x.rate), left - {x.kind}) else (prices + [x], left)
  }

  function SyncedPrices(stored: seq<Price>, quotes: seq<Quote>): seq<Price>
  {
    var (prices, left) := Synced(stored, Rated(quotes));
    Kept(prices, left)
  }

  /** The loop over the quotes of one entry, and the removal of the prices it did not meet. */
  method SyncPrices(stored: seq<Price>, quotes: seq<Quote>) returns (prices: seq<Price>)
    ensures prices == SyncedPrices(stored, quotes)
  {
    prices := stored;
    var existing := KindsOf(stored);
    for i := 0 to |quotes|
      invariant (prices, existing) == Synced(stored, Rated(quotes[..i]))
    {
      var q := quotes[i];
      assert quotes[..i + 1][..i] == quotes[..i];
      if q.baseRate.None? || q.baseRate.value == 0.0 {
        continue;
      }
      ghost var rated := Rated(quotes[..i]);
      assert (rated + [Price(q.kind, q.baseRate.value)])[..|rated|] == rated;
      if q.kind in existing {
        existing := existing - {q.kind};
        prices := Repriced(prices, q.kind, q.baseRate.value);
      } else {
        prices := prices + [Price(q.kind, q.baseRate.value)];
      }
    }
    assert quotes[..|quotes|] == quotes;
    prices := RemoveLeft(prices, existing);
  }

  method RemoveLeft(prices: seq<Price>, left: set<Kind>) returns (kept: seq<Price>)
    ensures kept == Kept(prices, left)
  {
    kept := [];
    for i := 0 to |prices|
      invariant kept == Kept(prices[..i], left)
    {
      assert prices[..i + 1][..i] == prices[..i];
      if prices[i].kind !in left {
        kept := kept + [prices[i]];
      }
    }
    assert prices[..|prices|] == prices;
  }

  /** What the prices hold part-way: the kinds met so far at their rates, each once as long as the
      quotes met are distinct, and the kinds not met yet at their stored rates. */
  ghost predicate PartSynced(stored: seq<Price>, rated: seq<Price>, prices: seq<Price>, left: set<Kind>)
  {
    && left == KindsOf(stored) - KindsOf(rated)
    && (forall x :: x in prices <==> x in rated || (x in stored && x.kind in left))
    && DistinctKinds(prices)
  }

  lemma {:induction false} SyncedDistinct(stored: seq<Price>, rated: seq<Price>)
    requires DistinctKinds(stored) && DistinctKinds(rated)
    ensures PartSynced(stored, rated, Synced(stored, rated).0, Synced(stored, rated).1)
    decreases |rated|
  {
    if rated != [] {
      var init, x := rated[..|rated| - 1], rated[|rated| - 1];
      SyncedDistinct(stored, init);
      var (prices, left) := Synced(stored, init);
      assert rated == init + [x];
      forall y | y in init
        ensures y.kind != x.kind
      {
        var i :| 0 <= i < |init| && init[i] == y;
        assert rated[i] == y;
      }
      assert KindsOf(rated) == KindsOf(init) + {x.kind};
      if x.kind in left {
        RepricedHolds(prices, x);
        assert x.kind in KindsOf(prices) by {
          var y :| y in stored && y.kind == x.kind;
          assert y in prices;
        }
      } else {
        assert forall y :: y in prices + [x] <==> y in prices || y == x;
      }
    }
  }

  lemma RepricedHolds(prices: seq<Price>, x: Price)
    ensures forall y :: y in Repriced(prices, x.kind, x.rate) <==>
              (y in prices && y.kind != x.kind) || (y == x && x.kind in KindsOf(prices))
    ensures DistinctKinds(prices) ==> DistinctKinds(Repriced(prices, x.kind, x.rate))
  {
    var after := Repriced(prices, x.kind, x.rate);
    forall y | (y in prices && y.kind != x.kind) || (y == x && x.kind in KindsOf(prices))
      ensures y in after
    {
      var i :| 0 <= i < |prices| && prices[i].kind == y.kind && (y == x || prices[i] == y);
      assert after[i] == y;
    }
  }

  lemma {:induction false} KeptHolds(prices: seq<Price>, left: set<Kind>)
    ensures forall x :: x in Kept(prices, left) <==> x in prices && x.kind !in left
    decreases |prices|
  {
    if prices != [] {
      var init := prices[..|prices| - 1];
      KeptHolds(init, left);
      assert prices == init + [prices[|prices| - 1]];
    }
  }

  lemma {:induction false} KeptDistinct(prices: seq<Price>, left: set<Kind>)
    requires DistinctKinds(prices)
    ensures DistinctKinds(Kept(prices, left))
    decreases |prices|
  {
    if prices != [] {
      var init, x := prices[..|prices| - 1], prices[|prices| - 1];
      KeptDistinct(init, left);
      KeptHolds(init, left);
      var kept := Kept(init, left);
      forall i | 0 <= i < |kept|
        ensures kept[i].kind != x.kind
      {
        assert kept[i] in kept;
        assert kept[i] in init;
      }
    }
  }

  lemma {:induction false} NothingLeft(prices: seq<Price>, left: set<Kind>)
    requires forall i :: 0 <= i < |prices| ==> prices[i].kind !in left
    ensures Kept(prices, left) == prices
    decreases |prices|
  {
    if prices != [] {
      NothingLeft(prices[..|prices| - 1], left);
      assert prices == prices[..|prices| - 1] + [prices[|prices| - 1]];
    }
  }

  /** Two prices of the same kind. */
  ghost predicate Twice(prices: seq<Price>, kind: Kind)
  {
    exists i, j :: 0 <= i < j < |prices| && prices[i].kind == prices[j].kind == kind
  }

  lemma {:induction false} KeptTwice(prices: seq<Price>, left: set<Kind>, kind: Kind)
    requires Twice(prices, kind) && kind !in left
    ensures Twice(Kept(prices, left), kind)
    decreases |prices|
  {
    var i, j :| 0 <= i < j < |prices| && prices[i].kind == prices[j].kind == kind;
    var init := prices[..|prices| - 1];
    var kept := Kept(init, left);
    if j < |init| {
      assert init[i].kind == init[j].kind == kind;
      KeptTwice(init, left, kind);
      var m, n :| 0 <= m < n < |kept| && kept[m].kind == kept[n].kind == kind;
      assert Kept(prices, left)[m] == kept[m] && Kept(prices, left)[n] == kept[n];
    } else {
      KeptHolds(init, left);
      assert init[i] in kept;
      var m :| 0 <= m < |kept| && kept[m] == init[i];
      assert Kept(prices, left)[m] == kept[m] && Kept(prices, left)[|kept|] == prices[j];
    }
  }

  lemma {:induction false} SyncedTwice(stored: seq<Price>, rated: seq<Price>) returns (kind: Kind)
    requires DistinctKinds(stored) && !DistinctKinds(rated)
    ensures Twice(Synced(stored, rated).0, kind) && kind !in Synced(stored, rated).1
    decreases |rated|
  {
    var init, x := rated[..|rated| - 1], rated[|rated| - 1];
    var (prices, left) := Synced(stored, init);
    if DistinctKinds(init) {
      kind := x.kind;
      SyncedDistinct(stored, init);
      var i :| 0 <= i < |init| && init[i].kind == kind;
      assert init[i] in prices && kind in KindsOf(init);
      var m :| 0 <= m < |prices| && prices[m] == init[i];
      assert (prices + [x])[m].kind == (prices + [x])[|prices|].kind == kind;
    } else {
      kind := SyncedTwice(stored, init);
      var m, n :| 0 <= m < n < |prices| && prices[m].kind == prices[n].kind == kind;
      var after := Synced(stored, rated).0;
      assert after[m].kind == after[n].kind == kind;
    }
  }

  /** The prices have distinct kinds afterwards exactly when no kind is quoted twice at a rate. */
  lemma SyncedDistinctExactly(stored: seq<Price>, quotes: seq<Quote>)
    requires DistinctKinds(stored)
    ensures DistinctKinds(SyncedPrices(stored, quotes)) <==> DistinctKinds(Rated(quotes))
  {
    var rated := Rated(quotes);
    var (prices, left) := Synced(stored, rated);
    if DistinctKinds(rated) {
      SyncedIsRated(stored, quotes);
    } else {
      var kind := SyncedTwice(stored, rated);
      KeptTwice(prices, left, kind);
    }
  }

  /** With each kind quoted once, the stored prices become exactly the rated quotes. */
  lemma SyncedIsRated(stored: seq<Price>, quotes: seq<Quote>)
    requires DistinctKinds(stored) && DistinctKinds(Rated(quotes))
    ensures DistinctKinds(SyncedPrices(stored, quotes))
    ensures forall x :: x in SyncedPrices(stored, quotes) <==> x in Rated(quotes)
  {
    var rated := Rated(quotes);
    SyncedDistinct(stored, rated);
    var (prices, left) := Synced(stored, rated);
    KeptHolds(prices, left);
    KeptDistinct(prices, left);
    forall x | x in rated
      ensures x.kind !in left
    {
      assert x.kind in KindsOf(rated);
    }
  }

  lemma {:induction false} RatedHolds(quotes: seq<Quote>)
    ensures forall x :: x in Rated(quotes) <==> x.rate != 0.0 && Quote(x.kind, Some(x.rate)) in quotes
    decreases |quotes|
  {
    if quotes != [] {
      RatedHolds(quotes[..|quotes| - 1]);
      assert quotes == quotes[..|quotes| - 1] + [quotes[|quotes| - 1]];
    }
  }

  /** Prices that already are the rated quotes stay as they are. */
  lemma SyncedAgain(stored: seq<Price>, quotes: seq<Quote>)
    requires DistinctKinds(stored) && DistinctKinds(Rated(quotes))
    requires forall x :: x in stored <==> x in Rated(quotes)
    ensures SyncedPrices(stored, quotes) == stored
  {
    var rated := Rated(quotes);
    SyncedUntouched(stored, rated);
    SyncedDistinct(stored, rated);
    var (prices, left) := Synced(stored, rated);
    forall i | 0 <= i < |stored|
      ensures stored[i].kind !in left
    {
      assert stored[i] in rated;
      assert stored[i].kind in KindsOf(rated);
    }
    NothingLeft(stored, left);
  }

  lemma {:induction false} SyncedUntouched(stored: seq<Price>, rated: seq<Price>)
    requires DistinctKinds(stored) && DistinctKinds(rated)
    requires forall x :: x in rated ==> x in stored
    ensures Synced(stored, rated).0 == stored
    decreases |rated|
  {
    if rated != [] {
      var init, x := rated[..|rated| - 1], rated[|rated| - 1];
      SyncedUntouched(stored, init);
      SyncedDistinct(stored, init);
      assert x in rated && x.kind in KindsOf(stored);
      assert x.kind !in KindsOf(init);
      var again := Repriced(stored, x.kind, x.rate);
      forall i | 0 <= i < |stored|
        ensures again[i] == stored[i]
      {
        var k :| 0 <= k < |stored| && stored[k] == x;
        assert stored[i].kind == x.kind ==> i == k;
      }
      assert again == stored;
    }
  }

  // ---------------------------------------------------------------- which entries are accepted

  datatype Scanned = Scanned(names: set<string>, patterns: set<(string, string)>, accepted: seq<Entry>)

  function Matcher(e: Entry): (string, string)
  {
    (Strip(e.pattern), Strip(e.provider))
  }

  /** The skip rules: an empty name, a name seen before (also on an entry skipped for its pattern),
      a pattern that does not compile, a pattern and provider seen before. */
  function Scan(entries: seq<Entry>, compiles: string -> bool): Scanned
  {
    if entries == [] then Scanned({}, {}, [])
    else
      var s, e := Scan(entries[..|entries| - 1], compiles), entries[|entries| - 1];
      if Strip(e.name) == "" || Strip(e.name) in s.names then s
      else
        var named := s.(names := s.names + {Strip(e.name)});
        if !compiles(Strip(e.pattern)) || Matcher(e) in s.patterns then named
        else named.(patterns := s.patterns + {Matcher(e)}, accepted := s.accepted + [e])
  }

  ghost predicate Apart(es: seq<Entry>)
  {
    forall i, j | 0 <= i < j < |es| :: Strip(es[i].name) != Strip(es[j].name) && Matcher(es[i]) != Matcher(es[j])
  }

  lemma {:induction false} ScanApart(entries: seq<Entry>, compiles: string -> bool)
    ensures Apart(Scan(entries, compiles).accepted)
    ensures forall e :: e in Scan(entries, compiles).accepted ==>
              && Strip(e.name) in Scan(entries, compiles).names && Matcher(e) in Scan(entries, compiles).patterns
              && Strip(e.name) != "" && compiles(Strip(e.pattern)) && e in entries
    decreases |entries|
  {
    if entries != [] {
      ScanApart(entries[..|entries| - 1], compiles);
    }
  }

  /** The entry has a name, that no entry before it has, and a pattern that compiles. */
  ghost predicate Eligible(entries: seq<Entry>, i: nat, compiles: string -> bool)
  {
    && i < |entries| && Strip(entries[i].name) != "" && compiles(Strip(entries[i].pattern))
    && forall j :: 0 <= j < i ==> Strip(entries[j].name) != Strip(entries[i].name)
  }

  /** No eligible entry before it has the same pattern and provider. */
  ghost predicate Accepts(entries: seq<Entry>, i: nat, compiles: string -> bool)
  {
    && Eligible(entries, i, compiles)
    && forall j: nat :: j < i && Eligible(entries, j, compiles) ==> Matcher(entries[j]) != Matcher(entries[i])
  }

  ghost predicate NamesSeen(entries: seq<Entry>, names: set<string>)
  {
    forall n :: n in names <==> n != "" && exists j :: 0 <= j < |entries| && Strip(entries[j].name) == n
  }

  ghost predicate PatternsSeen(entries: seq<Entry>, compiles: string -> bool, patterns: set<(string, string)>)
  {
    forall x :: x in patterns <==> exists j: nat :: Eligible(entries, j, compiles) && Matcher(entries[j]) == x
  }

  /** The entries at these places, in order, are the ones accepted. */
  ghost predicate AcceptedAt(entries: seq<Entry>, compiles: string -> bool, accepted: seq<Entry>, at: seq<nat>)
  {
    && |at| == |accepted| && (forall k, m :: 0 <= k < m < |at| ==> at[k] < at[m])
    && (forall k :: 0 <= k < |at| ==> at[k] < |entries| && accepted[k] == entries[at[k]])
    && (forall i: nat :: i in at <==> Accepts(entries, i, compiles))
  }

  lemma EligibleSame(entries: seq<Entry>, e: Entry, i: nat, compiles: string -> bool)
    requires i < |entries|
    ensures Eligible(entries + [e], i, compiles) <==> Eligible(entries, i, compiles)
  {
    assert forall j :: 0 <= j <= i ==> (entries + [e])[j] == entries[j];
  }

  lemma EligibleBefore(entries: seq<Entry>, e: Entry, i: nat, compiles: string -> bool)
    requires i < |entries|
    ensures Eligible(entries + [e], i, compiles) <==> Eligible(entries, i, compiles)
    ensures Accepts(entries + [e], i, compiles) <==> Accepts(entries, i, compiles)
  {
    forall j: nat | j <= i
      ensures Eligible(entries + [e], j, compiles) <==> Eligible(entries, j, compiles)
    {
      EligibleSame(entries, e, j, compiles);
    }
  }

  lemma NamesSeenMore(entries: seq<Entry>, names: set<string>, e: Entry)
    requires NamesSeen(entries, names)
    ensures NamesSeen(entries + [e], names + if Strip(e.name) == "" then {} else {Strip(e.name)})
  {
    var all := entries + [e];
    assert all[|entries|] == e;
    forall n | n in names
      ensures exists j :: 0 <= j < |all| && Strip(all[j].name) == n
    {
      var j :| 0 <= j < |entries| && Strip(entries[j].name) == n;
      assert all[j] == entries[j];
    }
  }

  lemma PatternsSeenMore(entries: seq<Entry>, compiles: string -> bool, patterns: set<(string, string)>, e: Entry)
    requires PatternsSeen(entries, compiles, patterns)
    ensures PatternsSeen(entries + [e], compiles,
                         patterns + if Eligible(entries + [e], |entries|, compiles) then {Matcher(e)} else {})
  {
    var all := entries + [e];
    forall j: nat | j < |entries|
      ensures Eligible(all, j, compiles) <==> Eligible(entries, j, compiles)
    {
      EligibleBefore(entries, e, j, compiles);
    }
    assert all[|entries|] == e;
    forall x | x in patterns
      ensures exists j: nat :: Eligible(all, j, compiles) && Matcher(all[j]) == x
    {
      var j: nat :| Eligible(entries, j, compiles) && Matcher(entries[j]) == x;
      assert Eligible(all, j, compiles) && all[j] == entries[j];
    }
  }

  lemma AcceptedAtMore(entries: seq<Entry>, compiles: string -> bool, accepted: seq<Entry>, at: seq<nat>, e: Entry)
    requires AcceptedAt(entries, compiles, accepted, at)
    ensures var all := entries + [e];
            if Accepts(all, |entries|, compiles) then AcceptedAt(all, compiles, accepted + [e], at + [|entries|])
            else AcceptedAt(all, compiles, accepted, at)
  {
    var all := entries + [e];
    forall i: nat | i < |entries|
      ensures Accepts(all, i, compiles) <==> Accepts(entries, i, compiles)
    {
      EligibleBefore(entries, e, i, compiles);
    }
    forall i: nat
      ensures i in at + [|entries|] <==> i in at || i == |entries|
    {
    }
    assert forall i: nat :: Accepts(all, i, compiles) ==> i < |all|;
    assert forall k :: 0 <= k < |at| ==> all[at[k]] == entries[at[k]];
  }

  lemma LastScanned(init: seq<Entry>, e: Entry, compiles: string -> bool)
    requires NamesSeen(init, Scan(init, compiles).names)
    requires PatternsSeen(init, compiles, Scan(init, compiles).patterns)
    ensures var s, eligible := Scan(init, compiles), Eligible(init + [e], |init|, compiles);
            && (eligible <==> Strip(e.name) != "" && Strip(e.name) !in s.names && compiles(Strip(e.pattern)))
            && (Accepts(init + [e], |init|, compiles) <==> eligible && Matcher(e) !in s.patterns)
  {
    var all := init + [e];
    forall j: nat | j < |init|
      ensures all[j] == init[j] && (Eligible(all, j, compiles) <==> Eligible(init, j, compiles))
    {
      EligibleBefore(init, e, j, compiles);
    }
  }

  lemma ScanStep(init: seq<Entry>, e: Entry, compiles: string -> bool, eligible: bool)
    requires eligible <==>
               Strip(e.name) != "" && Strip(e.name) !in Scan(init, compiles).names && compiles(Strip(e.pattern))
    ensures var s, t := Scan(init, compiles), Scan(init + [e], compiles);
            && t.names == s.names + (if Strip(e.name) == "" then {} else {Strip(e.name)})
            && t.patterns == s.patterns + (if eligible then {Matcher(e)} else {})
            && t.accepted == s.accepted + if eligible && Matcher(e) !in s.patterns then [e] else []
  {
    assert (init + [e])[..|init|] == init;
  }

  lemma ScanMore(init: seq<Entry>, e: Entry, compiles: string -> bool)
    requires NamesSeen(init, Scan(init, compiles).names)
    requires PatternsSeen(init, compiles, Scan(init, compiles).patterns)
    ensures var s, t, all := Scan(init, compiles), Scan(init + [e], compiles), init + [e];
            && t.names == s.names + (if Strip(e.name) == "" then {} else {Strip(e.name)})
            && t.patterns == s.patterns + (if Eligible(all, |init|, compiles) then {Matcher(e)} else {})
            && t.accepted == s.accepted + if Accepts(all, |init|, compiles) then [e] else []
  {
    LastScanned(init, e, compiles);
    ScanStep(init, e, compiles, Eligible(init + [e], |init|, compiles));
  }

  /** Scanning accepts exactly the entries that have a name of their own and a pattern that compiles and
      does not occur with their provider in an eligible entry before them, in the order of the manifest. */
  lemma {:induction false} ScanExactly(entries: seq<Entry>, compiles: string -> bool) returns (at: seq<nat>)
    ensures AcceptedAt(entries, compiles, Scan(entries, compiles).accepted, at)
    ensures NamesSeen(entries, Scan(entries, compiles).names)
    ensures PatternsSeen(entries, compiles, Scan(entries, compiles).patterns)
    decreases |entries|
  {
    at := [];
    if entries != [] {
      var init, e := entries[..|entries| - 1], entries[|entries| - 1];
      at := ScanExactly(init, compiles);
      var s := Scan(init, compiles);
      assert entries == init + [e];
      NamesSeenMore(init, s.names, e);
      PatternsSeenMore(init, compiles, s.patterns, e);
      AcceptedAtMore(init, compiles, s.accepted, at, e);
      ScanMore(init, e, compiles);
      if Accepts(entries, |init|, compiles) {
        at := at + [|init|];
      } else {
        assert s.accepted + [] == s.accepted;
      }
    }
  }

  // ---------------------------------------------------------------- model rows

  predicate Live(m: Model)
  {
    m.builtIn && !m.deleted
  }

  /** The unique indexes over live built-in models, and the unique constraint over token prices. */
  predicate Allowed(rows: Rows)
  {
    && (forall i, j | i in rows && j in rows && i != j && Live(rows[i]) && Live(rows[j]) ::
          && rows[i].name != rows[j].name
          && (rows[i].pattern, rows[i].provider) != (rows[j].pattern, rows[j].provider))
    && (forall i | i in rows :: DistinctKinds(rows[i].prices))
  }

  ghost predicate Good(rows: Rows, next: RowId)
  {
    Allowed(rows) && forall i :: i in rows ==> i < next
  }

  /** The live built-in models by name. */
  function NameIndex(rows: Rows): map<string, RowId>
    requires Allowed(rows)
  {
    map i | i in rows && Live(rows[i]) :: rows[i].name := i
  }

  lemma IndexHolds(rows: Rows)
    requires Allowed(rows)
    ensures forall n :: n in NameIndex(rows) ==>
              NameIndex(rows)[n] in rows && Live(rows[NameIndex(rows)[n]]) && rows[NameIndex(rows)[n]].name == n
    ensures forall i :: i in rows && Live(rows[i]) ==>
            rows[i].name in NameIndex(rows) && NameIndex(rows)[rows[i].name] == i
  {
  }

  function Updated(m: Model, e: Entry): Model
  {
    m.(provider := Strip(e.provider), pattern := Strip(e.pattern), prices := SyncedPrices(m.prices, e.quotes))
  }

  function Created(e: Entry): Model
  {
    Model(Strip(e.name), Strip(e.provider), Strip(e.pattern), true, false, SyncedPrices([], e.quotes))
  }

  /** The session part-way: its rows, the names not popped yet, and the row each entry got. */
  datatype Draft = Draft(rows: Rows, next: RowId, index: map<string, RowId>, placed: seq<RowId>)

  function Take(d: Draft, e: Entry): Draft
  {
    if e.name in d.index && d.index[e.name] in d.rows then
      var id := d.index[e.name];
      Draft(d.rows[id := Updated(d.rows[id], e)], d.next, d.index - {e.name}, d.placed + [id])
    else
      Draft(d.rows[d.next := Created(e)], d.next + 1, d.index, d.placed + [d.next])
  }

  function Taken(start: Draft, es: seq<Entry>): Draft
  {
    if es == [] then start else Take(Taken(start, es[..|es| - 1]), es[|es| - 1])
  }

  function Opened(rows: Rows, next: RowId): Draft
    requires Allowed(rows)
  {
    Draft(rows, next, NameIndex(rows), [])
  }

  /** Soft deletion of the built-in models left over, unless a cost row refers to them. */
  function Retired(rows: Rows, left: set<RowId>, used: set<RowId>): Rows
  {
    map i | i in rows :: if i in left && i !in used then rows[i].(deleted := true) else rows[i]
  }

  /** The whole run: nothing happens when the commit is refused. */
  function Reconcile(rows: Rows, next: RowId, used: set<RowId>, entries: seq<Entry>, compiles: string -> bool):
      Option<(Rows, RowId)>
    requires Allowed(rows)
  {
    var d := Taken(Opened(rows, next), Scan(entries, compiles).accepted);
    if Allowed(d.rows) then Some((Retired(d.rows, d.index.Values, used), d.next)) else None
  }

  class Catalog {
    var rows: Rows
    var next: RowId
    var used: set<RowId>

    constructor ()
      ensures rows == map[] && next == 0 && used == {}
      ensures Good(rows, next)
    {
      rows, next, used := map[], 0, {};
    }

    method EnsureModelCosts(entries: seq<Entry>, compiles: string -> bool) returns (committed: bool)
      requires Good(rows, next)
      modifies `rows, `next
      ensures var run := Reconcile(old(rows), old(next), used, entries, compiles);
              && committed == run.Some?
              && (rows, next) == if committed then run.value else (old(rows), old(next))
    {
      var draft := ReadManifest(Opened(rows, next), entries, compiles);
      committed := Allowed(draft.rows);
      if committed {
        rows, next := Retired(draft.rows, draft.index.Values, used), draft.next;
      }
    }

    /** The loop over the manifest, in the first session. */
    static method ReadManifest(start: Draft, entries: seq<Entry>, compiles: string -> bool) returns (draft: Draft)
      ensures draft == Taken(start, Scan(entries, compiles).accepted)
    {
      draft := start;
      var seenNames: set<string> := {};
      var seenPatterns: set<(string, string)> := {};
      ghost var accepted: seq<Entry> := [];
      for i := 0 to |entries|
        invariant Scan(entries[..i], compiles) == Scanned(seenNames, seenPatterns, accepted)
        invariant draft == Taken(start, accepted)
      {
        var e := entries[i];
        assert entries[..i + 1][..i] == entries[..i];
        var name := Strip(e.name);
        if name == "" || name in seenNames {
          continue;
        }
        seenNames := seenNames + {name};
        var pattern, provider := Strip(e.pattern), Strip(e.provider);
        if !compiles(pattern) {
          continue;
        }
        if (pattern, provider) in seenPatterns {
          continue;
        }
        seenPatterns := seenPatterns + {(pattern, provider)};
        assert (accepted + [e])[..|accepted|] == accepted;
        accepted := accepted + [e];
        draft := Upsert(draft, e, name, pattern, provider);
      }
      assert entries[..|entries|] == entries;
    }

    /** Pops the model of that name from the lookup table or adds a new one, then syncs its prices. */
    static method Upsert(draft: Draft, e: Entry, name: string, pattern: string, provider: string) returns (after: Draft)
      requires name == Strip(e.name) && pattern == Strip(e.pattern) && provider == Strip(e.provider)
      ensures after == Take(draft, e)
    {
      var id, next, index := draft.next, draft.next + 1, draft.index;
      var model := Model(name, provider, pattern, true, false, []);
      if e.name in index && index[e.name] in draft.rows {
        id, next, index := index[e.name], draft.next, index - {e.name};
        model := draft.rows[id].(provider := provider, pattern := pattern);
      }
      var prices := SyncPrices(model.prices, e.quotes);
      after := Draft(draft.rows[id := model.(prices := prices)], next, index, draft.placed + [id]);
    }
  }

  // ---------------------------------------------------------------- where the entries end up

  /** The lookup table names every live built-in model once. */
  ghost predicate IsIndex(rows: Rows, index: map<string, RowId>)
  {
    && (forall n | n in index :: index[n] in rows && Live(rows[index[n]]) && rows[index[n]].name == n)
    && (forall i | i in rows && Live(rows[i]) :: rows[i].name in index && index[rows[i].name] == i)
  }

  /** What an entry's row becomes: an update of the live built-in model of that very name, or a new row. */
  ghost function RowFor(start: Draft, e: Entry): Model
  {
    if e.name in start.index && start.index[e.name] in start.rows then Updated(start.rows[start.index[e.name]], e)
    else Created(e)
  }

  ghost predicate Claimed(es: seq<Entry>, name: string)
  {
    exists k :: 0 <= k < |es| && es[k].name == name
  }

  /** Each entry has a row of its own, and every other row is as it was. */
  ghost predicate Placement(start: Draft, es: seq<Entry>, d: Draft)
  {
    && |d.placed| == |es| && start.next <= d.next
    && (forall i :: i in d.rows <==> i in start.rows || i in d.placed)
    && (forall i | i in start.rows && i !in d.placed :: d.rows[i] == start.rows[i])
    && (forall k | 0 <= k < |es| :: RightRow(start, es[k], d, d.placed[k]))
    && (forall i, j | 0 <= i < j < |es| :: d.placed[i] != d.placed[j])
    && IndexPopped(start, es, d)
  }

  /** The names not popped are those no entry names. */
  ghost predicate IndexPopped(start: Draft, es: seq<Entry>, d: Draft)
  {
    && (forall n :: n in d.index <==> n in start.index && !Claimed(es, n))
    && (forall n | n in d.index :: d.index[n] == start.index[n])
  }

  ghost predicate RightRow(start: Draft, e: Entry, d: Draft, id: RowId)
  {
    && id in d.rows && d.rows[id] == RowFor(start, e)
    && if e.name in start.index then id == start.index[e.name] else start.next <= id < d.next
  }

  lemma ClaimedByOneMore(es: seq<Entry>, e: Entry)
    ensures forall n :: Claimed(es + [e], n) <==> Claimed(es, n) || n == e.name
  {
    var all := es + [e];
    assert all[|es|] == e;
    forall n | Claimed(es, n)
      ensures Claimed(all, n)
    {
      var k :| 0 <= k < |es| && es[k].name == n;
      assert all[k].name == n;
    }
  }

  ghost predicate NamesDiffer(es: seq<Entry>)
  {
    forall i, j | 0 <= i < j < |es| :: es[i].name != es[j].name
  }

  lemma ApartNamesDiffer(es: seq<Entry>)
    requires Apart(es)
    ensures NamesDiffer(es)
  {
    forall i, j | 0 <= i < j < |es|
      ensures es[i].name != es[j].name
    {
      assert Strip(es[i].name) != Strip(es[j].name);
    }
  }

  lemma NothingPlaced(start: Draft)
    requires IsIndex(start.rows, start.index) && start.placed == []
    ensures Placement(start, [], start)
  {
    assert forall n :: !Claimed([], n);
  }

  lemma TakenOneMore(start: Draft, es: seq<Entry>, e: Entry)
    ensures Taken(start, es + [e]) == Take(Taken(start, es), e)
  {
    assert (es + [e])[..|es|] == es;
  }

  /** Names that differ stay so without the last one, and the last one is new. */
  lemma NamesBefore(es: seq<Entry>)
    requires NamesDiffer(es) && es != []
    ensures NamesDiffer(es[..|es| - 1]) && !Claimed(es[..|es| - 1], es[|es| - 1].name)
    ensures es == es[..|es| - 1] + [es[|es| - 1]]
  {
  }

  lemma {:induction false} TakenPlaces(start: Draft, es: seq<Entry>)
    requires IsIndex(start.rows, start.index) && start.placed == []
    requires forall i :: i in start.rows ==> i < start.next
    requires NamesDiffer(es)
    ensures Placement(start, es, Taken(start, es))
    decreases |es|
  {
    if es == [] {
      NothingPlaced(start);
    } else {
      var init, last := es[..|es| - 1], es[|es| - 1];
      NamesBefore(es);
      TakenPlaces(start, init);
      TakenOneMore(start, init, last);
      PlaceOneMore(start, init, last, Taken(start, init));
    }
  }

  lemma FreshPlace(start: Draft, es: seq<Entry>, e: Entry, d: Draft, id: RowId)
    requires IsIndex(start.rows, start.index) && Placement(start, es, d) && !Claimed(es, e.name)
    requires forall i :: i in start.rows ==> i < start.next
    requires id == if e.name in start.index then start.index[e.name] else d.next
    ensures id !in d.placed
    ensures e.name in start.index ==> d.rows[id] == start.rows[id]
  {
    forall k | 0 <= k < |es|
      ensures d.placed[k] != id
    {
      assert RightRow(start, es[k], d, d.placed[k]);
      assert Claimed(es, es[k].name);
    }
  }

  lemma PopOneMore(start: Draft, es: seq<Entry>, e: Entry, d: Draft)
    requires IndexPopped(start, es, d) && (e.name in d.index ==> d.index[e.name] in d.rows)
    ensures IndexPopped(start, es + [e], Take(d, e))
  {
    ClaimedByOneMore(es, e);
  }

  lemma PlaceOneMore(start: Draft, es: seq<Entry>, e: Entry, d: Draft)
    requires IsIndex(start.rows, start.index) && Placement(start, es, d) && !Claimed(es, e.name)
    requires forall i :: i in start.rows ==> i < start.next
    ensures Placement(start, es + [e], Take(d, e))
  {
    var id := if e.name in start.index then start.index[e.name] else d.next;
    FreshPlace(start, es, e, d, id);
    PopOneMore(start, es, e, d);
    var after := Take(d, e);
    assert after.placed == d.placed + [id];
    forall k | 0 <= k < |es| + 1
      ensures RightRow(start, (es + [e])[k], after, after.placed[k])
    {
      if k < |es| {
        assert RightRow(start, es[k], d, d.placed[k]);
        assert d.placed[k] in d.placed;
      }
    }
  }

  // ---------------------------------------------------------------- when the commit is refused

  /** A live built-in model that no accepted entry names stands in the entry's way. */
  ghost predicate Clashes(start: Draft, es: seq<Entry>, e: Entry)
  {
    exists u :: u in start.rows && Live(start.rows[u]) && !Claimed(es, start.rows[u].name)
      && Blocks(start, start.rows[u], e)
  }

  /** The model has the new row's name, or the entry's pattern and provider. */
  ghost predicate Blocks(start: Draft, m: Model, e: Entry)
  {
    (e.name !in start.index && m.name == Strip(e.name)) || (m.pattern, m.provider) == Matcher(e)
  }

  ghost predicate NameTaken(d: Draft, i: RowId, j: RowId)
    requires i in d.rows && j in d.rows
  {
    || d.rows[i].name == d.rows[j].name
    || (d.rows[i].pattern, d.rows[i].provider) == (d.rows[j].pattern, d.rows[j].provider)
  }

  lemma EntryRow(start: Draft, es: seq<Entry>, d: Draft, k: nat)
    requires IsIndex(start.rows, start.index) && Placement(start, es, d) && k < |es|
    requires forall i :: i in start.rows ==> i < start.next
    ensures var i := d.placed[k];
            && i in d.rows && Live(d.rows[i]) && (d.rows[i].pattern, d.rows[i].provider) == Matcher(es[k])
            && d.rows[i].name == (if es[k].name in start.index then es[k].name else Strip(es[k].name))
  {
    assert RightRow(start, es[k], d, d.placed[k]);
  }

  /** Two entries' rows never stand in each other's way. */
  lemma EntriesNeverClash(start: Draft, es: seq<Entry>, d: Draft, j: nat, k: nat)
    requires IsIndex(start.rows, start.index) && Placement(start, es, d) && Apart(es)
    requires forall i :: i in start.rows ==> i < start.next
    requires j < |es| && k < |es| && j != k
    ensures d.placed[j] in d.rows && d.placed[k] in d.rows && !NameTaken(d, d.placed[j], d.placed[k])
  {
    EntryRow(start, es, d, j);
    EntryRow(start, es, d, k);
    StripIsTrimmed(es[j].name);
    StripIsTrimmed(es[k].name);
    assert if j < k then Matcher(es[j]) != Matcher(es[k]) && Strip(es[j].name) != Strip(es[k].name)
           else Matcher(es[k]) != Matcher(es[j]) && Strip(es[k].name) != Strip(es[j].name);
  }

  /** A live built-in model is somebody's row exactly when an entry names it. */
  lemma PlacedIffClaimed(start: Draft, es: seq<Entry>, d: Draft, i: RowId)
    requires IsIndex(start.rows, start.index) && Placement(start, es, d) && i in start.rows && Live(start.rows[i])
    requires forall i :: i in start.rows ==> i < start.next
    ensures i in d.placed <==> Claimed(es, start.rows[i].name)
  {
    if Claimed(es, start.rows[i].name) {
      var k :| 0 <= k < |es| && es[k].name == start.rows[i].name;
      assert RightRow(start, es[k], d, d.placed[k]);
    }
    if i in d.placed {
      var k :| 0 <= k < |d.placed| && d.placed[k] == i;
      assert RightRow(start, es[k], d, d.placed[k]);
      assert es[k].name == start.rows[i].name;
    }
  }

  lemma OldRowInTheWay(start: Draft, es: seq<Entry>, d: Draft, u: RowId, k: nat)
    requires IsIndex(start.rows, start.index) && Placement(start, es, d) && k < |es|
    requires forall i :: i in start.rows ==> i < start.next
    requires u in start.rows && Live(start.rows[u]) && !Claimed(es, start.rows[u].name)
    ensures d.placed[k] in d.rows && u in d.rows && u != d.placed[k] && d.rows[u] == start.rows[u]
    ensures NameTaken(d, u, d.placed[k]) <==> Blocks(start, start.rows[u], es[k])
  {
    EntryRow(start, es, d, k);
    PlacedIffClaimed(start, es, d, u);
    assert Claimed(es, es[k].name);
  }

  lemma EntryPrices(start: Draft, es: seq<Entry>, d: Draft, k: nat)
    requires IsIndex(start.rows, start.index) && Placement(start, es, d) && k < |es|
    requires Good(start.rows, start.next)
    ensures d.placed[k] in d.rows
    ensures DistinctKinds(d.rows[d.placed[k]].prices) <==> DistinctKinds(Rated(es[k].quotes))
  {
    assert RightRow(start, es[k], d, d.placed[k]);
    SyncedDistinctExactly(if es[k].name in start.index then start.rows[start.index[es[k].name]].prices else [],
                          es[k].quotes);
  }

  ghost predicate Admissible(start: Draft, es: seq<Entry>)
  {
    forall k | 0 <= k < |es| :: DistinctKinds(Rated(es[k].quotes)) && !Clashes(start, es, es[k])
  }

  lemma RefusedWhenInadmissible(start: Draft, es: seq<Entry>, d: Draft)
    requires IsIndex(start.rows, start.index) && Placement(start, es, d)
    requires Good(start.rows, start.next) && Allowed(d.rows)
    ensures Admissible(start, es)
  {
    forall k | 0 <= k < |es|
      ensures DistinctKinds(Rated(es[k].quotes)) && !Clashes(start, es, es[k])
    {
      EntryPrices(start, es, d, k);
      if Clashes(start, es, es[k]) {
        var u :| u in start.rows && Live(start.rows[u]) && !Claimed(es, start.rows[u].name)
                 && Blocks(start, start.rows[u], es[k]);
        OldRowInTheWay(start, es, d, u, k);
        EntryRow(start, es, d, k);
      }
    }
  }

  lemma FreeOfClashes(start: Draft, es: seq<Entry>, d: Draft, i: RowId, j: RowId)
    requires IsIndex(start.rows, start.index) && Placement(start, es, d) && Apart(es)
    requires Good(start.rows, start.next) && Admissible(start, es)
    requires i in d.rows && j in d.rows && i != j && Live(d.rows[i]) && Live(d.rows[j])
    ensures !NameTaken(d, i, j)
  {
    if i in d.placed && j in d.placed {
      var m :| 0 <= m < |d.placed| && d.placed[m] == i;
      var n :| 0 <= n < |d.placed| && d.placed[n] == j;
      EntriesNeverClash(start, es, d, m, n);
    } else if i in d.placed {
      OldNextToPlaced(start, es, d, j, i);
    } else if j in d.placed {
      OldNextToPlaced(start, es, d, i, j);
    }
  }

  lemma OldNextToPlaced(start: Draft, es: seq<Entry>, d: Draft, u: RowId, i: RowId)
    requires IsIndex(start.rows, start.index) && Placement(start, es, d)
    requires Good(start.rows, start.next) && Admissible(start, es)
    requires u in d.rows && u !in d.placed && Live(d.rows[u]) && i in d.placed
    ensures i in d.rows && !NameTaken(d, u, i)
  {
    var k :| 0 <= k < |d.placed| && d.placed[k] == i;
    PlacedIffClaimed(start, es, d, u);
    OldRowInTheWay(start, es, d, u, k);
    assert !Clashes(start, es, es[k]);
  }

  lemma PricesAdmitted(start: Draft, es: seq<Entry>, d: Draft, i: RowId)
    requires IsIndex(start.rows, start.index) && Placement(start, es, d)
    requires Good(start.rows, start.next) && Admissible(start, es) && i in d.rows
    ensures DistinctKinds(d.rows[i].prices)
  {
    if k :| 0 <= k < |d.placed| && d.placed[k] == i {
      EntryPrices(start, es, d, k);
    } else {
      assert i !in d.placed;
    }
  }

  lemma AllowedWhenAdmissible(start: Draft, es: seq<Entry>, d: Draft)
    requires IsIndex(start.rows, start.index) && Placement(start, es, d) && Apart(es)
    requires Good(start.rows, start.next) && Admissible(start, es)
    ensures Allowed(d.rows)
  {
    forall i, j | i in d.rows && j in d.rows && i != j && Live(d.rows[i]) && Live(d.rows[j])
      ensures d.rows[i].name != d.rows[j].name
      ensures (d.rows[i].pattern, d.rows[i].provider) != (d.rows[j].pattern, d.rows[j].provider)
    {
      FreeOfClashes(start, es, d, i, j);
    }
    forall i | i in d.rows
      ensures DistinctKinds(d.rows[i].prices)
    {
      PricesAdmitted(start, es, d, i);
    }
  }

  // ---------------------------------------------------------------- what a run leaves behind

  /** The row carries exactly what the entry says: its rated quotes, pattern and provider. */
  ghost predicate UpToDate(m: Model, e: Entry)
  {
    && Live(m) && m.pattern == Strip(e.pattern) && m.provider == Strip(e.provider)
    && DistinctKinds(m.prices) && (forall x :: x in m.prices <==> x in Rated(e.quotes))
  }

  /** The entry's row: the one of that very name if there was one, else a new one. */
  ghost predicate OwnRow(start: Draft, e: Entry, after: Rows, id: RowId)
  {
    && id in after && UpToDate(after[id], e)
    && after[id].name == (if e.name in start.index then e.name else Strip(e.name))
    && if e.name in start.index then id == start.index[e.name] else id !in start.rows
  }

  /** The catalog in line with the accepted entries. */
  ghost predicate Reconciled(start: Draft, es: seq<Entry>, used: set<RowId>, after: Rows, placed: seq<RowId>)
  {
    && |placed| == |es|
    && (forall k | 0 <= k < |es| :: OwnRow(start, es[k], after, placed[k]))
    && (forall i, j | 0 <= i < j < |es| :: placed[i] != placed[j])
    && (forall i :: i in after <==> i in start.rows || i in placed)
    && (forall i | i in start.rows && i !in placed ::
          after[i] == if Live(start.rows[i]) && i !in used then start.rows[i].(deleted := true) else start.rows[i])
  }

  lemma LeftOver(start: Draft, es: seq<Entry>, d: Draft, i: RowId)
    requires IsIndex(start.rows, start.index) && Placement(start, es, d) && i in d.rows
    requires forall i :: i in start.rows ==> i < start.next
    ensures i in d.index.Values <==> i in start.rows && Live(start.rows[i]) && i !in d.placed
  {
    if i in d.index.Values {
      var n :| n in d.index && d.index[n] == i;
      assert start.index[n] == i;
      PlacedIffClaimed(start, es, d, i);
    }
    if i in start.rows && Live(start.rows[i]) && i !in d.placed {
      PlacedIffClaimed(start, es, d, i);
      assert d.index[start.rows[i].name] == i;
    }
  }

  lemma EntryReconciled(start: Draft, es: seq<Entry>, used: set<RowId>, d: Draft, k: nat)
    requires IsIndex(start.rows, start.index) && Placement(start, es, d) && k < |es|
    requires Good(start.rows, start.next) && Admissible(start, es)
    ensures OwnRow(start, es[k], Retired(d.rows, d.index.Values, used), d.placed[k])
  {
    EntryRow(start, es, d, k);
    EntryPrices(start, es, d, k);
    LeftOver(start, es, d, d.placed[k]);
    assert d.placed[k] in d.placed;
    assert RightRow(start, es[k], d, d.placed[k]);
    SyncedIsRated(if es[k].name in start.index then start.rows[start.index[es[k].name]].prices else [], es[k].quotes);
  }

  lemma DraftReconciled(start: Draft, es: seq<Entry>, used: set<RowId>, d: Draft)
    requires IsIndex(start.rows, start.index) && Placement(start, es, d)
    requires Good(start.rows, start.next) && Admissible(start, es)
    ensures Reconciled(start, es, used, Retired(d.rows, d.index.Values, used), d.placed)
  {
    forall k | 0 <= k < |es|
      ensures OwnRow(start, es[k], Retired(d.rows, d.index.Values, used), d.placed[k])
    {
      EntryReconciled(start, es, used, d, k);
    }
    forall i | i in d.rows
      ensures i in d.index.Values <==> i in start.rows && Live(start.rows[i]) && i !in d.placed
    {
      LeftOver(start, es, d, i);
    }
  }

  /** A run commits exactly when no accepted entry quotes a kind twice at a rate and none takes the
      name, or the pattern and provider, of a live built-in model that no accepted entry names; then
      each accepted entry has one row, carrying exactly its rated quotes, and every other live
      built-in model is soft-deleted exactly when no cost refers to it. */
  lemma RunReconciles(rows: Rows, next: RowId, used: set<RowId>, entries: seq<Entry>, compiles: string -> bool)
    requires Good(rows, next)
    ensures var es, run := Scan(entries, compiles).accepted, Reconcile(rows, next, used, entries, compiles);
            var start := Opened(rows, next);
            && (run.Some? <==> Admissible(start, es))
            && (run.Some? ==> Reconciled(start, es, used, run.value.0, Taken(start, es).placed))
  {
    var es, start := Scan(entries, compiles).accepted, Opened(rows, next);
    OpenedIsGood(rows, next);
    ScanApart(entries, compiles);
    ApartNamesDiffer(es);
    TakenPlaces(start, es);
    var d := Taken(start, es);
    if Admissible(start, es) {
      AllowedWhenAdmissible(start, es, d);
      DraftReconciled(start, es, used, d);
    } else if Allowed(d.rows) {
      RefusedWhenInadmissible(start, es, d);
    }
  }

  lemma OpenedIsGood(rows: Rows, next: RowId)
    requires Good(rows, next)
    ensures IsIndex(Opened(rows, next).rows, Opened(rows, next).index)
  {
    IndexHolds(rows);
  }

  // ---------------------------------------------------------------- the second run

  lemma {:induction false} NoNewRows(start: Draft, es: seq<Entry>)
    requires IsIndex(start.rows, start.index) && start.placed == []
    requires forall i :: i in start.rows ==> i < start.next
    requires NamesDiffer(es) && forall k :: 0 <= k < |es| ==> es[k].name in start.index
    ensures Taken(start, es).next == start.next
    decreases |es|
  {
    if es != [] {
      var init := es[..|es| - 1];
      NoNewRows(start, init);
      TakenPlaces(start, init);
      assert !Claimed(init, es[|es| - 1].name);
    }
  }

  /** Every accepted name is written without surrounding space, or is that of a live built-in model. */
  ghost predicate Recognised(start: Draft, es: seq<Entry>)
  {
    forall k | 0 <= k < |es| :: es[k].name == Strip(es[k].name) || es[k].name in start.index
  }

  lemma StillAllowed(rows: Rows, left: set<RowId>, used: set<RowId>)
    requires Allowed(rows)
    ensures Allowed(Retired(rows, left, used))
  {
    var after := Retired(rows, left, used);
    assert forall i :: i in after && Live(after[i]) ==> Live(rows[i]) && after[i] == rows[i];
  }

  /** The second run finds each entry's row, and nothing to change in it. */
  lemma FoundUnchanged(start: Draft, es: seq<Entry>, used: set<RowId>, after: Rows, placed: seq<RowId>, next: RowId,
                       k: nat)
    requires IsIndex(start.rows, start.index) && Reconciled(start, es, used, after, placed)
    requires Good(after, next) && Admissible(start, es) && Recognised(start, es) && k < |es|
    ensures var again := Opened(after, next);
            && es[k].name in again.index && again.index[es[k].name] == placed[k]
            && Updated(after[placed[k]], es[k]) == after[placed[k]]
  {
    IndexHolds(after);
    assert OwnRow(start, es[k], after, placed[k]);
    SyncedAgain(after[placed[k]].prices, es[k].quotes);
  }

  lemma LeftAreUsed(start: Draft, es: seq<Entry>, used: set<RowId>, after: Rows, placed: seq<RowId>, i: RowId)
    requires IsIndex(start.rows, start.index) && Reconciled(start, es, used, after, placed)
    requires i in after && Live(after[i]) && i !in placed
    ensures i in used
  {
  }

  lemma RowsFoundUnchanged(start: Draft, es: seq<Entry>, used: set<RowId>, after: Rows, placed: seq<RowId>, next: RowId)
    requires IsIndex(start.rows, start.index) && Reconciled(start, es, used, after, placed)
    requires Good(after, next) && Apart(es) && Admissible(start, es) && Recognised(start, es)
    ensures var d := Taken(Opened(after, next), es);
            d.rows == after && d.next == next && d.placed == placed
  {
    var again := Opened(after, next);
    OpenedIsGood(after, next);
    ApartNamesDiffer(es);
    TakenPlaces(again, es);
    var d := Taken(again, es);
    forall k | 0 <= k < |es|
      ensures es[k].name in again.index && d.placed[k] == placed[k] && d.placed[k] in after
      ensures d.rows[d.placed[k]] == after[d.placed[k]]
    {
      FoundUnchanged(start, es, used, after, placed, next, k);
      assert RightRow(again, es[k], d, d.placed[k]);
    }
    NoNewRows(again, es);
    SameRows(again, es, d);
    assert d.placed == placed;
  }

  lemma SameRows(start: Draft, es: seq<Entry>, d: Draft)
    requires IsIndex(start.rows, start.index) && Placement(start, es, d)
    requires forall k | 0 <= k < |es| ::
               d.placed[k] in start.rows && d.placed[k] in d.rows && d.rows[d.placed[k]] == start.rows[d.placed[k]]
    ensures d.rows == start.rows
  {
    forall i | i in d.rows
      ensures i in start.rows && d.rows[i] == start.rows[i]
    {
      if i in d.placed {
        var k :| 0 <= k < |d.placed| && d.placed[k] == i;
      }
    }
    assert d.rows.Keys == start.rows.Keys;
  }

  lemma NothingMoreToRetire(start: Draft, es: seq<Entry>, used: set<RowId>, again: Draft, d: Draft)
    requires IsIndex(start.rows, start.index) && Reconciled(start, es, used, again.rows, d.placed)
    requires IsIndex(again.rows, again.index) && Placement(again, es, d) && d.rows == again.rows
    requires forall i :: i in again.rows ==> i < again.next
    ensures Retired(d.rows, d.index.Values, used) == again.rows
  {
    var left := d.index.Values;
    forall i | i in d.rows && i in left
      ensures i in used
    {
      LeftAreUsedAgain(start, es, used, again, d, i);
    }
    RetiredSame(d.rows, left, used);
  }

  lemma LeftAreUsedAgain(start: Draft, es: seq<Entry>, used: set<RowId>, again: Draft, d: Draft, i: RowId)
    requires IsIndex(start.rows, start.index) && Reconciled(start, es, used, again.rows, d.placed)
    requires IsIndex(again.rows, again.index) && Placement(again, es, d) && d.rows == again.rows
    requires forall i :: i in again.rows ==> i < again.next
    requires i in d.rows && i in d.index.Values
    ensures i in used
  {
    LeftOver(again, es, d, i);
    LeftAreUsed(start, es, used, again.rows, d.placed, i);
  }

  lemma RetiredSame(rows: Rows, left: set<RowId>, used: set<RowId>)
    requires forall i :: i in rows && i in left ==> i in used
    ensures Retired(rows, left, used) == rows
  {
    var after := Retired(rows, left, used);
    assert after.Keys == rows.Keys;
    assert forall i :: i in rows ==> after[i] == rows[i];
  }

  lemma NameNotFound(start: Draft, es: seq<Entry>, used: set<RowId>, after: Rows, placed: seq<RowId>, k: nat, i: RowId)
    requires IsIndex(start.rows, start.index) && Reconciled(start, es, used, after, placed)
    requires Apart(es) && k < |es| && es[k].name != Strip(es[k].name) && es[k].name !in start.index
    requires i in after && Live(after[i])
    ensures after[i].name != es[k].name
  {
    if j :| 0 <= j < |placed| && placed[j] == i {
      assert OwnRow(start, es[j], after, placed[j]);
      StripIsTrimmed(es[j].name);
    } else {
      assert i !in placed;
    }
  }

  /** An unrecognised name makes a new row that the second run does not find, and whose name is then
      in the way. */
  lemma UnrecognisedClashes(start: Draft, es: seq<Entry>, used: set<RowId>, after: Rows, placed: seq<RowId>,
                            next: RowId, k: nat)
    requires IsIndex(start.rows, start.index) && Reconciled(start, es, used, after, placed)
    requires Good(after, next) && Apart(es) && k < |es|
    requires es[k].name != Strip(es[k].name) && es[k].name !in start.index
    ensures Clashes(Opened(after, next), es, es[k])
  {
    var again := Opened(after, next);
    IndexHolds(after);
    StripIsTrimmed(es[k].name);
    assert OwnRow(start, es[k], after, placed[k]);
    forall j | 0 <= j < |es|
      ensures es[j].name != Strip(es[k].name)
      ensures j != k ==> Strip(es[j].name) != Strip(es[k].name)
    {
      assert j < k ==> Strip(es[j].name) != Strip(es[k].name);
      assert k < j ==> Strip(es[k].name) != Strip(es[j].name);
    }
    forall i | i in after && Live(after[i])
      ensures after[i].name != es[k].name
    {
      NameNotFound(start, es, used, after, placed, k, i);
    }
    assert Blocks(again, after[placed[k]], es[k]);
  }

  /** Running again on the same manifest commits and changes nothing exactly when every accepted
      name was recognisable; otherwise the second commit is refused. */
  lemma SecondRun(rows: Rows, next: RowId, used: set<RowId>, entries: seq<Entry>, compiles: string -> bool)
    requires Good(rows, next) && Reconcile(rows, next, used, entries, compiles).Some?
    ensures var (after, later) := Reconcile(rows, next, used, entries, compiles).value;
            && Good(after, later)
            && Reconcile(after, later, used, entries, compiles)
               == if Recognised(Opened(rows, next), Scan(entries, compiles).accepted) then Some((after, later))
                 else None
  {
    var es, start := Scan(entries, compiles).accepted, Opened(rows, next);
    var (after, later) := Reconcile(rows, next, used, entries, compiles).value;
    OpenedIsGood(rows, next);
    ScanApart(entries, compiles);
    ApartNamesDiffer(es);
    RunReconciles(rows, next, used, entries, compiles);
    TakenPlaces(start, es);
    var d := Taken(start, es);
    StillAllowed(d.rows, d.index.Values, used);
    RowsBelowNext(start, es, d);
    if Recognised(start, es) {
      RowsFoundUnchanged(start, es, used, after, d.placed, later);
      var again := Opened(after, later);
      OpenedIsGood(after, later);
      TakenPlaces(again, es);
      NothingMoreToRetire(start, es, used, again, Taken(again, es));
    } else {
      var k :| 0 <= k < |es| && es[k].name != Strip(es[k].name) && es[k].name !in start.index;
      UnrecognisedClashes(start, es, used, after, d.placed, later, k);
      RunReconciles(after, later, used, entries, compiles);
    }
  }

  lemma RowsBelowNext(start: Draft, es: seq<Entry>, d: Draft)
    requires IsIndex(start.rows, start.index) && Placement(start, es, d)
    requires forall i :: i in start.rows ==> i < start.next
    ensures forall i :: i in d.rows ==> i < d.next
  {
    forall i | i in d.placed
      ensures i < d.next
    {
      var k :| 0 <= k < |d.placed| && d.placed[k] == i;
      assert RightRow(start, es[k], d, d.placed[k]);
    }
  }

  lemma ScanOne(e: Entry, compiles: string -> bool)
    requires Strip(e.name) != "" && compiles(Strip(e.pattern))
    ensures Scan([e], compiles).accepted == [e]
  {
    assert Scan([e][..0], compiles) == Scanned({}, {}, []);
  }

  /** The code looks a model up by the name as written and stores the stripped one: on an empty
      catalog, a manifest whose only name has space around it is accepted once and then refused. */
  lemma SpacedNameRefusedLater(e: Entry, compiles: string -> bool)
    requires Strip(e.name) != "" && e.name != Strip(e.name) && compiles(Strip(e.pattern))
             && DistinctKinds(Rated(e.quotes))
    ensures var first := Reconcile(map[], 0, {}, [e], compiles);
            first.Some? && Reconcile(first.value.0, first.value.1, {}, [e], compiles) == None
  {
    ScanOne(e, compiles);
    var start := Opened(map[], 0);
    RunReconciles(map[], 0, {}, [e], compiles);
    assert !Recognised(start, [e]) by { assert [e][0] == e; }
    SecondRun(map[], 0, {}, [e], compiles);
  }

  /** Giving a built-in model a new name while keeping its pattern and provider is refused, because
      the model under the old name is retired only after the commit. */
  lemma RenamingRefused(m: Model, e: Entry, used: set<RowId>, compiles: string -> bool)
    requires Live(m) && DistinctKinds(m.prices) && (m.pattern, m.provider) == Matcher(e)
    requires Strip(e.name) != "" && compiles(Strip(e.pattern)) && e.name != m.name
    ensures Good(map[0 := m], 1) && Reconcile(map[0 := m], 1, used, [e], compiles) == None
  {
    var rows: Rows := map[0 := m];
    ScanOne(e, compiles);
    var start := Opened(rows, 1);
    assert Clashes(start, [e], [e][0]) by {
      assert Blocks(start, rows[0], e);
    }
    RunReconciles(rows, 1, used, [e], compiles);
  }

  /** A built-in model that is not deleted and has the entry's pattern and provider. */
  ghost predicate Serves(rows: Rows, e: Entry)
  {
    exists i :: i in rows && rows[i].builtIn && !rows[i].deleted && rows[i].pattern == Strip(e.pattern)
                && rows[i].provider == Strip(e.provider)
  }

  /** A run leaves custom and already deleted models alone, and whatever it leaves for an accepted entry
      is a built-in model that is not deleted. */
  lemma CustomAndDeletedStay(rows: Rows, next: RowId, used: set<RowId>, entries: seq<Entry>, compiles: string -> bool)
    requires Good(rows, next) && Reconcile(rows, next, used, entries, compiles).Some?
    ensures var es, after := Scan(entries, compiles).accepted, Reconcile(rows, next, used, entries, compiles).value.0;
            && (forall i :: i in rows && (!rows[i].builtIn || rows[i].deleted) ==> i in after && after[i] == rows[i])
            && forall k :: 0 <= k < |es| ==> Serves(after, es[k])
  {
    var es, start := Scan(entries, compiles).accepted, Opened(rows, next);
    var after, placed := Reconcile(rows, next, used, entries, compiles).value.0, Taken(start, es).placed;
    RunReconciles(rows, next, used, entries, compiles);
    OpenedIsGood(rows, next);
    forall i | i in rows && (!rows[i].builtIn || rows[i].deleted)
      ensures i in after && after[i] == rows[i]
    {
      NeverPlaced(start, es, used, after, placed, i);
    }
    forall k | 0 <= k < |es|
      ensures Serves(after, es[k])
    {
      assert OwnRow(start, es[k], after, placed[k]);
    }
  }

  lemma NeverPlaced(start: Draft, es: seq<Entry>, used: set<RowId>, after: Rows, placed: seq<RowId>, i: RowId)
    requires IsIndex(start.rows, start.index) && Reconciled(start, es, used, after, placed)
    requires i in start.rows && (!start.rows[i].builtIn || start.rows[i].deleted)
    ensures i !in placed
  {
    forall k | 0 <= k < |es|
      ensures placed[k] != i
    {
      assert OwnRow(start, es[k], after, placed[k]);
    }
  }
}
