/** ATM call selection for one underlying asset: keep the asset's call
    quotes, apply the spot override, sort by (expiry token, strike), mark
    the candidates (strike at or above spot, with a bid) and take, per
    expiry token, the first candidate's columns. */
module AtmSelection {
  import opened Wrappers
  import Text

  /** A raw cell of the flattened quote table: JSON null, or a value whose
      numeric coercion yields a number or NaN (None). */
  datatype Cell = Null | Value(numeric: Option<real>)

  /** One option quote. `spot` and `strike` are already coerced to
      numbers; None stands for NaN. `bestBid` and `bidSize` are raw. */
  datatype Quote = Quote(
    underlying: string,
    contractType: string,
    symbol: string,
    spot: Option<real>,
    strike: Option<real>,
    bestBid: Cell,
    bidSize: Cell)

  /** The columns `groupby(...).first()` yields for one expiry token. */
  datatype Group = Group(
    expiry: string,
    spot: Option<real>,
    strike: Option<real>,
    bestBid: Cell,
    bidSize: Cell)

  const CallOptions: string := "call_options"

  /** Boolean-mask row selection: the rows satisfying `p`, in order. */
  function Keep<T>(s: seq<T>, p: T -> bool): (r: seq<T>)
    ensures |r| <= |s|
    ensures forall i :: 0 <= i < |r| ==> r[i] in s && p(r[i])
    ensures forall i :: 0 <= i < |s| && p(s[i]) ==> s[i] in r
    decreases |s|
  {
    if s == [] then [] else (if p(s[0]) then [s[0]] else []) + Keep(s[1..], p)
  }

  /** The mask keeps every copy of a value it accepts and none of the
      others. */
  lemma {:induction false} KeepCount<T>(s: seq<T>, p: T -> bool, x: T)
    ensures multiset(Keep(s, p))[x] == if p(x) then multiset(s)[x] else 0
    decreases |s|
  {
    if s != [] {
      KeepCount(s[1..], p, x);
      assert s == [s[0]] + s[1..];
      var head := if p(s[0]) then [s[0]] else [];
      assert multiset(Keep(s, p)) == multiset(head) + multiset(Keep(s[1..], p));
    }
  }

  lemma {:induction false} KeepAppend<T>(a: seq<T>, b: seq<T>, p: T -> bool)
    ensures Keep(a + b, p) == Keep(a, p) + Keep(b, p)
    decreases |a|
  {
    if a != [] {
      assert (a + b)[0] == a[0] && (a + b)[1..] == a[1..] + b;
      KeepAppend(a[1..], b, p);
      var head := if p(a[0]) then [a[0]] else [];
      assert Keep(a + b, p) == head + Keep(a[1..] + b, p);
      assert Keep(a, p) == head + Keep(a[1..], p);
    } else {
      assert a + b == b;
    }
  }

  lemma {:induction false} KeepAll<T>(s: seq<T>, p: T -> bool)
    requires forall i :: 0 <= i < |s| ==> p(s[i])
    ensures Keep(s, p) == s
    decreases |s|
  {
    if s != [] {
      KeepAll(s[1..], p);
    }
  }

  lemma {:induction false} KeepNone<T>(s: seq<T>, p: T -> bool)
    requires forall i :: 0 <= i < |s| ==> !p(s[i])
    ensures Keep(s, p) == []
    decreases |s|
  {
    if s != [] {
      KeepNone(s[1..], p);
    }
  }

  /** The rows of the requested underlying asset. */
  function AssetRows(quotes: seq<Quote>, asset: string): seq<Quote>
  {
    Keep(quotes, (q: Quote) => q.underlying == asset)
  }

  /** One row after the override: a user price above zero replaces the
      source spot price. */
  function WithSpot(q: Quote, userSpot: real): Quote
  {
    if userSpot > 0.0 then q.(spot := Some(userSpot)) else q
  }

  /** The override applied to every row; nothing but the spot changes. */
  function OverrideSpot(qs: seq<Quote>, userSpot: real): (r: seq<Quote>)
    ensures |r| == |qs|
    ensures forall i :: 0 <= i < |qs| ==>
      r[i].spot == (if userSpot > 0.0 then Some(userSpot) else qs[i].spot)
    ensures forall i :: 0 <= i < |qs| ==> r[i] == qs[i].(spot := r[i].spot)
  {
    seq(|qs|, i requires 0 <= i < |qs| => WithSpot(qs[i], userSpot))
  }

  /** The call options among `qs`. */
  function CallRows(qs: seq<Quote>): seq<Quote>
  {
    Keep(qs, (q: Quote) => q.contractType == CallOptions)
  }

  /** The expiry token of a quote: the last `-`-separated piece of its symbol. */
  function ExpiryOf(q: Quote): string
  {
    Text.LastToken(q.symbol, '-')
  }

  /** A call row with its `expiry` column added. */
  datatype ExpiryRow = ExpiryRow(expiry: string, quote: Quote)

  /** The `expiry` column: each row paired with its symbol's expiry token. */
  function AddExpiry(qs: seq<Quote>): (rs: seq<ExpiryRow>)
    ensures |rs| == |qs|
    ensures forall i :: 0 <= i < |qs| ==> rs[i].quote == qs[i] && rs[i].expiry == ExpiryOf(qs[i])
  {
    seq(|qs|, i requires 0 <= i < |qs| => ExpiryRow(ExpiryOf(qs[i]), qs[i]))
  }

  /** The asset's call rows with the override applied and the expiry
      column added, before sorting. */
  function EligibleCalls(quotes: seq<Quote>, asset: string, userSpot: real): seq<ExpiryRow>
  {
    AddExpiry(CallRows(OverrideSpot(AssetRows(quotes, asset), userSpot)))
  }

  /** Every eligible row is an input quote of the asset, of call type,
      with the override applied and its own expiry token. */
  lemma EligibleCallsProvenance(quotes: seq<Quote>, asset: string, userSpot: real, r: ExpiryRow)
    requires r in EligibleCalls(quotes, asset, userSpot)
    ensures exists q0 :: (q0 in quotes && q0.underlying == asset && q0.contractType == CallOptions
      && r.quote == WithSpot(q0, userSpot) && r.expiry == ExpiryOf(q0))
  {
    var rows := AssetRows(quotes, asset);
    var over := OverrideSpot(rows, userSpot);
    var calls := CallRows(over);
    var k :| 0 <= k < |calls| && AddExpiry(calls)[k] == r;
    assert calls[k] in calls;
    var i :| 0 <= i < |over| && over[i] == calls[k];
    assert r.quote == WithSpot(rows[i], userSpot);
    assert rows[i] in rows;
  }

  /** Conversely every input quote of the asset and of call type is an
      eligible row. */
  lemma EligibleCallsComplete(quotes: seq<Quote>, asset: string, userSpot: real, q0: Quote)
    requires q0 in quotes && q0.underlying == asset && q0.contractType == CallOptions
    ensures ExpiryRow(ExpiryOf(q0), WithSpot(q0, userSpot)) in EligibleCalls(quotes, asset, userSpot)
  {
    var rows := AssetRows(quotes, asset);
    var over := OverrideSpot(rows, userSpot);
    var i :| 0 <= i < |rows| && rows[i] == q0;
    assert over[i] == WithSpot(q0, userSpot);
    var calls := CallRows(over);
    assert over[i] in calls;
    var k :| 0 <= k < |calls| && calls[k] == over[i];
    assert AddExpiry(calls)[k] == ExpiryRow(ExpiryOf(q0), WithSpot(q0, userSpot));
  }

  // ---- Sorting by (expiry token, strike) ----

  /** Ascending order on strikes with NaN placed last. */
  predicate StrikeAtMost(a: Option<real>, b: Option<real>)
  {
    b.None? || (a.Some? && a.value <= b.value)
  }

  /** The sort key order: expiry token as a string, then strike. */
  predicate SortKeyAtMost(a: ExpiryRow, b: ExpiryRow)
  {
    Text.Less(a.expiry, b.expiry)
    || (a.expiry == b.expiry && StrikeAtMost(a.quote.strike, b.quote.strike))
  }

  lemma SortKeyTransitive(a: ExpiryRow, b: ExpiryRow, c: ExpiryRow)
    requires SortKeyAtMost(a, b) && SortKeyAtMost(b, c)
    ensures SortKeyAtMost(a, c)
  {
    if Text.Less(a.expiry, b.expiry) && Text.Less(b.expiry, c.expiry) {
      Text.LessTransitive(a.expiry, b.expiry, c.expiry);
    }
  }

  lemma SortKeyTotal(a: ExpiryRow, b: ExpiryRow)
    ensures SortKeyAtMost(a, b) || SortKeyAtMost(b, a)
  {
    if a.expiry != b.expiry {
      Text.LessTotal(a.expiry, b.expiry);
    }
  }

  predicate Sorted(s: seq<ExpiryRow>)
  {
    forall i, j :: 0 <= i < j < |s| ==> SortKeyAtMost(s[i], s[j])
  }

  /** Places `r` before the first row it does not follow, so that rows
      with equal keys keep their input order. */
  function Insert(r: ExpiryRow, s: seq<ExpiryRow>): (t: seq<ExpiryRow>)
    ensures multiset(t) == multiset(s) + multiset{r}
    decreases |s|
  {
    if s == [] then [r]
    else if SortKeyAtMost(r, s[0]) then [r] + s
    else
      assert s == [s[0]] + s[1..];
      [s[0]] + Insert(r, s[1..])
  }

  lemma {:induction false} InsertSorted(r: ExpiryRow, s: seq<ExpiryRow>)
    requires Sorted(s)
    ensures Sorted(Insert(r, s))
    decreases |s|
  {
    if s == [] {
    } else if SortKeyAtMost(r, s[0]) {
      forall j | 0 <= j < |s| ensures SortKeyAtMost(r, s[j]) {
        if j > 0 {
          SortKeyTransitive(r, s[0], s[j]);
        }
      }
      var t := [r] + s;
      forall i, j | 0 <= i < j < |t| ensures SortKeyAtMost(t[i], t[j]) {
        if i > 0 {
          assert t[i] == s[i - 1] && t[j] == s[j - 1];
        }
      }
    } else {
      SortKeyTotal(r, s[0]);
      InsertSorted(r, s[1..]);
      var tail := Insert(r, s[1..]);
      forall x | x in tail ensures SortKeyAtMost(s[0], x) {
        assert x in multiset(tail);
        assert x == r || x in multiset(s[1..]);
      }
      var t := [s[0]] + tail;
      forall i, j | 0 <= i < j < |t| ensures SortKeyAtMost(t[i], t[j]) {
        if i == 0 {
          assert t[j] == tail[j - 1] && t[j] in tail;
        } else {
          assert t[i] == tail[i - 1] && t[j] == tail[j - 1];
        }
      }
    }
  }

  /** `sort_values(["expiry", "strike_price"])`: a stable insertion sort. */
  function SortByExpiryStrike(s: seq<ExpiryRow>): (t: seq<ExpiryRow>)
    ensures multiset(t) == multiset(s)
    ensures Sorted(t)
    decreases |s|
  {
    if s == [] then []
    else
      assert s == [s[0]] + s[1..];
      var rest := SortByExpiryStrike(s[1..]);
      InsertSorted(s[0], rest);
      Insert(s[0], rest)
  }

  // ---- Candidacy ----

  /** At the money or the first out of the money: strike at or above spot
      (a NaN on either side compares false) and a best bid that is not
      null. The bid is checked raw, before any numeric coercion. */
  predicate IsCandidate(q: Quote)
  {
    q.strike.Some? && q.spot.Some? && q.strike.value >= q.spot.value && !q.bestBid.Null?
  }

  function Candidates(s: seq<ExpiryRow>): seq<ExpiryRow>
  {
    Keep(s, (r: ExpiryRow) => IsCandidate(r.quote))
  }

  /** A sorted sequence with a head no later than every row of it. */
  lemma SortedCons(h: ExpiryRow, tail: seq<ExpiryRow>)
    requires Sorted(tail)
    requires forall x :: x in tail ==> SortKeyAtMost(h, x)
    ensures Sorted([h] + tail)
  {
    var t := [h] + tail;
    forall i, j | 0 <= i < j < |t| ensures SortKeyAtMost(t[i], t[j]) {
      assert t[j] == tail[j - 1] && t[j] in tail;
      if i > 0 {
        assert t[i] == tail[i - 1];
      }
    }
  }

  lemma HeadFirst(s: seq<ExpiryRow>)
    requires Sorted(s) && s != []
    ensures Sorted(s[1..])
    ensures forall x :: x in s[1..] ==> SortKeyAtMost(s[0], x)
  {
    forall x | x in s[1..] ensures SortKeyAtMost(s[0], x) {
      var k :| 0 <= k < |s[1..]| && s[1..][k] == x;
      assert s[k + 1] == x;
    }
  }

  lemma {:induction false} KeepSorted(s: seq<ExpiryRow>, p: ExpiryRow -> bool)
    requires Sorted(s)
    ensures Sorted(Keep(s, p))
    decreases |s|
  {
    if s != [] {
      HeadFirst(s);
      KeepSorted(s[1..], p);
      var tail := Keep(s[1..], p);
      if p(s[0]) {
        forall x | x in tail ensures SortKeyAtMost(s[0], x) {
          var k :| 0 <= k < |tail| && tail[k] == x;
          assert x in s[1..];
        }
        SortedCons(s[0], tail);
        assert Keep(s, p) == [s[0]] + tail;
      } else {
        assert Keep(s, p) == tail;
      }
    }
  }

  // ---- groupby("expiry").first() ----

  /** The first non-NaN value of a numeric column. */
  function FirstPresent(xs: seq<Option<real>>): (r: Option<real>)
    ensures r.None? <==> forall i :: 0 <= i < |xs| ==> xs[i].None?
    ensures r.Some? ==> exists k :: (0 <= k < |xs| && xs[k] == r
      && forall j :: 0 <= j < k ==> xs[j].None?)
    decreases |xs|
  {
    if xs == [] then None
    else if xs[0].Some? then xs[0]
    else FirstPresent(xs[1..])
  }

  /** The first non-null value of a raw column. */
  function FirstNonNull(cs: seq<Cell>): (r: Cell)
    ensures r.Null? <==> forall i :: 0 <= i < |cs| ==> cs[i].Null?
    ensures !r.Null? ==> exists k :: (0 <= k < |cs| && cs[k] == r
      && forall j :: 0 <= j < k ==> cs[j].Null?)
    decreases |cs|
  {
    if cs == [] then Null
    else if !cs[0].Null? then cs[0]
    else FirstNonNull(cs[1..])
  }

  function Spots(rows: seq<ExpiryRow>): (xs: seq<Option<real>>)
    ensures |xs| == |rows|
  {
    seq(|rows|, i requires 0 <= i < |rows| => rows[i].quote.spot)
  }

  function Strikes(rows: seq<ExpiryRow>): (xs: seq<Option<real>>)
    ensures |xs| == |rows|
  {
    seq(|rows|, i requires 0 <= i < |rows| => rows[i].quote.strike)
  }

  function BestBids(rows: seq<ExpiryRow>): (cs: seq<Cell>)
    ensures |cs| == |rows|
  {
    seq(|rows|, i requires 0 <= i < |rows| => rows[i].quote.bestBid)
  }

  function BidSizes(rows: seq<ExpiryRow>): (cs: seq<Cell>)
    ensures |cs| == |rows|
  {
    seq(|rows|, i requires 0 <= i < |rows| => rows[i].quote.bidSize)
  }

  /** `first()` of one group: each column's first non-null value, taken
      column by column, not necessarily all from the same row. */
  function FirstOfColumns(expiry: string, rows: seq<ExpiryRow>): Group
  {
    Group(expiry, FirstPresent(Spots(rows)), FirstPresent(Strikes(rows)),
          FirstNonNull(BestBids(rows)), FirstNonNull(BidSizes(rows)))
  }

  /** Among candidates, spot, strike and best bid are never null, so those
      three columns come from the group's first row; the bid size is the
      first non-null one, possibly from a later row. */
  lemma FirstOfCandidates(expiry: string, rows: seq<ExpiryRow>)
    requires |rows| > 0 && forall i :: 0 <= i < |rows| ==> IsCandidate(rows[i].quote)
    ensures var g := FirstOfColumns(expiry, rows);
      && g.spot == rows[0].quote.spot && g.strike == rows[0].quote.strike
      && g.bestBid == rows[0].quote.bestBid
      && (g.bidSize.Null? <==> forall i :: 0 <= i < |rows| ==> rows[i].quote.bidSize.Null?)
      && (!g.bidSize.Null? ==> exists k :: (0 <= k < |rows| && g.bidSize == rows[k].quote.bidSize
            && forall j :: 0 <= j < k ==> rows[j].quote.bidSize.Null?))
  {
    assert Spots(rows)[0] == rows[0].quote.spot;
    assert Strikes(rows)[0] == rows[0].quote.strike;
    assert BestBids(rows)[0] == rows[0].quote.bestBid;
    var sizes := BidSizes(rows);
    assert forall i :: 0 <= i < |rows| ==> sizes[i] == rows[i].quote.bidSize;
  }

  /** Length of the leading run of rows whose expiry token is `key`. */
  function RunLength(rows: seq<ExpiryRow>, key: string): (n: nat)
    ensures n <= |rows|
    ensures forall i :: 0 <= i < n ==> rows[i].expiry == key
    ensures n < |rows| ==> rows[n].expiry != key
    decreases |rows|
  {
    if rows == [] || rows[0].expiry != key then 0 else 1 + RunLength(rows[1..], key)
  }

  /** `groupby("expiry", as_index=False).first()` over rows already sorted
      by expiry token: one group per run of equal tokens. */
  function GroupFirst(rows: seq<ExpiryRow>): seq<Group>
    decreases |rows|
  {
    if rows == [] then []
    else
      var key := rows[0].expiry;
      var n := RunLength(rows, key);
      [FirstOfColumns(key, rows[..n])] + GroupFirst(rows[n..])
  }

  /** The rows of one expiry token, in order. */
  function RowsWithExpiry(rows: seq<ExpiryRow>, key: string): seq<ExpiryRow>
  {
    Keep(rows, (r: ExpiryRow) => r.expiry == key)
  }

  function ExpiriesOf(rows: seq<ExpiryRow>): set<string>
  {
    set r | r in rows :: r.expiry
  }

  function GroupExpiries(gs: seq<Group>): (ks: set<string>)
    ensures forall i :: 0 <= i < |gs| ==> gs[i].expiry in ks
  {
    set g | g in gs :: g.expiry
  }

  predicate ExpirySorted(rows: seq<ExpiryRow>)
  {
    forall i, j :: 0 <= i < j < |rows| ==>
      rows[i].expiry == rows[j].expiry || Text.Less(rows[i].expiry, rows[j].expiry)
  }

  /** On rows sorted by token, GroupFirst is `groupby(...).first()`: the
      tokens come out in strictly ascending string order, each token of
      the input exactly once, each with the first values of its own rows. */
  lemma GroupFirstIsGroupBy(rows: seq<ExpiryRow>)
    requires ExpirySorted(rows)
    ensures var gs := GroupFirst(rows);
      && (forall i, j :: 0 <= i < j < |gs| ==> Text.Less(gs[i].expiry, gs[j].expiry))
      && GroupExpiries(gs) == ExpiriesOf(rows)
      && (forall g :: g in gs ==> g == FirstOfColumns(g.expiry, RowsWithExpiry(rows, g.expiry)))
  {
    GroupFirstTokens(rows);
    GroupFirstColumns(rows);
  }

  lemma {:induction false} GroupFirstTokens(rows: seq<ExpiryRow>)
    requires ExpirySorted(rows)
    ensures var gs := GroupFirst(rows);
      && (forall i, j :: 0 <= i < j < |gs| ==> Text.Less(gs[i].expiry, gs[j].expiry))
      && GroupExpiries(gs) == ExpiriesOf(rows)
    decreases |rows|
  {
    if rows != [] {
      var key := rows[0].expiry;
      var n := RunLength(rows, key);
      var tail := rows[n..];
      SplitAtRun(rows);
      GroupFirstTokens(tail);
      var rest := GroupFirst(tail);
      var gs := GroupFirst(rows);
      var first := FirstOfColumns(key, rows[..n]);
      assert gs == [first] + rest;
      assert forall g :: g in rest ==> Text.Less(key, g.expiry) by {
        forall g | g in rest ensures Text.Less(key, g.expiry) {
          assert g.expiry in GroupExpiries(rest);
          var r :| r in tail && r.expiry == g.expiry;
        }
      }
      AscendingCons(first, rest);
      GroupExpiriesCons(first, rest);
    }
  }

  lemma AscendingCons(first: Group, rest: seq<Group>)
    requires forall i, j :: 0 <= i < j < |rest| ==> Text.Less(rest[i].expiry, rest[j].expiry)
    requires forall g :: g in rest ==> Text.Less(first.expiry, g.expiry)
    ensures var gs := [first] + rest;
      forall i, j :: 0 <= i < j < |gs| ==> Text.Less(gs[i].expiry, gs[j].expiry)
  {
    var gs := [first] + rest;
    forall i, j | 0 <= i < j < |gs| ensures Text.Less(gs[i].expiry, gs[j].expiry) {
      assert gs[j] == rest[j - 1];
      if i > 0 {
        assert gs[i] == rest[i - 1];
      } else {
        assert gs[j] in rest;
      }
    }
  }

  lemma GroupExpiriesCons(first: Group, rest: seq<Group>)
    ensures GroupExpiries([first] + rest) == {first.expiry} + GroupExpiries(rest)
  {
    var gs := [first] + rest;
    forall g | g in gs ensures g == first || g in rest {
    }
    forall g | g in rest ensures g in gs {
    }
  }

  lemma {:induction false} GroupFirstColumns(rows: seq<ExpiryRow>)
    requires ExpirySorted(rows)
    ensures forall g :: g in GroupFirst(rows) ==> g == FirstOfColumns(g.expiry, RowsWithExpiry(rows, g.expiry))
    decreases |rows|
  {
    if rows != [] {
      var key := rows[0].expiry;
      var n := RunLength(rows, key);
      var tail := rows[n..];
      SplitAtRun(rows);
      GroupFirstTokens(tail);
      GroupFirstColumns(tail);
      var rest := GroupFirst(tail);
      assert GroupFirst(rows) == [FirstOfColumns(key, rows[..n])] + rest;
      forall g | g in GroupFirst(rows) ensures g == FirstOfColumns(g.expiry, RowsWithExpiry(rows, g.expiry)) {
        if g in rest {
          assert g.expiry in GroupExpiries(rest);
          var r :| r in tail && r.expiry == g.expiry;
        }
      }
    }
  }

  /** The first run of sorted rows and what follows it. */
  lemma SplitAtRun(rows: seq<ExpiryRow>)
    requires ExpirySorted(rows) && rows != []
    ensures var key := rows[0].expiry;
      var n := RunLength(rows, key);
      && 0 < n
      && ExpirySorted(rows[n..])
      && (forall r :: r in rows[n..] ==> Text.Less(key, r.expiry))
      && ExpiriesOf(rows) == {key} + ExpiriesOf(rows[n..])
      && RowsWithExpiry(rows, key) == rows[..n]
      && (forall k :: Text.Less(key, k) ==> RowsWithExpiry(rows, k) == RowsWithExpiry(rows[n..], k))
  {
    var key := rows[0].expiry;
    var n := RunLength(rows, key);
    SortedSuffix(rows, n);
    TokensAfterRun(rows, key, n);
    ExpiriesOfRun(rows, key, n);
    RowsWithExpiryOfRun(rows, key, n);
  }

  lemma SortedSuffix(rows: seq<ExpiryRow>, n: nat)
    requires ExpirySorted(rows) && n <= |rows|
    ensures ExpirySorted(rows[n..])
  {
    var tail := rows[n..];
    forall i, j | 0 <= i < j < |tail|
      ensures tail[i].expiry == tail[j].expiry || Text.Less(tail[i].expiry, tail[j].expiry)
    {
      assert tail[i] == rows[n + i] && tail[j] == rows[n + j];
    }
  }

  lemma ExpiriesOfRun(rows: seq<ExpiryRow>, key: string, n: nat)
    requires 0 < n <= |rows| && forall i :: 0 <= i < n ==> rows[i].expiry == key
    ensures ExpiriesOf(rows) == {key} + ExpiriesOf(rows[n..])
  {
    var run, tail := rows[..n], rows[n..];
    assert ExpiriesOf(run) == {key} by {
      assert rows[0] in run;
    }
    forall r | r in rows ensures r in run || r in tail {
      var i :| 0 <= i < |rows| && rows[i] == r;
      if i < n { assert run[i] == r; } else { assert tail[i - n] == r; }
    }
    assert ExpiriesOf(rows) == ExpiriesOf(run) + ExpiriesOf(tail);
  }

  lemma RowsWithExpiryOfRun(rows: seq<ExpiryRow>, key: string, n: nat)
    requires n <= |rows| && forall i :: 0 <= i < n ==> rows[i].expiry == key
    requires forall r :: r in rows[n..] ==> Text.Less(key, r.expiry)
    ensures RowsWithExpiry(rows, key) == rows[..n]
    ensures forall k :: Text.Less(key, k) ==> RowsWithExpiry(rows, k) == RowsWithExpiry(rows[n..], k)
  {
    RunRowsOfKey(rows, key, n);
    forall k | Text.Less(key, k) ensures RowsWithExpiry(rows, k) == RowsWithExpiry(rows[n..], k) {
      Text.LessIrreflexiveAsymmetric(key, k);
      RunRowsOfOtherKey(rows, key, n, k);
    }
  }

  lemma RunRowsOfKey(rows: seq<ExpiryRow>, key: string, n: nat)
    requires n <= |rows| && forall i :: 0 <= i < n ==> rows[i].expiry == key
    requires forall r :: r in rows[n..] ==> Text.Less(key, r.expiry)
    ensures RowsWithExpiry(rows, key) == rows[..n]
  {
    var run, tail := rows[..n], rows[n..];
    assert rows == run + tail;
    forall i | 0 <= i < |tail| ensures tail[i].expiry != key {
      assert tail[i] in tail;
      Text.LessIrreflexiveAsymmetric(key, key);
    }
    RowsWithExpirySplit(run, tail, key);
  }

  lemma RunRowsOfOtherKey(rows: seq<ExpiryRow>, key: string, n: nat, k: string)
    requires n <= |rows| && forall i :: 0 <= i < n ==> rows[i].expiry == key
    requires k != key
    ensures RowsWithExpiry(rows, k) == RowsWithExpiry(rows[n..], k)
  {
    var run, tail := rows[..n], rows[n..];
    assert rows == run + tail;
    RowsWithExpirySplit(run, tail, k);
  }

  /** In sorted rows, every token after the leading run of `key` is above `key`. */
  lemma TokensAfterRun(rows: seq<ExpiryRow>, key: string, n: nat)
    requires ExpirySorted(rows) && 0 < n <= |rows| && rows[0].expiry == key
    requires n < |rows| ==> rows[n].expiry != key
    ensures forall r :: r in rows[n..] ==> Text.Less(key, r.expiry)
  {
    forall r | r in rows[n..] ensures Text.Less(key, r.expiry) {
      var i :| n <= i < |rows| && rows[i] == r;
      assert rows[0].expiry == rows[n].expiry || Text.Less(key, rows[n].expiry);
      if i > n && r.expiry != rows[n].expiry {
        assert Text.Less(rows[n].expiry, r.expiry);
        Text.LessTransitive(key, rows[n].expiry, r.expiry);
      }
    }
  }

  /** Splitting the rows splits each token's rows. */
  lemma RowsWithExpirySplit(run: seq<ExpiryRow>, tail: seq<ExpiryRow>, k: string)
    ensures RowsWithExpiry(run + tail, k) == RowsWithExpiry(run, k) + RowsWithExpiry(tail, k)
    ensures (forall i :: 0 <= i < |run| ==> run[i].expiry == k) ==> RowsWithExpiry(run, k) == run
    ensures (forall i :: 0 <= i < |tail| ==> tail[i].expiry != k) ==> RowsWithExpiry(tail, k) == []
    ensures (forall i :: 0 <= i < |run| ==> run[i].expiry != k) ==> RowsWithExpiry(run, k) == []
  {
    var p := (r: ExpiryRow) => r.expiry == k;
    KeepAppend(run, tail, p);
    if forall i :: 0 <= i < |run| ==> run[i].expiry == k {
      KeepAll(run, p);
    }
    if forall i :: 0 <= i < |tail| ==> tail[i].expiry != k {
      KeepNone(tail, p);
    }
    if forall i :: 0 <= i < |run| ==> run[i].expiry != k {
      KeepNone(run, p);
    }
  }

  /** The candidate calls of the asset, after the override, sorted by
      (expiry token, strike). */
  function SortedCandidates(quotes: seq<Quote>, asset: string, userSpot: real): seq<ExpiryRow>
  {
    Candidates(SortByExpiryStrike(EligibleCalls(quotes, asset, userSpot)))
  }

  /** The selection end to end, from the raw quotes to one group per
      expiry token that has a candidate. */
  function SelectAtm(quotes: seq<Quote>, asset: string, userSpot: real): seq<Group>
  {
    GroupFirst(SortedCandidates(quotes, asset, userSpot))
  }

  /** `q0` is an input quote of the asset, of call type, with expiry
      token `k`, that is a candidate once the override is applied. */
  predicate IsCandidateQuote(q0: Quote, asset: string, userSpot: real, k: string)
  {
    q0.underlying == asset && q0.contractType == CallOptions
    && ExpiryOf(q0) == k && IsCandidate(WithSpot(q0, userSpot))
  }

  lemma SortedIsExpirySorted(s: seq<ExpiryRow>)
    requires Sorted(s)
    ensures ExpirySorted(s)
  {
  }

  /** The sorted candidates are exactly the eligible rows that are candidates. */
  lemma SortedCandidatesFacts(quotes: seq<Quote>, asset: string, userSpot: real)
    ensures var c := SortedCandidates(quotes, asset, userSpot);
      && Sorted(c)
      && forall r :: r in c <==> r in EligibleCalls(quotes, asset, userSpot) && IsCandidate(r.quote)
  {
    var e := EligibleCalls(quotes, asset, userSpot);
    var sorted := SortByExpiryStrike(e);
    KeepSorted(sorted, (r: ExpiryRow) => IsCandidate(r.quote));
    var c := SortedCandidates(quotes, asset, userSpot);
    forall r ensures r in c <==> r in e && IsCandidate(r.quote) {
      assert r in sorted <==> r in multiset(sorted);
      assert r in e <==> r in multiset(e);
      if r in c {
        var i :| 0 <= i < |c| && c[i] == r;
      }
      if r in sorted && IsCandidate(r.quote) {
        var i :| 0 <= i < |sorted| && sorted[i] == r;
      }
    }
  }

  /** The rows behind one selected group: the group's candidates, sorted,
      of which `first()` takes the columns. */
  lemma GroupOfSelection(quotes: seq<Quote>, asset: string, userSpot: real, g: Group)
    requires g in SelectAtm(quotes, asset, userSpot)
    ensures var rs := RowsWithExpiry(SortedCandidates(quotes, asset, userSpot), g.expiry);
      && |rs| > 0
      && Sorted(rs)
      && (forall i :: 0 <= i < |rs| ==> IsCandidate(rs[i].quote) && rs[i].expiry == g.expiry)
      && (forall r :: r in rs <==> r in EligibleCalls(quotes, asset, userSpot) && IsCandidate(r.quote) && r.expiry == g.expiry)
      && g == FirstOfColumns(g.expiry, rs)
  {
    GroupColumns(quotes, asset, userSpot, g);
    GroupMembers(quotes, asset, userSpot, g.expiry);
  }

  lemma GroupColumns(quotes: seq<Quote>, asset: string, userSpot: real, g: Group)
    requires g in SelectAtm(quotes, asset, userSpot)
    ensures var c := SortedCandidates(quotes, asset, userSpot);
      && g.expiry in ExpiriesOf(c)
      && Sorted(RowsWithExpiry(c, g.expiry))
      && g == FirstOfColumns(g.expiry, RowsWithExpiry(c, g.expiry))
  {
    var c := SortedCandidates(quotes, asset, userSpot);
    SortedCandidatesFacts(quotes, asset, userSpot);
    SortedIsExpirySorted(c);
    GroupFirstIsGroupBy(c);
    KeepSorted(c, (r: ExpiryRow) => r.expiry == g.expiry);
    assert g.expiry in GroupExpiries(GroupFirst(c));
  }

  /** The rows of one candidate token: those eligible candidates with that token. */
  lemma GroupMembers(quotes: seq<Quote>, asset: string, userSpot: real, k: string)
    requires k in ExpiriesOf(SortedCandidates(quotes, asset, userSpot))
    ensures var rs := RowsWithExpiry(SortedCandidates(quotes, asset, userSpot), k);
      && |rs| > 0
      && (forall i :: 0 <= i < |rs| ==> IsCandidate(rs[i].quote) && rs[i].expiry == k)
      && (forall r :: r in rs <==> r in EligibleCalls(quotes, asset, userSpot) && IsCandidate(r.quote) && r.expiry == k)
  {
    var c := SortedCandidates(quotes, asset, userSpot);
    SortedCandidatesFacts(quotes, asset, userSpot);
    var rs := RowsWithExpiry(c, k);
    var r0 :| r0 in c && r0.expiry == k;
    var i0 :| 0 <= i0 < |c| && c[i0] == r0;
    assert r0 in rs;
    forall r ensures r in rs <==> r in c && r.expiry == k {
      if r in rs {
        var i :| 0 <= i < |rs| && rs[i] == r;
      }
      if r in c && r.expiry == k {
        var i :| 0 <= i < |c| && c[i] == r;
      }
    }
    forall i | 0 <= i < |rs| ensures IsCandidate(rs[i].quote) && rs[i].expiry == k {
      assert rs[i] in rs;
    }
  }

  /** Every selected group comes from one input quote of the asset, of
      call type, with the group's expiry token, that is a candidate after
      the override: the group's strike, spot and best bid are that
      quote's. */
  lemma SelectAtmProvenance(quotes: seq<Quote>, asset: string, userSpot: real)
    ensures forall g :: g in SelectAtm(quotes, asset, userSpot) ==>
      exists q0 :: (q0 in quotes && IsCandidateQuote(q0, asset, userSpot, g.expiry)
        && g.strike == q0.strike && g.spot == WithSpot(q0, userSpot).spot && g.bestBid == q0.bestBid)
  {
    forall g | g in SelectAtm(quotes, asset, userSpot)
      ensures exists q0 :: (q0 in quotes && IsCandidateQuote(q0, asset, userSpot, g.expiry)
        && g.strike == q0.strike && g.spot == WithSpot(q0, userSpot).spot && g.bestBid == q0.bestBid)
    {
      GroupOfSelection(quotes, asset, userSpot, g);
      var rs := RowsWithExpiry(SortedCandidates(quotes, asset, userSpot), g.expiry);
      FirstOfCandidates(g.expiry, rs);
      assert rs[0] in rs;
      EligibleCallsProvenance(quotes, asset, userSpot, rs[0]);
    }
  }

  /** Every selected group has a strike at or above its spot (neither
      NaN) and a best bid that is not null; with an override above zero
      every spot is the override. */
  lemma SelectAtmQualifies(quotes: seq<Quote>, asset: string, userSpot: real)
    ensures forall g :: g in SelectAtm(quotes, asset, userSpot) ==>
      && g.strike.Some? && g.spot.Some? && g.strike.value >= g.spot.value
      && !g.bestBid.Null?
      && (userSpot > 0.0 ==> g.spot == Some(userSpot))
  {
    SelectAtmProvenance(quotes, asset, userSpot);
  }

  /** Some input quote with expiry token `k` is a candidate of the asset. */
  predicate HasCandidate(quotes: seq<Quote>, asset: string, userSpot: real, k: string)
  {
    exists q0 :: q0 in quotes && IsCandidateQuote(q0, asset, userSpot, k)
  }

  /** The tokens of the sorted candidates are the tokens with a candidate quote. */
  lemma CandidateTokens(quotes: seq<Quote>, asset: string, userSpot: real, k: string)
    ensures k in ExpiriesOf(SortedCandidates(quotes, asset, userSpot)) <==> HasCandidate(quotes, asset, userSpot, k)
  {
    var c := SortedCandidates(quotes, asset, userSpot);
    SortedCandidatesFacts(quotes, asset, userSpot);
    if k in ExpiriesOf(c) {
      var r :| r in c && r.expiry == k;
      EligibleCallsProvenance(quotes, asset, userSpot, r);
      var q0 :| q0 in quotes && q0.underlying == asset && q0.contractType == CallOptions
        && r.quote == WithSpot(q0, userSpot) && r.expiry == ExpiryOf(q0);
      assert IsCandidateQuote(q0, asset, userSpot, k);
    }
    if HasCandidate(quotes, asset, userSpot, k) {
      var q0 :| q0 in quotes && IsCandidateQuote(q0, asset, userSpot, k);
      EligibleCallsComplete(quotes, asset, userSpot, q0);
      var r := ExpiryRow(ExpiryOf(q0), WithSpot(q0, userSpot));
      assert r in c;
    }
  }

  lemma DistinctIfAscending(gs: seq<Group>)
    requires forall i, j :: 0 <= i < j < |gs| ==> Text.Less(gs[i].expiry, gs[j].expiry)
    ensures forall i, j :: 0 <= i < |gs| && 0 <= j < |gs| && i != j ==> gs[i].expiry != gs[j].expiry
  {
    forall i, j | 0 <= i < |gs| && 0 <= j < |gs| && i != j ensures gs[i].expiry != gs[j].expiry {
      if i < j {
        Text.LessIrreflexiveAsymmetric(gs[i].expiry, gs[j].expiry);
      } else {
        Text.LessIrreflexiveAsymmetric(gs[j].expiry, gs[i].expiry);
      }
    }
  }

  /** One group per expiry token, in strictly ascending string order, and
      a token has a group exactly when one of its quotes is a candidate. */
  lemma SelectAtmExpiries(quotes: seq<Quote>, asset: string, userSpot: real)
    ensures var gs := SelectAtm(quotes, asset, userSpot);
      && (forall i, j :: 0 <= i < j < |gs| ==> Text.Less(gs[i].expiry, gs[j].expiry))
      && (forall i, j :: 0 <= i < |gs| && 0 <= j < |gs| && i != j ==> gs[i].expiry != gs[j].expiry)
      && (forall k :: k in GroupExpiries(gs) <==> HasCandidate(quotes, asset, userSpot, k))
  {
    var c := SortedCandidates(quotes, asset, userSpot);
    SortedCandidatesFacts(quotes, asset, userSpot);
    SortedIsExpirySorted(c);
    GroupFirstIsGroupBy(c);
    DistinctIfAscending(GroupFirst(c));
    forall k ensures k in ExpiriesOf(c) <==> HasCandidate(quotes, asset, userSpot, k) {
      CandidateTokens(quotes, asset, userSpot, k);
    }
  }

  /** The selected strike of an expiry is the lowest strike among that
      expiry's candidates. */
  lemma SelectAtmMinimumStrike(quotes: seq<Quote>, asset: string, userSpot: real)
    ensures forall g, q0 ::
      (g in SelectAtm(quotes, asset, userSpot) && q0 in quotes && IsCandidateQuote(q0, asset, userSpot, g.expiry))
      ==> g.strike.Some? && q0.strike.Some? && g.strike.value <= q0.strike.value
  {
    forall g, q0 | g in SelectAtm(quotes, asset, userSpot) && q0 in quotes
      && IsCandidateQuote(q0, asset, userSpot, g.expiry)
      ensures g.strike.Some? && q0.strike.Some? && g.strike.value <= q0.strike.value
    {
      GroupOfSelection(quotes, asset, userSpot, g);
      var rs := RowsWithExpiry(SortedCandidates(quotes, asset, userSpot), g.expiry);
      FirstOfCandidates(g.expiry, rs);
      EligibleCallsComplete(quotes, asset, userSpot, q0);
      var r := ExpiryRow(ExpiryOf(q0), WithSpot(q0, userSpot));
      assert r in rs;
      var j :| 0 <= j < |rs| && rs[j] == r;
      if j > 0 {
        assert SortKeyAtMost(rs[0], rs[j]);
        Text.LessIrreflexiveAsymmetric(rs[0].expiry, rs[0].expiry);
      }
    }
  }

  /** `c` is the bid size `first()` gives expiry `k`: null when every
      candidate of `k` has a null bid size, and otherwise the bid size of
      a candidate below whose strike every candidate's bid size is null. */
  predicate IsFirstBidSize(c: Cell, quotes: seq<Quote>, asset: string, userSpot: real, k: string)
  {
    && (c.Null? <==> forall q0 :: q0 in quotes && IsCandidateQuote(q0, asset, userSpot, k) ==> q0.bidSize.Null?)
    && (!c.Null? ==> exists q0 :: (q0 in quotes && IsCandidateQuote(q0, asset, userSpot, k) && q0.bidSize == c
          && NullSizesBelow(quotes, asset, userSpot, k, q0.strike)))
  }

  /** Every candidate of token `k` struck below `strike` has a null bid size. */
  predicate NullSizesBelow(quotes: seq<Quote>, asset: string, userSpot: real, k: string, strike: Option<real>)
  {
    forall q1 :: (q1 in quotes && IsCandidateQuote(q1, asset, userSpot, k)
      && strike.Some? && q1.strike.Some? && q1.strike.value < strike.value) ==> q1.bidSize.Null?
  }

  /** The bid size is taken column-wise: it is the first non-null bid
      size of the expiry's candidates in ascending strike order. */
  lemma SelectAtmBidSize(quotes: seq<Quote>, asset: string, userSpot: real)
    ensures forall g :: g in SelectAtm(quotes, asset, userSpot) ==>
      IsFirstBidSize(g.bidSize, quotes, asset, userSpot, g.expiry)
  {
    forall g | g in SelectAtm(quotes, asset, userSpot)
      ensures IsFirstBidSize(g.bidSize, quotes, asset, userSpot, g.expiry)
    {
      if g.bidSize.Null? {
        NullBidSize(quotes, asset, userSpot, g);
      } else {
        PresentBidSize(quotes, asset, userSpot, g);
        var q0 :| q0 in quotes && IsCandidateQuote(q0, asset, userSpot, g.expiry) && q0.bidSize == g.bidSize;
      }
    }
  }

  lemma NullBidSize(quotes: seq<Quote>, asset: string, userSpot: real, g: Group)
    requires g in SelectAtm(quotes, asset, userSpot) && g.bidSize.Null?
    ensures forall q0 :: q0 in quotes && IsCandidateQuote(q0, asset, userSpot, g.expiry) ==> q0.bidSize.Null?
  {
    GroupColumns(quotes, asset, userSpot, g);
    var rs := RowsWithExpiry(SortedCandidates(quotes, asset, userSpot), g.expiry);
    var sizes := BidSizes(rs);
    forall q0 | q0 in quotes && IsCandidateQuote(q0, asset, userSpot, g.expiry) ensures q0.bidSize.Null? {
      CandidateRowIn(quotes, asset, userSpot, q0, g.expiry);
      var j :| 0 <= j < |rs| && rs[j] == ExpiryRow(ExpiryOf(q0), WithSpot(q0, userSpot));
      assert sizes[j] == q0.bidSize;
    }
  }

  /** A candidate quote's row is among the rows of its token. */
  lemma CandidateRowIn(quotes: seq<Quote>, asset: string, userSpot: real, q0: Quote, k: string)
    requires q0 in quotes && IsCandidateQuote(q0, asset, userSpot, k)
    ensures ExpiryRow(ExpiryOf(q0), WithSpot(q0, userSpot)) in RowsWithExpiry(SortedCandidates(quotes, asset, userSpot), k)
  {
    var c := SortedCandidates(quotes, asset, userSpot);
    SortedCandidatesFacts(quotes, asset, userSpot);
    EligibleCallsComplete(quotes, asset, userSpot, q0);
    var r := ExpiryRow(ExpiryOf(q0), WithSpot(q0, userSpot));
    assert r in c;
    var i :| 0 <= i < |c| && c[i] == r;
  }

  lemma PresentBidSize(quotes: seq<Quote>, asset: string, userSpot: real, g: Group)
    requires g in SelectAtm(quotes, asset, userSpot) && !g.bidSize.Null?
    ensures exists q0 :: (q0 in quotes && IsCandidateQuote(q0, asset, userSpot, g.expiry) && q0.bidSize == g.bidSize
      && NullSizesBelow(quotes, asset, userSpot, g.expiry, q0.strike))
  {
    var rs := RowsWithExpiry(SortedCandidates(quotes, asset, userSpot), g.expiry);
    FirstSizeRow(quotes, asset, userSpot, g);
    var k :| 0 <= k < |rs| && rs[k].quote.bidSize == g.bidSize && forall j :: 0 <= j < k ==> rs[j].quote.bidSize.Null?;
    GroupMembers(quotes, asset, userSpot, g.expiry);
    assert rs[k].expiry == g.expiry && IsCandidate(rs[k].quote);
    LowerCandidatesNull(quotes, asset, userSpot, g.expiry, rs, k);
    QuoteOfRow(quotes, asset, userSpot, g.expiry, rs[k]);
  }

  /** The group's bid size is that of the first row of its token with a
      bid size. */
  lemma FirstSizeRow(quotes: seq<Quote>, asset: string, userSpot: real, g: Group)
    requires g in SelectAtm(quotes, asset, userSpot) && !g.bidSize.Null?
    ensures var rs := RowsWithExpiry(SortedCandidates(quotes, asset, userSpot), g.expiry);
      && Sorted(rs)
      && exists k :: (0 <= k < |rs| && rs[k].quote.bidSize == g.bidSize
           && forall j :: 0 <= j < k ==> rs[j].quote.bidSize.Null?)
  {
    GroupColumns(quotes, asset, userSpot, g);
    var rs := RowsWithExpiry(SortedCandidates(quotes, asset, userSpot), g.expiry);
    var sizes := BidSizes(rs);
    var k :| 0 <= k < |sizes| && sizes[k] == g.bidSize && forall j :: 0 <= j < k ==> sizes[j].Null?;
    forall j | 0 <= j < k ensures rs[j].quote.bidSize.Null? {
      assert sizes[j] == rs[j].quote.bidSize;
    }
    assert rs[k].quote.bidSize == g.bidSize;
  }

  /** A row of a token's candidates stands for a candidate input quote
      with the same strike and bid size. */
  lemma QuoteOfRow(quotes: seq<Quote>, asset: string, userSpot: real, key: string, r: ExpiryRow)
    requires r in RowsWithExpiry(SortedCandidates(quotes, asset, userSpot), key)
    ensures exists q0 :: (q0 in quotes && IsCandidateQuote(q0, asset, userSpot, key)
      && q0.bidSize == r.quote.bidSize && q0.strike == r.quote.strike)
  {
    GroupMembersOf(quotes, asset, userSpot, key, r);
    EligibleCallsProvenance(quotes, asset, userSpot, r);
    var q0 :| q0 in quotes && q0.underlying == asset && q0.contractType == CallOptions
      && r.quote == WithSpot(q0, userSpot) && r.expiry == ExpiryOf(q0);
    assert IsCandidateQuote(q0, asset, userSpot, key);
  }

  lemma GroupMembersOf(quotes: seq<Quote>, asset: string, userSpot: real, key: string, r: ExpiryRow)
    requires r in RowsWithExpiry(SortedCandidates(quotes, asset, userSpot), key)
    ensures r in EligibleCalls(quotes, asset, userSpot) && IsCandidate(r.quote) && r.expiry == key
  {
    var c := SortedCandidates(quotes, asset, userSpot);
    SortedCandidatesFacts(quotes, asset, userSpot);
    var i :| 0 <= i < |RowsWithExpiry(c, key)| && RowsWithExpiry(c, key)[i] == r;
  }

  /** Every candidate of token `key` struck below row `i` of that token's
      sorted rows has a null bid size, if every row before `i` does. */
  lemma LowerCandidatesNull(quotes: seq<Quote>, asset: string, userSpot: real, key: string, rs: seq<ExpiryRow>, i: nat)
    requires rs == RowsWithExpiry(SortedCandidates(quotes, asset, userSpot), key)
    requires Sorted(rs) && i < |rs| && rs[i].expiry == key && rs[i].quote.strike.Some?
    requires forall j :: 0 <= j < i ==> rs[j].quote.bidSize.Null?
    ensures NullSizesBelow(quotes, asset, userSpot, key, rs[i].quote.strike)
  {
    forall q1 | q1 in quotes && IsCandidateQuote(q1, asset, userSpot, key)
      && q1.strike.Some? && q1.strike.value < rs[i].quote.strike.value
      ensures q1.bidSize.Null?
    {
      CandidateRowIn(quotes, asset, userSpot, q1, key);
      var j :| 0 <= j < |rs| && rs[j] == ExpiryRow(ExpiryOf(q1), WithSpot(q1, userSpot));
      LowerStrikeComesFirst(rs, i, j);
    }
  }

  /** In rows sorted by (token, strike), a row of the same token with a
      lower strike comes earlier. */
  lemma LowerStrikeComesFirst(rs: seq<ExpiryRow>, k: nat, j: nat)
    requires Sorted(rs) && k < |rs| && j < |rs| && rs[k].expiry == rs[j].expiry
    requires rs[k].quote.strike.Some? && rs[j].quote.strike.Some?
    requires rs[j].quote.strike.value < rs[k].quote.strike.value
    ensures j < k
  {
    Text.LessIrreflexiveAsymmetric(rs[k].expiry, rs[k].expiry);
  }

  /** No candidate, no group. */
  lemma SelectAtmEmpty(quotes: seq<Quote>, asset: string, userSpot: real)
    requires forall q0 :: q0 in quotes && q0.underlying == asset && q0.contractType == CallOptions ==>
      !IsCandidate(WithSpot(q0, userSpot))
    ensures SelectAtm(quotes, asset, userSpot) == []
  {
    var c := SortedCandidates(quotes, asset, userSpot);
    SortedCandidatesFacts(quotes, asset, userSpot);
    if c != [] {
      assert c[0] in c;
      EligibleCallsProvenance(quotes, asset, userSpot, c[0]);
    }
  }
}
