/** The table `process_asset` returns: per selected expiry, the spot and
    strike, the coerced best bid, the bid size, the expiry displayed as
    `dd-mm-YYYY`, the days to expiry, and the two yields. */
module AtmTable {
  import opened Wrappers
  import opened Calendar
  import opened ExpiryToken
  import opened AtmSelection
  import Text

  /** One output row, columns in the order the table shows them. */
  datatype AtmRow = AtmRow(
    spot: Option<real>,
    strike: Option<real>,
    bestBid: Option<real>,
    bidSize: Cell,
    expiry: string,
    dte: int,
    roiAnnual: Option<real>,
    roi: Option<real>)

  /** The date conversion raising on a token that is not a `%d%m%y` date. */
  datatype Error = UnparsableExpiry(token: string)

  /** Numeric coercion of a raw cell: null and non-numbers become NaN. */
  function Numeric(c: Cell): Option<real>
  {
    match c
    case Null => None
    case Value(n) => n
  }

  /** bid / spot * 100; None where the floating-point result would be NaN
      or infinite. */
  function Roi(bid: Option<real>, spot: Option<real>): Option<real>
  {
    if bid.Some? && spot.Some? && spot.value != 0.0 then Some(bid.value / spot.value * 100.0)
    else None
  }

  /** bid / spot * (365 / DTE) * 100; None where the floating-point result
      would be NaN or infinite. */
  function AnnualizedRoi(bid: Option<real>, spot: Option<real>, dte: int): Option<real>
  {
    if bid.Some? && spot.Some? && spot.value != 0.0 && dte != 0 then
      Some(bid.value / spot.value * (365.0 / dte as real) * 100.0)
    else None
  }

  /** The annualized yield is the yield scaled from DTE days to 365, and it
      is defined exactly when the yield is and DTE is not zero. */
  lemma AnnualizedRoiScalesRoi(bid: Option<real>, spot: Option<real>, dte: int)
    ensures AnnualizedRoi(bid, spot, dte).Some? <==> Roi(bid, spot).Some? && dte != 0
    ensures AnnualizedRoi(bid, spot, dte).Some? ==>
      AnnualizedRoi(bid, spot, dte).value * dte as real == Roi(bid, spot).value * 365.0
    ensures dte == 365 ==> AnnualizedRoi(bid, spot, dte) == Roi(bid, spot)
  {
    if AnnualizedRoi(bid, spot, dte).Some? {
      var q := bid.value / spot.value;
      var n := dte as real;
      assert (365.0 / n) * n == 365.0;
      calc {
        q * (365.0 / n) * 100.0 * n;
        (q * 100.0) * ((365.0 / n) * n);
        (q * 100.0) * 365.0;
      }
    }
  }

  /** The derived columns of one selected group whose token parsed as
      `expiry`. */
  function DeriveRow(g: Group, expiry: Date, today: Date): AtmRow
    requires ValidDate(expiry) && InPivotWindow(expiry) && ValidDate(today)
  {
    var dte := DaysToExpiry(expiry, today);
    var bid := Numeric(g.bestBid);
    AtmRow(g.spot, g.strike, bid, g.bidSize, DisplayDate(expiry), dte,
           AnnualizedRoi(bid, g.spot, dte), Roi(bid, g.spot))
  }

  /** The derivation of every group's row: the conversion of the whole expiry
      column fails, naming the first bad token, if any token is not a
      date; otherwise one row per group, in the groups' order. */
  function DeriveRows(gs: seq<Group>, today: Date): (r: Result<seq<AtmRow>, Error>)
    requires ValidDate(today)
    ensures r.Ok? <==> forall i :: 0 <= i < |gs| ==> ParseDdmmyy(gs[i].expiry).Some?
    ensures r.Ok? ==> |r.value| == |gs| && forall i :: 0 <= i < |gs| ==>
      r.value[i] == DeriveRow(gs[i], ParseDdmmyy(gs[i].expiry).value, today)
    ensures r.Err? ==> exists i :: (0 <= i < |gs| && r.error == UnparsableExpiry(gs[i].expiry)
      && ParseDdmmyy(gs[i].expiry).None?
      && forall j :: 0 <= j < i ==> ParseDdmmyy(gs[j].expiry).Some?)
    decreases |gs|
  {
    if gs == [] then Ok([])
    else match ParseDdmmyy(gs[0].expiry)
      case None => Err(UnparsableExpiry(gs[0].expiry))
      case Some(d) =>
        match DeriveRows(gs[1..], today)
        case Err(e) => Err(e)
        case Ok(rows) => Ok([DeriveRow(gs[0], d, today)] + rows)
  }

  /** `process_asset(df, asset_symbol, user_spot)` with today's date passed in. */
  function ProcessAsset(quotes: seq<Quote>, asset: string, userSpot: real, today: Date): Result<seq<AtmRow>, Error>
    requires ValidDate(today)
  {
    DeriveRows(SelectAtm(quotes, asset, userSpot), today)
  }

  /** The conversion of a column of tokens `ks` fails exactly when one of
      them is not a date, and then names such a token. */
  lemma DeriveRowsFails(gs: seq<Group>, today: Date, ks: set<string>)
    requires ValidDate(today)
    requires GroupExpiries(gs) == ks
    ensures var r := DeriveRows(gs, today);
      && (r.Err? <==> exists k :: k in ks && ParseDdmmyy(k).None?)
      && (r.Err? ==> r.error.token in ks && ParseDdmmyy(r.error.token).None?)
  {
    var r := DeriveRows(gs, today);
    if r.Err? {
      var i :| 0 <= i < |gs| && r.error == UnparsableExpiry(gs[i].expiry) && ParseDdmmyy(gs[i].expiry).None?;
    }
    if exists k :: k in ks && ParseDdmmyy(k).None? {
      var k :| k in ks && ParseDdmmyy(k).None?;
      var g :| g in gs && g.expiry == k;
      var i :| 0 <= i < |gs| && gs[i] == g;
    }
  }

  /** The call fails exactly when some expiry that has a candidate carries
      a token that is not a date, and the error names such a token; a bad
      token of an expiry without candidates is never looked at. */
  lemma ProcessAssetFails(quotes: seq<Quote>, asset: string, userSpot: real, today: Date)
    requires ValidDate(today)
    ensures var r := ProcessAsset(quotes, asset, userSpot, today);
      && (r.Err? <==> exists k :: HasCandidate(quotes, asset, userSpot, k) && ParseDdmmyy(k).None?)
      && (r.Err? ==> HasCandidate(quotes, asset, userSpot, r.error.token) && ParseDdmmyy(r.error.token).None?)
  {
    var gs := SelectAtm(quotes, asset, userSpot);
    SelectAtmExpiries(quotes, asset, userSpot);
    DeriveRowsFails(gs, today, GroupExpiries(gs));
  }

  /** With no candidate at all the table is empty, not an error. */
  lemma ProcessAssetEmpty(quotes: seq<Quote>, asset: string, userSpot: real, today: Date)
    requires ValidDate(today)
    requires forall q0 :: q0 in quotes && q0.underlying == asset && q0.contractType == CallOptions ==>
      !IsCandidate(WithSpot(q0, userSpot))
    ensures ProcessAsset(quotes, asset, userSpot, today) == Ok([])
  {
    SelectAtmEmpty(quotes, asset, userSpot);
  }

  /** `row` is what the table shows for the candidate quote `q0`: its
      strike, its spot (the override when one above zero is given) and its
      coerced bid; a strike at or above the spot and no higher than any
      other candidate strike of the same expiry; the quote's token
      displayed as a date; and DTE, the days from today to that date plus
      one, at least 1 exactly when the date is not in the past. */
  predicate RowOfQuote(row: AtmRow, q0: Quote, quotes: seq<Quote>, asset: string, userSpot: real, today: Date)
    requires ValidDate(today)
  {
    && IsCandidateQuote(q0, asset, userSpot, ExpiryOf(q0))
    && ParseDdmmyy(ExpiryOf(q0)).Some?
    && var d := ParseDdmmyy(ExpiryOf(q0)).value;
    && row.strike == q0.strike
    && row.spot == (if userSpot > 0.0 then Some(userSpot) else q0.spot)
    && row.bestBid == Numeric(q0.bestBid)
    && IsFirstBidSize(row.bidSize, quotes, asset, userSpot, ExpiryOf(q0))
    && row.strike.Some? && row.spot.Some? && row.strike.value >= row.spot.value
    && (forall q1 :: q1 in quotes && IsCandidateQuote(q1, asset, userSpot, ExpiryOf(q0)) ==>
          q1.strike.Some? && row.strike.value <= q1.strike.value)
    && row.expiry == DisplayDate(d)
    && row.dte == DaysToExpiry(d, today)
    && (row.dte >= 1 <==> !Before(d, today))
  }

  /** Every output row is the row of one candidate quote of the asset. */
  lemma ProcessAssetRows(quotes: seq<Quote>, asset: string, userSpot: real, today: Date)
    requires ValidDate(today)
    ensures var r := ProcessAsset(quotes, asset, userSpot, today);
      r.Ok? ==> forall i :: 0 <= i < |r.value| ==>
        exists q0 :: q0 in quotes && RowOfQuote(r.value[i], q0, quotes, asset, userSpot, today)
  {
    var r := ProcessAsset(quotes, asset, userSpot, today);
    if r.Ok? {
      forall i | 0 <= i < |r.value|
        ensures exists q0 :: q0 in quotes && RowOfQuote(r.value[i], q0, quotes, asset, userSpot, today)
      {
        RowProvenance(quotes, asset, userSpot, today, i);
      }
    }
  }

  lemma RowProvenance(quotes: seq<Quote>, asset: string, userSpot: real, today: Date, i: nat)
    requires ValidDate(today)
    requires ProcessAsset(quotes, asset, userSpot, today).Ok?
    requires i < |ProcessAsset(quotes, asset, userSpot, today).value|
    ensures exists q0 :: (q0 in quotes
      && RowOfQuote(ProcessAsset(quotes, asset, userSpot, today).value[i], q0, quotes, asset, userSpot, today))
  {
    var gs := SelectAtm(quotes, asset, userSpot);
    var row := ProcessAsset(quotes, asset, userSpot, today).value[i];
    var g := gs[i];
    assert g in gs;
    SelectAtmProvenance(quotes, asset, userSpot);
    SelectAtmMinimumStrike(quotes, asset, userSpot);
    SelectAtmBidSize(quotes, asset, userSpot);
    var q0 :| q0 in quotes && IsCandidateQuote(q0, asset, userSpot, g.expiry)
      && g.strike == q0.strike && g.spot == WithSpot(q0, userSpot).spot && g.bestBid == q0.bestBid;
    var d := ParseDdmmyy(g.expiry).value;
    DaysToExpiryPositive(d, today);
    assert row == DeriveRow(g, d, today);
    assert RowOfQuote(row, q0, quotes, asset, userSpot, today);
  }

  /** Each derived row shows its group's token as a date, from which the
      token can be read back. */
  lemma DeriveRowsTokens(gs: seq<Group>, today: Date)
    requires ValidDate(today)
    ensures var r := DeriveRows(gs, today);
      r.Ok? ==> forall i :: 0 <= i < |r.value| ==>
        |r.value[i].expiry| == 10 && TokenOfDisplay(r.value[i].expiry) == gs[i].expiry
  {
    var r := DeriveRows(gs, today);
    if r.Ok? {
      forall i | 0 <= i < |r.value|
        ensures |r.value[i].expiry| == 10 && TokenOfDisplay(r.value[i].expiry) == gs[i].expiry
      {
        DisplayInjective(gs[i].expiry, gs[i].expiry);
      }
    }
  }

  /** Derived rows keep the order and distinctness of their groups'
      tokens. */
  lemma DeriveRowsOrder(gs: seq<Group>, today: Date)
    requires ValidDate(today)
    requires forall i, j :: 0 <= i < j < |gs| ==> Text.Less(gs[i].expiry, gs[j].expiry)
    ensures var r := DeriveRows(gs, today);
      r.Ok? ==>
        && (forall i :: 0 <= i < |r.value| ==> |r.value[i].expiry| == 10)
        && (forall i, j :: 0 <= i < j < |r.value| ==>
              Text.Less(TokenOfDisplay(r.value[i].expiry), TokenOfDisplay(r.value[j].expiry)))
        && (forall i, j :: 0 <= i < |r.value| && 0 <= j < |r.value| && i != j ==>
              r.value[i].expiry != r.value[j].expiry)
  {
    var r := DeriveRows(gs, today);
    DeriveRowsAscending(gs, today);
    DeriveRowsTokens(gs, today);
    if r.Ok? {
      var rows := r.value;
      forall i, j | 0 <= i < |rows| && 0 <= j < |rows| && i != j ensures rows[i].expiry != rows[j].expiry {
        var ti, tj := TokenOfDisplay(rows[i].expiry), TokenOfDisplay(rows[j].expiry);
        if i < j {
          Text.LessIrreflexiveAsymmetric(ti, tj);
        } else {
          Text.LessIrreflexiveAsymmetric(tj, ti);
        }
      }
    }
  }

  lemma DeriveRowsAscending(gs: seq<Group>, today: Date)
    requires ValidDate(today)
    requires forall i, j :: 0 <= i < j < |gs| ==> Text.Less(gs[i].expiry, gs[j].expiry)
    ensures var r := DeriveRows(gs, today);
      r.Ok? ==> forall i, j :: 0 <= i < j < |r.value| ==>
        Text.Less(TokenOfDisplay(r.value[i].expiry), TokenOfDisplay(r.value[j].expiry))
  {
    var r := DeriveRows(gs, today);
    DeriveRowsTokens(gs, today);
    if r.Ok? {
      var rows := r.value;
      forall i, j | 0 <= i < j < |rows|
        ensures Text.Less(TokenOfDisplay(rows[i].expiry), TokenOfDisplay(rows[j].expiry))
      {
        assert TokenOfDisplay(rows[i].expiry) == gs[i].expiry;
        assert TokenOfDisplay(rows[j].expiry) == gs[j].expiry;
      }
    }
  }

  /** Every group's token is shown as a date by some derived row. */
  lemma DeriveRowsCover(gs: seq<Group>, today: Date)
    requires ValidDate(today)
    ensures var r := DeriveRows(gs, today);
      r.Ok? ==> forall k :: k in GroupExpiries(gs) ==>
        ParseDdmmyy(k).Some?
        && exists i :: 0 <= i < |r.value| && r.value[i].expiry == DisplayDate(ParseDdmmyy(k).value)
  {
    var r := DeriveRows(gs, today);
    if r.Ok? {
      forall k | k in GroupExpiries(gs)
        ensures ParseDdmmyy(k).Some?
        ensures exists i :: 0 <= i < |r.value| && r.value[i].expiry == DisplayDate(ParseDdmmyy(k).value)
      {
        var g :| g in gs && g.expiry == k;
        var i :| 0 <= i < |gs| && gs[i] == g;
      }
    }
  }

  /** The rows are in strictly ascending string order of their tokens, no
      two rows show the same expiry, and every expiry that has a candidate
      has a row. */
  lemma ProcessAssetExpiries(quotes: seq<Quote>, asset: string, userSpot: real, today: Date)
    requires ValidDate(today)
    ensures var r := ProcessAsset(quotes, asset, userSpot, today);
      r.Ok? ==>
        && (forall i :: 0 <= i < |r.value| ==> |r.value[i].expiry| == 10)
        && (forall i, j :: 0 <= i < j < |r.value| ==>
              Text.Less(TokenOfDisplay(r.value[i].expiry), TokenOfDisplay(r.value[j].expiry)))
        && (forall i, j :: 0 <= i < |r.value| && 0 <= j < |r.value| && i != j ==>
              r.value[i].expiry != r.value[j].expiry)
        && (forall k :: HasCandidate(quotes, asset, userSpot, k) ==>
              ParseDdmmyy(k).Some?
              && exists i :: 0 <= i < |r.value| && r.value[i].expiry == DisplayDate(ParseDdmmyy(k).value))
  {
    var gs := SelectAtm(quotes, asset, userSpot);
    SelectAtmExpiries(quotes, asset, userSpot);
    DeriveRowsOrder(gs, today);
    DeriveRowsCover(gs, today);
  }

  /** The yield times the spot is the bid times 100. */
  lemma RoiTimesSpot(bid: Option<real>, spot: Option<real>)
    requires Roi(bid, spot).Some?
    ensures Roi(bid, spot).value * spot.value == bid.value * 100.0
  {
    var b, s := bid.value, spot.value;
    assert (b / s) * s == b;
    calc {
      b / s * 100.0 * s;
      ((b / s) * s) * 100.0;
      b * 100.0;
    }
  }

  /** The yields of one derived row. */
  predicate YieldsConsistent(row: AtmRow)
  {
    && (row.roi.Some? <==> row.bestBid.Some? && row.spot.Some? && row.spot.value != 0.0)
    && (row.roi.Some? ==> row.roi.value * row.spot.value == row.bestBid.value * 100.0)
    && (row.roiAnnual.Some? <==> row.roi.Some? && row.dte != 0)
    && (row.roiAnnual.Some? ==> row.roiAnnual.value * row.dte as real == row.roi.value * 365.0)
  }

  lemma YieldsOfRow(row: AtmRow)
    requires row.roi == Roi(row.bestBid, row.spot)
    requires row.roiAnnual == AnnualizedRoi(row.bestBid, row.spot, row.dte)
    ensures YieldsConsistent(row)
  {
    AnnualizedRoiScalesRoi(row.bestBid, row.spot, row.dte);
    if row.roi.Some? {
      RoiTimesSpot(row.bestBid, row.spot);
    }
  }

  /** Each row's yield is its bid over its spot in percent, and its
      annualized yield is that yield scaled from DTE days to a 365-day
      year; each is defined exactly when its denominators are nonzero. */
  lemma ProcessAssetYields(quotes: seq<Quote>, asset: string, userSpot: real, today: Date)
    requires ValidDate(today)
    ensures var r := ProcessAsset(quotes, asset, userSpot, today);
      r.Ok? ==> forall i :: 0 <= i < |r.value| ==> YieldsConsistent(r.value[i])
  {
    var gs := SelectAtm(quotes, asset, userSpot);
    var r := ProcessAsset(quotes, asset, userSpot, today);
    if r.Ok? {
      forall i | 0 <= i < |r.value| ensures YieldsConsistent(r.value[i]) {
        var row := r.value[i];
        assert row == DeriveRow(gs[i], ParseDdmmyy(gs[i].expiry).value, today);
        YieldsOfRow(row);
      }
    }
  }
}
