# ATM call selector for Delta Exchange option quotes — Dafny model

This project models `process_asset` in `newapp.py`, the one piece of logic in
a small Streamlit app. The app fetches option tickers from Delta Exchange.
For one underlying asset (ETH or BTC), `process_asset` turns the flat quote
table into one "at the money" call row per expiry. Each row gives the spot
and strike, the best bid and bid size, the expiry date, the days to expiry
(DTE), and two yields: ROI and annualized ROI.

The pipeline is pure, so the model is a chain of Dafny functions over
`seq<Quote>`, with lemmas for what each step promises:

- `AtmSelection` (lines 32-61 of the source). It keeps the asset's rows and
  applies the user's spot override when that is above zero. It keeps the
  call options and adds the expiry token: the text after the last `-` of the
  symbol. It sorts by (token, strike) with a stable insertion sort. It marks
  the candidates: strike at or above spot, neither of them NaN, and a best
  bid that is not null. Then it takes `groupby("expiry").first()` column by
  column.
- `AtmTable` (lines 64-91). It parses each selected token as `%d%m%y` and
  shows it as `dd-mm-YYYY`. It computes DTE against a `today` parameter and
  derives the two yields. If any selected token is not a date, the whole
  call fails (but see "Left out" for the tokens pandas reads as NaT).
- `Text`: Python's `str.split`, `split(...)[-1]`, and Python's ordering of
  `str` values.
- `Calendar`: proleptic Gregorian dates, day numbers counted from
  1970-01-01, and DTE.
- `ExpiryToken`: the `%d%m%y` parse with the `%y` pivot (00-68 → 20xx,
  69-99 → 19xx), its inverse, and the `%d-%m-%Y` display.
- `Wrappers`: `Option` (None stands for NaN or null) and `Result`.
- `AtmExample`: a worked example. It has four ETH calls, struck at 3000 and
  3100, for 10 and 17 January 2025, at a spot of 3050. Its expected
  selection is derived from the general lemmas, with and without a spot
  override.

Two behaviours a reader might not expect are kept as the code has them:

- Output rows come in ascending string order of the raw `ddmmyy` token, not
  in date order. `ExpiryToken.TokenOrderIsNotDateOrder` shows two tokens
  whose string order and date order disagree.
- A selected expiry whose token is not a date makes the whole call fail,
  except for the NaT tokens listed under "Left out". The row is not dropped
  (`AtmTable.ProcessAssetFails`).

## Model

| member | source | states |
|---|---|---|
| `Text.Split` | newapp.py:53 | `str.split`: one more piece than separators, no piece holds the separator |
| `Text.JoinSplit` | newapp.py:53 | joining the pieces with the separator gives back the symbol |
| `Text.LastToken` | newapp.py:53 | `split(sep)[-1]`; specified by `LastTokenIsTail` and `LastTokenOfLength` |
| `Text.LastTokenIsTail` | newapp.py:53 | the expiry key is the suffix after the last `-`, or the whole symbol when it has no `-` |
| `Text.LastTokenOfLength` | newapp.py:53 | when the last `-` is `n` characters from the end, the expiry key is those `n` characters |
| `Text.Less` | newapp.py:54 | Python's `str` order, by code point with a proper prefix first; specified by `LessIrreflexiveAsymmetric`, `LessTransitive` and `LessTotal` |
| `Text.LessIrreflexiveAsymmetric` | newapp.py:54 | Python string order is irreflexive and asymmetric |
| `Text.LessTransitive` | newapp.py:54 | Python string order is transitive |
| `Text.LessTotal` | newapp.py:54 | any two different strings are ordered one way or the other |
| `Calendar.DayNumber` | newapp.py:67-68 | days since 1970-01-01; specified by `NextDayNumber`, `DayNumberIncreasing` and `DayNumberInjective` |
| `Calendar.NextDayNumber` | newapp.py:68 | the day after a valid date is valid and has the next day number |
| `Calendar.DayNumberIncreasing` | newapp.py:68 | an earlier date has a smaller day number |
| `Calendar.DayNumberInjective` | newapp.py:68 | different dates have different day numbers |
| `Calendar.DaysToExpiryPositive` | newapp.py:67-68 | DTE is 1 on the expiry day, and at least 1 exactly when expiry is not before today |
| `Calendar.DaysToExpiryCountsDown` | newapp.py:67-68 | each day that passes takes one off DTE |
| `ExpiryToken.CenturyYear` | newapp.py:64 | `%y` maps a two-digit year into 1969-2068, keeping its last two digits |
| `ExpiryToken.ParseDdmmyy` | newapp.py:64 | a parsed token is six digits naming a valid date within the `%y` window |
| `ExpiryToken.ParseFormat` | newapp.py:64 | every date of the window is parsed back from its token |
| `ExpiryToken.FormatParse` | newapp.py:64 | a token that parses is the token of its date, so parsing is one-to-one |
| `ExpiryToken.DisplayDate` | newapp.py:65 | the display is ten characters with dashes at positions 2 and 5 |
| `ExpiryToken.DisplayRewritesToken` | newapp.py:64-65 | the display of a token `ddmmyy` is `dd-mm-` then the century then `yy` |
| `ExpiryToken.DisplayInjective` | newapp.py:64-65 | the token can be read back from its display, so different tokens display differently |
| `ExpiryToken.TokenOrderIsNotDateOrder` | newapp.py:54 | `010126` sorts before `311225`, although 31 Dec 2025 comes first |
| `AtmSelection.Keep` | newapp.py:32 | mask selection keeps only rows that satisfy the mask, and every input row that does; multiplicity and order are stated by `KeepCount` and `KeepAppend` |
| `AtmSelection.KeepCount` | newapp.py:32 | each row occurs in the selection as often as in the input if it satisfies the mask, and not at all otherwise |
| `AtmSelection.KeepAppend` | newapp.py:32 | selecting from two tables placed one after the other gives the two selections in the same order |
| `AtmSelection.AssetRows` | newapp.py:32 | the rows of the requested underlying; specified by `Keep`, `EligibleCallsProvenance` and `EligibleCallsComplete` |
| `AtmSelection.WithSpot` | newapp.py:47-49 | the override on one row; specified by `OverrideSpot` |
| `AtmSelection.OverrideSpot` | newapp.py:47-49 | an override above zero replaces every spot; otherwise spots are kept; nothing else changes |
| `AtmSelection.CallRows` | newapp.py:52 | the call options; specified by `Keep`, `EligibleCallsProvenance` and `EligibleCallsComplete` |
| `AtmSelection.ExpiryOf` | newapp.py:53 | the expiry key of a symbol; specified by `Text.LastTokenIsTail` and `AtmExample.ExampleSymbol` |
| `AtmSelection.EligibleCalls` | newapp.py:32-53 | the asset's calls with override and expiry key (the `expiry` column is added by `AddExpiry`); specified by `EligibleCallsProvenance` and `EligibleCallsComplete` |
| `AtmSelection.EligibleCallsProvenance` | newapp.py:32-53 | every eligible row is an input quote of the asset and of call type, with override and its own token |
| `AtmSelection.EligibleCallsComplete` | newapp.py:32-53 | every input quote of the asset and of call type is eligible |
| `AtmSelection.SortByExpiryStrike` | newapp.py:54 | the sort result is a permutation of its input, ordered by (token as string, strike with NaN last) |
| `AtmSelection.InsertSorted` | newapp.py:54 | inserting into a sorted sequence keeps it sorted |
| `AtmSelection.IsCandidate` | newapp.py:57-60 | strike >= spot (NaN compares false) and a non-null bid; specified by `SelectAtmQualifies` and `SelectAtmExpiries` |
| `AtmSelection.Candidates` | newapp.py:58-60 | the candidate filter; specified by `Keep`, `KeepSorted` and `SelectAtmQualifies` |
| `AtmSelection.SortedCandidates` | newapp.py:32-60 | the sorted candidates; specified by `SortByExpiryStrike`, `KeepSorted` and `EligibleCallsProvenance` |
| `AtmSelection.KeepSorted` | newapp.py:58-60 | filtering a sorted table keeps it sorted |
| `AtmSelection.FirstPresent` | newapp.py:61 | `first()` on a numeric column: the first non-NaN value, NaN only when all are NaN |
| `AtmSelection.FirstNonNull` | newapp.py:61 | `first()` on a raw column: the first non-null value, null only when all are null |
| `AtmSelection.FirstOfColumns` | newapp.py:61 | `first()` of one group's rows, column by column; specified by `FirstPresent`, `FirstNonNull`, `FirstOfCandidates` and `GroupFirstIsGroupBy` |
| `AtmSelection.FirstOfCandidates` | newapp.py:61 | for candidates, spot, strike and bid come from the first row; bid size is the first non-null, maybe from a later row |
| `AtmSelection.GroupFirstIsGroupBy` | newapp.py:61 | on token-sorted rows: groups come in strictly ascending token order, one per token, each the `first()` of its own rows |
| `AtmSelection.SelectAtmProvenance` | newapp.py:32-61 | each group's strike, spot and bid are those of one candidate quote of the asset with the group's token |
| `AtmSelection.SelectAtmQualifies` | newapp.py:47-60 | each group has strike >= spot (neither NaN) and a non-null bid; with an override above zero every spot is the override |
| `AtmSelection.SelectAtmExpiries` | newapp.py:53-61 | groups are in strictly ascending token order, no token twice; a token has a group iff one of its quotes is a candidate |
| `AtmSelection.SelectAtmMinimumStrike` | newapp.py:54-61 | a group's strike is the lowest candidate strike of its expiry |
| `AtmSelection.SelectAtm` | newapp.py:32-61 | the selection pipeline; specified by the `SelectAtm…` lemmas below |
| `AtmSelection.GroupFirst` | newapp.py:61 | `groupby("expiry").first()` on token-sorted rows; specified by `GroupFirstIsGroupBy` and `FirstOfCandidates` |
| `AtmSelection.SelectAtmBidSize` | newapp.py:54-61 | a group's bid size is null iff every candidate of its expiry has a null bid size; otherwise it is the bid size of one candidate such that every candidate struck lower has a null bid size |
| `AtmSelection.SelectAtmEmpty` | newapp.py:57-61 | with no candidate among the asset's calls there is no group |
| `Calendar.DaysToExpiry` | newapp.py:67-68 | DTE as days from today to expiry plus one; specified by `DaysToExpiryPositive` and `DaysToExpiryCountsDown` |
| `AtmTable.Roi` | newapp.py:75 | ROI as bid/spot in percent, None where pandas gives NaN or an infinity; specified by `RoiTimesSpot` |
| `AtmTable.AnnualizedRoi` | newapp.py:76-80 | annualized ROI, None where pandas gives NaN or an infinity; specified by `AnnualizedRoiScalesRoi` |
| `AtmTable.Numeric` | newapp.py:72 | `pd.to_numeric(errors="coerce")` on a raw cell, null becoming NaN; specified through `ProcessAssetRows` (the coerced bid) |
| `AtmTable.AnnualizedRoiScalesRoi` | newapp.py:75-80 | annualized ROI is defined iff ROI is and DTE is not 0; it is ROI scaled by 365/DTE, and equals ROI when DTE is 365 |
| `AtmTable.RoiTimesSpot` | newapp.py:75 | ROI times spot is bid times 100 |
| `AtmTable.DeriveRow` | newapp.py:64-80 | one group's row; specified by `ProcessAssetRows` and `ProcessAssetYields` |
| `AtmTable.DeriveRows` | newapp.py:64-80 | the expiry conversion succeeds iff every token parses and then gives one row per group; otherwise it fails on the first bad token |
| `AtmTable.ProcessAsset` | newapp.py:31-91 | the whole of `process_asset`: selection, then the expiry conversion; specified by the `ProcessAsset…` lemmas below |
| `AtmTable.ProcessAssetFails` | newapp.py:58-64 | the call fails iff some expiry with a candidate has a bad token, and the error names such a token |
| `AtmTable.ProcessAssetEmpty` | newapp.py:31-91 | with no candidate the table is empty, not an error |
| `AtmTable.ProcessAssetRows` | newapp.py:31-91 | each row is one candidate quote's: its strike, overridden spot and coerced bid, and a bid size that is null only when every candidate of the expiry has none, and otherwise that of a candidate below whose strike every candidate's bid size is null; strike >= spot and the lowest candidate strike; display and DTE from its token |
| `AtmTable.ProcessAssetExpiries` | newapp.py:54-65 | rows are in strictly ascending token order, no expiry twice, and every expiry with a candidate has a row |
| `AtmTable.ProcessAssetYields` | newapp.py:72-80 | each row's ROI is bid/spot in percent, and its annualized ROI is ROI scaled by 365/DTE, each defined iff its denominators are nonzero |
| `AtmExample.ExampleSymbol` | newapp.py:53 | the symbol `C-ETH-3000-100125` has the expiry key `100125` |
| `AtmExample.EthExpiries` | newapp.py:54-61 | the example gives one group per expiry, `100125` before `170125` |
| `AtmExample.EthWithoutOverride` | newapp.py:47-61 | without an override, 3100 is selected for both expiries: the 3000 call of 10 January is below spot and that of 17 January has no bid |
| `AtmExample.EthWithOverride` | newapp.py:47-61 | with the spot overridden to 2000, 3000 is selected for 10 January and 3100 for 17 January, both at spot 2000 |

## Left out

- `fetch_data` (newapp.py:25-29): the HTTP request and Streamlit's result cache. This is I/O; the model starts from the quote list.
- The Streamlit widgets, the button, the table rendering and the refresh caption (newapp.py:5-22, 93-110): these are UI.
- `pd.json_normalize` (newapp.py:96) and the exact parsing rules of `pd.to_numeric` (newapp.py:44-45, 72): these are library behaviour. A coerced field is an `Option<real>` (None for NaN), and a raw cell is null or a value with such a coercion.
- The `greeks.theta` column: `first()` carries it, but the table never shows it.
- Missing columns (a KeyError, newapp.py:32-42) and a null `symbol` on one of the asset's call rows (an AttributeError from `split`, newapp.py:53): these are not modelled, because the fields are plain strings in the model. A null `underlying_asset_symbol` or `contract_type` is not an error: it compares unequal and drops the row, which a non-matching string models.
- The wall clock (newapp.py:67): `today` is a parameter, a valid date at midnight.
- ParseDdmmyy: accepts exactly six ASCII digits. The shorter and space-padded forms that strptime's `%d` and `%m` patterns also admit (such as `11125` or ` 10125`), and non-ASCII decimal digits, are treated as parse errors.
- SortByExpiryStrike: the insertion sort is stable, as the source's multi-column sort is. No lemma states that rows with equal keys keep their input order, so ties in strike within one expiry are not specified further.
- DeriveRows, ProcessAssetFails: pandas turns the tokens `""` (a symbol ending in `-`; pandas 2 and later), `nan`, `NaN`, `NAN`, `NaT`, `nat` and `NAT` into NaT without raising, and keeps the row with a NaN display, DTE and annualized ROI. The model treats them as unparsable, so the call fails instead.
- Roi, AnnualizedRoi: exact real arithmetic with no IEEE rounding. NaN and the infinities from a zero spot or a zero DTE are all collapsed to None.
- GroupFirst: defined for rows already sorted by token, which the preceding sort guarantees. `GroupFirstIsGroupBy` ties it to the group-by semantics only for such input.
