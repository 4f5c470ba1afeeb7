# SigmaSight watchlist, dip ranking and quality score in Dafny

SigmaSight is a desktop stock viewer. This project models the few parts of it that are
logic rather than window layout or charting, and proves what they do:

- **The watchlist** (`watchlist.py`). The window keeps an in-memory list of ticker symbols
  that its add and remove callbacks update in place. After each change the list is written
  to the JSON file `watchlist_config.json`. The model uses two classes. `Store` is the file:
  a constructor for the first run that creates it empty, plus `Load` and `Save`. `Watchlist`
  is the shared list. Its invariant `Valid()` says the file mirrors the list. `Add` and
  `Remove` keep that invariant and are proved against the specification functions
  `AfterAdd` and `RemoveFirst`. The lemmas about those functions cover duplicates,
  occurrence counts and order. The company label of a watchlist row (the name cut to 15
  characters) is a pure function.
- **The dip ranking** (`calculate_dip_data` in `watchlist.py`). For every ticker the loop
  computes `(price - avg200) / avg200 * 100`. Python's stable `list.sort` then orders the
  pairs by that percent. `CalculateDipData` is the loop, proved equal to the function
  `Ranking`. Lemmas show the following about the result:
  - it exists exactly when every quote has both fields and a non-zero average;
  - it holds one entry per ticker;
  - it is sorted, a permutation of the pairs, and stable;
  - every stable sort gives this same list.
- **The quality score** (`update_quality_info` in `SigmaSight.py`). There are nine yes/no
  criteria: four on profitability, three on leverage and two on efficiency. The score is
  how many hold, and a chain of thresholds maps it to Low, Okay, Medium, High or Superb.
  `UpdateQualityInfo` accumulates the score with a counting loop (`CountCriteria`). It is
  proved equal to the function `QualityOf`. One leverage criterion compares shares
  outstanding with itself, so it always holds. One efficiency criterion compares asset
  turnover with itself, so it never holds. The score therefore always lies in 1..8, and
  Superb needs all seven other criteria.
- **The magnitude suffix** (`format_num` in `SigmaSight.py`). The first threshold reached
  picks T, B, M, K or no suffix.

The provider's data comes in as parameters:

- whether the info snapshot was empty;
- the price and 200-day average as `Option<real>`, where `None` is a missing key;
- the info fields the criteria read;
- the balance-sheet and income-statement rows as sequences.

Python exceptions become `Result` values: the `TypeError` of the `'N/A'` fallback, the
`ZeroDivisionError` of a zero average, and the `IndexError` of `iloc[-2]`. The one
exception is `list.remove`, whose `ValueError` becomes `Remove` returning `false`.
Arithmetic uses exact `real`. A float64 division by zero in pandas yields an infinity or
NaN instead of raising, so the type `Float` models those values.

Modules: `Wrappers` (`wrappers.dfy`), `WatchlistStore` (`watchlist.dfy`), `DipRanking`
(`dip_ranking.dfy`), `QualityScore` (`quality.dfy`), `NumberFormat` (`number_format.dfy`).

### Behaviour of the code worth knowing

- `remove_ticker` on a ticker that is not listed raises `ValueError` from `list.remove`
  (watchlist.py:37) before anything is saved. `Remove` returns `false` and changes nothing.
- `calculate_dip_data` orders the pairs with `list.sort` (watchlist.py:109), which is
  stable, so tickers with equal percents keep their watchlist order.
- `update_quality_info` compares shares outstanding with itself (SigmaSight.py:411) and
  asset turnover with itself (SigmaSight.py:416). The first criterion always holds and the
  second never does, so the score can only be 1..8 (`ScoreRange`).
- `load_watchlist` (watchlist.py:20-22) returns the file's list as it is, duplicates
  included, so uniqueness is not a class invariant. `add_ticker_to_watchlist` never adds a
  listed ticker, so `Add` keeps a duplicate-free list duplicate-free.

## Model

| member | source | states |
|---|---|---|
| `WatchlistStore.Store.Init` | watchlist.py:15-18 | on first run an absent store file is created holding the empty list; an existing file keeps its contents |
| `WatchlistStore.Store.Load` | watchlist.py:20-22 | loading returns exactly the list the file holds |
| `WatchlistStore.Store.Save` | watchlist.py:24-26 | saving overwrites the file with the given list |
| `WatchlistStore.Watchlist.Open` | watchlist.py:187 | the window's list starts as the loaded file contents, so the file mirrors the list |
| `WatchlistStore.Watchlist.Add` | watchlist.py:28-33 | the list becomes `AfterAdd` of the old list, the file still mirrors it, and a refused add writes neither the list nor the file |
| `WatchlistStore.AfterAdd` | watchlist.py:31-32 | the old list is a prefix of the new one, which grows by one exactly when info is non-empty and the ticker is absent, and then ends with that ticker; membership changes only by that ticker; no duplicates are introduced |
| `WatchlistStore.AddedTickerOccursOnce` | watchlist.py:31-33 | adding a ticker the provider knows to a duplicate-free list leaves it in the list exactly once |
| `WatchlistStore.Watchlist.Remove` | watchlist.py:36-38 | reports whether the ticker was listed (otherwise `list.remove` raises and nothing changes); if it was, the list becomes `RemoveFirst` of the old list and the file mirrors it |
| `WatchlistStore.IndexOf` | watchlist.py:37 | the position `list.remove` deletes holds the ticker, and the ticker does not occur before it |
| `WatchlistStore.RemoveFirst` | watchlist.py:37 | the list shrinks by one: entries before the first occurrence stay in place and those after it shift down by one, keeping their relative order |
| `WatchlistStore.RemoveFirstDeletesOneCopy` | watchlist.py:37 | remove deletes exactly one copy of the ticker: the multiset loses one element and the occurrence count drops by one |
| `WatchlistStore.RemoveFirstClearsTicker` | watchlist.py:37 | removing from a duplicate-free list leaves a duplicate-free list that no longer contains the ticker |
| `WatchlistStore.OccurrencesUnique` | watchlist.py:31 | in a duplicate-free list a ticker is counted at most once |
| `WatchlistStore.CompanyLabel` | watchlist.py:75-76 | a missing short name shows as "N/A" (line 57); a name longer than 15 characters becomes its first 15 characters followed by "... " (19 in all); shorter names are unchanged; a label is at most 15 long exactly when the name is |
| `DipRanking.DipPercent` | watchlist.py:106 | the percent is negative exactly when the price is on the dipped side of the average, zero exactly when they are equal, and the price is recovered as `average * (1 + p/100)` |
| `DipRanking.EntryOf` | watchlist.py:101-106 | a quote yields an entry for its ticker exactly when both fields are present and the average is non-zero; a missing field is reported before a zero average |
| `DipRanking.DipPairs` | watchlist.py:100-107 | the unsorted `dip_data` list built in watchlist order; when it exists it has one pair per quote (its lemmas below give the pairs, the first exception, and its persistence) |
| `DipRanking.DipPairsSuccess` | watchlist.py:100-107 | the unsorted list exists exactly when every quote yields an entry; it then has one pair per ticker, in watchlist order, with percent `(price - avg)/avg * 100` |
| `DipRanking.DipPairsFirstFailure` | watchlist.py:100-107 | when the loop raises, the exception is that of the first quote that fails, and every earlier quote succeeds |
| `DipRanking.DipPairsFailurePersists` | watchlist.py:100-107 | an exception raised within a prefix of the watchlist is the exception of the whole loop |
| `DipRanking.SortByPercent` | watchlist.py:109 | the stand-in for `list.sort(key=percent)` keeps the list's length; the three lemmas below prove it sorted, a permutation and stable |
| `DipRanking.SortByPercentSorted` | watchlist.py:109 | the sorted list is non-decreasing by percent |
| `DipRanking.SortByPercentPermutation` | watchlist.py:109 | the sorted list is a permutation of the unsorted pairs: same length, same multiset of entries |
| `DipRanking.SortByPercentStable` | watchlist.py:109 | the sort is stable: for every percent, the entries carrying it appear in their input order |
| `DipRanking.SortedStableIsUnique` | watchlist.py:109 | two sorted lists that agree, percent by percent, on their entries and order are equal, so every stable sort gives the model's result |
| `DipRanking.Ranking` | watchlist.py:93-111 | `calculate_dip_data`'s result: it raises exactly when the loop raises, with the loop's exception; otherwise it is the loop's pairs, sorted by percent and permuted only |
| `DipRanking.RankingSpec` | watchlist.py:93-111 | the ranking exists exactly when every quote is usable; it then has one entry per ticker and is sorted, a permutation of the pairs, and stable |
| `DipRanking.CalculateDipData` | watchlist.py:93-111 | the loop and sort return exactly `Ranking` of the quotes, including the first exception |
| `DipRanking.ThreeTickerExample` | watchlist.py:93-111 | tickers at +5%, -3% and -10% of their averages rank C, B, A |
| `QualityScore.Divide` | SigmaSight.py:410 | the float64 ratio equals the real quotient for a non-zero divisor; a zero divisor gives +inf for a positive numerator, -inf for a negative one, and NaN exactly for 0/0 |
| `QualityScore.Less` | SigmaSight.py:409-410 | float64 `<` is false whenever NaN is involved, agrees with `<` on finite values, holds for -inf below anything but -inf and for anything but +inf below +inf, and never holds with +inf on the left or -inf on the right |
| `QualityScore.OrZero` | SigmaSight.py:402-405 | `info.get(key, 0)`: a present key gives its value, a missing key gives 0 |
| `QualityScore.ProfitabilityCriteria` | SigmaSight.py:401-406 | four criteria; positive net income with cash flow above it implies positive cash flow; with every info key missing (defaults of 0) none holds |
| `QualityScore.LeverageCriteria` | SigmaSight.py:408-412 | three criteria; the shares-outstanding criterion always holds |
| `QualityScore.EfficiencyCriteria` | SigmaSight.py:414-417 | two criteria; the asset-turnover criterion never holds, and the gross-profit criterion fails when the latest row is NaN |
| `QualityScore.FirstShortSeries` | SigmaSight.py:409-415 | no series is short exactly when all four series have at least two rows; otherwise the named series has fewer than two rows and every series read before it has at least two |
| `QualityScore.CountTrue` | SigmaSight.py:419-421 | `sum(1 for criterion in criteria if criterion)` never exceeds the number of criteria |
| `QualityScore.CountTrueBounds` | SigmaSight.py:419-421 | the count of true criteria is at least 1 when one holds, and at most one below their number when one fails |
| `QualityScore.CountTrueAll` | SigmaSight.py:419-421 | the count equals the number of criteria exactly when all of them hold |
| `QualityScore.CountCriteria` | SigmaSight.py:419-421 | the loop returns the number of true criteria |
| `QualityScore.RatingOf` | SigmaSight.py:423-433 | Superb for a score of at least 8, High for 6-7, Medium for 4-5, Okay for 2-3, Low below 2; for non-negative scores the label's rank is `min(score / 2, 4)` |
| `QualityScore.RatingMonotone` | SigmaSight.py:423-433 | a higher score never yields a lower label |
| `QualityScore.QualityOf` | SigmaSight.py:400-433 | `update_quality_info`'s outcome: the IndexError exactly when some series is short, naming the first one; otherwise a score of at most 9 with the label the threshold chain gives it |
| `QualityScore.ScoreRange` | SigmaSight.py:400-421 | a score is produced exactly when every series has two rows, and it always lies in 1..8 |
| `QualityScore.SuperbNeedsSevenCriteria` | SigmaSight.py:400-433 | the rating is Superb exactly when all four profitability criteria, both real leverage criteria and the gross-profit criterion hold |
| `QualityScore.UpdateQualityInfo` | SigmaSight.py:394-433 | the method returns exactly `QualityOf`: the IndexError of the first short series, or the count of true criteria with its label |
| `NumberFormat.SuffixFor` | SigmaSight.py:15-26 | exactly one branch is chosen, by first match: T from 1e12, B in [1e9, 1e12), M in [1e6, 1e9), K in [1e3, 1e6), and no suffix below 1000 |
| `NumberFormat.ScaledValue` | SigmaSight.py:17-24 | the printed number times the scale gives back the value; with a suffix it is at least 1, and below 1000 except for T |
| `NumberFormat.SuffixMonotone` | SigmaSight.py:17-26 | a larger value never gets a smaller suffix |
| `NumberFormat.NegativeHasNoSuffix` | SigmaSight.py:17-26 | every negative value is printed unscaled and without a suffix |

## Left out

- Every call to the financial-data provider is left out: `yf.Ticker`, `yf.Tickers`, `.info`, `.financials`, `.balance_sheet` and `.calendar`. Their results are parameters.
- The JSON encoding and the file system are left out. The file is the `Store` object. A corrupt file, on which `json.load` raises, is not modelled.
- `refresh_watchlist`, `display_dip_finder_chart`, `set_colours`, `open_watchlist` and all widget and chart code are left out. They are window layout. The same goes for the `plot_*` functions and `update_dividend_info`, `update_balance_info`, `update_margins_growth_info` and `update_value_info`, which format provider values for labels.
- The rounded price-change percent of a watchlist row and its colour (watchlist.py:61, 85-88) are left out. Both depend on float rounding.
- NumberFormat.ScaledValue: the `.0f` rounding of the scaled number and the `str(value)` text below 1000 are not modelled. Only the suffix choice and the exact scaled value are.
- Exact `real` arithmetic replaces float64: no rounding, no signed zero (dividing by -0.0 would give -inf), and no NaN in the info snapshot's fields, where a NaN shares count would make its self-comparison false.
- QualityScore.QualityOf: a balance-sheet or income-statement column the provider did not return raises `KeyError` in the code. The model treats it as an empty series, reported as too short.
- DipRanking.SortByPercent: Timsort itself is not modelled. A stable insertion sort on a sequence stands in for the in-place `list.sort`. `SortedStableIsUnique` shows that every stable sort returns the same list.
- DipRanking.CalculateDipData: watchlist.py fetches one info snapshot per distinct ticker in a dict. The model takes one quote per watchlist entry, so a caller passes the same snapshot for a repeated ticker.
