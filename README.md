# Wind-energy plotting helpers: a verified model

This project models the shared helper module of a batch tool that plots WRF
wind-model output over offshore wind-lease areas (`functions/common.py`). Four
of its routines carry logic of their own, and each one is modelled here:

- **`daterange_interval`** splits a date range into monthly plotting buckets.
  Module `DateBuckets` models it, on top of a Gregorian calendar in module
  `Calendar`. That module also models `pd.date_range(start, end, freq='M')`
  as `Calendar.MonthEnds`, which lists the month-ends in `[start, end]`.
- **`find_coords`** turns the text of KML 2.2 `coordinates` elements into
  `[lon, lat]` pairs. **`extract_lease_area_outlines`** builds the map from
  lease-area name to `{outer, inner}` pair lists. Module `LeaseAreas` models
  both, starting from placemarks the XML parser has already read.
- **`subset_grid`** cuts out the index block spanned by the grid cells that lie
  strictly inside a longitude/latitude extent. Module `GridSubset` models it,
  over 2-D arrays of reals.

Module `Wrappers` holds the `Option` and `Result` types. A failing call
(Python raises an exception) becomes a `Failure` value.

How each part is modelled:

- **Dates** are `(year, month, day)` at midnight. The callers only pass
  midnight datetimes. `Calendar.NextDay` is `+ timedelta(days=1)`.
- **Bucketing errors.** `DaterangeInterval` is a method with the source's loop,
  placed in its helper `ChainMonthEnds`. It fails in two cases:
  `UnsupportedInterval` when `interval` is not `'monthly'` (the source's
  `start` and `end` are then unbound), and `NoMonthEnd` when the range holds no
  month-end (the loop never binds `dr`).
- **Coordinates.** `LeaseAreas.Split` models Python's `str.split(sep)` with a
  one-character separator. Coordinate fields stay as text, so `np.float` is not
  modelled. A token with no comma fails with `MissingLatitude`. In the source it
  raises a `ValueError` from `np.float(splitter[0])` when its only field is not a
  number (the empty token included), and an `IndexError` from `splitter[1]`
  otherwise.
- **Placemarks.** A placemark is its `name` texts plus the texts of its
  outer-boundary and inner-boundary `coordinates` elements, in document order.
- **Grid.** The grid values are `real`. The subset is xarray's orthogonal
  indexing: the block of rows `min..max` by columns `min..max`.

The buckets are meant to partition `[start_date, end_date]`: every day in
exactly one bucket, no bucket that starts after it ends, and a single bucket
`(start_date, end_date)` for a range that holds no month-end. The code departs
from that in two ways, and the model follows the code.

- The code fails on a range that holds no month-end.
- The code appends a trailing bucket that starts after it ends when `end_date`
  is a month-end.
- Both are listed under "## Findings". `DateBuckets.DaterangeIntervalFixed`
  models the intended partition.

## Model

| member | source | states |
|---|---|---|
| `Calendar.NextDay` | functions/common.py:26 | The day after a valid date is a later valid date. It is the 1st of a month exactly when the date is a month-end, and then it falls in the next month. |
| `Calendar.NextDayIsSuccessor` | functions/common.py:26 | No valid date lies strictly between a date and the day after it. |
| `Calendar.MonthEnds` | functions/common.py:19 | Every listed date is a month-end with `start <= d <= end`. The i-th one falls in the i-th month from the month of `start`. |
| `Calendar.MonthEndsExactly` | functions/common.py:19 | A date is listed if and only if it is a month-end in `[start, end]`. |
| `Calendar.MonthEndsIncreasing` | functions/common.py:19 | The listed month-ends are strictly increasing. |
| `Calendar.MonthEndsConsecutive` | functions/common.py:19 | One month-end per month: each is the end of the month that starts the day after the previous one. |
| `Calendar.LastMonthEndIsLatest` | functions/common.py:19-28 | The last listed month-end, the final `dr`, is the latest month-end in `[start, end]`. |
| `DateBuckets.ChainMonthEnds` | functions/common.py:20-27 | The loop returns `end` equal to the month-ends and `start` of the same length. The first start is `start_date`, and each later start is the day after the previous month-end. |
| `DateBuckets.DaterangeInterval` | functions/common.py:14-32 | A non-`'monthly'` interval fails. A range without a month-end fails. Otherwise the buckets are chained from `start_date` and end on exactly the month-ends of the range. One trailing bucket ending on `end_date` is appended exactly when the day after the last month-end is not `end_date`. |
| `DateBuckets.SourceBucketsAreMonths` | functions/common.py:19-27 | Each non-trailing bucket ends on a month-end. The first one ends at the end of `start_date`'s month. Every later one is one whole calendar month. |
| `DateBuckets.ChainedSeparated` | functions/common.py:22-27 | In a chain of non-empty buckets, each bucket ends strictly before any later bucket starts, so buckets never overlap. |
| `DateBuckets.SourceEndOnFirstOfMonth` | functions/common.py:28-30 | An `end_date` on the 1st of a month adds no trailing bucket, because the last month-end is the day before it. |
| `DateBuckets.SourceInvertedTrailingBucket` | functions/common.py:28-30 | An `end_date` that is a month-end still gets a trailing bucket, and that bucket starts after it ends. |
| `DateBuckets.SourceJanuary2020` | functions/common.py:28-30 | 2020-01-01 to 2020-01-31 yields the buckets (Jan 1, Jan 31) and (Feb 1, Jan 31). |
| `DateBuckets.SourceMidMonthRangeFails` | functions/common.py:22-28 | 2020-01-05 to 2020-01-20 holds no month-end, so the source fails on it. |
| `DateBuckets.ReversedRangeHasNoMonthEnd` | functions/common.py:19-28 | A range that ends before it starts holds no month-end, so the source fails on it too. |
| `DateBuckets.SourceLeapYearRange` | functions/common.py:19-30 | 2020-01-01 to 2020-03-15 yields (Jan 1, Jan 31), (Feb 1, Feb 29) and (Mar 1, Mar 15). |
| `DateBuckets.SourceDriverYear` | plot_wndsp_avg.py:149-151 | The driver's 2019-09-01 to 2020-09-01 yields twelve buckets, the last ending 2020-08-31. |
| `DateBuckets.DaterangeIntervalFixed` | functions/common.py:14-32 | Corrected routine. A non-`'monthly'` interval fails, and so does an end before the start. Otherwise the buckets partition `[start_date, end_date]`: chained, each non-empty, the last ending on `end_date`. The first buckets end on the month-ends, and exactly one bucket follows them unless the last month-end is `end_date`. A range without a month-end gives the single bucket `(start_date, end_date)`. |
| `DateBuckets.PartitionCovers` | functions/common.py:22-30 | Every day of `[start_date, end_date]` lies in some bucket of such a partition. |
| `DateBuckets.PartitionDisjoint` | functions/common.py:22-30 | No day lies in two different buckets of such a partition. |
| `LeaseAreas.Split` | functions/common.py:67-69 | `str.split(sep)` yields at least one piece, and no piece contains the separator. |
| `LeaseAreas.JoinSplit` | functions/common.py:67-69 | Joining the pieces with the separator gives the text back. |
| `LeaseAreas.SplitJoin` | functions/common.py:67-69 | Splitting the join of separator-free pieces gives the pieces back. |
| `LeaseAreas.SplitEmptyPiece` | functions/common.py:67 | A separator at either end of the text, or two in a row, yields an empty piece. |
| `LeaseAreas.TokensAppend` | functions/common.py:66-67 | The tokens of consecutive element texts are the concatenation of each text's tokens, in document order. |
| `LeaseAreas.ParseCoord` | functions/common.py:69-70 | A token fails exactly when it has no comma, and the error names the token. |
| `LeaseAreas.ParseCoordFields` | functions/common.py:69-70 | A pair holds the text before the first comma and the text between the first and second comma. Any further field, such as altitude, is ignored. |
| `LeaseAreas.FindCoords` | functions/common.py:58-72 | The nested loops return exactly the pair list `CoordsOf` gives for the space-separated tokens of all texts in document order, or its error. With no element, the result is `[]`. |
| `LeaseAreas.CoordsOfSucceeds` | functions/common.py:65-72 | The pairs succeed exactly when every token has a comma. There is then one pair per token, in order, each that token's first two fields. |
| `LeaseAreas.CoordsOfFirstError` | functions/common.py:68-70 | A failure names the first token without a comma. Every token before it is well formed. |
| `LeaseAreas.StraySpaceFails` | functions/common.py:67-70 | A leading, trailing or doubled space in any text makes `find_coords` fail. |
| `LeaseAreas.ExtractLeaseAreaOutlines` | functions/common.py:48-55 | The loops over placemarks and names return exactly `Outlines` of the placemarks, or its error. |
| `LeaseAreas.OutlinesFailure` | functions/common.py:49-53 | Extraction fails exactly when some placemark that has a name has a malformed outer or inner token. A nameless placemark is never parsed. |
| `LeaseAreas.OutlinesKeys` | functions/common.py:49-51 | The keys are exactly the names of all placemarks. |
| `LeaseAreas.OutlinesLatestWins` | functions/common.py:50-53 | A name maps to the `{outer, inner}` of the last placemark carrying it. `inner` is `[]` when that placemark has no inner boundary. |
| `LeaseAreas.RingsConcatenate` | functions/common.py:65-71 | The pairs of several outer rings are the concatenation, in document order, of each ring's pairs. |
| `GridSubset.RowBox` | functions/common.py:140-148 | For the inside cells of one row: none exist exactly when no cell is inside; otherwise the column range is attained at both ends and holds every inside cell. |
| `GridSubset.RowsBox` | functions/common.py:140-148 | For the inside cells of the first rows: none exist exactly when no cell is inside; otherwise the box is tight. |
| `GridSubset.SubsetBox` | functions/common.py:140-148 | A cell counts only if `lonmin < lon < lonmax` and `latmin < lat < latmax`. The call fails exactly when no cell counts. Otherwise the index box lies within the grid, holds every inside cell, and each of its four bounds is attained by an inside cell. |
| `GridSubset.Crop` | functions/common.py:148 | The block has `rowHi - rowLo + 1` rows of `colHi - colLo + 1` values, taken from the data at that offset. |
| `GridSubset.SubsetGrid` | functions/common.py:134-150 | The subset fails exactly when no cell is strictly inside the extent. Otherwise it is the data block over the tight index box. |
| `GridSubset.SubsetHoldsInsideCell` | functions/common.py:146-148 | Every inside cell appears in the subset, at its offset from the block's corner. |
| `GridSubset.SubsetMayHoldOutsideCells` | functions/common.py:146-147 | On a 2x2 grid whose two diagonal cells alone are inside, the block is the whole grid, outside cells included. |

## Left out

- `wind_uv_to_dir` and `wind_uv_to_spd` (functions/common.py:153-176): floating-point `arctan2`, `sqrt` and degree conversion, which this model does not represent.
- `plot_regions` and `nyserda_buoys` (functions/common.py:75-131): constant configuration tables with no behaviour.
- Reading the KML file: `ET.parse` of a fixed server path with the KML 2.2 namespace (functions/common.py:42-46), and the element-path queries. The model starts from placemarks already parsed in document order.
- An element without text (`text` is `None`) is not modelled. In the source, `ls.text.split` then raises an `AttributeError`, and a `<name/>` element gives the key `None`.
- `FindCoords`: a field that `np.float` refuses (an empty or non-numeric field) is not an error in the model. Fields stay as text, so the numeric value of a coordinate is not modelled either.
- `DaterangeInterval`: times of day are not modelled, because the callers pass midnight datetimes. Neither is pandas's supported Timestamp range (years 1677 to 2262); years are unbounded.
- `SubsetGrid`: NaN grid values are not modelled (grid values are reals). Neither is `np.squeeze` of extra singleton dimensions: the model takes a 2-D field on the same grid as `XLONG` and `XLAT`.
- `SubsetGrid`: on a grid with a single row or a single column, `np.squeeze` also drops that grid dimension, and the two-range index then raises an `IndexError`. The model does not fail there: it returns the 1-by-k or k-by-1 block.
- The driver scripts `plot_wndsp_avg.py` and `plot_divergence_hovmoller.py`: remote data access, directory creation, plotting, statistics and foreign numerics. This includes the `+23 hours` slice padding and the extent padding.

## Findings

| source | as written | input that shows it | evidently intended | confidence | as-written member | corrected member |
|---|---|---|---|---|---|---|
| functions/common.py:28-30 | The trailing bucket is appended when `dr + 1 day != end_date`, even when `dr` is `end_date` itself | start 2020-01-01, end 2020-01-31: buckets (Jan 1, Jan 31) and (Feb 1, Jan 31); the second starts after it ends | Append the trailing bucket only when the last month-end is not `end_date`, so the buckets partition `[start_date, end_date]` | medium, not executed | `DateBuckets.SourceInvertedTrailingBucket`, `DateBuckets.SourceJanuary2020` | `DateBuckets.DaterangeIntervalFixed` |
| functions/common.py:22-28 | `dr` is bound only if the range holds a month-end, so a shorter range raises `UnboundLocalError` at line 28 | start 2020-01-05, end 2020-01-20 | Return the single bucket (start_date, end_date), and refuse only an end before the start | medium, not executed | `DateBuckets.DaterangeInterval`, `DateBuckets.SourceMidMonthRangeFails` | `DateBuckets.DaterangeIntervalFixed` |

With the corrected routine, an `end_date` on the 1st of a month gets a one-day
trailing bucket. The driver's 2019-09-01 to 2020-09-01 therefore yields a
thirteenth bucket, (2020-09-01, 2020-09-01), where the code as written yields
twelve.
