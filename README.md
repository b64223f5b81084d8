# Airbnb listings ETL — a Dafny model

This project models the core of a small Airbnb-listings ETL pipeline. It has two stages.

- **The cleaner** (`airbnb_data.py`) does three things:
  - `transform` removes duplicate listing ids, keeping the first row for each id. It fills missing `name`, `host_name` and `reviews_per_month`, and drops listings with zero `availability_365`. It replaces non-positive prices with 1. It splits `last_review` into year, month and day, and adds `booking_rate = 1 - availability_365 / 365`.
  - `categorize_availability` labels each listing "highly", "moderately" or "rarely" available.
  - `main` sorts the table by `(distance_to_center, price)` and renumbers the rows from 1.
- **The summarizer** (`airbnb_summary.py`) makes two passes:
  - The first pass walks the cleaned rows and keeps one accumulator per `(neighbourhood_group, room_type)` key, in a dict ordered by first appearance.
  - The second pass turns each accumulator into a summary row. The row holds the mean and median price, the count, the average minimum nights and availability, an occupancy rate, the total reviews and the number of distinct hosts.

Modules:

- `Listings` is the row type `Listing`. It has the raw columns plus the derived ones. A derived column is an `Option` that is `None` until its stage fills it in.
  - `distance_to_center` is an input field, an integer in hundredths of a kilometre. That is the two-decimal value the distance step rounds to.
  - Prices are whole currency units.
  - Averages are `real`.
- `Cleaner` holds the cleaning stages:
  - Each row step is a function on `Listing`. Each table step is a function on `seq<Listing>`.
  - The pandas DataFrame that `transform` and `categorize_availability` change in place is the class `Frame`, with a `rows` field that the methods reassign.
  - The boolean-mask filter at line 21 builds a new frame. So `Transform` returns a fresh `Frame`, and the later column assignments change that frame.
  - `Clean` is the cleaning part of `main` without file I/O. It returns the sorted rows and the 1-based index.
- `Sorting` is an ascending sort on a lexicographic two-part key. It is used for the `(distance_to_center, price)` order and for the median.
- `Statistics` holds sums, the minimum and maximum, the mean and the median.
- `Summarizer` models both loops of `airbnb_summary.py` as methods. `Accumulate` keeps the ordered dict as a key sequence plus a `map`. `BuildSummary` builds the summary rows. Each method is proved against a specification function: `GroupKeys`, `StatsByKey` and `SummaryRows`. The summarizer's promises are lemmas about those functions.
- `Sequences` holds generic helpers: subsequence, image and distinctness, first index, element-wise map.

Notes on the code as written:

- `sort_values` at line 104 does not request a stable sort, so `Sorting.SortBy` promises only sortedness and permutation. The model's sort is an insertion sort, and it keeps tied rows in input order. `Sorting.SortBySortedIsIdentity`, `Sorting.SortByIdempotent` and `Cleaner.CleanRowsIdempotent` state sequence equality, so they depend on that. pandas sorts on several columns with a stable lexicographic sort, so the three equalities hold of the code as well. An unstable sort could swap two rows with equal distance and price.
- `pd.to_datetime` at line 18 raises on an unparsable date, because `errors='raise'` is its default. So `last_review` arrives parsed, as `Option<Date>`, and no coercion is claimed.
- `load` passes `index=False`, so only the relabelling at lines 105-106 is modelled.

## Model

| member | source | states |
|---|---|---|
| Cleaner.DropDuplicateIds | airbnb_data.py:12 | after dedup the ids are pairwise distinct, and the set of ids is the input's set |
| Cleaner.DropDuplicateIdsKeepsOrder | airbnb_data.py:12 | the kept rows are a subsequence of the input |
| Cleaner.DropDuplicateIdsFirstSeen | airbnb_data.py:12 | the kept rows come in the order in which their ids first appear in the input |
| Cleaner.DropDuplicateIdsKeepsFirst | airbnb_data.py:12 | every kept row is the first input row carrying its id |
| Cleaner.DropDuplicateIdsOfDistinct | airbnb_data.py:12 | a table whose ids are already distinct passes through dedup unchanged |
| Cleaner.FillName | airbnb_data.py:13 | the name is present afterwards, unchanged if it was present, "Unknown" otherwise, and no other column changes |
| Cleaner.FillHostName | airbnb_data.py:14 | the host name is present afterwards, unchanged if it was present, "Unknown" otherwise, and no other column changes |
| Cleaner.FillReviewsPerMonth | airbnb_data.py:15 | reviews per month is present afterwards, unchanged if it was present, 0 otherwise, and no other column changes |
| Cleaner.FilledInvariants | airbnb_data.py:13-15 | after the three fills no row has a missing name, host name or reviews per month; row count and id distinctness are kept |
| Cleaner.FilterAvailable | airbnb_data.py:21 | no kept row has zero availability; each row with nonzero availability is kept exactly as often as it occurs in the input, and no other row is kept |
| Cleaner.FilterAvailableKeepsOrder | airbnb_data.py:21 | the kept rows are in their original relative order |
| Cleaner.FilterAvailableOfAvailable | airbnb_data.py:21 | a table with no zero availability passes through the filter unchanged |
| Cleaner.ClampPrice | airbnb_data.py:24 | the price afterwards is positive: a positive price is kept, any other becomes 1 |
| Cleaner.ClampPriceIdempotent | airbnb_data.py:24 | clamping twice is clamping once |
| Cleaner.WithDateParts | airbnb_data.py:27-29 | year, month and day are present exactly when the last review date is, equal that date's parts, and no other column changes |
| Cleaner.BookingRate | airbnb_data.py:32 | 365 times (1 - rate) is the availability, so the rate is 1 - availability / 365; for availability in 1..365 it lies in [0, 1) |
| Cleaner.Categorize | airbnb_data.py:44-50 | "highly available" exactly when availability > 300, "moderately available" exactly when 100 < availability <= 300, "rarely available" exactly when availability <= 100 |
| Cleaner.CategorizeAvailability | airbnb_data.py:38-53 | the frame's rows all get the category of their availability, the frame is changed in place, and the same frame is returned |
| Cleaner.TransformRowsInvariants | airbnb_data.py:9-34 | the transformed table has no more rows than the raw one and distinct ids; every row has name, host name and reviews per month present, nonzero availability, a positive price, date parts matching its review date, and booking rate 1 - availability / 365 |
| Cleaner.Transform | airbnb_data.py:9-34 | dedup and the fills change the given frame in place; the returned fresh frame holds the transformed table, with distinct ids and every row transformed |
| Cleaner.CleanRowsInvariants | airbnb_data.py:97-104 | the cleaned table is a permutation of the categorized transform output, non-decreasing in (distance to center, price), no longer than the raw table, has distinct ids, and every row is transformed and categorized |
| Cleaner.CleanRowsIdempotent | airbnb_data.py:97-104 | cleaning the cleaned table again gives the same table |
| Cleaner.Clean | airbnb_data.py:94-106 | the rows are the cleaned table, sorted, with distinct ids and every row cleaned; the index labels the rows 1..n in order |
| Sorting.SortBy | airbnb_data.py:104 | the result is non-decreasing in the lexicographic key and is a permutation of the input |
| Sorting.SortBySortedIsIdentity | airbnb_data.py:104 | sorting an already sorted sequence leaves it unchanged |
| Sorting.SortByIdempotent | airbnb_data.py:104 | sorting twice is sorting once |
| Statistics.Mean | airbnb_summary.py:40 | the mean of a non-empty price list lies between its minimum and maximum |
| Statistics.Median | airbnb_summary.py:41 | the median of a non-empty price list lies between its minimum and maximum |
| Statistics.MedianIsMiddle | airbnb_summary.py:41 | the median is the middle element of the sorted prices for an odd count, and the mean of the two middle elements for an even count |
| Summarizer.Accumulate | airbnb_summary.py:9-31 | after the loop the keys are the distinct keys in first-seen order, and each key's accumulator is that of exactly its group's rows |
| Summarizer.AccumulateStep | airbnb_summary.py:12-31 | one iteration (create the accumulator if the key is new, then add the row) keeps that loop invariant |
| Summarizer.GroupKeysComplete | airbnb_summary.py:13-22 | a key is listed exactly when some row has it, exactly when its group is non-empty |
| Summarizer.GroupKeysDistinct | airbnb_summary.py:14-22 | no key is listed twice |
| Summarizer.GroupKeysFirstSeen | airbnb_summary.py:12-22 | keys are listed in the order of their first row in the input |
| Summarizer.StatsOfGroup | airbnb_summary.py:26-31 | the accumulator built by adding a group's rows one by one with `AddRow` (the loop body at lines 26-31) holds its group's prices in row order, a count equal to the group's size and the price list's length, and the set of the group's host ids |
| Summarizer.StatsOfGroupTotals | airbnb_summary.py:27-29 | in the accumulator `AddRow` builds, total minimum nights, total availability and total reviews are the sums over exactly the group's rows |
| Summarizer.UniqueHostsBounds | airbnb_summary.py:30 | a non-empty group has at least one and at most count distinct hosts |
| Summarizer.GroupCountsSum | airbnb_summary.py:31 | the group sizes over all listed keys add up to the number of input rows |
| Summarizer.SummaryRows | airbnb_summary.py:35-48 | one summary row per key |
| Summarizer.SummaryAt | airbnb_summary.py:35-48 | summary row i is the row computed from the accumulator of the i-th key, whose group is non-empty |
| Summarizer.GroupRowFacts | airbnb_summary.py:36-47 | the row `SummaryRowOf` computes from a group's accumulator (the loop body at lines 36-47) carries its key and its group's size and review total; average minimum nights and average availability are the means of those columns; unique hosts is the number of distinct host ids, between 1 and count |
| Summarizer.GroupPriceBounds | airbnb_summary.py:40-41 | the average and the median price lie between the group's cheapest and dearest price |
| Summarizer.GroupOccupancy | airbnb_summary.py:44-45 | in the row `SummaryRowOf` computes, the occupancy rate is 100 times the mean booking rate of the group's rows, and lies in [0, 100) when every availability is in 1..365 |
| Summarizer.SummaryCountsSum | airbnb_summary.py:42 | the counts of all summary rows add up to the number of input rows |
| Summarizer.BuildSummary | airbnb_summary.py:34-48 | the loop over accumulators yields one summary row per key, in key order |
| Summarizer.Summarize | airbnb_summary.py:9-48 | both passes together give the summary table: one row per distinct key, and an empty table for empty input |

## Left out

- File I/O is not modelled: `extract`/`load` (`read_csv`, `to_csv`), the summarizer's script-level read and write, the fixed paths and the `print` messages. Rows come in and go out as sequences.
- `haversine` and `calculate_distance_to_center` (airbnb_data.py:57-81) are left out because they are floating-point trigonometry. `distance_to_center` is an input field in hundredths of a kilometre, and latitude and longitude are not part of `Listing`.
- `pd.to_datetime` parsing (airbnb_data.py:18) is a library call and is left out. `last_review` arrives parsed, as `Option<Date>`.
- Sorting.SortBy: its contract leaves the order of tied rows open, because the code does not request a stable sort. Only sortedness and permutation are promised. The three equality lemmas noted above rely on the model's stable insertion sort.
- Pandas row labels are not modelled through dedup, filter and sort, because `reset_index(drop=True)` discards them at line 105. Only the relabelling to 1..n is modelled.
- numpy floating point is replaced by exact `real` arithmetic for means, medians, booking rates and occupancy, so rounding is not modelled.
- Pandas chained-assignment behaviour of `fillna(..., inplace=True)` on a column is not modelled. The model applies the intended value-level fill to the frame.
- Null grouping keys and null numeric columns in the summarizer are left out: every listing has a neighbourhood group, a room type and integer columns.
- Cleaner.Clean: the `main` pipeline also computes the distance column between categorizing and sorting. Here the distance is already part of each row.
