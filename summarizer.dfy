/**
 * The summary stage (airbnb_summary.py): one pass groups the cleaned
 * listings by (neighbourhood group, room type) into accumulators kept in
 * first-seen key order; a second pass turns each accumulator into a
 * summary row.
 */
module Summarizer {
  import opened Listings
  import opened Sequences
  import opened Statistics
  import Cleaner

  /** The grouping key. */
  datatype Key = Key(neighbourhoodGroup: string, roomType: string)

  /** The per-group accumulator the first pass updates. */
  datatype Stats = Stats(
    prices: seq<int>,
    totalMinimumNights: int,
    count: int,
    totalAvailability: int,
    totalReviews: int,
    uniqueHosts: set<int>)

  datatype SummaryRow = SummaryRow(
    neighbourhoodGroup: string,
    roomType: string,
    averagePrice: real,
    medianPrice: real,
    count: int,
    averageMinimumNights: real,
    averageAvailability: real,
    occupancyRate: real,
    totalReviews: int,
    uniqueHosts: int)

  const EMPTY_STATS := Stats([], 0, 0, 0, 0, {})

  function KeyOf(x: Listing): Key {
    Key(x.neighbourhoodGroup, x.roomType)
  }

  function HostId(x: Listing): int {
    x.hostId
  }

  /** One row's contribution to its group's accumulator. */
  function AddRow(st: Stats, x: Listing): Stats {
    Stats(
      st.prices + [x.price],
      st.totalMinimumNights + x.minimumNights,
      st.count + 1,
      st.totalAvailability + x.availability365,
      st.totalReviews + x.numberOfReviews,
      st.uniqueHosts + {x.hostId})
  }

  /** The accumulator after adding the rows of `g` in order to an empty one. */
  function StatsOf(g: seq<Listing>): Stats {
    if g == [] then EMPTY_STATS else AddRow(StatsOf(g[..|g| - 1]), g[|g| - 1])
  }

  // Column projections of a group.
  function Prices(g: seq<Listing>): seq<int> { Map(g, (x: Listing) => x.price) }
  function MinimumNights(g: seq<Listing>): seq<int> { Map(g, (x: Listing) => x.minimumNights) }
  function Availabilities(g: seq<Listing>): seq<int> { Map(g, (x: Listing) => x.availability365) }
  function ReviewCounts(g: seq<Listing>): seq<int> { Map(g, (x: Listing) => x.numberOfReviews) }
  function BookingRates(g: seq<Listing>): seq<real> { Map(g, (x: Listing) => Cleaner.BookingRate(x.availability365)) }

  /** The distinct keys of `data`, in order of first appearance. */
  function GroupKeys(data: seq<Listing>): seq<Key> {
    if data == [] then []
    else
      var keys := GroupKeys(data[..|data| - 1]);
      var k := KeyOf(data[|data| - 1]);
      if k in keys then keys else keys + [k]
  }

  /** The rows of `data` with key `k`, in input order. */
  function Group(data: seq<Listing>, k: Key): seq<Listing> {
    if data == [] then []
    else
      var g := Group(data[..|data| - 1], k);
      if KeyOf(data[|data| - 1]) == k then g + [data[|data| - 1]] else g
  }

  // ---------------------------------------------------------------------
  // Groups and their keys

  /** A key is listed exactly when its group is non-empty. */
  lemma {:induction false} GroupKeysComplete(data: seq<Listing>, k: Key)
    ensures k in GroupKeys(data) <==> Group(data, k) != []
    ensures k in GroupKeys(data) <==> exists i | 0 <= i < |data| :: KeyOf(data[i]) == k
  {
    if data != [] {
      var init := data[..|data| - 1];
      GroupKeysComplete(init, k);
      if k !in GroupKeys(data) {
        forall i | 0 <= i < |data| ensures KeyOf(data[i]) != k {
          if i < |init| {
            assert data[i] == init[i];
          }
        }
      } else if k !in GroupKeys(init) {
        assert KeyOf(data[|data| - 1]) == k;
      } else {
        var i :| 0 <= i < |init| && KeyOf(init[i]) == k;
        assert data[i] == init[i];
      }
    }
  }

  /** Every key is listed once. */
  lemma {:induction false} GroupKeysDistinct(data: seq<Listing>)
    ensures forall i, j | 0 <= i < j < |GroupKeys(data)| :: GroupKeys(data)[i] != GroupKeys(data)[j]
  {
    if data != [] {
      GroupKeysDistinct(data[..|data| - 1]);
    }
  }

  /** Every listed key is the key of some row. */
  lemma GroupKeysInImage(data: seq<Listing>)
    ensures forall k | k in GroupKeys(data) :: k in Image(data, KeyOf)
  {
    forall k | k in GroupKeys(data) ensures k in Image(data, KeyOf) {
      GroupKeysComplete(data, k);
      var i :| 0 <= i < |data| && KeyOf(data[i]) == k;
      assert data[i] in data;
    }
  }

  /**
   * Keys are listed in order of first appearance: a key listed earlier
   * has its first row earlier in `data`.
   */
  lemma {:induction false} GroupKeysFirstSeen(data: seq<Listing>)
    ensures forall k | k in GroupKeys(data) :: k in Image(data, KeyOf)
    ensures forall i, j | 0 <= i < j < |GroupKeys(data)| ::
      FirstIndexBy(data, KeyOf, GroupKeys(data)[i]) < FirstIndexBy(data, KeyOf, GroupKeys(data)[j])
  {
    GroupKeysInImage(data);
    if data != [] {
      var init, last := data[..|data| - 1], data[|data| - 1];
      assert data == init + [last];
      var keys, ks := GroupKeys(data), GroupKeys(init);
      GroupKeysFirstSeen(init);
      if KeyOf(last) !in ks {
        FirstSeenNewKey(init, last);
      } else {
        FirstSeenOldKeys(init, last);
      }
    }
  }

  /** Positions of already-seen keys do not move when a row is appended. */
  lemma FirstSeenOldKeys(init: seq<Listing>, last: Listing)
    requires forall k | k in GroupKeys(init) :: k in Image(init, KeyOf)
    ensures forall k | k in GroupKeys(init) ::
      k in Image(init + [last], KeyOf) &&
      FirstIndexBy(init + [last], KeyOf, k) == FirstIndexBy(init, KeyOf, k)
  {
    forall k | k in GroupKeys(init)
      ensures k in Image(init + [last], KeyOf)
      ensures FirstIndexBy(init + [last], KeyOf, k) == FirstIndexBy(init, KeyOf, k)
    {
      FirstIndexByAppendOld(init, last, KeyOf, k);
    }
  }

  /** A newly seen key is listed last and its first row is the last row. */
  lemma FirstSeenNewKey(init: seq<Listing>, last: Listing)
    requires KeyOf(last) !in GroupKeys(init)
    requires forall k | k in GroupKeys(init) :: k in Image(init, KeyOf)
    requires forall i, j | 0 <= i < j < |GroupKeys(init)| ::
      FirstIndexBy(init, KeyOf, GroupKeys(init)[i]) < FirstIndexBy(init, KeyOf, GroupKeys(init)[j])
    ensures forall k | k in GroupKeys(init + [last]) :: k in Image(init + [last], KeyOf)
    ensures forall i, j | 0 <= i < j < |GroupKeys(init + [last])| ::
      FirstIndexBy(init + [last], KeyOf, GroupKeys(init + [last])[i]) <
      FirstIndexBy(init + [last], KeyOf, GroupKeys(init + [last])[j])
  {
    var data := init + [last];
    assert data[..|data| - 1] == init;
    var ks := GroupKeys(init);
    var keys := GroupKeys(data);
    assert keys == ks + [KeyOf(last)];
    GroupKeysInImage(data);
    FirstSeenOldKeys(init, last);
    assert KeyOf(last) !in Image(init, KeyOf) by {
      GroupKeysComplete(init, KeyOf(last));
      forall y | y in init ensures KeyOf(y) != KeyOf(last) {
        var m :| 0 <= m < |init| && init[m] == y;
      }
    }
    FirstIndexByAppendNew(init, last, KeyOf);
    forall i, j | 0 <= i < j < |keys|
      ensures FirstIndexBy(data, KeyOf, keys[i]) < FirstIndexBy(data, KeyOf, keys[j])
    {
      assert keys[i] == ks[i] && keys[i] in ks;
      if j < |ks| {
        assert keys[j] == ks[j] && keys[j] in ks;
      }
    }
  }

  /** The group sizes over all listed keys add up to the number of rows. */
  function TotalCount(keys: seq<Key>, data: seq<Listing>): int {
    if keys == [] then 0
    else TotalCount(keys[..|keys| - 1], data) + |Group(data, keys[|keys| - 1])|
  }

  lemma {:induction false} TotalCountAppend(keys: seq<Key>, data: seq<Listing>, x: Listing)
    requires forall i, j | 0 <= i < j < |keys| :: keys[i] != keys[j]
    ensures TotalCount(keys, data + [x]) == TotalCount(keys, data) + if KeyOf(x) in keys then 1 else 0
  {
    var d := data + [x];
    assert d[..|data|] == data;
    if keys != [] {
      var ks := keys[..|keys| - 1];
      TotalCountAppend(ks, data, x);
      assert KeyOf(x) in keys <==> KeyOf(x) in ks || KeyOf(x) == keys[|keys| - 1];
      if KeyOf(x) == keys[|keys| - 1] {
        assert KeyOf(x) !in ks;
      }
    }
  }

  lemma {:induction false} GroupCountsSum(data: seq<Listing>)
    ensures TotalCount(GroupKeys(data), data) == |data|
  {
    if data != [] {
      var init, x := data[..|data| - 1], data[|data| - 1];
      assert data == init + [x];
      var ks := GroupKeys(init);
      GroupCountsSum(init);
      GroupKeysDistinct(init);
      TotalCountAppend(ks, init, x);
      if KeyOf(x) !in ks {
        GroupKeysComplete(init, KeyOf(x));
        assert GroupKeys(data) == ks + [KeyOf(x)];
        assert (ks + [KeyOf(x)])[..|ks|] == ks;
      }
    }
  }

  // ---------------------------------------------------------------------
  // What an accumulator holds

  /**
   * The accumulator of a group holds its prices in order, one count per
   * row, and the set of its hosts.
   */
  lemma {:induction false} StatsOfGroup(g: seq<Listing>)
    ensures StatsOf(g).prices == Prices(g)
    ensures StatsOf(g).count == |g| == |StatsOf(g).prices|
    ensures StatsOf(g).uniqueHosts == Image(g, HostId)
  {
    if g != [] {
      var g', x := g[..|g| - 1], g[|g| - 1];
      assert g == g' + [x];
      StatsOfGroup(g');
      MapAppend(g', x, (x: Listing) => x.price);
      ImageAppend(g', x, HostId);
    }
  }

  /**
   * The running totals of a group's accumulator are the sums of minimum
   * nights, availability and reviews over exactly the group's rows.
   */
  lemma {:induction false} StatsOfGroupTotals(g: seq<Listing>)
    ensures StatsOf(g).totalMinimumNights == Sum(MinimumNights(g))
    ensures StatsOf(g).totalAvailability == Sum(Availabilities(g))
    ensures StatsOf(g).totalReviews == Sum(ReviewCounts(g))
  {
    if g != [] {
      var g', x := g[..|g| - 1], g[|g| - 1];
      assert g == g' + [x];
      StatsOfGroupTotals(g');
      SumOfColumnAppend(g', x, (x: Listing) => x.minimumNights);
      SumOfColumnAppend(g', x, (x: Listing) => x.availability365);
      SumOfColumnAppend(g', x, (x: Listing) => x.numberOfReviews);
    }
  }

  lemma SumOfColumnAppend(g: seq<Listing>, x: Listing, column: Listing -> int)
    ensures Sum(Map(g + [x], column)) == Sum(Map(g, column)) + column(x)
  {
    MapAppend(g, x, column);
    SumAppend(Map(g, column), column(x));
  }

  /** A non-empty group has between one and `count` distinct hosts. */
  lemma UniqueHostsBounds(g: seq<Listing>)
    requires g != []
    ensures 1 <= |StatsOf(g).uniqueHosts| <= StatsOf(g).count
  {
    StatsOfGroup(g);
    ImageCard(g, HostId);
    assert HostId(g[0]) in Image(g, HostId);
  }

  // ---------------------------------------------------------------------
  // From accumulator to summary row

  /** The summary row of one group, computed from its accumulator. */
  function SummaryRowOf(k: Key, st: Stats): SummaryRow
    requires st.count > 0 && |st.prices| > 0
  {
    var averageAvailability := st.totalAvailability as real / st.count as real;
    SummaryRow(
      k.neighbourhoodGroup,
      k.roomType,
      Mean(st.prices),
      Median(st.prices),
      st.count,
      st.totalMinimumNights as real / st.count as real,
      averageAvailability,
      100.0 * (365.0 - averageAvailability) / 365.0,
      st.totalReviews,
      |st.uniqueHosts|)
  }

  /** The accumulators the first pass leaves behind, by key. */
  function StatsByKey(data: seq<Listing>): map<Key, Stats> {
    map k | k in GroupKeys(data) :: StatsOf(Group(data, k))
  }

  /** Every listed key has an accumulator holding at least one row. */
  predicate Complete(keys: seq<Key>, summary: map<Key, Stats>) {
    forall k | k in keys :: k in summary && summary[k].count > 0 && |summary[k].prices| > 0
  }

  /** One summary row per key, in key order. */
  function SummaryRows(keys: seq<Key>, summary: map<Key, Stats>): (rows: seq<SummaryRow>)
    requires Complete(keys, summary)
    ensures |rows| == |keys|
  {
    if keys == [] then []
    else
      var k := keys[|keys| - 1];
      SummaryRows(keys[..|keys| - 1], summary) + [SummaryRowOf(k, summary[k])]
  }

  lemma SummaryRowsStep(keys: seq<Key>, summary: map<Key, Stats>, i: nat)
    requires Complete(keys, summary) && i < |keys|
    ensures Complete(keys[..i], summary) && Complete(keys[..i + 1], summary)
    ensures SummaryRows(keys[..i + 1], summary) ==
      SummaryRows(keys[..i], summary) + [SummaryRowOf(keys[i], summary[keys[i]])]
  {
    assert keys[..i + 1][..i] == keys[..i];
  }

  lemma {:induction false} SummaryRowsAt(keys: seq<Key>, summary: map<Key, Stats>, i: nat)
    requires Complete(keys, summary) && i < |keys|
    ensures SummaryRows(keys, summary)[i] == SummaryRowOf(keys[i], summary[keys[i]])
  {
    if i < |keys| - 1 {
      SummaryRowsAt(keys[..|keys| - 1], summary, i);
    }
  }

  lemma StatsByKeyComplete(data: seq<Listing>)
    ensures Complete(GroupKeys(data), StatsByKey(data))
  {
    forall k | k in GroupKeys(data)
      ensures StatsByKey(data)[k].count > 0 && |StatsByKey(data)[k].prices| > 0
    {
      GroupKeysComplete(data, k);
      StatsOfGroup(Group(data, k));
    }
  }

  /** The summary table: one row per key, in first-seen key order. */
  function Summary(data: seq<Listing>): seq<SummaryRow> {
    StatsByKeyComplete(data);
    SummaryRows(GroupKeys(data), StatsByKey(data))
  }

  /** Summary row `i` is the row of the `i`-th key's (non-empty) group. */
  lemma SummaryAt(data: seq<Listing>, i: nat)
    requires i < |GroupKeys(data)|
    ensures |Summary(data)| == |GroupKeys(data)|
    ensures Group(data, GroupKeys(data)[i]) != []
    ensures StatsOf(Group(data, GroupKeys(data)[i])).count > 0
    ensures |StatsOf(Group(data, GroupKeys(data)[i])).prices| > 0
    ensures Summary(data)[i] ==
      SummaryRowOf(GroupKeys(data)[i], StatsOf(Group(data, GroupKeys(data)[i])))
  {
    var k := GroupKeys(data)[i];
    GroupKeysComplete(data, k);
    StatsOfGroup(Group(data, k));
    StatsByKeyComplete(data);
    SummaryRowsAt(GroupKeys(data), StatsByKey(data), i);
  }

  /**
   * The summary row of a group: its key, its size, its review total,
   * its average minimum nights and availability, and its distinct hosts.
   */
  lemma GroupRowFacts(k: Key, g: seq<Listing>)
    requires g != []
    ensures StatsOf(g).count == |g| == |StatsOf(g).prices|
    ensures var r := SummaryRowOf(k, StatsOf(g));
      && Key(r.neighbourhoodGroup, r.roomType) == k
      && r.count == |g|
      && r.totalReviews == Sum(ReviewCounts(g))
      && r.averageMinimumNights == Mean(MinimumNights(g))
      && r.averageAvailability == Mean(Availabilities(g))
      && r.uniqueHosts == |Image(g, HostId)|
      && 1 <= r.uniqueHosts <= r.count
  {
    StatsOfGroup(g);
    StatsOfGroupTotals(g);
    UniqueHostsBounds(g);
  }

  /** A group's average and median price lie between its cheapest and dearest listing. */
  lemma GroupPriceBounds(k: Key, g: seq<Listing>)
    requires g != []
    ensures StatsOf(g).count == |g| == |StatsOf(g).prices| && |Prices(g)| > 0
    ensures var r := SummaryRowOf(k, StatsOf(g));
      && Min(Prices(g)) as real <= r.averagePrice <= Max(Prices(g)) as real
      && Min(Prices(g)) as real <= r.medianPrice <= Max(Prices(g)) as real
  {
    StatsOfGroup(g);
  }

  /** The counts of all summary rows add up to the number of input rows. */
  lemma SummaryCountsSum(data: seq<Listing>)
    ensures Sum(Map(Summary(data), (r: SummaryRow) => r.count)) == |data|
  {
    var keys := GroupKeys(data);
    var counts := Map(Summary(data), (r: SummaryRow) => r.count);
    forall i | 0 <= i < |keys| ensures counts[i] == |Group(data, keys[i])| {
      SummaryCountAt(data, i);
    }
    CountsPrefix(counts, keys, data, |keys|);
    assert counts[..|keys|] == counts && keys[..|keys|] == keys;
    GroupCountsSum(data);
  }

  /** Summary row `i` counts the rows of the `i`-th key. */
  lemma SummaryCountAt(data: seq<Listing>, i: nat)
    requires i < |GroupKeys(data)|
    ensures |Summary(data)| == |GroupKeys(data)|
    ensures Summary(data)[i].count == |Group(data, GroupKeys(data)[i])|
  {
    SummaryAt(data, i);
    StatsOfGroup(Group(data, GroupKeys(data)[i]));
  }

  /** Per-key group sizes, summed over a prefix of the keys. */
  lemma {:induction false} CountsPrefix(counts: seq<int>, keys: seq<Key>, data: seq<Listing>, j: nat)
    requires |counts| == |keys| && j <= |keys|
    requires forall i | 0 <= i < |keys| :: counts[i] == |Group(data, keys[i])|
    ensures Sum(counts[..j]) == TotalCount(keys[..j], data)
  {
    if j > 0 {
      CountsPrefix(counts, keys, data, j - 1);
      assert counts[..j][..j - 1] == counts[..j - 1];
      assert keys[..j][..j - 1] == keys[..j - 1];
    }
  }

  /**
   * The occupancy rate of a group is 100 times the mean booking rate of
   * its rows, and lies in [0, 100) when every availability is in 1..365.
   */
  lemma GroupOccupancy(k: Key, g: seq<Listing>)
    requires g != []
    ensures StatsOf(g).count == |g| == |StatsOf(g).prices|
    ensures SummaryRowOf(k, StatsOf(g)).occupancyRate == 100.0 * MeanReal(BookingRates(g))
    ensures (forall x | x in g :: 0 < x.availability365 <= 365) ==>
      0.0 <= SummaryRowOf(k, StatsOf(g)).occupancyRate < 100.0
  {
    StatsOfGroup(g);
    StatsOfGroupTotals(g);
    BookingRatesSum(g);
    var st := StatsOf(g);
    var n := |g| as real;
    var total := st.totalAvailability as real;
    var occupancy := SummaryRowOf(k, st).occupancyRate;
    var rates := SumReal(BookingRates(g));
    OccupancyIsScaledMean(occupancy, total, n, rates);
    assert MeanReal(BookingRates(g)) == rates / n;
    if forall x | x in g :: 0 < x.availability365 <= 365 {
      AvailabilityMeanBounds(g);
    }
  }

  /**
   * The occupancy formula over the average availability equals 100 times
   * the rates' sum over the row count, when the rates sum to n - total / 365.
   */
  lemma OccupancyIsScaledMean(occupancy: real, total: real, n: real, rates: real)
    requires n > 0.0
    requires occupancy == 100.0 * (365.0 - total / n) / 365.0
    requires rates == n - total / 365.0
    ensures occupancy == 100.0 * (rates / n)
  {
    var avg := total / n;
    assert avg * n == total;
    calc {
      occupancy * n;
      100.0 * (365.0 - avg) / 365.0 * n;
      100.0 * (365.0 * n - avg * n) / 365.0;
      100.0 * rates;
    }
    assert rates / n * n == rates;
  }

  /** With every availability in 1..365, so is the mean availability. */
  lemma AvailabilityMeanBounds(g: seq<Listing>)
    requires g != []
    requires forall x | x in g :: 0 < x.availability365 <= 365
    ensures 1.0 <= Mean(Availabilities(g)) <= 365.0
  {
    var a := Availabilities(g);
    forall v | v in a ensures 1 <= v <= 365 {
      var m :| 0 <= m < |a| && a[m] == v;
      assert g[m] in g;
    }
    assert 1 <= Min(a) && Max(a) <= 365;
  }

  /** Summing booking rates over rows: n minus total availability over 365. */
  lemma {:induction false} BookingRatesSum(g: seq<Listing>)
    ensures SumReal(BookingRates(g)) ==
      |g| as real - Sum(Availabilities(g)) as real / 365.0
  {
    if g != [] {
      var g', x := g[..|g| - 1], g[|g| - 1];
      assert g == g' + [x];
      BookingRatesSum(g');
      MapAppend(g', x, (x: Listing) => Cleaner.BookingRate(x.availability365));
      MapAppend(g', x, (x: Listing) => x.availability365);
      SumAppend(Availabilities(g'), x.availability365);
      var rates := BookingRates(g);
      assert rates[..|rates| - 1] == BookingRates(g');
    }
  }

  // ---------------------------------------------------------------------
  // The two passes

  /**
   * First pass (the loop over rows): creates an empty accumulator for each
   * new key, remembering the order keys were first seen, and adds the row
   * to its key's accumulator.
   */
  method Accumulate(data: seq<Listing>) returns (keys: seq<Key>, summary: map<Key, Stats>)
    ensures keys == GroupKeys(data)
    ensures summary == StatsByKey(data)
  {
    keys, summary := [], map[];
    for i := 0 to |data|
      invariant Accumulated(data[..i], keys, summary)
    {
      var row := data[i];
      var key := KeyOf(row);
      AccumulateStepAt(data, i, keys, summary);
      if key !in summary {
        summary := summary[key := EMPTY_STATS];
        keys := keys + [key];
      }
      summary := summary[key := AddRow(summary[key], row)];
    }
    assert data[..|data|] == data;
    AccumulatedIsStatsByKey(data, keys, summary);
  }

  /**
   * What the first pass has built after the rows of `prefix`: the keys in
   * first-seen order, an accumulator for exactly those keys, each one
   * holding exactly its group's rows.
   */
  ghost predicate Accumulated(prefix: seq<Listing>, keys: seq<Key>, summary: map<Key, Stats>) {
    && keys == GroupKeys(prefix)
    && (forall k :: k in summary <==> k in keys)
    && (forall k | k in summary :: summary[k] == StatsOf(Group(prefix, k)))
  }

  /** One iteration of the first pass keeps `Accumulated`. */
  lemma AccumulateStep(prefix: seq<Listing>, row: Listing, keys: seq<Key>, summary: map<Key, Stats>)
    requires Accumulated(prefix, keys, summary)
    ensures var key := KeyOf(row);
      var base := if key in summary then summary[key] else EMPTY_STATS;
      Accumulated(prefix + [row],
        if key in summary then keys else keys + [key],
        summary[key := AddRow(base, row)])
  {
    var data := prefix + [row];
    assert data[..|data| - 1] == prefix && data[|data| - 1] == row;
    var key := KeyOf(row);
    var g := Group(prefix, key);
    var base := if key in summary then summary[key] else EMPTY_STATS;
    var keys' := if key in summary then keys else keys + [key];
    var summary' := summary[key := AddRow(base, row)];
    assert base == StatsOf(g) by {
      if key !in summary {
        GroupKeysComplete(prefix, key);
      }
    }
    assert summary'[key] == StatsOf(Group(data, key)) by {
      assert Group(data, key) == g + [row];
      assert (g + [row])[..|g|] == g;
    }
    forall k | k in summary' ensures summary'[k] == StatsOf(Group(data, k)) {
      if k != key {
        assert Group(data, k) == Group(prefix, k);
      }
    }
    assert keys' == GroupKeys(data);
  }

  /** `AccumulateStep` for the row at index `i` of the input. */
  lemma AccumulateStepAt(data: seq<Listing>, i: nat, keys: seq<Key>, summary: map<Key, Stats>)
    requires i < |data| && Accumulated(data[..i], keys, summary)
    ensures var key := KeyOf(data[i]);
      var base := if key in summary then summary[key] else EMPTY_STATS;
      Accumulated(data[..i + 1],
        if key in summary then keys else keys + [key],
        summary[key := AddRow(base, data[i])])
  {
    TakeOneMore(data, i);
    AccumulateStep(data[..i], data[i], keys, summary);
  }

  lemma AccumulatedIsStatsByKey(data: seq<Listing>, keys: seq<Key>, summary: map<Key, Stats>)
    requires Accumulated(data, keys, summary)
    ensures summary == StatsByKey(data)
  {
  }

  /**
   * Second pass (the loop over accumulators): one summary row per key,
   * in key order.
   */
  method BuildSummary(keys: seq<Key>, summary: map<Key, Stats>) returns (rows: seq<SummaryRow>)
    requires Complete(keys, summary)
    ensures rows == SummaryRows(keys, summary)
  {
    rows := [];
    for i := 0 to |keys|
      invariant rows == SummaryRows(keys[..i], summary)
    {
      var k := keys[i];
      var stats := summary[k];
      SummaryRowsStep(keys, summary, i);
      rows := rows + [SummaryRowOf(k, stats)];
    }
    assert keys[..|keys|] == keys;
  }

  /** The whole summarizer run without file I/O. */
  method Summarize(data: seq<Listing>) returns (rows: seq<SummaryRow>)
    ensures rows == Summary(data)
    ensures |rows| == |GroupKeys(data)|
    ensures data == [] ==> rows == []
  {
    var keys, summary := Accumulate(data);
    StatsByKeyComplete(data);
    rows := BuildSummary(keys, summary);
  }
}
