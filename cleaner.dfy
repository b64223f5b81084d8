/**
 * The cleaning stage (airbnb_data.py): `transform`, `categorize_availability`
 * and the sort-and-renumber tail of `main`, over a table of listings.
 *
 * Each column step is a function on one row (or on the whole sequence
 * for the filter and the sort), and `Transform` / `CategorizeAvailability`
 * apply them to a `Frame` in place, as the source does to its DataFrame.
 */
module Cleaner {
  import opened Wrappers
  import opened Listings
  import opened Sequences
  import Sorting

  const UNKNOWN := "Unknown"
  const HIGHLY_AVAILABLE := "highly available"
  const MODERATELY_AVAILABLE := "moderately available"
  const RARELY_AVAILABLE := "rarely available"

  // ---------------------------------------------------------------------
  // Deduplicate by id, keeping the first occurrence

  lemma IdSetAppend(rows: seq<Listing>, x: Listing)
    ensures IdSet(rows + [x]) == IdSet(rows) + {x.id}
  {
    ImageAppend(rows, x, Id);
  }

  /** The rows whose id does not occur earlier in `rows`, in input order. */
  function DropDuplicateIds(rows: seq<Listing>): (r: seq<Listing>)
    ensures DistinctIds(r)
    ensures IdSet(r) == IdSet(rows)
  {
    if rows == [] then []
    else
      var init, last := rows[..|rows| - 1], rows[|rows| - 1];
      assert rows == init + [last];
      IdSetAppend(init, last);
      var d := DropDuplicateIds(init);
      if last.id in IdSet(init) then d
      else
        IdSetAppend(d, last);
        assert forall k | 0 <= k < |d| :: d[k] in d;
        d + [last]
  }

  /** Dedup of a table with one more row: that row is kept exactly when its id is new. */
  lemma DropDuplicateIdsAppend(init: seq<Listing>, last: Listing)
    ensures DropDuplicateIds(init + [last]) ==
      if last.id in IdSet(init) then DropDuplicateIds(init) else DropDuplicateIds(init) + [last]
  {
    var rows := init + [last];
    assert rows[..|rows| - 1] == init && rows[|rows| - 1] == last;
  }

  /** Dedup keeps its rows in their input order. */
  lemma {:induction false} DropDuplicateIdsKeepsOrder(rows: seq<Listing>)
    ensures IsSubsequence(DropDuplicateIds(rows), rows)
  {
    if rows != [] {
      var init, last := rows[..|rows| - 1], rows[|rows| - 1];
      assert rows == init + [last];
      var d := DropDuplicateIds(init);
      DropDuplicateIdsKeepsOrder(init);
      DropDuplicateIdsAppend(init, last);
      if last.id !in IdSet(init) {
        SubsequenceAppendBoth(d, init, last);
      } else {
        SubsequenceExtend(d, init, last);
      }
    }
  }

  /** Each row dedup keeps is the first input row with its id. */
  lemma {:induction false} DropDuplicateIdsKeepsFirst(rows: seq<Listing>)
    ensures forall j | 0 <= j < |DropDuplicateIds(rows)| ::
      DropDuplicateIds(rows)[j].id in IdSet(rows) &&
      DropDuplicateIds(rows)[j] == rows[FirstIndexBy(rows, Id, DropDuplicateIds(rows)[j].id)]
  {
    var r := DropDuplicateIds(rows);
    assert forall j | 0 <= j < |r| :: r[j] in r;
    if rows != [] {
      var init, last := rows[..|rows| - 1], rows[|rows| - 1];
      assert rows == init + [last];
      var d := DropDuplicateIds(init);
      DropDuplicateIdsKeepsFirst(init);
      DropDuplicateIdsAppend(init, last);
      forall j | 0 <= j < |r|
        ensures r[j] == rows[FirstIndexBy(rows, Id, r[j].id)]
      {
        if j < |d| {
          assert r[j] == d[j];
          FirstIndexByAppendOld(init, last, Id, d[j].id);
        } else {
          FirstIndexByAppendNew(init, last, Id);
        }
      }
    }
  }

  /**
   * The rows of `kept` carry ids of `rows`, listed in the order in which
   * those ids first appear in `rows`.
   */
  predicate InFirstSeenOrder(kept: seq<Listing>, rows: seq<Listing>) {
    && (forall j | 0 <= j < |kept| :: kept[j].id in IdSet(rows))
    && (forall i, j | 0 <= i < j < |kept| ::
          FirstIndexBy(rows, Id, kept[i].id) < FirstIndexBy(rows, Id, kept[j].id))
  }

  /** Dedup lists its rows in order of their ids' first appearance. */
  lemma {:induction false} DropDuplicateIdsFirstSeen(rows: seq<Listing>)
    ensures InFirstSeenOrder(DropDuplicateIds(rows), rows)
  {
    if rows != [] {
      var init, last := rows[..|rows| - 1], rows[|rows| - 1];
      assert rows == init + [last];
      DropDuplicateIdsFirstSeen(init);
      FirstSeenStep(init, last);
    }
  }

  lemma FirstSeenStep(init: seq<Listing>, last: Listing)
    requires InFirstSeenOrder(DropDuplicateIds(init), init)
    ensures InFirstSeenOrder(DropDuplicateIds(init + [last]), init + [last])
  {
    DropDuplicateIdsAppend(init, last);
    if last.id in IdSet(init) {
      FirstSeenExtend(DropDuplicateIds(init), init, last);
    } else {
      FirstSeenAppendNew(DropDuplicateIds(init), init, last);
    }
  }

  /** Appending an input row keeps the first-seen order of rows already kept. */
  lemma FirstSeenExtend(kept: seq<Listing>, rows: seq<Listing>, last: Listing)
    requires InFirstSeenOrder(kept, rows)
    ensures InFirstSeenOrder(kept, rows + [last])
    ensures forall j | 0 <= j < |kept| ::
      FirstIndexBy(rows + [last], Id, kept[j].id) == FirstIndexBy(rows, Id, kept[j].id)
  {
    forall j | 0 <= j < |kept|
      ensures kept[j].id in IdSet(rows + [last])
      ensures FirstIndexBy(rows + [last], Id, kept[j].id) == FirstIndexBy(rows, Id, kept[j].id)
    {
      FirstIndexByAppendOld(rows, last, Id, kept[j].id);
    }
  }

  /** A row with a new id, kept at the end, comes after every row kept before it. */
  lemma FirstSeenAppendNew(kept: seq<Listing>, rows: seq<Listing>, last: Listing)
    requires InFirstSeenOrder(kept, rows)
    requires last.id !in IdSet(rows)
    ensures InFirstSeenOrder(kept + [last], rows + [last])
  {
    FirstSeenExtend(kept, rows, last);
    FirstIndexByAppendNew(rows, last, Id);
    var r := kept + [last];
    forall j | 0 <= j < |kept| ensures FirstIndexBy(rows, Id, kept[j].id) < |rows| {
    }
    assert forall j | 0 <= j < |kept| :: r[j] == kept[j];
  }

  // ---------------------------------------------------------------------
  // Fill missing values

  function FillName(x: Listing): (y: Listing)
    ensures y.name.Some?
    ensures x.name.Some? ==> y.name == x.name
    ensures x.name.None? ==> y.name == Some(UNKNOWN)
    ensures y.(name := x.name) == x
  {
    x.(name := Some(x.name.GetOr(UNKNOWN)))
  }

  function FillHostName(x: Listing): (y: Listing)
    ensures y.hostName.Some?
    ensures x.hostName.Some? ==> y.hostName == x.hostName
    ensures x.hostName.None? ==> y.hostName == Some(UNKNOWN)
    ensures y.(hostName := x.hostName) == x
  {
    x.(hostName := Some(x.hostName.GetOr(UNKNOWN)))
  }

  function FillReviewsPerMonth(x: Listing): (y: Listing)
    ensures y.reviewsPerMonth.Some?
    ensures x.reviewsPerMonth.Some? ==> y.reviewsPerMonth == x.reviewsPerMonth
    ensures x.reviewsPerMonth.None? ==> y.reviewsPerMonth == Some(0.0)
    ensures y.(reviewsPerMonth := x.reviewsPerMonth) == x
  {
    x.(reviewsPerMonth := Some(x.reviewsPerMonth.GetOr(0.0)))
  }

  // ---------------------------------------------------------------------
  // Drop rows with zero availability

  /** The rows with nonzero `availability365`, in input order. */
  function FilterAvailable(rows: seq<Listing>): (r: seq<Listing>)
    ensures |r| <= |rows|
    ensures forall x | x in r :: x.availability365 != 0
    ensures forall x :: multiset(r)[x] == if x.availability365 != 0 then multiset(rows)[x] else 0
  {
    if rows == [] then []
    else
      var init, last := rows[..|rows| - 1], rows[|rows| - 1];
      assert rows == init + [last];
      var f := FilterAvailable(init);
      if last.availability365 != 0 then f + [last] else f
  }

  /** The filter keeps its rows in input order. */
  lemma {:induction false} FilterAvailableKeepsOrder(rows: seq<Listing>)
    ensures IsSubsequence(FilterAvailable(rows), rows)
  {
    if rows != [] {
      var init, last := rows[..|rows| - 1], rows[|rows| - 1];
      assert rows == init + [last];
      FilterAvailableKeepsOrder(init);
      var f := FilterAvailable(init);
      if last.availability365 != 0 {
        assert (f + [last])[..|f|] == f;
      } else {
        SubsequenceExtend(f, init, last);
      }
    }
  }

  // ---------------------------------------------------------------------
  // Clamp non-positive prices

  function ClampPrice(p: int): (q: int)
    ensures q > 0
    ensures p > 0 ==> q == p
    ensures p <= 0 ==> q == 1
  {
    if p > 0 then p else 1
  }

  lemma ClampPriceIdempotent(p: int)
    ensures ClampPrice(ClampPrice(p)) == ClampPrice(p)
  {
  }

  function ClampRowPrice(x: Listing): Listing {
    x.(price := ClampPrice(x.price))
  }

  // ---------------------------------------------------------------------
  // Date parts of the last review

  function WithDateParts(x: Listing): (y: Listing)
    ensures y.lastReviewYear.Some? <==> x.lastReview.Some?
    ensures y.lastReviewMonth.Some? <==> x.lastReview.Some?
    ensures y.lastReviewDay.Some? <==> x.lastReview.Some?
    ensures x.lastReview.Some? ==>
      && y.lastReviewYear.value == x.lastReview.value.year
      && y.lastReviewMonth.value == x.lastReview.value.month
      && y.lastReviewDay.value == x.lastReview.value.day
    ensures y.(lastReviewYear := x.lastReviewYear, lastReviewMonth := x.lastReviewMonth,
               lastReviewDay := x.lastReviewDay) == x
  {
    match x.lastReview
    case None =>
      x.(lastReviewYear := None, lastReviewMonth := None, lastReviewDay := None)
    case Some(d) =>
      x.(lastReviewYear := Some(d.year), lastReviewMonth := Some(d.month), lastReviewDay := Some(d.day))
  }

  // ---------------------------------------------------------------------
  // Booking rate

  /** Fraction of the year the listing is taken to be booked. */
  function BookingRate(availability: int): (rate: real)
    ensures 365.0 * (1.0 - rate) == availability as real
    ensures 0 < availability <= 365 ==> 0.0 <= rate < 1.0
  {
    1.0 - availability as real / 365.0
  }

  function WithBookingRate(x: Listing): Listing {
    x.(bookingRate := Some(BookingRate(x.availability365)))
  }

  // ---------------------------------------------------------------------
  // Availability category

  function Categorize(availability: int): (category: string)
    ensures category == HIGHLY_AVAILABLE <==> availability > 300
    ensures category == MODERATELY_AVAILABLE <==> 100 < availability <= 300
    ensures category == RARELY_AVAILABLE <==> availability <= 100
  {
    if availability > 300 then HIGHLY_AVAILABLE
    else if availability > 100 then MODERATELY_AVAILABLE
    else RARELY_AVAILABLE
  }

  function WithCategory(x: Listing): Listing {
    x.(availabilityCategory := Some(Categorize(x.availability365)))
  }

  // ---------------------------------------------------------------------
  // Sort by (distance_to_center, price)

  function SortKey(x: Listing): (int, int) {
    (x.distanceToCenter, x.price)
  }

  function SortRows(rows: seq<Listing>): seq<Listing> {
    Sorting.SortBy(rows, SortKey)
  }

  // ---------------------------------------------------------------------
  // Properties of whole tables

  /** Removing rows never makes two ids collide. */
  lemma {:induction false} SubsequenceKeepsDistinctIds(a: seq<Listing>, b: seq<Listing>)
    requires IsSubsequence(a, b) && DistinctIds(b)
    ensures DistinctIds(a)
    decreases |b|
  {
    if a != [] {
      var a', b' := a[..|a| - 1], b[..|b| - 1];
      assert DistinctIds(b');
      if a[|a| - 1] == b[|b| - 1] {
        SubsequenceKeepsDistinctIds(a', b');
        SubsequenceMembers(a', b');
        forall k | 0 <= k < |a'| ensures a'[k].id != b[|b| - 1].id {
          assert a'[k] in b';
          var m :| 0 <= m < |b'| && b'[m] == a'[k];
          assert b[m] == a'[k];
        }
      } else {
        SubsequenceKeepsDistinctIds(a, b');
      }
    }
  }

  /** Reordering rows never makes two ids collide. */
  lemma PermutationKeepsDistinctIds(a: seq<Listing>, b: seq<Listing>)
    requires multiset(a) == multiset(b) && DistinctIds(b)
    ensures DistinctIds(a)
  {
    assert |a| == |multiset(a)| == |multiset(b)| == |b|;
    assert forall x :: x in a <==> x in b by {
      forall x ensures x in a <==> x in b {
        assert x in a <==> x in multiset(a);
        assert x in b <==> x in multiset(b);
      }
    }
    assert IdSet(a) == IdSet(b);
    ImageCard(a, Id);
    ImageCard(b, Id);
  }

  /** A row-wise step that keeps every id keeps ids distinct. */
  lemma MapKeepsDistinctIds(rows: seq<Listing>, f: Listing -> Listing)
    requires DistinctIds(rows)
    requires forall x :: f(x).id == x.id
    ensures DistinctIds(Map(rows, f))
  {
  }

  /** The review date parts agree with `lastReview`: present exactly when it is. */
  predicate DatePartsMatch(x: Listing) {
    match x.lastReview
    case None =>
      x.lastReviewYear.None? && x.lastReviewMonth.None? && x.lastReviewDay.None?
    case Some(d) =>
      x.lastReviewYear == Some(d.year) && x.lastReviewMonth == Some(d.month) && x.lastReviewDay == Some(d.day)
  }

  /** What `transform` guarantees of every row it returns. */
  predicate IsTransformed(x: Listing) {
    && x.name.Some? && x.hostName.Some? && x.reviewsPerMonth.Some?
    && x.availability365 != 0
    && x.price > 0
    && DatePartsMatch(x)
    && x.bookingRate == Some(BookingRate(x.availability365))
  }

  /** What the whole cleaning stage guarantees of every row it writes. */
  predicate IsCleaned(x: Listing) {
    IsTransformed(x) && x.availabilityCategory == Some(Categorize(x.availability365))
  }

  /** The three `fillna` calls of `transform`. */
  function Filled(rows: seq<Listing>): seq<Listing> {
    Map(Map(Map(rows, FillName), FillHostName), FillReviewsPerMonth)
  }

  /** The table `transform` returns for a raw table. */
  function TransformRows(raw: seq<Listing>): seq<Listing> {
    Map(FilterAvailable(Filled(DropDuplicateIds(raw))), Derived)
  }

  /** The table `main` writes: transformed, categorized, sorted. */
  function CleanRows(raw: seq<Listing>): seq<Listing> {
    SortRows(Map(TransformRows(raw), WithCategory))
  }

  /** After the three fills no row has a missing name, host name or reviews-per-month. */
  lemma FilledInvariants(rows: seq<Listing>)
    ensures |Filled(rows)| == |rows|
    ensures forall x | x in Filled(rows) :: x.name.Some? && x.hostName.Some? && x.reviewsPerMonth.Some?
    ensures DistinctIds(rows) ==> DistinctIds(Filled(rows))
  {
    if DistinctIds(rows) {
      MapKeepsDistinctIds(rows, FillName);
      MapKeepsDistinctIds(Map(rows, FillName), FillHostName);
      MapKeepsDistinctIds(Map(Map(rows, FillName), FillHostName), FillReviewsPerMonth);
    }
  }

  /** The row-wise steps after the filter. */
  function Derived(x: Listing): Listing {
    WithBookingRate(WithDateParts(ClampRowPrice(x)))
  }

  /** Applying the three derived-column steps one after the other. */
  lemma DerivedSteps(rows: seq<Listing>)
    ensures Map(Map(Map(rows, ClampRowPrice), WithDateParts), WithBookingRate) == Map(rows, Derived)
  {
  }

  lemma DerivedIsTransformed(x: Listing)
    requires x.name.Some? && x.hostName.Some? && x.reviewsPerMonth.Some?
    requires x.availability365 != 0
    ensures IsTransformed(Derived(x))
  {
  }

  /**
   * After `transform`: ids are distinct, no row has a missing name, host
   * name or reviews-per-month, a zero availability or a non-positive
   * price, and the derived columns agree with the row; no rows are added.
   */
  lemma TransformRowsInvariants(raw: seq<Listing>)
    ensures |TransformRows(raw)| <= |raw|
    ensures DistinctIds(TransformRows(raw))
    ensures forall x | x in TransformRows(raw) :: IsTransformed(x)
  {
    var d := DropDuplicateIds(raw);
    DropDuplicateIdsKeepsOrder(raw);
    SubsequenceMembers(d, raw);
    var f := Filled(d);
    FilledInvariants(d);
    var a := FilterAvailable(f);
    FilterAvailableKeepsOrder(f);
    SubsequenceKeepsDistinctIds(a, f);
    MapKeepsDistinctIds(a, Derived);
    FilteredAreTransformed(f);
  }

  /** Filled rows that pass the filter come out of the derived steps transformed. */
  lemma FilteredAreTransformed(f: seq<Listing>)
    requires forall x | x in f :: x.name.Some? && x.hostName.Some? && x.reviewsPerMonth.Some?
    ensures forall x | x in Map(FilterAvailable(f), Derived) :: IsTransformed(x)
  {
    var a := FilterAvailable(f);
    var t := Map(a, Derived);
    forall x | x in t ensures IsTransformed(x) {
      var i :| 0 <= i < |t| && t[i] == x;
      assert a[i] in a;
      assert a[i] in multiset(a);
      DerivedIsTransformed(a[i]);
    }
  }

  /**
   * The cleaned table is ordered by (distance to center, price), is a
   * permutation of the categorized transform output, keeps ids distinct
   * and satisfies every row invariant.
   */
  lemma CleanRowsInvariants(raw: seq<Listing>)
    ensures Sorting.SortedBy(CleanRows(raw), SortKey)
    ensures multiset(CleanRows(raw)) == multiset(Map(TransformRows(raw), WithCategory))
    ensures |CleanRows(raw)| <= |raw|
    ensures DistinctIds(CleanRows(raw))
    ensures forall x | x in CleanRows(raw) :: IsCleaned(x)
  {
    var t := TransformRows(raw);
    TransformRowsInvariants(raw);
    var m := Map(t, WithCategory);
    MapKeepsDistinctIds(t, WithCategory);
    var c := CleanRows(raw);
    PermutationKeepsDistinctIds(c, m);
    assert |c| == |multiset(c)| == |multiset(m)| == |m|;
    forall x | x in c ensures IsCleaned(x) {
      assert x in multiset(m);
      var i :| 0 <= i < |m| && m[i] == x;
      assert t[i] in t;
    }
  }

  // ---------------------------------------------------------------------
  // Running the cleaner on its own output

  lemma {:induction false} DropDuplicateIdsOfDistinct(rows: seq<Listing>)
    requires DistinctIds(rows)
    ensures DropDuplicateIds(rows) == rows
  {
    if rows != [] {
      var init, last := rows[..|rows| - 1], rows[|rows| - 1];
      assert rows == init + [last];
      assert DistinctIds(init);
      DropDuplicateIdsOfDistinct(init);
      assert last.id !in IdSet(init) by {
        forall k | 0 <= k < |init| ensures init[k].id != last.id {
          assert rows[k] == init[k];
        }
      }
    }
  }

  lemma {:induction false} FilterAvailableOfAvailable(rows: seq<Listing>)
    requires forall x | x in rows :: x.availability365 != 0
    ensures FilterAvailable(rows) == rows
  {
    if rows != [] {
      var init, last := rows[..|rows| - 1], rows[|rows| - 1];
      assert rows == init + [last];
      FilterAvailableOfAvailable(init);
    }
  }

  /**
   * Cleaning is idempotent: the cleaned table, read back as raw input,
   * cleans to itself.
   */
  lemma CleanRowsIdempotent(raw: seq<Listing>)
    ensures CleanRows(CleanRows(raw)) == CleanRows(raw)
  {
    var c := CleanRows(raw);
    CleanRowsInvariants(raw);
    DropDuplicateIdsOfDistinct(c);
    MapOfFixedPoints(c, FillName);
    MapOfFixedPoints(c, FillHostName);
    MapOfFixedPoints(c, FillReviewsPerMonth);
    assert Filled(c) == c;
    FilterAvailableOfAvailable(c);
    MapOfFixedPoints(c, Derived);
    assert TransformRows(c) == c;
    MapOfFixedPoints(c, WithCategory);
    Sorting.SortBySortedIsIdentity(c, SortKey);
  }

  // ---------------------------------------------------------------------
  // The DataFrame and the stages that change it in place

  /** A table whose rows the cleaning steps rewrite in place. */
  class Frame {
    var rows: seq<Listing>

    constructor (rows: seq<Listing>)
      ensures this.rows == rows
    {
      this.rows := rows;
    }
  }

  /**
   * `transform`: dedups and fills the given frame in place; the filter
   * makes a new frame, on which the price clamp, date parts and booking
   * rate are then set.
   */
  method Transform(data: Frame) returns (out: Frame)
    modifies data
    ensures data.rows == Filled(DropDuplicateIds(old(data.rows)))
    ensures fresh(out)
    ensures out.rows == TransformRows(old(data.rows))
    ensures DistinctIds(out.rows) && forall x | x in out.rows :: IsTransformed(x)
  {
    ghost var raw := data.rows;
    data.rows := DropDuplicateIds(data.rows);
    data.rows := Map(data.rows, FillName);
    data.rows := Map(data.rows, FillHostName);
    data.rows := Map(data.rows, FillReviewsPerMonth);
    out := new Frame(FilterAvailable(data.rows));
    DerivedSteps(out.rows);
    out.rows := Map(out.rows, ClampRowPrice);
    out.rows := Map(out.rows, WithDateParts);
    out.rows := Map(out.rows, WithBookingRate);
    TransformRowsInvariants(raw);
  }

  /** `categorize_availability`: adds the category column to `df` in place and returns it. */
  method CategorizeAvailability(df: Frame) returns (result: Frame)
    modifies df
    ensures result == df
    ensures df.rows == Map(old(df.rows), WithCategory)
    ensures forall x | x in df.rows :: x.availabilityCategory == Some(Categorize(x.availability365))
  {
    df.rows := Map(df.rows, WithCategory);
    result := df;
  }

  /**
   * The cleaning run of `main` without file I/O: transform, categorize,
   * sort by (distance to center, price), then relabel the rows 1..n.
   */
  method Clean(raw: seq<Listing>) returns (index: seq<int>, rows: seq<Listing>)
    ensures rows == CleanRows(raw)
    ensures Sorting.SortedBy(rows, SortKey)
    ensures DistinctIds(rows) && forall x | x in rows :: IsCleaned(x)
    ensures |index| == |rows| && forall i | 0 <= i < |index| :: index[i] == i + 1
  {
    var data := new Frame(raw);
    data := Transform(data);
    data := CategorizeAvailability(data);
    rows := SortRows(data.rows);
    index := seq(|rows|, i => i);
    index := seq(|index|, i requires 0 <= i < |index| => index[i] + 1);
    CleanRowsInvariants(raw);
  }
}
