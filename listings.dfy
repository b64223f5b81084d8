/**
 * One row of the listings table, before and after cleaning.
 *
 * The raw columns come from the input file. The derived columns
 * (`lastReviewYear` .. `availabilityCategory`) are added by the cleaner;
 * in a raw row they are `None`. `None` in any column stands for a
 * missing value (pandas NaN).
 */
module Listings {
  import opened Wrappers
  import opened Sequences

  /** A parsed review date. */
  datatype Date = Date(year: int, month: int, day: int)

  datatype Listing = Listing(
    id: int,
    name: Option<string>,
    hostId: int,
    hostName: Option<string>,
    neighbourhoodGroup: string,
    roomType: string,
    price: int,
    minimumNights: int,
    numberOfReviews: int,
    lastReview: Option<Date>,
    reviewsPerMonth: Option<real>,
    availability365: int,
    // great-circle distance to the reference point, in hundredths of a km
    // (the source rounds it to 2 decimals)
    distanceToCenter: int,
    lastReviewYear: Option<int>,
    lastReviewMonth: Option<int>,
    lastReviewDay: Option<int>,
    bookingRate: Option<real>,
    availabilityCategory: Option<string>)

  function Id(x: Listing): int {
    x.id
  }

  /** The set of ids occurring in `rows`. */
  function IdSet(rows: seq<Listing>): set<int> {
    Image(rows, Id)
  }

  /** No two rows share an id. */
  predicate DistinctIds(rows: seq<Listing>) {
    DistinctBy(rows, Id)
  }
}
