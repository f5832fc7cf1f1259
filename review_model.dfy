/** The review schema of `models/Review.ts`. */
module ReviewModel {
  import opened Wrappers
  import opened Documents
  import opened Text

  /** The `hotelSource` enum. */
  datatype HotelSource = Local | External

  /** Mongoose's enum cast of a `hotelSource` string. */
  function SourceOf(s: string): (r: Option<HotelSource>)
    ensures r == Some(Local) <==> s == "local"
    ensures r == Some(External) <==> s == "external"
  {
    if s == "local" then Some(Local)
    else if s == "external" then Some(External)
    else None
  }

  /**
   * The `hotelId` path is `Mixed`: it holds either an ObjectId (a local hotel) or
   * a plain string (an id of the external hotel service). The two never compare equal.
   */
  datatype HotelKey = ObjectIdKey(hex: string) | StringKey(text: string)

  /** A stored review; `createdAt` is the value of the store's clock at insertion. */
  datatype Review = Review(
    hotelId: HotelKey,
    hotelSource: HotelSource,
    userId: Id,
    comment: string,
    rating: int,
    createdAt: nat)

  const MinCommentLength: nat := 1
  const MaxCommentLength: nat := 1000
  const MinRating: int := 1
  const MaxRating: int := 5

  /**
   * The schema's validators: `comment` length, which Mongoose measures in UTF-16
   * code units as JavaScript does, and `rating` range.
   */
  predicate Valid(r: Review) {
    && MinCommentLength <= Utf16Length(r.comment) <= MaxCommentLength
    && MinRating <= r.rating <= MaxRating
  }

  /** What the schema guarantees of the review collection; every timestamp is in the past. */
  ghost predicate StoreValid(reviews: seq<Doc<Review>>, clock: nat) {
    && UniqueIds(reviews)
    && forall i :: 0 <= i < |reviews| ==> Valid(reviews[i].body) && reviews[i].body.createdAt < clock
  }

  /** Deleting any review keeps the collection valid. */
  lemma RemoveReview(reviews: seq<Doc<Review>>, clock: nat, id: Id)
    requires StoreValid(reviews, clock)
    ensures StoreValid(RemoveById(reviews, id), clock)
  {
    RemoveByIdSpec(reviews, id);
    var r := RemoveById(reviews, id);
    forall i | 0 <= i < |r| ensures Valid(r[i].body) && r[i].body.createdAt < clock {
      assert r[i] in reviews;
    }
  }

  /** Inserting a valid review stamped with the clock, and advancing the clock, keeps the collection valid. */
  lemma AppendReview(reviews: seq<Doc<Review>>, clock: nat, d: Doc<Review>)
    requires StoreValid(reviews, clock)
    requires FindById(reviews, d.id).None?
    requires Valid(d.body) && d.body.createdAt == clock
    ensures StoreValid(reviews + [d], clock + 1)
  {
    AppendFresh(reviews, d);
  }
}
