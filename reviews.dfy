/**
 * The review router of `routes/reviews.ts`: create with an ordered validation
 * chain, the two public per-hotel listings, "my reviews", and delete with an
 * existence check followed by an ownership check.
 */
module Reviews {
  import opened Wrappers
  import opened Text
  import opened Documents
  import opened ReviewModel
  import UserModel
  import opened AuthMiddleware
  import Database

  /**
   * `parseHotelId`: a string `ObjectId.isValid` accepts becomes an ObjectId, any
   * other string is kept as it is.
   */
  function ParseHotelId(hotelId: string, isValidObjectId: string -> bool): (k: HotelKey)
    ensures isValidObjectId(hotelId) ==> k == ObjectIdKey(hotelId)
    ensures !isValidObjectId(hotelId) ==> k == StringKey(hotelId)
  {
    if isValidObjectId(hotelId) then ObjectIdKey(hotelId) else StringKey(hotelId)
  }

  // ---------------------------------------------------------------------------
  // POST /

  /** The JSON body of `POST /reviews`. */
  datatype ReviewBody = ReviewBody(
    hotelId: Option<string>,
    comment: Option<string>,
    rating: Option<int>,
    hotelSource: Option<string>)

  /** The three 400 answers of the validation chain, in the order they are checked. */
  datatype Rejection = MissingFields | RatingOutOfRange | BadWords

  /** `!hotelId || !comment || !rating || !hotelSource` is false. */
  predicate HasRequiredFields(b: ReviewBody) {
    Truthy(b.hotelId) && Truthy(b.comment) && TruthyNumber(b.rating) && Truthy(b.hotelSource)
  }

  /**
   * The validation chain: missing fields first (so a rating of 0 is a missing
   * field), then the rating range, then the bad-word filter.
   */
  function Validate(b: ReviewBody, containsBadWords: string -> bool): (r: Option<Rejection>)
    ensures r == Some(MissingFields) <==> !HasRequiredFields(b)
    ensures r == Some(RatingOutOfRange) <==>
      HasRequiredFields(b) && !(MinRating <= b.rating.value <= MaxRating)
    ensures r == Some(BadWords) <==>
      HasRequiredFields(b) && MinRating <= b.rating.value <= MaxRating && containsBadWords(b.comment.value)
    ensures r.None? <==>
      HasRequiredFields(b) && MinRating <= b.rating.value <= MaxRating && !containsBadWords(b.comment.value)
  {
    if !HasRequiredFields(b) then Some(MissingFields)
    else if b.rating.value < 1 || b.rating.value > 5 then Some(RatingOutOfRange)
    else if containsBadWords(b.comment.value) then Some(BadWords)
    else None
  }

  /**
   * `new Review({ hotelId, hotelSource, userId, comment, rating })` validated by
   * `save()`: the enum on `hotelSource`, the length bound on `comment` and the rating
   * range. A failure here is thrown and answered with 500, not 400.
   */
  function NewReview(b: ReviewBody, userId: Id, isValidObjectId: string -> bool, createdAt: nat): (r: Option<Review>)
    requires HasRequiredFields(b)
    ensures r.Some? <==>
      && SourceOf(b.hotelSource.value).Some?
      && Utf16Length(b.comment.value) <= MaxCommentLength
      && MinRating <= b.rating.value <= MaxRating
    ensures r.Some? ==> Valid(r.value)
    ensures r.Some? ==> r.value == Review(ParseHotelId(b.hotelId.value, isValidObjectId),
      SourceOf(b.hotelSource.value).value, userId, b.comment.value, b.rating.value, createdAt)
  {
    match SourceOf(b.hotelSource.value)
    case None => None
    case Some(source) =>
      var review := Review(ParseHotelId(b.hotelId.value, isValidObjectId), source, userId,
                           b.comment.value, b.rating.value, createdAt);
      if Valid(review) then Some(review) else None
  }

  /**
   * A comment of more than 500 astral characters (emoji, say) is refused by the
   * schema although it has at most 1000 code points: the bound counts UTF-16 units.
   */
  lemma AstralCommentRefused(b: ReviewBody, userId: Id, isValidObjectId: string -> bool, createdAt: nat)
    requires HasRequiredFields(b)
    requires forall i :: 0 <= i < |b.comment.value| ==> Astral(b.comment.value[i])
    requires |b.comment.value| > MaxCommentLength / 2
    ensures NewReview(b, userId, isValidObjectId, createdAt).None?
  {
    Utf16LengthAstral(b.comment.value);
  }

  /**
   * `POST /reviews`. 400 and no insert when the validation chain rejects; 500 and
   * no insert when there is no session user (`userId` is then undefined and fails
   * the schema's `required`), when the schema refuses the document or when its `_id`
   * is taken; otherwise exactly one review, owned by the session user and stamped
   * with the clock, is appended, and the answer is 201.
   */
  method Create(db: Database.Store, user: Option<AuthPayload>, body: ReviewBody,
                containsBadWords: string -> bool, isValidObjectId: string -> bool, newId: Id)
    returns (status: int, rejection: Option<Rejection>)
    requires db.Valid()
    modifies db`reviews, db`clock
    ensures db.Valid()
    ensures rejection == Validate(body, containsBadWords)
    ensures status == 400 <==> rejection.Some?
    ensures status == 201 <==>
      && rejection.None?
      && user.Some?
      && NewReview(body, user.value.userId, isValidObjectId, old(db.clock)).Some?
      && FindById(old(db.reviews), newId).None?
    ensures status in {201, 400, 500}
    ensures status == 201 ==>
      && db.reviews == old(db.reviews) + [Doc(newId, NewReview(body, user.value.userId, isValidObjectId, old(db.clock)).value)]
      && db.clock == old(db.clock) + 1
    ensures status != 201 ==> db.reviews == old(db.reviews) && db.clock == old(db.clock)
  {
    rejection := Validate(body, containsBadWords);
    if rejection.Some? {
      return 400, rejection;
    }
    if user.None? {
      return 500, rejection;
    }
    var review := NewReview(body, user.value.userId, isValidObjectId, db.clock);
    if review.None? || FindById(db.reviews, newId).Some? {
      return 500, rejection;
    }
    var d := Doc(newId, review.value);
    AppendReview(db.reviews, db.clock, d);
    db.reviews := db.reviews + [d];
    db.clock := db.clock + 1;
    status := 201;
  }

  // ---------------------------------------------------------------------------
  // listings

  /** Newest first: `createdAt` never increases along the sequence. */
  ghost predicate NewestFirstOrder(s: seq<Doc<Review>>) {
    forall i, j :: 0 <= i < j < |s| ==> s[i].body.createdAt >= s[j].body.createdAt
  }

  /** Sequences holding the same multiset hold the same elements. */
  lemma SameMembers<T>(a: seq<T>, b: seq<T>)
    requires multiset(a) == multiset(b)
    ensures forall x :: x in a <==> x in b
  {
    forall x ensures x in a <==> x in b {
      assert x in a <==> x in multiset(a);
      assert x in b <==> x in multiset(b);
    }
  }

  /** A review at least as new as the head of a newest-first sequence can go in front of it. */
  lemma ConsNewestFirst(x: Doc<Review>, s: seq<Doc<Review>>)
    requires NewestFirstOrder(s)
    requires |s| > 0 ==> x.body.createdAt >= s[0].body.createdAt
    ensures NewestFirstOrder([x] + s)
  {
    var r := [x] + s;
    forall i, j | 0 <= i < j < |r| ensures r[i].body.createdAt >= r[j].body.createdAt {
      if i == 0 && j > 1 {
        assert r[j] == s[j - 1];
        assert s[0].body.createdAt >= s[j - 1].body.createdAt;
      }
    }
  }

  /** Inserts `d` into a newest-first sequence before the first review that is not newer. */
  function InsertNewest(d: Doc<Review>, s: seq<Doc<Review>>): (r: seq<Doc<Review>>)
    requires NewestFirstOrder(s)
    ensures multiset(r) == multiset(s) + multiset{d}
    ensures |r| == |s| + 1
    ensures r[0] == d || (|s| > 0 && r[0] == s[0])
    ensures NewestFirstOrder(r)
  {
    if |s| == 0 then [d]
    else if d.body.createdAt >= s[0].body.createdAt then
      ConsNewestFirst(d, s);
      [d] + s
    else
      var tail := s[1..];
      var rest := InsertNewest(d, tail);
      assert s == [s[0]] + tail;
      assert multiset([s[0]] + rest) == multiset{s[0]} + multiset(rest);
      assert rest[0] == d || rest[0] == tail[0];
      ConsNewestFirst(s[0], rest);
      [s[0]] + rest
  }

  /** `.sort({ createdAt: -1 })`: the same reviews, newest first. */
  function NewestFirst(s: seq<Doc<Review>>): (r: seq<Doc<Review>>)
    ensures multiset(r) == multiset(s)
    ensures NewestFirstOrder(r)
  {
    if |s| == 0 then []
    else
      assert s == [s[0]] + s[1..];
      InsertNewest(s[0], NewestFirst(s[1..]))
  }

  /** The filter of the public listings: `{ hotelId, hotelSource }`. */
  predicate ListedFor(d: Doc<Review>, key: HotelKey, source: HotelSource) {
    d.body.hotelId == key && d.body.hotelSource == source
  }

  /** The reviews the filter `{ hotelId: key, hotelSource: source }` matches, in storage order. */
  function Matching(reviews: seq<Doc<Review>>, key: HotelKey, source: HotelSource): (r: seq<Doc<Review>>)
    ensures forall d :: d in r ==> d in reviews && ListedFor(d, key, source)
    ensures forall d :: d in reviews && ListedFor(d, key, source) ==> d in r
  {
    Where(reviews, d => ListedFor(d, key, source))
  }

  /**
   * `Review.find({ hotelId: parseHotelId(param), hotelSource }).sort({ createdAt: -1 })`:
   * exactly the reviews of that hotel and source, each as often as stored, newest first.
   */
  function HotelReviews(reviews: seq<Doc<Review>>, hotelId: string, source: HotelSource,
                        isValidObjectId: string -> bool): (r: seq<Doc<Review>>)
    ensures forall d :: d in r ==> d in reviews && ListedFor(d, ParseHotelId(hotelId, isValidObjectId), source)
    ensures forall d :: d in reviews && ListedFor(d, ParseHotelId(hotelId, isValidObjectId), source) ==> d in r
    ensures multiset(r) == multiset(Matching(reviews, ParseHotelId(hotelId, isValidObjectId), source))
    ensures NewestFirstOrder(r)
  {
    var matching := Matching(reviews, ParseHotelId(hotelId, isValidObjectId), source);
    var r := NewestFirst(matching);
    SameMembers(r, matching);
    r
  }

  /** `GET /reviews/localHotels/:hotelId`. */
  function LocalHotelReviews(reviews: seq<Doc<Review>>, hotelId: string, isValidObjectId: string -> bool): (r: seq<Doc<Review>>)
    ensures forall d :: d in r ==> d in reviews && d.body.hotelSource == Local
    ensures forall d :: d in r ==> d.body.hotelId == ParseHotelId(hotelId, isValidObjectId)
    ensures forall d :: d in reviews && ListedFor(d, ParseHotelId(hotelId, isValidObjectId), Local) ==> d in r
    ensures multiset(r) == multiset(Matching(reviews, ParseHotelId(hotelId, isValidObjectId), Local))
    ensures NewestFirstOrder(r)
  {
    HotelReviews(reviews, hotelId, Local, isValidObjectId)
  }

  /** `GET /reviews/externalHotels/:hotelId`. */
  function ExternalHotelReviews(reviews: seq<Doc<Review>>, hotelId: string, isValidObjectId: string -> bool): (r: seq<Doc<Review>>)
    ensures forall d :: d in r ==> d in reviews && d.body.hotelSource == External
    ensures forall d :: d in r ==> d.body.hotelId == ParseHotelId(hotelId, isValidObjectId)
    ensures forall d :: d in reviews && ListedFor(d, ParseHotelId(hotelId, isValidObjectId), External) ==> d in r
    ensures multiset(r) == multiset(Matching(reviews, ParseHotelId(hotelId, isValidObjectId), External))
    ensures NewestFirstOrder(r)
  {
    HotelReviews(reviews, hotelId, External, isValidObjectId)
  }

  /**
   * A review filed under a hotel id that is not an ObjectId (an external hotel's id)
   * is listed for a route parameter exactly when the parameter is that same string:
   * an ObjectId-shaped parameter is cast and never matches a plain string.
   */
  lemma StringKeyListedOnlyForItsText(reviews: seq<Doc<Review>>, d: Doc<Review>, text: string,
                                      param: string, isValidObjectId: string -> bool)
    requires d in reviews
    requires d.body.hotelId == StringKey(text)
    ensures d in HotelReviews(reviews, param, d.body.hotelSource, isValidObjectId) <==>
      param == text && !isValidObjectId(param)
  {
  }

  /**
   * A review just inserted (stamped with the clock, which is later than every stored
   * timestamp) heads the listing of its hotel.
   */
  lemma NewReviewListedFirst(reviews: seq<Doc<Review>>, clock: nat, d: Doc<Review>,
                             hotelId: string, isValidObjectId: string -> bool)
    requires StoreValid(reviews, clock)
    requires d.body.createdAt == clock
    requires d.body.hotelId == ParseHotelId(hotelId, isValidObjectId)
    ensures var r := HotelReviews(reviews + [d], hotelId, d.body.hotelSource, isValidObjectId);
      |r| > 0 && r[0] == d
  {
    var r := HotelReviews(reviews + [d], hotelId, d.body.hotelSource, isValidObjectId);
    assert d in reviews + [d];
    assert d in r;
    var j :| 0 <= j < |r| && r[j] == d;
    assert r[0].body.createdAt >= clock by {
      if j > 0 {
        assert r[0].body.createdAt >= r[j].body.createdAt;
      }
    }
    assert r[0] in reviews + [d];
  }

  // ---------------------------------------------------------------------------
  // GET /my-reviews

  /** A status and the reviews sent with it. */
  datatype ReviewList = ReviewList(status: int, reviews: seq<Doc<Review>>)

  /**
   * `GET /reviews/my-reviews`: 401 without a session user; an operator gets every
   * review, anyone else only their own; newest first either way.
   */
  function MyReviews(reviews: seq<Doc<Review>>, user: Option<AuthPayload>): (r: ReviewList)
    ensures r.status == 401 <==> user.None?
    ensures user.None? ==> r.reviews == []
    ensures user.Some? ==> r.status == 200 && NewestFirstOrder(r.reviews)
    ensures user.Some? && user.value.role == UserModel.OperatorRole ==> multiset(r.reviews) == multiset(reviews)
    ensures user.Some? && user.value.role != UserModel.OperatorRole ==>
      forall d :: d in r.reviews ==> d in reviews && d.body.userId == user.value.userId
    ensures user.Some? && user.value.role != UserModel.OperatorRole ==>
      forall d :: d in reviews && d.body.userId == user.value.userId ==> d in r.reviews
    ensures user.Some? && user.value.role != UserModel.OperatorRole ==>
      forall d :: d in reviews ==>
        multiset(r.reviews)[d] == if d.body.userId == user.value.userId then multiset(reviews)[d] else 0
  {
    match user
    case None => ReviewList(401, [])
    case Some(u) =>
      if u.role == UserModel.OperatorRole then ReviewList(200, NewestFirst(reviews))
      else
        var mine := (d: Doc<Review>) => d.body.userId == u.userId;
        var own := Where(reviews, mine);
        WhereCounts(reviews, mine);
        var sorted := NewestFirst(own);
        SameMembers(sorted, own);
        ReviewList(200, sorted)
  }

  // ---------------------------------------------------------------------------
  // DELETE /:reviewId

  /**
   * `DELETE /reviews/:reviewId`. 401 without a session user; 500 for an id that is
   * not an ObjectId (the cast error); 404 when no review has that id; 403 when it
   * belongs to someone else; in all of these the collection is unchanged. Otherwise
   * exactly that review is removed and the answer is 200.
   */
  method Delete(db: Database.Store, user: Option<AuthPayload>, reviewId: string,
                isValidObjectId: string -> bool)
    returns (status: int)
    requires db.Valid()
    modifies db`reviews
    ensures db.Valid()
    ensures status == 401 <==> user.None?
    ensures status == 500 <==> user.Some? && !isValidObjectId(reviewId)
    ensures status == 404 <==>
      user.Some? && isValidObjectId(reviewId) && FindById(old(db.reviews), reviewId).None?
    ensures status == 403 <==>
      && user.Some? && isValidObjectId(reviewId) && FindById(old(db.reviews), reviewId).Some?
      && FindById(old(db.reviews), reviewId).value.body.userId != user.value.userId
    ensures status == 200 <==>
      && user.Some? && isValidObjectId(reviewId) && FindById(old(db.reviews), reviewId).Some?
      && FindById(old(db.reviews), reviewId).value.body.userId == user.value.userId
    ensures status == 200 ==> db.reviews == RemoveById(old(db.reviews), reviewId)
    ensures status != 200 ==> db.reviews == old(db.reviews)
  {
    if user.None? {
      return 401;
    }
    if !isValidObjectId(reviewId) {
      return 500;
    }
    var review := FindById(db.reviews, reviewId);
    if review.None? {
      return 404;
    }
    if review.value.body.userId != user.value.userId {
      return 403;
    }
    RemoveReview(db.reviews, db.clock, reviewId);
    db.reviews := RemoveById(db.reviews, reviewId);
    status := 200;
  }

  /** After a delete, the review is gone and every other review is still there. */
  lemma DeleteRemovesOnlyTarget(reviews: seq<Doc<Review>>, reviewId: Id)
    requires UniqueIds(reviews)
    ensures FindById(RemoveById(reviews, reviewId), reviewId).None?
    ensures forall d :: d in reviews && d.id != reviewId ==> d in RemoveById(reviews, reviewId)
    ensures |RemoveById(reviews, reviewId)| == |reviews| - (if FindById(reviews, reviewId).Some? then 1 else 0)
  {
    RemoveByIdSpec(reviews, reviewId);
  }
}
