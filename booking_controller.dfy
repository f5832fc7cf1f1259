/**
 * `controllers/booking.controller.ts`: booking creation gated on the local hotel
 * existing, and the owner-filtered listing. Both routes sit behind the identity
 * middleware, so the session user is always present.
 */
module BookingController {
  import opened Wrappers
  import opened Documents
  import opened BookingModel
  import opened AuthMiddleware
  import Database

  /**
   * `createBooking`. 404 when `hotelId` is absent (`findById(undefined)` finds nothing)
   * or names no local hotel; 500 when it is not an ObjectId (the cast error), when the
   * schema refuses the booking (a missing or unparsable `checkInDate`) or when the
   * `_id` is taken. Otherwise exactly one booking for the session user and that hotel
   * is appended, the existing bookings are kept as they were, and the answer is 201
   * with the new booking.
   */
  method CreateBooking(db: Database.Store, user: AuthPayload, hotelId: Option<string>,
                       checkInDate: Option<string>, isValidObjectId: string -> bool,
                       parseDate: string -> Option<int>, newId: Id)
    returns (status: int, booking: Option<Doc<Booking>>)
    requires db.Valid()
    modifies db`bookings, db`clock
    ensures db.Valid()
    ensures status == 404 <==>
      hotelId.None? || (isValidObjectId(hotelId.value) && FindById(db.localHotels, hotelId.value).None?)
    ensures status == 201 <==>
      && hotelId.Some? && isValidObjectId(hotelId.value) && FindById(db.localHotels, hotelId.value).Some?
      && NewBooking(user.userId, hotelId.value, checkInDate, parseDate, old(db.clock)).Some?
      && FindById(old(db.bookings), newId).None?
    ensures status in {201, 404, 500}
    ensures status == 201 ==>
      && booking == Some(Doc(newId, NewBooking(user.userId, hotelId.value, checkInDate, parseDate, old(db.clock)).value))
      && db.bookings == old(db.bookings) + [booking.value]
      && booking.value.body.user == user.userId && booking.value.body.hotel == hotelId.value
      && db.clock == old(db.clock) + 1
    ensures status != 201 ==> db.bookings == old(db.bookings) && db.clock == old(db.clock) && booking.None?
  {
    if hotelId.None? {
      return 404, None;
    }
    var id := hotelId.value;
    if !isValidObjectId(id) {
      return 500, None;
    }
    if FindById(db.localHotels, id).None? {
      return 404, None;
    }
    var b := NewBooking(user.userId, id, checkInDate, parseDate, db.clock);
    if b.None? || FindById(db.bookings, newId).Some? {
      return 500, None;
    }
    var d := Doc(newId, b.value);
    AppendFresh(db.bookings, d);
    db.bookings := db.bookings + [d];
    db.clock := db.clock + 1;
    status, booking := 201, Some(d);
  }

  /** The filter `{ user: userId }`. */
  function BookedBy(userId: Id): Doc<Booking> -> bool {
    (d: Doc<Booking>) => d.body.user == userId
  }

  /**
   * `getMyBookings`: `Booking.find({ user: userId })`: each of the requester's
   * bookings as often as it is stored, in storage order (`MyBookingsInStorageOrder`).
   */
  function MyBookings(bookings: seq<Doc<Booking>>, user: AuthPayload): (r: seq<Doc<Booking>>)
    ensures forall d :: d in r ==> d in bookings && d.body.user == user.userId
    ensures forall d :: d in bookings && d.body.user == user.userId ==> d in r
    ensures forall d :: d in bookings ==>
      multiset(r)[d] == if d.body.user == user.userId then multiset(bookings)[d] else 0
  {
    WhereCounts(bookings, BookedBy(user.userId));
    Where(bookings, BookedBy(user.userId))
  }

  /**
   * The listing keeps storage order: over bookings stored as `a` then `b`, the
   * requester's bookings in `a` come first, then those in `b`.
   */
  lemma MyBookingsInStorageOrder(a: seq<Doc<Booking>>, b: seq<Doc<Booking>>, user: AuthPayload)
    ensures MyBookings(a + b, user) == MyBookings(a, user) + MyBookings(b, user)
  {
    WhereAppend(a, b, BookedBy(user.userId));
  }

  /** Another user's bookings never appear in a user's listing. */
  lemma MyBookingsExcludeOthers(bookings: seq<Doc<Booking>>, user: AuthPayload, other: AuthPayload)
    requires user.userId != other.userId
    ensures forall d :: d in MyBookings(bookings, other) ==> d !in MyBookings(bookings, user)
  {
  }

  /** A booking just created is listed last for its owner, after the earlier ones. */
  lemma CreatedBookingListed(bookings: seq<Doc<Booking>>, d: Doc<Booking>, user: AuthPayload)
    requires d.body.user == user.userId
    ensures d in MyBookings(bookings + [d], user)
    ensures forall e :: e in MyBookings(bookings, user) ==> e in MyBookings(bookings + [d], user)
    ensures MyBookings(bookings + [d], user) == MyBookings(bookings, user) + [d]
  {
    MyBookingsInStorageOrder(bookings, [d], user);
    assert MyBookings([d], user) == [d] by {
      assert [d][1..] == [];
      assert BookedBy(user.userId)(d);
    }
  }
}
