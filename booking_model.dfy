/** The booking schema of `models/booking.model.ts`. */
module BookingModel {
  import opened Wrappers
  import opened Documents

  /**
   * A stored booking: the owner's user id, the hotel id, the check-in date (as the
   * milliseconds value of a JavaScript `Date`) and the creation timestamp.
   */
  datatype Booking = Booking(user: Id, hotel: Id, checkInDate: int, createdAt: nat)

  /**
   * `new Booking({ user, hotel, checkInDate })` followed by validation on `save()`:
   * the required `checkInDate` must be present and cast to a `Date`.
   */
  function NewBooking(user: Id, hotel: Id, checkInDate: Option<string>,
                      parseDate: string -> Option<int>, createdAt: nat): (r: Option<Booking>)
    ensures r.Some? <==> checkInDate.Some? && parseDate(checkInDate.value).Some?
    ensures r.Some? ==> r.value.user == user && r.value.hotel == hotel
    ensures r.Some? ==> r.value.checkInDate == parseDate(checkInDate.value).value
    ensures r.Some? ==> r.value.createdAt == createdAt
  {
    match checkInDate
    case None => None
    case Some(text) =>
      match parseDate(text)
      case None => None
      case Some(date) => Some(Booking(user, hotel, date, createdAt))
  }
}
