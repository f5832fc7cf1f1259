/**
 * The MongoDB database the handlers share: one collection per model, plus the
 * clock that stamps `createdAt` (modelled as a counter that every timestamped
 * insert advances).
 */
module Database {
  import opened Documents
  import UserModel
  import ReviewModel
  import BookingModel
  import LocalHotelModel
  import HotelModel

  class Store {
    var users: seq<Doc<UserModel.User>>
    var reviews: seq<Doc<ReviewModel.Review>>
    var localHotels: seq<Doc<LocalHotelModel.LocalHotel>>
    var hotels: seq<Doc<HotelModel.Hotel>>
    var bookings: seq<Doc<BookingModel.Booking>>
    var clock: nat

    /** What the schemas and indexes guarantee of the stored documents. */
    ghost predicate Valid()
      reads this
    {
      && UserModel.StoreValid(users)
      && ReviewModel.StoreValid(reviews, clock)
      && UniqueIds(localHotels)
      && UniqueIds(hotels)
      && UniqueIds(bookings)
    }

    /** An empty database. */
    constructor ()
      ensures Valid()
      ensures users == [] && reviews == [] && localHotels == [] && hotels == [] && bookings == []
      ensures clock == 0
    {
      users, reviews, localHotels, hotels, bookings := [], [], [], [], [];
      clock := 0;
    }
  }
}
