/** The hotel schema of `models/hotel.model.ts`. */
module HotelModel {
  import opened Wrappers

  /** A stored hotel; `description` is an optional path. */
  datatype Hotel = Hotel(name: string, location: string, price: int, description: Option<string>)

  /** The `required` validators. */
  predicate Valid(h: Hotel) {
    h.name != "" && h.location != ""
  }
}
