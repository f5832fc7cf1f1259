/** The local-hotel schema of `models/localHotel.model.ts`. */
module LocalHotelModel {
  import opened Wrappers
  import opened Text

  /** A stored local hotel; `description` and `imageFilename` are optional paths. */
  datatype LocalHotel = LocalHotel(
    name: string,
    location: string,
    price: int,
    description: Option<string>,
    imageFilename: Option<string>)

  /** The `required` validators. */
  predicate Valid(h: LocalHotel) {
    h.name != "" && h.location != ""
  }

  /**
   * `new LocalHotel({...})` followed by validation on `save()`: `name` and `location`
   * must be non-empty strings and `price` present (a price of `0` passes).
   */
  function NewLocalHotel(name: Option<string>, location: Option<string>, price: Option<int>,
                         description: Option<string>, imageFilename: Option<string>): (r: Option<LocalHotel>)
    ensures r.Some? <==> Truthy(name) && Truthy(location) && price.Some?
    ensures r.Some? ==> Valid(r.value)
    ensures r.Some? ==> r.value == LocalHotel(name.value, location.value, price.value, description, imageFilename)
  {
    if Truthy(name) && Truthy(location) && price.Some? then
      Some(LocalHotel(name.value, location.value, price.value, description, imageFilename))
    else None
  }
}
