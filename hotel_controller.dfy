/**
 * `controllers/hotel.controller.ts`: CRUD over the hotel collection, with a
 * required-field check on create. The routes carry no identity or role middleware.
 */
module HotelController {
  import opened Wrappers
  import opened Text
  import opened Documents
  import opened HotelModel
  import Database

  /** `!name || !location || !price` is false: a price of `0` counts as missing. */
  predicate HasRequiredFields(name: Option<string>, location: Option<string>, price: Option<int>) {
    Truthy(name) && Truthy(location) && TruthyNumber(price)
  }

  /**
   * `createHotel`. 400 and no insert when a required field is falsy; 500 and no insert
   * when the `_id` is taken; otherwise one hotel with the body fields is appended and
   * the answer is 201 with it. The field check implies the schema's validators, so a
   * hotel that passes it is always valid.
   */
  method CreateHotel(db: Database.Store, name: Option<string>, location: Option<string>,
                     price: Option<int>, description: Option<string>, newId: Id)
    returns (status: int, hotel: Option<Doc<Hotel>>)
    requires db.Valid()
    modifies db`hotels
    ensures db.Valid()
    ensures status == 400 <==> !HasRequiredFields(name, location, price)
    ensures status == 500 <==> HasRequiredFields(name, location, price) && FindById(old(db.hotels), newId).Some?
    ensures status == 201 <==> HasRequiredFields(name, location, price) && FindById(old(db.hotels), newId).None?
    ensures status == 201 ==>
      && hotel == Some(Doc(newId, Hotel(name.value, location.value, price.value, description)))
      && Valid(hotel.value.body) && hotel.value.body.price != 0
      && db.hotels == old(db.hotels) + [hotel.value]
    ensures status != 201 ==> db.hotels == old(db.hotels) && hotel.None?
  {
    if !HasRequiredFields(name, location, price) {
      return 400, None;
    }
    if FindById(db.hotels, newId).Some? {
      return 500, None;
    }
    var d := Doc(newId, Hotel(name.value, location.value, price.value, description));
    AppendFresh(db.hotels, d);
    db.hotels := db.hotels + [d];
    status, hotel := 201, Some(d);
  }

  /**
   * The update document `{ name, location, price, description }`: keys left undefined
   * are dropped, so the stored value is kept; validators do not run on the update.
   */
  function PatchHotel(h: Hotel, name: Option<string>, location: Option<string>, price: Option<int>,
                      description: Option<string>): (r: Hotel)
    ensures r.name == GetOr(name, h.name) && r.location == GetOr(location, h.location)
    ensures r.price == GetOr(price, h.price)
    ensures r.description == if description.Some? then description else h.description
  {
    Hotel(GetOr(name, h.name), GetOr(location, h.location), GetOr(price, h.price),
          if description.Some? then description else h.description)
  }

  /** An update that gives every field replaces the whole record with it. */
  lemma FullPatchReplaces(h: Hotel, name: string, location: string, price: int, description: string)
    ensures PatchHotel(h, Some(name), Some(location), Some(price), Some(description))
      == Hotel(name, location, price, Some(description))
  {
  }

  /**
   * `updateHotel`. 500 for a non-ObjectId and 404 for an absent id, with the collection
   * unchanged; otherwise that hotel is patched, no other hotel changes, and the answer
   * is 200 with the updated hotel.
   */
  method UpdateHotel(db: Database.Store, id: string, name: Option<string>, location: Option<string>,
                     price: Option<int>, description: Option<string>, isValidObjectId: string -> bool)
    returns (status: int, hotel: Option<Doc<Hotel>>)
    requires db.Valid()
    modifies db`hotels
    ensures db.Valid()
    ensures status == 500 <==> !isValidObjectId(id)
    ensures status == 404 <==> isValidObjectId(id) && FindById(old(db.hotels), id).None?
    ensures status == 200 <==> isValidObjectId(id) && FindById(old(db.hotels), id).Some?
    ensures status == 200 ==>
      && db.hotels == UpdateById(old(db.hotels), id, h => PatchHotel(h, name, location, price, description))
      && hotel == Some(Doc(id, PatchHotel(FindById(old(db.hotels), id).value.body, name, location, price, description)))
      && hotel == FindById(db.hotels, id)
    ensures status != 200 ==> db.hotels == old(db.hotels) && hotel.None?
  {
    if !isValidObjectId(id) {
      return 500, None;
    }
    if FindById(db.hotels, id).None? {
      return 404, None;
    }
    var f := h => PatchHotel(h, name, location, price, description);
    UpdateByIdUnique(db.hotels, id, f);
    UpdateByIdFinds(db.hotels, id, f);
    db.hotels := UpdateById(db.hotels, id, f);
    status, hotel := 200, FindById(db.hotels, id);
  }

  /**
   * `deleteHotel`. 500 for a non-ObjectId and 404 for an absent id, with the collection
   * unchanged; otherwise exactly that hotel is removed and the answer is 200.
   */
  method DeleteHotel(db: Database.Store, id: string, isValidObjectId: string -> bool)
    returns (status: int)
    requires db.Valid()
    modifies db`hotels
    ensures db.Valid()
    ensures status == 500 <==> !isValidObjectId(id)
    ensures status == 404 <==> isValidObjectId(id) && FindById(old(db.hotels), id).None?
    ensures status == 200 <==> isValidObjectId(id) && FindById(old(db.hotels), id).Some?
    ensures status == 200 ==>
      && db.hotels == RemoveById(old(db.hotels), id)
      && |db.hotels| == |old(db.hotels)| - 1
      && FindById(db.hotels, id).None?
      && forall d :: d in old(db.hotels) && d.id != id ==> d in db.hotels
    ensures status != 200 ==> db.hotels == old(db.hotels)
  {
    if !isValidObjectId(id) {
      return 500;
    }
    if FindById(db.hotels, id).None? {
      return 404;
    }
    RemoveByIdSpec(db.hotels, id);
    db.hotels := RemoveById(db.hotels, id);
    status := 200;
  }
}
