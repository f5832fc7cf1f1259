/**
 * `controllers/localHotel.controller.ts`: CRUD over the local-hotel collection. The
 * routes carry no identity or role middleware. An id that is not an ObjectId makes
 * `findById` and its variants throw a cast error, answered 500.
 */
module LocalHotelController {
  import opened Wrappers
  import opened Text
  import opened Documents
  import opened LocalHotelModel
  import Database

  /** A status with the hotel sent with it, if any. */
  datatype HotelReply = HotelReply(status: int, hotel: Option<Doc<LocalHotel>>)

  /** `getLocalHotelById`: 500 for a non-ObjectId, 404 for an absent id, else 200 and that hotel. */
  function GetLocalHotelById(hotels: seq<Doc<LocalHotel>>, id: string, isValidObjectId: string -> bool): (r: HotelReply)
    ensures r.status == 500 <==> !isValidObjectId(id)
    ensures r.status == 404 <==> isValidObjectId(id) && forall d :: d in hotels ==> d.id != id
    ensures r.status == 200 <==> isValidObjectId(id) && exists d :: d in hotels && d.id == id
    ensures r.status == 200 ==> r.hotel.Some? && r.hotel.value in hotels && r.hotel.value.id == id
    ensures r.status != 200 ==> r.hotel.None?
  {
    if !isValidObjectId(id) then HotelReply(500, None)
    else
      match FindById(hotels, id)
      case None => HotelReply(404, None)
      case Some(d) => HotelReply(200, Some(d))
  }

  /**
   * `createLocalHotel`. 500 and no insert when the schema refuses the hotel (a missing
   * or empty name or location, a missing price) or the `_id` is taken; otherwise one
   * hotel with the body fields and the uploaded file's stored name (if a file was
   * accepted) is appended and the answer is 201 with it.
   */
  method CreateLocalHotel(db: Database.Store, name: Option<string>, location: Option<string>,
                          price: Option<int>, description: Option<string>, filename: Option<string>, newId: Id)
    returns (reply: HotelReply)
    requires db.Valid()
    modifies db`localHotels
    ensures db.Valid()
    ensures reply.status == 201 <==>
      NewLocalHotel(name, location, price, description, filename).Some? && FindById(old(db.localHotels), newId).None?
    ensures reply.status in {201, 500}
    ensures reply.status == 201 ==>
      && reply.hotel == Some(Doc(newId, LocalHotel(name.value, location.value, price.value, description, filename)))
      && db.localHotels == old(db.localHotels) + [reply.hotel.value]
    ensures reply.status != 201 ==> db.localHotels == old(db.localHotels) && reply.hotel.None?
  {
    var hotel := NewLocalHotel(name, location, price, description, filename);
    if hotel.None? || FindById(db.localHotels, newId).Some? {
      return HotelReply(500, None);
    }
    var d := Doc(newId, hotel.value);
    AppendFresh(db.localHotels, d);
    db.localHotels := db.localHotels + [d];
    reply := HotelReply(201, Some(d));
  }

  /**
   * The update document `{ name, location, price, description }` plus `imageFilename`
   * only for a truthy uploaded filename. Keys left undefined are dropped, so the
   * stored value is kept; validators do not run on the update.
   */
  function PatchLocalHotel(h: LocalHotel, name: Option<string>, location: Option<string>, price: Option<int>,
                           description: Option<string>, filename: Option<string>): (r: LocalHotel)
    ensures r.name == GetOr(name, h.name) && r.location == GetOr(location, h.location)
    ensures r.price == GetOr(price, h.price)
    ensures r.description == if description.Some? then description else h.description
    ensures Truthy(filename) ==> r.imageFilename == filename
    ensures !Truthy(filename) ==> r.imageFilename == h.imageFilename
  {
    LocalHotel(GetOr(name, h.name), GetOr(location, h.location), GetOr(price, h.price),
               if description.Some? then description else h.description,
               if Truthy(filename) then filename else h.imageFilename)
  }

  /** An update with no fields and no file leaves the hotel as it was. */
  lemma EmptyPatchKeepsHotel(h: LocalHotel)
    ensures PatchLocalHotel(h, None, None, None, None, None) == h
  {
  }

  /**
   * `updateLocalHotel`. 500 for a non-ObjectId, 404 for an absent id, and in both the
   * collection is unchanged; otherwise that hotel is patched, no other hotel changes,
   * and the answer is 200 with the updated hotel.
   */
  method UpdateLocalHotel(db: Database.Store, id: string, name: Option<string>, location: Option<string>,
                          price: Option<int>, description: Option<string>, filename: Option<string>,
                          isValidObjectId: string -> bool)
    returns (reply: HotelReply)
    requires db.Valid()
    modifies db`localHotels
    ensures db.Valid()
    ensures reply.status == 500 <==> !isValidObjectId(id)
    ensures reply.status == 404 <==> isValidObjectId(id) && FindById(old(db.localHotels), id).None?
    ensures reply.status == 200 <==> isValidObjectId(id) && FindById(old(db.localHotels), id).Some?
    ensures reply.status == 200 ==>
      && db.localHotels == UpdateById(old(db.localHotels), id, h => PatchLocalHotel(h, name, location, price, description, filename))
      && reply.hotel == Some(Doc(id, PatchLocalHotel(FindById(old(db.localHotels), id).value.body, name, location, price, description, filename)))
      && reply.hotel == FindById(db.localHotels, id)
    ensures reply.status != 200 ==> db.localHotels == old(db.localHotels) && reply.hotel.None?
  {
    if !isValidObjectId(id) {
      return HotelReply(500, None);
    }
    if FindById(db.localHotels, id).None? {
      return HotelReply(404, None);
    }
    var f := h => PatchLocalHotel(h, name, location, price, description, filename);
    UpdateByIdUnique(db.localHotels, id, f);
    UpdateByIdFinds(db.localHotels, id, f);
    db.localHotels := UpdateById(db.localHotels, id, f);
    reply := HotelReply(200, FindById(db.localHotels, id));
  }

  /**
   * `deleteLocalHotel`. 500 for a non-ObjectId and 404 for an absent id, with the
   * collection unchanged; otherwise exactly that hotel is removed and the answer is 200.
   */
  method DeleteLocalHotel(db: Database.Store, id: string, isValidObjectId: string -> bool)
    returns (status: int)
    requires db.Valid()
    modifies db`localHotels
    ensures db.Valid()
    ensures status == 500 <==> !isValidObjectId(id)
    ensures status == 404 <==> isValidObjectId(id) && FindById(old(db.localHotels), id).None?
    ensures status == 200 <==> isValidObjectId(id) && FindById(old(db.localHotels), id).Some?
    ensures status == 200 ==>
      && db.localHotels == RemoveById(old(db.localHotels), id)
      && |db.localHotels| == |old(db.localHotels)| - 1
      && FindById(db.localHotels, id).None?
      && forall d :: d in old(db.localHotels) && d.id != id ==> d in db.localHotels
    ensures status != 200 ==> db.localHotels == old(db.localHotels)
  {
    if !isValidObjectId(id) {
      return 500;
    }
    if FindById(db.localHotels, id).None? {
      return 404;
    }
    RemoveByIdSpec(db.localHotels, id);
    db.localHotels := RemoveById(db.localHotels, id);
    status := 200;
  }
}
