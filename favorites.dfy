/**
 * The favorites router of `routes/favorites.ts`: read, add (`$addToSet`) and remove
 * (`$pull`) local hotels on the session user's `favoritedHotels` list.
 *
 * `models/user.model.ts` does not declare `favoritedHotels`, and Mongoose's strict
 * mode drops update operators on undeclared paths and refuses to populate them.
 * The `AsWritten` members state that behaviour; the handlers below use the evidently
 * intended one, with the path declared as a list of local-hotel ObjectIds.
 */
module Favorites {
  import opened Wrappers
  import opened Text
  import opened Documents
  import opened UserModel
  import opened LocalHotelModel
  import opened AuthMiddleware
  import Database

  // ---------------------------------------------------------------------------
  // The schema gap

  /** `$addToSet: { favoritedHotels: hotelId }` under strict mode and the schema as written. */
  function AddToSetAsWritten(u: User, hotelId: Id): (r: User)
    ensures FavoritesPath in DeclaredPaths ==> r.favoritedHotels == AddToSet(u.favoritedHotels, hotelId)
    ensures FavoritesPath !in DeclaredPaths ==> r == u
  {
    if FavoritesPath in DeclaredPaths then u.(favoritedHotels := AddToSet(u.favoritedHotels, hotelId)) else u
  }

  /** `$pull: { favoritedHotels: hotelId }` under strict mode and the schema as written. */
  function PullAsWritten(u: User, hotelId: Id): (r: User)
    ensures FavoritesPath in DeclaredPaths ==> r.favoritedHotels == Pull(u.favoritedHotels, hotelId)
    ensures FavoritesPath !in DeclaredPaths ==> r == u
  {
    if FavoritesPath in DeclaredPaths then u.(favoritedHotels := Pull(u.favoritedHotels, hotelId)) else u
  }

  /**
   * As written, both updates are dropped: a user with no favourites who "adds" a hotel
   * (and is answered 200) still has none, and removing never removes anything.
   */
  lemma AsWrittenUpdatesAreDropped(u: User, hotelId: Id)
    ensures AddToSetAsWritten(u, hotelId) == u
    ensures PullAsWritten(u, hotelId) == u
    ensures u.favoritedHotels == [] ==> hotelId !in AddToSetAsWritten(u, hotelId).favoritedHotels
    ensures hotelId in u.favoritedHotels ==> hotelId in PullAsWritten(u, hotelId).favoritedHotels
  {
    assert FavoritesPath !in DeclaredPaths;
  }

  /**
   * The three handlers' statuses as written. `strictPopulate` is Mongoose's option of
   * that name, on by default from Mongoose 6: `.populate('favoritedHotels')` on the
   * undeclared path then throws once a user document has been found, and the handler
   * answers 500. Without it the populate does nothing and the answer is 200 (with no
   * list, since the document has no such property). A missing user still gives 404.
   */
  function GetFavoritesAsWritten(users: seq<Doc<User>>, user: Option<AuthPayload>, strictPopulate: bool): (status: int)
    ensures status == 401 <==> user.None?
    ensures status == 404 <==> user.Some? && FindById(users, user.value.userId).None?
    ensures status == 500 <==> user.Some? && FindById(users, user.value.userId).Some? && strictPopulate
    ensures status == 200 <==> user.Some? && FindById(users, user.value.userId).Some? && !strictPopulate
  {
    assert FavoritesPath !in DeclaredPaths;
    if user.None? then 401
    else if FindById(users, user.value.userId).None? then 404
    else if strictPopulate && FavoritesPath !in DeclaredPaths then 500
    else 200
  }

  /**
   * `POST /me/favorites` as written: the checks before the update are as intended
   * (400, then the cast error of `findById` as 500, then 404 for a missing hotel),
   * then the populate of the undeclared path decides between 500 and 200.
   */
  function AddFavoriteAsWritten(users: seq<Doc<User>>, hotels: seq<Doc<LocalHotel>>, user: Option<AuthPayload>,
                                hotelId: Option<string>, isValidObjectId: string -> bool, strictPopulate: bool): (status: int)
    ensures status == 400 <==> user.None? || !Truthy(hotelId)
    ensures status == 404 <==>
      && user.Some? && Truthy(hotelId) && isValidObjectId(hotelId.value)
      && (FindById(hotels, hotelId.value).None? || FindById(users, user.value.userId).None?)
    ensures status == 500 <==>
      && user.Some? && Truthy(hotelId)
      && (!isValidObjectId(hotelId.value)
          || (FindById(hotels, hotelId.value).Some? && FindById(users, user.value.userId).Some? && strictPopulate))
    ensures status == 200 <==>
      && user.Some? && Truthy(hotelId) && isValidObjectId(hotelId.value)
      && FindById(hotels, hotelId.value).Some? && FindById(users, user.value.userId).Some? && !strictPopulate
  {
    assert FavoritesPath !in DeclaredPaths;
    if user.None? || !Truthy(hotelId) then 400
    else if !isValidObjectId(hotelId.value) then 500
    else if FindById(hotels, hotelId.value).None? then 404
    else if FindById(users, user.value.userId).None? then 404
    else if strictPopulate && FavoritesPath !in DeclaredPaths then 500
    else 200
  }

  /**
   * `DELETE /me/favorites/:hotelId` as written: strict mode strips the `$pull` on the
   * undeclared path before it is cast, so an id that is not an ObjectId is no error;
   * after the 400 check only the user lookup and the populate decide.
   */
  function RemoveFavoriteAsWritten(users: seq<Doc<User>>, user: Option<AuthPayload>, hotelId: string,
                                   strictPopulate: bool): (status: int)
    ensures status == 400 <==> user.None? || hotelId == ""
    ensures status == 404 <==> user.Some? && hotelId != "" && FindById(users, user.value.userId).None?
    ensures status == 500 <==>
      user.Some? && hotelId != "" && FindById(users, user.value.userId).Some? && strictPopulate
    ensures status == 200 <==>
      user.Some? && hotelId != "" && FindById(users, user.value.userId).Some? && !strictPopulate
  {
    assert FavoritesPath !in DeclaredPaths;
    if user.None? || hotelId == "" then 400
    else if FindById(users, user.value.userId).None? then 404
    else if strictPopulate && FavoritesPath !in DeclaredPaths then 500
    else 200
  }

  /**
   * As written, an existing user never gets a favourites list: with `strictPopulate`
   * every route answers 500 where the intended one answers 200, and without it the
   * answer is 200 but the list is unchanged.
   */
  lemma {:induction false} AsWrittenFavoritesFail(users: seq<Doc<User>>, hotels: seq<Doc<LocalHotel>>, user: AuthPayload,
                                                  hotelId: Id, isValidObjectId: string -> bool)
    requires FindById(users, user.userId).Some?
    requires isValidObjectId(hotelId) && hotelId != ""
    requires FindById(hotels, hotelId).Some?
    ensures GetFavoritesAsWritten(users, Some(user), true) == 500
    ensures AddFavoriteAsWritten(users, hotels, Some(user), Some(hotelId), isValidObjectId, true) == 500
    ensures RemoveFavoriteAsWritten(users, Some(user), hotelId, true) == 500
    ensures AddToSetAsWritten(FindById(users, user.userId).value.body, hotelId) == FindById(users, user.userId).value.body
  {
    AsWrittenUpdatesAreDropped(FindById(users, user.userId).value.body, hotelId);
  }

  /** The intended `$addToSet`, with `favoritedHotels` declared. */
  function AddFavoriteTo(u: User, hotelId: Id): (r: User)
    ensures hotelId in r.favoritedHotels
    ensures forall h :: h in u.favoritedHotels ==> h in r.favoritedHotels
    ensures forall h :: h in r.favoritedHotels ==> h in u.favoritedHotels || h == hotelId
    ensures r.(favoritedHotels := u.favoritedHotels) == u
  {
    u.(favoritedHotels := AddToSet(u.favoritedHotels, hotelId))
  }

  /** The intended `$pull`, with `favoritedHotels` declared. */
  function PullFavoriteFrom(u: User, hotelId: Id): (r: User)
    ensures hotelId !in r.favoritedHotels
    ensures forall h :: h in r.favoritedHotels ==> h in u.favoritedHotels
    ensures forall h :: h in u.favoritedHotels && h != hotelId ==> h in r.favoritedHotels
    ensures r.(favoritedHotels := u.favoritedHotels) == u
  {
    u.(favoritedHotels := Pull(u.favoritedHotels, hotelId))
  }

  /** `User.findByIdAndUpdate(userId, { $addToSet: ... })` on the collection. */
  function AddFavoriteIn(users: seq<Doc<User>>, userId: Id, hotelId: Id): (r: seq<Doc<User>>)
    ensures |r| == |users|
    ensures forall k :: 0 <= k < |users| ==> r[k].id == users[k].id
    ensures forall k :: 0 <= k < |users| && users[k].id != userId ==> r[k] == users[k]
  {
    UpdateById(users, userId, u => AddFavoriteTo(u, hotelId))
  }

  /** `User.findByIdAndUpdate(userId, { $pull: ... })` on the collection. */
  function PullFavoriteIn(users: seq<Doc<User>>, userId: Id, hotelId: Id): (r: seq<Doc<User>>)
    ensures |r| == |users|
    ensures forall k :: 0 <= k < |users| ==> r[k].id == users[k].id
    ensures forall k :: 0 <= k < |users| && users[k].id != userId ==> r[k] == users[k]
  {
    UpdateById(users, userId, u => PullFavoriteFrom(u, hotelId))
  }

  /** Adding keeps the users' store invariant and puts the hotel on that user's list. */
  lemma AddFavoriteInSpec(users: seq<Doc<User>>, userId: Id, hotelId: Id)
    requires StoreValid(users)
    requires FindById(users, userId).Some?
    ensures StoreValid(AddFavoriteIn(users, userId, hotelId))
    ensures FindById(AddFavoriteIn(users, userId, hotelId), userId)
      == Some(Doc(userId, AddFavoriteTo(FindById(users, userId).value.body, hotelId)))
    ensures hotelId in FindById(AddFavoriteIn(users, userId, hotelId), userId).value.body.favoritedHotels
  {
    UpdateUser(users, userId, u => AddFavoriteTo(u, hotelId));
    UpdateByIdFinds(users, userId, u => AddFavoriteTo(u, hotelId));
  }

  /** Removing keeps the users' store invariant and takes the hotel off that user's list. */
  lemma PullFavoriteInSpec(users: seq<Doc<User>>, userId: Id, hotelId: Id)
    requires StoreValid(users)
    requires FindById(users, userId).Some?
    ensures StoreValid(PullFavoriteIn(users, userId, hotelId))
    ensures FindById(PullFavoriteIn(users, userId, hotelId), userId)
      == Some(Doc(userId, PullFavoriteFrom(FindById(users, userId).value.body, hotelId)))
    ensures hotelId !in FindById(PullFavoriteIn(users, userId, hotelId), userId).value.body.favoritedHotels
  {
    UpdateUser(users, userId, u => PullFavoriteFrom(u, hotelId));
    UpdateByIdFinds(users, userId, u => PullFavoriteFrom(u, hotelId));
  }

  /** Adding a hotel that was not a favourite and removing it again restores the user. */
  lemma AddThenRemoveRestores(u: User, hotelId: Id)
    requires hotelId !in u.favoritedHotels
    ensures PullFavoriteFrom(AddFavoriteTo(u, hotelId), hotelId) == u
  {
    AddThenPull(u.favoritedHotels, hotelId);
  }

  /** Adding twice is adding once. */
  lemma AddFavoriteIdempotent(u: User, hotelId: Id)
    ensures AddFavoriteTo(AddFavoriteTo(u, hotelId), hotelId) == AddFavoriteTo(u, hotelId)
  {
    AddToSetIdempotent(u.favoritedHotels, hotelId);
  }

  // ---------------------------------------------------------------------------
  // populate

  /**
   * `.populate('favoritedHotels')`: each listed id replaced by its local hotel, in
   * list order; ids whose hotel no longer exists are left out.
   */
  function Populate(ids: seq<Id>, hotels: seq<Doc<LocalHotel>>): (r: seq<Doc<LocalHotel>>)
    ensures |r| <= |ids|
    ensures forall h :: h in r ==> h in hotels && h.id in ids
    ensures forall id :: id in ids && FindById(hotels, id).Some? ==> FindById(hotels, id).value in r
  {
    if |ids| == 0 then []
    else
      var rest := Populate(ids[1..], hotels);
      assert forall id :: id in ids ==> id == ids[0] || id in ids[1..];
      match FindById(hotels, ids[0])
      case None => rest
      case Some(h) => [h] + rest
  }

  /**
   * Deleting a local hotel does not touch the users' lists, but the hotel no longer
   * appears in any populated favourites; every other listed hotel still does.
   */
  lemma DeletedHotelLeavesFavorites(ids: seq<Id>, hotels: seq<Doc<LocalHotel>>, id: Id)
    requires UniqueIds(hotels)
    ensures forall h :: h in Populate(ids, RemoveById(hotels, id)) ==> h.id != id
    ensures forall h :: h in Populate(ids, hotels) && h.id != id ==> h in Populate(ids, RemoveById(hotels, id))
  {
    RemoveByIdSpec(hotels, id);
    var rest := RemoveById(hotels, id);
    forall h | h in Populate(ids, hotels) && h.id != id
      ensures h in Populate(ids, rest)
    {
      assert h in rest;
      FindByIdUnique(rest, h.id, h);
    }
  }

  // ---------------------------------------------------------------------------
  // handlers

  /** A status and the populated favourites sent with it. */
  datatype FavoritesReply = FavoritesReply(status: int, hotels: seq<Doc<LocalHotel>>)

  /**
   * `GET /me/favorites`: 401 without a session user, 404 when that user no longer
   * exists, otherwise 200 and the user's populated favourites.
   */
  function GetFavorites(users: seq<Doc<User>>, hotels: seq<Doc<LocalHotel>>, user: Option<AuthPayload>): (r: FavoritesReply)
    ensures r.status == 401 <==> user.None?
    ensures r.status == 404 <==> user.Some? && FindById(users, user.value.userId).None?
    ensures r.status == 200 <==> user.Some? && FindById(users, user.value.userId).Some?
    ensures r.status != 200 ==> r.hotels == []
    ensures r.status == 200 ==>
      r.hotels == Populate(FindById(users, user.value.userId).value.body.favoritedHotels, hotels)
  {
    match user
    case None => FavoritesReply(401, [])
    case Some(u) =>
      match FindById(users, u.userId)
      case None => FavoritesReply(404, [])
      case Some(d) => FavoritesReply(200, Populate(d.body.favoritedHotels, hotels))
  }

  /**
   * `POST /me/favorites`. 400 when the session user or a truthy `hotelId` is missing;
   * 500 when `hotelId` is not an ObjectId (the cast error of `findById`); 404 when the
   * hotel or the user does not exist. Otherwise the hotel is added to that user's list
   * once and the answer is 200 with the populated list. Only a 200 changes the store.
   */
  method AddFavorite(db: Database.Store, user: Option<AuthPayload>, hotelId: Option<string>,
                     isValidObjectId: string -> bool)
    returns (status: int, favorites: seq<Doc<LocalHotel>>)
    requires db.Valid()
    modifies db`users
    ensures db.Valid()
    ensures status == 400 <==> user.None? || !Truthy(hotelId)
    ensures status == 500 <==> user.Some? && Truthy(hotelId) && !isValidObjectId(hotelId.value)
    ensures status == 404 <==>
      && user.Some? && Truthy(hotelId) && isValidObjectId(hotelId.value)
      && (FindById(db.localHotels, hotelId.value).None? || FindById(old(db.users), user.value.userId).None?)
    ensures status == 200 <==>
      && user.Some? && Truthy(hotelId) && isValidObjectId(hotelId.value)
      && FindById(db.localHotels, hotelId.value).Some? && FindById(old(db.users), user.value.userId).Some?
    ensures status == 200 ==>
      && db.users == AddFavoriteIn(old(db.users), user.value.userId, hotelId.value)
      && hotelId.value in FindById(db.users, user.value.userId).value.body.favoritedHotels
      && favorites == Populate(FindById(db.users, user.value.userId).value.body.favoritedHotels, db.localHotels)
    ensures status != 200 ==> db.users == old(db.users) && favorites == []
  {
    if user.None? || !Truthy(hotelId) {
      return 400, [];
    }
    var id := hotelId.value;
    if !isValidObjectId(id) {
      return 500, [];
    }
    if FindById(db.localHotels, id).None? {
      return 404, [];
    }
    var userId := user.value.userId;
    if FindById(db.users, userId).None? {
      return 404, [];
    }
    AddFavoriteInSpec(db.users, userId, id);
    db.users := AddFavoriteIn(db.users, userId, id);
    status := 200;
    favorites := Populate(FindById(db.users, userId).value.body.favoritedHotels, db.localHotels);
  }

  /**
   * `DELETE /me/favorites/:hotelId`. 400 without a session user or with an empty id;
   * 500 when the id is not an ObjectId (the cast of the declared ObjectId list); 404
   * when the user does not exist. Otherwise the hotel is no longer on that user's list
   * and the answer is 200 with the populated list. The hotel itself is not looked up.
   */
  method RemoveFavorite(db: Database.Store, user: Option<AuthPayload>, hotelId: string,
                        isValidObjectId: string -> bool)
    returns (status: int, favorites: seq<Doc<LocalHotel>>)
    requires db.Valid()
    modifies db`users
    ensures db.Valid()
    ensures status == 400 <==> user.None? || hotelId == ""
    ensures status == 500 <==> user.Some? && hotelId != "" && !isValidObjectId(hotelId)
    ensures status == 404 <==>
      user.Some? && hotelId != "" && isValidObjectId(hotelId) && FindById(old(db.users), user.value.userId).None?
    ensures status == 200 <==>
      user.Some? && hotelId != "" && isValidObjectId(hotelId) && FindById(old(db.users), user.value.userId).Some?
    ensures status == 200 ==>
      && db.users == PullFavoriteIn(old(db.users), user.value.userId, hotelId)
      && hotelId !in FindById(db.users, user.value.userId).value.body.favoritedHotels
      && favorites == Populate(FindById(db.users, user.value.userId).value.body.favoritedHotels, db.localHotels)
    ensures status != 200 ==> db.users == old(db.users) && favorites == []
  {
    if user.None? || hotelId == "" {
      return 400, [];
    }
    if !isValidObjectId(hotelId) {
      return 500, [];
    }
    var userId := user.value.userId;
    if FindById(db.users, userId).None? {
      return 404, [];
    }
    PullFavoriteInSpec(db.users, userId, hotelId);
    db.users := PullFavoriteIn(db.users, userId, hotelId);
    status := 200;
    favorites := Populate(FindById(db.users, userId).value.body.favoritedHotels, db.localHotels);
  }
}
