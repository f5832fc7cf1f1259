# travel-agency-api — a verified model of the request-handling core

This project models the backend of a small travel agency: an Express application over a
MongoDB database accessed with Mongoose. It covers the shape and validators of each
collection, the bearer-token identity middleware and the operator gate, and the handlers for
reviews, favourites, sign-up and login, the user profile, bookings, local hotels and hotels.
It also covers two pure helpers: the image upload filter with its stored-filename rule, and
the request body for the Hotelbeds availability search.

How the model is built:

- **Collections.** Each MongoDB collection is a sequence of documents `Doc(id, body)` in
  natural (insertion) order, with unique `_id`s (`Documents`).
- **Store.** One `Database.Store` object holds the five collections plus a `clock`. Every
  timestamped insert takes its `createdAt` from the clock and advances it.
- **Handlers.** A handler that writes is a method over the store. It states its status code
  for every input and the exact new contents of the collections it `modifies`. A read-only
  handler is a function.
- **Store invariant.** Every state-changing handler keeps `Store.Valid()`. That invariant
  covers unique ids, unique e-mails, the review validators, and review timestamps earlier
  than the clock.

Pieces the model cannot see are parameters:

- `isValidObjectId` is `mongoose.Types.ObjectId.isValid`.
- `containsBadWords` is the bad-word filter.
- `hash` is bcrypt: `compare(p, stored)` holds when `hash(p) == stored`.
- `sign` and `verify` are the JWT functions.
- `parseDate` is the Mongoose `Date` cast.
- `newId` is the `_id` the driver would generate.
- `now` is `Date.now()`.

Mongoose behaviour the model reproduces:

- A `findById` with an id that is not an ObjectId throws a cast error. The handlers answer
  it with 500.
- A `save()` that fails schema validation throws. The handlers answer it with 500.
- `findByIdAndUpdate` runs no validators and drops keys that are `undefined`.
- "Falsy" is JavaScript falsiness (`Text.Truthy`, `Text.TruthyNumber`).

## Model

| member | source | states |
|---|---|---|
| Text.Split | travel-agency-api/src/middlewares/auth.middleware.ts:24 | `split(' ')` yields at least one piece, and no piece contains the separator |
| Text.JoinSplit | travel-agency-api/src/middlewares/auth.middleware.ts:24 | joining the pieces of `split(c)` with `c` gives back the original string |
| Text.SplitAfterPiece | travel-agency-api/src/middlewares/auth.middleware.ts:24 | splitting `a + c + b`, where `a` has no `c`, yields `a` followed by the pieces of `b` |
| Text.Lower | travel-agency-api/src/middlewares/upload.ts:28 | `toLowerCase` keeps the length and maps each character on its own (ASCII upper case to lower case) |
| Text.Utf16Length | travel-agency-api/src/models/Review.ts:21 | a string's JavaScript `length` counts UTF-16 code units: at least one per character and at most two, and 0 exactly for the empty string |
| Text.Utf16LengthPlain | travel-agency-api/src/models/Review.ts:21 | a string with no character beyond the Basic Multilingual Plane has one code unit per character |
| Text.Utf16LengthAstral | travel-agency-api/src/models/Review.ts:21 | a string of characters beyond the Basic Multilingual Plane has two code units per character |
| Text.Decimal | travel-agency-api/src/middlewares/upload.ts:19 | the timestamp in a file name is printed as a non-empty run of decimal digits |
| Text.DecimalRoundTrip | travel-agency-api/src/middlewares/upload.ts:19 | reading the printed digits back gives the timestamp |
| Documents.IndexOf | travel-agency-api/src/controllers/localHotel.controller.ts:18 | the position found holds the id and no earlier position does; no position is found exactly when no document has the id |
| Documents.FindById | travel-agency-api/src/controllers/localHotel.controller.ts:18 | `findById` returns a stored document with that id, or nothing exactly when no stored document has it |
| Documents.FindByIdUnique | travel-agency-api/src/controllers/localHotel.controller.ts:18 | with unique ids, `findById` returns the one document carrying the id |
| Documents.AppendFresh | travel-agency-api/src/controllers/localHotel.controller.ts:35-36 | inserting a document whose `_id` is unused keeps ids unique, and the document is then found by its id |
| Documents.FindAll | travel-agency-api/src/controllers/localHotel.controller.ts:5-13 | `getLocalHotels` (and `getHotels` in `controllers/hotel.controller.ts:4-11`, the same query) returns every stored hotel, position by position in storage order |
| Documents.Where | travel-agency-api/src/controllers/booking.controller.ts:33 | `find(filter)` returns exactly the stored documents matching the filter, and no more than are stored |
| Documents.WhereCounts | travel-agency-api/src/controllers/booking.controller.ts:33 | `find(filter)` returns each matching document as often as it is stored, and no other document |
| Documents.WhereAppend | travel-agency-api/src/controllers/booking.controller.ts:33 | `find(filter)` keeps storage order: over a collection stored as `a` then `b`, the matches in `a` come first, in order, then those in `b` |
| Documents.WhereUnique | travel-agency-api/src/controllers/booking.controller.ts:33 | a filtered result keeps ids unique |
| Documents.RemoveById | travel-agency-api/src/controllers/localHotel.controller.ts:67 | `findByIdAndDelete` of an absent id changes nothing; of a present id it removes one document |
| Documents.RemoveByIdSpec | travel-agency-api/src/controllers/localHotel.controller.ts:67 | after the delete, ids stay unique, every remaining document was stored before and has a different id, and every other document remains |
| Documents.RemoveAtSpec | travel-agency-api/src/routes/reviews.ts:128 | removing the document at one position keeps exactly the documents with a different id |
| Documents.UpdateById | travel-agency-api/src/controllers/hotel.controller.ts:34-38 | `findByIdAndUpdate` keeps the length and every id; it changes only the document with that id, which gets the updated body |
| Documents.UpdateByIdFinds | travel-agency-api/src/controllers/hotel.controller.ts:34-38 | after the update, `findById` returns the updated document (`{ new: true }`) |
| Documents.UpdateByIdUnique | travel-agency-api/src/controllers/hotel.controller.ts:34-38 | an update keeps ids unique |
| Documents.AddToSet | travel-agency-api/src/routes/favorites.ts:49 | `$addToSet` returns a list that contains the value and all old entries and nothing else; the list is unchanged when the value was already present, and otherwise the value is appended |
| Documents.Pull | travel-agency-api/src/routes/favorites.ts:78 | `$pull` removes every occurrence of the value and keeps every other entry |
| Documents.PullAbsent | travel-agency-api/src/routes/favorites.ts:76-80 | pulling a value that is not in the list leaves the list unchanged |
| Documents.AddToSetIdempotent | travel-agency-api/src/routes/favorites.ts:47-51 | adding twice is the same as adding once |
| Documents.PullIdempotent | travel-agency-api/src/routes/favorites.ts:76-80 | pulling twice is the same as pulling once |
| Documents.AddToSetNoDuplicates | travel-agency-api/src/routes/favorites.ts:49 | `$addToSet` never creates a duplicate |
| Documents.AddThenPull | travel-agency-api/src/routes/favorites.ts:47-80 | adding a new value and then pulling it restores the list |
| Documents.PullAppend | travel-agency-api/src/routes/favorites.ts:78 | pulling a value from a list that ends with it is the same as pulling it from the list without that last entry |
| UserModel.NewUser | travel-agency-api/src/models/user.model.ts:12-16 | a new user keeps the given email and password; the role defaults to `user`; username and avatar default to "" |
| UserModel.FindByEmail | travel-agency-api/src/controllers/auth.controller.ts:12 | `findOne({ email })` returns a stored user with that email, or nothing exactly when nobody has it |
| UserModel.AppendUser | travel-agency-api/src/models/user.model.ts:12-13 | inserting a user with an unused `_id`, an unused email and non-empty required fields keeps ids unique, emails unique (the `unique` index) and every user valid |
| UserModel.UpdateUser | travel-agency-api/src/models/user.model.ts:12-13 | an update that keeps email and password keeps the user collection valid |
| ReviewModel.SourceOf | travel-agency-api/src/models/Review.ts:15-19 | the `hotelSource` enum accepts exactly `local` and `external` |
| ReviewModel.RemoveReview | travel-agency-api/src/models/Review.ts:20-24 | deleting a review keeps the review collection valid |
| ReviewModel.AppendReview | travel-agency-api/src/models/Review.ts:20-24 | inserting a valid review (comment length in [1, 1000] UTF-16 code units, rating in [1, 5]) stamped with the clock keeps the collection valid once the clock advances |
| BookingModel.NewBooking | travel-agency-api/src/models/booking.model.ts:5-9 | a booking is built exactly when `checkInDate` is present and casts to a Date; it holds the given user, hotel, parsed date and creation stamp |
| LocalHotelModel.NewLocalHotel | travel-agency-api/src/models/localHotel.model.ts:11-17 | a local hotel is accepted exactly when name and location are non-empty and a price is present (0 passes); it holds the given fields and the optional description and image |
| AuthMiddleware.BearerToken | travel-agency-api/src/middlewares/auth.middleware.ts:24 | the token has no space; it is the text right after `"Bearer "`, up to the next space or the end |
| AuthMiddleware.FirstPiece | travel-agency-api/src/middlewares/auth.middleware.ts:24 | the first piece of a split is a prefix of the string, followed by the separator or the end |
| AuthMiddleware.BearerTokenIsSecondPiece | travel-agency-api/src/middlewares/auth.middleware.ts:24 | for a space-free `t`, both `"Bearer t"` and `"Bearer t more"` yield `t` |
| AuthMiddleware.Authenticate | travel-agency-api/src/middlewares/auth.middleware.ts:19-33 | exactly one outcome: 401 when the header is absent or lacks the case-sensitive `"Bearer "`, 403 when the token does not verify, otherwise the decoded claims |
| AuthMiddleware.Run | travel-agency-api/src/middlewares/auth.middleware.ts:19-33 | on a reject, the status is written, `req.user` is untouched and `next` is not called; on success, `req.user` holds the claims, no status is written and `next` is called exactly once |
| RoleMiddleware.RequireOperator | travel-agency-api/src/middlewares/role.middleware.ts:3-8 | the gate allows exactly when `req.user` is present with role `operator`; otherwise it denies with 403 |
| RoleMiddleware.OperatorRouteAdmits | travel-agency-api/src/middlewares/role.middleware.ts:3-8 | behind the bearer middleware, a request passes the gate exactly when its header carries a token that verifies to operator claims |
| Reviews.ParseHotelId | travel-agency-api/src/routes/reviews.ts:10-12 | a valid ObjectId string becomes an ObjectId key; any other string is kept as a string key |
| Reviews.Validate | travel-agency-api/src/routes/reviews.ts:20-33 | the chain, each step only after the previous one passes: first a missing (falsy) field, so rating 0 is "missing"; then a rating outside [1, 5]; then bad words; the body passes exactly when none applies |
| Reviews.NewReview | travel-agency-api/src/routes/reviews.ts:35-38 | the schema accepts the review exactly when the source is `local` or `external`, the comment has at most 1000 UTF-16 code units and the rating is in [1, 5]; the review belongs to the session user |
| Reviews.AstralCommentRefused | travel-agency-api/src/models/Review.ts:21 | a comment of more than 500 emoji-like characters is refused by the schema, although it has no more than 1000 characters |
| Reviews.Create | travel-agency-api/src/routes/reviews.ts:15-45 | 400 with no insert for each validation rejection; after validation, 500 with no insert when there is no session user (the required `userId` is missing), the schema refuses the review or its id is taken; otherwise 201, with exactly one review by the session user appended |
| Reviews.ConsNewestFirst | travel-agency-api/src/routes/reviews.ts:54 | a review at least as new as the head of a newest-first list can be put in front, and the list stays newest first |
| Reviews.InsertNewest | travel-agency-api/src/routes/reviews.ts:54 | inserting into a newest-first list adds exactly that review and keeps the list newest first |
| Reviews.NewestFirst | travel-agency-api/src/routes/reviews.ts:54 | `.sort({ createdAt: -1 })` is a permutation whose `createdAt` never increases |
| Reviews.Matching | travel-agency-api/src/routes/reviews.ts:52 | the filter `{ hotelId, hotelSource }` returns exactly the stored reviews with that key and source |
| Reviews.HotelReviews | travel-agency-api/src/routes/reviews.ts:50-54 | a listing holds exactly the stored reviews of that parsed hotel id and source, each as often as the filter matches it, newest first |
| Reviews.LocalHotelReviews | travel-agency-api/src/routes/reviews.ts:48-61 | the public local listing holds exactly the `local` reviews of that hotel, each as often as stored, newest first |
| Reviews.ExternalHotelReviews | travel-agency-api/src/routes/reviews.ts:64-77 | the public external listing holds exactly the `external` reviews of that hotel, each as often as stored, newest first |
| Reviews.StringKeyListedOnlyForItsText | travel-agency-api/src/routes/reviews.ts:10-12 | a review filed under a plain-string hotel id is listed for a route parameter exactly when the parameter is that string and not an ObjectId |
| Reviews.NewReviewListedFirst | travel-agency-api/src/routes/reviews.ts:37-54 | a review just created heads its hotel's listing |
| Reviews.SameMembers | travel-agency-api/src/routes/reviews.ts:54 | sorting never adds or drops an element |
| Reviews.MyReviews | travel-agency-api/src/routes/reviews.ts:80-104 | 401 without a session user; an operator gets every review and anyone else exactly their own, each as often as stored; newest first |
| Reviews.Delete | travel-agency-api/src/routes/reviews.ts:107-134 | 401 without a user; 500 for a non-ObjectId; 404 for an absent review; 403 when another user owns it; none of these change the store; otherwise 200, with exactly that review removed |
| Reviews.DeleteRemovesOnlyTarget | travel-agency-api/src/routes/reviews.ts:128 | after the delete, the review is gone, every other review remains, and the count drops by one exactly when it existed |
| Favorites.AddToSetAsWritten | travel-agency-api/src/routes/favorites.ts:47-51 | as written, `$addToSet` applies only if `favoritedHotels` is a declared path; otherwise the user is unchanged |
| Favorites.PullAsWritten | travel-agency-api/src/routes/favorites.ts:76-80 | as written, `$pull` applies only if `favoritedHotels` is a declared path; otherwise the user is unchanged |
| Favorites.GetFavoritesAsWritten | travel-agency-api/src/routes/favorites.ts:9-28 | as written: 401 without a session user, 404 for an absent user; for an existing user 500 when Mongoose's `strictPopulate` refuses the undeclared path, else 200 |
| Favorites.AddFavoriteAsWritten | travel-agency-api/src/routes/favorites.ts:31-63 | as written: 400, then 500 for a non-ObjectId, then 404 for an absent hotel or user; for an existing user and hotel 500 under `strictPopulate`, else 200 |
| Favorites.RemoveFavoriteAsWritten | travel-agency-api/src/routes/favorites.ts:66-92 | as written: 400, then 404 for an absent user (a non-ObjectId id is no error, since the `$pull` is stripped); for an existing user 500 under `strictPopulate`, else 200 |
| Favorites.AsWrittenFavoritesFail | travel-agency-api/src/routes/favorites.ts:17-51 | as written, an existing user under `strictPopulate` gets 500 from all three routes, and the `$addToSet` leaves the user unchanged |
| Favorites.AsWrittenUpdatesAreDropped | travel-agency-api/src/models/user.model.ts:11-17 | with the schema as written both updates are dropped: an "added" hotel is not in an empty list, and a "removed" one is still there |
| Favorites.AddFavoriteTo | travel-agency-api/src/routes/favorites.ts:49 | with the path declared, the list gains the hotel, keeps every old entry and gains nothing else; no other field changes |
| Favorites.PullFavoriteFrom | travel-agency-api/src/routes/favorites.ts:78 | with the path declared, the hotel is gone, every other entry remains, and no other field changes |
| Favorites.AddFavoriteIn | travel-agency-api/src/routes/favorites.ts:47-51 | the update touches only the session user's document; every other user is unchanged |
| Favorites.PullFavoriteIn | travel-agency-api/src/routes/favorites.ts:76-80 | the update touches only the session user's document; every other user is unchanged |
| Favorites.AddFavoriteInSpec | travel-agency-api/src/routes/favorites.ts:47-51 | adding keeps the user collection valid, and the user found afterwards has the hotel in `favoritedHotels` |
| Favorites.PullFavoriteInSpec | travel-agency-api/src/routes/favorites.ts:76-80 | removing keeps the user collection valid, and the user found afterwards no longer has the hotel |
| Favorites.AddThenRemoveRestores | travel-agency-api/src/routes/favorites.ts:47-80 | adding a hotel that was not a favourite and removing it again restores the user |
| Favorites.AddFavoriteIdempotent | travel-agency-api/src/routes/favorites.ts:47-51 | adding twice equals adding once |
| Favorites.Populate | travel-agency-api/src/routes/favorites.ts:17-23 | `.populate('favoritedHotels')` returns only stored hotels whose ids are listed, and every listed id that exists |
| Favorites.DeletedHotelLeavesFavorites | travel-agency-api/src/controllers/localHotel.controller.ts:67 | after a local hotel is deleted, no populated list contains it and every other listed hotel is still shown |
| Favorites.GetFavorites | travel-agency-api/src/routes/favorites.ts:9-28 | 401 without a session user; 404 when the user record is absent; otherwise 200 with the user's populated list |
| Favorites.AddFavorite | travel-agency-api/src/routes/favorites.ts:31-63 | 400 when the user or a truthy `hotelId` is missing; 500 for a non-ObjectId; 404 when the hotel or the user is absent; none of these change the store; otherwise 200, with the hotel on that user's list |
| Favorites.RemoveFavorite | travel-agency-api/src/routes/favorites.ts:66-92 | 400 when the user or the id is missing; 404 when the user is absent; otherwise 200, with the hotel off that user's list; the hotel itself is never looked up |
| AuthController.SignUpCode | travel-agency-api/src/controllers/auth.controller.ts:6 | the configured code is the environment value when it is set and non-empty, else `agency2025` |
| AuthController.RoleFor | travel-agency-api/src/controllers/auth.controller.ts:16 | the role is `operator` exactly when the given sign-up code equals the configured one, else `user` |
| AuthController.Register | travel-agency-api/src/controllers/auth.controller.ts:8-26 | 400 "Email already registered" and no insert for a known email; 500 and no insert when the password is missing, the document is invalid or its id is taken; otherwise 201, with exactly one user holding the hashed password and the chosen role, and a token for `{userId, role}` |
| AuthController.Login | travel-agency-api/src/controllers/auth.controller.ts:28-43 | 400 "Invalid credentials" for an unknown email or a wrong password; 500 when the password is missing; otherwise 200 with a token for the stored user and its stored role; the store is only read |
| AuthController.UnknownEmailLooksLikeWrongPassword | travel-agency-api/src/controllers/auth.controller.ts:33-36 | an unknown email and a wrong password produce identical replies |
| AuthController.FindByEmailAppended | travel-agency-api/src/controllers/auth.controller.ts:12-32 | a user registered with a fresh email is the one `findOne({ email })` returns |
| AuthController.RegisterThenLogin | travel-agency-api/src/controllers/auth.controller.ts:18-39 | logging in right after sign-up, with the same email and password, succeeds with the role chosen at sign-up |
| AuthController.LoginTokenAuthenticates | travel-agency-api/src/controllers/auth.controller.ts:38 | if `verify` accepts what `sign` produces, the login token sent as `Bearer <token>` authenticates as that user and role |
| UserController.ProfileOf | travel-agency-api/src/controllers/user.controller.ts:12-17 | the profile is exactly email, username, avatar and role |
| UserController.SessionUser | travel-agency-api/src/controllers/user.controller.ts:7 | `findById(req.user?.userId)` finds nothing without a session user |
| UserController.GetProfile | travel-agency-api/src/controllers/user.controller.ts:5-22 | 404 when the user is absent, otherwise 200 with that user's profile |
| UserController.ProfileHidesPassword | travel-agency-api/src/controllers/user.controller.ts:7 | changing any stored password never changes a profile reply |
| UserController.IndexOfSameIds | travel-agency-api/src/controllers/user.controller.ts:7 | collections with the same ids at each position agree on where an id is |
| UserController.SetUsernameIn | travel-agency-api/src/controllers/user.controller.ts:33-37 | the update touches only the session user's document |
| UserController.SetAvatarIn | travel-agency-api/src/controllers/user.controller.ts:66-70 | the update touches only the session user's document |
| UserController.SetUsernameInSpec | travel-agency-api/src/controllers/user.controller.ts:33-37 | the update keeps the user collection valid and changes only `username` |
| UserController.SetAvatarInSpec | travel-agency-api/src/controllers/user.controller.ts:66-70 | the update keeps the user collection valid and changes only `avatarUrl` |
| UserController.UpdateUsername | travel-agency-api/src/controllers/user.controller.ts:25-54 | for the session user: 400 for a falsy username and 404 for an absent user, with nothing changed; otherwise 200, with only that user's username replaced, and the updated profile |
| UserController.UpdateAvatar | travel-agency-api/src/controllers/user.controller.ts:57-87 | for the session user: 400 without a file and 404 for an absent user, with nothing changed; otherwise 200, with that user's avatar set to `"/uploads/" + filename`, and the updated profile |
| UserController.UpdatedUsernameIsRead | travel-agency-api/src/controllers/user.controller.ts:33-49 | the next profile read shows the new username and the same email |
| BookingController.CreateBooking | travel-agency-api/src/controllers/booking.controller.ts:5-27 | 404 when `hotelId` is missing or names no local hotel; 500 for a non-ObjectId, a missing or bad `checkInDate`, or a taken id; none of these store anything; otherwise 201, with exactly one booking for the session user and that hotel appended and the existing bookings kept |
| BookingController.MyBookings | travel-agency-api/src/controllers/booking.controller.ts:33 | exactly the bookings whose `user` is the requester, each as often as it is stored |
| BookingController.MyBookingsInStorageOrder | travel-agency-api/src/controllers/booking.controller.ts:33 | the listing keeps storage order: the requester's bookings among earlier documents come before those among later ones |
| BookingController.MyBookingsExcludeOthers | travel-agency-api/src/controllers/booking.controller.ts:33 | another user's bookings never appear in the listing |
| BookingController.CreatedBookingListed | travel-agency-api/src/controllers/booking.controller.ts:16-33 | a created booking is listed last for its owner, after the earlier ones, which remain |
| LocalHotelController.GetLocalHotelById | travel-agency-api/src/controllers/localHotel.controller.ts:16-28 | 500 for a non-ObjectId; 404 exactly when no hotel has the id; otherwise 200 with the stored hotel of that id |
| LocalHotelController.CreateLocalHotel | travel-agency-api/src/controllers/localHotel.controller.ts:31-42 | 201 with exactly one hotel, holding the body fields and the uploaded filename, appended; 500 with nothing stored when the schema refuses it or its id is taken |
| LocalHotelController.PatchLocalHotel | travel-agency-api/src/controllers/localHotel.controller.ts:47-50 | each field given replaces the stored one and each one left out is kept; the image changes only for a truthy uploaded filename |
| LocalHotelController.EmptyPatchKeepsHotel | travel-agency-api/src/controllers/localHotel.controller.ts:47-52 | an update with no fields and no file leaves the hotel as it was |
| LocalHotelController.UpdateLocalHotel | travel-agency-api/src/controllers/localHotel.controller.ts:45-62 | 500 for a non-ObjectId and 404 for an absent id, with nothing changed; otherwise 200, with only that hotel patched, and the updated hotel |
| LocalHotelController.DeleteLocalHotel | travel-agency-api/src/controllers/localHotel.controller.ts:65-77 | 500 for a non-ObjectId and 404 for an absent id, with nothing changed; otherwise 200, with exactly that hotel removed and all others kept |
| HotelController.CreateHotel | travel-agency-api/src/controllers/hotel.controller.ts:13-27 | 400 with no insert when name, location or price is falsy (price 0 included); 500 with no insert for a taken id; otherwise 201, with exactly one valid hotel with a non-zero price appended |
| HotelController.PatchHotel | travel-agency-api/src/controllers/hotel.controller.ts:34-38 | each field given replaces the stored one and each one left out is kept |
| HotelController.FullPatchReplaces | travel-agency-api/src/controllers/hotel.controller.ts:34-38 | an update giving all four fields sets all four |
| HotelController.UpdateHotel | travel-agency-api/src/controllers/hotel.controller.ts:29-46 | 500 for a non-ObjectId and 404 for an absent id, with nothing changed; otherwise 200, with only that hotel patched, and the updated hotel |
| HotelController.DeleteHotel | travel-agency-api/src/controllers/hotel.controller.ts:48-59 | 500 for a non-ObjectId and 404 for an absent id, with nothing changed; otherwise 200, with exactly that hotel removed and all others kept |
| Upload.LastIndexOf | travel-agency-api/src/middlewares/upload.ts:28 | finds the last occurrence of a character, or nothing exactly when the character is absent |
| Upload.TrimTrailingSlashes | travel-agency-api/src/middlewares/upload.ts:28 | the result is a prefix ending in something other than `/`, and only slashes were cut |
| Upload.LastComponent | travel-agency-api/src/middlewares/upload.ts:28 | the base name is a suffix of the path with no `/` |
| Upload.Extname | travel-agency-api/src/middlewares/upload.ts:28 | `path.extname` is empty, or a suffix of the base name with one leading `.` and no other `.` or `/` |
| Upload.ExtensionOfBase | travel-agency-api/src/middlewares/upload.ts:28 | the text from the last `.` of a base name ends the path, starts with its only `.` and has no `/` |
| Upload.FileFilter | travel-agency-api/src/middlewares/upload.ts:26-34 | a file is accepted exactly when its lower-cased extension is `.jpg`, `.jpeg` or `.png`, and is otherwise rejected with the error |
| Upload.LowerKeepsPunctuation | travel-agency-api/src/middlewares/upload.ts:28 | lower-casing keeps the positions of `.` and `/` |
| Upload.NoPunctuationBeforeLowering | travel-agency-api/src/middlewares/upload.ts:28 | an extension whose lower-cased form has no `.` or `/` has none either |
| Upload.LowerAfterDot | travel-agency-api/src/middlewares/upload.ts:28 | lower-casing `.ext` gives `.` followed by the lower-cased `ext` |
| Upload.ExtnameOfSimpleName | travel-agency-api/src/middlewares/upload.ts:28 | the extension of `stem.ext` is `.ext` |
| Upload.ImageExtensionLetters | travel-agency-api/src/middlewares/upload.ts:29 | the accepted extensions are a dot followed by letters |
| Upload.AcceptsImageName | travel-agency-api/src/middlewares/upload.ts:28-30 | `stem.EXT` is accepted in any letter case for jpg, jpeg and png; `A.PNG` is one such name |
| Upload.RejectsNameWithoutDot | travel-agency-api/src/middlewares/upload.ts:31-33 | a name with no extension is rejected |
| Upload.RejectsDotfile | travel-agency-api/src/middlewares/upload.ts:28-33 | a dotfile such as `.png` has no extension and is rejected |
| Upload.StoredFilename | travel-agency-api/src/middlewares/upload.ts:17-21 | the stored name starts with the timestamp's digits and `-`, and ends with the original name |
| Upload.FirstIndexOf | travel-agency-api/src/middlewares/upload.ts:19 | finds the first occurrence of a character, or nothing exactly when it is absent |
| Upload.StoredFilenameRoundTrip | travel-agency-api/src/middlewares/upload.ts:19 | a stored name determines both the timestamp and the original name |
| HotelApi.ArrayLength | travel-agency-api/src/controllers/hotelApi.controller.ts:37-41 | `Array.from({ length: n })` has n entries, and none for a negative n |
| HotelApi.Paxes | travel-agency-api/src/controllers/hotelApi.controller.ts:36-45 | `paxes` has adults + children entries: first `{AD, 30}` per adult, then `{CH, 8}` per child |
| HotelApi.AvailabilityBody | travel-agency-api/src/controllers/hotelApi.controller.ts:21-65 | the body carries the query's destination and dates, or their defaults, and exactly one occupancy with the parsed counts and their paxes |
| HotelApi.DefaultSearch | travel-agency-api/src/controllers/hotelApi.controller.ts:21-28 | an empty query searches PMI from 2025-07-01 to 2025-07-03, for 2 adults, 0 children and 1 room |
| HotelApi.CountOf | travel-agency-api/src/controllers/hotelApi.controller.ts:36-45 | a count of guests of one type never exceeds the list length |
| HotelApi.CountUniform | travel-agency-api/src/controllers/hotelApi.controller.ts:36-45 | when all guests have the type, the count is the length; when none has it, the count is 0 |
| HotelApi.CountAppend | travel-agency-api/src/controllers/hotelApi.controller.ts:36-45 | counts add over concatenation |
| HotelApi.PaxesMatchCounts | travel-agency-api/src/controllers/hotelApi.controller.ts:36-61 | the occupancy lists exactly `adults` guests of type AD and `children` of type CH |
| HotelApi.HotelDetails | travel-agency-api/src/controllers/hotelApi.controller.ts:85-100 | 400 with no outbound call unless `hotelId` is a non-empty string; otherwise the content-API URL for that hotel is fetched |

## Left out

- I/O is not modelled: the HTTP transport, multer's disk storage, `fs.mkdirSync`, the Hotelbeds
  and Aviationstack calls with their SHA-256 signature, logging, and the JSON messages beyond
  status, token and role.
- Crypto and time are parameters: bcrypt salting (the hash is a deterministic function), JWT
  expiry and the JWT secret, and `Date.now()`.
- `.populate(...)` is modelled only for favourites. The review and booking listings return
  the stored records. The booking schema's `hotel` refs `Hotel`, although bookings are made
  for local hotels; this only matters for `populate`, which is not modelled there.
- Concurrency between requests is not modelled. Each handler runs as one atomic step on the
  store.
- The session user's `userId` is taken to be an ObjectId string, since it was signed at
  login. So a failed cast of `req.user.userId` is not modelled in any handler that queries
  by it: `Reviews.Create`, `Reviews.MyReviews`, `Reviews.Delete`, the favourites handlers,
  `BookingController.CreateBooking`, `BookingController.MyBookings` and the profile handlers.
- ObjectIds are compared as the strings they were parsed from, so two spellings of one id
  (hex letter case) are treated as different.
- AuthController.Register: the email is a string, so a request with no email at all is not
  modelled.
- AuthController.Login: the email is a string, so a request with no email at all is not
  modelled.
- Reviews.Create: the rating is an integer. A fractional rating, and numeric fields sent as
  text and cast by `Number()`, are not modelled.
- HotelController.CreateHotel: prices are integers. A price sent as text or as a fraction is
  not modelled.
- LocalHotelController.CreateLocalHotel: prices are integers, so form-encoded prices with
  fractions are not modelled.
- LocalHotelController.UpdateLocalHotel: prices are integers. A price that does not cast to a
  number (the update's cast error, answered 500) and a fractional price (stored as given) are
  not modelled.
- HotelController.UpdateHotel: prices are integers. A price that does not cast to a number
  (the update's cast error, answered 500) and a fractional price (stored as given) are not
  modelled.
- HotelApi.AvailabilityBody: the counts are the integers `Number()` yields. Text that gives
  `NaN` is not modelled; `Array.from({ length: NaN })` is `[]` and the body then carries
  `adults: null` (JSON of `NaN`). A fraction is not modelled either; its length is truncated
  while the body carries the fraction. A count above 2^32 - 1 makes `Array.from` throw a
  `RangeError`, answered 500, which the unbounded integers do not model. The query fields
  are single strings, so a repeated key is not modelled. With `?checkIn=a&checkIn=b` the
  array reaches the body as it is; with `?adults=1&adults=2`, `Number()` of the array gives
  `NaN`.
- Text.Lower: lower-casing covers ASCII letters only.
- BookingController.CreateBooking: the session user is always present. The route sits behind
  the identity middleware, so a missing user is not modelled.
- BookingController.MyBookings: the session user is always present. The route sits behind
  the identity middleware, so a missing user is not modelled.
- UserController.UpdateUsername: the session user is always present. The route sits behind
  the identity middleware (`routes/user.routes.ts:9`), so a missing user, for which
  `findByIdAndUpdate(undefined, …)` would match any user, is not modelled.
- UserController.UpdateAvatar: the session user is always present. The route sits behind
  the identity middleware (`routes/user.routes.ts:10`), so a missing user, for which
  `findByIdAndUpdate(undefined, …)` would match any user, is not modelled.
- `routes/booking.routes.ts` imports a `deleteBooking` that the controller does not define, so
  there is no booking delete to model.
- Bookings have no check-out date, no stay length and no delete handler in the code, so the
  model has none. `Reviews.Delete` answers 403 for another user's review
  (`routes/reviews.ts:123-126`).
- Schema validation failures on `save()` are answered 500, as the handlers' `catch` blocks do.
  Examples are an unknown `hotelSource` or a comment over 1000 UTF-16 code units.
- The `express-validator` chains in `routes/auth.routes.ts` are never checked with
  `validationResult`, so they have no effect and are not modelled.
- The hotel and local-hotel routes carry no identity or operator middleware, exactly as wired,
  so their handlers take no session user.
- Wiring files and services are not modelled: `app.ts`, the other `routes/*.routes.ts` files,
  `routes/hotelRoutes.ts`, `src/user.model.ts`, `utils/cityCodeMap.ts`, the flight and
  Hotelbeds services and controllers, and `utils/jwt.ts`.

## Findings

| source | as written | input that shows it | evidently intended | confidence | as-written member | corrected member |
|---|---|---|---|---|---|---|
| travel-agency-api/src/routes/favorites.ts:47-51 | The user schema declares no `favoritedHotels` path. Strict mode strips `$addToSet` and `$pull` on it, and `strictPopulate` (Mongoose's default from version 6) makes `.populate('favoritedHotels')` throw. GET, POST and DELETE then answer 500 for an existing user; without `strictPopulate` they answer 200 and change nothing. | An existing user posts the id of an existing local hotel. The answer is 500 (or 200 "added" with the list still empty). | The path is declared as a list of local-hotel ObjectIds. POST adds the id once, DELETE removes it, and all three answer 200 with the populated list. | not executed; high (strict mode and `strictPopulate` are Mongoose's defaults) | Favorites.AsWrittenFavoritesFail | Favorites.AddFavoriteInSpec |
