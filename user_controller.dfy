/**
 * `controllers/user.controller.ts`: the session user's profile, and the two updates
 * of it (username and avatar). In `getProfile` a missing session user reaches
 * `findById(undefined)`, which finds nothing, so it is answered 404 like a deleted
 * user. The two updates sit behind the identity middleware on every route that
 * reaches them, so they always have a session user.
 */
module UserController {
  import opened Wrappers
  import opened Text
  import opened Documents
  import opened UserModel
  import opened AuthMiddleware
  import Database

  const UploadsPrefix: string := "/uploads/"

  /** The JSON a profile answer carries: everything but the password and favourites. */
  datatype Profile = Profile(email: string, username: string, avatarUrl: string, role: Role)

  /** A status with the profile sent with it, if any. */
  datatype ProfileReply = ProfileReply(status: int, profile: Option<Profile>)

  /** `.select('-password')` followed by the four fields the handlers send. */
  function ProfileOf(u: User): (p: Profile)
    ensures p.email == u.email && p.username == u.username
    ensures p.avatarUrl == u.avatarUrl && p.role == u.role
  {
    Profile(u.email, u.username, u.avatarUrl, u.role)
  }

  /** The stored user the session names, if any. */
  function SessionUser(users: seq<Doc<User>>, user: Option<AuthPayload>): (r: Option<Doc<User>>)
    ensures user.None? ==> r.None?
    ensures user.Some? ==> r == FindById(users, user.value.userId)
  {
    if user.None? then None else FindById(users, user.value.userId)
  }

  /** `getProfile`: 404 when there is no such user, otherwise 200 and its profile. */
  function GetProfile(users: seq<Doc<User>>, user: Option<AuthPayload>): (r: ProfileReply)
    ensures r.status == 404 <==> SessionUser(users, user).None?
    ensures r.status == 404 ==> r.profile.None?
    ensures r.status == 200 <==> SessionUser(users, user).Some?
    ensures r.status == 200 ==> r.profile == Some(ProfileOf(SessionUser(users, user).value.body))
  {
    match SessionUser(users, user)
    case None => ProfileReply(404, None)
    case Some(d) => ProfileReply(200, Some(ProfileOf(d.body)))
  }

  /** The profile answer never depends on the stored password. */
  lemma ProfileHidesPassword(users: seq<Doc<User>>, i: nat, other: string, user: Option<AuthPayload>)
    requires i < |users|
    ensures var changed := users[i := Doc(users[i].id, users[i].body.(password := other))];
      GetProfile(changed, user) == GetProfile(users, user)
  {
    var changed := users[i := Doc(users[i].id, users[i].body.(password := other))];
    if user.Some? {
      var id := user.value.userId;
      assert forall k :: 0 <= k < |users| ==> changed[k].id == users[k].id;
      assert IndexOf(changed, id) == IndexOf(users, id) by {
        IndexOfSameIds(changed, users, id);
      }
    }
  }

  /** Collections with the same ids position by position agree on `IndexOf`. */
  lemma {:induction false} IndexOfSameIds<T, U>(a: seq<Doc<T>>, b: seq<Doc<U>>, id: Id)
    requires |a| == |b|
    requires forall k :: 0 <= k < |a| ==> a[k].id == b[k].id
    ensures IndexOf(a, id) == IndexOf(b, id)
  {
    if |a| > 0 && a[0].id != id {
      IndexOfSameIds(a[1..], b[1..], id);
    }
  }

  /** `findByIdAndUpdate(userId, { username })` on the collection. */
  function SetUsernameIn(users: seq<Doc<User>>, userId: Id, username: string): (r: seq<Doc<User>>)
    ensures |r| == |users|
    ensures forall k :: 0 <= k < |users| ==> r[k].id == users[k].id
    ensures forall k :: 0 <= k < |users| && users[k].id != userId ==> r[k] == users[k]
  {
    UpdateById(users, userId, (u: User) => u.(username := username))
  }

  /** `findByIdAndUpdate(userId, { avatarUrl })` on the collection. */
  function SetAvatarIn(users: seq<Doc<User>>, userId: Id, avatarUrl: string): (r: seq<Doc<User>>)
    ensures |r| == |users|
    ensures forall k :: 0 <= k < |users| ==> r[k].id == users[k].id
    ensures forall k :: 0 <= k < |users| && users[k].id != userId ==> r[k] == users[k]
  {
    UpdateById(users, userId, (u: User) => u.(avatarUrl := avatarUrl))
  }

  /** Setting the username keeps the store valid and changes only that user's username. */
  lemma SetUsernameInSpec(users: seq<Doc<User>>, userId: Id, username: string)
    requires StoreValid(users)
    requires FindById(users, userId).Some?
    ensures StoreValid(SetUsernameIn(users, userId, username))
    ensures FindById(SetUsernameIn(users, userId, username), userId)
      == Some(Doc(userId, FindById(users, userId).value.body.(username := username)))
  {
    UpdateUser(users, userId, (u: User) => u.(username := username));
    UpdateByIdFinds(users, userId, (u: User) => u.(username := username));
  }

  /** Setting the avatar keeps the store valid and changes only that user's avatar. */
  lemma SetAvatarInSpec(users: seq<Doc<User>>, userId: Id, avatarUrl: string)
    requires StoreValid(users)
    requires FindById(users, userId).Some?
    ensures StoreValid(SetAvatarIn(users, userId, avatarUrl))
    ensures FindById(SetAvatarIn(users, userId, avatarUrl), userId)
      == Some(Doc(userId, FindById(users, userId).value.body.(avatarUrl := avatarUrl)))
  {
    UpdateUser(users, userId, (u: User) => u.(avatarUrl := avatarUrl));
    UpdateByIdFinds(users, userId, (u: User) => u.(avatarUrl := avatarUrl));
  }

  /**
   * `updateUsername`. 400 for a falsy username and 404 for a missing user, with the
   * store unchanged; otherwise the username is replaced and the answer is 200 with
   * the updated profile.
   */
  method UpdateUsername(db: Database.Store, user: AuthPayload, username: Option<string>)
    returns (reply: ProfileReply)
    requires db.Valid()
    modifies db`users
    ensures db.Valid()
    ensures reply.status == 400 <==> !Truthy(username)
    ensures reply.status == 404 <==> Truthy(username) && FindById(old(db.users), user.userId).None?
    ensures reply.status == 200 <==> Truthy(username) && FindById(old(db.users), user.userId).Some?
    ensures reply.status == 200 ==>
      && db.users == SetUsernameIn(old(db.users), user.userId, username.value)
      && reply.profile == Some(ProfileOf(FindById(old(db.users), user.userId).value.body.(username := username.value)))
    ensures reply.status != 200 ==> db.users == old(db.users) && reply.profile.None?
  {
    if !Truthy(username) {
      return ProfileReply(400, None);
    }
    var d := FindById(db.users, user.userId);
    if d.None? {
      return ProfileReply(404, None);
    }
    var userId := user.userId;
    SetUsernameInSpec(db.users, userId, username.value);
    db.users := SetUsernameIn(db.users, userId, username.value);
    reply := ProfileReply(200, Some(ProfileOf(FindById(db.users, userId).value.body)));
  }

  /**
   * `updateAvatar`. 400 when no file was accepted and 404 for a missing user, with the
   * store unchanged; otherwise the avatar becomes `/uploads/<stored filename>` and the
   * answer is 200 with the updated profile.
   */
  method UpdateAvatar(db: Database.Store, user: AuthPayload, filename: Option<string>)
    returns (reply: ProfileReply)
    requires db.Valid()
    modifies db`users
    ensures db.Valid()
    ensures reply.status == 400 <==> filename.None?
    ensures reply.status == 404 <==> filename.Some? && FindById(old(db.users), user.userId).None?
    ensures reply.status == 200 <==> filename.Some? && FindById(old(db.users), user.userId).Some?
    ensures reply.status == 200 ==>
      && db.users == SetAvatarIn(old(db.users), user.userId, UploadsPrefix + filename.value)
      && reply.profile.Some? && reply.profile.value.avatarUrl == UploadsPrefix + filename.value
      && reply.profile == Some(ProfileOf(FindById(old(db.users), user.userId).value.body.(avatarUrl := UploadsPrefix + filename.value)))
    ensures reply.status != 200 ==> db.users == old(db.users) && reply.profile.None?
  {
    if filename.None? {
      return ProfileReply(400, None);
    }
    var d := FindById(db.users, user.userId);
    if d.None? {
      return ProfileReply(404, None);
    }
    var userId := user.userId;
    var avatarUrl := UploadsPrefix + filename.value;
    SetAvatarInSpec(db.users, userId, avatarUrl);
    db.users := SetAvatarIn(db.users, userId, avatarUrl);
    reply := ProfileReply(200, Some(ProfileOf(FindById(db.users, userId).value.body)));
  }

  /** A username update is what the next profile read shows. */
  lemma UpdatedUsernameIsRead(users: seq<Doc<User>>, user: AuthPayload, username: string)
    requires StoreValid(users)
    requires FindById(users, user.userId).Some?
    ensures var r := GetProfile(SetUsernameIn(users, user.userId, username), Some(user));
      r.status == 200 && r.profile.value.username == username
      && r.profile.value.email == FindById(users, user.userId).value.body.email
  {
    SetUsernameInSpec(users, user.userId, username);
  }
}
