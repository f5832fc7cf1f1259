/** The user schema of `models/user.model.ts`. */
module UserModel {
  import opened Wrappers
  import opened Documents

  /** The `role` enum: `'user'` or `'operator'`. */
  datatype Role = UserRole | OperatorRole

  /**
   * A stored user. `favoritedHotels` is the list `routes/favorites.ts` updates; the
   * schema itself does not declare it (see `DeclaredPaths`).
   */
  datatype User = User(
    email: string,
    password: string,
    role: Role,
    username: string,
    avatarUrl: string,
    favoritedHotels: seq<Id>)

  /** The paths the schema declares. */
  const DeclaredPaths: set<string> := {"email", "password", "role", "username", "avatarUrl"}

  /** The path `routes/favorites.ts` reads and updates. */
  const FavoritesPath: string := "favoritedHotels"

  /** `new User({ email, password, role })`: the paths not given take the schema defaults. */
  function NewUser(email: string, password: string, role: Option<Role>): (u: User)
    ensures u.email == email && u.password == password
    ensures role.Some? ==> u.role == role.value
    ensures role.None? ==> u.role == UserRole
    ensures u.username == "" && u.avatarUrl == "" && u.favoritedHotels == []
  {
    User(email, password, GetOr(role, UserRole), "", "", [])
  }

  /** The `required` validators: Mongoose refuses a missing or empty required string. */
  predicate Valid(u: User) {
    u.email != "" && u.password != ""
  }

  /** The unique index on `email`. */
  ghost predicate EmailsUnique(users: seq<Doc<User>>) {
    forall i, j :: 0 <= i < j < |users| ==> users[i].body.email != users[j].body.email
  }

  /** What the schema and its indexes guarantee of the user collection. */
  ghost predicate StoreValid(users: seq<Doc<User>>) {
    && UniqueIds(users)
    && (forall i :: 0 <= i < |users| ==> Valid(users[i].body))
    && EmailsUnique(users)
  }

  /** `User.findOne({ email })`: the first user in natural order with that email. */
  function FindByEmail(users: seq<Doc<User>>, email: string): (r: Option<Doc<User>>)
    ensures r.Some? ==> r.value in users && r.value.body.email == email
    ensures r.None? <==> forall d :: d in users ==> d.body.email != email
  {
    if |users| == 0 then None
    else if users[0].body.email == email then Some(users[0])
    else FindByEmail(users[1..], email)
  }

  /** Inserting a user with a new `_id` and a new email keeps the collection valid. */
  lemma AppendUser(users: seq<Doc<User>>, d: Doc<User>)
    requires StoreValid(users)
    requires FindById(users, d.id).None?
    requires FindByEmail(users, d.body.email).None?
    requires Valid(d.body)
    ensures StoreValid(users + [d])
  {
    AppendFresh(users, d);
    var t := users + [d];
    forall i, j | 0 <= i < j < |t| ensures t[i].body.email != t[j].body.email {
      if j == |users| { assert t[i] in users; }
    }
  }

  /**
   * Changing fields of one user other than `email` and `password` keeps the
   * collection valid.
   */
  lemma UpdateUser(users: seq<Doc<User>>, id: Id, f: User -> User)
    requires StoreValid(users)
    requires forall u :: f(u).email == u.email && f(u).password == u.password
    ensures StoreValid(UpdateById(users, id, f))
  {
    var r := UpdateById(users, id, f);
    forall i | 0 <= i < |r| ensures Valid(r[i].body) && r[i].body.email == users[i].body.email {
    }
  }
}
