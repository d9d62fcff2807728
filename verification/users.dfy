/** The `User` collection: documents with a required, unique `email`, an
    optional `name` and `picture`, a `provider` that defaults to "google" and a
    `createdAt` that defaults to the creation time (backend/src/models/User.ts).
    The unique index on `email` is kept as an explicit map from email to id. */
module Users {
  import opened Wrappers

  /** A document id (`_id`); fresh ids are drawn from a counter. */
  type UserId = nat

  const DefaultProvider: string := "google"

  datatype User = User(
    id: UserId,
    email: string,
    name: Option<string>,
    picture: Option<string>,
    provider: string,
    createdAt: nat)

  /** The collection: documents by id, the unique email index, and the next
      fresh id. */
  datatype Store = Store(byId: map<UserId, User>, byEmail: map<string, UserId>, nextId: UserId)

  /** Why `User.create` rejects a document: the `required` validator refuses a
      missing or empty email, and the unique index refuses a second document
      with the same email. */
  datatype CreateError = EmailRequired | DuplicateEmail

  const EmptyStore: Store := Store(map[], map[], 0)

  /** The store invariant: ids match their keys and are below the counter,
      every email is non-empty, and the email index maps each email to the
      one document that holds it. */
  predicate Valid(s: Store) {
    && (forall id :: id in s.byId ==>
          && s.byId[id].id == id
          && id < s.nextId
          && s.byId[id].email != ""
          && s.byId[id].email in s.byEmail
          && s.byEmail[s.byId[id].email] == id)
    && (forall e :: e in s.byEmail ==> s.byEmail[e] in s.byId && s.byId[s.byEmail[e]].email == e)
  }

  /** At most one user per email. */
  lemma UniqueEmails(s: Store, a: UserId, b: UserId)
    requires Valid(s)
    requires a in s.byId && b in s.byId
    requires s.byId[a].email == s.byId[b].email
    ensures a == b
  {
  }

  /** `User.findOne({ email })`. */
  function FindByEmail(s: Store, email: string): (r: Option<User>)
    requires Valid(s)
    ensures r.Some? ==> r.value.id in s.byId && s.byId[r.value.id] == r.value && r.value.email == email
    ensures r.None? <==> forall id :: id in s.byId ==> s.byId[id].email != email
  {
    if email in s.byEmail then Some(s.byId[s.byEmail[email]]) else None
  }

  /** `User.findById(id)`. */
  function FindById(s: Store, id: UserId): (r: Option<User>)
    ensures r.Some? <==> id in s.byId
    ensures r.Some? ==> r.value == s.byId[id]
  {
    if id in s.byId then Some(s.byId[id]) else None
  }

  /** `User.create({...})`: fields left out take their schema defaults. */
  function Create(s: Store, email: string, name: Option<string>, picture: Option<string>,
                  provider: Option<string>, createdAt: Option<nat>, now: nat)
    : (r: Result<(Store, User), CreateError>)
    requires Valid(s)
    ensures r.Failure? && r.error == EmailRequired <==> email == ""
    ensures r.Failure? && r.error == DuplicateEmail <==>
              email != "" && exists id :: id in s.byId && s.byId[id].email == email
    ensures r.Success? ==>
              var (s', u) := r.value;
              && Valid(s')
              && u.id !in s.byId
              && s'.byId == s.byId[u.id := u]
              && u.email == email && u.name == name && u.picture == picture
              && (provider.None? ==> u.provider == DefaultProvider)
              && (provider.Some? ==> u.provider == provider.value)
              && (createdAt.None? ==> u.createdAt == now)
              && (createdAt.Some? ==> u.createdAt == createdAt.value)
  {
    if email == "" then Failure(EmailRequired)
    else if email in s.byEmail then Failure(DuplicateEmail)
    else
      var u := User(s.nextId, email, name, picture, provider.GetOr(DefaultProvider), createdAt.GetOr(now));
      Success((Store(s.byId[u.id := u], s.byEmail[email := u.id], s.nextId + 1), u))
  }

  /** `user.name = name; await user.save()`: only the name of one document
      changes. */
  function SetName(s: Store, id: UserId, name: string): (s': Store)
    requires Valid(s) && id in s.byId
    ensures Valid(s')
    ensures s'.byId.Keys == s.byId.Keys
    ensures s'.byId[id] == s.byId[id].(name := Some(name))
    ensures forall other :: other in s.byId && other != id ==> s'.byId[other] == s.byId[other]
  {
    s.(byId := s.byId[id := s.byId[id].(name := Some(name))])
  }
}
