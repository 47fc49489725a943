/** The user directory and login bridge (`MddUserService`): lookups by id,
    username and email, registration with a duplicate-email check, full
    profile update, deletion, and the translation of a stored user into an
    authentication principal. */
module UserDirectory {
  import opened Outcomes
  import opened Database

  const UserDeleted := "User deleted"

  /** The authentication principal handed to the security layer: login name,
      stored credential and granted authorities. */
  datatype Principal = Principal(username: string, password: string, authorities: seq<string>)

  /** Every stored user, each exactly once; empty only for an empty table. */
  function FindAllUsers(st: Store): (r: set<User>)
    ensures forall k :: k in st.users ==> st.users[k] in r
    ensures forall u :: u in r ==> u.id.Some? && u.id.value in st.users && st.users[u.id.value] == u
    ensures r == {} <==> st.users == map[]
  {
    set k | k in st.users :: st.users[k]
  }

  /** The stored user with key `id`, or NotFound (a null id throws inside
      the try and is rethrown as NotFound too). */
  function FindUserById(st: Store, id: Option<UserId>): (r: Result<User>)
    ensures r.Ok? <==> id.Some? && id.value in st.users
    ensures r.Ok? ==> r.value == st.users[id.value] && r.value.id == id
    ensures r.Err? ==> r.error == NotFound
  {
    match id
    case Some(k) => if k in st.users then Ok(st.users[k]) else Err(NotFound)
    case None => Err(NotFound)
  }

  /** The finder result of `key` inside the try of a find operation: every
      failure, including several matching rows, surfaces as NotFound. */
  function FindUnique(st: Store, key: Key): (r: Result<User>)
    ensures r.Ok? ==>
      && r.value.id.Some? && r.value.id.value in st.users
      && st.users[r.value.id.value] == r.value && Has(r.value, key)
    ensures r.Ok? ==> forall k :: k in st.users && Has(st.users[k], key) ==> st.users[k] == r.value
    ensures r.Err? ==> r.error == NotFound
    ensures r.Err? ==>
      || (forall k :: k in st.users ==> !Has(st.users[k], key))
      || (exists a, b :: a in st.users && b in st.users && a != b && Has(st.users[a], key) && Has(st.users[b], key))
  {
    match Lookup(st, key)
    case Unique(u) => Ok(u)
    case _ => Err(NotFound)
  }

  /** The sole stored user with this username, or NotFound when there is none
      or when several share it (usernames are never checked for uniqueness). */
  function FindUserByUsername(st: Store, name: string): (r: Result<User>)
    ensures r.Ok? ==>
      && r.value.username == name && r.value.id.Some? && r.value.id.value in st.users
      && st.users[r.value.id.value] == r.value
    ensures r.Ok? ==> forall k :: k in st.users && st.users[k].username == name ==> st.users[k] == r.value
    ensures r.Err? ==> r.error == NotFound
    ensures r.Err? ==>
      || (forall k :: k in st.users ==> st.users[k].username != name)
      || (exists a, b :: a in st.users && b in st.users && a != b && st.users[a].username == name && st.users[b].username == name)
  {
    FindUnique(st, ByUsername(name))
  }

  /** The sole stored user with this email, or NotFound. */
  function FindUserByEmail(st: Store, mail: string): (r: Result<User>)
    ensures r.Ok? ==>
      && r.value.email == mail && r.value.id.Some? && r.value.id.value in st.users
      && st.users[r.value.id.value] == r.value
    ensures r.Ok? ==> forall k :: k in st.users && st.users[k].email == mail ==> st.users[k] == r.value
    ensures r.Err? ==> r.error == NotFound
    ensures r.Err? ==>
      || (forall k :: k in st.users ==> st.users[k].email != mail)
      || (exists a, b :: a in st.users && b in st.users && a != b && st.users[a].email == mail && st.users[b].email == mail)
  {
    FindUnique(st, ByEmail(mail))
  }

  /** Registration. The email check runs before the try: one holder gives
      BadRequest, several holders make the finder itself throw. On success
      the client id is discarded, the user is saved under the next generated
      id, and the two timestamps come from two separate clock reads. */
  function CreateUser(st: Store, user: User, createdAt: Time, updatedAt: Time): (r: Reply<User>)
    ensures r.out.Err? ==> r.after == st
    ensures r.out.Err? <==> exists k :: k in st.users && st.users[k].email == user.email
    ensures r.out.Err? ==>
      (r.out.error == DataAccess <==>
        exists a, b :: a in st.users && b in st.users && a != b && st.users[a].email == user.email && st.users[b].email == user.email)
    ensures r.out.Err? ==> r.out.error in {BadRequest, DataAccess}
    ensures r.out.Ok? ==>
      && r.out.value.id.Some? && r.out.value.id.value !in st.users
      && r.after.users == st.users[r.out.value.id.value := r.out.value]
      && r.after.topics == st.topics
    ensures r.out.Ok? ==>
      && r.out.value.username == user.username && r.out.value.email == user.email
      && r.out.value.password == user.password
      && r.out.value.posts == user.posts && r.out.value.comments == user.comments
      && r.out.value.createdAt == Some(createdAt) && r.out.value.updatedAt == Some(updatedAt)
    ensures r.out.Ok? ==> r.after.nextUserId == r.out.value.id.value + 1
    ensures r.after.nextTopicId == st.nextTopicId
    ensures UniqueEmails(st) ==> UniqueEmails(r.after)
  {
    match Lookup(st, ByEmail(user.email))
    case Unique(_) => Reply(Err(BadRequest), st)
    case Ambiguous => Reply(Err(DataAccess), st)
    case Absent =>
      var id := st.nextUserId;
      var saved := user.(id := Some(id), createdAt := Some(createdAt), updatedAt := Some(updatedAt));
      Reply(Ok(saved), Db(st.users[id := saved], st.topics, id + 1, st.nextTopicId))
  }

  /** Profile update: the stored user with the incoming id gets the incoming
      username, email, password, comments and posts; id and both timestamps
      are kept. Nothing is checked for uniqueness. A null or unknown id throws
      NotFound inside the try, which is rethrown as BadRequest. */
  function UpdateUser(st: Store, user: User): (r: Reply<User>)
    ensures r.out.Err? <==> user.id.None? || user.id.value !in st.users
    ensures r.out.Err? ==> r.out.error == BadRequest && r.after == st
    ensures r.out.Ok? ==>
      && r.after.users == st.users[user.id.value := r.out.value]
      && r.after.topics == st.topics
      && r.after.nextUserId == st.nextUserId && r.after.nextTopicId == st.nextTopicId
    ensures r.out.Ok? ==>
      r.out.value == user.(createdAt := st.users[user.id.value].createdAt,
                           updatedAt := st.users[user.id.value].updatedAt)
  {
    match user.id
    case None => Reply(Err(BadRequest), st)
    case Some(k) =>
      if k !in st.users then
        Reply(Err(BadRequest), st)
      else
        var existing := st.users[k];
        var updated := existing.(username := user.username, email := user.email,
                                 password := user.password, comments := user.comments,
                                 posts := user.posts);
        Reply(Ok(updated), st.(users := st.users[k := updated]))
  }

  /** Deletion by id; a null or unknown id gives BadRequest. */
  function DeleteUser(st: Store, id: Option<UserId>): (r: Reply<string>)
    ensures r.out.Err? <==> id.None? || id.value !in st.users
    ensures r.out.Err? ==> r.out.error == BadRequest && r.after == st
    ensures r.out.Ok? ==>
      && r.out.value == UserDeleted
      && r.after.users.Keys == st.users.Keys - {id.value}
      && (forall k :: k in r.after.users ==> r.after.users[k] == st.users[k])
      && r.after.topics == st.topics
    ensures r.after.nextUserId == st.nextUserId && r.after.nextTopicId == st.nextTopicId
    ensures UniqueEmails(st) ==> UniqueEmails(r.after)
  {
    if id.None? || id.value !in st.users then
      Reply(Err(BadRequest), st)
    else
      Reply(Ok(UserDeleted), st.(users := st.users - {id.value}))
  }

  /** The login bridge: the login name is looked up as an email, outside any
      try. No holder gives UsernameNotFound, several holders (and only
      several) make the finder throw DataAccess; the sole holder becomes a principal of its email and password
      with no authorities, unless that email is empty, which the principal
      constructor rejects with an exception. */
  function LoadUserByUsername(st: Store, mail: string): (r: Result<Principal>)
    ensures r.Ok? ==>
      exists k :: k in st.users && st.users[k].email == mail &&
        r.value == Principal(mail, st.users[k].password, [])
    ensures r.Ok? ==> r.value.authorities == [] && mail != ""
    ensures r.Err? ==> r.error in {UsernameNotFound, DataAccess, EmptyPrincipal}
    ensures r.Err? && r.error == UsernameNotFound <==> forall k :: k in st.users ==> st.users[k].email != mail
    ensures r.Err? && r.error == EmptyPrincipal ==> mail == "" && exists k :: k in st.users && st.users[k].email == mail
    ensures r == Err(DataAccess) <==>
      exists a, b :: a in st.users && b in st.users && a != b && st.users[a].email == mail && st.users[b].email == mail
    ensures (exists k :: k in st.users && st.users[k].email == mail &&
               forall j :: j in st.users && st.users[j].email == mail ==> j == k) ==>
      if mail == "" then r == Err(EmptyPrincipal) else r.Ok?
    ensures UniqueEmails(st) && (exists k :: k in st.users && st.users[k].email == mail) ==>
      if mail == "" then r == Err(EmptyPrincipal) else r.Ok?
  {
    match Lookup(st, ByEmail(mail))
    case Absent => Err(UsernameNotFound)
    case Ambiguous => Err(DataAccess)
    case Unique(u) =>
      if u.email == "" then Err(EmptyPrincipal) else Ok(Principal(u.email, u.password, []))
  }

  /** Register then log in: a successful registration with a non-empty email
      makes that email resolve to a principal of the email and password; with
      the empty email the login is rejected by the principal constructor. */
  lemma CreateThenLoad(st: Store, user: User, createdAt: Time, updatedAt: Time)
    ensures var r := CreateUser(st, user, createdAt, updatedAt);
            r.out.Ok? ==>
              LoadUserByUsername(r.after, user.email) ==
                (if user.email == "" then Err(EmptyPrincipal) else Ok(Principal(user.email, user.password, [])))
  {
    var r := CreateUser(st, user, createdAt, updatedAt);
    if r.out.Ok? {
      var id := r.out.value.id.value;
      assert forall j :: j in r.after.users && r.after.users[j].email == user.email ==> j == id;
      assert Lookup(r.after, ByEmail(user.email)) == Unique(r.out.value);
    }
  }

  /** Register then look up: the new user is found under its new id and by
      its email, exactly as saved. */
  lemma CreateThenFind(st: Store, user: User, createdAt: Time, updatedAt: Time)
    ensures var r := CreateUser(st, user, createdAt, updatedAt);
            r.out.Ok? ==>
              && FindUserById(r.after, r.out.value.id) == Ok(r.out.value)
              && FindUserByEmail(r.after, user.email) == Ok(r.out.value)
  {
  }

  /** The id a client sends with a registration has no effect. */
  lemma CreateIgnoresClientId(st: Store, user: User, clientId: Option<UserId>, createdAt: Time, updatedAt: Time)
    ensures CreateUser(st, user.(id := clientId), createdAt, updatedAt) == CreateUser(st, user, createdAt, updatedAt)
  {
  }

  /** The login bridge and the email finder agree: the principal is built
      from the user the finder returns (the empty email excepted, which the
      principal constructor rejects), and the bridge fails with a lookup
      error exactly when the finder fails. */
  lemma LoadAgreesWithFindByEmail(st: Store, mail: string)
    ensures var f := FindUserByEmail(st, mail);
            f.Ok? ==>
              LoadUserByUsername(st, mail) ==
                (if mail == "" then Err(EmptyPrincipal) else Ok(Principal(f.value.email, f.value.password, [])))
    ensures var l := LoadUserByUsername(st, mail);
            FindUserByEmail(st, mail).Err? <==> l.Err? && l.error != EmptyPrincipal
  {
  }

  /** Update then look up: the id finds the updated user; updating again with
      the same input changes nothing more. */
  lemma UpdateThenFind(st: Store, user: User)
    ensures var r := UpdateUser(st, user);
            r.out.Ok? ==>
              && FindUserById(r.after, user.id) == Ok(r.out.value)
              && UpdateUser(r.after, user) == r
  {
  }

  /** Delete then look up: the id is no longer found, and deleting it again
      gives BadRequest without changing the store. */
  lemma DeleteThenFind(st: Store, id: Option<UserId>)
    ensures var r := DeleteUser(st, id);
            r.out.Ok? ==>
              && FindUserById(r.after, id) == Err(NotFound)
              && DeleteUser(r.after, id) == Reply(Err(BadRequest), r.after)
  {
  }
}
