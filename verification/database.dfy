/** The persistent state both services work on: the user table, the topic
    table (whose rows carry the membership join), and the identity sequence of
    each table. Every service operation is one atomic step on a `Store`. */
module Database {
  import opened Outcomes

  type UserId = int
  type TopicId = int
  /** An abstract timestamp, as read from the clock. */
  type Time = int
  /** Posts and comments are opaque: only their identities are carried. */
  type PostId = int
  type CommentId = int

  /** An `MddUser` entity. `id` and the timestamps are nullable references in
      the entity; an incoming request body may leave them unset. */
  datatype User = User(
    id: Option<UserId>,
    username: string,
    email: string,
    password: string,
    createdAt: Option<Time>,
    updatedAt: Option<Time>,
    posts: seq<PostId>,
    comments: seq<CommentId>)

  /** A `Topic` entity. `users` is the membership set of subscribed users,
      identified by id; it is null until the first subscription. */
  datatype Topic = Topic(id: Option<TopicId>, name: string, users: Option<set<UserId>>)

  /** The members of a topic, reading a null membership as empty. */
  function Members(t: Topic): (s: set<UserId>)
    ensures t.users.Some? ==> s == t.users.value
    ensures t.users.None? ==> s == {}
  {
    match t.users
    case None => {}
    case Some(m) => m
  }

  /** The two tables and the next value of each identity sequence. */
  datatype Db = Db(
    users: map<UserId, User>,
    topics: map<TopicId, Topic>,
    nextUserId: int,
    nextTopicId: int)
  {
    /** Every stored row carries its own key as id, and every key was handed
        out by the table's sequence. */
    predicate Valid() {
      && (forall k :: k in users ==> users[k].id == Some(k) && k < nextUserId)
      && (forall k :: k in topics ==> topics[k].id == Some(k) && k < nextTopicId)
    }
  }

  type Store = db: Db | db.Valid() witness Db(map[], map[], 1, 1)

  /** The empty database; generated ids start at 1. */
  const Empty: Store := Db(map[], map[], 1, 1)

  /** What a mutating operation produces: its outcome and the store after it. */
  datatype Reply<+T> = Reply(out: Result<T>, after: Store)

  /** No two stored users share an email. */
  predicate UniqueEmails(st: Store) {
    forall a, b :: a in st.users && b in st.users && st.users[a].email == st.users[b].email ==> a == b
  }

  /** The column a repository finder filters on. */
  datatype Key = ByUsername(name: string) | ByEmail(mail: string)

  predicate Has(u: User, key: Key) {
    match key
    case ByUsername(name) => u.username == name
    case ByEmail(mail) => u.email == mail
  }

  /** The ids of the stored users a finder matches. */
  function Holders(st: Store, key: Key): (ids: set<UserId>)
    ensures forall k :: k in ids <==> k in st.users && Has(st.users[k], key)
  {
    set k | k in st.users && Has(st.users[k], key)
  }

  /** What a single-result repository finder (`Optional<MddUser> findByX`)
      sees: no row, exactly one row, or several rows (the finder then throws
      instead of returning). */
  datatype Match = Absent | Unique(user: User) | Ambiguous

  lemma SingletonElementsEqual(s: set<UserId>, a: UserId, b: UserId)
    requires |s| == 1 && a in s && b in s
    ensures a == b
  {
    assert |s - {a}| == 0;
    assert b !in s - {a};
  }

  lemma NoElementMeansEmpty(s: set<UserId>)
    ensures (forall x :: x !in s) ==> s == {}
  {
    if forall x :: x !in s {
      assert s == {};
    }
  }

  lemma TwoDistinctElements(s: set<UserId>)
    requires |s| >= 2
    ensures exists a, b :: a in s && b in s && a != b
  {
    NoElementMeansEmpty(s);
    var a :| a in s;
    assert |s - {a}| == |s| - 1;
    NoElementMeansEmpty(s - {a});
    var b :| b in s - {a};
  }

  /** The repository finder on `key`, classified by how many rows match. */
  function Lookup(st: Store, key: Key): (m: Match)
    ensures m.Absent? <==> forall k :: k in st.users ==> !Has(st.users[k], key)
    ensures m.Unique? ==>
      && m.user.id.Some? && m.user.id.value in st.users
      && st.users[m.user.id.value] == m.user && Has(m.user, key)
    ensures m.Unique? ==> forall k :: k in st.users && Has(st.users[k], key) ==> k == m.user.id.value
    ensures m.Ambiguous? ==>
      exists a, b :: a in st.users && b in st.users && a != b && Has(st.users[a], key) && Has(st.users[b], key)
  {
    var ids := Holders(st, key);
    if ids == {} then
      Absent
    else if |ids| == 1 then
      assert forall a, b :: a in ids && b in ids ==> a == b by {
        forall a, b | a in ids && b in ids { SingletonElementsEqual(ids, a, b); }
      }
      NoElementMeansEmpty(ids);
      var k :| k in ids;
      Unique(st.users[k])
    else
      TwoDistinctElements(ids);
      Ambiguous
  }

  /** Under unique emails, a finder on email never sees several rows. */
  lemma UniqueEmailsNeverAmbiguous(st: Store, mail: string)
    requires UniqueEmails(st)
    ensures !Lookup(st, ByEmail(mail)).Ambiguous?
  {
  }
}
