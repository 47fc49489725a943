/** Sequences of service calls against one store: which store-wide
    invariants survive them, and concrete histories that show what the
    services do and do not enforce. */
module Sessions {
  import opened Outcomes
  import opened Database
  import UserDirectory
  import TopicCatalog
  import Subscriptions

  /** One mutating service call with its arguments (and clock readings). */
  datatype Command =
    | CreateUser(user: User, createdAt: Time, updatedAt: Time)
    | UpdateUser(user: User)
    | DeleteUser(id: Option<UserId>)
    | CreateTopic(topic: Topic)
    | UpdateTopic(topic: Topic)
    | DeleteTopic(id: Option<TopicId>)
    | Subscribe(topicId: Option<TopicId>, member: UserId)
    | Unsubscribe(topicId: Option<TopicId>, member: UserId)

  /** The store after one call, whether it succeeded or failed. Only a
      profile update can make two users share an email. */
  function Apply(st: Store, c: Command): (st': Store)
    ensures !c.UpdateUser? && UniqueEmails(st) ==> UniqueEmails(st')
    ensures st.nextUserId <= st'.nextUserId && st.nextTopicId <= st'.nextTopicId
  {
    match c
    case CreateUser(u, t1, t2) => UserDirectory.CreateUser(st, u, t1, t2).after
    case UpdateUser(u) => UserDirectory.UpdateUser(st, u).after
    case DeleteUser(id) => UserDirectory.DeleteUser(st, id).after
    case CreateTopic(t) => TopicCatalog.CreateTopic(st, t).after
    case UpdateTopic(t) => TopicCatalog.UpdateTopic(st, t).after
    case DeleteTopic(id) => TopicCatalog.DeleteTopic(st, id).after
    case Subscribe(t, m) => Subscriptions.Subscribe(st, t, m).after
    case Unsubscribe(t, m) => Subscriptions.Unsubscribe(st, t, m).after
  }

  /** The store after the calls of `cs`, in order. */
  function Run(st: Store, cs: seq<Command>): Store
    decreases |cs|
  {
    if cs == [] then st else Run(Apply(st, cs[0]), cs[1..])
  }

  /** Emails stay unique through any history without profile updates. */
  lemma {:induction false} RunWithoutUpdatesKeepsEmailsUnique(st: Store, cs: seq<Command>)
    requires UniqueEmails(st)
    requires forall i :: 0 <= i < |cs| ==> !cs[i].UpdateUser?
    ensures UniqueEmails(Run(st, cs))
    decreases |cs|
  {
    if cs != [] {
      RunWithoutUpdatesKeepsEmailsUnique(Apply(st, cs[0]), cs[1..]);
    }
  }

  /** Generated ids are never handed out twice: every key present after a
      history is either an old key or one at or above the old sequence value. */
  lemma {:induction false} RunNeverReusesIds(st: Store, cs: seq<Command>)
    ensures var st' := Run(st, cs);
            && st.nextUserId <= st'.nextUserId && st.nextTopicId <= st'.nextTopicId
            && (forall k :: k in st'.users && k !in st.users ==> st.nextUserId <= k)
            && (forall k :: k in st'.topics && k !in st.topics ==> st.nextTopicId <= k)
    decreases |cs|
  {
    if cs != [] {
      var mid := Apply(st, cs[0]);
      RunNeverReusesIds(mid, cs[1..]);
      var st' := Run(st, cs);
      assert Run(st, cs) == Run(mid, cs[1..]);
      forall k | k in st'.users && k !in st.users
        ensures st.nextUserId <= k
      {
        if k in mid.users {
          ApplyNewKeysAreFresh(st, cs[0]);
        }
      }
      forall k | k in st'.topics && k !in st.topics
        ensures st.nextTopicId <= k
      {
        if k in mid.topics {
          ApplyNewKeysAreFresh(st, cs[0]);
        }
      }
    }
  }

  /** A single call only adds keys taken from the sequences. */
  lemma ApplyNewKeysAreFresh(st: Store, c: Command)
    ensures var st' := Apply(st, c);
            && (forall k :: k in st'.users && k !in st.users ==> st.nextUserId <= k)
            && (forall k :: k in st'.topics && k !in st.topics ==> st.nextTopicId <= k)
  {
  }

  const Alice := User(None, "alice", "alice@x.com", "h1", None, None, [], [])
  const Bob := User(None, "bob", "bob@x.com", "h2", None, None, [], [])

  /** Profile updates check nothing: renaming Bob's email to Alice's leaves
      two users with one email, after which the email finder answers
      NotFound, login fails with a data-access error, and registering that
      email fails with a data-access error instead of BadRequest. */
  lemma UpdateCanDuplicateEmail()
    ensures var st := Run(Empty, [CreateUser(Alice, 0, 0), CreateUser(Bob, 0, 0),
                                  UpdateUser(Bob.(id := Some(2), email := "alice@x.com"))]);
            && !UniqueEmails(st)
            && UserDirectory.FindUserByEmail(st, "alice@x.com") == Err(NotFound)
            && UserDirectory.LoadUserByUsername(st, "alice@x.com") == Err(DataAccess)
            && UserDirectory.CreateUser(st, Alice, 1, 1).out == Err(DataAccess)
  {
    var s1 := Apply(Empty, CreateUser(Alice, 0, 0));
    assert s1.users == map[1 := Alice.(id := Some(1), createdAt := Some(0), updatedAt := Some(0))];
    var s2 := Apply(s1, CreateUser(Bob, 0, 0));
    assert 2 in s2.users && s2.users[2].email == "bob@x.com";
    var s3 := Apply(s2, UpdateUser(Bob.(id := Some(2), email := "alice@x.com")));
    assert s3.users[1].email == s3.users[2].email == "alice@x.com";
    var c3 := UpdateUser(Bob.(id := Some(2), email := "alice@x.com"));
    var cs := [CreateUser(Alice, 0, 0), CreateUser(Bob, 0, 0), c3];
    assert cs[1..] == [CreateUser(Bob, 0, 0), c3] && cs[1..][1..] == [c3] && [c3][1..] == [];
    assert Run(s2, [c3]) == Run(s3, []) == s3;
    assert Run(s1, cs[1..]) == Run(s2, [c3]);
    assert Run(Empty, cs) == Run(s1, cs[1..]);
  }

  /** Registration never checks usernames: two users called "alice" with
      different emails both register, and the username finder then answers
      NotFound although both are stored. */
  lemma DuplicateUsernameHidesBoth()
    ensures var st := Run(Empty, [CreateUser(Alice, 0, 0), CreateUser(Bob.(username := "alice"), 0, 0)]);
            && |st.users| == 2
            && UserDirectory.FindUserByUsername(st, "alice") == Err(NotFound)
  {
    var s1 := Apply(Empty, CreateUser(Alice, 0, 0));
    assert s1.users == map[1 := Alice.(id := Some(1), createdAt := Some(0), updatedAt := Some(0))];
    var s2 := Apply(s1, CreateUser(Bob.(username := "alice"), 0, 0));
    assert s2.users.Keys == {1, 2};
    assert s2.users[1].username == s2.users[2].username == "alice";
    var cs := [CreateUser(Alice, 0, 0), CreateUser(Bob.(username := "alice"), 0, 0)];
    assert cs[1..] == [CreateUser(Bob.(username := "alice"), 0, 0)] && cs[1..][1..] == [];
    assert Run(s1, cs[1..]) == Run(s2, []) == s2;
    assert Run(Empty, cs) == Run(s1, cs[1..]);
  }

  /** A topic "Java" created on an empty store gets id 1; user 7 subscribes
      and sees exactly that topic; after unsubscribing user 7 sees none. */
  lemma JavaTopicScenario()
    ensures var created := TopicCatalog.CreateTopic(Empty, Topic(None, "Java", None));
            && created.out == Ok(Topic(Some(1), "Java", None))
            && var joined := Subscriptions.Subscribe(created.after, Some(1), 7);
               && joined.out == Ok(Subscriptions.Subscribed)
               && Subscriptions.MySubscriptions(joined.after, 7) == {Topic(Some(1), "Java", Some({7}))}
               && var left := Subscriptions.Unsubscribe(joined.after, Some(1), 7);
                  && left.out == Ok(Subscriptions.Unsubscribed)
                  && Subscriptions.MySubscriptions(left.after, 7) == {}
  {
    var created := TopicCatalog.CreateTopic(Empty, Topic(None, "Java", None));
    assert created.after.topics == map[1 := Topic(Some(1), "Java", None)];
    assert Members(created.after.topics[1]) + {7} == {7};
    var joined := Subscriptions.Subscribe(created.after, Some(1), 7);
    assert joined.after.topics == map[1 := Topic(Some(1), "Java", Some({7}))];
    var left := Subscriptions.Unsubscribe(joined.after, Some(1), 7);
    assert left.after.topics[1].users == Some({});
    assert Subscriptions.MySubscriptions(joined.after, 7) == {Topic(Some(1), "Java", Some({7}))};
  }

  /** Registration accepts the empty email, and the email finder then
      returns that user, but logging in with it fails because the principal
      constructor rejects an empty login name. */
  lemma EmptyEmailCannotLogIn()
    ensures var st := Run(Empty, [CreateUser(Alice.(email := ""), 0, 0)]);
            && UserDirectory.FindUserByEmail(st, "").Ok?
            && UserDirectory.LoadUserByUsername(st, "") == Err(EmptyPrincipal)
  {
  }
}
