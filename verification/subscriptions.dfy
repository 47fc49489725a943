/** The subscription half of `TopicService`: adding a user to and removing a
    user from a topic's membership set, and the reverse query listing the
    topics a user belongs to. */
module Subscriptions {
  import opened Outcomes
  import opened Database
  import TopicCatalog

  const Subscribed := "Subscribed successfully"
  const Unsubscribed := "Unsubscribed successfully"

  /** Adds `member` to the membership of topic `topicId`, first initialising
      a null membership to the empty set. A null or unknown topic id throws
      NotFound inside the try, which is rethrown as BadRequest. */
  function Subscribe(st: Store, topicId: Option<TopicId>, member: UserId): (r: Reply<string>)
    ensures r.out.Err? <==> topicId.None? || topicId.value !in st.topics
    ensures r.out.Err? ==> r.out.error == BadRequest && r.after == st
    ensures r.out.Ok? ==>
      var t := topicId.value;
      && r.out.value == Subscribed
      && r.after.topics.Keys == st.topics.Keys
      && (forall k :: k in st.topics && k != t ==> r.after.topics[k] == st.topics[k])
      && r.after.topics[t].id == st.topics[t].id
      && r.after.topics[t].name == st.topics[t].name
      && r.after.topics[t].users.Some?
      && Members(r.after.topics[t]) == Members(st.topics[t]) + {member}
      && r.after.users == st.users
      && r.after.nextUserId == st.nextUserId && r.after.nextTopicId == st.nextTopicId
  {
    match topicId
    case None => Reply(Err(BadRequest), st)
    case Some(t) =>
      if t !in st.topics then
        Reply(Err(BadRequest), st)
      else
        var topic := st.topics[t];
        var joined := topic.(users := Some(Members(topic) + {member}));
        Reply(Ok(Subscribed), st.(topics := st.topics[t := joined]))
  }

  /** Removes `member` from the membership of topic `topicId`; a null
      membership stays null. A null or unknown topic id gives BadRequest. */
  function Unsubscribe(st: Store, topicId: Option<TopicId>, member: UserId): (r: Reply<string>)
    ensures r.out.Err? <==> topicId.None? || topicId.value !in st.topics
    ensures r.out.Err? ==> r.out.error == BadRequest && r.after == st
    ensures r.out.Ok? ==>
      var t := topicId.value;
      && r.out.value == Unsubscribed
      && r.after.topics.Keys == st.topics.Keys
      && (forall k :: k in st.topics && k != t ==> r.after.topics[k] == st.topics[k])
      && r.after.topics[t].id == st.topics[t].id
      && r.after.topics[t].name == st.topics[t].name
      && r.after.topics[t].users ==
           (if st.topics[t].users.None? then None else Some(st.topics[t].users.value - {member}))
      && r.after.users == st.users
      && r.after.nextUserId == st.nextUserId && r.after.nextTopicId == st.nextTopicId
    ensures r.out.Ok? && member !in Members(st.topics[topicId.value]) ==> r.after == st
  {
    match topicId
    case None => Reply(Err(BadRequest), st)
    case Some(t) =>
      if t !in st.topics then
        Reply(Err(BadRequest), st)
      else
        var topic := st.topics[t];
        match topic.users
        case None => Reply(Ok(Unsubscribed), st)
        case Some(s) =>
          var left := topic.(users := Some(s - {member}));
          assert member !in s ==> st.topics[t := left] == st.topics by {
            if member !in s {
              assert s - {member} == s;
            }
          }
          Reply(Ok(Unsubscribed), st.(topics := st.topics[t := left]))
  }

  /** The reverse join: every stored topic whose membership holds `member`. */
  function MySubscriptions(st: Store, member: UserId): (r: set<Topic>)
    ensures forall k :: k in st.topics && member in Members(st.topics[k]) ==> st.topics[k] in r
    ensures forall t :: t in r ==>
      && t.id.Some? && t.id.value in st.topics && st.topics[t.id.value] == t
      && member in Members(t)
  {
    set k | k in st.topics && member in Members(st.topics[k]) :: st.topics[k]
  }

  /** The ids of the topics `member` is subscribed to. */
  function SubscribedIds(st: Store, member: UserId): (ids: set<TopicId>)
    ensures forall k :: k in ids <==> k in st.topics && member in Members(st.topics[k])
  {
    set k | k in st.topics && member in Members(st.topics[k])
  }

  /** The subscribed ids are exactly the ids of the topics the reverse query
      returns, so the lemmas below stated on ids speak of that query. */
  lemma SubscribedIdsAreIdsOfMySubscriptions(st: Store, member: UserId)
    ensures SubscribedIds(st, member) == set t | t in MySubscriptions(st, member) :: t.id.value
  {
    var mine := MySubscriptions(st, member);
    forall k | k in SubscribedIds(st, member)
      ensures k in set t | t in mine :: t.id.value
    {
      assert st.topics[k] in mine;
    }
  }

  /** Subscribing twice gives the same outcome and store as subscribing once. */
  lemma SubscribeIdempotent(st: Store, topicId: Option<TopicId>, member: UserId)
    ensures var once := Subscribe(st, topicId, member);
            Subscribe(once.after, topicId, member) == once
  {
  }

  /** Unsubscribing twice gives the same outcome and store as unsubscribing once. */
  lemma UnsubscribeIdempotent(st: Store, topicId: Option<TopicId>, member: UserId)
    ensures var once := Unsubscribe(st, topicId, member);
            Unsubscribe(once.after, topicId, member) == once
  {
  }

  /** A successful subscribe adds exactly the edge (topicId, member): the
      subscriptions of every user change only by that one topic. */
  lemma SubscribeAddsOnlyItsEdge(st: Store, topicId: Option<TopicId>, member: UserId, other: UserId)
    requires Subscribe(st, topicId, member).out.Ok?
    ensures SubscribedIds(Subscribe(st, topicId, member).after, other) ==
            SubscribedIds(st, other) + (if other == member then {topicId.value} else {})
  {
  }

  /** A successful unsubscribe removes exactly the edge (topicId, member). */
  lemma UnsubscribeRemovesOnlyItsEdge(st: Store, topicId: Option<TopicId>, member: UserId, other: UserId)
    requires Unsubscribe(st, topicId, member).out.Ok?
    ensures SubscribedIds(Unsubscribe(st, topicId, member).after, other) ==
            SubscribedIds(st, other) - (if other == member then {topicId.value} else {})
  {
  }

  /** Read-after-write: after a successful subscribe the reverse query
      returns the subscribed topic; after a successful unsubscribe it returns
      no topic with that id. */
  lemma SubscriptionReadAfterWrite(st: Store, topicId: Option<TopicId>, member: UserId)
    ensures var r := Subscribe(st, topicId, member);
            r.out.Ok? ==> r.after.topics[topicId.value] in MySubscriptions(r.after, member)
    ensures var r := Unsubscribe(st, topicId, member);
            r.out.Ok? ==> forall t :: t in MySubscriptions(r.after, member) ==> t.id != topicId
  {
  }

  /** Subscribing a non-member and then unsubscribing it restores the store,
      except that a membership that was null comes back as the empty set. */
  lemma SubscribeThenUnsubscribe(st: Store, topicId: Option<TopicId>, member: UserId)
    requires topicId.Some? && topicId.value in st.topics
    requires member !in Members(st.topics[topicId.value])
    ensures var back := Unsubscribe(Subscribe(st, topicId, member).after, topicId, member).after;
            var t := topicId.value;
            && back.topics[t] == st.topics[t].(users := Some(Members(st.topics[t])))
            && (st.topics[t].users.Some? ==> back == st)
  {
  }

  /** Renaming a topic leaves every user's subscriptions as they were. */
  lemma UpdateTopicKeepsSubscriptions(st: Store, topic: Topic, member: UserId)
    ensures SubscribedIds(TopicCatalog.UpdateTopic(st, topic).after, member) == SubscribedIds(st, member)
  {
  }

  /** Deleting a topic removes it from every user's subscriptions and
      touches no other topic's membership. */
  lemma DeleteTopicDropsSubscriptions(st: Store, id: Option<TopicId>, member: UserId)
    ensures var r := TopicCatalog.DeleteTopic(st, id);
            r.out.Ok? ==> SubscribedIds(r.after, member) == SubscribedIds(st, member) - {id.value}
  {
  }
}
