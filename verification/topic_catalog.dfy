/** The topic catalog half of `TopicService`: listing, lookup by id,
    creation, renaming and deletion of topics. */
module TopicCatalog {
  import opened Outcomes
  import opened Database

  const TopicDeleted := "Topic deleted"

  /** Every stored topic, each exactly once; empty only for an empty table. */
  function FindAllTopics(st: Store): (r: set<Topic>)
    ensures forall k :: k in st.topics ==> st.topics[k] in r
    ensures forall t :: t in r ==> t.id.Some? && t.id.value in st.topics && st.topics[t.id.value] == t
    ensures r == {} <==> st.topics == map[]
  {
    set k | k in st.topics :: st.topics[k]
  }

  /** The stored topic with key `id`, or NotFound (also for a null id). */
  function FindTopicById(st: Store, id: Option<TopicId>): (r: Result<Topic>)
    ensures r.Ok? <==> id.Some? && id.value in st.topics
    ensures r.Ok? ==> r.value == st.topics[id.value] && r.value.id == id
    ensures r.Err? ==> r.error == NotFound
  {
    match id
    case Some(k) => if k in st.topics then Ok(st.topics[k]) else Err(NotFound)
    case None => Err(NotFound)
  }

  /** Creation: the client id is discarded and the topic, with the name and
      membership it arrived with, is saved under the next generated id. */
  function CreateTopic(st: Store, topic: Topic): (r: Reply<Topic>)
    ensures r.out.Ok?
    ensures r.out.value.id.Some? && r.out.value.id.value !in st.topics
    ensures r.out.value.name == topic.name && r.out.value.users == topic.users
    ensures r.after.topics == st.topics[r.out.value.id.value := r.out.value]
    ensures r.after.users == st.users
    ensures r.after.nextUserId == st.nextUserId && r.after.nextTopicId == r.out.value.id.value + 1
  {
    var id := st.nextTopicId;
    var saved := topic.(id := Some(id));
    Reply(Ok(saved), Db(st.users, st.topics[id := saved], st.nextUserId, id + 1))
  }

  /** Renaming: only the name of the stored topic changes; its id and its
      membership are kept. A null or unknown id throws NotFound inside the
      try, which is rethrown as BadRequest. */
  function UpdateTopic(st: Store, topic: Topic): (r: Reply<Topic>)
    ensures r.out.Err? <==> topic.id.None? || topic.id.value !in st.topics
    ensures r.out.Err? ==> r.out.error == BadRequest && r.after == st
    ensures r.out.Ok? ==>
      && r.out.value.name == topic.name
      && r.out.value.id == topic.id
      && r.out.value.users == st.topics[topic.id.value].users
      && r.after.topics == st.topics[topic.id.value := r.out.value]
      && r.after.users == st.users
      && r.after.nextUserId == st.nextUserId && r.after.nextTopicId == st.nextTopicId
  {
    match topic.id
    case None => Reply(Err(BadRequest), st)
    case Some(k) =>
      if k !in st.topics then
        Reply(Err(BadRequest), st)
      else
        var updated := st.topics[k].(name := topic.name);
        Reply(Ok(updated), st.(topics := st.topics[k := updated]))
  }

  /** Deletion by id; a null or unknown id gives BadRequest. */
  function DeleteTopic(st: Store, id: Option<TopicId>): (r: Reply<string>)
    ensures r.out.Err? <==> id.None? || id.value !in st.topics
    ensures r.out.Err? ==> r.out.error == BadRequest && r.after == st
    ensures r.out.Ok? ==>
      && r.out.value == TopicDeleted
      && r.after.topics.Keys == st.topics.Keys - {id.value}
      && (forall k :: k in r.after.topics ==> r.after.topics[k] == st.topics[k])
      && r.after.users == st.users
    ensures r.after.nextUserId == st.nextUserId && r.after.nextTopicId == st.nextTopicId
  {
    match id
    case None => Reply(Err(BadRequest), st)
    case Some(k) =>
      if k !in st.topics then
        Reply(Err(BadRequest), st)
      else
        Reply(Ok(TopicDeleted), st.(topics := st.topics - {k}))
  }

  /** The id a client sends with a new topic has no effect. */
  lemma CreateTopicIgnoresClientId(st: Store, topic: Topic, clientId: Option<TopicId>)
    ensures CreateTopic(st, topic.(id := clientId)) == CreateTopic(st, topic)
  {
  }

  /** Create then look up: the new topic is found under its new id. */
  lemma CreateTopicThenFind(st: Store, topic: Topic)
    ensures var r := CreateTopic(st, topic);
            FindTopicById(r.after, r.out.value.id) == Ok(r.out.value)
  {
  }

  /** Rename then look up; renaming again with the same input changes
      nothing more. */
  lemma UpdateTopicThenFind(st: Store, topic: Topic)
    ensures var r := UpdateTopic(st, topic);
            r.out.Ok? ==>
              && FindTopicById(r.after, topic.id) == Ok(r.out.value)
              && UpdateTopic(r.after, topic) == r
  {
  }
}
