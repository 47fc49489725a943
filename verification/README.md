# MDD user directory and topic subscriptions, modelled in Dafny

This project models the domain logic of the two service classes of the MDD
back end. `MddUserService` is the user directory and the login bridge.
`TopicService` is the topic catalog and the subscription manager. The
repositories behind them are abstracted to one immutable `Store`:

- a user table `map<UserId, User>`;
- a topic table `map<TopicId, Topic>`, where each topic carries its
  membership set (`Option<set<UserId>>`, because the Java set may be null);
- the next value of each table's identity sequence.

The store invariant (`Db.Valid`, enforced by the subset type `Store`) says
that every row carries its own key as its id, and that every key is below
its sequence value. Each service method is a pure function from a store and
its arguments to a `Reply`, holding the outcome (`Ok(value)` or
`Err(kind)`) and the store after the call. Queries return only the outcome,
so they cannot change the store.

Files:

- `outcomes.dfy`: `Option`, `Result` and the observable exception kinds:
  NotFound, BadRequest, UsernameNotFound, DataAccess (a repository
  exception thrown outside any try block), and EmptyPrincipal (the
  principal constructor's rejection of an empty login name).
- `database.dfy`: module `Database` with the entities, the `Store` type and
  its invariant, and `Lookup`, the model of a single-result repository
  finder.
- `user_directory.dfy`: `MddUserService`.
- `topic_catalog.dfy`: topic CRUD from `TopicService`.
- `subscriptions.dfy`: subscribe, unsubscribe and the reverse query from
  `TopicService`.
- `sessions.dfy`: sequences of calls, store-wide invariants over them, and
  concrete histories.

Details of the Java code that the model keeps:

- A missing id in `updateUser`, `deleteUser`, `updateTopic`, `deleteTopic`,
  `subscribe` and `unsubscribe` surfaces as BadRequest, not NotFound. The
  NotFound is thrown inside the try, caught by `catch (Exception e)`, and
  rethrown as BadRequest. The find operations rethrow NotFound.
- A null id (`Option.None`) behaves like an absent one. `findById(null)`
  throws inside the same try blocks.
- Registration checks only the email. Usernames are never checked. Profile
  update checks nothing, so it can give two users the same email
  (`Sessions.UpdateCanDuplicateEmail`).
- `findByEmail` and `findByUsername` return `Optional<MddUser>`. A Spring
  Data finder of that shape throws when several rows match. `Lookup`
  therefore distinguishes Absent, Unique and Ambiguous:
  - inside the find operations every failure becomes NotFound;
  - the email check of `createUser` (lines 113-118) and `loadUserByUsername`
    run outside any try, so an ambiguous email there escapes as DataAccess.
- `createdAt` and `updatedAt` come from two separate clock reads, so
  `CreateUser` takes two time arguments and does not make them equal.
- `updateUser` leaves both timestamps untouched. It does not refresh
  `updatedAt`.
- `loadUserByUsername` builds Spring Security's `User(username, password,
  authorities)` from the stored email. That constructor throws when the
  username is empty. The service code of neither registration nor update
  rejects an empty email, so once such a user is stored, logging in with the
  email `""` fails even when exactly one user holds it
  (`Sessions.EmptyEmailCannotLogIn`). Whether the `MddUser` entity's own
  validation would refuse to save it is not part of this model (see
  "Left out").
- Subscribe turns a null membership into a set. Unsubscribe leaves a null
  membership null.

## Model

| member | source | states |
|---|---|---|
| Database.Lookup | back/src/main/java/com/openclassrooms/mddapi/service/MddUserService.java:97-98 | a single-result finder sees no row exactly when no stored user matches; Unique carries the one stored matching user and no other row matches; Ambiguous means two distinct stored users match |
| Database.UniqueEmailsNeverAmbiguous | back/src/main/java/com/openclassrooms/mddapi/service/MddUserService.java:113-118 | while emails are unique, the email finder never sees several rows |
| UserDirectory.FindAllUsers | back/src/main/java/com/openclassrooms/mddapi/service/MddUserService.java:42-52 | the result holds every stored user and only stored users (each under its own id); it is empty exactly when the table is empty |
| UserDirectory.FindUserById | back/src/main/java/com/openclassrooms/mddapi/service/MddUserService.java:60-69 | succeeds exactly when the id is non-null and stored, returning that row; otherwise NotFound |
| UserDirectory.FindUserByUsername | back/src/main/java/com/openclassrooms/mddapi/service/MddUserService.java:77-86 | success returns a stored user with that username that is the only one; failure is NotFound and happens only when no user or at least two users have that username |
| UserDirectory.FindUserByEmail | back/src/main/java/com/openclassrooms/mddapi/service/MddUserService.java:94-103 | same as by username, on the email column |
| UserDirectory.CreateUser | back/src/main/java/com/openclassrooms/mddapi/service/MddUserService.java:111-130 | fails exactly when some stored user holds the email, with BadRequest (DataAccess when several do) and no write; on success the user gets an id not in the store, keeps every supplied field except id, gets the two clock readings as timestamps, and is the only change; the user sequence moves just past the new id and the topic sequence is untouched; unique emails stay unique |
| UserDirectory.UpdateUser | back/src/main/java/com/openclassrooms/mddapi/service/MddUserService.java:138-156 | a null or unknown id gives BadRequest with no write; otherwise the stored row becomes the incoming user with the stored createdAt/updatedAt (so username, email, password, comments and posts are overwritten and id and timestamps kept) and nothing else changes |
| UserDirectory.DeleteUser | back/src/main/java/com/openclassrooms/mddapi/service/MddUserService.java:164-176 | a null or unknown id gives BadRequest with no write; otherwise exactly that key is removed, all other users and all topics are kept, and "User deleted" is returned; neither identity sequence moves; unique emails stay unique |
| UserDirectory.LoadUserByUsername | back/src/main/java/com/openclassrooms/mddapi/service/MddUserService.java:186-190 | UsernameNotFound exactly when no stored user has the email; success is a principal of that (non-empty) email, the holder's password and an empty authority list; EmptyPrincipal only for the empty email held by some user; DataAccess exactly when two distinct stored users hold the email; when exactly one user holds it (in particular under unique emails), login succeeds for a non-empty email and gives EmptyPrincipal for the empty one |
| UserDirectory.CreateThenLoad | back/src/main/java/com/openclassrooms/mddapi/service/MddUserService.java:111-190 | after a successful registration, logging in with its email gives the principal (email, password, no authorities), or EmptyPrincipal when that email is empty |
| UserDirectory.CreateThenFind | back/src/main/java/com/openclassrooms/mddapi/service/MddUserService.java:60-130 | after a successful registration, the returned user is found by its new id and by its email |
| UserDirectory.CreateIgnoresClientId | back/src/main/java/com/openclassrooms/mddapi/service/MddUserService.java:122 | the id a client sends with a registration does not affect the outcome or the store |
| UserDirectory.LoadAgreesWithFindByEmail | back/src/main/java/com/openclassrooms/mddapi/service/MddUserService.java:94-190 | the login principal is built from the user the email finder returns (EmptyPrincipal instead for the empty email), and the login bridge fails with a lookup error (anything but EmptyPrincipal) exactly when the email finder fails |
| UserDirectory.UpdateThenFind | back/src/main/java/com/openclassrooms/mddapi/service/MddUserService.java:138-156 | after a successful update the id finds the updated user, and repeating the update changes nothing |
| UserDirectory.DeleteThenFind | back/src/main/java/com/openclassrooms/mddapi/service/MddUserService.java:164-176 | after a successful delete the id gives NotFound, and deleting again gives BadRequest without a write |
| TopicCatalog.FindAllTopics | back/src/main/java/com/openclassrooms/mddapi/service/TopicService.java:38-48 | the result holds every stored topic and only stored topics; it is empty exactly when the table is empty |
| TopicCatalog.FindTopicById | back/src/main/java/com/openclassrooms/mddapi/service/TopicService.java:55-65 | succeeds exactly when the id is non-null and stored, returning that row; otherwise NotFound |
| TopicCatalog.CreateTopic | back/src/main/java/com/openclassrooms/mddapi/service/TopicService.java:72-82 | always succeeds; the topic gets an id not in the store, keeps its name and membership, is the only change to the topic table, and users are untouched; the topic sequence moves just past the new id and the user sequence is untouched |
| TopicCatalog.CreateTopicIgnoresClientId | back/src/main/java/com/openclassrooms/mddapi/service/TopicService.java:75 | the id a client sends with a new topic does not affect the outcome or the store |
| TopicCatalog.UpdateTopic | back/src/main/java/com/openclassrooms/mddapi/service/TopicService.java:89-101 | a null or unknown id gives BadRequest with no write; otherwise only the name changes, while id and membership are kept, and nothing else changes |
| TopicCatalog.DeleteTopic | back/src/main/java/com/openclassrooms/mddapi/service/TopicService.java:108-119 | a null or unknown id gives BadRequest with no write; otherwise exactly that topic is removed, every other topic and every user is kept, "Topic deleted" is returned, and neither identity sequence moves |
| TopicCatalog.CreateTopicThenFind | back/src/main/java/com/openclassrooms/mddapi/service/TopicService.java:55-82 | a created topic is found under its new id |
| TopicCatalog.UpdateTopicThenFind | back/src/main/java/com/openclassrooms/mddapi/service/TopicService.java:89-101 | after a rename the id finds the renamed topic, and repeating the rename changes nothing |
| Subscriptions.Subscribe | back/src/main/java/com/openclassrooms/mddapi/service/TopicService.java:127-142 | a null or unknown topic id gives BadRequest with no write; otherwise that topic's membership becomes its old members (null read as empty) plus the user, and every other topic and every user is unchanged |
| Subscriptions.Unsubscribe | back/src/main/java/com/openclassrooms/mddapi/service/TopicService.java:150-164 | a null or unknown topic id gives BadRequest with no write; otherwise the membership loses the user and a null membership stays null, while every other topic, every user and both identity sequences are unchanged; for a non-member the store is unchanged |
| Subscriptions.MySubscriptions | back/src/main/java/com/openclassrooms/mddapi/service/TopicService.java:171-179 | the result is exactly the stored topics whose membership contains the user's id |
| Subscriptions.SubscribedIdsAreIdsOfMySubscriptions | back/src/main/java/com/openclassrooms/mddapi/service/TopicService.java:171-179 | the topic ids a user is subscribed to are exactly the ids of the topics the reverse query returns |
| Subscriptions.SubscribeIdempotent | back/src/main/java/com/openclassrooms/mddapi/service/TopicService.java:132-136 | subscribing twice yields the same outcome and store as subscribing once |
| Subscriptions.UnsubscribeIdempotent | back/src/main/java/com/openclassrooms/mddapi/service/TopicService.java:155-158 | unsubscribing twice yields the same outcome and store as unsubscribing once |
| Subscriptions.SubscribeAddsOnlyItsEdge | back/src/main/java/com/openclassrooms/mddapi/service/TopicService.java:127-142 | after a successful subscribe, the subscribing user's topics gain exactly that topic and every other user's topics are unchanged |
| Subscriptions.UnsubscribeRemovesOnlyItsEdge | back/src/main/java/com/openclassrooms/mddapi/service/TopicService.java:150-164 | after a successful unsubscribe, the user's topics lose exactly that topic and every other user's topics are unchanged |
| Subscriptions.SubscriptionReadAfterWrite | back/src/main/java/com/openclassrooms/mddapi/service/TopicService.java:127-179 | after subscribe the reverse query returns the topic; after unsubscribe it returns no topic with that id |
| Subscriptions.SubscribeThenUnsubscribe | back/src/main/java/com/openclassrooms/mddapi/service/TopicService.java:127-164 | subscribing a non-member and then unsubscribing restores the store, except that a null membership comes back as the empty set |
| Subscriptions.UpdateTopicKeepsSubscriptions | back/src/main/java/com/openclassrooms/mddapi/service/TopicService.java:89-101 | renaming a topic changes no user's subscriptions |
| Subscriptions.DeleteTopicDropsSubscriptions | back/src/main/java/com/openclassrooms/mddapi/service/TopicService.java:108-119 | deleting a topic removes just that topic from every user's subscriptions |
| Sessions.Apply | back/src/main/java/com/openclassrooms/mddapi/service/MddUserService.java:111-176 | every mutating call except a profile update keeps emails unique, and no call moves an identity sequence backwards |
| Sessions.RunWithoutUpdatesKeepsEmailsUnique | back/src/main/java/com/openclassrooms/mddapi/service/MddUserService.java:111-130 | any history of calls with no profile update keeps stored emails unique |
| Sessions.RunNeverReusesIds | back/src/main/java/com/openclassrooms/mddapi/service/MddUserService.java:122-125 | `save` of an entity whose id was set to null receives a generated id; with ids drawn from a sequence (the store's counters), every user or topic key added over any history is at or above the sequence value at the start, so deleted ids are never handed out again |
| Sessions.UpdateCanDuplicateEmail | back/src/main/java/com/openclassrooms/mddapi/service/MddUserService.java:138-156 | a concrete history in which a profile update gives two users one email; afterwards the email finder gives NotFound, login gives DataAccess, and registering that email gives DataAccess instead of BadRequest |
| Sessions.DuplicateUsernameHidesBoth | back/src/main/java/com/openclassrooms/mddapi/service/MddUserService.java:77-86 | two registrations with one username and different emails both succeed, and the username finder then gives NotFound |
| Sessions.JavaTopicScenario | back/src/main/java/com/openclassrooms/mddapi/service/TopicService.java:72-179 | on an empty store, topic "Java" gets id 1; after user 7 subscribes, the reverse query is exactly that topic with members {7}; after user 7 unsubscribes, it is empty |
| Sessions.EmptyEmailCannotLogIn | back/src/main/java/com/openclassrooms/mddapi/service/MddUserService.java:186-190 | if the entity accepts the empty email, a user registered with it is found by the email finder, but logging in with that email gives EmptyPrincipal |

## Left out

- Logging, the Lombok and Spring annotations, and `@Transactional`. Each call is one atomic step on the store.
- Failures of the repository itself: a failing `save`, `delete` or `findAll`, with the NotFound/BadRequest they are rewrapped into. Only the rewrapping of the service's own NotFound is modelled, plus the finders' several-rows exception.
- Concurrent subscribe/unsubscribe on one topic (the lost-update race). The model is sequential.
- Exception messages. Only the exception kind is kept. The success strings are constants.
- Password hashing, JWT issuance, and what posts and comments contain. Passwords are opaque strings. Posts and comments are opaque id sequences.
- `MddUser.equals`/`hashCode` is not part of this model. Members of a topic are user ids, and `Subscribe`/`Unsubscribe`/`MySubscriptions` take the user's id rather than the entity.
- The repository interfaces and the reverse-join query `findTopicsByUsersId` are not part of this model. The join is defined directly over the topic table.
- Database constraints and cascades, such as a foreign key from the membership join table that could make deleting a subscribed user fail. `DeleteUser` never touches topics, so memberships may keep a deleted user's id.
- Null strings (a null username, email or password) and a null request body. A null password would also make the principal constructor throw.
- Database collation. The finders compare usernames and emails by exact, case-sensitive string equality, whereas the database's collation, which is not part of this model, may ignore case or trailing spaces, which would make the duplicate-email check of registration reject more addresses.
- Bean Validation on the `MddUser` and `Topic` entities. The entity classes are not part of this model. The model accepts any string as a username, email, password or topic name. A constraint such as `@NotBlank` or `@Email` would make `save` throw inside the try of `createUser`, which would then surface as BadRequest; `Sessions.EmptyEmailCannotLogIn` assumes no such constraint.
- The database's id generator is not part of this model. Generated ids are assumed to come from a sequence that never hands out a value twice, modelled by the store's two counters; `Sessions.RunNeverReusesIds` rests on that assumption.
- 64-bit wrap-around of `Long` ids. Ids are unbounded integers, and the sequences start at 1.
- UserDirectory.FindAllUsers: returns a set, while the source returns a `List` in repository order. Order is not modelled.
- TopicCatalog.FindAllTopics: returns a set rather than the repository-ordered `List`, as above.
- `ResponsesMapper` (DTO projection generated by MapStruct) is not part of this model.
