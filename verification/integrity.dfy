/**
  The foreign-key rules of base/models.py as operations on the store.

  Inserting a row checks that its foreign keys name existing rows (the
  database raises an integrity error otherwise). Deleting a row applies the
  `on_delete` rule of every foreign key that points at it:
  - `Room.host` and `Room.topic` are `SET_NULL`,
  - `Message.user` and `Message.room` are `CASCADE`,
  - the participant rows of the many-to-many table go with either end.
  A `SET_NULL` is a bulk update, so it leaves the `updated` timestamp alone.
  A delete never lowers a table's largest issued key, so deleted keys are not reused.
 */
module Integrity {
  import opened Results
  import opened Store

  /** Saves a new topic. Topic names need not be unique. */
  function AddTopic(db: Db, name: string): (r: (Db, TopicId))
    ensures r.1 !in db.topics && r.1 > db.issued.topic
    ensures r.0.topics == db.topics[r.1 := Topic(name)]
    ensures r.0.issued == db.issued.(topic := r.1)
    ensures r.0.usernameColumn == db.usernameColumn
    ensures r.0.users == db.users && r.0.rooms == db.rooms && r.0.messages == db.messages
    ensures Valid(db) ==> Valid(r.0)
  {
    var id := FreshId(db.topics.Keys, db.issued.topic);
    (db.(topics := db.topics[id := Topic(name)], issued := db.issued.(topic := id)), id)
  }

  /** Saves a new room with no participants. `updated` and `created` are two
      readings of the clock, taken in that order. */
  function AddRoom(
    db: Db, host: Option<UserId>, topic: Option<TopicId>, name: string,
    description: Option<string>, updated: int, created: int
  ): (r: Result<(Db, RoomId), Error>)
    ensures r.Success? <==> (host.Some? ==> host.value in db.users) && (topic.Some? ==> topic.value in db.topics)
    ensures r.Failure? ==> r.error == ForeignKeyViolation
    ensures r.Success? ==>
      && r.value.1 !in db.rooms && r.value.1 > db.issued.room
      && r.value.0.rooms == db.rooms[r.value.1 := Room(host, topic, name, description, {}, updated, created)]
      && r.value.0.issued == db.issued.(room := r.value.1)
      && r.value.0.usernameColumn == db.usernameColumn
      && r.value.0.users == db.users && r.value.0.topics == db.topics && r.value.0.messages == db.messages
    ensures r.Success? && Valid(db) ==> Valid(r.value.0)
  {
    if host.Some? && host.value !in db.users then Failure(ForeignKeyViolation)
    else if topic.Some? && topic.value !in db.topics then Failure(ForeignKeyViolation)
    else
      var id := FreshId(db.rooms.Keys, db.issued.room);
      var room := Room(host, topic, name, description, {}, updated, created);
      Success((db.(rooms := db.rooms[id := room], issued := db.issued.(room := id)), id))
  }

  /** Saves a new message by `user` in `room`. `updated` and `created` are two
      readings of the clock, taken in that order. */
  function AddMessage(
    db: Db, user: UserId, room: RoomId, body: string, updated: int, created: int
  ): (r: Result<(Db, MessageId), Error>)
    ensures r.Success? <==> user in db.users && room in db.rooms
    ensures r.Failure? ==> r.error == ForeignKeyViolation
    ensures r.Success? ==>
      && r.value.1 !in db.messages && r.value.1 > db.issued.message
      && r.value.0.messages == db.messages[r.value.1 := Message(user, room, body, updated, created)]
      && r.value.0.issued == db.issued.(message := r.value.1)
      && r.value.0.usernameColumn == db.usernameColumn
      && r.value.0.users == db.users && r.value.0.topics == db.topics && r.value.0.rooms == db.rooms
    ensures r.Success? && Valid(db) ==> Valid(r.value.0)
  {
    if user !in db.users || room !in db.rooms then Failure(ForeignKeyViolation)
    else
      var id := FreshId(db.messages.Keys, db.issued.message);
      var msg := Message(user, room, body, updated, created);
      Success((db.(messages := db.messages[id := msg], issued := db.issued.(message := id)), id))
  }

  /** `room.participants.add(user)`: idempotent, and it does not save the room. */
  function AddParticipant(db: Db, room: RoomId, user: UserId): (r: Result<Db, Error>)
    ensures r.Success? <==> room in db.rooms && user in db.users
    ensures r.Failure? ==> r.error == ForeignKeyViolation
    ensures r.Success? ==>
      && r.value.rooms.Keys == db.rooms.Keys
      && r.value.rooms[room].participants == db.rooms[room].participants + {user}
      && r.value.rooms[room].(participants := db.rooms[room].participants) == db.rooms[room]
      && (forall k :: k in db.rooms && k != room ==> r.value.rooms[k] == db.rooms[k])
      && r.value.users == db.users && r.value.topics == db.topics && r.value.messages == db.messages
      && r.value.issued == db.issued && r.value.usernameColumn == db.usernameColumn
    ensures r.Success? && Valid(db) ==> Valid(r.value)
  {
    if room !in db.rooms || user !in db.users then Failure(ForeignKeyViolation)
    else
      var before := db.rooms[room];
      Success(db.(rooms := db.rooms[room := before.(participants := before.participants + {user})]))
  }

  /** What deleting user `u` does to one room: a `SET_NULL` on the host and the
      removal of the participant row. */
  function DetachUser(room: Room, u: UserId): Room {
    room.(host := if room.host == Some(u) then None else room.host,
          participants := room.participants - {u})
  }

  /** Deletes user `u`: cascades to the messages `u` wrote, nulls the host of the
      rooms `u` hosts (without deleting them) and drops `u` from every room's participants. */
  function DeleteUser(db: Db, u: UserId): (r: Db)
    ensures r.users.Keys == db.users.Keys - {u}
    ensures forall k :: k in r.users ==> r.users[k] == db.users[k]
    ensures r.topics == db.topics && r.issued == db.issued && r.usernameColumn == db.usernameColumn
    // no room is deleted; only its host and participants can change
    ensures r.rooms.Keys == db.rooms.Keys
    ensures forall k :: k in db.rooms ==>
      && r.rooms[k].(host := db.rooms[k].host, participants := db.rooms[k].participants) == db.rooms[k]
      && (db.rooms[k].host == Some(u) ==> r.rooms[k].host.None?)
      && (db.rooms[k].host != Some(u) ==> r.rooms[k].host == db.rooms[k].host)
      && r.rooms[k].participants == db.rooms[k].participants - {u}
    // exactly the messages u wrote are gone
    ensures forall m :: m in r.messages <==> m in db.messages && db.messages[m].user != u
    ensures forall m :: m in r.messages ==> r.messages[m] == db.messages[m]
    ensures Valid(db) ==> Valid(r)
  {
    var r := db.(
      users := db.users - {u},
      rooms := map k | k in db.rooms :: DetachUser(db.rooms[k], u),
      messages := map m | m in db.messages && db.messages[m].user != u :: db.messages[m]);
    assert Valid(db) ==> Valid(r) by {
      if Valid(db) {
        forall k | k in r.rooms ensures RoomRefsValid(r, r.rooms[k]) {
          assert RoomRefsValid(db, db.rooms[k]);
        }
        forall m | m in r.messages ensures MessageRefsValid(r, r.messages[m]) {
          assert MessageRefsValid(db, db.messages[m]);
        }
      }
    }
    r
  }

  /** Deletes topic `t`: no room is deleted, rooms tagged `t` lose their topic. */
  function DeleteTopic(db: Db, t: TopicId): (r: Db)
    ensures r.topics.Keys == db.topics.Keys - {t}
    ensures forall k :: k in r.topics ==> r.topics[k] == db.topics[k]
    ensures r.users == db.users && r.messages == db.messages
    ensures r.issued == db.issued && r.usernameColumn == db.usernameColumn
    ensures r.rooms.Keys == db.rooms.Keys
    ensures forall k :: k in db.rooms ==>
      && r.rooms[k].(topic := db.rooms[k].topic) == db.rooms[k]
      && (db.rooms[k].topic == Some(t) ==> r.rooms[k].topic.None?)
      && (db.rooms[k].topic != Some(t) ==> r.rooms[k].topic == db.rooms[k].topic)
    ensures Valid(db) ==> Valid(r)
  {
    var r := db.(
      topics := db.topics - {t},
      rooms := map k | k in db.rooms ::
        db.rooms[k].(topic := if db.rooms[k].topic == Some(t) then None else db.rooms[k].topic));
    assert Valid(db) ==> Valid(r) by {
      if Valid(db) {
        forall k | k in r.rooms ensures RoomRefsValid(r, r.rooms[k]) {
          assert RoomRefsValid(db, db.rooms[k]);
        }
        forall m | m in r.messages ensures MessageRefsValid(r, r.messages[m]) {
          assert MessageRefsValid(db, db.messages[m]);
        }
      }
    }
    r
  }

  /** Deletes room `k`: cascades to exactly the messages posted in it. */
  function DeleteRoom(db: Db, k: RoomId): (r: Db)
    ensures r.rooms.Keys == db.rooms.Keys - {k}
    ensures forall j :: j in r.rooms ==> r.rooms[j] == db.rooms[j]
    ensures r.users == db.users && r.topics == db.topics
    ensures r.issued == db.issued && r.usernameColumn == db.usernameColumn
    ensures forall m :: m in r.messages <==> m in db.messages && db.messages[m].room != k
    ensures forall m :: m in r.messages ==> r.messages[m] == db.messages[m]
    ensures Valid(db) ==> Valid(r)
  {
    var r := db.(
      rooms := db.rooms - {k},
      messages := map m | m in db.messages && db.messages[m].room != k :: db.messages[m]);
    assert Valid(db) ==> Valid(r) by {
      if Valid(db) {
        forall j | j in r.rooms ensures RoomRefsValid(r, r.rooms[j]) {
          assert RoomRefsValid(db, db.rooms[j]);
        }
        forall m | m in r.messages ensures MessageRefsValid(r, r.messages[m]) {
          assert MessageRefsValid(db, db.messages[m]);
        }
      }
    }
    r
  }

  /** Deletes message `m`; nothing refers to a message, so nothing else changes. */
  function DeleteMessage(db: Db, m: MessageId): (r: Db)
    ensures r.messages.Keys == db.messages.Keys - {m}
    ensures forall j :: j in r.messages ==> r.messages[j] == db.messages[j]
    ensures r.users == db.users && r.topics == db.topics && r.rooms == db.rooms
    ensures r.issued == db.issued && r.usernameColumn == db.usernameColumn
    ensures Valid(db) ==> Valid(r)
  {
    db.(messages := db.messages - {m})
  }
}
