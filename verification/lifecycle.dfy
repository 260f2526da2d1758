/**
  Round trips through the store: in a store that satisfies the integrity
  invariant, deleting a row that was just saved gives back every table as it
  was (only the table's largest issued key has moved on, so the deleted key is
  not issued again), and deleting a key that is not there changes nothing.
 */
module Lifecycle {
  import opened Results
  import opened Store
  import opened Accounts
  import opened Integrity

  /** A fresh user has no messages, hosts no room and joins none, so deleting it
      undoes `create_user` on every table. */
  lemma DeleteUndoesCreateUser(
    db: Db, email: Option<string>, password: Option<string>, extra: Kwargs,
    normalize: string -> string, hasher: Option<string> -> string)
    requires Valid(db)
    requires CreateUser(db, email, password, extra, normalize, hasher).Success?
    ensures var (db', id) := CreateUser(db, email, password, extra, normalize, hasher).value;
            DeleteUser(db', id) == db.(issued := db.issued.(user := id))
  {
    var (db', id) := CreateUser(db, email, password, extra, normalize, hasher).value;
    DeleteAbsentUser(db, id);
    var r := DeleteUser(db', id);
    assert r.users == db.users;
    assert r.issued == db.issued.(user := id);
    assert r.rooms == DeleteUser(db, id).rooms;
    assert r.messages == DeleteUser(db, id).messages;
  }

  /** Deleting a user key that is not in a valid store changes nothing. */
  lemma DeleteAbsentUser(db: Db, u: UserId)
    requires Valid(db) && u !in db.users
    ensures DeleteUser(db, u) == db
  {
    var r := DeleteUser(db, u);
    forall k | k in db.rooms ensures r.rooms[k] == db.rooms[k] {
      assert RoomRefsValid(db, db.rooms[k]);
    }
    forall m | m in db.messages ensures m in r.messages {
      assert MessageRefsValid(db, db.messages[m]);
    }
    assert r.users == db.users;
  }

  /** Deleting a topic key that is not in a valid store changes nothing. */
  lemma DeleteAbsentTopic(db: Db, t: TopicId)
    requires Valid(db) && t !in db.topics
    ensures DeleteTopic(db, t) == db
  {
  }

  /** Deleting a room key that is not in a valid store changes nothing. */
  lemma DeleteAbsentRoom(db: Db, k: RoomId)
    requires Valid(db) && k !in db.rooms
    ensures DeleteRoom(db, k) == db
  {
  }

  /** Deleting a topic that was just saved gives back every table. */
  lemma DeleteUndoesAddTopic(db: Db, name: string)
    requires Valid(db)
    ensures var (db', t) := AddTopic(db, name);
            DeleteTopic(db', t) == db.(issued := db.issued.(topic := t))
  {
  }

  /** Deleting a room that was just saved gives back every table. */
  lemma DeleteUndoesAddRoom(
    db: Db, host: Option<UserId>, topic: Option<TopicId>, name: string,
    description: Option<string>, updated: int, created: int)
    requires Valid(db)
    requires AddRoom(db, host, topic, name, description, updated, created).Success?
    ensures var (db', k) := AddRoom(db, host, topic, name, description, updated, created).value;
            DeleteRoom(db', k) == db.(issued := db.issued.(room := k))
  {
  }

  /** Deleting a message that was just saved gives back every table. */
  lemma DeleteUndoesAddMessage(db: Db, user: UserId, room: RoomId, body: string, updated: int, created: int)
    requires AddMessage(db, user, room, body, updated, created).Success?
    ensures var (db', m) := AddMessage(db, user, room, body, updated, created).value;
            DeleteMessage(db', m) == db.(issued := db.issued.(message := m))
  {
  }

  /** A room key is never issued twice: a room saved after another room was
      saved and deleted gets a different, larger key. */
  lemma DeletedRoomKeyNotReused(
    db: Db, host: Option<UserId>, topic: Option<TopicId>, name: string,
    description: Option<string>, updated: int, created: int,
    host2: Option<UserId>, topic2: Option<TopicId>, name2: string,
    description2: Option<string>, updated2: int, created2: int)
    requires AddRoom(db, host, topic, name, description, updated, created).Success?
    ensures var (db', k) := AddRoom(db, host, topic, name, description, updated, created).value;
            var r := AddRoom(DeleteRoom(db', k), host2, topic2, name2, description2, updated2, created2);
            r.Success? ==> r.value.1 > k
  {
  }
}
