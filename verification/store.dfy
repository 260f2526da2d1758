/**
  The persistent store behind the four models of base/models.py: the tables of
  Users, Topics, Rooms and Messages, keyed by integer primary keys, and the
  referential-integrity invariant that the foreign keys and the unique email
  column impose on them.
 */
module Store {
  import opened Results

  type UserId = nat
  type TopicId = nat
  type RoomId = nat
  type MessageId = nat

  /** A keyword-argument value as Python passes it. Only `PyBool(true)` is the
      object `True`, so only it passes an `is True` test. */
  datatype Value = PyNone | PyBool(b: bool) | PyInt(i: int) | PyStr(s: string)

  /** A saved account: its (normalised) email, the stored password digest and
      the remaining keyword fields it was built from (name, bio, privilege flags, ...).
      The email column is nullable: `None` is a row whose email is NULL, which
      `create_user` never writes but other ways of saving a user can. */
  datatype User = User(email: Option<string>, password: string, fields: map<string, Value>)

  datatype Topic = Topic(name: string)

  /** A discussion room; `host` and `topic` are nullable foreign keys, the
      participants are the rows of the many-to-many table for this room. */
  datatype Room = Room(
    host: Option<UserId>,
    topic: Option<TopicId>,
    name: string,
    description: Option<string>,
    participants: set<UserId>,
    updated: int,
    created: int)

  /** A message, with non-nullable foreign keys to its author and its room. */
  datatype Message = Message(user: UserId, room: RoomId, body: string, updated: int, created: int)

  /** The largest primary key each table has ever issued (SQLite's `sqlite_sequence`
      for tables declared `AUTOINCREMENT`); 0 before the first insert. */
  datatype Issued = Issued(user: nat, topic: nat, room: nat, message: nat)

  /** The tables, plus the schema choice of whether the user table keeps the
      unique `username` column inherited from Django's `AbstractUser`. As written,
      base/models.py:28 leaves `username = None` commented out, so the column
      stays (`usernameColumn` is true); with that line active it is gone. */
  datatype Db = Db(
    usernameColumn: bool,
    users: map<UserId, User>,
    topics: map<TopicId, Topic>,
    rooms: map<RoomId, Room>,
    messages: map<MessageId, Message>,
    issued: Issued)

  /** The errors the model raises: the three `ValueError`s of the user manager and
      the database's integrity errors. */
  datatype Error = EmailNotSet | StaffRequired | SuperuserRequired | UniqueViolation | ForeignKeyViolation

  /** Some saved user already has this email. */
  predicate EmailTaken(db: Db, email: string) {
    exists u :: u in db.users && db.users[u].email == Some(email)
  }

  /** The `username` a user row holds: the `username` keyword if one was given,
      otherwise the column's default, the empty string. */
  function StoredUsername(fields: map<string, Value>): Value {
    if "username" in fields then fields["username"] else PyStr("")
  }

  /** Some saved user already holds this username. */
  predicate UsernameTaken(db: Db, username: Value) {
    exists u :: u in db.users && StoredUsername(db.users[u].fields) == username
  }

  /** The username column, when the table has one, is unique. */
  ghost predicate UniqueUsernames(db: Db) {
    db.usernameColumn ==>
      forall u, v ::
        (u in db.users && v in db.users
         && StoredUsername(db.users[u].fields) == StoredUsername(db.users[v].fields)) ==> u == v
  }

  /** The email column is unique. As in SQL, a `UNIQUE` column admits any
      number of NULLs: only non-null emails must differ. */
  ghost predicate UniqueEmails(db: Db) {
    forall u, v ::
      (u in db.users && v in db.users
       && db.users[u].email.Some? && db.users[u].email == db.users[v].email) ==> u == v
  }

  /** Every foreign key and many-to-many row of a room points at an existing row,
      where the nullable keys may also be null. */
  ghost predicate RoomRefsValid(db: Db, room: Room) {
    && (room.host.Some? ==> room.host.value in db.users)
    && (room.topic.Some? ==> room.topic.value in db.topics)
    && room.participants <= db.users.Keys
  }

  ghost predicate MessageRefsValid(db: Db, msg: Message) {
    msg.user in db.users && msg.room in db.rooms
  }

  /** No key in use is above the largest key its table has issued. */
  ghost predicate KeysIssued(db: Db) {
    && (forall k :: k in db.users ==> k <= db.issued.user)
    && (forall k :: k in db.topics ==> k <= db.issued.topic)
    && (forall k :: k in db.rooms ==> k <= db.issued.room)
    && (forall k :: k in db.messages ==> k <= db.issued.message)
  }

  /** The integrity invariant of the store. */
  ghost predicate Valid(db: Db) {
    && KeysIssued(db)
    && UniqueEmails(db)
    && UniqueUsernames(db)
    && (forall r :: r in db.rooms ==> RoomRefsValid(db, db.rooms[r]))
    && (forall m :: m in db.messages ==> MessageRefsValid(db, db.messages[m]))
  }

  /** A largest element of a non-empty set of keys, built by removing one key at a time. */
  lemma {:induction false} MaxWitness(keys: set<nat>) returns (m: nat)
    requires keys != {}
    ensures m in keys
    ensures forall j :: j in keys ==> j <= m
    decreases keys
  {
    var x :| x in keys;
    var rest := keys - {x};
    if rest == {} {
      assert keys == {x};
      m := x;
    } else {
      var m' := MaxWitness(rest);
      m := if x <= m' then m' else x;
      forall j | j in keys ensures j <= m {
        if j != x {
          assert j in rest;
        }
      }
    }
  }

  lemma MaxExists(keys: set<nat>)
    requires keys != {}
    ensures exists m :: m in keys && forall j :: j in keys ==> j <= m
  {
    var m := MaxWitness(keys);
  }

  /** The largest key in use. */
  function MaxKey(keys: set<nat>): (m: nat)
    requires keys != {}
    ensures m in keys
    ensures forall j :: j in keys ==> j <= m
  {
    MaxExists(keys);
    var m :| m in keys && (forall j :: j in keys ==> j <= m); m
  }

  /** The primary key SQLite gives a new row of an `AUTOINCREMENT` table: one
      more than the larger of the largest key ever issued and the largest key in
      use. A deleted key is never issued again. */
  function FreshId(keys: set<nat>, issued: nat): (k: nat)
    ensures k !in keys
    ensures k > issued
    ensures forall j :: j in keys ==> j < k
  {
    if keys == {} then issued + 1
    else
      var m := MaxKey(keys);
      (if m < issued then issued else m) + 1
  }
}
