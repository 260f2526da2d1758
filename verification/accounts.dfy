/**
  The account-creation rules of `UserManager` (base/models.py:5-24).

  `normalize_email` and the password hasher behind `set_password` are library
  code whose internals are not part of this model; they are parameters here,
  so every property below holds whatever they compute.
 */
module Accounts {
  import opened Results
  import opened Store

  /** The `**extra_fields` dictionary. */
  type Kwargs = map<string, Value>

  const StaffFlag := "is_staff"
  const SuperuserFlag := "is_superuser"

  /** `kwargs.get(key) is True`: present and the object `True` itself. */
  predicate IsTrue(kwargs: Kwargs, key: string) {
    key in kwargs && kwargs[key] == PyBool(true)
  }

  /** Python's `if not email` for an email that is `None` or a string. */
  predicate EmailMissing(email: Option<string>) {
    email.None? || email.value == ""
  }

  /** `kwargs.setdefault(key, v)`: adds the default only when the caller gave no value. */
  function SetDefault(kwargs: Kwargs, key: string, v: Value): (r: Kwargs)
    ensures r.Keys == kwargs.Keys + {key}
    ensures r[key] == (if key in kwargs then kwargs[key] else v)
    ensures forall k :: k in kwargs ==> r[k] == kwargs[k]
  {
    if key in kwargs then kwargs else kwargs[key := v]
  }

  /** The store grew by exactly one user, `user` under the fresh key `id`, and
      nothing else changed but the user table's largest issued key. The key is
      above every key ever issued and every key in use. */
  ghost predicate AddsUser(db: Db, db': Db, id: UserId, user: User) {
    && id !in db.users
    && id > db.issued.user
    && (forall j :: j in db.users ==> j < id)
    && db'.users == db.users[id := user]
    && db'.issued == db.issued.(user := id)
    && db'.usernameColumn == db.usernameColumn
    && db'.topics == db.topics
    && db'.rooms == db.rooms
    && db'.messages == db.messages
  }

  /** Saving `extra` as a new user would clash on the unique username column. */
  predicate UsernameClash(db: Db, extra: Kwargs) {
    db.usernameColumn && UsernameTaken(db, StoredUsername(extra))
  }

  /** `UserManager.create_user`: rejects a missing email, then saves a user with
      the normalised email and the hashed password. Saving fails when a unique
      column already holds the new row's value: the email, and, while the table
      keeps `AbstractUser`'s username column, the username (the empty string
      unless the caller passed one). */
  function CreateUser(
    db: Db, email: Option<string>, password: Option<string>, extra: Kwargs,
    normalize: string -> string, hasher: Option<string> -> string
  ): (r: Result<(Db, UserId), Error>)
    ensures EmailMissing(email) ==> r == Failure(EmailNotSet)
    ensures r.Success? <==>
      !EmailMissing(email) && !EmailTaken(db, normalize(email.value)) && !UsernameClash(db, extra)
    ensures r.Failure? && !EmailMissing(email) ==> r.error == UniqueViolation
    ensures r.Success? ==>
      AddsUser(db, r.value.0, r.value.1, User(Some(normalize(email.value)), hasher(password), extra))
    ensures r.Success? && Valid(db) ==> Valid(r.value.0)
  {
    if EmailMissing(email) then Failure(EmailNotSet)
    else
      var normalized := normalize(email.value);
      var user := User(Some(normalized), hasher(password), extra);
      if EmailTaken(db, normalized) || UsernameClash(db, extra) then Failure(UniqueViolation)
      else
        var id := FreshId(db.users.Keys, db.issued.user);
        var db' := db.(users := db.users[id := user], issued := db.issued.(user := id));
        assert Valid(db) ==> Valid(db') by {
          if Valid(db) {
            forall u, v | u in db'.users && v in db'.users
              && db'.users[u].email.Some? && db'.users[u].email == db'.users[v].email
              ensures u == v
            {
              if u != id && v != id {
                assert db.users[u].email == db.users[v].email;
              }
            }
            if db.usernameColumn {
              forall u, v | u in db'.users && v in db'.users
                && StoredUsername(db'.users[u].fields) == StoredUsername(db'.users[v].fields)
                ensures u == v
              {
                if u != id && v != id {
                  assert StoredUsername(db.users[u].fields) == StoredUsername(db.users[v].fields);
                }
              }
            }
          }
        }
        Success((db', id))
  }

  /** As written, the user table keeps a unique username column whose default is
      the empty string, so after one user is created without a `username`, every
      further such call fails, whatever its email. */
  lemma SecondUserWithoutUsernameRejected(
    db: Db, db1: Db, id: UserId, email1: string, email2: string,
    password1: Option<string>, password2: Option<string>,
    extra1: Kwargs, extra2: Kwargs, normalize: string -> string, hasher: Option<string> -> string)
    requires db.usernameColumn
    requires "username" !in extra1 && "username" !in extra2
    requires CreateUser(db, Some(email1), password1, extra1, normalize, hasher) == Success((db1, id))
    ensures CreateUser(db1, Some(email2), password2, extra2, normalize, hasher).Failure?
    ensures email2 != "" ==>
      CreateUser(db1, Some(email2), password2, extra2, normalize, hasher) == Failure(UniqueViolation)
  {
    assert id in db1.users && StoredUsername(db1.users[id].fields) == StoredUsername(extra2);
  }

  /** The two calls of the finding on an empty store that keeps the username column:
      `a@example.com` is created, then `b@example.com` is rejected. */
  lemma UsernameClashExample()
    ensures var empty := Db(true, map[], map[], map[], map[], Issued(0, 0, 0, 0));
            var first := CreateUser(empty, Some("a@example.com"), None, map[], s => s, p => "digest");
            && first.Success?
            && CreateUser(first.value.0, Some("b@example.com"), None, map[], s => s, p => "digest")
               == Failure(UniqueViolation)
  {
  }

  /** Without the username column, as the commented-out `username = None` intends,
      users are told apart by email alone: after one user is created, a second one
      with a different, unused email is created too. */
  lemma EmailOnlyUsersCoexist(
    db: Db, email1: string, email2: string, password1: Option<string>, password2: Option<string>,
    extra1: Kwargs, extra2: Kwargs, normalize: string -> string, hasher: Option<string> -> string)
    requires !db.usernameColumn
    requires CreateUser(db, Some(email1), password1, extra1, normalize, hasher).Success?
    requires email2 != "" && normalize(email2) != normalize(email1)
    requires !EmailTaken(db, normalize(email2))
    ensures var db1 := CreateUser(db, Some(email1), password1, extra1, normalize, hasher).value.0;
            CreateUser(db1, Some(email2), password2, extra2, normalize, hasher).Success?
  {
  }

  /** The keyword arguments `create_superuser` passes on: both privilege flags
      default to `True`, and every value the caller gave is kept as given. */
  function SuperuserKwargs(extra: Kwargs): (r: Kwargs)
    ensures r.Keys == extra.Keys + {StaffFlag, SuperuserFlag}
    ensures StaffFlag !in extra ==> r[StaffFlag] == PyBool(true)
    ensures SuperuserFlag !in extra ==> r[SuperuserFlag] == PyBool(true)
    ensures forall k :: k in extra ==> r[k] == extra[k]
  {
    SetDefault(SetDefault(extra, StaffFlag, PyBool(true)), SuperuserFlag, PyBool(true))
  }

  /** The caller's flags, if given at all, are exactly `True`. */
  predicate FlagsAcceptable(extra: Kwargs) {
    && (StaffFlag in extra ==> extra[StaffFlag] == PyBool(true))
    && (SuperuserFlag in extra ==> extra[SuperuserFlag] == PyBool(true))
  }

  /** A user whose privilege flags are both the value `True`. */
  predicate IsSuperuser(user: User) {
    IsTrue(user.fields, StaffFlag) && IsTrue(user.fields, SuperuserFlag)
  }

  /** `UserManager.create_superuser`: defaults the two flags, checks `is_staff`
      and then `is_superuser`, and delegates to `create_user`. */
  function CreateSuperuser(
    db: Db, email: Option<string>, password: Option<string>, extra: Kwargs,
    normalize: string -> string, hasher: Option<string> -> string
  ): (r: Result<(Db, UserId), Error>)
    // is_staff is checked first, and before anything about the email
    ensures StaffFlag in extra && extra[StaffFlag] != PyBool(true) ==> r == Failure(StaffRequired)
    ensures (StaffFlag !in extra || extra[StaffFlag] == PyBool(true))
            && SuperuserFlag in extra && extra[SuperuserFlag] != PyBool(true)
            ==> r == Failure(SuperuserRequired)
    ensures FlagsAcceptable(extra) && EmailMissing(email) ==> r == Failure(EmailNotSet)
    // with acceptable flags, the call is create_user with the defaulted flags, failures included
    ensures FlagsAcceptable(extra) ==>
      r == CreateUser(db, email, password, SuperuserKwargs(extra), normalize, hasher)
    // a success is a create_user call with both flags set to True
    ensures r.Success? ==> FlagsAcceptable(extra)
    ensures r.Success? ==> r == CreateUser(db, email, password,
                                           extra[StaffFlag := PyBool(true)][SuperuserFlag := PyBool(true)],
                                           normalize, hasher)
    ensures r.Success? ==> IsSuperuser(r.value.0.users[r.value.1])
  {
    var fields := SuperuserKwargs(extra);
    if !IsTrue(fields, StaffFlag) then Failure(StaffRequired)
    else if !IsTrue(fields, SuperuserFlag) then Failure(SuperuserRequired)
    else
      assert fields == extra[StaffFlag := PyBool(true)][SuperuserFlag := PyBool(true)];
      CreateUser(db, email, password, fields, normalize, hasher)
  }

  /** Given both flags as `True`, `create_superuser` is exactly `create_user`. */
  lemma SuperuserWithFlagsIsCreateUser(
    db: Db, email: Option<string>, password: Option<string>, extra: Kwargs,
    normalize: string -> string, hasher: Option<string> -> string)
    requires IsTrue(extra, StaffFlag) && IsTrue(extra, SuperuserFlag)
    ensures CreateSuperuser(db, email, password, extra, normalize, hasher)
         == CreateUser(db, email, password, extra, normalize, hasher)
  {
  }
}
