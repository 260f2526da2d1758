# Rooms, topics and messages: a Dafny model of `base/models.py`

The web application lets users register with an email address, open
discussion rooms tagged with a topic, join them and post messages. It has one
file of logic: the Django models in `base/models.py`. This project models
that file.

- **Account creation** (`Accounts`). `UserManager.create_user` rejects a
  missing or empty email, stores the normalised email and the hashed password,
  and the unique email column rejects a second user with the same email.
  `UserManager.create_superuser` defaults `is_staff` and `is_superuser` to
  `True`, checks them in that order with Python's `is True`, and then delegates
  to `create_user`. Because `username = None` is commented out at line 28, the
  user table keeps the unique `username` column of Django's `AbstractUser`,
  whose default is the empty string. A store records whether it has that
  column (`Db.usernameColumn`). With the column, a second user created without
  a `username` fails on it (see "## Findings"). Email normalisation and
  password hashing are library code.
  Both are function parameters. Each property holds for any normaliser and any
  hasher that gives one digest per password.
  The `**extra_fields` keyword arguments are a map from names to Python values
  (`PyNone`, `PyBool`, `PyInt`, `PyStr`). This keeps the `is True` test exact:
  `PyInt(1)` is not `True`.
- **The store and its integrity invariant** (`Store`, `Integrity`,
  `Lifecycle`). The store is four immutable maps from primary key to row.
  `Store.Valid` says every foreign key and participant row points at an
  existing row, or is null where the column is nullable, that non-null emails
  are unique (the email column is nullable, and SQL's `UNIQUE` admits any
  number of NULLs), that usernames are unique when the column exists, and that
  no key in use is above the largest key its table has issued. Each insert
  checks the foreign keys it writes. Each delete applies the `on_delete` rules:
  - `Room.host` and `Room.topic` are `SET_NULL`;
  - `Message.user` and `Message.room` are `CASCADE`;
  - the many-to-many participant rows go with the deleted user.
  Every operation preserves `Valid` and states what it leaves unchanged. In a
  valid store, deleting a row that was just saved gives back every table as it
  was. Only that table's largest issued key has moved on.
- **Default ordering and display** (`Ordering`, `Display`). Rooms and messages
  are listed by `updated` descending, then `created` descending. The model
  sorts with an insertion sort and proves the result is a sorted permutation of
  the input. Any two sorted permutations of the same rows list the same
  timestamps, so the order is fixed except among rows whose two timestamps are
  equal. A message's string form is the first 50 characters of its body. A
  user's string form is its email. For a user row whose email is NULL,
  `__str__` returns `None` and `str()` raises `TypeError`. `create_user`
  never saves such a row.

Primary keys are `BigAutoField`s on SQLite (core/settings.py:26 and :35), which
Django declares `AUTOINCREMENT`. A new key is one more than the larger of the
largest key the table has ever issued and the largest key in use
(`Store.FreshId`). The store keeps the largest issued key per table
(`Db.issued`), so a deleted key is never issued again.

Two behaviours of the code worth knowing:
- Ties after `created` are left unordered, because the ordering declares no
  third key such as the primary key.
- An empty message body is accepted when a message is saved. `blank=False` is
  only enforced by form validation, not by `save`.

## Model

| member | source | states |
|---|---|---|
| Accounts.CreateUser | base/models.py:6-13 | A missing or empty email fails with `EmailNotSet`. The call succeeds exactly when the email is present, its normalised form is not already stored (unique email, line 30), and, if the table has the username column, no stored user has the new row's username. Otherwise it fails with `UniqueViolation`. A success adds exactly one user under a key above every key ever issued and every key in use, with the normalised email, the hashed password and the given fields. It leaves every other row unchanged and preserves the integrity invariant. |
| Accounts.SecondUserWithoutUsernameRejected | base/models.py:6-13 | With the username column kept, once a user has been created without a `username`, every later `create_user` call without one fails, whatever its email. With a non-empty email the failure is `UniqueViolation`. |
| Accounts.UsernameClashExample | base/models.py:6-13 | On an empty store with the username column, with the identity as normaliser, `create_user("a@example.com")` succeeds and a following `create_user("b@example.com")` fails with `UniqueViolation`. |
| Accounts.EmailOnlyUsersCoexist | base/models.py:6-13 | Without the username column, once a user has been created, a second user with a different, unused, non-empty email is also created. |
| Accounts.SuperuserKwargs | base/models.py:16-17 | `is_staff` and `is_superuser` are set to `True` only when the caller omitted them. Every value the caller supplied is kept as given. No other key is added. |
| Accounts.CreateSuperuser | base/models.py:15-24 | A supplied `is_staff` other than `True` fails with `StaffRequired`, even if `is_superuser` or the email is also wrong. A bad `is_superuser` fails with `SuperuserRequired` only once `is_staff` passes. With acceptable flags, including omitted ones, the result is exactly `create_user` called with the defaulted flags, failures included. So an empty email still fails with `EmailNotSet`, and a taken email or username fails with `UniqueViolation`. A success equals `create_user` with both flags set to `True`, and the saved user carries both flags. |
| Accounts.SuperuserWithFlagsIsCreateUser | base/models.py:15-24 | If the caller passes both flags as `True`, `create_superuser` returns exactly what `create_user` returns for the same arguments. |
| Integrity.AddTopic | base/models.py:43-44 | Saving a topic always succeeds, even with a duplicate name. It adds one topic under a fresh key, changes nothing else and preserves the invariant. |
| Integrity.AddRoom | base/models.py:50-57 | Saving a room succeeds exactly when its non-null host and topic exist; otherwise it fails with `ForeignKeyViolation`. The new room has no participants and the two given clock readings as `updated` and `created`. Nothing else changes, and the invariant is preserved. |
| Integrity.AddMessage | base/models.py:68-73 | Saving a message succeeds exactly when its author and its room exist. It adds one message under a fresh key, changes nothing else and preserves the invariant. |
| Integrity.AddParticipant | base/models.py:55 | Adding a participant succeeds exactly when both the room and the user exist. It adds the user to that room's participant set, is idempotent, leaves every other field and every other room unchanged, and preserves the invariant. |
| Integrity.DeleteUser | base/models.py:51-69 | Deleting a user deletes exactly the messages that user wrote. It deletes no room: it nulls the host of the rooms the user hosted and drops the user from every participant set. No other field, user, topic or message changes. Afterwards every message references an existing user and room, and every non-null host an existing user. |
| Integrity.DeleteTopic | base/models.py:52 | Deleting a topic deletes no room. It sets `topic` to null exactly on the rooms that referenced it, changes nothing else and preserves the invariant. |
| Integrity.DeleteRoom | base/models.py:70 | Deleting a room deletes exactly the messages posted in it. Users, topics, other rooms and the surviving messages are unchanged, and the invariant is preserved. |
| Integrity.DeleteMessage | base/models.py:68-73 | Deleting a message removes only that message. No row refers to messages, so the invariant is preserved. |
| Lifecycle.DeleteUndoesCreateUser | base/models.py:6-13 | In a valid store, deleting the user `create_user` just saved gives back every table. Only the user table's largest issued key stays advanced to the new key. |
| Lifecycle.DeleteAbsentUser | base/models.py:51-69 | In a valid store, deleting a user key that does not exist changes nothing. |
| Lifecycle.DeleteAbsentTopic | base/models.py:52 | In a valid store, deleting a topic key that does not exist changes nothing. |
| Lifecycle.DeleteAbsentRoom | base/models.py:70 | In a valid store, deleting a room key that does not exist changes nothing. |
| Lifecycle.DeleteUndoesAddTopic | base/models.py:43-44 | In a valid store, deleting a topic that was just saved gives back every table. Only the largest issued topic key stays advanced. |
| Lifecycle.DeleteUndoesAddRoom | base/models.py:50-57 | In a valid store, deleting a room that was just saved gives back every table. Only the largest issued room key stays advanced. |
| Lifecycle.DeleteUndoesAddMessage | base/models.py:68-73 | Deleting a message that was just saved gives back every table. Only the largest issued message key stays advanced. |
| Lifecycle.DeletedRoomKeyNotReused | base/models.py:50-57 | A room saved after another room was saved and deleted gets a larger key than the deleted one. |
| Ordering.ListedBeforeIsTotalPreorder | base/models.py:60 | The `-updated, -created` comparator is reflexive, total and transitive. Two stamps precede each other exactly when both timestamps are equal. |
| Ordering.Sort | base/models.py:59-60 | The result is sorted newest-updated first, ties broken newest-created first, and is a permutation (equal multiset) of the input. |
| Ordering.SortKeepsSortedInput | base/models.py:59-60 | The model's insertion sort returns rows already in the default order unchanged. The database's `ORDER BY` promises nothing about the relative order of rows whose `updated` and `created` are both equal, so this is a property of the model's chosen order. `Ordering.SortedPermutationsAgree` shows only those rows can differ. |
| Ordering.SortedPermutationsAgree | base/models.py:75-76 | Any two sorted permutations of the same rows list the same timestamps at every position. The order is fixed except among rows with equal `updated` and `created`. |
| Ordering.ListRooms | base/models.py:59-60 | Returns every stored room with its key and no other rows, as many rows as there are rooms, sorted by the default ordering. |
| Ordering.ListMessages | base/models.py:75-76 | Returns every stored message with its key and no other rows, as many rows as there are messages, sorted by the default ordering. |
| Display.MessageText | base/models.py:80-81 | A message's string form is a prefix of its body whose length is the smaller of 50 and the body's length. |
| Display.UserText | base/models.py:39-40 | `str(user)` fails, standing for the `TypeError` raised when `__str__` returns `None`, exactly when the user's nullable email column (line 30) is NULL. Otherwise it is the stored email. |
| Display.CreatedUserText | base/models.py:39-40 | A user saved by `create_user` always has a non-null email, so its string form never fails. It is the normalised email the user was given. |

## Left out

- Email normalisation and password hashing: these are Django library code (`normalize_email`, `set_password`). They are parameters of `CreateUser` and `CreateSuperuser`. The hasher is a function, so the model fixes one digest per password. Django's `make_password` uses a random salt, and `set_password(None)` stores a random unusable password, so real digests of the same password differ. No property depends on two digests being equal or on what the digest is.
- The columns inherited from Django's `AbstractUser` other than `username`, such as `is_staff`, `is_superuser` and `is_active`, exist only as the keyword values stored in `User.fields`. Their types, defaults and the `TypeError` Django raises for an unknown keyword are left out. That class is library code and is not part of this model.
- Accounts.CreateUser: stores every keyword value as given, under a newly issued key. Three cases are not modelled:
  - An explicit `id` or `pk` keyword. Django's `save()` then updates the row with that key: a new row with `id=1` overwrites user 1 instead of adding a second user. The model adds a new row and leaves row 1 unchanged.
  - The save-time conversion and NOT NULL checks of the inherited columns. For example, `is_staff=None` fails with a NOT NULL integrity error, `is_staff="x"` fails with a validation error, and a `username` is stored as text, so `1` and `"1"` clash. The model accepts these values and compares them as given. The same gap carries over to `Lifecycle.DeleteUndoesCreateUser`, `Accounts.EmailOnlyUsersCoexist` and `Accounts.SecondUserWithoutUsernameRejected` for such keywords.
  - The NOT NULL failure for `username=None`.
- Python's call syntax keeps `email` and `password` out of `**extra_fields`. The model does not restate that restriction.
- Timestamps are given integers. The wall clock behind `auto_now` and `auto_now_add` is left out. A new room or message takes two clock readings as parameters: `updated` is read before `created` (lines 56-57 and 72-73). Nothing relates the two readings. Re-saving a room or message to refresh `updated` is also left out.
- `avatar` file storage, `help_text` and `verbose_name` labels: media I/O and UI text.
- `Topic.__str__` and `Room.__str__`: each returns its `name` field unchanged, so there is nothing to state beyond the field itself.
- View-level rules: host and author authorisation, joining a room on posting, search, and message-body validation in forms. None of them is in `base/models.py`.
- `core/settings.py`: deployment configuration with no behaviour. Only its choice of `BigAutoField` keys on SQLite is used, for `Store.FreshId`.
- Keys are unbounded natural numbers. A `BigAutoField` is a signed 64-bit integer, and an `AUTOINCREMENT` table fails with SQLITE_FULL once key 2^63-1 has been issued. The model never runs out of keys.
- SQLite persistence, transactions, deferred foreign-key checking, and HTTP routing. A foreign-key violation is reported at the insert, not at commit.

## Findings

| source | as written | input that shows it | evidently intended | confidence | as-written member | corrected member |
|---|---|---|---|---|---|---|
| base/models.py:28 | `username = None` is commented out. `User` therefore keeps `AbstractUser`'s unique `username` column, and `create_user` stores its default, the empty string. | `create_user("a@example.com")` and then `create_user("b@example.com")`, neither passing `username`: the second save violates the unique username column. | Users are identified by email alone (`USERNAME_FIELD = 'email'`, `REQUIRED_FIELDS = []` at lines 34-35), so users with different emails can all be created. | high that the column remains and is unique; not executed | Accounts.SecondUserWithoutUsernameRejected | Accounts.EmailOnlyUsersCoexist |

Every operation and lemma of the model reads the schema from the store (`Db.usernameColumn`). So every property holds for the corrected schema, without the username column, as well as for the code as written.
