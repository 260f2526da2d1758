/** The string forms of Users and Messages. */
module Display {
  import opened Results
  import opened Store
  import Accounts

  /** How many characters of a message body its string form shows. */
  const PreviewLength := 50

  /** `Message.__str__`: the body sliced `[0:50]`, which Python clamps to the body's length. */
  function MessageText(m: Message): (s: string)
    ensures s <= m.body
    ensures |s| == if |m.body| < PreviewLength then |m.body| else PreviewLength
  {
    if |m.body| <= PreviewLength then m.body else m.body[..PreviewLength]
  }

  /** `str(user)`: `User.__str__` returns the email column. For a row whose email
      is NULL it returns `None`, and `str()` then raises `TypeError`; `None` here
      stands for that error. */
  function UserText(u: User): (r: Option<string>)
    ensures r.None? <==> u.email.None?
    ensures r.Some? ==> r.value == u.email.value
  {
    if u.email.Some? then Some(u.email.value) else None
  }

  /** A user saved by `create_user` has a non-null email, so its string form
      never fails: it is the normalised form of the email it was given. */
  lemma CreatedUserText(
    db: Db, email: Option<string>, password: Option<string>, extra: Accounts.Kwargs,
    normalize: string -> string, hasher: Option<string> -> string)
    requires Accounts.CreateUser(db, email, password, extra, normalize, hasher).Success?
    ensures var (db', id) := Accounts.CreateUser(db, email, password, extra, normalize, hasher).value;
            id in db'.users && UserText(db'.users[id]) == Some(normalize(email.value))
  {
  }
}
