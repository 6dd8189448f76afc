/**
 * Password hashing and the login decision.  The hasher is kept abstract: a
 * pair of total functions of which only the round trip and "a digest is not
 * its plaintext" are assumed (predicate Sound).
 */
module Auth {
  import opened Types

  const UserNotFound := "User not found!"
  const InvalidPassword := "Invalid password!"
  const LoginSuccessful := "Login successful!"

  /** The salt that makes each digest different is drawn at random; here it is an argument. */
  type Salt = nat

  datatype Hasher = Hasher(hash: (string, Salt) -> string, compare: (string, string) -> bool)

  /** What the model assumes of the hasher: a digest verifies against its plaintext and differs from it. */
  ghost predicate Sound(h: Hasher) {
    forall p, s :: h.compare(p, h.hash(p, s)) && h.hash(p, s) != p
  }

  /**
   * `User.findOne({ username })`: the position of the first user, in the
   * order of the sequence, whose username matches, or None when no user has
   * it.  The store keeps users in insertion order, standing in for the
   * collection's natural order.
   */
  function FindOne(users: seq<User>, username: string): (k: Option<nat>)
    ensures k.None? <==> forall j :: 0 <= j < |users| ==> users[j].username != username
    ensures k.Some? ==> k.value < |users| && users[k.value].username == username
    ensures k.Some? ==> forall j :: 0 <= j < k.value ==> users[j].username != username
  {
    if |users| == 0 then None
    else if users[0].username == username then Some(0)
    else
      match FindOne(users[1..], username)
      case None => None
      case Some(i) => Some(i + 1)
  }

  /** The login decision chain: unknown user, then wrong password, then success. */
  function LoginStatus(h: Hasher, users: seq<User>, username: string, password: string): (msg: string)
    ensures msg == UserNotFound <==> FindOne(users, username).None?
    ensures msg == InvalidPassword <==>
              FindOne(users, username).Some?
              && !h.compare(password, users[FindOne(users, username).value].password)
    ensures msg == LoginSuccessful <==>
              FindOne(users, username).Some?
              && h.compare(password, users[FindOne(users, username).value].password)
  {
    match FindOne(users, username)
    case None => UserNotFound
    case Some(k) => if h.compare(password, users[k].password) then LoginSuccessful else InvalidPassword
  }

  /** Appending users never changes who findOne picks for a name already taken. */
  lemma {:induction false} FindOneAppend(users: seq<User>, more: seq<User>, username: string)
    requires FindOne(users, username).Some?
    ensures FindOne(users + more, username) == FindOne(users, username)
  {
    if users[0].username != username {
      assert (users + more)[1..] == users[1..] + more;
      FindOneAppend(users[1..], more, username);
    }
  }

  /**
   * Signing up with a fresh username and then logging in with the same
   * password succeeds, and the stored digest is not the password.
   */
  lemma LoginAfterSignup(h: Hasher, users: seq<User>, u: User, password: string, salt: Salt)
    requires Sound(h)
    requires forall j :: 0 <= j < |users| ==> users[j].username != u.username
    requires u.password == h.hash(password, salt)
    ensures u.password != password
    ensures LoginStatus(h, users + [u], u.username, password) == LoginSuccessful
  {
    var all := users + [u];
    assert all[|users|].username == u.username;
  }

  /**
   * With the users in insertion order and no uniqueness constraint on the
   * name, a later signup under a name already taken cannot be logged into:
   * findOne keeps the earlier user.
   */
  lemma LoginIgnoresLaterNamesake(h: Hasher, users: seq<User>, u: User, password: string)
    requires FindOne(users, u.username).Some?
    ensures LoginStatus(h, users + [u], u.username, password) == LoginStatus(h, users, u.username, password)
  {
    FindOneAppend(users, [u], u.username);
    var k := FindOne(users, u.username).value;
    assert (users + [u])[k] == users[k];
  }
}
