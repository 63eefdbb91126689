/** Login state. The session cookie is an optional string; the account
    directory is passed in (the application always passes `Types.Users`). */
module Auth {
  import opened Wrappers
  import opened Types
  import Seqs

  /** The cookie's value: None when it is not set. */
  type Session = Option<string>

  datatype LoginResult = LoginResult(user: Option<User>, session: Session)

  predicate HasCredentials(a: User, username: string, password: string) {
    a.username == username && a.password == password
  }

  /** Ids unique and non-empty: what a directory needs for a login to be
      resumed from the cookie. */
  predicate ValidDirectory(dir: Directory) {
    UniqueIds(dir) && NonEmptyIds(dir)
  }

  /** Logs in as the first account with these credentials and stores its
      id in the session; on failure the session is left as it was. */
  function Login(dir: Directory, session: Session, username: string, password: string): (r: LoginResult)
    ensures r.user.Some? <==>
      exists i :: 0 <= i < |dir| && HasCredentials(dir[i], username, password)
    ensures r.user.Some? ==>
      exists i :: 0 <= i < |dir| && dir[i] == r.user.value &&
        HasCredentials(dir[i], username, password) &&
        forall j :: 0 <= j < i ==> !HasCredentials(dir[j], username, password)
    ensures r.user.Some? ==> r.session == Some(r.user.value.id)
    ensures r.user.None? ==> r.session == session
  {
    match Seqs.Find(dir, (a: User) => HasCredentials(a, username, password))
    case Some(a) => LoginResult(Some(a), Some(a.id))
    case None => LoginResult(None, session)
  }

  /** Removes the cookie. */
  function Logout(session: Session): (r: Session)
    ensures r.None?
  {
    None
  }

  /** The account the session names: none without a cookie, with an empty
      cookie (`getCurrentUser` tests the value for truthiness), or when no account
      carries the id; otherwise the first account with that id. */
  function GetCurrentUser(dir: Directory, session: Session): (r: Option<User>)
    ensures session.None? || session.value == "" ==> r.None?
    ensures session.Some? && session.value != "" ==>
      (r.Some? <==> exists i :: 0 <= i < |dir| && dir[i].id == session.value)
    ensures r.Some? ==>
      exists i :: 0 <= i < |dir| && dir[i] == r.value && dir[i].id == session.value &&
        forall j :: 0 <= j < i ==> dir[j].id != session.value
  {
    match session
    case None => None
    case Some(userId) =>
      if userId == "" then None
      else Seqs.Find(dir, (a: User) => a.id == userId)
  }

  /** The first account whose id differs from `currentUserId`. */
  function GetOtherUser(dir: Directory, currentUserId: string): (r: Option<User>)
    ensures r.None? <==> forall i :: 0 <= i < |dir| ==> dir[i].id == currentUserId
    ensures r.Some? ==>
      r.value.id != currentUserId &&
      exists i :: 0 <= i < |dir| && dir[i] == r.value &&
        forall j :: 0 <= j < i ==> dir[j].id == currentUserId
  {
    Seqs.Find(dir, (a: User) => a.id != currentUserId)
  }

  /** After logging out nobody is logged in. */
  lemma LogoutEndsSession(dir: Directory, session: Session)
    ensures GetCurrentUser(dir, Logout(session)).None?
  {
  }

  /** In a directory with unique, non-empty ids, the session a successful
      login leaves behind resolves to the account that logged in. */
  lemma LoginThenCurrentUser(dir: Directory, session: Session, username: string, password: string)
    requires ValidDirectory(dir)
    ensures var r := Login(dir, session, username, password);
      r.user.Some? ==> GetCurrentUser(dir, r.session) == r.user
  {
    var r := Login(dir, session, username, password);
    if r.user.Some? {
      var a := r.user.value;
      var i :| 0 <= i < |dir| && dir[i] == a && HasCredentials(dir[i], username, password);
      var c := GetCurrentUser(dir, r.session);
      assert a.id != "";
      assert c.Some?;
      var k :| 0 <= k < |dir| && dir[k] == c.value && dir[k].id == a.id;
      assert k == i;
    }
  }

  /** Unique usernames make the matching account unique: whoever logs in
      with an account's credentials gets that account. */
  lemma LoginFindsTheAccount(dir: Directory, session: Session, k: nat)
    requires UniqueUsernames(dir) && k < |dir|
    ensures Login(dir, session, dir[k].username, dir[k].password).user == Some(dir[k])
  {
    var r := Login(dir, session, dir[k].username, dir[k].password);
    assert HasCredentials(dir[k], dir[k].username, dir[k].password);
    var i :| 0 <= i < |dir| && dir[i] == r.user.value &&
      HasCredentials(dir[i], dir[k].username, dir[k].password) &&
      forall j :: 0 <= j < i ==> !HasCredentials(dir[j], dir[k].username, dir[k].password);
    assert i == k;
  }

  /** With the two shipped accounts each one's "other user" is the other
      account, and asking twice returns to where one started. */
  lemma ShippedOtherUser()
    ensures GetOtherUser(Users, Users[0].id) == Some(Users[1])
    ensures GetOtherUser(Users, Users[1].id) == Some(Users[0])
    ensures forall a :: a in Users ==>
      GetOtherUser(Users, a.id).Some? &&
      GetOtherUser(Users, GetOtherUser(Users, a.id).value.id) == Some(a)
  {
    assert GetOtherUser(Users, "user1") == Some(Users[1]);
    assert GetOtherUser(Users, "user2") == Some(Users[0]);
  }

  /** The shipped credentials log in; a wrong password does not and leaves
      the session alone. */
  lemma ShippedLogin(session: Session)
    ensures Login(Users, session, "alex", "password1") == LoginResult(Some(Users[0]), Some("user1"))
    ensures Login(Users, session, "jordan", "password2") == LoginResult(Some(Users[1]), Some("user2"))
    ensures Login(Users, session, "alex", "wrong") == LoginResult(None, session)
  {
    ShippedDirectory();
    LoginFindsTheAccount(Users, session, 0);
    LoginFindsTheAccount(Users, session, 1);
    assert !HasCredentials(Users[0], "alex", "wrong");
    assert !HasCredentials(Users[1], "alex", "wrong");
  }
}
