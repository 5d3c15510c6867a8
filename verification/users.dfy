/**
 * The user table of users.json (register_user, authenticate) and the login rule that
 * makes a player a developer (able to use the solver) when the username ends in "+devkey".
 * The JSON file is an in-memory map from username to password; a missing or corrupt file
 * is the empty map.
 */
module Users {
  import opened Wrappers
  import opened Text

  /** DEV_KEY */
  const DevKey: string := "+devkey"

  /** `username.endswith(DEV_KEY)` */
  predicate IsDeveloper(username: string) {
    EndsWith(username, DevKey)
  }

  /** Any name followed by the developer key is a developer name ... */
  lemma DeveloperKeySuffices(name: string)
    ensures IsDeveloper(name + DevKey)
  {
    assert (name + DevKey)[|name|..] == DevKey;
  }

  /** ... and every developer name is some name followed by the developer key. */
  lemma DeveloperNameSplits(username: string)
    requires IsDeveloper(username)
    ensures |username| >= |DevKey|
    ensures username == username[..|username| - |DevKey|] + DevKey
  {
  }

  /** What a login attempt leads to: rejected, or logged in with or without developer rights. */
  datatype LoginResult = Rejected | LoggedIn(isDeveloper: bool)

  class UserTable {
    var users: map<string, string>

    /** A table holding what the user file held (empty when it is missing or corrupt). */
    constructor (users: map<string, string>)
      ensures this.users == users
    {
      this.users := users;
    }

    /** users.get(username) */
    function Get(username: string): Option<string>
      reads this
    {
      if username in users then Some(users[username]) else None
    }

    /** authenticate: `users.get(username) == password`, so an unknown user never authenticates. */
    function Authenticate(username: string, password: string): (ok: bool)
      reads this
      ensures ok <==> username in users && users[username] == password
    {
      Get(username) == Some(password)
    }

    /** register_user: refuses a taken username, otherwise stores the password. */
    method RegisterUser(username: string, password: string) returns (ok: bool)
      modifies this
      ensures ok <==> username !in old(users)
      ensures users == if ok then old(users)[username := password] else old(users)
      ensures ok ==> Authenticate(username, password)
      ensures forall u, p :: u != username ==> (Authenticate(u, p) <==> old(Authenticate(u, p)))
    {
      if username in users {
        return false;
      }
      users := users[username := password];
      ok := true;
    }

    /**
     * register: both fields are stripped, then register_user is called. A registration that
     * succeeds lets the same two inputs log in.
     */
    method Register(usernameInput: string, passwordInput: string) returns (ok: bool)
      modifies this
      ensures ok <==> Strip(usernameInput) !in old(users)
      ensures users == if ok then old(users)[Strip(usernameInput) := Strip(passwordInput)] else old(users)
      ensures ok ==> Login(usernameInput, passwordInput).LoggedIn?
    {
      ok := RegisterUser(Strip(usernameInput), Strip(passwordInput));
    }

    /** login: both fields are stripped; a developer is a logged-in user whose name ends in the key. */
    function Login(usernameInput: string, passwordInput: string): (r: LoginResult)
      reads this
      ensures r.LoggedIn? <==> Authenticate(Strip(usernameInput), Strip(passwordInput))
      ensures r.LoggedIn? ==> (r.isDeveloper <==> IsDeveloper(Strip(usernameInput)))
    {
      var username := Strip(usernameInput);
      var password := Strip(passwordInput);
      if Authenticate(username, password) then LoggedIn(IsDeveloper(username)) else Rejected
    }
  }
}
