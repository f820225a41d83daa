/** POST /api/auth/login: one read-only lookup over the `users` rows. */
module Auth {
  import opened Wrappers
  import opened Decimal
  import opened Schema
  import opened Http

  datatype LoginBody = LoginBody(message: string, token: string)

  const TokenPrefix := "dummy-token-"

  /** `WHERE email = ? AND password = ?` on string fields; an absent field binds
      NULL, which equals nothing. */
  predicate Matches(u: User, email: Option<string>, password: Option<string>) {
    email == Some(u.email) && password == Some(u.password)
  }

  /** `getAsync`: the first row the SELECT yields, or undefined. */
  function FirstMatch(users: seq<User>, email: Option<string>, password: Option<string>): (r: Option<User>)
    ensures r.Some? ==> r.value in users && Matches(r.value, email, password)
    ensures r.None? <==> forall u :: u in users ==> !Matches(u, email, password)
    decreases |users|
  {
    if users == [] then None
    else if Matches(users[0], email, password) then Some(users[0])
    else FirstMatch(users[1..], email, password)
  }

  /** The token: the fixed prefix followed by the user's id in decimal. The id is
      rendered exactly; the program receives it as a JavaScript Number, which
      agrees with this for ids up to 2^53. */
  function Token(id: int): string {
    TokenPrefix + IntText(id)
  }

  /** The handler. It returns a reply and writes nothing. */
  function Login(users: seq<User>, email: Option<string>, password: Option<string>): (r: Reply<LoginBody>)
    ensures r.Ok? || r == InvalidCredentials("Invalid credentials")
    ensures r.Ok? <==> exists u :: u in users && Matches(u, email, password)
    ensures r.Ok? ==> r.body.message == "Login successful"
    ensures r.Ok? ==> exists u :: u in users && Matches(u, email, password) && r.body.token == Token(u.id)
  {
    match FirstMatch(users, email, password)
    case Some(u) => Ok(LoginBody("Login successful", Token(u.id)))
    case None => InvalidCredentials("Invalid credentials")
  }

  /** Emails are unique, so at most one row matches and the token names that row's user. */
  lemma LoginUnique(users: seq<User>, u: User, email: Option<string>, password: Option<string>)
    requires UsersOk(users)
    requires u in users && Matches(u, email, password)
    ensures Login(users, email, password) == Ok(LoginBody("Login successful", Token(u.id)))
  {
    var v := FirstMatch(users, email, password).value;
    var i :| 0 <= i < |users| && users[i] == u;
    var j :| 0 <= j < |users| && users[j] == v;
    assert users[i].email == users[j].email;
  }

  /** Distinct users get distinct tokens, and the id can be read back from one. */
  lemma TokenIdentifiesUser(a: int, b: int)
    ensures Token(a) == Token(b) ==> a == b
    ensures ParseInt(Token(a)[|TokenPrefix|..]) == Some(a)
  {
    assert Token(a)[|TokenPrefix|..] == IntText(a);
    assert Token(b)[|TokenPrefix|..] == IntText(b);
    ParseIntText(a);
    IntTextInjective(a, b);
  }
}
