/**
 * The credential handlers: `POST /register` and `POST /login` on the `users`
 * table. The password hash and its comparison are functions the caller
 * supplies (the bcrypt library), and a token is the claim set it signs.
 */
module Auth {
  import opened Options
  import opened Tables
  import opened Js
  import opened Server

  const CredentialsRequiredMessage := "Username and password required"
  const RegisterErrorMessage := "Error registering user"
  const RegisteredMessage := "Пользователь зарегистрирован"
  const InvalidCredentialsMessage := "Неверные данные"

  /** `POST /register`: both fields must be non-empty; the row stores the hash
      of the password, and the token's claims are the new id and the username. */
  function Register(s: State, username: Option<string>, password: Option<string>,
                    hash: string -> string, insert: DbOutcome): (r: Transition)
    ensures r.next.images == s.images && r.next.blobs == s.blobs && r.next.bookings == s.bookings
    ensures !(Given(username) && Given(password)) ==>
              r == Transition(s, Reply(400, Message(CredentialsRequiredMessage)))
    ensures Given(username) && Given(password) && insert.DbErr? ==>
              r == Transition(s, Reply(500, Message(RegisterErrorMessage)))
    ensures HasStatus(r.response, 201) <==> Given(username) && Given(password) && insert.DbOk?
    ensures !HasStatus(r.response, 201) ==> r.next == s
    ensures r.response.Reply? && r.response.status in {201, 400, 500}
    ensures HasStatus(r.response, 201) ==>
              && r.response.body ==
                 Registered(RegisteredMessage, Claims(s.users.nextId, username.value), username.value)
              && (WellFormed(s.users) ==>
                    Get(r.next.users, s.users.nextId) == Some(User(username.value, hash(password.value))))
    ensures forall k :: k != s.users.nextId ==> Get(r.next.users, k) == Get(s.users, k)
    ensures Valid(s) ==> Valid(r.next)
  {
    if !Given(username) || !Given(password) then
      Transition(s, Reply(400, Message(CredentialsRequiredMessage)))
    else
      var hashed := hash(password.value);
      match insert
      case DbErr => Transition(s, Reply(500, Message(RegisterErrorMessage)))
      case DbOk =>
        var token := Claims(s.users.nextId, username.value);
        Transition(s.(users := Insert(s.users, User(username.value, hashed))),
                   Reply(201, Registered(RegisteredMessage, token, username.value)))
  }

  /** The position of the first row with this username. */
  function FirstUser(rows: seq<Row<User>>, name: string): (r: Option<nat>)
    ensures r.Some? ==> r.value < |rows| && rows[r.value].data.username == name
    ensures r.Some? ==> forall j :: 0 <= j < r.value ==> rows[j].data.username != name
    ensures r.None? ==> forall j :: 0 <= j < |rows| ==> rows[j].data.username != name
  {
    if |rows| == 0 then None
    else if rows[0].data.username == name then Some(0)
    else
      match FirstUser(rows[1..], name)
      case None => None
      case Some(i) => Some(i + 1)
  }

  /** `results[0]` of `SELECT * FROM users WHERE username = ?`; a missing
      username is bound as NULL, which matches no row. */
  function Account(users: Table<User>, username: Option<string>): (r: Option<Row<User>>)
    ensures username.None? ==> r.None?
    ensures r.None? <==>
              username.None? || forall i :: 0 <= i < |users.rows| ==> users.rows[i].data.username != username.value
    ensures r.Some? ==>
              exists i :: 0 <= i < |users.rows| && users.rows[i] == r.value
                && users.rows[i].data.username == username.value
                && forall j :: 0 <= j < i ==> users.rows[j].data.username != username.value
  {
    if username.None? then None
    else
      match FirstUser(users.rows, username.value)
      case None => None
      case Some(i) => Some(users.rows[i])
  }

  /** `POST /login`: a query error, an unknown username and a wrong password
      all get the same 401. A missing password for a known username makes the
      comparison reject inside the async callback, which nothing catches. */
  function Login(s: State, username: Option<string>, password: Option<string>,
                 compare: (string, string) -> bool, query: DbOutcome): (r: Transition)
    ensures r.next == s
    ensures r.response == Reply(401, Message(InvalidCredentialsMessage)) <==>
              || query.DbErr?
              || Account(s.users, username).None?
              || (password.Some? && !compare(password.value, Account(s.users, username).value.data.passwordHash))
    ensures r.response.Crash? <==>
              query.DbOk? && Account(s.users, username).Some? && password.None?
    ensures r.response.Reply? ==> r.response.status in {200, 401}
    ensures HasStatus(r.response, 200) ==>
              && username.Some? && password.Some?
              && exists i :: 0 <= i < |s.users.rows|
                   && s.users.rows[i].data.username == username.value
                   && (forall j :: 0 <= j < i ==> s.users.rows[j].data.username != username.value)
                   && compare(password.value, s.users.rows[i].data.passwordHash)
                   && r.response.body ==
                      LoggedIn(Claims(s.users.rows[i].id, username.value), username.value)
  {
    var rejected := Transition(s, Reply(401, Message(InvalidCredentialsMessage)));
    match query
    case DbErr => rejected
    case DbOk =>
      match Account(s.users, username)
      case None => rejected
      case Some(user) =>
        match password
        case None => Transition(s, Crash)
        case Some(p) =>
          if !compare(p, user.data.passwordHash) then rejected
          else
            var token := Claims(user.id, user.data.username);
            Transition(s, Reply(200, LoggedIn(token, user.data.username)))
  }

  /** Appending a row does not change which row comes first for a username
      that already had one. */
  lemma {:induction false} FirstUserAppend(rows: seq<Row<User>>, x: Row<User>, name: string)
    ensures FirstUser(rows, name).Some? ==> FirstUser(rows + [x], name) == FirstUser(rows, name)
    ensures FirstUser(rows, name).None? && x.data.username == name ==>
              FirstUser(rows + [x], name) == Some(|rows|)
  {
    if |rows| > 0 {
      assert (rows + [x])[1..] == rows[1..] + [x];
      FirstUserAppend(rows[1..], x, name);
    }
  }

  /** Registering a fresh username and then logging in with the same password
      (on a hash whose comparison accepts it) yields the registration's token. */
  lemma RegisterThenLogin(s: State, username: string, password: string,
                          hash: string -> string, compare: (string, string) -> bool)
    requires username != "" && password != ""
    requires forall i :: 0 <= i < |s.users.rows| ==> s.users.rows[i].data.username != username
    requires compare(password, hash(password))
    ensures var reg := Register(s, Some(username), Some(password), hash, DbOk);
            var login := Login(reg.next, Some(username), Some(password), compare, DbOk);
            && HasStatus(reg.response, 201)
            && login.response == Reply(200, LoggedIn(reg.response.body.token, username))
  {
    var reg := Register(s, Some(username), Some(password), hash, DbOk);
    var x := Row(s.users.nextId, User(username, hash(password)));
    assert reg.next.users.rows == s.users.rows + [x];
    FirstUserAppend(s.users.rows, x, username);
  }

  /** Once registered, a password the comparison rejects is answered exactly
      like an unknown username. */
  lemma WrongPasswordLooksUnknown(s: State, username: string, password: string, guess: string,
                                  stranger: string, hash: string -> string,
                                  compare: (string, string) -> bool)
    requires username != "" && password != ""
    requires forall i :: 0 <= i < |s.users.rows| ==> s.users.rows[i].data.username != username
    requires forall i :: 0 <= i < |s.users.rows| ==> s.users.rows[i].data.username != stranger
    requires stranger != username
    requires !compare(guess, hash(password))
    ensures var t := Register(s, Some(username), Some(password), hash, DbOk).next;
            && Login(t, Some(username), Some(guess), compare, DbOk).response
               == Reply(401, Message(InvalidCredentialsMessage))
            && Login(t, Some(stranger), Some(guess), compare, DbOk).response
               == Login(t, Some(username), Some(guess), compare, DbOk).response
  {
  }

  /** Registering a username a second time either fails with the generic 500
      (no conflict status) or adds a second row that login never reaches: every
      login attempt for the name is answered exactly as before, by the first
      account. */
  lemma SecondRegistrationShadowed(s: State, username: string, first: string, second: string,
                                   hash: string -> string, insert: DbOutcome,
                                   password: Option<string>, compare: (string, string) -> bool,
                                   query: DbOutcome)
    requires username != "" && first != "" && second != ""
    ensures var one := Register(s, Some(username), Some(first), hash, DbOk);
            var two := Register(one.next, Some(username), Some(second), hash, insert);
            && (two.response == Reply(500, Message(RegisterErrorMessage)) || HasStatus(two.response, 201))
            && Login(two.next, Some(username), password, compare, query).response
               == Login(one.next, Some(username), password, compare, query).response
  {
    var one := Register(s, Some(username), Some(first), hash, DbOk);
    var x := Row(s.users.nextId, User(username, hash(first)));
    assert one.next.users.rows == s.users.rows + [x];
    FirstUserAppend(s.users.rows, x, username);
    var two := Register(one.next, Some(username), Some(second), hash, insert);
    if insert.DbOk? {
      var y := Row(one.next.users.nextId, User(username, hash(second)));
      assert two.next.users.rows == one.next.users.rows + [y];
      FirstUserAppend(one.next.users.rows, y, username);
    }
  }

}
