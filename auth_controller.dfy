// register, login and logout (src/controllers/auth.controller.js) over the
// users table. bcrypt's hash and compare and jsonwebtoken's sign are
// parameters: the model relies on nothing about them beyond what each lemma
// states in its requires.
module AuthController {
  import opened Js
  import opened Schema
  import AuthMiddleware

  /** The payload register and login sign: `{ id, role }` (the 8h expiry is not modelled). */
  datatype TokenClaims = TokenClaims(id: int, role: string)

  /** The responses of the three handlers. */
  datatype AuthResponse =
    | Registered(token: string, id: int, email: string, fullName: string, role: string)
    | LoggedIn(token: string, id: int, email: string, fullName: string, role: string, department: Option<string>)
    | LoggedOut
    | MissingFields
    | LoginMissingFields
    | EmailTaken
    | InvalidCredentials
  {
    function Status(): int {
      match this
      case Registered(_, _, _, _, _) => 201
      case LoggedIn(_, _, _, _, _, _) => 200
      case LoggedOut => 200
      case MissingFields => 400
      case LoginMissingFields => 400
      case EmailTaken => 400
      case InvalidCredentials => 401
    }

    function Message(): string {
      match this
      case Registered(_, _, _, _, _) => "Cuenta creada correctamente"
      case LoggedIn(_, _, _, _, _, _) => "Login exitoso"
      case LoggedOut => "Sesión cerrada correctamente"
      case MissingFields => "Por favor proporciona todos los campos requeridos"
      case LoginMissingFields => "Por favor proporciona email y contraseña"
      case EmailTaken => "El correo ya está registrado"
      case InvalidCredentials => "Credenciales inválidas"
    }
  }

  predicate EmailInUse(rows: seq<User>, email: string) {
    exists u :: u in rows && u.email == email
  }

  ghost predicate UniqueEmails(rows: seq<User>) {
    forall i, j :: 0 <= i < j < |rows| ==> rows[i].email != rows[j].email
  }

  /** The position of the first user with that email, or the table length when there is none. */
  function FirstIndex(rows: seq<User>, email: string): (k: nat)
    ensures k <= |rows|
    ensures forall j :: 0 <= j < k ==> rows[j].email != email
    ensures k < |rows| ==> rows[k].email == email
  {
    if rows == [] || rows[0].email == email then 0
    else 1 + FirstIndex(rows[1..], email)
  }

  /** `SELECT * FROM users WHERE email = ?`, first row: the first user with that email. */
  function FirstWithEmail(rows: seq<User>, email: string): (r: Option<User>)
    ensures r.None? <==> !EmailInUse(rows, email)
    ensures r.Some? ==> r.value == rows[FirstIndex(rows, email)] && r.value.email == email
  {
    var k := FirstIndex(rows, email);
    if k < |rows| then Some(rows[k])
    else
      assert forall u :: u in rows ==> u.email != email by {
        forall u | u in rows ensures u.email != email {
          var j :| 0 <= j < |rows| && rows[j] == u;
        }
      }
      None
  }

  /** The row register inserts: the hashed password, the role as sent, no department. */
  function NewUser(id: int, fullName: string, email: string, password: string, role: string, now: int,
                   hash: string -> string): (u: User)
    ensures u.id == id && u.fullName == fullName && u.email == email && u.role == role
    ensures u.password == hash(password) && u.department == None && u.createdAt == now
  {
    User(id, fullName, email, hash(password), role, None, now)
  }

  /** register on a table whose next id is `nextId`. */
  function RegisterOutcome(rows: seq<User>, nextId: int, fullName: Option<string>, email: Option<string>,
                           password: Option<string>, role: Option<string>,
                           hash: string -> string, sign: TokenClaims -> string): (r: AuthResponse)
    ensures r.Registered? || r == MissingFields || r == EmailTaken
    ensures r == MissingFields ==> r.Status() == 400 && r.Message() == "Por favor proporciona todos los campos requeridos"
    ensures r == MissingFields <==>
      !Truthy(fullName) || !Truthy(email) || !Truthy(password) || !Truthy(role)
    ensures r == EmailTaken <==>
      Truthy(fullName) && Truthy(email) && Truthy(password) && Truthy(role) && EmailInUse(rows, email.value)
    ensures r.Registered? ==>
      && r.id == nextId && r.email == email.value && r.fullName == fullName.value && r.role == role.value
      && r.token == sign(TokenClaims(nextId, role.value))
  {
    if !Truthy(fullName) || !Truthy(email) || !Truthy(password) || !Truthy(role) then MissingFields
    else if FirstWithEmail(rows, email.value).Some? then EmailTaken
    else Registered(sign(TokenClaims(nextId, role.value)), nextId, email.value, fullName.value, role.value)
  }

  /** login: 400 on a missing field, the same 401 for an unknown email and for a wrong password. */
  function LoginOutcome(rows: seq<User>, email: Option<string>, password: Option<string>,
                        compare: (string, string) -> bool, sign: TokenClaims -> string): (r: AuthResponse)
    ensures r.LoggedIn? || r == LoginMissingFields || r == InvalidCredentials
    ensures r == LoginMissingFields <==> !Truthy(email) || !Truthy(password)
    ensures r == LoginMissingFields ==> r.Status() == 400 && r.Message() == "Por favor proporciona email y contraseña"
    ensures r == InvalidCredentials <==>
      Truthy(email) && Truthy(password) &&
      (!EmailInUse(rows, email.value) || !compare(password.value, FirstWithEmail(rows, email.value).value.password))
    ensures r.LoggedIn? ==>
      var u := FirstWithEmail(rows, email.value).value;
      && u in rows && u.email == email.value && compare(password.value, u.password)
      && r == LoggedIn(sign(TokenClaims(u.id, u.role)), u.id, u.email, u.fullName, u.role, u.department)
  {
    if !Truthy(email) || !Truthy(password) then LoginMissingFields
    else
      match FirstWithEmail(rows, email.value)
      case None => InvalidCredentials
      case Some(u) =>
        if !compare(password.value, u.password) then InvalidCredentials
        else LoggedIn(sign(TokenClaims(u.id, u.role)), u.id, u.email, u.fullName, u.role, u.department)
  }

  /** The users table. */
  class UsersTable {
    var rows: seq<User>
    var nextId: int

    ghost predicate Valid()
      reads this
    {
      && nextId >= 1
      && (forall i :: 0 <= i < |rows| ==> 1 <= rows[i].id < nextId)
      && (forall i, j :: 0 <= i < j < |rows| ==> rows[i].id < rows[j].id)
      && UniqueEmails(rows)
    }

    constructor ()
      ensures Valid() && rows == [] && nextId == 1
    {
      rows := [];
      nextId := 1;
    }

    /** The email lookup both handlers run, as a scan of the table. */
    method FindByEmail(email: string) returns (found: Option<User>)
      ensures found == FirstWithEmail(rows, email)
      ensures found.None? <==> forall u :: u in rows ==> u.email != email
      ensures found.Some? ==> found.value in rows && found.value.email == email
    {
      var i := 0;
      while i < |rows|
        invariant 0 <= i <= |rows|
        invariant forall k :: 0 <= k < i ==> rows[k].email != email
      {
        if rows[i].email == email {
          return Some(rows[i]);
        }
        i := i + 1;
      }
      return None;
    }

    /** register: validate, refuse a taken email, else insert one row and sign `{id, role}`. */
    method Register(fullName: Option<string>, email: Option<string>, password: Option<string>,
                    role: Option<string>, now: int, hash: string -> string, sign: TokenClaims -> string)
      returns (resp: AuthResponse)
      requires Valid()
      modifies this
      ensures Valid()
      ensures resp == RegisterOutcome(old(rows), old(nextId), fullName, email, password, role, hash, sign)
      ensures resp.Registered? ==>
        && rows == old(rows) + [NewUser(old(nextId), fullName.value, email.value, password.value, role.value, now, hash)]
        && nextId == old(nextId) + 1
      ensures !resp.Registered? ==> rows == old(rows) && nextId == old(nextId)
    {
      if !Truthy(fullName) || !Truthy(email) || !Truthy(password) || !Truthy(role) {
        return MissingFields;
      }
      var existing := FindByEmail(email.value);
      if existing.Some? {
        return EmailTaken;
      }
      var id := nextId;
      rows := rows + [NewUser(id, fullName.value, email.value, password.value, role.value, now, hash)];
      nextId := nextId + 1;
      resp := Registered(sign(TokenClaims(id, role.value)), id, email.value, fullName.value, role.value);
    }

    /** login: looks the user up and compares the password; the table is only read. */
    method Login(email: Option<string>, password: Option<string>,
                 compare: (string, string) -> bool, sign: TokenClaims -> string)
      returns (resp: AuthResponse)
      ensures resp == LoginOutcome(rows, email, password, compare, sign)
    {
      if !Truthy(email) || !Truthy(password) {
        return LoginMissingFields;
      }
      var found := FindByEmail(email.value);
      if found.None? {
        return InvalidCredentials;
      }
      var u := found.value;
      if !compare(password.value, u.password) {
        return InvalidCredentials;
      }
      resp := LoggedIn(sign(TokenClaims(u.id, u.role)), u.id, u.email, u.fullName, u.role, u.department);
    }

    /** logout: the session ends on the client; nothing here changes. */
    method Logout() returns (resp: AuthResponse)
      ensures resp.Status() == 200 && resp.Message() == "Sesión cerrada correctamente"
    {
      resp := LoggedOut;
    }
  }

  /**
   * A client cannot tell an unknown email from a wrong password: both answer
   * 401 with the same message.
   */
  lemma FailuresIndistinguishable(rows: seq<User>, unknown: string, known: string, password: string,
                                  compare: (string, string) -> bool, sign: TokenClaims -> string)
    requires unknown != "" && known != "" && password != ""
    requires !EmailInUse(rows, unknown)
    requires EmailInUse(rows, known) && !compare(password, FirstWithEmail(rows, known).value.password)
    ensures var a := LoginOutcome(rows, Some(unknown), Some(password), compare, sign);
            var b := LoginOutcome(rows, Some(known), Some(password), compare, sign);
            a == b && a.Status() == 401 && a.Message() == "Credenciales inválidas"
  {
  }

  /** With unique emails the lookup finds the one user with that email. */
  lemma FirstWithEmailUnique(rows: seq<User>, k: int)
    requires UniqueEmails(rows) && 0 <= k < |rows|
    ensures FirstWithEmail(rows, rows[k].email) == Some(rows[k])
  {
    assert rows[k] in rows;
    var m := FirstIndex(rows, rows[k].email);
    assert m == k;
  }

  /**
   * Whoever registers can then log in with the same password, when the
   * password comparison accepts a password against its own hash, and gets
   * the new id and role back.
   */
  lemma RegisterThenLogin(rows: seq<User>, nextId: int, fullName: string, email: string, password: string,
                          role: string, now: int, hash: string -> string,
                          compare: (string, string) -> bool, sign: TokenClaims -> string)
    requires UniqueEmails(rows)
    requires RegisterOutcome(rows, nextId, Some(fullName), Some(email), Some(password), Some(role), hash, sign).Registered?
    requires compare(password, hash(password))
    ensures var after := rows + [NewUser(nextId, fullName, email, password, role, now, hash)];
            var r := LoginOutcome(after, Some(email), Some(password), compare, sign);
            r.LoggedIn? && r.id == nextId && r.role == role && r.token == sign(TokenClaims(nextId, role))
  {
    var after := rows + [NewUser(nextId, fullName, email, password, role, now, hash)];
    assert !EmailInUse(rows, email);
    forall i, j | 0 <= i < j < |after| ensures after[i].email != after[j].email {
      if j == |rows| {
        assert after[i] in rows;
      }
    }
    FirstWithEmailUnique(after, |rows|);
  }

  /** The claims the middleware reads back from a token signed with `{id, role}`. */
  function ClaimsOf(c: TokenClaims): AuthMiddleware.Claims {
    AuthMiddleware.Claims(Some(c.id), None, Some(c.role), None)
  }

  /** jwt.verify accepts exactly what jwt.sign produced, and tokens are non-empty and space-free. */
  ghost predicate SignVerifyAgree(sign: TokenClaims -> string, verify: string -> Option<AuthMiddleware.Claims>) {
    forall c :: verify(sign(c)) == Some(ClaimsOf(c)) && sign(c) != "" && ' ' !in sign(c)
  }

  /**
   * The token login issues, sent back as "<scheme> <token>", passes the
   * middleware with the user's own id and role.
   */
  lemma LoginTokenRoundTrip(rows: seq<User>, email: Option<string>, password: Option<string>,
                            compare: (string, string) -> bool, sign: TokenClaims -> string,
                            verify: string -> Option<AuthMiddleware.Claims>, scheme: string)
    requires forall u :: u in rows ==> u.id >= 1
    requires SignVerifyAgree(sign, verify)
    requires ' ' !in scheme
    ensures var r := LoginOutcome(rows, email, password, compare, sign);
      r.LoggedIn? ==>
        var m := AuthMiddleware.VerifyToken(Some(scheme + " " + r.token), verify);
        && m.Next?
        && m.userId == Some(r.id)
        && m.userRole == (if r.role == "" then None else Some(r.role))
  {
    var r := LoginOutcome(rows, email, password, compare, sign);
    if r.LoggedIn? {
      var c := TokenClaims(r.id, r.role);
      assert r.token == sign(c);
      AuthMiddleware.SchemeIgnored(scheme, sign(c));
    }
  }
}
