/** The login route (src/app/api/auth/login/route.ts): POST checks
    credentials and GET looks a user up by id, each answering with a status
    and either the user or an error text. */
module LoginRoute {
  import opened Wrappers
  import opened Types
  import opened SupabaseDevotionals
  import opened SupabaseAuth

  /** The JSON body of a POST; None for a key that is absent. */
  datatype LoginBody = LoginBody(email: Option<string>, password: Option<string>)

  /** The route's answer: 200 with the user, or an error status and text. */
  datatype AuthResponse =
    | Found(user: UserWithoutPassword)
    | Refused(status: int, error: string)
  {
    function Status(): int
    {
      if Found? then 200 else status
    }
  }

  const CredentialsRequired := "Email e senha s\U{E3}o obrigat\U{F3}rios"
  const InvalidCredentials := "Credenciais inv\U{E1}lidas"
  const InternalError := "Erro interno do servidor"
  const UserIdRequired := "ID do usu\U{E1}rio \U{E9} obrigat\U{F3}rio"
  const UserNotFound := "Usu\U{E1}rio n\U{E3}o encontrado"

  /** POST: a body that is no JSON, or a credential check that throws,
      gives 500; a missing or empty email or password gives 400 before any
      lookup; rejected credentials give 401; accepted ones 200. */
  function Post(users: seq<User>, body: Option<LoginBody>, lookupFails: bool,
                compare: (string, string) -> bool): (r: AuthResponse)
    ensures body.None? ==> r == Refused(500, InternalError)
    ensures body.Some? && (!Given(body.value.email) || !Given(body.value.password)) ==>
      r == Refused(400, CredentialsRequired)
    ensures r.Found? <==>
      && body.Some? && Given(body.value.email) && Given(body.value.password)
      && VerifyCredentials(users, body.value.email.value, body.value.password.value, lookupFails, compare).Ok?
      && VerifyCredentials(users, body.value.email.value, body.value.password.value, lookupFails, compare).value.Some?
    ensures r.Found? ==>
      r.user == VerifyCredentials(users, body.value.email.value, body.value.password.value, lookupFails, compare).value.value
    ensures r.Status() == 401 <==>
      && body.Some? && Given(body.value.email) && Given(body.value.password)
      && VerifyCredentials(users, body.value.email.value, body.value.password.value, lookupFails, compare) == Ok(None)
    ensures r.Status() == 401 ==> r.error == InvalidCredentials
    ensures r.Status() in {200, 400, 401, 500}
  {
    match body
    case None => Refused(500, InternalError)
    case Some(b) =>
      if !Given(b.email) || !Given(b.password) then Refused(400, CredentialsRequired)
      else
        match VerifyCredentials(users, b.email.value, b.password.value, lookupFails, compare)
        case Err(_) => Refused(500, InternalError)
        case Ok(None) => Refused(401, InvalidCredentials)
        case Ok(Some(u)) => Found(u)
  }

  /** GET with the `userId` search parameter: 400 without one, 404 when the
      lookup finds nothing, 200 with the user otherwise. */
  function Get(users: seq<User>, userId: Option<string>, lookupFails: bool): (r: AuthResponse)
    ensures !Given(userId) ==> r == Refused(400, UserIdRequired)
    ensures r.Found? <==> Given(userId) && GetUserById(users, userId.value, lookupFails).Some?
    ensures r.Found? ==> r.user == GetUserById(users, userId.value, lookupFails).value
    ensures Given(userId) && r.Refused? ==> r == Refused(404, UserNotFound)
  {
    if !Given(userId) then Refused(400, UserIdRequired)
    else
      match GetUserById(users, userId.value, lookupFails)
      case None => Refused(404, UserNotFound)
      case Some(u) => Found(u)
  }

  /** A user created with a non-empty email and password logs in through
      the route, when bcrypt's compare accepts a password against its own
      hash and no other row has that email. */
  lemma {:induction false} CreatedUserLogsInThroughRoute(users: seq<User>, data: NewUser, hash: string -> string,
                                      compare: (string, string) -> bool, id: string, now: Timestamp)
    requires EmailsDistinct(users) && forall u :: u in users ==> u.email != data.email
    requires compare(data.password, hash(data.password))
    requires data.email != "" && data.password != ""
    ensures Post(users + [CreatedRow(data, hash, id, now)], Some(LoginBody(Some(data.email), Some(data.password))), false, compare)
      == Found(WithoutPassword(CreatedRow(data, hash, id, now)))
  {
    CreatedUserLogsIn(users, data, hash, compare, id, now);
  }

  /** The user a POST signs in can be fetched by GET with its id, when ids
      are distinct and the id is not empty. */
  lemma {:induction false} SignedInUserIsFetchable(users: seq<User>, body: Option<LoginBody>, compare: (string, string) -> bool)
    requires IdsDistinct(users)
    requires Post(users, body, false, compare).Found?
    requires Post(users, body, false, compare).user.id != ""
    ensures Get(users, Some(Post(users, body, false, compare).user.id), false) == Post(users, body, false, compare)
  {
    var u := UserByEmail(users, body.value.email.value).value;
    UserByIdFinds(users, u);
  }
}
