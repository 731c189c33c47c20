/** The account helpers over the `users` table (src/lib/supabase-auth.ts):
    credential checks, the payloads written on create, update and OAuth
    sign-up, and deletion. bcrypt is a pair of functions passed in:
    `hash(password)` and `compare(password, hash)`. */
module SupabaseAuth {
  import opened Wrappers
  import opened Collections
  import opened Text
  import opened Types
  import opened SupabaseDevotionals

  /** `.single()`: the row when exactly one matches, otherwise an error. */
  function Single<T>(rows: seq<T>): (r: Option<T>)
    ensures r.Some? <==> |rows| == 1
    ensures r.Some? ==> r.value == rows[0]
  {
    if |rows| == 1 then Some(rows[0]) else None
  }

  function EmailIs(email: string): User -> bool
  {
    (u: User) => u.email == email
  }

  function UserIdIs(id: string): User -> bool
  {
    (u: User) => u.id == id
  }

  function UserIdIsNot(id: string): User -> bool
  {
    (u: User) => u.id != id
  }

  /** `.eq("email", email).single()`. */
  function UserByEmail(users: seq<User>, email: string): (r: Option<User>)
    ensures r.Some? ==> r.value in users && r.value.email == email
  {
    Single(Filter(users, EmailIs(email)))
  }

  /** `.eq("id", id).single()`. */
  function UserById(users: seq<User>, id: string): (r: Option<User>)
    ensures r.Some? ==> r.value in users && r.value.id == id
  {
    Single(Filter(users, UserIdIs(id)))
  }

  predicate IdsDistinct(users: seq<User>)
  {
    forall i, j :: 0 <= i < j < |users| ==> users[i].id != users[j].id
  }

  predicate EmailsDistinct(users: seq<User>)
  {
    forall i, j :: 0 <= i < j < |users| ==> users[i].email != users[j].email
  }

  /** With distinct emails the lookup finds exactly the user with that email. */
  lemma {:induction false} UserByEmailFinds(users: seq<User>, u: User)
    requires EmailsDistinct(users) && u in users
    ensures UserByEmail(users, u.email) == Some(u)
  {
    FilterAtMostOne(users, EmailIs(u.email));
  }

  /** With distinct ids the lookup finds exactly the user with that id. */
  lemma {:induction false} UserByIdFinds(users: seq<User>, u: User)
    requires IdsDistinct(users) && u in users
    ensures UserById(users, u.id) == Some(u)
  {
    FilterAtMostOne(users, UserIdIs(u.id));
  }

  /** verifyCredentials: a failed lookup, no single user with the email, or
      a password that does not match gives null; a matching password gives
      the user without the hash. bcrypt rejects a missing hash (an OAuth
      account) with an exception, the Err case here. */
  function VerifyCredentials(users: seq<User>, email: string, password: string, lookupFails: bool,
                             compare: (string, string) -> bool): (r: Result<Option<UserWithoutPassword>, string>)
    ensures lookupFails || UserByEmail(users, email).None? ==> r == Ok(None)
    ensures r.Err? <==> !lookupFails && UserByEmail(users, email).Some? && UserByEmail(users, email).value.passwordHash.None?
    ensures r.Ok? && r.value.Some? <==>
      && !lookupFails
      && UserByEmail(users, email).Some?
      && UserByEmail(users, email).value.passwordHash.Some?
      && compare(password, UserByEmail(users, email).value.passwordHash.value)
    ensures r.Ok? && r.value.Some? ==> r.value.value == WithoutPassword(UserByEmail(users, email).value)
  {
    if lookupFails then Ok(None)
    else
      match UserByEmail(users, email)
      case None => Ok(None)
      case Some(u) =>
        match u.passwordHash
        case None => Err("Illegal arguments")
        case Some(h) => if compare(password, h) then Ok(Some(WithoutPassword(u))) else Ok(None)
  }

  /** getUserById: the user without the hash, or null when the lookup
      fails or no single row has the id. */
  function GetUserById(users: seq<User>, id: string, lookupFails: bool): (r: Option<UserWithoutPassword>)
    ensures r.Some? <==> !lookupFails && UserById(users, id).Some?
    ensures r.Some? ==> r.value == WithoutPassword(UserById(users, id).value)
  {
    if lookupFails then None
    else
      match UserById(users, id)
      case None => None
      case Some(u) => Some(WithoutPassword(u))
  }

  function NewestUserFirst(): (UserWithoutPassword, UserWithoutPassword) -> bool
  {
    (a: UserWithoutPassword, b: UserWithoutPassword) => a.createdAt >= b.createdAt
  }

  function PublicRow(u: User): UserWithoutPassword
  {
    WithoutPassword(u)
  }

  /** The rows without the hash, in table order. */
  function Stripped(users: seq<User>): (r: seq<UserWithoutPassword>)
    ensures |r| == |users| && forall i :: 0 <= i < |users| ==> r[i] == WithoutPassword(users[i])
  {
    seq(|users|, i requires 0 <= i < |users| => WithoutPassword(users[i]))
  }

  /** getAllUsers: every user without the hash, each once, newest first. */
  function GetAllUsers(users: seq<User>): (r: seq<UserWithoutPassword>)
    ensures |r| == |users| && multiset(r) == multiset(Stripped(users))
    ensures forall u :: u in users ==> WithoutPassword(u) in r
    ensures forall x :: x in r ==> exists u :: u in users && WithoutPassword(u) == x
    ensures Sorted(r, NewestUserFirst())
  {
    var rows := Stripped(users);
    assert forall u :: u in users ==> WithoutPassword(u) in rows by {
      forall u | u in users ensures WithoutPassword(u) in rows {
        var i :| 0 <= i < |users| && users[i] == u;
        assert rows[i] == WithoutPassword(u);
      }
    }
    assert TotalPreorder(NewestUserFirst());
    SortSorted(rows, NewestUserFirst());
    SortMembers(rows, NewestUserFirst());
    Sort(rows, NewestUserFirst())
  }

  /** The argument of createUser. */
  datatype NewUser = NewUser(name: string, email: string, password: string, role: Option<Role>)

  /** The row createUser inserts: the password only as its hash, the role
      USER unless one is given. */
  function CreatedRow(data: NewUser, hash: string -> string, id: string, now: Timestamp): (u: User)
    ensures u.passwordHash == Some(hash(data.password))
    ensures u.role == (if data.role.Some? then data.role.value else USER)
    ensures u.id == id && u.name == data.name && u.email == data.email
  {
    User(id, data.name, data.email, Some(hash(data.password)), data.role.GetOr(USER), now, now)
  }

  /** The argument of updateUser, a partial record: None is an absent key. */
  datatype UserPatch = UserPatch(
    name: Option<string>,
    email: Option<string>,
    password: Option<string>,
    passwordHash: Option<string>,
    role: Option<Role>)

  /** updateUser's `updateData`: with a non-empty password, its hash under
      `password_hash` and no `password` key; otherwise the input as is. */
  function UpdatePayload(data: UserPatch, hash: string -> string): (r: UserPatch)
    ensures Given(data.password) ==> r == data.(password := None, passwordHash := Some(hash(data.password.value)))
    ensures !Given(data.password) ==> r == data
    ensures r.password.Some? ==> r.password == Some("")
  {
    if Given(data.password) then data.(passwordHash := Some(hash(data.password.value)), password := None)
    else data
  }

  /** A payload `.update(...).select(...).single()` can write: no `password`
      key, which is no column, and at least one column. For a payload with
      no column PostgREST updates nothing and returns no row, so `.single()`
      fails. */
  predicate Writable(p: UserPatch)
  {
    p.password.None? && (p.name.Some? || p.email.Some? || p.passwordHash.Some? || p.role.Some?)
  }

  /** A row after `.update(payload)`: each key present replaces its column. */
  function ApplyPatch(u: User, p: UserPatch): User
  {
    u.(name := p.name.GetOr(u.name),
       email := p.email.GetOr(u.email),
       passwordHash := if p.passwordHash.Some? then p.passwordHash else u.passwordHash,
       role := p.role.GetOr(u.role))
  }

  /** The rows after updating the row with `id`. */
  function UpdateUserRows(users: seq<User>, id: string, p: UserPatch): (r: seq<User>)
    ensures |r| == |users|
    ensures forall i :: 0 <= i < |users| ==> r[i] == if users[i].id == id then ApplyPatch(users[i], p) else users[i]
  {
    seq(|users|, i requires 0 <= i < |users| => if users[i].id == id then ApplyPatch(users[i], p) else users[i])
  }

  /** The name of a new OAuth account: `full_name`, else the part of the
      email before "@", else "Usuário". */
  function OAuthName(fullName: Option<string>, email: Option<string>): string
  {
    if Given(fullName) then fullName.value
    else if email.Some? && Split(email.value, '@')[0] != "" then Split(email.value, '@')[0]
    else "Usu\U{E1}rio"
  }

  /** The OAuth name is never empty; when it comes from the email it is the
      email's text up to its first "@". */
  lemma {:induction false} OAuthNameSpec(fullName: Option<string>, email: Option<string>)
    ensures OAuthName(fullName, email) != ""
    ensures Given(fullName) ==> OAuthName(fullName, email) == fullName.value
    ensures !Given(fullName) && email.Some? && OAuthName(fullName, email) != "Usu\U{E1}rio" ==>
      && OAuthName(fullName, email) <= email.value
      && '@' !in OAuthName(fullName, email)
      && (|OAuthName(fullName, email)| < |email.value| ==> email.value[|OAuthName(fullName, email)|] == '@')
  {
    if email.Some? {
      SplitHead(email.value, '@');
    }
  }

  /** The metadata keys the OAuth sign-up reads. */
  datatype OAuthMetadata = OAuthMetadata(fullName: Option<string>, email: Option<string>)

  /** The row inserted for a new OAuth account: no password, role USER, and
      "" for a missing email. */
  function OAuthRow(id: string, meta: OAuthMetadata, now: Timestamp): (u: User)
    ensures u.id == id && u.passwordHash.None? && u.role == USER
    ensures u.email == (if Given(meta.email) then meta.email.value else "")
    ensures u.name == OAuthName(meta.fullName, meta.email)
  {
    User(id, OAuthName(meta.fullName, meta.email), if Given(meta.email) then meta.email.value else "", None, USER, now, now)
  }

  datatype OAuthResult =
    | OAuthFailed(error: string)
    | OAuthExisting(user: User)
    | OAuthCreated(id: string, metadata: OAuthMetadata)

  /** deleteUser's answer. */
  datatype DeleteResult = DeleteResult(success: bool, error: Option<string>, devotionalsCount: Option<nat>)

  /** The `users` table. */
  class UserStore {
    var users: seq<User>

    /** The primary key: no two rows share an id. */
    predicate Valid()
      reads this
    {
      IdsDistinct(users)
    }

    constructor ()
      ensures Valid() && users == []
    {
      users := [];
    }

    /** createUser: inserts CreatedRow with the id the store draws; the
        insert fails on a store error or a taken id. */
    method CreateUser(data: NewUser, hash: string -> string, id: string, now: Timestamp, insertFails: bool)
      returns (r: Result<UserWithoutPassword, string>)
      requires Valid()
      modifies this
      ensures Valid()
      ensures r.Ok? <==> !insertFails && forall u :: u in old(users) ==> u.id != id
      ensures r.Ok? ==> users == old(users) + [CreatedRow(data, hash, id, now)]
      ensures r.Ok? ==> r.value == WithoutPassword(CreatedRow(data, hash, id, now))
      ensures r.Err? ==> users == old(users)
    {
      if insertFails || exists u :: u in users && u.id == id {
        return Err("insert failed");
      }
      var row := CreatedRow(data, hash, id, now);
      users := users + [row];
      r := Ok(WithoutPassword(row));
    }

    /** updateUser: writes UpdatePayload to the row with the id; the update
        fails on a store error, when the payload is not Writable, or when
        no row has the id (`.single()`). */
    method UpdateUser(id: string, data: UserPatch, hash: string -> string, updateFails: bool)
      returns (r: Result<UserWithoutPassword, string>)
      requires Valid()
      modifies this
      ensures Valid()
      ensures r.Ok? <==> !updateFails && Writable(UpdatePayload(data, hash)) && UserById(old(users), id).Some?
      ensures r.Ok? ==> users == UpdateUserRows(old(users), id, UpdatePayload(data, hash))
      ensures r.Ok? ==> r.value == WithoutPassword(ApplyPatch(UserById(old(users), id).value, UpdatePayload(data, hash)))
      ensures r.Err? ==> users == old(users)
    {
      var payload := UpdatePayload(data, hash);
      if updateFails || payload.password.Some? {
        return Err("update failed");
      }
      var found := UserById(users, id);
      if found.None? || !Writable(payload) {
        return Err("PGRST116");
      }
      var rows := UpdateUserRows(users, id, payload);
      assert forall i :: 0 <= i < |rows| ==> rows[i].id == users[i].id;
      users := rows;
      r := Ok(WithoutPassword(ApplyPatch(found.value, payload)));
    }

    /** deleteUser: counts the user's devotionals, then deletes the row;
        either step failing gives success = false with the step's message. */
    method DeleteUser(db: Tables, id: string, countError: Option<string>, deleteError: Option<string>)
      returns (r: DeleteResult)
      requires Valid()
      modifies this
      ensures Valid()
      ensures countError.Some? ==>
        r == DeleteResult(false, Some("Erro ao verificar devocionais: " + countError.value), None) && users == old(users)
      ensures countError.None? && deleteError.Some? ==>
        r == DeleteResult(false, Some("Erro ao deletar usu\U{E1}rio: " + deleteError.value), None) && users == old(users)
      ensures countError.None? && deleteError.None? ==>
        && r == DeleteResult(true, None, Some(|ByAuthor(db.devotionals, id)|))
        && users == Filter(old(users), UserIdIsNot(id))
    {
      if countError.Some? {
        return DeleteResult(false, Some("Erro ao verificar devocionais: " + countError.value), None);
      }
      var count := |ByAuthor(db.devotionals, id)|;
      if deleteError.Some? {
        return DeleteResult(false, Some("Erro ao deletar usu\U{E1}rio: " + deleteError.value), None);
      }
      FilterIsSubsequence(users, UserIdIsNot(id));
      SubsequenceIdsDistinct(Filter(users, UserIdIsNot(id)), users);
      users := Filter(users, UserIdIsNot(id));
      r := DeleteResult(true, None, Some(count));
    }

    /** checkAndCreateOAuthUser: a lookup error other than "no rows" fails
        without inserting; an existing row is returned as is; otherwise
        OAuthRow is inserted. */
    method CheckAndCreateOAuthUser(id: string, meta: OAuthMetadata, lookupError: Option<string>,
                                   insertError: Option<string>, now: Timestamp)
      returns (r: OAuthResult)
      requires Valid()
      modifies this
      ensures Valid()
      ensures lookupError.Some? ==> r == OAuthFailed(lookupError.value) && users == old(users)
      ensures lookupError.None? && UserById(old(users), id).Some? ==>
        r == OAuthExisting(UserById(old(users), id).value) && users == old(users)
      ensures lookupError.None? && UserById(old(users), id).None? && insertError.Some? ==>
        r == OAuthFailed(insertError.value) && users == old(users)
      ensures lookupError.None? && UserById(old(users), id).None? && insertError.None? ==>
        r == OAuthCreated(id, meta) && users == old(users) + [OAuthRow(id, meta, now)]
    {
      if lookupError.Some? {
        return OAuthFailed(lookupError.value);
      }
      var existing := UserById(users, id);
      if existing.Some? {
        return OAuthExisting(existing.value);
      }
      if insertError.Some? {
        return OAuthFailed(insertError.value);
      }
      forall u | u in users ensures u.id != id {
        if u.id == id {
          UserByIdFinds(users, u);
        }
      }
      users := users + [OAuthRow(id, meta, now)];
      r := OAuthCreated(id, meta);
    }
  }

  /** Leaving rows out keeps ids distinct. */
  lemma {:induction false} SubsequenceIdsDistinct(a: seq<User>, b: seq<User>)
    requires IsSubsequence(a, b) && IdsDistinct(b)
    ensures IdsDistinct(a)
  {
    SubsequenceSorted(a, b, (x: User, y: User) => x.id != y.id);
  }

  /** A user created with a password logs in with it, when bcrypt's compare
      accepts the password against its own hash and the email is new. */
  lemma {:induction false} CreatedUserLogsIn(users: seq<User>, data: NewUser, hash: string -> string,
                          compare: (string, string) -> bool, id: string, now: Timestamp)
    requires EmailsDistinct(users) && forall u :: u in users ==> u.email != data.email
    requires compare(data.password, hash(data.password))
    ensures VerifyCredentials(users + [CreatedRow(data, hash, id, now)], data.email, data.password, false, compare)
      == Ok(Some(WithoutPassword(CreatedRow(data, hash, id, now))))
  {
    var after := users + [CreatedRow(data, hash, id, now)];
    forall i, j | 0 <= i < j < |after| ensures after[i].email != after[j].email {
      if j < |users| {
        assert after[i] == users[i] && after[j] == users[j];
      } else {
        assert after[i] == users[i];
      }
    }
    UserByEmailFinds(after, CreatedRow(data, hash, id, now));
  }

  /** After a password change the user logs in with the new password, under
      the same assumption on compare and with the email left as it was. */
  lemma {:induction false} ChangedPasswordLogsIn(users: seq<User>, id: string, data: UserPatch, hash: string -> string,
                              compare: (string, string) -> bool, u: User)
    requires IdsDistinct(users) && EmailsDistinct(users) && u in users && u.id == id
    requires Given(data.password) && data.email.None?
    requires compare(data.password.value, hash(data.password.value))
    ensures VerifyCredentials(UpdateUserRows(users, id, UpdatePayload(data, hash)), u.email, data.password.value, false, compare)
      == Ok(Some(WithoutPassword(ApplyPatch(u, UpdatePayload(data, hash)))))
  {
    var p := UpdatePayload(data, hash);
    var after := UpdateUserRows(users, id, p);
    var k :| 0 <= k < |users| && users[k] == u;
    assert after[k] == ApplyPatch(u, p);
    forall i | 0 <= i < |users| ensures after[i].email == users[i].email {
    }
    forall i, j | 0 <= i < j < |after| ensures after[i].email != after[j].email {
      assert users[i].email != users[j].email;
    }
    UserByEmailFinds(after, after[k]);
  }

  /** An account created through OAuth has no password, so a password
      login for it ends in bcrypt's exception, never in success. */
  lemma {:induction false} OAuthAccountHasNoPasswordLogin(users: seq<User>, id: string, meta: OAuthMetadata, now: Timestamp,
                                       password: string, compare: (string, string) -> bool)
    requires EmailsDistinct(users) && Given(meta.email) && forall u :: u in users ==> u.email != meta.email.value
    ensures VerifyCredentials(users + [OAuthRow(id, meta, now)], meta.email.value, password, false, compare).Err?
  {
    var after := users + [OAuthRow(id, meta, now)];
    forall i, j | 0 <= i < j < |after| ensures after[i].email != after[j].email {
      if j < |users| {
        assert after[i] == users[i] && after[j] == users[j];
      } else {
        assert after[i] == users[i];
      }
    }
    UserByEmailFinds(after, OAuthRow(id, meta, now));
  }
}
