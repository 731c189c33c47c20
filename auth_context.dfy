/** The auth provider (src/lib/auth-context.tsx): the signed-in user, the
    cached user list and the stored `userId`, kept in step with the
    account helpers by login, logout and the user-management actions. */
module AuthContext {
  import opened Wrappers
  import opened Collections
  import opened Types
  import opened SupabaseDevotionals
  import opened SupabaseAuth
  import opened LoginRoute

  /** `{ success, error? }` of the create and update actions. */
  datatype ActionResult = ActionResult(success: bool, error: Option<string>)

  /** `prevUsers.map(user => user.id === id ? updated : user)`. */
  function ReplaceById(users: seq<UserWithoutPassword>, id: string, updated: UserWithoutPassword): (r: seq<UserWithoutPassword>)
    ensures |r| == |users|
    ensures forall i :: 0 <= i < |users| && users[i].id == id ==> r[i] == updated
    ensures forall i :: 0 <= i < |users| && users[i].id != id ==> r[i] == users[i]
  {
    if users == [] then []
    else [if users[0].id == id then updated else users[0]] + ReplaceById(users[1..], id, updated)
  }

  function ListIdIsNot(id: string): UserWithoutPassword -> bool
  {
    (u: UserWithoutPassword) => u.id != id
  }

  /** `{ ...prevUser, ...userData }`: each given field overrides the user's. */
  function MergePatch(u: UserWithoutPassword, p: UserPatch): (r: UserWithoutPassword)
    ensures r.id == u.id && r.createdAt == u.createdAt && r.updatedAt == u.updatedAt
    ensures r.name == (if p.name.Some? then p.name.value else u.name)
    ensures r.email == (if p.email.Some? then p.email.value else u.email)
    ensures r.role == (if p.role.Some? then p.role.value else u.role)
  {
    u.(name := p.name.GetOr(u.name), email := p.email.GetOr(u.email), role := p.role.GetOr(u.role))
  }

  /** The ids of a list, in order. */
  function ListIds(users: seq<UserWithoutPassword>): (r: seq<string>)
    ensures |r| == |users| && forall i :: 0 <= i < |users| ==> r[i] == users[i].id
  {
    if users == [] then [] else [users[0].id] + ListIds(users[1..])
  }

  /** Replacing entries by an entry with the same id keeps the list of ids,
      so a list with distinct ids keeps them distinct. */
  lemma {:induction false} ReplaceKeepsIds(users: seq<UserWithoutPassword>, id: string, updated: UserWithoutPassword)
    requires updated.id == id
    ensures ListIds(ReplaceById(users, id, updated)) == ListIds(users)
  {
    var r := ReplaceById(users, id, updated);
    assert forall i :: 0 <= i < |users| ==> ListIds(r)[i] == ListIds(users)[i];
  }

  /** The provider's state. */
  class Context {
    var user: Option<UserWithoutPassword>
    var users: seq<UserWithoutPassword>
    /** localStorage's `userId` entry. */
    var storedUserId: Option<string>

    constructor ()
      ensures user == None && users == [] && storedUserId == None
    {
      user := None;
      users := [];
      storedUserId := None;
    }

    /** login: posts the credentials to the login route; true, with the
        user set and its id stored, exactly when the route answers 200;
        otherwise false and nothing changes. */
    method Login(store: UserStore, email: string, password: string, lookupFails: bool,
                 compare: (string, string) -> bool) returns (ok: bool)
      modifies this
      ensures ok <==> Post(store.users, Some(LoginBody(Some(email), Some(password))), lookupFails, compare).Found?
      ensures ok ==> user == Some(Post(store.users, Some(LoginBody(Some(email), Some(password))), lookupFails, compare).user)
      ensures ok ==> storedUserId == Some(user.value.id)
      ensures !ok ==> user == old(user) && storedUserId == old(storedUserId)
      ensures users == old(users)
    {
      var response := Post(store.users, Some(LoginBody(Some(email), Some(password))), lookupFails, compare);
      if response.Found? {
        user := Some(response.user);
        storedUserId := Some(response.user.id);
        ok := true;
      } else {
        ok := false;
      }
    }

    /** logout: whatever signOut does, the user and the stored id are gone. */
    method Logout()
      modifies this
      ensures user == None && storedUserId == None && users == old(users)
    {
      user := None;
      storedUserId := None;
    }

    /** fetchAllUsers: the list becomes getAllUsers' answer; when the query
        fails, getAllUsers throws, the list is kept and the error goes on to
        the caller (`ok` false). */
    method FetchAllUsers(store: UserStore, queryFails: bool) returns (ok: bool)
      modifies this
      ensures ok <==> !queryFails
      ensures ok ==> users == GetAllUsers(store.users)
      ensures !ok ==> users == old(users)
      ensures user == old(user) && storedUserId == old(storedUserId)
    {
      if queryFails {
        return false;
      }
      users := GetAllUsers(store.users);
      ok := true;
    }

    /** createNewUser: on success the new user goes to the front of the
        list; on failure the list is kept and the error returned. */
    method CreateNewUser(store: UserStore, data: NewUser, hash: string -> string, id: string,
                         now: Timestamp, insertFails: bool) returns (r: ActionResult)
      requires store.Valid()
      modifies this, store
      ensures store.Valid()
      ensures r.success <==> !insertFails && forall u :: u in old(store.users) ==> u.id != id
      ensures r.success ==> users == [WithoutPassword(CreatedRow(data, hash, id, now))] + old(users) && r.error == None
      ensures r.success ==> store.users == old(store.users) + [CreatedRow(data, hash, id, now)]
      ensures !r.success ==> users == old(users) && store.users == old(store.users) && r.error.Some?
      ensures user == old(user) && storedUserId == old(storedUserId)
    {
      var created := store.CreateUser(data, hash, id, now, insertFails);
      match created {
        case Ok(u) =>
          users := [u] + users;
          r := ActionResult(true, None);
        case Err(e) =>
          r := ActionResult(false, Some(e));
      }
    }

    /** updateExistingUser: on success the entries with the id become the
        updated row and, when the id is the signed-in user's, that user
        takes the given fields; on failure nothing in the provider changes. */
    method UpdateExistingUser(store: UserStore, id: string, data: UserPatch, hash: string -> string,
                              updateFails: bool) returns (r: ActionResult)
      requires store.Valid()
      modifies this, store
      ensures store.Valid()
      ensures r.success <==> !updateFails && Writable(UpdatePayload(data, hash)) && UserById(old(store.users), id).Some?
      ensures r.success ==> (users ==
        ReplaceById(old(users), id, WithoutPassword(ApplyPatch(UserById(old(store.users), id).value, UpdatePayload(data, hash)))))
      ensures r.success ==> store.users == UpdateUserRows(old(store.users), id, UpdatePayload(data, hash))
      ensures r.success && old(user).Some? && old(user).value.id == id ==> user == Some(MergePatch(old(user).value, data))
      ensures !(r.success && old(user).Some? && old(user).value.id == id) ==> user == old(user)
      ensures !r.success ==> users == old(users) && store.users == old(store.users) && r.error.Some?
      ensures storedUserId == old(storedUserId)
    {
      var updated := store.UpdateUser(id, data, hash, updateFails);
      match updated {
        case Ok(u) =>
          users := ReplaceById(users, id, u);
          if user.Some? && user.value.id == id {
            user := Some(MergePatch(user.value, data));
          }
          r := ActionResult(true, None);
        case Err(e) =>
          r := ActionResult(false, Some(e));
      }
    }

    /** deleteExistingUser: on success every entry with the id leaves the
        list and deleting the signed-in user logs out; the helper's result
        is returned as is. */
    method DeleteExistingUser(db: Tables, store: UserStore, id: string, countError: Option<string>,
                              deleteError: Option<string>) returns (r: DeleteResult)
      requires store.Valid()
      modifies this, store
      ensures store.Valid()
      ensures r.success <==> countError.None? && deleteError.None?
      ensures r.success ==> users == Filter(old(users), ListIdIsNot(id)) && store.users == Filter(old(store.users), UserIdIsNot(id))
      ensures r.success ==> r.devotionalsCount == Some(|ByAuthor(db.devotionals, id)|)
      ensures r.success && old(user).Some? && old(user).value.id == id ==> user == None && storedUserId == None
      ensures !(r.success && old(user).Some? && old(user).value.id == id) ==>
        user == old(user) && storedUserId == old(storedUserId)
      ensures !r.success ==> users == old(users) && store.users == old(store.users) && r.error.Some?
    {
      r := store.DeleteUser(db, id, countError, deleteError);
      if r.success {
        users := Filter(users, ListIdIsNot(id));
        if user.Some? && user.value.id == id {
          Logout();
        }
      }
    }
  }

  /** After a delete the list holds no entry with the id and keeps the
      others in their order. */
  lemma {:induction false} DeletedUserLeavesList(users: seq<UserWithoutPassword>, id: string)
    ensures forall u :: u in Filter(users, ListIdIsNot(id)) ==> u.id != id
    ensures forall u :: u in users && u.id != id ==> u in Filter(users, ListIdIsNot(id))
    ensures IsSubsequence(Filter(users, ListIdIsNot(id)), users)
  {
    FilterIsSubsequence(users, ListIdIsNot(id));
  }
}
