/** The profile page (src/app/admin/perfil/page.tsx): the password checks,
    the changed-fields payload sent to updateExistingUser, and the edit,
    cancel and save transitions of the form. */
module ProfilePage {
  import opened Wrappers
  import opened Types
  import opened SupabaseAuth
  import opened AuthContext

  /** The `formData` state object. */
  datatype ProfileForm = ProfileForm(name: string, email: string, password: string, confirmPassword: string)

  const Mismatch := "As senhas n\U{E3}o coincidem"
  const TooShort := "A senha deve ter pelo menos 6 caracteres"
  const Saved := "Perfil atualizado com sucesso!"
  const SaveFailed := "Erro ao atualizar perfil"

  /** The form loaded from the signed-in user, with both passwords empty. */
  function FormOf(user: Option<UserWithoutPassword>): (f: ProfileForm)
    ensures f.password == "" && f.confirmPassword == ""
    ensures user.Some? ==> f.name == user.value.name && f.email == user.value.email
    ensures user.None? ==> f.name == "" && f.email == ""
  {
    match user
    case Some(u) => ProfileForm(u.name, u.email, "", "")
    case None => ProfileForm("", "", "", "")
  }

  /** handleSave's checks, in order: an empty password passes both; a
      password that differs from its confirmation fails first; one shorter
      than six characters fails next. */
  function Validate(f: ProfileForm): (r: Option<string>)
    ensures r.None? <==> f.password == "" || (f.password == f.confirmPassword && |f.password| >= 6)
    ensures f.password != "" && f.password != f.confirmPassword ==> r == Some(Mismatch)
    ensures f.password != "" && f.password == f.confirmPassword && |f.password| < 6 ==> r == Some(TooShort)
  {
    if f.password != "" && f.password != f.confirmPassword then Some(Mismatch)
    else if f.password != "" && |f.password| < 6 then Some(TooShort)
    else None
  }

  /** `updateData`: the name and email only where they differ from the
      user's, the password only when it is not empty. */
  function ProfilePatch(f: ProfileForm, u: UserWithoutPassword): (p: UserPatch)
    ensures p.name.Some? <==> f.name != u.name
    ensures p.email.Some? <==> f.email != u.email
    ensures p.password.Some? <==> f.password != ""
    ensures p.name.Some? ==> p.name.value == f.name
    ensures p.email.Some? ==> p.email.value == f.email
    ensures p.password.Some? ==> p.password.value == f.password
    ensures p.role.None? && p.passwordHash.None?
  {
    UserPatch(
      if f.name != u.name then Some(f.name) else None,
      if f.email != u.email then Some(f.email) else None,
      if f.password != "" then Some(f.password) else None,
      None, None)
  }

  /** The form changes the profile: a new name, a new email or a password. */
  predicate ProfileChanged(f: ProfileForm, u: UserWithoutPassword)
  {
    f.name != u.name || f.email != u.email || f.password != ""
  }

  /** Sending only the changed fields still leaves the signed-in user with
      the form's name and email, and the payload updateUser writes never
      keeps a `password` key. It is Writable exactly when the form changes
      something: a save with nothing changed sends `{}`, which the store
      refuses. */
  lemma {:induction false} ProfilePatchEffect(f: ProfileForm, u: UserWithoutPassword, hash: string -> string)
    ensures MergePatch(u, ProfilePatch(f, u)) == u.(name := f.name, email := f.email)
    ensures UpdatePayload(ProfilePatch(f, u), hash).password.None?
    ensures Writable(UpdatePayload(ProfilePatch(f, u), hash)) <==> ProfileChanged(f, u)
    ensures UpdatePayload(ProfilePatch(f, u), hash).passwordHash ==
      (if f.password != "" then Some(hash(f.password)) else None)
  {
    var p := ProfilePatch(f, u);
    var m := MergePatch(u, p);
    assert m.name == f.name && m.email == f.email && m.role == u.role;
  }

  /** Saving the form as handleEdit loaded it passes the checks but sends
      `{}`, so updateExistingUser fails and editing goes on. */
  lemma {:induction false} UnchangedFormIsRefused(u: UserWithoutPassword, hash: string -> string)
    ensures Validate(FormOf(Some(u))).None?
    ensures !Writable(UpdatePayload(ProfilePatch(FormOf(Some(u)), u), hash))
  {
    ProfilePatchEffect(FormOf(Some(u)), u, hash);
  }

  /** The page's state. */
  class Profile {
    var isEditing: bool
    var loading: bool
    var error: string
    var success: string
    var form: ProfileForm

    constructor (user: Option<UserWithoutPassword>)
      ensures !isEditing && !loading && error == "" && success == "" && form == FormOf(user)
    {
      isEditing := false;
      loading := false;
      error := "";
      success := "";
      form := FormOf(user);
    }

    /** handleEdit: editing starts with the form reloaded from the user. */
    method HandleEdit(ctx: Context)
      modifies this
      ensures isEditing && form == FormOf(ctx.user) && error == "" && success == ""
      ensures loading == old(loading)
    {
      isEditing := true;
      form := FormOf(ctx.user);
      error := "";
      success := "";
    }

    /** handleCancel: editing stops with the form reloaded from the user. */
    method HandleCancel(ctx: Context)
      modifies this
      ensures !isEditing && form == FormOf(ctx.user) && error == "" && success == ""
      ensures loading == old(loading)
    {
      isEditing := false;
      form := FormOf(ctx.user);
      error := "";
      success := "";
    }

    /** handleSave, reachable only while a user is signed in: a failed
        check sets its message and sends nothing; otherwise the changed
        fields go to updateExistingUser. Success ends editing and reloads
        the form from the user as it was when the save began; failure
        keeps editing and the form and shows the error; a save that
        changes nothing fails too. */
    method HandleSave(ctx: Context, store: UserStore, hash: string -> string, updateFails: bool)
      requires ctx.user.Some? && store.Valid()
      modifies this, ctx, store
      ensures store.Valid() && !loading
      ensures Validate(old(form)).Some? ==>
        && error == Validate(old(form)).value && success == ""
        && form == old(form) && isEditing == old(isEditing)
        && ctx.users == old(ctx.users) && ctx.user == old(ctx.user) && store.users == old(store.users)
      ensures Validate(old(form)).None? && !updateFails && ProfileChanged(old(form), old(ctx.user).value)
              && UserById(old(store.users), old(ctx.user).value.id).Some? ==>
        && success == Saved && error == "" && !isEditing && form == FormOf(old(ctx.user))
        && ctx.user == Some(old(ctx.user).value.(name := old(form).name, email := old(form).email))
        && store.users == UpdateUserRows(old(store.users), old(ctx.user).value.id,
                                         UpdatePayload(ProfilePatch(old(form), old(ctx.user).value), hash))
        && ctx.users == ReplaceById(old(ctx.users), old(ctx.user).value.id,
             WithoutPassword(ApplyPatch(UserById(old(store.users), old(ctx.user).value.id).value,
                                        UpdatePayload(ProfilePatch(old(form), old(ctx.user).value), hash))))
      ensures Validate(old(form)).None?
              && (updateFails || !ProfileChanged(old(form), old(ctx.user).value)
                  || UserById(old(store.users), old(ctx.user).value.id).None?) ==>
        && error != "" && success == "" && form == old(form) && isEditing == old(isEditing)
        && ctx.users == old(ctx.users) && ctx.user == old(ctx.user) && store.users == old(store.users)
      ensures ctx.storedUserId == old(ctx.storedUserId)
    {
      loading := true;
      error := "";
      success := "";
      var problem := Validate(form);
      if problem.Some? {
        error := problem.value;
        loading := false;
        return;
      }
      var current := ctx.user.value;
      var patch := ProfilePatch(form, current);
      ProfilePatchEffect(form, current, hash);
      var result := ctx.UpdateExistingUser(store, current.id, patch, hash, updateFails);
      if result.success {
        success := Saved;
        isEditing := false;
        form := FormOf(Some(current));
      } else {
        error := if result.error.Some? && result.error.value != "" then result.error.value else SaveFailed;
      }
      loading := false;
    }
  }
}
