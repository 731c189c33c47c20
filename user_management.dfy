/** The user administration panel (src/components/user-management.tsx):
    the create and edit forms, the update payload, the delete dialog and
    its confirmation gate, and the texts the panel shows. */
module UserManagement {
  import opened Wrappers
  import opened Collections
  import opened Text
  import opened Types
  import opened SupabaseDevotionals
  import opened SupabaseAuth
  import opened AuthContext

  /** The `newUser` and `editForm` state objects. */
  datatype UserForm = UserForm(name: string, email: string, password: string, role: Role)

  const EmptyForm := UserForm("", "", "", USER)

  /** startEditing's form: the user's fields and an empty password. */
  function EditFormOf(u: UserWithoutPassword): (f: UserForm)
    ensures f.password == "" && f.name == u.name && f.email == u.email && f.role == u.role
  {
    UserForm(u.name, u.email, "", u.role)
  }

  /** handleUpdateUser's `updateData`: name, email and password only when
      not empty; the role always, since it is never empty. */
  function UpdatePatchOf(f: UserForm): (p: UserPatch)
    ensures p.name.Some? <==> f.name != ""
    ensures p.email.Some? <==> f.email != ""
    ensures p.password.Some? <==> f.password != ""
    ensures p.name.Some? ==> p.name.value == f.name
    ensures p.email.Some? ==> p.email.value == f.email
    ensures p.password.Some? ==> p.password.value == f.password
    ensures p.role == Some(f.role) && p.passwordHash.None?
  {
    UserPatch(
      if f.name != "" then Some(f.name) else None,
      if f.email != "" then Some(f.email) else None,
      if f.password != "" then Some(f.password) else None,
      None, Some(f.role))
  }

  /** Saving an edit form that was opened on a row and left untouched
      writes the row back unchanged: no password is sent, so the hash is
      kept, and the role is always sent, so the store accepts the payload. */
  lemma {:induction false} UntouchedEditKeepsRow(row: User, hash: string -> string)
    ensures UpdatePatchOf(EditFormOf(WithoutPassword(row))).password.None?
    ensures Writable(UpdatePayload(UpdatePatchOf(EditFormOf(WithoutPassword(row))), hash))
    ensures ApplyPatch(row, UpdatePayload(UpdatePatchOf(EditFormOf(WithoutPassword(row))), hash)) == row
  {
    var p := UpdatePatchOf(EditFormOf(WithoutPassword(row)));
    assert UpdatePayload(p, hash) == p;
    assert p.name.GetOr(row.name) == row.name && p.email.GetOr(row.email) == row.email;
  }

  /** What a thrown value can be, as the catch block tells them apart. */
  datatype Thrown =
    | ErrorInstance(message: string)
    | StringValue(text: string)
    | ObjectValue(json: string)
    | OtherValue

  const UnknownDeleteError := "Erro desconhecido ao deletar usu\U{E1}rio"

  /** The catch block's `errorMessage`: an Error's message, a string as
      is, an object as JSON, and the default for anything else. */
  function ErrorMessage(e: Thrown): (r: string)
    ensures e.ErrorInstance? ==> r == e.message
    ensures e.StringValue? ==> r == e.text
    ensures e.ObjectValue? ==> r == e.json
    ensures e.OtherValue? ==> r == UnknownDeleteError
  {
    match e
    case ErrorInstance(m) => m
    case StringValue(s) => s
    case ObjectValue(j) => j
    case OtherValue => UnknownDeleteError
  }

  /** `users.find(u => u.id === id)?.name || 'Usuário'`. */
  function DisplayName(users: seq<UserWithoutPassword>, id: string): (r: string)
    ensures r != ""
    ensures (forall u :: u in users ==> u.id != id) ==> r == "Usu\U{E1}rio"
    ensures r != "Usu\U{E1}rio" ==> exists u :: u in users && u.id == id && u.name == r
  {
    if users == [] then "Usu\U{E1}rio"
    else if users[0].id == id then (if users[0].name != "" then users[0].name else "Usu\U{E1}rio")
    else DisplayName(users[1..], id)
  }

  function DeletedPlain(userName: string): string
  {
    "Usu\U{E1}rio \"" + userName + "\" deletado com sucesso!"
  }

  /** The alert after a delete: the count of removed devotionals is
      mentioned only when it is above zero. */
  function DeleteSuccessMessage(userName: string, count: Option<nat>): (r: string)
  {
    if count.Some? && count.value > 0 then
      DeletedPlain(userName) + " " + IntToString(count.value) + " devocionais tamb\U{E9}m foram deletados."
    else DeletedPlain(userName)
  }

  /** The plain message is the one without a count, and the counted one
      extends it, so the two never coincide. */
  lemma {:induction false} DeleteSuccessMessageSpec(userName: string, count: Option<nat>)
    ensures DeleteSuccessMessage(userName, count) == DeletedPlain(userName) <==> !(count.Some? && count.value > 0)
    ensures DeletedPlain(userName) <= DeleteSuccessMessage(userName, count)
  {
    if count.Some? && count.value > 0 {
      assert |DeleteSuccessMessage(userName, count)| > |DeletedPlain(userName)|;
    }
  }

  /** What the panel renders for the signed-in user. */
  datatype PanelView = AccessDeniedCard | Panel

  function View(currentUser: Option<UserWithoutPassword>): (v: PanelView)
    ensures v == Panel <==> currentUser.Some? && currentUser.value.role == ADMIN
  {
    if currentUser.Some? && currentUser.value.role == ADMIN then Panel else AccessDeniedCard
  }

  /** The "Deletar" button shows on every row but the signed-in user's. */
  predicate DeleteOffered(row: UserWithoutPassword, currentUser: Option<UserWithoutPassword>)
  {
    currentUser.None? || row.id != currentUser.value.id
  }

  /** The panel never offers to delete the signed-in user, and offers it
      for every other row. */
  lemma {:induction false} NoSelfDelete(rows: seq<UserWithoutPassword>, currentUser: UserWithoutPassword)
    ensures forall r :: r in rows && DeleteOffered(r, Some(currentUser)) ==> r.id != currentUser.id
    ensures forall r :: r in rows && r.id != currentUser.id ==> DeleteOffered(r, Some(currentUser))
  {
  }

  /** The delete dialog: `deletingUser`, `confirmDelete` and
      `userDevotionalsCount`; the dialog is open while `deleting` is given. */
  datatype DeleteDialog = DeleteDialog(deleting: Option<string>, confirm: bool, count: nat)

  const ClosedDialog := DeleteDialog(None, false, 0)

  predicate IsOpen(d: DeleteDialog)
  {
    Given(d.deleting)
  }

  /** The confirm button's gate: `disabled={loading || !confirmDelete}`. */
  predicate ConfirmEnabled(d: DeleteDialog, loading: bool)
  {
    !loading && d.confirm
  }

  /** handleDeleteUser: opens the dialog on the user, with the devotional
      count (0 when the count query fails); the checkbox is not touched. */
  function OpenDialog(d: DeleteDialog, userId: string, count: nat): DeleteDialog
  {
    d.(deleting := Some(userId), count := count)
  }

  function TickDialog(d: DeleteDialog, checked: bool): DeleteDialog
  {
    d.(confirm := checked)
  }

  /** cancelDelete: closes, clears the count and the checkbox. */
  function CancelDialog(d: DeleteDialog): DeleteDialog
  {
    ClosedDialog
  }

  /** onOpenChange(false): closes and clears the checkbox, keeps the count. */
  function DismissDialog(d: DeleteDialog): DeleteDialog
  {
    d.(deleting := None, confirm := false)
  }

  /** The success path of confirmDeleteUser as written: it closes the
      dialog and clears the count but leaves the checkbox ticked, and a
      programmatic close does not run onOpenChange. */
  function AfterDeleteAsWritten(d: DeleteDialog): (r: DeleteDialog)
    ensures !IsOpen(r) && r.count == 0 && r.confirm == d.confirm
  {
    d.(deleting := None, count := 0)
  }

  /** As written, the next dialog opens with the box already ticked, so
      its confirm button is enabled before the user ticks anything. */
  lemma {:induction false} AsWrittenReopensTicked(first: string, second: string)
    ensures var after := AfterDeleteAsWritten(TickDialog(OpenDialog(ClosedDialog, first, 0), true));
      && !IsOpen(after)
      && ConfirmEnabled(OpenDialog(after, second, 0), false)
  {
  }

  /** The success path as intended: it also clears the checkbox. */
  function AfterDelete(d: DeleteDialog): (r: DeleteDialog)
    ensures r == ClosedDialog
  {
    d.(deleting := None, count := 0, confirm := false)
  }

  /** The dialog's invariant: a closed dialog has the box unticked. */
  predicate DialogInvariant(d: DeleteDialog)
  {
    !IsOpen(d) ==> !d.confirm
  }

  /** Every transition keeps the invariant (the checkbox exists only in
      an open dialog), so every dialog opened from a closed one starts
      unticked and its confirm button disabled. */
  lemma {:induction false} DialogStaysUnticked(d: DeleteDialog, userId: string, count: nat, checked: bool)
    requires DialogInvariant(d)
    ensures !IsOpen(d) || userId != "" ==> DialogInvariant(OpenDialog(d, userId, count))
    ensures IsOpen(d) ==> DialogInvariant(TickDialog(d, checked))
    ensures DialogInvariant(CancelDialog(d)) && DialogInvariant(DismissDialog(d)) && DialogInvariant(AfterDelete(d))
    ensures !IsOpen(d) ==> !ConfirmEnabled(OpenDialog(d, userId, count), false)
  {
    if !IsOpen(d) {
      assert !d.confirm;
      assert OpenDialog(d, userId, count).confirm == d.confirm;
    }
  }

  /** An alert that reports a failed delete. */
  predicate IsDeleteError(alert: Option<string>)
  {
    alert.Some? && "Erro ao deletar usu\U{E1}rio: " <= alert.value
  }

  /** What the dialog shows once the delete settles: the success message
      and a closed dialog, or the error (or "Erro desconhecido") with the
      dialog left open. */
  method DeleteOutcome(d: DeleteDialog, userName: string, result: DeleteResult)
    returns (alert: Option<string>, next: DeleteDialog)
    ensures result.success ==>
      alert == Some(DeleteSuccessMessage(userName, result.devotionalsCount)) && next == ClosedDialog
    ensures !result.success ==>
      next == d && IsDeleteError(alert)
  {
    if result.success {
      alert, next := Some(DeleteSuccessMessage(userName, result.devotionalsCount)), AfterDelete(d);
    } else {
      var text := if result.error.Some? && result.error.value != "" then result.error.value else "Erro desconhecido";
      alert, next := Some("Erro ao deletar usu\U{E1}rio: " + text), d;
    }
  }

  /** The delete round trip of confirmDeleteUser: the dialog's user is
      looked up for the message, deleted through the provider, and the
      outcome is shown. */
  method DeleteAndReport(db: Tables, ctx: Context, store: UserStore, d: DeleteDialog,
                         countError: Option<string>, deleteError: Option<string>)
    returns (alert: Option<string>, next: DeleteDialog)
    requires store.Valid() && IsOpen(d)
    modifies ctx, store
    ensures store.Valid()
    ensures countError.None? && deleteError.None? ==>
      && next == ClosedDialog
      && alert == Some(DeleteSuccessMessage(DisplayName(old(ctx.users), d.deleting.value),
                                            Some(|ByAuthor(db.devotionals, d.deleting.value)|)))
      && store.users == Filter(old(store.users), UserIdIsNot(d.deleting.value))
      && ctx.users == Filter(old(ctx.users), ListIdIsNot(d.deleting.value))
    ensures countError.Some? || deleteError.Some? ==>
      && next == d
      && ctx.users == old(ctx.users) && store.users == old(store.users)
      && IsDeleteError(alert)
    ensures countError.None? && deleteError.None? && old(ctx.user).Some?
            && old(ctx.user).value.id == d.deleting.value ==>
      ctx.user == None && ctx.storedUserId == None
    ensures !(countError.None? && deleteError.None? && old(ctx.user).Some?
              && old(ctx.user).value.id == d.deleting.value) ==>
      ctx.user == old(ctx.user) && ctx.storedUserId == old(ctx.storedUserId)
  {
    var id := d.deleting.value;
    var userName := DisplayName(ctx.users, id);
    var result := ctx.DeleteExistingUser(db, store, id, countError, deleteError);
    alert, next := DeleteOutcome(d, userName, result);
  }

  /** The panel's state; `alert` is the last alert shown. */
  class Manager {
    var loading: bool
    var newUser: UserForm
    var editingUser: Option<string>
    var editForm: UserForm
    var dialog: DeleteDialog
    var alert: Option<string>

    predicate Valid()
      reads this
    {
      DialogInvariant(dialog)
    }

    constructor ()
      ensures Valid()
      ensures !loading && newUser == EmptyForm && editingUser == None && editForm == EmptyForm
      ensures dialog == ClosedDialog && alert == None
    {
      loading := false;
      newUser := EmptyForm;
      editingUser := None;
      editForm := EmptyForm;
      dialog := ClosedDialog;
      alert := None;
    }

    /** loadUsers: fetches the list into the provider; a failed fetch is
        caught, the provider's list is kept, and loading ends either way. */
    method LoadUsers(ctx: Context, store: UserStore, queryFails: bool)
      requires Valid()
      modifies this, ctx
      ensures Valid() && !loading
      ensures !queryFails ==> ctx.users == GetAllUsers(store.users)
      ensures queryFails ==> ctx.users == old(ctx.users)
      ensures ctx.user == old(ctx.user) && ctx.storedUserId == old(ctx.storedUserId)
      ensures newUser == old(newUser) && editingUser == old(editingUser) && editForm == old(editForm)
      ensures dialog == old(dialog) && alert == old(alert)
    {
      loading := true;
      var ok := ctx.FetchAllUsers(store, queryFails);
      loading := false;
    }

    /** handleCreateUser: sends the create form; success empties it. */
    method CreateUser(ctx: Context, store: UserStore, hash: string -> string, id: string,
                      now: Timestamp, insertFails: bool)
      requires Valid() && store.Valid()
      modifies this, ctx, store
      ensures Valid() && store.Valid() && !loading
      ensures var data := NewUser(old(newUser).name, old(newUser).email, old(newUser).password, Some(old(newUser).role));
        var ok := !insertFails && forall u :: u in old(store.users) ==> u.id != id;
        && (ok ==> newUser == EmptyForm && alert == Some("Usu\U{E1}rio criado com sucesso!")
                   && ctx.users == [WithoutPassword(CreatedRow(data, hash, id, now))] + old(ctx.users)
                   && store.users == old(store.users) + [CreatedRow(data, hash, id, now)])
        && (!ok ==> newUser == old(newUser) && ctx.users == old(ctx.users) && store.users == old(store.users)
                    && alert.Some? && "Erro ao criar usu\U{E1}rio: " <= alert.value)
      ensures ctx.user == old(ctx.user) && ctx.storedUserId == old(ctx.storedUserId)
      ensures editingUser == old(editingUser) && editForm == old(editForm) && dialog == old(dialog)
    {
      loading := true;
      var data := NewUser(newUser.name, newUser.email, newUser.password, Some(newUser.role));
      var result := ctx.CreateNewUser(store, data, hash, id, now, insertFails);
      if result.success {
        newUser := EmptyForm;
        alert := Some("Usu\U{E1}rio criado com sucesso!");
      } else {
        alert := Some("Erro ao criar usu\U{E1}rio: " + result.error.value);
      }
      loading := false;
    }

    /** startEditing. */
    method StartEditing(u: UserWithoutPassword)
      modifies this
      ensures editingUser == Some(u.id) && editForm == EditFormOf(u)
      ensures loading == old(loading) && newUser == old(newUser) && dialog == old(dialog) && alert == old(alert)
    {
      editingUser := Some(u.id);
      editForm := EditFormOf(u);
    }

    /** cancelEditing. */
    method CancelEditing()
      modifies this
      ensures editingUser == None && editForm == EmptyForm
      ensures loading == old(loading) && newUser == old(newUser) && dialog == old(dialog) && alert == old(alert)
    {
      editingUser := None;
      editForm := EmptyForm;
    }

    /** handleUpdateUser: with no user being edited nothing happens;
        otherwise UpdatePatchOf(editForm) is sent, and success closes the
        edit form. */
    method UpdateUser(ctx: Context, store: UserStore, hash: string -> string, updateFails: bool)
      requires Valid() && store.Valid()
      modifies this, ctx, store
      ensures Valid() && store.Valid()
      ensures !Given(old(editingUser)) ==>
        editingUser == old(editingUser) && editForm == old(editForm) && alert == old(alert)
        && ctx.users == old(ctx.users) && store.users == old(store.users) && loading == old(loading)
      ensures Given(old(editingUser)) ==> !loading
      ensures Given(old(editingUser)) && !updateFails && UserById(old(store.users), old(editingUser).value).Some? ==>
        var id := old(editingUser).value;
        var payload := UpdatePayload(UpdatePatchOf(old(editForm)), hash);
        && editingUser == None && editForm == EmptyForm
        && alert == Some("Usu\U{E1}rio atualizado com sucesso!")
        && store.users == UpdateUserRows(old(store.users), id, payload)
        && ctx.users == ReplaceById(old(ctx.users), id, WithoutPassword(ApplyPatch(UserById(old(store.users), id).value, payload)))
        && (old(ctx.user).Some? && old(ctx.user).value.id == id ==>
              ctx.user == Some(MergePatch(old(ctx.user).value, UpdatePatchOf(old(editForm)))))
      ensures !(&& Given(old(editingUser)) && !updateFails && UserById(old(store.users), old(editingUser).value).Some?
                && old(ctx.user).Some? && old(ctx.user).value.id == old(editingUser).value) ==>
        ctx.user == old(ctx.user)
      ensures ctx.storedUserId == old(ctx.storedUserId)
      ensures Given(old(editingUser)) && (updateFails || UserById(old(store.users), old(editingUser).value).None?) ==>
        && editingUser == old(editingUser) && editForm == old(editForm)
        && ctx.users == old(ctx.users) && store.users == old(store.users)
        && alert.Some? && "Erro ao atualizar usu\U{E1}rio: " <= alert.value
      ensures newUser == old(newUser) && dialog == old(dialog)
    {
      if !Given(editingUser) {
        return;
      }
      loading := true;
      var patch := UpdatePatchOf(editForm);
      assert Writable(UpdatePayload(patch, hash));
      ghost var fields := (newUser, editingUser, editForm, dialog, alert);
      var result := ctx.UpdateExistingUser(store, editingUser.value, patch, hash, updateFails);
      assert (newUser, editingUser, editForm, dialog, alert) == fields;
      var editing, form, shown := editingUser, editForm, alert;
      if result.success {
        editing, form, shown := None, EmptyForm, Some("Usu\U{E1}rio atualizado com sucesso!");
      } else {
        shown := Some("Erro ao atualizar usu\U{E1}rio: " + result.error.value);
      }
      editingUser, editForm, alert, loading := editing, form, shown, false;
    }

    /** handleDeleteUser, on a row's button, which the open dialog covers:
        opens the dialog with the user's devotional count, 0 when the count
        query fails. */
    method HandleDeleteUser(db: Tables, userId: string, countFails: bool)
      requires Valid() && !IsOpen(dialog)
      modifies this
      ensures Valid()
      ensures dialog == OpenDialog(old(dialog), userId, if countFails then 0 else |ByAuthor(db.devotionals, userId)|)
      ensures loading == old(loading) && newUser == old(newUser) && editingUser == old(editingUser)
      ensures editForm == old(editForm) && alert == old(alert)
    {
      var count := if countFails then 0 else |ByAuthor(db.devotionals, userId)|;
      DialogStaysUnticked(dialog, userId, count, false);
      dialog := OpenDialog(dialog, userId, count);
    }

    /** The checkbox, shown only in the open dialog. */
    method TickConfirm(checked: bool)
      requires Valid() && IsOpen(dialog)
      modifies this
      ensures Valid()
      ensures dialog == TickDialog(old(dialog), checked)
      ensures loading == old(loading) && newUser == old(newUser) && editingUser == old(editingUser)
      ensures editForm == old(editForm) && alert == old(alert)
    {
      dialog := TickDialog(dialog, checked);
    }

    /** cancelDelete. */
    method CancelDelete()
      modifies this
      ensures Valid()
      ensures dialog == ClosedDialog
      ensures loading == old(loading) && newUser == old(newUser) && editingUser == old(editingUser)
      ensures editForm == old(editForm) && alert == old(alert)
    {
      dialog := CancelDialog(dialog);
    }

    /** Closing the dialog by Escape or a click outside. */
    method DismissDelete()
      modifies this
      ensures Valid()
      ensures dialog == DismissDialog(old(dialog))
      ensures loading == old(loading) && newUser == old(newUser) && editingUser == old(editingUser)
      ensures editForm == old(editForm) && alert == old(alert)
    {
      dialog := DismissDialog(dialog);
    }

    /** confirmDeleteUser, run by the enabled confirm button: deletes the
        dialog's user through the provider; success closes the dialog
        (clearing the checkbox, as intended) and names the user in the
        alert, failure keeps the dialog open and shows the error. The
        source's guard for a closed dialog never fires: the button is
        enabled only while the box is ticked, which needs an open dialog. */
    method ConfirmDeleteUser(db: Tables, ctx: Context, store: UserStore,
                             countError: Option<string>, deleteError: Option<string>)
      requires Valid() && store.Valid() && ConfirmEnabled(dialog, loading)
      modifies this, ctx, store
      ensures Valid()
      ensures IsOpen(old(dialog))
      ensures countError.None? && deleteError.None? ==>
        && (dialog, loading) == (ClosedDialog, false)
        && alert == Some(DeleteSuccessMessage(DisplayName(old(ctx.users), old(dialog).deleting.value),
                                              Some(|ByAuthor(db.devotionals, old(dialog).deleting.value)|)))
        && store.users == Filter(old(store.users), UserIdIsNot(old(dialog).deleting.value))
        && ctx.users == Filter(old(ctx.users), ListIdIsNot(old(dialog).deleting.value))
      ensures countError.Some? || deleteError.Some? ==>
        && (dialog, loading, ctx.users, store.users) == (old(dialog), false, old(ctx.users), old(store.users))
        && IsDeleteError(alert)
      ensures countError.None? && deleteError.None? && old(ctx.user).Some?
              && old(ctx.user).value.id == old(dialog).deleting.value ==>
        (ctx.user, ctx.storedUserId) == (None, None)
      ensures !(countError.None? && deleteError.None? && old(ctx.user).Some?
                && old(ctx.user).value.id == old(dialog).deleting.value) ==>
        (ctx.user, ctx.storedUserId) == old((ctx.user, ctx.storedUserId))
      ensures (newUser, editingUser, editForm) == old((newUser, editingUser, editForm))
    {
      assert IsOpen(dialog);
      loading := true;
      ghost var forms := (newUser, editingUser, editForm);
      var shown, next := DeleteAndReport(db, ctx, store, dialog, countError, deleteError);
      assert (newUser, editingUser, editForm) == forms;
      alert, dialog, loading := shown, next, false;
    }
  }
}
