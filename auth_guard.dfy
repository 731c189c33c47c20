/** The page guard (src/components/auth-guard.tsx): what it renders and
    where its effect redirects, over the auth state and its two flags. */
module AuthGuard {
  import opened Wrappers
  import opened Types

  /** What the guard renders. */
  datatype View =
    | Spinner
    | Children
    | Nothing
    | AccessDenied(role: Role)

  /** The two optional props. */
  datatype GuardProps = GuardProps(requireAdmin: Option<bool>, requireAuth: Option<bool>)

  /** The flags after the destructuring defaults `requireAdmin = false`
      and `requireAuth = true`. */
  function Flags(props: GuardProps): (r: (bool, bool))
    ensures props.requireAdmin.None? ==> !r.0
    ensures props.requireAuth.None? ==> r.1
    ensures props.requireAdmin.Some? ==> r.0 == props.requireAdmin.value
    ensures props.requireAuth.Some? ==> r.1 == props.requireAuth.value
  {
    (props.requireAdmin.GetOr(false), props.requireAuth.GetOr(true))
  }

  /** The effect: the path it pushes, if any. */
  function Redirect(loading: bool, requireAuth: bool, requireAdmin: bool, user: Option<UserWithoutPassword>): (r: Option<string>)
    ensures loading || !requireAuth ==> r == None
    ensures !loading && requireAuth && user.None? ==> r == Some("/login")
    ensures !loading && requireAuth && user.Some? ==>
      r == (if requireAdmin && user.value.role != ADMIN then Some("/") else None)
  {
    if loading then None
    else if !requireAuth then None
    else if user.None? then Some("/login")
    else if requireAdmin && user.value.role != ADMIN then Some("/")
    else None
  }

  /** The render. */
  function Render(loading: bool, requireAuth: bool, requireAdmin: bool, user: Option<UserWithoutPassword>): (v: View)
    ensures v == Children <==>
      !loading && (!requireAuth || (user.Some? && (!requireAdmin || user.value.role == ADMIN)))
    ensures v == Spinner <==> loading
    ensures v == Nothing <==> !loading && requireAuth && user.None?
    ensures v.AccessDenied? <==> !loading && requireAuth && user.Some? && requireAdmin && user.value.role != ADMIN
    ensures v.AccessDenied? ==> v.role == user.value.role
  {
    if loading then Spinner
    else if !requireAuth then Children
    else if user.None? then Nothing
    else if requireAdmin && user.value.role != ADMIN then AccessDenied(user.value.role)
    else Children
  }

  /** The render and the effect agree: the spinner never redirects, the
      children never redirect, and every other view comes with a redirect
      (to /login with no user, to "/" for a user who is not an admin). */
  lemma {:induction false} RenderAgreesWithRedirect(loading: bool, requireAuth: bool, requireAdmin: bool, user: Option<UserWithoutPassword>)
    ensures Render(loading, requireAuth, requireAdmin, user) in {Spinner, Children} <==>
      Redirect(loading, requireAuth, requireAdmin, user).None?
    ensures Render(loading, requireAuth, requireAdmin, user) == Nothing ==>
      Redirect(loading, requireAuth, requireAdmin, user) == Some("/login")
    ensures Render(loading, requireAuth, requireAdmin, user).AccessDenied? ==>
      Redirect(loading, requireAuth, requireAdmin, user) == Some("/")
  {
  }

  /** With the default props, a signed-in user of any role sees the page
      and nobody else does. */
  lemma {:induction false} DefaultsNeedOnlyASignIn(loading: bool, user: Option<UserWithoutPassword>)
    ensures var (admin, auth) := Flags(GuardProps(None, None));
      Render(loading, auth, admin, user) == Children <==> !loading && user.Some?
  {
  }
}
