/**
 * The student-area gate of `app/exams/layout.tsx`; the dashboard and results pages
 * open with the same two checks in the same order.
 */
module ExamsLayout {
  import opened Wrappers
  import opened AuthServer
  import opened Routing

  /**
   * Where a student-area entry redirects, if anywhere: no user to `/` (checked
   * first), an admin to `/admin`, otherwise nowhere.
   */
  function StudentGate(user: Option<User>): (target: Option<string>)
    ensures user.None? ==> target == Some(Home)
    ensures user.Some? && IsAdmin(user.value) ==> target == Some(AdminHome)
    ensures target.None? <==> user.Some? && !IsAdmin(user.value)
  {
    if user.None? then Some(Home)
    else if IsAdmin(user.value) then Some(AdminHome)
    else None
  }

  /** The layout renders its children exactly for a signed-in non-admin user. */
  function Decide(user: Option<User>): (d: Decision<()>)
    ensures d.Render? <==> user.Some? && !IsAdmin(user.value)
    ensures d.Redirect? ==> d.target == (if user.None? then Home else AdminHome)
  {
    match StudentGate(user)
    case Some(target) => Redirect(target)
    case None => Render(())
  }
}
