/** The access decision of `app/admin/layout.tsx`. */
module AdminLayout {
  import opened Wrappers
  import opened Json
  import opened AuthServer
  import opened Routing

  /**
   * Signed-out visitors and signed-in non-admins are both sent to `/`; an admin sees
   * the area, labelled with `user.email ?? user.sub`.
   */
  function Decide(user: Option<User>): (d: Decision<Option<Json>>)
    ensures d.Render? <==> user.Some? && IsAdmin(user.value)
    ensures d.Redirect? ==> d.target == Home
    ensures d.Render? ==> d.view == DisplayName(user.value)
  {
    if user.None? || !IsAdmin(user.value) then Redirect(Home) else Render(DisplayName(user.value))
  }
}
