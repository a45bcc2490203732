/** The outcome of a server component or layout: a `redirect(...)` or a rendered view. */
module Routing {

  datatype Decision<V> = Redirect(target: string) | Render(view: V)

  const Home := "/"
  const AdminHome := "/admin"
}
