/**
 * The cookie store of a request or response: a map from cookie name to its value and
 * attributes. `set` replaces the whole entry for a name and touches no other name.
 */
module Cookies {

  /** A cookie with the attributes the application sets; `maxAge` is in seconds. */
  datatype Cookie = Cookie(value: string, httpOnly: bool, secure: bool, path: string, maxAge: int)

  class CookieJar {
    var entries: map<string, Cookie>

    constructor (initial: map<string, Cookie>)
      ensures entries == initial
    {
      entries := initial;
    }

    /** `cookies.set(name, value, options)`. */
    method Set(name: string, c: Cookie)
      modifies this
      ensures entries == old(entries)[name := c]
    {
      entries := entries[name := c];
    }
  }
}
