/**
 * The Next.js middleware: which requests are sent to the login page, which
 * are sent home, and which pass through, from the auth cookie and the path.
 */
module Middleware {
  import opened Wrappers
  import opened Text

  datatype Decision = Next | Redirect(target: string)

  /** `token` (the value of `jwt_cookies_auth_token`) is truthy: present and not empty. */
  predicate HasToken(token: Option<string>) {
    token.Some? && token.value != ""
  }

  predicate AuthPage(pathname: string) {
    pathname == "/login" || pathname == "/register"
  }

  /** `middleware`: without a token every path but the two auth pages goes to `/login`; with a
    * token the two auth pages go to `/`; everything else passes. */
  function Decide(token: Option<string>, pathname: string): (r: Decision)
    ensures r == Redirect("/login") <==> !HasToken(token) && StartsWith(pathname, "/") && !AuthPage(pathname)
    ensures r == Redirect("/") <==> HasToken(token) && AuthPage(pathname)
    ensures r.Next? <==> (HasToken(token) && !AuthPage(pathname))
                         || (!HasToken(token) && (AuthPage(pathname) || !StartsWith(pathname, "/")))
  {
    if !HasToken(token) && StartsWith(pathname, "/") && pathname != "/login" && pathname != "/register" then
      Redirect("/login")
    else if HasToken(token) && (pathname == "/login" || pathname == "/register") then
      Redirect("/")
    else
      Next
  }

  /** `config.matcher`: `/`, `/login`, `/register`, and `/dashboard` and `/profile` with any
    * sub-path. */
  predicate Matched(pathname: string) {
    pathname == "/" || AuthPage(pathname)
    || pathname == "/dashboard" || StartsWith(pathname, "/dashboard/")
    || pathname == "/profile" || StartsWith(pathname, "/profile/")
  }

  /** A request as Next.js runs it: paths outside the matcher never reach the middleware. */
  function Handle(token: Option<string>, pathname: string): (r: Decision)
    ensures !Matched(pathname) ==> r == Next
    ensures Matched(pathname) ==> r == Decide(token, pathname)
  {
    if Matched(pathname) then Decide(token, pathname) else Next
  }

  /** Both redirect targets are matched paths, and following a redirect with the same cookie
    * passes: the middleware never redirects twice in a row. */
  lemma {:induction false} NoRedirectLoop(token: Option<string>, pathname: string)
    requires Handle(token, pathname).Redirect?
    ensures Matched(Handle(token, pathname).target)
    ensures Handle(token, Handle(token, pathname).target) == Next
  {
    assert StartsWith("/login", "/");
    if HasToken(token) {
      assert Handle(token, pathname).target == "/";
      assert !AuthPage("/") by { assert |"/"| != |"/login"| && |"/"| != |"/register"|; }
    }
  }

  /** A signed-in user reaches every matched page but the two auth pages; a signed-out user
    * reaches only those two. */
  lemma SignedOutReachesOnlyAuthPages(pathname: string)
    requires Matched(pathname)
    ensures Handle(None, pathname) == Next <==> AuthPage(pathname)
    ensures Handle(Some("t"), pathname) == Next <==> !AuthPage(pathname)
  {
    assert StartsWith(pathname, "/");
  }
}
