/**
 * The Next.js middleware (middleware.ts). It is wrapped in next-auth's
 * `withAuth`: on a path the matcher selects, `withAuth` calls the `authorized`
 * callback first and sends the visitor to the sign-in page when it returns
 * false; only otherwise does the middleware function itself run. The JWT is
 * reduced to the role it carries, if there is a token.
 */
module Middleware {
  import opened Wrappers
  import opened JsString

  /** `req.nextauth.token`: absent, or present with its `role` claim. */
  type Token = Option<string>

  /** `token?.role === "ADMIN"`. */
  predicate IsAdminToken(token: Token) {
    token == Some("ADMIN")
  }

  /** `pathname.startsWith("/admin")`. */
  predicate IsAdminRoute(path: string) {
    StartsWith(path, "/admin")
  }

  datatype Outcome =
    | Next                // NextResponse.next()
    | Redirect(to: string) // NextResponse.redirect(new URL(to, req.url))
    | SignIn              // withAuth's redirect to the sign-in page

  /** The middleware function: an admin route without the admin role goes home. */
  function MiddlewareBody(path: string, token: Token): (r: Outcome)
    ensures r == Next || r == Redirect("/")
  {
    if IsAdminRoute(path) && !IsAdminToken(token) then Redirect("/") else Next
  }

  /** The `authorized` callback. */
  function Authorized(path: string, token: Token): bool {
    if IsAdminRoute(path) then IsAdminToken(token) else true
  }

  /** `matcher: ["/admin/:path*"]`: `/admin` itself or any path below it. */
  predicate Matches(path: string) {
    path == "/admin" || StartsWith(path, "/admin/")
  }

  /** A request as it leaves the middleware layer. */
  function Gate(path: string, token: Token): Outcome {
    if !Matches(path) then Next
    else if !Authorized(path, token) then SignIn
    else MiddlewareBody(path, token)
  }

  /** The body redirects home exactly on admin routes without the admin role. */
  lemma BodyRedirectsIff(path: string, token: Token)
    ensures MiddlewareBody(path, token) == Redirect("/") <==> IsAdminRoute(path) && !IsAdminToken(token)
    ensures MiddlewareBody(path, token) == Next <==> !IsAdminRoute(path) || IsAdminToken(token)
  {
  }

  /** `authorized` refuses exactly admin routes without the admin role. */
  lemma AuthorizedIff(path: string, token: Token)
    ensures Authorized(path, token) <==> !IsAdminRoute(path) || IsAdminToken(token)
    ensures Authorized(path, token) <==> MiddlewareBody(path, token) == Next
  {
  }

  /** Every path the matcher selects is an admin route. */
  lemma MatchedPathsAreAdminRoutes(path: string)
    requires Matches(path)
    ensures IsAdminRoute(path)
  {
    if path != "/admin" {
      assert path[..6] == path[..7][..6];
    }
  }

  /**
   * As deployed, a request passes exactly when it is outside the matcher or
   * carries the admin role; otherwise it goes to sign-in, and the body's
   * redirect home is never reached.
   */
  lemma GateOutcomes(path: string, token: Token)
    ensures Gate(path, token) == Next <==> !Matches(path) || IsAdminToken(token)
    ensures Gate(path, token) == SignIn <==> Matches(path) && !IsAdminToken(token)
    ensures Gate(path, token) != Redirect("/")
  {
    if Matches(path) {
      MatchedPathsAreAdminRoutes(path);
    }
  }

  /** "/administrator" starts with "/admin", yet the matcher does not select it. */
  lemma AdministratorIsAdminRoute(path: string, token: Token)
    requires path == "/administrator"
    ensures IsAdminRoute(path)
    ensures !Matches(path)
    ensures !IsAdminToken(token) ==> MiddlewareBody(path, token) == Redirect("/")
    ensures Gate(path, token) == Next
  {
    assert path[..6] == "/admin";
    assert path[6] == 'i';
  }
}
