/**
 * The edge middleware: which request paths it runs on (its matcher) and, for
 * those, whether it lets the request through or redirects it, judged only by
 * the presence of the `auth-token` cookie.
 */
module Middleware {
  import opened Wrappers
  import Seqs
  import Constants

  datatype Action = Next | Redirect(to: string)

  /** The cookie counts only when it is present and non-empty. */
  predicate HasToken(token: Option<string>) {
    token.Some? && token.value != ""
  }

  /** Paths that need a signed-in visitor. `/admin…` and `/activities…` are prefixes, so `/adminx` is included. */
  predicate Protected(path: string) {
    Seqs.StartsWith(path, "/admin") || Seqs.StartsWith(path, "/activities")
    || path == "/profile" || path == "/"
  }

  /** The sign-in pages a signed-in visitor is sent away from. */
  predicate AuthPage(path: string) {
    path == "/login" || path == "/register"
  }

  /**
   * `middleware(request)`. The admin check and the member check both send a
   * visitor without a token to `/login`; a visitor with a token on a sign-in
   * page goes to `/`. A token is never decoded, so any token reaches `/admin`.
   */
  function Decide(path: string, token: Option<string>): (a: Action)
    ensures a == Redirect("/login") <==> Protected(path) && !HasToken(token)
    ensures a == Redirect("/") <==> AuthPage(path) && HasToken(token)
    ensures a.Redirect? ==> a.to == "/login" || a.to == "/"
  {
    if Seqs.StartsWith(path, "/admin") && !HasToken(token) then
      Redirect("/login")
    else if (Seqs.StartsWith(path, "/activities") || path == "/profile" || path == "/") && !HasToken(token) then
      Redirect("/login")
    else if (path == "/login" || path == "/register") && HasToken(token) then
      Redirect("/")
    else
      Next
  }

  /** A path whose second character is not `a` lies under neither guarded prefix. */
  lemma NotUnderPrefixes(path: string)
    requires |path| >= 2 && path[1] != 'a'
    ensures !Seqs.StartsWith(path, "/admin") && !Seqs.StartsWith(path, "/activities")
  {
    if |path| >= 6 {
      assert path[..6][1] != "/admin"[1];
    }
    if |path| >= 11 {
      assert path[..11][1] != "/activities"[1];
    }
  }

  /** Redirects go only to the login route or the dashboard route. */
  lemma RedirectTargetsAreRoutes(path: string, token: Option<string>)
    requires Decide(path, token).Redirect?
    ensures Decide(path, token).to in {Constants.LoginRoute, Constants.DashboardRoute}
  {
  }

  /** Following a redirect with the same cookie never redirects again. */
  lemma NoRedirectLoop(path: string, token: Option<string>)
    requires Decide(path, token).Redirect?
    ensures Decide(Decide(path, token).to, token) == Next
  {
    if HasToken(token) {
      assert !AuthPage("/");
    } else {
      NotUnderPrefixes("/login");
      assert !Protected("/login");
    }
  }

  /** Without a role check, any non-empty token opens every admin page. */
  lemma AnyTokenOpensAdmin(path: string, token: Option<string>)
    requires Seqs.StartsWith(path, "/admin") && HasToken(token)
    ensures Decide(path, token) == Next
  {
    assert path[..6] == "/admin";
    assert path != "/login" && path != "/register" by {
      assert path[1] == 'a';
      assert "/login"[1] != 'a' && "/register"[1] != 'a';
    }
  }

  /** `/profile` is matched exactly: its sub-paths pass without a token. */
  lemma ProfileSubpathsOpen()
    ensures Decide("/profile", None) == Redirect("/login")
    ensures Decide("/profile/edit", None) == Next
  {
    NotUnderPrefixes("/profile/edit");
    assert "/profile/edit" != "/profile" by {
      assert |"/profile/edit"| != |"/profile"|;
    }
  }

  /** ECMAScript line terminators, which `.` does not match. */
  predicate LineTerminator(c: char) {
    c == '\n' || c == '\r' || c == ' ' || c == ' '
  }

  /** The alternatives of the matcher's negative lookahead; in `favicon.ico` the dot is any character but a line terminator. */
  predicate ExcludedAt(rest: string) {
    Seqs.StartsWith(rest, "api")
    || Seqs.StartsWith(rest, "_next/static")
    || Seqs.StartsWith(rest, "_next/image")
    || (|rest| >= 11 && rest[..7] == "favicon" && !LineTerminator(rest[7]) && rest[8..11] == "ico")
    || Seqs.StartsWith(rest, "public")
  }

  /**
   * The matcher `/((?!api|_next/static|_next/image|favicon.ico|public).*)`,
   * anchored at both ends: a slash, then text that does not begin with an
   * excluded name and holds no line terminator.
   */
  predicate Matched(path: string) {
    |path| >= 1 && path[0] == '/' && !ExcludedAt(path[1..])
    && forall i :: 1 <= i < |path| ==> !LineTerminator(path[i])
  }

  /** The middleware as deployed: unmatched paths are not seen by it at all. */
  function Handle(path: string, token: Option<string>): (a: Action)
    ensures !Matched(path) ==> a == Next
    ensures Matched(path) ==> a == Decide(path, token)
  {
    if Matched(path) then Decide(path, token) else Next
  }

  /** API routes are outside the middleware, so they are reachable without a token. */
  lemma ApiBypassesMiddleware(rest: string, token: Option<string>)
    ensures Handle("/api" + rest, token) == Next
  {
    var path := "/api" + rest;
    assert path[1..] == "api" + rest;
    assert Seqs.StartsWith(path[1..], "api");
  }

  /** Text that begins with none of `ap`, `_`, `f` or `pu` starts no excluded name. */
  lemma NotExcludedByFirstTwo(rest: string)
    requires |rest| >= 2
    requires !(rest[0] == 'a' && rest[1] == 'p') && rest[0] != '_' && rest[0] != 'f'
    requires !(rest[0] == 'p' && rest[1] == 'u')
    ensures !ExcludedAt(rest)
  {
    if |rest| >= 3 { assert rest[..3][0] == rest[0] && rest[..3][1] == rest[1]; }
    if |rest| >= 6 { assert rest[..6][0] == rest[0] && rest[..6][1] == rest[1]; }
    if |rest| >= 11 { assert rest[..11][0] == rest[0]; }
    if |rest| >= 12 { assert rest[..12][0] == rest[0]; }
  }

  /** Every protected page is matched, so without a token each one redirects to `/login`. */
  lemma ProtectedPagesGuarded(path: string)
    requires Protected(path)
    requires forall i :: 0 <= i < |path| ==> !LineTerminator(path[i])
    ensures Handle(path, None) == Redirect("/login")
  {
    var rest := path[1..];
    if Seqs.StartsWith(path, "/admin") {
      assert path[..6] == "/admin";
      assert path[0] == path[..6][0] == '/';
      assert rest[0] == path[..6][1] == 'a' && rest[1] == path[..6][2] == 'd';
      NotExcludedByFirstTwo(rest);
    } else if Seqs.StartsWith(path, "/activities") {
      assert path[..11] == "/activities";
      assert path[0] == path[..11][0] == '/';
      assert rest[0] == path[..11][1] == 'a' && rest[1] == path[..11][2] == 'c';
      NotExcludedByFirstTwo(rest);
    } else if path == "/profile" {
      assert path[0] == '/' && rest == "profile";
      assert rest[0] == 'p' && rest[1] == 'r';
      NotExcludedByFirstTwo(rest);
    } else {
      assert path == "/" && rest == "";
    }
    assert Matched(path);
  }
}
