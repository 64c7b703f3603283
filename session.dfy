/** The session gate: the page middleware (middleware.ts), the login route
    that issues the session cookie and the logout route that clears it. The
    state is the browser's session cookie: absent, or a string. */
module Session {
  import opened Common
  import opened Http
  import Utf8
  import Base64

  const CookieName := "market-diary-session"

  /** The environment variables the gate reads. */
  datatype Env = Env(authUsername: Option<string>, authPassword: Option<string>, nodeEnv: Option<string>)

  /** The text a session token carries: its Base64 decoded, then read as UTF-8. */
  function TokenText(t: string): Option<string> {
    match Base64.Decode(t)
    case None => None
    case Some(b) => Utf8.Decode(b)
  }

  /** The text a token is made from. */
  function Credentials(username: string, password: string): string {
    username + ":" + password + ":market-diary"
  }

  /** The session token for a pair of credentials: the Base64 of the UTF-8
      bytes of `username:password:market-diary`, which reads back as that text. */
  function SessionToken(username: string, password: string): (t: string)
    ensures TokenText(t) == Some(Credentials(username, password))
  {
    var text := Credentials(username, password);
    TokenRoundTrip(text);
    Base64.Encode(Utf8.Encode(text))
  }

  lemma TokenRoundTrip(text: string)
    ensures TokenText(Base64.Encode(Utf8.Encode(text))) == Some(text)
  {
    Base64.DecodeEncode(Utf8.Encode(text));
    Utf8.DecodeEncode(text);
  }

  /** For one username, the token determines the password. */
  lemma TokenDeterminesPassword(username: string, p: string, q: string)
    requires SessionToken(username, p) == SessionToken(username, q)
    ensures p == q
  {
    var s, t := Credentials(username, p), Credentials(username, q);
    assert TokenText(SessionToken(username, p)) == Some(s) && TokenText(SessionToken(username, q)) == Some(t);
    assert |p| == |q|;
    assert p == s[|username| + 1..|username| + 1 + |p|];
    assert q == t[|username| + 1..|username| + 1 + |q|];
  }

  /** The token the middleware expects (`createSessionToken`): the password
      defaults to `password`. */
  function ExpectedToken(env: Env): (t: string)
    ensures TokenText(t) == Some(Credentials(OrDefault(env.authUsername, "admin"), OrDefault(env.authPassword, "password")))
  {
    SessionToken(OrDefault(env.authUsername, "admin"), OrDefault(env.authPassword, "password"))
  }

  /** The credentials the login route accepts: the password defaults to
      `market2024`. */
  function ValidUsername(env: Env): string {
    OrDefault(env.authUsername, "admin")
  }

  function ValidPassword(env: Env): string {
    OrDefault(env.authPassword, "market2024")
  }

  /** The token the login route issues: it carries the credentials the
      login route accepts, with the password defaulting to `market2024`. */
  function IssuedToken(env: Env): (t: string)
    ensures TokenText(t) == Some(Credentials(OrDefault(env.authUsername, "admin"), OrDefault(env.authPassword, "market2024")))
  {
    SessionToken(ValidUsername(env), ValidPassword(env))
  }

  // ----- cookies -----

  datatype CookieSpec = CookieSpec(
    name: string, value: string, httpOnly: bool, secure: bool, sameSite: string, maxAge: int, path: string)

  /** What a response does to the session cookie. */
  datatype CookieEffect = KeepCookie | SetCookie(spec: CookieSpec) | DeleteCookie

  /** The browser's session cookie after a response. */
  function Apply(cookie: Option<string>, e: CookieEffect): (r: Option<string>)
    ensures e.KeepCookie? ==> r == cookie
    ensures e.DeleteCookie? ==> r.None?
    ensures e.SetCookie? && e.spec.name == CookieName ==> r == Some(e.spec.value)
  {
    match e
    case KeepCookie => cookie
    case DeleteCookie => None
    case SetCookie(spec) => if spec.name == CookieName then Some(spec.value) else cookie
  }

  // ----- middleware -----

  /** What the middleware answers: let the request through, or redirect to
      `/login`, with `from` set or not, and with an effect on the cookie. */
  datatype Decision = Pass | Redirect(from: Option<string>, effect: CookieEffect)

  /** The pages the middleware lets through unchecked. */
  predicate Public(path: string) {
    "/login" <= path || "/_next" <= path || "/favicon" <= path
  }

  /** `middleware`: unchecked paths pass; without a session cookie, redirect
      with `from`; a cookie other than the expected token is deleted on a
      redirect without `from`; the expected token passes. */
  function Middleware(env: Env, path: string, cookie: Option<string>): (d: Decision)
    ensures Public(path) ==> d == Pass
    ensures !Public(path) && cookie.None? ==> d == Redirect(Some(path), KeepCookie)
    ensures !Public(path) && cookie.Some? ==>
      (d == Pass <==> cookie.value == ExpectedToken(env))
    ensures !Public(path) && cookie.Some? && cookie.value != ExpectedToken(env) ==> d == Redirect(None, DeleteCookie)
  {
    if Public(path) then Pass
    else if cookie.None? then Redirect(Some(path), KeepCookie)
    else if cookie.value != ExpectedToken(env) then Redirect(None, DeleteCookie)
    else Pass
  }

  /** The alternatives of the matcher's negative lookahead. */
  const Lookahead: seq<string> := ["api", "_next", "favicon.ico"]

  /** The regular-expression literal `p` matches at the start of `s`: each
      character of `p` matches itself, and `.` matches any character. */
  predicate PatternPrefix(p: string, s: string) {
    |p| <= |s| && forall i | 0 <= i < |p| :: p[i] == '.' || p[i] == s[i]
  }

  /** `(?!api|_next|favicon.ico)` fails on `rest`: one alternative matches at
      its start. The names are prefixes, not path segments, and the `.` of
      `favicon.ico` matches any character. */
  function Excluded(rest: string): (b: bool)
    ensures b <==> "api" <= rest || "_next" <= rest || (|rest| >= 11 && rest[..7] == "favicon" && rest[8..11] == "ico")
  {
    assert PatternPrefix(Lookahead[0], rest) <==> "api" <= rest;
    assert PatternPrefix(Lookahead[1], rest) <==> "_next" <= rest;
    assert PatternPrefix(Lookahead[2], rest) <==> |rest| >= 11 && rest[..7] == "favicon" && rest[8..11] == "ico";
    exists k | 0 <= k < |Lookahead| :: PatternPrefix(Lookahead[k], rest)
  }

  /** `config.matcher`, `/((?!api|_next|favicon.ico).*)`: the paths the
      middleware runs on. */
  function Matched(path: string): (b: bool)
    ensures b <==> (|path| >= 1 && path[0] == '/' && !("/api" <= path) && !("/_next" <= path)
                    && !(|path| >= 12 && path[..8] == "/favicon" && path[9..12] == "ico"))
  {
    assert |path| >= 1 && path[0] == '/' ==>
      && ("/api" <= path <==> "api" <= path[1..])
      && ("/_next" <= path <==> "_next" <= path[1..])
      && (|path| >= 12 && path[..8] == "/favicon" && path[9..12] == "ico" <==>
          |path[1..]| >= 11 && path[1..][..7] == "favicon" && path[1..][8..11] == "ico");
    |path| >= 1 && path[0] == '/' && !Excluded(path[1..])
  }

  /** A request as it meets the gate: paths under `/api` and `/_next`,
      `/favicon.ico` (any character in place of the dot) and paths not
      starting with `/` pass unchecked; every other path goes through the
      middleware. */
  function Gate(env: Env, path: string, cookie: Option<string>): (d: Decision)
    ensures path == [] || path[0] != '/' ==> d == Pass
    ensures "/api" <= path || "/_next" <= path ==> d == Pass
    ensures |path| >= 12 && path[..8] == "/favicon" && path[9..12] == "ico" ==> d == Pass
    ensures (|path| >= 1 && path[0] == '/' && !("/api" <= path) && !("/_next" <= path)
             && !(|path| >= 12 && path[..8] == "/favicon" && path[9..12] == "ico")) ==>
            d == Middleware(env, path, cookie)
  {
    if Matched(path) then Middleware(env, path, cookie) else Pass
  }

  /** The API routes are never gated, whatever the cookie. */
  lemma ApiNeverGated(env: Env, path: string, cookie: Option<string>)
    requires "/api" <= path
    ensures Gate(env, path, cookie) == Pass
  {
    assert path[1..][..3] == "api";
  }

  /** Every other page is gated: without a cookie it redirects to `/login`
      carrying its own path. */
  lemma PagesAreGated(env: Env, path: string)
    requires |path| >= 1 && path[0] == '/' && !Excluded(path[1..]) && !Public(path)
    ensures Gate(env, path, None) == Redirect(Some(path), KeepCookie)
  {
  }

  /** A redirect that deletes a bad cookie sends the next request down the
      no-cookie branch. */
  lemma BadCookieThenNoCookie(env: Env, path: string, value: string)
    requires Matched(path) && !Public(path) && value != ExpectedToken(env)
    ensures Gate(env, path, Some(value)) == Redirect(None, DeleteCookie)
    ensures Gate(env, path, Apply(Some(value), DeleteCookie)) == Redirect(Some(path), KeepCookie)
  {
  }

  // ----- login and logout -----

  datatype AuthPayload = Done(message: string) | Refused(error: string)

  datatype AuthReply = AuthReply(status: int, payload: AuthPayload, effect: CookieEffect)

  const LoginDone := "Login successful"
  const LogoutDone := "Logout successful"
  const BadCredentials := "ユーザー名またはパスワードが正しくありません"
  const LoginCrashed := "ログイン処理中にエラーが発生しました"

  /** Thirty days, in seconds. */
  const MaxAge := 60 * 60 * 24 * 30

  /** The cookie the login route sets. */
  function SessionCookie(env: Env): (c: CookieSpec)
    ensures c.name == CookieName && c.value == IssuedToken(env)
    ensures c.httpOnly && c.sameSite == "lax" && c.path == "/" && c.maxAge == 2592000
    ensures c.secure <==> env.nodeEnv == Some("production")
  {
    CookieSpec(CookieName, IssuedToken(env), true, env.nodeEnv == Some("production"), "lax", MaxAge, "/")
  }

  /** Both `username` and `password` of the body are exactly the configured
      strings. */
  predicate CredentialsMatch(env: Env, body: Body) {
    && "username" in body && body["username"] == JString(ValidUsername(env))
    && "password" in body && body["password"] == JString(ValidPassword(env))
  }

  /** POST /api/auth/login: `body` is None when it is not JSON, or is JSON
      `null`, which cannot be destructured. */
  function Login(env: Env, body: Option<Body>): (r: AuthReply)
    ensures r.status == 200 <==> body.Some? && CredentialsMatch(env, body.value)
    ensures r.status == 200 ==> r == AuthReply(200, Done(LoginDone), SetCookie(SessionCookie(env)))
    ensures r.status != 200 ==> r.effect == KeepCookie
    ensures body.Some? && !CredentialsMatch(env, body.value) ==> r == AuthReply(401, Refused(BadCredentials), KeepCookie)
    ensures body.None? ==> r == AuthReply(500, Refused(LoginCrashed), KeepCookie)
  {
    if body.None? then AuthReply(500, Refused(LoginCrashed), KeepCookie)
    else if CredentialsMatch(env, body.value) then AuthReply(200, Done(LoginDone), SetCookie(SessionCookie(env)))
    else AuthReply(401, Refused(BadCredentials), KeepCookie)
  }

  /** POST /api/auth/logout: reads nothing and always deletes the cookie. */
  function Logout(): (r: AuthReply)
    ensures r.status == 200 && r.payload == Done(LogoutDone) && r.effect == DeleteCookie
  {
    AuthReply(200, Done(LogoutDone), DeleteCookie)
  }

  /** Logging out twice is logging out once, from any cookie state. */
  lemma LogoutIdempotent(cookie: Option<string>)
    ensures Apply(Apply(cookie, Logout().effect), Logout().effect) == Apply(cookie, Logout().effect) == None
  {
  }

  /** After logout a gated page takes the no-cookie branch. */
  lemma LogoutThenGate(env: Env, path: string, cookie: Option<string>)
    requires Matched(path) && !Public(path)
    ensures Gate(env, path, Apply(cookie, Logout().effect)) == Redirect(Some(path), KeepCookie)
  {
  }

  /** A failed login leaves the cookie as it was, whichever field was wrong. */
  lemma FailedLoginKeepsCookie(env: Env, body: Option<Body>, cookie: Option<string>)
    requires Login(env, body).status != 200
    ensures Apply(cookie, Login(env, body).effect) == cookie
  {
  }

  /** The token a login issues opens the gate exactly when `AUTH_PASSWORD`
      is set to a non-empty value: without it the login route's default
      `market2024` and the middleware's default `password` differ. */
  lemma LoginThenGate(env: Env, body: Option<Body>, path: string, cookie: Option<string>)
    requires Login(env, body).status == 200
    requires Matched(path) && !Public(path)
    ensures Gate(env, path, Apply(cookie, Login(env, body).effect)) == Pass <==> Given(env.authPassword)
  {
    var after := Apply(cookie, Login(env, body).effect);
    assert after == Some(IssuedToken(env));
    if !Given(env.authPassword) && IssuedToken(env) == ExpectedToken(env) {
      TokenDeterminesPassword(ValidUsername(env), "market2024", "password");
    }
  }
}
