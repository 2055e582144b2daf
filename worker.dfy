/**
 * The Worker entry point (`fetch` in `src/index.js`): the `/auth` exchange of an access code for a
 * `SESSION` cookie, and the routing that decides which path needs which credential before a request
 * reaches the broker.
 */
module Worker {
  import opened Wrappers
  import opened Text
  import opened Cookies
  import opened DeviceTokens
  import opened SessionTokens
  import opened Broker

  /** `const ttl = 600`: a session lasts ten minutes. */
  const SessionTtl: nat := 600

  /** Some entry of `validCodes`, split on commas, trims to `code`. */
  ghost predicate Listed(validCodes: Option<string>, code: string) {
    exists e :: e in Split(validCodes.GetOr(""), ',') && Trim(e) == code
  }

  /**
   * `validCodes.includes(code)` on the trimmed code and the trimmed, non-empty `VALID_CODES`
   * entries: a code is accepted exactly when it is not blank and some entry trims to the same text.
   */
  function CodeAccepted(code: Option<string>, validCodes: Option<string>): (accepted: bool)
    ensures accepted <==> Trim(code.GetOr("")) != "" && Listed(validCodes, Trim(code.GetOr("")))
  {
    Trim(code.GetOr("")) in CommaList(validCodes)
  }

  function DigitChar(d: nat): char
    requires d < 10
  {
    '0' + d as char
  }

  /** The decimal text of `n`, as a template literal prints it. */
  function DecimalText(n: nat): (t: string)
    ensures t != ""
    ensures forall i :: 0 <= i < |t| ==> '0' <= t[i] <= '9'
    decreases n
  {
    if n < 10 then [DigitChar(n)] else DecimalText(n / 10) + [DigitChar(n % 10)]
  }

  /** The number a text of decimal digits denotes. */
  function DecimalValue(t: string): nat
    requires forall i :: 0 <= i < |t| ==> '0' <= t[i] <= '9'
  {
    if t == [] then 0 else DecimalValue(t[..|t| - 1]) * 10 + (t[|t| - 1] - '0') as nat
  }

  /** Printing a number and reading it back gives the number. */
  lemma {:induction false} DecimalRoundTrip(n: nat)
    ensures DecimalValue(DecimalText(n)) == n
    decreases n
  {
    if n >= 10 {
      var t := DecimalText(n);
      assert t[..|t| - 1] == DecimalText(n / 10);
      DecimalRoundTrip(n / 10);
    }
  }

  /** The payload of a session issued at `now` to a client at `ip`. */
  function IssuedClaims(sid: string, ip: string, now: int): (c: Claims)
    ensures c.exp.Some? && c.exp.value - c.iat == SessionTtl
    ensures c.sid == sid && c.ip == ip && c.iat == now
  {
    Claims(sid, ip, now, Some(now + SessionTtl))
  }

  /** The cookie pair `SESSION=<encodeURIComponent(token)>`, which the browser sends back. */
  function SessionPair(p: Primitives, token: string): string {
    "SESSION=" + p.encodeUri(token)
  }

  /**
   * The `Set-Cookie` value: the session pair and the cookie attributes, joined by `"; "`. It opens
   * with the pair the browser sends back and closes with the `Max-Age` attribute.
   */
  function SetCookie(p: Primitives, token: string): (cookie: string)
    ensures SessionPair(p, token) + "; " <= cookie
    ensures var maxAge := "Max-Age=" + DecimalText(SessionTtl);
            |maxAge| <= |cookie| && cookie[|cookie| - |maxAge|..] == maxAge
  {
    var pair := SessionPair(p, token);
    var first := [pair, "Path=/", "HttpOnly", "Secure", "SameSite=Strict"];
    var maxAge := "Max-Age=" + DecimalText(SessionTtl);
    assert first + [maxAge] == [pair, "Path=/", "HttpOnly", "Secure", "SameSite=Strict", maxAge];
    JoinSnoc(first, maxAge, "; ");
    assert Join(first, "; ") == pair + "; " + Join(first[1..], "; ");
    Join(first + [maxAge], "; ")
  }

  /** The cookie ends with the digits of a `Max-Age` equal to the token's lifetime. */
  lemma SetCookieShape(p: Primitives, token: string, c: Claims)
    requires c.exp.Some? && c.exp.value - c.iat == SessionTtl
    ensures var maxAge := DecimalText(SessionTtl);
            SetCookie(p, token)[|SetCookie(p, token)| - |maxAge|..] == maxAge
            && DecimalValue(maxAge) == c.exp.value - c.iat
  {
    var cookie, maxAge := SetCookie(p, token), DecimalText(SessionTtl);
    var attr := "Max-Age=" + maxAge;
    assert cookie[|cookie| - |maxAge|..] == attr[|attr| - |maxAge|..];
    DecimalRoundTrip(SessionTtl);
  }

  /**
   * The answer of `/auth`: 401, or 200 with the issued session; the 200 reply carries
   * `SetCookie(p, token)` in its `Set-Cookie` header.
   */
  datatype AuthReply = AuthRejected | AuthIssued(claims: Claims, token: string)

  /**
   * The `/auth` branch: `code` is `body.code` (`None` when missing or falsy), `validCodes` the
   * `VALID_CODES` setting, `clientIp` the `CF-Connecting-IP` header, `now` the time in seconds
   * and `sid` the value of `crypto.randomUUID()`.
   */
  function Authenticate(p: Primitives, code: Option<string>, validCodes: Option<string>,
                        secretEnv: Option<string>, clientIp: Option<string>, now: int, sid: string): (reply: AuthReply)
    ensures reply.AuthIssued? <==> CodeAccepted(code, validCodes)
    ensures reply.AuthIssued? ==>
              reply.claims.sid == sid && reply.claims.ip == clientIp.GetOr("")
              && reply.claims.iat == now && reply.claims.exp == Some(now + SessionTtl)
              && reply.token == SignSession(p, SessionSecret(secretEnv), reply.claims)
  {
    if !CodeAccepted(code, validCodes) then AuthRejected
    else
      var claims := IssuedClaims(sid, clientIp.GetOr(""), now);
      AuthIssued(claims, SignSession(p, SessionSecret(secretEnv), claims))
  }

  /**
   * The round trip of `/auth` and `requireSession`: a session issued at `t` is honoured on a later
   * request carrying its cookie; it is refused as expired only after `t + 600`, and as an IP
   * mismatch only when the issuing IP was known and differs.
   */
  lemma IssuedSessionAccepted(p: Primitives, secretEnv: Option<string>, sid: string, ip: string, t: int,
                              reqIp: Option<string>, now: int)
    requires Lawful(p) && t >= 0
    ensures var claims := IssuedClaims(sid, ip, t);
            var token := SignSession(p, SessionSecret(secretEnv), claims);
            RequireSession(p, Some(SessionPair(p, token)), reqIp, secretEnv, now)
            == if now > t + SessionTtl then SessionDenied(Expired)
               else if ip != "" && ip != reqIp.GetOr("") then SessionDenied(IpMismatch)
               else SessionOk(claims)
  {
    var claims := IssuedClaims(sid, ip, t);
    var secret := SessionSecret(secretEnv);
    var token := SignSession(p, secret, claims);
    var enc := p.encodeUri(token);
    SignVerifyRoundTrip(p, secret, claims);
    assert |token| > 0;
    assert IsUriEncoded(enc);
    assert ';' !in enc;
    assert IsPlainName("SESSION");
    SingleCookie("SESSION", enc);
    assert "SESSION" + "=" + enc == "SESSION=" + enc;
  }

  /** The request facts the routing looks at. */
  datatype Request = Request(
    httpMethod: string,
    path: string,
    upgrade: Option<string>,
    device: Option<string>,
    dtoken: Option<string>,
    cookie: Option<string>,
    clientIp: Option<string>)

  /** The Worker's settings: `DEVICE_TOKENS`, `VALID_CODES`, `SESSION_SECRET`, and whether `ASSETS` is bound. */
  datatype Env = Env(deviceTokens: Option<string>, validCodes: Option<string>, sessionSecret: Option<string>,
                     hasAssets: bool)

  /** Where `fetch` sends a request: the `/auth` branch, the broker, a 401, the static assets, a 404, or an exception. */
  datatype Route = ToAuth | ToBroker | Unauthorized | ToAssets | NotFound | Crash

  /** The REST paths that need a session: `/devices`, `/contacts`, and every path below either of them. */
  predicate IsRestPath(path: string) {
    path == "/devices" || StartsWith(path, "/devices/") || path == "/contacts" || StartsWith(path, "/contacts/")
  }

  /** A websocket handshake to `/ws`. */
  predicate IsWsRequest(req: Request) {
    req.path == "/ws" && IsWebSocketUpgrade(req.upgrade)
  }

  /** The outcome of `requireSession` for this request. */
  function BrowserSession(p: Primitives, env: Env, req: Request, now: int): SessionCheck {
    RequireSession(p, req.cookie, req.clientIp, env.sessionSecret, now)
  }

  /** The route for a request that needs a browser session: forwarded, 401, or an exception. */
  function SessionRoute(check: SessionCheck): (r: Route)
    ensures r == ToBroker <==> check.SessionOk?
    ensures r == Unauthorized <==> check.SessionDenied?
  {
    match check
    case SessionOk(_) => ToBroker
    case SessionDenied(_) => Unauthorized
    case SessionThrows => Crash
  }

  /** `fetch`: the branches in source order. */
  function Dispatch(p: Primitives, env: Env, req: Request, now: int): (r: Route)
    ensures r == ToBroker ==>
              (IsWsRequest(req) && (DeviceTokenOk(req.device, req.dtoken, env.deviceTokens) || BrowserSession(p, env, req, now).SessionOk?))
              || (IsRestPath(req.path) && BrowserSession(p, env, req, now).SessionOk?)
    ensures r == ToBroker && req.path == "/ws" ==> UpgradeStatus(req.upgrade) == 101
    ensures r == Unauthorized ==> (IsWsRequest(req) || IsRestPath(req.path)) && BrowserSession(p, env, req, now).SessionDenied?
    ensures r == ToAuth <==> req.path == "/auth" && req.httpMethod == "POST"
  {
    if req.path == "/auth" && req.httpMethod == "POST" then ToAuth
    else if IsWsRequest(req) then
      if DeviceTokenOk(req.device, req.dtoken, env.deviceTokens) then ToBroker
      else SessionRoute(BrowserSession(p, env, req, now))
    else if IsRestPath(req.path) then SessionRoute(BrowserSession(p, env, req, now))
    else if env.hasAssets then ToAssets
    else NotFound
  }

  /** A websocket handshake to `/ws` is forwarded on a valid device token alone; otherwise the session decides. */
  lemma WsRoute(p: Primitives, env: Env, req: Request, now: int)
    requires IsWsRequest(req)
    ensures DeviceTokenOk(req.device, req.dtoken, env.deviceTokens) ==> Dispatch(p, env, req, now) == ToBroker
    ensures !DeviceTokenOk(req.device, req.dtoken, env.deviceTokens) ==>
              Dispatch(p, env, req, now) == SessionRoute(BrowserSession(p, env, req, now))
  {
  }

  /** The REST paths are forwarded only with a valid session, whatever the device parameters say. */
  lemma RestRoute(p: Primitives, env: Env, req: Request, now: int)
    requires IsRestPath(req.path)
    ensures Dispatch(p, env, req, now) == SessionRoute(BrowserSession(p, env, req, now))
  {
  }

  /** Every other request reaches the static assets (or a 404) with no credential at all. */
  lemma PublicRoute(p: Primitives, env: Env, req: Request, now: int)
    requires !(req.path == "/auth" && req.httpMethod == "POST") && !IsWsRequest(req) && !IsRestPath(req.path)
    ensures Dispatch(p, env, req, now) == if env.hasAssets then ToAssets else NotFound
  {
  }

  /**
   * A REST request forwarded to the broker without a websocket upgrade gets the broker's 426: the
   * broker answers nothing but websocket handshakes.
   */
  lemma RestForwardGets426(p: Primitives, env: Env, req: Request, now: int)
    requires Dispatch(p, env, req, now) == ToBroker && !IsWebSocketUpgrade(req.upgrade)
    ensures IsRestPath(req.path) && UpgradeStatus(req.upgrade) == 426
  {
  }

  /**
   * A browser that obtained a cookie from `/auth` at `t` opens the websocket at `now`: the handshake
   * is forwarded as long as the session has not expired and the request comes from the same IP.
   */
  lemma IssuedCookieOpensWebSocket(p: Primitives, env: Env, req: Request, now: int, sid: string, t: int)
    requires Lawful(p) && t >= 0 && now <= t + SessionTtl
    requires IsWsRequest(req)
    requires req.cookie == Some(SessionPair(p, SignSession(p, SessionSecret(env.sessionSecret),
                                                           IssuedClaims(sid, req.clientIp.GetOr(""), t))))
    ensures Dispatch(p, env, req, now) == ToBroker
  {
    IssuedSessionAccepted(p, env.sessionSecret, sid, req.clientIp.GetOr(""), t, req.clientIp, now);
  }
}
