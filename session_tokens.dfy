/**
 * Browser sessions: the signed token `payload.sig` (`signSession`, `verifySessionToken`) and the
 * ordered checks of `requireSession` (cookie present, token valid, not expired, same IP).
 *
 * JSON, base64, HMAC and URI encoding are not modelled; they are the function-valued fields of
 * `Primitives`, passed in as a parameter, and the only facts used about them are the laws in
 * `Lawful`.
 */
module SessionTokens {
  import opened Wrappers
  import opened Text
  import opened Cookies

  /**
   * The session payload `{ sid, ip, iat, exp }` as read back from JSON: `ip` is "" when absent,
   * `exp` is `None` when absent.
   */
  datatype Claims = Claims(sid: string, ip: string, iat: int, exp: Option<int>)

  datatype Primitives = Primitives(
    /** `JSON.stringify` of a payload */
    toJson: Claims -> string,
    /** `JSON.parse`; `None` when it throws or yields a falsy value */
    parseJson: string -> Option<Claims>,
    /** `btoa` */
    btoa: string -> string,
    /** `atob`; `None` when it throws */
    atob: string -> Option<string>,
    /** `crypto.subtle.sign("HMAC", key(secret), data)`, the signature bytes as characters */
    hmacSign: (string, string) -> string,
    /** `crypto.subtle.verify("HMAC", key(secret), sig, data)` */
    hmacVerify: (string, string, string) -> bool,
    /** `encodeURIComponent` */
    encodeUri: string -> string,
    /** `decodeURIComponent`; `None` when it throws */
    decodeUri: string -> Option<string>)

  /** The base64 alphabet of section 4 of RFC 4648, with its `=` padding. */
  predicate IsBase64Char(c: char) {
    'A' <= c <= 'Z' || 'a' <= c <= 'z' || '0' <= c <= '9' || c == '+' || c == '/' || c == '='
  }

  predicate IsBase64Text(t: string) {
    forall i :: 0 <= i < |t| ==> IsBase64Char(t[i])
  }

  /** A character `encodeURIComponent` leaves as it is; every other character becomes a `%XX` escape. */
  predicate IsUriUnreserved(c: char) {
    'A' <= c <= 'Z' || 'a' <= c <= 'z' || '0' <= c <= '9'
    || c == '-' || c == '_' || c == '.' || c == '!' || c == '~' || c == '*' || c == '\'' || c == '(' || c == ')'
  }

  predicate IsUriEncoded(t: string) {
    forall i :: 0 <= i < |t| ==> IsUriUnreserved(t[i]) || t[i] == '%'
  }

  /** The laws of the primitives that the gatekeeping relies on. */
  ghost predicate Lawful(p: Primitives) {
    (forall s :: p.atob(p.btoa(s)) == Some(s))
    && (forall s :: IsBase64Text(p.btoa(s)))
    && (forall secret, data :: p.hmacVerify(secret, p.hmacSign(secret, data), data))
    && (forall c :: p.parseJson(p.toJson(c)) == Some(c))
    && (forall s :: p.decodeUri(p.encodeUri(s)) == Some(s))
    && (forall s :: IsUriEncoded(p.encodeUri(s)))
    && (forall s :: |p.encodeUri(s)| >= |s|)
  }

  /** `env.SESSION_SECRET || "dev-secret"` */
  function SessionSecret(env: Option<string>): (secret: string)
    ensures secret != ""
    ensures env.Some? && env.value != "" ==> secret == env.value
    ensures !(env.Some? && env.value != "") ==> secret == "dev-secret"
  {
    if env.Some? && env.value != "" then env.value else "dev-secret"
  }

  /**
   * `signSession`: `btoa(json) + "." + btoa(signature of json)`. The base64 alphabet has no `.`,
   * so the token splits into exactly those two parts.
   */
  function SignSession(p: Primitives, secret: string, claims: Claims): (token: string)
    ensures Lawful(p) ==>
              var json := p.toJson(claims);
              Split(token, '.') == [p.btoa(json), p.btoa(p.hmacSign(secret, json))]
  {
    var json := p.toJson(claims);
    var a, b := p.btoa(json), p.btoa(p.hmacSign(secret, json));
    SplitPair(a, b, '.');
    assert Lawful(p) ==> '.' !in a && '.' !in b by {
      if Lawful(p) {
        assert IsBase64Text(a) && IsBase64Text(b);
      }
    }
    a + "." + b
  }

  /** Two separator-free parts joined by the separator split back into those parts. */
  lemma SplitPair(a: string, b: string, sep: char)
    ensures sep !in a && sep !in b ==> Split(a + [sep] + b, sep) == [a, b]
  {
    if sep !in a && sep !in b {
      assert Join([a, b], [sep]) == a + [sep] + b by {
        assert [a, b][1..] == [b];
      }
      SplitJoin([a, b], sep);
    }
  }

  /** The outcome of `verifySessionToken`: the payload, `null`, or an exception from `atob(sigB64)`. */
  datatype TokenCheck = TokenValid(claims: Claims) | TokenInvalid | TokenThrows

  /**
   * `verifySessionToken`: the token must split on `.` into exactly two parts; the first is
   * decoded inside a `try` (a failure rejects), the second outside one (a failure throws).
   */
  function VerifySessionToken(p: Primitives, secret: string, token: string): (r: TokenCheck)
    ensures |Split(token, '.')| != 2 ==> r == TokenInvalid
    ensures r == TokenThrows <==>
              var parts := Split(token, '.');
              |parts| == 2 && p.atob(parts[0]).Some? && p.atob(parts[1]).None?
    ensures r.TokenValid? <==>
              var parts := Split(token, '.');
              |parts| == 2 && p.atob(parts[0]).Some? && p.atob(parts[1]).Some?
              && p.hmacVerify(secret, p.atob(parts[1]).value, p.atob(parts[0]).value)
              && p.parseJson(p.atob(parts[0]).value).Some?
    ensures r.TokenValid? ==>
              var parts := Split(token, '.');
              |parts| == 2 && p.atob(parts[0]).Some? && p.parseJson(p.atob(parts[0]).value) == Some(r.claims)
  {
    var parts := Split(token, '.');
    if |parts| != 2 then TokenInvalid
    else match p.atob(parts[0])
      case None => TokenInvalid
      case Some(json) =>
        match p.atob(parts[1])
        case None => TokenThrows
        case Some(sig) =>
          if !p.hmacVerify(secret, sig, json) then TokenInvalid
          else match p.parseJson(json)
            case None => TokenInvalid
            case Some(claims) => TokenValid(claims)
  }

  /** Verification accepts every token signed with the same secret and returns its payload. */
  lemma SignVerifyRoundTrip(p: Primitives, secret: string, claims: Claims)
    requires Lawful(p)
    ensures VerifySessionToken(p, secret, SignSession(p, secret, claims)) == TokenValid(claims)
  {
  }

  /**
   * `payload.exp && payload.exp < now`: a missing or zero `exp` never expires, and the comparison
   * is strict, so a token is still good in the second its `exp` names.
   */
  function IsExpired(exp: Option<int>, now: int): (expired: bool)
    ensures exp.None? ==> !expired
    ensures exp == Some(0) ==> !expired
    ensures exp.Some? && exp.value >= now ==> !expired
    ensures exp.Some? && exp.value != 0 && exp.value < now ==> expired
  {
    exp.Some? && exp.value != 0 && exp.value < now
  }

  datatype Denial = NoCookie | BadToken | Expired | IpMismatch

  /** The outcome of `requireSession`: the session payload, a refusal with its reason, or an exception. */
  datatype SessionCheck = SessionOk(claims: Claims) | SessionDenied(reason: Denial) | SessionThrows

  /** The token carried by the `SESSION` cookie (`Some("")` when absent, `None` when decoding throws). */
  function SessionCookie(p: Primitives, cookieHeader: Option<string>): Option<string> {
    ParseCookie(p.decodeUri, cookieHeader, "SESSION")
  }

  /**
   * `requireSession`: `cookieHeader` and `clientIp` are the `Cookie` and `CF-Connecting-IP`
   * headers, `secretEnv` is `SESSION_SECRET`, `now` the current time in seconds.
   */
  function RequireSession(p: Primitives, cookieHeader: Option<string>, clientIp: Option<string>,
                          secretEnv: Option<string>, now: int): (r: SessionCheck)
    ensures r == SessionDenied(NoCookie) <==> SessionCookie(p, cookieHeader) == Some("")
    ensures r == SessionDenied(BadToken) <==>
              match SessionCookie(p, cookieHeader)
              case Some(token) => token != "" && VerifySessionToken(p, SessionSecret(secretEnv), token) == TokenInvalid
              case None => false
    ensures r == SessionThrows <==>
              match SessionCookie(p, cookieHeader)
              case Some(token) => token != "" && VerifySessionToken(p, SessionSecret(secretEnv), token) == TokenThrows
              case None => true
    ensures r == SessionDenied(Expired) <==>
              match SessionCookie(p, cookieHeader)
              case Some(token) =>
                token != "" && var v := VerifySessionToken(p, SessionSecret(secretEnv), token);
                v.TokenValid? && IsExpired(v.claims.exp, now)
              case None => false
    ensures r == SessionDenied(IpMismatch) <==>
              match SessionCookie(p, cookieHeader)
              case Some(token) =>
                token != "" && var v := VerifySessionToken(p, SessionSecret(secretEnv), token);
                v.TokenValid? && !IsExpired(v.claims.exp, now) && v.claims.ip != "" && v.claims.ip != clientIp.GetOr("")
              case None => false
    ensures r.SessionOk? <==>
              match SessionCookie(p, cookieHeader)
              case Some(token) =>
                token != "" && var v := VerifySessionToken(p, SessionSecret(secretEnv), token);
                v.TokenValid? && !IsExpired(v.claims.exp, now) && (v.claims.ip == "" || v.claims.ip == clientIp.GetOr(""))
              case None => false
    ensures r.SessionOk? ==>
              exists token :: SessionCookie(p, cookieHeader) == Some(token) && token != ""
                && VerifySessionToken(p, SessionSecret(secretEnv), token) == TokenValid(r.claims)
    ensures r.SessionOk? ==> !IsExpired(r.claims.exp, now)
    ensures r.SessionOk? ==> r.claims.ip == "" || r.claims.ip == clientIp.GetOr("")
  {
    var token := SessionCookie(p, cookieHeader);
    if token.None? then SessionThrows
    else if token.value == "" then SessionDenied(NoCookie)
    else match VerifySessionToken(p, SessionSecret(secretEnv), token.value)
      case TokenThrows => SessionThrows
      case TokenInvalid => SessionDenied(BadToken)
      case TokenValid(c) =>
        if IsExpired(c.exp, now) then SessionDenied(Expired)
        else if c.ip != "" && c.ip != clientIp.GetOr("") then SessionDenied(IpMismatch)
        else SessionOk(c)
  }
}
