# air-broker in Dafny

A verified model of the core of air-broker. air-broker is a Cloudflare Worker that runs a
websocket publish/subscribe broker for a fleet of SMS devices and their browser consoles. The
model has two parts:

- **The broker** (`src/broker.js`, class `PubSubBroker`). This is a registry of live websocket
  sessions, each with its set of subscribed topics:
  - `fetch` answers 426 to anything that is not a websocket upgrade and registers a session
    otherwise;
  - `handleMessage` subscribes a session to a topic, or fans a publish out to every subscriber
    in the registry as it stood when the publish began, closing a subscriber whose send throws;
  - `handleClose` filters the session out of the registry.

  It is modelled imperatively (module `Broker`): a `PubSubBroker` class whose `sessions`
  sequence the methods reassign, and a `sent` log that records every frame written to a socket.
- **The gatekeeping in front of it** (`src/index.js`):
  - the device check of `/ws?device=..&dtoken=..` against `DEVICE_TOKENS` (module
    `DeviceTokens`, the loop as a method);
  - the `SESSION` cookie parser (module `Cookies`, the regular expression as an explicit
    leftmost search);
  - the signed token `payload.sig` and the ordered checks of `requireSession` (module
    `SessionTokens`);
  - the `/auth` code exchange and the routing of `fetch` (module `Worker`).

  These are functions and lemmas, except the table-building loop of `verifyDeviceToken`, which
  is the method `DeviceTokens.BuildTable` called from the method `DeviceTokens.VerifyDeviceToken`.
  Module `Text` models the JavaScript string operations
  they rely on (`trim`, `split`, `join`, `toLowerCase`), and module `Wrappers` has `Option`.

The properties proved include:

- exactly-once delivery to live subscribers, and an exact account of which sessions a fanout
  closes;
- `split`/`join` round trips;
- a device table lookup stated in terms of the last usable `id:token` entry;
- soundness, completeness and leftmost choice of the cookie search;
- the sign/verify round trip of session tokens;
- a cookie issued by `/auth` is honoured until it expires and, when the issuing request carried
  an IP, only from that IP;
- which paths need which credential.

Two consequences of the code are worth stating:

- The broker's `fetch` answers 426 to every request without a websocket `Upgrade` header
  (`src/broker.js:15-18`). That includes the REST paths the Worker forwards to it
  (`src/index.js:205`, `Worker.RestForwardGets426`).
- A subscriber whose send throws is closed at once, from inside the `catch`
  (`src/broker.js:95-99`). `Broker.PubSubBroker.Fanout` removes exactly the failing subscribers.

## Model

| member | source | states |
|---|---|---|
| Text.TrimStart | src/index.js:96 | the result is a suffix of the input, everything cut off is white space, and it does not start with white space |
| Text.TrimEnd | src/index.js:96 | the result is a prefix of the input, everything cut off is white space, and it does not end with white space |
| Text.Trim | src/index.js:128 | `trim` returns a slice of the input with only white space around it, and neither of its ends is white space |
| Text.TrimEmptyIffBlank | src/index.js:128 | a string trims to "" exactly when it is all white space |
| Text.Split | src/index.js:29 | `split` on one character gives at least one part, and no part contains the separator |
| Text.JoinSplit | src/index.js:95 | joining the parts of a split with the separator gives back the original string |
| Text.SplitJoin | src/index.js:29-31 | splitting the join of separator-free parts gives back exactly those parts |
| Text.SplitPlain | src/index.js:99 | a string without the separator splits into itself alone |
| Text.SplitPrefix | src/index.js:29 | a separator-free prefix followed by a separator becomes the first part |
| Text.SplitHead | src/index.js:99 | a string without the separator is its only part; otherwise the first part, the separator and the second part open the string, and the second part ends at the next separator or the end |
| Text.JoinSnoc | src/index.js:155-162 | joining one more part appends the separator and that part |
| Text.TrimmedNonEmptyMembers | src/index.js:94-97 | after `map(trim).filter(Boolean)`, an item is present exactly when it is the non-empty trim of some part |
| Text.CommaList | src/index.js:94-97 | a comma-separated setting lists exactly the non-empty trims of its comma-separated entries (also `VALID_CODES` at src/index.js:130-133) |
| Text.IsWebSocketUpgrade | src/index.js:117 | the `Upgrade` header counts as a websocket upgrade exactly when it spells "websocket" with each letter in either ASCII case (non-ASCII lower-casing is under "Left out") |
| Cookies.SkipSpaces | src/index.js:54 | `\s*` stops at the first character that is not white space, and everything it skipped is white space |
| Cookies.ValueEnd | src/index.js:54 | greedy `[^;]+` stops at the next `;` or at the end, and contains no `;` |
| Cookies.PairAt | src/index.js:54 | the attempt at a position succeeds exactly when `name=` and a non-empty value without `;` stand there |
| Cookies.MatchAtSound | src/index.js:54-55 | a successful attempt reads a real pair that starts the header or follows `;` and white space |
| Cookies.FirstMatchSound | src/index.js:55 | whatever the search reports is the value of a real `name=value` pair of the header |
| Cookies.FirstMatchSkips | src/index.js:55 | failing attempts before a position do not change the search result |
| Cookies.MatchAtCookie | src/index.js:54 | a pair for a plain name is found by the attempt at the `;` before it, or at 0 |
| Cookies.FirstMatchReaches | src/index.js:55 | one successful attempt makes the search from any earlier position succeed |
| Cookies.RawCookieComplete | src/index.js:52-56 | a header that holds a pair for the name always matches |
| Cookies.RawCookieLeftmost | src/index.js:55-56 | the value returned is that of the leftmost pair for the name |
| Cookies.SingleCookie | src/index.js:52-56 | the header `name=v` yields `v` |
| Cookies.RawCookieNoneIff | src/index.js:56 | there is no match (so `parseCookie` returns "") exactly when the header holds no pair for the name |
| Cookies.RawCookie | src/index.js:54-55 | every value `cookie.match` captures is the value of a real `name=value` pair of the header |
| Cookies.ParseCookie | src/index.js:52-57 | a header (absent counts as "") without a pair for the name gives ""; a throw of `decodeURIComponent` and every non-empty result come from decoding the value of a real pair; for a plain name such as `SESSION`, the result is the decoded value of the leftmost pair |
| DeviceTokens.ParseEntry | src/index.js:99 | the id and the token of an entry contain no colon |
| DeviceTokens.ParseEntryFields | src/index.js:99 | an entry without a colon is an id with an empty token; otherwise the entry opens with the id, a colon and the token, and the token ends at the second colon or the end, so "a:b:c" gives id "a" and token "b" |
| DeviceTokens.ParseEntryOf | src/index.js:99 | the entry `id:token` reads back as that id and token |
| DeviceTokens.TokenTable | src/index.js:93-101 | no stored id or token is empty, so the truthiness test `map[devId]` at src/index.js:103 only asks whether the id is present |
| DeviceTokens.TokenTableExtend | src/index.js:98-101 | loop helper for `BuildTable`: unfolds `TokenTable` by one entry at a prefix (one `forEach` step either stores a usable entry or leaves the table as it was) |
| DeviceTokens.TokenTableLookup | src/index.js:93-101 | the table maps an id to a token exactly when the last usable entry for that id carries that token |
| DeviceTokens.LaterEntryOverrides | src/index.js:98-101 | an entry appended for an id replaces whatever the earlier entries said about it |
| DeviceTokens.DeviceTokenOk | src/index.js:91-103 | a device is accepted exactly when both parameters are non-empty (src/index.js:91) and the last usable entry for the device carries the token (src/index.js:103) |
| DeviceTokens.BuildTable | src/index.js:93-101 | the loop builds exactly the table of all the entries |
| DeviceTokens.VerifyDeviceToken | src/index.js:88-107 | accepts exactly when the device check holds, and then reports the non-empty device id given |
| SessionTokens.SessionSecret | src/index.js:66 | the secret is the setting when it is non-empty, and "dev-secret" when it is missing or empty |
| SessionTokens.SignSession | src/index.js:18-26 | for lawful primitives, a signed token splits on `.` into exactly the base64 payload and the base64 signature |
| SessionTokens.VerifySessionToken | src/index.js:28-50 | a token that does not split into two parts is rejected; it throws exactly when it has two parts, the payload decodes and the signature does not (`atob(sigB64)` is outside a `try`); it is valid exactly when both parts decode, the HMAC verifies and the payload parses, and the claims returned are `JSON.parse` of the payload |
| SessionTokens.SignVerifyRoundTrip | src/index.js:18-50 | verification with the same secret accepts a signed token and returns its payload |
| SessionTokens.IsExpired | src/index.js:72 | a missing or zero `exp` never expires (0 is falsy); a token is still valid in the second `exp` names; a nonzero past `exp` expires |
| SessionTokens.RequireSession | src/index.js:62-82 | each outcome holds exactly when its checks, taken in the source order, decide it: an exception when `decodeURIComponent` or `atob(sigB64)` throws; no-cookie when the cookie is absent or empty; bad-token when verification rejects; expired for a valid, expired token; ip-mismatch for a valid, unexpired token bound to another IP; otherwise the session, which is the verified payload |
| Worker.DecimalText | src/index.js:161 | the printed number is a non-empty run of decimal digits |
| Worker.DecimalRoundTrip | src/index.js:161 | reading the printed number back gives that number, so `Max-Age` says the TTL |
| Worker.IssuedClaims | src/index.js:142-150 | the payload carries the given sid, IP and issue time, and expires 600 seconds later |
| Worker.CodeAccepted | src/index.js:128-135 | a code is accepted exactly when its trim is non-empty and some comma-separated entry of `VALID_CODES` trims to it |
| Worker.SetCookie | src/index.js:155-162 | the cookie opens with `SESSION=<encoded token>; ` and closes with `Max-Age=600` |
| Worker.SetCookieShape | src/index.js:155-162 | the digits the cookie ends with read back as the token's lifetime `exp - iat` |
| Worker.Authenticate | src/index.js:126-171 | a session is issued exactly when the code is accepted; it binds the caller's IP (or ""), starts now, lasts 600 seconds, and is signed with the session secret |
| Worker.IssuedSessionAccepted | src/index.js:143-162 | the cookie issued at `t` passes `requireSession`: it is refused as expired exactly after `t + 600`, as an IP mismatch exactly when the bound IP differs, and otherwise yields the issued payload |
| Worker.SessionRoute | src/index.js:183-186 | a valid session is forwarded, a refusal is answered 401 |
| Worker.Dispatch | src/index.js:113-217 | only `POST /auth` reaches the code exchange; the broker is reached only by `/ws` handshakes with a device token or session, or by REST paths with a session; the routing's own 401 (`Unauthorized`) is only for those two kinds of request, with a session refused; `/auth` answers 401 to an unlisted code (`Worker.Authenticate`) |
| Worker.WsRoute | src/index.js:178-190 | a `/ws` handshake is forwarded on a valid device token alone; otherwise the session check decides |
| Worker.RestRoute | src/index.js:195-206 | the REST paths are decided by the session check alone |
| Worker.PublicRoute | src/index.js:212-216 | every other request reaches the assets, or a 404, with no credential |
| Worker.RestForwardGets426 | src/broker.js:15-18 | a forwarded request without an upgrade is a REST request, and the broker answers it 426 |
| Worker.IssuedCookieOpensWebSocket | src/index.js:178-190 | a browser holding an unexpired `/auth` cookie opens `/ws` from the same IP |
| Broker.WithoutAt | src/broker.js:108 | in a registry without duplicates, closing the session at `i` keeps all the others in their order |
| Broker.WithoutIdempotent | src/broker.js:50-59 | closing a session twice (close and error events) is the same as closing it once |
| Broker.WithoutDistinct | src/broker.js:108 | closing keeps the registry free of duplicates |
| Broker.Without | src/broker.js:108 | filtering a session out keeps exactly the other sessions |
| Broker.RemoveAllMembers | src/broker.js:89-101 | after a fanout, a session remains exactly when it was registered and did not fail |
| Broker.SendsExactlyOnce | src/broker.js:89-101 | a publish writes one frame to each registered subscriber whose socket works, and no other frame |
| Broker.Sends | src/broker.js:89-101 | a publish writes no more frames than there are sessions, each carrying the text to a registered subscriber whose send works (one frame per such subscriber is `Broker.SendsExactlyOnce`) |
| Broker.UpgradeStatus | src/broker.js:15-18 | `fetch` answers 101 or 426, and 101 exactly when the `Upgrade` header spells "websocket" with each letter in either ASCII case |
| Broker.PrefixSteps | src/broker.js:89-100 | loop helper for `Fanout`: unfolds `Sends` and the failing set by one session at a prefix of the snapshot |
| Broker.Session.constructor | src/broker.js:38-41 | a new session has no subscriptions |
| Broker.PubSubBroker.constructor | src/broker.js:6-10 | the broker starts with no sessions and nothing sent |
| Broker.PubSubBroker.Fetch | src/broker.js:13-31 | a non-upgrade request gets 426 and changes nothing; an upgrade gets 101 and registers one fresh session |
| Broker.PubSubBroker.HandleSession | src/broker.js:34-42 | a fresh session with no subscriptions is appended to the registry |
| Broker.PubSubBroker.HandleClose | src/broker.js:106-109 | the registry becomes exactly the old one without that session, and stays free of duplicates |
| Broker.PubSubBroker.Send | src/broker.js:92-99 | a send either writes the frame or throws and writes nothing |
| Broker.PubSubBroker.HandleMessage | src/broker.js:63-103 | malformed or unknown messages change nothing; subscribe adds one topic to one session; publish fans out; no other session's subscriptions change |
| Broker.PubSubBroker.Visit | src/broker.js:89-100 | one fanout step sends to a subscriber and closes it when its send fails |
| Broker.PubSubBroker.Fanout | src/broker.js:81-101 | the frames sent are exactly those of `Sends` over the registry at the start, and the registry loses exactly the subscribers whose send failed |

## Left out

- JSON, base64, HMAC-SHA-256 and URI encoding are not computed. They are the function-valued
  fields of `SessionTokens.Primitives`, passed in as a parameter. The proofs use only the laws
  in `SessionTokens.Lawful`:
  - `atob` inverts `btoa`, and `btoa` emits only the base64 alphabet;
  - HMAC verification accepts its own signatures;
  - `JSON.parse` inverts `JSON.stringify` on payloads;
  - `decodeURIComponent` inverts `encodeURIComponent`, whose output holds only unreserved
    characters and `%`.
- SessionTokens.VerifySessionToken: HMAC verification is its own primitive, not a
  re-computation and comparison. The key import (`importSessionKey`), `TextEncoder` and the
  byte/character conversions are folded into the primitives.
- The clock (`Date.now`) and `crypto.randomUUID` are parameters (`now`, `sid`).
- `WebSocketPair`, `accept` and the registering of event handlers are not modelled. The
  events are calls of `HandleMessage` and `HandleClose`.
- Whether `webSocket.send` throws is a property of the socket, fixed when the session is
  accepted (`Session.sendFails`).
- The frames written are recorded in `PubSubBroker.sent` instead of being sent.
- `Response` objects, headers and bodies are not modelled. `Worker.Dispatch` returns the
  branch taken. `Worker.Authenticate` returns the issued payload and token, and the
  `Set-Cookie` value is `Worker.SetCookie` of that token.
- The Durable Object stub (`idFromName("main")`) is not modelled: the Worker's `ToBroker`
  stands for `stub.fetch(request)`.
- The static assets binding is not modelled beyond whether it exists.
- The broker's unused `topics` map and `state` field are not modelled.
- `console.log` and `console.error` are left out.
- Messages and payloads are modelled with string topics and string fields:
  - a non-string `topic`, `ip` or `sid` in JSON is not modelled;
  - a numeric `exp` is an integer, and a non-numeric one is not modelled;
  - the broker's `Message` is the JSON already decoded.
- A truthy non-string `body.code` makes `.trim()` throw. This case, and a request body that
  is not a JSON object, are not modelled: `code` is a string or absent.
- `btoa` throwing on characters above U+00FF is not modelled: `toJson` and `hmacSign` are
  assumed to give `btoa`-safe text.
- Text.IsWebSocketUpgrade, Broker.UpgradeStatus and Worker.Dispatch: `toLowerCase` (at
  `src/index.js:117` and `src/broker.js:16`) is modelled on the ASCII letters only. The
  comparison with "websocket" differs only for the few non-ASCII characters that lower-case to
  ASCII letters: JavaScript maps U+212A KELVIN SIGN to `k`, so "WEBSOC\u212AET" is an upgrade
  there and is not one in the model.
- Cookies.ParseCookie, Cookies.RawCookieComplete, Cookies.RawCookieLeftmost and Cookies.RawCookieNoneIff: these
  are proved for cookie names made of letters, digits and `_` (the name used is `SESSION`).
  A name holding regular-expression syntax is not modelled.
- The HTTP method is compared as the string given; method normalisation by the runtime is
  not modelled.
- Concurrency is left out: JavaScript runs one handler at a time, so each handler is one
  sequential method.
- `public/sms-console.js` (the browser front-end) and `generate-token.js` (a command-line
  credential generator) are outside the core and not part of this model.
