/**
 * Device authentication for websocket connections (`verifyDeviceToken`): the query parameters
 * `device` and `dtoken` are checked against the `DEVICE_TOKENS` setting, a comma-separated list
 * of `id:token` entries such as "dev001:aaa,dev002:bbb".
 */
module DeviceTokens {
  import opened Wrappers
  import opened Text

  /** One `id:token` entry of the setting; a missing half is the empty string. */
  datatype Entry = Entry(id: string, token: string)

  /** `const [id, t] = pair.split(":")`: the text before the first colon and the text between the first and the second. */
  function ParseEntry(pair: string): (e: Entry)
    ensures ':' !in e.id && ':' !in e.token
  {
    var parts := Split(pair, ':');
    Entry(parts[0], if |parts| >= 2 then parts[1] else "")
  }

  /**
   * An entry without a colon is an id with an empty token; otherwise the id, a colon and the token
   * open the entry, and the token runs up to the second colon or the end, so "a:b:c" is id "a"
   * with token "b".
   */
  lemma ParseEntryFields(pair: string)
    ensures ':' !in pair ==> ParseEntry(pair) == Entry(pair, "")
    ensures ':' in pair ==>
              var e := ParseEntry(pair);
              e.id + ":" + e.token <= pair
              && (|e.id| + 1 + |e.token| == |pair| || pair[|e.id| + 1 + |e.token|] == ':')
  {
    SplitHead(pair, ':');
  }

  /** An entry written as `id:token` reads back as that id and token. */
  lemma ParseEntryOf(id: string, token: string)
    requires ':' !in id && ':' !in token
    ensures ParseEntry(id + ":" + token) == Entry(id, token)
  {
    assert Join([id, token], [':']) == id + ":" + token by {
      assert [id, token][1..] == [token];
    }
    SplitJoin([id, token], ':');
  }

  /** `if (id && t)`: only entries with both halves non-empty are stored. */
  predicate Usable(e: Entry) {
    e.id != "" && e.token != ""
  }

  /**
   * The table `map` after the `forEach` over `pairs`: each usable entry overrides earlier ones for
   * its id. Ids and stored tokens are never empty, so the truthiness test `map[devId]` only asks
   * whether the id is present.
   */
  function TokenTable(pairs: seq<string>): (table: map<string, string>)
    ensures forall id :: id in table ==> id != "" && table[id] != ""
  {
    if pairs == [] then map[]
    else
      var m := TokenTable(pairs[..|pairs| - 1]);
      var e := ParseEntry(pairs[|pairs| - 1]);
      if Usable(e) then m[e.id := e.token] else m
  }

  /** One more entry: the table of the longer prefix is the shorter one's, updated by that entry if it is usable. */
  lemma TokenTableExtend(pairs: seq<string>, i: nat)
    requires i < |pairs|
    ensures var e := ParseEntry(pairs[i]);
            TokenTable(pairs[..i + 1]) == if Usable(e) then TokenTable(pairs[..i])[e.id := e.token] else TokenTable(pairs[..i])
  {
    assert pairs[..i + 1][..i] == pairs[..i];
  }

  /** Entry `k` is a usable entry for `id` with `token`, and no later usable entry names `id`. */
  ghost predicate IsCurrentEntry(pairs: seq<string>, k: int, id: string, token: string) {
    0 <= k < |pairs| && Usable(ParseEntry(pairs[k])) && ParseEntry(pairs[k]) == Entry(id, token)
    && forall j :: k < j < |pairs| ==> !(Usable(ParseEntry(pairs[j])) && ParseEntry(pairs[j]).id == id)
  }

  /** The table maps `id` to `token` exactly when the last usable entry for `id` carries `token`. */
  lemma {:induction false} TokenTableLookup(pairs: seq<string>, id: string, token: string)
    ensures (id in TokenTable(pairs) && TokenTable(pairs)[id] == token)
            <==> exists k :: IsCurrentEntry(pairs, k, id, token)
  {
    if pairs != [] {
      var n := |pairs| - 1;
      var init := pairs[..n];
      var e := ParseEntry(pairs[n]);
      TokenTableLookup(init, id, token);
      if Usable(e) && e.id == id {
        if exists k :: IsCurrentEntry(pairs, k, id, token) {
          var k :| IsCurrentEntry(pairs, k, id, token);
          assert k == n;
        }
        if e.token == token {
          assert IsCurrentEntry(pairs, n, id, token);
        }
      } else {
        if exists k :: IsCurrentEntry(pairs, k, id, token) {
          var k :| IsCurrentEntry(pairs, k, id, token);
          assert k < n;
          assert IsCurrentEntry(init, k, id, token);
        }
        if exists k :: IsCurrentEntry(init, k, id, token) {
          var k :| IsCurrentEntry(init, k, id, token);
          assert IsCurrentEntry(pairs, k, id, token);
        }
      }
    }
  }

  /** An entry appended for an id replaces whatever earlier entries said about that id. */
  lemma LaterEntryOverrides(pairs: seq<string>, id: string, token: string)
    requires id != "" && token != "" && ':' !in id && ':' !in token
    ensures TokenTable(pairs + [id + ":" + token]) == TokenTable(pairs)[id := token]
  {
    ParseEntryOf(id, token);
    assert (pairs + [id + ":" + token])[..|pairs|] == pairs;
  }

  /**
   * Whether `verifyDeviceToken` accepts: both parameters non-empty and the table maps `device` to
   * `dtoken`, that is, the last usable entry of the setting for `device` carries `dtoken`.
   */
  function DeviceTokenOk(device: Option<string>, dtoken: Option<string>, tokens: Option<string>): (ok: bool)
    ensures ok <==> device.Some? && device.value != "" && dtoken.Some? && dtoken.value != ""
                    && exists k :: IsCurrentEntry(CommaList(tokens), k, device.value, dtoken.value)
  {
    if device.Some? && dtoken.Some? then
      TokenTableLookup(CommaList(tokens), device.value, dtoken.value);
      device.value != "" && dtoken.value != ""
      && var table := TokenTable(CommaList(tokens));
         device.value in table && table[device.value] == dtoken.value
    else false
  }

  /** The `forEach` loop of `verifyDeviceToken` that fills the table from the entries. */
  method BuildTable(pairs: seq<string>) returns (table: map<string, string>)
    ensures table == TokenTable(pairs)
  {
    table := map[];
    var i := 0;
    while i < |pairs|
      invariant 0 <= i <= |pairs|
      invariant table == TokenTable(pairs[..i])
    {
      TokenTableExtend(pairs, i);
      var e := ParseEntry(pairs[i]);
      if e.id != "" && e.token != "" {
        table := table[e.id := e.token];
      }
      i := i + 1;
    }
    assert pairs[..i] == pairs;
  }

  datatype DeviceAuth = DeviceOk(deviceId: string) | DeviceRejected

  /**
   * `verifyDeviceToken`: `device` and `dtoken` are the query parameters (`None` when absent),
   * `tokens` the `DEVICE_TOKENS` setting.
   */
  method VerifyDeviceToken(device: Option<string>, dtoken: Option<string>, tokens: Option<string>)
    returns (r: DeviceAuth)
    ensures r.DeviceOk? <==> DeviceTokenOk(device, dtoken, tokens)
    ensures r.DeviceOk? ==> device.Some? && r.deviceId == device.value && r.deviceId != ""
  {
    if device.None? || device.value == "" || dtoken.None? || dtoken.value == "" {
      return DeviceRejected;
    }
    var devId, tok := device.value, dtoken.value;
    var pairs := CommaList(tokens);
    var table := BuildTable(pairs);
    if devId in table && table[devId] != "" && table[devId] == tok {
      return DeviceOk(devId);
    }
    return DeviceRejected;
  }
}
