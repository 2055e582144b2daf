/**
 * `parseCookie(request, name)`: the value of a named cookie, found in the `Cookie` header with
 * the regular expression `(?:^|;\s*)name=([^;]+)` and then URI-decoded. The JavaScript `match`
 * without the global flag reports the leftmost match; `\s` is the same white-space set that
 * `trim` strips.
 */
module Cookies {
  import opened Wrappers
  import opened Text

  predicate IsNameChar(c: char) {
    'a' <= c <= 'z' || 'A' <= c <= 'Z' || '0' <= c <= '9' || c == '_'
  }

  /**
   * A cookie name made of letters, digits and `_`, such as `SESSION`: spliced into the pattern,
   * it matches itself literally.
   */
  predicate IsPlainName(name: string) {
    name != "" && forall i :: 0 <= i < |name| ==> IsNameChar(name[i])
  }

  /** `\s*`: the first position at or after `i` that does not hold white space. */
  function SkipSpaces(h: string, i: nat): (j: nat)
    requires i <= |h|
    ensures i <= j <= |h|
    ensures forall k :: i <= k < j ==> IsJsSpace(h[k])
    ensures j < |h| ==> !IsJsSpace(h[j])
    decreases |h| - i
  {
    if i < |h| && IsJsSpace(h[i]) then SkipSpaces(h, i + 1) else i
  }

  /** `[^;]+`, greedy: the end of the run of characters other than `;` that starts at `i`. */
  function ValueEnd(h: string, i: nat): (j: nat)
    requires i <= |h|
    ensures i <= j <= |h|
    ensures forall k :: i <= k < j ==> h[k] != ';'
    ensures j < |h| ==> h[j] == ';'
    decreases |h| - i
  {
    if i < |h| && h[i] != ';' then ValueEnd(h, i + 1) else i
  }

  /** `name=` starts at `q` and is followed by the non-empty value `v`, which runs up to the next `;` or the end. */
  ghost predicate NameValueAt(h: string, name: string, q: int, v: string) {
    0 <= q && q + |name| + 1 + |v| <= |h|
    && h[q..q + |name| + 1] == name + "="
    && h[q + |name| + 1..q + |name| + 1 + |v|] == v
    && v != "" && ';' !in v
    && (q + |name| + 1 + |v| == |h| || h[q + |name| + 1 + |v|] == ';')
  }

  /** Position `q` opens a pair: it is the start of the header, or a `;` and white space come just before it. */
  ghost predicate AfterSeparator(h: string, q: int) {
    0 <= q <= |h|
    && (q == 0 || exists p :: 0 <= p < q && h[p] == ';' && forall k :: p < k < q ==> IsJsSpace(h[k]))
  }

  /** The header holds the pair `name=v` at position `q`. */
  ghost predicate IsCookieAt(h: string, name: string, q: int, v: string) {
    AfterSeparator(h, q) && NameValueAt(h, name, q, v)
  }

  /** `name=([^;]+)` tried at position `q`: the captured value, or `None` when it does not match there. */
  function PairAt(h: string, name: string, q: nat): (r: Option<string>)
    requires q <= |h|
    ensures r.Some? ==> NameValueAt(h, name, q, r.value)
    ensures forall v :: NameValueAt(h, name, q, v) ==> r == Some(v)
  {
    var start := q + |name| + 1;
    if start <= |h| && h[q..start] == name + "=" then
      var end := ValueEnd(h, start);
      if start < end then Some(h[start..end]) else None
    else None
  }

  /** The position where the attempt at `p` looks for `name=`. */
  function MatchPos(h: string, name: string, p: nat): nat
    requires p <= |h|
  {
    if p == 0 && PairAt(h, name, 0).Some? then 0
    else if p < |h| then SkipSpaces(h, p + 1)
    else p
  }

  /** One attempt of the whole pattern at position `p`: the `^` alternative first, then `;\s*`. */
  function MatchAt(h: string, name: string, p: nat): Option<string>
    requires p <= |h|
  {
    if p == 0 && PairAt(h, name, 0).Some? then PairAt(h, name, 0)
    else if p < |h| && h[p] == ';' then PairAt(h, name, SkipSpaces(h, p + 1))
    else None
  }

  /** The leftmost match at or after position `p`. */
  function FirstMatch(h: string, name: string, p: nat): Option<string>
    requires p <= |h|
    decreases |h| - p
  {
    var m := MatchAt(h, name, p);
    if m.Some? || p == |h| then m else FirstMatch(h, name, p + 1)
  }

  /** `cookie.match(pattern)`: the captured group `m[1]`, or `None` when there is no match. */
  function RawCookie(h: string, name: string): (r: Option<string>)
    ensures r.Some? ==> exists q :: IsCookieAt(h, name, q, r.value)
  {
    var m := FirstMatch(h, name, 0);
    if m.Some? then FirstMatchSound(h, name, 0); m else m
  }

  /**
   * `parseCookie`: `Some("")` when the header (absent counts as "") holds no pair for `name`,
   * otherwise the decoded value; `None` when `decodeURIComponent` throws.
   */
  function ParseCookie(decodeUri: string -> Option<string>, header: Option<string>, name: string): (r: Option<string>)
    ensures (forall q, v :: !IsCookieAt(header.GetOr(""), name, q, v)) ==> r == Some("")
    ensures r.None? ==> exists q, v :: IsCookieAt(header.GetOr(""), name, q, v) && decodeUri(v).None?
    ensures r.Some? && r.value != "" ==>
              exists q, v :: IsCookieAt(header.GetOr(""), name, q, v) && decodeUri(v) == r
    ensures IsPlainName(name) ==>
              forall q, v :: IsCookieAt(header.GetOr(""), name, q, v)
                             && (forall q', v' :: IsCookieAt(header.GetOr(""), name, q', v') ==> q <= q')
                             ==> r == decodeUri(v)
  {
    var h := header.GetOr("");
    assert IsPlainName(name) ==>
             forall q, v :: IsCookieAt(h, name, q, v)
                            && (forall q', v' :: IsCookieAt(h, name, q', v') ==> q <= q')
                            ==> RawCookie(h, name) == Some(v) by {
      if IsPlainName(name) {
        forall q: nat, v | IsCookieAt(h, name, q, v) && (forall q', v' :: IsCookieAt(h, name, q', v') ==> q <= q')
          ensures RawCookie(h, name) == Some(v)
        {
          RawCookieLeftmost(h, name, q, v);
        }
      }
    }
    match RawCookie(header.GetOr(""), name)
    case None => Some("")
    case Some(v) => decodeUri(v)
  }

  /** A successful attempt at `p` reads a real pair, found at `MatchPos`. */
  lemma MatchAtSound(h: string, name: string, p: nat)
    requires p <= |h| && MatchAt(h, name, p).Some?
    ensures IsCookieAt(h, name, MatchPos(h, name, p), MatchAt(h, name, p).value)
    ensures p == 0 || MatchPos(h, name, p) > p
  {
    if !(p == 0 && PairAt(h, name, 0).Some?) {
      var q := SkipSpaces(h, p + 1);
      assert h[p] == ';';
      assert forall k :: p < k < q ==> IsJsSpace(h[k]);
    }
  }

  /** Whatever the search finds from `p` on is a real pair of the header. */
  lemma {:induction false} FirstMatchSound(h: string, name: string, p: nat)
    requires p <= |h| && FirstMatch(h, name, p).Some?
    ensures exists q :: IsCookieAt(h, name, q, FirstMatch(h, name, p).value)
    decreases |h| - p
  {
    if MatchAt(h, name, p).Some? {
      MatchAtSound(h, name, p);
    } else {
      FirstMatchSound(h, name, p + 1);
    }
  }

  /** Attempts that all fail between `p0` and `p` do not change the outcome. */
  lemma {:induction false} FirstMatchSkips(h: string, name: string, p0: nat, p: nat)
    requires p0 <= p <= |h|
    requires forall r :: p0 <= r < p ==> MatchAt(h, name, r).None?
    ensures FirstMatch(h, name, p0) == FirstMatch(h, name, p)
    decreases p - p0
  {
    if p0 < p {
      assert MatchAt(h, name, p0).None? && p0 < |h|;
      assert FirstMatch(h, name, p0) == FirstMatch(h, name, p0 + 1);
      FirstMatchSkips(h, name, p0 + 1, p);
    }
  }

  /** A pair is found by the attempt at the `;` before it (or at 0 when it opens the header). */
  lemma MatchAtCookie(h: string, name: string, q: nat, v: string) returns (p: nat)
    requires IsPlainName(name) && IsCookieAt(h, name, q, v)
    ensures p <= q && MatchAt(h, name, p) == Some(v)
    ensures q > 0 ==> p < q && h[p] == ';'
  {
    assert h[q..q + |name| + 1][0] == name[0];
    assert IsNameChar(h[q]);
    if q == 0 {
      p := 0;
    } else {
      p :| 0 <= p < q && h[p] == ';' && forall k :: p < k < q ==> IsJsSpace(h[k]);
      assert SkipSpaces(h, p + 1) == q;
      if p == 0 {
        assert !IsNameChar(h[0]);
        assert |name| + 1 <= |h| ==> h[0..|name| + 1][0] == h[0];
      }
    }
  }

  /** Completeness: when the header holds a pair for `name`, the pattern matches. */
  lemma RawCookieComplete(h: string, name: string, q: nat, v: string)
    requires IsPlainName(name) && IsCookieAt(h, name, q, v)
    ensures RawCookie(h, name).Some?
  {
    var p := MatchAtCookie(h, name, q, v);
    FirstMatchReaches(h, name, 0, p);
  }

  /** A successful attempt at `p` means the search from any earlier position succeeds. */
  lemma {:induction false} FirstMatchReaches(h: string, name: string, p0: nat, p: nat)
    requires p0 <= p <= |h| && MatchAt(h, name, p).Some?
    ensures FirstMatch(h, name, p0).Some?
    decreases p - p0
  {
    if p0 < p && MatchAt(h, name, p0).None? {
      FirstMatchReaches(h, name, p0 + 1, p);
    }
  }

  /** The value reported is that of the leftmost pair for `name`. */
  lemma RawCookieLeftmost(h: string, name: string, q: nat, v: string)
    requires IsPlainName(name) && IsCookieAt(h, name, q, v)
    requires forall q', v' :: IsCookieAt(h, name, q', v') ==> q <= q'
    ensures RawCookie(h, name) == Some(v)
  {
    var p := MatchAtCookie(h, name, q, v);
    forall r | 0 <= r < p
      ensures MatchAt(h, name, r).None?
    {
      if MatchAt(h, name, r).Some? {
        MatchAtSound(h, name, r);
        assert false;
      }
    }
    FirstMatchSkips(h, name, 0, p);
  }

  /** A header holding one pair yields its value. */
  lemma SingleCookie(name: string, v: string)
    requires IsPlainName(name) && v != "" && ';' !in v
    ensures RawCookie(name + "=" + v, name) == Some(v)
  {
    var h := name + "=" + v;
    assert h[0..|name| + 1] == name + "=";
    assert h[|name| + 1..|name| + 1 + |v|] == v;
    assert IsCookieAt(h, name, 0, v);
    RawCookieLeftmost(h, name, 0, v);
  }

  /** No match exactly when the header holds no pair for `name`. */
  lemma RawCookieNoneIff(h: string, name: string)
    requires IsPlainName(name)
    ensures RawCookie(h, name).None? <==> forall q, v :: !IsCookieAt(h, name, q, v)
  {
    if RawCookie(h, name).Some? {
      FirstMatchSound(h, name, 0);
    } else {
      forall q, v | IsCookieAt(h, name, q, v) ensures false {
        RawCookieComplete(h, name, q, v);
      }
    }
  }
}
