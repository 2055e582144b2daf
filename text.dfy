/**
 * The string primitives of the JavaScript runtime that the gatekeeping code relies on:
 * `trim`, `split` on a one-character separator, `join`, and the ASCII part of `toLowerCase`.
 */
module Text {
  import opened Wrappers

  /** JavaScript's WhiteSpace and LineTerminator characters: what `trim` strips and `\s` matches. */
  predicate IsJsSpace(c: char) {
    c == '\t' || c == '\n' || c == '\U{0B}' || c == '\U{0C}' || c == '\r' || c == ' '
    || c == '\U{A0}' || c == '\U{1680}' || ('\U{2000}' <= c <= '\U{200A}')
    || c == '\U{2028}' || c == '\U{2029}' || c == '\U{202F}' || c == '\U{205F}'
    || c == '\U{3000}' || c == '\U{FEFF}'
  }

  /** `s` with its leading white space removed. */
  function TrimStart(s: string): (r: string)
    ensures |r| <= |s| && r == s[|s| - |r|..]
    ensures forall k :: 0 <= k < |s| - |r| ==> IsJsSpace(s[k])
    ensures r != "" ==> !IsJsSpace(r[0])
  {
    if s != "" && IsJsSpace(s[0]) then TrimStart(s[1..]) else s
  }

  /** `s` with its trailing white space removed. */
  function TrimEnd(s: string): (r: string)
    ensures |r| <= |s| && r == s[..|r|]
    ensures forall k :: |r| <= k < |s| ==> IsJsSpace(s[k])
    ensures r != "" ==> !IsJsSpace(r[|r| - 1])
  {
    if s != "" && IsJsSpace(s[|s| - 1]) then TrimEnd(s[..|s| - 1]) else s
  }

  /** `r` sits in `s` at offset `i`, with only white space before and after it. */
  ghost predicate IsTrimmedSliceAt(s: string, r: string, i: int) {
    0 <= i <= i + |r| <= |s| && r == s[i..i + |r|]
    && (forall k :: 0 <= k < i ==> IsJsSpace(s[k]))
    && (forall k :: i + |r| <= k < |s| ==> IsJsSpace(s[k]))
  }

  /** `String.prototype.trim`: the slice of `s` left after stripping white space at both ends. */
  function Trim(s: string): (r: string)
    ensures r != "" ==> !IsJsSpace(r[0]) && !IsJsSpace(r[|r| - 1])
    ensures exists i :: IsTrimmedSliceAt(s, r, i)
  {
    var t := TrimStart(s);
    var r := TrimEnd(t);
    assert IsTrimmedSliceAt(s, r, |s| - |t|);
    r
  }

  /** A string trims to nothing exactly when it is all white space. */
  lemma TrimEmptyIffBlank(s: string)
    ensures Trim(s) == "" <==> forall k :: 0 <= k < |s| ==> IsJsSpace(s[k])
  {
    var t := TrimStart(s);
    assert t != "" ==> t[0] == s[|s| - |t|];
    var i :| IsTrimmedSliceAt(s, Trim(s), i);
  }

  /** The parts joined back together, with `sep` between neighbours (`Array.prototype.join`). */
  function Join(parts: seq<string>, sep: string): string
  {
    if |parts| == 0 then ""
    else if |parts| == 1 then parts[0]
    else parts[0] + sep + Join(parts[1..], sep)
  }

  /** Joining one more part appends the separator and that part. */
  lemma {:induction false} JoinSnoc(parts: seq<string>, x: string, sep: string)
    requires parts != []
    ensures Join(parts + [x], sep) == Join(parts, sep) + sep + x
  {
    if |parts| > 1 {
      assert (parts + [x])[1..] == parts[1..] + [x];
      JoinSnoc(parts[1..], x, sep);
    } else {
      assert (parts + [x])[1..] == [x];
    }
  }

  /** `s.split(sep)` for a one-character separator: the maximal runs between separators, always at least one. */
  function Split(s: string, sep: char): (parts: seq<string>)
    ensures |parts| >= 1
    ensures forall i :: 0 <= i < |parts| ==> sep !in parts[i]
    decreases |s|
  {
    if s == [] then [[]]
    else
      var rest := Split(s[1..], sep);
      if s[0] == sep then [[]] + rest
      else [[s[0]] + rest[0]] + rest[1..]
  }

  /** Joining the parts of a split with the same separator gives the string back. */
  lemma {:induction false} JoinSplit(s: string, sep: char)
    ensures Join(Split(s, sep), [sep]) == s
    decreases |s|
  {
    if s != [] {
      var rest := Split(s[1..], sep);
      JoinSplit(s[1..], sep);
      if s[0] != sep {
        if |rest| > 1 {
          assert Join(rest, [sep]) == rest[0] + [sep] + Join(rest[1..], [sep]);
          assert ([[s[0]] + rest[0]] + rest[1..])[1..] == rest[1..];
        }
      }
    }
  }

  /** Splitting separator-free parts after joining them gives the parts back: `split` inverts `join`. */
  lemma {:induction false} SplitJoin(parts: seq<string>, sep: char)
    requires |parts| >= 1
    requires forall i :: 0 <= i < |parts| ==> sep !in parts[i]
    ensures Split(Join(parts, [sep]), sep) == parts
    decreases |Join(parts, [sep])|
  {
    var p := parts[0];
    if |parts| == 1 {
      SplitPlain(p, sep);
    } else {
      var tail := Join(parts[1..], [sep]);
      SplitJoin(parts[1..], sep);
      assert Join(parts, [sep]) == p + ([sep] + tail);
      SplitPrefix(p, [sep] + tail, sep);
      assert ([sep] + tail)[1..] == tail;
      assert [p] + parts[1..] == parts;
    }
  }

  /** A separator-free string splits into itself alone. */
  lemma {:induction false} SplitPlain(p: string, sep: char)
    requires sep !in p
    ensures Split(p, sep) == [p]
    decreases |p|
  {
    if p != [] {
      SplitPlain(p[1..], sep);
      assert [p[0]] + p[1..] == p;
    }
  }

  /** A separator-free prefix becomes the first part of the split of the rest. */
  lemma {:induction false} SplitPrefix(p: string, rest: string, sep: char)
    requires sep !in p
    requires rest != [] && rest[0] == sep
    ensures Split(p + rest, sep) == [p] + Split(rest[1..], sep)
    decreases |p|
  {
    if p != [] {
      assert (p + rest)[1..] == p[1..] + rest;
      SplitPrefix(p[1..], rest, sep);
      assert [p[0]] + p[1..] == p;
    } else {
      assert p + rest == rest;
    }
  }

  /**
   * The first two parts of a split: a string without the separator is its own only part; otherwise
   * the first part, the separator and the second part open the string, and the second part runs
   * up to the next separator or the end.
   */
  lemma SplitHead(s: string, sep: char)
    ensures sep !in s ==> Split(s, sep) == [s]
    ensures sep in s ==>
              var parts := Split(s, sep);
              |parts| >= 2 && parts[0] + [sep] + parts[1] <= s
              && (|parts[0]| + 1 + |parts[1]| == |s| || s[|parts[0]| + 1 + |parts[1]|] == sep)
  {
    var parts := Split(s, sep);
    if sep !in s {
      SplitPlain(s, sep);
    } else {
      JoinSplit(s, sep);
      if |parts| == 1 {
        assert false;
      }
      var tail := Join(parts[1..], [sep]);
      assert s == parts[0] + [sep] + tail;
      if |parts| > 2 {
        assert tail == parts[1] + [sep] + Join(parts[2..], [sep]) by {
          assert parts[1..][1..] == parts[2..];
        }
        assert s == (parts[0] + [sep] + parts[1]) + ([sep] + Join(parts[2..], [sep]));
      } else {
        assert tail == parts[1];
      }
    }
  }

  /** `parts.map(s => s.trim()).filter(Boolean)`: the trimmed parts, with the empty ones dropped. */
  function TrimmedNonEmpty(parts: seq<string>): seq<string> {
    if parts == [] then []
    else
      var t := Trim(parts[0]);
      (if t == "" then [] else [t]) + TrimmedNonEmpty(parts[1..])
  }

  /** An item survives exactly when it is the non-empty trim of some part. */
  lemma {:induction false} TrimmedNonEmptyMembers(parts: seq<string>, x: string)
    ensures x in TrimmedNonEmpty(parts) <==> x != "" && exists p :: p in parts && Trim(p) == x
  {
    if parts != [] {
      TrimmedNonEmptyMembers(parts[1..], x);
      assert parts == [parts[0]] + parts[1..];
      if exists p :: p in parts && Trim(p) == x {
        var p :| p in parts && Trim(p) == x;
        assert p == parts[0] || p in parts[1..];
      }
    }
  }

  /** `(value || "").split(",").map(s => s.trim()).filter(Boolean)`: a comma-separated setting as a list. */
  function CommaList(value: Option<string>): (items: seq<string>)
    ensures forall x :: x in items <==> x != "" && exists e :: e in Split(value.GetOr(""), ',') && Trim(e) == x
  {
    var parts := Split(value.GetOr(""), ',');
    assert forall x :: x in TrimmedNonEmpty(parts) <==> x != "" && exists e :: e in parts && Trim(e) == x by {
      forall x
        ensures x in TrimmedNonEmpty(parts) <==> x != "" && exists e :: e in parts && Trim(e) == x
      {
        TrimmedNonEmptyMembers(parts, x);
      }
    }
    TrimmedNonEmpty(parts)
  }

  /** `s.startsWith(prefix)` */
  predicate StartsWith(s: string, prefix: string) {
    prefix <= s
  }

  /** `toLowerCase` on the ASCII letters; every other character is left alone. */
  function LowerAscii(c: char): char {
    if 'A' <= c <= 'Z' then (c as int + 32) as char else c
  }

  function ToLowerAscii(s: string): string {
    seq(|s|, i requires 0 <= i < |s| => LowerAscii(s[i]))
  }

  /**
   * `upgrade && upgrade.toLowerCase() === "websocket"` for an optional `Upgrade` header: the header
   * spells "websocket" with each letter in either case.
   */
  function IsWebSocketUpgrade(upgrade: Option<string>): (upgraded: bool)
    ensures upgraded <==> upgrade.Some? && |upgrade.value| == |"websocket"|
                          && forall i :: 0 <= i < |"websocket"| ==>
                               upgrade.value[i] == "websocket"[i] || upgrade.value[i] == "WEBSOCKET"[i]
  {
    upgrade.Some? && upgrade.value != "" && ToLowerAscii(upgrade.value) == "websocket"
  }
}
