/** The JavaScript string primitives the services rely on: `split` on a
    one-character separator, `join`, whitespace trimming, `endsWith`, and the
    `||` fallback on possibly-absent strings. */
module JsText {
  import opened Wrappers

  /** The code points ECMAScript trims as white space: WhiteSpace (TAB, VT, FF,
      ZWNBSP and the Zs space separators) and LineTerminator (LF, CR, LS, PS). */
  predicate IsWhiteSpace(c: char) {
    var n := c as int;
    n == 0x09 || n == 0x0A || n == 0x0B || n == 0x0C || n == 0x0D
    || n == 0x20 || n == 0xA0 || n == 0x1680 || (0x2000 <= n <= 0x200A)
    || n == 0x2028 || n == 0x2029 || n == 0x202F || n == 0x205F
    || n == 0x3000 || n == 0xFEFF
  }

  /** `s.trimStart()`: drops the leading white space and nothing else. */
  function TrimStart(s: string): (r: string)
    ensures |r| <= |s|
    ensures r == [] || !IsWhiteSpace(r[0])
  {
    if s != [] && IsWhiteSpace(s[0]) then TrimStart(s[1..]) else s
  }

  /** What `trimStart` keeps is a suffix of its input. */
  lemma {:induction false} TrimStartIsSuffix(s: string)
    ensures TrimStart(s) == s[|s| - |TrimStart(s)|..]
    decreases |s|
  {
    if s != [] && IsWhiteSpace(s[0]) {
      TrimStartIsSuffix(s[1..]);
    }
  }

  /** `s.trimEnd()`: drops the trailing white space and nothing else. */
  function TrimEnd(s: string): (r: string)
    ensures |r| <= |s| && r == s[..|r|]
    ensures r == [] || !IsWhiteSpace(r[|r| - 1])
  {
    if s != [] && IsWhiteSpace(s[|s| - 1]) then TrimEnd(s[..|s| - 1]) else s
  }

  /** `s.trim()`. */
  function Trim(s: string): string {
    TrimEnd(TrimStart(s))
  }

  /** `parts.join(d)`: the parts with one separator between neighbours. */
  function Join(parts: seq<string>, d: char): string
    decreases |parts|
  {
    if |parts| == 0 then ""
    else if |parts| == 1 then parts[0]
    else parts[0] + [d] + Join(parts[1..], d)
  }

  /** `s.split(d)` for a one-character separator: the maximal separator-free
      pieces, including empty ones; the empty string splits into `[""]`. */
  function Split(s: string, d: char): (parts: seq<string>)
    ensures |parts| >= 1
    ensures forall i :: 0 <= i < |parts| ==> d !in parts[i]
    ensures Join(parts, d) == s
    decreases |s|
  {
    if |s| == 0 then [""]
    else if s[0] == d then
      var rest := Split(s[1..], d);
      assert s == [d] + s[1..];
      [""] + rest
    else
      var rest := Split(s[1..], d);
      var parts := [[s[0]] + rest[0]] + rest[1..];
      assert s == [s[0]] + s[1..];
      assert |rest| > 1 ==> Join(rest, d) == rest[0] + [d] + Join(rest[1..], d);
      assert parts[1..] == rest[1..];
      parts
  }

  lemma {:induction false} SplitNoSeparator(a: string, d: char)
    requires d !in a
    ensures Split(a, d) == [a]
    decreases |a|
  {
    if |a| > 0 {
      SplitNoSeparator(a[1..], d);
      assert [a[0]] + a[1..] == a;
    }
  }

  lemma {:induction false} SplitFirstPiece(a: string, d: char, rest: string)
    requires d !in a
    ensures Split(a + [d] + rest, d) == [a] + Split(rest, d)
    decreases |a|
  {
    var s := a + [d] + rest;
    if |a| == 0 {
      assert s[1..] == rest;
    } else {
      assert s[1..] == a[1..] + [d] + rest;
      SplitFirstPiece(a[1..], d, rest);
      assert [a[0]] + a[1..] == a;
    }
  }

  /** Splitting undoes joining, as long as no part contains the separator. */
  lemma {:induction false} SplitJoin(parts: seq<string>, d: char)
    requires |parts| >= 1
    requires forall i :: 0 <= i < |parts| ==> d !in parts[i]
    ensures Split(Join(parts, d), d) == parts
    decreases |parts|
  {
    if |parts| == 1 {
      SplitNoSeparator(parts[0], d);
    } else {
      SplitJoin(parts[1..], d);
      SplitFirstPiece(parts[0], d, Join(parts[1..], d));
      assert [parts[0]] + parts[1..] == parts;
    }
  }

  /** Text appended after a last separator becomes the last piece. */
  lemma {:induction false} SplitAppend(s: string, d: char, last: string)
    requires d !in last
    ensures Split(s + [d] + last, d) == Split(s, d) + [last]
    decreases |s|
  {
    var t := s + [d] + last;
    if |s| == 0 {
      assert t[1..] == last;
      SplitNoSeparator(last, d);
    } else {
      assert t[1..] == s[1..] + [d] + last;
      SplitAppend(s[1..], d, last);
    }
  }

  /** `s.endsWith(suffix)`. */
  predicate EndsWith(s: string, suffix: string) {
    |suffix| <= |s| && s[|s| - |suffix|..] == suffix
  }

  /** `s.includes(sub)`: `sub` occurs in `s` at some offset. */
  predicate Contains(s: string, sub: string) {
    exists k :: 0 <= k <= |s| - |sub| && OccursAt(s, sub, k)
  }

  /** `sub` occurs in `s` starting at offset `k`. */
  predicate OccursAt(s: string, sub: string, k: int) {
    0 <= k <= |s| - |sub| && s[k..k + |sub|] == sub
  }

  /** JavaScript truthiness of a possibly-absent string: present and non-empty. */
  predicate Truthy(v: Option<string>) {
    v.Some? && v.value != ""
  }

  /** `v || fallback` on a possibly-absent string. */
  function Or(v: Option<string>, fallback: string): (r: string)
    ensures Truthy(v) ==> r == v.value
    ensures !Truthy(v) ==> r == fallback
  {
    if Truthy(v) then v.value else fallback
  }
}
