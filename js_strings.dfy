/**
  The JavaScript string primitives the gig pipeline relies on: `trim`, the
  white-space class `\s`, `indexOf`/`includes`, `split` by a literal separator,
  `join`, ASCII case mapping and the UTF-16 `length`.
  Strings are sequences of Unicode scalar values.
 */
module JsStrings {
  import opened Wrappers

  /** The characters JavaScript's `trim` removes and its regular-expression class `\s` matches
      (WhiteSpace and LineTerminator of ECMAScript). */
  const SpaceChars: set<char> := {
    ' ', '\t', '\n', '\r', '\U{000B}', '\U{000C}', '\U{00A0}', '\U{1680}',
    '\U{2000}', '\U{2001}', '\U{2002}', '\U{2003}', '\U{2004}', '\U{2005}',
    '\U{2006}', '\U{2007}', '\U{2008}', '\U{2009}', '\U{200A}',
    '\U{2028}', '\U{2029}', '\U{202F}', '\U{205F}', '\U{3000}', '\U{FEFF}'
  }

  predicate IsSpace(c: char) {
    c in SpaceChars
  }

  predicate AllSpace(s: string) {
    forall i :: 0 <= i < |s| ==> IsSpace(s[i])
  }

  predicate NoSpace(s: string) {
    forall i :: 0 <= i < |s| ==> !IsSpace(s[i])
  }

  /** Cutting a sequence at two points and gluing the three pieces back. */
  lemma Cut3<T>(t: seq<T>, i: int, j: int)
    requires 0 <= i <= j <= |t|
    ensures t == t[..i] + t[i..j] + t[j..]
  {
  }

  lemma SliceJoin<T>(s: seq<T>, i: int, j: int, k: int)
    requires 0 <= i <= j <= k <= |s|
    ensures s[i..k] == s[i..j] + s[j..k]
  {
  }

  lemma SliceOfSlice<T>(s: seq<T>, i: int, j: int, a: int, b: int)
    requires 0 <= i <= j <= |s| && 0 <= a <= b <= j - i
    ensures s[i..j][a..b] == s[i + a..i + b]
  {
    var l, r := s[i..j][a..b], s[i + a..i + b];
    forall k | 0 <= k < |l| ensures l[k] == r[k] {
      assert l[k] == s[i..j][a + k];
    }
  }

  lemma Regroup<T>(p: seq<T>, a: seq<T>, m: seq<T>, b: seq<T>, q: seq<T>)
    ensures p + (a + m + b) + q == (p + a) + m + (b + q)
  {
  }

  lemma Assoc<T>(a: seq<T>, b: seq<T>, c: seq<T>)
    ensures a + b + c == a + (b + c)
  {
  }

  lemma PrefixSuffix<T>(t: seq<T>, n: int)
    requires 0 <= n <= |t|
    ensures t == t[..n] + t[n..]
  {
  }

  lemma AllSpaceConcat(a: string, b: string)
    requires AllSpace(a) && AllSpace(b)
    ensures AllSpace(a + b)
  {
    forall i | 0 <= i < |a + b| ensures IsSpace((a + b)[i]) {
      if i < |a| { assert (a + b)[i] == a[i]; } else { assert (a + b)[i] == b[i - |a|]; }
    }
  }

  /** A string that `trim` leaves as it is. */
  predicate IsTrimmed(s: string) {
    s == [] || (!IsSpace(s[0]) && !IsSpace(s[|s| - 1]))
  }

  /** The index of the first character of `s` that is not white space, or `|s|`. */
  function TextStart(s: string, from: nat := 0): (i: nat)
    requires from <= |s|
    ensures from <= i <= |s|
    ensures forall j :: from <= j < i ==> IsSpace(s[j])
    ensures i < |s| ==> !IsSpace(s[i])
    decreases |s| - from
  {
    if from < |s| && IsSpace(s[from]) then TextStart(s, from + 1) else from
  }

  /** One past the last character of `s[..upto]` that is not white space, or 0. */
  function TextEnd(s: string, upto: nat): (e: nat)
    requires upto <= |s|
    ensures e <= upto
    ensures forall j :: e <= j < upto ==> IsSpace(s[j])
    ensures e > 0 ==> !IsSpace(s[e - 1])
  {
    if upto > 0 && IsSpace(s[upto - 1]) then TextEnd(s, upto - 1) else upto
  }

  /** `s` with its leading white space removed (the first half of `trim`). */
  function TrimStart(s: string): string {
    s[TextStart(s)..]
  }

  /** `s` with its trailing white space removed (the second half of `trim`). */
  function TrimEnd(s: string): string {
    s[..TextEnd(s, |s|)]
  }

  /** JavaScript's `String.prototype.trim`: the slice of `s` left once the white
      space at both ends is cut off. */
  function Trim(s: string): string {
    var i, e := TextStart(s), TextEnd(s, |s|);
    if i <= e then s[i..e] else []
  }

  /** `r` is the slice of `s` that starts at `i` and has only white space around it. */
  predicate TrimsTo(s: string, i: int, r: string) {
    && 0 <= i <= |s| - |r|
    && r == s[i..i + |r|]
    && AllSpace(s[..i])
    && AllSpace(s[i + |r|..])
  }

  /** What `trim` returns: a slice of `s` with only white space around it that
      neither starts nor ends with white space, and empty exactly when `s` is
      all white space. */
  lemma TrimAt(s: string) returns (i: nat)
    ensures TrimsTo(s, i, Trim(s)) && IsTrimmed(Trim(s))
    ensures Trim(s) == [] <==> AllSpace(s)
  {
    i := TextStart(s);
    var e := TextEnd(s, |s|);
    if i <= e {
      assert Trim(s) == s[i..e];
    } else {
      i := |s|;
    }
  }

  /** Trimming is determined by that characterisation: whatever white space
      surrounds a trimmed middle part, `trim` returns that part. */
  lemma TrimOf(pre: string, mid: string, post: string)
    requires AllSpace(pre) && AllSpace(post) && IsTrimmed(mid)
    ensures Trim(pre + mid + post) == mid
  {
    var s := pre + mid + post;
    var i, e := TextStart(s), TextEnd(s, |s|);
    if mid == [] {
      assert s == pre + post;
    } else {
      assert s[|pre|] == mid[0];
      assert s[|pre| + |mid| - 1] == mid[|mid| - 1];
      assert s[|pre|..|pre| + |mid|] == mid;
    }
  }

  /** A string with no white space at either end is its own trim. */
  lemma TrimmedIsFixed(s: string)
    requires IsTrimmed(s)
    ensures Trim(s) == s
  {
    assert s[0..|s|] == s;
  }

  /** Cutting white space off the front or back of a string leaves its trim as it was. */
  lemma TrimIgnoresSpace(pre: string, t: string, post: string)
    requires AllSpace(pre) && AllSpace(post)
    ensures Trim(pre + t + post) == Trim(t)
  {
    var m := Trim(t);
    var i := TrimAt(t);
    var a, b := t[..i], t[i + |m|..];
    Cut3(t, i, i + |m|);
    AllSpaceConcat(pre, a);
    AllSpaceConcat(b, post);
    Regroup(pre, a, m, b, post);
    TrimOf(pre + a, m, b + post);
  }

  /** The first index at or after `from` whose character satisfies `p`. */
  function IndexWhere(s: string, p: char -> bool, from: nat): (r: Option<nat>)
    requires from <= |s|
    ensures r.Some? ==> from <= r.value < |s| && p(s[r.value])
    ensures forall j :: from <= j < (if r.Some? then r.value else |s|) ==> !p(s[j])
    decreases |s| - from
  {
    if from == |s| then None
    else if p(s[from]) then Some(from)
    else IndexWhere(s, p, from + 1)
  }

  /** `pat` occurs in `s` at position `j`. */
  predicate OccursAt(s: string, pat: string, j: int) {
    0 <= j && j + |pat| <= |s| && s[j..j + |pat|] == pat
  }

  /** JavaScript's `s.indexOf(pat, from)`: the first position at or after `from`
      where `pat` occurs. */
  function IndexOf(s: string, pat: string, from: nat): (r: Option<nat>)
    ensures r.Some? ==> from <= r.value && OccursAt(s, pat, r.value)
    ensures forall j :: from <= j < (if r.Some? then r.value else |s| + 1) ==> !OccursAt(s, pat, j)
    decreases |s| - from
  {
    if from + |pat| > |s| then None
    else if s[from..from + |pat|] == pat then Some(from)
    else IndexOf(s, pat, from + 1)
  }

  /** JavaScript's `s.includes(pat)`. */
  predicate Includes(s: string, pat: string) {
    IndexOf(s, pat, 0).Some?
  }

  /** JavaScript's `s.split(sep)` for a non-empty literal separator: the pieces
      between successive non-overlapping occurrences of `sep`, left to right. */
  function Split(s: string, sep: string): (r: seq<string>)
    requires sep != []
    ensures |r| >= 1
    ensures |r| >= 2 <==> Includes(s, sep)
    decreases |s|
  {
    match IndexOf(s, sep, 0)
    case None => [s]
    case Some(i) => [s[..i]] + Split(s[i + |sep|..], sep)
  }

  /** JavaScript's `parts.join(sep)`. */
  function Join(parts: seq<string>, sep: string): string {
    if |parts| == 0 then ""
    else if |parts| == 1 then parts[0]
    else parts[0] + sep + Join(parts[1..], sep)
  }

  /** Splitting and joining with the same separator gives the string back. */
  lemma {:induction false} JoinSplit(s: string, sep: string)
    requires sep != []
    ensures Join(Split(s, sep), sep) == s
    decreases |s|
  {
    match IndexOf(s, sep, 0)
    case None =>
    case Some(i) =>
      var rest := s[i + |sep|..];
      JoinSplit(rest, sep);
      assert Split(s, sep) == [s[..i]] + Split(rest, sep);
      assert s == s[..i] + sep + rest;
  }

  /** Joining all pieces but the last, then the last after one more separator,
      is joining them all. */
  lemma {:induction false} JoinSnoc(parts: seq<string>, sep: string)
    requires |parts| >= 2
    ensures Join(parts, sep) == Join(parts[..|parts| - 1], sep) + sep + parts[|parts| - 1]
    decreases |parts|
  {
    if |parts| > 2 {
      JoinSnoc(parts[1..], sep);
      assert parts[1..][..|parts[1..]| - 1] == parts[..|parts| - 1][1..];
    }
  }

  /** With a one-character separator absent from `a`, the first piece of
      `a + sep + b` is `a` and the others are the pieces of `b`. */
  lemma SplitAfter(a: string, sep: string, b: string)
    requires |sep| == 1 && sep[0] !in a
    ensures Split(a + sep + b, sep) == [a] + Split(b, sep)
  {
    var s := a + sep + b;
    assert s[|a|..|a| + 1] == sep;
    assert OccursAt(s, sep, |a|);
    var r := IndexOf(s, sep, 0);
    assert r.Some? && r.value <= |a|;
    assert s[..|a|] == a && s[|a| + 1..] == b;
  }

  /** A string without the one-character separator splits into itself. */
  lemma SplitNone(a: string, sep: string)
    requires |sep| == 1 && sep[0] !in a
    ensures Split(a, sep) == [a]
  {
    var r := IndexOf(a, sep, 0);
  }

  /** Upper-casing restricted to ASCII letters. */
  function UpperChar(c: char): (r: char)
    ensures ('a' <= c <= 'z') ==> 'A' <= r <= 'Z' && r as int == c as int - 32
    ensures !('a' <= c <= 'z') ==> r == c
  {
    if 'a' <= c <= 'z' then (c as int - 32) as char else c
  }

  /** Lower-casing restricted to ASCII letters. */
  function LowerChar(c: char): (r: char)
    ensures ('A' <= c <= 'Z') ==> 'a' <= r <= 'z' && r as int == c as int + 32
    ensures !('A' <= c <= 'Z') ==> r == c
  {
    if 'A' <= c <= 'Z' then (c as int + 32) as char else c
  }

  /** `s.toUpperCase()` on ASCII letters. */
  function ToUpper(s: string): (r: string)
    ensures |r| == |s| && forall i :: 0 <= i < |s| ==> r[i] == UpperChar(s[i])
  {
    seq(|s|, i requires 0 <= i < |s| => UpperChar(s[i]))
  }

  /** `s.toLowerCase()` on ASCII letters. */
  function ToLower(s: string): (r: string)
    ensures |r| == |s| && forall i :: 0 <= i < |s| ==> r[i] == LowerChar(s[i])
  {
    seq(|s|, i requires 0 <= i < |s| => LowerChar(s[i]))
  }

  /** The number of UTF-16 code units of `s`, which is what JavaScript's `length` counts. */
  function Utf16Length(s: string): (n: nat)
    ensures |s| <= n <= 2 * |s|
  {
    Utf16Prefix(s, |s|)
  }

  /** The UTF-16 code units of the first `k` characters of `s`: one for a
      character of the Basic Multilingual Plane, two (a surrogate pair) otherwise. */
  function Utf16Prefix(s: string, k: nat): (n: nat)
    requires k <= |s|
    ensures k <= n <= 2 * k
  {
    if k == 0 then 0 else Utf16Prefix(s, k - 1) + (if s[k - 1] as int > 0xFFFF then 2 else 1)
  }

  lemma {:induction false} Utf16PrefixAppend(a: string, b: string, k: nat)
    requires k <= |a| + |b|
    ensures Utf16Prefix(a + b, k) == if k <= |a| then Utf16Prefix(a, k) else Utf16Length(a) + Utf16Prefix(b, k - |a|)
  {
    if k > 0 {
      Utf16PrefixAppend(a, b, k - 1);
    }
  }

  /** The UTF-16 length adds up over concatenation. */
  lemma Utf16LengthAppend(a: string, b: string)
    ensures Utf16Length(a + b) == Utf16Length(a) + Utf16Length(b)
  {
    Utf16PrefixAppend(a, b, |a| + |b|);
  }
}
