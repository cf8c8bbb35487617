/**
  The place-name heuristic of the event normaliser (backend/fetch-gigs/app.js,
  lines 189-223): a free-text place label such as "THE FLOWERPOT DERBY" or
  "The Standing Order - Derby" is split into a venue and a location.
 */
module PlaceName {
  import opened Wrappers
  import opened JsStrings

  /** The sentinel the normaliser uses for an unknown field. */
  const TBD := "TBD"

  /** A venue longer than this (in UTF-16 code units) is inspected for a trailing city. */
  const LongVenueLength := 30

  datatype VenueLocation = VenueLocation(venue: string, location: string)

  /** The two separator characters of the pattern `[-–]`: hyphen-minus and en dash. */
  predicate IsDash(c: char) {
    c == '-' || c == '\U{2013}'
  }

  /** The first dash at or after `from`, or the end of `s`. */
  function NextDashOrEnd(s: string, from: nat): (e: nat)
    requires from <= |s|
    ensures from <= e <= |s|
  {
    match IndexWhere(s, IsDash, from)
    case Some(e) => e
    case None => |s|
  }

  /** `s.split` on the regular expression `\s*[-–]\s*`: a match starts at the white-space run just before a
      dash and ends after the white-space run just after it, so each piece is
      the text before the dash with its trailing white space cut, and the next
      search starts after the white space following the dash. */
  function SplitOnDashes(s: string): (parts: seq<string>)
    ensures |parts| >= 1
    ensures |parts| >= 2 <==> IndexWhere(s, IsDash, 0).Some?
    decreases |s|
  {
    match IndexWhere(s, IsDash, 0)
    case None => [s]
    case Some(d) => [TrimEnd(s[..d])] + SplitOnDashes(TrimStart(s[d + 1..]))
  }

  /** `s.split(/\s+/)`: the pieces between maximal runs of white space. */
  function SplitOnSpaceRuns(s: string): (words: seq<string>)
    ensures |words| >= 1
    ensures |words| >= 2 <==> IndexWhere(s, IsSpace, 0).Some?
    decreases |s|
  {
    match IndexWhere(s, IsSpace, 0)
    case None => [s]
    case Some(i) =>
      var rest := TrimStart(s[i..]);
      assert |rest| < |s[i..]|;
      [s[..i]] + SplitOnSpaceRuns(rest)
  }

  /** Stages 1 and 2 of the heuristic, on the already trimmed label: split at
      the first dash separator if there is one, else take the last word as the
      location; a single word is all venue and the location stays unknown. */
  function FirstSplit(placeName: string): (r: VenueLocation)
    ensures IndexWhere(placeName, IsDash, 0).None? && IndexWhere(placeName, IsSpace, 0).None? ==>
              r == VenueLocation(placeName, TBD)
  {
    var parts := SplitOnDashes(placeName);
    if |parts| >= 2 then
      VenueLocation(Trim(parts[0]), Trim(parts[1]))
    else
      var words := SplitOnSpaceRuns(placeName);
      if |words| >= 2 then
        VenueLocation(Join(words[..|words| - 1], " "), words[|words| - 1])
      else
        VenueLocation(placeName, TBD)
  }

  /** The city test of the post-pass: the word is its own upper-casing, or it is
      its own title-casing (first letter upper case, the rest lower case). */
  predicate LooksLikeCity(w: string) {
    w == ToUpper(w) || w == TitleCase(w)
  }

  /** `w.charAt(0).toUpperCase() + w.slice(1).toLowerCase()`. */
  function TitleCase(w: string): (r: string)
    ensures |r| == |w|
  {
    if w == [] then [] else [UpperChar(w[0])] + ToLower(w[1..])
  }

  /** The post-pass is applied: the venue is long and contains a space, and its
      last space-separated word looks like a city. */
  predicate PostPassFires(venue: string) {
    && Utf16Length(venue) > LongVenueLength
    && Includes(venue, " ")
    && LooksLikeCity(LastOf(Split(venue, " ")))
  }

  function LastOf(words: seq<string>): string
    requires |words| >= 1
  {
    words[|words| - 1]
  }

  /** Stage 3: a long venue whose last word looks like a city gives that word up
      as the location (replacing whatever location stage 1 or 2 chose). */
  function LongVenuePass(v: VenueLocation): VenueLocation {
    if Utf16Length(v.venue) > LongVenueLength && Includes(v.venue, " ") then
      var words := Split(v.venue, " ");
      var last := LastOf(words);
      if LooksLikeCity(last) then VenueLocation(Join(words[..|words| - 1], " "), last) else v
    else v
  }

  /** The post-pass loses nothing: when it fires, the new venue, a space and the
      new location spell the old venue, the location is one word that looks like
      a city and the venue gets shorter; otherwise the pair is left alone. */
  lemma LongVenuePassSplits(v: VenueLocation)
    ensures var r := LongVenuePass(v);
            && (PostPassFires(v.venue) ==>
                  && r.venue + " " + r.location == v.venue
                  && ' ' !in r.location
                  && LooksLikeCity(r.location)
                  && Utf16Length(r.venue) < Utf16Length(v.venue))
            && (!PostPassFires(v.venue) ==> r == v)
  {
    if PostPassFires(v.venue) {
      var words := Split(v.venue, " ");
      var r := LongVenuePass(v);
      assert r.venue == Join(words[..|words| - 1], " ") && r.location == LastOf(words);
      assert r.venue + " " + r.location == v.venue by {
        SplitIsJoined(v.venue, words);
      }
      assert ' ' !in r.location by {
        LastPieceHasNoSeparator(v.venue, " ");
      }
      assert Utf16Length(r.venue) < Utf16Length(v.venue) by {
        Utf16LengthAppend(r.venue, " " + r.location);
        Assoc(r.venue, " ", r.location);
      }
    }
  }

  /** The parser: trim the label, split it, then apply the long-venue post-pass. */
  function ParsePlaceName(name: string): VenueLocation {
    LongVenuePass(FirstSplit(Trim(name)))
  }

  /** The last piece of a split on a one-character separator does not contain it. */
  lemma {:induction false} LastPieceHasNoSeparator(s: string, sep: string)
    requires |sep| == 1
    ensures sep[0] !in LastOf(Split(s, sep))
    decreases |s|
  {
    match IndexOf(s, sep, 0)
    case None =>
      assert Split(s, sep) == [s];
      NoOccurrenceNoChar(s, sep);
    case Some(i) =>
      var rest := s[i + |sep|..];
      assert Split(s, sep) == [s[..i]] + Split(rest, sep);
      assert LastOf(Split(s, sep)) == LastOf(Split(rest, sep));
      LastPieceHasNoSeparator(rest, sep);
  }

  /** Where a one-character separator does not occur, its character is absent. */
  lemma NoOccurrenceNoChar(s: string, sep: string)
    requires |sep| == 1 && IndexOf(s, sep, 0).None?
    ensures sep[0] !in s
  {
    assert sep == [sep[0]];
    forall j | 0 <= j < |s|
      ensures s[j] != sep[0]
    {
      assert !OccursAt(s, sep, j);
      assert s[j..j + 1] == [s[j]];
    }
  }

  /** Neither dash is white space. */
  lemma DashIsNotSpace(c: char)
    ensures IsDash(c) ==> !IsSpace(c)
  {
  }

  /** `IndexWhere` finds exactly the first position satisfying the test. */
  lemma IndexWhereIs(s: string, p: char -> bool, from: nat, e: nat)
    requires from <= e < |s| && p(s[e])
    requires forall j :: from <= j < e ==> !p(s[j])
    ensures IndexWhere(s, p, from) == Some(e)
  {
  }

  lemma IndexWhereNone(s: string, p: char -> bool, from: nat)
    requires from <= |s|
    requires forall j :: from <= j < |s| ==> !p(s[j])
    ensures IndexWhere(s, p, from) == None
  {
  }

  /** Cutting trailing white space before trimming changes nothing. */
  lemma TrimOfTrimEnd(x: string)
    ensures Trim(TrimEnd(x)) == Trim(x)
  {
    var e := TextEnd(x, |x|);
    PrefixSuffix(x, e);
    assert [] + x[..e] + x[e..] == x;
    TrimIgnoresSpace([], x[..e], x[e..]);
  }

  /** White space in front of a string does not change its trim. */
  lemma TrimOfSpaceThen(gap: string, y: string)
    requires AllSpace(gap)
    ensures Trim(gap + y) == Trim(y)
  {
    assert gap + y + [] == gap + y;
    TrimIgnoresSpace(gap, y, []);
  }

  /** Where the text after the white-space run starting at `from` begins. */
  lemma SkipSpace(s: string, from: nat) returns (k: nat)
    requires from <= |s|
    ensures from + k <= |s|
    ensures TrimStart(s[from..]) == s[from + k..]
    ensures forall j :: from <= j < from + k ==> IsSpace(s[j])
  {
    var tail := s[from..];
    k := TextStart(tail);
    SliceOfSlice(s, from, |s|, k, |tail|);
    forall j | from <= j < from + k ensures IsSpace(s[j]) {
      assert s[j] == tail[j - from];
    }
  }

  /** The dash search from `a` passes over white space up to `b`, and searching
      a suffix is searching the whole from the suffix's start. */
  lemma NextDashAfterSpace(s: string, a: nat, b: nat)
    requires a <= b <= |s|
    requires forall j :: a <= j < b ==> IsSpace(s[j])
    ensures NextDashOrEnd(s, a) == b + NextDashOrEnd(s[b..], 0)
  {
    var rem := s[b..];
    forall j | a <= j < b ensures !IsDash(s[j]) {
      DashIsNotSpace(s[j]);
    }
    match IndexWhere(rem, IsDash, 0)
    case None =>
      forall j | b <= j < |s| ensures !IsDash(s[j]) {
        assert s[j] == rem[j - b];
      }
      IndexWhereNone(s, IsDash, a);
    case Some(n) =>
      forall j | b <= j < b + n ensures !IsDash(s[j]) {
        assert s[j] == rem[j - b];
      }
      assert s[b + n] == rem[n];
      IndexWhereIs(s, IsDash, a, b + n);
  }

  /** The first piece of the dash split, once trimmed, is the trimmed text up to
      the first dash. */
  lemma FirstDashPiece(rem: string)
    ensures Trim(SplitOnDashes(rem)[0]) == Trim(rem[..NextDashOrEnd(rem, 0)])
  {
    match IndexWhere(rem, IsDash, 0)
    case None =>
      assert rem[..|rem|] == rem;
    case Some(n) =>
      TrimOfTrimEnd(rem[..n]);
  }

  /** The dash split after its first dash continues at the end of the white
      space that follows the dash. */
  lemma DashTail(s: string, d: nat) returns (b: nat)
    requires IndexWhere(s, IsDash, 0) == Some(d)
    ensures d + 1 <= b <= |s|
    ensures forall j :: d + 1 <= j < b ==> IsSpace(s[j])
    ensures SplitOnDashes(s) == [TrimEnd(s[..d])] + SplitOnDashes(s[b..])
  {
    var k := SkipSpace(s, d + 1);
    b := d + 1 + k;
    var rest := TrimStart(s[d + 1..]);
    assert SplitOnDashes(s) == [TrimEnd(s[..d])] + SplitOnDashes(rest);
    assert rest == s[b..];
  }

  /** The trimmed first piece of the dash split of `s[b..]` is the trimmed text
      from `a` to the next dash, when only white space lies between `a` and `b`. */
  lemma PieceAfterSpace(s: string, a: nat, b: nat)
    requires a <= b <= |s|
    requires forall j :: a <= j < b ==> IsSpace(s[j])
    ensures Trim(SplitOnDashes(s[b..])[0]) == Trim(s[a..NextDashOrEnd(s, a)])
  {
    var rem := s[b..];
    FirstDashPiece(rem);
    NextDashAfterSpace(s, a, b);
    var n := NextDashOrEnd(rem, 0);
    var gap := s[a..b];
    SliceJoin(s, a, b, b + n);
    DropTake(s, b, n);
    assert s[a..NextDashOrEnd(s, a)] == gap + rem[..n];
    assert AllSpace(gap) by {
      forall j | 0 <= j < |gap| ensures IsSpace(gap[j]) { assert gap[j] == s[a + j]; }
    }
    TrimOfSpaceThen(gap, rem[..n]);
  }

  lemma DropTake(s: string, b: nat, n: nat)
    requires b + n <= |s|
    ensures s[b..][..n] == s[b..b + n]
  {
  }

  /** Dash rule: with a dash in the label, the venue is the trimmed text before
      the first dash and the location the trimmed text between the first dash
      and the next one (or the end); later segments are dropped. */
  lemma DashSplit(s: string, d: nat)
    requires IndexWhere(s, IsDash, 0) == Some(d)
    ensures FirstSplit(s).venue == Trim(s[..d])
    ensures FirstSplit(s).location == Trim(s[d + 1..NextDashOrEnd(s, d + 1)])
  {
    var b := DashTail(s, d);
    TrimOfTrimEnd(s[..d]);
    PieceAfterSpace(s, d + 1, b);
  }

  /** The words of a trimmed label are non-empty and free of white space. */
  lemma {:induction false} WordsOfTrimmed(s: string)
    requires IsTrimmed(s) && s != []
    ensures forall w | w in SplitOnSpaceRuns(s) :: w != [] && NoSpace(w)
    decreases |s|
  {
    match IndexWhere(s, IsSpace, 0)
    case None =>
    case Some(i) =>
      var k := RestAfterSpaceRun(s, i);
      WordsOfTrimmed(s[k..]);
      assert s[..i] != [] by { assert !IsSpace(s[0]); }
  }

  /** What the word split continues with after the white-space run at `i`:
      a non-empty trimmed suffix of `s`, preceded by white space. */
  lemma RestAfterSpaceRun(s: string, i: nat) returns (k: nat)
    requires IsTrimmed(s) && s != []
    requires IndexWhere(s, IsSpace, 0) == Some(i)
    ensures 0 < k < |s| && IsSpace(s[k - 1])
    ensures SplitOnSpaceRuns(s) == [s[..i]] + SplitOnSpaceRuns(s[k..])
    ensures IsTrimmed(s[k..]) && s[k..] != []
  {
    var n := SkipSpace(s, i);
    k := i + n;
    assert k < |s| by { assert !IsSpace(s[|s| - 1]); }
    assert IsSpace(s[k - 1]);
  }

  /** The last word of a trimmed label with white space in it is the text after
      the last white-space character. */
  lemma {:induction false} LastWordOfTrimmed(s: string) returns (k: nat)
    requires IsTrimmed(s) && s != [] && IndexWhere(s, IsSpace, 0).Some?
    ensures 0 < k < |s| && IsSpace(s[k - 1]) && LastOf(SplitOnSpaceRuns(s)) == s[k..]
    decreases |s|
  {
    var i := IndexWhere(s, IsSpace, 0).value;
    var k0 := RestAfterSpaceRun(s, i);
    var rest := s[k0..];
    var words := SplitOnSpaceRuns(rest);
    LastOfCons(s[..i], words);
    if IndexWhere(rest, IsSpace, 0).Some? {
      var k1 := LastWordOfTrimmed(rest);
      SuffixOfSuffix(s, k0, k1);
      k := k0 + k1;
    } else {
      assert words == [rest];
      k := k0;
    }
  }

  lemma SuffixOfSuffix(s: string, k0: nat, k1: nat)
    requires k0 <= |s| && 0 < k1 <= |s| - k0
    ensures s[k0..][k1..] == s[k0 + k1..] && s[k0..][k1 - 1] == s[k0 + k1 - 1]
  {
    SliceOfSlice(s, k0, |s|, k1, |s| - k0);
  }

  lemma LastOfCons(w: string, words: seq<string>)
    requires |words| >= 1
    ensures LastOf([w] + words) == LastOf(words)
  {
  }

  /** Word rule: a trimmed label without a dash but with white space has, as its
      location, the last word (the non-empty text after the last white space),
      and as its venue the other words joined by single spaces. */
  lemma WordSplit(s: string)
    requires IsTrimmed(s)
    requires IndexWhere(s, IsDash, 0).None? && IndexWhere(s, IsSpace, 0).Some?
    ensures var r := FirstSplit(s);
            var words := SplitOnSpaceRuns(s);
            && r.venue == Join(words[..|words| - 1], " ")
            && r.location != [] && NoSpace(r.location)
            && exists k :: 0 < k < |s| && IsSpace(s[k - 1]) && r.location == s[k..]
  {
    WordsOfTrimmed(s);
    var k := LastWordOfTrimmed(s);
    var words := SplitOnSpaceRuns(s);
    assert LastOf(words) in words;
  }

  /** A label that is already trimmed is parsed as it stands. */
  lemma ParseOfTrimmed(s: string)
    requires IsTrimmed(s)
    ensures ParsePlaceName(s) == LongVenuePass(FirstSplit(s))
  {
    TrimmedIsFixed(s);
  }

  /** White space around the label does not change the parse. */
  lemma ParseIgnoresSurroundingSpace(pre: string, name: string, post: string)
    requires AllSpace(pre) && AllSpace(post)
    ensures ParsePlaceName(pre + name + post) == ParsePlaceName(name)
  {
    TrimIgnoresSpace(pre, name, post);
  }

  /** A label of white space only gives an empty venue and an unknown location. */
  lemma BlankLabel(name: string)
    requires AllSpace(name)
    ensures ParsePlaceName(name) == VenueLocation("", TBD)
  {
    var _ := TrimAt(name);
  }

  /** A venue of at most 30 UTF-16 code units is never long enough for the
      post-pass; in particular, neither is a venue of at most 15 characters. */
  lemma ShortVenueKept(v: VenueLocation)
    ensures Utf16Length(v.venue) <= LongVenueLength ==> LongVenuePass(v) == v
    ensures 2 * |v.venue| <= LongVenueLength ==> LongVenuePass(v) == v
  {
  }

  /** A single space before a word that contains no space: the text before it
      and the word are fixed by the string. */
  lemma LastSpaceUnique(a1: string, w1: string, a2: string, w2: string)
    requires a1 + " " + w1 == a2 + " " + w2
    requires ' ' !in w1 && ' ' !in w2
    ensures a1 == a2 && w1 == w2
  {
    var s := a1 + " " + w1;
    LastSpaceAt(a1, w1);
    LastSpaceAt(a2, w2);
    assert a1 == s[..|s| - |w1| - 1];
    assert w1 == s[|s| - |w1|..];
  }

  /** In `a + " " + w`, where `w` has no space, the space after `a` is the last one. */
  lemma LastSpaceAt(a: string, w: string)
    requires ' ' !in w
    ensures var s := a + " " + w;
            s[|a|] == ' ' && forall j :: |a| < j < |s| ==> s[j] != ' '
  {
    var s := a + " " + w;
    forall j | |a| < j < |s| ensures s[j] != ' ' {
      assert s[j] == w[j - |a| - 1];
    }
  }

  /** The space split of `a + " " + w`, where `w` has no space, ends with `w`,
      and the pieces before it join back to `a`. */
  lemma LastWordOfSplit(a: string, w: string)
    requires ' ' !in w
    ensures Includes(a + " " + w, " ")
    ensures var words := Split(a + " " + w, " ");
            LastOf(words) == w && Join(words[..|words| - 1], " ") == a
  {
    var s := a + " " + w;
    SpaceOccurs(a, w);
    var words := Split(s, " ");
    var init := Join(words[..|words| - 1], " ");
    SplitIsJoined(s, words);
    LastPieceHasNoSeparator(s, " ");
    LastSpaceUnique(init, LastOf(words), a, w);
  }

  lemma SpaceOccurs(a: string, w: string)
    ensures Includes(a + " " + w, " ")
  {
    var s := a + " " + w;
    assert OccursAt(s, " ", |a|) by { assert s[|a|..|a| + 1] == " "; }
  }

  lemma SplitIsJoined(s: string, words: seq<string>)
    requires words == Split(s, " ") && |words| >= 2
    ensures Join(words[..|words| - 1], " ") + " " + LastOf(words) == s
  {
    JoinSnoc(words, " ");
    JoinSplit(s, " ");
  }

  /** The post-pass on a long venue ending in a word that looks like a city
      moves that word to the location; ending in any other word, it changes
      nothing. */
  lemma PostPassOn(a: string, w: string, location: string)
    requires ' ' !in w && Utf16Length(a + " " + w) > LongVenueLength
    ensures LooksLikeCity(w) ==> LongVenuePass(VenueLocation(a + " " + w, location)) == VenueLocation(a, w)
    ensures !LooksLikeCity(w) ==> LongVenuePass(VenueLocation(a + " " + w, location)) == VenueLocation(a + " " + w, location)
  {
    LastWordOfSplit(a, w);
  }

  /** `/\s+/` on a word, a single space and a text that does not start with
      white space: the word, then the words of the text. */
  lemma WordThenSpace(a: string, b: string)
    requires a != [] && NoSpace(a) && (b == [] || !IsSpace(b[0]))
    ensures SplitOnSpaceRuns(a + " " + b) == [a] + SplitOnSpaceRuns(b)
  {
    var s := a + " " + b;
    assert s[|a|] == ' ';
    assert IsSpace(' ');
    forall j | 0 <= j < |a| ensures !IsSpace(s[j]) { assert s[j] == a[j]; }
    IndexWhereIs(s, IsSpace, 0, |a|);
    var tail := s[|a|..];
    assert tail == " " + b;
    assert TextStart(tail) == 1 by {
      assert TextStart(tail, 1) == 1;
    }
    assert TrimStart(tail) == b;
    assert s[..|a|] == a;
  }

  /** Neither dash occurs in `s`. */
  predicate NoDashIn(s: string) {
    '-' !in s && '\U{2013}' !in s
  }

  /** The dash rule on a label built as `p`, a dash, `q` and a `rest` that is
      empty or starts at the next dash: the venue is `p` trimmed and the
      location `q` trimmed, whatever follows. */
  lemma DashSegments(p: string, c: char, q: string, rest: string)
    requires NoDashIn(p) && IsDash(c) && NoDashIn(q)
    requires rest == [] || IsDash(rest[0])
    ensures FirstSplit(p + [c] + q + rest) == VenueLocation(Trim(p), Trim(q))
  {
    var s := p + [c] + q + rest;
    DashesOfSegments(p, c, q, rest);
    DashSplit(s, |p|);
  }

  /** Where the dashes of `p + [c] + q + rest` are, and what lies between them. */
  lemma DashesOfSegments(p: string, c: char, q: string, rest: string)
    requires NoDashIn(p) && IsDash(c) && NoDashIn(q)
    requires rest == [] || IsDash(rest[0])
    ensures var s := p + [c] + q + rest;
            && IndexWhere(s, IsDash, 0) == Some(|p|)
            && NextDashOrEnd(s, |p| + 1) == |p| + 1 + |q|
            && s[..|p|] == p && s[|p| + 1..|p| + 1 + |q|] == q
  {
    var s := p + [c] + q + rest;
    var d := |p|;
    forall j | 0 <= j < d ensures !IsDash(s[j]) {
      assert s[j] == p[j] && p[j] in p;
    }
    assert s[d] == c;
    IndexWhereIs(s, IsDash, 0, d);
    forall j | d + 1 <= j < d + 1 + |q| ensures !IsDash(s[j]) {
      assert s[j] == q[j - d - 1] && q[j - d - 1] in q;
    }
    if rest == [] {
      IndexWhereNone(s, IsDash, d + 1);
    } else {
      assert s[d + 1 + |q|] == rest[0];
      IndexWhereIs(s, IsDash, d + 1, d + 1 + |q|);
    }
    assert s[..d] == p;
    assert s[d + 1..d + 1 + |q|] == q;
  }
}
