/**
  The edge cases of the place-name parser, each stated for every label of the
  given shape: a spaced dash, a hyphen inside a word, a third segment, a
  trailing dash, and words separated by single spaces.
 */
module PlaceNameCases {
  import opened Wrappers
  import opened JsStrings
  import opened PlaceName

  /** Trimmed text that contains no dash. */
  predicate Segment(s: string) {
    s != [] && IsTrimmed(s) && NoDashIn(s)
  }

  /** A venue short enough that the post-pass leaves it alone. */
  predicate ShortVenue(v: string) {
    Utf16Length(v) <= LongVenueLength
  }

  /** White space contains no dash. */
  lemma SpaceHasNoDash(g: string)
    requires AllSpace(g)
    ensures NoDashIn(g)
  {
  }

  /** A trimmed segment with white space around it trims back to itself. */
  lemma SpacedSegment(g1: string, a: string, g2: string)
    requires AllSpace(g1) && Segment(a) && AllSpace(g2)
    ensures Trim(g1 + a + g2) == a && NoDashIn(g1 + a + g2)
  {
    TrimOf(g1, a, g2);
    SpaceHasNoDash(g1);
    SpaceHasNoDash(g2);
  }

  /** The parse of a trimmed label whose split gives a short venue. */
  lemma ParseShort(s: string, r: VenueLocation)
    requires IsTrimmed(s) && FirstSplit(s) == r && ShortVenue(r.venue)
    ensures ParsePlaceName(s) == r
  {
    ParseOfTrimmed(s);
  }

  /** "Venue - City": the venue and the city, spaced or not around the dash. */
  lemma SpacedDash(a: string, b: string)
    requires Segment(a) && Segment(b) && ShortVenue(a)
    ensures ParsePlaceName(a + " - " + b) == VenueLocation(a, b)
  {
    var s := a + " - " + b;
    assert s == (a + " ") + "-" + (" " + b) + [];
    assert IsTrimmed(s) by { assert s[0] == a[0] && s[|s| - 1] == b[|b| - 1]; }
    SpacedSegment([], a, " ");
    SpacedSegment(" ", b, []);
    assert [] + a + " " == a + " " && " " + b + [] == " " + b;
    DashSegments(a + " ", '-', " " + b, []);
    ParseShort(s, VenueLocation(a, b));
  }

  /** A hyphen inside a word splits it: "Coca-Cola" is the venue "Coca" in "Cola". */
  lemma HyphenInsideWord(a: string, b: string)
    requires Segment(a) && Segment(b) && ShortVenue(a)
    ensures ParsePlaceName(a + "-" + b) == VenueLocation(a, b)
  {
    var s := a + "-" + b;
    assert s == a + ['-'] + b + [];
    assert IsTrimmed(s) by { assert s[0] == a[0] && s[|s| - 1] == b[|b| - 1]; }
    TrimmedIsFixed(a);
    TrimmedIsFixed(b);
    DashSegments(a, '-', b, []);
    ParseShort(s, VenueLocation(a, b));
  }

  /** "A - B - C": the third segment is dropped and the location is "B". */
  lemma ThirdSegmentDropped(a: string, b: string, c: string)
    requires Segment(a) && Segment(b) && Segment(c) && ShortVenue(a)
    ensures ParsePlaceName(a + " - " + b + " - " + c) == VenueLocation(a, b)
  {
    var s := a + " - " + b + " - " + c;
    var rest := "- " + c;
    assert s == (a + " ") + "-" + (" " + b + " ") + rest;
    assert IsTrimmed(s) by { assert s[0] == a[0] && s[|s| - 1] == c[|c| - 1]; }
    SpacedSegment([], a, " ");
    SpacedSegment(" ", b, " ");
    assert [] + a + " " == a + " ";
    DashSegments(a + " ", '-', " " + b + " ", rest);
    ParseShort(s, VenueLocation(a, b));
  }

  /** "Venue -": a trailing dash leaves the location empty. The location is
      therefore not always a non-empty string. */
  lemma TrailingDash(a: string)
    requires Segment(a) && ShortVenue(a)
    ensures ParsePlaceName(a + " -") == VenueLocation(a, "")
  {
    var s := a + " -";
    assert s == (a + " ") + "-" + [] + [];
    assert IsTrimmed(s) by { assert s[0] == a[0]; }
    SpacedSegment([], a, " ");
    assert [] + a + " " == a + " ";
    DashSegments(a + " ", '-', [], []);
    assert Trim([]) == [];
    ParseShort(s, VenueLocation(a, ""));
  }

  /** Words separated by single spaces, with no white space at either end:
      every white-space character is a space between two words. */
  predicate SingleSpaced(v: string)
    decreases |v|
  {
    && v != [] && !IsSpace(v[0])
    && match IndexWhere(v, IsSpace, 0)
       case None => true
       case Some(i) => v[i] == ' ' && i + 1 < |v| && SingleSpaced(v[i + 1..])
  }

  /** Joining `[a] + words` puts a space after `a`. */
  lemma JoinCons(a: string, words: seq<string>)
    requires |words| >= 1
    ensures Join([a] + words, " ") == a + " " + Join(words, " ")
  {
    assert ([a] + words)[1..] == words;
  }

  /** The `/\s+/` split of single-spaced words, a space and one more word:
      the words, then that word; and the words join back with single spaces. */
  lemma WordsOfSingleSpaced(v: string, w: string)
    requires SingleSpaced(v) && w != [] && NoSpace(w)
    ensures SplitOnSpaceRuns(v + " " + w) == SplitOnSpaceRuns(v) + [w]
    ensures Join(SplitOnSpaceRuns(v), " ") == v
  {
    SplitThenWord(v, w);
    JoinOfSingleSpaced(v);
  }

  lemma {:induction false} SplitThenWord(v: string, w: string)
    requires SingleSpaced(v) && w != [] && NoSpace(w)
    ensures SplitOnSpaceRuns(v + " " + w) == SplitOnSpaceRuns(v) + [w]
    decreases |v|
  {
    IndexWhereNone(w, IsSpace, 0);
    match IndexWhere(v, IsSpace, 0)
    case None =>
      WordThenSpace(v, w);
    case Some(i) =>
      var a, v' := v[..i], v[i + 1..];
      FirstSpaceOfSingleSpaced(v, i);
      SplitThenWord(v', w);
      assert SplitOnSpaceRuns(v) == [a] + SplitOnSpaceRuns(v') by {
        WordThenSpace(a, v');
      }
      assert SplitOnSpaceRuns(v + " " + w) == [a] + SplitOnSpaceRuns(v' + " " + w) by {
        Assoc(a + " ", v', " " + w);
        assert v + " " + w == a + " " + (v' + " " + w);
        assert (v' + " " + w)[0] == v'[0];
        WordThenSpace(a, v' + " " + w);
      }
      Assoc([a], SplitOnSpaceRuns(v'), [w]);
  }

  lemma {:induction false} JoinOfSingleSpaced(v: string)
    requires SingleSpaced(v)
    ensures Join(SplitOnSpaceRuns(v), " ") == v
    decreases |v|
  {
    match IndexWhere(v, IsSpace, 0)
    case None =>
    case Some(i) =>
      var a, v' := v[..i], v[i + 1..];
      FirstSpaceOfSingleSpaced(v, i);
      JoinOfSingleSpaced(v');
      assert SplitOnSpaceRuns(v) == [a] + SplitOnSpaceRuns(v') by {
        WordThenSpace(a, v');
      }
      JoinCons(a, SplitOnSpaceRuns(v'));
  }

  /** Single-spaced words split at their first space into a word and more
      single-spaced words. */
  lemma FirstSpaceOfSingleSpaced(v: string, i: nat)
    requires SingleSpaced(v) && IndexWhere(v, IsSpace, 0) == Some(i)
    ensures 0 < i < |v| - 1 && v == v[..i] + " " + v[i + 1..]
    ensures v[..i] != [] && NoSpace(v[..i]) && SingleSpaced(v[i + 1..])
  {
    assert v == v[..i] + " " + v[i + 1..];
  }

  /** A label without a dash is dash-free when searched. */
  lemma NoDashFound(s: string)
    requires NoDashIn(s)
    ensures IndexWhere(s, IsDash, 0) == None
  {
    forall j | 0 <= j < |s| ensures !IsDash(s[j]) {
      assert s[j] in s;
    }
    IndexWhereNone(s, IsDash, 0);
  }

  /** "THE FLOWERPOT DERBY": without a dash, the last word is the location and
      the words before it, joined by single spaces, are the venue. */
  lemma WordLabel(v: string, w: string)
    requires SingleSpaced(v) && NoDashIn(v) && Segment(w) && NoSpace(w) && ShortVenue(v)
    ensures ParsePlaceName(v + " " + w) == VenueLocation(v, w)
  {
    var s := v + " " + w;
    assert IsTrimmed(s) by { assert s[0] == v[0] && s[|s| - 1] == w[|w| - 1]; }
    assert FirstSplit(s) == VenueLocation(v, w) by {
      assert NoDashIn(s);
      NoDashFound(s);
      WordsOfSingleSpaced(v, w);
      var words := SplitOnSpaceRuns(s);
      assert words[..|words| - 1] == SplitOnSpaceRuns(v);
    }
    ParseShort(s, VenueLocation(v, w));
  }
}
