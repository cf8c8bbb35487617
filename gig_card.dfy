/**
  The display fallbacks of a gig card (frontend/src/components/GigCard.tsx,
  lines 10-107): the text shown for each field of a gig record, whether the
  location line is shown, and the Google Maps search query.
 */
module GigCard {
  import opened Wrappers
  import opened JsStrings
  import opened Records
  import PlaceName

  const DefaultImage := "/default-gig.jpg"
  const VenueTba := "Venue TBA"
  const LocationTba := "Location TBA"
  const TimeTba := "Time TBA"
  const DateTba := "Date TBA"
  const TitleSeparator := " - "
  const AtMarker := "at "
  const QuerySeparator := ", "

  /** `getImageSrc`: the cover image when there is a non-empty one, otherwise
      the bundled default picture. */
  function ImageSrc(g: Gig): (src: string)
    ensures src != ""
    ensures src != DefaultImage ==> g.coverImage == Some(src)
    ensures g.coverImage.Some? && g.coverImage.value != "" ==> src == g.coverImage.value
    ensures g.coverImage.None? || g.coverImage.value == "" ==> src == DefaultImage
  {
    if g.coverImage.Some? && g.coverImage.value != "" then g.coverImage.value else DefaultImage
  }

  /** A field the backend could not fill: empty or the "TBD" placeholder. */
  predicate IsPlaceholder(s: string) {
    s == "" || s == PlaceName.TBD
  }

  /** `getVenueText`: the venue, or else what the title suggests: the second
      " - " segment, or the text after the first "at " (which may sit inside
      a word), or "Venue TBA". */
  function VenueText(g: Gig): (text: string)
    ensures !IsPlaceholder(g.venue) ==> text == g.venue
    ensures IsPlaceholder(g.venue) && !Includes(g.title, TitleSeparator) && !Includes(g.title, AtMarker) ==>
              text == VenueTba
  {
    if !IsPlaceholder(g.venue) then g.venue
    else if g.title != "" then
      var titleParts := Split(g.title, TitleSeparator);
      if |titleParts| >= 2 then Trim(titleParts[1])
      else match IndexOf(g.title, AtMarker, 0)
        case Some(i) => Trim(g.title[i + |AtMarker|..])
        case None => VenueTba
    else VenueTba
  }

  /** `getLocationText`: the location, or else the last word of the title's
      second " - " segment when that segment has at least two words, or
      "Location TBA". */
  function LocationText(g: Gig): (text: string)
    ensures !IsPlaceholder(g.location) ==> text == g.location
    ensures IsPlaceholder(g.location) && !Includes(g.title, TitleSeparator) ==> text == LocationTba
    ensures (&& IsPlaceholder(g.location) && Includes(g.title, TitleSeparator)
             && !Includes(Split(g.title, TitleSeparator)[1], " ")) ==> text == LocationTba
  {
    if !IsPlaceholder(g.location) then g.location
    else if g.title != "" then
      var titleParts := Split(g.title, TitleSeparator);
      if |titleParts| >= 2 then
        var venueWords := Split(titleParts[1], " ");
        if |venueWords| >= 2 then venueWords[|venueWords| - 1] else LocationTba
      else LocationTba
    else LocationTba
  }

  /** `getPostcodeText`: the postcode, or nothing for a placeholder. */
  function PostcodeText(g: Gig): (text: string)
    ensures text == "" <==> IsPlaceholder(g.postcode)
    ensures text != "" ==> text == g.postcode
  {
    if !IsPlaceholder(g.postcode) then g.postcode else ""
  }

  /** `getTimeText`: the start time, or "Time TBA" when it is empty. */
  function TimeText(g: Gig): (text: string)
    ensures text != ""
    ensures text != TimeTba ==> text == g.startTime
    ensures g.startTime != "" ==> text == g.startTime
  {
    if g.startTime != "" then g.startTime else TimeTba
  }

  /** `getDateText`: the date, or "Date TBA" when it is empty. */
  function DateText(g: Gig): (text: string)
    ensures text != ""
    ensures text != DateTba ==> text == g.date
    ensures g.date != "" ==> text == g.date
  {
    if g.date != "" then g.date else DateTba
  }

  /** `shouldShowLocation`. */
  predicate ShouldShowLocation(g: Gig) {
    VenueText(g) != VenueTba || LocationText(g) != LocationTba
  }

  /** One `searchQuery +=` step: the part, preceded by ", " unless the query
      so far is empty. */
  function AppendPart(query: string, part: string): string {
    if query != "" then query + QuerySeparator + part else part
  }

  /** The search query `getGoogleMapsUrl` builds: venue, location and postcode
      text, each only when it is not a placeholder. */
  function MapsQuery(g: Gig): string {
    var venue, location, postcode := VenueText(g), LocationText(g), PostcodeText(g);
    var q1 := if venue != VenueTba then venue else "";
    var q2 := if location != LocationTba then AppendPart(q1, location) else q1;
    if postcode != "" then AppendPart(q2, postcode) else q2
  }

  /** The query the Maps link searches for; `None` is the `null` URL. */
  function MapsSearch(g: Gig): Option<string> {
    var q := MapsQuery(g);
    if q != "" then Some(q) else None
  }

  // The Maps query against a reference definition

  /** The parts that enter the query, in order. */
  function PresentParts(g: Gig): seq<string> {
    (if VenueText(g) != VenueTba then [VenueText(g)] else [])
    + (if LocationText(g) != LocationTba then [LocationText(g)] else [])
    + (if PostcodeText(g) != "" then [PostcodeText(g)] else [])
  }

  /** The parts from the first non-empty one on: empty parts before it add
      nothing, not even a separator. */
  function FromFirstNonEmpty(parts: seq<string>): (r: seq<string>)
    ensures r == [] || r[0] != ""
    decreases |parts|
  {
    if parts != [] && parts[0] == "" then FromFirstNonEmpty(parts[1..]) else parts
  }

  /** Folding the parts in with `AppendPart`. */
  function Accumulate(query: string, parts: seq<string>): string
    decreases |parts|
  {
    if parts == [] then query else Accumulate(AppendPart(query, parts[0]), parts[1..])
  }

  /** Once the query is non-empty, every later part is appended after ", ". */
  lemma {:induction false} AccumulateNonEmpty(query: string, parts: seq<string>)
    requires query != ""
    ensures Accumulate(query, parts) == Join([query] + parts, QuerySeparator)
    decreases |parts|
  {
    if parts != [] {
      var next := query + QuerySeparator + parts[0];
      AccumulateNonEmpty(next, parts[1..]);
      JoinHead(query, parts[0], parts[1..]);
    }
  }

  lemma JoinHead(a: string, b: string, rest: seq<string>)
    ensures Join([a + QuerySeparator + b] + rest, QuerySeparator) == Join([a] + ([b] + rest), QuerySeparator)
  {
    if rest == [] {
      assert ([a] + [b])[1..] == [b];
    } else {
      assert ([a + QuerySeparator + b] + rest)[1..] == rest;
      assert ([a] + ([b] + rest))[1..] == [b] + rest;
      assert ([b] + rest)[1..] == rest;
      Assoc(a + QuerySeparator + b, QuerySeparator, Join(rest, QuerySeparator));
      Assoc(a, QuerySeparator, b + QuerySeparator + Join(rest, QuerySeparator));
      Assoc(a, QuerySeparator, b);
      assert a + QuerySeparator + b + QuerySeparator + Join(rest, QuerySeparator)
          == a + QuerySeparator + (b + QuerySeparator + Join(rest, QuerySeparator));
    }
  }

  /** Folding from the empty query joins the parts from the first non-empty
      one on with ", ". */
  lemma {:induction false} AccumulateFromEmpty(parts: seq<string>)
    ensures Accumulate("", parts) == Join(FromFirstNonEmpty(parts), QuerySeparator)
  {
    if parts != [] {
      if parts[0] == "" {
        AccumulateFromEmpty(parts[1..]);
      } else {
        AccumulateNonEmpty(parts[0], parts[1..]);
        assert [parts[0]] + parts[1..] == parts;
      }
    }
  }

  /** One step of the fold over a part list of at most one element. */
  lemma AccumulateStep(query: string, part: seq<string>, rest: seq<string>)
    requires |part| <= 1
    ensures Accumulate(query, part + rest) == Accumulate(if part == [] then query else AppendPart(query, part[0]), rest)
  {
    if part == [] {
      assert part + rest == rest;
    } else {
      assert (part + rest)[1..] == rest;
    }
  }

  /** The three `if` steps of the query are the fold over the present parts. */
  lemma MapsQueryFolds(g: Gig)
    ensures MapsQuery(g) == Accumulate("", PresentParts(g))
  {
    var v, l, p := VenueText(g), LocationText(g), PostcodeText(g);
    var pv: seq<string> := if v != VenueTba then [v] else [];
    var pl: seq<string> := if l != LocationTba then [l] else [];
    var pp: seq<string> := if p != "" then [p] else [];
    assert PresentParts(g) == pv + (pl + pp);
    AccumulateStep("", pv, pl + pp);
    var q1 := if v != VenueTba then v else "";
    AccumulateStep(q1, pl, pp);
    var q2 := if l != LocationTba then AppendPart(q1, l) else q1;
    AccumulateStep(q2, pp, []);
    assert pp + [] == pp;
  }

  /** The query is the present parts from the first non-empty one on, joined
      with ", "; the search is `null` exactly when every present part is empty. */
  lemma MapsQueryJoinsParts(g: Gig)
    ensures MapsQuery(g) == Join(FromFirstNonEmpty(PresentParts(g)), QuerySeparator)
    ensures MapsSearch(g).None? <==> forall i :: 0 <= i < |PresentParts(g)| ==> PresentParts(g)[i] == ""
  {
    var parts := PresentParts(g);
    MapsQueryFolds(g);
    AccumulateFromEmpty(parts);
    NonEmptyJoin(FromFirstNonEmpty(parts));
    FromFirstNonEmptyAllEmpty(parts);
  }

  lemma NonEmptyJoin(parts: seq<string>)
    requires parts == [] || parts[0] != ""
    ensures Join(parts, QuerySeparator) == "" <==> parts == []
  {
    if |parts| >= 2 {
      assert |Join(parts, QuerySeparator)| >= |parts[0]|;
    }
  }

  lemma {:induction false} FromFirstNonEmptyAllEmpty(parts: seq<string>)
    ensures FromFirstNonEmpty(parts) == [] <==> forall i :: 0 <= i < |parts| ==> parts[i] == ""
    decreases |parts|
  {
    if parts != [] && parts[0] == "" {
      FromFirstNonEmptyAllEmpty(parts[1..]);
      assert forall i :: 1 <= i < |parts| ==> parts[i] == parts[1..][i - 1];
    }
  }

  /** When neither venue nor location text is shown, the search is for the
      postcode alone, or there is none. */
  lemma HiddenLocationSearchesPostcode(g: Gig)
    requires !ShouldShowLocation(g)
    ensures MapsSearch(g) == if PostcodeText(g) == "" then None else Some(PostcodeText(g))
  {
  }

  // Title fallbacks

  /** `s` holds no " - ", not even one that runs on past its end into a
      following " - ": a segment that ends where the next separator starts. */
  predicate TitleSegment(s: string) {
    !Includes(s + " -", TitleSeparator)
  }

  /** `b` is a whole segment of a title and `rest` is what follows it: either
      nothing, or a separator that starts the next segment. */
  predicate SegmentEndsAt(b: string, rest: string) {
    if rest == [] then !Includes(b, TitleSeparator)
    else |rest| >= 3 && rest[..3] == TitleSeparator && TitleSegment(b)
  }

  /** A title that starts with a segment and " - " splits after that segment. */
  lemma SplitAfterTitleSegment(a: string, rest: string)
    requires TitleSegment(a)
    ensures Split(a + TitleSeparator + rest, TitleSeparator) == [a] + Split(rest, TitleSeparator)
  {
    var s := a + TitleSeparator + rest;
    assert OccursAt(s, TitleSeparator, |a|) by {
      assert s[|a|..|a| + 3] == TitleSeparator;
    }
    forall j | 0 <= j < |a|
      ensures !OccursAt(s, TitleSeparator, j)
    {
      assert s[j..j + 3] == (a + " -")[j..j + 3];
      assert !OccursAt(a + " -", TitleSeparator, j);
    }
    assert IndexOf(s, TitleSeparator, 0) == Some(|a|);
    assert s[|a| + 3..] == rest;
    assert s[..|a|] == a;
  }

  /** A whole segment is the first piece of the split of the text it starts. */
  lemma FirstPieceOfSegment(b: string, rest: string)
    requires SegmentEndsAt(b, rest)
    ensures Split(b + rest, TitleSeparator)[0] == b
  {
    if rest == [] {
      assert b + rest == b;
    } else {
      assert b + rest == b + TitleSeparator + rest[3..];
      SplitAfterTitleSegment(b, rest[3..]);
    }
  }

  /** The second " - " segment of a title "A - B" (perhaps followed by more
      " - " segments) is `B`. */
  lemma SecondSegment(title: string, a: string, b: string, rest: string)
    requires TitleSegment(a) && SegmentEndsAt(b, rest)
    requires title == a + TitleSeparator + b + rest
    ensures var parts := Split(title, TitleSeparator); |parts| >= 2 && parts[1] == b
  {
    Assoc(a + TitleSeparator, b, rest);
    Assoc(a, TitleSeparator, b + rest);
    SplitAfterTitleSegment(a, b + rest);
    FirstPieceOfSegment(b, rest);
  }

  /** A title "A - B" (perhaps followed by more " - " segments) with a
      placeholder venue shows the trimmed second segment. */
  lemma VenueFromTitleSegment(g: Gig, a: string, b: string, rest: string)
    requires IsPlaceholder(g.venue)
    requires TitleSegment(a) && SegmentEndsAt(b, rest)
    requires g.title == a + TitleSeparator + b + rest
    ensures VenueText(g) == Trim(b)
  {
    SecondSegment(g.title, a, b, rest);
  }

  /** A title without " - " with a placeholder venue shows the trimmed text
      after its first "at ", even when that "at" ends a longer word. */
  lemma VenueAfterAt(g: Gig, p: string, q: string)
    requires IsPlaceholder(g.venue)
    requires !Includes(g.title, TitleSeparator)
    requires !Includes(p + "at", AtMarker)
    requires g.title == p + AtMarker + q
    ensures VenueText(g) == Trim(q)
  {
    var s := g.title;
    assert OccursAt(s, AtMarker, |p|) by {
      assert s[|p|..|p| + 3] == AtMarker;
    }
    forall j | 0 <= j < |p|
      ensures !OccursAt(s, AtMarker, j)
    {
      assert (p + "at")[j..j + 3] == s[j..j + 3];
      assert !OccursAt(p + "at", AtMarker, j);
    }
    assert IndexOf(s, AtMarker, 0) == Some(|p|);
    assert s[|p| + 3..] == q;
  }

  /** A title "A - B W" (perhaps followed by more " - " segments) with a
      placeholder location shows the last word `W` of the second segment. */
  lemma LocationFromTitleSegment(g: Gig, a: string, b: string, w: string, rest: string)
    requires IsPlaceholder(g.location)
    requires TitleSegment(a) && SegmentEndsAt(b + " " + w, rest) && ' ' !in w
    requires g.title == a + TitleSeparator + (b + " " + w) + rest
    ensures LocationText(g) == w
  {
    var segment := b + " " + w;
    var parts := Split(g.title, TitleSeparator);
    assert |parts| >= 2 && parts[1] == segment by {
      SecondSegment(g.title, a, segment, rest);
    }
    var words := Split(segment, " ");
    assert |words| >= 2 && words[|words| - 1] == w by {
      LastWordAfterSpace(b, w);
    }
    LocationFromSecondPart(g, parts, words);
  }

  lemma LocationFromSecondPart(g: Gig, parts: seq<string>, words: seq<string>)
    requires IsPlaceholder(g.location)
    requires parts == Split(g.title, TitleSeparator) && |parts| >= 2
    requires words == Split(parts[1], " ") && |words| >= 2
    ensures LocationText(g) == words[|words| - 1]
  {
  }

  /** A title "A - B" whose second segment is a single word (no space) with a
      placeholder location shows "Location TBA". */
  lemma SingleWordSegmentShowsTba(g: Gig, a: string, b: string, rest: string)
    requires IsPlaceholder(g.location)
    requires TitleSegment(a) && SegmentEndsAt(b, rest) && ' ' !in b
    requires g.title == a + TitleSeparator + b + rest
    ensures LocationText(g) == LocationTba
  {
    assert Split(g.title, TitleSeparator)[1] == b by {
      SecondSegment(g.title, a, b, rest);
    }
    assert Split(b, " ") == [b] by {
      SplitNone(b, " ");
    }
  }

  /** A location taken from the title is a single word: it holds no space. */
  lemma TitleLocationIsOneWord(g: Gig)
    requires IsPlaceholder(g.location)
    ensures LocationText(g) == LocationTba || ' ' !in LocationText(g)
  {
    if g.title != "" {
      var titleParts := Split(g.title, TitleSeparator);
      if |titleParts| >= 2 {
        PlaceName.LastPieceHasNoSeparator(titleParts[1], " ");
      }
    }
  }

  /** The last space-separated word of "B W" is `W`, when `W` has no space. */
  lemma {:induction false} LastWordAfterSpace(b: string, w: string)
    requires ' ' !in w
    ensures var words := Split(b + " " + w, " "); |words| >= 2 && words[|words| - 1] == w
    decreases |b|
  {
    var s := b + " " + w;
    assert OccursAt(s, " ", |b|) by { assert s[|b|..|b| + 1] == " "; }
    var i := IndexOf(s, " ", 0).value;
    if i == |b| {
      assert s[i + 1..] == w;
      SplitNone(w, " ");
    } else {
      assert i < |b| && b[i] == ' ';
      assert s[i + 1..] == b[i + 1..] + " " + w;
      LastWordAfterSpace(b[i + 1..], w);
    }
  }
}
