/**
  Turning Graph API events into gig records (backend/fetch-gigs/app.js,
  lines 101-138 and 157-251): the per-event transformation and the sequential
  loop that contains its failures.
 */
module EventNormalizer {
  import opened Wrappers
  import opened JsStrings
  import opened PlaceName
  import opened CivilDates
  import opened Records
  import opened Geocode

  /** The London-local rendering of a start instant: its calendar day and its
      "h:mm AM/PM" time text. */
  datatype LocalStart = LocalStart(date: Date, time: string)

  /** The collaborators of the transformation: the time-zone formatting of an
      instant and the postcode service. */
  datatype Env = Env(localStart: int -> LocalStart, geocode: Geocoder)

  /** The message of the `RangeError` that logging an invalid `Date` throws. */
  const InvalidTimeValue := "Invalid time value"

  /** Venue and location: parsed from the place name when the event has a
      named place, "TBD" for both otherwise. */
  function PlaceFields(e: RawEvent): VenueLocation {
    if e.place.Some? && e.place.value.name != "" then ParsePlaceName(e.place.value.name)
    else VenueLocation(TBD, TBD)
  }

  /** What `transformEventToGig` produces for an event: it throws exactly when
      the start time is not a valid date, and otherwise builds the record. */
  function GigFor(e: RawEvent, env: Env, enabled: bool): (r: Result<Gig>)
    ensures r.Err? <==> e.start.None?
    ensures r.Ok? ==>
              var local := env.localStart(e.start.value);
              && CarriesEventDefaults(r.value, e)
              && r.value.title == e.name
              && r.value.date == DisplayDate(local.date)
              && r.value.startTime == local.time
  {
    match e.start
    case None => Err(InvalidTimeValue)
    case Some(t) =>
      var local := env.localStart(t);
      var place := PlaceFields(e);
      Ok(Gig(
        id := e.id,
        date := DisplayDate(local.date),
        venue := place.venue,
        location := place.location,
        postcode := PostcodeFor(e.place, enabled, env.geocode),
        startTime := local.time,
        url := EventUrl(e),
        title := e.name,
        description := e.description,
        coverImage := CoverImage(e),
        attendingCount := e.attendingCount.GetOr(0),
        interestedCount := e.interestedCount.GetOr(0)))
  }

  /** The place-name branch of `transformEventToGig`: venue and location are
      set from the dash or whitespace split of the trimmed name, then
      overwritten again when the long-venue pass fires. */
  method SplitPlaceName(name: string) returns (venue: string, location: string)
    ensures VenueLocation(venue, location) == ParsePlaceName(name)
  {
    var split := FirstSplit(Trim(name));
    venue, location := split.venue, split.location;
    venue, location := SplitLongVenue(venue, location);
  }

  /** The long-venue step of the place-name branch: a venue longer than 30
      UTF-16 units whose last word looks like a city loses that word to the
      location. */
  method SplitLongVenue(venue0: string, location0: string) returns (venue: string, location: string)
    ensures VenueLocation(venue, location) == LongVenuePass(VenueLocation(venue0, location0))
  {
    venue, location := venue0, location0;
    if Utf16Length(venue) > LongVenueLength && Includes(venue, " ") {
      var venueWords := Split(venue, " ");
      var lastWord := venueWords[|venueWords| - 1];
      if LooksLikeCity(lastWord) {
        venue := Join(venueWords[..|venueWords| - 1], " ");
        location := lastWord;
      }
    }
  }

  /** The postcode branch of `transformEventToGig`: "TBD" unless the lookup is
      attempted and finds a non-empty postcode. */
  method LookUpPostcode(place: Option<Place>, enabled: bool, geocode: Geocoder) returns (postcode: string)
    ensures postcode == PostcodeFor(place, enabled, geocode)
  {
    postcode := TBD;
    if LookupAttempted(place, enabled) {
      var p := place.value.location.value;
      var found := PostcodeFromReply(geocode(p.latitude, p.longitude));
      if found.Some? && found.value != "" {
        postcode := found.value;
      }
    }
  }

  /** `transformEventToGig`: venue, location and postcode start at "TBD" and
      are overwritten branch by branch. */
  method TransformEventToGig(e: RawEvent, env: Env, enabled: bool) returns (r: Result<Gig>)
    ensures r == GigFor(e, env, enabled)
  {
    if e.start.None? {
      return Err(InvalidTimeValue);
    }
    var local := env.localStart(e.start.value);
    var venue, location, postcode := TBD, TBD, TBD;
    if e.place.Some? && e.place.value.name != "" {
      venue, location := SplitPlaceName(e.place.value.name);
      postcode := LookUpPostcode(e.place, enabled, env.geocode);
    }
    r := Ok(Gig(
      id := e.id,
      date := DisplayDate(local.date),
      venue := venue,
      location := location,
      postcode := postcode,
      startTime := local.time,
      url := EventUrl(e),
      title := e.name,
      description := e.description,
      coverImage := CoverImage(e),
      attendingCount := e.attendingCount.GetOr(0),
      interestedCount := e.interestedCount.GetOr(0)));
  }

  /** The per-event transformation as a function value. */
  function Transformer(env: Env, enabled: bool): RawEvent -> Result<Gig> {
    e => GigFor(e, env, enabled)
  }

  // The processing loop, over any per-item transformation that may throw

  /** The record kept for an item: the transformed one, or the fallback when
      the transformation threw. */
  function Contained<E, G>(item: E, transform: E -> Result<G>, fallback: E -> G): G {
    match transform(item)
    case Ok(g) => g
    case Err(_) => fallback(item)
  }

  /** The records kept for a list of items, in order. */
  function ContainedAll<E, G>(items: seq<E>, transform: E -> Result<G>, fallback: E -> G): seq<G> {
    if items == [] then []
    else ContainedAll(items[..|items| - 1], transform, fallback) + [Contained(items[|items| - 1], transform, fallback)]
  }

  /** One record per item, each kept for the item at the same index: a failure
      replaces only its own record and processing goes on after it. */
  lemma {:induction false} ContainedAllAt<E, G>(items: seq<E>, transform: E -> Result<G>, fallback: E -> G)
    ensures |ContainedAll(items, transform, fallback)| == |items|
    ensures forall i :: 0 <= i < |items| ==>
              ContainedAll(items, transform, fallback)[i] == Contained(items[i], transform, fallback)
  {
    if items != [] {
      ContainedAllAt(items[..|items| - 1], transform, fallback);
    }
  }

  /** Whether the loop pauses after the item at index `i`: only after a
      successful item that is not the last. */
  predicate PausesAfter<E, G>(items: seq<E>, transform: E -> Result<G>, i: int) {
    0 <= i < |items| - 1 && transform(items[i]).Ok?
  }

  /** The indexes among the first `n` items after which the loop pauses. */
  function PauseIndexes<E, G>(items: seq<E>, transform: E -> Result<G>, n: nat): seq<int>
    requires n <= |items|
  {
    if n == 0 then []
    else PauseIndexes(items, transform, n - 1) + (if PausesAfter(items, transform, n - 1) then [n - 1] else [])
  }

  /** The pauses are taken exactly after the successful items that are not
      the last, once each, in increasing order. */
  lemma {:induction false} PauseIndexesExact<E, G>(items: seq<E>, transform: E -> Result<G>, n: nat)
    requires n <= |items|
    ensures forall j :: 0 <= j < |PauseIndexes(items, transform, n)| ==> 0 <= PauseIndexes(items, transform, n)[j] < n
    ensures forall i :: 0 <= i < |items| ==>
              (i in PauseIndexes(items, transform, n) <==> i < n && PausesAfter(items, transform, i))
    ensures forall j, k :: 0 <= j < k < |PauseIndexes(items, transform, n)| ==>
              PauseIndexes(items, transform, n)[j] < PauseIndexes(items, transform, n)[k]
  {
    if n > 0 {
      PauseIndexesExact(items, transform, n - 1);
    }
  }

  /** `processEventsWithRateLimit`: the items are transformed one after the
      other; the result holds one record per item, and `pauses` the indexes
      after which the 200 ms pause is taken. */
  method ProcessEach<E, G>(items: seq<E>, transform: E -> Result<G>, fallback: E -> G)
    returns (results: seq<G>, pauses: seq<int>)
    ensures results == ContainedAll(items, transform, fallback)
    ensures pauses == PauseIndexes(items, transform, |items|)
  {
    results, pauses := [], [];
    var i := 0;
    while i < |items|
      invariant 0 <= i <= |items|
      invariant results == ContainedAll(items[..i], transform, fallback)
      invariant pauses == PauseIndexes(items, transform, i)
    {
      var r := transform(items[i]);
      var g := if r.Ok? then r.value else fallback(items[i]);
      assert items[..i + 1][..i] == items[..i];
      results := results + [g];
      if r.Ok? && i < |items| - 1 {
        pauses := pauses + [i];
      }
      i := i + 1;
    }
    assert items[..i] == items;
  }

  /** For the event transformation: one record per event, carrying its id and
      defaults; the transformed record for an event with a valid start, and
      the fallback record for any other. */
  lemma ProcessedEvents(events: seq<RawEvent>, env: Env, enabled: bool)
    ensures var results := ContainedAll(events, Transformer(env, enabled), FallbackGig);
            && |results| == |events|
            && forall i :: 0 <= i < |events| ==>
                 && results[i].id == events[i].id
                 && CarriesEventDefaults(results[i], events[i])
                 && (events[i].start.None? ==> results[i] == FallbackGig(events[i]))
                 && (events[i].start.Some? ==> Ok(results[i]) == GigFor(events[i], env, enabled))
  {
    ContainedAllAt(events, Transformer(env, enabled), FallbackGig);
  }

  /** Venue and location come from the place-name parser exactly when the
      event has a named place, and are both "TBD" otherwise. */
  lemma VenueAndLocationOfGig(e: RawEvent, env: Env, enabled: bool)
    requires e.start.Some?
    ensures var g := GigFor(e, env, enabled).value;
            if e.place.Some? && e.place.value.name != "" then
              VenueLocation(g.venue, g.location) == ParsePlaceName(e.place.value.name)
            else
              g.venue == TBD && g.location == TBD
  {
  }
}
