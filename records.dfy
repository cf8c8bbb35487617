/**
  The two record shapes of the feed: an event as the Facebook Graph API returns
  it, and the gig record the normaliser produces (frontend/src/types/gig.ts).

  A JavaScript field that is missing, `null` or the empty string is falsy, and
  the code only ever tests such fields for truthiness; the model writes a
  missing string field as "" and a missing coordinate as 0.0, so that "falsy"
  is one test in both cases.
 */
module Records {
  import opened Wrappers
  import PlaceName

  /** Coordinates of a place; 0.0 stands for a missing coordinate as well as a zero one. */
  datatype GeoPoint = GeoPoint(latitude: real, longitude: real)

  /** `event.place`: its `name` ("" when missing) and optional `location`. */
  datatype Place = Place(name: string, location: Option<GeoPoint>)

  /** `event.cover`: its `source` URL ("" when missing). */
  datatype Cover = Cover(source: string)

  /** One element of the Graph API's `data` array. `start` is the instant
      `new Date(start_time)` denotes, in milliseconds since the epoch, or `None`
      when `start_time` is missing or does not parse (an invalid `Date`). */
  datatype RawEvent = RawEvent(
    id: string,
    name: string,
    description: string,
    start: Option<int>,
    place: Option<Place>,
    eventUrl: string,
    cover: Option<Cover>,
    attendingCount: Option<int>,
    interestedCount: Option<int>)

  /** The gig record sent to the frontend. `coverImage` is `None` for `null`. */
  datatype Gig = Gig(
    id: string,
    date: string,
    venue: string,
    location: string,
    postcode: string,
    startTime: string,
    url: string,
    title: string,
    description: string,
    coverImage: Option<string>,
    attendingCount: int,
    interestedCount: int)

  const UnknownEvent := "Unknown Event"
  const EventPagePrefix := "https://www.facebook.com/events/"

  /** `event_url`, or else the event's page on facebook.com. */
  function EventUrl(e: RawEvent): (url: string)
    ensures url != ""
    ensures e.eventUrl != "" ==> url == e.eventUrl
    ensures e.eventUrl == "" ==> url == EventPagePrefix + e.id + "/"
  {
    if e.eventUrl != "" then e.eventUrl else EventPagePrefix + e.id + "/"
  }

  /** `cover?.source || null`. */
  function CoverImage(e: RawEvent): (image: Option<string>)
    ensures image.Some? <==> e.cover.Some? && e.cover.value.source != ""
    ensures image.Some? ==> image.value == e.cover.value.source
  {
    match e.cover
    case Some(c) => if c.source != "" then Some(c.source) else None
    case None => None
  }

  /** The fields both records fill from the event in the same way. */
  predicate CarriesEventDefaults(g: Gig, e: RawEvent) {
    && g.id == e.id
    && g.url == EventUrl(e)
    && g.description == e.description
    && g.coverImage == CoverImage(e)
    && g.attendingCount == e.attendingCount.GetOr(0)
    && g.interestedCount == e.interestedCount.GetOr(0)
  }

  /** The record that stands in for an event whose transformation threw. */
  function FallbackGig(e: RawEvent): (g: Gig)
    ensures CarriesEventDefaults(g, e)
    ensures g.date == PlaceName.TBD && g.venue == PlaceName.TBD && g.location == PlaceName.TBD
    ensures g.postcode == PlaceName.TBD && g.startTime == PlaceName.TBD
    ensures g.title != "" && (e.name != "" ==> g.title == e.name)
    ensures e.name == "" ==> g.title == UnknownEvent
  {
    Gig(
      id := e.id,
      date := PlaceName.TBD,
      venue := PlaceName.TBD,
      location := PlaceName.TBD,
      postcode := PlaceName.TBD,
      startTime := PlaceName.TBD,
      url := EventUrl(e),
      title := if e.name != "" then e.name else UnknownEvent,
      description := e.description,
      coverImage := CoverImage(e),
      attendingCount := e.attendingCount.GetOr(0),
      interestedCount := e.interestedCount.GetOr(0))
  }
}
