/**
  The postcode lookup (backend/fetch-gigs/app.js, lines 7, 73-98 and 226-234):
  when the lookup happens, and how whatever the postcodes.io request produced
  is reduced to a postcode or nothing without ever throwing.
 */
module Geocode {
  import opened Wrappers
  import opened Records
  import PlaceName

  /** One element of the `result` array of a postcodes.io reply; its `postcode`
      may be missing. */
  datatype PostcodeEntry = PostcodeEntry(postcode: Option<string>)

  /** What awaiting the request raced against its 5-second timer produced:
      a parsed reply (its `result` field may be missing), the timer's rejection,
      or a rejection of the request itself (network error, unparsable body). */
  datatype GeocodeReply =
    | Reply(result: Option<seq<PostcodeEntry>>)
    | TimedOut
    | RequestFailed(message: string)

  /** The lookup service, as a function from (latitude, longitude) to its reply. */
  type Geocoder = (real, real) -> GeocodeReply

  /** `ENABLE_POSTCODE_LOOKUP !== 'false'`: on unless set to exactly "false". */
  predicate LookupEnabled(setting: Option<string>) {
    setting != Some("false")
  }

  /** The value `getPostcodeFromCoordinates` resolves to: the first entry's
      postcode when the reply has a non-empty `result`, and `null` otherwise,
      including for a timeout or a failed request. */
  function PostcodeFromReply(reply: GeocodeReply): (found: Option<string>)
    ensures found.Some? ==> reply.Reply? && reply.result.Some? && |reply.result.value| > 0
    ensures reply.Reply? && reply.result.Some? && |reply.result.value| > 0 ==>
              found == reply.result.value[0].postcode
  {
    match reply
    case Reply(Some(entries)) => if |entries| > 0 then entries[0].postcode else None
    case _ => None
  }

  /** The guard of the lookup: a named place with both coordinates present and
      non-zero, and the lookup switched on. */
  predicate LookupAttempted(place: Option<Place>, enabled: bool) {
    && place.Some?
    && place.value.name != ""
    && place.value.location.Some?
    && place.value.location.value.latitude != 0.0
    && place.value.location.value.longitude != 0.0
    && enabled
  }

  /** The postcode the record gets: the looked-up value when the lookup was
      attempted and produced a non-empty string, "TBD" otherwise. */
  function PostcodeFor(place: Option<Place>, enabled: bool, geocode: Geocoder): string {
    if LookupAttempted(place, enabled) then
      var p := place.value.location.value;
      match PostcodeFromReply(geocode(p.latitude, p.longitude))
      case Some(code) => if code != "" then code else PlaceName.TBD
      case None => PlaceName.TBD
    else PlaceName.TBD
  }

  /** The postcode is something other than "TBD" only when every condition of
      the guard held and the lookup produced that value; conversely, when they
      all held and the lookup produced a non-empty value, that value is used. */
  lemma PostcodeGate(place: Option<Place>, enabled: bool, geocode: Geocoder)
    ensures PostcodeFor(place, enabled, geocode) != PlaceName.TBD ==>
              && LookupAttempted(place, enabled)
              && var p := place.value.location.value;
                 PostcodeFromReply(geocode(p.latitude, p.longitude)) == Some(PostcodeFor(place, enabled, geocode))
    ensures LookupAttempted(place, enabled) ==>
              var p := place.value.location.value;
              var found := PostcodeFromReply(geocode(p.latitude, p.longitude));
              found.Some? && found.value != "" ==> PostcodeFor(place, enabled, geocode) == found.value
  {
  }

  /** A timeout, a failed request or an empty result all leave the postcode at "TBD". */
  lemma FailedLookupKeepsPlaceholder(place: Option<Place>, enabled: bool, geocode: Geocoder)
    requires LookupAttempted(place, enabled)
    requires var p := place.value.location.value;
             var reply := geocode(p.latitude, p.longitude);
             reply.TimedOut? || reply.RequestFailed? || reply.result.None? || reply.result.value == []
    ensures PostcodeFor(place, enabled, geocode) == PlaceName.TBD
  {
  }
}
