/**
  The Lambda handler (backend/fetch-gigs/app.js, lines 254-311): the choice
  between the success and failure envelopes, the filter to upcoming named
  events, and the sort by date.
 */
module FeedHandler {
  import opened Wrappers
  import opened CivilDates
  import opened Records
  import opened Geocode
  import opened TokenCaching
  import opened EventNormalizer
  import opened DateSort

  /** The environment variables the handler reads; "" stands for unset.
      `postcodeLookup` is `ENABLE_POSTCODE_LOOKUP`. */
  datatype Config = Config(pageId: string, tokenParameter: string, postcodeLookup: Option<string>)

  /** The `error` object of a Graph API reply; its `message` may be missing. */
  datatype GraphError = GraphError(message: Option<string>)

  /** What awaiting the Graph API request produced: a parsed JSON object with
      optional `error` and `data` fields, a failed request, or a body that did
      not parse. */
  datatype GraphReply =
    | Parsed(error: Option<GraphError>, data: Option<seq<RawEvent>>)
    | RequestError(message: string)
    | Unparsable

  /** The handler's answer: the empty preflight answer, the success envelope
      `{success: true, data, total}`, or the failure envelope carrying the
      message of the error that was thrown. */
  datatype Response = Preflight | Success(data: seq<Gig>, total: int) | Failure(message: string)

  function StatusCode(r: Response): (code: int)
    ensures code == 500 <==> r.Failure?
    ensures code == 200 || code == 500
  {
    if r.Failure? then 500 else 200
  }

  const MissingConfig := "Missing required environment variables"
  const ParseFailure := "Failed to parse response"
  const ApiErrorPrefix := "Facebook API error: "
  /** The `TypeError` thrown by reading `filter` of a missing `data` field. */
  const DataMissing := "Cannot read properties of undefined (reading 'filter')"

  // Filter

  /** The filter predicate: a start strictly after `now` and a non-empty name.
      An invalid start compares false. */
  predicate Upcoming(e: RawEvent, now: int) {
    e.start.Some? && e.start.value > now && e.name != ""
  }

  function UpcomingEvents(events: seq<RawEvent>, now: int): seq<RawEvent> {
    if events == [] then []
    else UpcomingEvents(events[..|events| - 1], now)
         + (if Upcoming(events[|events| - 1], now) then [events[|events| - 1]] else [])
  }

  /** The filter keeps exactly the upcoming named events. */
  lemma {:induction false} UpcomingEventsExact(events: seq<RawEvent>, now: int)
    ensures forall e :: e in UpcomingEvents(events, now) <==> e in events && Upcoming(e, now)
  {
    if events != [] {
      UpcomingEventsExact(events[..|events| - 1], now);
      assert events == events[..|events| - 1] + [events[|events| - 1]];
    }
  }

  /** The filter keeps the events in their order: filtering a concatenation
      filters each part. */
  lemma {:induction false} UpcomingEventsAppend(a: seq<RawEvent>, b: seq<RawEvent>, now: int)
    ensures UpcomingEvents(a + b, now) == UpcomingEvents(a, now) + UpcomingEvents(b, now)
    decreases |b|
  {
    if b == [] {
      assert a + b == a;
    } else {
      var init, last := b[..|b| - 1], b[|b| - 1];
      var kept := if Upcoming(last, now) then [last] else [];
      assert UpcomingEvents(a + b, now) == UpcomingEvents(a + init, now) + kept by {
        assert (a + b)[..|a + b| - 1] == a + init;
        assert (a + b)[|a + b| - 1] == last;
      }
      assert UpcomingEvents(b, now) == UpcomingEvents(init, now) + kept;
      UpcomingEventsAppend(a, init, now);
    }
  }

  /** A single event is kept exactly when it is upcoming. */
  lemma UpcomingEventsOne(e: RawEvent, now: int)
    ensures UpcomingEvents([e], now) == if Upcoming(e, now) then [e] else []
  {
    assert [e][..0] == [];
  }

  /** The filter keeps every copy of an upcoming event and no copy of any other. */
  lemma {:induction false} UpcomingEventsCounts(events: seq<RawEvent>, now: int)
    ensures forall e :: multiset(UpcomingEvents(events, now))[e] == if Upcoming(e, now) then multiset(events)[e] else 0
  {
    if events != [] {
      var init, last := events[..|events| - 1], events[|events| - 1];
      UpcomingEventsCounts(init, now);
      assert events == init + [last];
    }
  }

  // Sort key

  /** The day `new Date(date.split('-').reverse().join('-'))` denotes, if any. */
  function DateOf(g: Gig): Option<Date> {
    ParseIsoDate(SortDateString(g.date))
  }

  /** The comparator's view of a record. Only records with a readable date
      reach the sort, so the value 0 for an unreadable one is never used. */
  function DateKey(g: Gig): int {
    match DateOf(g)
    case Some(c) => DayNumber(c)
    case None => 0
  }

  /** The records the handler sends, in the order it sends them. */
  function FeedGigs(events: seq<RawEvent>, now: int, env: Env, enabled: bool): seq<Gig> {
    InsertionSorted(ContainedAll(UpcomingEvents(events, now), Transformer(env, enabled), FallbackGig), DateKey)
  }

  // The decisions

  /** The response of one invocation. `s` is the token cache beforehand,
      `tokenNow` the clock when the token is requested, `secret` the parameter
      store's answer, `graph` the Graph API's answer and `now` the clock the
      filter compares with. */
  function HandlerResponse(
    s: CacheState, config: Config, httpMethod: string, tokenNow: int, secret: SecretOutcome,
    graph: GraphReply, now: int, env: Env): Response
  {
    if httpMethod == "OPTIONS" then Preflight
    else if config.pageId == "" || config.tokenParameter == "" then Failure(MissingConfig)
    else
      match GetTokenStep(s, tokenNow, secret).result
      case Err(m) => Failure(m)
      case Ok(_) =>
        match graph
        case RequestError(m) => Failure(m)
        case Unparsable => Failure(ParseFailure)
        case Parsed(error, data) =>
          if error.Some? then Failure(ApiErrorPrefix + error.value.message.GetOr("undefined"))
          else if data.None? then Failure(DataMissing)
          else
            var gigs := FeedGigs(data.value, now, env, LookupEnabled(config.postcodeLookup));
            Success(gigs, |gigs|)
  }

  /** The token cache after one invocation: only a request that gets past the
      configuration check asks for the token. */
  function CacheAfter(s: CacheState, config: Config, httpMethod: string, tokenNow: int, secret: SecretOutcome): CacheState {
    if httpMethod == "OPTIONS" || config.pageId == "" || config.tokenParameter == "" then s
    else GetTokenStep(s, tokenNow, secret).next
  }

  /** `exports.handler`. */
  method Handle(
    cache: TokenCache, config: Config, httpMethod: string, tokenNow: int, secret: SecretOutcome,
    graph: GraphReply, now: int, env: Env)
    returns (resp: Response)
    requires cache.Valid()
    modifies cache
    ensures cache.Valid()
    ensures resp == HandlerResponse(old(cache.State()), config, httpMethod, tokenNow, secret, graph, now, env)
    ensures cache.State() == CacheAfter(old(cache.State()), config, httpMethod, tokenNow, secret)
  {
    if httpMethod == "OPTIONS" {
      return Preflight;
    }
    if config.pageId == "" || config.tokenParameter == "" {
      return Failure(MissingConfig);
    }
    var token, _ := cache.GetToken(tokenNow, secret);
    if token.Err? {
      return Failure(token.message);
    }
    match graph {
      case RequestError(m) =>
        return Failure(m);
      case Unparsable =>
        return Failure(ParseFailure);
      case Parsed(error, data) =>
        if error.Some? {
          return Failure(ApiErrorPrefix + error.value.message.GetOr("undefined"));
        }
        if data.None? {
          return Failure(DataMissing);
        }
        var upcoming := UpcomingEvents(data.value, now);
        var processed, _ := ProcessEach(upcoming, Transformer(env, LookupEnabled(config.postcodeLookup)), FallbackGig);
        var gigs := new Gig[|processed|](i requires 0 <= i < |processed| => processed[i]);
        assert gigs[..] == processed;
        SortInPlace(gigs, DateKey);
        resp := Success(gigs[..], gigs.Length);
    }
  }

  // What a successful response holds

  /** The record of an event with a valid start has a date that reads back
      as the event's London day. */
  lemma GigDateReadable(e: RawEvent, env: Env, enabled: bool)
    requires e.start.Some?
    ensures GigFor(e, env, enabled).Ok?
    ensures DateOf(GigFor(e, env, enabled).value) == Some(env.localStart(e.start.value).date)
  {
    SortKeyReadsDisplayDate(env.localStart(e.start.value).date);
  }

  /** An upcoming event is never replaced by the fallback record: its record
      is the transformed one, whose date reads back as the event's London day. */
  lemma UpcomingGigs(events: seq<RawEvent>, now: int, env: Env, enabled: bool)
    requires forall e :: e in events ==> Upcoming(e, now)
    ensures var gigs := ContainedAll(events, Transformer(env, enabled), FallbackGig);
            && |gigs| == |events|
            && forall i :: 0 <= i < |events| ==>
                 && Ok(gigs[i]) == GigFor(events[i], env, enabled)
                 && DateOf(gigs[i]) == Some(env.localStart(events[i].start.value).date)
  {
    ProcessedEvents(events, env, enabled);
    forall i | 0 <= i < |events|
      ensures GigFor(events[i], env, enabled).Ok?
      ensures DateOf(GigFor(events[i], env, enabled).value) == Some(env.localStart(events[i].start.value).date)
    {
      assert events[i] in events;
      GigDateReadable(events[i], env, enabled);
    }
  }

  /** Sorting records whose dates are all readable orders them by day, keeps
      records of the same day in their previous order, and loses or adds none. */
  lemma OrderedByDay(processed: seq<Gig>)
    requires forall g :: g in processed ==> DateOf(g).Some?
    ensures var data := InsertionSorted(processed, DateKey);
            && multiset(data) == multiset(processed)
            && (forall g :: g in data ==> DateOf(g).Some?)
            && (forall i, j :: 0 <= i < j < |data| ==> !Before(DateOf(data[j]).value, DateOf(data[i]).value))
            && (forall k :: WithKey(data, DateKey, k) == WithKey(processed, DateKey, k))
  {
    var data := InsertionSorted(processed, DateKey);
    InsertionSortedIsPermutation(processed, DateKey);
    InsertionSortedIsSorted(processed, DateKey);
    forall k
      ensures WithKey(data, DateKey, k) == WithKey(processed, DateKey, k)
    {
      InsertionSortedIsStable(processed, DateKey, k);
    }
    forall g | g in data
      ensures DateOf(g).Some?
    {
      assert g in multiset(processed);
    }
    forall i, j | 0 <= i < j < |data|
      ensures !Before(DateOf(data[j]).value, DateOf(data[i]).value)
    {
      assert data[i] in data && data[j] in data;
      assert DateKey(data[i]) <= DateKey(data[j]);
      DayNumberOrdersDays(DateOf(data[j]).value, DateOf(data[i]).value);
    }
  }

  /** The records sent for a feed: one per upcoming named event, each the
      event's transformed record with a readable date, in ascending order of
      day, records of the same day in feed order. */
  lemma FeedContents(events: seq<RawEvent>, now: int, env: Env, enabled: bool)
    ensures var upcoming := UpcomingEvents(events, now);
            var processed := ContainedAll(upcoming, Transformer(env, enabled), FallbackGig);
            var data := FeedGigs(events, now, env, enabled);
            && (forall e :: e in upcoming <==> e in events && Upcoming(e, now))
            && |data| == |processed| == |upcoming|
            && (forall i :: 0 <= i < |upcoming| ==> Ok(processed[i]) == GigFor(upcoming[i], env, enabled))
            && multiset(data) == multiset(processed)
            && (forall g :: g in data ==> DateOf(g).Some?)
            && (forall i, j :: 0 <= i < j < |data| ==> !Before(DateOf(data[j]).value, DateOf(data[i]).value))
            && (forall k :: WithKey(data, DateKey, k) == WithKey(processed, DateKey, k))
  {
    var upcoming := UpcomingEvents(events, now);
    var processed := ContainedAll(upcoming, Transformer(env, enabled), FallbackGig);
    UpcomingEventsExact(events, now);
    UpcomingGigs(upcoming, now, env, enabled);
    forall g | g in processed
      ensures DateOf(g).Some?
    {
      var i :| 0 <= i < |processed| && processed[i] == g;
    }
    OrderedByDay(processed);
  }

  /** The handler succeeds exactly when it is not a preflight, both settings
      are present, a token is obtained, and the Graph API answers with `data`
      and no `error`. */
  lemma SuccessExactly(
    s: CacheState, config: Config, httpMethod: string, tokenNow: int, secret: SecretOutcome,
    graph: GraphReply, now: int, env: Env)
    ensures HandlerResponse(s, config, httpMethod, tokenNow, secret, graph, now, env).Success? <==>
              && httpMethod != "OPTIONS"
              && config.pageId != "" && config.tokenParameter != ""
              && GetTokenStep(s, tokenNow, secret).result.Ok?
              && graph.Parsed? && graph.error.None? && graph.data.Some?
    ensures HandlerResponse(s, config, httpMethod, tokenNow, secret, graph, now, env).Success? ==>
              var gigs := FeedGigs(graph.data.value, now, env, LookupEnabled(config.postcodeLookup));
              HandlerResponse(s, config, httpMethod, tokenNow, secret, graph, now, env) == Success(gigs, |gigs|)
  {
  }
}
