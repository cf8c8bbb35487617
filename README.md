# A verified model of the gig feed

The gig feed shows a band's upcoming concerts. It has two parts:

- An AWS Lambda function (`backend/fetch-gigs/app.js`) reads the events of a Facebook page from the Graph API. It turns each event into a gig record, drops past and unnamed events, sorts the rest by date and answers with a JSON envelope.
- A React front end turns that answer into cards (`GigCard.tsx`) and a slider of at most ten cards (`GigCarousel.tsx`).

This project models the decisions both parts make and proves what they guarantee.

Modules, one per file:

- `Wrappers` (`wrappers.dfy`): `Option` and `Result`. `Result` stands for a value, or the message of a thrown error.
- `JsStrings` (`js_strings.dfy`): the JavaScript string operations the code relies on, defined over `seq<char>`:
  - `trim`, and white space as JavaScript's `\s` class;
  - `split` and `join` on a literal separator, `indexOf` and `includes`;
  - upper- and lower-casing of ASCII letters;
  - string length counted in UTF-16 code units.
- `PlaceName` (`place_name.dfy`): the heuristic that splits a Facebook place name into a venue and a location. It runs in three stages:
  1. a dash split;
  2. otherwise a word split;
  3. a pass that moves the last word of a long venue (over 30 UTF-16 code units) into the location.
- `PlaceNameCases` (`place_name_cases.dfy`): what the parser does with the label shapes seen in practice.
- `CivilDates` (`civil_dates.dfy`): the `DD-MM-YYYY` date text written by `toLocaleDateString('en-GB', …)` and the slash-to-dash rewrite. It also covers the handler's comparator, which reads that text back by reversing it and passing it to `new Date`.
- `Records` (`records.dfy`): the Graph API event, the gig record, the defaults every record carries, and the record used for an event whose transformation threw.
- `Geocode` (`geocode.dfy`): reducing a postcodes.io reply to a postcode, and the guard that decides whether a lookup is made.
- `TokenCaching` (`token_cache.dfy`): the module-level access-token cache. It is a class whose `GetToken` updates the cached token and its expiry.
- `EventNormalizer` (`event_normalizer.dfy`): the pieces of the per-event pipeline:
  - `transformEventToGig`, as the function `GigFor` and a method with the same branches and reassignments;
  - the sequential loop of `processEventsWithRateLimit`, which contains each failure and pauses between events.
- `DateSort` (`date_sort.dfy`): the handler's stable sort:
  - a reference insertion sort on sequences, with sortedness, permutation and stability proved;
  - proof that any stable ascending ordering equals the reference;
  - an in-place insertion sort on an array, proved equal to the reference.
- `FeedHandler` (`feed_handler.dfy`): the handler, in two forms:
  - the decisions as a function: preflight, missing configuration, token failure, request failure, API error, missing `data`, and success;
  - a method over the token cache.

  It also states what a successful answer contains.
- `GigCard` (`gig_card.dfy`): the card's display rules:
  - the image, venue, location, postcode, time and date texts, including the fallbacks read from the event title;
  - whether the location is shown;
  - the Google Maps search query.
- `GigCarousel` (`gig_carousel.dfy`): the cap of ten records and the slider settings chosen by record count. It also states what the carousel shows of a successful feed.

The clock, the parameter store, the Graph API, postcodes.io and the London time-zone formatting are parameters, not computations:

- **Clock:** the token cache and the filter take the current time as an integer number of milliseconds.
- **Parameter store:** the token cache takes the store's answer as a `SecretOutcome`.
- **Graph API:** the handler takes the API's answer as a `GraphReply`.
- **postcodes.io and the time zone:** the transformation takes an `Env`. It holds a function giving the London day and time text of an instant, and a `Geocoder` that answers each lookup with a reply, a timeout or a failure.

## Model

| member | source | states |
|---|---|---|
| TokenCaching.GetTokenStep | backend/fetch-gigs/app.js:19-52 | a returned token is never empty; the cache changes only when the store was read and gave a token, and then it holds that token |
| TokenCaching.HitSkipsStore | backend/fetch-gigs/app.js:21-24 | when a non-empty token and a non-zero expiry are cached and `now` is before the expiry, that token is returned without reading the store and the cache is unchanged |
| TokenCaching.MissReadsStore | backend/fetch-gigs/app.js:26-51 | otherwise the store is read: a non-empty value is returned and cached until `now` plus one hour; no value, an empty value or a failed read throws "Failed to retrieve Facebook access token" and leaves the cache as it was |
| TokenCaching.StepKeepsWellFormed | backend/fetch-gigs/app.js:36-41 | the cache is either empty or holds a non-empty token together with its expiry, and a call keeps it so |
| TokenCaching.ReusedForAnHour | backend/fetch-gigs/app.js:21-41 | after a token is read at `now`, any later call before `now` plus one hour returns the same token without reading the store, whatever the store would say; from that moment on the store is read again |
| TokenCaching.TokenCache.constructor | backend/fetch-gigs/app.js:13-16 | the cache starts with both fields `null` |
| TokenCaching.TokenCache.GetToken | backend/fetch-gigs/app.js:19-52 | updates the cache's fields in place exactly as `GetTokenStep` says and returns its result, keeping the cache well formed |
| Geocode.PostcodeFromReply | backend/fetch-gigs/app.js:84-97 | a postcode is found only in a reply with a non-empty `result`, and it is the first entry's postcode; a timeout or a failed request gives `null` |
| Geocode.PostcodeGate | backend/fetch-gigs/app.js:226-234 | the postcode differs from "TBD" only if all of these hold: the place is named, both coordinates are present and non-zero, the lookup is switched on, and the lookup produced that value; when all of them hold and the lookup produced a non-empty value, that value is used |
| Geocode.FailedLookupKeepsPlaceholder | backend/fetch-gigs/app.js:78-97 | a timeout, a failed request, a missing result or an empty result leaves the postcode at "TBD" |
| Records.EventUrl | backend/fetch-gigs/app.js:244 | the URL is never empty; it is the event's `event_url` when set, else the Facebook event page built from the id |
| Records.CoverImage | backend/fetch-gigs/app.js:247 | there is a cover image exactly when the event has a cover with a non-empty source, and it is that source |
| Records.FallbackGig | backend/fetch-gigs/app.js:120-133 | the record built for an event whose transformation threw: it carries the event's id, URL, description, cover and counts, and has "TBD" date, venue, location, postcode and time; its title is the event's name, or "Unknown Event" when the name is empty |
| EventNormalizer.GigFor | backend/fetch-gigs/app.js:157-251 | the transformation throws exactly when the start time is not a valid date; otherwise the record carries the event's defaults, its title is the name, its date is the London day written `DD-MM-YYYY` and its time is the London time text |
| EventNormalizer.SplitPlaceName | backend/fetch-gigs/app.js:187-223 | the reassignments of `venue` and `location` end with the parse of the place name (`PlaceName.ParsePlaceName`) |
| EventNormalizer.SplitLongVenue | backend/fetch-gigs/app.js:213-223 | the long-venue reassignment yields the post-pass of its inputs |
| EventNormalizer.LookUpPostcode | backend/fetch-gigs/app.js:225-234 | the postcode assigned is the one `Geocode.PostcodeFor` gives |
| EventNormalizer.TransformEventToGig | backend/fetch-gigs/app.js:157-251 | the step-by-step transformation yields `GigFor`: the same record, or the same error |
| EventNormalizer.VenueAndLocationOfGig | backend/fetch-gigs/app.js:185-223 | venue and location are the parse of the place name when the event has a named place, and are both "TBD" otherwise |
| EventNormalizer.ContainedAllAt | backend/fetch-gigs/app.js:105-134 | the loop keeps one record per item, at the item's index: the transformed one, or the fallback when the transformation threw; a failure replaces only its own record |
| EventNormalizer.PauseIndexesExact | backend/fetch-gigs/app.js:113-116 | the 200 ms pause is taken exactly after each successful item other than the last, once, in order |
| EventNormalizer.ProcessEach | backend/fetch-gigs/app.js:101-138 | the loop's results are the contained records of all items, and its pauses those of `PauseIndexesExact` |
| EventNormalizer.ProcessedEvents | backend/fetch-gigs/app.js:101-138 | for events: one record per event, with its id and defaults; the transformed record for a valid start, and the fallback record otherwise |
| JsStrings.Split | backend/fetch-gigs/app.js:171 | `split` on a literal separator gives at least one piece, and more than one exactly when the separator occurs |
| JsStrings.JoinSplit | backend/fetch-gigs/app.js:171 | joining the pieces of a split with the same separator gives the string back |
| JsStrings.TrimOf | backend/fetch-gigs/app.js:189 | `trim` removes exactly the white space around the text |
| JsStrings.Utf16Length | backend/fetch-gigs/app.js:214 | `length` counts UTF-16 code units: between one and two per character |
| PlaceName.SplitOnDashes | backend/fetch-gigs/app.js:193 | the split on white space, a dash or en dash, and white space gives at least one piece, and more than one exactly when the label has a dash |
| PlaceName.SplitOnSpaceRuns | backend/fetch-gigs/app.js:201 | the split on runs of white space gives at least one piece, and more than one exactly when the label has white space |
| PlaceName.FirstSplit | backend/fetch-gigs/app.js:193-211 | a label without dash and white space is all venue, with location "TBD" |
| PlaceName.DashSplit | backend/fetch-gigs/app.js:193-198 | with a dash, the venue is the trimmed text before the first dash and the location the trimmed text up to the next dash; later segments are dropped |
| PlaceName.WordSplit | backend/fetch-gigs/app.js:199-206 | without a dash but with white space, the location is the non-empty last word (the text after the last white space) and the venue the other words joined by single spaces |
| PlaceName.ParseIgnoresSurroundingSpace | backend/fetch-gigs/app.js:189 | white space around the label does not change the parse |
| PlaceName.BlankLabel | backend/fetch-gigs/app.js:187-211 | a label of white space only gives an empty venue and location "TBD" |
| PlaceName.ShortVenueKept | backend/fetch-gigs/app.js:214 | a venue of at most 30 UTF-16 code units, and so any venue of at most 15 characters, is never changed by the post-pass |
| PlaceName.PostPassOn | backend/fetch-gigs/app.js:213-223 | for a venue over 30 code units ending in a word: if the word looks like a city (all upper case, or title case), it becomes the location and the rest the venue; otherwise nothing changes |
| PlaceName.LongVenuePassSplits | backend/fetch-gigs/app.js:213-223 | when the post-pass fires, new venue + " " + new location spells the old venue, the location is one city-like word and the venue gets shorter; otherwise venue and location are left alone |
| PlaceName.LastWordOfSplit | backend/fetch-gigs/app.js:215-220 | splitting `a + " " + w`, where `w` has no space, gives `w` as the last word, and the words before it join back to `a` |
| PlaceName.DashSegments | backend/fetch-gigs/app.js:193-198 | for `p`, a dash, `q` and a rest that is empty or starts at a dash: the venue is `p` trimmed and the location `q` trimmed |
| PlaceNameCases.SpacedDash | backend/fetch-gigs/app.js:193-198 | "Venue - City" gives the venue and the city |
| PlaceNameCases.HyphenInsideWord | backend/fetch-gigs/app.js:193-198 | a hyphen inside a word splits there: "A-B" gives venue "A", location "B" |
| PlaceNameCases.ThirdSegmentDropped | backend/fetch-gigs/app.js:193-198 | "A - B - C" gives venue "A", location "B" |
| PlaceNameCases.TrailingDash | backend/fetch-gigs/app.js:193-198 | "Venue -" gives an empty location |
| PlaceNameCases.WordLabel | backend/fetch-gigs/app.js:199-206 | "VENUE WORDS CITY" with single spaces and no dash gives the words before the last as venue and the last word as location |
| CivilDates.TwoDigits | backend/fetch-gigs/app.js:166-171 | a `'2-digit'` field is two decimal digits |
| CivilDates.FourDigits | backend/fetch-gigs/app.js:166-171 | a four-digit year is four decimal digits |
| CivilDates.TwoDigitsValue | backend/fetch-gigs/app.js:295-296 | reading back a `'2-digit'` field gives its number |
| CivilDates.FourDigitsValue | backend/fetch-gigs/app.js:295-296 | reading back a four-digit year gives the year |
| CivilDates.DisplayDateLayout | backend/fetch-gigs/app.js:166-171 | the date text is ten characters, `DD-MM-YYYY` |
| CivilDates.DisplayDateInjective | backend/fetch-gigs/app.js:166-171 | different days are written differently |
| CivilDates.SortDateStringOfDisplayDate | backend/fetch-gigs/app.js:295-296 | `split('-').reverse().join('-')` turns the date text into `YYYY-MM-DD` |
| CivilDates.ParseIsoDate | backend/fetch-gigs/app.js:295-296 | on the strings the comparator receives (a reversed written date, or "TBD"), `new Date` gives a valid day only for a ten-character `YYYY-MM-DD` string |
| CivilDates.ParseIsoLayout | backend/fetch-gigs/app.js:295-296 | `YYYY-MM-DD` of a day reads back as that day |
| CivilDates.SortKeyReadsDisplayDate | backend/fetch-gigs/app.js:295-296 | the comparator reads a written date back as exactly the day that was written |
| CivilDates.DayNumberOrdersDays | backend/fetch-gigs/app.js:294-298 | comparing the comparator's day values compares days in calendar order, and equal values mean the same day |
| DateSort.InsertKeepsSorted | backend/fetch-gigs/app.js:294-298 | inserting into a sorted sequence keeps it sorted |
| DateSort.InsertIsPermutation | backend/fetch-gigs/app.js:294-298 | inserting adds exactly the new element |
| DateSort.InsertIsStable | backend/fetch-gigs/app.js:294-298 | inserting places the new element after every element with an equal key |
| DateSort.InsertionSortedIsSorted | backend/fetch-gigs/app.js:294-298 | the reference sort is ascending by key |
| DateSort.InsertionSortedIsPermutation | backend/fetch-gigs/app.js:294-298 | the reference sort loses and adds nothing |
| DateSort.InsertionSortedIsStable | backend/fetch-gigs/app.js:294-298 | elements with equal keys keep their input order |
| DateSort.SortedWithSameKeyClassesAreEqual | backend/fetch-gigs/app.js:294-298 | two ascending sequences with the same elements of each key, in the same order, are equal |
| DateSort.StableSortIsInsertionSorted | backend/fetch-gigs/app.js:294-298 | any stable ascending ordering, such as `Array.prototype.sort` produces, is the reference sort, so the answer's order is determined |
| DateSort.ShiftIntoPlace | backend/fetch-gigs/app.js:294-298 | one step of the in-place sort inserts `a[i]` into the sorted prefix and leaves the rest of the array alone |
| DateSort.SortInPlace | backend/fetch-gigs/app.js:294-298 | sorting the array in place leaves the reference sort of its old contents |
| FeedHandler.StatusCode | backend/fetch-gigs/app.js:299-309 | the status is 500 exactly for a failure, and 200 otherwise |
| FeedHandler.UpcomingEventsExact | backend/fetch-gigs/app.js:283-286 | the filter keeps exactly the events with a valid start after now and a non-empty name |
| FeedHandler.UpcomingEventsAppend | backend/fetch-gigs/app.js:283-286 | the filter keeps the events' order: filtering a concatenation filters each part |
| FeedHandler.UpcomingEventsOne | backend/fetch-gigs/app.js:283-286 | a single event is kept exactly when it is upcoming |
| FeedHandler.UpcomingEventsCounts | backend/fetch-gigs/app.js:283-286 | the filter keeps every copy of an upcoming event and no copy of any other |
| FeedHandler.Handle | backend/fetch-gigs/app.js:254-311 | the handler's answer follows the order of its checks: preflight, configuration, token, request, parse, API error, missing `data`, then success with the sorted records and their count; the token cache is consulted only past the configuration check, and stays well formed |
| FeedHandler.SuccessExactly | backend/fetch-gigs/app.js:263-303 | the answer is a success exactly when it is not a preflight, both settings are set, a token is obtained and the Graph API answers with `data` and no `error`; then it holds the feed's records and their number |
| FeedHandler.GigDateReadable | backend/fetch-gigs/app.js:163-171 | an event with a valid start gets a record whose date the comparator reads as the event's London day |
| FeedHandler.UpcomingGigs | backend/fetch-gigs/app.js:283-291 | no upcoming event is replaced by the fallback record: each gets its transformed record, with a readable date |
| FeedHandler.OrderedByDay | backend/fetch-gigs/app.js:294-298 | the sort of records with readable dates loses and adds none, orders them by day and keeps records of the same day in their previous order |
| FeedHandler.FeedContents | backend/fetch-gigs/app.js:282-298 | the records sent are one per upcoming named event, each the event's transformed record with a readable date, ascending by day, with same-day records in feed order |
| GigCard.ImageSrc | frontend/src/components/GigCard.tsx:10-18 | a non-empty cover image is shown as it is; with no cover image, or an empty one, the default image is shown; the source is never empty |
| GigCard.VenueText | frontend/src/components/GigCard.tsx:21-39 | a venue that is set and not "TBD" is shown as it is; otherwise, with no " - " and no "at " in the title, "Venue TBA" is shown |
| GigCard.LocationText | frontend/src/components/GigCard.tsx:42-60 | a location that is set and not "TBD" is shown as it is; otherwise "Location TBA" is shown when the title has no " - ", or when its second " - " segment is a single word (holds no space) |
| GigCard.PostcodeText | frontend/src/components/GigCard.tsx:63-65 | the postcode text is empty exactly when the postcode is empty or "TBD", and is the postcode otherwise |
| GigCard.TimeText | frontend/src/components/GigCard.tsx:68-70 | the time text is never empty: the start time when it is set, "Time TBA" otherwise |
| GigCard.DateText | frontend/src/components/GigCard.tsx:73-75 | the date text is never empty: the date when it is set, "Date TBA" otherwise |
| GigCard.VenueFromTitleSegment | frontend/src/components/GigCard.tsx:27-31 | for a placeholder venue and a title `a - b`, perhaps followed by more ` - ` segments, where `a` and `b` are whole segments (no ` - ` inside them; hyphens elsewhere allowed), the venue shown is `b` trimmed |
| GigCard.VenueAfterAt | frontend/src/components/GigCard.tsx:32-35 | for a placeholder venue and a title without ` - `, the venue shown is the trimmed text after the first "at " |
| GigCard.LocationFromTitleSegment | frontend/src/components/GigCard.tsx:48-56 | for a placeholder location and a title `a - b w`, perhaps followed by more ` - ` segments, where `a` and `b w` are whole segments and `w` has no space, the location shown is `w` |
| GigCard.SingleWordSegmentShowsTba | frontend/src/components/GigCard.tsx:48-59 | for a placeholder location and a title whose second ` - ` segment has no space, "Location TBA" is shown |
| GigCard.TitleLocationIsOneWord | frontend/src/components/GigCard.tsx:42-60 | a location read from the title has no space in it |
| GigCard.MapsQueryFolds | frontend/src/components/GigCard.tsx:91-100 | the three appends fold the shown parts in order, separating a part from a non-empty query by ", " |
| GigCard.MapsQueryJoinsParts | frontend/src/components/GigCard.tsx:85-107 | the search query joins with ", " the shown venue, location and postcode, starting at the first non-empty one; there is no link exactly when all of them are empty |
| GigCard.HiddenLocationSearchesPostcode | frontend/src/components/GigCard.tsx:78-107 | when the location line is hidden, the map link searches the postcode alone, or there is none |
| GigCarousel.ReadableDateIsShown | frontend/src/components/GigCard.tsx:73-75 | a record whose date the comparator can read shows that date |
| GigCarousel.DisplayedGigs | frontend/src/components/GigCarousel.tsx:39 | the carousel shows the first ten records, or all of them when there are fewer; a missing list shows nothing |
| GigCarousel.CarouselSettingsFor | frontend/src/components/GigCarousel.tsx:55-127 | speed 500, swipe on, first slide 0; dots exactly from two records; looping exactly from four; slide counts set exactly from one record, between 1 and min(3, n), scrolling one; breakpoints exactly from two records, none showing more than the base |
| GigCarousel.SettingsByCount | frontend/src/components/GigCarousel.tsx:55-126 | the settings for 0, 1, 2 and at least 3 records, case by case, with the 1920, 1280 and 640 pixel breakpoints |
| GigCarousel.BreakpointsNarrowing | frontend/src/components/GigCarousel.tsx:97-125 | breakpoints go from the widest down, and a narrower screen never shows more slides |
| GigCarousel.CarouselOfFeed | frontend/src/components/GigCarousel.tsx:36-40 | of a successful feed, the carousel shows the first min(10, upcoming) records in ascending order of day, each card showing its record's date |

## Left out

- The Graph API request, the parameter store, the postcodes.io request and JSON parsing are I/O. Their answers are parameters (`GraphReply`, `SecretOutcome`, `Geocoder`), and the URLs built at app.js:75 and 273-276 are not modelled.
- The five-second `Promise.race` timeout of the postcode lookup is a `TimedOut` reply. The 200 ms pause between events is recorded as the index of the event it follows. Neither timing is modelled.
- Time-zone formatting (`toLocaleDateString` and `toLocaleTimeString` in Europe/London) is a parameter of `Env`: a day and a time text for each instant. The rewrite of the date's slashes to dashes is modelled.
- `parseFacebookTime` is only a valid start instant or none. Date strings that are not Graph API timestamps, and years outside 1000-9999, are not modelled.
- The filter calls `new Date()` once per event. The model uses a single `now` for the whole filter.
- `FeedHandler.DateKey`: gives 0 for a date the comparator cannot read. This never reaches the sort, because every record sent has a readable date (`FeedHandler.FeedContents`).
- The CORS headers, the JSON body text and its constant `error: 'Failed to fetch gigs'` field are not modelled. The response keeps the success data and total, or the failure message.
- Logging (`console.log`) is left out.
- On the front end, React state, `fetch`, mock data, `window.open` and `encodeURIComponent` are left out. `GigCard.MapsSearch` gives the unencoded search query.
- Case mapping covers ASCII letters only; `toUpperCase` and `toLowerCase` on other letters are not modelled.
- A missing optional string field and an empty one are the same value (""). JavaScript's `||` treats both alike in every use this code makes of them.
- Nothing guarantees that a gig's venue and location are non-empty: "Venue -" gives an empty location (`PlaceNameCases.TrailingDash`).
- CivilDates.ParseIsoDate: models `new Date` only on the strings the comparator can receive. JavaScript's fallback parser also accepts layouts such as "2025-7-26" or "2025/07/26", and rolls an impossible day such as "2025-02-30" over into the next month. The model treats all of these as invalid. No such string reaches the sort, because every record sent has a written date (`FeedHandler.FeedContents`).
- The `Geocoder` in `Env` is a function of the coordinates. Two lookups for the same coordinates therefore always get the same reply in the model, which a real network does not promise.
