/**
  The carousel of upcoming gigs (frontend/src/components/GigCarousel.tsx):
  the truncation of the feed to ten records (line 39) and the slider settings
  chosen from the number of records shown (lines 55-127).
 */
module GigCarousel {
  import opened Wrappers
  import opened JsStrings
  import opened CivilDates
  import opened Records
  import opened EventNormalizer
  import opened FeedHandler
  import opened GigCard

  /** The most records the carousel shows. */
  const MaxShown := 10

  /** The settings a breakpoint overrides; `None` leaves a field unset. */
  datatype SlideSettings = SlideSettings(
    slidesToShow: int, slidesToScroll: int, infinite: Option<bool>, dots: Option<bool>)

  /** A responsive breakpoint: the settings used below `width` pixels. */
  datatype Breakpoint = Breakpoint(width: int, settings: SlideSettings)

  /** The settings object handed to the slider. */
  datatype CarouselSettings = CarouselSettings(
    dots: bool, infinite: bool, speed: int, swipeToSlide: bool, initialSlide: int,
    slidesToShow: Option<int>, slidesToScroll: Option<int>, responsive: Option<seq<Breakpoint>>)

  function Min(a: int, b: int): int {
    if a <= b then a else b
  }

  /** `(data.data || []).slice(0, 10)`: the first ten records, or all of them
      when there are fewer; a missing list shows nothing. */
  function DisplayedGigs(data: Option<seq<Gig>>): (shown: seq<Gig>)
    ensures data.None? ==> shown == []
    ensures data.Some? ==> |shown| == Min(MaxShown, |data.value|) && shown == data.value[..|shown|]
  {
    match data
    case None => []
    case Some(gigs) => if |gigs| <= MaxShown then gigs else gigs[..MaxShown]
  }

  /** `getCarouselSettings` for `n` records. */
  function CarouselSettingsFor(n: nat): (s: CarouselSettings)
    ensures s.speed == 500 && s.swipeToSlide && s.initialSlide == 0
    ensures s.dots <==> n >= 2
    ensures s.infinite <==> n > 3
    ensures s.slidesToShow.None? <==> n == 0
    ensures s.slidesToScroll.None? <==> n == 0
    ensures s.responsive.Some? <==> n >= 2
    ensures n >= 1 ==> 1 <= s.slidesToShow.value <= Min(3, n) && s.slidesToScroll.value == 1
    ensures s.responsive.Some? ==>
              forall b :: b in s.responsive.value ==>
                1 <= b.settings.slidesToShow <= s.slidesToShow.value && b.settings.slidesToScroll == 1
  {
    var base := CarouselSettings(n > 1, n > 3, 500, true, 0, None, None, None);
    if n == 0 then base
    else if n == 1 then base.(slidesToShow := Some(1), slidesToScroll := Some(1), dots := false, infinite := false)
    else if n == 2 then
      base.(slidesToShow := Some(2), slidesToScroll := Some(1), infinite := false,
            responsive := Some([Breakpoint(640, SlideSettings(1, 1, None, None))]))
    else
      base.(slidesToShow := Some(Min(3, n)), slidesToScroll := Some(1),
            responsive := Some([
              Breakpoint(1920, SlideSettings(Min(3, n), 1, Some(n > 3), Some(true))),
              Breakpoint(1280, SlideSettings(Min(2, n), 1, None, None)),
              Breakpoint(640, SlideSettings(1, 1, None, None))]))
  }

  /** The settings case by case: none of the slide counts for no record, one
      static slide for one, two slides narrowing to one below 640 pixels for
      two, and for three or more up to three slides, narrowing to two below
      1280 pixels and to one below 640. */
  lemma SettingsByCount(n: nat)
    ensures var s := CarouselSettingsFor(n);
            && (n == 0 ==> s.slidesToShow.None? && !s.dots && !s.infinite && s.responsive.None?)
            && (n == 1 ==> s.slidesToShow == Some(1) && !s.dots && !s.infinite && s.responsive.None?)
            && (n == 2 ==> s.slidesToShow == Some(2) && s.dots && !s.infinite
                             && s.responsive == Some([Breakpoint(640, SlideSettings(1, 1, None, None))]))
            && (n >= 3 ==> s.slidesToShow == Some(3) && s.dots && (s.infinite <==> n > 3)
                             && |s.responsive.value| == 3
                             && s.responsive.value[0] == Breakpoint(1920, SlideSettings(3, 1, Some(n > 3), Some(true)))
                             && s.responsive.value[1].settings.slidesToShow == 2
                             && s.responsive.value[2].settings.slidesToShow == 1)
  {
  }

  /** The breakpoints are listed from the widest down, and a narrower screen
      never shows more slides than a wider one. */
  lemma BreakpointsNarrowing(n: nat)
    ensures var s := CarouselSettingsFor(n);
            s.responsive.Some? ==>
              var bs := s.responsive.value;
              forall i, j :: 0 <= i < j < |bs| ==>
                bs[j].width < bs[i].width && bs[j].settings.slidesToShow <= bs[i].settings.slidesToShow
  {
  }

  /** A record whose date reads as a day has a non-empty date, so its card
      shows that date rather than "Date TBA". */
  lemma ReadableDateIsShown(g: Gig)
    ensures DateOf(g).Some? ==> DateText(g) == g.date
  {
    if g.date == "" {
      assert IndexOf(g.date, "-", 0).None?;
      assert Split(g.date, "-") == [""];
      assert Reverse([""]) == [""];
    }
  }

  /** Every record's date reads as a day, and the days never go backwards. */
  predicate ReadableInDayOrder(data: seq<Gig>) {
    && (forall g :: g in data ==> DateOf(g).Some?)
    && (forall i, j :: 0 <= i < j < |data| ==> !Before(DateOf(data[j]).value, DateOf(data[i]).value))
  }

  /** What the carousel shows of a successful response: the first ten of the
      sent records (all of them when there are fewer), in ascending order of
      day, each card showing the record's written date. */
  lemma CarouselOfFeed(events: seq<RawEvent>, now: int, env: Env, enabled: bool)
    ensures var data := FeedGigs(events, now, env, enabled);
            var shown := DisplayedGigs(Some(data));
            && |shown| == Min(MaxShown, |UpcomingEvents(events, now)|)
            && shown == data[..|shown|]
            && ReadableInDayOrder(shown)
            && (forall g :: g in shown ==> DateText(g) == g.date)
  {
    var data := FeedGigs(events, now, env, enabled);
    assert |data| == |UpcomingEvents(events, now)| && ReadableInDayOrder(data) by {
      FeedContents(events, now, env, enabled);
    }
    ShownOfOrdered(data);
  }

  /** The first ten of a list of records with readable dates in ascending
      order of day keep both properties, and each card shows its date. */
  lemma ShownOfOrdered(data: seq<Gig>)
    requires ReadableInDayOrder(data)
    ensures var shown := DisplayedGigs(Some(data));
            ReadableInDayOrder(shown) && forall g :: g in shown ==> DateText(g) == g.date
  {
    var shown := DisplayedGigs(Some(data));
    forall g | g in shown
      ensures DateOf(g).Some? && DateText(g) == g.date
    {
      var i :| 0 <= i < |shown| && shown[i] == g;
      assert g in data by { assert data[i] == g; }
      ReadableDateIsShown(g);
    }
  }
}
