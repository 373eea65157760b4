/**
 * The tide-event pipeline of `fetchTides` and `render`: the request window
 * (app.js:351-366), ingestion of NOAA predictions (app.js:388-399), the
 * active day (app.js:412-413), highest and lowest (app.js:418-419), the next
 * tide (app.js:424-438) and the five-day forecast (app.js:498-531).
 * "Now" and "today" are parameters.
 */
module Tides {
  import opened Common
  import opened Text
  import opened Dates
  import opened Stations

  /** One record of NOAA's `predictions`: `t`, `Number(v)` and `type`. */
  datatype Prediction = Prediction(t: string, v: Num, kind: string)

  /** An event as the widget keeps it. */
  datatype TideEvent = TideEvent(datetime: string, height: real, kind: string, dayKey: string)

  /** `t.slice(0, 10)`: the first ten characters, or all of a shorter `t`. */
  function DayKey(t: string): (k: string)
    ensures |k| <= 10 && |k| <= |t| && k == t[..|k|]
    ensures |k| == 10 || k == t
  {
    if |t| <= 10 then t else t[..10]
  }

  /** A NOAA time's day key is the `full-date` of the instant it names in UTC. */
  lemma DayKeyIsUtcDate(t: string)
    requires IsNoaaDateTime(t)
    ensures IsFullDate(DayKey(t))
    ensures DayKey(t) == ToIsoUtc(t)[..10]
  {
    ToIsoUtcOfNoaa(t);
  }

  function ToEvent(p: Prediction): TideEvent
    requires p.v.IsFinite()
  {
    TideEvent(p.t, p.v.value, p.kind, DayKey(p.t))
  }

  /**
   * `predictions.map(...).filter((item) => Number.isFinite(item.height))`:
   * the predictions with a finite height, in order, as events.
   */
  function Ingest(preds: seq<Prediction>): (events: seq<TideEvent>)
    ensures |events| <= |preds|
    ensures forall e :: e in events ==> e.dayKey == DayKey(e.datetime)
  {
    if preds == [] then []
    else (if preds[0].v.IsFinite() then [ToEvent(preds[0])] else []) + Ingest(preds[1..])
  }

  /** A single prediction gives its event exactly when its height is finite. */
  lemma IngestOne(p: Prediction)
    ensures Ingest([p]) == if p.v.IsFinite() then [ToEvent(p)] else []
  {
    assert [p][1..] == [];
  }

  /** Ingesting a concatenation ingests each part: order is kept and nothing else is dropped. */
  lemma {:induction false} IngestAppend(a: seq<Prediction>, b: seq<Prediction>)
    ensures Ingest(a + b) == Ingest(a) + Ingest(b)
  {
    if a == [] {
      assert a + b == b;
    } else {
      var head := if a[0].v.IsFinite() then [ToEvent(a[0])] else [];
      assert (a + b)[0] == a[0] && (a + b)[1..] == a[1..] + b;
      assert Ingest(a + b) == head + Ingest(a[1..] + b);
      IngestAppend(a[1..], b);
    }
  }

  /** No event survives exactly when no height is finite. */
  lemma {:induction false} IngestEmptyIff(preds: seq<Prediction>)
    ensures Ingest(preds) == [] <==> forall i :: 0 <= i < |preds| ==> !preds[i].v.IsFinite()
  {
    if preds != [] {
      IngestEmptyIff(preds[1..]);
      assert forall i :: 1 <= i < |preds| ==> preds[1..][i - 1] == preds[i];
    }
  }

  // ---------------------------------------------------------------------
  // The request

  /** Why `fetchTides` shows no fresh tides. */
  datatype FetchError =
    | NoStation     // "Choose a station first."
    | NoDate        // "Please choose a date."
    | InvalidDate   // `addDaysYmd` threw before the request was made
    | FeedFailed    // the request failed, or NOAA answered with an error
    | NoEvents      // "No tide events were returned ..."

  /** The parameters of the NOAA request that vary; the rest are constants. */
  datatype Request = Request(station: string, beginDate: string, endDate: string)

  /** The checks and the five-day window of `fetchTides` before its request. */
  function PrepareRequest(stationId: string, picked: string): (r: Result<Request, FetchError>)
    ensures stationId == [] ==> r == Err(NoStation)
    ensures stationId != [] && picked == [] ==> r == Err(NoDate)
    ensures r.Ok? ==> r.value.station == stationId
    ensures r.Ok? ==> AddDaysYmd(picked, 4).Some?
    ensures r.Err? && stationId != [] && picked != [] ==> r.error == InvalidDate && AddDaysYmd(picked, 4).None?
  {
    if stationId == [] then Err(NoStation)
    else if picked == [] then Err(NoDate)
    else match AddDaysYmd(picked, 4)
      case None => Err(InvalidDate)
      case Some(endDay) => Ok(Request(stationId, FormatDateYmd(picked), FormatDateYmd(endDay)))
  }

  /**
   * For a station and a full date, the request runs from the picked date to
   * the date four days later, both written as `YYYYMMDD`.
   */
  lemma RequestWindow(stationId: string, picked: string)
    requires stationId != [] && IsFullDate(picked) && DateOf(picked).year >= 100
    ensures var last := AddCivil(DateOf(picked), 4);
      PrepareRequest(stationId, picked)
      == Ok(Request(stationId, picked[..4] + picked[5..7] + picked[8..], FormatDateYmd(IsoDate(last))))
  {
    AddDaysYmdNear(picked, 4);
    FormatDateYmdOfFullDate(picked);
  }

  /** The events of a feed, or the error thrown when none has a finite height. */
  function LoadEvents(preds: seq<Prediction>): (r: Result<seq<TideEvent>, FetchError>)
    ensures r.Ok? <==> exists i :: 0 <= i < |preds| && preds[i].v.IsFinite()
    ensures r.Ok? ==> r.value == Ingest(preds) && r.value != []
    ensures r.Err? ==> r.error == NoEvents
  {
    IngestEmptyIff(preds);
    var events := Ingest(preds);
    if events == [] then Err(NoEvents) else Ok(events)
  }

  // ---------------------------------------------------------------------
  // Selections in `render`

  /** `events.filter((event) => event.dayKey === day)`. */
  function DayEvents(events: seq<TideEvent>, day: string): (r: seq<TideEvent>)
    ensures |r| <= |events|
    ensures forall e :: e in r <==> e in events && e.dayKey == day
  {
    if events == [] then []
    else (if events[0].dayKey == day then [events[0]] else []) + DayEvents(events[1..], day)
  }

  /** Filtering a concatenation filters each part, so order and repeats are kept. */
  lemma {:induction false} DayEventsAppend(a: seq<TideEvent>, b: seq<TideEvent>, day: string)
    ensures DayEvents(a + b, day) == DayEvents(a, day) + DayEvents(b, day)
  {
    if a == [] {
      assert a + b == b;
    } else {
      assert (a + b)[1..] == a[1..] + b;
      DayEventsAppend(a[1..], b, day);
    }
  }

  /** The events shown: the picked day's when it has any, otherwise every event. */
  function ActiveEvents(events: seq<TideEvent>, picked: string): (r: seq<TideEvent>)
    ensures DayEvents(events, picked) != [] ==> r == DayEvents(events, picked)
    ensures DayEvents(events, picked) == [] ==> r == events
    ensures events != [] ==> r != []
    ensures forall e :: e in r ==> e in events
  {
    var focus := DayEvents(events, picked);
    if focus != [] then focus else events
  }

  /**
   * The position `events.reduce((a, b) => (a.height > b.height ? a : b))`
   * ends at: a highest event, and of equal heights the last one, since the
   * strict comparison hands ties to `b`.
   */
  function HighestAt(events: seq<TideEvent>): (k: nat)
    requires events != []
    ensures k < |events|
    ensures forall j :: 0 <= j < |events| ==> events[j].height <= events[k].height
    ensures forall j :: k < j < |events| ==> events[j].height < events[k].height
  {
    if |events| == 1 then 0
    else
      var a := HighestAt(events[..|events| - 1]);
      var b := |events| - 1;
      assert forall j :: 0 <= j < b ==> events[..b][j] == events[j];
      if events[a].height > events[b].height then a else b
  }

  /** The same for `(a.height < b.height ? a : b)`: a lowest event, the last of equals. */
  function LowestAt(events: seq<TideEvent>): (k: nat)
    requires events != []
    ensures k < |events|
    ensures forall j :: 0 <= j < |events| ==> events[k].height <= events[j].height
    ensures forall j :: k < j < |events| ==> events[k].height < events[j].height
  {
    if |events| == 1 then 0
    else
      var a := LowestAt(events[..|events| - 1]);
      var b := |events| - 1;
      assert forall j :: 0 <= j < b ==> events[..b][j] == events[j];
      if events[a].height < events[b].height then a else b
  }

  /** `events.reduce((a, b) => (a.height > b.height ? a : b))`: a highest event, the last of equal highs. */
  function Highest(events: seq<TideEvent>): (r: TideEvent)
    requires events != []
    ensures r in events
    ensures forall j :: 0 <= j < |events| ==> events[j].height <= r.height
  {
    events[HighestAt(events)]
  }

  /** `events.reduce((a, b) => (a.height < b.height ? a : b))`: a lowest event, the last of equal lows. */
  function Lowest(events: seq<TideEvent>): (r: TideEvent)
    requires events != []
    ensures r in events
    ensures forall j :: 0 <= j < |events| ==> r.height <= events[j].height
  {
    events[LowestAt(events)]
  }

  /** The two readings are pinned down by their contracts: any other index with those properties is the same. */
  lemma HighestIsUnique(events: seq<TideEvent>, k: nat)
    requires k < |events|
    requires forall j :: 0 <= j < |events| ==> events[j].height <= events[k].height
    requires forall j :: k < j < |events| ==> events[j].height < events[k].height
    ensures HighestAt(events) == k
  {
    var h := HighestAt(events);
    assert events[h].height == events[k].height;
  }

  lemma LowestIsUnique(events: seq<TideEvent>, k: nat)
    requires k < |events|
    requires forall j :: 0 <= j < |events| ==> events[k].height <= events[j].height
    requires forall j :: k < j < |events| ==> events[k].height < events[j].height
    ensures LowestAt(events) == k
  {
    var l := LowestAt(events);
    assert events[l].height == events[k].height;
  }

  function Ev(datetime: string, height: real, kind: string): TideEvent {
    TideEvent(datetime, height, kind, DayKey(datetime))
  }

  /**
   * Two equal highs and two equal lows: the reducers return the second of
   * each, not the first.
   */
  lemma TiesGoToTheLaterEvent()
    ensures var events := [Ev("2024-05-01 03:00", 1.5, "L"), Ev("2024-05-01 09:00", 5.0, "H"),
                           Ev("2024-05-01 15:00", 1.5, "L"), Ev("2024-05-01 21:00", 5.0, "H")];
      HighestAt(events) == 3 && LowestAt(events) == 2
  {
    var events := [Ev("2024-05-01 03:00", 1.5, "L"), Ev("2024-05-01 09:00", 5.0, "H"),
                   Ev("2024-05-01 15:00", 1.5, "L"), Ev("2024-05-01 21:00", 5.0, "H")];
    HighestIsUnique(events, 3);
    LowestIsUnique(events, 2);
  }

  // ---------------------------------------------------------------------
  // The next tide

  /** `new Date(toIsoUtc(event.datetime)) > now`, false for an invalid date. */
  predicate IsAfter(e: TideEvent, nowMs: int) {
    var instant := InstantOf(ToIsoUtc(e.datetime));
    instant.Some? && instant.value > nowMs
  }

  /**
   * On a NOAA time the comparison is never cut short by an invalid date: an
   * event is after now exactly when the UTC minute it names is.
   */
  lemma IsAfterOfNoaa(e: TideEvent, nowMs: int)
    requires IsNoaaDateTime(e.datetime)
    ensures IsAfter(e, nowMs) <==> NoaaInstant(e.datetime) > nowMs
  {
    InstantOfNoaa(e.datetime);
  }

  /** The position of the first event strictly after now, as `events.find` looks for it. */
  function FirstAfter(events: seq<TideEvent>, nowMs: int): (k: Option<nat>)
    ensures k.Some? ==> k.value < |events| && IsAfter(events[k.value], nowMs)
    ensures k.Some? ==> forall j :: 0 <= j < k.value ==> !IsAfter(events[j], nowMs)
    ensures k.None? <==> forall j :: 0 <= j < |events| ==> !IsAfter(events[j], nowMs)
  {
    FirstMatch(events, (e: TideEvent) => IsAfter(e, nowMs))
  }

  /**
   * The event shown as next: on today's date, the first event of the whole
   * window strictly after now, or the first active event when none is;
   * on any other date, the first active event.
   */
  function Upcoming(events: seq<TideEvent>, active: seq<TideEvent>, picked: string, today: string, nowMs: int): (u: TideEvent)
    requires active != []
    ensures picked != today ==> u == active[0]
    ensures picked == today && FirstAfter(events, nowMs).Some? ==> u == events[FirstAfter(events, nowMs).value]
    ensures picked == today && FirstAfter(events, nowMs).None? ==> u == active[0]
  {
    if picked == today then
      match FirstAfter(events, nowMs)
      case Some(k) => events[k]
      case None => active[0]
    else active[0]
  }

  /** `classify`: "High" exactly for the type "H", "Low" for every other type. */
  function Classify(kind: string): (text: string)
    ensures text == "High" <==> kind == "H"
    ensures text == "Low" <==> kind != "H"
  {
    if kind == "H" then "High" else "Low"
  }

  // ---------------------------------------------------------------------
  // The five-day forecast

  /** One forecast card: "No prediction data" and "0 Events", or a day's high, low and count. */
  datatype DayCard =
    | NoData(day: string)
    | Summary(day: string, high: TideEvent, low: TideEvent, count: nat)

  /** The card of one day. */
  function CardFor(events: seq<TideEvent>, day: string): (c: DayCard)
    ensures c.day == day
  {
    var dayEvents := DayEvents(events, day);
    if dayEvents == [] then NoData(day)
    else Summary(day, Highest(dayEvents), Lowest(dayEvents), |dayEvents|)
  }

  /**
   * A day without events gets the "No prediction data" card; any other day
   * gets its event count and a high and a low taken from that day, which
   * bound the heights of all its events.
   */
  lemma CardForSpec(events: seq<TideEvent>, day: string)
    ensures var c := CardFor(events, day);
      && (c.NoData? <==> forall e :: e in events ==> e.dayKey != day)
      && (c.Summary? ==>
        && c.count == |DayEvents(events, day)|
        && c.high in events && c.high.dayKey == day
        && c.low in events && c.low.dayKey == day
        && (forall e :: e in events && e.dayKey == day ==> c.low.height <= e.height <= c.high.height))
  {
    var dayEvents := DayEvents(events, day);
    if dayEvents != [] {
      assert dayEvents[0] in dayEvents;
      assert Highest(dayEvents) in dayEvents && Lowest(dayEvents) in dayEvents;
      forall e | e in events && e.dayKey == day
        ensures Lowest(dayEvents).height <= e.height <= Highest(dayEvents).height
      {
        assert e in dayEvents;
      }
    }
  }

  /** When the last of the five days can be computed, so can every day before it. */
  lemma ForecastDaysDefined(picked: string, i: int)
    requires AddDaysYmd(picked, 4).Some? && 0 <= i <= 4
    ensures AddDaysYmd(picked, i).Some?
  {
    var fields := ParseYmd(picked).value;
    AddDaysYmdFrom(picked, 4, fields.0, fields.1, fields.2);
    AddDaysYmdFrom(picked, i, fields.0, fields.1, fields.2);
  }

  /** The five days of the forecast: day `i` is `addDaysYmd(picked, i)`. */
  function ForecastDates(picked: string): (days: seq<string>)
    requires AddDaysYmd(picked, 4).Some?
    ensures |days| == 5
  {
    seq(5, i requires 0 <= i < 5 => ForecastDaysDefined(picked, i); AddDaysYmd(picked, i).value)
  }

  /** Day `i` of the forecast is the date `i` days after the picked one. */
  lemma ForecastDateAt(picked: string, i: nat)
    requires AddDaysYmd(picked, 4).Some? && i < 5
    ensures AddDaysYmd(picked, i).Some? && ForecastDates(picked)[i] == AddDaysYmd(picked, i).value
  {
    ForecastDaysDefined(picked, i);
  }

  /** The five cards `renderForecast` draws, one for each day of the forecast in turn. */
  function Forecast(events: seq<TideEvent>, picked: string): (cards: seq<DayCard>)
    requires AddDaysYmd(picked, 4).Some?
    ensures |cards| == 5
  {
    var days := ForecastDates(picked);
    seq(5, i requires 0 <= i < 5 => CardFor(events, days[i]))
  }

  /** Card `i` describes the day `addDaysYmd(picked, i)`. */
  lemma ForecastCards(events: seq<TideEvent>, picked: string, i: nat)
    requires AddDaysYmd(picked, 4).Some? && i < 5
    ensures AddDaysYmd(picked, i).Some?
    ensures Forecast(events, picked)[i] == CardFor(events, AddDaysYmd(picked, i).value)
  {
    ForecastDateAt(picked, i);
  }

  /**
   * `renderForecast`: one card for each of the five days starting at the
   * picked date.
   */
  method RenderForecast(events: seq<TideEvent>, picked: string) returns (cards: seq<DayCard>)
    requires AddDaysYmd(picked, 4).Some?
    ensures cards == Forecast(events, picked)
  {
    hide *;
    ghost var all := Forecast(events, picked);
    cards := [];
    for i := 0 to 5
      invariant |cards| == i
      invariant forall j :: 0 <= j < i ==> cards[j] == all[j]
    {
      var card := ForecastCard(events, picked, i);
      cards := cards + [card];
    }
  }

  /**
   * One pass of the loop in `renderForecast`: the card for the date `i` days
   * after the picked one.
   */
  method ForecastCard(events: seq<TideEvent>, picked: string, i: nat) returns (card: DayCard)
    requires AddDaysYmd(picked, 4).Some? && i < 5
    ensures card == Forecast(events, picked)[i]
  {
    ForecastDateAt(picked, i);
    var day := AddDaysYmd(picked, i).value;
    card := CardFor(events, day);
  }

  /** For a full date, the first card is the picked date's and the last the request's end date. */
  lemma ForecastSpansRequest(stationId: string, picked: string)
    requires stationId != [] && IsFullDate(picked) && DateOf(picked).year >= 100
    ensures AddDaysYmd(picked, 0) == Some(picked)
    ensures PrepareRequest(stationId, picked).Ok?
    ensures FormatDateYmd(AddDaysYmd(picked, 4).value) == PrepareRequest(stationId, picked).value.endDate
  {
    AddDaysYmdZero(picked);
    AddDaysYmdNear(picked, 4);
  }

  // ---------------------------------------------------------------------
  // `render`

  /** What `render` puts on the page, apart from formatting. */
  datatype View = View(
    stationLabel: string,
    eventsCount: nat,
    highest: TideEvent,
    lowest: TideEvent,
    nextLabel: string,
    next: TideEvent,
    timeline: seq<TideEvent>,
    forecast: seq<DayCard>)

  /**
   * What `render` shows for the events of a request: the station's label,
   * the active day's count, highest, lowest and timeline, the next tide with
   * its label, and the five forecast cards.
   */
  function ShownView(stations: seq<Station>, events: seq<TideEvent>, stationId: string,
                     picked: string, today: string, nowMs: int): View
    requires events != [] && AddDaysYmd(picked, 4).Some?
  {
    var active := ActiveEvents(events, picked);
    var next := Upcoming(events, active, picked, today, nowMs);
    View(StationLabelById(stations, stationId), |active|, Highest(active), Lowest(active),
         Classify(next.kind), next, active, Forecast(events, picked))
  }

  /** `render(events, stationId, pickedDate)`, with the clock read as `today` and `nowMs`. */
  method Render(stations: seq<Station>, events: seq<TideEvent>, stationId: string, picked: string,
                today: string, nowMs: int) returns (view: View)
    requires events != [] && AddDaysYmd(picked, 4).Some?
    ensures view == ShownView(stations, events, stationId, picked, today, nowMs)
  {
    var active := ActiveEvents(events, picked);
    var upcoming := Upcoming(events, active, picked, today, nowMs);
    var cards := RenderForecast(events, picked);
    view := View(StationLabelById(stations, stationId), |active|, Highest(active), Lowest(active),
                 Classify(upcoming.kind), upcoming, active, cards);
  }

  /**
   * The active events are never empty for a non-empty window, and their
   * highest and lowest are among them and bound all of them.
   */
  lemma ActiveExtremes(events: seq<TideEvent>, picked: string)
    requires events != []
    ensures var active := ActiveEvents(events, picked);
      && active != []
      && Highest(active) in active && Lowest(active) in active
      && forall e :: e in active ==> Lowest(active).height <= e.height <= Highest(active).height
  {
    var active := ActiveEvents(events, picked);
    forall e | e in active ensures Lowest(active).height <= e.height <= Highest(active).height {
      var j :| 0 <= j < |active| && active[j] == e;
    }
  }

  /** The next tide is always one of the window's events. */
  lemma UpcomingIsAnEvent(events: seq<TideEvent>, picked: string, today: string, nowMs: int)
    requires events != []
    ensures Upcoming(events, ActiveEvents(events, picked), picked, today, nowMs) in events
  {
    var active := ActiveEvents(events, picked);
    assert active[0] in active;
  }

  /**
   * A rendered view lists at least one event; its highest and lowest are
   * among the listed events and bound all of them; the next tide is one of
   * the events of the window; and there are five forecast cards.
   */
  lemma ShownFacts(stations: seq<Station>, events: seq<TideEvent>, stationId: string,
                   picked: string, today: string, nowMs: int)
    requires events != [] && AddDaysYmd(picked, 4).Some?
    ensures var view := ShownView(stations, events, stationId, picked, today, nowMs);
      && view.eventsCount == |view.timeline| > 0
      && view.highest in view.timeline && view.lowest in view.timeline
      && (forall e :: e in view.timeline ==> view.lowest.height <= e.height <= view.highest.height)
      && view.next in events
      && view.nextLabel == Classify(view.next.kind)
      && |view.forecast| == 5
  {
    ActiveExtremes(events, picked);
    UpcomingIsAnEvent(events, picked, today, nowMs);
  }

  // ---------------------------------------------------------------------
  // `fetchTides`

  /** How a call of `fetchTides` ends. */
  datatype FetchOutcome =
    | Refused(reason: FetchError)                 // no station or no date: a message, nothing else
    | Threw                                       // `addDaysYmd` threw before the request was made
    | Emptied(request: Request, reason: FetchError)  // the request failed or brought no event: `renderEmpty`
    | Rendered(request: Request, view: View)       // `render` ran on the events of the answer

  /**
   * The outcome `fetchTides` reaches for a station id, a picked date and
   * the answer `feed` to its request (`None` when the request failed or
   * NOAA answered with an error).
   */
  function FetchResult(stations: seq<Station>, stationId: string, picked: string,
                       feed: Option<seq<Prediction>>, today: string, nowMs: int): FetchOutcome
  {
    match PrepareRequest(stationId, picked)
    case Err(e) => if e == InvalidDate then Threw else Refused(e)
    case Ok(request) =>
      if feed.None? then Emptied(request, FeedFailed)
      else match LoadEvents(feed.value)
        case Err(e) => Emptied(request, e)
        case Ok(events) => Rendered(request, ShownView(stations, events, stationId, picked, today, nowMs))
  }

  /** The decisions of `fetchTides`, in its order, with the answer to its request given. */
  method RunFetch(stations: seq<Station>, stationId: string, picked: string, feed: Option<seq<Prediction>>,
                  today: string, nowMs: int) returns (outcome: FetchOutcome)
    ensures outcome == FetchResult(stations, stationId, picked, feed, today, nowMs)
  {
    if stationId == [] {
      return Refused(NoStation);
    }
    if picked == [] {
      return Refused(NoDate);
    }
    var prepared := PrepareRequest(stationId, picked);
    if prepared.Err? {
      return Threw;
    }
    var request := prepared.value;
    if feed.None? {
      return Emptied(request, FeedFailed);
    }
    var loaded := LoadEvents(feed.value);
    if loaded.Err? {
      return Emptied(request, loaded.error);
    }
    var view := Render(stations, loaded.value, stationId, picked, today, nowMs);
    return Rendered(request, view);
  }

  /**
   * `fetchTides` refuses exactly when the station or the date is missing; it
   * throws only on a date it cannot move by four days; it renders only for
   * a station and a valid window whose answer holds an event with a finite
   * height, and then for that station and that window, showing at least one
   * event and five forecast cards; a failed request or one with no usable
   * event empties the page.
   */
  lemma FetchOutcomeFacts(stations: seq<Station>, stationId: string, picked: string,
                          feed: Option<seq<Prediction>>, today: string, nowMs: int)
    ensures var outcome := FetchResult(stations, stationId, picked, feed, today, nowMs);
      && (outcome.Refused? <==> stationId == [] || picked == [])
      && (outcome == Refused(NoStation) <==> stationId == [])
      && (outcome.Threw? <==> stationId != [] && picked != [] && AddDaysYmd(picked, 4).None?)
      && (outcome.Emptied? ==> (outcome.reason == FeedFailed <==> feed.None?))
      && (outcome.Rendered? <==>
            PrepareRequest(stationId, picked).Ok? && feed.Some?
            && exists i :: 0 <= i < |feed.value| && feed.value[i].v.IsFinite())
      && (outcome.Rendered? ==>
            && outcome.request == PrepareRequest(stationId, picked).value
            && outcome.request.station == stationId
            && outcome.view.timeline != [] && |outcome.view.forecast| == 5)
  {
    var outcome := FetchResult(stations, stationId, picked, feed, today, nowMs);
    if outcome.Rendered? {
      var events := LoadEvents(feed.value).value;
      ShownFacts(stations, events, stationId, picked, today, nowMs);
    }
  }
}
