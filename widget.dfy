/**
 * The page's lasting state and the steps that change it: the station list
 * `stations` (app.js:36, 597-605), the picker filled by
 * `populateStationSelect` (app.js:91-129), the map markers of
 * `renderStationMarkers` (app.js:38, 162-191), the shortcut list of
 * `renderSantaMonicaButtons` (app.js:242-265), the choice of
 * `selectInitialStation` (app.js:267-280), `fetchTides` (app.js:347-409)
 * and `bootstrap` (app.js:590-612). Of the browser, only what these steps
 * read and write is kept; the two NOAA answers, the clock and the distances
 * from Santa Monica are parameters.
 */
module Widget {
  import opened Common
  import opened Text
  import opened Sorting
  import opened Stations
  import opened Ranking
  import opened Tides

  /** The stations used when the NOAA catalog cannot be loaded. */
  function FallbackStations(): seq<Station> {
    [ Station("9410840", "Santa Monica, CA", "CA", 34.008, -118.5),
      Station("9410660", "Los Angeles, CA", "CA", 33.72, -118.273),
      Station("9411340", "Port Hueneme, CA", "CA", 34.147, -119.195),
      Station("9410230", "La Jolla, CA", "CA", 32.867, -117.257),
      Station("9414290", "San Francisco, CA", "CA", 37.806, -122.465) ]
  }

  /** The body of the station-metadata response: its `stationList`, or else its `stations`. */
  datatype StationPayload = StationPayload(stationList: Option<seq<RawStation>>, stations: Option<seq<RawStation>>)

  /**
   * `payload?.stationList ?? payload?.stations ?? []`: `??` falls through only
   * on a missing list, so a present but empty `stationList` is taken as it is.
   */
  function RawList(p: StationPayload): (r: seq<RawStation>)
    ensures p.stationList.Some? ==> r == p.stationList.value
    ensures p.stationList.None? ==> r == (if p.stations.Some? then p.stations.value else [])
    ensures r != [] ==> Some(r) == p.stationList || Some(r) == p.stations
  {
    match p.stationList
    case Some(list) => list
    case None => if p.stations.Some? then p.stations.value else []
  }

  /**
   * The stations `bootstrap` ends up with: the loaded catalog, or the
   * fallback list when the request failed (`None`) or `loadStations` threw.
   */
  function LoadedStations(feed: Option<StationPayload>): (r: seq<Station>)
    ensures r != []
  {
    if feed.Some? && Catalog(RawList(feed.value)).Ok? then Catalog(RawList(feed.value)).value
    else FallbackStations()
  }

  /**
   * Whichever way the catalog is obtained, no id appears twice and every
   * station has a trimmed, non-empty id and name.
   */
  lemma LoadedStationsUsable(feed: Option<StationPayload>)
    ensures DistinctBy(LoadedStations(feed), (st: Station) => st.id)
    ensures forall st :: st in LoadedStations(feed) ==> WellFormed(st)
  {
    if feed.Some? && Catalog(RawList(feed.value)).Ok? {
      var raws := RawList(feed.value);
      CatalogIdsUnique(raws);
      forall st | st in Catalog(raws).value ensures WellFormed(st) {
        CatalogKeepsLastRecord(raws, st);
      }
    } else {
      FallbackWellFormed();
      FallbackIdsDistinct();
    }
  }

  /** No two fallback stations share an id. */
  lemma FallbackIdsDistinct()
    ensures DistinctBy(FallbackStations(), (st: Station) => st.id)
  {
    var s := FallbackStations();
    assert s[0].id[3] == '0' && s[0].id[4] == '8';
    assert s[1].id[3] == '0' && s[1].id[4] == '6';
    assert s[2].id[3] == '1' && s[2].id[4] == '3';
    assert s[3].id[3] == '0' && s[3].id[4] == '2';
    assert s[4].id[3] == '4' && s[4].id[4] == '2';
  }

  lemma FallbackWellFormed()
    ensures forall st :: st in FallbackStations() ==> WellFormed(st)
  {
    var s := FallbackStations();
    UnpaddedIsWellFormed(s[0]);
    UnpaddedIsWellFormed(s[1]);
    UnpaddedIsWellFormed(s[2]);
    UnpaddedIsWellFormed(s[3]);
    UnpaddedIsWellFormed(s[4]);
  }

  /** A station whose id, name and state carry no surrounding whitespace is well formed. */
  lemma UnpaddedIsWellFormed(st: Station)
    requires st.id != [] && !IsWhitespace(st.id[0]) && !IsWhitespace(st.id[|st.id| - 1])
    requires st.name != [] && !IsWhitespace(st.name[0]) && !IsWhitespace(st.name[|st.name| - 1])
    requires st.state != [] && !IsWhitespace(st.state[0]) && !IsWhitespace(st.state[|st.state| - 1])
    ensures WellFormed(st)
  {
    TrimOfUnpadded(st.id);
    TrimOfUnpadded(st.name);
    TrimOfUnpadded(st.state);
  }

  /**
   * With ids distinct, `renderStationMarkers` leaves exactly one marker per
   * station: the markers' ids are the stations' ids, and each marker shows
   * its own station.
   */
  lemma MarkersMatchStations(stations: seq<Station>)
    ensures forall id :: id in Collect(stations).entries <==> exists st :: st in stations && st.id == id
    ensures DistinctBy(stations, (st: Station) => st.id) ==>
      forall st :: st in stations ==> Collect(stations).entries[st.id] == st
  {
    CollectKeepsLast(stations);
    if DistinctBy(stations, (st: Station) => st.id) {
      forall st | st in stations ensures Collect(stations).entries[st.id] == st {
        var i :| 0 <= i < |stations| && stations[i] == st;
        var k := LastWithIdAt(stations, st.id).value;
        assert k == i;
      }
    }
  }

  /** `nearestStations(SANTA_MONICA.lat, SANTA_MONICA.lng, 9, 180)`: the shortcut buttons. */
  const ShortcutCount := 9
  const ShortcutMaxKm := 180.0

  /** The status line, as far as the model follows it. */
  datatype Status =
    | Idle
    | Fetching              // "Fetching a 5-day tide window from NOAA..."
    | Fresh                 // "Fresh 5-day tides loaded."
    | Failed(reason: FetchError)

  /** The page. */
  class Page {
    /** `stations`: the catalog every control reads. */
    var stations: seq<Station>
    /** `stationMarkers`: one map marker per id, stood for by the station it shows. */
    var markers: map<string, Station>
    /** The stations listed in the picker (none when only the "No stations match" entry is). */
    var options: seq<Station>
    /** `stationSelect.value`. */
    var selected: string
    /** `dateInput.value`. */
    var picked: string
    /** The stations behind the shortcut buttons, with their distances. */
    var shortcuts: seq<Ranked>
    /** The fallback stations are in use, which the station count line reports. */
    var usingFallback: bool
    var status: Status
    /** `setLoading`: the fetch button is disabled while a request is under way. */
    var loading: bool
    /** What `render` left on the page; `None` before the first render and after `renderEmpty`. */
    var view: Option<View>

    /** The page as the script finds it, once `initDateControl` has put today's date in the date input. */
    constructor(today: string)
      ensures stations == [] && markers == map[] && options == [] && selected == ""
      ensures picked == today && shortcuts == [] && !usingFallback
      ensures status == Idle && !loading && view == None
    {
      stations := [];
      markers := map[];
      options := [];
      selected := "";
      picked := today;
      shortcuts := [];
      usingFallback := false;
      status := Idle;
      loading := false;
      view := None;
    }

    /**
     * `populateStationSelect(filterText)`: list the stations matching the
     * search, keep the previous choice when it is still listed, and
     * otherwise fall back to the first option, or to no value at all.
     */
    method PopulateStationSelect(filterText: string)
      modifies this`options, this`selected
      ensures options == FilterStations(stations, filterText)
      ensures selected == SelectedAfterFilter(options, old(selected))
    {
      var previous := selected;
      var filtered := FilterStations(stations, filterText);
      if filtered == [] {
        options := [];
        selected := "";
        return;
      }
      options := filtered;
      selected := filtered[0].id;
      if Find(filtered, (st: Station) => st.id == previous).Some? {
        selected := previous;
      }
    }

    /** `stationSelect.value = id`: the option with that value is chosen, or none is. */
    method Choose(id: string)
      modifies this`selected
      ensures (exists st :: st in options && st.id == id) ==> selected == id
      ensures !(exists st :: st in options && st.id == id) ==> selected == ""
    {
      if Find(options, (st: Station) => st.id == id).Some? {
        selected := id;
      } else {
        selected := "";
      }
    }

    /**
     * `renderStationMarkers`: without a map nothing happens; otherwise the
     * old markers go and each station sets the marker of its id in turn.
     */
    method RenderStationMarkers(mapReady: bool)
      modifies this`markers
      ensures mapReady ==> markers == Collect(stations).entries
      ensures !mapReady ==> markers == old(markers)
    {
      if !mapReady {
        return;
      }
      var list := stations;
      var placed: map<string, Station> := map[];
      for i := 0 to |list|
        invariant placed == Collect(list[..i]).entries
      {
        CollectSnoc(list[..i], list[i]);
        assert list[..i + 1] == list[..i] + [list[i]];
        placed := placed[list[i].id := list[i]];
      }
      assert list[..|list|] == list;
      markers := placed;
    }

    /**
     * `selectInitialStation` given the distance of each station from Santa
     * Monica: nothing without stations, otherwise the chosen station's id
     * goes into the picker, which selects it when it is listed and shows no
     * value when it is not.
     */
    method SelectInitialStation(dist: Station -> real)
      modifies this`selected
      ensures InitialStation(stations, dist).None? ==> selected == old(selected)
      ensures InitialStation(stations, dist).Some? ==>
        var id := InitialStation(stations, dist).value.id;
        selected == if exists st :: st in options && st.id == id then id else ""
    {
      var initial := InitialStation(stations, dist);
      if initial.None? {
        return;
      }
      Choose(initial.value.id);
    }

    /**
     * The view, status and loading flag after `fetchTides` ended with
     * `outcome`, from the view and loading flag it started with: a refusal
     * only sets the message; a throw leaves the page loading; a failed or
     * empty answer empties the page; a rendered one replaces the view.
     */
    static function AfterFetch(outcome: FetchOutcome, priorView: Option<View>, priorLoading: bool): (Option<View>, Status, bool) {
      match outcome
      case Refused(reason) => (priorView, Failed(reason), priorLoading)
      case Threw => (priorView, Fetching, true)
      case Emptied(_, reason) => (None, Failed(reason), false)
      case Rendered(_, shown) => (Some(shown), Fresh, false)
    }

    /** `fetchTides` on the chosen station and date, given the answer to its request. */
    method FetchTides(feed: Option<seq<Prediction>>, today: string, nowMs: int) returns (outcome: FetchOutcome)
      modifies this`view, this`status, this`loading
      ensures outcome == FetchResult(old(stations), old(selected), old(picked), feed, today, nowMs)
      ensures view == AfterFetch(outcome, old(view), old(loading)).0
      ensures status == AfterFetch(outcome, old(view), old(loading)).1
      ensures loading == AfterFetch(outcome, old(view), old(loading)).2
    {
      outcome := RunFetch(stations, selected, picked, feed, today, nowMs);
      match outcome
      case Refused(reason) =>
        status := Failed(reason);
      case Threw =>
        status := Fetching;
        loading := true;
      case Emptied(_, reason) =>
        status := Failed(reason);
        view := None;
        loading := false;
      case Rendered(_, shown) =>
        view := Some(shown);
        status := Fresh;
        loading := false;
    }

    /**
     * The catalog as `bootstrap` leaves it: the loaded stations, or the
     * fallback list, which the station count line then reports.
     */
    ghost predicate Loaded(catalogFeed: Option<StationPayload>)
      reads this`stations, this`usingFallback
    {
      && stations == LoadedStations(catalogFeed)
      && (usingFallback <==> !(catalogFeed.Some? && Catalog(RawList(catalogFeed.value)).Ok?))
    }

    /**
     * The controls as `bootstrap` leaves them around `stations`: every
     * station listed in the picker, one marker per id when the map is up
     * (otherwise the markers it had), the shortcuts to the stations nearest
     * Santa Monica, and the initial station chosen, or none without stations.
     */
    ghost predicate Arranged(mapReady: bool, dist: Station -> real, priorMarkers: map<string, Station>)
      reads this`stations, this`options, this`selected, this`markers, this`shortcuts
    {
      && options == stations
      && (mapReady ==> markers == Collect(stations).entries)
      && (!mapReady ==> markers == priorMarkers)
      && shortcuts == NearestStations(stations, dist, ShortcutCount, ShortcutMaxKm)
      && selected == (if stations == [] then "" else InitialStation(stations, dist).value.id)
    }

    /**
     * The `try`/`catch` around `loadStations` in `bootstrap`: the loaded
     * catalog, or the fallback stations when the request failed or
     * `loadStations` threw.
     */
    method LoadCatalog(catalogFeed: Option<StationPayload>)
      modifies this`stations, this`usingFallback
      ensures Loaded(catalogFeed)
    {
      var loaded: Result<seq<Station>, CatalogError> := Err(NoStations);
      if catalogFeed.Some? {
        loaded := LoadStations(RawList(catalogFeed.value));
      }
      if loaded.Ok? {
        stations := loaded.value;
        usingFallback := false;
      } else {
        stations := FallbackStations();
        usingFallback := true;
      }
    }

    /**
     * The steps of `bootstrap` after the catalog is in place: fill the
     * picker with every station, place the markers, list the shortcuts and
     * choose the initial station.
     */
    method Arrange(mapReady: bool, dist: Station -> real)
      modifies this`options, this`selected, this`markers, this`shortcuts
      ensures Arranged(mapReady, dist, old(markers))
    {
      EmptySearchListsAll(stations);
      PopulateStationSelect("");
      RenderStationMarkers(mapReady);
      shortcuts := NearestStations(stations, dist, ShortcutCount, ShortcutMaxKm);
      SelectInitialStation(dist);
    }

    /** `bootstrap` up to its last step: load the catalog, then arrange the page around it. */
    method Start(catalogFeed: Option<StationPayload>, mapReady: bool, dist: Station -> real)
      modifies this`stations, this`usingFallback, this`options, this`selected, this`markers, this`shortcuts
      ensures Loaded(catalogFeed) && Arranged(mapReady, dist, old(markers))
      ensures stations == LoadedStations(catalogFeed) && selected == InitialStation(stations, dist).value.id
    {
      LoadCatalog(catalogFeed);
      Arrange(mapReady, dist);
    }

    /**
     * `bootstrap`: `Start`, then `fetchTides` for the station it chose (never
     * none, as the catalog is never empty) and the date in the picker.
     */
    method Bootstrap(catalogFeed: Option<StationPayload>, mapReady: bool, dist: Station -> real,
                     tideFeed: Option<seq<Prediction>>, today: string, nowMs: int)
      returns (outcome: FetchOutcome)
      modifies this`stations, this`usingFallback, this`options, this`selected, this`markers, this`shortcuts
      modifies this`view, this`status, this`loading
      ensures Loaded(catalogFeed) && Arranged(mapReady, dist, old(markers))
      ensures outcome == FetchResult(LoadedStations(catalogFeed), InitialStation(LoadedStations(catalogFeed), dist).value.id,
                        old(picked), tideFeed, today, nowMs)
      ensures view == AfterFetch(outcome, old(view), old(loading)).0
      ensures status == AfterFetch(outcome, old(view), old(loading)).1
      ensures loading == AfterFetch(outcome, old(view), old(loading)).2
    {
      hide *;  // the two contracts below carry the proof; the definitions behind them are not needed
      Start(catalogFeed, mapReady, dist);
      outcome := FetchTides(tideFeed, today, nowMs);
    }
  }
}
