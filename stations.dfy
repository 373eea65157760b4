/**
 * The station catalog: `normalizeStation` (app.js:45-57), the
 * deduplicate-and-sort step of `loadStations` (app.js:67-83), the option
 * text (app.js:86-89), the search filter and reselection of
 * `populateStationSelect` (app.js:91-129) and `stationLabelById`
 * (app.js:301-303).
 */
module Stations {
  import opened Common
  import opened Text
  import opened Sorting

  /**
   * One entry of the NOAA station feed, with each field the normaliser looks
   * at already coerced by `String(...)` or `Number(...)`; `None` stands for a
   * field that is undefined. A null field is not represented: `??` would fall
   * back past it just the same, but `Number(null)` at the end of a chain is 0.
   */
  datatype RawStation = RawStation(
    id: Option<string>, stationId: Option<string>,
    name: Option<string>, stationName: Option<string>,
    lat: Option<Num>, latitude: Option<Num>,
    lng: Option<Num>, lon: Option<Num>, longitude: Option<Num>,
    state: Option<string>)

  /** A station the widget can offer: trimmed text and finite coordinates. */
  datatype Station = Station(id: string, name: string, state: string, lat: real, lng: real)

  /** `first ?? second`. */
  function Coalesce<T>(first: Option<T>, second: Option<T>): Option<T> {
    if first.Some? then first else second
  }

  /** `String(x ?? "")`. */
  function TextOr(x: Option<string>): string {
    if x.Some? then x.value else ""
  }

  /** `Number(x)`, where an undefined field gives NaN. */
  function NumberOr(x: Option<Num>): Num {
    if x.Some? then x.value else NonFinite
  }

  function IdText(raw: RawStation): string { TextOr(Coalesce(raw.id, raw.stationId)) }
  function NameText(raw: RawStation): string { TextOr(Coalesce(raw.name, raw.stationName)) }
  function LatOf(raw: RawStation): Num { NumberOr(Coalesce(raw.lat, raw.latitude)) }
  function LngOf(raw: RawStation): Num { NumberOr(Coalesce(raw.lng, Coalesce(raw.lon, raw.longitude))) }

  /** What a station every part of the widget relies on looks like. */
  predicate WellFormed(st: Station) {
    && st.id != [] && Trim(st.id) == st.id
    && st.name != [] && Trim(st.name) == st.name
    && Trim(st.state) == st.state
  }

  /** `normalizeStation`: a station, or `None` for the records it returns null for. */
  function NormalizeStation(raw: RawStation): (r: Option<Station>)
    ensures r.Some? ==> r.value.id != [] && r.value.name != []
  {
    var id := Trim(IdText(raw));
    var name := Trim(NameText(raw));
    var lat := LatOf(raw);
    var lng := LngOf(raw);
    var state := Trim(TextOr(raw.state));
    if id == [] || name == [] || !lat.IsFinite() || !lng.IsFinite() then None
    else Some(Station(id, name, state, lat.value, lng.value))
  }

  /**
   * A record is rejected exactly when its id or name is blank after
   * trimming or a coordinate is not a finite number; otherwise the station
   * carries the trimmed texts (state defaulting to the empty string) and the
   * coordinates, and is well formed.
   */
  lemma NormalizeStationSpec(raw: RawStation)
    ensures NormalizeStation(raw).None? <==>
      AllWhitespace(IdText(raw)) || AllWhitespace(NameText(raw))
      || !LatOf(raw).IsFinite() || !LngOf(raw).IsFinite()
    ensures NormalizeStation(raw).Some? ==>
      var st := NormalizeStation(raw).value;
      && st.id == Trim(IdText(raw)) && st.name == Trim(NameText(raw))
      && st.state == Trim(TextOr(raw.state))
      && LatOf(raw) == Finite(st.lat) && LngOf(raw) == Finite(st.lng)
      && WellFormed(st)
  {
    TrimEmptyIff(IdText(raw));
    TrimEmptyIff(NameText(raw));
    TrimIdempotent(IdText(raw));
    TrimIdempotent(NameText(raw));
    TrimIdempotent(TextOr(raw.state));
  }

  /** `rawList.map(normalizeStation)`. */
  function NormalizeAll(raws: seq<RawStation>): (r: seq<Option<Station>>)
    ensures |r| == |raws|
    ensures forall i :: 0 <= i < |raws| ==> r[i] == NormalizeStation(raws[i])
  {
    seq(|raws|, i requires 0 <= i < |raws| => NormalizeStation(raws[i]))
  }

  /** `.filter(Boolean)`: the stations present in `opts`, in order. */
  function Present(opts: seq<Option<Station>>): (r: seq<Station>)
    ensures |r| <= |opts|
  {
    if opts == [] then []
    else
      var last := opts[|opts| - 1];
      Present(opts[..|opts| - 1]) + (if last.Some? then [last.value] else [])
  }

  /** Nothing is present exactly when every entry is `None`. */
  lemma {:induction false} PresentEmptyIff(opts: seq<Option<Station>>)
    ensures Present(opts) == [] <==> forall i :: 0 <= i < |opts| ==> opts[i].None?
  {
    if opts != [] {
      var init := opts[..|opts| - 1];
      PresentEmptyIff(init);
      assert forall i :: 0 <= i < |init| ==> init[i] == opts[i];
    }
  }

  /** A station is present exactly when it is one of the entries. */
  lemma {:induction false} PresentMembers(opts: seq<Option<Station>>, st: Station)
    ensures st in Present(opts) <==> exists i :: 0 <= i < |opts| && opts[i] == Some(st)
  {
    if opts != [] {
      var init := opts[..|opts| - 1];
      PresentMembers(init, st);
      assert forall i :: 0 <= i < |init| ==> init[i] == opts[i];
    }
  }

  /** The stations of the records that normalise, in feed order. */
  function Accepted(raws: seq<RawStation>): seq<Station> {
    Present(NormalizeAll(raws))
  }

  /** Nothing is accepted exactly when no record normalises. */
  lemma AcceptedEmptyIff(raws: seq<RawStation>)
    ensures Accepted(raws) == [] <==> forall i :: 0 <= i < |raws| ==> NormalizeStation(raws[i]).None?
  {
    PresentEmptyIff(NormalizeAll(raws));
  }

  /** A station is accepted exactly when some record of the feed normalises to it. */
  lemma AcceptedMembers(raws: seq<RawStation>, st: Station)
    ensures st in Accepted(raws) <==> exists i :: 0 <= i < |raws| && NormalizeStation(raws[i]) == Some(st)
  {
    PresentMembers(NormalizeAll(raws), st);
  }

  /** Every accepted station is well formed. */
  lemma AcceptedWellFormed(raws: seq<RawStation>, st: Station)
    requires st in Accepted(raws)
    ensures WellFormed(st)
  {
    AcceptedMembers(raws, st);
    var i :| 0 <= i < |raws| && NormalizeStation(raws[i]) == Some(st);
    NormalizeStationSpec(raws[i]);
  }

  /** The position of the last station in `s` with this id. */
  function LastWithIdAt(s: seq<Station>, id: string): (r: Option<nat>)
    ensures r.None? <==> forall i :: 0 <= i < |s| ==> s[i].id != id
    ensures r.Some? ==> r.value < |s| && s[r.value].id == id
    ensures r.Some? ==> forall j :: r.value < j < |s| ==> s[j].id != id
  {
    if s == [] then None
    else if s[|s| - 1].id == id then Some(|s| - 1)
    else
      assert forall i :: 0 <= i < |s| - 1 ==> s[..|s| - 1][i] == s[i];
      LastWithIdAt(s[..|s| - 1], id)
  }

  /** The last station in `s` with this id. */
  function LastWithId(s: seq<Station>, id: string): (r: Option<Station>)
    ensures r.None? <==> forall st :: st in s ==> st.id != id
    ensures r.Some? ==> r.value in s && r.value.id == id
    ensures r.Some? ==> exists k :: 0 <= k < |s| && s[k] == r.value && forall j :: k < j < |s| ==> s[j].id != id
  {
    match LastWithIdAt(s, id)
    case None => None
    case Some(i) => Some(s[i])
  }

  /**
   * A JavaScript `Map` from id to station: `keys` in the order each id was
   * first set, `entries` holding the value set last.
   */
  datatype Table = Table(keys: seq<string>, entries: map<string, Station>)

  ghost predicate TableValid(t: Table) {
    && (forall i, j :: 0 <= i < j < |t.keys| ==> t.keys[i] != t.keys[j])
    && (forall id :: id in t.entries <==> id in t.keys)
  }

  /** `unique.set(station.id, station)`: a new id goes last, a known one keeps its place. */
  function SetEntry(t: Table, st: Station): (r: Table)
    requires TableValid(t)
    ensures TableValid(r) && r.keys != []
    ensures r.entries == t.entries[st.id := st]
    ensures st.id in t.entries ==> r.keys == t.keys
    ensures st.id !in t.entries ==> r.keys == t.keys + [st.id]
  {
    if st.id in t.entries then Table(t.keys, t.entries[st.id := st])
    else
      var r := Table(t.keys + [st.id], t.entries[st.id := st]);
      assert forall id :: id in r.keys <==> id in t.keys || id == st.id;
      r
  }

  /** The `Map` after each station of `s` has been set in turn. */
  function Collect(s: seq<Station>): (t: Table)
    ensures TableValid(t)
    ensures t.keys == [] <==> s == []
  {
    if s == [] then Table([], map[])
    else SetEntry(Collect(s[..|s| - 1]), s[|s| - 1])
  }

  /** The position of the first station in `s` with this id. */
  function FirstWithIdAt(s: seq<Station>, id: string): (r: Option<nat>)
    ensures r.None? <==> forall i :: 0 <= i < |s| ==> s[i].id != id
    ensures r.Some? ==> r.value < |s| && s[r.value].id == id
    ensures r.Some? ==> forall j :: 0 <= j < r.value ==> s[j].id != id
  {
    if s == [] then None
    else if s[0].id == id then Some(0)
    else match FirstWithIdAt(s[1..], id)
      case None => None
      case Some(k) => Some(k + 1)
  }

  /** The id `a` first occurs in `s` before the id `b` first does. */
  predicate FirstSeenBefore(s: seq<Station>, a: string, b: string) {
    && FirstWithIdAt(s, a).Some? && FirstWithIdAt(s, b).Some?
    && FirstWithIdAt(s, a).value < FirstWithIdAt(s, b).value
  }

  /** Appending a station leaves every first occurrence where it was and may add one at the end. */
  lemma FirstWithIdSnoc(s: seq<Station>, st: Station, id: string)
    ensures FirstWithIdAt(s + [st], id)
         == if FirstWithIdAt(s, id).Some? then FirstWithIdAt(s, id)
            else if st.id == id then Some(|s|) else None
  {
    var t := s + [st];
    assert forall i :: 0 <= i < |s| ==> t[i] == s[i];
    assert t[|s|] == st;
  }

  /**
   * The map's keys are the ids of `s`, in the order of their first
   * occurrence in `s` (so each id once).
   */
  lemma {:induction false} CollectKeysInFirstOrder(s: seq<Station>)
    ensures forall id :: id in Collect(s).keys <==> FirstWithIdAt(s, id).Some?
    ensures forall i, j :: 0 <= i < j < |Collect(s).keys| ==> FirstSeenBefore(s, Collect(s).keys[i], Collect(s).keys[j])
  {
    if s != [] {
      var init, last := s[..|s| - 1], s[|s| - 1];
      assert s == init + [last];
      CollectKeysInFirstOrder(init);
      var t, r := Collect(init), Collect(s);
      assert r == SetEntry(t, last);
      forall id ensures FirstWithIdAt(s, id)
        == if FirstWithIdAt(init, id).Some? then FirstWithIdAt(init, id)
           else if last.id == id then Some(|init|) else None
      {
        FirstWithIdSnoc(init, last, id);
      }
      if last.id !in t.entries {
        assert r.keys == t.keys + [last.id];
        forall i, j | 0 <= i < j < |r.keys|
          ensures FirstSeenBefore(s, r.keys[i], r.keys[j])
        {
          if j == |t.keys| {
            assert r.keys[i] == t.keys[i] && r.keys[j] == last.id;
            assert FirstWithIdAt(init, t.keys[i]).value < |init|;
          } else {
            assert r.keys[i] == t.keys[i] && r.keys[j] == t.keys[j];
          }
        }
      }
    }
  }

  /** The map holds the ids of `s`, each with the last station of `s` that carries it. */
  lemma {:induction false} CollectKeepsLast(s: seq<Station>)
    ensures forall id :: id in Collect(s).entries <==> LastWithId(s, id).Some?
    ensures forall id :: id in Collect(s).entries ==> Some(Collect(s).entries[id]) == LastWithId(s, id)
  {
    if s != [] {
      var init := s[..|s| - 1];
      var last := s[|s| - 1];
      CollectKeepsLast(init);
      assert s == init + [last];
      assert forall id :: id != last.id ==> LastWithId(s, id) == LastWithId(init, id);
    }
  }

  /** One more entry of the normalised feed adds its station, if any, at the end. */
  lemma PresentStep(opts: seq<Option<Station>>, i: nat)
    requires i < |opts|
    ensures Present(opts[..i + 1]) == Present(opts[..i]) + (if opts[i].Some? then [opts[i].value] else [])
  {
    assert opts[..i + 1][..i] == opts[..i];
  }

  /** Setting one more station is one more `set` on the map built so far. */
  lemma CollectSnoc(s: seq<Station>, st: Station)
    ensures Collect(s + [st]) == SetEntry(Collect(s), st)
  {
    assert (s + [st])[..|s|] == s;
  }

  /** The map after one normalised record: set when the record was kept, untouched when rejected. */
  function SetIfPresent(t: Table, opt: Option<Station>): (r: Table)
    requires TableValid(t)
    ensures TableValid(r)
    ensures opt.Some? ==> r == SetEntry(t, opt.value)
    ensures opt.None? ==> r == t
  {
    if opt.Some? then SetEntry(t, opt.value) else t
  }

  /** One more entry of the normalised feed is one more `set`, or nothing for a rejected record. */
  lemma CollectStep(opts: seq<Option<Station>>, i: nat)
    requires i < |opts|
    ensures Collect(Present(opts[..i + 1])) == SetIfPresent(Collect(Present(opts[..i])), opts[i])
  {
    PresentStep(opts, i);
    if opts[i].Some? {
      CollectSnoc(Present(opts[..i]), opts[i].value);
    } else {
      assert Present(opts[..i]) + [] == Present(opts[..i]);
    }
  }

  /** `[...unique.values()]`: the stations in the order their ids were first set. */
  function Values(t: Table): (v: seq<Station>)
    requires TableValid(t)
    ensures |v| == |t.keys|
    ensures forall i :: 0 <= i < |v| ==> v[i] == t.entries[t.keys[i]]
  {
    seq(|t.keys|, i requires 0 <= i < |t.keys| && t.keys[i] in t.entries => t.entries[t.keys[i]])
  }

  // ---------------------------------------------------------------------
  // Name order

  /** `a.localeCompare(b) <= 0`, taken as plain lexicographic order on characters. */
  predicate NameLe(a: string, b: string) {
    a == [] || (b != [] && (a[0] < b[0] || (a[0] == b[0] && NameLe(a[1..], b[1..]))))
  }

  lemma {:induction false} NameLeTotal(a: string, b: string)
    ensures NameLe(a, b) || NameLe(b, a)
  {
    if a != [] && b != [] && a[0] == b[0] {
      NameLeTotal(a[1..], b[1..]);
    }
  }

  lemma {:induction false} NameLeTransitive(a: string, b: string, c: string)
    requires NameLe(a, b) && NameLe(b, c)
    ensures NameLe(a, c)
  {
    if a != [] && b != [] && c != [] && a[0] == b[0] && b[0] == c[0] {
      NameLeTransitive(a[1..], b[1..], c[1..]);
    }
  }

  /** Names that compare level are the same name. */
  lemma {:induction false} NameLeAntisymmetric(a: string, b: string)
    requires NameLe(a, b) && NameLe(b, a)
    ensures a == b
  {
    if a != [] && b != [] {
      NameLeAntisymmetric(a[1..], b[1..]);
      assert a == [a[0]] + a[1..] && b == [b[0]] + b[1..];
    }
  }

  /** The comparator of app.js:77. */
  predicate ByName(a: Station, b: Station) {
    NameLe(a.name, b.name)
  }

  lemma ByNameIsTotalPreorder()
    ensures TotalPreorder(ByName)
  {
    forall a: Station, b: Station ensures ByName(a, b) || ByName(b, a) {
      NameLeTotal(a.name, b.name);
    }
    forall a: Station, b: Station, c: Station | ByName(a, b) && ByName(b, c)
      ensures ByName(a, c)
    {
      NameLeTransitive(a.name, b.name, c.name);
    }
  }

  // ---------------------------------------------------------------------
  // The catalog

  datatype CatalogError = NoStations

  /**
   * What `loadStations` returns for a feed: the deduplicated stations sorted
   * by name, or the error it throws when none survives.
   */
  function Catalog(raws: seq<RawStation>): Result<seq<Station>, CatalogError> {
    ByNameIsTotalPreorder();
    var loaded := SortBy(Values(Collect(Accepted(raws))), ByName);
    if |loaded| == 0 then Err(NoStations) else Ok(loaded)
  }

  /**
   * The `forEach` of `loadStations`: each record is normalised and the valid
   * ones are set into the map one by one.
   */
  method IndexStations(rawList: seq<RawStation>) returns (keys: seq<string>, unique: map<string, Station>)
    ensures Table(keys, unique) == Collect(Accepted(rawList))
  {
    keys, unique := [], map[];
    ghost var opts := NormalizeAll(rawList);
    for i := 0 to |rawList|
      invariant Table(keys, unique) == Collect(Present(opts[..i]))
    {
      assert opts[i] == NormalizeStation(rawList[i]);
      keys, unique := IngestRecord(keys, unique, rawList[i]);
      CollectStep(opts, i);
    }
    assert opts[..|rawList|] == opts;
  }

  /**
   * One turn of the `forEach`: normalise the record and, when it is kept,
   * `unique.set(station.id, station)` on the map held as its key order and
   * entries.
   */
  method IngestRecord(keys: seq<string>, unique: map<string, Station>, raw: RawStation)
    returns (keys': seq<string>, unique': map<string, Station>)
    requires TableValid(Table(keys, unique))
    ensures Table(keys', unique') == SetIfPresent(Table(keys, unique), NormalizeStation(raw))
  {
    keys', unique' := keys, unique;
    var normalized := NormalizeStation(raw);
    if normalized.Some? {
      var station := normalized.value;
      if station.id !in unique {
        keys' := keys + [station.id];
      }
      unique' := unique[station.id := station];
    }
  }

  /**
   * `loadStations` once the feed is in hand: the map's values, in the order
   * their ids were first set, sorted by name; an error when there are none.
   */
  method LoadStations(rawList: seq<RawStation>) returns (result: Result<seq<Station>, CatalogError>)
    ensures result == Catalog(rawList)
  {
    var keys, unique := IndexStations(rawList);
    ByNameIsTotalPreorder();
    var loadedStations := SortBy(Values(Table(keys, unique)), ByName);
    if |loadedStations| == 0 {
      return Err(NoStations);
    }
    return Ok(loadedStations);
  }

  /** The catalog is an error exactly when no record of the feed normalises. */
  lemma CatalogEmptyIff(raws: seq<RawStation>)
    ensures Catalog(raws).Err? <==> forall i :: 0 <= i < |raws| ==> NormalizeStation(raws[i]).None?
  {
    ByNameIsTotalPreorder();
    AcceptedEmptyIff(raws);
  }

  /**
   * Every station in the catalog is well formed and is the last accepted
   * record, in feed order, that carries its id.
   */
  lemma CatalogKeepsLastRecord(raws: seq<RawStation>, st: Station)
    requires Catalog(raws).Ok? && st in Catalog(raws).value
    ensures WellFormed(st)
    ensures LastWithId(Accepted(raws), st.id) == Some(st)
  {
    ByNameIsTotalPreorder();
    var t := Collect(Accepted(raws));
    var v := Values(t);
    assert st in multiset(v);
    var i :| 0 <= i < |v| && v[i] == st;
    CollectKeepsLast(Accepted(raws));
    assert Some(st) == LastWithId(Accepted(raws), t.keys[i]);
    AcceptedWellFormed(raws, st);
  }

  /** Every id that some record validly carries is in the catalog. */
  lemma CatalogCoversEveryId(raws: seq<RawStation>, i: nat)
    requires i < |raws| && NormalizeStation(raws[i]).Some?
    ensures Catalog(raws).Ok?
    ensures exists st :: st in Catalog(raws).value && st.id == NormalizeStation(raws[i]).value.id
  {
    CatalogEmptyIff(raws);
    ByNameIsTotalPreorder();
    var rec := NormalizeStation(raws[i]).value;
    AcceptedMembers(raws, rec);
    var t := Collect(Accepted(raws));
    var v := Values(t);
    CollectKeepsLast(Accepted(raws));
    assert rec.id in t.entries;
    var k :| 0 <= k < |t.keys| && t.keys[k] == rec.id;
    assert v[k].id == rec.id;
    assert v[k] in multiset(Catalog(raws).value);
  }

  /** No id appears twice in the catalog. */
  lemma CatalogIdsUnique(raws: seq<RawStation>)
    requires Catalog(raws).Ok?
    ensures DistinctBy(Catalog(raws).value, (st: Station) => st.id)
  {
    ByNameIsTotalPreorder();
    var t := Collect(Accepted(raws));
    var v := Values(t);
    CollectKeepsLast(Accepted(raws));
    forall i, j | 0 <= i < j < |v| ensures v[i].id != v[j].id {
      assert Some(v[i]) == LastWithId(Accepted(raws), t.keys[i]);
      assert Some(v[j]) == LastWithId(Accepted(raws), t.keys[j]);
    }
    SortByKeepsDistinct(v, ByName, (st: Station) => st.id);
  }

  /**
   * The catalog is in name order, and of two stations with the same name
   * the one whose id first appeared earlier among the accepted records comes
   * first.
   */
  lemma CatalogOrder(raws: seq<RawStation>)
    requires Catalog(raws).Ok?
    ensures SortedBy(Catalog(raws).value, ByName)
    ensures forall i, j ::
      0 <= i < j < |Catalog(raws).value| && Catalog(raws).value[i].name == Catalog(raws).value[j].name
      ==> FirstSeenBefore(Accepted(raws), Catalog(raws).value[i].id, Catalog(raws).value[j].id)
  {
    ByNameIsTotalPreorder();
    var c := Catalog(raws).value;
    forall i, j | 0 <= i < j < |c| && c[i].name == c[j].name
      ensures FirstSeenBefore(Accepted(raws), c[i].id, c[j].id)
    {
      SameNameInFirstOrder(raws, i, j);
    }
  }

  /** One pair of same-name catalog stations, in the order of their ids' first appearance. */
  lemma SameNameInFirstOrder(raws: seq<RawStation>, i: nat, j: nat)
    requires Catalog(raws).Ok? && i < j < |Catalog(raws).value|
    requires Catalog(raws).value[i].name == Catalog(raws).value[j].name
    ensures FirstSeenBefore(Accepted(raws), Catalog(raws).value[i].id, Catalog(raws).value[j].id)
  {
    ByNameIsTotalPreorder();
    var a := Accepted(raws);
    var v := Values(Collect(a));
    var c := Catalog(raws).value;
    assert c == SortBy(v, ByName);
    NameLeTotal(c[i].name, c[j].name);
    SortByKeepsLevelOrder(v, ByName, i, j);
    var i', j' :| 0 <= i' < j' < |v| && v[i'] == c[i] && v[j'] == c[j];
    ValuesInFirstOrder(a, i', j');
  }

  /** The map's values come in the order in which their ids were first set. */
  lemma ValuesInFirstOrder(s: seq<Station>, i: nat, j: nat)
    requires i < j < |Values(Collect(s))|
    ensures FirstSeenBefore(s, Values(Collect(s))[i].id, Values(Collect(s))[j].id)
  {
    var t := Collect(s);
    var v := Values(t);
    CollectKeepsLast(s);
    assert Some(v[i]) == LastWithId(s, t.keys[i]);
    assert Some(v[j]) == LastWithId(s, t.keys[j]);
    CollectKeysInFirstOrder(s);
  }

  // ---------------------------------------------------------------------
  // The station picker

  /** `stationOptionLabel`: "name, state (id)", or "name (id)" when the state is empty. */
  function OptionLabel(st: Station): (text: string)
    ensures |st.name| + |st.id| + 3 <= |text|
    ensures text[..|st.name|] == st.name
    ensures text[|text| - |st.id| - 3..] == " (" + st.id + ")"
    ensures text[|st.name|..|text| - |st.id| - 3] == if st.state == [] then "" else ", " + st.state
  {
    var region := if st.state != [] then ", " + st.state else "";
    var text := st.name + region + " (" + st.id + ")";
    assert text[..|st.name|] == st.name;
    assert text[|st.name|..|text| - |st.id| - 3] == region;
    text
  }

  /** The search box text as the filter uses it: trimmed and lower-cased. */
  function SearchQuery(filterText: string): string {
    ToLower(Trim(filterText))
  }

  /** The text a station is searched in. */
  function Haystack(st: Station): string {
    ToLower(st.name + " " + st.state + " " + st.id)
  }

  predicate Matches(st: Station, query: string) {
    Contains(Haystack(st), query)
  }

  /** `stations.filter(...)` with a fixed query, keeping the catalog's order. */
  function KeepMatching(stations: seq<Station>, query: string): (r: seq<Station>)
    ensures |r| <= |stations|
    ensures forall st :: st in r <==> st in stations && Matches(st, query)
  {
    if stations == [] then []
    else (if Matches(stations[0], query) then [stations[0]] else []) + KeepMatching(stations[1..], query)
  }

  /** Filtering a concatenation filters each part: the filter keeps relative order. */
  lemma {:induction false} KeepMatchingAppend(a: seq<Station>, b: seq<Station>, query: string)
    ensures KeepMatching(a + b, query) == KeepMatching(a, query) + KeepMatching(b, query)
  {
    if a == [] {
      assert a + b == b;
    } else {
      assert (a + b)[1..] == a[1..] + b;
      KeepMatchingAppend(a[1..], b, query);
    }
  }

  /**
   * The stations the picker lists for a search text: all of them when the
   * trimmed text is empty, otherwise those whose name, state and id contain
   * the lower-cased query.
   */
  function FilterStations(stations: seq<Station>, filterText: string): (r: seq<Station>)
    ensures SearchQuery(filterText) == [] ==> r == stations
    ensures forall st :: st in r <==> st in stations && Matches(st, SearchQuery(filterText))
  {
    var query := SearchQuery(filterText);
    if query == [] then
      assert forall st :: Matches(st, query) by {
        forall st ensures Matches(st, query) { assert OccursAt(Haystack(st), query, 0); }
      }
      stations
    else KeepMatching(stations, query)
  }

  /** The empty search text lists the whole catalog in its order. */
  lemma EmptySearchListsAll(stations: seq<Station>)
    ensures FilterStations(stations, "") == stations
  {
    assert Trim("") == "";
  }

  /**
   * The select's value after it is refilled: the station chosen before when
   * it is still listed, otherwise the first listed station (a select shows
   * its first option), or "" for the lone "No stations match your search"
   * option.
   */
  function SelectedAfterFilter(filtered: seq<Station>, previous: string): (value: string)
    ensures filtered == [] ==> value == ""
    ensures (exists st :: st in filtered && st.id == previous) ==> value == previous
    ensures !(exists st :: st in filtered && st.id == previous) && filtered != [] ==> value == filtered[0].id
  {
    if filtered == [] then ""
    else if Find(filtered, (st: Station) => st.id == previous).Some? then previous
    else filtered[0].id
  }

  /** A listed station is always selected when the list is not empty. */
  lemma SelectedIsListed(filtered: seq<Station>, previous: string)
    requires filtered != []
    ensures exists st :: st in filtered && st.id == SelectedAfterFilter(filtered, previous)
  {
    if !(exists st :: st in filtered && st.id == previous) {
      assert filtered[0] in filtered;
    }
  }

  /** `stationLabelById`: the name of the first station with the id, or the id itself. */
  function StationLabelById(stations: seq<Station>, id: string): (text: string)
    ensures (forall st :: st in stations ==> st.id != id) ==> text == id
    ensures (exists st :: st in stations && st.id == id) ==>
      exists k :: 0 <= k < |stations| && stations[k].id == id && text == stations[k].name
        && forall j :: 0 <= j < k ==> stations[j].id != id
  {
    match FirstMatch(stations, (st: Station) => st.id == id)
    case Some(k) => stations[k].name
    case None => id
  }

  /** In a catalog without repeated ids, a station's id labels it with its name. */
  lemma LabelByIdOfListed(stations: seq<Station>, st: Station)
    requires DistinctBy(stations, (s: Station) => s.id) && st in stations
    ensures StationLabelById(stations, st.id) == st.name
  {
    var i :| 0 <= i < |stations| && stations[i] == st;
    var k :| 0 <= k < |stations| && stations[k].id == st.id
      && StationLabelById(stations, st.id) == stations[k].name
      && forall j :: 0 <= j < k ==> stations[j].id != st.id;
  }
}
