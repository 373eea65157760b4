/**
 * `nearestStations` (app.js:230-240) and the choice rule of
 * `selectInitialStation` (app.js:267-280). The great-circle distance of
 * app.js:217-228 is not modelled: the distance from the reference point is a
 * parameter `dist`, one value per station.
 */
module Ranking {
  import opened Common
  import opened Text
  import opened Sorting
  import opened Stations

  /** A station with its distance from the reference point attached. */
  datatype Ranked = Ranked(station: Station, distanceKm: real)

  /** `stations.map((station) => ({...station, distanceKm}))`. */
  function Attach(stations: seq<Station>, dist: Station -> real): (r: seq<Ranked>)
    ensures |r| == |stations|
    ensures forall i :: 0 <= i < |r| ==> r[i] == Ranked(stations[i], dist(stations[i]))
  {
    seq(|stations|, i requires 0 <= i < |stations| => Ranked(stations[i], dist(stations[i])))
  }

  /** The comparator `a.distanceKm - b.distanceKm`, as "sorts no later than". */
  predicate ByDistance(a: Ranked, b: Ranked) {
    a.distanceKm <= b.distanceKm
  }

  lemma ByDistanceIsTotalPreorder()
    ensures TotalPreorder(ByDistance)
  {
  }

  /** The stations sorted by distance; equally distant ones keep the catalog order. */
  function RankedByDistance(stations: seq<Station>, dist: Station -> real): (r: seq<Ranked>)
    ensures |r| == |stations|
    ensures SortedBy(r, ByDistance)
    ensures multiset(r) == multiset(Attach(stations, dist))
  {
    ByDistanceIsTotalPreorder();
    SortBy(Attach(stations, dist), ByDistance)
  }

  /** The ranked list holds each station once more, with its own distance. */
  lemma RankedMembers(stations: seq<Station>, dist: Station -> real)
    ensures forall x :: x in RankedByDistance(stations, dist) ==>
      x.station in stations && x.distanceKm == dist(x.station)
    ensures forall st :: st in stations ==> Ranked(st, dist(st)) in RankedByDistance(stations, dist)
  {
    var a := Attach(stations, dist);
    var r := RankedByDistance(stations, dist);
    forall x | x in r ensures x.station in stations && x.distanceKm == dist(x.station) {
      assert x in multiset(a);
      var i :| 0 <= i < |a| && a[i] == x;
    }
    forall st | st in stations ensures Ranked(st, dist(st)) in r {
      var i :| 0 <= i < |stations| && stations[i] == st;
      assert a[i] in multiset(r);
    }
  }

  /** `.filter((station) => station.distanceKm <= maxKm)`. */
  function Within(s: seq<Ranked>, maxKm: real): (r: seq<Ranked>)
    ensures |r| <= |s|
    ensures forall x :: x in r <==> x in s && x.distanceKm <= maxKm
  {
    if s == [] then []
    else (if s[0].distanceKm <= maxKm then [s[0]] else []) + Within(s[1..], maxKm)
  }

  /** `.slice(0, n)` for a non-negative `n`. */
  function Take<T>(s: seq<T>, n: nat): (r: seq<T>)
    ensures |r| == Min(n, |s|) && r == s[..|r|]
  {
    if n <= |s| then s[..n] else s
  }

  function Min(a: int, b: int): int {
    if a <= b then a else b
  }

  /** Nothing is kept when every station is out of range. */
  lemma {:induction false} WithinNone(s: seq<Ranked>, maxKm: real)
    requires forall j :: 0 <= j < |s| ==> s[j].distanceKm > maxKm
    ensures Within(s, maxKm) == []
  {
    if s != [] {
      WithinNone(s[1..], maxKm);
    }
  }

  /** In a list sorted by distance, the stations within a radius form a prefix. */
  lemma {:induction false} WithinSortedIsPrefix(s: seq<Ranked>, maxKm: real)
    requires SortedBy(s, ByDistance)
    ensures Within(s, maxKm) == s[..|Within(s, maxKm)|]
  {
    if s != [] {
      var rest := Within(s[1..], maxKm);
      if s[0].distanceKm <= maxKm {
        WithinSortedIsPrefix(s[1..], maxKm);
        assert s[..|rest| + 1] == [s[0]] + s[1..][..|rest|];
      } else {
        forall j | 0 <= j < |s[1..]| ensures s[1..][j].distanceKm > maxKm {
          assert ByDistance(s[0], s[j + 1]);
        }
        WithinNone(s[1..], maxKm);
      }
    }
  }

  /** Some station lies within `maxKm` of the reference point. */
  predicate AnyWithin(stations: seq<Station>, dist: Station -> real, maxKm: real) {
    exists st :: st in stations && dist(st) <= maxKm
  }

  /**
   * `nearestStations`: the first `count` stations by distance among those
   * within `maxKm`, or the first `count` overall when none is within it.
   */
  function NearestStations(stations: seq<Station>, dist: Station -> real, count: nat, maxKm: real): (r: seq<Ranked>)
    ensures |r| <= count
  {
    var sorted := RankedByDistance(stations, dist);
    var nearby := Take(Within(sorted, maxKm), count);
    if nearby != [] then nearby else Take(sorted, count)
  }

  /** Some station is in range exactly when the in-range list is not empty. */
  lemma WithinNonEmptyIff(stations: seq<Station>, dist: Station -> real, maxKm: real)
    ensures AnyWithin(stations, dist, maxKm) <==> Within(RankedByDistance(stations, dist), maxKm) != []
  {
    var sorted := RankedByDistance(stations, dist);
    var inRange := Within(sorted, maxKm);
    RankedMembers(stations, dist);
    if AnyWithin(stations, dist, maxKm) {
      var st :| st in stations && dist(st) <= maxKm;
      assert Ranked(st, dist(st)) in inRange;
    }
    if inRange != [] {
      var x := inRange[0];
      assert x in inRange;
      assert x.station in stations && dist(x.station) <= maxKm;
    }
  }

  /**
   * The ranking is a prefix of the distance order, so no station left out
   * is nearer than one kept. When some station is within `maxKm`, every
   * result is, and there are as many as `count` allows; otherwise the
   * result is the `count` nearest overall. It is empty only for an empty
   * catalog or a zero `count`.
   */
  lemma NearestStationsSpec(stations: seq<Station>, dist: Station -> real, count: nat, maxKm: real)
    ensures var r := NearestStations(stations, dist, count, maxKm);
      && r == RankedByDistance(stations, dist)[..|r|]
      && (forall i, j :: 0 <= i < j < |r| ==> r[i].distanceKm <= r[j].distanceKm)
      && (AnyWithin(stations, dist, maxKm) ==>
            && (forall x :: x in r ==> x.distanceKm <= maxKm)
            && |r| == Min(count, |Within(RankedByDistance(stations, dist), maxKm)|))
      && (!AnyWithin(stations, dist, maxKm) ==> |r| == Min(count, |stations|))
      && (stations != [] && count > 0 ==> r != [])
  {
    var sorted := RankedByDistance(stations, dist);
    WithinSortedIsPrefix(sorted, maxKm);
    WithinNonEmptyIff(stations, dist, maxKm);
  }

  /** The id `selectInitialStation` looks for first: NOAA's Santa Monica gauge. */
  const SantaMonicaId := "9410840"

  /** The `count` and `maxKm` that `nearestStations(lat, lng, 1)` runs with. */
  const InitialCount := 1
  const DefaultMaxKm := 160.0

  predicate IsSantaMonicaId(st: Station) {
    st.id == SantaMonicaId
  }

  predicate NamesSantaMonica(st: Station) {
    Contains(ToLower(st.name), "santa monica")
  }

  /**
   * `selectInitialStation`'s choice: the first station with id 9410840, else
   * the first whose lower-cased name contains "santa monica", else the
   * nearest station to Santa Monica; nothing only when there is no station.
   */
  function InitialStation(stations: seq<Station>, dist: Station -> real): (r: Option<Station>)
    ensures r.None? <==> stations == []
    ensures r.Some? ==> r.value in stations
    ensures (exists st :: st in stations && IsSantaMonicaId(st)) ==> r == Find(stations, IsSantaMonicaId)
    ensures !(exists st :: st in stations && IsSantaMonicaId(st)) && (exists st :: st in stations && NamesSantaMonica(st))
      ==> r == Find(stations, NamesSantaMonica)
    ensures !(exists st :: st in stations && (IsSantaMonicaId(st) || NamesSantaMonica(st))) && r.Some?
      ==> forall st :: st in stations ==> dist(r.value) <= dist(st)
    ensures !(exists st :: st in stations && (IsSantaMonicaId(st) || NamesSantaMonica(st))) && r.Some?
      ==> exists k :: FirstClosestAt(stations, dist, k) && r.value == stations[k]
  {
    var byId := Find(stations, IsSantaMonicaId);
    if byId.Some? then byId
    else
      var byName := Find(stations, NamesSantaMonica);
      if byName.Some? then byName
      else
        var near := NearestStations(stations, dist, InitialCount, DefaultMaxKm);
        if near == [] then None
        else
          NearestIsClosest(stations, dist, DefaultMaxKm);
          NearestIsFirstClosest(stations, dist, DefaultMaxKm);
          Some(near[0].station)
  }

  /** `st` is no farther than any station of the list. */
  predicate IsClosest(stations: seq<Station>, dist: Station -> real, st: Station) {
    forall o :: o in stations ==> dist(st) <= dist(o)
  }

  /** Position `k` holds the first station of the list that no station is nearer than. */
  predicate FirstClosestAt(stations: seq<Station>, dist: Station -> real, k: int) {
    && 0 <= k < |stations| && IsClosest(stations, dist, stations[k])
    && forall j :: 0 <= j < k ==> !IsClosest(stations, dist, stations[j])
  }

  /**
   * Because the sort is stable, the single nearest station is, of all the
   * stations at the least distance, the one listed first.
   */
  lemma NearestIsFirstClosest(stations: seq<Station>, dist: Station -> real, maxKm: real)
    requires stations != []
    ensures exists k ::
              FirstClosestAt(stations, dist, k) && NearestStations(stations, dist, 1, maxKm)[0].station == stations[k]
  {
    ByDistanceIsTotalPreorder();
    var a := Attach(stations, dist);
    var sorted := SortBy(a, ByDistance);
    var near := NearestStations(stations, dist, 1, maxKm);
    NearestStationsSpec(stations, dist, 1, maxKm);
    NearestIsClosest(stations, dist, maxKm);
    assert near[0] == sorted[0];
    var k0 := sorted[0];
    assert k0 in multiset(a);
    var m := FirstMatch(a, (x: Ranked) => Equivalent(x, k0, ByDistance));
    assert m.Some?;
    var i := m.value;
    SortByIsStable(a, k0, ByDistance);
    LevelWithHead(sorted, k0, ByDistance, 0);
    LevelWithHead(a, k0, ByDistance, i);
    assert sorted[0] == a[i];
    forall j | 0 <= j < i ensures !IsClosest(stations, dist, stations[j]) {
      assert !Equivalent(a[j], k0, ByDistance);
      assert stations[i] in stations;
    }
    assert FirstClosestAt(stations, dist, i);
  }

  /** The single nearest station is no farther than any station. */
  lemma NearestIsClosest(stations: seq<Station>, dist: Station -> real, maxKm: real)
    requires stations != []
    ensures var near := NearestStations(stations, dist, 1, maxKm);
      && |near| == 1 && near[0].station in stations
      && forall st :: st in stations ==> dist(near[0].station) <= dist(st)
  {
    var sorted := RankedByDistance(stations, dist);
    var near := NearestStations(stations, dist, 1, maxKm);
    NearestStationsSpec(stations, dist, 1, maxKm);
    RankedMembers(stations, dist);
    assert near[0] == sorted[0];
    assert sorted[0] in sorted;
    forall st | st in stations ensures dist(near[0].station) <= dist(st) {
      var j :| 0 <= j < |sorted| && sorted[j] == Ranked(st, dist(st));
      if j > 0 {
        assert ByDistance(sorted[0], sorted[j]);
      }
    }
  }
}
