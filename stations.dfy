/**
 * The station merger: a pass over the station rows builds a dictionary of
 * stations keyed by stop number, a pass over the stop rows adds each stop to
 * its station, skipping stops the station already has, and at the end every
 * station's location is set from the locations of its stops.
 *
 * The dictionary lives in a `StationMerger` object whose methods update it in
 * place, one row at a time. Each method is specified by a pure step function
 * (`WithStation`, `WithStop`, `Located`), and the lemmas state what those
 * steps, and the passes built from them (`StationsOf`, `StopsOf`), guarantee.
 * The centroid computation is a parameter `centroid`.
 */
module Stations {
  import opened Common

  /** A row of the station table. */
  datatype StationRow = StationRow(
    stopNr: string, stopName: string, ifopt: string, occ: string, place: string,
    fareZone: string, fareZone2: string, fareZone3: string,
    fareZone4: string, fareZone5: string, fareZone6: string)

  /** A row of the stopping point table. */
  datatype StopRow = StopRow(
    stopNr: string, stoppingPointNr: string, stoppingPointShortName: string, ifopt: string,
    stoppingPointPosX: string, stoppingPointPosY: string)

  datatype Location = Location(latitude: Coordinate, longitude: Coordinate)

  datatype Stop = Stop(id: string, name: string, ifoptId: string, location: Location)

  /** `gemeinde` and `stadt` are the municipality (OCC) and place (PLACE) fields. */
  datatype Station = Station(
    id: string, name: string, location: Location, ifoptId: string,
    gemeinde: string, stadt: string, fareZones: seq<int>, stops: seq<Stop>)

  // ---------------------------------------------------------------------------
  // Fare zones

  /** The six `parseInt(row.FARE_ZONE*)` values, `None` standing for NaN. */
  function ZoneCandidates(row: StationRow): seq<Option<int>> {
    [ParseInt(row.fareZone), ParseInt(row.fareZone2), ParseInt(row.fareZone3),
     ParseInt(row.fareZone4), ParseInt(row.fareZone5), ParseInt(row.fareZone6)]
  }

  /** `.filter(n => !Number.isNaN(n) && n !== -1)`, keeping the order. */
  function KeepZones(zs: seq<Option<int>>): seq<int> {
    if zs == [] then []
    else if zs[0].Some? && zs[0].value != -1 then [zs[0].value] + KeepZones(zs[1..])
    else KeepZones(zs[1..])
  }

  /** The filter keeps exactly the numbers other than -1. */
  lemma {:induction false} KeepZonesSpec(zs: seq<Option<int>>)
    ensures forall x :: x in KeepZones(zs) <==> Some(x) in zs && x != -1
  {
    if zs != [] {
      KeepZonesSpec(zs[1..]);
      assert forall x :: Some(x) in zs <==> Some(x) == zs[0] || Some(x) in zs[1..];
    }
  }

  /** Filtering a concatenation filters each part and keeps them in order. */
  lemma {:induction false} KeepZonesAppend(a: seq<Option<int>>, b: seq<Option<int>>)
    ensures KeepZones(a + b) == KeepZones(a) + KeepZones(b)
  {
    if a == [] {
      assert a + b == b;
    } else {
      assert (a + b)[1..] == a[1..] + b;
      KeepZonesAppend(a[1..], b);
    }
  }

  /** No value occurs twice in `xs`. */
  predicate NoDuplicates<T(==)>(xs: seq<T>) {
    forall i, j :: 0 <= i < j < |xs| ==> xs[i] != xs[j]
  }

  /** lodash `uniq`: the first occurrence of each value, in order. */
  function Uniq<T(==)>(xs: seq<T>): seq<T> {
    if xs == [] then []
    else
      var init := Uniq(xs[..|xs| - 1]);
      if xs[|xs| - 1] in init then init else init + [xs[|xs| - 1]]
  }

  /** `uniq` keeps every value and drops every repetition. */
  lemma {:induction false} UniqSpec<T>(xs: seq<T>)
    ensures forall x :: x in Uniq(xs) <==> x in xs
    ensures NoDuplicates(Uniq(xs))
  {
    if xs != [] {
      var n := |xs| - 1;
      UniqSpec(xs[..n]);
      assert forall x :: x in xs <==> x in xs[..n] || x == xs[n];
    }
  }

  /** A value listed by `uniq` comes from its input. */
  lemma UniqMember<T>(xs: seq<T>, x: T)
    requires x in Uniq(xs)
    ensures x in xs
  {
    UniqSpec(xs);
  }

  /** A list without repetitions is its own `uniq`. */
  lemma {:induction false} UniqOfDistinct<T>(xs: seq<T>)
    requires NoDuplicates(xs)
    ensures Uniq(xs) == xs
  {
    if xs != [] {
      var n := |xs| - 1;
      UniqOfDistinct(xs[..n]);
      assert xs[..n] + [xs[n]] == xs;
    }
  }

  /** The position of the first occurrence of `x` in `xs`. */
  function FirstIndex<T(==)>(xs: seq<T>, x: T): (n: nat)
    requires x in xs
    ensures n < |xs| && xs[n] == x && x !in xs[..n]
  {
    if xs[0] == x then 0
    else
      var m := FirstIndex(xs[1..], x);
      assert xs[..m + 1] == [xs[0]] + xs[1..][..m];
      m + 1
  }

  /** A value of a prefix first occurs in the whole list where it first occurs in the prefix. */
  lemma FirstIndexOfPrefix<T>(xs: seq<T>, k: nat, x: T)
    requires k <= |xs| && x in xs[..k]
    ensures FirstIndex(xs, x) == FirstIndex(xs[..k], x)
  {
    var f, g := FirstIndex(xs[..k], x), FirstIndex(xs, x);
    assert xs[..k][..f] == xs[..f];
  }

  /** `uniq` lists the values in the order of their first occurrences. */
  lemma {:induction false} UniqOrder<T>(xs: seq<T>, i: nat, j: nat)
    requires i < j < |Uniq(xs)|
    ensures Uniq(xs)[i] in xs && Uniq(xs)[j] in xs
    ensures FirstIndex(xs, Uniq(xs)[i]) < FirstIndex(xs, Uniq(xs)[j])
  {
    var n := |xs| - 1;
    var init := xs[..n];
    UniqSpec(xs);
    UniqSpec(init);
    var u := Uniq(init);
    var a, b := Uniq(xs)[i], Uniq(xs)[j];
    if j < |u| {
      assert a == u[i] && b == u[j];
      UniqOrder(init, i, j);
      FirstIndexOfPrefix(xs, n, a);
      FirstIndexOfPrefix(xs, n, b);
    } else {
      assert b == xs[n] && b !in init && a == u[i] && a in u;
      UniqMember(init, a);
      FirstIndexOfPrefix(xs, n, a);
    }
  }

  /** A station's fare zones: `uniq` of the filtered FARE_ZONE values. */
  function FareZones(row: StationRow): seq<int> {
    Uniq(KeepZones(ZoneCandidates(row)))
  }

  /**
   * The fare zones hold no NaN and no -1, no zone twice, and exactly the
   * valid values among the six FARE_ZONE fields.
   */
  lemma FareZonesSpec(row: StationRow)
    ensures -1 !in FareZones(row)
    ensures NoDuplicates(FareZones(row))
    ensures forall z :: z in FareZones(row) <==> Some(z) in ZoneCandidates(row) && z != -1
  {
    KeepZonesSpec(ZoneCandidates(row));
    UniqSpec(KeepZones(ZoneCandidates(row)));
  }

  // ---------------------------------------------------------------------------
  // The station pass

  function StationId(row: StationRow): string {
    Trim(row.stopNr)
  }

  /** The record `writeStation` builds: no location yet, no stops yet. */
  function NewStation(row: StationRow): Station {
    Station(
      StationId(row), Trim(row.stopName), Location(Null, Null), Trim(row.ifopt),
      Trim(row.occ), Trim(row.place), FareZones(row), [])
  }

  /** One step of the station pass. */
  function WithStation(stations: map<string, Station>, row: StationRow): Result<map<string, Station>> {
    var station := NewStation(row);
    if station.id in stations && stations[station.id] != station then
      Err(NonUniqueStationId(station.id))
    else
      Ok(stations[station.id := station])
  }

  /**
   * The step fails exactly when a different record is stored under the same
   * id. Otherwise the id holds the new record, with null coordinates and no
   * stops, and no other key is added, removed or changed.
   */
  lemma WithStationSpec(stations: map<string, Station>, row: StationRow)
    ensures var r, id := WithStation(stations, row), StationId(row);
            && (r.Err? <==> id in stations && stations[id] != NewStation(row))
            && (r.Err? ==> r.error == NonUniqueStationId(id))
            && (r.Ok? ==> && r.value.Keys == stations.Keys + {id}
                          && r.value[id] == NewStation(row)
                          && r.value[id].stops == [] && r.value[id].location == Location(Null, Null)
                          && forall k :: k in stations && k != id ==> r.value[k] == stations[k])
  {
  }

  /** Writing a record identical to the stored one changes nothing, so writing a row twice is writing it once. */
  lemma WithStationIdempotent(stations: map<string, Station>, row: StationRow)
    ensures StationId(row) in stations && stations[StationId(row)] == NewStation(row) ==>
              WithStation(stations, row) == Ok(stations)
    ensures WithStation(stations, row).Ok? ==>
              WithStation(WithStation(stations, row).value, row) == WithStation(stations, row)
  {
    var id := StationId(row);
    if id in stations && stations[id] == NewStation(row) {
      assert stations[id := NewStation(row)] == stations;
    }
    var r := WithStation(stations, row);
    if r.Ok? {
      assert r.value[id := NewStation(row)] == r.value;
    }
  }

  /** The station pass over `rows`, from an empty dictionary. */
  function StationsOf(rows: seq<StationRow>): Result<map<string, Station>> {
    Fold(map[], rows, WithStation)
  }

  /*
   * The station pass is an instance of a pass that stores `build(row)` under
   * `key(row)` and refuses a different record under a key already present.
   * Its properties are proved once for any such pass, where the records are
   * opaque values.
   */

  /** `step` stores `build(r)` under `key(r)`, and fails when a different value is there. */
  ghost predicate InsertsUnique<R(!new), V(!new)>(step: (map<string, V>, R) -> Result<map<string, V>>, key: R -> string, build: R -> V) {
    forall m, r ::
      && (step(m, r).Ok? <==> (key(r) in m ==> m[key(r)] == build(r)))
      && (step(m, r).Ok? ==> step(m, r).value == m[key(r) := build(r)])
  }

  /** Rows with the same key build the same value. */
  ghost predicate AgreeOnKeys<R, V>(rows: seq<R>, key: R -> string, build: R -> V) {
    forall i, j :: 0 <= i < j < |rows| && key(rows[i]) == key(rows[j]) ==> build(rows[i]) == build(rows[j])
  }

  /** `m` holds the keys of `rows`, each with the value built from every row with that key. */
  ghost predicate Describes<R, V>(m: map<string, V>, rows: seq<R>, key: R -> string, build: R -> V) {
    && (forall k :: k in m <==> exists i :: 0 <= i < |rows| && key(rows[i]) == k)
    && (forall i :: 0 <= i < |rows| ==> key(rows[i]) in m && m[key(rows[i])] == build(rows[i]))
  }

  /** Rows agree on their keys when the earlier rows do and the new row agrees with each of them. */
  lemma AgreeOnKeysSnoc<R, V>(init: seq<R>, last: R, key: R -> string, build: R -> V)
    ensures AgreeOnKeys(init + [last], key, build) <==>
            && AgreeOnKeys(init, key, build)
            && (forall i :: 0 <= i < |init| && key(init[i]) == key(last) ==> build(init[i]) == build(last))
  {
    var rows := init + [last];
    assert forall i :: 0 <= i < |init| ==> rows[i] == init[i];
    assert rows[|init|] == last;
  }

  /**
   * Against a description of the earlier rows, a new row conflicts exactly when
   * its key holds a different value, and storing it describes all the rows.
   */
  lemma DescribesSnoc<R, V>(m: map<string, V>, init: seq<R>, last: R, key: R -> string, build: R -> V)
    requires Describes(m, init, key, build)
    ensures (key(last) in m ==> m[key(last)] == build(last)) <==>
            (forall i :: 0 <= i < |init| && key(init[i]) == key(last) ==> build(init[i]) == build(last))
    ensures (key(last) in m ==> m[key(last)] == build(last)) ==>
            Describes(m[key(last) := build(last)], init + [last], key, build)
  {
    var rows := init + [last];
    assert forall i :: 0 <= i < |init| ==> rows[i] == init[i];
    assert rows[|init|] == last;
    if key(last) in m {
      var i :| 0 <= i < |init| && key(init[i]) == key(last);
      assert m[key(init[i])] == build(init[i]);
    }
    if key(last) in m ==> m[key(last)] == build(last) {
      var m' := m[key(last) := build(last)];
      forall k | k in m' ensures exists i :: 0 <= i < |rows| && key(rows[i]) == k {
        if k != key(last) {
          var i :| 0 <= i < |init| && key(init[i]) == k;
          assert key(rows[i]) == k;
        } else {
          assert key(rows[|init|]) == k;
        }
      }
    }
  }

  /**
   * A unique-insert pass succeeds exactly when rows sharing a key agree on the
   * value, and then the result holds the keys of the rows with their values.
   */
  lemma {:induction false} UniqueInsertPass<R(!new), V(!new)>(
    rows: seq<R>, step: (map<string, V>, R) -> Result<map<string, V>>, key: R -> string, build: R -> V)
    requires InsertsUnique(step, key, build)
    ensures Fold(map[], rows, step).Ok? <==> AgreeOnKeys(rows, key, build)
    ensures Fold(map[], rows, step).Ok? ==> Describes(Fold(map[], rows, step).value, rows, key, build)
  {
    if rows != [] {
      var n := |rows| - 1;
      var init, last := rows[..n], rows[n];
      assert rows == init + [last];
      UniqueInsertPass(init, step, key, build);
      AgreeOnKeysSnoc(init, last, key, build);
      var r0 := Fold(map[], init, step);
      if r0.Ok? {
        DescribesSnoc(r0.value, init, last, key, build);
      }
    }
  }

  /** The station step is a unique insert of the row's record under its trimmed id. */
  lemma WithStationInsertsUnique()
    ensures InsertsUnique(WithStation, StationId, NewStation)
  {
  }

  /**
   * The station pass succeeds exactly when rows sharing an id agree on the
   * whole record (otherwise: non-unique station ID), and then its keys are the
   * ids of the rows and each id holds the record of every row with that id.
   */
  lemma StationsOfSpec(rows: seq<StationRow>)
    ensures StationsOf(rows).Ok? <==> AgreeOnKeys(rows, StationId, NewStation)
    ensures StationsOf(rows).Ok? ==> Describes(StationsOf(rows).value, rows, StationId, NewStation)
  {
    WithStationInsertsUnique();
    UniqueInsertPass(rows, WithStation, StationId, NewStation);
  }

  // ---------------------------------------------------------------------------
  // The stop pass

  function StopStationId(row: StopRow): string {
    Trim(row.stopNr)
  }

  /** The stop `writeStop` builds; coordinates keep the integer before the division by 1000000. */
  function NewStop(row: StopRow): Stop {
    Stop(
      Trim(row.stoppingPointNr), Trim(row.stoppingPointShortName), Trim(row.ifopt),
      Location(ToCoordinate(row.stoppingPointPosY), ToCoordinate(row.stoppingPointPosX)))
  }

  /** Station `id`'s stops with `stop` appended, unless an equal stop is there already. */
  function AppendStop(stations: map<string, Station>, id: string, stop: Stop): map<string, Station>
    requires id in stations
  {
    if stop in stations[id].stops then stations
    else stations[id := stations[id].(stops := stations[id].stops + [stop])]
  }

  /** One step of the stop pass: an unknown station id fails, otherwise the stop is appended. */
  function WithStop(stations: map<string, Station>, row: StopRow): Result<map<string, Station>> {
    var id := StopStationId(row);
    if id !in stations then Err(UnknownStationId(id))
    else Ok(AppendStop(stations, id, NewStop(row)))
  }

  /** Every station's stops are free of duplicates. */
  predicate StopsDistinct(stations: map<string, Station>) {
    forall k :: k in stations ==> NoDuplicates(stations[k].stops)
  }

  /** A value present once in a list without duplicates is counted once. */
  lemma {:induction false} CountInDistinct<T>(xs: seq<T>, x: T)
    requires NoDuplicates(xs) && x in xs
    ensures multiset(xs)[x] == 1
  {
    var n := |xs| - 1;
    assert xs == xs[..n] + [xs[n]];
    if xs[n] == x {
      assert x !in xs[..n];
    } else {
      CountInDistinct(xs[..n], x);
    }
  }

  /**
   * An unknown station id fails the step. Otherwise only the matched station's
   * stops may change: no key is added, the other stations and all other fields
   * stay, the new stop ends up in the list exactly once, and a list that
   * already held an equal stop is left as it was.
   */
  lemma WithStopSpec(stations: map<string, Station>, row: StopRow)
    requires StopsDistinct(stations)
    ensures var r, id := WithStop(stations, row), StopStationId(row);
            && (r.Err? <==> id !in stations)
            && (r.Err? ==> r.error == UnknownStationId(id))
            && (r.Ok? ==> && r.value.Keys == stations.Keys
                          && StopsDistinct(r.value)
                          && r.value[id] == stations[id].(stops := r.value[id].stops)
                          && multiset(r.value[id].stops)[NewStop(row)] == 1
                          && (NewStop(row) in stations[id].stops ==> r.value == stations)
                          && (NewStop(row) !in stations[id].stops ==>
                                r.value[id].stops == stations[id].stops + [NewStop(row)])
                          && forall k :: k in stations && k != id ==> r.value[k] == stations[k])
  {
    var r, id := WithStop(stations, row), StopStationId(row);
    if r.Ok? {
      CountInDistinct(r.value[id].stops, NewStop(row));
    }
  }

  /** Writing the same stop row twice leaves a single entry. */
  lemma WithStopIdempotent(stations: map<string, Station>, row: StopRow)
    requires WithStop(stations, row).Ok?
    ensures WithStop(WithStop(stations, row).value, row) == WithStop(stations, row)
  {
  }

  /** The stop pass over `rows`, starting from the stations of the first pass. */
  function StopsOf(stations: map<string, Station>, rows: seq<StopRow>): Result<map<string, Station>> {
    Fold(stations, rows, WithStop)
  }

  /*
   * The stop pass is an instance of a pass that appends `build(row)` to the
   * stops of station `key(row)` and fails on an unknown key. Its properties
   * are proved once for any such pass, where the stops are opaque values.
   */

  /** `step` fails exactly on an unknown key and otherwise appends `build(r)` to that station. */
  ghost predicate AppendsToKnown<R(!new)>(step: (map<string, Station>, R) -> Result<map<string, Station>>, key: R -> string, build: R -> Stop) {
    forall m, r ::
      && (step(m, r).Ok? <==> key(r) in m)
      && (step(m, r).Ok? ==> step(m, r).value == AppendStop(m, key(r), build(r)))
  }

  /** Every row names a station of `stations`. */
  ghost predicate AllKnownStations<R>(stations: map<string, Station>, rows: seq<R>, key: R -> string) {
    forall i :: 0 <= i < |rows| ==> key(rows[i]) in stations
  }

  /**
   * `m` is `stations` with the stops of `rows` appended: the same keys, every
   * field but the stops kept, the old stops in front, no stop twice, and each
   * station's stops are its old ones and those of the rows naming it.
   */
  ghost predicate Appended<R>(stations: map<string, Station>, m: map<string, Station>, rows: seq<R>, key: R -> string, build: R -> Stop) {
    && m.Keys == stations.Keys
    && StopsDistinct(m)
    && forall k :: k in stations ==>
         && m[k] == stations[k].(stops := m[k].stops)
         && stations[k].stops <= m[k].stops
         && forall s :: s in m[k].stops <==>
              s in stations[k].stops || exists i :: 0 <= i < |rows| && key(rows[i]) == k && build(rows[i]) == s
  }

  /**
   * Appending a stop keeps the keys, the other fields, the old stops in front
   * and the lists free of duplicates; it adds `stop` to station `id` and
   * nothing else.
   */
  lemma AppendStopSpec(m: map<string, Station>, id: string, stop: Stop)
    requires id in m && StopsDistinct(m)
    ensures var m' := AppendStop(m, id, stop);
            && m'.Keys == m.Keys
            && StopsDistinct(m')
            && forall k :: k in m ==>
                 && m'[k] == m[k].(stops := m'[k].stops)
                 && m[k].stops <= m'[k].stops
                 && forall s :: s in m'[k].stops <==> s in m[k].stops || (k == id && s == stop)
  {
  }

  /** Appending one more row's stop keeps `Appended`. */
  lemma AppendedSnoc<R>(stations: map<string, Station>, m: map<string, Station>, init: seq<R>, last: R, key: R -> string, build: R -> Stop)
    requires Appended(stations, m, init, key, build) && key(last) in m
    ensures Appended(stations, AppendStop(m, key(last), build(last)), init + [last], key, build)
  {
    var rows := init + [last];
    var m' := AppendStop(m, key(last), build(last));
    AppendStopSpec(m, key(last), build(last));
    assert forall i :: 0 <= i < |init| ==> rows[i] == init[i];
    assert rows[|init|] == last;
    forall k | k in stations
      ensures forall s :: s in m'[k].stops <==>
                s in stations[k].stops || exists i :: 0 <= i < |rows| && key(rows[i]) == k && build(rows[i]) == s
    {
      forall s | s in m'[k].stops
        ensures s in stations[k].stops || exists i :: 0 <= i < |rows| && key(rows[i]) == k && build(rows[i]) == s
      {
        if s !in m[k].stops {
          assert key(rows[|init|]) == k && build(rows[|init|]) == s;
        } else if s !in stations[k].stops {
          var i :| 0 <= i < |init| && key(init[i]) == k && build(init[i]) == s;
          assert key(rows[i]) == k;
        }
      }
      forall s | exists i :: 0 <= i < |rows| && key(rows[i]) == k && build(rows[i]) == s
        ensures s in m'[k].stops
      {
        var i :| 0 <= i < |rows| && key(rows[i]) == k && build(rows[i]) == s;
        if i < |init| {
          assert key(init[i]) == k && build(init[i]) == s;
        }
      }
    }
  }

  /** With no rows, the stations themselves are the result. */
  lemma AppendedNothing<R>(stations: map<string, Station>, key: R -> string, build: R -> Stop)
    requires StopsDistinct(stations)
    ensures Appended(stations, stations, [], key, build)
  {
  }

  /**
   * An append pass succeeds exactly when every row names a known station, and
   * then its result is the stations with the rows' stops appended.
   */
  lemma {:induction false} AppendPass<R(!new)>(
    stations: map<string, Station>, rows: seq<R>,
    step: (map<string, Station>, R) -> Result<map<string, Station>>, key: R -> string, build: R -> Stop)
    requires AppendsToKnown(step, key, build) && StopsDistinct(stations)
    ensures Fold(stations, rows, step).Ok? <==> AllKnownStations(stations, rows, key)
    ensures Fold(stations, rows, step).Ok? ==> Appended(stations, Fold(stations, rows, step).value, rows, key, build)
  {
    if rows == [] {
      AppendedNothing(stations, key, build);
    } else {
      var n := |rows| - 1;
      var init, last := rows[..n], rows[n];
      assert rows == init + [last];
      AppendPass(stations, init, step, key, build);
      var r0 := Fold(stations, init, step);
      if r0.Ok? {
        assert Fold(stations, rows, step) == step(r0.value, last);
        if key(last) in r0.value {
          AppendedSnoc(stations, r0.value, init, last, key, build);
        } else {
          assert key(rows[n]) !in stations;
        }
      } else {
        var i :| 0 <= i < n && key(init[i]) !in stations;
        assert key(rows[i]) !in stations;
      }
    }
  }

  /**
   * The order of an append pass: each station's stops end up as `uniq` of its
   * old stops followed by the stops of its rows in row order, so a new stop
   * goes to the back and one equal to a stop already there is dropped.
   */
  lemma {:induction false} AppendPassInOrder<R(!new)>(
    stations: map<string, Station>, rows: seq<R>,
    step: (map<string, Station>, R) -> Result<map<string, Station>>, key: R -> string, build: R -> Stop)
    requires AppendsToKnown(step, key, build) && StopsDistinct(stations)
    ensures Fold(stations, rows, step).Ok? ==> Fold(stations, rows, step).value.Keys == stations.Keys
    ensures Fold(stations, rows, step).Ok? ==>
              forall k :: k in stations ==>
                Fold(stations, rows, step).value[k].stops == Uniq(stations[k].stops + Contributed(rows, key, build, k))
  {
    var r := Fold(stations, rows, step);
    if rows == [] {
      forall k | k in stations
        ensures stations[k].stops == Uniq(stations[k].stops + Contributed(rows, key, build, k))
      {
        assert stations[k].stops + [] == stations[k].stops;
        UniqOfDistinct(stations[k].stops);
      }
    } else if r.Ok? {
      var n := |rows| - 1;
      var init, last := rows[..n], rows[n];
      var r0 := Fold(stations, init, step);
      assert r0.Ok?;
      AppendPassInOrder(stations, init, step, key, build);
      var m := r0.value;
      assert r == step(m, last) && key(last) in m;
      assert r.value == AppendStop(m, key(last), build(last));
      forall k | k in stations
        ensures r.value[k].stops == Uniq(stations[k].stops + Contributed(rows, key, build, k))
      {
        var before := stations[k].stops + Contributed(init, key, build, k);
        if key(last) == k {
          var xs := before + [build(last)];
          assert stations[k].stops + Contributed(rows, key, build, k) == xs;
          assert xs[..|xs| - 1] == before;
        } else {
          assert Contributed(rows, key, build, k) == Contributed(init, key, build, k);
        }
      }
    }
  }

  /** The stop step appends to known stations. */
  lemma WithStopAppendsToKnown()
    ensures AppendsToKnown(WithStop, StopStationId, NewStop)
  {
  }

  /**
   * The stop pass succeeds exactly when every row names a known station. Then
   * no station is added, every field but the stop lists is kept, no list
   * holds a stop twice, and a station's stops are its old ones followed by
   * the new stops of the rows naming it, in row order.
   */
  lemma StopsOfSpec(stations: map<string, Station>, rows: seq<StopRow>)
    requires StopsDistinct(stations)
    ensures StopsOf(stations, rows).Ok? <==> AllKnownStations(stations, rows, StopStationId)
    ensures StopsOf(stations, rows).Ok? ==> Appended(stations, StopsOf(stations, rows).value, rows, StopStationId, NewStop)
    ensures StopsOf(stations, rows).Ok? ==>
              forall k :: k in stations ==>
                StopsOf(stations, rows).value[k].stops == Uniq(stations[k].stops + Contributed(rows, StopStationId, NewStop, k))
  {
    WithStopAppendsToKnown();
    AppendPass(stations, rows, WithStop, StopStationId, NewStop);
    AppendPassInOrder(stations, rows, WithStop, StopStationId, NewStop);
  }

  /** Rows that all name known stations are appended without error, and no station is added. */
  lemma {:induction false} KnownPrefixOk<R(!new)>(
    stations: map<string, Station>, rows: seq<R>, n: nat,
    step: (map<string, Station>, R) -> Result<map<string, Station>>, key: R -> string, build: R -> Stop)
    requires AppendsToKnown(step, key, build)
    requires n <= |rows| && forall j :: 0 <= j < n ==> key(rows[j]) in stations
    ensures Fold(stations, rows[..n], step).Ok? && Fold(stations, rows[..n], step).value.Keys == stations.Keys
  {
    if n > 0 {
      KnownPrefixOk(stations, rows, n - 1, step, key, build);
      FoldStep(stations, rows, n - 1, step, Fold(stations, rows[..n - 1], step).value);
    }
  }

  /** The first row that names an unknown station decides the error of the stop pass, whatever follows. */
  lemma FirstUnknownStationFails(stations: map<string, Station>, rows: seq<StopRow>, i: nat)
    requires i < |rows| && StopStationId(rows[i]) !in stations
    requires forall j :: 0 <= j < i ==> StopStationId(rows[j]) in stations
    ensures StopsOf(stations, rows) == Err(UnknownStationId(StopStationId(rows[i])))
  {
    WithStopAppendsToKnown();
    KnownPrefixOk(stations, rows, i, WithStop, StopStationId, NewStop);
    FoldStep(stations, rows, i, WithStop, StopsOf(stations, rows[..i]).value);
  }

  // ---------------------------------------------------------------------------
  // Locations, and the whole merge

  /** `station.stops.map(s => s.location)`. */
  function StopLocations(stops: seq<Stop>): (locs: seq<Location>)
    ensures |locs| == |stops|
    ensures forall i :: 0 <= i < |stops| ==> locs[i] == stops[i].location
  {
    if stops == [] then [] else [stops[0].location] + StopLocations(stops[1..])
  }

  /** The stations once every location has been set from its stops' locations. */
  function Located(stations: map<string, Station>, centroid: seq<Location> -> Location): map<string, Station> {
    map k | k in stations :: stations[k].(location := centroid(StopLocations(stations[k].stops)))
  }

  /** The outcome of `mergeStations`: both passes, then the locations. */
  function Merge(stationRows: seq<StationRow>, stopRows: seq<StopRow>, centroid: seq<Location> -> Location)
    : Result<map<string, Station>>
  {
    match StationsOf(stationRows)
    case Err(e) => Err(e)
    case Ok(stations) =>
      match StopsOf(stations, stopRows)
      case Err(e) => Err(e)
      case Ok(withStops) => Ok(Located(withStops, centroid))
  }

  /**
   * A successful merge has one station per station id, each located at the
   * centroid of its own stops, with no stop listed twice.
   */
  lemma MergeSpec(stationRows: seq<StationRow>, stopRows: seq<StopRow>, centroid: seq<Location> -> Location)
    ensures var r := Merge(stationRows, stopRows, centroid);
            r.Ok? ==> && (forall k :: k in r.value <==> exists i :: 0 <= i < |stationRows| && StationId(stationRows[i]) == k)
                      && StopsDistinct(r.value)
                      && forall k :: k in r.value ==> r.value[k].location == centroid(StopLocations(r.value[k].stops))
  {
    StationsOfSpec(stationRows);
    var s := StationsOf(stationRows);
    if s.Ok? {
      assert StopsDistinct(s.value) by {
        forall k | k in s.value ensures NoDuplicates(s.value[k].stops) {
          var i :| 0 <= i < |stationRows| && StationId(stationRows[i]) == k;
          assert s.value[k] == NewStation(stationRows[i]);
        }
      }
      StopsOfSpec(s.value, stopRows);
    }
  }

  class StationMerger {
    /** The dictionary the two passes fill, keyed by station id. */
    var stations: map<string, Station>

    constructor ()
      ensures stations == map[]
    {
      stations := map[];
    }

    /** `writeStation`: one station row, in place. */
    method WriteStation(row: StationRow) returns (err: Option<Error>)
      modifies this
      ensures err.None? ==> WithStation(old(stations), row) == Ok(stations)
      ensures err.Some? ==> WithStation(old(stations), row) == Err(err.value) && stations == old(stations)
    {
      var station := NewStation(row);
      if station.id in stations && stations[station.id] != station {
        return Some(NonUniqueStationId(station.id));
      }
      stations := stations[station.id := station];
      return None;
    }

    /** `writeStop`: one stop row, in place. */
    method WriteStop(row: StopRow) returns (err: Option<Error>)
      modifies this
      ensures err.None? ==> WithStop(old(stations), row) == Ok(stations)
      ensures err.Some? ==> WithStop(old(stations), row) == Err(err.value) && stations == old(stations)
    {
      var stationId := Trim(row.stopNr);
      if stationId !in stations {
        return Some(UnknownStationId(stationId));
      }
      var station := stations[stationId];
      var stop := NewStop(row);
      if stop !in station.stops {
        stations := stations[stationId := station.(stops := station.stops + [stop])];
      }
      return None;
    }

    /** The station stream piped into `writeStation`: row by row, until the first error. */
    method WriteStations(rows: seq<StationRow>) returns (err: Option<Error>)
      modifies this
      ensures Fold(old(stations), rows, WithStation) == if err.None? then Ok(stations) else Err(err.value)
    {
      var start := stations;
      var n := 0;
      while n < |rows|
        invariant n <= |rows|
        invariant Fold(start, rows[..n], WithStation) == Ok(stations)
      {
        FoldStep(start, rows, n, WithStation, stations);
        err := WriteStation(rows[n]);
        if err.Some? {
          return;
        }
        n := n + 1;
      }
      assert rows[..n] == rows;
      return None;
    }

    /** The stop stream piped into `writeStop`: row by row, until the first error. */
    method WriteStops(rows: seq<StopRow>) returns (err: Option<Error>)
      modifies this
      ensures Fold(old(stations), rows, WithStop) == if err.None? then Ok(stations) else Err(err.value)
    {
      var start := stations;
      var n := 0;
      while n < |rows|
        invariant n <= |rows|
        invariant Fold(start, rows[..n], WithStop) == Ok(stations)
      {
        FoldStep(start, rows, n, WithStop, stations);
        err := WriteStop(rows[n]);
        if err.Some? {
          return;
        }
        n := n + 1;
      }
      assert rows[..n] == rows;
      return None;
    }

    /** The loop at the end of the stop pass: every station's location, from its own stops. */
    method AssignLocations(centroid: seq<Location> -> Location)
      modifies this
      ensures stations == Located(old(stations), centroid)
    {
      var todo := stations.Keys;
      while todo != {}
        invariant todo <= stations.Keys == old(stations).Keys
        invariant forall k :: k in todo ==> stations[k] == old(stations)[k]
        invariant forall k :: k in stations && k !in todo ==>
                    stations[k] == old(stations)[k].(location := centroid(StopLocations(old(stations)[k].stops)))
        decreases todo
      {
        var k :| k in todo;
        var station := stations[k];
        stations := stations[k := station.(location := centroid(StopLocations(station.stops)))];
        todo := todo - {k};
      }
    }
  }

  /**
   * `mergeStations`: the station pass, then the stop pass, then the locations;
   * the first error ends the merge and is the only outcome reported.
   */
  method MergeStations(stationRows: seq<StationRow>, stopRows: seq<StopRow>, centroid: seq<Location> -> Location)
    returns (r: Result<map<string, Station>>)
    ensures r == Merge(stationRows, stopRows, centroid)
  {
    var merger := new StationMerger();
    var err := merger.WriteStations(stationRows);
    if err.Some? {
      return Err(err.value);
    }
    err := merger.WriteStops(stopRows);
    if err.Some? {
      return Err(err.value);
    }
    merger.AssignLocations(centroid);
    return Ok(merger.stations);
  }
}
