/**
 * The schedule table readers: restrictions (service calendars), routes, and
 * the stops of each route, and the reader that runs them one after another.
 *
 * Each reader is a pass over the rows of one table: a per-row step updates a
 * dictionary, and the first step that fails ends the pass with its error.
 * Every pass has a specification function over the rows (`RestrictionsOf`,
 * `RoutesOf`, `AttachStops`), and the lemmas below say what those tables hold.
 */
module Schedule {
  import opened Common
  import opened Calendar

  /** A row of the restriction table. The two dates arrive already parsed. */
  datatype RestrictionRow = RestrictionRow(
    restriction: string,      // RESTRICTION
    restrictText1: string,    // RESTRICT_TEXT1
    restrictionDays: string,  // RESTRICTION_DAYS, a hexadecimal bitfield
    dateFrom: Date,           // DATE_FROM
    dateUntil: Date)          // DATE_UNTIL

  /** A row of the route table. */
  datatype RouteRow = RouteRow(lineNr: string, strLineVar: string, lineName: string)

  /** A row of the route stop table. */
  datatype RouteStopRow = RouteStopRow(
    lineNr: string, strLineVar: string, lineConsecNr: string, stopNr: string, length: string)

  datatype Restriction = Restriction(id: string, name: string, days: seq<int>)

  /** `{i, id, distanceTravelled}`; `None` stands for the NaN of a failed `parseInt`. */
  datatype RouteStop = RouteStop(i: Option<int>, id: string, distanceTravelled: Option<int>)

  datatype Route = Route(id: string, name: string, stops: seq<RouteStop>)

  // ---------------------------------------------------------------------------
  // Tables keyed by string, later rows overwriting earlier ones

  /** The dictionary built by storing `value(row)` under `key(row)` for each row in turn. */
  function Table<R, V>(rows: seq<R>, key: R -> string, value: R -> V): map<string, V>
  {
    if rows == [] then map[]
    else Table(rows[..|rows| - 1], key, value)[key(rows[|rows| - 1]) := value(rows[|rows| - 1])]
  }

  /** One more row stores its value under its key and leaves every other key as it was. */
  lemma TableStep<R, V>(rows: seq<R>, row: R, key: R -> string, value: R -> V)
    ensures var t, t' := Table(rows, key, value), Table(rows + [row], key, value);
            && key(row) in t' && t'[key(row)] == value(row)
            && (forall k :: k != key(row) ==> (k in t' <==> k in t))
            && (forall k :: k != key(row) && k in t ==> t'[k] == t[k])
  {
    assert (rows + [row])[..|rows|] == rows;
  }

  /** The table of the first `n + 1` rows is that of the first `n` plus row `n`. */
  lemma TablePrefix<R, V>(rows: seq<R>, n: nat, key: R -> string, value: R -> V)
    requires n < |rows|
    ensures Table(rows[..n + 1], key, value) == Table(rows[..n], key, value)[key(rows[n]) := value(rows[n])]
  {
    assert rows[..n + 1][..n] == rows[..n];
  }

  /** The keys of the table are exactly the keys of the rows. */
  lemma {:induction false} TableKeys<R, V>(rows: seq<R>, key: R -> string, value: R -> V)
    ensures forall k :: k in Table(rows, key, value) <==> exists i :: 0 <= i < |rows| && key(rows[i]) == k
  {
    if rows != [] {
      var n := |rows| - 1;
      TableKeys(rows[..n], key, value);
      forall k | exists i :: 0 <= i < |rows| && key(rows[i]) == k
        ensures k in Table(rows, key, value)
      {
        var i :| 0 <= i < |rows| && key(rows[i]) == k;
        if i < n {
          assert key(rows[..n][i]) == k;
        }
      }
    }
  }

  /** A key holds the value of the last row with that key. */
  lemma {:induction false} TableLastWins<R, V>(rows: seq<R>, key: R -> string, value: R -> V, i: nat)
    requires i < |rows|
    requires forall j :: i < j < |rows| ==> key(rows[j]) != key(rows[i])
    ensures key(rows[i]) in Table(rows, key, value)
    ensures Table(rows, key, value)[key(rows[i])] == value(rows[i])
  {
    var n := |rows| - 1;
    if i < n {
      TableLastWins(rows[..n], key, value, i);
    }
  }

  /** Every value in the table is the value of some row with that key. */
  lemma TableValues<R, V>(rows: seq<R>, key: R -> string, value: R -> V, k: string)
    requires k in Table(rows, key, value)
    ensures exists i :: 0 <= i < |rows| && key(rows[i]) == k && Table(rows, key, value)[k] == value(rows[i])
  {
    TableKeys(rows, key, value);
    var i :| 0 <= i < |rows| && key(rows[i]) == k;
    while exists j :: i < j < |rows| && key(rows[j]) == k
      invariant 0 <= i < |rows| && key(rows[i]) == k
      decreases |rows| - i
    {
      var j :| i < j < |rows| && key(rows[j]) == k;
      i := j;
    }
    TableLastWins(rows, key, value, i);
  }

  // ---------------------------------------------------------------------------
  // readRestrictions

  function RestrictionKey(row: RestrictionRow): string {
    Trim(row.restriction)
  }

  /** The record `writeRestriction` stores for a row. */
  function RestrictionOf(row: RestrictionRow, epochOf: int -> int): Restriction {
    Restriction(
      RestrictionKey(row),
      Trim(row.restrictText1),
      CalendarDays(row.dateFrom, row.dateUntil, epochOf))
  }

  /** The dictionary `readRestrictions` hands to its callback. */
  function RestrictionsOf(rows: seq<RestrictionRow>, epochOf: int -> int): map<string, Restriction> {
    Table(rows, RestrictionKey, row => RestrictionOf(row, epochOf))
  }

  /**
   * Every row's trimmed id is a key; the restriction stored under it is the one
   * built from the last row with that id: its id, trimmed name, and one value
   * per day of its date range.
   */
  lemma RestrictionsOfLastWins(rows: seq<RestrictionRow>, epochOf: int -> int, i: nat)
    requires i < |rows|
    requires forall j :: i < j < |rows| ==> RestrictionKey(rows[j]) != RestrictionKey(rows[i])
    ensures var t := RestrictionsOf(rows, epochOf);
            && RestrictionKey(rows[i]) in t
            && t[RestrictionKey(rows[i])].id == RestrictionKey(rows[i])
            && t[RestrictionKey(rows[i])].name == Trim(rows[i].restrictText1)
            && t[RestrictionKey(rows[i])].days == CalendarDays(rows[i].dateFrom, rows[i].dateUntil, epochOf)
  {
    TableLastWins(rows, RestrictionKey, row => RestrictionOf(row, epochOf), i);
  }

  /** `readRestrictions`: yields the table of the rows; no step of it can fail. */
  method ReadRestrictions(rows: seq<RestrictionRow>, epochOf: int -> int)
    returns (restrictions: map<string, Restriction>)
    ensures restrictions == RestrictionsOf(rows, epochOf)
  {
    restrictions := map[];
    var n := 0;
    while n < |rows|
      invariant n <= |rows|
      invariant restrictions == RestrictionsOf(rows[..n], epochOf)
    {
      var row := rows[n];
      var id := Trim(row.restriction);
      var days := ParseCalendar(Trim(row.restrictionDays), row.dateFrom, row.dateUntil, epochOf);
      restrictions := restrictions[id := Restriction(id, Trim(row.restrictText1), days)];
      TablePrefix(rows, n, RestrictionKey, row => RestrictionOf(row, epochOf));
      n := n + 1;
    }
    assert rows[..n] == rows;
  }

  // ---------------------------------------------------------------------------
  // readRoutes

  /** The composed route id `LINE_NR + '-' + STR_LINE_VAR`, both trimmed. */
  function RouteKey(lineNr: string, strLineVar: string): string {
    Trim(lineNr) + "-" + Trim(strLineVar)
  }

  function RouteRowKey(row: RouteRow): string {
    RouteKey(row.lineNr, row.strLineVar)
  }

  /** The record `writeRoute` stores for a row: no stops yet. */
  function RouteOf(row: RouteRow): Route {
    Route(RouteRowKey(row), Trim(row.lineName), [])
  }

  /** The dictionary `readRoutes` hands to its callback. */
  function RoutesOf(rows: seq<RouteRow>): map<string, Route> {
    Table(rows, RouteRowKey, RouteOf)
  }

  /**
   * The routes are keyed by the composed ids of the rows; each is stored under
   * its own id, with no stops, and carries the name of the last row with that id.
   */
  lemma RoutesOfShape(rows: seq<RouteRow>)
    ensures forall k :: k in RoutesOf(rows) <==> exists i :: 0 <= i < |rows| && RouteRowKey(rows[i]) == k
    ensures forall k :: k in RoutesOf(rows) ==> RoutesOf(rows)[k].id == k && RoutesOf(rows)[k].stops == []
    ensures forall i :: 0 <= i < |rows| && (forall j :: i < j < |rows| ==> RouteRowKey(rows[j]) != RouteRowKey(rows[i]))
              ==> RoutesOf(rows)[RouteRowKey(rows[i])].name == Trim(rows[i].lineName)
  {
    TableKeys(rows, RouteRowKey, RouteOf);
    forall k | k in RoutesOf(rows)
      ensures RoutesOf(rows)[k].id == k && RoutesOf(rows)[k].stops == []
    {
      TableValues(rows, RouteRowKey, RouteOf, k);
    }
    forall i | 0 <= i < |rows| && (forall j :: i < j < |rows| ==> RouteRowKey(rows[j]) != RouteRowKey(rows[i]))
      ensures RoutesOf(rows)[RouteRowKey(rows[i])].name == Trim(rows[i].lineName)
    {
      TableLastWins(rows, RouteRowKey, RouteOf, i);
    }
  }

  /** `readRoutes`: yields the table of the rows; no step of it can fail. */
  method ReadRoutes(rows: seq<RouteRow>) returns (routes: map<string, Route>)
    ensures routes == RoutesOf(rows)
  {
    routes := map[];
    var n := 0;
    while n < |rows|
      invariant n <= |rows|
      invariant routes == RoutesOf(rows[..n])
    {
      var row := rows[n];
      var id := Trim(row.lineNr) + "-" + Trim(row.strLineVar);
      routes := routes[id := Route(id, Trim(row.lineName), [])];
      TablePrefix(rows, n, RouteRowKey, RouteOf);
      n := n + 1;
    }
    assert rows[..n] == rows;
  }

  // ---------------------------------------------------------------------------
  // readRouteStops

  function RouteStopKey(row: RouteStopRow): string {
    RouteKey(row.lineNr, row.strLineVar)
  }

  /** The stop `writeRouteStop` appends: the distance is the row's own LENGTH. */
  function RouteStopOf(row: RouteStopRow): RouteStop {
    RouteStop(ParseInt(row.lineConsecNr), Trim(row.stopNr), ParseInt(row.length))
  }

  /** Route `id` with `stop` appended to its stops, or the error for an unknown id. */
  function AppendRouteStop(routes: map<string, Route>, id: string, stop: RouteStop): Result<map<string, Route>> {
    if id !in routes then Err(UnknownRouteId(id))
    else Ok(routes[id := routes[id].(stops := routes[id].stops + [stop])])
  }

  /** One step of `readRouteStops`. */
  function WithRouteStop(routes: map<string, Route>, row: RouteStopRow): Result<map<string, Route>> {
    AppendRouteStop(routes, RouteStopKey(row), RouteStopOf(row))
  }

  /** The outcome of `readRouteStops` over `rows`, starting from `routes`. */
  function AttachStops(routes: map<string, Route>, rows: seq<RouteStopRow>): Result<map<string, Route>> {
    Fold(routes, rows, WithRouteStop)
  }

  /** The stops that the rows for route `k` contribute, in row order. */
  function StopsFor(rows: seq<RouteStopRow>, k: string): seq<RouteStop> {
    Contributed(rows, RouteStopKey, RouteStopOf, k)
  }

  /**
   * A step fails exactly on an unknown id, without a new map; otherwise the
   * matched route gets the row's stop at the end of its list and nothing else
   * changes.
   */
  lemma WithRouteStopSpec(routes: map<string, Route>, row: RouteStopRow)
    ensures var r, k := WithRouteStop(routes, row), RouteStopKey(row);
            && (r.Err? <==> k !in routes)
            && (r.Err? ==> r.error == UnknownRouteId(k))
            && (r.Ok? ==> r.value.Keys == routes.Keys
                          && r.value[k].id == routes[k].id && r.value[k].name == routes[k].name
                          && r.value[k].stops == routes[k].stops + [RouteStopOf(row)]
                          && forall k' :: k' in routes && k' != k ==> r.value[k'] == routes[k'])
  {
  }

  /** Every row of `rows` names a route of `routes`. */
  predicate AllKnown(routes: map<string, Route>, rows: seq<RouteStopRow>) {
    forall i {:trigger rows[i]} :: 0 <= i < |rows| ==> RouteStopKey(rows[i]) in routes
  }

  /** `readRouteStops` succeeds exactly when every row names a known route, and then keeps the ids. */
  lemma {:induction false} AttachStopsOk(routes: map<string, Route>, rows: seq<RouteStopRow>)
    ensures AttachStops(routes, rows).Ok? <==> AllKnown(routes, rows)
    ensures AttachStops(routes, rows).Ok? ==> AttachStops(routes, rows).value.Keys == routes.Keys
  {
    if rows != [] {
      var n := |rows| - 1;
      var init := rows[..n];
      AttachStopsOk(routes, init);
      AllKnownSnoc(routes, rows);
      var r0 := AttachStops(routes, init);
      if r0.Ok? {
        assert AttachStops(routes, rows) == WithRouteStop(r0.value, rows[n]);
      }
    }
  }

  lemma AllKnownSnoc(routes: map<string, Route>, rows: seq<RouteStopRow>)
    requires rows != []
    ensures AllKnown(routes, rows) <==>
              AllKnown(routes, rows[..|rows| - 1]) && RouteStopKey(rows[|rows| - 1]) in routes
  {
    var n := |rows| - 1;
    if AllKnown(routes, rows[..n]) && RouteStopKey(rows[n]) in routes {
      forall i | 0 <= i < |rows| ensures RouteStopKey(rows[i]) in routes {
        if i < n { assert rows[i] == rows[..n][i]; }
      }
    }
  }

  /** `step` appends `build(r)` to the route named `key(r)`. */
  ghost predicate AppendsRouteStops<R(!new)>(
    step: (map<string, Route>, R) -> Result<map<string, Route>>, key: R -> string, build: R -> RouteStop)
  {
    forall m, r :: step(m, r) == AppendRouteStop(m, key(r), build(r))
  }

  /**
   * After a successful pass of such a step, each route is the old one with
   * the stops of its rows appended, in row order.
   */
  lemma {:induction false} AppendRouteStopsPass<R(!new)>(
    routes: map<string, Route>, rows: seq<R>,
    step: (map<string, Route>, R) -> Result<map<string, Route>>, key: R -> string, build: R -> RouteStop, k: string)
    requires AppendsRouteStops(step, key, build)
    requires Fold(routes, rows, step).Ok? && k in routes
    ensures k in Fold(routes, rows, step).value
    ensures Fold(routes, rows, step).value[k] == routes[k].(stops := routes[k].stops + Contributed(rows, key, build, k))
  {
    if rows != [] {
      var n := |rows| - 1;
      var r0 := Fold(routes, rows[..n], step);
      assert r0.Ok?;
      AppendRouteStopsPass(routes, rows[..n], step, key, build, k);
      assert Fold(routes, rows, step) == AppendRouteStop(r0.value, key(rows[n]), build(rows[n]));
    }
  }

  /** The `readRouteStops` step appends the row's stop to the route it names. */
  lemma WithRouteStopAppends()
    ensures AppendsRouteStops(WithRouteStop, RouteStopKey, RouteStopOf)
  {
  }

  /**
   * After a successful `readRouteStops`, each route is the old one with the
   * stops of its rows appended, in row order; ids and names are unchanged.
   */
  lemma AttachStopsAppends(routes: map<string, Route>, rows: seq<RouteStopRow>, k: string)
    requires AttachStops(routes, rows).Ok? && k in routes
    ensures k in AttachStops(routes, rows).value
    ensures AttachStops(routes, rows).value[k] == routes[k].(stops := routes[k].stops + StopsFor(rows, k))
  {
    WithRouteStopAppends();
    AppendRouteStopsPass(routes, rows, WithRouteStop, RouteStopKey, RouteStopOf, k);
  }

  /**
   * When row `i` is the first to name an unknown route, `readRouteStops`
   * fails with that row's id, whatever the later rows hold.
   */
  lemma FirstUnknownRouteFails(routes: map<string, Route>, rows: seq<RouteStopRow>, i: nat)
    requires i < |rows| && RouteStopKey(rows[i]) !in routes
    requires forall j :: 0 <= j < i ==> RouteStopKey(rows[j]) in routes
    ensures AttachStops(routes, rows) == Err(UnknownRouteId(RouteStopKey(rows[i])))
  {
    FoldPrefix(routes, rows, i, WithRouteStop);
    AttachStopsOk(routes, rows[..i]);
    FoldAborts(routes, rows, i + 1, WithRouteStop);
  }

  /** `readRouteStops`: the routes with the stops of the rows appended, or the first error. */
  method ReadRouteStops(routes: map<string, Route>, rows: seq<RouteStopRow>)
    returns (r: Result<map<string, Route>>)
    ensures r == AttachStops(routes, rows)
  {
    var current := routes;
    var n := 0;
    while n < |rows|
      invariant n <= |rows|
      invariant AttachStops(routes, rows[..n]) == Ok(current)
    {
      var row := rows[n];
      FoldPrefix(routes, rows, n, WithRouteStop);
      var id := Trim(row.lineNr) + "-" + Trim(row.strLineVar);
      if id !in current {
        r := Err(UnknownRouteId(id));
        FoldAborts(routes, rows, n + 1, WithRouteStop);
        return;
      }
      var route := current[id];
      current := current[id := route.(stops := route.stops + [RouteStopOf(row)])];
      n := n + 1;
    }
    assert rows[..n] == rows;
    return Ok(current);
  }

  // ---------------------------------------------------------------------------
  // createReader

  /**
   * What `createReader` passes to its `done` callback: an error, or nothing at
   * all (`Pending`). `Completed` is the `done(null, ...)` call the callback
   * was written for and which the reader never makes.
   */
  datatype ReaderOutcome =
    | Pending
    | Failed(error: Error)
    | Completed(restrictions: map<string, Restriction>, routes: map<string, Route>)

  /**
   * `createReader`: restrictions, then routes, then the stops of the routes,
   * each stage started only when the previous one succeeded. The first two
   * stages cannot fail, so their error checks never fire; an error of the
   * route stop stage goes to `done`, and on success `done` is never called.
   */
  method CreateReader(
    restrictionRows: seq<RestrictionRow>, routeRows: seq<RouteRow>,
    routeStopRows: seq<RouteStopRow>, epochOf: int -> int)
    returns (outcome: ReaderOutcome)
    ensures !outcome.Completed?
    ensures outcome.Failed? <==> AttachStops(RoutesOf(routeRows), routeStopRows).Err?
    ensures outcome.Failed? ==> outcome.error == AttachStops(RoutesOf(routeRows), routeStopRows).error
  {
    var restrictions := ReadRestrictions(restrictionRows, epochOf);
    var routes := ReadRoutes(routeRows);
    var withStops := ReadRouteStops(routes, routeStopRows);
    if withStops.Err? {
      return Failed(withStops.error);
    }
    return Pending;
  }
}
