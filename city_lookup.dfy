/** The city table behind `resolveHomeLocation` in
    server/utils/homeLocation.js: the row rule of `loadCityLookup`, the
    table the rows build, and the once-only `getCityLookup`. Reading the
    CSV file is not modelled: the rows arrive already split into cells, and
    `parseFloat` is a parameter (`None` stands for `NaN`). */
module CityLookup {
  import opened Js
  import opened HomeLocation

  /** A CSV row as csv-parser yields it: column name to cell text. A column
      the file does not have is absent (`undefined`). */
  type Row = map<string, string>

  /** The column names tried, in order, for each field. */
  const CityColumns: seq<string> := ["city", "City"]
  const StateColumns: seq<string> := ["state_id", "state", "State"]
  const LatColumns: seq<string> := ["lat", "latitude", "Lat", "Latitude"]
  const LngColumns: seq<string> := ["lng", "longitude", "Lng", "Longitude"]

  /** `row.a || row.b || … || ""`: the first cell that is present and
      non-empty, else the empty string. */
  function FirstFilled(row: Row, columns: seq<string>): (r: string)
    ensures r == "" <==> forall i :: 0 <= i < |columns| && columns[i] in row ==> row[columns[i]] == ""
    ensures r != "" ==>
      exists i :: 0 <= i < |columns| && columns[i] in row && row[columns[i]] == r
        && (forall j :: 0 <= j < i ==> columns[j] !in row || row[columns[j]] == "")
  {
    if columns == [] then ""
    else if columns[0] in row && row[columns[0]] != "" then row[columns[0]]
    else
      var r := FirstFilled(row, columns[1..]);
      assert forall i :: 1 <= i < |columns| ==> columns[i] == columns[1..][i - 1];
      if r != "" then
        var k :| 0 <= k < |columns[1..]| && columns[1..][k] in row && row[columns[1..][k]] == r
          && forall j :: 0 <= j < k ==> columns[1..][j] !in row || row[columns[1..][j]] == "";
        assert columns[k + 1] in row && row[columns[k + 1]] == r;
        r
      else r
  }

  /** `row.a ?? row.b ?? …`: the first cell that is present at all, even
      an empty one; `None` when no column is present. */
  function FirstPresent(row: Row, columns: seq<string>): (r: Option<string>)
    ensures r.None? <==> forall i :: 0 <= i < |columns| ==> columns[i] !in row
    ensures r.Some? ==>
      exists i :: 0 <= i < |columns| && columns[i] in row && row[columns[i]] == r.value
        && (forall j :: 0 <= j < i ==> columns[j] !in row)
  {
    if columns == [] then None
    else if columns[0] in row then Some(row[columns[0]])
    else
      var r := FirstPresent(row, columns[1..]);
      assert forall i :: 1 <= i < |columns| ==> columns[i] == columns[1..][i - 1];
      if r.Some? then
        var k :| 0 <= k < |columns[1..]| && columns[1..][k] in row && row[columns[1..][k]] == r.value
          && forall j :: 0 <= j < k ==> columns[1..][j] !in row;
        assert columns[k + 1] in row && row[columns[k + 1]] == r.value;
        r
      else r
  }

  /** `parseFloat(row.a ?? row.b ?? …)`: `parseFloat(undefined)` is `NaN`. */
  function Coordinate(row: Row, columns: seq<string>, parseFloat: string -> Option<real>): Option<real> {
    match FirstPresent(row, columns)
    case None => None
    case Some(text) => parseFloat(text)
  }

  /** The normalised city and state of a row. */
  function RowCity(row: Row): Option<string> {
    NormalizeCity(Some(Trim(FirstFilled(row, CityColumns))))
  }

  function RowState(row: Row): Option<string> {
    NormalizeState(Some(Trim(FirstFilled(row, StateColumns))))
  }

  /** What the "data" handler does with one row: skip it (`None`) when the
      city or state does not normalise or a coordinate is `NaN`, else the
      entry it sets in the table. */
  function RowEntry(row: Row, parseFloat: string -> Option<real>): (r: Option<(string, LatLng)>)
    ensures r.Some? <==>
      Truthy(RowCity(row)) && RowState(row).Some?
      && Coordinate(row, LatColumns, parseFloat).Some? && Coordinate(row, LngColumns, parseFloat).Some?
    ensures FirstFilled(row, CityColumns) == "" ==> r.None?
    ensures FirstFilled(row, StateColumns) == "" ==> r.None?
    ensures r.Some? ==>
      r.value.0 == CityStateKey(RowCity(row).value, RowState(row).value)
      && r.value.1 == LatLng(Coordinate(row, LatColumns, parseFloat).value, Coordinate(row, LngColumns, parseFloat).value)
  {
    var city := RowCity(row);
    var state := RowState(row);
    var lat := Coordinate(row, LatColumns, parseFloat);
    var lng := Coordinate(row, LngColumns, parseFloat);
    if !Truthy(city) || state.None? || lat.None? || lng.None? then None
    else Some((CityStateKey(city.value, state.value), LatLng(lat.value, lng.value)))
  }

  /** The row handler as a function value. */
  function Handler(parseFloat: string -> Option<real>): Row -> Option<(string, LatLng)> {
    row => RowEntry(row, parseFloat)
  }

  /** What a handler makes of each row, in file order. */
  function Entries(rows: seq<Row>, handler: Row -> Option<(string, LatLng)>): (es: seq<Option<(string, LatLng)>>)
    ensures |es| == |rows| && forall i :: 0 <= i < |rows| ==> es[i] == handler(rows[i])
  {
    if rows == [] then []
    else Entries(rows[..|rows| - 1], handler) + [handler(rows[|rows| - 1])]
  }

  /** The map the entries build in order: `map.set` on a key already
      present replaces the earlier entry. */
  function TableOf(es: seq<Option<(string, LatLng)>>): map<string, LatLng> {
    if es == [] then map[]
    else
      var table := TableOf(es[..|es| - 1]);
      match es[|es| - 1]
      case None => table
      case Some((key, coords)) => table[key := coords]
  }

  /** The table `loadCityLookup` resolves to. */
  function CityTable(rows: seq<Row>, parseFloat: string -> Option<real>): map<string, LatLng> {
    TableOf(Entries(rows, Handler(parseFloat)))
  }

  /** Entry `i` sets `key`, and no later entry sets `key` again. */
  predicate LastSetter(es: seq<Option<(string, LatLng)>>, key: string, i: int) {
    0 <= i < |es| && es[i].Some? && es[i].value.0 == key
    && forall j :: i < j < |es| ==> es[j].None? || es[j].value.0 != key
  }

  /** A key is in the map exactly when some entry sets it, and its value is
      that of the last entry that does. */
  lemma {:induction false} TableOfLastWins(es: seq<Option<(string, LatLng)>>, key: string)
    ensures key in TableOf(es) <==> exists i :: 0 <= i < |es| && es[i].Some? && es[i].value.0 == key
    ensures key in TableOf(es) ==> exists i :: LastSetter(es, key, i) && TableOf(es)[key] == es[i].value.1
  {
    if es != [] {
      var front := es[..|es| - 1];
      var n := |es| - 1;
      TableOfLastWins(front, key);
      assert forall i :: 0 <= i < n ==> es[i] == front[i];
      if es[n].Some? && es[n].value.0 == key {
        assert LastSetter(es, key, n);
      } else if key in TableOf(es) {
        var i :| LastSetter(front, key, i) && TableOf(front)[key] == front[i].value.1;
        assert LastSetter(es, key, i);
      }
    }
  }

  /** A key is in the city table exactly when some kept row sets it, and
      its coordinates are those of the last row that does. */
  lemma CityTableLastWins(rows: seq<Row>, parseFloat: string -> Option<real>, key: string)
    ensures key in CityTable(rows, parseFloat) <==>
      exists i :: 0 <= i < |rows| && RowEntry(rows[i], parseFloat).Some? && RowEntry(rows[i], parseFloat).value.0 == key
    ensures key in CityTable(rows, parseFloat) ==>
      exists i :: 0 <= i < |rows| && RowEntry(rows[i], parseFloat) == Some((key, CityTable(rows, parseFloat)[key]))
        && forall j :: i < j < |rows| ==> RowEntry(rows[j], parseFloat).None? || RowEntry(rows[j], parseFloat).value.0 != key
  {
    EntriesLastWins(rows, Handler(parseFloat), key);
  }

  /** The same for any row handler. */
  lemma EntriesLastWins(rows: seq<Row>, handler: Row -> Option<(string, LatLng)>, key: string)
    ensures key in TableOf(Entries(rows, handler)) <==>
      exists i :: 0 <= i < |rows| && handler(rows[i]).Some? && handler(rows[i]).value.0 == key
    ensures key in TableOf(Entries(rows, handler)) ==>
      exists i :: 0 <= i < |rows| && handler(rows[i]) == Some((key, TableOf(Entries(rows, handler))[key]))
        && forall j :: i < j < |rows| ==> handler(rows[j]).None? || handler(rows[j]).value.0 != key
  {
    var es := Entries(rows, handler);
    TableOfLastWins(es, key);
    if key in TableOf(es) {
      var i :| LastSetter(es, key, i) && TableOf(es)[key] == es[i].value.1;
      assert handler(rows[i]) == Some((key, TableOf(es)[key]));
    }
  }

  /** One more row adds its entry at the end. */
  lemma EntriesStep(rows: seq<Row>, handler: Row -> Option<(string, LatLng)>, i: int)
    requires 0 <= i < |rows|
    ensures Entries(rows[..i + 1], handler) == Entries(rows[..i], handler) + [handler(rows[i])]
  {
    assert rows[..i + 1][..i] == rows[..i];
  }

  /** `loadCityLookup`: one pass over the rows, setting each kept row's
      entry in a map that starts empty. */
  method LoadCityLookup(rows: seq<Row>, parseFloat: string -> Option<real>) returns (table: map<string, LatLng>)
    ensures table == CityTable(rows, parseFloat)
  {
    var handler := Handler(parseFloat);
    table := map[];
    for i := 0 to |rows|
      invariant table == TableOf(Entries(rows[..i], handler))
    {
      EntriesStep(rows, handler, i);
      var entry := handler(rows[i]);
      if entry.Some? {
        table := table[entry.value.0 := entry.value.1];
      }
    }
    assert rows[..|rows|] == rows;
  }

  /** The module-level `cityLookupPromise` and the functions that use it.
      `csv` is the file's rows, `None` when the file does not exist. */
  class CityLookupCache {
    const csv: Option<seq<Row>>
    const parseFloat: string -> Option<real>
    /** The table once built; `None` before the first request. */
    var cached: Option<map<string, LatLng>>
    /** How many times the table has been built. */
    ghost var loads: nat

    /** The table a request settles on: empty when there is no file. */
    function Table(): map<string, LatLng> {
      if csv.None? then map[] else CityTable(csv.value, parseFloat)
    }

    /** Once built, the table is kept and never rebuilt. */
    ghost predicate Valid()
      reads this
    {
      (cached.None? ==> loads == 0) && (cached.Some? ==> cached.value == Table() && loads == 1)
    }

    constructor(csv: Option<seq<Row>>, parseFloat: string -> Option<real>)
      ensures this.csv == csv && this.parseFloat == parseFloat
      ensures cached.None? && Valid()
    {
      this.csv := csv;
      this.parseFloat := parseFloat;
      cached := None;
      loads := 0;
    }

    /** `getCityLookup`: build the table on the first request only. */
    method GetCityLookup() returns (table: map<string, LatLng>)
      requires Valid()
      modifies this
      ensures Valid() && cached == Some(table)
      ensures table == Table()
      ensures csv.None? ==> table == map[]
      ensures loads <= 1
      ensures old(cached).Some? ==> table == old(cached).value && loads == old(loads)
    {
      if cached.None? {
        var built: map<string, LatLng>;
        if csv.None? {
          built := map[];
        } else {
          built := LoadCityLookup(csv.value, parseFloat);
        }
        cached := Some(built);
        loads := loads + 1;
      }
      table := cached.value;
    }

    /** `resolveHomeLocation`: the table is requested only once the home
        has parsed. The record depends on `rawHome` and the fixed table
        alone, so resolving the same string twice gives the same record. */
    method ResolveHomeLocation(rawHome: Option<string>) returns (loc: Location)
      requires Valid()
      modifies this
      ensures Valid()
      ensures loc == Resolve(rawHome, Table())
      ensures ParseHome(rawHome).None? ==> cached == old(cached)
    {
      var parsed := ParseHome(rawHome);
      if parsed.None? {
        return Unresolved(rawHome);
      }
      var table := GetCityLookup();
      loc := HomeLocation.ResolveHomeLocation(rawHome, table);
    }
  }
}
