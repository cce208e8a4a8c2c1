/**
 The per-platform report grid of the full dashboard: an ordered metric
 catalog, an ordered sequence of date-range columns, and a map of cells
 indexed by metric key and column name, each cell holding a value and
 whether the value was typed in or fetched. Every mutation the dashboard
 performs on it is a pure function from table to table here.
 Days are integers; the current day is a parameter.

 Each operation's contract states that the grid invariant is kept and that
 the platform, columns, catalog and summary are as described; what happens
 to an individual cell is stated by a lemma taking that cell's metric key
 and column name as parameters.
 */
module Report {
  import opened Wrappers
  import opened Decimal
  import opened Formatting
  import opened Metrics
  import opened Insights

  /** A column: its name and the inclusive range of days it covers. */
  datatype Column = Column(name: string, startDay: int, endDay: int)

  /** Where a cell's value came from. */
  datatype Source = Manual | Api

  /** One cell: its value and where the value came from. */
  datatype Cell = Cell(value: real, source: Source)

  /** A report table. The dashboard keeps values and sources in two
      dictionaries that every operation writes in step, at the same metric
      key and column name; here they are one map of cells. */
  datatype Table = Table(
    platform: string,
    columns: seq<Column>,
    metrics: seq<Entry>,
    cells: map<string, map<string, Cell>>,
    summary: string)

  function ColumnNames(cols: seq<Column>): set<string> {
    set i | 0 <= i < |cols| :: cols[i].name
  }

  /** The grid invariant: the catalog keys are distinct, and there is a row
      for exactly the catalog keys, each with a cell for exactly the column
      names. */
  predicate Wellformed(t: Table) {
    && DistinctKeys(t.metrics)
    && t.cells.Keys == CatalogKeys(t.metrics)
    && (forall k :: k in t.cells ==> t.cells[k].Keys == ColumnNames(t.columns))
  }

  /** Every raw counter has a row. */
  predicate HasCounters(t: Table) {
    RawKeys <= t.cells.Keys
  }

  /** `k`, `c` name a cell of a well-formed table. */
  predicate IsCell(t: Table, k: string, c: string) {
    Wellformed(t) && k in t.cells && c in ColumnNames(t.columns)
  }

  /** `r` has the platform, columns and summary of `t`. */
  predicate SameFrame(r: Table, t: Table) {
    r.platform == t.platform && r.columns == t.columns && r.summary == t.summary
  }

  /** A new cell: 0.0, typed in. */
  const Blank: Cell := Cell(0.0, Manual)

  function BlankRow(names: set<string>): map<string, Cell> {
    map c | c in names :: Blank
  }

  lemma ColumnNamesAppend(cols: seq<Column>, c: Column)
    ensures ColumnNames(cols + [c]) == ColumnNames(cols) + {c.name}
  {
    var all := cols + [c];
    assert all[|cols|] == c;
    forall n | n in ColumnNames(cols)
      ensures n in ColumnNames(all)
    {
      var i :| 0 <= i < |cols| && cols[i].name == n;
      assert all[i] == cols[i];
    }
  }

  /* ---------------------------------------------------------------- */
  /* The initial table                                                  */
  /* ---------------------------------------------------------------- */

  /** `f"Week {n}"`. */
  function WeekName(n: nat): string {
    "Week " + NatToDigits(n)
  }

  /** Different week numbers give different column names. */
  lemma WeekNamesDistinct(m: nat, n: nat)
    requires m != n
    ensures WeekName(m) != WeekName(n)
  {
    if WeekName(m) == WeekName(n) {
      assert NatToDigits(m) == WeekName(m)[5..] == WeekName(n)[5..] == NatToDigits(n);
      DigitsOfNat(m);
      DigitsOfNat(n);
    }
  }

  /** The week ending `7 * back` days before today, named `Week {4 - back}`. */
  function WeekColumn(today: int, back: nat): Column
    requires back < 4
  {
    var end := today - 7 * back;
    Column(WeekName(4 - back), end - 6, end)
  }

  /** The four initial columns, oldest first. */
  function InitialColumns(today: int): (cols: seq<Column>)
    ensures |cols| == 4
    ensures forall j :: 0 <= j < 4 ==> cols[j].name == WeekName(j + 1)
    ensures forall j :: 0 <= j < 4 ==> cols[j].endDay - cols[j].startDay == 6
    ensures forall j :: 0 <= j < 3 ==> cols[j + 1].startDay == cols[j].endDay + 1
    ensures cols[3].endDay == today
  {
    seq(4, j requires 0 <= j < 4 => WeekColumn(today, 3 - j))
  }

  /** The four weeks tile the 28 days ending today: every such day lies in
      exactly one week, the weeks are in date order, and their names are
      distinct. */
  lemma InitialWeeksTile(today: int, d: int)
    requires today - 27 <= d <= today
    ensures var cols := InitialColumns(today);
      && cols[0].startDay == today - 27
      && (exists j :: 0 <= j < 4 && cols[j].startDay <= d <= cols[j].endDay)
      && (forall i, j :: 0 <= i < j < 4 ==> cols[i].endDay < cols[j].startDay && cols[i].name != cols[j].name)
  {
    var cols := InitialColumns(today);
    if d <= today - 21 {
      assert cols[0].startDay <= d <= cols[0].endDay;
    } else if d <= today - 14 {
      assert cols[1].startDay <= d <= cols[1].endDay;
    } else if d <= today - 7 {
      assert cols[2].startDay <= d <= cols[2].endDay;
    } else {
      assert cols[3].startDay <= d <= cols[3].endDay;
    }
    forall i, j | 0 <= i < j < 4
      ensures cols[i].name != cols[j].name
    {
      WeekNamesDistinct(i + 1, j + 1);
    }
  }

  const SummaryText: string :=
    " performance summary will appear here. This section can be customized with insights, recommendations, and key takeaways."

  /** `create_initial_table`: the default catalog and four weekly columns,
      every cell 0.0 and tagged manual. */
  function InitialTable(platform: string, today: int): (t: Table)
    ensures Wellformed(t) && HasCounters(t)
    ensures forall k, c :: k in t.cells && c in t.cells[k] ==> t.cells[k][c] == Blank
    ensures t.platform == platform && t.summary == platform + SummaryText
    ensures t.metrics == DefaultMetrics && t.columns == InitialColumns(today)
  {
    DefaultKeysDistinct();
    DefaultHasCounters();
    var names := ColumnNames(InitialColumns(today));
    Table(
      platform,
      InitialColumns(today),
      DefaultMetrics,
      map k | k in CatalogKeys(DefaultMetrics) :: BlankRow(names),
      platform + SummaryText)
  }

  /* ---------------------------------------------------------------- */
  /* Adding a metric                                                    */
  /* ---------------------------------------------------------------- */

  /** Dictionary assignment on an insertion-ordered catalog: an existing key
      keeps its position and takes the new definition, a new key goes last. */
  function Upsert(cat: seq<Entry>, e: Entry): (r: seq<Entry>)
    requires DistinctKeys(cat)
    ensures |r| == if e.key in CatalogKeys(cat) then |cat| else |cat| + 1
    ensures forall i :: 0 <= i < |cat| ==> r[i] == if cat[i].key == e.key then e else cat[i]
    ensures e.key !in CatalogKeys(cat) ==> r[|cat|] == e
  {
    if |cat| == 0 then [e]
    else if cat[0].key == e.key then
      assert forall i :: 0 < i < |cat| ==> cat[i].key != e.key;
      [e] + cat[1..]
    else
      var tail := Upsert(cat[1..], e);
      assert e.key in CatalogKeys(cat) <==> e.key in CatalogKeys(cat[1..]) by {
        if e.key in CatalogKeys(cat) {
          var i :| 0 <= i < |cat| && cat[i].key == e.key;
          assert cat[1..][i - 1].key == e.key;
        }
        if e.key in CatalogKeys(cat[1..]) {
          var i :| 0 <= i < |cat| - 1 && cat[1..][i].key == e.key;
          assert cat[i + 1].key == e.key;
        }
      }
      [cat[0]] + tail
  }

  /** The key at each position of an upserted catalog. */
  lemma UpsertKeyAt(cat: seq<Entry>, e: Entry, i: nat)
    requires DistinctKeys(cat) && i < |Upsert(cat, e)|
    ensures Upsert(cat, e)[i].key == if i < |cat| then cat[i].key else e.key
  {
  }

  /** An upsert adds exactly the new key to the catalog's keys. */
  lemma UpsertKeys(cat: seq<Entry>, e: Entry)
    requires DistinctKeys(cat)
    ensures CatalogKeys(Upsert(cat, e)) == CatalogKeys(cat) + {e.key}
  {
    var r := Upsert(cat, e);
    forall k | k in CatalogKeys(r)
      ensures k in CatalogKeys(cat) + {e.key}
    {
      var i :| 0 <= i < |r| && r[i].key == k;
      UpsertKeyAt(cat, e, i);
    }
    forall k | k in CatalogKeys(cat) + {e.key}
      ensures k in CatalogKeys(r)
    {
      if k in CatalogKeys(cat) {
        var i :| 0 <= i < |cat| && cat[i].key == k;
        UpsertKeyAt(cat, e, i);
      } else {
        UpsertKeyAt(cat, e, |cat|);
      }
    }
  }

  /** An upsert keeps the keys distinct. */
  lemma UpsertDistinct(cat: seq<Entry>, e: Entry)
    requires DistinctKeys(cat)
    ensures DistinctKeys(Upsert(cat, e))
  {
    var r := Upsert(cat, e);
    forall i, j | 0 <= i < j < |r|
      ensures r[i].key != r[j].key
    {
      UpsertKeyAt(cat, e, i);
      UpsertKeyAt(cat, e, j);
      if j == |cat| {
        assert cat[i].key in CatalogKeys(cat);
      }
    }
  }

  /** After an upsert the new key looks up to the new definition. */
  lemma UpsertLookup(cat: seq<Entry>, e: Entry)
    requires DistinctKeys(cat)
    ensures Lookup(Upsert(cat, e), e.key) == Some(e.def)
  {
    var r := Upsert(cat, e);
    UpsertDistinct(cat, e);
    if e.key in CatalogKeys(cat) {
      var p :| 0 <= p < |cat| && cat[p].key == e.key;
      assert r[p] == e;
      LookupDistinct(r, p);
    } else {
      LookupDistinct(r, |cat|);
    }
  }

  /** The character-wise rewrite of a metric name into a key. */
  function KeyChar(c: char): (k: char)
    ensures k != ' ' && k != '-' && !('A' <= k <= 'Z')
    ensures c == ' ' || c == '-' ==> k == '_'
    ensures 'A' <= c <= 'Z' ==> 'a' <= k <= 'z' && k as int - 'a' as int == c as int - 'A' as int
    ensures c != ' ' && c != '-' && !('A' <= c <= 'Z') ==> k == c
  {
    if c == ' ' || c == '-' then '_'
    else if 'A' <= c <= 'Z' then (c as int - 'A' as int + 'a' as int) as char
    else c
  }

  /** The key a custom metric is stored under: the name lower-cased, with
      spaces and hyphens replaced by underscores. */
  function MetricKey(name: string): (key: string)
    ensures |key| == |name|
    ensures forall i :: 0 <= i < |key| ==> key[i] != ' ' && key[i] != '-' && !('A' <= key[i] <= 'Z')
    ensures forall i :: 0 <= i < |key| ==> (name[i] == ' ' || name[i] == '-' ==> key[i] == '_')
    ensures forall i :: 0 <= i < |key| ==>
      ('A' <= name[i] <= 'Z' ==> key[i] as int - 'a' as int == name[i] as int - 'A' as int)
    ensures forall i :: 0 <= i < |key| ==>
      (name[i] != ' ' && name[i] != '-' && !('A' <= name[i] <= 'Z') ==> key[i] == name[i])
  {
    if |name| == 0 then "" else [KeyChar(name[0])] + MetricKey(name[1..])
  }

  /** A key is its own key: the rewrite is idempotent. */
  lemma MetricKeyIdempotent(name: string)
    ensures MetricKey(MetricKey(name)) == MetricKey(name)
  {
  }

  /** Stores `def` under `key`: the catalog entry is upserted and the key
      gets a fresh row of 0.0 cells tagged manual. */
  function PutMetric(t: Table, key: string, def: MetricDef): (r: Table)
    requires Wellformed(t)
    ensures Wellformed(r) && SameFrame(r, t)
    ensures r.metrics == Upsert(t.metrics, Entry(key, def))
    ensures r.cells.Keys == t.cells.Keys + {key}
  {
    var m := Upsert(t.metrics, Entry(key, def));
    var row := BlankRow(ColumnNames(t.columns));
    assert row.Keys == ColumnNames(t.columns);
    UpsertKeys(t.metrics, Entry(key, def));
    UpsertDistinct(t.metrics, Entry(key, def));
    t.(metrics := m, cells := t.cells[key := row])
  }

  /** After storing a metric its row is 0.0 and tagged manual in every
      column, and every other row is as it was. */
  lemma PutMetricCell(t: Table, key: string, def: MetricDef, k: string, c: string)
    requires IsCell(t, k, c)
    ensures var r := PutMetric(t, key, def);
      && r.cells[key][c] == Blank
      && (k != key ==> r.cells[k][c] == t.cells[k][c])
  {
  }

  /** The add-metric form: an empty name does nothing; otherwise the name's
      key gets a raw definition with the chosen format (see
      `AddMetricCatalog`) and a fresh row (see `PutMetricCell`). */
  function AddMetric(t: Table, name: string, format: Format): (r: Table)
    requires Wellformed(t)
    ensures Wellformed(r) && SameFrame(r, t)
    ensures name == "" ==> r == t
    ensures name != "" ==> r == PutMetric(t, MetricKey(name), MetricDef(name, Raw, format))
  {
    if name == "" then t else PutMetric(t, MetricKey(name), MetricDef(name, Raw, format))
  }

  /** The new key looks up to a raw definition with the given name and
      format; it is added to the catalog's keys, in place if it was already
      there, and every other entry keeps its position. */
  lemma AddMetricCatalog(t: Table, name: string, format: Format)
    requires Wellformed(t) && name != ""
    ensures var r := AddMetric(t, name, format);
      && Lookup(r.metrics, MetricKey(name)) == Some(MetricDef(name, Raw, format))
      && CatalogKeys(r.metrics) == CatalogKeys(t.metrics) + {MetricKey(name)}
      && (forall i :: 0 <= i < |t.metrics| && t.metrics[i].key != MetricKey(name) ==> r.metrics[i] == t.metrics[i])
  {
    var e := Entry(MetricKey(name), MetricDef(name, Raw, format));
    UpsertKeys(t.metrics, e);
    UpsertLookup(t.metrics, e);
  }

  /* ---------------------------------------------------------------- */
  /* Adding a column                                                    */
  /* ---------------------------------------------------------------- */

  /** The add-column form: an empty name does nothing; otherwise the column
      goes last and every row gets a cell under its name (see
      `AddColumnCell`). */
  function AddColumn(t: Table, name: string, startDay: int, endDay: int): (r: Table)
    requires Wellformed(t)
    ensures Wellformed(r)
    ensures r.platform == t.platform && r.summary == t.summary && r.metrics == t.metrics
    ensures r.cells.Keys == t.cells.Keys
    ensures name == "" ==> r == t
    ensures name != "" ==> r.columns == t.columns + [Column(name, startDay, endDay)]
  {
    if name == "" then t
    else
      var col := Column(name, startDay, endDay);
      ColumnNamesAppend(t.columns, col);
      t.(columns := t.columns + [col],
         cells := map k | k in t.cells :: t.cells[k][name := Blank])
  }

  /** The new column's cell is 0.0 and tagged manual in every row (this
      resets an existing column of the same name); every other cell is as
      it was. */
  lemma AddColumnCell(t: Table, name: string, startDay: int, endDay: int, k: string, c: string)
    requires Wellformed(t) && name != "" && k in t.cells
    requires c in ColumnNames(t.columns) || c == name
    ensures AddColumn(t, name, startDay, endDay).cells[k][c] == if c == name then Blank else t.cells[k][c]
  {
  }

  /* ---------------------------------------------------------------- */
  /* Writing cells                                                      */
  /* ---------------------------------------------------------------- */

  /** The cell map alone, indexed by metric key and then column name. */
  type Grid = map<string, map<string, Cell>>

  /** Every row has a cell in column `col`. */
  predicate HasColumn(g: Grid, col: string) {
    forall k :: k in g ==> col in g[k]
  }

  /** `a` and `b` have the same rows, each with the same cells. */
  predicate SameShape(a: Grid, b: Grid) {
    a.Keys == b.Keys && forall k :: k in a ==> a[k].Keys == b[k].Keys
  }

  /** Replacing the cell map by one of the same shape keeps the invariant. */
  lemma SameShapeWellformed(t: Table, g: Grid)
    requires Wellformed(t) && SameShape(g, t.cells)
    ensures Wellformed(t.(cells := g))
  {
  }

  lemma WellformedHasColumn(t: Table, col: string)
    requires Wellformed(t) && col in ColumnNames(t.columns)
    ensures HasColumn(t.cells, col)
  {
  }

  /** One cell written. */
  function Put(g: Grid, k: string, c: string, x: Cell): (r: Grid)
    requires k in g && c in g[k]
    ensures SameShape(r, g)
  {
    g[k := g[k][c := x]]
  }

  /** Writing a cell changes that cell and no other. */
  lemma PutCell(g: Grid, k: string, c: string, x: Cell, k2: string, c2: string)
    requires k in g && c in g[k] && k2 in g && c2 in g[k2]
    ensures Put(g, k, c, x)[k2][c2] == if k2 == k && c2 == c then x else g[k2][c2]
  {
  }

  /** An edit in the input grid: a value different from the stored one is
      written and the cell re-tagged manual; an equal value changes nothing
      (see `ManualEditCell`). */
  function ManualEdit(t: Table, key: string, col: string, v: real): (r: Table)
    requires IsCell(t, key, col)
    ensures Wellformed(r) && SameFrame(r, t) && r.metrics == t.metrics
    ensures SameShape(r.cells, t.cells)
    ensures v == t.cells[key][col].value ==> r == t
  {
    if v != t.cells[key][col].value then
      var g := Put(t.cells, key, col, Cell(v, Manual));
      SameShapeWellformed(t, g);
      t.(cells := g)
    else t
  }

  /** After an edit the edited cell holds the new value, tagged manual if
      the value changed and keeping its tag otherwise; every other cell is
      as it was. */
  lemma ManualEditCell(t: Table, key: string, col: string, v: real, k: string, c: string)
    requires IsCell(t, key, col) && IsCell(t, k, c)
    ensures var r := ManualEdit(t, key, col, v);
      && r.cells[key][col].value == v
      && r.cells[key][col].source == (if v != t.cells[key][col].value then Manual else t.cells[key][col].source)
      && ((k, c) != (key, col) ==> r.cells[k][c] == t.cells[k][c])
  {
    if v != t.cells[key][col].value {
      PutCell(t.cells, key, col, Cell(v, Manual), k, c);
      PutCell(t.cells, key, col, Cell(v, Manual), key, col);
    }
  }

  /* ---------------------------------------------------------------- */
  /* Overwriting cells with fetched counters                            */
  /* ---------------------------------------------------------------- */

  /** The raw counters in the order the update loop visits them. */
  const RawKeyOrder: seq<string> :=
    ["spend", "impressions", "clicks", "add_to_cart", "checkout", "purchase", "purchase_revenue"]

  lemma RawKeyOrderIsRawKeys()
    ensures forall k :: k in RawKeyOrder <==> k in RawKeys
  {
  }

  /** Every raw counter in the loop's order has a row. */
  lemma CountersRows(t: Table)
    requires HasCounters(t)
    ensures RowsFor(t.cells, RawKeyOrder)
  {
    RawKeyOrderIsRawKeys();
  }

  /** Whether a fetch result overwrites the counter `k`, one of `keys`:
      the result is a nonempty map (Python truthiness) holding `k`. */
  predicate Delivers(fetched: Option<map<string, real>>, k: string, keys: seq<string>) {
    fetched.Some? && |fetched.value| > 0 && k in keys && k in fetched.value
  }

  /** Every key in `keys` has a row. */
  predicate RowsFor(g: Grid, keys: seq<string>) {
    forall i :: 0 <= i < |keys| ==> keys[i] in g
  }

  /** The inner loop of the update for one column, over `keys` in order. */
  function WriteFetched(g: Grid, col: string, fetched: map<string, real>, keys: seq<string>): (r: Grid)
    requires HasColumn(g, col) && RowsFor(g, keys)
    ensures SameShape(r, g)
    decreases |keys|
  {
    if |keys| == 0 then g
    else
      var k := keys[0];
      var g1 := if k in fetched then Put(g, k, col, Cell(fetched[k], Api)) else g;
      WriteFetched(g1, col, fetched, keys[1..])
  }

  /** The inner loop overwrites the column's cell of each listed key the
      map holds, tagging it as fetched, and nothing else. */
  lemma {:induction false} WriteFetchedCell(g: Grid, col: string, fetched: map<string, real>, keys: seq<string>, k: string, c: string)
    requires HasColumn(g, col) && RowsFor(g, keys)
    requires k in g && c in g[k]
    ensures WriteFetched(g, col, fetched, keys)[k][c]
         == if c == col && k in keys && k in fetched then Cell(fetched[k], Api) else g[k][c]
    decreases |keys|
  {
    if |keys| > 0 {
      var g1 := if keys[0] in fetched then Put(g, keys[0], col, Cell(fetched[keys[0]], Api)) else g;
      if keys[0] in fetched {
        PutCell(g, keys[0], col, Cell(fetched[keys[0]], Api), k, c);
      }
      WriteFetchedCell(g1, col, fetched, keys[1..], k, c);
      assert k in keys <==> k == keys[0] || k in keys[1..];
    }
  }

  /** The update of one column with its fetch result: if the result is a
      nonempty map, each of `keys` it holds overwrites that column's cell
      (see `ApiColumnCell`). */
  function ApiColumn(g: Grid, col: string, fetched: Option<map<string, real>>, keys: seq<string>): (r: Grid)
    requires HasColumn(g, col) && RowsFor(g, keys)
    ensures SameShape(r, g)
  {
    if fetched.Some? && |fetched.value| > 0 then WriteFetched(g, col, fetched.value, keys) else g
  }

  /** A counter the fetch result delivers takes the fetched value in the
      updated column and is tagged as fetched; every other cell is as it
      was. */
  lemma ApiColumnCell(g: Grid, col: string, fetched: Option<map<string, real>>, keys: seq<string>, k: string, c: string)
    requires HasColumn(g, col) && RowsFor(g, keys)
    requires k in g && c in g[k]
    ensures ApiColumn(g, col, fetched, keys)[k][c]
         == if c == col && Delivers(fetched, k, keys) then Cell(fetched.value[k], Api) else g[k][c]
  {
    if fetched.Some? && |fetched.value| > 0 {
      WriteFetchedCell(g, col, fetched.value, keys, k, c);
    }
  }

  /** Every column of `cols` has a cell in every row. */
  predicate HasColumns(g: Grid, cols: seq<Column>) {
    forall j :: 0 <= j < |cols| ==> HasColumn(g, cols[j].name)
  }

  /** The update loop over the columns, each with its own fetch result. */
  function ApiFold(g: Grid, cols: seq<Column>, fetched: seq<Option<map<string, real>>>, keys: seq<string>): (r: Grid)
    requires HasColumns(g, cols) && RowsFor(g, keys) && |cols| == |fetched|
    ensures SameShape(r, g)
    decreases |cols|
  {
    if |cols| == 0 then g
    else ApiFold(ApiColumn(g, cols[0].name, fetched[0], keys), cols[1..], fetched[1..], keys)
  }

  /** `update_facebook_data_from_api`, given the fetch result for each
      column in order: the seven raw counters are written in their fixed
      order. */
  function ApiUpdate(t: Table, fetched: seq<Option<map<string, real>>>): (r: Table)
    requires Wellformed(t) && HasCounters(t) && |fetched| == |t.columns|
    ensures Wellformed(r) && SameFrame(r, t) && r.metrics == t.metrics
    ensures SameShape(r.cells, t.cells)
  {
    CountersRows(t);
    WellformedHasColumns(t);
    var g := ApiFold(t.cells, t.columns, fetched, RawKeyOrder);
    SameShapeWellformed(t, g);
    t.(cells := g)
  }

  /** A cell that no column of its name delivers to keeps its value and tag. */
  lemma {:induction false} ApiFoldUntouched(g: Grid, cols: seq<Column>, fetched: seq<Option<map<string, real>>>, keys: seq<string>, k: string, c: string)
    requires HasColumns(g, cols) && RowsFor(g, keys) && |cols| == |fetched|
    requires k in g && c in g[k]
    requires forall j :: 0 <= j < |cols| && cols[j].name == c ==> !Delivers(fetched[j], k, keys)
    ensures ApiFold(g, cols, fetched, keys)[k][c] == g[k][c]
    decreases |cols|
  {
    if |cols| > 0 {
      var g1 := ApiColumn(g, cols[0].name, fetched[0], keys);
      ApiColumnCell(g, cols[0].name, fetched[0], keys, k, c);
      assert forall j :: 0 <= j < |cols| - 1 ==> cols[1..][j] == cols[j + 1] && fetched[1..][j] == fetched[j + 1];
      ApiFoldUntouched(g1, cols[1..], fetched[1..], keys, k, c);
    }
  }

  /** A cell that column `j` delivers to, with no later column of the same
      name delivering to it, ends up holding the value column `j` fetched,
      tagged as fetched. */
  lemma {:induction false} ApiFoldDelivered(g: Grid, cols: seq<Column>, fetched: seq<Option<map<string, real>>>, keys: seq<string>, k: string, j: nat)
    requires HasColumns(g, cols) && RowsFor(g, keys) && |cols| == |fetched|
    requires j < |cols| && k in g && Delivers(fetched[j], k, keys)
    requires forall i :: j < i < |cols| && cols[i].name == cols[j].name ==> !Delivers(fetched[i], k, keys)
    ensures ApiFold(g, cols, fetched, keys)[k][cols[j].name] == Cell(fetched[j].value[k], Api)
    decreases |cols|
  {
    var g1 := ApiColumn(g, cols[0].name, fetched[0], keys);
    assert forall i :: 0 <= i < |cols| - 1 ==> cols[1..][i] == cols[i + 1] && fetched[1..][i] == fetched[i + 1];
    if j == 0 {
      ApiColumnCell(g, cols[0].name, fetched[0], keys, k, cols[0].name);
      ApiFoldUntouched(g1, cols[1..], fetched[1..], keys, k, cols[0].name);
    } else {
      ApiFoldDelivered(g1, cols[1..], fetched[1..], keys, k, j - 1);
    }
  }

  /** The last column of name `c` whose fetch delivers `k`. */
  function LastDelivering(cols: seq<Column>, fetched: seq<Option<map<string, real>>>, keys: seq<string>, k: string, c: string): (j: nat)
    requires |cols| == |fetched|
    requires exists j :: 0 <= j < |cols| && cols[j].name == c && Delivers(fetched[j], k, keys)
    ensures j < |cols| && cols[j].name == c && Delivers(fetched[j], k, keys)
    ensures forall i :: j < i < |cols| && cols[i].name == c ==> !Delivers(fetched[i], k, keys)
    decreases |cols|
  {
    var n := |cols| - 1;
    if cols[n].name == c && Delivers(fetched[n], k, keys) then n
    else LastDelivering(cols[..n], fetched[..n], keys, k, c)
  }

  /** Every column of a well-formed table has a cell in every row. */
  lemma WellformedHasColumns(t: Table)
    requires Wellformed(t)
    ensures HasColumns(t.cells, t.columns)
  {
    forall j | 0 <= j < |t.columns|
      ensures HasColumn(t.cells, t.columns[j].name)
    {
      WellformedHasColumn(t, t.columns[j].name);
    }
  }

  /** A cell the fold leaves tagged manual is the cell it started with. */
  lemma {:induction false} ApiFoldKeepsManual(g: Grid, cols: seq<Column>, fetched: seq<Option<map<string, real>>>, keys: seq<string>, k: string, c: string)
    requires HasColumns(g, cols) && RowsFor(g, keys) && |cols| == |fetched|
    requires k in g && c in g[k]
    ensures ApiFold(g, cols, fetched, keys)[k][c].source == Manual ==> ApiFold(g, cols, fetched, keys)[k][c] == g[k][c]
  {
    if exists j :: 0 <= j < |cols| && cols[j].name == c && Delivers(fetched[j], k, keys) {
      var j := LastDelivering(cols, fetched, keys, k, c);
      ApiFoldDelivered(g, cols, fetched, keys, k, j);
    } else {
      ApiFoldUntouched(g, cols, fetched, keys, k, c);
    }
  }

  /** After the update, a cell still tagged manual holds the value it had
      before and was tagged manual before: values change only where the tag
      now says they were fetched. */
  lemma {:induction false} ApiUpdateKeepsManualCells(t: Table, fetched: seq<Option<map<string, real>>>, k: string, c: string)
    requires Wellformed(t) && HasCounters(t) && |fetched| == |t.columns|
    requires IsCell(t, k, c)
    ensures var r := ApiUpdate(t, fetched);
      r.cells[k][c].source == Manual ==> r.cells[k][c] == t.cells[k][c]
  {
    CountersRows(t);
    WellformedHasColumns(t);
    ApiFoldKeepsManual(t.cells, t.columns, fetched, RawKeyOrder, k, c);
  }

  /** In the fold, a key outside `keys` keeps its cell in column `j`; a
      column that delivers `k`, with no later column of the same name
      delivering it, leaves the fetched value tagged as fetched. */
  lemma {:induction false} ApiFoldCell(g: Grid, cols: seq<Column>, fetched: seq<Option<map<string, real>>>, keys: seq<string>, k: string, j: nat)
    requires HasColumns(g, cols) && RowsFor(g, keys) && |cols| == |fetched|
    requires j < |cols| && k in g
    ensures var r := ApiFold(g, cols, fetched, keys);
      var c := cols[j].name;
      && (k !in keys ==> r[k][c] == g[k][c])
      && (Delivers(fetched[j], k, keys)
          && (forall i :: j < i < |cols| && cols[i].name == c ==> !Delivers(fetched[i], k, keys))
          ==> r[k][c] == Cell(fetched[j].value[k], Api))
  {
    var c := cols[j].name;
    if k !in keys {
      ApiFoldUntouched(g, cols, fetched, keys, k, c);
    }
    if Delivers(fetched[j], k, keys)
       && (forall i :: j < i < |cols| && cols[i].name == c ==> !Delivers(fetched[i], k, keys)) {
      ApiFoldDelivered(g, cols, fetched, keys, k, j);
    }
  }

  /** A column whose fetch delivers a raw counter, with no later column of
      the same name delivering it, shows the fetched value tagged as
      fetched; a metric that is not a raw counter keeps its cell. */
  lemma {:induction false} ApiUpdateCell(t: Table, fetched: seq<Option<map<string, real>>>, k: string, j: nat)
    requires Wellformed(t) && HasCounters(t) && |fetched| == |t.columns|
    requires j < |t.columns| && k in t.cells
    ensures var r := ApiUpdate(t, fetched);
      var c := t.columns[j].name;
      && (k !in RawKeys ==> r.cells[k][c] == t.cells[k][c])
      && (Delivers(fetched[j], k, RawKeyOrder)
          && (forall i :: j < i < |t.columns| && t.columns[i].name == c ==> !Delivers(fetched[i], k, RawKeyOrder))
          ==> r.cells[k][c] == Cell(fetched[j].value[k], Api))
  {
    CountersRows(t);
    WellformedHasColumns(t);
    ApiFoldCell(t.cells, t.columns, fetched, RawKeyOrder, k, j);
  }

  /** A cell that no column of its name delivers to keeps its value and
      tag through the update. */
  lemma {:induction false} ApiUpdateUntouched(t: Table, fetched: seq<Option<map<string, real>>>, k: string, c: string)
    requires Wellformed(t) && HasCounters(t) && |fetched| == |t.columns|
    requires IsCell(t, k, c)
    requires forall i :: 0 <= i < |t.columns| && t.columns[i].name == c ==> !Delivers(fetched[i], k, RawKeyOrder)
    ensures ApiUpdate(t, fetched).cells[k][c] == t.cells[k][c]
  {
    CountersRows(t);
    WellformedHasColumns(t);
    ApiFoldUntouched(t.cells, t.columns, fetched, RawKeyOrder, k, c);
  }

  /** A successful fetch delivers every raw counter. */
  lemma FetchDeliversAll(c: Counters, k: string)
    requires k in RawKeys
    ensures Delivers(Some(AsRawMap(c)), k, RawKeyOrder)
  {
    RawKeyOrderIsRawKeys();
    assert "spend" in AsRawMap(c);
  }

  /* ---------------------------------------------------------------- */
  /* Reading cells                                                      */
  /* ---------------------------------------------------------------- */

  /** The counters of one column, as the calculator reads them. */
  function Snapshot(g: Grid, col: string): (raw: map<string, real>)
    requires HasColumn(g, col)
    ensures raw.Keys == g.Keys
  {
    map k | k in g :: g[k][col].value
  }

  /** The value a cell shows: a calculated metric is computed from its
      column's counters, any other metric shows its stored value. */
  function CellValue(t: Table, e: Entry, col: string): (v: real)
    requires IsCell(t, e.key, col)
    ensures e.def.kind == Raw ==> v == t.cells[e.key][col].value
    ensures e.def.kind == Calculated && Classify(e.key).Some? ==>
      Satisfies(Snapshot(t.cells, col), FormulaOf(Classify(e.key).value), v)
  {
    WellformedHasColumn(t, col);
    if e.def.kind == Calculated then CalculateMetric(e.key, Snapshot(t.cells, col)) else t.cells[e.key][col].value
  }

  /** The text a cell shows; a table cell always holds a number, so it is
      never "N/A". */
  function CellText(t: Table, e: Entry, col: string): (s: string)
    requires IsCell(t, e.key, col)
    ensures s != NotAvailable
    ensures var v := CellValue(t, e, col);
      e.def.format == Currency ==>
        |s| >= 5 && s[0] == '$' && ShowsCents(s[1..], v) && WellGrouped(IntegerPart(s[1..]))
    ensures var v := CellValue(t, e, col);
      e.def.format == Percentage ==>
        |s| >= 5 && s[|s| - 1] == '%' && ShowsCents(s[..|s| - 1], v)
        && Canonical(IntegerPart(s[..|s| - 1]))
    ensures var v := CellValue(t, e, col);
      e.def.format == Ratio ==>
        |s| >= 5 && s[|s| - 1] == 'x' && ShowsCents(s[..|s| - 1], v)
        && Canonical(IntegerPart(s[..|s| - 1]))
    ensures e.def.format == Number ==> ShowsTruncated(s, CellValue(t, e, col))
  {
    FormatValue(Some(CellValue(t, e, col)), e.def.format)
  }

  /** The calculator sees a written cell in its column ... */
  lemma PutReachesCalculator(g: Grid, key: string, col: string, x: Cell)
    requires key in g && HasColumn(g, col)
    ensures Snapshot(Put(g, key, col, x), col) == Snapshot(g, col)[key := x.value]
  {
  }

  /** ... and only there. */
  lemma PutStaysInColumn(g: Grid, key: string, col: string, x: Cell, other: string)
    requires key in g && HasColumn(g, col) && HasColumn(g, other) && other != col
    ensures Snapshot(Put(g, key, col, x), other) == Snapshot(g, other)
  {
  }

  /** The stored cell of a derived metric is never shown: writing it does
      not change the value the table displays. */
  lemma {:induction false} DerivedIgnoresStoredCell(t: Table, e: Entry, col: string, v: real)
    requires IsCell(t, e.key, col)
    requires e.def.kind == Calculated && Classify(e.key).Some?
    ensures CellValue(ManualEdit(t, e.key, col, v), e, col) == CellValue(t, e, col)
  {
    assert e.key == DerivedKey(Classify(e.key).value);
    assert e.key !in RawKeys;
    WellformedHasColumn(t, col);
    if v != t.cells[e.key][col].value {
      PutReachesCalculator(t.cells, e.key, col, Cell(v, Manual));
      DerivedReadsRawOnly(e.key, Snapshot(t.cells, col), e.key, v);
    }
  }

  /* ---------------------------------------------------------------- */
  /* The summary text area                                              */
  /* ---------------------------------------------------------------- */

  /** The summary box writes its text back into the table on every run. */
  function SetSummary(t: Table, text: string): (r: Table)
    ensures r.summary == text
    ensures r.platform == t.platform && r.columns == t.columns
    ensures r.metrics == t.metrics && r.cells == t.cells
    ensures Wellformed(t) ==> Wellformed(r)
  {
    t.(summary := text)
  }

  /** Editing the summary changes no cell the table displays. */
  lemma SummaryKeepsCellTexts(t: Table, text: string, e: Entry, col: string)
    requires IsCell(t, e.key, col)
    ensures IsCell(SetSummary(t, text), e.key, col)
    ensures CellText(SetSummary(t, text), e, col) == CellText(t, e, col)
  {
    var r := SetSummary(t, text);
    assert r.cells == t.cells;
    assert CellValue(r, e, col) == CellValue(t, e, col);
  }
}
