/** Bundles are frozen snapshots of master and agree with the export. */
module Bundling {
  import opened Wrappers
  import opened Bytes
  import opened Schema
  import opened Files
  import opened Statements
  import opened Service
  import opened Invariants
  import opened Runs
  import opened ReviewMachine

  function ShippedKeys(keys: seq<KeyRow>, platform: Platform): set<nat> {
    set k | 0 <= k < |keys| && Ships(keys[k], platform)
  }

  // ---- a bundle is the active-key view of master -----------------------------------

  /** strings maps exactly the names of the active flutter keys, each to that key's
      value, "" when untranslated. */
  ghost predicate IsView(strings: map<Text, Text>, keys: seq<KeyRow>, cells: map<Pair, Cell>, l: nat) {
    && (forall name :: name in strings ==> exists k :: k in ShippedKeys(keys, Flutter) && keys[k].meta.name == name)
    && (forall k :: k in ShippedKeys(keys, Flutter) ==>
          keys[k].meta.name in strings && strings[keys[k].meta.name] == ExportValue(cells, Pair(k, l)))
  }

  /** The key is active and ships on the platform. */
  predicate OnPlatform(keys: seq<KeyRow>, k: nat, platform: Platform) {
    k < |keys| && keys[k].meta.status == Active && platform in keys[k].meta.platforms
  }

  /** The names of the active flutter keys and no others, each with its key's value. */
  ghost predicate ReadsMaster(strings: map<Text, Text>, keys: seq<KeyRow>, cells: map<Pair, Cell>, l: nat) {
    && (forall name :: name in strings <==>
          exists k: nat :: OnPlatform(keys, k, Flutter) && keys[k].meta.name == name)
    && (forall k: nat :: OnPlatform(keys, k, Flutter) ==>
          strings[keys[k].meta.name] == ValueOrBlank(cells, Pair(k, l)))
  }

  function ValueOrBlank(cells: map<Pair, Cell>, p: Pair): Text {
    if p in cells then cells[p].value else []
  }

  lemma BundleIsView(keys: seq<KeyRow>, cells: map<Pair, Cell>, l: nat)
    requires NamesUnique(keys)
    ensures IsView(BundleStrings(keys, cells, l), keys, cells, l)
    ensures ReadsMaster(BundleStrings(keys, cells, l), keys, cells, l)
  {
    BundleHasNames(keys, cells, l);
    var strings := BundleStrings(keys, cells, l);
    forall k: nat | OnPlatform(keys, k, Flutter)
      ensures keys[k].meta.name in strings && strings[keys[k].meta.name] == ValueOrBlank(cells, Pair(k, l))
    {
      assert k in ShippedKeys(keys, Flutter);
    }
    forall name | name in strings
      ensures exists k: nat :: OnPlatform(keys, k, Flutter) && keys[k].meta.name == name
    {
      var k :| k in ShippedKeys(keys, Flutter) && keys[k].meta.name == name;
      assert OnPlatform(keys, k, Flutter);
    }
  }

  lemma BundleHasNames(keys: seq<KeyRow>, cells: map<Pair, Cell>, l: nat)
    requires NamesUnique(keys)
    ensures IsView(BundleStrings(keys, cells, l), keys, cells, l)
  {
    var strings := BundleStrings(keys, cells, l);
    forall name | name in strings
      ensures exists k :: k in ShippedKeys(keys, Flutter) && keys[k].meta.name == name
    {
      assert Holder(keys, Flutter, name) in ShippedKeys(keys, Flutter);
    }
    forall k | k in ShippedKeys(keys, Flutter)
      ensures keys[k].meta.name in strings && strings[keys[k].meta.name] == ExportValue(cells, Pair(k, l))
    {
      var name := keys[k].meta.name;
      assert name in ShippedNames(keys, Flutter);
      assert Holder(keys, Flutter, name) == k;
    }
  }

  /** The view determines the strings. */
  lemma ViewIsUnique(a: map<Text, Text>, c: map<Text, Text>, keys: seq<KeyRow>, cells: map<Pair, Cell>, l: nat)
    requires IsView(a, keys, cells, l) && IsView(c, keys, cells, l)
    ensures a == c
  {
    forall name | name in a
      ensures name in c && a[name] == c[name]
    {
      var k :| k in ShippedKeys(keys, Flutter) && keys[k].meta.name == name;
    }
    forall name | name in c
      ensures name in a
    {
      var k :| k in ShippedKeys(keys, Flutter) && keys[k].meta.name == name;
    }
  }

  /** One more key adds at most its own name and id. */
  lemma NamesGrow(keys: seq<KeyRow>, row: KeyRow, platform: Platform)
    ensures ShippedNames(keys + [row], platform)
            == ShippedNames(keys, platform) + if Ships(row, platform) then {row.meta.name} else {}
  {
    var grown := keys + [row];
    forall k | 0 <= k < |keys| && Ships(keys[k], platform)
      ensures keys[k].meta.name in ShippedNames(grown, platform)
    {
      assert grown[k] == keys[k];
    }
    assert grown[|keys|] == row;
  }

  lemma KeysGrow(keys: seq<KeyRow>, row: KeyRow, platform: Platform)
    ensures ShippedKeys(keys + [row], platform)
            == ShippedKeys(keys, platform) + if Ships(row, platform) then {|keys|} else {}
  {
  }

  lemma LastNameIsNew(keys: seq<KeyRow>, row: KeyRow, platform: Platform)
    requires NamesUnique(keys + [row])
    ensures NamesUnique(keys)
    ensures Ships(row, platform) ==> row.meta.name !in ShippedNames(keys, platform)
  {
    var grown := keys + [row];
    forall i, j | 0 <= i < |keys| && 0 <= j < |keys| && i != j && BothActive(keys[i], keys[j])
      ensures keys[i].meta.name != keys[j].meta.name
    {
      assert BothActive(grown[i], grown[j]);
    }
    forall k | 0 <= k < |keys| && Ships(keys[k], platform) && Ships(row, platform)
      ensures keys[k].meta.name != row.meta.name
    {
      assert BothActive(grown[k], grown[|keys|]);
    }
  }

  lemma {:induction false} NamesCount(keys: seq<KeyRow>, platform: Platform)
    requires NamesUnique(keys)
    ensures |ShippedNames(keys, platform)| == |ShippedKeys(keys, platform)|
  {
    if keys == [] {
      assert ShippedNames(keys, platform) == {} && ShippedKeys(keys, platform) == {};
    } else {
      var init, last := keys[..|keys| - 1], keys[|keys| - 1];
      assert init + [last] == keys;
      LastNameIsNew(init, last, platform);
      NamesCount(init, platform);
      NamesGrow(init, last, platform);
      KeysGrow(init, last, platform);
    }
  }

  /** A bundle's key count is the number of active flutter keys. */
  lemma BundleCountsKeys(keys: seq<KeyRow>, cells: map<Pair, Cell>, l: nat)
    requires NamesUnique(keys)
    ensures |BundleStrings(keys, cells, l)| == |ShippedKeys(keys, Flutter)|
    ensures ShippedKeys(keys, Flutter) == set k | 0 <= k < |keys| && OnPlatform(keys, k, Flutter)
  {
    NamesCount(keys, Flutter);
    assert BundleStrings(keys, cells, l).Keys == ShippedNames(keys, Flutter);
  }

  // ---- the export -----------------------------------------------------------------------

  datatype ExportRow = ExportRow(key: Text, value: Text, hint: Hint, found: bool)

  datatype ExportEntry = ExportEntry(key: Text, value: Text, cdata: bool)

  datatype EmptyMode = Include | Skip

  /** An answer of the export query: every shipped key once, by ascending sort index. */
  ghost predicate QueryOrder(keys: seq<KeyRow>, platform: Platform, order: seq<nat>) {
    && (forall i :: 0 <= i < |order| ==> order[i] in ShippedKeys(keys, platform))
    && (forall k :: k in ShippedKeys(keys, platform) ==> k in order)
    && (forall i, j :: 0 <= i < j < |order| ==>
          order[i] != order[j] && keys[order[i]].sortIndex <= keys[order[j]].sortIndex)
  }

  ghost predicate ByIndex(keys: seq<KeyRow>, order: seq<nat>) {
    && (forall i :: 0 <= i < |order| ==> order[i] < |keys|)
    && (forall i, j :: 0 <= i < j < |order| ==>
          order[i] != order[j] && keys[order[i]].sortIndex <= keys[order[j]].sortIndex)
  }

  /** Inserts an id behind those that do not sort after it. */
  function InsertByIndex(keys: seq<KeyRow>, order: seq<nat>, k: nat): (r: seq<nat>)
    requires k < |keys| && k !in order && ByIndex(keys, order)
    ensures |r| == |order| + 1 && ByIndex(keys, r)
    ensures forall j :: j in r <==> j == k || j in order
  {
    if order == [] then [k]
    else
      var (before, last) := (order[..|order| - 1], order[|order| - 1]);
      if keys[last].sortIndex <= keys[k].sortIndex then order + [k]
      else
        assert forall j :: j in order <==> j in before || j == last;
        var inserted := InsertByIndex(keys, before, k);
        assert forall i :: 0 <= i < |inserted| ==> inserted[i] in inserted;
        inserted + [last]
  }

  /** One answer of the query's ORDER BY. */
  function ExportOrder(keys: seq<KeyRow>, platform: Platform, n: nat := |keys|): (order: seq<nat>)
    requires n <= |keys|
    ensures forall j :: j in order <==> j < n && j in ShippedKeys(keys, platform)
    ensures ByIndex(keys, order)
  {
    if n == 0 then []
    else
      var before := ExportOrder(keys, platform, n - 1);
      if Ships(keys[n - 1], platform) then InsertByIndex(keys, before, n - 1) else before
  }

  lemma {:induction false} ExportOrderAnswers(keys: seq<KeyRow>, platform: Platform)
    ensures QueryOrder(keys, platform, ExportOrder(keys, platform))
  {
  }

  function RowOf(keys: seq<KeyRow>, cells: map<Pair, Cell>, l: nat, k: nat): ExportRow
    requires k < |keys|
  {
    var p := Pair(k, l);
    ExportRow(keys[k].meta.name, ExportValue(cells, p), if p in cells then cells[p].hint else Plain, p in cells)
  }

  /** The rows the query answers in that order. */
  ghost predicate RowsOf(keys: seq<KeyRow>, cells: map<Pair, Cell>, l: nat, order: seq<nat>, rows: seq<ExportRow>) {
    && |rows| == |order|
    && forall i :: 0 <= i < |order| ==> order[i] < |keys| && rows[i] == RowOf(keys, cells, l, order[i])
  }

  /** Reads a whole locale; `order` is the query's row order. */
  method ForExport(keys: seq<KeyRow>, cells: map<Pair, Cell>, l: nat, platform: Platform, order: seq<nat>)
    returns (rows: seq<ExportRow>)
    requires QueryOrder(keys, platform, order)
    ensures RowsOf(keys, cells, l, order, rows)
  {
    rows := [];
    for i := 0 to |order|
      invariant |rows| == i
      invariant forall j :: 0 <= j < i ==> order[j] < |keys| && rows[j] == RowOf(keys, cells, l, order[j])
    {
      assert order[i] in ShippedKeys(keys, platform);
      rows := rows + [RowOf(keys, cells, l, order[i])];
    }
  }

  ghost predicate KeysDistinct(rows: seq<ExportRow>) {
    forall i, j :: 0 <= i < j < |rows| ==> rows[i].key != rows[j].key
  }

  lemma {:induction false} RowsDistinct(keys: seq<KeyRow>, cells: map<Pair, Cell>, l: nat, platform: Platform,
                                        order: seq<nat>, rows: seq<ExportRow>)
    requires NamesUnique(keys) && QueryOrder(keys, platform, order) && RowsOf(keys, cells, l, order, rows)
    ensures KeysDistinct(rows)
  {
    forall i, j | 0 <= i < j < |rows|
      ensures rows[i].key != rows[j].key
    {
      assert order[i] in ShippedKeys(keys, platform) && order[j] in ShippedKeys(keys, platform);
      assert BothActive(keys[order[i]], keys[order[j]]);
    }
  }

  /** strings holds the first n rows and nothing else. */
  ghost predicate MapOf(strings: map<Text, Text>, rows: seq<ExportRow>, n: nat)
    requires n <= |rows|
  {
    && (forall name :: name in strings ==> exists i :: 0 <= i < n && rows[i].key == name)
    && (forall i :: 0 <= i < n ==> rows[i].key in strings && strings[rows[i].key] == rows[i].value)
  }

  /** The rows of the query, as a map, are the bundle. */
  lemma {:induction false} RowsAreBundle(keys: seq<KeyRow>, cells: map<Pair, Cell>, l: nat, order: seq<nat>,
                                         rows: seq<ExportRow>, strings: map<Text, Text>)
    requires NamesUnique(keys) && QueryOrder(keys, Flutter, order) && RowsOf(keys, cells, l, order, rows)
    requires MapOf(strings, rows, |rows|)
    ensures strings == BundleStrings(keys, cells, l)
  {
    forall k | k in ShippedKeys(keys, Flutter)
      ensures keys[k].meta.name in strings && strings[keys[k].meta.name] == ExportValue(cells, Pair(k, l))
    {
      var j :| 0 <= j < |order| && order[j] == k;
      assert rows[j].key == keys[k].meta.name;
    }
    forall name | name in strings
      ensures exists k :: k in ShippedKeys(keys, Flutter) && keys[k].meta.name == name
    {
      var j :| 0 <= j < |rows| && rows[j].key == name;
      assert order[j] in ShippedKeys(keys, Flutter);
    }
    BundleIsView(keys, cells, l);
    ViewIsUnique(strings, BundleStrings(keys, cells, l), keys, cells, l);
  }

  /** The flat map of a locale's rows: a later row would win, but no two rows share a key. */
  method MaterialiseBundle(ghost keys: seq<KeyRow>, ghost cells: map<Pair, Cell>, ghost l: nat, ghost order: seq<nat>,
                           rows: seq<ExportRow>)
    returns (bundle: Bundle)
    requires NamesUnique(keys) && QueryOrder(keys, Flutter, order) && RowsOf(keys, cells, l, order, rows)
    ensures bundle == Bundle(BundleStrings(keys, cells, l), |ShippedKeys(keys, Flutter)|)
  {
    RowsDistinct(keys, cells, l, Flutter, order, rows);
    var strings: map<Text, Text> := map[];
    for i := 0 to |rows|
      invariant MapOf(strings, rows, i)
    {
      strings := strings[rows[i].key := rows[i].value];
    }
    RowsAreBundle(keys, cells, l, order, rows, strings);
    BundleCountsKeys(keys, cells, l);
    bundle := Bundle(strings, |strings|);
  }

  ghost predicate Materialised(keys: seq<KeyRow>, cells: map<Pair, Cell>, l: nat, bundle: Bundle) {
    bundle == Bundle(BundleStrings(keys, cells, l), |BundleStrings(keys, cells, l)|)
  }

  /** A locale's bundle, from the rows the export query returns. */
  method BundleFor(keys: seq<KeyRow>, cells: map<Pair, Cell>, l: nat) returns (bundle: Bundle)
    requires NamesUnique(keys)
    ensures Materialised(keys, cells, l, bundle)
  {
    var order := ExportOrder(keys, Flutter);
    ExportOrderAnswers(keys, Flutter);
    var rows := ForExport(keys, cells, l, Flutter, order);
    BundleCountsKeys(keys, cells, l);
    bundle := MaterialiseBundle(keys, cells, l, order, rows);
  }

  method MaterialiseBundles(keys: seq<KeyRow>, cells: map<Pair, Cell>, locales: seq<nat>)
    returns (bundles: map<nat, Bundle>)
    requires NamesUnique(keys)
    ensures bundles.Keys == set l | l in locales
    ensures forall l :: l in bundles ==> Materialised(keys, cells, l, bundles[l])
  {
    bundles := map[];
    for i := 0 to |locales|
      invariant bundles.Keys == set l | l in locales[..i]
      invariant forall l :: l in bundles ==> Materialised(keys, cells, l, bundles[l])
    {
      var bundle := BundleFor(keys, cells, locales[i]);
      bundles := bundles[locales[i] := bundle];
    }
  }

  function EntryOf(row: ExportRow): ExportEntry {
    ExportEntry(row.key, row.value, row.hint.Cdata?)
  }

  /** The entries of one locale: skip mode leaves out untranslated keys, never blank ones. */
  function EntriesOf(rows: seq<ExportRow>, mode: EmptyMode): seq<ExportEntry> {
    if rows == [] then []
    else
      var row := rows[|rows| - 1];
      EntriesOf(rows[..|rows| - 1], mode) + if !row.found && mode.Skip? then [] else [EntryOf(row)]
  }

  method EntriesFor(rows: seq<ExportRow>, mode: EmptyMode) returns (entries: seq<ExportEntry>)
    ensures entries == EntriesOf(rows, mode)
  {
    entries := [];
    for i := 0 to |rows|
      invariant entries == EntriesOf(rows[..i], mode)
    {
      assert rows[..i + 1][..i] == rows[..i];
      if !rows[i].found && mode.Skip? {
        continue;
      }
      entries := entries + [EntryOf(rows[i])];
    }
    assert rows[..|rows|] == rows;
  }

  predicate KeepsRow(row: ExportRow, mode: EmptyMode) {
    row.found || mode.Include?
  }

  /** The places of the rows a mode keeps: those and no others, in order. */
  ghost predicate KeptPlaces(rows: seq<ExportRow>, mode: EmptyMode, places: seq<nat>) {
    && (forall i, j :: 0 <= i < j < |places| ==> places[i] < places[j])
    && (forall i: nat :: i in places <==> i < |rows| && KeepsRow(rows[i], mode))
  }

  lemma KeptPlacesNext(rows: seq<ExportRow>, row: ExportRow, mode: EmptyMode, places: seq<nat>)
    requires KeptPlaces(rows, mode, places)
    ensures KeptPlaces(rows + [row], mode, if KeepsRow(row, mode) then places + [|rows|] else places)
  {
    forall j | 0 <= j < |places|
      ensures places[j] < |rows|
    {
      assert places[j] in places;
    }
    forall i: nat
      ensures i in places + [|rows|] <==> i in places || i == |rows|
    {
    }
  }

  ghost predicate EntriesAt(entries: seq<ExportEntry>, rows: seq<ExportRow>, places: seq<nat>) {
    && |entries| == |places|
    && forall j :: 0 <= j < |places| ==> places[j] < |rows| && entries[j] == EntryOf(rows[places[j]])
  }

  lemma EntriesAtNext(entries: seq<ExportEntry>, rows: seq<ExportRow>, row: ExportRow, places: seq<nat>)
    requires EntriesAt(entries, rows, places)
    ensures EntriesAt(entries, rows + [row], places)
    ensures EntriesAt(entries + [EntryOf(row)], rows + [row], places + [|rows|])
  {
  }

  /** The entries are exactly the rows that are found, or all of them in include mode, in the
      rows' order. A blank that was put there on purpose is found. */
  lemma {:induction false} EntriesAreKeptRows(rows: seq<ExportRow>, mode: EmptyMode) returns (places: seq<nat>)
    ensures KeptPlaces(rows, mode, places) && EntriesAt(EntriesOf(rows, mode), rows, places)
  {
    if rows == [] {
      places := [];
    } else {
      var (init, row) := (rows[..|rows| - 1], rows[|rows| - 1]);
      var before := EntriesAreKeptRows(init, mode);
      assert rows == init + [row];
      KeptPlacesNext(init, row, mode, before);
      EntriesAtNext(EntriesOf(init, mode), init, row, before);
      places := if KeepsRow(row, mode) then before + [|init|] else before;
    }
  }

  /** The export of a locale: exactly the active keys of the platform that have a value there,
      or all of them in include mode, by ascending sort index, each under its name with its
      value, "" when it has none, and wrapped in CDATA exactly when its row says so. */
  ghost predicate IsExport(keys: seq<KeyRow>, cells: map<Pair, Cell>, l: nat, platform: Platform, mode: EmptyMode,
                           ids: seq<nat>, entries: seq<ExportEntry>)
  {
    && (forall k: nat :: k in ids <==> OnPlatform(keys, k, platform) && (mode == Include || Pair(k, l) in cells))
    && (forall i, j :: 0 <= i < j < |ids| ==> ids[i] != ids[j] && SortsBy(keys, ids[i], ids[j]))
    && |entries| == |ids|
    && (forall i :: 0 <= i < |ids| ==> IsEntry(keys, cells, Pair(ids[i], l), entries[i]))
  }

  predicate SortsBy(keys: seq<KeyRow>, j: nat, k: nat) {
    j < |keys| && k < |keys| && keys[j].sortIndex <= keys[k].sortIndex
  }

  predicate IsEntry(keys: seq<KeyRow>, cells: map<Pair, Cell>, p: Pair, entry: ExportEntry) {
    && p.key < |keys| && entry.key == keys[p.key].meta.name
    && entry.value == ValueOrBlank(cells, p)
    && entry.cdata == (p in cells && cells[p].hint == Cdata)
  }

  lemma {:induction false} ExportedKeys(keys: seq<KeyRow>, cells: map<Pair, Cell>, l: nat, platform: Platform,
                                        order: seq<nat>, rows: seq<ExportRow>, mode: EmptyMode) returns (ids: seq<nat>)
    requires QueryOrder(keys, platform, order) && RowsOf(keys, cells, l, order, rows)
    ensures IsExport(keys, cells, l, platform, mode, ids, EntriesOf(rows, mode))
  {
    var places := EntriesAreKeptRows(rows, mode);
    assert forall j :: 0 <= j < |places| ==> places[j] in places;
    ids := seq(|places|, j requires 0 <= j < |places| => order[places[j]]);
    forall k: nat
      ensures k in ids <==> OnPlatform(keys, k, platform) && (mode == Include || Pair(k, l) in cells)
    {
      KeptKey(keys, cells, l, platform, order, rows, mode, places, ids, k);
    }
    KeptSorted(keys, platform, order, places, ids);
    KeptEntries(keys, cells, l, order, rows, mode, places, ids);
  }

  lemma KeptSorted(keys: seq<KeyRow>, platform: Platform, order: seq<nat>, places: seq<nat>, ids: seq<nat>)
    requires QueryOrder(keys, platform, order) && |ids| == |places|
    requires forall i, j :: 0 <= i < j < |places| ==> places[i] < places[j]
    requires forall j :: 0 <= j < |places| ==> places[j] < |order| && ids[j] == order[places[j]]
    ensures forall i, j :: 0 <= i < j < |ids| ==> ids[i] != ids[j] && SortsBy(keys, ids[i], ids[j])
  {
    forall i, j | 0 <= i < j < |ids|
      ensures ids[i] != ids[j] && SortsBy(keys, ids[i], ids[j])
    {
      assert places[i] < places[j] < |order|;
    }
  }

  lemma {:induction false} KeptEntries(keys: seq<KeyRow>, cells: map<Pair, Cell>, l: nat, order: seq<nat>,
                                       rows: seq<ExportRow>, mode: EmptyMode, places: seq<nat>, ids: seq<nat>)
    requires RowsOf(keys, cells, l, order, rows) && |ids| == |places|
    requires EntriesAt(EntriesOf(rows, mode), rows, places)
    requires forall j :: 0 <= j < |places| ==> places[j] < |order| && ids[j] == order[places[j]]
    ensures |EntriesOf(rows, mode)| == |ids|
    ensures forall i :: 0 <= i < |ids| ==> IsEntry(keys, cells, Pair(ids[i], l), EntriesOf(rows, mode)[i])
  {
    forall i | 0 <= i < |ids|
      ensures IsEntry(keys, cells, Pair(ids[i], l), EntriesOf(rows, mode)[i])
    {
      assert EntriesOf(rows, mode)[i] == EntryOf(rows[places[i]]) && rows[places[i]] == RowOf(keys, cells, l, ids[i]);
    }
  }

  lemma KeptKey(keys: seq<KeyRow>, cells: map<Pair, Cell>, l: nat, platform: Platform, order: seq<nat>,
                rows: seq<ExportRow>, mode: EmptyMode, places: seq<nat>, ids: seq<nat>, k: nat)
    requires QueryOrder(keys, platform, order) && RowsOf(keys, cells, l, order, rows)
    requires KeptPlaces(rows, mode, places) && |ids| == |places|
    requires forall j :: 0 <= j < |places| ==> places[j] < |order| && ids[j] == order[places[j]]
    ensures k in ids <==> OnPlatform(keys, k, platform) && (mode == Include || Pair(k, l) in cells)
  {
    if k in ids {
      var j :| 0 <= j < |ids| && ids[j] == k;
      assert places[j] in places && order[places[j]] in ShippedKeys(keys, platform);
    }
    if OnPlatform(keys, k, platform) && (mode == Include || Pair(k, l) in cells) {
      assert k in ShippedKeys(keys, platform);
      var i :| 0 <= i < |order| && order[i] == k;
      assert rows[i] == RowOf(keys, cells, l, k) && i in places;
      var j :| 0 <= j < |places| && places[j] == i;
      assert ids[j] == k;
    }
  }

  /** One locale of an export: the query and the loops over its rows. */
  method ExportLocale(keys: seq<KeyRow>, cells: map<Pair, Cell>, l: nat, platform: Platform, mode: EmptyMode)
    returns (entries: seq<ExportEntry>)
    ensures exists ids :: IsExport(keys, cells, l, platform, mode, ids, entries)
  {
    var order := ExportOrder(keys, platform);
    ExportOrderAnswers(keys, platform);
    var rows := ForExport(keys, cells, l, platform, order);
    entries := EntriesFor(rows, mode);
    ghost var ids := ExportedKeys(keys, cells, l, platform, order, rows, mode);
    assert IsExport(keys, cells, l, platform, mode, ids, entries);
  }

  /** What a format that carries keys and values is given. */
  function FileEntries(entries: seq<ExportEntry>): seq<FileEntry> {
    seq(|entries|, i requires 0 <= i < |entries| => FileEntry(entries[i].key, entries[i].value))
  }

  lemma {:induction false} IncludeKeepsRows(rows: seq<ExportRow>)
    ensures |EntriesOf(rows, Include)| == |rows|
    ensures forall i :: 0 <= i < |rows| ==> EntriesOf(rows, Include)[i] == EntryOf(rows[i])
  {
    if rows != [] {
      IncludeKeepsRows(rows[..|rows| - 1]);
    }
  }

  lemma {:induction false} LatestIsMap(rows: seq<ExportRow>, entries: seq<FileEntry>)
    requires KeysDistinct(rows) && |entries| == |rows|
    requires forall i :: 0 <= i < |rows| ==> entries[i] == FileEntry(rows[i].key, rows[i].value)
    ensures MapOf(Latest(entries), rows, |rows|)
  {
    LatestOfDistinct(entries);
    forall name | name in Latest(entries)
      ensures exists i :: 0 <= i < |rows| && rows[i].key == name
    {
      assert name in KeysOf(entries);
      var i :| 0 <= i < |entries| && entries[i].key == name;
      assert rows[i].key == name;
    }
  }

  /** The include-mode export of a locale, read as a map, is the locale's bundle. */
  lemma {:induction false} ExportIsBundle(keys: seq<KeyRow>, cells: map<Pair, Cell>, l: nat, order: seq<nat>,
                                          rows: seq<ExportRow>)
    requires NamesUnique(keys) && QueryOrder(keys, Flutter, order) && RowsOf(keys, cells, l, order, rows)
    ensures Latest(FileEntries(EntriesOf(rows, Include))) == BundleStrings(keys, cells, l)
  {
    var entries := FileEntries(EntriesOf(rows, Include));
    IncludeKeepsRows(rows);
    RowsDistinct(keys, cells, l, Flutter, order, rows);
    LatestIsMap(rows, entries);
    RowsAreBundle(keys, cells, l, order, rows, Latest(entries));
  }

  // ---- frozen over runs -----------------------------------------------------------------

  /** Call j cut release i, from what the call left of master. */
  ghost predicate CutBy(trace: seq<State>, ops: seq<Op>, i: nat, j: nat) {
    && j < |ops| && j + 1 < |trace| && |trace[j].releases| == i < |trace[j + 1].releases|
    && Plan(trace[j], ops[j]).Success?
    && (Plan(trace[j], ops[j]).value.Land? || Plan(trace[j], ops[j]).value.CutRelease?)
    && trace[j + 1].releases[i].bundles == Bundles(trace[j + 1])
    && NamesUnique(trace[j + 1].keys)
  }

  lemma CutFreezes(s: State, source: ReleaseSource, floor: Option<seq<nat>>)
    ensures |Cut(s, source, floor).releases| == |s.releases| + 1
    ensures Cut(s, source, floor).releases[|s.releases|].bundles == Bundles(Cut(s, source, floor))
  {
  }

  lemma CommitCuts(s: State, w: Write)
    requires Fits(s, w) && (w.Land? || w.CutRelease?)
    ensures |Commit(s, w).releases| == |s.releases| + 1
    ensures Commit(s, w).releases[|s.releases|].bundles == Bundles(Commit(s, w))
  {
    match w
    case Land(b, r) => CutFreezes(Landed(s, b, r), ByMerge(r), None);
    case CutRelease(floor) => CutFreezes(s, ByPublish, floor);
  }

  lemma StepCuts(trace: seq<State>, ops: seq<Op>, i: nat, j: nat)
    requires Run(trace, ops) && j < |ops| && |trace[j].releases| <= i < |trace[j + 1].releases|
    ensures CutBy(trace, ops, i, j)
  {
    var s := trace[j];
    assert Follows(trace, ops, j);
    var w := Plan(s, ops[j]);
    if w.Success? {
      CommitReleases(s, w.value);
      CommitCuts(s, w.value);
    }
    RunKeepsInv(trace, ops, j + 1);
  }

  lemma StepKeepsBundles(trace: seq<State>, ops: seq<Op>, i: nat, j: nat)
    requires Run(trace, ops) && j < |ops| && i < |trace[j].releases|
    ensures i < |trace[j + 1].releases| && trace[j + 1].releases[i].bundles == trace[j].releases[i].bundles
  {
    var s := trace[j];
    assert Follows(trace, ops, j);
    if Plan(s, ops[j]).Success? {
      CommitReleases(s, Plan(s, ops[j]).value);
    }
  }

  /** Release i has, after m calls, the bundles that call j left it with. */
  ghost predicate Kept(trace: seq<State>, i: nat, j: nat, m: nat) {
    && j + 1 < |trace| && m < |trace| && i < |trace[j + 1].releases| && i < |trace[m].releases|
    && trace[m].releases[i].bundles == trace[j + 1].releases[i].bundles
  }

  /** The call that added release i. */
  lemma {:induction false} AddingCall(trace: seq<State>, ops: seq<Op>, n: nat, i: nat) returns (j: nat)
    requires Run(trace, ops) && n < |trace| && i < |trace[n].releases|
    ensures j < n && |trace[j].releases| <= i < |trace[j + 1].releases|
    ensures forall m: nat :: j < m <= n ==> Kept(trace, i, j, m)
    decreases n
  {
    if i < |trace[n - 1].releases| {
      j := AddingCall(trace, ops, n - 1, i);
      StepKeepsBundles(trace, ops, i, n - 1);
      assert Kept(trace, i, j, n - 1);
    } else {
      j := n - 1;
    }
  }

  /** Over every run: each release was cut by one call, its bundles are the active-key
      view of master at that call, and they have not changed since. */
  lemma BundlesFrozen(trace: seq<State>, ops: seq<Op>, n: nat, i: nat) returns (j: nat)
    requires Run(trace, ops) && n < |trace| && i < |trace[n].releases|
    ensures j < n && CutBy(trace, ops, i, j)
    ensures forall m: nat :: j < m <= n ==> Kept(trace, i, j, m)
  {
    j := AddingCall(trace, ops, n, i);
    StepCuts(trace, ops, i, j);
  }

  /** So a bundle reads as master did when it was cut, for every locale served then. */
  lemma BundleReads(trace: seq<State>, ops: seq<Op>, i: nat, j: nat, l: nat)
    requires CutBy(trace, ops, i, j) && l in trace[j + 1].locales
    ensures var s := trace[j + 1];
            && l in s.releases[i].bundles
            && ReadsMaster(s.releases[i].bundles[l].strings, s.keys, s.cells, l)
            && s.releases[i].bundles[l].keyCount == |set k | 0 <= k < |s.keys| && OnPlatform(s.keys, k, Flutter)|
  {
    var s := trace[j + 1];
    BundleIsView(s.keys, s.cells, l);
    BundleCountsKeys(s.keys, s.cells, l);
  }
}
