/** The JSON file of an export, read back, is the bundle cut from the same master. */
module ExportedFiles {
  import opened Wrappers
  import opened Bytes
  import opened Files
  import opened Schema
  import opened Statements
  import opened Invariants
  import opened Bundling
  import JsonCodec

  /** Names and values of a locale's rows are UTF-8, as the database keeps its text. */
  ghost predicate RowsUtf8(rows: seq<ExportRow>) {
    forall i :: 0 <= i < |rows| ==> IsUtf8(rows[i].key) && IsUtf8(rows[i].value)
  }

  /** The include-mode JSON export of a locale, written and read again as a map, equals the
      bundle a release cut at that moment holds. */
  lemma {:induction false} FileIsBundle(keys: seq<KeyRow>, cells: map<Pair, Cell>, l: nat, order: seq<nat>,
                                        rows: seq<ExportRow>)
    requires NamesUnique(keys) && QueryOrder(keys, Flutter, order) && RowsOf(keys, cells, l, order, rows)
    requires RowsUtf8(rows)
    ensures var read := JsonCodec.Parsed(JsonCodec.FileText(FileEntries(EntriesOf(rows, Include))));
            read.Some? && Latest(read.value) == BundleStrings(keys, cells, l)
  {
    var entries := EntriesOf(rows, Include);
    IncludeKeepsRows(rows);
    assert JsonCodec.AllUtf8(FileEntries(entries)) by {
      forall i | 0 <= i < |entries|
        ensures IsUtf8(FileEntries(entries)[i].key) && IsUtf8(FileEntries(entries)[i].value)
      {
        assert entries[i] == EntryOf(rows[i]);
      }
    }
    JsonCodec.RoundTrip(FileEntries(entries));
    ExportIsBundle(keys, cells, l, order, rows);
  }
}
