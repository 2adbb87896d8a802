/** The keys and values of a localisation file, in the order of the file. */
module Files {
  import opened Bytes

  datatype FileEntry = FileEntry(key: Text, value: Text)

  function KeysOf(entries: seq<FileEntry>): seq<Text> {
    seq(|entries|, i requires 0 <= i < |entries| => entries[i].key)
  }

  /** A file as a map: the last value of a key counts. */
  function Latest(entries: seq<FileEntry>): (latest: map<Text, Text>)
    ensures forall name :: name in latest <==> name in KeysOf(entries)
  {
    if entries == [] then map[]
    else
      assert KeysOf(entries) == KeysOf(entries[..|entries| - 1]) + [entries[|entries| - 1].key];
      Latest(entries[..|entries| - 1])[entries[|entries| - 1].key := entries[|entries| - 1].value]
  }

  /** Without duplicates no entry is lost. */
  lemma {:induction false} LatestOfDistinct(entries: seq<FileEntry>)
    requires forall i, j :: 0 <= i < j < |entries| ==> entries[i].key != entries[j].key
    ensures forall i :: 0 <= i < |entries| ==>
              entries[i].key in Latest(entries) && Latest(entries)[entries[i].key] == entries[i].value
  {
    if entries != [] {
      var (init, n) := (entries[..|entries| - 1], |entries| - 1);
      LatestOfDistinct(init);
      forall i | 0 <= i < n
        ensures entries[i].key in Latest(entries) && Latest(entries)[entries[i].key] == entries[i].value
      {
        assert init[i] == entries[i] && entries[i].key != entries[n].key;
      }
    }
  }
}
