/** What a seed and an import leave in the tables, key by key and value by value. */
module SeedOutcomes {
  import opened Wrappers
  import opened Bytes
  import opened Files
  import opened Schema
  import opened Statements
  import opened Service
  import opened Invariants
  import opened Outcomes
  import opened Seeding
  import opened SeedRuns

  // ---- order and last values ------------------------------------------------------------------

  /** x stands at i for the first time. */
  ghost predicate FirstAt<T>(xs: seq<T>, x: T, i: nat) {
    i < |xs| && xs[i] == x && x !in xs[..i]
  }

  lemma {:induction false} SeenInOrder<T>(xs: seq<T>) returns (firsts: seq<nat>)
    ensures |firsts| == |FirstSeen(xs)|
    ensures forall i :: 0 <= i < |firsts| ==> FirstAt(xs, FirstSeen(xs)[i], firsts[i])
    ensures forall i, j :: 0 <= i < j < |firsts| ==> firsts[i] < firsts[j]
    ensures forall x :: x in xs ==> x in FirstSeen(xs)
  {
    if xs == [] {
      firsts := [];
    } else {
      var (init, last) := (xs[..|xs| - 1], xs[|xs| - 1]);
      var before := SeenInOrder(init);
      SeenIn(init);
      assert xs == init + [last];
      forall i | 0 <= i < |before|
        ensures FirstAt(xs, FirstSeen(init)[i], before[i])
      {
        assert FirstAt(init, FirstSeen(init)[i], before[i]) && xs[..before[i]] == init[..before[i]];
      }
      firsts := if last in FirstSeen(init) then before else before + [|init|];
    }
  }

  /** Entry i is the last one of its key. */
  ghost predicate LastOfKey(entries: seq<FileEntry>, i: nat) {
    i < |entries| && forall j :: i < j < |entries| ==> entries[j].key != entries[i].key
  }

  lemma {:induction false} LatestIsLast(entries: seq<FileEntry>, i: nat)
    requires LastOfKey(entries, i)
    ensures entries[i].key in Latest(entries) && Latest(entries)[entries[i].key] == entries[i].value
  {
    if i < |entries| - 1 {
      var init := entries[..|entries| - 1];
      assert init[i] == entries[i] && LastOfKey(init, i) && entries[|entries| - 1].key != entries[i].key;
      LatestIsLast(init, i);
    }
  }

  ghost predicate LastOfPair(batch: seq<Translation>, i: nat) {
    i < |batch| && forall j :: i < j < |batch| ==> batch[j].pair != batch[i].pair
  }

  lemma {:induction false} RowIsLast(batch: seq<Translation>, i: nat)
    requires LastOfPair(batch, i)
    ensures batch[i].pair in RowsOf(batch) && RowsOf(batch)[batch[i].pair] == (batch[i].value, batch[i].hint)
  {
    if i < |batch| - 1 {
      var init := batch[..|batch| - 1];
      assert init[i] == batch[i] && LastOfPair(init, i) && batch[|batch| - 1].pair != batch[i].pair;
      RowIsLast(init, i);
    }
  }

  lemma {:induction false} NoRow(batch: seq<Translation>, p: Pair)
    requires forall i :: 0 <= i < |batch| ==> batch[i].pair != p
    ensures p !in RowsOf(batch)
  {
    if batch != [] {
      NoRow(batch[..|batch| - 1], p);
    }
  }

  // ---- keys --------------------------------------------------------------------------------------

  ghost predicate NamesDistinct(wanted: seq<Wanted>) {
    forall i, j :: 0 <= i < j < |wanted| ==> wanted[i].meta.name != wanted[j].meta.name
  }

  ghost predicate NamesNone(wanted: seq<Wanted>, name: Text) {
    forall i :: 0 <= i < |wanted| ==> wanted[i].meta.name != name
  }

  /** A row under a name nobody sends, or that is not active, is left alone. */
  lemma {:induction false} UnsentKept(keys: seq<KeyRow>, wanted: seq<Wanted>, base: int, k: nat)
    requires k < |keys| && (keys[k].meta.status == Active ==> NamesNone(wanted, keys[k].meta.name))
    ensures k < |UpsertAll(keys, wanted, base)| && UpsertAll(keys, wanted, base)[k] == keys[k]
    decreases |wanted|
  {
    if wanted != [] {
      assert keys[k].meta.status == Active ==> wanted[0].meta.name != keys[k].meta.name;
      assert First(keys, wanted, base)[k] == keys[k];
      assert forall i :: 0 <= i < |wanted[1..]| ==> wanted[1..][i] == wanted[i + 1];
      UnsentKept(First(keys, wanted, base), wanted[1..], base, k);
    }
  }

  /** What one upsert of a run leaves: the row of its name folded, or a row of its own. */
  ghost predicate Left(before: seq<KeyRow>, after: seq<KeyRow>, w: Wanted, base: int, k: nat) {
    && k < |after| && Bears(after, k, w.meta.name)
    && if k < |before| then
         && Bears(before, k, w.meta.name) && Folded(before[k].meta, w.meta, after[k].meta)
         && after[k].sortIndex == before[k].sortIndex && after[k].remoteId == before[k].remoteId
         && after[k].version == before[k].version + if after[k].meta == before[k].meta then 0 else 1
       else
         after[k] == KeyRow(w.meta.(status := Active), 1, base + w.offset, w.remoteId)
  }

  lemma UpsertLeaves(keys: seq<KeyRow>, w: Wanted, base: int) returns (k: nat)
    ensures Left(keys, UpsertOne(keys, w, base), w, base, k)
    ensures k < |keys| || FreeFor(keys, |keys|, w.meta.name)
  {
    NameTakenIsBorne(keys, |keys|, w.meta.name);
    var found := ActiveKey(keys, w.meta.name);
    k := if found.Some? then found.value else |keys|;
    if found.Some? {
      PlatformsJoin(keys[k].meta.platforms, w.meta.platforms);
    }
  }

  /** The upserts of a run over different names: each leaves its row as if it ran alone. */
  lemma {:induction false} RunLeaves(keys: seq<KeyRow>, wanted: seq<Wanted>, base: int, i: nat) returns (k: nat)
    requires NamesUnique(keys) && NamesDistinct(wanted) && i < |wanted|
    ensures Left(keys, UpsertAll(keys, wanted, base), wanted[i], base, k)
    decreases i
  {
    var (next, rest) := (First(keys, wanted, base), wanted[1..]);
    assert forall j :: 0 <= j < |rest| ==> rest[j] == wanted[j + 1];
    UpsertKeepsUnique(keys, wanted[0], base);
    if i == 0 {
      k := UpsertLeaves(keys, wanted[0], base);
      UnsentKept(next, rest, base, k);
    } else {
      k := RunLeaves(next, rest, base, i - 1);
      OtherUntouched(keys, wanted[0], base, wanted[i], UpsertAll(keys, wanted, base), k);
    }
  }

  /** The first upsert neither touches nor inserts the row of another name. */
  lemma OtherUntouched(keys: seq<KeyRow>, first: Wanted, base: int, w: Wanted, after: seq<KeyRow>, k: nat)
    requires first.meta.name != w.meta.name && Left(UpsertOne(keys, first, base), after, w, base, k)
    ensures Left(keys, after, w, base, k)
  {
  }

  // ---- seed: keys ----------------------------------------------------------------------------------

  /** How many entries the first n files have. */
  function Entries(files: seq<seq<FileEntry>>, n: nat): nat
    requires n <= |files|
  {
    if n == 0 then 0 else Entries(files, n - 1) + |files[n - 1]|
  }

  lemma {:induction false} EntriesInPrefix(files: seq<seq<FileEntry>>, m: nat, n: nat)
    requires n <= m <= |files|
    ensures Entries(files[..m], n) == Entries(files, n)
  {
    if n > 0 {
      EntriesInPrefix(files, m, n - 1);
    }
  }

  /** The keys of all files stand one file after the other, in the order of the locales. */
  lemma {:induction false} KeysInOrder(files: seq<seq<FileEntry>>, f: nat, e: nat)
    requires f < |files| && e < |files[f]|
    ensures |AllKeys(files)| == Entries(files, |files|) && Entries(files, f) + e < |AllKeys(files)|
    ensures AllKeys(files)[Entries(files, f) + e] == files[f][e].key
  {
    KeysCounted(files);
    var n := |files| - 1;
    EntriesInPrefix(files, n, n);
    if f < n {
      KeysInOrder(files[..n], f, e);
      EntriesInPrefix(files, n, f);
    } else {
      KeysCounted(files[..n]);
    }
  }

  lemma {:induction false} KeysCounted(files: seq<seq<FileEntry>>)
    ensures |AllKeys(files)| == Entries(files, |files|)
  {
    if files != [] {
      var n := |files| - 1;
      KeysCounted(files[..n]);
      EntriesInPrefix(files, n, n);
    }
  }

  /** A seed upserts every key of the files once, in the order they are first seen over all
      files. A key that is there is folded with the platforms it is seen on; a new one belongs to
      them, has no description, and sorts behind all old keys and behind those seen before it. */
  lemma SeedKeys(tables: Tables, locales: seq<nat>, files: seq<seq<FileEntry>>, extra: map<Text, set<Platform>>, i: nat)
    returns (k: nat)
    requires NamesUnique(tables.keys) && |locales| == |files| && i < |FirstSeen(AllKeys(files))|
    ensures var (name, after) := (FirstSeen(AllKeys(files))[i], Seeded(tables, locales, files, extra).keys);
            && k < |after| && Bears(after, k, name) && Flutter in after[k].meta.platforms
            && (name in extra ==> forall p :: p in extra[name] ==> p in after[k].meta.platforms)
            && if k < |tables.keys| then
                 && after[k].sortIndex == tables.keys[k].sortIndex && after[k].remoteId == tables.keys[k].remoteId
                 && after[k].meta.(platforms := []) == tables.keys[k].meta.(platforms := [])
                 && (forall p :: p in after[k].meta.platforms ==>
                       p in tables.keys[k].meta.platforms || p == Flutter || (name in extra && p in extra[name]))
                 && after[k].version == tables.keys[k].version + if after[k].meta == tables.keys[k].meta then 0 else 1
               else
                 && after[k].version == 1 && after[k].remoteId == None
                 && after[k].sortIndex == MaxSortIndex(tables.keys) + 100 * (i + 1)
                 && after[k].meta == Meta(name, [], after[k].meta.platforms, None, None, Active)
                 && forall p :: p in after[k].meta.platforms ==> p == Flutter || (name in extra && p in extra[name])
  {
    var order := FirstSeen(AllKeys(files));
    var wanted := SeedWanted(order, extra);
    SeenIn(AllKeys(files));
    k := RunLeaves(tables.keys, wanted, MaxSortIndex(tables.keys), i);
    DistinctHolds({Flutter} + if order[i] in extra then extra[order[i]] else {});
  }

  // ---- values ----------------------------------------------------------------------------------------

  /** A row as a batch writes it: the value and hint that were sent, one version up if that
      changes anything. */
  ghost predicate Written(before: map<Pair, Cell>, after: map<Pair, Cell>, p: Pair, value: Text, hint: Hint) {
    && p in after && after[p].value == value && after[p].hint == hint
    && after[p].version == if p in before && before[p].value == value && before[p].hint == hint then before[p].version
                           else VersionAt(before, p) + 1
  }

  ghost predicate Kept(before: map<Pair, Cell>, after: map<Pair, Cell>, p: Pair) {
    (p in after <==> p in before) && (p in before ==> after[p] == before[p])
  }

  lemma BatchWrites(cells: map<Pair, Cell>, rows: map<Pair, (Text, Hint)>, p: Pair)
    ensures p in rows ==> Written(cells, BatchWritten(cells, rows), p, rows[p].0, rows[p].1)
    ensures p !in rows ==> Kept(cells, BatchWritten(cells, rows), p)
  {
  }

  lemma {:induction false} BatchesKeep(cells: map<Pair, Cell>, batches: seq<map<Pair, (Text, Hint)>>, p: Pair)
    requires forall i :: 0 <= i < |batches| ==> p !in batches[i]
    ensures Kept(cells, BatchAll(cells, batches), p)
  {
    if batches != [] {
      var init := batches[..|batches| - 1];
      BatchesKeep(cells, init, p);
      BatchWrites(BatchAll(cells, init), batches[|batches| - 1], p);
    }
  }

  /** Batches on different pairs: each row is written as if its batch ran alone. */
  lemma {:induction false} BatchesWrite(cells: map<Pair, Cell>, batches: seq<map<Pair, (Text, Hint)>>, i: nat, p: Pair)
    requires Apart(batches) && i < |batches| && p in batches[i]
    ensures Written(cells, BatchAll(cells, batches), p, batches[i][p].0, batches[i][p].1)
  {
    var (init, last) := (batches[..|batches| - 1], batches[|batches| - 1]);
    if i < |init| {
      assert init[i] == batches[i] && p !in last;
      BatchesWrite(cells, init, i, p);
    } else {
      forall j | 0 <= j < |init|
        ensures p !in init[j]
      {
        assert init[j] == batches[j];
      }
      BatchesKeep(cells, init, p);
    }
    BatchWrites(BatchAll(cells, init), last, p);
  }

  // ---- seed: values ------------------------------------------------------------------------------------

  lemma {:induction false} BatchForRow(keys: seq<KeyRow>, l: nat, names: seq<Text>, latest: map<Text, Text>, n: nat,
                                       k: nat)
    requires forall name :: name in names ==> name in latest
    requires n < |names| && ActiveKey(keys, names[n]) == Some(k)
    ensures Translation(Pair(k, l), latest[names[n]], Plain) in BatchFor(keys, l, names, latest)
  {
    if n < |names| - 1 {
      var init := names[..|names| - 1];
      assert init[n] == names[n];
      BatchForRow(keys, l, init, latest, n, k);
    }
  }

  /** A locale's batch holds the last value of every key of its file, plain. */
  lemma {:induction false} SeedRow(keys: seq<KeyRow>, l: nat, entries: seq<FileEntry>, e: nat, k: nat)
    requires LastOfKey(entries, e) && ActiveKey(keys, entries[e].key) == Some(k)
    ensures Pair(k, l) in RowsOf(SeedBatch(keys, l, entries))
    ensures RowsOf(SeedBatch(keys, l, entries))[Pair(k, l)] == (entries[e].value, Plain)
  {
    var (names, latest) := (FirstSeen(KeysOf(entries)), Latest(entries));
    SeenIn(KeysOf(entries));
    LatestIsLast(entries, e);
    assert KeysOf(entries)[e] == entries[e].key && entries[e].key in names;
    var n :| 0 <= n < |names| && names[n] == entries[e].key;
    var batch := BatchFor(keys, l, names, latest);
    BatchForRow(keys, l, names, latest, n, k);
    BatchOnePerPair(keys, l, names, latest);
    RowsAt(batch);
    var i :| 0 <= i < |batch| && batch[i] == Translation(Pair(k, l), latest[names[n]], Plain);
  }

  lemma {:induction false} BatchForNames(keys: seq<KeyRow>, l: nat, names: seq<Text>, latest: map<Text, Text>, i: nat)
    requires forall name :: name in names ==> name in latest
    requires i < |BatchFor(keys, l, names, latest)|
    ensures var p := BatchFor(keys, l, names, latest)[i].pair;
            p.locale == l && exists n :: 0 <= n < |names| && ActiveKey(keys, names[n]) == Some(p.key)
  {
    var init := names[..|names| - 1];
    if i < |BatchFor(keys, l, init, latest)| {
      BatchForNames(keys, l, init, latest, i);
      var p := BatchFor(keys, l, init, latest)[i].pair;
      var n :| 0 <= n < |init| && ActiveKey(keys, init[n]) == Some(p.key);
      assert names[n] == init[n];
    } else {
      assert ActiveKey(keys, names[|names| - 1]).Some?;
    }
  }

  /** The file names the pair's key. */
  ghost predicate NamedInFile(keys: seq<KeyRow>, entries: seq<FileEntry>, k: nat) {
    exists e :: 0 <= e < |entries| && ActiveKey(keys, entries[e].key) == Some(k)
  }

  lemma SeedRowNamed(keys: seq<KeyRow>, l: nat, entries: seq<FileEntry>, i: nat)
    requires i < |SeedBatch(keys, l, entries)|
    ensures var p := SeedBatch(keys, l, entries)[i].pair; p.locale == l && NamedInFile(keys, entries, p.key)
  {
    var (names, p) := (FirstSeen(KeysOf(entries)), SeedBatch(keys, l, entries)[i].pair);
    SeenIn(KeysOf(entries));
    BatchForNames(keys, l, names, Latest(entries), i);
    var n :| 0 <= n < |names| && ActiveKey(keys, names[n]) == Some(p.key);
    assert names[n] in KeysOf(entries);
    var e :| 0 <= e < |entries| && KeysOf(entries)[e] == names[n];
    assert ActiveKey(keys, entries[e].key) == Some(p.key);
  }

  lemma SeedNoRow(keys: seq<KeyRow>, l: nat, entries: seq<FileEntry>, p: Pair)
    requires p.locale != l || !NamedInFile(keys, entries, p.key)
    ensures p !in RowsOf(SeedBatch(keys, l, entries))
  {
    var batch := SeedBatch(keys, l, entries);
    forall i | 0 <= i < |batch|
      ensures batch[i].pair != p
    {
      SeedRowNamed(keys, l, entries, i);
    }
    NoRow(batch, p);
  }

  /** After a seed the row of a key the locale's file names holds the file's last value for it,
      plain; every other row is as it was. */
  lemma SeedValues(tables: Tables, locales: seq<nat>, files: seq<seq<FileEntry>>, extra: map<Text, set<Platform>>,
                   i: nat, e: nat, k: nat, p: Pair)
    requires |locales| == |files| && DistinctLocales(locales)
    ensures var after := Seeded(tables, locales, files, extra);
            && (i < |files| && LastOfKey(files[i], e) && ActiveKey(after.keys, files[i][e].key) == Some(k) ==>
                  Written(tables.cells, after.cells, Pair(k, locales[i]), files[i][e].value, Plain))
            && ((forall j :: 0 <= j < |files| ==>
                  p.locale != locales[j] || !NamedInFile(after.keys, files[j], p.key)) ==>
                  Kept(tables.cells, after.cells, p))
  {
    var keys := Seeded(tables, locales, files, extra).keys;
    var batches := SeedBatches(keys, locales, files);
    if i < |files| && LastOfKey(files[i], e) && ActiveKey(keys, files[i][e].key) == Some(k) {
      SeedBatchesApart(keys, locales, files);
      SeedRow(keys, locales[i], files[i], e, k);
      BatchesWrite(tables.cells, batches, i, Pair(k, locales[i]));
    }
    if forall j :: 0 <= j < |files| ==> p.locale != locales[j] || !NamedInFile(keys, files[j], p.key) {
      forall j | 0 <= j < |files|
        ensures p !in batches[j]
      {
        SeedNoRow(keys, locales[j], files[j], p);
      }
      BatchesKeep(tables.cells, batches, p);
    }
  }

  // ---- import: keys --------------------------------------------------------------------------------------

  lemma {:induction false} WantedIsAt(remote: seq<RemoteKey>, i: nat) returns (n: nat)
    requires i < |remote| && remote[i].name != []
    ensures n < |ImportWanted(remote)| && ImportWanted(remote)[n] == WantedAt(remote, i)
  {
    WantedNext(remote, i);
    n := |ImportWanted(remote[..i])|;
  }

  lemma {:induction false} ImportDistinct(remote: seq<RemoteKey>)
    requires forall i, j :: 0 <= i < j < |remote| && remote[i].name != [] ==> remote[i].name != remote[j].name
    ensures NamesDistinct(ImportWanted(remote))
  {
    WantedNames(remote);
  }

  /** An import whose canonical names differ folds every named key into the active key of its
      name, or inserts one under its remote id that sorts behind all old keys in the order of
      the fetch; a key on no platform becomes a Flutter key. */
  lemma ImportKeys(tables: Tables, locales: seq<nat>, remote: seq<RemoteKey>, present: set<(nat, Text)>, i: nat)
    returns (k: nat)
    requires NamesUnique(tables.keys) && Imported(tables, locales, remote, present).Success?
    requires forall i, j :: 0 <= i < j < |remote| && remote[i].name != [] ==> remote[i].name != remote[j].name
    requires i < |remote| && remote[i].name != []
    ensures var (sent, after) := (remote[i], Imported(tables, locales, remote, present).value.keys);
            var on := if sent.platforms == {} then {Flutter} else sent.platforms;
            && k < |after| && Bears(after, k, sent.name)
            && if k < |tables.keys| then
                 var was := tables.keys[k];
                 && after[k].sortIndex == was.sortIndex && after[k].remoteId == was.remoteId
                 && after[k].meta == was.meta.(
                      description := if sent.description == [] then was.meta.description else sent.description,
                      platforms := after[k].meta.platforms)
                 && (forall p :: p in after[k].meta.platforms <==> p in was.meta.platforms || p in on)
                 && after[k].version == was.version + if after[k].meta == was.meta then 0 else 1
               else
                 && after[k].version == 1 && after[k].remoteId == Some(sent.id)
                 && after[k].sortIndex == MaxSortIndex(tables.keys) + 100 * (i + 1)
                 && after[k].meta == Meta(sent.name, sent.description, after[k].meta.platforms, None, None, Active)
                 && forall p :: p in after[k].meta.platforms <==> p in on
  {
    ImportDistinct(remote);
    var n := WantedIsAt(remote, i);
    k := RunLeaves(tables.keys, ImportWanted(remote), MaxSortIndex(tables.keys), n);
    DistinctHolds(remote[i].platforms);
  }

  // ---- import: values ----------------------------------------------------------------------------------------

  /** Translation j of the i-th key is written to the pair: the key is named and has it, the
      locale's export contains the key, and the translation is for the locale. */
  ghost predicate Writes(keys: seq<KeyRow>, remote: seq<RemoteKey>, present: set<(nat, Text)>, p: Pair, i: nat,
                         j: nat) {
    && i < |remote| && remote[i].name != [] && ActiveKey(keys, remote[i].name) == Some(p.key)
    && (p.locale, remote[i].name) in present
    && j < |remote[i].translations| && remote[i].translations[j].locale == p.locale
  }

  /** And none after it. */
  ghost predicate WritesLast(keys: seq<KeyRow>, remote: seq<RemoteKey>, present: set<(nat, Text)>, p: Pair, i: nat,
                             j: nat) {
    && Writes(keys, remote, present, p, i, j)
    && forall i': nat, j': nat :: Writes(keys, remote, present, p, i', j') ==> i' < i || (i' == i && j' <= j)
  }

  /** No translation of the i-th key is written to the pair. */
  ghost predicate NoneWrites(keys: seq<KeyRow>, remote: seq<RemoteKey>, present: set<(nat, Text)>, p: Pair, i: nat) {
    forall j: nat :: !Writes(keys, remote, present, p, i, j)
  }

  lemma {:induction false} RowsAppend(a: seq<Translation>, b: seq<Translation>, p: Pair)
    ensures p in RowsOf(a + b) <==> p in RowsOf(a) || p in RowsOf(b)
    ensures p in RowsOf(b) ==> RowsOf(a + b)[p] == RowsOf(b)[p]
    ensures p !in RowsOf(b) && p in RowsOf(a) ==> RowsOf(a + b)[p] == RowsOf(a)[p]
  {
    if b == [] {
      assert a + b == a;
    } else {
      assert (a + b)[..|a + b| - 1] == a + b[..|b| - 1];
      RowsAppend(a, b[..|b| - 1], p);
    }
  }

  /** The translations of one key for a locale: the last of them counts. */
  lemma {:induction false} PresentRow(k: nat, l: nat, ts: seq<RemoteTranslation>, j: nat)
    requires j < |ts| && ts[j].locale == l && forall i :: j < i < |ts| ==> ts[i].locale != l
    ensures Pair(k, l) in RowsOf(PresentOf(k, l, ts)) && RowsOf(PresentOf(k, l, ts))[Pair(k, l)] == (ts[j].value, Plain)
  {
    var init := ts[..|ts| - 1];
    if j < |init| {
      assert init[j] == ts[j] && ts[|init|].locale != l;
      PresentRow(k, l, init, j);
    } else {
      AppendedRow(PresentOf(k, l, init), Translation(Pair(k, l), ts[j].value, Plain));
    }
  }

  lemma {:induction false} PresentNoRow(k: nat, l: nat, ts: seq<RemoteTranslation>, p: Pair)
    requires p != Pair(k, l) || forall i :: 0 <= i < |ts| ==> ts[i].locale != l
    ensures p !in RowsOf(PresentOf(k, l, ts))
  {
    PresentLocale(k, l, ts);
    if p == Pair(k, l) {
      PresentEmpty(k, l, ts);
    }
    NoRow(PresentOf(k, l, ts), p);
  }

  lemma {:induction false} PresentEmpty(k: nat, l: nat, ts: seq<RemoteTranslation>)
    requires forall i :: 0 <= i < |ts| ==> ts[i].locale != l
    ensures PresentOf(k, l, ts) == []
  {
    if ts != [] {
      PresentEmpty(k, l, ts[..|ts| - 1]);
    }
  }

  /** What the last key of a fetch adds to a locale's batch. */
  function LastPart(keys: seq<KeyRow>, l: nat, remote: seq<RemoteKey>, present: set<(nat, Text)>): seq<Translation>
    requires remote != []
  {
    var last := remote[|remote| - 1];
    var id := ActiveKey(keys, last.name);
    if last.name == [] || id.None? then [] else FromKey(id.value, l, last.name, last.translations, present)
  }

  lemma {:induction false} BatchParts(keys: seq<KeyRow>, l: nat, remote: seq<RemoteKey>, present: set<(nat, Text)>)
    requires remote != []
    ensures ImportBatch(keys, l, remote, present)
            == ImportBatch(keys, l, remote[..|remote| - 1], present) + LastPart(keys, l, remote, present)
  {
  }

  lemma WritesInPrefix(keys: seq<KeyRow>, remote: seq<RemoteKey>, present: set<(nat, Text)>, p: Pair, n: nat)
    requires n <= |remote|
    ensures forall i: nat, j: nat :: i < n ==>
              (Writes(keys, remote[..n], present, p, i, j) <==> Writes(keys, remote, present, p, i, j))
  {
  }

  lemma {:induction false} LastPartRow(keys: seq<KeyRow>, remote: seq<RemoteKey>, present: set<(nat, Text)>, p: Pair,
                                       j: nat)
    requires remote != [] && WritesLast(keys, remote, present, p, |remote| - 1, j)
    ensures p in RowsOf(LastPart(keys, p.locale, remote, present))
    ensures RowsOf(LastPart(keys, p.locale, remote, present))[p] == (remote[|remote| - 1].translations[j].value, Plain)
  {
    var (n, ts) := (|remote| - 1, remote[|remote| - 1].translations);
    forall i | j < i < |ts|
      ensures ts[i].locale != p.locale
    {
      assert !Writes(keys, remote, present, p, n, i);
    }
    PresentRow(p.key, p.locale, ts, j);
  }

  lemma {:induction false} LastPartNoRow(keys: seq<KeyRow>, remote: seq<RemoteKey>, present: set<(nat, Text)>, p: Pair)
    requires remote != [] && NoneWrites(keys, remote, present, p, |remote| - 1)
    ensures p !in RowsOf(LastPart(keys, p.locale, remote, present))
  {
    var last := remote[|remote| - 1];
    var id := ActiveKey(keys, last.name);
    if last.name != [] && id.Some? && (p.locale, last.name) in present {
      forall i | 0 <= i < |last.translations| && id.value == p.key
        ensures last.translations[i].locale != p.locale
      {
        assert !Writes(keys, remote, present, p, |remote| - 1, i);
      }
      PresentNoRow(id.value, p.locale, last.translations, p);
    }
  }

  /** The batch of a locale holds, for every pair, the last translation that is written to it. */
  lemma {:induction false} ImportRow(keys: seq<KeyRow>, remote: seq<RemoteKey>, present: set<(nat, Text)>, p: Pair,
                                     i: nat, j: nat)
    requires WritesLast(keys, remote, present, p, i, j)
    ensures var rows := RowsOf(ImportBatch(keys, p.locale, remote, present));
            p in rows && rows[p] == (remote[i].translations[j].value, Plain)
  {
    var n := |remote| - 1;
    var init := remote[..n];
    BatchParts(keys, p.locale, remote, present);
    RowsAppend(ImportBatch(keys, p.locale, init, present), LastPart(keys, p.locale, remote, present), p);
    if i == n {
      LastPartRow(keys, remote, present, p, j);
    } else {
      assert NoneWrites(keys, remote, present, p, n);
      LastPartNoRow(keys, remote, present, p);
      WritesInPrefix(keys, remote, present, p, n);
      ImportRow(keys, init, present, p, i, j);
    }
  }

  lemma {:induction false} ImportNoRow(keys: seq<KeyRow>, remote: seq<RemoteKey>, present: set<(nat, Text)>, p: Pair)
    requires forall i: nat, j: nat :: !Writes(keys, remote, present, p, i, j)
    ensures p !in RowsOf(ImportBatch(keys, p.locale, remote, present))
  {
    if remote != [] {
      var n := |remote| - 1;
      BatchParts(keys, p.locale, remote, present);
      RowsAppend(ImportBatch(keys, p.locale, remote[..n], present), LastPart(keys, p.locale, remote, present), p);
      assert NoneWrites(keys, remote, present, p, n);
      LastPartNoRow(keys, remote, present, p);
      WritesInPrefix(keys, remote, present, p, n);
      ImportNoRow(keys, remote[..n], present, p);
    }
  }

  lemma {:induction false} OtherLocaleNoRow(keys: seq<KeyRow>, l: nat, remote: seq<RemoteKey>,
                                            present: set<(nat, Text)>, p: Pair)
    requires p.locale != l
    ensures p !in RowsOf(ImportBatch(keys, l, remote, present))
  {
    ImportLocale(keys, l, remote, present);
    NoRow(ImportBatch(keys, l, remote, present), p);
  }

  /** After an import every pair of a known locale holds the last translation the fetch has for
      it, of those whose key the locale's export contains, be it blank or not; every other row is
      as it was. */
  lemma ImportValues(tables: Tables, locales: seq<nat>, remote: seq<RemoteKey>, present: set<(nat, Text)>, p: Pair,
                     i: nat, j: nat)
    requires DistinctLocales(locales) && Imported(tables, locales, remote, present).Success?
    ensures var after := Imported(tables, locales, remote, present).value;
            && (p.locale in locales && WritesLast(after.keys, remote, present, p, i, j) ==>
                  Written(tables.cells, after.cells, p, remote[i].translations[j].value, Plain))
            && (p.locale !in locales || (forall i: nat, j: nat :: !Writes(after.keys, remote, present, p, i, j)) ==>
                  Kept(tables.cells, after.cells, p))
  {
    var keys := Imported(tables, locales, remote, present).value.keys;
    var batches := ImportBatches(keys, locales, remote, present);
    forall n | 0 <= n < |locales|
      ensures batches[n] == RowsOf(ImportBatch(keys, locales[n], remote, present))
    {
      DedupedRows(ImportBatch(keys, locales[n], remote, present));
    }
    if p.locale in locales && WritesLast(keys, remote, present, p, i, j) {
      var n :| 0 <= n < |locales| && locales[n] == p.locale;
      ImportRow(keys, remote, present, p, i, j);
      ImportBatchesApart(keys, locales, remote, present);
      BatchesWrite(tables.cells, batches, n, p);
    }
    if p.locale !in locales || forall i: nat, j: nat :: !Writes(keys, remote, present, p, i, j) {
      forall n | 0 <= n < |locales|
        ensures p !in batches[n]
      {
        if locales[n] == p.locale {
          ImportNoRow(keys, remote, present, p);
        } else {
          OtherLocaleNoRow(keys, locales[n], remote, present, p);
        }
      }
      BatchesKeep(tables.cells, batches, p);
    }
  }
}
