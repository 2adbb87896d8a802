/** Whole seed and import runs over the tables they write. */
module SeedRuns {
  import opened Wrappers
  import opened Bytes
  import opened Files
  import opened Schema
  import opened Statements
  import opened Service
  import opened Frames
  import opened Invariants
  import opened Runs
  import opened Seeding

  /** The two tables a run writes. */
  datatype Tables = Tables(keys: seq<KeyRow>, cells: map<Pair, Cell>)

  // ---- seed ---------------------------------------------------------------------------------

  function AllKeys(files: seq<seq<FileEntry>>): seq<Text> {
    if files == [] then [] else AllKeys(files[..|files| - 1]) + KeysOf(files[|files| - 1])
  }

  /** What a key of the files is upserted as; `extra` is what the other trees add. */
  function SeedMeta(name: Text, extra: map<Text, set<Platform>>): Meta {
    Meta(name, [], Distinct({Flutter} + if name in extra then extra[name] else {}), None, None, Active)
  }

  function SeedWanted(order: seq<Text>, extra: map<Text, set<Platform>>): seq<Wanted> {
    seq(|order|, i requires 0 <= i < |order| => Wanted(SeedMeta(order[i], extra), (i + 1) * 100, None))
  }

  /** One row for every name that has an active key. */
  function BatchFor(keys: seq<KeyRow>, l: nat, names: seq<Text>, latest: map<Text, Text>): seq<Translation>
    requires forall name :: name in names ==> name in latest
  {
    if names == [] then []
    else
      var (before, name) := (BatchFor(keys, l, names[..|names| - 1], latest), names[|names| - 1]);
      var id := ActiveKey(keys, name);
      if id.None? then before else before + [Translation(Pair(id.value, l), latest[name], Plain)]
  }

  function SeedBatch(keys: seq<KeyRow>, l: nat, entries: seq<FileEntry>): seq<Translation> {
    SeenIn(KeysOf(entries));
    BatchFor(keys, l, FirstSeen(KeysOf(entries)), Latest(entries))
  }

  lemma {:induction false} SeenIn<T>(xs: seq<T>)
    ensures forall x :: x in FirstSeen(xs) <==> x in xs
    ensures forall i, j :: 0 <= i < j < |FirstSeen(xs)| ==> FirstSeen(xs)[i] != FirstSeen(xs)[j]
  {
    if xs != [] {
      SeenIn(xs[..|xs| - 1]);
      assert xs == xs[..|xs| - 1] + [xs[|xs| - 1]];
    }
  }

  function SeedBatches(keys: seq<KeyRow>, locales: seq<nat>, files: seq<seq<FileEntry>>): seq<map<Pair, (Text, Hint)>>
    requires |locales| == |files|
  {
    seq(|files|, i requires 0 <= i < |files| => RowsOf(SeedBatch(keys, locales[i], files[i])))
  }

  /** Passes 1, 3 and 4 of a seed run on parsed files. */
  function Seeded(tables: Tables, locales: seq<nat>, files: seq<seq<FileEntry>>,
                  extra: map<Text, set<Platform>>): Tables
    requires |locales| == |files|
  {
    var wanted := SeedWanted(FirstSeen(AllKeys(files)), extra);
    var keys := UpsertAll(tables.keys, wanted, MaxSortIndex(tables.keys));
    Tables(keys, BatchAll(tables.cells, SeedBatches(keys, locales, files)))
  }

  lemma {:induction false} SeenNext<T>(xs: seq<T>, x: T)
    ensures FirstSeen(xs + [x]) == if x in FirstSeen(xs) then FirstSeen(xs) else FirstSeen(xs) + [x]
  {
    assert (xs + [x])[..|xs|] == xs;
  }

  ghost predicate SameElements(xs: set<Text>, ys: seq<Text>) {
    forall x :: x in xs <==> x in ys
  }

  lemma {:induction false} SeenOneMore(before: seq<Text>, keys: seq<Text>, j: nat)
    requires j < |keys|
    ensures var seen := FirstSeen(before + keys[..j]);
            FirstSeen(before + keys[..j + 1]) == if keys[j] in seen then seen else seen + [keys[j]]
  {
    SeenNext(before + keys[..j], keys[j]);
    assert before + keys[..j + 1] == (before + keys[..j]) + [keys[j]];
  }

  /** Appends a file's keys to the order, each once. */
  method AppendKeys(ghost before: seq<Text>, order: seq<Text>, seen: set<Text>, entries: seq<FileEntry>)
    returns (order': seq<Text>, seen': set<Text>)
    requires order == FirstSeen(before) && SameElements(seen, order)
    ensures order' == FirstSeen(before + KeysOf(entries)) && SameElements(seen', order')
  {
    order', seen' := order, seen;
    ghost var keys := KeysOf(entries);
    assert before + keys[..0] == before;
    for j := 0 to |entries|
      invariant order' == FirstSeen(before + keys[..j]) && SameElements(seen', order')
    {
      var key := entries[j].key;
      SeenOneMore(before, keys, j);
      if key !in seen' {
        seen' := seen' + {key};
        order' := order' + [key];
      }
    }
    assert keys[..|entries|] == keys;
  }

  /** Pass 1: the canonical key order, first seen over all files in locale order. */
  method CanonicalOrder(files: seq<seq<FileEntry>>) returns (order: seq<Text>)
    ensures order == FirstSeen(AllKeys(files))
  {
    order := [];
    var seen: set<Text> := {};
    for i := 0 to |files|
      invariant order == FirstSeen(AllKeys(files[..i])) && SameElements(seen, order)
    {
      assert files[..i + 1][..i] == files[..i];
      order, seen := AppendKeys(AllKeys(files[..i]), order, seen, files[i]);
    }
    assert files[..|files|] == files;
  }

  lemma {:induction false} UpsertsNext(keys: seq<KeyRow>, wanted: seq<Wanted>, base: int, n: nat)
    requires n < |wanted|
    ensures UpsertAll(keys, wanted[n..], base)
            == UpsertAll(UpsertOne(keys, wanted[n], base), wanted[n + 1..], base)
    ensures Accepted(keys, wanted[n..], base)
            <==> !Refuses(keys, wanted[n]) && Accepted(UpsertOne(keys, wanted[n], base), wanted[n + 1..], base)
  {
    assert wanted[n..][0] == wanted[n] && wanted[n..][1..] == wanted[n + 1..];
  }

  /** UpsertByName: refused, or the table after it and the key's id, which is RETURNING id
      or the read back of an unchanged row. */
  method UpsertReturning(keys: seq<KeyRow>, w: Wanted, base: int) returns (r: Result<(seq<KeyRow>, nat), Error>)
    ensures r.Failure? <==> Refuses(keys, w)
    ensures r.Failure? ==> r.error == UniqueViolation
    ensures r.Success? ==>
              var (after, k) := r.value;
              after == UpsertOne(keys, w, base) && k < |after| && HoldsName(after[k], w.meta.name)
  {
    var found := ActiveKey(keys, w.meta.name);
    if found.None? && RemoteIdTaken(keys, w.remoteId) {
      return Failure(UniqueViolation);
    }
    r := Success((UpsertOne(keys, w, base), if found.Some? then found.value else |keys|));
  }

  /** Pass 3: upserts the keys at gapped sort indexes; without remote ids none is refused. */
  method UpsertKeys(keys: seq<KeyRow>, order: seq<Text>, extra: map<Text, set<Platform>>)
    returns (r: Result<seq<KeyRow>, Error>)
    ensures r == Success(UpsertAll(keys, SeedWanted(order, extra), MaxSortIndex(keys)))
  {
    var base := MaxSortIndex(keys);
    ghost var wanted := SeedWanted(order, extra);
    ghost var final := UpsertAll(keys, wanted, base);
    var after := keys;
    assert wanted[0..] == wanted;
    for i := 0 to |order|
      invariant UpsertAll(after, wanted[i..], base) == final
    {
      UpsertsNext(after, wanted, base, i);
      var upserted := UpsertReturning(after, Wanted(SeedMeta(order[i], extra), (i + 1) * 100, None), base);
      if upserted.Failure? {
        return Failure(UniqueViolation);
      }
      after := upserted.value.0;
    }
    r := Success(after);
  }

  lemma CollapseNext(entries: seq<FileEntry>, i: nat)
    requires i < |entries|
    ensures var (e, keys) := (entries[i], FirstSeen(KeysOf(entries[..i])));
            && Latest(entries[..i + 1]) == Latest(entries[..i])[e.key := e.value]
            && (e.key in Latest(entries[..i]) <==> e.key in keys)
            && FirstSeen(KeysOf(entries[..i + 1])) == if e.key in keys then keys else keys + [e.key]
  {
    SeenIn(KeysOf(entries[..i]));
    SeenNext(KeysOf(entries[..i]), entries[i].key);
    assert entries[..i + 1][..i] == entries[..i];
    assert KeysOf(entries[..i + 1]) == KeysOf(entries[..i]) + [entries[i].key];
  }

  /** Duplicates collapse last-wins before anything is written. */
  method Collapse(entries: seq<FileEntry>) returns (latest: map<Text, Text>, keyOrder: seq<Text>)
    ensures latest == Latest(entries) && keyOrder == FirstSeen(KeysOf(entries))
  {
    latest, keyOrder := map[], [];
    for i := 0 to |entries|
      invariant latest == Latest(entries[..i]) && keyOrder == FirstSeen(KeysOf(entries[..i]))
    {
      CollapseNext(entries, i);
      var e := entries[i];
      if e.key !in latest {
        keyOrder := keyOrder + [e.key];
      }
      latest := latest[e.key := e.value];
    }
    assert entries[..|entries|] == entries;
  }

  /** Pass 4, one locale. */
  method CollectBatch(keys: seq<KeyRow>, l: nat, entries: seq<FileEntry>) returns (batch: seq<Translation>)
    ensures batch == SeedBatch(keys, l, entries) && OnePerPair(batch)
  {
    var latest, keyOrder := Collapse(entries);
    SeenIn(KeysOf(entries));
    batch := [];
    for i := 0 to |keyOrder|
      invariant batch == BatchFor(keys, l, keyOrder[..i], latest)
    {
      assert keyOrder[..i + 1][..i] == keyOrder[..i];
      var id := ActiveKey(keys, keyOrder[i]);
      if id.None? {
        continue;
      }
      batch := batch + [Translation(Pair(id.value, l), latest[keyOrder[i]], Plain)];
    }
    assert keyOrder[..|keyOrder|] == keyOrder;
    BatchOnePerPair(keys, l, keyOrder, latest);
  }

  /** A seed run; no batch statement names a row twice, so none of them fails. */
  method RunSeed(tables: Tables, locales: seq<nat>, files: seq<seq<FileEntry>>, extra: map<Text, set<Platform>>)
    returns (r: Result<Tables, Error>)
    requires |locales| == |files|
    ensures r == Success(Seeded(tables, locales, files, extra))
  {
    var order := CanonicalOrder(files);
    var upserted := UpsertKeys(tables.keys, order, extra);
    if upserted.Failure? {
      return Failure(UniqueViolation);
    }
    var keys, cells := upserted.value, tables.cells;
    ghost var batches := SeedBatches(keys, locales, files);
    for i := 0 to |files|
      invariant cells == BatchAll(tables.cells, batches[..i])
    {
      var batch := CollectBatch(keys, locales[i], files[i]);
      BatchRuns(cells, batch);
      BatchesNext(tables.cells, batches, i);
      cells := BatchWritten(cells, RowsOf(batch));
    }
    assert batches[..|files|] == batches;
    r := Success(Tables(keys, cells));
  }

  ghost predicate DistinctLocales(locales: seq<nat>) {
    forall i, j :: 0 <= i < j < |locales| ==> locales[i] != locales[j]
  }

  lemma {:induction false} BatchLocale(keys: seq<KeyRow>, l: nat, names: seq<Text>, latest: map<Text, Text>)
    requires forall name :: name in names ==> name in latest
    ensures forall i :: 0 <= i < |BatchFor(keys, l, names, latest)| ==>
              var pair := BatchFor(keys, l, names, latest)[i].pair;
              && pair.locale == l && pair.key < |keys|
              && exists j :: 0 <= j < |names| && HoldsName(keys[pair.key], names[j])
  {
    if names != [] {
      var init := names[..|names| - 1];
      BatchLocale(keys, l, init, latest);
      assert forall j :: 0 <= j < |init| ==> names[j] == init[j];
    }
  }

  /** Different names have different keys: a locale's batch names no pair twice. */
  lemma {:induction false} BatchOnePerPair(keys: seq<KeyRow>, l: nat, names: seq<Text>, latest: map<Text, Text>)
    requires forall name :: name in names ==> name in latest
    requires forall i, j :: 0 <= i < j < |names| ==> names[i] != names[j]
    ensures OnePerPair(BatchFor(keys, l, names, latest))
  {
    if names != [] {
      var init := names[..|names| - 1];
      BatchOnePerPair(keys, l, init, latest);
      BatchLocale(keys, l, init, latest);
    }
  }

  lemma {:induction false} RowsLocale(batch: seq<Translation>, l: nat)
    requires forall i :: 0 <= i < |batch| ==> batch[i].pair.locale == l
    ensures forall p :: p in RowsOf(batch) ==> p.locale == l
  {
    if batch != [] {
      RowsLocale(batch[..|batch| - 1], l);
    }
  }

  lemma SeedBatchesApart(keys: seq<KeyRow>, locales: seq<nat>, files: seq<seq<FileEntry>>)
    requires |locales| == |files| && DistinctLocales(locales)
    ensures Apart(SeedBatches(keys, locales, files))
  {
    forall i | 0 <= i < |files|
      ensures forall p :: p in SeedBatches(keys, locales, files)[i] ==> p.locale == locales[i]
    {
      SeenIn(KeysOf(files[i]));
      BatchLocale(keys, locales[i], FirstSeen(KeysOf(files[i])), Latest(files[i]));
      RowsLocale(SeedBatch(keys, locales[i], files[i]), locales[i]);
    }
  }

  lemma SeedIsSent(order: seq<Text>, extra: map<Text, set<Platform>>)
    ensures Sent(SeedWanted(order, extra)) && Consistent(SeedWanted(order, extra))
  {
    var wanted := SeedWanted(order, extra);
    forall i | 0 <= i < |wanted|
      ensures Canonical(wanted[i].meta.platforms)
    {
      DistinctHolds({Flutter} + if order[i] in extra then extra[order[i]] else {});
    }
  }

  /** From any tables: a second seed run on the same files changes no key row and no
      translation row, so no value, platform, sort index or version. */
  lemma SeedIdempotent(tables: Tables, locales: seq<nat>, files: seq<seq<FileEntry>>, extra: map<Text, set<Platform>>)
    requires NamesUnique(tables.keys) && |locales| == |files| && DistinctLocales(locales)
    ensures var once := Seeded(tables, locales, files, extra); Seeded(once, locales, files, extra) == once
  {
    var order := FirstSeen(AllKeys(files));
    var wanted := SeedWanted(order, extra);
    var once := Seeded(tables, locales, files, extra);
    SeedIsSent(order, extra);
    AcceptedIdempotent(tables.keys, wanted, MaxSortIndex(tables.keys), MaxSortIndex(once.keys));
    SeedBatchesApart(once.keys, locales, files);
    BatchesIdempotent(tables.cells, SeedBatches(once.keys, locales, files));
  }

  // ---- import ---------------------------------------------------------------------------------

  datatype RemoteTranslation = RemoteTranslation(locale: nat, value: Text)

  /** A fetched key under its canonical name; the empty name stands for none. */
  datatype RemoteKey = RemoteKey(
    id: int,
    name: Text,
    description: Text,
    platforms: set<Platform>,
    translations: seq<RemoteTranslation>)

  /** A key on no platform becomes a Flutter key. */
  function MapPlatforms(platforms: set<Platform>): seq<Platform> {
    if platforms == {} then [Flutter] else Distinct(platforms)
  }

  function ImportMeta(remote: RemoteKey): Meta {
    Meta(remote.name, remote.description, MapPlatforms(remote.platforms), None, None, Active)
  }

  /** The named keys, in ascending order of their remote ids, as `remote` lists them. */
  function ImportWanted(remote: seq<RemoteKey>): seq<Wanted> {
    if remote == [] then []
    else
      var (before, last) := (ImportWanted(remote[..|remote| - 1]), remote[|remote| - 1]);
      if last.name == [] then before else before + [Wanted(ImportMeta(last), |remote| * 100, Some(last.id))]
  }

  /** The translations of one key for one locale that its export contains. */
  function PresentOf(k: nat, l: nat, translations: seq<RemoteTranslation>): seq<Translation> {
    if translations == [] then []
    else
      var (before, last) := (PresentOf(k, l, translations[..|translations| - 1]), translations[|translations| - 1]);
      if last.locale == l then before + [Translation(Pair(k, l), last.value, Plain)] else before
  }

  /** A locale's translations before de-duplication; `present` says which (locale, name)
      pairs the exports contain. */
  function ImportBatch(keys: seq<KeyRow>, l: nat, remote: seq<RemoteKey>, present: set<(nat, Text)>): seq<Translation> {
    if remote == [] then []
    else
      var (before, last) := (ImportBatch(keys, l, remote[..|remote| - 1], present), remote[|remote| - 1]);
      var id := ActiveKey(keys, last.name);
      if last.name == [] || id.None? then before
      else before + FromKey(id.value, l, last.name, last.translations, present)
  }

  /** What one key contributes to a locale: nothing if the export does not contain the key. */
  function FromKey(k: nat, l: nat, name: Text, translations: seq<RemoteTranslation>,
                   present: set<(nat, Text)>): seq<Translation> {
    if (l, name) in present then PresentOf(k, l, translations) else []
  }

  function ImportBatches(keys: seq<KeyRow>, locales: seq<nat>, remote: seq<RemoteKey>, present: set<(nat, Text)>)
    : seq<map<Pair, (Text, Hint)>>
  {
    seq(|locales|, i requires 0 <= i < |locales| => RowsOf(Deduped(ImportBatch(keys, locales[i], remote, present))))
  }

  /** The transaction of an import: one refused upsert aborts it. */
  function Imported(tables: Tables, locales: seq<nat>, remote: seq<RemoteKey>, present: set<(nat, Text)>)
    : Result<Tables, Error>
  {
    var (wanted, base) := (ImportWanted(remote), MaxSortIndex(tables.keys));
    var keys := UpsertAll(tables.keys, wanted, base);
    if Accepted(tables.keys, wanted, base) then
      Success(Tables(keys, BatchAll(tables.cells, ImportBatches(keys, locales, remote, present))))
    else Failure(UniqueViolation)
  }

  function AfterImport(tables: Tables, locales: seq<nat>, remote: seq<RemoteKey>, present: set<(nat, Text)>): Tables {
    var r := Imported(tables, locales, remote, present);
    if r.Success? then r.value else tables
  }

  lemma {:induction false} ImportIsSent(remote: seq<RemoteKey>)
    ensures Sent(ImportWanted(remote))
  {
    if remote != [] {
      ImportIsSent(remote[..|remote| - 1]);
      DistinctHolds(remote[|remote| - 1].platforms);
      DistinctHolds({Flutter});
      assert Distinct({Flutter}) == [Flutter];
    }
  }

  lemma {:induction false} PresentLocale(k: nat, l: nat, translations: seq<RemoteTranslation>)
    ensures forall i :: 0 <= i < |PresentOf(k, l, translations)| ==> PresentOf(k, l, translations)[i].pair == Pair(k, l)
  {
    if translations != [] {
      PresentLocale(k, l, translations[..|translations| - 1]);
    }
  }

  lemma {:induction false} ImportLocale(keys: seq<KeyRow>, l: nat, remote: seq<RemoteKey>, present: set<(nat, Text)>)
    ensures forall i :: 0 <= i < |ImportBatch(keys, l, remote, present)| ==>
              ImportBatch(keys, l, remote, present)[i].pair.locale == l
  {
    if remote != [] {
      ImportLocale(keys, l, remote[..|remote| - 1], present);
      var (last, id) := (remote[|remote| - 1], ActiveKey(keys, remote[|remote| - 1].name));
      if id.Some? {
        PresentLocale(id.value, l, last.translations);
      }
    }
  }

  lemma ImportBatchesApart(keys: seq<KeyRow>, locales: seq<nat>, remote: seq<RemoteKey>, present: set<(nat, Text)>)
    requires DistinctLocales(locales)
    ensures Apart(ImportBatches(keys, locales, remote, present))
  {
    forall i | 0 <= i < |locales|
      ensures forall p :: p in ImportBatches(keys, locales, remote, present)[i] ==> p.locale == locales[i]
    {
      var batch := ImportBatch(keys, locales[i], remote, present);
      ImportLocale(keys, locales[i], remote, present);
      DedupedRows(batch);
      RowsLocale(batch, locales[i]);
    }
  }

  /** The import inserts a row for its i-th key: the key has a name, and neither an active key
      nor an earlier key of the fetch has that name. */
  ghost predicate Arrives(keys: seq<KeyRow>, remote: seq<RemoteKey>, i: nat) {
    && i < |remote| && remote[i].name != [] && !NameTaken(keys, remote[i].name)
    && forall j :: 0 <= j < i ==> remote[j].name != remote[i].name
  }

  ghost predicate ArrivesWith(keys: seq<KeyRow>, remote: seq<RemoteKey>, id: int) {
    exists j :: 0 <= j < |remote| && Arrives(keys, remote, j) && remote[j].id == id
  }

  /** If it does, no row holds its id, nor does a row inserted before it in the same run. */
  ghost predicate FitsIn(keys: seq<KeyRow>, remote: seq<RemoteKey>, i: nat)
    requires i < |remote|
  {
    Arrives(keys, remote, i) ==>
      && !RemoteIdTaken(keys, Some(remote[i].id))
      && forall j :: 0 <= j < i && Arrives(keys, remote, j) ==> remote[j].id != remote[i].id
  }

  lemma ArrivesInPrefix(keys: seq<KeyRow>, remote: seq<RemoteKey>, n: nat)
    requires n <= |remote|
    ensures forall i :: 0 <= i < n ==> (Arrives(keys, remote[..n], i) <==> Arrives(keys, remote, i))
    ensures forall i :: 0 <= i < n ==> (FitsIn(keys, remote[..n], i) <==> FitsIn(keys, remote, i))
  {
    forall i | 0 <= i < n
      ensures Arrives(keys, remote[..n], i) <==> Arrives(keys, remote, i)
    {
      assert forall j :: 0 <= j <= i ==> remote[..n][j] == remote[j];
    }
    forall i | 0 <= i < n
      ensures FitsIn(keys, remote[..n], i) <==> FitsIn(keys, remote, i)
    {
      assert forall j :: 0 <= j <= i ==> remote[..n][j] == remote[j];
    }
  }

  /** The names and ids in use after the keys of a fetch have been upserted. */
  ghost predicate InUse(keys: seq<KeyRow>, remote: seq<RemoteKey>, after: seq<KeyRow>) {
    && (forall name :: NameTaken(after, name) <==> NameTaken(keys, name) || NamedIn(remote, name))
    && (forall id: int :: RemoteIdTaken(after, Some(id)) <==>
          RemoteIdTaken(keys, Some(id)) || ArrivesWith(keys, remote, id))
  }

  lemma NamedInOneMore(remote: seq<RemoteKey>, last: RemoteKey, name: Text)
    ensures NamedIn(remote + [last], name) <==> NamedIn(remote, name) || (last.name != [] && last.name == name)
  {
    var all := remote + [last];
    assert all[|remote|] == last && forall j :: 0 <= j < |remote| ==> all[j] == remote[j];
  }

  lemma ArrivesWithOneMore(keys: seq<KeyRow>, remote: seq<RemoteKey>, last: RemoteKey, id: int)
    ensures ArrivesWith(keys, remote + [last], id)
            <==> ArrivesWith(keys, remote, id) || (Arrives(keys, remote + [last], |remote|) && last.id == id)
  {
    var all := remote + [last];
    assert all[..|remote|] == remote && all[|remote|] == last;
    assert forall j :: 0 <= j < |remote| ==> all[j] == remote[j];
    ArrivesInPrefix(keys, all, |remote|);
  }

  /** The last key of a fetch is inserted exactly when it arrives. */
  lemma LastInserts(keys: seq<KeyRow>, remote: seq<RemoteKey>, last: RemoteKey, after: seq<KeyRow>)
    requires InUse(keys, remote, after) && last.name != []
    ensures !NameTaken(after, last.name) <==> Arrives(keys, remote + [last], |remote|)
  {
    var all := remote + [last];
    assert forall j :: 0 <= j < |remote| ==> all[j] == remote[j];
    assert NameTaken(after, last.name) <==> NameTaken(keys, last.name) || NamedIn(remote, last.name);
  }

  lemma InUseOneMore(keys: seq<KeyRow>, remote: seq<RemoteKey>, last: RemoteKey, after: seq<KeyRow>, w: Wanted,
                     base: int)
    requires InUse(keys, remote, after) && last.name != [] && w.meta.name == last.name && w.remoteId == Some(last.id)
    ensures InUse(keys, remote + [last], UpsertOne(after, w, base))
  {
    var next := UpsertOne(after, w, base);
    forall name
      ensures NameTaken(next, name) <==> NameTaken(keys, name) || NamedIn(remote + [last], name)
    {
      UpsertUses(after, w, base, name, None);
      NamedInOneMore(remote, last, name);
    }
    LastInserts(keys, remote, last, after);
    forall id: int
      ensures RemoteIdTaken(next, Some(id)) <==> RemoteIdTaken(keys, Some(id)) || ArrivesWith(keys, remote + [last], id)
    {
      UpsertUses(after, w, base, [], Some(id));
      ArrivesWithOneMore(keys, remote, last, id);
    }
  }

  /** A nameless key changes nothing. */
  lemma InUseSkipping(keys: seq<KeyRow>, remote: seq<RemoteKey>, last: RemoteKey, after: seq<KeyRow>)
    requires InUse(keys, remote, after) && last.name == []
    ensures InUse(keys, remote + [last], after)
  {
    forall name
      ensures NamedIn(remote + [last], name) <==> NamedIn(remote, name)
    {
      NamedInOneMore(remote, last, name);
    }
    forall id: int
      ensures ArrivesWith(keys, remote + [last], id) <==> ArrivesWith(keys, remote, id)
    {
      ArrivesWithOneMore(keys, remote, last, id);
    }
  }

  lemma {:induction false} ImportUses(keys: seq<KeyRow>, remote: seq<RemoteKey>, base: int)
    ensures InUse(keys, remote, UpsertAll(keys, ImportWanted(remote), base))
  {
    if remote != [] {
      var (init, last) := (remote[..|remote| - 1], remote[|remote| - 1]);
      assert remote == init + [last];
      var after := UpsertAll(keys, ImportWanted(init), base);
      ImportUses(keys, init, base);
      if last.name == [] {
        InUseSkipping(keys, init, last, after);
      } else {
        var w := Wanted(ImportMeta(last), |remote| * 100, Some(last.id));
        OneMoreUpsert(keys, ImportWanted(init), w, base);
        InUseOneMore(keys, init, last, after, w, base);
      }
    }
  }

  ghost predicate AllFit(keys: seq<KeyRow>, remote: seq<RemoteKey>) {
    forall i :: 0 <= i < |remote| ==> FitsIn(keys, remote, i)
  }

  lemma AllFitOneMore(keys: seq<KeyRow>, remote: seq<RemoteKey>, last: RemoteKey)
    ensures AllFit(keys, remote + [last]) <==> AllFit(keys, remote) && FitsIn(keys, remote + [last], |remote|)
  {
    var all := remote + [last];
    assert all[..|remote|] == remote;
    ArrivesInPrefix(keys, all, |remote|);
  }

  lemma LastRefused(keys: seq<KeyRow>, remote: seq<RemoteKey>, last: RemoteKey, after: seq<KeyRow>, w: Wanted)
    requires InUse(keys, remote, after) && last.name != [] && w.meta.name == last.name && w.remoteId == Some(last.id)
    ensures Refuses(after, w) <==> !FitsIn(keys, remote + [last], |remote|)
  {
    var all := remote + [last];
    LastInserts(keys, remote, last, after);
    assert all[..|remote|] == remote && all[|remote|] == last;
    ArrivesInPrefix(keys, all, |remote|);
    assert RemoteIdTaken(after, Some(last.id)) <==>
           RemoteIdTaken(keys, Some(last.id)) || ArrivesWith(keys, remote, last.id);
    assert forall j :: 0 <= j < |remote| ==> all[j] == remote[j];
  }

  lemma {:induction false} AcceptedExactly(keys: seq<KeyRow>, remote: seq<RemoteKey>, base: int)
    ensures Accepted(keys, ImportWanted(remote), base) <==> AllFit(keys, remote)
  {
    if remote != [] {
      var (init, last) := (remote[..|remote| - 1], remote[|remote| - 1]);
      assert remote == init + [last];
      var after := UpsertAll(keys, ImportWanted(init), base);
      AcceptedExactly(keys, init, base);
      AllFitOneMore(keys, init, last);
      if last.name != [] {
        var w := Wanted(ImportMeta(last), |remote| * 100, Some(last.id));
        OneMoreUpsert(keys, ImportWanted(init), w, base);
        ImportUses(keys, init, base);
        LastRefused(keys, init, last, after, w);
      }
    }
  }

  /** From any tables: an import succeeds exactly when every named key has an active key of
      its name, in the table or earlier in the fetch, or brings an id that no row holds and no
      key inserted before it in the same run brought. */
  lemma ImportSucceeds(tables: Tables, locales: seq<nat>, remote: seq<RemoteKey>, present: set<(nat, Text)>)
    ensures Imported(tables, locales, remote, present).Success?
            <==> forall i :: 0 <= i < |remote| ==> FitsIn(tables.keys, remote, i)
  {
    AcceptedExactly(tables.keys, remote, MaxSortIndex(tables.keys));
  }

  /** From any tables: a second import of the same fetch changes nothing exactly when the
      first one failed or no canonical name came with two different descriptions. */
  lemma {:induction false} ImportIdempotent(tables: Tables, locales: seq<nat>, remote: seq<RemoteKey>,
                                            present: set<(nat, Text)>)
    requires NamesUnique(tables.keys) && DistinctLocales(locales)
    ensures var once := AfterImport(tables, locales, remote, present);
            AfterImport(once, locales, remote, present) == once
            <==> Imported(tables, locales, remote, present).Failure? || Consistent(ImportWanted(remote))
  {
    var once := AfterImport(tables, locales, remote, present);
    ImportIsSent(remote);
    KeysIdempotent(tables.keys, ImportWanted(remote), MaxSortIndex(tables.keys), MaxSortIndex(once.keys));
    ImportBatchesApart(once.keys, locales, remote, present);
    BatchesIdempotent(tables.cells, ImportBatches(once.keys, locales, remote, present));
  }

  /** In particular when the canonical names are distinct. */
  lemma {:induction false} DistinctNamesAgree(remote: seq<RemoteKey>)
    requires forall i, j :: 0 <= i < j < |remote| && remote[i].name != [] ==> remote[i].name != remote[j].name
    ensures Consistent(ImportWanted(remote))
  {
    WantedNames(remote);
  }

  ghost predicate NamedIn(remote: seq<RemoteKey>, name: Text) {
    exists j :: 0 <= j < |remote| && remote[j].name != [] && remote[j].name == name
  }

  lemma {:induction false} WantedNamed(remote: seq<RemoteKey>)
    ensures forall i :: 0 <= i < |ImportWanted(remote)| ==> NamedIn(remote, ImportWanted(remote)[i].meta.name)
  {
    if remote != [] {
      var (init, wanted) := (remote[..|remote| - 1], ImportWanted(remote));
      WantedNamed(init);
      forall i | 0 <= i < |wanted|
        ensures NamedIn(remote, wanted[i].meta.name)
      {
        if i < |ImportWanted(init)| {
          assert NamedIn(init, ImportWanted(init)[i].meta.name);
          var j :| 0 <= j < |init| && init[j].name != [] && init[j].name == ImportWanted(init)[i].meta.name;
          assert remote[j] == init[j];
        } else {
          assert remote[|remote| - 1].name == wanted[i].meta.name;
        }
      }
    }
  }

  ghost predicate NamesDiffer(wanted: seq<Wanted>) {
    forall i, j :: 0 <= i < j < |wanted| ==> wanted[i].meta.name != wanted[j].meta.name
  }

  lemma {:induction false} WantedNames(remote: seq<RemoteKey>)
    requires forall i, j :: 0 <= i < j < |remote| && remote[i].name != [] ==> remote[i].name != remote[j].name
    ensures NamesDiffer(ImportWanted(remote))
  {
    if remote != [] {
      var (init, last) := (remote[..|remote| - 1], remote[|remote| - 1]);
      var wanted := ImportWanted(init);
      WantedNames(init);
      WantedNamed(init);
      forall i | 0 <= i < |wanted|
        ensures wanted[i].meta.name != last.name
      {
        assert NamedIn(init, wanted[i].meta.name);
        var j :| 0 <= j < |init| && init[j].name != [] && init[j].name == wanted[i].meta.name;
        assert remote[j] == init[j];
      }
      var all := ImportWanted(remote);
      forall i, j | 0 <= i < j < |all|
        ensures all[i].meta.name != all[j].meta.name
      {
        assert all[i] == wanted[i];
        if j < |wanted| {
          assert all[j] == wanted[j];
        }
      }
    }
  }

  /** Two remote keys with one canonical name and two descriptions: unless the import is
      refused, every run rewrites the row twice. */
  lemma SharedNameChurns(tables: Tables, locales: seq<nat>, one: RemoteKey, two: RemoteKey)
    requires NamesUnique(tables.keys) && DistinctLocales(locales)
    requires one.name == two.name != [] && one.description != two.description
    requires one.description != [] && two.description != []
    ensures var once := AfterImport(tables, locales, [one, two], {});
            AfterImport(once, locales, [one, two], {}) != once
            <==> NameTaken(tables.keys, one.name) || !RemoteIdTaken(tables.keys, Some(one.id))
  {
    var remote := [one, two];
    var wanted := ImportWanted(remote);
    assert remote[..1] == [one] && [one][..0] == [] && remote[0] == one && remote[1] == two;
    assert ImportWanted([]) == [] && ImportWanted([one]) == [Wanted(ImportMeta(one), 100, Some(one.id))];
    assert wanted == [Wanted(ImportMeta(one), 100, Some(one.id)), Wanted(ImportMeta(two), 200, Some(two.id))];
    assert Disagree(wanted[0].meta, wanted[1].meta);
    ImportSucceeds(tables, locales, remote, {});
    assert !Arrives(tables.keys, remote, 1);
    assert FitsIn(tables.keys, remote, 0) <==>
           NameTaken(tables.keys, one.name) || !RemoteIdTaken(tables.keys, Some(one.id));
    ImportIdempotent(tables, locales, remote, {});
  }

  // ---- the import's loops ------------------------------------------------------------------------

  /** A key keeps its name and stays active under later upserts. */
  lemma {:induction false} KeepsId(keys: seq<KeyRow>, wanted: seq<Wanted>, base: int, k: nat, name: Text)
    requires NamesUnique(keys) && k < |keys| && HoldsName(keys[k], name)
    ensures ActiveKey(keys, name) == Some(k) && ActiveKey(UpsertAll(keys, wanted, base), name) == Some(k)
    decreases |wanted|
  {
    OneHolder(keys, k, ActiveKey(keys, name).value, name);
    if wanted != [] {
      UpsertKeepsUnique(keys, wanted[0], base);
      KeepsId(First(keys, wanted, base), wanted[1..], base, k, name);
    }
  }

  lemma {:induction false} WantedPrefix(remote: seq<RemoteKey>, i: nat)
    requires i <= |remote|
    ensures ImportWanted(remote[..i]) <= ImportWanted(remote)
  {
    if i < |remote| {
      WantedPrefix(remote[..|remote| - 1], i);
      assert remote[..|remote| - 1][..i] == remote[..i];
    } else {
      assert remote[..i] == remote;
    }
  }

  function Collected(byLocale: map<nat, seq<Translation>>, l: nat): seq<Translation> {
    if l in byLocale then byLocale[l] else []
  }

  /** What a key's first j translations have added, for every known locale. */
  ghost predicate KeyCollected(before: map<nat, seq<Translation>>, after: map<nat, seq<Translation>>, k: nat,
                               remote: RemoteKey, locales: seq<nat>, present: set<(nat, Text)>, j: nat)
    requires j <= |remote.translations|
  {
    forall l :: l in locales ==>
      Collected(after, l) == Collected(before, l) + FromKey(k, l, remote.name, remote.translations[..j], present)
  }

  lemma {:induction false} PresentNext(k: nat, l: nat, translations: seq<RemoteTranslation>, j: nat)
    requires j < |translations|
    ensures PresentOf(k, l, translations[..j + 1]) == PresentOf(k, l, translations[..j])
              + if translations[j].locale == l then [Translation(Pair(k, l), translations[j].value, Plain)] else []
  {
    assert translations[..j + 1][..j] == translations[..j];
  }

  /** The lists with one translation more, if its locale is known and the export contains
      the key. */
  function WithTranslation(byLocale: map<nat, seq<Translation>>, k: nat, name: Text, t: RemoteTranslation,
                           locales: seq<nat>, present: set<(nat, Text)>): map<nat, seq<Translation>> {
    if t.locale !in locales || (t.locale, name) !in present then byLocale
    else byLocale[t.locale := Collected(byLocale, t.locale) + [Translation(Pair(k, t.locale), t.value, Plain)]]
  }

  lemma KeyCollectedNext(before: map<nat, seq<Translation>>, after: map<nat, seq<Translation>>, k: nat,
                         remote: RemoteKey, locales: seq<nat>, present: set<(nat, Text)>, j: nat)
    requires j < |remote.translations| && KeyCollected(before, after, k, remote, locales, present, j)
    ensures KeyCollected(before, WithTranslation(after, k, remote.name, remote.translations[j], locales, present),
                         k, remote, locales, present, j + 1)
  {
    var next := WithTranslation(after, k, remote.name, remote.translations[j], locales, present);
    forall l | l in locales
      ensures Collected(next, l)
              == Collected(before, l) + FromKey(k, l, remote.name, remote.translations[..j + 1], present)
    {
      PresentNext(k, l, remote.translations, j);
    }
  }

  /** Appends a key's translations for the known locales whose export contains the key. */
  method CollectKey(byLocale: map<nat, seq<Translation>>, k: nat, remote: RemoteKey, locales: seq<nat>,
                    present: set<(nat, Text)>)
    returns (after: map<nat, seq<Translation>>)
    ensures forall l :: l in locales ==>
              Collected(after, l) == Collected(byLocale, l) + FromKey(k, l, remote.name, remote.translations, present)
  {
    after := byLocale;
    for j := 0 to |remote.translations|
      invariant KeyCollected(byLocale, after, k, remote, locales, present, j)
    {
      KeyCollectedNext(byLocale, after, k, remote, locales, present, j);
      after := WithTranslation(after, k, remote.name, remote.translations[j], locales, present);
    }
    assert remote.translations[..|remote.translations|] == remote.translations;
  }

  /** What the i-th key is upserted as. */
  function WantedAt(remote: seq<RemoteKey>, i: nat): Wanted
    requires i < |remote|
  {
    Wanted(ImportMeta(remote[i]), (i + 1) * 100, Some(remote[i].id))
  }

  lemma {:induction false} WantedNext(remote: seq<RemoteKey>, i: nat)
    requires i < |remote|
    ensures ImportWanted(remote[..i + 1]) == ImportWanted(remote[..i])
              + if remote[i].name == [] then [] else [WantedAt(remote, i)]
    ensures |ImportWanted(remote[..i + 1])| <= |ImportWanted(remote)|
    ensures var (n, wanted) := (|ImportWanted(remote[..i])|, ImportWanted(remote));
            remote[i].name != [] ==> n < |wanted| && wanted[n] == WantedAt(remote, i)
  {
    assert remote[..i + 1][..i] == remote[..i];
    WantedPrefix(remote, i + 1);
  }

  lemma {:induction false} BatchNext(keys: seq<KeyRow>, l: nat, remote: seq<RemoteKey>, present: set<(nat, Text)>,
                                     i: nat)
    requires i < |remote|
    ensures ImportBatch(keys, l, remote[..i + 1], present) ==
            var (before, id) := (ImportBatch(keys, l, remote[..i], present), ActiveKey(keys, remote[i].name));
            if remote[i].name == [] || id.None? then before
            else before + FromKey(id.value, l, remote[i].name, remote[i].translations, present)
  {
    assert remote[..i + 1][..i] == remote[..i];
  }

  /** The translations collected from the first i keys. */
  ghost predicate CollectedSoFar(byLocale: map<nat, seq<Translation>>, keys: seq<KeyRow>, locales: seq<nat>,
                                 remote: seq<RemoteKey>, present: set<(nat, Text)>, i: nat)
    requires i <= |remote|
  {
    forall l :: l in locales ==> Collected(byLocale, l) == ImportBatch(keys, l, remote[..i], present)
  }

  /** Adds one key's translations, under the id the key keeps. */
  method CollectNext(byLocale: map<nat, seq<Translation>>, k: nat, locales: seq<nat>, remote: seq<RemoteKey>,
                     present: set<(nat, Text)>, i: nat, ghost keys: seq<KeyRow>)
    returns (after: map<nat, seq<Translation>>)
    requires i < |remote| && remote[i].name != [] && ActiveKey(keys, remote[i].name) == Some(k)
    requires CollectedSoFar(byLocale, keys, locales, remote, present, i)
    ensures CollectedSoFar(after, keys, locales, remote, present, i + 1)
  {
    after := CollectKey(byLocale, k, remote[i], locales, present);
    forall l | l in locales
      ensures Collected(after, l) == ImportBatch(keys, l, remote[..i + 1], present)
    {
      BatchNext(keys, l, remote, present, i);
    }
  }

  /** After i keys: the upserts still to come lead to the final table, and are refused
      exactly if the whole run is. */
  ghost predicate OnCourse(now: seq<KeyRow>, keys: seq<KeyRow>, remote: seq<RemoteKey>, base: int, i: nat)
    requires i <= |remote|
  {
    var (n, wanted) := (|ImportWanted(remote[..i])|, ImportWanted(remote));
    && NamesUnique(now) && n <= |wanted|
    && UpsertAll(now, wanted[n..], base) == UpsertAll(keys, wanted, base)
    && (Accepted(now, wanted[n..], base) <==> Accepted(keys, wanted, base))
  }

  /** The next key is refused, and so is the run; or it is upserted under the id it keeps. */
  lemma {:induction false} StaysOnCourse(now: seq<KeyRow>, keys: seq<KeyRow>, remote: seq<RemoteKey>, base: int, i: nat)
    requires i < |remote| && remote[i].name != [] && OnCourse(now, keys, remote, base, i)
    ensures Refuses(now, WantedAt(remote, i)) ==> !Accepted(keys, ImportWanted(remote), base)
    ensures !Refuses(now, WantedAt(remote, i)) ==>
              OnCourse(UpsertOne(now, WantedAt(remote, i), base), keys, remote, base, i + 1)
  {
    var (wanted, w, n) := (ImportWanted(remote), WantedAt(remote, i), |ImportWanted(remote[..i])|);
    WantedNext(remote, i);
    assert wanted[n] == w && |ImportWanted(remote[..i + 1])| == n + 1;
    UpsertsNext(now, wanted, base, n);
    UpsertKeepsUnique(now, w, base);
  }

  lemma {:induction false} FinalId(now: seq<KeyRow>, keys: seq<KeyRow>, remote: seq<RemoteKey>, base: int, i: nat,
                                   k: nat, name: Text)
    requires i <= |remote| && OnCourse(now, keys, remote, base, i) && k < |now| && HoldsName(now[k], name)
    ensures ActiveKey(UpsertAll(keys, ImportWanted(remote), base), name) == Some(k)
  {
    KeepsId(now, ImportWanted(remote)[|ImportWanted(remote[..i])|..], base, k, name);
  }

  method UpsertNext(now: seq<KeyRow>, remote: seq<RemoteKey>, base: int, i: nat, ghost keys: seq<KeyRow>)
    returns (r: Result<(seq<KeyRow>, nat), Error>)
    requires i < |remote| && remote[i].name != [] && OnCourse(now, keys, remote, base, i)
    ensures r.Failure? ==> r.error == UniqueViolation && !Accepted(keys, ImportWanted(remote), base)
    ensures r.Success? ==>
              && OnCourse(r.value.0, keys, remote, base, i + 1)
              && ActiveKey(UpsertAll(keys, ImportWanted(remote), base), remote[i].name) == Some(r.value.1)
  {
    r := UpsertReturning(now, WantedAt(remote, i), base);
    StaysOnCourse(now, keys, remote, base, i);
    if r.Success? {
      FinalId(r.value.0, keys, remote, base, i + 1, r.value.1, remote[i].name);
    }
  }

  lemma OnCourseFirst(keys: seq<KeyRow>, remote: seq<RemoteKey>, base: int)
    requires NamesUnique(keys)
    ensures OnCourse(keys, keys, remote, base, 0)
  {
    assert ImportWanted(remote)[0..] == ImportWanted(remote);
  }

  lemma {:induction false} OnCourseLast(now: seq<KeyRow>, keys: seq<KeyRow>, remote: seq<RemoteKey>, base: int)
    requires OnCourse(now, keys, remote, base, |remote|)
    ensures now == UpsertAll(keys, ImportWanted(remote), base) && Accepted(keys, ImportWanted(remote), base)
  {
    assert remote[..|remote|] == remote;
    assert ImportWanted(remote)[|ImportWanted(remote)|..] == [];
  }

  lemma OnCourseSkipping(now: seq<KeyRow>, keys: seq<KeyRow>, remote: seq<RemoteKey>, base: int, i: nat)
    requires i < |remote| && remote[i].name == [] && OnCourse(now, keys, remote, base, i)
    ensures OnCourse(now, keys, remote, base, i + 1)
  {
    WantedNext(remote, i);
  }

  /** The keys are upserted and every locale's translations collected, unless a remote id is
      taken. */
  ghost predicate RemoteUpserted(keys: seq<KeyRow>, locales: seq<nat>, remote: seq<RemoteKey>,
                                 present: set<(nat, Text)>,
                                 r: Result<(seq<KeyRow>, map<nat, seq<Translation>>), Error>)
  {
    match r
    case Failure(error) =>
      !Accepted(keys, ImportWanted(remote), MaxSortIndex(keys)) && error == UniqueViolation
    case Success((after, byLocale)) =>
      && Accepted(keys, ImportWanted(remote), MaxSortIndex(keys))
      && after == UpsertAll(keys, ImportWanted(remote), MaxSortIndex(keys))
      && CollectedSoFar(byLocale, after, locales, remote, present, |remote|)
  }

  /** Upserts the keys, collecting each locale's translations under the ids they get. */
  method UpsertRemote(keys: seq<KeyRow>, locales: seq<nat>, remote: seq<RemoteKey>, present: set<(nat, Text)>)
    returns (r: Result<(seq<KeyRow>, map<nat, seq<Translation>>), Error>)
    requires NamesUnique(keys)
    ensures RemoteUpserted(keys, locales, remote, present, r)
  {
    var base := MaxSortIndex(keys);
    ghost var final := UpsertAll(keys, ImportWanted(remote), base);
    var now, byLocale := keys, map[];
    OnCourseFirst(keys, remote, base);
    for i := 0 to |remote|
      invariant OnCourse(now, keys, remote, base, i)
      invariant CollectedSoFar(byLocale, final, locales, remote, present, i)
    {
      if remote[i].name == [] {
        OnCourseSkipping(now, keys, remote, base, i);
        SkippedKey(byLocale, final, locales, remote, present, i);
        continue;
      }
      var upserted := UpsertNext(now, remote, base, i, keys);
      if upserted.Failure? {
        return Failure(upserted.error);
      }
      now := upserted.value.0;
      byLocale := CollectNext(byLocale, upserted.value.1, locales, remote, present, i, final);
    }
    OnCourseLast(now, keys, remote, base);
    r := Success((now, byLocale));
  }

  lemma SkippedKey(byLocale: map<nat, seq<Translation>>, keys: seq<KeyRow>, locales: seq<nat>, remote: seq<RemoteKey>,
                   present: set<(nat, Text)>, i: nat)
    requires i < |remote| && remote[i].name == [] && CollectedSoFar(byLocale, keys, locales, remote, present, i)
    ensures CollectedSoFar(byLocale, keys, locales, remote, present, i + 1)
  {
    forall l | l in locales
      ensures Collected(byLocale, l) == ImportBatch(keys, l, remote[..i + 1], present)
    {
      BatchNext(keys, l, remote, present, i);
    }
  }

  /** An import run; after de-duplication no batch statement names a row twice, so nothing but
      a remote id can make it fail. */
  method RunImport(tables: Tables, locales: seq<nat>, remote: seq<RemoteKey>, present: set<(nat, Text)>)
    returns (r: Result<Tables, Error>)
    requires NamesUnique(tables.keys)
    ensures r == Imported(tables, locales, remote, present)
  {
    var upserted := UpsertRemote(tables.keys, locales, remote, present);
    if upserted.Failure? {
      return Failure(upserted.error);
    }
    var (keys, byLocale) := upserted.value;
    var cells := WriteLocales(tables.cells, keys, byLocale, locales, remote, present);
    r := Success(Tables(keys, cells));
  }

  /** De-duplicates and writes what was collected, locale by locale. */
  method WriteLocales(cells: map<Pair, Cell>, ghost keys: seq<KeyRow>, byLocale: map<nat, seq<Translation>>,
                      locales: seq<nat>, ghost remote: seq<RemoteKey>, ghost present: set<(nat, Text)>)
    returns (now: map<Pair, Cell>)
    requires CollectedSoFar(byLocale, keys, locales, remote, present, |remote|)
    ensures now == BatchAll(cells, ImportBatches(keys, locales, remote, present))
  {
    now := cells;
    ghost var batches := ImportBatches(keys, locales, remote, present);
    assert remote[..|remote|] == remote;
    for i := 0 to |locales|
      invariant now == BatchAll(cells, batches[..i])
    {
      var batch := DedupeTranslations(Collected(byLocale, locales[i]));
      assert RowsOf(batch) == batches[i];
      BatchRuns(now, batch);
      BatchesNext(cells, batches, i);
      now := BatchWritten(now, RowsOf(batch));
    }
    assert batches[..|locales|] == batches;
  }

  // ---- remote ids over runs ------------------------------------------------------------------------

  /** A deleted key keeps its remote id, so importing it again fails. */
  lemma DeletedKeyBlocksImport(s: State, w: Wanted, base: int, again: int)
    requires Inserts(s.keys, w) && !Refuses(s.keys, w) && w.remoteId.Some?
    ensures var s1 := Step(s, UpsertKey(w.meta, base + w.offset, w.remoteId));
            var s2 := Step(s1, DeleteKey(None, |s.keys|, None));
            Plan(s2, UpsertKey(w.meta, again + w.offset, w.remoteId)) == Failure(UniqueViolation)
  {
    var s1 := Step(s, UpsertKey(w.meta, base + w.offset, w.remoteId));
    UpsertIsStep(s, w, base);
    KeyDeleted(s1, |s.keys|);
    UpsertIsStep(Step(s1, DeleteKey(None, |s.keys|, None)), w, again);
  }

  lemma KeyDeleted(s: State, k: nat)
    requires k < |s.keys| && s.keys[k].meta.status.Active?
    ensures var next := Step(s, DeleteKey(None, k, None)).keys;
            && |next| == |s.keys| && next[k].meta.status.Deleted? && next[k].remoteId == s.keys[k].remoteId
            && forall j :: 0 <= j < |s.keys| && j != k ==> next[j] == s.keys[j]
  {
  }

  /** So does a key that was renamed at the remote project. */
  lemma RenamedKeyBlocksImport(s: State, w: Wanted, base: int, again: int, name: Text)
    requires Inserts(s.keys, w) && !Refuses(s.keys, w) && w.remoteId.Some?
    requires name != w.meta.name && !NameTaken(s.keys, name)
    ensures var s1 := Step(s, UpsertKey(w.meta, base + w.offset, w.remoteId));
            Plan(s1, UpsertKey(w.meta.(name := name), again + w.offset, w.remoteId)) == Failure(UniqueViolation)
  {
    UpsertIsStep(s, w, base);
    UpsertUses(s.keys, w, base, name, w.remoteId);
    UpsertIsStep(Step(s, UpsertKey(w.meta, base + w.offset, w.remoteId)), w.(meta := w.meta.(name := name)), again);
  }

  ghost predicate RemoteIdsUnique(keys: seq<KeyRow>) {
    forall i, j :: 0 <= i < j < |keys| && keys[i].remoteId.Some? ==> keys[i].remoteId != keys[j].remoteId
  }

  /** A write leaves every row its remote id, and gives a new row none or a free one. */
  ghost predicate RemoteIdsKept(before: seq<KeyRow>, after: seq<KeyRow>) {
    && |before| <= |after| <= |before| + 1
    && (forall k :: 0 <= k < |before| ==> after[k].remoteId == before[k].remoteId)
    && (|before| < |after| ==> !RemoteIdTaken(before, after[|before|].remoteId))
  }

  lemma CommitRemoteIds(s: State, w: Write)
    requires Legal(s, w)
    ensures RemoteIdsKept(s.keys, Commit(s, w).keys)
  {
    if w.Land? {
      Landing(s, w.b, w.r);
    } else if w.AddKey? || w.DraftKey? || w.InsertKey? || w.WriteKey? {
      KeyWriteRemoteIds(s, w);
    } else {
      LeavingKeys(s, w);
    }
  }

  lemma KeyWriteRemoteIds(s: State, w: Write)
    requires Legal(s, w) && (w.AddKey? || w.DraftKey? || w.InsertKey? || w.WriteKey?)
    ensures RemoteIdsKept(s.keys, Commit(s, w).keys)
  {
  }

  lemma KeptStaysUnique(before: seq<KeyRow>, after: seq<KeyRow>)
    requires RemoteIdsKept(before, after) && RemoteIdsUnique(before)
    ensures RemoteIdsUnique(after)
  {
  }

  lemma StepRemoteIds(s: State, op: Op, next: State)
    requires NamesUnique(s.keys) && next == Step(s, op)
    ensures RemoteIdsKept(s.keys, next.keys)
  {
    PlanLegal(s, op);
    if Plan(s, op).Success? {
      CommitRemoteIds(s, Plan(s, op).value);
    }
  }

  /** Over every run: a row keeps its remote id whatever is done to it, and no other row
      ever has it. */
  lemma {:induction false} RemoteIdStays(trace: seq<State>, ops: seq<Op>, i: nat, n: nat)
    requires Run(trace, ops) && i <= n < |trace|
    ensures RemoteIdsUnique(trace[n].keys)
    ensures |trace[i].keys| <= |trace[n].keys|
    ensures forall k :: 0 <= k < |trace[i].keys| ==> trace[n].keys[k].remoteId == trace[i].keys[k].remoteId
    decreases n
  {
    if n > 0 {
      var s := StepBefore(trace, ops, n);
      StepRemoteIds(s, ops[n - 1], trace[n]);
      RemoteIdStays(trace, ops, if i < n then i else n - 1, n - 1);
      KeptStaysUnique(s.keys, trace[n].keys);
    }
  }

  /** Over every run: once an id is on a row, importing it again is accepted exactly while
      the name it comes under is active. */
  lemma ReimportNeedsName(trace: seq<State>, ops: seq<Op>, i: nat, n: nat, k: nat, w: Wanted, base: int)
    requires Run(trace, ops) && i <= n < |trace|
    requires k < |trace[i].keys| && w.remoteId.Some? && trace[i].keys[k].remoteId == w.remoteId
    ensures Plan(trace[n], UpsertKey(w.meta, base + w.offset, w.remoteId)).Success?
            <==> NameTaken(trace[n].keys, w.meta.name)
  {
    RemoteIdStays(trace, ops, i, n);
    assert trace[n].keys[k].remoteId == w.remoteId;
    UpsertIsStep(trace[n], w, base);
  }
}
