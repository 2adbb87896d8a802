/** Seeding and importing: repeated through the guarded upserts, they change nothing. */
module Seeding {
  import opened Wrappers
  import opened Bytes
  import opened Schema
  import opened Statements
  import opened Service
  import opened Invariants

  // ---- keys ---------------------------------------------------------------------------

  /** A key a run upserts, its place behind the highest sort index at the run's start, and
      its id at the remote project if it comes from there. */
  datatype Wanted = Wanted(meta: Meta, offset: int, remoteId: Option<int>)

  /** The upsert inserts a row. */
  predicate Inserts(keys: seq<KeyRow>, w: Wanted) {
    !NameTaken(keys, w.meta.name)
  }

  /** The insert fails: another row, deleted or renamed, holds the remote id. */
  predicate Refuses(keys: seq<KeyRow>, w: Wanted) {
    Inserts(keys, w) && RemoteIdTaken(keys, w.remoteId)
  }

  /** The keys after an UpsertByName that is not refused. */
  function UpsertOne(keys: seq<KeyRow>, w: Wanted, base: int): seq<KeyRow> {
    var k := ActiveKey(keys, w.meta.name);
    if k.None? then keys + [KeyRow(w.meta.(status := Active), 1, base + w.offset, w.remoteId)]
    else
      var row := keys[k.value];
      var upserted := Upserted(row.meta, w.meta);
      if upserted == row.meta then keys else keys[k.value := row.(meta := upserted, version := row.version + 1)]
  }

  /** That is the service's upsert, its refusal included. */
  lemma UpsertIsStep(s: State, w: Wanted, base: int)
    ensures var op := UpsertKey(w.meta, base + w.offset, w.remoteId);
            if Refuses(s.keys, w) then Plan(s, op) == Failure(UniqueViolation) && Step(s, op).keys == s.keys
            else Plan(s, op).Success? && Step(s, op).keys == UpsertOne(s.keys, w, base)
  {
    UpsertPlanned(s, w.meta, base + w.offset, w.remoteId);
  }

  lemma UpsertPlanned(s: State, meta: Meta, sortIndex: int, remoteId: Option<int>)
    ensures Plan(s, UpsertKey(meta, sortIndex, remoteId)) == PlanUpsertKey(s, meta, sortIndex, remoteId)
  {
  }

  function First(keys: seq<KeyRow>, wanted: seq<Wanted>, base: int): seq<KeyRow>
    requires wanted != []
  {
    UpsertOne(keys, wanted[0], base)
  }

  function UpsertAll(keys: seq<KeyRow>, wanted: seq<Wanted>, base: int): seq<KeyRow>
    decreases |wanted|
  {
    if wanted == [] then keys
    else UpsertAll(First(keys, wanted, base), wanted[1..], base)
  }

  /** None of the upserts is refused. */
  predicate Accepted(keys: seq<KeyRow>, wanted: seq<Wanted>, base: int)
    decreases |wanted|
  {
    wanted == [] || (!Refuses(keys, wanted[0]) && Accepted(First(keys, wanted, base), wanted[1..], base))
  }

  /** The table after the transaction: one refusal rolls all of it back. */
  function UpsertRun(keys: seq<KeyRow>, wanted: seq<Wanted>, base: int): seq<KeyRow> {
    if Accepted(keys, wanted, base) then UpsertAll(keys, wanted, base) else keys
  }

  /** A run with one upsert more. */
  lemma {:induction false} OneMoreUpsert(keys: seq<KeyRow>, wanted: seq<Wanted>, w: Wanted, base: int)
    ensures UpsertAll(keys, wanted + [w], base) == UpsertOne(UpsertAll(keys, wanted, base), w, base)
    ensures Accepted(keys, wanted + [w], base)
            <==> Accepted(keys, wanted, base) && !Refuses(UpsertAll(keys, wanted, base), w)
    decreases |wanted|
  {
    if wanted == [] {
      assert ([] + [w])[1..] == [];
    } else {
      OneMoreUpsert(First(keys, wanted, base), wanted[1..], w, base);
      assert (wanted + [w])[0] == wanted[0] && (wanted + [w])[1..] == wanted[1..] + [w];
    }
  }

  // ---- which runs are refused ----------------------------------------------------------------

  /** What one upsert does to the names and remote ids in use. */
  lemma UpsertUses(keys: seq<KeyRow>, w: Wanted, base: int, name: Text, remoteId: Option<int>)
    ensures NameTaken(UpsertOne(keys, w, base), name) <==> NameTaken(keys, name) || name == w.meta.name
    ensures RemoteIdTaken(UpsertOne(keys, w, base), remoteId) <==>
              RemoteIdTaken(keys, remoteId) || (Inserts(keys, w) && remoteId.Some? && remoteId == w.remoteId)
  {
    var next := UpsertOne(keys, w, base);
    var at := ActiveKey(keys, w.meta.name);
    assert HoldsName(next[if at.Some? then at.value else |keys|], w.meta.name);
    assert forall k :: 0 <= k < |keys| ==> next[k].remoteId == keys[k].remoteId
                                           && (HoldsName(next[k], name) <==> HoldsName(keys[k], name));
    if at.None? {
      assert next[|keys|].remoteId == w.remoteId;
    }
  }

  /** Tables in which the same names and remote ids are in use. */
  ghost predicate SameUse(a: seq<KeyRow>, b: seq<KeyRow>) {
    && (forall name :: NameTaken(a, name) <==> NameTaken(b, name))
    && (forall remoteId :: RemoteIdTaken(a, remoteId) <==> RemoteIdTaken(b, remoteId))
  }

  lemma UpsertKeepsUse(a: seq<KeyRow>, b: seq<KeyRow>, w: Wanted, base: int, again: int)
    requires SameUse(a, b)
    ensures SameUse(UpsertOne(a, w, base), UpsertOne(b, w, again))
  {
    assert Inserts(a, w) <==> Inserts(b, w);
    forall name
      ensures NameTaken(UpsertOne(a, w, base), name) <==> NameTaken(UpsertOne(b, w, again), name)
    {
      UpsertUses(a, w, base, name, None);
      UpsertUses(b, w, again, name, None);
    }
    forall remoteId
      ensures RemoteIdTaken(UpsertOne(a, w, base), remoteId) <==> RemoteIdTaken(UpsertOne(b, w, again), remoteId)
    {
      UpsertUses(a, w, base, [], remoteId);
      UpsertUses(b, w, again, [], remoteId);
    }
  }

  /** A refusal depends on the names and ids in use only, not on sort indexes. */
  lemma {:induction false} SameUseSameAnswer(a: seq<KeyRow>, b: seq<KeyRow>, wanted: seq<Wanted>, base: int, again: int)
    requires SameUse(a, b)
    ensures Accepted(a, wanted, base) <==> Accepted(b, wanted, again)
    decreases |wanted|
  {
    if wanted != [] {
      UpsertKeepsUse(a, b, wanted[0], base, again);
      SameUseSameAnswer(First(a, wanted, base), First(b, wanted, again), wanted[1..], base, again);
    }
  }

  ghost predicate AllTaken(keys: seq<KeyRow>, wanted: seq<Wanted>) {
    forall i :: 0 <= i < |wanted| ==> NameTaken(keys, wanted[i].meta.name)
  }

  /** A run over names in use inserts nothing, so it is not refused. */
  lemma {:induction false} TakenIsAccepted(keys: seq<KeyRow>, wanted: seq<Wanted>, base: int)
    requires AllTaken(keys, wanted)
    ensures Accepted(keys, wanted, base)
    decreases |wanted|
  {
    if wanted != [] {
      var next := First(keys, wanted, base);
      forall i | 0 <= i < |wanted[1..]|
        ensures NameTaken(next, wanted[1..][i].meta.name)
      {
        assert NameTaken(keys, wanted[i + 1].meta.name);
        UpsertUses(keys, wanted[0], base, wanted[i + 1].meta.name, None);
      }
      TakenIsAccepted(next, wanted[1..], base);
    }
  }

  lemma {:induction false} NameStaysTaken(keys: seq<KeyRow>, wanted: seq<Wanted>, base: int, name: Text)
    requires NameTaken(keys, name)
    ensures NameTaken(UpsertAll(keys, wanted, base), name)
    decreases |wanted|
  {
    if wanted != [] {
      UpsertUses(keys, wanted[0], base, name, None);
      NameStaysTaken(First(keys, wanted, base), wanted[1..], base, name);
    }
  }

  lemma {:induction false} RunTakesNames(keys: seq<KeyRow>, wanted: seq<Wanted>, base: int)
    ensures AllTaken(UpsertAll(keys, wanted, base), wanted)
    decreases |wanted|
  {
    if wanted != [] {
      var next := First(keys, wanted, base);
      UpsertUses(keys, wanted[0], base, wanted[0].meta.name, None);
      NameStaysTaken(next, wanted[1..], base, wanted[0].meta.name);
      RunTakesNames(next, wanted[1..], base);
      forall i | 0 <= i < |wanted|
        ensures NameTaken(UpsertAll(keys, wanted, base), wanted[i].meta.name)
      {
        if i > 0 {
          assert wanted[1..][i - 1] == wanted[i];
        }
      }
    }
  }

  // ---- when a second run is silent ---------------------------------------------------------

  /** Platforms in the order and without the repetitions that both runs send. */
  predicate Canonical(platforms: seq<Platform>) {
    platforms == Distinct(set p | p in platforms)
  }

  /** What a seed or an import sends for a key: no name overrides. */
  ghost predicate Sent(wanted: seq<Wanted>) {
    forall i :: 0 <= i < |wanted| ==>
      var meta := wanted[i].meta;
      Canonical(meta.platforms) && meta.androidName.None? && meta.iosName.None?
  }

  /** Two descriptions for one name: neither empty and not the same. */
  predicate Disagree(a: Meta, b: Meta) {
    a.name == b.name && a.description != [] && b.description != [] && a.description != b.description
  }

  ghost predicate Consistent(wanted: seq<Wanted>) {
    forall i, j :: 0 <= i < |wanted| && 0 <= j < |wanted| ==> !Disagree(wanted[i].meta, wanted[j].meta)
  }

  /** Upserting the key again would change nothing. */
  ghost predicate Settled(keys: seq<KeyRow>, meta: Meta) {
    exists k :: 0 <= k < |keys| && HoldsName(keys[k], meta.name) && Upserted(keys[k].meta, meta) == keys[k].meta
  }

  lemma SamePlatforms(a: seq<Platform>, b: seq<Platform>)
    requires forall p :: p in a <==> p in b
    ensures (set p | p in a) == (set p | p in b)
  {
  }

  lemma DistinctHolds(platforms: set<Platform>)
    ensures forall p :: p in Distinct(platforms) <==> p in platforms
    ensures Canonical(Distinct(platforms))
  {
    forall p
      ensures p in Distinct(platforms) <==> p in platforms
    {
      match p
      case Android =>
      case Flutter =>
      case Ios =>
    }
    assert (set p | p in Distinct(platforms)) == platforms;
  }

  /** What is accumulated once stays accumulated, whatever is added. */
  lemma AccumulatesOnce(a: seq<Platform>, b: seq<Platform>, c: seq<Platform>)
    ensures var once := Accumulated(a, b);
            && (forall p :: p in once <==> p in a || p in b)
            && Accumulated(once, b) == once
            && Accumulated(Accumulated(once, c), b) == Accumulated(once, c)
  {
    var once := Accumulated(a, b);
    DistinctHolds(set p | p in a + b);
    SamePlatforms(once + b, a + b);
    var twice := Accumulated(once, c);
    DistinctHolds(set p | p in once + c);
    SamePlatforms(twice + b, once + c);
  }

  lemma CanonicalStays(platforms: seq<Platform>)
    requires Canonical(platforms)
    ensures Accumulated(platforms, platforms) == platforms
  {
    SamePlatforms(platforms + platforms, platforms);
  }

  /** One upsert settles its own key. */
  lemma UpsertSettles(keys: seq<KeyRow>, w: Wanted, base: int)
    requires Canonical(w.meta.platforms) && w.meta.androidName.None? && w.meta.iosName.None?
    ensures Settled(UpsertOne(keys, w, base), w.meta)
  {
    var (next, meta) := (UpsertOne(keys, w, base), w.meta);
    var k := ActiveKey(keys, meta.name);
    if k.None? {
      CanonicalStays(meta.platforms);
      assert HoldsName(next[|keys|], meta.name) && Upserted(next[|keys|].meta, meta) == next[|keys|].meta;
    } else {
      AccumulatesOnce(keys[k.value].meta.platforms, meta.platforms, []);
      assert HoldsName(next[k.value], meta.name) && Upserted(next[k.value].meta, meta) == next[k.value].meta;
    }
  }

  /** And unsettles no other it agrees with. */
  lemma UpsertKeepsSettled(keys: seq<KeyRow>, w: Wanted, base: int, other: Meta)
    requires NamesUnique(keys) && Settled(keys, other) && !Disagree(w.meta, other)
    requires other.androidName.None? && other.iosName.None?
    requires w.meta.androidName.None? && w.meta.iosName.None?
    ensures Settled(UpsertOne(keys, w, base), other)
  {
    var next := UpsertOne(keys, w, base);
    var j :| 0 <= j < |keys| && HoldsName(keys[j], other.name) && Upserted(keys[j].meta, other) == keys[j].meta;
    assert HoldsName(next[j], other.name);
    if next[j] != keys[j] {
      SettledTwice(keys[j].meta, w.meta, other);
    }
    assert Upserted(next[j].meta, other) == next[j].meta;
  }

  lemma SettledTwice(current: Meta, meta: Meta, other: Meta)
    requires current.name == other.name == meta.name && !Disagree(meta, other)
    requires Upserted(current, other) == current && other.androidName.None? && other.iosName.None?
    ensures Upserted(Upserted(current, meta), other) == Upserted(current, meta)
  {
    AccumulatesOnce(current.platforms, other.platforms, meta.platforms);
  }

  lemma UpsertKeepsUnique(keys: seq<KeyRow>, w: Wanted, base: int)
    requires NamesUnique(keys)
    ensures NamesUnique(UpsertOne(keys, w, base))
  {
  }

  lemma SettledUpsertIsSilent(keys: seq<KeyRow>, w: Wanted, base: int)
    requires NamesUnique(keys) && Settled(keys, w.meta)
    ensures UpsertOne(keys, w, base) == keys
  {
    var meta := w.meta;
    var j :| 0 <= j < |keys| && HoldsName(keys[j], meta.name) && Upserted(keys[j].meta, meta) == keys[j].meta;
    var k := ActiveKey(keys, meta.name);
    assert k.Some?;
    assert k.value == j by {
      if k.value != j {
        assert BothActive(keys[k.value], keys[j]);
      }
    }
  }

  lemma RestAgrees(wanted: seq<Wanted>)
    requires wanted != [] && Sent(wanted) && Consistent(wanted)
    ensures Sent(wanted[1..]) && Consistent(wanted[1..])
    ensures forall i :: 0 <= i < |wanted[1..]| ==> !Disagree(wanted[1..][i].meta, wanted[0].meta)
  {
    assert forall i :: 0 <= i < |wanted[1..]| ==> wanted[1..][i] == wanted[i + 1];
  }

  ghost predicate AllSettled(keys: seq<KeyRow>, wanted: seq<Wanted>) {
    forall i :: 0 <= i < |wanted| ==> Settled(keys, wanted[i].meta)
  }

  lemma FirstAndRest(keys: seq<KeyRow>, wanted: seq<Wanted>)
    requires wanted != []
    ensures AllSettled(keys, wanted) <==> Settled(keys, wanted[0].meta) && AllSettled(keys, wanted[1..])
  {
    assert forall i :: 1 <= i < |wanted| ==> wanted[i] == wanted[1..][i - 1];
    if Settled(keys, wanted[0].meta) && AllSettled(keys, wanted[1..]) {
      forall i | 0 <= i < |wanted|
        ensures Settled(keys, wanted[i].meta)
      {
        if i > 0 {
          assert Settled(keys, wanted[1..][i - 1].meta);
        }
      }
    }
    if AllSettled(keys, wanted) {
      forall i | 0 <= i < |wanted[1..]|
        ensures Settled(keys, wanted[1..][i].meta)
      {
        assert Settled(keys, wanted[i + 1].meta);
      }
    }
  }

  lemma {:induction false} FirstStaysSettled(keys: seq<KeyRow>, wanted: seq<Wanted>, base: int)
    requires wanted != [] && NamesUnique(keys) && Sent(wanted) && Consistent(wanted)
    requires Settled(keys, wanted[0].meta) && AllSettled(UpsertAll(keys, wanted[1..], base), wanted[1..])
    ensures AllSettled(UpsertAll(keys, wanted[1..], base), wanted)
  {
    RestAgrees(wanted);
    RunKeepsSettled(keys, wanted[1..], base, wanted[0].meta);
    FirstAndRest(UpsertAll(keys, wanted[1..], base), wanted);
  }

  lemma FirstSettles(keys: seq<KeyRow>, wanted: seq<Wanted>, base: int)
    requires wanted != [] && NamesUnique(keys) && Sent(wanted)
    ensures NamesUnique(First(keys, wanted, base)) && Settled(First(keys, wanted, base), wanted[0].meta)
  {
    UpsertKeepsUnique(keys, wanted[0], base);
    UpsertSettles(keys, wanted[0], base);
  }

  /** After a run every key it sent is settled. */
  lemma {:induction false} RunSettles(keys: seq<KeyRow>, wanted: seq<Wanted>, base: int)
    requires NamesUnique(keys) && Sent(wanted) && Consistent(wanted)
    ensures AllSettled(UpsertAll(keys, wanted, base), wanted)
    decreases |wanted|
  {
    if wanted != [] {
      FirstSettles(keys, wanted, base);
      RestAgrees(wanted);
      RunSettles(First(keys, wanted, base), wanted[1..], base);
      FirstStaysSettled(First(keys, wanted, base), wanted, base);
    }
  }

  lemma UpsertKeepsBoth(keys: seq<KeyRow>, w: Wanted, base: int, other: Meta, next: seq<KeyRow>)
    requires NamesUnique(keys) && Settled(keys, other) && !Disagree(w.meta, other)
    requires other.androidName.None? && other.iosName.None? && w.meta.androidName.None? && w.meta.iosName.None?
    requires next == UpsertOne(keys, w, base)
    ensures NamesUnique(next) && Settled(next, other)
  {
    UpsertKeepsUnique(keys, w, base);
    UpsertKeepsSettled(keys, w, base, other);
  }

  /** A run unsettles no key it does not contradict. */
  lemma {:induction false} RunKeepsSettled(keys: seq<KeyRow>, wanted: seq<Wanted>, base: int, other: Meta)
    requires NamesUnique(keys) && Sent(wanted) && Settled(keys, other) && other.androidName.None? && other.iosName.None?
    requires forall i :: 0 <= i < |wanted| ==> !Disagree(wanted[i].meta, other)
    ensures Settled(UpsertAll(keys, wanted, base), other)
    decreases |wanted|
  {
    if wanted != [] {
      UpsertKeepsBoth(keys, wanted[0], base, other, First(keys, wanted, base));
      assert forall i :: 0 <= i < |wanted[1..]| ==> wanted[1..][i] == wanted[i + 1];
      RunKeepsSettled(First(keys, wanted, base), wanted[1..], base, other);
    }
  }

  lemma {:induction false} SettledRunIsSilent(keys: seq<KeyRow>, wanted: seq<Wanted>, base: int)
    requires NamesUnique(keys) && AllSettled(keys, wanted)
    ensures UpsertAll(keys, wanted, base) == keys
    decreases |wanted|
  {
    if wanted != [] {
      FirstAndRest(keys, wanted);
      SettledUpsertIsSilent(keys, wanted[0], base);
      SettledRunIsSilent(keys, wanted[1..], base);
    }
  }

  /** Rows are kept or move one way. */
  ghost predicate Later(a: seq<KeyRow>, b: seq<KeyRow>) {
    && |a| <= |b|
    && forall k :: 0 <= k < |a| ==> a[k] == b[k] || a[k].version < b[k].version
  }

  lemma {:induction false} RunOnlyGrows(keys: seq<KeyRow>, wanted: seq<Wanted>, base: int)
    ensures Later(keys, UpsertAll(keys, wanted, base))
    decreases |wanted|
  {
    if wanted != [] {
      RunOnlyGrows(First(keys, wanted, base), wanted[1..], base);
    }
  }

  lemma SilentUpsertIsSettled(keys: seq<KeyRow>, w: Wanted, base: int)
    requires UpsertOne(keys, w, base) == keys
    ensures Settled(keys, w.meta)
  {
    var k := ActiveKey(keys, w.meta.name);
  }

  /** A silent run was silent at every key. */
  lemma {:induction false} SilentThroughout(keys: seq<KeyRow>, wanted: seq<Wanted>, base: int)
    requires UpsertAll(keys, wanted, base) == keys
    ensures AllSettled(keys, wanted)
    decreases |wanted|
  {
    if wanted != [] {
      var next := First(keys, wanted, base);
      RunOnlyGrows(next, wanted[1..], base);
      assert Later(keys, next) && Later(next, keys);
      assert next == keys;
      SilentUpsertIsSettled(keys, wanted[0], base);
      SilentThroughout(keys, wanted[1..], base);
      FirstAndRest(keys, wanted);
    }
  }

  /** From any table: a second run over the same keys changes nothing exactly when the first
      was refused or no name was sent with two different descriptions. */
  lemma {:induction false} KeysIdempotent(keys: seq<KeyRow>, wanted: seq<Wanted>, base: int, again: int)
    requires NamesUnique(keys) && Sent(wanted)
    ensures var once := UpsertRun(keys, wanted, base);
            UpsertRun(once, wanted, again) == once <==> !Accepted(keys, wanted, base) || Consistent(wanted)
    ensures Accepted(UpsertRun(keys, wanted, base), wanted, again) <==> Accepted(keys, wanted, base)
  {
    if Accepted(keys, wanted, base) {
      RunTakesNames(keys, wanted, base);
      TakenIsAccepted(UpsertAll(keys, wanted, base), wanted, again);
      AcceptedIdempotent(keys, wanted, base, again);
    } else {
      SameUseSameAnswer(keys, keys, wanted, base, again);
    }
  }

  lemma {:induction false} AcceptedIdempotent(keys: seq<KeyRow>, wanted: seq<Wanted>, base: int, again: int)
    requires NamesUnique(keys) && Sent(wanted)
    ensures var once := UpsertAll(keys, wanted, base);
            UpsertAll(once, wanted, again) == once <==> Consistent(wanted)
  {
    var once := UpsertAll(keys, wanted, base);
    RunKeepsUnique(keys, wanted, base);
    if Consistent(wanted) {
      RunSettles(keys, wanted, base);
      SettledRunIsSilent(once, wanted, again);
    } else {
      var i, j :| 0 <= i < |wanted| && 0 <= j < |wanted| && Disagree(wanted[i].meta, wanted[j].meta);
      NotBothSettled(once, wanted[i].meta, wanted[j].meta);
      if UpsertAll(once, wanted, again) == once {
        SilentThroughout(once, wanted, again);
      }
    }
  }

  lemma {:induction false} RunKeepsUnique(keys: seq<KeyRow>, wanted: seq<Wanted>, base: int)
    requires NamesUnique(keys)
    ensures NamesUnique(UpsertAll(keys, wanted, base))
    decreases |wanted|
  {
    if wanted != [] {
      UpsertKeepsUnique(keys, wanted[0], base);
      RunKeepsUnique(First(keys, wanted, base), wanted[1..], base);
    }
  }

  lemma NotBothSettled(keys: seq<KeyRow>, a: Meta, b: Meta)
    requires NamesUnique(keys) && Disagree(a, b)
    ensures !(Settled(keys, a) && Settled(keys, b))
  {
    if Settled(keys, a) && Settled(keys, b) {
      var i :| 0 <= i < |keys| && HoldsName(keys[i], a.name) && Upserted(keys[i].meta, a) == keys[i].meta;
      var j :| 0 <= j < |keys| && HoldsName(keys[j], b.name) && Upserted(keys[j].meta, b) == keys[j].meta;
      OneHolder(keys, i, j, a.name);
    }
  }

  lemma OneHolder(keys: seq<KeyRow>, i: nat, j: nat, name: Text)
    requires NamesUnique(keys) && i < |keys| && j < |keys| && HoldsName(keys[i], name) && HoldsName(keys[j], name)
    ensures i == j
  {
    if i != j {
      assert BothActive(keys[i], keys[j]);
    }
  }

  // ---- values ---------------------------------------------------------------------------------

  datatype Translation = Translation(pair: Pair, value: Text, hint: Hint)

  /** A list read as rows to write: the last of a pair counts. */
  function RowsOf(batch: seq<Translation>): map<Pair, (Text, Hint)> {
    if batch == [] then map[]
    else
      var last := batch[|batch| - 1];
      RowsOf(batch[..|batch| - 1])[last.pair := (last.value, last.hint)]
  }

  ghost predicate OnePerPair(batch: seq<Translation>) {
    forall i, j :: 0 <= i < j < |batch| ==> batch[i].pair != batch[j].pair
  }

  /** The batch INSERT ... ON CONFLICT DO UPDATE; None when it would affect a row twice. */
  ghost function BatchStatement(cells: map<Pair, Cell>, batch: seq<Translation>): Option<map<Pair, Cell>> {
    if OnePerPair(batch) then Some(BatchWritten(cells, RowsOf(batch))) else None
  }

  lemma {:induction false} BatchRuns(cells: map<Pair, Cell>, batch: seq<Translation>)
    requires OnePerPair(batch)
    ensures BatchStatement(cells, batch) == Some(BatchWritten(cells, RowsOf(batch)))
  {
  }

  function PairsOf(batch: seq<Translation>): seq<Pair> {
    seq(|batch|, i requires 0 <= i < |batch| => batch[i].pair)
  }

  /** The elements in the order of their first occurrences. */
  function FirstSeen<T(==)>(xs: seq<T>): seq<T> {
    if xs == [] then []
    else
      var (before, last) := (FirstSeen(xs[..|xs| - 1]), xs[|xs| - 1]);
      if last in before then before else before + [last]
  }

  /** Where the pair stands in the list. */
  function PlaceOf(batch: seq<Translation>, pair: Pair): (at: Option<nat>)
    ensures at.Some? ==> at.value < |batch| && batch[at.value].pair == pair
    ensures at.None? ==> forall i :: 0 <= i < |batch| ==> batch[i].pair != pair
  {
    if batch == [] then None
    else if batch[|batch| - 1].pair == pair then Some(|batch| - 1)
    else PlaceOf(batch[..|batch| - 1], pair)
  }

  /** Overwrites the pair's entry, or appends one. */
  function Placed(out: seq<Translation>, t: Translation): (r: seq<Translation>)
    ensures OnePerPair(out) ==> OnePerPair(r)
  {
    var at := PlaceOf(out, t.pair);
    if at.Some? then out[at.value := t] else out + [t]
  }

  /** One entry per pair: the last value in the place of the first. */
  function Deduped(batch: seq<Translation>): (out: seq<Translation>)
    ensures OnePerPair(out)
  {
    if batch == [] then [] else Placed(Deduped(batch[..|batch| - 1]), batch[|batch| - 1])
  }

  /** The map knows where every pair of the list stands. */
  ghost predicate Indexes(index: map<Pair, nat>, out: seq<Translation>) {
    && (forall p :: p in index ==> index[p] < |out| && out[index[p]].pair == p)
    && (forall j :: 0 <= j < |out| ==> out[j].pair in index && index[out[j].pair] == j)
  }

  lemma {:induction false} IndexIsPlace(index: map<Pair, nat>, out: seq<Translation>, pair: Pair)
    requires Indexes(index, out)
    ensures PlaceOf(out, pair) == if pair in index then Some(index[pair]) else None
  {
  }

  lemma DedupedNext(batch: seq<Translation>, i: nat)
    requires i < |batch|
    ensures Deduped(batch[..i + 1]) == Placed(Deduped(batch[..i]), batch[i])
  {
    assert batch[..i + 1][..i] == batch[..i];
  }

  lemma IndexesPlaced(index: map<Pair, nat>, out: seq<Translation>, t: Translation)
    requires Indexes(index, out)
    ensures t.pair in index ==> index[t.pair] < |out| && Indexes(index, out[index[t.pair] := t])
    ensures t.pair !in index ==> Indexes(index[t.pair := |out|], out + [t])
  {
  }

  /** dedupeTranslations: overwrites slots of `out` in place. */
  method DedupeTranslations(batch: seq<Translation>) returns (out: seq<Translation>)
    ensures out == Deduped(batch)
  {
    var index: map<Pair, nat> := map[];
    out := [];
    for i := 0 to |batch|
      invariant out == Deduped(batch[..i]) && Indexes(index, out)
    {
      var t := batch[i];
      DedupedNext(batch, i);
      IndexIsPlace(index, out, t.pair);
      IndexesPlaced(index, out, t);
      if t.pair in index {
        out := out[index[t.pair] := t];
        continue;
      }
      index := index[t.pair := |out|];
      out := out + [t];
    }
    assert batch[..|batch|] == batch;
  }

  lemma {:induction false} RowsAt(batch: seq<Translation>)
    requires OnePerPair(batch)
    ensures forall p :: p in RowsOf(batch) <==> exists i :: 0 <= i < |batch| && batch[i].pair == p
    ensures forall i :: 0 <= i < |batch| ==> RowsOf(batch)[batch[i].pair] == (batch[i].value, batch[i].hint)
  {
    if batch != [] {
      var init := batch[..|batch| - 1];
      RowsAt(init);
      forall p | exists i :: 0 <= i < |batch| && batch[i].pair == p
        ensures p in RowsOf(batch)
      {
        var i :| 0 <= i < |batch| && batch[i].pair == p;
        if i < |init| {
          assert init[i].pair == p;
        }
      }
    }
  }

  lemma {:induction false} ReplacedRow(out: seq<Translation>, at: nat, t: Translation)
    requires OnePerPair(out) && at < |out| && out[at].pair == t.pair
    ensures OnePerPair(out[at := t]) && RowsOf(out[at := t]) == RowsOf(out)[t.pair := (t.value, t.hint)]
  {
    RowsAt(out);
    RowsAt(out[at := t]);
    var (a, b) := (RowsOf(out[at := t]), RowsOf(out)[t.pair := (t.value, t.hint)]);
    forall p
      ensures p in a <==> p in b
      ensures p in a ==> a[p] == b[p]
    {
      if i :| 0 <= i < |out| && out[i].pair == p {
        assert out[at := t][i].pair == p;
      }
    }
  }

  lemma {:induction false} AppendedRow(out: seq<Translation>, t: Translation)
    ensures RowsOf(out + [t]) == RowsOf(out)[t.pair := (t.value, t.hint)]
  {
    assert (out + [t])[..|out|] == out;
  }

  /** De-duplication writes the rows the whole list asks for. */
  lemma {:induction false} DedupedRows(batch: seq<Translation>)
    ensures RowsOf(Deduped(batch)) == RowsOf(batch)
  {
    if batch != [] {
      var (out, t) := (Deduped(batch[..|batch| - 1]), batch[|batch| - 1]);
      DedupedRows(batch[..|batch| - 1]);
      var at := PlaceOf(out, t.pair);
      if at.Some? {
        ReplacedRow(out, at.value, t);
      } else {
        AppendedRow(out, t);
      }
    }
  }

  lemma PairsReplaced(out: seq<Translation>, at: nat, t: Translation)
    requires at < |out| && out[at].pair == t.pair
    ensures PairsOf(out[at := t]) == PairsOf(out)
  {
  }

  lemma {:induction false} PairsIn(out: seq<Translation>, pair: Pair)
    ensures pair in PairsOf(out) <==> PlaceOf(out, pair).Some?
  {
    if PlaceOf(out, pair).Some? {
      assert PairsOf(out)[PlaceOf(out, pair).value] == pair;
    }
  }

  /** It keeps the order of first occurrences. */
  lemma {:induction false} DedupedOrder(batch: seq<Translation>)
    ensures PairsOf(Deduped(batch)) == FirstSeen(PairsOf(batch))
  {
    if batch != [] {
      var (init, t) := (batch[..|batch| - 1], batch[|batch| - 1]);
      var out := Deduped(init);
      DedupedOrder(init);
      assert PairsOf(batch)[..|batch| - 1] == PairsOf(init);
      PairsIn(out, t.pair);
      if PlaceOf(out, t.pair).Some? {
        PairsReplaced(out, PlaceOf(out, t.pair).value, t);
      } else {
        assert PairsOf(out + [t]) == PairsOf(out) + [t.pair];
      }
    }
  }

  /** So the batch statement runs, and writes what the whole list asks for. */
  lemma {:induction false} DedupedBatchRuns(cells: map<Pair, Cell>, batch: seq<Translation>)
    ensures BatchStatement(cells, Deduped(batch)) == Some(BatchWritten(cells, RowsOf(batch)))
  {
    DedupedRows(batch);
  }

  // ---- several batches --------------------------------------------------------------------------

  function BatchAll(cells: map<Pair, Cell>, batches: seq<map<Pair, (Text, Hint)>>): map<Pair, Cell> {
    if batches == [] then cells
    else BatchWritten(BatchAll(cells, batches[..|batches| - 1]), batches[|batches| - 1])
  }

  lemma {:induction false} BatchesNext(cells: map<Pair, Cell>, batches: seq<map<Pair, (Text, Hint)>>, i: nat)
    requires i < |batches|
    ensures BatchAll(cells, batches[..i + 1]) == BatchWritten(BatchAll(cells, batches[..i]), batches[i])
  {
    assert batches[..i + 1][..i] == batches[..i];
  }

  ghost predicate Apart(batches: seq<map<Pair, (Text, Hint)>>) {
    forall i, j :: 0 <= i < j < |batches| ==> batches[i].Keys !! batches[j].Keys
  }

  /** The rows already read as the batch wants them. */
  ghost predicate Holds(cells: map<Pair, Cell>, rows: map<Pair, (Text, Hint)>) {
    forall p :: p in rows ==> p in cells && cells[p].value == rows[p].0 && cells[p].hint == rows[p].1
  }

  lemma HeldBatchIsSilent(cells: map<Pair, Cell>, rows: map<Pair, (Text, Hint)>)
    requires Holds(cells, rows)
    ensures BatchWritten(cells, rows) == cells
  {
  }

  lemma BatchHolds(cells: map<Pair, Cell>, rows: map<Pair, (Text, Hint)>, other: map<Pair, (Text, Hint)>)
    ensures Holds(BatchWritten(cells, rows), rows)
    ensures Holds(cells, other) && other.Keys !! rows.Keys ==> Holds(BatchWritten(cells, rows), other)
  {
  }

  lemma {:induction false} BatchesHold(cells: map<Pair, Cell>, batches: seq<map<Pair, (Text, Hint)>>)
    requires Apart(batches)
    ensures forall i :: 0 <= i < |batches| ==> Holds(BatchAll(cells, batches), batches[i])
  {
    if batches != [] {
      var (init, last) := (batches[..|batches| - 1], batches[|batches| - 1]);
      BatchesHold(cells, init);
      forall i | 0 <= i < |batches|
        ensures Holds(BatchAll(cells, batches), batches[i])
      {
        if i < |init| {
          assert Holds(BatchAll(cells, init), init[i]);
        }
        BatchHolds(BatchAll(cells, init), last, batches[i]);
      }
    }
  }

  lemma {:induction false} HeldBatchesAreSilent(cells: map<Pair, Cell>, batches: seq<map<Pair, (Text, Hint)>>)
    requires forall i :: 0 <= i < |batches| ==> Holds(cells, batches[i])
    ensures BatchAll(cells, batches) == cells
  {
    if batches != [] {
      HeldBatchesAreSilent(cells, batches[..|batches| - 1]);
      HeldBatchIsSilent(cells, batches[|batches| - 1]);
    }
  }

  /** Batches on different pairs, written twice, are written once. */
  lemma {:induction false} BatchesIdempotent(cells: map<Pair, Cell>, batches: seq<map<Pair, (Text, Hint)>>)
    requires Apart(batches)
    ensures BatchAll(BatchAll(cells, batches), batches) == BatchAll(cells, batches)
  {
    BatchesHold(cells, batches);
    HeldBatchesAreSilent(BatchAll(cells, batches), batches);
  }
}
