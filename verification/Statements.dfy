/** What each SQL statement of the repositories selects or computes. */
module Statements {
  import opened Wrappers
  import opened Bytes
  import opened Schema

  // ---- translations ----------------------------------------------------------

  /** COALESCE(t.version, 0): the whole conflict rule rests on it. */
  function MasterVersion(cells: map<Pair, Cell>, p: Pair): nat {
    if p in cells then cells[p].version else 0
  }

  /** What a reader of a branch sees for one pair. */
  datatype Resolved = Resolved(value: Text, hint: Hint, found: bool, fromBranch: bool, masterVersion: nat)

  /** The copy-on-write read: the branch's delta if it has one, else master. */
  function Resolve(cells: map<Pair, Cell>, deltas: map<Pair, ValueDelta>, p: Pair): Resolved {
    var found := if p in deltas then deltas[p].value.Some? else p in cells;
    var value :=
      if p in deltas && deltas[p].value.Some? then deltas[p].value.value
      else if p in cells then cells[p].value
      else [];
    var hint := if p in deltas then deltas[p].hint else if p in cells then cells[p].hint else Plain;
    Resolved(if found then value else [], hint, found, p in deltas, MasterVersion(cells, p))
  }

  function Timeline(history: map<Pair, seq<Entry>>, p: Pair): seq<Entry> {
    if p in history then history[p] else []
  }

  /** INSERT INTO translation_history of at most one row per pair. */
  function Record(history: map<Pair, seq<Entry>>, rows: map<Pair, Entry>): map<Pair, seq<Entry>> {
    map p | p in history.Keys + rows.Keys ::
      if p in rows then Timeline(history, p) + [rows[p]] else history[p]
  }

  // ---- keys ------------------------------------------------------------------

  predicate HoldsName(row: KeyRow, name: Text) {
    row.meta.status.Active? && row.meta.name == name
  }

  /** Some active key holds the name: what the partial unique index refuses. */
  predicate NameTaken(keys: seq<KeyRow>, name: Text) {
    exists k :: 0 <= k < |keys| && HoldsName(keys[k], name)
  }

  predicate NameTakenByOther(keys: seq<KeyRow>, k: nat, name: Text) {
    exists j :: 0 <= j < |keys| && j != k && HoldsName(keys[j], name)
  }

  /** max(sort_index) over all keys, 0 when there is none. */
  function MaxSortIndex(keys: seq<KeyRow>): int {
    if keys == [] then 0
    else if |keys| == 1 then keys[0].sortIndex
    else
      var before := MaxSortIndex(keys[..|keys| - 1]);
      var last := keys[|keys| - 1].sortIndex;
      if before < last then last else before
  }

  function NewKeyRow(keys: seq<KeyRow>, meta: Meta): KeyRow {
    KeyRow(meta, 1, MaxSortIndex(keys) + 100, None)
  }

  /** Some row, active or not, holds the remote id: what the unique constraint on
      lokalise_key_id refuses. NULL never collides. */
  predicate RemoteIdTaken(keys: seq<KeyRow>, remoteId: Option<int>) {
    remoteId.Some? && exists k :: 0 <= k < |keys| && keys[k].remoteId == remoteId
  }

  // ---- branches --------------------------------------------------------------

  function FindBranch(branches: seq<Branch>, name: Text): (b: Option<nat>)
    ensures b.Some? ==> b.value < |branches| && branches[b.value].name == name
    ensures b.None? ==> forall i :: 0 <= i < |branches| ==> branches[i].name != name
  {
    if branches == [] then None
    else if branches[|branches| - 1].name == name then Some(|branches| - 1)
    else FindBranch(branches[..|branches| - 1], name)
  }

  /** The base version is captured when the branch first touches the pair, never later. */
  function PutValue(branch: Branch, cells: map<Pair, Cell>, p: Pair, value: Option<Text>, hint: Hint): Branch {
    var delta :=
      if p in branch.values then
        // removing keeps the hint column, which the statement does not assign
        ValueDelta(value, if value.Some? then hint else branch.values[p].hint, branch.values[p].base)
      else
        ValueDelta(value, if value.Some? then hint else Plain, MasterVersion(cells, p));
    branch.(values := branch.values[p := delta])
  }

  function PutMeta(branch: Branch, keys: seq<KeyRow>, k: nat, meta: Meta): Branch
    requires k < |keys|
  {
    var base := if k in branch.metas then branch.metas[k].base else keys[k].version;
    branch.(metas := branch.metas[k := MetaDelta(meta, base)])
  }

  /** The unique index on (branch_id, name) of branch_keys. */
  predicate DeltaNameTaken(branch: Branch, k: nat, name: Text) {
    exists j :: j in branch.metas && j != k && branch.metas[j].meta.name == name
  }

  // ---- merge requests --------------------------------------------------------

  predicate Live(status: RequestStatus) {
    !status.Merged? && !status.Closed? && !status.Rejected?
  }

  predicate LiveOn(request: Request, b: nat) {
    request.branch == b && Live(request.status)
  }

  function FindLive(requests: seq<Request>, b: nat): (r: Option<nat>)
    ensures r.Some? ==> r.value < |requests| && LiveOn(requests[r.value], b)
    ensures r.None? ==> forall i :: 0 <= i < |requests| ==> !LiveOn(requests[i], b)
  {
    if requests == [] then None
    else if LiveOn(requests[|requests| - 1], b) then Some(|requests| - 1)
    else FindLive(requests[..|requests| - 1], b)
  }

  /** An approval older than the branch's last edit. */
  predicate Stale(request: Request, b: nat, lastEdited: Option<nat>) {
    && request.branch == b
    && request.status.Approved?
    && lastEdited.Some?
    && request.approvedAt.Some?
    && request.approvedAt.value < lastEdited.value
  }

  /** Re-opens every stale approval of the branch. */
  function Invalidate(requests: seq<Request>, b: nat, lastEdited: Option<nat>): (r: seq<Request>)
    ensures |r| == |requests|
    ensures forall i :: 0 <= i < |requests| ==>
              r[i] == if Stale(requests[i], b, lastEdited)
                      then requests[i].(status := Opened, approvedAt := None) else requests[i]
  {
    seq(|requests|, i requires 0 <= i < |requests| =>
      if Stale(requests[i], b, lastEdited)
      then requests[i].(status := Opened, approvedAt := None)
      else requests[i])
  }

  // ---- conflicts and the guarded writes of a merge ----------------------------

  predicate Chose(choices: map<Pair, Choice>, p: Pair, choice: Choice) {
    p in choices && choices[p] == choice
  }

  predicate ChoseMeta(choices: map<nat, Choice>, k: nat, choice: Choice) {
    k in choices && choices[k] == choice
  }

  /** Master moved since the branch first touched the pair. */
  predicate ValueConflict(cells: map<Pair, Cell>, deltas: map<Pair, ValueDelta>, p: Pair)
    requires p in deltas
  {
    MasterVersion(cells, p) != deltas[p].base
  }

  predicate MetaConflict(keys: seq<KeyRow>, deltas: map<nat, MetaDelta>, k: nat)
    requires k in deltas && k < |keys|
  {
    keys[k].version != deltas[k].base
  }

  /** Conflicts: the pairs the conflict query returns. */
  function ValueConflicts(cells: map<Pair, Cell>, deltas: map<Pair, ValueDelta>): set<Pair> {
    set p | p in deltas && ValueConflict(cells, deltas, p)
  }

  function MetaConflicts(keys: seq<KeyRow>, deltas: map<nat, MetaDelta>): set<nat> {
    set k | k in deltas && k < |keys| && MetaConflict(keys, deltas, k)
  }

  /** Branch names that a different active master key already holds. */
  function NameCollisions(keys: seq<KeyRow>, deltas: map<nat, MetaDelta>): set<(nat, nat)> {
    set k, j | k in deltas && 0 <= j < |keys| && Collides(keys, deltas, k, j) :: (k, j)
  }

  predicate Collides(keys: seq<KeyRow>, deltas: map<nat, MetaDelta>, k: nat, j: nat)
    requires k in deltas && j < |keys|
  {
    deltas[k].meta.status.Active? && k != j && HoldsName(keys[j], deltas[k].meta.name)
  }

  /** A delta the merge means to land: all but a real conflict decided for master. */
  predicate ValueEligible(cells: map<Pair, Cell>, deltas: map<Pair, ValueDelta>, choices: map<Pair, Choice>, p: Pair)
    requires p in deltas
  {
    !(Chose(choices, p, Master) && ValueConflict(cells, deltas, p))
  }

  /** The version guard inside the writing statement. */
  predicate ValueApplicable(cells: map<Pair, Cell>, deltas: map<Pair, ValueDelta>, choices: map<Pair, Choice>, p: Pair)
    requires p in deltas
  {
    MasterVersion(cells, p) == deltas[p].base || Chose(choices, p, Mine)
  }

  predicate ValueLands(cells: map<Pair, Cell>, deltas: map<Pair, ValueDelta>, choices: map<Pair, Choice>, p: Pair)
    requires p in deltas
  {
    ValueEligible(cells, deltas, choices, p) && ValueApplicable(cells, deltas, choices, p)
  }

  function ValuesBlocked(cells: map<Pair, Cell>, deltas: map<Pair, ValueDelta>, choices: map<Pair, Choice>,
                         removed: bool): set<Pair> {
    set p | p in deltas && deltas[p].value.None? == removed
            && ValueEligible(cells, deltas, choices, p) && !ValueApplicable(cells, deltas, choices, p)
  }

  /** The pairs one of the two value statements writes. */
  function ValuesLanding(cells: map<Pair, Cell>, deltas: map<Pair, ValueDelta>, choices: map<Pair, Choice>,
                         removed: bool): set<Pair> {
    set p | p in deltas && deltas[p].value.None? == removed && ValueLands(cells, deltas, choices, p)
  }

  /** applyDeltasSQL: upsert every landing value, one version up. */
  function UpsertLanding(cells: map<Pair, Cell>, deltas: map<Pair, ValueDelta>, landing: set<Pair>): map<Pair, Cell>
    requires forall p :: p in landing ==> p in deltas && deltas[p].value.Some?
  {
    map p | p in cells.Keys + landing ::
      if p in landing then Cell(deltas[p].value.value, deltas[p].hint, MasterVersion(cells, p) + 1) else cells[p]
  }

  function UpsertHistory(cells: map<Pair, Cell>, deltas: map<Pair, ValueDelta>, landing: set<Pair>,
                         b: nat): map<Pair, Entry>
    requires forall p :: p in landing ==> p in deltas && deltas[p].value.Some?
  {
    map p | p in landing ::
      Entry(deltas[p].value, deltas[p].hint, MasterVersion(cells, p) + 1, FromMerge, Some(b))
  }

  /** removeDeltasSQL records only the rows it really deleted. */
  function RemoveHistory(cells: map<Pair, Cell>, landing: set<Pair>, b: nat): map<Pair, Entry> {
    map p | p in landing && p in cells ::
      Entry(None, cells[p].hint, cells[p].version, FromMerge, Some(b))
  }

  predicate MetaEligible(keys: seq<KeyRow>, deltas: map<nat, MetaDelta>, choices: map<nat, Choice>, k: nat)
    requires k in deltas && k < |keys|
  {
    !(ChoseMeta(choices, k, Master) && MetaConflict(keys, deltas, k))
  }

  predicate MetaApplicable(keys: seq<KeyRow>, deltas: map<nat, MetaDelta>, choices: map<nat, Choice>, k: nat)
    requires k in deltas && k < |keys|
  {
    keys[k].version == deltas[k].base || ChoseMeta(choices, k, Mine)
  }

  predicate MetaLands(keys: seq<KeyRow>, deltas: map<nat, MetaDelta>, choices: map<nat, Choice>, k: nat)
    requires k in deltas && k < |keys|
  {
    MetaEligible(keys, deltas, choices, k) && MetaApplicable(keys, deltas, choices, k)
  }

  function MetasBlocked(keys: seq<KeyRow>, deltas: map<nat, MetaDelta>, choices: map<nat, Choice>): set<nat> {
    set k | k in deltas && k < |keys|
            && MetaEligible(keys, deltas, choices, k) && !MetaApplicable(keys, deltas, choices, k)
  }

  function MetasLanding(keys: seq<KeyRow>, deltas: map<nat, MetaDelta>, choices: map<nat, Choice>): (ids: set<nat>)
    ensures forall k :: k in ids ==> k in deltas && k < |keys|
  {
    set k | k in deltas && k < |keys| && MetaLands(keys, deltas, choices, k)
  }

  function LandMeta(row: KeyRow, delta: MetaDelta): KeyRow {
    row.(meta := delta.meta, version := row.version + 1)
  }

  /** applyKeyMetaSQL's UPDATE, all rows at once. */
  function LandMetas(keys: seq<KeyRow>, deltas: map<nat, MetaDelta>, landing: set<nat>): (r: seq<KeyRow>)
    requires forall k :: k in landing ==> k in deltas
    ensures |r| == |keys|
    ensures forall k :: 0 <= k < |keys| ==>
              r[k] == if k in landing then LandMeta(keys[k], deltas[k]) else keys[k]
  {
    seq(|keys|, k requires 0 <= k < |keys| => if k in landing then LandMeta(keys[k], deltas[k]) else keys[k])
  }

  /** The same UPDATE as the database runs it: row by row in some scan order, the
      partial unique index checked after every row. None is a unique violation. */
  function UpdateInOrder(keys: seq<KeyRow>, deltas: map<nat, MetaDelta>, order: seq<nat>): Option<seq<KeyRow>>
    requires forall i :: 0 <= i < |order| ==> order[i] in deltas && order[i] < |keys|
    decreases |order|
  {
    if order == [] then Some(keys)
    else
      var k := order[0];
      var row := LandMeta(keys[k], deltas[k]);
      if row.meta.status.Active? && NameTakenByOther(keys, k, row.meta.name) then None
      else UpdateInOrder(keys[k := row], deltas, order[1..])
  }

  // ---- bundles and releases ---------------------------------------------------

  /** forExportSQL's row filter for one platform. */
  predicate Ships(row: KeyRow, platform: Platform) {
    row.meta.status.Active? && platform in row.meta.platforms
  }

  /** An untranslated pair exports as "". */
  function ExportValue(cells: map<Pair, Cell>, p: Pair): Text {
    if p in cells then cells[p].value else []
  }

  function ShippedNames(keys: seq<KeyRow>, platform: Platform): set<Text> {
    set k | 0 <= k < |keys| && Ships(keys[k], platform) :: keys[k].meta.name
  }

  /** The key that ships under a name; unique while active names are. */
  function Holder(keys: seq<KeyRow>, platform: Platform, name: Text): (k: nat)
    requires name in ShippedNames(keys, platform)
    ensures k < |keys| && Ships(keys[k], platform) && keys[k].meta.name == name
  {
    if Ships(keys[0], platform) && keys[0].meta.name == name then 0
    else 1 + Holder(keys[1..], platform, name)
  }

  /** The strings of one locale's bundle: name to value over the active flutter keys. */
  function BundleStrings(keys: seq<KeyRow>, cells: map<Pair, Cell>, l: nat): map<Text, Text> {
    map name | name in ShippedNames(keys, Flutter) ::
      ExportValue(cells, Pair(Holder(keys, Flutter, name), l))
  }

  /** max(version) over releases, 0 when there is none. */
  function MaxReleaseVersion(releases: seq<Release>): (v: nat)
    ensures forall i :: 0 <= i < |releases| ==> releases[i].version <= v
    ensures v == 0 || exists i :: 0 <= i < |releases| && releases[i].version == v
  {
    if releases == [] then 0
    else
      var before := MaxReleaseVersion(releases[..|releases| - 1]);
      var last := releases[|releases| - 1].version;
      if before < last then last else before
  }
}
