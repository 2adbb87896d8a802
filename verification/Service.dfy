/** The service's transactions as a state machine.

    Every transaction first decides, from the state it reads, either the one
    `Write` it will commit or the error that rolls it back. `Database` carries
    the same transactions out statement by statement.
  */
module Service {
  import opened Wrappers
  import opened Bytes
  import opened Schema
  import opened Statements

  datatype Error =
    | NotFound
    | BadRequest
    | BranchNotOpen
    | BranchNameTaken
    | KeyNameTaken
    | UniqueViolation
    | ForeignKeyViolation
    | EditConflict(theirs: Option<Cell>)
    | OptimisticLock
    | LiveRequestExists
    | NotLive
    | StaleApproval
    | NotApproved
    | Unresolved(values: set<Pair>, metas: set<nat>)
    | NameCollision(collisions: set<(nat, nat)>)
    | ConcurrentMasterWrite(blocked: nat)
    | AlreadyRolledBack

  datatype Action = Approve | RequestChanges | Reject | Reopen | Close

  /** A partial update: for the override columns "keep", "set" and "clear" differ. */
  datatype Override = Keep | Clear | Set(name: Text)

  datatype Patch = Patch(
    name: Option<Text>,
    description: Option<Text>,
    platforms: Option<seq<Platform>>,
    androidName: Override,
    iosName: Override)

  /** One human decision; no locale means a key-metadata conflict. */
  datatype Decision = Decision(key: nat, locale: Option<nat>, choice: Choice)

  /** A service call. Branch None addresses master. */
  datatype Op =
    | CreateBranch(name: Text)
    | TransitionBranch(name: Text, status: BranchStatus)
    | CreateKey(branch: Option<Text>, meta: Meta)
    | UpdateKey(branch: Option<Text>, key: nat, patch: Patch, baseVersion: Option<nat>)
    | DeleteKey(branch: Option<Text>, key: nat, baseVersion: Option<nat>)
    | SetTranslation(branch: Option<Text>, key: nat, locale: nat, value: Text, hint: Hint, baseVersion: Option<nat>)
    | DeleteTranslation(branch: Option<Text>, key: nat, locale: nat, baseVersion: Option<nat>)
    | CreateRequest(name: Text)
    | Review(request: nat, action: Action)
    | Resolving(request: nat, decisions: seq<Decision>)
    | Merge(name: Text)
    | Publish(floor: Option<seq<nat>>)
    | Rollback(version: nat)
    | UpsertKey(meta: Meta, sortIndex: int, remoteId: Option<int>)
    | UpsertCells(rows: map<Pair, (Text, Hint)>)

  /** What a committed transaction writes. */
  datatype Write =
    | Nothing
    | AddBranch(name: Text)
    | MoveBranch(b: nat, status: BranchStatus)
    | AddKey(meta: Meta)
    | DraftKey(b: nat, meta: Meta)
    | PatchMeta(b: nat, k: nat, meta: Meta)
    | WriteKey(k: nat, meta: Meta)
    | EditValue(b: nat, p: Pair, value: Option<Text>, hint: Hint)
    | WriteCell(p: Pair, text: Text, hint: Hint)
    | DropCell(p: Pair)
    | AddRequest(b: nat)
    | MoveRequest(r: nat, next: RequestStatus)
    | Decide(r: nat, valueChoices: map<Pair, Choice>, metaChoices: map<nat, Choice>)
    | Land(b: nat, r: nat)
    | CutRelease(floor: Option<seq<nat>>)
    | Withhold(version: nat)
    | InsertKey(meta: Meta, sortIndex: int, remoteId: Option<int>)
    | WriteCells(rows: map<Pair, (Text, Hint)>)

  /** The branch and request a write names exist. */
  predicate Fits(s: State, w: Write) {
    match w
    case MoveBranch(b, _) => b < |s.branches|
    case DraftKey(b, _) => b < |s.branches|
    case PatchMeta(b, k, _) => b < |s.branches| && k < |s.keys|
    case WriteKey(k, _) => k < |s.keys|
    case EditValue(b, _, _, _) => b < |s.branches|
    case MoveRequest(r, _) => r < |s.requests|
    case Decide(r, _, _) => r < |s.requests|
    case Land(b, r) => b < |s.branches| && r < |s.requests|
    case _ => true
  }

  // ---- key service -----------------------------------------------------------

  /** An open branch by name; None stays master. */
  function OpenBranch(s: State, name: Option<Text>): (r: Result<Option<nat>, Error>)
    ensures r.Success? && r.value.Some? ==>
              r.value.value < |s.branches| && s.branches[r.value.value].status == BranchOpen
  {
    if name.None? then Success(None)
    else
      var b := FindBranch(s.branches, name.value);
      if b.None? then Failure(NotFound)
      else if s.branches[b.value].status != BranchOpen then Failure(BranchNotOpen)
      else Success(b)
  }

  function PlanCreateKey(s: State, branch: Option<Text>, meta: Meta): Result<Write, Error> {
    var b :- OpenBranch(s, branch);
    if NameTaken(s.keys, meta.name) then Failure(KeyNameTaken)
    else if b.None? then Success(AddKey(meta.(status := Active)))
    else if DeltaNameTaken(s.branches[b.value], |s.keys|, meta.name) then Failure(UniqueViolation)
    else Success(DraftKey(b.value, meta.(status := Draft)))
  }

  function Overridden(current: Option<Text>, o: Override): Option<Text> {
    match o
    case Keep => current
    case Clear => None
    case Set(name) => Some(name)
  }

  function ApplyPatch(base: Meta, patch: Patch): Meta {
    Meta(
      if patch.name.Some? then patch.name.value else base.name,
      if patch.description.Some? then patch.description.value else base.description,
      if patch.platforms.Some? then patch.platforms.value else base.platforms,
      Overridden(base.androidName, patch.androidName),
      Overridden(base.iosName, patch.iosName),
      base.status)
  }

  /** A metadata delta, unless the branch already uses the name for another key. */
  function PlanPatchMeta(s: State, b: nat, k: nat, meta: Meta): Result<Write, Error>
    requires b < |s.branches|
  {
    if DeltaNameTaken(s.branches[b], k, meta.name) then Failure(UniqueViolation)
    else Success(PatchMeta(b, k, meta))
  }

  function PlanUpdateKey(s: State, branch: Option<Text>, k: nat, patch: Patch,
                         baseVersion: Option<nat>): Result<Write, Error> {
    var b :- OpenBranch(s, branch);
    if |s.keys| <= k then Failure(NotFound)
    else if b.Some? then
      var metas := s.branches[b.value].metas;
      PlanPatchMeta(s, b.value, k, ApplyPatch(if k in metas then metas[k].meta else s.keys[k].meta, patch))
    else
      var meta := ApplyPatch(s.keys[k].meta, patch);
      var expected := if baseVersion.Some? then baseVersion.value else 0;
      if expected != 0 && s.keys[k].version != expected then Failure(OptimisticLock)
      else if meta.status.Active? && NameTakenByOther(s.keys, k, meta.name) then Failure(KeyNameTaken)
      else Success(WriteKey(k, meta))
  }

  function PlanDeleteKey(s: State, branch: Option<Text>, k: nat, baseVersion: Option<nat>): Result<Write, Error> {
    var b :- OpenBranch(s, branch);
    if |s.keys| <= k then Failure(NotFound)
    else
      var marked := s.keys[k].meta.(status := Deleted);
      if b.Some? then PlanPatchMeta(s, b.value, k, marked)
      else
        var expected := if baseVersion.Some? then baseVersion.value else 0;
        if expected != 0 && s.keys[k].version != expected then Failure(OptimisticLock)
        else if s.keys[k].meta.status.Deleted? then Failure(NotFound)
        else Success(WriteKey(k, marked))
  }

  function CellAt(s: State, p: Pair): Option<Cell> {
    if p in s.cells then Some(s.cells[p]) else None
  }

  function PlanSetTranslation(s: State, branch: Option<Text>, k: nat, l: nat, value: Text, hint: Hint,
                              baseVersion: Option<nat>): Result<Write, Error> {
    var b :- OpenBranch(s, branch);
    var p := Pair(k, l);
    if l !in s.locales then Failure(BadRequest)
    else if |s.keys| <= k then Failure(NotFound)
    else if s.keys[k].meta.status.Deleted? then Failure(BadRequest)
    else if b.Some? then
      if baseVersion.Some? then Failure(BadRequest)
      else Success(EditValue(b.value, p, Some(value), hint))
    else if baseVersion.None? then Failure(BadRequest)
    else if MasterVersion(s.cells, p) != baseVersion.value then Failure(EditConflict(CellAt(s, p)))
    else Success(WriteCell(p, value, hint))
  }

  function PlanDeleteTranslation(s: State, branch: Option<Text>, k: nat, l: nat,
                                 baseVersion: Option<nat>): Result<Write, Error> {
    var b :- OpenBranch(s, branch);
    var p := Pair(k, l);
    if l !in s.locales then Failure(BadRequest)
    else if |s.keys| <= k then Failure(NotFound)
    else if b.Some? then
      if baseVersion.Some? then Failure(BadRequest)
      else if !Resolve(s.cells, s.branches[b.value].values, p).found then Failure(NotFound)
      else Success(EditValue(b.value, p, None, Plain))
    else if p !in s.cells then Failure(NotFound)
    else if baseVersion.Some? && baseVersion.value != s.cells[p].version then Failure(EditConflict(CellAt(s, p)))
    else Success(DropCell(p))
  }

  // ---- branch service --------------------------------------------------------

  function PlanCreateBranch(s: State, name: Text): Result<Write, Error> {
    if FindBranch(s.branches, name).Some? then Failure(BranchNameTaken) else Success(AddBranch(name))
  }

  /** Close and Reopen; only these two target states exist. */
  function PlanTransition(s: State, name: Text, status: BranchStatus): Result<Write, Error> {
    var b := FindBranch(s.branches, name);
    if status == BranchMerged then Failure(BadRequest)
    else if b.None? then Failure(NotFound)
    else if s.branches[b.value].status == BranchMerged then Failure(BranchNotOpen)
    else if s.branches[b.value].status == status then Success(Nothing)
    else Success(MoveBranch(b.value, status))
  }

  // ---- review workflow -------------------------------------------------------

  function PlanCreateRequest(s: State, name: Text): Result<Write, Error> {
    var b := FindBranch(s.branches, name);
    if b.None? then Failure(NotFound)
    else if s.branches[b.value].status != BranchOpen then Failure(NotLive)
    else if FindLive(s.requests, b.value).Some? then Failure(LiveRequestExists)
    else Success(AddRequest(b.value))
  }

  /** The transition table: where an action leads. */
  function Target(action: Action): RequestStatus {
    match action
    case Approve => Approved
    case RequestChanges => ChangesRequested
    case Reject => Rejected
    case Reopen => Opened
    case Close => Closed
  }

  /** The transition table: where an action may start. */
  function AllowedFrom(action: Action): set<RequestStatus> {
    match action
    case Approve => {Opened, ChangesRequested}
    case RequestChanges => {Opened, Approved}
    case Reject => {Opened, Approved, ChangesRequested}
    case Close => {Opened, Approved, ChangesRequested}
    case Reopen => {Rejected, Closed}
  }

  function PlanReview(s: State, r: nat, action: Action): Result<Write, Error> {
    if |s.requests| <= r then Failure(NotFound)
    else if s.requests[r].status !in AllowedFrom(action) then Failure(NotLive)
    else if action.Reopen? && FindLive(s.requests, s.requests[r].branch).Some? then Failure(LiveRequestExists)
    else Success(MoveRequest(r, Target(action)))
  }

  /** Every decision must settle a conflict that exists. */
  predicate Decidable(s: State, r: nat, d: Decision)
    requires r < |s.requests| && s.requests[r].branch < |s.branches|
  {
    var branch := s.branches[s.requests[r].branch];
    if d.locale.None? then d.key in MetaConflicts(s.keys, branch.metas)
    else d.locale.value in s.locales && Pair(d.key, d.locale.value) in ValueConflicts(s.cells, branch.values)
  }

  function DecideValues(choices: map<Pair, Choice>, decisions: seq<Decision>): map<Pair, Choice> {
    if decisions == [] then choices
    else
      var before := DecideValues(choices, decisions[..|decisions| - 1]);
      var d := decisions[|decisions| - 1];
      if d.locale.None? then before else before[Pair(d.key, d.locale.value) := d.choice]
  }

  function DecideMetas(choices: map<nat, Choice>, decisions: seq<Decision>): map<nat, Choice> {
    if decisions == [] then choices
    else
      var before := DecideMetas(choices, decisions[..|decisions| - 1]);
      var d := decisions[|decisions| - 1];
      if d.locale.Some? then before else before[d.key := d.choice]
  }

  function PlanResolve(s: State, r: nat, decisions: seq<Decision>): Result<Write, Error> {
    if decisions == [] then Failure(BadRequest)
    else if |s.requests| <= r || |s.branches| <= s.requests[r].branch then Failure(NotFound)
    else if !Live(s.requests[r].status) then Failure(NotLive)
    else if exists i :: 0 <= i < |decisions| && !Decidable(s, r, decisions[i]) then Failure(BadRequest)
    else Success(Decide(r, DecideValues(s.requests[r].valueChoices, decisions),
                        DecideMetas(s.requests[r].metaChoices, decisions)))
  }

  // ---- merge -----------------------------------------------------------------

  /** Some approval on the branch is older than its last edit. */
  predicate ApprovalStale(s: State, b: nat)
    requires b < |s.branches|
  {
    exists i :: 0 <= i < |s.requests| && Stale(s.requests[i], b, s.branches[b].lastEdited)
  }

  /** Conflicting pairs without a stored decision. */
  function UndecidedValues(s: State, b: nat, r: nat): set<Pair>
    requires b < |s.branches| && r < |s.requests|
  {
    set p | p in ValueConflicts(s.cells, s.branches[b].values) && p !in s.requests[r].valueChoices
  }

  function UndecidedMetas(s: State, b: nat, r: nat): set<nat>
    requires b < |s.branches| && r < |s.requests|
  {
    set k | k in MetaConflicts(s.keys, s.branches[b].metas) && k !in s.requests[r].metaChoices
  }

  /** Steps 1 to 4 of a merge: every refusal decided before anything is written. */
  function CheckMerge(s: State, name: Text): (c: Result<(nat, nat), Error>)
    ensures c.Success? ==> c.value.0 < |s.branches| && c.value.1 < |s.requests|
    ensures c.Success? ==> s.requests[c.value.1].branch == c.value.0 && s.requests[c.value.1].status == Approved
  {
    var found := FindBranch(s.branches, name);
    if found.None? then Failure(NotFound)
    else
      var b := found.value;
      if ApprovalStale(s, b) then Failure(StaleApproval)
      else
        var live := FindLive(s.requests, b);
        if live.None? then Failure(NotFound)
        else
          var r := live.value;
          if s.requests[r].status != Approved then Failure(NotApproved)
          else if UndecidedValues(s, b, r) != {} || UndecidedMetas(s, b, r) != {} then
            Failure(Unresolved(UndecidedValues(s, b, r), UndecidedMetas(s, b, r)))
          else if NameCollisions(s.keys, s.branches[b].metas) != {} then
            Failure(NameCollision(NameCollisions(s.keys, s.branches[b].metas)))
          else Success((b, r))
  }

  /** The key rows the metadata statement updates. */
  function LandingKeys(s: State, b: nat, r: nat): (ids: set<nat>)
    requires b < |s.branches| && r < |s.requests|
    ensures forall k :: k in ids ==> k in s.branches[b].metas && k < |s.keys|
  {
    MetasLanding(s.keys, s.branches[b].metas, s.requests[r].metaChoices)
  }

  /** Steps 5 to 7: each writing statement re-checks its own guard. The rows of the
      metadata UPDATE are visited in `order`. */
  function ApplyMerge(s: State, b: nat, r: nat, order: seq<nat>): Result<Write, Error>
    requires b < |s.branches| && r < |s.requests|
    requires forall i :: 0 <= i < |order| ==> order[i] in LandingKeys(s, b, r)
  {
    var branch := s.branches[b];
    var request := s.requests[r];
    var keysBlocked := MetasBlocked(s.keys, branch.metas, request.metaChoices);
    var putsBlocked := ValuesBlocked(s.cells, branch.values, request.valueChoices, false);
    var dropsBlocked := ValuesBlocked(s.cells, branch.values, request.valueChoices, true);
    assert forall i :: 0 <= i < |order| ==>
             var k := order[i]; k in LandingKeys(s, b, r) && k in branch.metas && k < |s.keys|;
    if UpdateInOrder(s.keys, branch.metas, order).None? then Failure(UniqueViolation)
    else if keysBlocked != {} then Failure(ConcurrentMasterWrite(|keysBlocked|))
    else if putsBlocked != {} then Failure(ConcurrentMasterWrite(|putsBlocked|))
    else if dropsBlocked != {} then Failure(ConcurrentMasterWrite(|dropsBlocked|))
    else if request.status != Approved then Failure(NotLive)
    else Success(Land(b, r))
  }

  /** The ids of a set in ascending order, one possible scan order. */
  function Ascending(n: nat, ids: set<nat>): (order: seq<nat>)
    ensures forall i :: 0 <= i < |order| ==> order[i] in ids && order[i] < n
    ensures forall k :: k in ids && k < n ==> k in order
    ensures forall i, j :: 0 <= i < j < |order| ==> order[i] != order[j]
  {
    if n == 0 then []
    else if n - 1 in ids then Ascending(n - 1, ids) + [n - 1]
    else Ascending(n - 1, ids)
  }

  function PlanMerge(s: State, name: Text): Result<Write, Error> {
    var c :- CheckMerge(s, name);
    ApplyMerge(s, c.0, c.1, Ascending(|s.keys|, LandingKeys(s, c.0, c.1)))
  }

  // ---- releases --------------------------------------------------------------

  function PlanRollback(s: State, version: nat): Result<Write, Error> {
    if version == 0 then Failure(BadRequest)
    else if exists i :: 0 <= i < |s.releases| && s.releases[i].version == version && !s.releases[i].withheld then
      Success(Withhold(version))
    else if exists i :: 0 <= i < |s.releases| && s.releases[i].version == version then Failure(AlreadyRolledBack)
    else Failure(NotFound)
  }

  // ---- seed and import --------------------------------------------------------

  function Distinct(platforms: set<Platform>): seq<Platform> {
    (if Android in platforms then [Android] else [])
    + (if Flutter in platforms then [Flutter] else [])
    + (if Ios in platforms then [Ios] else [])
  }

  /** ARRAY(SELECT DISTINCT unnest(a || b) ORDER BY 1) */
  function Accumulated(a: seq<Platform>, b: seq<Platform>): seq<Platform> {
    Distinct(set p | p in a + b)
  }

  function Upserted(current: Meta, excluded: Meta): Meta {
    current.(
      description := if excluded.description == [] then current.description else excluded.description,
      platforms := Accumulated(current.platforms, excluded.platforms),
      androidName := if excluded.androidName.Some? then excluded.androidName else current.androidName,
      iosName := if excluded.iosName.Some? then excluded.iosName else current.iosName)
  }

  function ActiveKey(keys: seq<KeyRow>, name: Text): (k: Option<nat>)
    ensures k.Some? ==> k.value < |keys| && HoldsName(keys[k.value], name)
    ensures k.None? ==> !NameTaken(keys, name)
  {
    if keys == [] then None
    else if HoldsName(keys[|keys| - 1], name) then Some(|keys| - 1)
    else ActiveKey(keys[..|keys| - 1], name)
  }

  /** UpsertByName of an active key: an unchanged row keeps its version. The conflict
      target is the name, so a remote id some other row holds refuses the insert. */
  function PlanUpsertKey(s: State, meta: Meta, sortIndex: int, remoteId: Option<int>): Result<Write, Error> {
    var k := ActiveKey(s.keys, meta.name);
    if k.None? then
      if RemoteIdTaken(s.keys, remoteId) then Failure(UniqueViolation)
      else Success(InsertKey(meta.(status := Active), sortIndex, remoteId))
    else
      var current := s.keys[k.value].meta;
      if Upserted(current, meta) == current then Success(Nothing)
      else Success(WriteKey(k.value, Upserted(current, meta)))
  }

  function PlanUpsertCells(s: State, rows: map<Pair, (Text, Hint)>): Result<Write, Error> {
    if exists p :: p in rows && |s.keys| <= p.key then Failure(ForeignKeyViolation) else Success(WriteCells(rows))
  }

  // ---- transactions ------------------------------------------------------------

  function Plan(s: State, op: Op): (w: Result<Write, Error>)
    ensures w.Success? ==> Fits(s, w.value)
  {
    match op
    case CreateBranch(name) => PlanCreateBranch(s, name)
    case TransitionBranch(name, status) => PlanTransition(s, name, status)
    case CreateKey(branch, meta) => PlanCreateKey(s, branch, meta)
    case UpdateKey(branch, k, patch, base) => PlanUpdateKey(s, branch, k, patch, base)
    case DeleteKey(branch, k, base) => PlanDeleteKey(s, branch, k, base)
    case SetTranslation(branch, k, l, value, hint, base) => PlanSetTranslation(s, branch, k, l, value, hint, base)
    case DeleteTranslation(branch, k, l, base) => PlanDeleteTranslation(s, branch, k, l, base)
    case CreateRequest(name) => PlanCreateRequest(s, name)
    case Review(r, action) => PlanReview(s, r, action)
    case Resolving(r, decisions) => PlanResolve(s, r, decisions)
    case Merge(name) => PlanMerge(s, name)
    case Publish(floor) => Success(CutRelease(floor))
    case Rollback(version) => PlanRollback(s, version)
    case UpsertKey(meta, sortIndex, remoteId) => PlanUpsertKey(s, meta, sortIndex, remoteId)
    case UpsertCells(rows) => PlanUpsertCells(s, rows)
  }

  function MergedValue(cells: map<Pair, Cell>, p: Pair, value: Text, hint: Hint): Cell {
    Cell(value, hint, MasterVersion(cells, p) + 1)
  }

  /** One row of UpsertBatch: if value and hint are already right it keeps its version. */
  function Batched(cells: map<Pair, Cell>, rows: map<Pair, (Text, Hint)>, p: Pair): Cell
    requires p in rows
  {
    if p in cells && cells[p].value == rows[p].0 && cells[p].hint == rows[p].1 then cells[p]
    else MergedValue(cells, p, rows[p].0, rows[p].1)
  }

  function BatchWritten(cells: map<Pair, Cell>, rows: map<Pair, (Text, Hint)>): map<Pair, Cell> {
    map p | p in cells.Keys + rows.Keys :: if p in rows then Batched(cells, rows, p) else cells[p]
  }

  /** A branch write: store the branch, bump last_edited_at, re-open a stale approval. */
  function Touched(s: State, b: nat, branch: Branch): State
    requires b < |s.branches|
  {
    var edited := branch.(lastEdited := Some(s.clock));
    s.(branches := s.branches[b := edited], requests := Invalidate(s.requests, b, edited.lastEdited))
  }

  function Bundles(s: State): map<nat, Bundle> {
    map l | l in s.locales ::
      var strings := BundleStrings(s.keys, s.cells, l);
      Bundle(strings, |strings|)
  }

  /** Number and materialise a release of master's current state. */
  function Cut(s: State, source: ReleaseSource, floor: Option<seq<nat>>): State {
    s.(releases := s.releases + [Release(MaxReleaseVersion(s.releases) + 1, source, floor, false, Bundles(s))])
  }

  function WithheldRelease(release: Release, version: nat): Release {
    if release.version == version && !release.withheld then release.(withheld := true) else release
  }

  /** Master after the three writing statements of a merge. */
  function Landed(s: State, b: nat, r: nat): State
    requires b < |s.branches| && r < |s.requests|
  {
    var branch := s.branches[b];
    var request := s.requests[r];
    var metas := LandingKeys(s, b, r);
    var puts := ValuesLanding(s.cells, branch.values, request.valueChoices, false);
    var drops := ValuesLanding(s.cells, branch.values, request.valueChoices, true);
    var upserted := UpsertLanding(s.cells, branch.values, puts);
    s.(keys := LandMetas(s.keys, branch.metas, metas),
       cells := upserted - drops,
       history := Record(Record(s.history, UpsertHistory(s.cells, branch.values, puts, b)),
                         RemoveHistory(upserted, drops, b)))
  }

  function CloseOut(s: State, b: nat, r: nat): State
    requires b < |s.branches| && r < |s.requests|
  {
    s.(requests := s.requests[r := s.requests[r].(status := RequestStatus.Merged)],
       branches := s.branches[b := s.branches[b].(status := BranchMerged)])
  }

  function Commit(s: State, w: Write): State
    requires Fits(s, w)
  {
    match w
    case Nothing => s
    case AddBranch(name) => s.(branches := s.branches + [Branch(name, BranchOpen, None, map[], map[])])
    case MoveBranch(b, status) => s.(branches := s.branches[b := s.branches[b].(status := status)])
    case AddKey(meta) => s.(keys := s.keys + [NewKeyRow(s.keys, meta)])
    case DraftKey(b, meta) =>
      var drafted := s.(keys := s.keys + [NewKeyRow(s.keys, meta)]);
      Touched(drafted, b, PutMeta(s.branches[b], drafted.keys, |s.keys|, meta.(status := Active)))
    case PatchMeta(b, k, meta) => Touched(s, b, PutMeta(s.branches[b], s.keys, k, meta))
    case WriteKey(k, meta) => s.(keys := s.keys[k := s.keys[k].(meta := meta, version := s.keys[k].version + 1)])
    case EditValue(b, p, value, hint) =>
      var entry := Entry(value, hint, MasterVersion(s.cells, p), FromUi, Some(b));
      Touched(s, b, PutValue(s.branches[b], s.cells, p, value, hint))
        .(history := Record(s.history, map[p := entry]))
    case WriteCell(p, value, hint) =>
      var cell := MergedValue(s.cells, p, value, hint);
      s.(cells := s.cells[p := cell],
         history := Record(s.history, map[p := Entry(Some(value), hint, cell.version, FromUi, None)]))
    case DropCell(p) =>
      if p in s.cells then
        s.(cells := s.cells - {p},
           history := Record(s.history, map[p := Entry(None, s.cells[p].hint, s.cells[p].version, FromUi, None)]))
      else s
    case AddRequest(b) => s.(requests := s.requests + [Request(b, Opened, None, map[], map[])])
    case MoveRequest(r, status) =>
      var request := s.requests[r];
      var approvedAt := if status.Approved? then Some(s.clock) else request.approvedAt;
      s.(requests := s.requests[r := request.(status := status, approvedAt := approvedAt)])
    case Decide(r, valueChoices, metaChoices) =>
      s.(requests := s.requests[r := s.requests[r].(valueChoices := valueChoices, metaChoices := metaChoices)])
    case Land(b, r) => CloseOut(Cut(Landed(s, b, r), ByMerge(r), None), b, r)
    case CutRelease(floor) => Cut(s, ByPublish, floor)
    case Withhold(version) =>
      s.(releases := seq(|s.releases|, i requires 0 <= i < |s.releases| => WithheldRelease(s.releases[i], version)))
    case InsertKey(meta, sortIndex, remoteId) => s.(keys := s.keys + [KeyRow(meta, 1, sortIndex, remoteId)])
    case WriteCells(rows) => s.(cells := BatchWritten(s.cells, rows))
  }

  /** One transaction: commit the planned write or roll back, then time moves on. */
  function Step(s: State, op: Op): State {
    var w := Plan(s, op);
    (if w.Success? then Commit(s, w.value) else s).(clock := s.clock + 1)
  }
}
