/** Rows of the localisation database, for the one project the service runs.

    Keys, branches and merge requests are never deleted, so each of those tables
    is a sequence indexed by row id. A translation row can disappear, so that
    table is a map. Branch deltas are kept inside their branch and conflict
    decisions inside their merge request: both tables lead with that foreign key.
  */
module Schema {
  import opened Wrappers
  import opened Bytes

  /** One (key, locale) pair. */
  datatype Pair = Pair(key: nat, locale: nat)

  datatype Hint = Plain | Cdata

  datatype Platform = Android | Flutter | Ios

  datatype KeyStatus = Active | Draft | Deleted

  /** The columns of `keys` that a branch delta can override. */
  datatype Meta = Meta(
    name: Text,
    description: Text,
    platforms: seq<Platform>,
    androidName: Option<Text>,
    iosName: Option<Text>,
    status: KeyStatus)

  /** versions carry CHECK (version > 0); zero stands for "no row". */
  type Version = v: int | 0 < v witness 1

  /** A row of `keys`; an imported key carries the id it has at the remote project. */
  datatype KeyRow = KeyRow(meta: Meta, version: Version, sortIndex: int, remoteId: Option<int>)

  /** A row of `translations`; its absence means untranslated. */
  datatype Cell = Cell(value: Text, hint: Hint, version: Version)

  /** A row of `branch_translations`; a NULL value is a tombstone. */
  datatype ValueDelta = ValueDelta(value: Option<Text>, hint: Hint, base: nat)

  /** A row of `branch_keys`. */
  datatype MetaDelta = MetaDelta(meta: Meta, base: nat)

  datatype BranchStatus = BranchOpen | BranchMerged | BranchClosed

  datatype Branch = Branch(
    name: Text,
    status: BranchStatus,
    lastEdited: Option<nat>,
    values: map<Pair, ValueDelta>,
    metas: map<nat, MetaDelta>)

  datatype RequestStatus = Opened | Approved | ChangesRequested | Rejected | Merged | Closed

  datatype Choice = Mine | Master

  /** A merge request with its stored conflict decisions. */
  datatype Request = Request(
    branch: nat,
    status: RequestStatus,
    approvedAt: Option<nat>,
    valueChoices: map<Pair, Choice>,
    metaChoices: map<nat, Choice>)

  datatype Source = FromUi | FromMerge

  /** A row of `translation_history`; a NULL value means "became untranslated". */
  datatype Entry = Entry(value: Option<Text>, hint: Hint, version: nat, source: Source, branch: Option<nat>)

  datatype Bundle = Bundle(strings: map<Text, Text>, keyCount: nat)

  datatype ReleaseSource = ByMerge(request: nat) | ByPublish

  datatype Release = Release(
    version: nat,
    source: ReleaseSource,
    floor: Option<seq<nat>>,
    withheld: bool,
    bundles: map<nat, Bundle>)

  /** The whole database. `history` keeps one timeline per pair, oldest first;
      `clock` is the value now() has in the next transaction. */
  datatype State = State(
    locales: seq<nat>,
    keys: seq<KeyRow>,
    cells: map<Pair, Cell>,
    history: map<Pair, seq<Entry>>,
    branches: seq<Branch>,
    requests: seq<Request>,
    releases: seq<Release>,
    clock: nat)
}
