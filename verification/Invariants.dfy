/** What every reachable state of the service keeps. */
module Invariants {
  import opened Wrappers
  import opened Bytes
  import opened Schema
  import opened Statements
  import opened Service
  import opened Frames

  predicate BothActive(a: KeyRow, b: KeyRow) {
    a.meta.status.Active? && b.meta.status.Active?
  }

  /** At most one active key per name: the partial unique index on keys. */
  ghost predicate NamesUnique(keys: seq<KeyRow>) {
    forall i, j | 0 <= i < |keys| && 0 <= j < |keys| && i != j && BothActive(keys[i], keys[j]) ::
      keys[i].meta.name != keys[j].meta.name
  }

  /** Deltas name existing keys, were based on a version the key has had, and
      no two deltas of one branch use one name. */
  ghost predicate MetasSound(keys: seq<KeyRow>, metas: map<nat, MetaDelta>) {
    && (forall k :: k in metas ==> k < |keys| && metas[k].base <= keys[k].version)
    && (forall i, j :: i in metas && j in metas && i != j ==> metas[i].meta.name != metas[j].meta.name)
  }

  ghost predicate BranchSound(s: State, branch: Branch) {
    && MetasSound(s.keys, branch.metas)
    && (branch.lastEdited.Some? ==> branch.lastEdited.value < s.clock)
  }

  /** An approved request was approved in the past and not before the last edit. */
  ghost predicate RequestSound(s: State, request: Request) {
    && request.branch < |s.branches|
    && (request.status.Approved? ==>
          && request.approvedAt.Some? && request.approvedAt.value < s.clock
          && var edited := s.branches[request.branch].lastEdited;
             edited.Some? ==> edited.value <= request.approvedAt.value)
  }

  predicate LiveTogether(a: Request, b: Request) {
    a.branch == b.branch && Live(a.status) && Live(b.status)
  }

  /** At most one live merge request per branch. */
  ghost predicate OneLive(requests: seq<Request>) {
    forall i, j | 0 <= i < |requests| && 0 <= j < |requests| && i != j :: !LiveTogether(requests[i], requests[j])
  }

  ghost predicate Inv(s: State) {
    && NamesUnique(s.keys)
    && (forall b :: 0 <= b < |s.branches| ==> BranchSound(s, s.branches[b]))
    && RequestsSound(s)
    && OneLive(s.requests)
  }

  /** What the checks of a transaction establish about the write it plans. */
  ghost predicate Legal(s: State, w: Write) {
    && Fits(s, w)
    && match w
       case MoveBranch(b, status) => s.branches[b].status != BranchMerged && status != BranchMerged
       case AddKey(meta) => meta.status.Active? && !NameTaken(s.keys, meta.name)
       case InsertKey(meta, _, remoteId) =>
         meta.status.Active? && !NameTaken(s.keys, meta.name) && !RemoteIdTaken(s.keys, remoteId)
       case DraftKey(b, meta) =>
         s.branches[b].status == BranchOpen && meta.status.Draft? && !DeltaNameTaken(s.branches[b], |s.keys|, meta.name)
       case PatchMeta(b, k, meta) =>
         s.branches[b].status == BranchOpen && !DeltaNameTaken(s.branches[b], k, meta.name)
       case WriteKey(k, meta) => meta.status.Active? ==> !NameTakenByOther(s.keys, k, meta.name)
       case EditValue(b, _, _, _) => s.branches[b].status == BranchOpen
       case AddRequest(b) => b < |s.branches| && FindLive(s.requests, b).None?
       case MoveRequest(r, next) =>
         && !s.requests[r].status.Merged? && !next.Merged?
         && (next.Approved? ==> Live(s.requests[r].status) && !s.requests[r].status.Approved?)
         && (Live(next) && !Live(s.requests[r].status) ==> FindLive(s.requests, s.requests[r].branch).None?)
       case Decide(r, _, _) => Live(s.requests[r].status)
       case Land(b, r) =>
         && s.requests[r].branch == b && s.requests[r].status.Approved? && !ApprovalStale(s, b)
         && FindLive(s.requests, b) == Some(r)
         && UndecidedValues(s, b, r) == {} && UndecidedMetas(s, b, r) == {}
         && NameCollisions(s.keys, s.branches[b].metas) == {}
       case _ => true
  }

  /** A write to a key the upsert found active keeps names unique. */
  lemma ActiveKeyIsUnique(keys: seq<KeyRow>, k: nat, name: Text)
    requires NamesUnique(keys) && k < |keys| && HoldsName(keys[k], name)
    ensures !NameTakenByOther(keys, k, name)
  {
  }

  lemma MergeLegal(s: State, name: Text)
    requires CheckMerge(s, name).Success?
    ensures Legal(s, Land(CheckMerge(s, name).value.0, CheckMerge(s, name).value.1))
  {
  }

  lemma PlannedMerge(s: State, name: Text)
    requires PlanMerge(s, name).Success?
    ensures CheckMerge(s, name).Success?
    ensures PlanMerge(s, name).value == Land(CheckMerge(s, name).value.0, CheckMerge(s, name).value.1)
  {
  }

  lemma UpsertLegal(s: State, meta: Meta, sortIndex: int, remoteId: Option<int>)
    requires NamesUnique(s.keys) && PlanUpsertKey(s, meta, sortIndex, remoteId).Success?
    ensures Legal(s, PlanUpsertKey(s, meta, sortIndex, remoteId).value)
  {
    var k := ActiveKey(s.keys, meta.name);
    if k.Some? {
      ActiveKeyIsUnique(s.keys, k.value, meta.name);
    }
  }

  lemma PlanKeyLegal(s: State, op: Op)
    requires op.CreateKey? || op.UpdateKey? || op.DeleteKey?
    ensures Plan(s, op).Success? ==> Legal(s, Plan(s, op).value)
  {
    match op
    case CreateKey(branch, meta) =>
    case UpdateKey(branch, k, patch, base) =>
    case DeleteKey(branch, k, base) =>
  }

  lemma PlanRequestLegal(s: State, op: Op)
    requires op.CreateRequest? || op.Review? || op.Resolving?
    ensures Plan(s, op).Success? ==> Legal(s, Plan(s, op).value)
  {
    match op
    case CreateRequest(name) =>
    case Review(r, action) =>
    case Resolving(r, decisions) =>
  }

  lemma PlanMergeLegal(s: State, name: Text)
    ensures Plan(s, Merge(name)).Success? ==> Legal(s, Plan(s, Merge(name)).value)
  {
    if PlanMerge(s, name).Success? {
      PlannedMerge(s, name);
      MergeLegal(s, name);
    }
  }

  lemma PlanOtherLegal(s: State, op: Op)
    requires op.CreateBranch? || op.TransitionBranch? || op.SetTranslation? || op.DeleteTranslation?
             || op.Publish? || op.Rollback? || op.UpsertCells?
    ensures Plan(s, op).Success? ==> Legal(s, Plan(s, op).value)
  {
  }

  lemma PlanLegal(s: State, op: Op)
    requires NamesUnique(s.keys)
    ensures Plan(s, op).Success? ==> Legal(s, Plan(s, op).value)
  {
    if op.CreateKey? || op.UpdateKey? || op.DeleteKey? {
      PlanKeyLegal(s, op);
    } else if op.CreateRequest? || op.Review? || op.Resolving? {
      PlanRequestLegal(s, op);
    } else if op.Merge? {
      PlanMergeLegal(s, op.name);
    } else if op.UpsertKey? {
      if Plan(s, op).Success? {
        UpsertLegal(s, op.meta, op.sortIndex, op.remoteId);
      }
    } else {
      PlanOtherLegal(s, op);
    }
  }

  // ---- names -------------------------------------------------------------------

  lemma NoCollision(keys: seq<KeyRow>, metas: map<nat, MetaDelta>, k: nat, j: nat)
    requires NameCollisions(keys, metas) == {}
    requires k in metas && j < |keys|
    ensures !Collides(keys, metas, k, j)
  {
    assert (k, j) !in NameCollisions(keys, metas);
  }

  /** No collision with master and distinct names on the branch: a landing row never
      meets another active key of its name, whichever other rows have landed. */
  lemma LandedNamesUnique(keys: seq<KeyRow>, metas: map<nat, MetaDelta>, landed: set<nat>)
    requires NamesUnique(keys) && MetasSound(keys, metas)
    requires NameCollisions(keys, metas) == {}
    requires landed <= metas.Keys
    ensures NamesUnique(LandMetas(keys, metas, landed))
  {
    var after := LandMetas(keys, metas, landed);
    forall i, j | 0 <= i < |keys| && 0 <= j < |keys| && i != j && BothActive(after[i], after[j])
      ensures after[i].meta.name != after[j].meta.name
    {
      if i in landed {
        NoCollision(keys, metas, i, j);
      }
      if j in landed {
        NoCollision(keys, metas, j, i);
      }
    }
  }

  lemma AppendKeepsNames(keys: seq<KeyRow>, row: KeyRow)
    requires NamesUnique(keys) && (row.meta.status.Active? ==> !NameTaken(keys, row.meta.name))
    ensures NamesUnique(keys + [row])
  {
  }

  lemma RewriteKeepsNames(keys: seq<KeyRow>, k: nat, row: KeyRow)
    requires NamesUnique(keys) && k < |keys| && (row.meta.status.Active? ==> !NameTakenByOther(keys, k, row.meta.name))
    ensures NamesUnique(keys[k := row])
  {
  }

  lemma NewKeysKeepNames(s: State, w: Write)
    requires Inv(s) && Legal(s, w) && (w.AddKey? || w.InsertKey? || w.DraftKey?)
    ensures NamesUnique(Commit(s, w).keys)
  {
    var next := Commit(s, w).keys;
    AppendKeepsNames(s.keys, next[|s.keys|]);
  }

  lemma WriteKeyKeepsNames(s: State, k: nat, meta: Meta)
    requires Inv(s) && Legal(s, WriteKey(k, meta))
    ensures NamesUnique(Commit(s, WriteKey(k, meta)).keys)
  {
    RewriteKeepsNames(s.keys, k, s.keys[k].(meta := meta, version := s.keys[k].version + 1));
  }

  lemma LandKeepsNames(s: State, b: nat, r: nat)
    requires Inv(s) && Legal(s, Land(b, r))
    ensures NamesUnique(Commit(s, Land(b, r)).keys)
  {
    Landing(s, b, r);
    assert BranchSound(s, s.branches[b]);
    LandedNamesUnique(s.keys, s.branches[b].metas, LandingKeys(s, b, r));
  }

  lemma CommitKeepsNames(s: State, w: Write)
    requires Inv(s) && Legal(s, w)
    ensures NamesUnique(Commit(s, w).keys)
  {
    if w.AddKey? || w.InsertKey? || w.DraftKey? {
      NewKeysKeepNames(s, w);
    } else if w.WriteKey? {
      WriteKeyKeepsNames(s, w.k, w.meta);
    } else if w.Land? {
      LandKeepsNames(s, w.b, w.r);
    } else {
      LeavingKeys(s, w);
    }
  }

  // ---- branches ----------------------------------------------------------------

  /** Key rows are never removed and their versions never fall. */
  lemma CommitGrowsKeys(s: State, w: Write)
    requires Fits(s, w)
    ensures |s.keys| <= |Commit(s, w).keys|
    ensures forall k :: 0 <= k < |s.keys| ==>
              var next := Commit(s, w).keys[k];
              next == s.keys[k] || next.version == s.keys[k].version + 1
  {
  }

  /** A delta's base is the version of its key at first touch. */
  lemma PutMetaSound(keys: seq<KeyRow>, branch: Branch, k: nat, meta: Meta)
    requires k < |keys| && MetasSound(keys, branch.metas) && !DeltaNameTaken(branch, k, meta.name)
    ensures MetasSound(keys, PutMeta(branch, keys, k, meta).metas)
  {
  }

  ghost predicate Grows(before: seq<KeyRow>, after: seq<KeyRow>) {
    && |before| <= |after|
    && forall k :: 0 <= k < |before| ==> before[k].version <= after[k].version
  }

  lemma MetasStaySound(before: seq<KeyRow>, after: seq<KeyRow>, metas: map<nat, MetaDelta>)
    requires MetasSound(before, metas) && Grows(before, after)
    ensures MetasSound(after, metas)
  {
  }

  ghost predicate AllMetasSound(s: State) {
    forall b :: 0 <= b < |s.branches| ==> MetasSound(s.keys, s.branches[b].metas)
  }

  /** One branch is given sound deltas, the others keep theirs over a grown key table. */
  lemma MetasAfter(s: State, next: State, d: nat)
    requires AllMetasSound(s) && Grows(s.keys, next.keys)
    requires |s.branches| <= |next.branches| && (d < |next.branches| ==> MetasSound(next.keys, next.branches[d].metas))
    requires forall b :: 0 <= b < |next.branches| && b != d ==>
               next.branches[b].metas == if b < |s.branches| then s.branches[b].metas else map[]
    ensures AllMetasSound(next)
  {
    forall b | 0 <= b < |next.branches| && b != d
      ensures MetasSound(next.keys, next.branches[b].metas)
    {
      if b < |s.branches| {
        assert MetasSound(s.keys, s.branches[b].metas);
        MetasStaySound(s.keys, next.keys, s.branches[b].metas);
      }
    }
  }

  lemma DraftKeepsMetas(s: State, d: nat, meta: Meta)
    requires Inv(s) && Legal(s, DraftKey(d, meta))
    ensures AllMetasSound(Commit(s, DraftKey(d, meta)))
  {
    var next := Commit(s, DraftKey(d, meta));
    MetasBefore(s);
    MetasStaySound(s.keys, next.keys, s.branches[d].metas);
    PutMetaSound(next.keys, s.branches[d], |s.keys|, meta.(status := Active));
    MetasAfter(s, next, d);
  }

  lemma PatchKeepsMetas(s: State, d: nat, k: nat, meta: Meta)
    requires Inv(s) && Legal(s, PatchMeta(d, k, meta))
    ensures AllMetasSound(Commit(s, PatchMeta(d, k, meta)))
  {
    MetasBefore(s);
    PutMetaSound(s.keys, s.branches[d], k, meta);
    MetasAfter(s, Commit(s, PatchMeta(d, k, meta)), d);
  }

  /** No other write touches a metadata delta. */
  lemma MetasLeftAlone(s: State, w: Write)
    requires Fits(s, w) && !w.DraftKey? && !w.PatchMeta?
    ensures |s.branches| <= |Commit(s, w).branches|
    ensures forall b :: 0 <= b < |Commit(s, w).branches| ==>
              Commit(s, w).branches[b].metas == if b < |s.branches| then s.branches[b].metas else map[]
  {
    BranchAdded(s, w);
    forall b | 0 <= b < |s.branches|
      ensures Commit(s, w).branches[b].metas == s.branches[b].metas
    {
      BranchCommitted(s, w, b);
    }
  }

  lemma GrownKeys(s: State, w: Write)
    requires Fits(s, w)
    ensures Grows(s.keys, Commit(s, w).keys)
  {
    CommitGrowsKeys(s, w);
  }

  lemma OtherKeepsMetas(s: State, w: Write)
    requires Inv(s) && Legal(s, w) && !w.DraftKey? && !w.PatchMeta?
    ensures AllMetasSound(Commit(s, w))
  {
    MetasBefore(s);
    GrownKeys(s, w);
    MetasLeftAlone(s, w);
    MetasAfter(s, Commit(s, w), |Commit(s, w).branches|);
  }

  lemma CommitKeepsMetas(s: State, w: Write)
    requires Inv(s) && Legal(s, w)
    ensures AllMetasSound(Commit(s, w))
  {
    match w
    case DraftKey(d, meta) => DraftKeepsMetas(s, d, meta);
    case PatchMeta(d, k, meta) => PatchKeepsMetas(s, d, k, meta);
    case _ => OtherKeepsMetas(s, w);
  }

  lemma MetasBefore(s: State)
    requires Inv(s)
    ensures AllMetasSound(s)
  {
    forall b | 0 <= b < |s.branches|
      ensures MetasSound(s.keys, s.branches[b].metas)
    {
      assert BranchSound(s, s.branches[b]);
    }
  }

  /** The branch rows a write leaves: the old ones, edited now at most, and new ones unedited. */
  lemma CommitEdits(s: State, w: Write)
    requires Fits(s, w)
    ensures |s.branches| <= |Commit(s, w).branches|
    ensures forall b :: 0 <= b < |Commit(s, w).branches| ==>
              var edited := Commit(s, w).branches[b].lastEdited;
              if b < |s.branches| then edited == s.branches[b].lastEdited || edited == Some(s.clock) else edited == None
  {
    BranchAdded(s, w);
    forall b | 0 <= b < |s.branches|
      ensures Commit(s, w).branches[b].lastEdited == BranchAfter(s, w, b).lastEdited
    {
      BranchCommitted(s, w, b);
    }
  }

  // ---- requests ------------------------------------------------------------------

  ghost predicate RequestsSound(s: State) {
    forall r :: 0 <= r < |s.requests| ==> RequestSound(s, s.requests[r])
  }

  /** An edit makes exactly the approvals of its branch stale, and re-opens those; any other
      write leaves the branch unedited, and approves only at the current time. */
  lemma RequestStaysSound(s: State, w: Write, r: nat, branches: seq<Branch>)
    requires Edited(s) && RequestsSound(s) && Legal(s, w) && r < |s.requests|
    requires |s.branches| <= |branches| && branches[s.requests[r].branch] == BranchAfter(s, w, s.requests[r].branch)
    ensures RequestSound(s.(branches := branches, clock := s.clock + 1), RequestAfter(s, w, r))
  {
    assert RequestSound(s, s.requests[r]);
  }

  lemma CommitKeepsRequests(s: State, w: Write)
    requires Inv(s) && Legal(s, w)
    ensures RequestsSound(Commit(s, w).(clock := s.clock + 1))
  {
    var next := Commit(s, w).(clock := s.clock + 1);
    EditedBefore(s);
    BranchAdded(s, w);
    RequestAdded(s, w);
    forall r | 0 <= r < |next.requests|
      ensures RequestSound(next, next.requests[r])
    {
      if r < |s.requests| {
        assert RequestSound(s, s.requests[r]);
        RequestCommitted(s, w, r);
        BranchCommitted(s, w, s.requests[r].branch);
        RequestStaysSound(s, w, r, next.branches);
      }
    }
  }

  lemma EditedBefore(s: State)
    requires Inv(s)
    ensures Edited(s)
  {
    forall b | 0 <= b < |s.branches|
      ensures BranchSound(s, s.branches[b])
    {
    }
  }

  /** A request comes alive only on a branch with no other live request. */
  lemma RequestComesAlive(s: State, w: Write, r: nat, other: nat)
    requires Legal(s, w) && r < |s.requests| && other < |s.requests| && other != r && OneLive(s.requests)
    requires Live(RequestAfter(s, w, r).status) && !Live(s.requests[r].status)
    ensures !LiveOn(s.requests[other], s.requests[r].branch) && !LiveOn(RequestAfter(s, w, other), s.requests[r].branch)
  {
    assert w.MoveRequest? && w.r == r;
  }

  lemma PairStaysOne(s: State, w: Write, i: nat, j: nat)
    requires Legal(s, w) && i < |s.requests| && j < |s.requests| && i != j && OneLive(s.requests)
    ensures !LiveTogether(RequestAfter(s, w, i), RequestAfter(s, w, j))
  {
    assert !LiveTogether(s.requests[i], s.requests[j]);
    if Live(RequestAfter(s, w, i).status) && !Live(s.requests[i].status) {
      RequestComesAlive(s, w, i, j);
    }
    if Live(RequestAfter(s, w, j).status) && !Live(s.requests[j].status) {
      RequestComesAlive(s, w, j, i);
    }
  }

  lemma NewRequestIsAlone(s: State, w: Write, i: nat)
    requires Legal(s, w) && w.AddRequest? && i < |s.requests|
    ensures !LiveOn(RequestAfter(s, w, i), w.b)
  {
  }

  lemma CommitKeepsOneLive(s: State, w: Write)
    requires Inv(s) && Legal(s, w)
    ensures OneLive(Commit(s, w).requests)
  {
    var next := Commit(s, w).requests;
    RequestAdded(s, w);
    forall i, j | 0 <= i < |next| && 0 <= j < |next| && i != j
      ensures !LiveTogether(next[i], next[j])
    {
      if i < |s.requests| {
        RequestCommitted(s, w, i);
      }
      if j < |s.requests| {
        RequestCommitted(s, w, j);
      }
      if i < |s.requests| && j < |s.requests| {
        PairStaysOne(s, w, i, j);
      } else {
        NewRequestIsAlone(s, w, if i < j then i else j);
      }
    }
  }

  ghost predicate Edited(s: State) {
    forall b :: 0 <= b < |s.branches| && s.branches[b].lastEdited.Some? ==> s.branches[b].lastEdited.value < s.clock
  }

  lemma InvOf(s: State)
    requires NamesUnique(s.keys) && OneLive(s.requests) && Edited(s)
    requires AllMetasSound(s) && RequestsSound(s)
    ensures Inv(s)
  {
  }

  lemma CommitKeepsEdited(s: State, w: Write)
    requires Inv(s) && Legal(s, w)
    ensures Edited(Commit(s, w).(clock := s.clock + 1))
  {
    CommitEdits(s, w);
    EditedBefore(s);
  }

  lemma CommitKeepsInv(s: State, w: Write)
    requires Inv(s) && Legal(s, w)
    ensures Inv(Commit(s, w).(clock := s.clock + 1))
  {
    CommitKeepsNames(s, w);
    CommitKeepsMetas(s, w);
    CommitKeepsEdited(s, w);
    CommitKeepsRequests(s, w);
    CommitKeepsOneLive(s, w);
    InvOf(Commit(s, w).(clock := s.clock + 1));
  }

  lemma RollbackKeepsInv(s: State)
    requires Inv(s)
    ensures Inv(s.(clock := s.clock + 1))
  {
    var next := s.(clock := s.clock + 1);
    forall r | 0 <= r < |next.requests|
      ensures RequestSound(next, next.requests[r])
    {
      assert RequestSound(s, s.requests[r]);
    }
    forall b | 0 <= b < |next.branches|
      ensures BranchSound(next, next.branches[b])
    {
      assert BranchSound(s, s.branches[b]);
    }
  }

  lemma StepKeepsInv(s: State, op: Op)
    requires Inv(s)
    ensures Inv(Step(s, op))
  {
    PlanLegal(s, op);
    if Plan(s, op).Success? {
      CommitKeepsInv(s, Plan(s, op).value);
    } else {
      RollbackKeepsInv(s);
    }
  }
}
