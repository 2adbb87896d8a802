/** The review state machine over whole runs. */
module ReviewMachine {
  import opened Wrappers
  import opened Schema
  import opened Statements
  import opened Service
  import opened Frames
  import opened Invariants
  import opened Runs

  ghost predicate MergedRequest(requests: seq<Request>, r: nat) {
    r < |requests| && requests[r].status.Merged?
  }

  ghost predicate MergedBranch(branches: seq<Branch>, b: nat) {
    b < |branches| && branches[b].status.BranchMerged?
  }

  // ---- merged is final ---------------------------------------------------------

  lemma CommitKeepsMergedRequest(s: State, w: Write, r: nat)
    requires Legal(s, w) && MergedRequest(s.requests, r)
    ensures r < |Commit(s, w).requests| && Commit(s, w).requests[r] == s.requests[r]
  {
    RequestCommitted(s, w, r);
  }

  lemma CommitKeepsMergedBranch(s: State, w: Write, b: nat)
    requires Legal(s, w) && MergedBranch(s.branches, b)
    ensures b < |Commit(s, w).branches| && Commit(s, w).branches[b] == s.branches[b]
  {
    BranchCommitted(s, w, b);
  }

  /** Over every run: the row of a merged request is the same in every later state. */
  lemma {:induction false} MergedRequestIsFinal(trace: seq<State>, ops: seq<Op>, i: nat, j: nat, r: nat)
    requires Run(trace, ops) && i <= j < |trace| && MergedRequest(trace[i].requests, r)
    ensures r < |trace[j].requests| && trace[j].requests[r] == trace[i].requests[r]
    decreases j
  {
    if i < j {
      MergedRequestIsFinal(trace, ops, i, j - 1, r);
      RunKeepsInv(trace, ops, j - 1);
      assert Follows(trace, ops, j - 1);
      PlanLegal(trace[j - 1], ops[j - 1]);
      if Plan(trace[j - 1], ops[j - 1]).Success? {
        CommitKeepsMergedRequest(trace[j - 1], Plan(trace[j - 1], ops[j - 1]).value, r);
      }
    }
  }

  /** Over every run: so is the row of a merged branch, its deltas included. */
  lemma {:induction false} MergedBranchIsFinal(trace: seq<State>, ops: seq<Op>, i: nat, j: nat, b: nat)
    requires Run(trace, ops) && i <= j < |trace| && MergedBranch(trace[i].branches, b)
    ensures b < |trace[j].branches| && trace[j].branches[b] == trace[i].branches[b]
    decreases j
  {
    if i < j {
      MergedBranchIsFinal(trace, ops, i, j - 1, b);
      RunKeepsInv(trace, ops, j - 1);
      assert Follows(trace, ops, j - 1);
      PlanLegal(trace[j - 1], ops[j - 1]);
      if Plan(trace[j - 1], ops[j - 1]).Success? {
        CommitKeepsMergedBranch(trace[j - 1], Plan(trace[j - 1], ops[j - 1]).value, b);
      }
    }
  }

  // ---- every status change is one of the table's ---------------------------------------

  /** How a write moves a request: as a review decided, by an edit of its branch, or by its merge. */
  lemma CommitMoves(s: State, w: Write, r: nat)
    requires Legal(s, w) && r < |s.requests| && r < |Commit(s, w).requests|
    requires Commit(s, w).requests[r].status != s.requests[r].status
    ensures var (was, now) := (s.requests[r].status, Commit(s, w).requests[r].status);
            || w == MoveRequest(r, now)
            || (was.Approved? && now.Opened? && (w.DraftKey? || w.PatchMeta? || w.EditValue?)
                && w.b == s.requests[r].branch)
            || (was.Approved? && now.Merged? && w.Land? && w.r == r)
  {
    RequestCommitted(s, w, r);
  }

  lemma StepIsCommit(s: State, op: Op, r: nat)
    requires r < |s.requests| && r < |Step(s, op).requests| && Step(s, op).requests[r].status != s.requests[r].status
    ensures Plan(s, op).Success? && Step(s, op).requests == Commit(s, Plan(s, op).value).requests
  {
  }

  /** The table of review actions: where each may start and where it leads. */
  predicate Reviewed(was: RequestStatus, action: Action, now: RequestStatus) {
    match action
    case Approve => (was == Opened || was == ChangesRequested) && now == Approved
    case RequestChanges => (was == Opened || was == Approved) && now == ChangesRequested
    case Reject => (was == Opened || was == Approved || was == ChangesRequested) && now == Rejected
    case Close => (was == Opened || was == Approved || was == ChangesRequested) && now == Closed
    case Reopen => (was == Rejected || was == Closed) && now == Opened
  }

  lemma PlannedMove(s: State, op: Op, r: nat, now: RequestStatus)
    requires Plan(s, op) == Success(MoveRequest(r, now))
    ensures op.Review? && op.request == r && r < |s.requests| && Reviewed(s.requests[r].status, op.action, now)
  {
  }

  /** Another request of the branch that is still under review. */
  ghost predicate OtherUnderReview(requests: seq<Request>, r: nat) {
    exists q :: 0 <= q < |requests| && q != r && r < |requests| && requests[q].branch == requests[r].branch
                && (requests[q].status == Opened || requests[q].status == Approved
                    || requests[q].status == ChangesRequested)
  }

  /** A review goes through exactly from the states of the table, a reopening only while no
      other request of the branch is under review; it leaves the state of the table, an approval
      also its time, and changes nothing else. */
  lemma ReviewMoves(s: State, r: nat, action: Action)
    ensures Plan(s, Review(r, action)) ==
            if |s.requests| <= r then Failure(NotFound)
            else
              var was := s.requests[r].status;
              if action.Approve? && (was == Opened || was == ChangesRequested) then Success(MoveRequest(r, Approved))
              else if action.RequestChanges? && (was == Opened || was == Approved) then
                Success(MoveRequest(r, ChangesRequested))
              else if action.Reject? && (was == Opened || was == Approved || was == ChangesRequested) then
                Success(MoveRequest(r, Rejected))
              else if action.Close? && (was == Opened || was == Approved || was == ChangesRequested) then
                Success(MoveRequest(r, RequestStatus.Closed))
              else if action.Reopen? && (was == Rejected || was == RequestStatus.Closed) then
                if OtherUnderReview(s.requests, r) then Failure(LiveRequestExists) else Success(MoveRequest(r, Opened))
              else Failure(NotLive)
    ensures Plan(s, Review(r, action)).Success? ==>
              var was := s.requests[r];
              Step(s, Review(r, action)) == s.(clock := s.clock + 1, requests := s.requests[r :=
                match action
                case Approve => was.(status := Approved, approvedAt := Some(s.clock))
                case RequestChanges => was.(status := ChangesRequested)
                case Reject => was.(status := Rejected)
                case Close => was.(status := RequestStatus.Closed)
                case Reopen => was.(status := Opened)])
  {
    if r < |s.requests| && action.Reopen? {
      var was := s.requests[r];
      if was.status == Rejected || was.status == RequestStatus.Closed {
        assert FindLive(s.requests, was.branch).Some? <==> OtherUnderReview(s.requests, r);
      }
    }
  }

  /** A call changes a request's status in three ways only: a review action from a state the
      table allows to the state it names, an edit of the branch of an approved request, which
      re-opens it, and the merge of an approved request. */
  lemma {:induction false} StatusMoves(s: State, op: Op, r: nat)
    requires Inv(s) && r < |s.requests|
    requires r < |Step(s, op).requests| && Step(s, op).requests[r].status != s.requests[r].status
    ensures Plan(s, op).Success?
    ensures var (was, now, w) := (s.requests[r].status, Step(s, op).requests[r].status, Plan(s, op).value);
            || (op.Review? && op.request == r && Reviewed(was, op.action, now))
            || (was == Approved && now == Opened && (w.DraftKey? || w.PatchMeta? || w.EditValue?)
                && w.b == s.requests[r].branch)
            || (was == Approved && now == RequestStatus.Merged && op.Merge? && w.Land? && w.r == r)
  {
    PlanLegal(s, op);
    StepIsCommit(s, op, r);
    var w := Plan(s, op).value;
    CommitMoves(s, w, r);
    if w.MoveRequest? {
      PlannedMove(s, op, w.r, w.next);
    } else if w.Land? {
      PlannedLanding(s, op);
    }
  }

  lemma PlannedLanding(s: State, op: Op)
    requires Plan(s, op).Success? && Plan(s, op).value.Land?
    ensures op.Merge?
  {
  }

  lemma NewRequestIsOpen(s: State, op: Op, r: nat)
    requires |s.requests| <= r < |Step(s, op).requests|
    ensures op.CreateRequest? && Step(s, op).requests[r].status == Opened
  {
    if Plan(s, op).Success? {
      RequestAdded(s, Plan(s, op).value);
      if Plan(s, op).value.AddRequest? {
        PlannedRequest(s, op);
      }
    }
  }

  lemma PlannedRequest(s: State, op: Op)
    requires Plan(s, op).Success? && Plan(s, op).value.AddRequest?
    ensures op.CreateRequest?
  {
  }

  /** The call that leads to a status. */
  predicate LedTo(op: Op, r: nat, now: RequestStatus) {
    match now
    case Rejected => op == Review(r, Reject)
    case Closed => op == Review(r, Close)
    case ChangesRequested => op == Review(r, RequestChanges)
    case Approved => op == Review(r, Approve)
    case Merged => op.Merge?
    case Opened => true
  }

  /** Over every run: a request that has become rejected, closed or sent back did so by that
      action, one that has become approved by an approval, and one that has become merged by a
      merge. */
  lemma BecameByAction(trace: seq<State>, ops: seq<Op>, i: nat, r: nat)
    requires Run(trace, ops) && i < |ops| && r < |trace[i + 1].requests|
    requires r < |trace[i].requests| ==> trace[i].requests[r].status != trace[i + 1].requests[r].status
    ensures LedTo(ops[i], r, trace[i + 1].requests[r].status)
  {
    var s := StepBefore(trace, ops, i + 1);
    StepLedTo(s, ops[i], trace[i + 1], r);
  }

  lemma StepLedTo(s: State, op: Op, next: State, r: nat)
    requires Inv(s) && next == Step(s, op) && r < |next.requests|
    requires r < |s.requests| ==> s.requests[r].status != next.requests[r].status
    ensures LedTo(op, r, next.requests[r].status)
  {
    if r < |s.requests| {
      StatusMoves(s, op, r);
    } else {
      NewRequestIsOpen(s, op, r);
    }
  }

  // ---- merged requests and releases ----------------------------------------------

  ghost predicate ReleasedBy(releases: seq<Release>, i: nat, r: nat) {
    i < |releases| && releases[i].source == ByMerge(r)
  }

  /** Merged requests and releases of source 'merge' correspond one to one, and
      release numbers count up from 1. */
  ghost predicate ReleasesSound(releases: seq<Release>, requests: seq<Request>) {
    && (forall i :: 0 <= i < |releases| ==> releases[i].version == i + 1)
    && (forall i :: 0 <= i < |releases| && releases[i].source.ByMerge? ==>
          MergedRequest(requests, releases[i].source.request))
    && (forall i: nat, j: nat, r: nat :: ReleasedBy(releases, i, r) && ReleasedBy(releases, j, r) ==> i == j)
    && (forall r: nat :: MergedRequest(requests, r) ==> exists i: nat :: ReleasedBy(releases, i, r))
  }

  lemma {:induction false} HighestNumber(releases: seq<Release>)
    requires forall i :: 0 <= i < |releases| ==> releases[i].version == i + 1
    ensures MaxReleaseVersion(releases) == |releases|
  {
    if releases != [] {
      assert releases[|releases| - 1].version == |releases|;
    }
  }

  /** Only a merge makes a request merged. */
  lemma MergedByLanding(s: State, w: Write, r: nat)
    requires Legal(s, w) && !MergedRequest(s.requests, r) && MergedRequest(Commit(s, w).requests, r)
    ensures w.Land? && w.r == r
  {
    RequestAdded(s, w);
    if r < |s.requests| {
      RequestCommitted(s, w, r);
    }
  }

  /** The releases a write leaves: the old ones, a cut one after them, or one withheld. */
  lemma CommitReleases(s: State, w: Write)
    requires Fits(s, w)
    ensures var after := Commit(s, w).releases;
            && |s.releases| <= |after|
            && (forall i :: 0 <= i < |s.releases| ==>
                  after[i] == s.releases[i] || (w.Withhold? && after[i] == s.releases[i].(withheld := true)))
            && |after| == |s.releases| + (if w.Land? || w.CutRelease? then 1 else 0)
            && (w.Land? || w.CutRelease? ==>
                  !after[|s.releases|].withheld
                  && after[|s.releases|].version == MaxReleaseVersion(s.releases) + 1
                  && after[|s.releases|].source == if w.Land? then ByMerge(w.r) else ByPublish)
  {
  }

  /** Requests stay merged, and at most the landed one becomes so. */
  ghost predicate MoreMerged(before: seq<Request>, after: seq<Request>, landed: Option<nat>) {
    && (forall r: nat :: MergedRequest(before, r) ==> MergedRequest(after, r))
    && (forall r: nat :: MergedRequest(after, r) && !MergedRequest(before, r) ==> landed == Some(r))
    && (landed.Some? ==> !MergedRequest(before, landed.value) && MergedRequest(after, landed.value))
  }

  /** Releases keep their number and source, and a landing comes with its own. */
  ghost predicate MoreReleases(before: seq<Release>, after: seq<Release>, landed: Option<nat>) {
    && |before| <= |after| <= |before| + 1
    && (forall i :: 0 <= i < |before| ==> after[i].version == before[i].version && after[i].source == before[i].source)
    && (|after| == |before| + 1 ==>
          && after[|before|].version == |before| + 1
          && after[|before|].source == if landed.Some? then ByMerge(landed.value) else ByPublish)
    && (landed.Some? ==> |after| == |before| + 1)
  }

  /** One more release keeps the correspondence if a landing comes with its own. */
  lemma ExtendSound(releases: seq<Release>, requests: seq<Request>,
                    releases': seq<Release>, requests': seq<Request>, landed: Option<nat>)
    requires ReleasesSound(releases, requests)
    requires MoreMerged(requests, requests', landed) && MoreReleases(releases, releases', landed)
    ensures ReleasesSound(releases', requests')
  {
    var n := |releases|;
    forall i: nat, r: nat | ReleasedBy(releases', i, r)
      ensures if i < n then ReleasedBy(releases, i, r) && MergedRequest(requests, r) else i == n && landed == Some(r)
    {
    }
    forall r: nat | MergedRequest(requests', r)
      ensures exists i: nat :: ReleasedBy(releases', i, r)
    {
      if MergedRequest(requests, r) {
        var i: nat :| ReleasedBy(releases, i, r);
        assert ReleasedBy(releases', i, r);
      } else {
        assert ReleasedBy(releases', n, r);
      }
    }
  }

  /** The request a write lands. */
  function LandedRequest(w: Write): Option<nat> {
    if w.Land? then Some(w.r) else None
  }

  lemma CommitMerges(s: State, w: Write)
    requires Legal(s, w)
    ensures MoreMerged(s.requests, Commit(s, w).requests, LandedRequest(w))
  {
    var requests := Commit(s, w).requests;
    forall r: nat | MergedRequest(s.requests, r)
      ensures MergedRequest(requests, r)
    {
      CommitKeepsMergedRequest(s, w, r);
    }
    forall r: nat | MergedRequest(requests, r) && !MergedRequest(s.requests, r)
      ensures w.Land? && w.r == r
    {
      MergedByLanding(s, w, r);
    }
    if w.Land? {
      RequestCommitted(s, w, w.r);
    }
  }

  lemma CommitAddsReleases(s: State, w: Write)
    requires Fits(s, w) && forall i :: 0 <= i < |s.releases| ==> s.releases[i].version == i + 1
    ensures MoreReleases(s.releases, Commit(s, w).releases, LandedRequest(w))
  {
    CommitReleases(s, w);
    HighestNumber(s.releases);
  }

  lemma CommitKeepsReleases(s: State, w: Write)
    requires Legal(s, w) && ReleasesSound(s.releases, s.requests)
    ensures ReleasesSound(Commit(s, w).releases, Commit(s, w).requests)
  {
    CommitMerges(s, w);
    CommitAddsReleases(s, w);
    ExtendSound(s.releases, s.requests, Commit(s, w).releases, Commit(s, w).requests, LandedRequest(w));
  }

  /** Over every run: at most one live request per branch, and the correspondence
      between merged requests and merge releases. */
  lemma {:induction false} RunKeepsReleases(trace: seq<State>, ops: seq<Op>, i: nat)
    requires Run(trace, ops) && i < |trace|
    ensures OneLive(trace[i].requests) && ReleasesSound(trace[i].releases, trace[i].requests)
  {
    RunKeepsInv(trace, ops, i);
    if i > 0 {
      RunKeepsReleases(trace, ops, i - 1);
      RunKeepsInv(trace, ops, i - 1);
      assert Follows(trace, ops, i - 1);
      var s := trace[i - 1];
      PlanLegal(s, ops[i - 1]);
      if Plan(s, ops[i - 1]).Success? {
        CommitKeepsReleases(s, Plan(s, ops[i - 1]).value);
      }
    }
  }
}
