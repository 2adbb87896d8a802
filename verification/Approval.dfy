/** What was approved is what merges. */
module Approval {
  import opened Wrappers
  import opened Bytes
  import opened Schema
  import opened Statements
  import opened Service
  import opened Frames
  import opened Invariants
  import opened Runs
  import opened MergeMeaning

  /** Same value and metadata deltas. */
  ghost predicate SameDeltas(a: Branch, b: Branch) {
    a.values == b.values && a.metas == b.metas
  }

  ghost predicate ApprovedIn(s: State, r: nat) {
    r < |s.requests| && s.requests[r].status.Approved?
  }

  /** Every delta write re-opens the approval it makes stale. */
  lemma TouchReopens(s: State, b: nat, branch: Branch, r: nat)
    requires b < |s.branches| && ApprovedIn(s, r) && RequestSound(s, s.requests[r])
    ensures var t := Touched(s, b, branch);
            && |t.requests| == |s.requests| && |t.branches| == |s.branches|
            && t.requests[r].branch == s.requests[r].branch
            && if s.requests[r].branch == b then t.requests[r].status.Opened?
               else t.requests[r] == s.requests[r]
                    && t.branches[s.requests[r].branch] == s.branches[s.requests[r].branch]
  {
  }

  lemma CommitUnderApproval(s: State, w: Write, r: nat)
    requires Legal(s, w) && ApprovedIn(s, r) && RequestSound(s, s.requests[r]) && ApprovedIn(Commit(s, w), r)
    ensures var b := s.requests[r].branch;
            b < |Commit(s, w).branches| && Commit(s, w).requests[r].branch == b
            && SameDeltas(s.branches[b], Commit(s, w).branches[b])
  {
    RequestCommitted(s, w, r);
    BranchCommitted(s, w, s.requests[r].branch);
  }

  /** A request becomes approved in one way only, which touches no delta. */
  lemma ApprovingWrite(s: State, w: Write, r: nat)
    requires Fits(s, w) && !ApprovedIn(s, r) && ApprovedIn(Commit(s, w), r)
    ensures r < |s.requests| && w == MoveRequest(r, Approved)
  {
    RequestAdded(s, w);
    if r < |s.requests| {
      RequestCommitted(s, w, r);
    }
  }

  lemma PlannedApproval(s: State, op: Op, r: nat)
    requires Plan(s, op) == Success(MoveRequest(r, Approved))
    ensures op == Review(r, Approve)
  {
  }

  /** Request r is on branch b, and the branch holds the same deltas in both states. */
  ghost predicate SameOnBranch(s: State, t: State, r: nat, b: nat) {
    && r < |s.requests| && r < |t.requests| && s.requests[r].branch == b && t.requests[r].branch == b
    && b < |s.branches| && b < |t.branches| && SameDeltas(s.branches[b], t.branches[b])
  }

  /** While an approval stands, nobody has written to the branch. */
  lemma StandsAt(trace: seq<State>, ops: seq<Op>, i: nat, r: nat)
    requires Run(trace, ops) && i < |ops| && ApprovedIn(trace[i], r) && ApprovedIn(trace[i + 1], r)
    ensures SameOnBranch(trace[i], trace[i + 1], r, trace[i].requests[r].branch)
  {
    var s := trace[i];
    RunKeepsInv(trace, ops, i);
    assert Follows(trace, ops, i);
    assert RequestSound(s, s.requests[r]);
    PlanLegal(s, ops[i]);
    if Plan(s, ops[i]).Success? {
      CommitUnderApproval(s, Plan(s, ops[i]).value, r);
    }
  }

  lemma ApprovedAt(trace: seq<State>, ops: seq<Op>, i: nat, r: nat)
    requires Run(trace, ops) && i < |ops| && !ApprovedIn(trace[i], r) && ApprovedIn(trace[i + 1], r)
    ensures Commits(trace, ops, i, MoveRequest(r, Approved)) && ops[i] == Review(r, Approve)
    ensures SameOnBranch(trace[i], trace[i + 1], r, trace[i + 1].requests[r].branch)
  {
    var s := trace[i];
    RunKeepsInv(trace, ops, i);
    assert Follows(trace, ops, i);
    ApprovingWrite(s, Plan(s, ops[i]).value, r);
    PlannedApproval(s, ops[i], r);
    assert RequestSound(s, s.requests[r]);
  }

  /** Walk back from an approved state to the step that approved the request. */
  lemma {:induction false} FindApproval(trace: seq<State>, ops: seq<Op>, n: nat, r: nat) returns (j: nat)
    requires Run(trace, ops) && n < |trace| && ApprovedIn(trace[n], r)
    ensures j < n && Commits(trace, ops, j, MoveRequest(r, Approved)) && ops[j] == Review(r, Approve)
    ensures forall i :: j < i <= n ==> ApprovedIn(trace[i], r)
    ensures SameOnBranch(trace[j], trace[n], r, trace[n].requests[r].branch)
    decreases n
  {
    if ApprovedIn(trace[n - 1], r) {
      StandsAt(trace, ops, n - 1, r);
      j := FindApproval(trace, ops, n - 1, r);
    } else {
      ApprovedAt(trace, ops, n - 1, r);
      j := n - 1;
    }
  }

  /** Over every run: the deltas a successful merge lands are the ones its branch held
      when the request was approved, and the approval stood from then on. */
  lemma ApprovedIsMerged(trace: seq<State>, ops: seq<Op>, n: nat, b: nat, r: nat)
    requires Run(trace, ops) && Commits(trace, ops, n, Land(b, r))
    ensures exists j :: 0 <= j < n && ApprovedFrom(trace, ops, j, n, b, r)
  {
    RunKeepsInv(trace, ops, n);
    PlanLegal(trace[n], ops[n]);
    var j := FindApproval(trace, ops, n, r);
    assert ApprovedFrom(trace, ops, j, n, b, r);
  }

  /** Call j approved request r of branch b, and up to state n the approval stood
      over the same deltas. */
  ghost predicate ApprovedFrom(trace: seq<State>, ops: seq<Op>, j: nat, n: nat, b: nat, r: nat)
    requires j < n < |trace| && n <= |ops|
  {
    && Commits(trace, ops, j, MoveRequest(r, Approved))
    && ops[j] == Review(r, Approve)
    && (forall i :: j < i <= n ==> ApprovedIn(trace[i], r))
    && SameOnBranch(trace[j], trace[n], r, b)
  }

  // ---- the merge's own check ------------------------------------------------------------------

  /** Over every run no approval is older than its branch's last edit: the check inside the
      merge finds nothing. */
  lemma NeverStale(trace: seq<State>, ops: seq<Op>, n: nat, b: nat)
    requires Run(trace, ops) && n < |trace| && b < |trace[n].branches|
    ensures !ApprovalStale(trace[n], b)
  {
    var s := trace[n];
    RunKeepsInv(trace, ops, n);
    forall i | 0 <= i < |s.requests|
      ensures !Stale(s.requests[i], b, s.branches[b].lastEdited)
    {
      assert RequestSound(s, s.requests[i]);
    }
  }

  /** From any state, reachable or not: a merge fails with StaleApproval exactly when its branch
      has an approval older than its last edit, and then the request stays approved, for the
      error rolls its re-opening back. */
  lemma {:induction false} StaleMergeFails(s: State, name: Text, b: nat)
    requires FindBranch(s.branches, name) == Some(b)
    ensures Plan(s, Merge(name)) == Failure(StaleApproval) <==> ApprovalStale(s, b)
    ensures ApprovalStale(s, b) ==> Step(s, Merge(name)) == s.(clock := s.clock + 1)
  {
    MergePlanned(s, name);
    if CheckMerge(s, name).Success? {
      var (b, r) := CheckMerge(s, name).value;
      assert ApplyMerge(s, b, r, Ascending(|s.keys|, LandingKeys(s, b, r))) != Failure(StaleApproval);
    }
  }

  /** Such a state: an approval at 1 and an edit at 2. */
  lemma StaleMergeInput(name: Text)
    ensures var branch := Branch(name, BranchOpen, Some(2), map[], map[]);
            var request := Request(0, Approved, Some(1), map[], map[]);
            var s := State([], [], map[], map[], [branch], [request], [], 3);
            Plan(s, Merge(name)) == Failure(StaleApproval) && Step(s, Merge(name)).requests == [request]
  {
    var branch := Branch(name, BranchOpen, Some(2), map[], map[]);
    var request := Request(0, Approved, Some(1), map[], map[]);
    var s := State([], [], map[], map[], [branch], [request], [], 3);
    assert Stale(s.requests[0], 0, s.branches[0].lastEdited);
    assert FindBranch(s.branches, name) == Some(0);
    StaleMergeFails(s, name, 0);
  }
}
