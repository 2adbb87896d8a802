/** What a committed write leaves of one row: of a branch, of a merge request. */
module Frames {
  import opened Wrappers
  import opened Schema
  import opened Statements
  import opened Service

  /** The writes that edit a branch, and re-open its approval. */
  predicate TouchesBranch(w: Write) {
    w.DraftKey? || w.PatchMeta? || w.EditValue?
  }

  function EditedBranch(s: State, w: Write): Branch
    requires Fits(s, w) && TouchesBranch(w)
  {
    if w.DraftKey? then
      PutMeta(s.branches[w.b], s.keys + [NewKeyRow(s.keys, w.meta)], |s.keys|, w.meta.(status := Active))
    else if w.PatchMeta? then PutMeta(s.branches[w.b], s.keys, w.k, w.meta)
    else PutValue(s.branches[w.b], s.cells, w.p, w.value, w.hint)
  }

  function BranchAfter(s: State, w: Write, b: nat): Branch
    requires Fits(s, w) && b < |s.branches|
  {
    if TouchesBranch(w) && w.b == b then EditedBranch(s, w).(lastEdited := Some(s.clock))
    else if w.MoveBranch? && w.b == b then s.branches[b].(status := w.status)
    else if w.Land? && w.b == b then s.branches[b].(status := BranchMerged)
    else s.branches[b]
  }

  function RequestAfter(s: State, w: Write, r: nat): Request
    requires Fits(s, w) && r < |s.requests|
  {
    var request := s.requests[r];
    if TouchesBranch(w) && Stale(request, w.b, Some(s.clock)) then request.(status := Opened, approvedAt := None)
    else if w.MoveRequest? && w.r == r then
      request.(status := w.next, approvedAt := if w.next.Approved? then Some(s.clock) else request.approvedAt)
    else if w.Decide? && w.r == r then request.(valueChoices := w.valueChoices, metaChoices := w.metaChoices)
    else if w.Land? && w.r == r then request.(status := RequestStatus.Merged)
    else request
  }

  lemma Touching(s: State, w: Write)
    requires Fits(s, w) && TouchesBranch(w)
    ensures Commit(s, w).branches == s.branches[w.b := EditedBranch(s, w).(lastEdited := Some(s.clock))]
    ensures Commit(s, w).requests == Invalidate(s.requests, w.b, Some(s.clock))
  {
    match w
    case DraftKey(_, _) =>
    case PatchMeta(_, _, _) =>
    case EditValue(_, _, _, _) =>
  }

  lemma Landing(s: State, b: nat, r: nat)
    requires b < |s.branches| && r < |s.requests|
    ensures Commit(s, Land(b, r)).branches == s.branches[b := s.branches[b].(status := BranchMerged)]
    ensures Commit(s, Land(b, r)).requests == s.requests[r := s.requests[r].(status := RequestStatus.Merged)]
    ensures Commit(s, Land(b, r)).keys == LandMetas(s.keys, s.branches[b].metas, LandingKeys(s, b, r))
    ensures Commit(s, Land(b, r)).cells == Landed(s, b, r).cells
  {
  }

  /** No other write edits a branch or moves a request. */
  lemma LeavingBranches(s: State, w: Write)
    requires Fits(s, w) && !TouchesBranch(w) && !w.MoveBranch? && !w.Land? && !w.AddBranch?
    ensures Commit(s, w).branches == s.branches
  {
  }

  lemma LeavingRequests(s: State, w: Write)
    requires Fits(s, w) && !TouchesBranch(w) && !w.MoveRequest? && !w.Decide? && !w.Land? && !w.AddRequest?
    ensures Commit(s, w).requests == s.requests
  {
  }

  lemma LeavingKeys(s: State, w: Write)
    requires Fits(s, w) && !w.AddKey? && !w.DraftKey? && !w.WriteKey? && !w.InsertKey? && !w.Land?
    ensures Commit(s, w).keys == s.keys
  {
  }

  lemma BranchCommitted(s: State, w: Write, b: nat)
    requires Fits(s, w) && b < |s.branches|
    ensures b < |Commit(s, w).branches| && Commit(s, w).branches[b] == BranchAfter(s, w, b)
  {
    if TouchesBranch(w) {
      Touching(s, w);
    } else if w.Land? {
      Landing(s, w.b, w.r);
    } else if !w.MoveBranch? && !w.AddBranch? {
      LeavingBranches(s, w);
    }
  }

  lemma BranchAdded(s: State, w: Write)
    requires Fits(s, w)
    ensures |Commit(s, w).branches| == |s.branches| + if w.AddBranch? then 1 else 0
    ensures w.AddBranch? ==> Commit(s, w).branches[|s.branches|] == Branch(w.name, BranchOpen, None, map[], map[])
  {
    if TouchesBranch(w) {
      Touching(s, w);
    } else if w.Land? {
      Landing(s, w.b, w.r);
    } else if !w.MoveBranch? && !w.AddBranch? {
      LeavingBranches(s, w);
    }
  }

  lemma RequestCommitted(s: State, w: Write, r: nat)
    requires Fits(s, w) && r < |s.requests|
    ensures r < |Commit(s, w).requests| && Commit(s, w).requests[r] == RequestAfter(s, w, r)
  {
    if TouchesBranch(w) {
      Touching(s, w);
    } else if w.Land? {
      Landing(s, w.b, w.r);
    } else if !w.MoveRequest? && !w.Decide? && !w.AddRequest? {
      LeavingRequests(s, w);
    }
  }

  lemma RequestAdded(s: State, w: Write)
    requires Fits(s, w)
    ensures |Commit(s, w).requests| == |s.requests| + if w.AddRequest? then 1 else 0
    ensures w.AddRequest? ==> Commit(s, w).requests[|s.requests|] == Request(w.b, Opened, None, map[], map[])
  {
    if TouchesBranch(w) {
      Touching(s, w);
    } else if w.Land? {
      Landing(s, w.b, w.r);
    } else if !w.MoveRequest? && !w.Decide? && !w.AddRequest? {
      LeavingRequests(s, w);
    }
  }
}
