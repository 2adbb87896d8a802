/** The service's transactions carried out statement by statement over the tables.

    Inside `WithTransaction` each body reads and writes the tables as its source
    does, and a body that returns an error has its writes rolled back. Every body
    is proved to do what `Service` plans; every run of `WithTransaction` is
    therefore a run of `Service`.
  */
module Databases {
  import opened Wrappers
  import opened Bytes
  import opened Schema
  import opened Statements
  import opened Service
  import opened Invariants
  import opened MergeGap
  import opened MergeMeaning
  import opened Bundling
  import opened Runs

  /** A body that ran from `begun` to `now` did what the service plans. */
  ghost predicate Ran(begun: State, op: Op, failed: Option<Error>, now: State) {
    match Plan(begun, op)
    case Failure(e) => failed == Some(e)
    case Success(w) => failed == None && now == Commit(begun, w)
  }

  lemma RanIsStep(begun: State, op: Op, failed: Option<Error>, now: State)
    requires Ran(begun, op, failed, now)
    ensures Step(begun, op) == (if failed.Some? then begun else now).(clock := begun.clock + 1)
  {
  }

  class Database {
    const locales: seq<nat>
    var keys: seq<KeyRow>
    var cells: map<Pair, Cell>
    var history: map<Pair, seq<Entry>>
    var branches: seq<Branch>
    var requests: seq<Request>
    var releases: seq<Release>
    var clock: nat

    function Contents(): State
      reads this
    {
      State(locales, keys, cells, history, branches, requests, releases, clock)
    }

    ghost predicate Valid()
      reads this
    {
      Inv(Contents())
    }

    constructor (locales: seq<nat>)
      ensures Valid() && Initial(Contents()) && this.locales == locales
    {
      this.locales := locales;
      keys, cells, history := [], map[], map[];
      branches, requests, releases := [], [], [];
      clock := 0;
    }

    // ---- transactions ----------------------------------------------------------

    /** Runs one service call: all of its writes, or none of them. */
    method WithTransaction(op: Op) returns (failed: Option<Error>)
      requires Valid()
      modifies this
      ensures Valid() && Contents() == Step(old(Contents()), op)
      ensures failed == match Plan(old(Contents()), op) case Success(_) => None case Failure(e) => Some(e)
    {
      var begun := Contents();
      failed := Perform(op);
      RanIsStep(begun, op, failed, Contents());
      if failed.Some? {
        keys, cells, history := begun.keys, begun.cells, begun.history;
        branches, requests, releases := begun.branches, begun.requests, begun.releases;
      }
      clock := begun.clock + 1;
      StepKeepsInv(begun, op);
    }

    method Perform(op: Op) returns (failed: Option<Error>)
      requires Valid()
      modifies this
      ensures Ran(old(Contents()), op, failed, Contents())
    {
      match op {
        case CreateBranch(name) => failed := CreateBranch(name);
        case TransitionBranch(name, status) => failed := TransitionBranch(name, status);
        case CreateKey(branch, meta) => failed := CreateKey(branch, meta);
        case UpdateKey(branch, k, patch, base) => failed := UpdateKey(branch, k, patch, base);
        case DeleteKey(branch, k, base) => failed := DeleteKey(branch, k, base);
        case SetTranslation(branch, k, l, value, hint, base) =>
          failed := SetTranslation(branch, k, l, value, hint, base);
        case DeleteTranslation(branch, k, l, base) => failed := DeleteTranslation(branch, k, l, base);
        case CreateRequest(name) => failed := CreateRequest(name);
        case Review(r, action) => failed := ReviewRequest(r, action);
        case Resolving(r, decisions) => failed := ResolveConflicts(r, decisions);
        case Merge(name) => failed := MergeBranch(name);
        case Publish(floor) => failed := PublishRelease(floor);
        case Rollback(version) => failed := RollbackRelease(version);
        case UpsertKey(meta, sortIndex, remoteId) => failed := UpsertByName(meta, sortIndex, remoteId);
        case UpsertCells(rows) => failed := UpsertBatch(rows);
      }
    }

    // ---- repositories ------------------------------------------------------------

    method RecordHistory(p: Pair, value: Option<Text>, hint: Hint, version: nat, branch: Option<nat>)
      modifies this`history
      ensures history == Record(old(history), map[p := Entry(value, hint, version, FromUi, branch)])
    {
      history := history[p := Timeline(history, p) + [Entry(value, hint, version, FromUi, branch)]];
    }

    /** INSERT ... ON CONFLICT DO NOTHING. */
    method CreateCell(p: Pair, value: Text, hint: Hint) returns (written: bool)
      modifies this`cells
      ensures written <==> p !in old(cells)
      ensures cells == if written then old(cells)[p := Cell(value, hint, 1)] else old(cells)
    {
      written := p !in cells;
      if written {
        cells := cells[p := Cell(value, hint, 1)];
      }
    }

    /** UPDATE ... WHERE version = expected. */
    method UpdateWithVersion(p: Pair, value: Text, hint: Hint, expected: nat) returns (written: bool)
      modifies this`cells
      ensures written <==> p in old(cells) && old(cells)[p].version == expected
      ensures cells == if written then old(cells)[p := Cell(value, hint, expected + 1)] else old(cells)
    {
      written := p in cells && cells[p].version == expected;
      if written {
        cells := cells[p := Cell(value, hint, cells[p].version + 1)];
      }
    }

    /** DELETE ... WHERE expected = 0 OR version = expected. */
    method DeleteCell(p: Pair, expected: nat) returns (written: bool)
      modifies this`cells
      ensures written <==> p in old(cells) && (expected == 0 || old(cells)[p].version == expected)
      ensures cells == if written then old(cells) - {p} else old(cells)
    {
      written := p in cells && (expected == 0 || cells[p].version == expected);
      if written {
        cells := cells - {p};
      }
    }

    method InsertKeyRow(meta: Meta) returns (k: nat)
      modifies this`keys
      ensures k == |old(keys)| && keys == old(keys) + [NewKeyRow(old(keys), meta)]
    {
      k := |keys|;
      keys := keys + [NewKeyRow(keys, meta)];
    }

    method Touch(b: nat)
      requires b < |branches|
      modifies this`branches
      ensures branches == old(branches)[b := old(branches)[b].(lastEdited := Some(clock))]
    {
      branches := branches[b := branches[b].(lastEdited := Some(clock))];
    }

    method SetValue(b: nat, p: Pair, value: Text, hint: Hint)
      requires b < |branches|
      modifies this`branches
      ensures var edited := PutValue(old(branches)[b], cells, p, Some(value), hint);
              branches == old(branches)[b := edited.(lastEdited := Some(clock))]
    {
      var values := branches[b].values;
      if p in values {
        values := values[p := values[p].(value := Some(value), hint := hint)];
      } else {
        values := values[p := ValueDelta(Some(value), hint, MasterVersion(cells, p))];
      }
      branches := branches[b := branches[b].(values := values)];
      Touch(b);
    }

    method RemoveValue(b: nat, p: Pair)
      requires b < |branches|
      modifies this`branches
      ensures var edited := PutValue(old(branches)[b], cells, p, None, Plain);
              branches == old(branches)[b := edited.(lastEdited := Some(clock))]
    {
      var values := branches[b].values;
      if p in values {
        values := values[p := values[p].(value := None)];
      } else {
        values := values[p := ValueDelta(None, Plain, MasterVersion(cells, p))];
      }
      branches := branches[b := branches[b].(values := values)];
      Touch(b);
    }

    /** Refused when the branch already uses the name for another key. */
    method SetKeyMeta(b: nat, k: nat, meta: Meta) returns (failed: Option<Error>)
      requires b < |branches| && k < |keys|
      modifies this`branches
      ensures failed == if DeltaNameTaken(old(branches)[b], k, meta.name) then Some(UniqueViolation) else None
      ensures failed.None? ==>
                branches == old(branches)[b := PutMeta(old(branches)[b], keys, k, meta).(lastEdited := Some(clock))]
    {
      var metas := branches[b].metas;
      if DeltaNameTaken(branches[b], k, meta.name) {
        return Some(UniqueViolation);
      }
      if k in metas {
        metas := metas[k := metas[k].(meta := meta)];
      } else {
        metas := metas[k := MetaDelta(meta, keys[k].version)];
      }
      branches := branches[b := branches[b].(metas := metas)];
      Touch(b);
      failed := None;
    }

    /** Re-opens an approval older than the branch's last edit. */
    method InvalidateApprovalIfEdited(b: nat) returns (invalidated: bool)
      requires b < |branches|
      modifies this`requests
      ensures requests == Invalidate(old(requests), b, branches[b].lastEdited)
      ensures invalidated <==>
                exists i :: 0 <= i < |old(requests)| && Stale(old(requests)[i], b, branches[b].lastEdited)
    {
      invalidated := false;
      ghost var before := requests;
      for i := 0 to |requests|
        invariant |requests| == |before|
        invariant forall j :: 0 <= j < i ==> requests[j] == Invalidate(before, b, branches[b].lastEdited)[j]
        invariant forall j :: i <= j < |before| ==> requests[j] == before[j]
        invariant invalidated <==> exists j :: 0 <= j < i && Stale(before[j], b, branches[b].lastEdited)
      {
        if Stale(requests[i], b, branches[b].lastEdited) {
          requests := requests[i := requests[i].(status := Opened, approvedAt := None)];
          invalidated := true;
        }
      }
    }

    /** An open branch by name; no name stays on master. */
    method ResolveOpenBranch(name: Option<Text>) returns (b: Option<nat>, failed: Option<Error>)
      ensures match OpenBranch(Contents(), name)
              case Success(found) => failed == None && b == found
              case Failure(e) => failed == Some(e)
    {
      if name.None? {
        return None, None;
      }
      b := FindBranch(branches, name.value);
      if b.None? {
        return None, Some(NotFound);
      }
      if branches[b.value].status != BranchOpen {
        return None, Some(BranchNotOpen);
      }
      failed := None;
    }

    // ---- branch service ------------------------------------------------------------

    method CreateBranch(name: Text) returns (failed: Option<Error>)
      modifies this
      ensures Ran(old(Contents()), Op.CreateBranch(name), failed, Contents())
    {
      if FindBranch(branches, name).Some? {
        return Some(BranchNameTaken);
      }
      branches := branches + [Branch(name, BranchOpen, None, map[], map[])];
      failed := None;
    }

    method TransitionBranch(name: Text, status: BranchStatus) returns (failed: Option<Error>)
      modifies this
      ensures Ran(old(Contents()), Op.TransitionBranch(name, status), failed, Contents())
    {
      if status == BranchMerged {
        return Some(BadRequest);
      }
      var b := FindBranch(branches, name);
      if b.None? {
        return Some(NotFound);
      }
      if branches[b.value].status == BranchMerged {
        return Some(BranchNotOpen);
      }
      if branches[b.value].status != status {
        branches := branches[b.value := branches[b.value].(status := status)];
      }
      failed := None;
    }

    // ---- key service ------------------------------------------------------------------

    method CreateKey(branch: Option<Text>, meta: Meta) returns (failed: Option<Error>)
      modifies this
      ensures Ran(old(Contents()), Op.CreateKey(branch, meta), failed, Contents())
    {
      var b;
      b, failed := ResolveOpenBranch(branch);
      if failed.Some? {
        return;
      }
      if NameTaken(keys, meta.name) {
        return Some(KeyNameTaken);
      }
      var k := InsertKeyRow(meta.(status := if b.Some? then Draft else Active));
      if b.Some? {
        failed := SetKeyMeta(b.value, k, meta.(status := Active));
        if failed.Some? {
          return;
        }
        var _ := InvalidateApprovalIfEdited(b.value);
      }
    }

    method UpdateKey(branch: Option<Text>, k: nat, patch: Patch, baseVersion: Option<nat>)
      returns (failed: Option<Error>)
      modifies this
      ensures Ran(old(Contents()), Op.UpdateKey(branch, k, patch, baseVersion), failed, Contents())
    {
      var b;
      b, failed := ResolveOpenBranch(branch);
      if failed.Some? {
        return;
      }
      if |keys| <= k {
        return Some(NotFound);
      }
      var base := keys[k].meta;
      if b.Some? && k in branches[b.value].metas {
        base := branches[b.value].metas[k].meta;
      }
      var patched := ApplyPatch(base, patch);
      if b.Some? {
        failed := SetKeyMeta(b.value, k, patched);
        if failed.None? {
          var _ := InvalidateApprovalIfEdited(b.value);
        }
      } else {
        failed := UpdateKeyRow(k, patched, if baseVersion.Some? then baseVersion.value else 0);
      }
    }

    /** UPDATE keys ... WHERE expected = 0 OR version = expected, under the unique index. */
    method UpdateKeyRow(k: nat, meta: Meta, expected: nat) returns (failed: Option<Error>)
      requires k < |keys|
      modifies this`keys
      ensures failed == if expected != 0 && old(keys)[k].version != expected then Some(OptimisticLock)
                        else if meta.status.Active? && NameTakenByOther(old(keys), k, meta.name) then Some(KeyNameTaken)
                        else None
      ensures failed.None? ==> keys == old(keys)[k := old(keys)[k].(meta := meta, version := old(keys)[k].version + 1)]
    {
      if expected != 0 && keys[k].version != expected {
        return Some(OptimisticLock);
      }
      if meta.status.Active? && NameTakenByOther(keys, k, meta.name) {
        return Some(KeyNameTaken);
      }
      keys := keys[k := keys[k].(meta := meta, version := keys[k].version + 1)];
      failed := None;
    }

    method DeleteKey(branch: Option<Text>, k: nat, baseVersion: Option<nat>) returns (failed: Option<Error>)
      modifies this
      ensures Ran(old(Contents()), Op.DeleteKey(branch, k, baseVersion), failed, Contents())
    {
      var b;
      b, failed := ResolveOpenBranch(branch);
      if failed.Some? {
        return;
      }
      if |keys| <= k {
        return Some(NotFound);
      }
      var marked := keys[k].meta.(status := Deleted);
      if b.Some? {
        failed := SetKeyMeta(b.value, k, marked);
        if failed.None? {
          var _ := InvalidateApprovalIfEdited(b.value);
        }
        return;
      }
      var expected := if baseVersion.Some? then baseVersion.value else 0;
      if keys[k].meta.status.Deleted? || (expected != 0 && keys[k].version != expected) {
        // classifyMiss: the version is looked at first
        return Some(if expected != 0 && keys[k].version != expected then OptimisticLock else NotFound);
      }
      keys := keys[k := keys[k].(meta := marked, version := keys[k].version + 1)];
    }

    /** Writes or removes a value on a branch; value None is a tombstone. */
    method EditOnBranch(b: nat, p: Pair, value: Option<Text>, hint: Hint)
      requires b < |branches| && (value.None? ==> hint == Plain)
      modifies this
      ensures Contents() == Commit(old(Contents()), EditValue(b, p, value, hint))
    {
      if value.Some? {
        SetValue(b, p, value.value, hint);
      } else {
        RemoveValue(b, p);
      }
      var _ := InvalidateApprovalIfEdited(b);
      RecordHistory(p, value, hint, MasterVersion(cells, p), Some(b));
    }

    /** The guarded write of a value on master; its guards cannot miss, for nothing ran
        since the versions were compared. */
    method WriteOnMaster(p: Pair, value: Text, hint: Hint)
      modifies this
      ensures Contents() == Commit(old(Contents()), WriteCell(p, value, hint))
    {
      var current := MasterVersion(cells, p);
      if p !in cells {
        var _ := CreateCell(p, value, hint);
      } else {
        var _ := UpdateWithVersion(p, value, hint, current);
      }
      RecordHistory(p, Some(value), hint, current + 1, None);
    }

    method SetTranslation(branch: Option<Text>, k: nat, l: nat, value: Text, hint: Hint, baseVersion: Option<nat>)
      returns (failed: Option<Error>)
      modifies this
      ensures Ran(old(Contents()), Op.SetTranslation(branch, k, l, value, hint, baseVersion), failed, Contents())
    {
      var b;
      b, failed := ResolveOpenBranch(branch);
      if failed.Some? {
        return;
      }
      if l !in locales {
        return Some(BadRequest);
      }
      if |keys| <= k {
        return Some(NotFound);
      }
      if keys[k].meta.status.Deleted? {
        return Some(BadRequest);
      }
      var p := Pair(k, l);
      if b.Some? {
        if baseVersion.Some? {
          return Some(BadRequest);
        }
        EditOnBranch(b.value, p, Some(value), hint);
        return;
      }
      if baseVersion.None? {
        return Some(BadRequest);
      }
      if MasterVersion(cells, p) != baseVersion.value {
        return Some(EditConflict(CellAt(Contents(), p)));
      }
      WriteOnMaster(p, value, hint);
    }

    method DeleteTranslation(branch: Option<Text>, k: nat, l: nat, baseVersion: Option<nat>)
      returns (failed: Option<Error>)
      modifies this
      ensures Ran(old(Contents()), Op.DeleteTranslation(branch, k, l, baseVersion), failed, Contents())
    {
      var b;
      b, failed := ResolveOpenBranch(branch);
      if failed.Some? {
        return;
      }
      if l !in locales {
        return Some(BadRequest);
      }
      if |keys| <= k {
        return Some(NotFound);
      }
      var p := Pair(k, l);
      if b.Some? {
        if baseVersion.Some? {
          return Some(BadRequest);
        }
        if !Resolve(cells, branches[b.value].values, p).found {
          return Some(NotFound);
        }
        EditOnBranch(b.value, p, None, Plain);
        return;
      }
      if p !in cells {
        return Some(NotFound);
      }
      var current := cells[p];
      if baseVersion.Some? && baseVersion.value != current.version {
        return Some(EditConflict(Some(current)));
      }
      var _ := DeleteCell(p, if baseVersion.Some? then baseVersion.value else 0);
      RecordHistory(p, None, current.hint, current.version, None);
    }

    // ---- review workflow ------------------------------------------------------------

    method CreateRequest(name: Text) returns (failed: Option<Error>)
      modifies this
      ensures Ran(old(Contents()), Op.CreateRequest(name), failed, Contents())
    {
      var b := FindBranch(branches, name);
      if b.None? {
        return Some(NotFound);
      }
      if branches[b.value].status != BranchOpen {
        return Some(NotLive);
      }
      if FindLive(requests, b.value).Some? {
        return Some(LiveRequestExists);
      }
      requests := requests + [Request(b.value, Opened, None, map[], map[])];
      failed := None;
    }

    /** UPDATE ... WHERE status = ANY(allowedFrom), under the one-live-request index. */
    method SetStatus(r: nat, status: RequestStatus, allowedFrom: set<RequestStatus>) returns (failed: Option<Error>)
      requires r < |requests|
      modifies this`requests
      ensures failed == if old(requests)[r].status !in allowedFrom then Some(NotLive)
                        else if !Live(old(requests)[r].status) && Live(status)
                                && FindLive(old(requests), old(requests)[r].branch).Some? then Some(LiveRequestExists)
                        else None
      ensures failed.None? ==> requests == old(requests)[r := old(requests)[r].(status := status)]
    {
      var request := requests[r];
      if request.status !in allowedFrom {
        return Some(NotLive);
      }
      if !Live(request.status) && Live(status) && FindLive(requests, request.branch).Some? {
        return Some(LiveRequestExists);
      }
      requests := requests[r := request.(status := status)];
      failed := None;
    }

    method ApproveRequest(r: nat) returns (failed: Option<Error>)
      requires r < |requests|
      modifies this`requests
      ensures failed == if old(requests)[r].status in {Opened, ChangesRequested} then None else Some(NotFound)
      ensures failed.None? ==>
                requests == old(requests)[r := old(requests)[r].(status := Approved, approvedAt := Some(clock))]
    {
      if requests[r].status !in {Opened, ChangesRequested} {
        return Some(NotFound);
      }
      requests := requests[r := requests[r].(status := Approved, approvedAt := Some(clock))];
      failed := None;
    }

    method ReviewRequest(r: nat, action: Action) returns (failed: Option<Error>)
      modifies this
      ensures Ran(old(Contents()), Review(r, action), failed, Contents())
    {
      if |requests| <= r {
        return Some(NotFound);
      }
      if requests[r].status !in AllowedFrom(action) {
        return Some(NotLive);
      }
      if action.Approve? {
        failed := ApproveRequest(r);
      } else {
        failed := SetStatus(r, Target(action), AllowedFrom(action));
      }
    }

    method ResolveConflicts(r: nat, decisions: seq<Decision>) returns (failed: Option<Error>)
      modifies this
      ensures Ran(old(Contents()), Resolving(r, decisions), failed, Contents())
    {
      if decisions == [] {
        return Some(BadRequest);
      }
      if |requests| <= r || |branches| <= requests[r].branch {
        return Some(NotFound);
      }
      if !Live(requests[r].status) {
        return Some(NotLive);
      }
      var branch := branches[requests[r].branch];
      var ok := StoreDecisions(r, decisions, ValueConflicts(cells, branch.values), MetaConflicts(keys, branch.metas));
      failed := if ok then None else Some(BadRequest);
    }

    /** One upsert of merge_conflict_resolutions per decision, until one settles no conflict. */
    method StoreDecisions(r: nat, decisions: seq<Decision>, valueConflicts: set<Pair>, metaConflicts: set<nat>)
      returns (ok: bool)
      requires r < |requests|
      modifies this`requests
      ensures ok <==> forall j :: 0 <= j < |decisions| ==> Settles(locales, valueConflicts, metaConflicts, decisions[j])
      ensures ok ==> requests == old(requests)[r := WithDecisions(old(requests)[r], decisions)]
    {
      ghost var begun := requests;
      assert decisions[..0] == [];
      for i := 0 to |decisions|
        invariant |requests| == |begun| && requests == begun[r := WithDecisions(begun[r], decisions[..i])]
        invariant forall j :: 0 <= j < i ==> Settles(locales, valueConflicts, metaConflicts, decisions[j])
      {
        var d := decisions[i];
        assert decisions[..i + 1][..i] == decisions[..i];
        if !Settles(locales, valueConflicts, metaConflicts, d) {
          return false;
        }
        if d.locale.None? {
          requests := requests[r := requests[r].(metaChoices := requests[r].metaChoices[d.key := d.choice])];
        } else {
          var p := Pair(d.key, d.locale.value);
          requests := requests[r := requests[r].(valueChoices := requests[r].valueChoices[p := d.choice])];
        }
      }
      assert decisions[..|decisions|] == decisions;
      ok := true;
    }

    // ---- merge -------------------------------------------------------------------------

    /** The UPDATE of applyKeyMetaSQL, row by row in whatever order the scan takes;
        answers how many deltas the version guard blocked. */
    method ApplyKeyMeta(b: nat, r: nat) returns (blocked: nat, failed: Option<Error>, ghost order: seq<nat>)
      requires b < |branches| && r < |requests|
      modifies this`keys
      ensures DistinctIds(order)
      ensures forall i :: 0 <= i < |order| ==> order[i] in branches[b].metas && order[i] < |old(keys)|
      ensures match failed
              case Some(e) => e == UniqueViolation && UpdateInOrder(old(keys), branches[b].metas, order) == None
              case None =>
                && UpdateInOrder(old(keys), branches[b].metas, order) == Some(keys)
                && blocked == |MetasBlocked(old(keys), branches[b].metas, requests[r].metaChoices)|
                && Enumerates(order, MetasLanding(old(keys), branches[b].metas, requests[r].metaChoices))
    {
      var metas := branches[b].metas;
      ghost var before := keys;
      blocked := |MetasBlocked(keys, metas, requests[r].metaChoices)|;
      var landing := MetasLanding(keys, metas, requests[r].metaChoices);
      var rest := landing;
      order := [];
      while rest != {}
        invariant rest <= landing && Enumerates(order, landing - rest) && |keys| == |before|
        invariant forall i :: 0 <= i < |order| ==> order[i] in metas && order[i] < |before|
        invariant UpdateInOrder(before, metas, order) == Some(keys)
        decreases rest
      {
        var k :| k in rest;
        UpdateOneMore(before, metas, order, k);
        order := order + [k];
        if metas[k].meta.status.Active? && NameTakenByOther(keys, k, metas[k].meta.name) {
          return blocked, Some(UniqueViolation), order;
        }
        keys := keys[k := LandMeta(keys[k], metas[k])];
        rest := rest - {k};
      }
      failed := None;
    }

    /** applyDeltasSQL. */
    method ApplyValues(b: nat, r: nat) returns (blocked: nat)
      requires b < |branches| && r < |requests|
      modifies this`cells, this`history
      ensures blocked == |ValuesBlocked(old(cells), branches[b].values, requests[r].valueChoices, false)|
      ensures var puts := ValuesLanding(old(cells), branches[b].values, requests[r].valueChoices, false);
              && cells == UpsertLanding(old(cells), branches[b].values, puts)
              && history == Record(old(history), UpsertHistory(old(cells), branches[b].values, puts, b))
    {
      cells, history, blocked := PutDeltas(cells, history, branches[b].values, requests[r].valueChoices, b);
    }

    /** removeDeltasSQL. */
    method ApplyRemovals(b: nat, r: nat) returns (blocked: nat)
      requires b < |branches| && r < |requests|
      modifies this`cells, this`history
      ensures blocked == |ValuesBlocked(old(cells), branches[b].values, requests[r].valueChoices, true)|
      ensures var drops := ValuesLanding(old(cells), branches[b].values, requests[r].valueChoices, true);
              && cells == old(cells) - drops
              && history == Record(old(history), RemoveHistory(old(cells), drops, b))
    {
      cells, history, blocked := DropDeltas(cells, history, branches[b].values, requests[r].valueChoices, b);
    }

    /** Both value statements, given up as soon as one of them blocks a delta. */
    method ApplyDeltas(b: nat, r: nat) returns (failed: Option<Error>)
      requires b < |branches| && r < |requests|
      modifies this`cells, this`history
      ensures match PutStatement(old(Contents()), b, r)
              case Failure(e) => failed == Some(e)
              case Success(put) =>
                match DropStatement(put, b, r)
                case Failure(e) => failed == Some(e)
                case Success(dropped) => failed == None && Contents() == dropped
    {
      var blocked := ApplyValues(b, r);
      if blocked > 0 {
        return Some(ConcurrentMasterWrite(blocked));
      }
      blocked := ApplyRemovals(b, r);
      if blocked > 0 {
        return Some(ConcurrentMasterWrite(blocked));
      }
      failed := None;
    }

    /** max(version) + 1 and its bundles. */
    method CreateRelease(source: ReleaseSource, floor: Option<seq<nat>>)
      requires NamesUnique(keys)
      modifies this`releases
      ensures Contents() == Cut(old(Contents()), source, floor)
    {
      var version := MaxReleaseVersion(releases) + 1;
      var bundles := MaterialiseBundles(keys, cells, locales);
      AllMaterialised(Contents(), bundles);
      releases := releases + [Release(version, source, floor, false, bundles)];
    }

    /** The conflicts of a request that nobody has decided. */
    method Undecided(b: nat, r: nat) returns (values: set<Pair>, metas: set<nat>)
      requires b < |branches| && r < |requests|
      ensures values == UndecidedValues(Contents(), b, r) && metas == UndecidedMetas(Contents(), b, r)
    {
      var conflicts := ValueConflicts(cells, branches[b].values);
      var rest := conflicts;
      values := {};
      while rest != {}
        invariant rest <= conflicts
        invariant values == set p | p in conflicts - rest && p !in requests[r].valueChoices
        decreases rest
      {
        var p :| p in rest;
        if p !in requests[r].valueChoices {
          values := values + {p};
        }
        rest := rest - {p};
      }
      var metaConflicts := MetaConflicts(keys, branches[b].metas);
      var metaRest := metaConflicts;
      metas := {};
      while metaRest != {}
        invariant metaRest <= metaConflicts
        invariant metas == set k | k in metaConflicts - metaRest && k !in requests[r].metaChoices
        decreases metaRest
      {
        var k :| k in metaRest;
        if k !in requests[r].metaChoices {
          metas := metas + {k};
        }
        metaRest := metaRest - {k};
      }
    }

    /** Folds a branch into master and cuts a release. Its refusals need no invariant: also
        tables no run reaches, with an approval older than an edit, are refused. */
    method MergeBranch(name: Text) returns (failed: Option<Error>)
      requires CheckMerge(Contents(), name).Success? ==> Valid()
      modifies this
      ensures Ran(old(Contents()), Merge(name), failed, Contents())
    {
      ghost var begun := Contents();
      MergeRan(begun, name);
      var found := FindBranch(branches, name);
      if found.None? {
        return Some(NotFound);
      }
      var b := found.value;
      var invalidated := InvalidateApprovalIfEdited(b);
      if invalidated {
        return Some(StaleApproval);
      }
      assert requests == begun.requests;
      var live := FindLive(requests, b);
      if live.None? {
        return Some(NotFound);
      }
      var r := live.value;
      if requests[r].status != Approved {
        return Some(NotApproved);
      }
      var values, metas := Undecided(b, r);
      if values != {} || metas != {} {
        return Some(Unresolved(values, metas));
      }
      var collisions := NameCollisions(keys, branches[b].metas);
      if collisions != {} {
        return Some(NameCollision(collisions));
      }
      assert CheckMerge(begun, name) == Success((b, r));
      failed := ApplyMergeTo(b, r);
    }

    /** Steps 5 to 7 of a merge whose checks passed. */
    method ApplyMergeTo(b: nat, r: nat) returns (failed: Option<Error>)
      requires Valid() && b < |branches| && r < |requests| && requests[r].status == Approved
      requires UndecidedValues(Contents(), b, r) == {} && UndecidedMetas(Contents(), b, r) == {}
      requires NameCollisions(keys, branches[b].metas) == {}
      modifies this
      ensures failed == None && Contents() == Commit(old(Contents()), Land(b, r))
    {
      ghost var begun := Contents();
      failed := ApplyKeysAndValues(b, r);
      if failed.Some? {
        return;
      }
      ghost var landed := Contents();
      CreateRelease(ByMerge(r), None);
      ghost var released := Contents();
      failed := CloseOutMerge(b, r);
      assert Contents() == CloseOut(released, b, r);
      LandingInSteps(begun, b, r);
    }

    method CloseOutMerge(b: nat, r: nat) returns (failed: Option<Error>)
      requires b < |branches| && r < |requests| && requests[r].status == Approved
      modifies this`requests, this`branches
      ensures failed == None && Contents() == CloseOut(old(Contents()), b, r)
    {
      failed := SetStatus(r, RequestStatus.Merged, {Approved});
      branches := branches[b := branches[b].(status := BranchMerged)];
    }

    /** Metadata first, then values. */
    method ApplyKeysAndValues(b: nat, r: nat) returns (failed: Option<Error>)
      requires Valid() && b < |branches| && r < |requests|
      requires UndecidedValues(Contents(), b, r) == {} && UndecidedMetas(Contents(), b, r) == {}
      requires NameCollisions(keys, branches[b].metas) == {}
      modifies this`keys, this`cells, this`history
      ensures failed == None && Contents() == Landed(old(Contents()), b, r) && NamesUnique(keys)
    {
      ghost var begun := Contents();
      BlockedIffUndecided(begun, b, r);
      var blocked;
      ghost var order;
      blocked, failed, order := ApplyKeyMeta(b, r);
      KeysLanded(begun, b, r, order);
      if failed.Some? {
        return;
      }
      if blocked > 0 {
        return Some(ConcurrentMasterWrite(blocked));
      }
      ghost var updated := Contents();
      ValuesAddUp(begun, updated, b, r);
      failed := ApplyDeltas(b, r);
    }

    // ---- releases -----------------------------------------------------------------------

    method PublishRelease(floor: Option<seq<nat>>) returns (failed: Option<Error>)
      requires Valid()
      modifies this
      ensures Ran(old(Contents()), Publish(floor), failed, Contents())
    {
      CreateRelease(ByPublish, floor);
      failed := None;
    }

    method RollbackRelease(version: nat) returns (failed: Option<Error>)
      modifies this`releases
      ensures Ran(old(Contents()), Rollback(version), failed, Contents())
    {
      if version == 0 {
        return Some(BadRequest);
      }
      ghost var begun := Contents();
      var after, moved, known := WithholdVersion(releases, version);
      if !moved {
        return Some(if known then AlreadyRolledBack else NotFound);
      }
      releases := after;
      assert releases == Commit(begun, Withhold(version)).releases;
      failed := None;
    }

    // ---- seed and import --------------------------------------------------------------------

    /** INSERT ... ON CONFLICT (name) WHERE active DO UPDATE ... WHERE something changed. */
    method UpsertByName(meta: Meta, sortIndex: int, remoteId: Option<int>) returns (failed: Option<Error>)
      modifies this`keys
      ensures Ran(old(Contents()), UpsertKey(meta, sortIndex, remoteId), failed, Contents())
    {
      UpsertNameRan(Contents(), meta, sortIndex, remoteId);
      var k := ActiveKey(keys, meta.name);
      if k.None? {
        if RemoteIdTaken(keys, remoteId) {
          return Some(UniqueViolation);
        }
        keys := keys + [KeyRow(meta.(status := Active), 1, sortIndex, remoteId)];
        return None;
      }
      var row := keys[k.value];
      var upserted := Upserted(row.meta, meta);
      if upserted != row.meta {
        keys := keys[k.value := row.(meta := upserted, version := row.version + 1)];
      }
      failed := None;
    }

    method UpsertBatch(rows: map<Pair, (Text, Hint)>) returns (failed: Option<Error>)
      modifies this`cells
      ensures Ran(old(Contents()), UpsertCells(rows), failed, Contents())
    {
      if exists p :: p in rows && |keys| <= p.key {
        return Some(ForeignKeyViolation);
      }
      UpsertRan(Contents(), rows);
      cells := UpsertRows(cells, rows);
      failed := None;
    }
  }

  /** The decision is about a conflict there is. */
  predicate Settles(locales: seq<nat>, valueConflicts: set<Pair>, metaConflicts: set<nat>, d: Decision) {
    if d.locale.None? then d.key in metaConflicts
    else d.locale.value in locales && Pair(d.key, d.locale.value) in valueConflicts
  }

  function WithDecisions(request: Request, decisions: seq<Decision>): Request {
    request.(valueChoices := DecideValues(request.valueChoices, decisions),
             metaChoices := DecideMetas(request.metaChoices, decisions))
  }

  lemma UpsertRan(s: State, rows: map<Pair, (Text, Hint)>)
    requires !exists p :: p in rows && |s.keys| <= p.key
    ensures Ran(s, UpsertCells(rows), None, s.(cells := BatchWritten(s.cells, rows)))
  {
    var w := WriteCells(rows);
    assert Plan(s, UpsertCells(rows)) == Success(w) && w.WriteCells?;
    assert Commit(s, w) == s.(cells := BatchWritten(s.cells, rows));
  }

  /** INSERT ... ON CONFLICT DO UPDATE ... WHERE something changed, row by row. */
  method UpsertRows(cells: map<Pair, Cell>, rows: map<Pair, (Text, Hint)>) returns (now: map<Pair, Cell>)
    ensures now == BatchWritten(cells, rows)
  {
    now := cells;
    var rest := rows.Keys;
    while rest != {}
      invariant rest <= rows.Keys && BatchedSoFar(cells, now, rows, rest)
      decreases rest
    {
      var p :| p in rest;
      var (value, hint) := rows[p];
      if p !in now {
        now := now[p := Cell(value, hint, 1)];
      } else if now[p].value != value || now[p].hint != hint {
        now := now[p := Cell(value, hint, now[p].version + 1)];
      }
      rest := rest - {p};
    }
    BatchDone(cells, now, rows);
  }

  /** What the plan of an upsert is, branch by branch. */
  lemma UpsertNameRan(s: State, meta: Meta, sortIndex: int, remoteId: Option<int>)
    ensures var k := ActiveKey(s.keys, meta.name);
            Plan(s, UpsertKey(meta, sortIndex, remoteId)) ==
            if k.None? then
              if RemoteIdTaken(s.keys, remoteId) then Failure(UniqueViolation)
              else Success(InsertKey(meta.(status := Active), sortIndex, remoteId))
            else if Upserted(s.keys[k.value].meta, meta) == s.keys[k.value].meta then Success(Nothing)
            else Success(WriteKey(k.value, Upserted(s.keys[k.value].meta, meta)))
  {
  }

  /** UPDATE releases ... WHERE version = $1 AND rolled_back_at IS NULL. */
  method WithholdVersion(releases: seq<Release>, version: nat) returns (after: seq<Release>, moved: bool, known: bool)
    ensures |after| == |releases|
    ensures forall j :: 0 <= j < |releases| ==> after[j] == WithheldRelease(releases[j], version)
    ensures moved <==> exists j :: 0 <= j < |releases| && releases[j].version == version && !releases[j].withheld
    ensures known <==> exists j :: 0 <= j < |releases| && releases[j].version == version
  {
    after, moved, known := releases, false, false;
    for i := 0 to |releases|
      invariant |after| == |releases|
      invariant forall j :: 0 <= j < i ==> after[j] == WithheldRelease(releases[j], version)
      invariant forall j :: i <= j < |releases| ==> after[j] == releases[j]
      invariant moved <==> exists j :: 0 <= j < i && releases[j].version == version && !releases[j].withheld
      invariant known <==> exists j :: 0 <= j < i && releases[j].version == version
    {
      if releases[i].version == version {
        known := true;
        if !releases[i].withheld {
          after := after[i := releases[i].(withheld := true)];
          moved := true;
        }
      }
    }
  }

  /** All rows but those of `rest` have been upserted. */
  ghost predicate BatchedSoFar(before: map<Pair, Cell>, now: map<Pair, Cell>, rows: map<Pair, (Text, Hint)>,
                               rest: set<Pair>) {
    && (forall p :: p in now <==> p in before || (p in rows && p !in rest))
    && (forall p :: p in now ==> now[p] == if p in rows && p !in rest then Batched(before, rows, p) else before[p])
  }

  lemma BatchDone(before: map<Pair, Cell>, now: map<Pair, Cell>, rows: map<Pair, (Text, Hint)>)
    requires BatchedSoFar(before, now, rows, {})
    ensures now == BatchWritten(before, rows)
  {
  }

  lemma AllMaterialised(s: State, bundles: map<nat, Bundle>)
    requires bundles.Keys == set l | l in s.locales
    requires forall l :: l in bundles ==> Materialised(s.keys, s.cells, l, bundles[l])
    ensures bundles == Bundles(s)
  {
  }

  // ---- the value statements of a merge, row by row ----------------------------------------------

  /** One delta of the put statement: written with its history row, blocked, or passed over. */
  method PutDelta(snapshot: map<Pair, Cell>, deltas: map<Pair, ValueDelta>, choices: map<Pair, Choice>, b: nat, p: Pair,
                  cells: map<Pair, Cell>, history: map<Pair, seq<Entry>>)
    returns (cells': map<Pair, Cell>, history': map<Pair, seq<Entry>>, stuck: bool)
    requires p in deltas
    ensures stuck <==> p in ValuesBlocked(snapshot, deltas, choices, false)
    ensures if p in ValuesLanding(snapshot, deltas, choices, false) then
              var version := MasterVersion(cells, p) + 1;
              && cells' == cells[p := Cell(deltas[p].value.value, deltas[p].hint, version)]
              && history' == Appended(history, p, Entry(deltas[p].value, deltas[p].hint, version, FromMerge, Some(b)))
            else cells' == cells && history' == history
  {
    cells', history', stuck := cells, history, false;
    var delta := deltas[p];
    if delta.value.None? || !ValueEligible(snapshot, deltas, choices, p) {
      return;
    }
    if !ValueApplicable(snapshot, deltas, choices, p) {
      stuck := true;
      return;
    }
    var version := MasterVersion(cells, p) + 1;
    cells' := cells[p := Cell(delta.value.value, delta.hint, version)];
    history' := Appended(history, p, Entry(delta.value, delta.hint, version, FromMerge, Some(b)));
  }

  /** One delta of the removal statement; only a row that was there leaves history. */
  method DropDelta(snapshot: map<Pair, Cell>, deltas: map<Pair, ValueDelta>, choices: map<Pair, Choice>, b: nat,
                   p: Pair, cells: map<Pair, Cell>, history: map<Pair, seq<Entry>>)
    returns (cells': map<Pair, Cell>, history': map<Pair, seq<Entry>>, stuck: bool)
    requires p in deltas
    ensures stuck <==> p in ValuesBlocked(snapshot, deltas, choices, true)
    ensures if p in ValuesLanding(snapshot, deltas, choices, true) && p in cells then
              && cells' == cells - {p}
              && history' == Appended(history, p, Entry(None, cells[p].hint, cells[p].version, FromMerge, Some(b)))
            else cells' == cells && history' == history
  {
    cells', history', stuck := cells, history, false;
    if deltas[p].value.Some? || !ValueEligible(snapshot, deltas, choices, p) {
      return;
    }
    if !ValueApplicable(snapshot, deltas, choices, p) {
      stuck := true;
      return;
    }
    if p in cells {
      cells' := cells - {p};
      history' := Appended(history, p, Entry(None, cells[p].hint, cells[p].version, FromMerge, Some(b)));
    }
  }

  function Appended(history: map<Pair, seq<Entry>>, p: Pair, e: Entry): map<Pair, seq<Entry>> {
    history[p := Timeline(history, p) + [e]]
  }

  /** The kept values of a branch under one snapshot; answers how many were blocked. */
  method PutDeltas(snapshot: map<Pair, Cell>, before: map<Pair, seq<Entry>>, deltas: map<Pair, ValueDelta>,
                   choices: map<Pair, Choice>, b: nat)
    returns (cells: map<Pair, Cell>, history: map<Pair, seq<Entry>>, blocked: nat)
    ensures blocked == |ValuesBlocked(snapshot, deltas, choices, false)|
    ensures cells == UpsertLanding(snapshot, deltas, ValuesLanding(snapshot, deltas, choices, false))
    ensures history
            == Record(before, UpsertHistory(snapshot, deltas, ValuesLanding(snapshot, deltas, choices, false), b))
  {
    ghost var puts := ValuesLanding(snapshot, deltas, choices, false);
    ghost var all := ValuesBlocked(snapshot, deltas, choices, false);
    var rest := deltas.Keys;
    cells, history, blocked := snapshot, before, 0;
    Uncounted(all, rest);
    NothingPut(snapshot, before, deltas, puts, b);
    while rest != {}
      invariant rest <= deltas.Keys && blocked == |all - rest|
      invariant PutSoFar(snapshot, deltas, puts, rest, cells)
      invariant ToldSoFar(before, UpsertHistory(snapshot, deltas, puts, b), rest, history)
      decreases rest
    {
      var p :| p in rest;
      MovedOn(all, rest, p);
      PutNext(snapshot, before, deltas, puts, rest, cells, history, b, p);
      var stuck;
      cells, history, stuck := PutDelta(snapshot, deltas, choices, b, p, cells, history);
      blocked := blocked + if stuck then 1 else 0;
      rest := rest - {p};
    }
    AllPut(snapshot, deltas, puts, cells);
    AllTold(before, UpsertHistory(snapshot, deltas, puts, b), history);
    assert all - {} == all;
  }

  method DropDeltas(snapshot: map<Pair, Cell>, before: map<Pair, seq<Entry>>, deltas: map<Pair, ValueDelta>,
                    choices: map<Pair, Choice>, b: nat)
    returns (cells: map<Pair, Cell>, history: map<Pair, seq<Entry>>, blocked: nat)
    ensures blocked == |ValuesBlocked(snapshot, deltas, choices, true)|
    ensures cells == snapshot - ValuesLanding(snapshot, deltas, choices, true)
    ensures history == Record(before, RemoveHistory(snapshot, ValuesLanding(snapshot, deltas, choices, true), b))
  {
    ghost var drops := ValuesLanding(snapshot, deltas, choices, true);
    ghost var all := ValuesBlocked(snapshot, deltas, choices, true);
    var rest := deltas.Keys;
    cells, history, blocked := snapshot, before, 0;
    Uncounted(all, rest);
    NothingDropped(snapshot, before, drops, deltas.Keys, b);
    while rest != {}
      invariant rest <= deltas.Keys && blocked == |all - rest|
      invariant DroppedSoFar(snapshot, drops, rest, cells)
      invariant ToldSoFar(before, RemoveHistory(snapshot, drops, b), rest, history)
      decreases rest
    {
      var p :| p in rest;
      MovedOn(all, rest, p);
      DropNext(snapshot, before, drops, rest, cells, history, b, p);
      var stuck;
      cells, history, stuck := DropDelta(snapshot, deltas, choices, b, p, cells, history);
      blocked := blocked + if stuck then 1 else 0;
      rest := rest - {p};
    }
    AllDropped(snapshot, drops, cells);
    AllTold(before, RemoveHistory(snapshot, drops, b), history);
    assert all - {} == all;
  }

  /** A set grows by p when p leaves the rest. */
  lemma MovedOn(all: set<Pair>, rest: set<Pair>, p: Pair)
    requires p in rest
    ensures all - (rest - {p}) == if p in all then (all - rest) + {p} else all - rest
    ensures p in all ==> |all - (rest - {p})| == |all - rest| + 1
  {
    if p in all {
      assert all - (rest - {p}) == (all - rest) + {p};
    } else {
      assert all - (rest - {p}) == all - rest;
    }
  }

  lemma Uncounted(all: set<Pair>, rest: set<Pair>)
    requires all <= rest
    ensures |all - rest| == 0
  {
    assert all - rest == {};
  }

  /** All rows of the value statement but those of `rest` have been put. */
  ghost predicate PutSoFar(snapshot: map<Pair, Cell>, deltas: map<Pair, ValueDelta>, puts: set<Pair>, rest: set<Pair>,
                           cells: map<Pair, Cell>)
  {
    && (forall p :: p in puts ==> p in deltas && deltas[p].value.Some?)
    && (forall p :: p in cells <==> p in snapshot || (p in puts && p !in rest))
    && forall p :: p in cells ==>
         cells[p] == if p in puts && p !in rest
                     then Cell(deltas[p].value.value, deltas[p].hint, MasterVersion(snapshot, p) + 1) else snapshot[p]
  }

  ghost predicate DroppedSoFar(snapshot: map<Pair, Cell>, drops: set<Pair>, rest: set<Pair>, cells: map<Pair, Cell>) {
    && (forall p :: p in cells <==> p in snapshot && !(p in drops && p !in rest))
    && forall p :: p in cells ==> cells[p] == snapshot[p]
  }

  /** And their history rows, if they have one, appended. */
  ghost predicate ToldSoFar(before: map<Pair, seq<Entry>>, rows: map<Pair, Entry>, rest: set<Pair>,
                            history: map<Pair, seq<Entry>>)
  {
    && (forall p :: p in history <==> p in before || (p in rows && p !in rest))
    && forall p :: p in history ==>
         history[p] == if p in rows && p !in rest then Timeline(before, p) + [rows[p]] else before[p]
  }

  lemma AllPut(snapshot: map<Pair, Cell>, deltas: map<Pair, ValueDelta>, puts: set<Pair>, cells: map<Pair, Cell>)
    requires PutSoFar(snapshot, deltas, puts, {}, cells)
    ensures cells == UpsertLanding(snapshot, deltas, puts)
  {
  }

  lemma AllTold(before: map<Pair, seq<Entry>>, rows: map<Pair, Entry>, history: map<Pair, seq<Entry>>)
    requires ToldSoFar(before, rows, {}, history)
    ensures history == Record(before, rows)
  {
  }

  lemma AllDropped(snapshot: map<Pair, Cell>, drops: set<Pair>, cells: map<Pair, Cell>)
    requires DroppedSoFar(snapshot, drops, {}, cells)
    ensures cells == snapshot - drops
  {
  }

  lemma NothingPut(snapshot: map<Pair, Cell>, before: map<Pair, seq<Entry>>, deltas: map<Pair, ValueDelta>,
                   puts: set<Pair>, b: nat)
    requires forall p :: p in puts ==> p in deltas && deltas[p].value.Some?
    ensures PutSoFar(snapshot, deltas, puts, deltas.Keys, snapshot)
    ensures ToldSoFar(before, UpsertHistory(snapshot, deltas, puts, b), deltas.Keys, before)
  {
  }

  lemma NothingDropped(snapshot: map<Pair, Cell>, before: map<Pair, seq<Entry>>, drops: set<Pair>, rest: set<Pair>,
                       b: nat)
    requires drops <= rest
    ensures DroppedSoFar(snapshot, drops, rest, snapshot)
    ensures ToldSoFar(before, RemoveHistory(snapshot, drops, b), rest, before)
  {
  }

  lemma PutOne(snapshot: map<Pair, Cell>, deltas: map<Pair, ValueDelta>, puts: set<Pair>, rest: set<Pair>,
               cells: map<Pair, Cell>, p: Pair, version: nat)
    requires PutSoFar(snapshot, deltas, puts, rest, cells) && p in rest && p in puts
    requires version == MasterVersion(cells, p) + 1
    ensures version == MasterVersion(snapshot, p) + 1
    ensures PutSoFar(snapshot, deltas, puts, rest - {p},
                     cells[p := Cell(deltas[p].value.value, deltas[p].hint, version)])
  {
  }

  lemma ToldOne(before: map<Pair, seq<Entry>>, rows: map<Pair, Entry>, rest: set<Pair>, history: map<Pair, seq<Entry>>,
                p: Pair)
    requires ToldSoFar(before, rows, rest, history) && p in rest
    ensures ToldSoFar(before, rows, rest - {p}, if p in rows then Appended(history, p, rows[p]) else history)
  {
  }

  /** What one delta of the put statement does to the invariants. */
  lemma PutNext(snapshot: map<Pair, Cell>, before: map<Pair, seq<Entry>>, deltas: map<Pair, ValueDelta>,
                puts: set<Pair>, rest: set<Pair>, cells: map<Pair, Cell>, history: map<Pair, seq<Entry>>, b: nat,
                p: Pair)
    requires PutSoFar(snapshot, deltas, puts, rest, cells) && p in rest
    requires ToldSoFar(before, UpsertHistory(snapshot, deltas, puts, b), rest, history)
    ensures var version := MasterVersion(cells, p) + 1;
            p in puts ==>
              && PutSoFar(snapshot, deltas, puts, rest - {p},
                          cells[p := Cell(deltas[p].value.value, deltas[p].hint, version)])
              && ToldSoFar(before, UpsertHistory(snapshot, deltas, puts, b), rest - {p},
                           Appended(history, p, Entry(deltas[p].value, deltas[p].hint, version, FromMerge, Some(b))))
    ensures p !in puts ==>
              && PutSoFar(snapshot, deltas, puts, rest - {p}, cells)
              && ToldSoFar(before, UpsertHistory(snapshot, deltas, puts, b), rest - {p}, history)
  {
    ToldOne(before, UpsertHistory(snapshot, deltas, puts, b), rest, history, p);
    if p in puts {
      PutOne(snapshot, deltas, puts, rest, cells, p, MasterVersion(cells, p) + 1);
    }
  }

  /** And of the removal statement. */
  lemma DropNext(snapshot: map<Pair, Cell>, before: map<Pair, seq<Entry>>, drops: set<Pair>, rest: set<Pair>,
                 cells: map<Pair, Cell>, history: map<Pair, seq<Entry>>, b: nat, p: Pair)
    requires DroppedSoFar(snapshot, drops, rest, cells) && p in rest
    requires ToldSoFar(before, RemoveHistory(snapshot, drops, b), rest, history)
    ensures p in drops && p in cells ==>
              && DroppedSoFar(snapshot, drops, rest - {p}, cells - {p})
              && ToldSoFar(before, RemoveHistory(snapshot, drops, b), rest - {p},
                           Appended(history, p, Entry(None, cells[p].hint, cells[p].version, FromMerge, Some(b))))
    ensures !(p in drops && p in cells) ==>
              && DroppedSoFar(snapshot, drops, rest - {p}, cells)
              && ToldSoFar(before, RemoveHistory(snapshot, drops, b), rest - {p}, history)
  {
    ToldOne(before, RemoveHistory(snapshot, drops, b), rest, history, p);
  }

  lemma MergeRan(s: State, name: Text)
    requires CheckMerge(s, name).Success? ==> Inv(s)
    ensures Plan(s, Merge(name)) ==
            match CheckMerge(s, name) case Success((b, r)) => Success(Land(b, r)) case Failure(e) => Failure(e)
  {
    if Inv(s) {
      MergeIsItsCheck(s, name);
    }
  }

  lemma LandingInSteps(s: State, b: nat, r: nat)
    requires b < |s.branches| && r < |s.requests|
    ensures Commit(s, Land(b, r)) == CloseOut(Cut(Landed(s, b, r), ByMerge(r), None), b, r)
  {
    var w := Land(b, r);
    assert Fits(s, w) && w.Land? && w.b == b && w.r == r;
  }

  lemma {:induction false} KeysLanded(s: State, b: nat, r: nat, order: seq<nat>)
    requires Inv(s) && b < |s.branches| && r < |s.requests| && NameCollisions(s.keys, s.branches[b].metas) == {}
    requires DistinctIds(order)
    requires forall i :: 0 <= i < |order| ==> order[i] in s.branches[b].metas && order[i] < |s.keys|
    ensures var updated := UpdateInOrder(s.keys, s.branches[b].metas, order);
            && updated.Some? && NamesUnique(updated.value)
            && (Enumerates(order, LandingKeys(s, b, r)) ==>
                  updated.value == LandMetas(s.keys, s.branches[b].metas, LandingKeys(s, b, r)))
  {
    assert BranchSound(s, s.branches[b]);
    AnyOrderLands(s.keys, s.branches[b].metas, order);
    LandedNamesUnique(s.keys, s.branches[b].metas, Ids(order));
    if Enumerates(order, LandingKeys(s, b, r)) {
      assert Ids(order) == LandingKeys(s, b, r);
    }
  }

  /** One more row of a scan. */
  lemma {:induction false} UpdateOneMore(keys: seq<KeyRow>, metas: map<nat, MetaDelta>, order: seq<nat>, k: nat)
    requires k in metas && k < |keys| && forall i :: 0 <= i < |order| ==> order[i] in metas && order[i] < |keys|
    ensures forall i :: 0 <= i < |order + [k]| ==> (order + [k])[i] in metas && (order + [k])[i] < |keys|
    ensures var before := UpdateInOrder(keys, metas, order);
            var after := UpdateInOrder(keys, metas, order + [k]);
            && (before.Some? ==> |before.value| == |keys|)
            && after == if before.None? then None
                        else if metas[k].meta.status.Active? && NameTakenByOther(before.value, k, metas[k].meta.name)
                        then None
                        else Some(before.value[k := LandMeta(before.value[k], metas[k])])
    decreases |order|
  {
    if order == [] {
      var updated := keys[k := LandMeta(keys[k], metas[k])];
      assert UpdateInOrder(updated, metas, []) == Some(updated);
      assert ([] + [k])[1..] == [];
    } else {
      var j := order[0];
      UpdateOneMore(keys[j := LandMeta(keys[j], metas[j])], metas, order[1..], k);
      assert (order + [k])[1..] == order[1..] + [k];
    }
  }
}
