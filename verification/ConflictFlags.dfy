/** Conflict flags are exact over whole runs. */
module ConflictFlags {
  import opened Wrappers
  import opened Bytes
  import opened Schema
  import opened Statements
  import opened Service
  import opened Frames
  import opened Invariants
  import opened Runs

  // ---- metadata ---------------------------------------------------------------

  ghost predicate HasMeta(s: State, b: nat, k: nat) {
    b < |s.branches| && k in s.branches[b].metas
  }

  /** Call i wrote the master row of key k. */
  ghost predicate KeyWritten(trace: seq<State>, i: nat, k: nat) {
    && i + 1 < |trace| && k < |trace[i].keys| && k < |trace[i + 1].keys|
    && trace[i + 1].keys[k] != trace[i].keys[k]
  }

  /** The step in which a branch first touches a key records the key's version, and
      writes no existing key row; afterwards the recorded base never changes. */
  lemma MetaBase(s: State, w: Write, b: nat, k: nat)
    requires Legal(s, w) && HasMeta(Commit(s, w), b, k)
    ensures HasMeta(s, b, k) ==> Commit(s, w).branches[b].metas[k].base == s.branches[b].metas[k].base
    ensures !HasMeta(s, b, k) ==>
              k < |Commit(s, w).keys| && Commit(s, w).branches[b].metas[k].base == Commit(s, w).keys[k].version
  {
    BranchAdded(s, w);
    if b < |s.branches| {
      BranchCommitted(s, w, b);
      if !HasMeta(s, b, k) {
        TouchedKey(s, w, k);
      }
    }
  }

  /** The version of the key a metadata delta is about. */
  lemma TouchedKey(s: State, w: Write, k: nat)
    requires Legal(s, w) && (w.DraftKey? || w.PatchMeta?) && k == if w.DraftKey? then |s.keys| else w.k
    ensures k < |Commit(s, w).keys|
    ensures Commit(s, w).keys[k].version == if w.DraftKey? then 1 else s.keys[k].version
  {
    match w
    case DraftKey(_, _) =>
    case PatchMeta(_, _, _) =>
  }

  lemma CommitKeepsMeta(s: State, w: Write, b: nat, k: nat)
    requires Legal(s, w) && HasMeta(s, b, k)
    ensures HasMeta(Commit(s, w), b, k)
  {
    BranchCommitted(s, w, b);
  }

  /** Branch b has had a delta for key k from state j on, and not before. */
  ghost predicate FirstMeta(trace: seq<State>, j: nat, b: nat, k: nat) {
    0 < j < |trace| && HasMeta(trace[j], b, k) && !HasMeta(trace[j - 1], b, k)
  }

  lemma MetaTouchStep(s: State, op: Op, next: State, b: nat, k: nat)
    requires Inv(s) && next == Step(s, op) && !HasMeta(s, b, k) && HasMeta(next, b, k)
    ensures k < |next.keys| && next.branches[b].metas[k].base == next.keys[k].version
  {
    PlanLegal(s, op);
    if Plan(s, op).Success? {
      MetaBase(s, Plan(s, op).value, b, k);
    }
  }

  lemma MetaLaterStep(s: State, op: Op, b: nat, k: nat)
    requires Inv(s) && HasMeta(s, b, k)
    ensures HasMeta(Step(s, op), b, k) && Step(s, op).branches[b].metas[k].base == s.branches[b].metas[k].base
    ensures k < |s.keys| <= |Step(s, op).keys|
    ensures Step(s, op).keys[k] == s.keys[k] || Step(s, op).keys[k].version == s.keys[k].version + 1
  {
    PlanLegal(s, op);
    assert BranchSound(s, s.branches[b]);
    if Plan(s, op).Success? {
      var w := Plan(s, op).value;
      CommitKeepsMeta(s, w, b, k);
      MetaBase(s, w, b, k);
      CommitGrowsKeys(s, w);
    }
  }

  /** Between two states the delta keeps its base and the key row is kept or rewritten one version up. */
  ghost predicate MetaCarried(s: State, next: State, b: nat, k: nat) {
    && HasMeta(s, b, k) && HasMeta(next, b, k)
    && next.branches[b].metas[k].base == s.branches[b].metas[k].base
    && k < |s.keys| <= |next.keys|
    && (next.keys[k] == s.keys[k] || next.keys[k].version == s.keys[k].version + 1)
  }

  lemma MetaCarry(trace: seq<State>, ops: seq<Op>, i: nat, b: nat, k: nat)
    requires Run(trace, ops) && i < |ops| && HasMeta(trace[i], b, k)
    ensures MetaCarried(trace[i], trace[i + 1], b, k)
  {
    RunKeepsInv(trace, ops, i);
    assert Follows(trace, ops, i);
    MetaLaterStep(trace[i], ops[i], b, k);
  }

  lemma MetaTouched(trace: seq<State>, ops: seq<Op>, j: nat, b: nat, k: nat)
    requires Run(trace, ops) && FirstMeta(trace, j, b, k)
    ensures k < |trace[j].keys| && trace[j].branches[b].metas[k].base == trace[j].keys[k].version
  {
    var s := StepBefore(trace, ops, j);
    MetaTouchStep(s, ops[j - 1], trace[j], b, k);
  }

  lemma {:induction false} MetaCarriedOn(trace: seq<State>, ops: seq<Op>, j: nat, n: nat, b: nat, k: nat)
    requires Run(trace, ops) && j <= n < |trace| && HasMeta(trace[j], b, k)
    ensures forall i :: j <= i < n ==> MetaCarried(trace[i], trace[i + 1], b, k)
    ensures HasMeta(trace[n], b, k)
    decreases n
  {
    if j < n {
      MetaCarriedOn(trace, ops, j, n - 1, b, k);
      MetaCarry(trace, ops, n - 1, b, k);
    }
  }

  /** Versions only count up, so the version is still the base exactly if nothing was written. */
  lemma {:induction false} MetaMoved(trace: seq<State>, j: nat, n: nat, b: nat, k: nat)
    requires j <= n < |trace| && HasMeta(trace[j], b, k)
    requires k < |trace[j].keys| && trace[j].branches[b].metas[k].base == trace[j].keys[k].version
    requires forall i :: j <= i < n ==> MetaCarried(trace[i], trace[i + 1], b, k)
    ensures HasMeta(trace[n], b, k) && k < |trace[n].keys|
    ensures trace[n].branches[b].metas[k].base <= trace[n].keys[k].version
    ensures trace[n].branches[b].metas[k].base < trace[n].keys[k].version
            <==> exists i :: j <= i < n && KeyWritten(trace, i, k)
    decreases n
  {
    if j < n {
      MetaMoved(trace, j, n - 1, b, k);
      assert MetaCarried(trace[n - 1], trace[n - 1 + 1], b, k);
      assert trace[n].keys[k] != trace[n - 1].keys[k] <==> KeyWritten(trace, n - 1, k);
    }
  }

  /** Over every run: a metadata delta is flagged exactly when some call wrote that
      key's master row after the branch first touched it. */
  lemma MetaFlagExact(trace: seq<State>, ops: seq<Op>, j: nat, n: nat, b: nat, k: nat)
    requires Run(trace, ops) && j <= n < |trace| && FirstMeta(trace, j, b, k)
    ensures b < |trace[n].branches|
    ensures k in MetaConflicts(trace[n].keys, trace[n].branches[b].metas)
            <==> exists i :: j <= i < n && KeyWritten(trace, i, k)
  {
    MetaTouched(trace, ops, j, b, k);
    MetaCarriedOn(trace, ops, j, n, b, k);
    MetaMoved(trace, j, n, b, k);
  }

  // ---- values -------------------------------------------------------------------

  ghost predicate HasValue(s: State, b: nat, p: Pair) {
    b < |s.branches| && p in s.branches[b].values
  }

  ghost predicate FirstValue(trace: seq<State>, j: nat, b: nat, p: Pair) {
    0 < j < |trace| && HasValue(trace[j], b, p) && !HasValue(trace[j - 1], b, p)
  }

  /** Call i put a master row at the pair. */
  ghost predicate CellWritten(trace: seq<State>, i: nat, p: Pair) {
    && i + 1 < |trace| && p in trace[i + 1].cells
    && (p in trace[i].cells ==> trace[i].cells[p] != trace[i + 1].cells[p])
  }

  /** Call i removed the pair's master row. */
  ghost predicate CellRemoved(trace: seq<State>, i: nat, p: Pair) {
    i + 1 < |trace| && p in trace[i].cells && p !in trace[i + 1].cells
  }

  /** What one write does to a master row: nothing, one version up, or gone. */
  lemma CommitCell(s: State, w: Write, p: Pair)
    requires Fits(s, w)
    ensures var next := Commit(s, w).cells;
            || CellAt(s, p) == (if p in next then Some(next[p]) else None)
            || (p in next && next[p].version == MasterVersion(s.cells, p) + 1)
            || (p in s.cells && p !in next)
  {
    if w.Land? {
      Landing(s, w.b, w.r);
    } else {
      OtherCell(s, w, p);
    }
  }

  lemma OtherCell(s: State, w: Write, p: Pair)
    requires Fits(s, w) && !w.Land?
    ensures var next := Commit(s, w).cells;
            || CellAt(s, p) == (if p in next then Some(next[p]) else None)
            || (p in next && next[p].version == MasterVersion(s.cells, p) + 1)
            || (p in s.cells && p !in next)
  {
  }

  /** The value deltas a write leaves on a branch. */
  lemma CommitValues(s: State, w: Write, b: nat)
    requires Fits(s, w) && b < |Commit(s, w).branches|
    ensures Commit(s, w).branches[b].values ==
            if b >= |s.branches| then map[]
            else if w.EditValue? && w.b == b then PutValue(s.branches[b], s.cells, w.p, w.value, w.hint).values
            else s.branches[b].values
  {
    BranchAdded(s, w);
    if b < |s.branches| {
      BranchCommitted(s, w, b);
    }
  }

  lemma CommitKeepsValue(s: State, w: Write, b: nat, p: Pair)
    requires Fits(s, w)
    ensures HasValue(s, b, p) ==>
              HasValue(Commit(s, w), b, p)
              && Commit(s, w).branches[b].values[p].base == s.branches[b].values[p].base
    ensures !HasValue(s, b, p) && HasValue(Commit(s, w), b, p) ==>
              w.EditValue? && Commit(s, w).cells == s.cells
              && Commit(s, w).branches[b].values[p].base == MasterVersion(s.cells, p)
  {
    CommitEdits(s, w);
    if b < |Commit(s, w).branches| {
      CommitValues(s, w, b);
    }
  }

  /** Between two states the delta keeps its base and the master row is kept,
      rewritten one version up, or removed. */
  ghost predicate ValueCarried(s: State, next: State, b: nat, p: Pair) {
    && HasValue(s, b, p) && HasValue(next, b, p)
    && next.branches[b].values[p].base == s.branches[b].values[p].base
    && (|| CellAt(s, p) == CellAt(next, p)
        || (p in next.cells && next.cells[p].version == MasterVersion(s.cells, p) + 1)
        || (p in s.cells && p !in next.cells))
  }

  lemma ValueCarry(trace: seq<State>, ops: seq<Op>, i: nat, b: nat, p: Pair)
    requires Run(trace, ops) && i < |ops| && HasValue(trace[i], b, p)
    ensures ValueCarried(trace[i], trace[i + 1], b, p)
  {
    var s := trace[i];
    RunKeepsInv(trace, ops, i);
    assert Follows(trace, ops, i);
    PlanLegal(s, ops[i]);
    if Plan(s, ops[i]).Success? {
      CommitCell(s, Plan(s, ops[i]).value, p);
      CommitKeepsValue(s, Plan(s, ops[i]).value, b, p);
    }
  }

  lemma ValueTouchStep(s: State, op: Op, next: State, b: nat, p: Pair)
    requires Inv(s) && next == Step(s, op) && !HasValue(s, b, p) && HasValue(next, b, p)
    ensures next.branches[b].values[p].base == MasterVersion(next.cells, p)
  {
    PlanLegal(s, op);
    if Plan(s, op).Success? {
      CommitKeepsValue(s, Plan(s, op).value, b, p);
    }
  }

  lemma ValueTouched(trace: seq<State>, ops: seq<Op>, j: nat, b: nat, p: Pair)
    requires Run(trace, ops) && FirstValue(trace, j, b, p)
    ensures trace[j].branches[b].values[p].base == MasterVersion(trace[j].cells, p)
  {
    var s := StepBefore(trace, ops, j);
    ValueTouchStep(s, ops[j - 1], trace[j], b, p);
  }

  lemma {:induction false} ValueCarriedOn(trace: seq<State>, ops: seq<Op>, j: nat, n: nat, b: nat, p: Pair)
    requires Run(trace, ops) && j <= n < |trace| && HasValue(trace[j], b, p)
    ensures forall i :: j <= i < n ==> ValueCarried(trace[i], trace[i + 1], b, p)
    ensures HasValue(trace[n], b, p)
    decreases n
  {
    if j < n {
      ValueCarriedOn(trace, ops, j, n - 1, b, p);
      ValueCarry(trace, ops, n - 1, b, p);
    }
  }

  /** The calls among j .. n that wrote the row, counted from its last removal on. */
  ghost function WritesSince(trace: seq<State>, j: nat, n: nat, p: Pair): nat
    requires j <= n < |trace|
    decreases n
  {
    if n == j || CellRemoved(trace, n - 1, p) then 0
    else WritesSince(trace, j, n - 1, p) + (if CellWritten(trace, n - 1, p) then 1 else 0)
  }

  ghost predicate RemovedSince(trace: seq<State>, j: nat, n: nat, p: Pair) {
    exists i :: j <= i < n && CellRemoved(trace, i, p)
  }

  /** A removal drops the version to 0; every write raises it by one. */
  lemma {:induction false} VersionCounts(trace: seq<State>, j: nat, n: nat, b: nat, p: Pair)
    requires j <= n < |trace| && HasValue(trace[j], b, p)
    requires trace[j].branches[b].values[p].base == MasterVersion(trace[j].cells, p)
    requires forall i :: j <= i < n ==> ValueCarried(trace[i], trace[i + 1], b, p)
    ensures HasValue(trace[n], b, p)
    ensures MasterVersion(trace[n].cells, p) == WritesSince(trace, j, n, p)
            + if RemovedSince(trace, j, n, p) then 0 else trace[n].branches[b].values[p].base
    decreases n
  {
    if j < n {
      VersionCounts(trace, j, n - 1, b, p);
      assert ValueCarried(trace[n - 1], trace[n - 1 + 1], b, p);
      if CellRemoved(trace, n - 1, p) {
      } else if RemovedSince(trace, j, n, p) {
        var i :| j <= i < n && CellRemoved(trace, i, p);
        assert RemovedSince(trace, j, n - 1, p);
      }
    }
  }

  /** Over every run, exactly: a value delta is flagged when master was written since
      first touch, and after a removal when the writes since it do not happen to
      number the base version. */
  lemma {:induction false} ValueFlagExact(trace: seq<State>, ops: seq<Op>, j: nat, n: nat, b: nat, p: Pair)
    requires Run(trace, ops) && j <= n < |trace| && FirstValue(trace, j, b, p)
    ensures HasValue(trace[n], b, p)
    ensures p in ValueConflicts(trace[n].cells, trace[n].branches[b].values)
            <==> WritesSince(trace, j, n, p)
                 != if RemovedSince(trace, j, n, p) then trace[n].branches[b].values[p].base else 0
  {
    ValueTouched(trace, ops, j, b, p);
    ValueCarriedOn(trace, ops, j, n, b, p);
    VersionCounts(trace, j, n, b, p);
  }

  lemma {:induction false} SomeWrite(trace: seq<State>, j: nat, n: nat, p: Pair)
    requires j <= n < |trace| && !RemovedSince(trace, j, n, p)
    ensures WritesSince(trace, j, n, p) > 0 <==> exists i :: j <= i < n && CellWritten(trace, i, p)
    decreases n
  {
    if j < n {
      assert !CellRemoved(trace, n - 1, p);
      assert forall i :: j <= i < n - 1 ==> !CellRemoved(trace, i, p);
      SomeWrite(trace, j, n - 1, p);
    }
  }

  /** On runs where the pair was not removed from master since first touch: flagged
      exactly when some call wrote it. */
  lemma ValueFlagWithoutRemoval(trace: seq<State>, ops: seq<Op>, j: nat, n: nat, b: nat, p: Pair)
    requires Run(trace, ops) && j <= n < |trace| && FirstValue(trace, j, b, p)
    requires !RemovedSince(trace, j, n, p)
    ensures b < |trace[n].branches|
    ensures p in ValueConflicts(trace[n].cells, trace[n].branches[b].values)
            <==> exists i :: j <= i < n && CellWritten(trace, i, p)
  {
    ValueFlagExact(trace, ops, j, n, b, p);
    SomeWrite(trace, j, n, p);
  }

  lemma {:induction false} BranchSave(s: State, branch: Text, b: nat, p: Pair, mine: Text)
    requires FindBranch(s.branches, branch) == Some(b) && s.branches[b].status.BranchOpen?
    requires p.locale in s.locales && p.key < |s.keys| && s.keys[p.key].meta.status.Active? && !HasValue(s, b, p)
    ensures var s1 := Step(s, SetTranslation(Some(branch), p.key, p.locale, mine, Plain, None));
            && s1.cells == s.cells && s1.keys == s.keys && s1.locales == s.locales
            && HasValue(s1, b, p) && s1.branches[b].values[p].base == MasterVersion(s.cells, p)
  {
  }

  lemma MasterDelete(s: State, p: Pair)
    requires p.locale in s.locales && p.key < |s.keys| && p in s.cells && s.cells[p].version == 1
    ensures var s1 := Step(s, DeleteTranslation(None, p.key, p.locale, Some(1)));
            s1.cells == s.cells - {p} && s1.branches == s.branches && s1.keys == s.keys && s1.locales == s.locales
  {
  }

  lemma MasterCreate(s: State, p: Pair, theirs: Text)
    requires p.locale in s.locales && p.key < |s.keys| && s.keys[p.key].meta.status.Active? && p !in s.cells
    ensures var s1 := Step(s, SetTranslation(None, p.key, p.locale, theirs, Plain, Some(0)));
            && s1.cells == s.cells[p := Cell(theirs, Plain, 1)]
            && s1.branches == s.branches && s1.keys == s.keys && s1.locales == s.locales
  {
  }

  /** The removal condition is needed: a row removed and created again is back at
      version 1, and a branch that started from version 1 is not flagged. */
  lemma {:induction false} RemovalHidesWrites(s: State, branch: Text, b: nat, p: Pair, mine: Text, theirs: Text)
    requires FindBranch(s.branches, branch) == Some(b) && s.branches[b].status.BranchOpen?
    requires p.locale in s.locales && p.key < |s.keys| && s.keys[p.key].meta.status.Active?
    requires p in s.cells && s.cells[p].version == 1 && !HasValue(s, b, p)
    ensures var s1 := Step(s, SetTranslation(Some(branch), p.key, p.locale, mine, Plain, None));
            var s2 := Step(s1, DeleteTranslation(None, p.key, p.locale, Some(1)));
            var s3 := Step(s2, SetTranslation(None, p.key, p.locale, theirs, Plain, Some(0)));
            && p in s3.cells && s3.cells[p].value == theirs
            && b < |s3.branches| && p in s3.branches[b].values
            && p !in ValueConflicts(s3.cells, s3.branches[b].values)
  {
    var s1 := Step(s, SetTranslation(Some(branch), p.key, p.locale, mine, Plain, None));
    BranchSave(s, branch, b, p, mine);
    MasterDelete(s1, p);
    MasterCreate(Step(s1, DeleteTranslation(None, p.key, p.locale, Some(1))), p, theirs);
  }

  // ---- the branch diff --------------------------------------------------------------

  /** branchValueChangesSQL: every value delta with its conflict flag. */
  function ValueDiff(s: State, b: nat): map<Pair, bool>
    requires b < |s.branches|
  {
    map p | p in s.branches[b].values :: MasterVersion(s.cells, p) != s.branches[b].values[p].base
  }

  /** branchMetaChangesSQL: every metadata delta with its conflict flag. */
  function MetaDiff(s: State, b: nat): map<nat, bool>
    requires b < |s.branches|
  {
    map k | k in s.branches[b].metas && k < |s.keys| :: s.keys[k].version != s.branches[b].metas[k].base
  }

  /** The rows the diff flags and nobody has decided. */
  function UndecidedInDiff(s: State, b: nat, r: nat): (set<Pair>, set<nat>)
    requires b < |s.branches| && r < |s.requests|
  {
    (set p | p in ValueDiff(s, b) && ValueDiff(s, b)[p] && p !in s.requests[r].valueChoices,
     set k | k in MetaDiff(s, b) && MetaDiff(s, b)[k] && k !in s.requests[r].metaChoices)
  }

  /** The merge refuses for exactly those rows. */
  lemma {:induction false} DiffAgreesWithMerge(s: State, name: Text, b: nat, r: nat)
    requires FindBranch(s.branches, name) == Some(b) && FindLive(s.requests, b) == Some(r)
    requires s.requests[r].status.Approved? && !ApprovalStale(s, b)
    ensures var (values, metas) := UndecidedInDiff(s, b, r);
            if values == {} && metas == {} then !(CheckMerge(s, name).Failure? && CheckMerge(s, name).error.Unresolved?)
            else CheckMerge(s, name) == Failure(Unresolved(values, metas))
  {
    assert UndecidedInDiff(s, b, r).0 == UndecidedValues(s, b, r);
    assert UndecidedInDiff(s, b, r).1 == UndecidedMetas(s, b, r);
  }
}
