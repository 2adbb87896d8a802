/** Optimistic saves on master: a save that goes through overwrites what its editor saw. */
module EditGuard {
  import opened Wrappers
  import opened Bytes
  import opened Schema
  import opened Statements
  import opened Service
  import opened Invariants
  import opened Runs
  import opened ConflictFlags
  import opened Outcomes

  // ---- the gap between a save's read and its write --------------------------------------

  /** SetTranslation on master: `read` is the table its comparison sees, `written` the one
      its guarded statement finds. */
  function SaveOver(read: map<Pair, Cell>, written: map<Pair, Cell>, p: Pair, value: Text, hint: Hint, expected: nat)
    : Option<map<Pair, Cell>>
  {
    if MasterVersion(read, p) != expected then None
    else if p !in read then
      // INSERT ... ON CONFLICT DO NOTHING
      if p in written then None else Some(written[p := Cell(value, hint, 1)])
    else if p in written && written[p].version == expected then
      // UPDATE ... WHERE version = expected
      Some(written[p := Cell(value, hint, expected + 1)])
    else None
  }

  /** Whatever master writes land in between: the save goes through exactly when the row was
      at the expected version both times, and then leaves it one version up. */
  lemma SaveIsGuarded(read: map<Pair, Cell>, written: map<Pair, Cell>, p: Pair, value: Text, hint: Hint, expected: nat)
    ensures SaveOver(read, written, p, value, hint, expected) ==
            if MasterVersion(read, p) == expected && MasterVersion(written, p) == expected
            then Some(written[p := MergedValue(written, p, value, hint)]) else None
  {
  }

  // ---- runs --------------------------------------------------------------------------------

  /** A call keeps a master row, puts it one version up, or removes it. */
  lemma RowStep(trace: seq<State>, ops: seq<Op>, i: nat, p: Pair)
    requires Run(trace, ops) && i < |ops|
    ensures || CellAt(trace[i], p) == CellAt(trace[i + 1], p)
            || (p in trace[i + 1].cells && trace[i + 1].cells[p].version == MasterVersion(trace[i].cells, p) + 1)
            || CellRemoved(trace, i, p)
  {
    assert Follows(trace, ops, i);
    if Plan(trace[i], ops[i]).Success? {
      CommitCell(trace[i], Plan(trace[i], ops[i]).value, p);
    }
  }

  /** Without a removal a row that is at the version it was at is the row it was. */
  lemma {:induction false} SameVersionSameRow(trace: seq<State>, ops: seq<Op>, i: nat, n: nat, p: Pair)
    requires Run(trace, ops) && i <= n < |trace| && !RemovedSince(trace, i, n, p)
    ensures MasterVersion(trace[i].cells, p) <= MasterVersion(trace[n].cells, p)
    ensures MasterVersion(trace[i].cells, p) == MasterVersion(trace[n].cells, p)
            ==> CellAt(trace[i], p) == CellAt(trace[n], p)
    decreases n
  {
    if i < n {
      assert !CellRemoved(trace, n - 1, p);
      assert forall m :: i <= m < n - 1 ==> !CellRemoved(trace, m, p);
      SameVersionSameRow(trace, ops, i, n - 1, p);
      RowStep(trace, ops, n - 1, p);
    }
  }

  /** Call m changed the pair's master row. */
  ghost predicate RowChanged(trace: seq<State>, m: nat, p: Pair) {
    m + 1 < |trace| && CellAt(trace[m], p) != CellAt(trace[m + 1], p)
  }

  /** And nothing changed it on the way. */
  lemma {:induction false} SameVersionUnchanged(trace: seq<State>, ops: seq<Op>, i: nat, n: nat, p: Pair)
    requires Run(trace, ops) && i <= n < |trace| && !RemovedSince(trace, i, n, p)
    requires MasterVersion(trace[i].cells, p) == MasterVersion(trace[n].cells, p)
    ensures forall m :: i <= m < n ==> !RowChanged(trace, m, p)
    decreases n
  {
    if i < n {
      assert !CellRemoved(trace, n - 1, p);
      assert forall m :: i <= m < n - 1 ==> !CellRemoved(trace, m, p);
      SameVersionSameRow(trace, ops, i, n - 1, p);
      RowStep(trace, ops, n - 1, p);
      SameVersionUnchanged(trace, ops, i, n - 1, p);
    }
  }

  /** A call saves or deletes the pair on master, sending the version shown in state i. */
  ghost predicate SendsShown(trace: seq<State>, ops: seq<Op>, i: nat, n: nat, p: Pair) {
    && i < |trace| && n < |ops|
    && var shown := Some(MasterVersion(trace[i].cells, p));
       || (ops[n].SetTranslation? && ops[n].branch.None? && ops[n].key == p.key && ops[n].locale == p.locale
           && ops[n].baseVersion == shown)
       || (ops[n].DeleteTranslation? && ops[n].branch.None? && ops[n].key == p.key && ops[n].locale == p.locale
           && ops[n].baseVersion == shown)
  }

  lemma AcceptedVersion(s: State, op: Op, p: Pair, shown: nat)
    requires Plan(s, op).Success?
    requires || op == SetTranslation(None, p.key, p.locale, if op.SetTranslation? then op.value else [],
                                     if op.SetTranslation? then op.hint else Plain, Some(shown))
             || op == DeleteTranslation(None, p.key, p.locale, Some(shown))
    ensures MasterVersion(s.cells, p) == shown
  {
  }

  /** Over every run: a save or delete that is accepted with the version shown earlier finds
      the very row shown then, if the pair was not removed in between. */
  lemma SaveSeesWhatWasShown(trace: seq<State>, ops: seq<Op>, i: nat, n: nat, p: Pair)
    requires Run(trace, ops) && i <= n && SendsShown(trace, ops, i, n, p) && Plan(trace[n], ops[n]).Success?
    requires !RemovedSince(trace, i, n, p)
    ensures CellAt(trace[n], p) == CellAt(trace[i], p)
  {
    AcceptedVersion(trace[n], ops[n], p, MasterVersion(trace[i].cells, p));
    SameVersionSameRow(trace, ops, i, n, p);
  }

  /** Over every run: what a save or delete that is accepted overwrites has stood unchanged
      since it was shown exactly when the pair was not removed in between. */
  lemma SaveGuardExact(trace: seq<State>, ops: seq<Op>, i: nat, n: nat, p: Pair)
    requires Run(trace, ops) && i <= n && SendsShown(trace, ops, i, n, p) && Plan(trace[n], ops[n]).Success?
    ensures (forall m :: i <= m < n ==> !RowChanged(trace, m, p)) <==> !RemovedSince(trace, i, n, p)
  {
    if RemovedSince(trace, i, n, p) {
      var m :| i <= m < n && CellRemoved(trace, m, p);
      assert RowChanged(trace, m, p);
    } else {
      AcceptedVersion(trace[n], ops[n], p, MasterVersion(trace[i].cells, p));
      SameVersionUnchanged(trace, ops, i, n, p);
    }
  }

  /** The condition is needed: a row removed and created again is back at version 1, and a
      save sent for the old version 1 overwrites it unseen. */
  lemma RecreatedRowIsOverwritten(s: State, p: Pair, theirs: Text, mine: Text)
    requires p.locale in s.locales && p.key < |s.keys| && s.keys[p.key].meta.status.Active?
    requires p in s.cells && s.cells[p].version == 1 && theirs != s.cells[p].value
    ensures var s1 := Step(s, DeleteTranslation(None, p.key, p.locale, Some(1)));
            var s2 := Step(s1, SetTranslation(None, p.key, p.locale, theirs, Plain, Some(0)));
            var save := SetTranslation(None, p.key, p.locale, mine, Plain, Some(s.cells[p].version));
            && p in s2.cells && s2.cells[p].value == theirs != s.cells[p].value
            && Plan(s2, save) == Success(WriteCell(p, mine, Plain))
  {
    MasterDelete(s, p);
    MasterCreate(Step(s, DeleteTranslation(None, p.key, p.locale, Some(1))), p, theirs);
  }

  // ---- key rows ------------------------------------------------------------------------------

  /** A call edits or deletes the key on master, sending version v. */
  predicate SendsKey(op: Op, k: nat, v: nat) {
    || (op.UpdateKey? && op.branch.None? && op.key == k && op.baseVersion == Some(v))
    || (op.DeleteKey? && op.branch.None? && op.key == k && op.baseVersion == Some(v))
  }

  /** A version that is not the row's is refused, and changes nothing. */
  lemma KeySaveIsGuarded(s: State, op: Op, k: nat, v: nat)
    requires SendsKey(op, k, v) && v != 0 && k < |s.keys|
    ensures Plan(s, op) == Failure(OptimisticLock) <==> s.keys[k].version != v
    ensures s.keys[k].version != v ==> Step(s, op) == s.(clock := s.clock + 1)
  {
    if op.UpdateKey? {
      UpdatesMaster(s, k, op.patch, op.baseVersion);
    } else {
      DeletesOnMaster(s, k, op.baseVersion);
    }
  }

  lemma KeyRowStep(s: State, op: Op, next: State, k: nat)
    requires next == Step(s, op) && k < |s.keys|
    ensures k < |next.keys| && (next.keys[k] == s.keys[k] || next.keys[k].version == s.keys[k].version + 1)
  {
    if Plan(s, op).Success? {
      CommitGrowsKeys(s, Plan(s, op).value);
    }
  }

  /** Key rows are never removed and their versions never fall: a row that is at the version
      it was at has not been touched. */
  lemma {:induction false} KeyRowStands(trace: seq<State>, ops: seq<Op>, i: nat, n: nat, k: nat)
    requires Run(trace, ops) && i <= n < |trace| && k < |trace[i].keys|
    ensures k < |trace[n].keys| && trace[i].keys[k].version <= trace[n].keys[k].version
    ensures trace[i].keys[k].version == trace[n].keys[k].version ==>
              forall m :: i <= m <= n ==> k < |trace[m].keys| && trace[m].keys[k] == trace[i].keys[k]
    decreases n
  {
    if i < n {
      KeyRowStands(trace, ops, i, n - 1, k);
      var s := StepBefore(trace, ops, n);
      KeyRowStep(s, ops[n - 1], trace[n], k);
    }
  }

  /** Over every run: an edit or a deletion of a key on master that is accepted with the version
      shown earlier finds the very row shown then, and nobody touched it in between. */
  lemma KeySaveSeesWhatWasShown(trace: seq<State>, ops: seq<Op>, i: nat, n: nat, k: nat, v: nat)
    requires Run(trace, ops) && i <= n < |ops| && k < |trace[i].keys| && trace[i].keys[k].version == v
    requires SendsKey(ops[n], k, v) && Plan(trace[n], ops[n]).Success?
    ensures forall m :: i <= m <= n ==> k < |trace[m].keys| && trace[m].keys[k] == trace[i].keys[k]
  {
    KeyRowStands(trace, ops, i, n, k);
    KeySaveIsGuarded(trace[n], ops[n], k, v);
  }
}
