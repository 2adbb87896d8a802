/** The merge with other transactions' master writes landing between its statements.

    At READ COMMITTED each statement sees what has been committed by then. The
    states s1, s2 and s3 below are what the three writing statements find: any
    master writes may separate them from what the statement before left.
  */
module MergeGap {
  import opened Wrappers
  import opened Bytes
  import opened Schema
  import opened Statements
  import opened Service
  import opened Invariants
  import opened MergeMeaning

  /** Only master's keys, rows and history may differ; keys are never removed. */
  ghost predicate MasterOnly(s: State, t: State) {
    t == s.(keys := t.keys, cells := t.cells, history := t.history) && |s.keys| <= |t.keys|
  }

  ghost predicate Has(s: State, b: nat, r: nat) {
    b < |s.branches| && r < |s.requests|
  }

  function KeyStatement(s: State, b: nat, r: nat, order: seq<nat>): Result<State, Error>
    requires b < |s.branches| && r < |s.requests|
    requires forall i :: 0 <= i < |order| ==> order[i] in LandingKeys(s, b, r)
  {
    var metas, choices := s.branches[b].metas, s.requests[r].metaChoices;
    assert forall i :: 0 <= i < |order| ==> var k := order[i]; k in LandingKeys(s, b, r) && k in metas && k < |s.keys|;
    var updated := UpdateInOrder(s.keys, metas, order);
    var blocked := MetasBlocked(s.keys, metas, choices);
    if updated.None? then Failure(UniqueViolation)
    else if blocked != {} then Failure(ConcurrentMasterWrite(|blocked|))
    else Success(s.(keys := updated.value))
  }

  function PutStatement(s: State, b: nat, r: nat): Result<State, Error>
    requires b < |s.branches| && r < |s.requests|
  {
    var deltas, choices := s.branches[b].values, s.requests[r].valueChoices;
    var blocked := ValuesBlocked(s.cells, deltas, choices, false);
    var puts := ValuesLanding(s.cells, deltas, choices, false);
    if blocked != {} then Failure(ConcurrentMasterWrite(|blocked|))
    else Success(s.(cells := UpsertLanding(s.cells, deltas, puts),
                    history := Record(s.history, UpsertHistory(s.cells, deltas, puts, b))))
  }

  function DropStatement(s: State, b: nat, r: nat): Result<State, Error>
    requires b < |s.branches| && r < |s.requests|
  {
    var deltas, choices := s.branches[b].values, s.requests[r].valueChoices;
    var blocked := ValuesBlocked(s.cells, deltas, choices, true);
    var drops := ValuesLanding(s.cells, deltas, choices, true);
    if blocked != {} then Failure(ConcurrentMasterWrite(|blocked|))
    else Success(s.(cells := s.cells - drops, history := Record(s.history, RemoveHistory(s.cells, drops, b))))
  }

  /** The apply phase over the states its statements find; a failure rolls back
      everything the merge wrote. */
  function ApplyOver(b: nat, r: nat, order: seq<nat>, s1: State, s2: State, s3: State): Result<State, Error>
    requires b < |s1.branches| && r < |s1.requests|
    requires b < |s2.branches| && r < |s2.requests|
    requires b < |s3.branches| && r < |s3.requests|
    requires forall i :: 0 <= i < |order| ==> order[i] in LandingKeys(s1, b, r)
  {
    var t1 :- KeyStatement(s1, b, r, order);
    var t2 :- PutStatement(s2, b, r);
    var t3 :- DropStatement(s3, b, r);
    if t3.requests[r].status != Approved then Failure(NotLive) else Success(t3)
  }

  /** The gaps: master writes before each statement, nothing else. */
  ghost predicate Gaps(s: State, b: nat, r: nat, order: seq<nat>, s1: State, s2: State, s3: State)
  {
    && Has(s, b, r) && MasterOnly(s, s1)
    && (forall i :: 0 <= i < |order| ==> order[i] in LandingKeys(s1, b, r))
    && (KeyStatement(s1, b, r, order).Success? ==> MasterOnly(KeyStatement(s1, b, r, order).value, s2))
    && Has(s2, b, r) && s2.branches[b] == s.branches[b] && s2.requests[r] == s.requests[r]
    && (PutStatement(s2, b, r).Success? ==> MasterOnly(PutStatement(s2, b, r).value, s3))
    && Has(s3, b, r) && s3.branches[b] == s.branches[b] && s3.requests[r] == s.requests[r]
  }

  /** The guard of a written row: master is still at the delta's base, or a human chose the branch. */
  ghost predicate Guarded(version: nat, base: nat, mine: bool) {
    version == base || mine
  }

  ghost predicate KeyOverwritten(before: seq<KeyRow>, after: seq<KeyRow>, k: nat) {
    k < |before| && k < |after| && after[k] != before[k]
  }

  /** Rows a scan has not visited stay as they were. */
  lemma {:induction false} ScanTouchesOrder(keys: seq<KeyRow>, metas: map<nat, MetaDelta>, order: seq<nat>, k: nat)
    requires forall i :: 0 <= i < |order| ==> order[i] in metas && order[i] < |keys|
    requires k < |keys| && k !in order
    ensures var updated := UpdateInOrder(keys, metas, order);
            updated.Some? ==> |updated.value| == |keys| && updated.value[k] == keys[k]
    decreases |order|
  {
    if order != [] {
      var j := order[0];
      ScanTouchesOrder(keys[j := LandMeta(keys[j], metas[j])], metas, order[1..], k);
    }
  }

  lemma {:induction false} ScanKeepsLength(keys: seq<KeyRow>, metas: map<nat, MetaDelta>, order: seq<nat>)
    requires forall i :: 0 <= i < |order| ==> order[i] in metas && order[i] < |keys|
    ensures var updated := UpdateInOrder(keys, metas, order); updated.Some? ==> |updated.value| == |keys|
    decreases |order|
  {
    if order != [] {
      var j := order[0];
      ScanKeepsLength(keys[j := LandMeta(keys[j], metas[j])], metas, order[1..]);
    }
  }

  /** Every key row the metadata statement changes was guarded when it ran. */
  lemma KeysGuarded(s: State, b: nat, r: nat, order: seq<nat>, k: nat)
    requires Has(s, b, r) && forall i :: 0 <= i < |order| ==> order[i] in LandingKeys(s, b, r)
    requires k < |s.keys| && KeyStatement(s, b, r, order).Success?
    ensures var t := KeyStatement(s, b, r, order).value;
            && |t.keys| == |s.keys|
            && (t.keys[k] != s.keys[k] ==>
                  && k in s.branches[b].metas
                  && Guarded(s.keys[k].version, s.branches[b].metas[k].base,
                             ChoseMeta(s.requests[r].metaChoices, k, Mine)))
  {
    var metas := s.branches[b].metas;
    assert forall i :: 0 <= i < |order| ==> var j := order[i]; j in LandingKeys(s, b, r) && j in metas && j < |s.keys|;
    ScanKeepsLength(s.keys, metas, order);
    if k !in order {
      ScanTouchesOrder(s.keys, metas, order, k);
    } else {
      assert k in LandingKeys(s, b, r);
    }
  }

  /** So was every translation row the two value statements change. */
  lemma ValuesGuarded(s: State, b: nat, r: nat, p: Pair)
    requires Has(s, b, r)
    ensures PutStatement(s, b, r).Success? && !SameRow(s.cells, PutStatement(s, b, r).value.cells, p) ==>
              && p in s.branches[b].values
              && Guarded(MasterVersion(s.cells, p), s.branches[b].values[p].base,
                         Chose(s.requests[r].valueChoices, p, Mine))
    ensures DropStatement(s, b, r).Success? && !SameRow(s.cells, DropStatement(s, b, r).value.cells, p) ==>
              && p in s.branches[b].values
              && Guarded(MasterVersion(s.cells, p), s.branches[b].values[p].base,
                         Chose(s.requests[r].valueChoices, p, Mine))
  {
  }

  /** Whatever master writes land in the gaps: a merge that commits has overwritten
      only rows that were still at their base version or decided 'mine'. */
  lemma NoLostUpdate(s: State, b: nat, r: nat, order: seq<nat>, s1: State, s2: State, s3: State)
    requires Gaps(s, b, r, order, s1, s2, s3) && ApplyOver(b, r, order, s1, s2, s3).Success?
    ensures var (deltas, metas) := (s.branches[b].values, s.branches[b].metas);
            && (forall k: nat :: KeyOverwritten(s1.keys, KeyStatement(s1, b, r, order).value.keys, k) ==>
                  k in metas
                  && Guarded(s1.keys[k].version, metas[k].base, ChoseMeta(s.requests[r].metaChoices, k, Mine)))
            && (forall p :: !SameRow(s2.cells, PutStatement(s2, b, r).value.cells, p) ==>
                  p in deltas
                  && Guarded(MasterVersion(s2.cells, p), deltas[p].base, Chose(s.requests[r].valueChoices, p, Mine)))
            && (forall p :: !SameRow(s3.cells, DropStatement(s3, b, r).value.cells, p) ==>
                  p in deltas
                  && Guarded(MasterVersion(s3.cells, p), deltas[p].base, Chose(s.requests[r].valueChoices, p, Mine)))
  {
    forall k: nat | KeyOverwritten(s1.keys, KeyStatement(s1, b, r, order).value.keys, k)
      ensures k in s.branches[b].metas
              && Guarded(s1.keys[k].version, s.branches[b].metas[k].base, ChoseMeta(s.requests[r].metaChoices, k, Mine))
    {
      KeysGuarded(s1, b, r, order, k);
    }
    forall p
      ensures !SameRow(s2.cells, PutStatement(s2, b, r).value.cells, p) ==>
                p in s.branches[b].values
                && Guarded(MasterVersion(s2.cells, p), s.branches[b].values[p].base,
                           Chose(s.requests[r].valueChoices, p, Mine))
      ensures !SameRow(s3.cells, DropStatement(s3, b, r).value.cells, p) ==>
                p in s.branches[b].values
                && Guarded(MasterVersion(s3.cells, p), s.branches[b].values[p].base,
                           Chose(s.requests[r].valueChoices, p, Mine))
    {
      ValuesGuarded(s2, b, r, p);
      ValuesGuarded(s3, b, r, p);
    }
  }

  /** A racing write to an undecided row is never overwritten: the merge fails. */
  lemma RacedMergeFails(s: State, b: nat, r: nat, order: seq<nat>, s1: State, s2: State, s3: State)
    requires Gaps(s, b, r, order, s1, s2, s3)
    requires || (exists k :: k in s.branches[b].metas && k < |s1.keys| && k !in s.requests[r].metaChoices
                  && s1.keys[k].version != s.branches[b].metas[k].base)
             || (exists p :: p in s.branches[b].values && p !in s.requests[r].valueChoices
                  && MasterVersion(if s.branches[b].values[p].value.Some? then s2.cells else s3.cells, p)
                     != s.branches[b].values[p].base)
    ensures ApplyOver(b, r, order, s1, s2, s3).Failure?
  {
    if k :| k in s.branches[b].metas && k < |s1.keys| && k !in s.requests[r].metaChoices
            && s1.keys[k].version != s.branches[b].metas[k].base {
      assert k in MetasBlocked(s1.keys, s1.branches[b].metas, s1.requests[r].metaChoices);
    } else {
      var p :| p in s.branches[b].values && p !in s.requests[r].valueChoices
               && MasterVersion(if s.branches[b].values[p].value.Some? then s2.cells else s3.cells, p)
                  != s.branches[b].values[p].base;
      if s.branches[b].values[p].value.Some? {
        assert p in ValuesBlocked(s2.cells, s2.branches[b].values, s2.requests[r].valueChoices, false);
      } else {
        assert p in ValuesBlocked(s3.cells, s3.branches[b].values, s3.requests[r].valueChoices, true);
      }
    }
  }

  /** With nothing blocked the two value statements add up to the landing's rows. */
  lemma ValuesAddUp(s: State, t: State, b: nat, r: nat)
    requires Has(s, b, r) && t == s.(keys := t.keys)
    requires ValuesBlocked(s.cells, s.branches[b].values, s.requests[r].valueChoices, false) == {}
    requires ValuesBlocked(s.cells, s.branches[b].values, s.requests[r].valueChoices, true) == {}
    ensures PutStatement(t, b, r).Success?
    ensures DropStatement(PutStatement(t, b, r).value, b, r)
            == Success(t.(cells := Landed(s, b, r).cells, history := Landed(s, b, r).history))
  {
    PutsKeepDrops(s, b, r);
  }

  /** The key statement, in whatever order it scans. */
  lemma KeysAddUp(s: State, b: nat, r: nat, order: seq<nat>)
    requires Inv(s) && Has(s, b, r) && Enumerates(order, LandingKeys(s, b, r))
    requires NameCollisions(s.keys, s.branches[b].metas) == {}
    requires MetasBlocked(s.keys, s.branches[b].metas, s.requests[r].metaChoices) == {}
    ensures forall i :: 0 <= i < |order| ==> order[i] in LandingKeys(s, b, r)
    ensures KeyStatement(s, b, r, order) == Success(s.(keys := Landed(s, b, r).keys))
  {
    assert BranchSound(s, s.branches[b]);
    forall i | 0 <= i < |order|
      ensures order[i] in LandingKeys(s, b, r) && order[i] in s.branches[b].metas
    {
    }
    AnyOrderLands(s.keys, s.branches[b].metas, order);
    assert Ids(order) == LandingKeys(s, b, r);
  }

  /** Without gaps the statement-by-statement merge is the one of `Service`. */
  lemma NoGapIsAtomic(s: State, name: Text, b: nat, r: nat, order: seq<nat>)
    requires Inv(s) && CheckMerge(s, name) == Success((b, r)) && Enumerates(order, LandingKeys(s, b, r))
    ensures forall i :: 0 <= i < |order| ==> order[i] in LandingKeys(s, b, r)
    ensures var t1 := KeyStatement(s, b, r, order);
            && t1.Success? && PutStatement(t1.value, b, r).Success?
            && ApplyOver(b, r, order, s, t1.value, PutStatement(t1.value, b, r).value) == Success(Landed(s, b, r))
  {
    BlockedIffUndecided(s, b, r);
    StatementsAddUp(s, b, r, order);
  }

  lemma StatementsAddUp(s: State, b: nat, r: nat, order: seq<nat>)
    requires Inv(s) && Has(s, b, r) && Enumerates(order, LandingKeys(s, b, r)) && s.requests[r].status.Approved?
    requires NameCollisions(s.keys, s.branches[b].metas) == {}
    requires MetasBlocked(s.keys, s.branches[b].metas, s.requests[r].metaChoices) == {}
    requires ValuesBlocked(s.cells, s.branches[b].values, s.requests[r].valueChoices, false) == {}
    requires ValuesBlocked(s.cells, s.branches[b].values, s.requests[r].valueChoices, true) == {}
    ensures forall i :: 0 <= i < |order| ==> order[i] in LandingKeys(s, b, r)
    ensures var t1 := KeyStatement(s, b, r, order);
            && t1.Success? && PutStatement(t1.value, b, r).Success?
            && ApplyOver(b, r, order, s, t1.value, PutStatement(t1.value, b, r).value) == Success(Landed(s, b, r))
  {
    KeysAddUp(s, b, r, order);
    ValuesAddUp(s, s.(keys := Landed(s, b, r).keys), b, r);
  }

  /** The put statement does not touch the rows of the drop statement. */
  lemma PutsKeepDrops(s: State, b: nat, r: nat)
    requires Has(s, b, r)
    ensures var deltas, choices := s.branches[b].values, s.requests[r].valueChoices;
            var upserted := UpsertLanding(s.cells, deltas, ValuesLanding(s.cells, deltas, choices, false));
            && ValuesBlocked(upserted, deltas, choices, true) == ValuesBlocked(s.cells, deltas, choices, true)
            && ValuesLanding(upserted, deltas, choices, true) == ValuesLanding(s.cells, deltas, choices, true)
  {
    var deltas, choices := s.branches[b].values, s.requests[r].valueChoices;
    var upserted := UpsertLanding(s.cells, deltas, ValuesLanding(s.cells, deltas, choices, false));
    forall p | p in deltas && deltas[p].value.None?
      ensures MasterVersion(upserted, p) == MasterVersion(s.cells, p)
    {
    }
  }
}
