/** What a merge does to master, row by row. */
module MergeMeaning {
  import opened Wrappers
  import opened Bytes
  import opened Schema
  import opened Statements
  import opened Service
  import opened Invariants

  // ---- blocked rows and resolutions -----------------------------------------------

  /** With nothing written since the conflict check, the writing statements block no
      row exactly when every conflict has a decision. */
  lemma BlockedIffUndecided(s: State, b: nat, r: nat)
    requires b < |s.branches| && r < |s.requests|
    ensures && ValuesBlocked(s.cells, s.branches[b].values, s.requests[r].valueChoices, false) == {}
            && ValuesBlocked(s.cells, s.branches[b].values, s.requests[r].valueChoices, true) == {}
            <==> UndecidedValues(s, b, r) == {}
    ensures MetasBlocked(s.keys, s.branches[b].metas, s.requests[r].metaChoices) == {}
            <==> UndecidedMetas(s, b, r) == {}
  {
    var (deltas, choices) := (s.branches[b].values, s.requests[r].valueChoices);
    forall p
      ensures p in UndecidedValues(s, b, r)
              <==> p in ValuesBlocked(s.cells, deltas, choices, false) ||
                   p in ValuesBlocked(s.cells, deltas, choices, true)
    {
    }
    forall k
      ensures k in UndecidedMetas(s, b, r)
              <==> k in MetasBlocked(s.keys, s.branches[b].metas, s.requests[r].metaChoices)
    {
    }
  }

  // ---- names ------------------------------------------------------------------------

  ghost predicate DistinctIds(order: seq<nat>) {
    forall i, j :: 0 <= i < j < |order| ==> order[i] != order[j]
  }

  ghost function Ids(order: seq<nat>): set<nat> {
    set k | k in order
  }

  lemma RowFits(keys: seq<KeyRow>, metas: map<nat, MetaDelta>, k: nat)
    requires MetasSound(keys, metas) && NameCollisions(keys, metas) == {} && k in metas
    ensures metas[k].meta.status.Active? ==> !NameTakenByOther(keys, k, metas[k].meta.name)
  {
    forall j | 0 <= j < |keys|
      ensures metas[k].meta.status.Active? && j != k ==> !HoldsName(keys[j], metas[k].meta.name)
    {
      NoCollision(keys, metas, k, j);
    }
  }

  lemma LandOneThenRest(keys: seq<KeyRow>, metas: map<nat, MetaDelta>, order: seq<nat>)
    requires DistinctIds(order) && order != []
    requires forall i :: 0 <= i < |order| ==> order[i] in metas && order[i] < |keys|
    ensures var k := order[0];
            LandMetas(keys[k := LandMeta(keys[k], metas[k])], metas, Ids(order[1..]))
            == LandMetas(keys, metas, Ids(order))
  {
    var k, rest := order[0], order[1..];
    assert forall j :: j in order <==> j == k || j in rest;
    assert k !in rest;
  }

  /** Landing rows one at a time in any order meets no unique violation, and ends
      where the set-wise UPDATE ends. */
  lemma {:induction false} AnyOrderLands(keys: seq<KeyRow>, metas: map<nat, MetaDelta>, order: seq<nat>)
    requires NamesUnique(keys) && MetasSound(keys, metas) && NameCollisions(keys, metas) == {}
    requires DistinctIds(order) && forall i :: 0 <= i < |order| ==> order[i] in metas
    ensures UpdateInOrder(keys, metas, order) == Some(LandMetas(keys, metas, Ids(order)))
    decreases |order|
  {
    if order == [] {
      assert LandMetas(keys, metas, Ids(order)) == keys;
    } else {
      var k := order[0];
      var next := keys[k := LandMeta(keys[k], metas[k])];
      RowFits(keys, metas, k);
      NoCollisionAfter(keys, metas, k);
      LandedNamesUnique(keys, metas, {k});
      assert next == LandMetas(keys, metas, {k});
      AnyOrderLands(next, metas, order[1..]);
      LandOneThenRest(keys, metas, order);
    }
  }

  lemma NoCollisionAfter(keys: seq<KeyRow>, metas: map<nat, MetaDelta>, k: nat)
    requires NamesUnique(keys) && MetasSound(keys, metas) && NameCollisions(keys, metas) == {} && k in metas
    ensures var next := keys[k := LandMeta(keys[k], metas[k])];
            MetasSound(next, metas) && NameCollisions(next, metas) == {}
  {
    var next := keys[k := LandMeta(keys[k], metas[k])];
    forall i, j | i in metas && 0 <= j < |next|
      ensures !Collides(next, metas, i, j)
    {
      NoCollision(keys, metas, i, j);
    }
  }

  /** Every state of the scan keeps the unique index satisfied. */
  lemma NoIntermediateClash(s: State, b: nat, order: seq<nat>, n: nat)
    requires Inv(s) && b < |s.branches| && NameCollisions(s.keys, s.branches[b].metas) == {}
    requires DistinctIds(order) && (forall i :: 0 <= i < |order| ==> order[i] in s.branches[b].metas) && n <= |order|
    ensures forall i :: 0 <= i < n ==> order[i] < |s.keys|
    ensures var partial := UpdateInOrder(s.keys, s.branches[b].metas, order[..n]);
            partial.Some? && NamesUnique(partial.value)
  {
    assert BranchSound(s, s.branches[b]);
    AnyOrderLands(s.keys, s.branches[b].metas, order[..n]);
    LandedNamesUnique(s.keys, s.branches[b].metas, Ids(order[..n]));
  }

  ghost predicate Enumerates(order: seq<nat>, ids: set<nat>) {
    DistinctIds(order) && forall k :: k in order <==> k in ids
  }

  /** After a successful check the apply phase commits, in whatever order the
      metadata UPDATE visits its rows. */
  lemma CheckedMergeCommits(s: State, name: Text, order: seq<nat>)
    requires Inv(s) && CheckMerge(s, name).Success?
    requires Enumerates(order, LandingKeys(s, CheckMerge(s, name).value.0, CheckMerge(s, name).value.1))
    ensures var (b, r) := CheckMerge(s, name).value; ApplyMerge(s, b, r, order) == Success(Land(b, r))
  {
    var (b, r) := CheckMerge(s, name).value;
    BlockedIffUndecided(s, b, r);
    assert BranchSound(s, s.branches[b]);
    forall i | 0 <= i < |order|
      ensures order[i] in s.branches[b].metas
    {
      assert order[i] in LandingKeys(s, b, r);
    }
    AnyOrderLands(s.keys, s.branches[b].metas, order);
  }

  /** A merge therefore commits exactly when its checks pass. */
  lemma MergeIsItsCheck(s: State, name: Text)
    requires Inv(s)
    ensures PlanMerge(s, name) ==
            if CheckMerge(s, name).Success? then Success(Land(CheckMerge(s, name).value.0, CheckMerge(s, name).value.1))
            else Failure(CheckMerge(s, name).error)
  {
    if CheckMerge(s, name).Success? {
      var (b, r) := CheckMerge(s, name).value;
      CheckedMergeCommits(s, name, Ascending(|s.keys|, LandingKeys(s, b, r)));
    }
  }

  // ---- meaning -------------------------------------------------------------------------

  /** Master's row at the pair is what the branch read there: found, value and hint. */
  ghost predicate ReadsAs(cells: map<Pair, Cell>, p: Pair, read: Resolved) {
    && (p in cells <==> read.found)
    && (p in cells ==> cells[p].value == read.value && cells[p].hint == read.hint)
  }

  ghost predicate SameRow(before: map<Pair, Cell>, after: map<Pair, Cell>, p: Pair) {
    && (p in before <==> p in after)
    && (p in before ==> before[p] == after[p])
  }

  lemma {:induction false} MergePlansLanding(s: State, name: Text, b: nat, r: nat)
    requires Inv(s) && Plan(s, Merge(name)).Success?
    requires FindBranch(s.branches, name) == Some(b) && FindLive(s.requests, b) == Some(r)
    ensures Plan(s, Merge(name)) == Success(Land(b, r))
  {
    MergeIsItsCheck(s, name);
    MergePlanned(s, name);
  }

  lemma MergePlanned(s: State, name: Text)
    ensures Plan(s, Merge(name)) == PlanMerge(s, name)
  {
  }

  /** Somebody has decided a conflict at the pair for master. */
  predicate DecidedForMaster(s: State, b: nat, r: nat, p: Pair)
    requires b < |s.branches| && r < |s.requests|
  {
    var (values, choices) := (s.branches[b].values, s.requests[r].valueChoices);
    && p in values && p in choices && choices[p] == Master
    && values[p].base != if p in s.cells then s.cells[p].version else 0
  }

  /** A merge makes master read, at every pair, as its branch read before; pairs
      decided for master and pairs without a delta keep their row; a tombstone leaves
      no row; a written row is exactly one version up. */
  lemma {:induction false} MergePreservesMeaning(s: State, name: Text, b: nat, r: nat, p: Pair)
    requires Inv(s) && Plan(s, Merge(name)).Success?
    requires FindBranch(s.branches, name) == Some(b) && FindLive(s.requests, b) == Some(r)
    ensures var next := Step(s, Merge(name)).cells;
            var deltas := s.branches[b].values;
            if p in deltas && !DecidedForMaster(s, b, r, p) then
              && ReadsAs(next, p, Resolve(s.cells, deltas, p))
              && (deltas[p].value.None? ==> p !in next)
              && (deltas[p].value.Some? ==>
                    && p in next && next[p].value == deltas[p].value.value && next[p].hint == deltas[p].hint
                    && next[p].version == 1 + if p in s.cells then s.cells[p].version else 0)
            else SameRow(s.cells, next, p)
  {
    MergeLandsCells(s, name, b, r);
    LandedCell(s, b, r, p);
    if p in s.branches[b].values {
      DecidedIsIneligible(s, b, r, p);
    }
  }

  lemma {:induction false} MergeLandsCells(s: State, name: Text, b: nat, r: nat)
    requires Inv(s) && Plan(s, Merge(name)).Success?
    requires FindBranch(s.branches, name) == Some(b) && FindLive(s.requests, b) == Some(r)
    ensures Step(s, Merge(name)).cells == Landed(s, b, r).cells
    ensures ValuesBlocked(s.cells, s.branches[b].values, s.requests[r].valueChoices, false) == {}
    ensures ValuesBlocked(s.cells, s.branches[b].values, s.requests[r].valueChoices, true) == {}
  {
    MergePlansLanding(s, name, b, r);
    PlanLegal(s, Merge(name));
    BlockedIffUndecided(s, b, r);
  }

  lemma DecidedIsIneligible(s: State, b: nat, r: nat, p: Pair)
    requires b < |s.branches| && r < |s.requests| && p in s.branches[b].values
    ensures DecidedForMaster(s, b, r, p)
            <==> !ValueEligible(s.cells, s.branches[b].values, s.requests[r].valueChoices, p)
  {
  }

  lemma LandedCell(s: State, b: nat, r: nat, p: Pair)
    requires b < |s.branches| && r < |s.requests|
    requires ValuesBlocked(s.cells, s.branches[b].values, s.requests[r].valueChoices, false) == {}
    requires ValuesBlocked(s.cells, s.branches[b].values, s.requests[r].valueChoices, true) == {}
    ensures var next := Landed(s, b, r).cells;
            var deltas := s.branches[b].values;
            if p in deltas && ValueEligible(s.cells, deltas, s.requests[r].valueChoices, p) then
              && ReadsAs(next, p, Resolve(s.cells, deltas, p))
              && (deltas[p].value.None? ==> p !in next)
              && (deltas[p].value.Some? ==> p in next && next[p].version == MasterVersion(s.cells, p) + 1)
            else SameRow(s.cells, next, p)
  {
    var deltas, choices := s.branches[b].values, s.requests[r].valueChoices;
    if p in deltas && ValueEligible(s.cells, deltas, choices, p) {
      assert p !in ValuesBlocked(s.cells, deltas, choices, deltas[p].value.None?);
      assert p in ValuesLanding(s.cells, deltas, choices, deltas[p].value.None?);
    } else {
      assert p !in ValuesLanding(s.cells, deltas, choices, false);
      assert p !in ValuesLanding(s.cells, deltas, choices, true);
    }
  }

  /** The same for key metadata. */
  lemma {:induction false} MergePreservesMetadata(s: State, name: Text, b: nat, r: nat, k: nat)
    requires Inv(s) && Plan(s, Merge(name)).Success? && k < |s.keys|
    requires FindBranch(s.branches, name) == Some(b) && FindLive(s.requests, b) == Some(r)
    ensures var next := Step(s, Merge(name)).keys;
            var (metas, choices) := (s.branches[b].metas, s.requests[r].metaChoices);
            && |next| == |s.keys|
            && next[k] ==
               if k in metas && !(k in choices && choices[k] == Master && s.keys[k].version != metas[k].base)
               then s.keys[k].(meta := metas[k].meta, version := s.keys[k].version + 1)
               else s.keys[k]
  {
    MergePlansLanding(s, name, b, r);
    PlanLegal(s, Merge(name));
    BlockedIffUndecided(s, b, r);
    var metas, choices := s.branches[b].metas, s.requests[r].metaChoices;
    if k in metas && MetaEligible(s.keys, metas, choices, k) {
      assert k !in MetasBlocked(s.keys, metas, choices);
      assert k in LandingKeys(s, b, r);
    } else {
      assert k !in LandingKeys(s, b, r);
    }
  }
}
