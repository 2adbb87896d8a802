/** Merges of disjoint branches commute; merges that meet on a pair do not pass unnoticed. */
module Commuting {
  import opened Wrappers
  import opened Bytes
  import opened Schema
  import opened Statements
  import opened Service
  import opened Invariants
  import opened MergeMeaning

  // ---- lookups see only what they look at ---------------------------------------------

  lemma {:induction false} SameNames(a: seq<Branch>, c: seq<Branch>, name: Text)
    requires |a| == |c| && forall i :: 0 <= i < |a| ==> a[i].name == c[i].name
    ensures FindBranch(a, name) == FindBranch(c, name)
  {
    if a != [] {
      SameNames(a[..|a| - 1], c[..|c| - 1], name);
    }
  }

  lemma {:induction false} SameLive(a: seq<Request>, c: seq<Request>, b: nat)
    requires |a| == |c| && forall i :: 0 <= i < |a| ==> LiveOn(a[i], b) == LiveOn(c[i], b)
    ensures FindLive(a, b) == FindLive(c, b)
  {
    if a != [] {
      SameLive(a[..|a| - 1], c[..|c| - 1], b);
    }
  }

  // ---- one merge as seen by the other -------------------------------------------------

  /** Ready to merge, with value deltas only and no conflict. */
  ghost predicate CleanValues(s: State, name: Text, b: nat, r: nat) {
    && CheckMerge(s, name) == Success((b, r))
    && s.branches[b].metas == map[]
    && ValueConflicts(s.cells, s.branches[b].values) == {}
  }

  /** What a merge of value deltas leaves of s, releases and clock aside. */
  ghost predicate LeftBy(s: State, t: State, b: nat, r: nat)
    requires b < |s.branches| && r < |s.requests|
  {
    && t.keys == s.keys && t.cells == Landed(s, b, r).cells && t.history == Landed(s, b, r).history
    && t.requests == s.requests[r := s.requests[r].(status := RequestStatus.Merged)]
    && t.branches == s.branches[b := s.branches[b].(status := BranchMerged)]
  }

  lemma LandingLeaves(s: State, b: nat, r: nat)
    requires b < |s.branches| && r < |s.requests| && s.branches[b].metas == map[]
    ensures LeftBy(s, Commit(s, Land(b, r)).(clock := s.clock + 1), b, r)
  {
    assert LandingKeys(s, b, r) == {};
    assert LandMetas(s.keys, s.branches[b].metas, {}) == s.keys;
  }

  lemma MergeLeaves(s: State, name: Text, b: nat, r: nat)
    requires Inv(s) && CleanValues(s, name, b, r)
    ensures Plan(s, Merge(name)) == Success(Land(b, r)) && LeftBy(s, Step(s, Merge(name)), b, r)
  {
    MergeIsItsCheck(s, name);
    MergeStep(s, name, Land(b, r));
    LandingLeaves(s, b, r);
  }

  lemma MergeStep(s: State, name: Text, w: Write)
    requires PlanMerge(s, name) == Success(w)
    ensures Plan(s, Merge(name)) == Success(w) && Step(s, Merge(name)) == Commit(s, w).(clock := s.clock + 1)
  {
  }

  /** A row after merges of these deltas: the branch's reading one version up, or untouched. */
  ghost predicate MergedRow(before: map<Pair, Cell>, after: map<Pair, Cell>, deltas: map<Pair, ValueDelta>, p: Pair) {
    if p in deltas then
      && ReadsAs(after, p, Resolve(before, deltas, p))
      && (p in after ==> after[p].version == MasterVersion(before, p) + 1)
    else SameRow(before, after, p)
  }

  /** A clean merge writes its own pairs and no other. */
  lemma CleanCell(s: State, name: Text, b: nat, r: nat, p: Pair)
    requires Inv(s) && CleanValues(s, name, b, r)
    ensures MergedRow(s.cells, Landed(s, b, r).cells, s.branches[b].values, p)
  {
    BlockedIffUndecided(s, b, r);
    LandedCell(s, b, r, p);
    if p in s.branches[b].values {
      assert p !in ValueConflicts(s.cells, s.branches[b].values);
    }
  }

  /** The history rows a merge of these deltas of branch b leaves at a pair. */
  function LandingRows(cells: map<Pair, Cell>, deltas: map<Pair, ValueDelta>, b: nat, p: Pair): seq<Entry> {
    if p !in deltas then []
    else if deltas[p].value.Some? then
      [Entry(deltas[p].value, deltas[p].hint, MasterVersion(cells, p) + 1, FromMerge, Some(b))]
    else if p in cells then [Entry(None, cells[p].hint, cells[p].version, FromMerge, Some(b))]
    else []
  }

  ghost predicate Extends(before: map<Pair, seq<Entry>>, after: map<Pair, seq<Entry>>, rows: seq<Entry>, p: Pair) {
    && Timeline(after, p) == Timeline(before, p) + rows
    && (p in after <==> p in before || rows != [])
  }

  lemma ExtendsTwice(before: map<Pair, seq<Entry>>, between: map<Pair, seq<Entry>>, after: map<Pair, seq<Entry>>,
                     one: seq<Entry>, two: seq<Entry>, p: Pair)
    requires Extends(before, between, one, p) && Extends(between, after, two, p)
    ensures Extends(before, after, one + two, p)
  {
  }

  lemma RecordAt(history: map<Pair, seq<Entry>>, rows: map<Pair, Entry>, p: Pair)
    ensures Extends(history, Record(history, rows), if p in rows then [rows[p]] else [], p)
  {
  }

  /** A clean branch's delta is landed by the statement of its kind. */
  lemma CleanLands(s: State, name: Text, b: nat, r: nat, p: Pair, removed: bool)
    requires CleanValues(s, name, b, r)
    ensures var (deltas, choices) := (s.branches[b].values, s.requests[r].valueChoices);
            p in ValuesLanding(s.cells, deltas, choices, removed) <==> p in deltas && deltas[p].value.None? == removed
  {
    if p in s.branches[b].values {
      assert p !in ValueConflicts(s.cells, s.branches[b].values);
    }
  }

  /** A clean merge leaves history at its own pairs and no other. */
  lemma CleanTimeline(s: State, name: Text, b: nat, r: nat, p: Pair)
    requires CleanValues(s, name, b, r)
    ensures Extends(s.history, Landed(s, b, r).history, LandingRows(s.cells, s.branches[b].values, b, p), p)
  {
    var (deltas, choices) := (s.branches[b].values, s.requests[r].valueChoices);
    var puts := ValuesLanding(s.cells, deltas, choices, false);
    var drops := ValuesLanding(s.cells, deltas, choices, true);
    CleanLands(s, name, b, r, p, false);
    CleanLands(s, name, b, r, p, true);
    LandingRecords(s.cells, s.history, deltas, puts, drops, b, p);
  }

  /** What the two statements record at a pair. */
  lemma LandingRecords(cells: map<Pair, Cell>, history: map<Pair, seq<Entry>>, deltas: map<Pair, ValueDelta>,
                       puts: set<Pair>, drops: set<Pair>, b: nat, p: Pair)
    requires forall q :: q in puts ==> q in deltas && deltas[q].value.Some?
    requires p in puts <==> p in deltas && deltas[p].value.Some?
    requires p in drops <==> p in deltas && deltas[p].value.None?
    ensures var put := UpsertHistory(cells, deltas, puts, b);
            var dropped := RemoveHistory(UpsertLanding(cells, deltas, puts), drops, b);
            Extends(history, Record(Record(history, put), dropped), LandingRows(cells, deltas, b, p), p)
  {
    var put := UpsertHistory(cells, deltas, puts, b);
    var dropped := RemoveHistory(UpsertLanding(cells, deltas, puts), drops, b);
    RecordAt(history, put, p);
    RecordAt(Record(history, put), dropped, p);
    ExtendsTwice(history, Record(history, put), Record(Record(history, put), dropped),
                 if p in put then [put[p]] else [], if p in dropped then [dropped[p]] else [], p);
  }

  /** A row the first merge does not touch is the same to the second. */
  lemma RowsAfter(cells: map<Pair, Cell>, between: map<Pair, Cell>, d1: map<Pair, ValueDelta>, b1: nat,
                  d2: map<Pair, ValueDelta>, b2: nat, p: Pair)
    requires d1.Keys !! d2.Keys && MergedRow(cells, between, d1, p)
    ensures LandingRows(cells, d1, b1, p) + LandingRows(between, d2, b2, p) == RowsOfEither(cells, d1, b1, d2, b2, p)
  {
  }

  lemma BothTimelines(s: State, t: State, u: State, n1: Text, b1: nat, r1: nat, n2: Text, b2: nat, r2: nat, p: Pair)
    requires Inv(s) && CleanValues(s, n1, b1, r1) && LeftBy(s, t, b1, r1)
    requires CleanValues(t, n2, b2, r2) && LeftBy(t, u, b2, r2)
    requires s.branches[b1].values.Keys !! t.branches[b2].values.Keys
    ensures Extends(s.history, u.history,
                    RowsOfEither(s.cells, s.branches[b1].values, b1, t.branches[b2].values, b2, p), p)
  {
    var (d1, d2) := (s.branches[b1].values, t.branches[b2].values);
    CleanTimeline(s, n1, b1, r1, p);
    CleanTimeline(t, n2, b2, r2, p);
    CleanCell(s, n1, b1, r1, p);
    ExtendsTwice(s.history, t.history, u.history, LandingRows(s.cells, d1, b1, p), LandingRows(t.cells, d2, b2, p), p);
    RowsAfter(s.cells, t.cells, d1, b1, d2, b2, p);
  }

  function RowsOfEither(cells: map<Pair, Cell>, d1: map<Pair, ValueDelta>, b1: nat, d2: map<Pair, ValueDelta>, b2: nat,
                        p: Pair): seq<Entry>
  {
    if p in d1 then LandingRows(cells, d1, b1, p) else LandingRows(cells, d2, b2, p)
  }

  lemma StaysFresh(s: State, t: State, b1: nat, r1: nat, b2: nat)
    requires b1 < |s.branches| && r1 < |s.requests| && s.requests[r1].branch == b1 && LeftBy(s, t, b1, r1)
    requires b2 < |s.branches| && b1 != b2 && !ApprovalStale(s, b2)
    ensures !ApprovalStale(t, b2)
  {
    forall i | 0 <= i < |t.requests|
      ensures !Stale(t.requests[i], b2, t.branches[b2].lastEdited)
    {
      assert !Stale(s.requests[i], b2, s.branches[b2].lastEdited);
    }
  }

  lemma {:induction false} StillFound(s: State, t: State, b1: nat, r1: nat, n2: Text, b2: nat)
    requires b1 < |s.branches| && r1 < |s.requests| && s.requests[r1].branch == b1 && LeftBy(s, t, b1, r1)
    requires b2 < |s.branches| && b1 != b2
    ensures FindBranch(t.branches, n2) == FindBranch(s.branches, n2)
            && FindLive(t.requests, b2) == FindLive(s.requests, b2)
  {
    SameNames(s.branches, t.branches, n2);
    SameLive(s.requests, t.requests, b2);
  }

  lemma {:induction false} CheckedMerge(s: State, name: Text, b: nat, r: nat)
    requires CheckMerge(s, name) == Success((b, r))
    ensures FindBranch(s.branches, name) == Some(b) && FindLive(s.requests, b) == Some(r)
    ensures s.requests[r].branch == b && s.requests[r].status.Approved? && !ApprovalStale(s, b)
  {
  }

  lemma {:induction false} StaysApproved(s: State, t: State, b1: nat, r1: nat, n2: Text, b2: nat, r2: nat)
    requires b1 < |s.branches| && r1 < |s.requests| && s.requests[r1].branch == b1 && LeftBy(s, t, b1, r1)
    requires CheckMerge(s, n2) == Success((b2, r2)) && b1 != b2
    ensures FindBranch(t.branches, n2) == Some(b2) && FindLive(t.requests, b2) == Some(r2)
    ensures t.branches[b2] == s.branches[b2] && t.requests[r2] == s.requests[r2] && !ApprovalStale(t, b2)
  {
    CheckedMerge(s, n2, b2, r2);
    StillFound(s, t, b1, r1, n2, b2);
    StaysFresh(s, t, b1, r1, b2);
  }

  lemma StaysConflictFree(s: State, t: State, n1: Text, b1: nat, r1: nat, b2: nat)
    requires Inv(s) && CleanValues(s, n1, b1, r1) && LeftBy(s, t, b1, r1)
    requires b2 < |s.branches| && s.branches[b1].values.Keys !! s.branches[b2].values.Keys
    requires ValueConflicts(s.cells, s.branches[b2].values) == {}
    ensures ValueConflicts(t.cells, s.branches[b2].values) == {}
    ensures forall p :: p in s.branches[b2].values ==> MasterVersion(t.cells, p) == MasterVersion(s.cells, p)
  {
    forall p | p in s.branches[b2].values
      ensures MasterVersion(t.cells, p) == MasterVersion(s.cells, p)
      ensures !ValueConflict(s.cells, s.branches[b2].values, p)
    {
      CleanCell(s, n1, b1, r1, p);
      assert p !in ValueConflicts(s.cells, s.branches[b2].values);
    }
  }

  /** The other branch is as ready after the merge as before it. */
  lemma StaysClean(s: State, t: State, n1: Text, b1: nat, r1: nat, n2: Text, b2: nat, r2: nat)
    requires Inv(s) && CleanValues(s, n1, b1, r1) && CleanValues(s, n2, b2, r2) && b1 != b2
    requires s.branches[b1].values.Keys !! s.branches[b2].values.Keys && LeftBy(s, t, b1, r1)
    ensures CleanValues(t, n2, b2, r2)
    ensures t.branches[b2] == s.branches[b2] && t.requests[r2] == s.requests[r2]
  {
    StaysApproved(s, t, b1, r1, n2, b2, r2);
    StaysConflictFree(s, t, n1, b1, r1, b2);
    assert UndecidedValues(t, b2, r2) == {};
    assert UndecidedMetas(t, b2, r2) == {};
    assert NameCollisions(t.keys, t.branches[b2].metas) == {};
  }

  /** Rows merged one set of deltas after the other are merged with both at once. */
  lemma MergedTwice(before: map<Pair, Cell>, between: map<Pair, Cell>, after: map<Pair, Cell>,
                    d1: map<Pair, ValueDelta>, d2: map<Pair, ValueDelta>, p: Pair)
    requires d1.Keys !! d2.Keys && MergedRow(before, between, d1, p) && MergedRow(between, after, d2, p)
    ensures MergedRow(before, after, d1 + d2, p)
  {
  }

  lemma BothCells(s: State, t: State, u: State, n1: Text, b1: nat, r1: nat, n2: Text, b2: nat, r2: nat)
    requires Inv(s) && CleanValues(s, n1, b1, r1) && LeftBy(s, t, b1, r1)
    requires Inv(t) && CleanValues(t, n2, b2, r2) && LeftBy(t, u, b2, r2)
    requires s.branches[b1].values.Keys !! t.branches[b2].values.Keys
    ensures forall p :: MergedRow(s.cells, u.cells, s.branches[b1].values + t.branches[b2].values, p)
  {
    forall p
      ensures MergedRow(s.cells, u.cells, s.branches[b1].values + t.branches[b2].values, p)
    {
      CleanCell(s, n1, b1, r1, p);
      CleanCell(t, n2, b2, r2, p);
      MergedTwice(s.cells, t.cells, u.cells, s.branches[b1].values, t.branches[b2].values, p);
    }
  }

  /** The deltas determine the merged table. */
  lemma MergedTablesAgree(before: map<Pair, Cell>, a: map<Pair, Cell>, c: map<Pair, Cell>,
                          deltas: map<Pair, ValueDelta>)
    requires forall p :: MergedRow(before, a, deltas, p)
    requires forall p :: MergedRow(before, c, deltas, p)
    ensures a == c
  {
    forall p
      ensures p in a <==> p in c
      ensures p in a ==> a[p] == c[p]
    {
      assert MergedRow(before, a, deltas, p) && MergedRow(before, c, deltas, p);
    }
  }

  ghost predicate Closed(s: State, u: State, b1: nat, r1: nat, b2: nat, r2: nat)
    requires b1 < |s.branches| && r1 < |s.requests| && b2 < |s.branches| && r2 < |s.requests|
  {
    && u.keys == s.keys
    && u.requests == s.requests[r1 := s.requests[r1].(status := RequestStatus.Merged)]
                              [r2 := s.requests[r2].(status := RequestStatus.Merged)]
    && u.branches == s.branches[b1 := s.branches[b1].(status := BranchMerged)]
                              [b2 := s.branches[b2].(status := BranchMerged)]
  }

  /** One of two disjoint clean merges after the other goes through. */
  lemma ThenMerges(s: State, n1: Text, b1: nat, r1: nat, n2: Text, b2: nat, r2: nat) returns (t: State, u: State)
    requires Inv(s) && CleanValues(s, n1, b1, r1) && CleanValues(s, n2, b2, r2) && b1 != b2
    requires s.branches[b1].values.Keys !! s.branches[b2].values.Keys
    ensures t == Step(s, Merge(n1)) && u == Step(t, Merge(n2))
    ensures Plan(s, Merge(n1)) == Success(Land(b1, r1)) && Plan(t, Merge(n2)) == Success(Land(b2, r2))
    ensures Closed(s, u, b1, r1, b2, r2)
    ensures forall p :: MergedRow(s.cells, u.cells, s.branches[b1].values + s.branches[b2].values, p)
    ensures forall p :: Extends(s.history, u.history,
                                RowsOfEither(s.cells, s.branches[b1].values, b1, s.branches[b2].values, b2, p), p)
  {
    t := Step(s, Merge(n1));
    u := Step(t, Merge(n2));
    StepKeepsInv(s, Merge(n1));
    MergeLeaves(s, n1, b1, r1);
    StaysClean(s, t, n1, b1, r1, n2, b2, r2);
    MergeLeaves(t, n2, b2, r2);
    BothCells(s, t, u, n1, b1, r1, n2, b2, r2);
    forall p
      ensures Extends(s.history, u.history,
                      RowsOfEither(s.cells, s.branches[b1].values, b1, s.branches[b2].values, b2, p), p)
    {
      BothTimelines(s, t, u, n1, b1, r1, n2, b2, r2, p);
    }
  }

  lemma ClosedCommutes(s: State, u1: State, u2: State, b1: nat, r1: nat, b2: nat, r2: nat)
    requires b1 < |s.branches| && r1 < |s.requests| && b2 < |s.branches| && r2 < |s.requests|
    requires Closed(s, u1, b1, r1, b2, r2) && Closed(s, u2, b2, r2, b1, r1)
    requires b1 != b2 && r1 != r2
    ensures u1.keys == u2.keys == s.keys && u1.requests == u2.requests && u1.branches == u2.branches
  {
  }

  /** Approved, conflict-free branches with value deltas on disjoint pairs: both orders
      succeed and leave the same keys, translations, versions and histories. */
  lemma DisjointMergesCommute(s: State, n1: Text, b1: nat, r1: nat, n2: Text, b2: nat, r2: nat)
    returns (u1: State, u2: State)
    requires Inv(s) && CleanValues(s, n1, b1, r1) && CleanValues(s, n2, b2, r2) && b1 != b2
    requires s.branches[b1].values.Keys !! s.branches[b2].values.Keys
    ensures var t1 := Step(s, Merge(n1));
            u1 == Step(t1, Merge(n2))
            && Plan(s, Merge(n1)) == Success(Land(b1, r1)) && Plan(t1, Merge(n2)) == Success(Land(b2, r2))
    ensures var t2 := Step(s, Merge(n2));
            u2 == Step(t2, Merge(n1))
            && Plan(s, Merge(n2)) == Success(Land(b2, r2)) && Plan(t2, Merge(n1)) == Success(Land(b1, r1))
    ensures u1.cells == u2.cells && u1.history == u2.history && u1.keys == u2.keys == s.keys
    ensures u1.requests == u2.requests && u1.branches == u2.branches
  {
    var t1, t2;
    t1, u1 := ThenMerges(s, n1, b1, r1, n2, b2, r2);
    t2, u2 := ThenMerges(s, n2, b2, r2, n1, b1, r1);
    ClosedCommutes(s, u1, u2, b1, r1, b2, r2);
    var d1, d2 := s.branches[b1].values, s.branches[b2].values;
    assert d1 + d2 == d2 + d1;
    MergedTablesAgree(s.cells, u1.cells, u2.cells, d1 + d2);
    HistoriesAgree(s, u1.history, u2.history, d1, b1, d2, b2);
  }

  lemma HistoriesAgree(s: State, a: map<Pair, seq<Entry>>, c: map<Pair, seq<Entry>>,
                       d1: map<Pair, ValueDelta>, b1: nat, d2: map<Pair, ValueDelta>, b2: nat)
    requires d1.Keys !! d2.Keys
    requires forall p :: Extends(s.history, a, RowsOfEither(s.cells, d1, b1, d2, b2, p), p)
    requires forall p :: Extends(s.history, c, RowsOfEither(s.cells, d2, b2, d1, b1, p), p)
    ensures a == c
  {
    forall p
      ensures p in a <==> p in c
      ensures p in a ==> a[p] == c[p]
    {
      assert RowsOfEither(s.cells, d1, b1, d2, b2, p) == RowsOfEither(s.cells, d2, b2, d1, b1, p);
      assert Extends(s.history, a, RowsOfEither(s.cells, d1, b1, d2, b2, p), p);
      assert Extends(s.history, c, RowsOfEither(s.cells, d2, b2, d1, b1, p), p);
    }
  }

  // ---- two branches on one pair ----------------------------------------------------------

  /** Two branches touched one pair at the same master version, and the first lands its
      delta there: the second is then flagged, unless the landing brought the version
      back to that base, which takes a removed row. */
  lemma SecondIsFlagged(s: State, b1: nat, r1: nat, b2: nat, p: Pair)
    requires b1 < |s.branches| && r1 < |s.requests| && b2 < |s.branches|
    requires p in s.branches[b1].values && p in s.branches[b2].values
    requires s.branches[b1].values[p].base == s.branches[b2].values[p].base
    requires ValueLands(s.cells, s.branches[b1].values, s.requests[r1].valueChoices, p)
    ensures var d := s.branches[b1].values[p];
            p in ValueConflicts(Landed(s, b1, r1).cells, s.branches[b2].values)
            <==> d.base != if d.value.Some? then MasterVersion(s.cells, p) + 1 else 0
  {
    var deltas, choices := s.branches[b1].values, s.requests[r1].valueChoices;
    assert p in ValuesLanding(s.cells, deltas, choices, deltas[p].value.None?);
  }

  /** A flagged pair without a decision keeps the branch from merging. */
  lemma {:induction false} FlaggedCannotMerge(t: State, name: Text, b: nat, r: nat, p: Pair)
    requires FindBranch(t.branches, name) == Some(b) && FindLive(t.requests, b) == Some(r)
    requires p in ValueConflicts(t.cells, t.branches[b].values) && p !in t.requests[r].valueChoices
    ensures PlanMerge(t, name).Failure?
  {
    assert p in UndecidedValues(t, b, r);
    assert CheckMerge(t, name).Failure?;
  }

  /** In particular, when the first merge was clean at the pair and changed master there,
      the second cannot merge before someone decides. */
  lemma {:induction false} SecondNeedsDecision(s: State, t: State, b1: nat, r1: nat, n2: Text, b2: nat, r2: nat,
                                               p: Pair)
    requires b1 < |s.branches| && r1 < |s.requests| && b2 < |s.branches|
    requires p in s.branches[b1].values && p in s.branches[b2].values
    requires s.branches[b1].values[p].base == s.branches[b2].values[p].base == MasterVersion(s.cells, p)
    requires t.cells == Landed(s, b1, r1).cells && !SameRow(s.cells, t.cells, p)
    requires b2 < |t.branches| && t.branches[b2].values == s.branches[b2].values
    requires FindLive(t.requests, b2) == Some(r2) && p !in t.requests[r2].valueChoices
    ensures p in ValueConflicts(t.cells, t.branches[b2].values)
    ensures FindBranch(t.branches, n2) == Some(b2) ==> PlanMerge(t, n2).Failure?
  {
    ChangedRowLanded(s, b1, r1, p);
    SecondIsFlagged(s, b1, r1, b2, p);
    if FindBranch(t.branches, n2) == Some(b2) {
      FlaggedCannotMerge(t, n2, b2, r2, p);
    }
  }

  lemma ChangedRowLanded(s: State, b: nat, r: nat, p: Pair)
    requires b < |s.branches| && r < |s.requests| && p in s.branches[b].values
    requires s.branches[b].values[p].base == MasterVersion(s.cells, p)
    requires !SameRow(s.cells, Landed(s, b, r).cells, p)
    ensures ValueLands(s.cells, s.branches[b].values, s.requests[r].valueChoices, p)
    ensures s.branches[b].values[p].value.None? ==> p in s.cells
  {
  }
}
