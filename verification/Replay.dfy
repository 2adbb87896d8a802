/** History replays to master. */
module Replay {
  import opened Wrappers
  import opened Bytes
  import opened Schema
  import opened Statements
  import opened Service
  import opened Invariants
  import opened Runs

  /** Rows about master: written outside any branch, or by a merge. */
  predicate AboutMaster(e: Entry) {
    e.branch.None? || e.source.FromMerge?
  }

  /** The newest row of a timeline that speaks about master. */
  function LastAboutMaster(timeline: seq<Entry>): Option<Entry> {
    if timeline == [] then None
    else if AboutMaster(timeline[|timeline| - 1]) then Some(timeline[|timeline| - 1])
    else LastAboutMaster(timeline[..|timeline| - 1])
  }

  /** The master row a history row describes; NULL describes an absent row. */
  function Described(e: Option<Entry>): Option<(Text, Hint, nat)> {
    if e.Some? && e.value.value.Some? then Some((e.value.value.value, e.value.hint, e.value.version)) else None
  }

  function MasterRow(cells: map<Pair, Cell>, p: Pair): Option<(Text, Hint, nat)> {
    if p in cells then Some((cells[p].value, cells[p].hint, cells[p].version)) else None
  }

  ghost predicate Replays(cells: map<Pair, Cell>, history: map<Pair, seq<Entry>>, p: Pair) {
    Described(LastAboutMaster(Timeline(history, p))) == MasterRow(cells, p)
  }

  lemma AppendedRow(history: map<Pair, seq<Entry>>, rows: map<Pair, Entry>, p: Pair)
    ensures var (before, after) := (Timeline(history, p), Timeline(Record(history, rows), p));
            && after == (if p in rows then before + [rows[p]] else before)
            && LastAboutMaster(after) ==
               if p in rows && AboutMaster(rows[p]) then Some(rows[p]) else LastAboutMaster(before)
  {
    var after := Record(history, rows);
    if p in rows {
      assert p in after && after[p] == Timeline(history, p) + [rows[p]];
      assert after[p][..|after[p]| - 1] == Timeline(history, p);
    }
  }

  /** One of the rows appended to a timeline speaks about master. */
  ghost predicate Recorded(before: seq<Entry>, after: seq<Entry>) {
    exists j :: |before| <= j < |after| && AboutMaster(after[j])
  }

  /** The history tells what happened to the pair on master: either a row about master was
      recorded, and it describes what is there now, or neither history nor master changed. */
  ghost predicate Told(s: State, next: State, p: Pair) {
    var (before, after) := (Timeline(s.history, p), Timeline(next.history, p));
    if Recorded(before, after) then Replays(next.cells, next.history, p)
    else LastAboutMaster(after) == LastAboutMaster(before) && CellAt(next, p) == CellAt(s, p)
  }

  lemma OneRowTold(s: State, next: State, p: Pair, rows: map<Pair, Entry>)
    requires next.history == Record(s.history, rows)
    requires if p in rows && AboutMaster(rows[p]) then Described(Some(rows[p])) == MasterRow(next.cells, p)
             else CellAt(next, p) == CellAt(s, p)
    ensures Told(s, next, p)
  {
    AppendedRow(s.history, rows, p);
    var (before, after) := (Timeline(s.history, p), Timeline(next.history, p));
    if p in rows && AboutMaster(rows[p]) {
      assert AboutMaster(after[|before|]);
    }
  }

  /** A merge's two value statements describe exactly what they do to master. */
  lemma LandingTold(s: State, b: nat, r: nat, p: Pair)
    requires b < |s.branches| && r < |s.requests|
    ensures Told(s, Landed(s, b, r), p)
  {
    var deltas := s.branches[b].values;
    var choices := s.requests[r].valueChoices;
    var puts := ValuesLanding(s.cells, deltas, choices, false);
    var drops := ValuesLanding(s.cells, deltas, choices, true);
    var upserted := UpsertLanding(s.cells, deltas, puts);
    var (putRows, dropRows) := (UpsertHistory(s.cells, deltas, puts, b), RemoveHistory(upserted, drops, b));
    var between := s.(cells := upserted, history := Record(s.history, putRows));
    OneRowTold(s, between, p, putRows);
    OneRowTold(between, Landed(s, b, r), p, dropRows);
    AppendedRow(s.history, putRows, p);
    AppendedRow(Record(s.history, putRows), dropRows, p);
    ToldTwice(s, between, Landed(s, b, r), p);
  }

  lemma ToldTwice(s: State, between: State, next: State, p: Pair)
    requires Told(s, between, p) && Told(between, next, p)
    requires Timeline(s.history, p) <= Timeline(between.history, p) <= Timeline(next.history, p)
    ensures Told(s, next, p)
  {
    var (before, middle, after) := (Timeline(s.history, p), Timeline(between.history, p), Timeline(next.history, p));
    if Recorded(before, middle) {
      var j :| |before| <= j < |middle| && AboutMaster(middle[j]);
      assert AboutMaster(after[j]);
    }
    if Recorded(middle, after) {
      var j :| |middle| <= j < |after| && AboutMaster(after[j]);
      assert |before| <= j;
    }
  }

  lemma MasterWriteTold(s: State, p: Pair, q: Pair, value: Text, hint: Hint)
    ensures Told(s, Commit(s, WriteCell(q, value, hint)), p)
  {
    var next := Commit(s, WriteCell(q, value, hint));
    OneRowTold(s, next, p, map[q := Entry(Some(value), hint, MasterVersion(s.cells, q) + 1, FromUi, None)]);
  }

  lemma MasterDropTold(s: State, p: Pair, q: Pair)
    ensures Told(s, Commit(s, DropCell(q)), p)
  {
    if q in s.cells {
      var next := Commit(s, DropCell(q));
      OneRowTold(s, next, p, map[q := Entry(None, s.cells[q].hint, s.cells[q].version, FromUi, None)]);
    }
  }

  lemma BranchEditTold(s: State, p: Pair, b: nat, q: Pair, value: Option<Text>, hint: Hint)
    requires b < |s.branches|
    ensures Told(s, Commit(s, EditValue(b, q, value, hint)), p)
  {
    var next := Commit(s, EditValue(b, q, value, hint));
    OneRowTold(s, next, p, map[q := Entry(value, hint, MasterVersion(s.cells, q), FromUi, Some(b))]);
  }

  lemma CommitTold(s: State, w: Write, p: Pair)
    requires Fits(s, w) && !w.WriteCells?
    ensures Told(s, Commit(s, w), p)
  {
    match w
    case EditValue(b, q, value, hint) => BranchEditTold(s, p, b, q, value, hint);
    case WriteCell(q, value, hint) => MasterWriteTold(s, p, q, value, hint);
    case DropCell(q) => MasterDropTold(s, p, q);
    case Land(b, r) => LandingTold(s, b, r, p);
    case _ => OtherUntold(s, w, p);
  }

  lemma OtherUntold(s: State, w: Write, p: Pair)
    requires Fits(s, w) && !w.WriteCells? && !w.EditValue? && !w.WriteCell? && !w.DropCell? && !w.Land?
    ensures Told(s, Commit(s, w), p)
  {
    assert Commit(s, w).history == s.history && Commit(s, w).cells == s.cells;
  }

  /** An import records nothing; a row it changes goes one version up. */
  lemma ImportUntold(s: State, rows: map<Pair, (Text, Hint)>, p: Pair)
    ensures var next := Commit(s, WriteCells(rows));
            && next.history == s.history
            && (CellAt(next, p) != CellAt(s, p) ==>
                  p in next.cells && next.cells[p].version == MasterVersion(s.cells, p) + 1)
  {
  }

  lemma PlannedCells(s: State, op: Op)
    requires Plan(s, op).Success?
    ensures op.UpsertCells? <==> Plan(s, op).value.WriteCells?
  {
  }

  // ---- runs ---------------------------------------------------------------------------------

  /** Call i records a row about master for the pair. */
  ghost predicate RecordsAt(trace: seq<State>, i: nat, p: Pair) {
    i + 1 < |trace| && Recorded(Timeline(trace[i].history, p), Timeline(trace[i + 1].history, p))
  }

  /** Call i is an import that changes the pair's master row. */
  ghost predicate ImportedAt(trace: seq<State>, ops: seq<Op>, i: nat, p: Pair) {
    && i < |ops| && i + 1 < |trace| && ops[i].UpsertCells?
    && CellAt(trace[i], p) != CellAt(trace[i + 1], p)
  }

  /** An import has changed the row and no call since has recorded it. */
  ghost predicate ImportedUnrecorded(trace: seq<State>, ops: seq<Op>, n: nat, p: Pair) {
    exists i :: 0 <= i < n && ImportedAt(trace, ops, i, p) && forall j :: i < j < n ==> !RecordsAt(trace, j, p)
  }

  lemma UnrecordedStep(trace: seq<State>, ops: seq<Op>, n: nat, p: Pair)
    ensures ImportedUnrecorded(trace, ops, n + 1, p)
            <==> ImportedAt(trace, ops, n, p) || (ImportedUnrecorded(trace, ops, n, p) && !RecordsAt(trace, n, p))
  {
    if ImportedUnrecorded(trace, ops, n, p) && !RecordsAt(trace, n, p) {
      var i :| 0 <= i < n && ImportedAt(trace, ops, i, p) && forall j :: i < j < n ==> !RecordsAt(trace, j, p);
      assert forall j :: i < j < n + 1 ==> !RecordsAt(trace, j, p);
    }
  }

  /** The master version the history describes. */
  function DescribedVersion(history: map<Pair, seq<Entry>>, p: Pair): nat {
    var row := Described(LastAboutMaster(Timeline(history, p)));
    if row.Some? then row.value.2 else 0
  }

  /** The row has moved on since the version the history describes. */
  ghost predicate Ahead(s: State, p: Pair) {
    p in s.cells && DescribedVersion(s.history, p) < s.cells[p].version
  }

  /** What a call does: told by the history, or silently by an import. */
  lemma StepTold(trace: seq<State>, ops: seq<Op>, i: nat, p: Pair)
    requires Run(trace, ops) && i < |ops|
    ensures ImportedAt(trace, ops, i, p) ==>
              && trace[i + 1].history == trace[i].history
              && p in trace[i + 1].cells && trace[i + 1].cells[p].version == MasterVersion(trace[i].cells, p) + 1
    ensures !ImportedAt(trace, ops, i, p) ==> Told(trace[i], trace[i + 1], p)
  {
    var s := trace[i];
    assert Follows(trace, ops, i);
    if Plan(s, ops[i]).Success? {
      var w := Plan(s, ops[i]).value;
      PlannedCells(s, ops[i]);
      if w.WriteCells? {
        ImportUntold(s, w.rows, p);
      } else {
        CommitTold(s, w, p);
        assert Told(s, Commit(s, w), p);
      }
    }
  }

  /** A silent import leaves the row ahead of its description, where it stays until a row
      about master is recorded. */
  lemma StepReplays(s: State, next: State, p: Pair, ahead: bool, imported: bool, recorded: bool)
    requires if ahead then Ahead(s, p) else Replays(s.cells, s.history, p)
    requires recorded <==> Recorded(Timeline(s.history, p), Timeline(next.history, p))
    requires imported ==>
               && next.history == s.history
               && p in next.cells && next.cells[p].version == MasterVersion(s.cells, p) + 1
    requires !imported ==> Told(s, next, p)
    ensures if imported || (ahead && !recorded) then Ahead(next, p) else Replays(next.cells, next.history, p)
  {
  }

  lemma {:induction false} ReplaysOrAhead(trace: seq<State>, ops: seq<Op>, n: nat, p: Pair)
    requires Run(trace, ops) && n < |trace|
    ensures if ImportedUnrecorded(trace, ops, n, p) then Ahead(trace[n], p)
            else Replays(trace[n].cells, trace[n].history, p)
  {
    if n > 0 {
      ReplaysOrAhead(trace, ops, n - 1, p);
      StepTold(trace, ops, n - 1, p);
      UnrecordedStep(trace, ops, n - 1, p);
      StepReplays(trace[n - 1], trace[n], p, ImportedUnrecorded(trace, ops, n - 1, p), ImportedAt(trace, ops, n - 1, p),
                  RecordsAt(trace, n - 1, p));
    }
  }

  /** Over every run, imports included: the last history row of a pair that is not a branch
      edit gives master's value, hint and version, or says the row is absent, exactly when no
      import has changed the row since. */
  lemma HistoryReplaysExactly(trace: seq<State>, ops: seq<Op>, n: nat, p: Pair)
    requires Run(trace, ops) && n < |trace|
    ensures Replays(trace[n].cells, trace[n].history, p) <==> !ImportedUnrecorded(trace, ops, n, p)
  {
    ReplaysOrAhead(trace, ops, n, p);
  }

  /** In particular over every run without imports. */
  lemma HistoryReplays(trace: seq<State>, ops: seq<Op>, n: nat, p: Pair)
    requires Run(trace, ops) && n < |trace|
    requires forall j :: 0 <= j < n ==> !ops[j].UpsertCells?
    ensures Replays(trace[n].cells, trace[n].history, p)
  {
    HistoryReplaysExactly(trace, ops, n, p);
  }

  /** An import that adds a row writes no history, so the replay breaks there. */
  lemma ImportBreaksReplay(s: State, p: Pair, value: Text)
    requires p !in s.cells && p.key < |s.keys| && Timeline(s.history, p) == []
    ensures var next := Step(s, UpsertCells(map[p := (value, Plain)]));
            Replays(s.cells, s.history, p) && !Replays(next.cells, next.history, p)
  {
    var rows := map[p := (value, Plain)];
    assert Plan(s, UpsertCells(rows)) == Success(WriteCells(rows));
    assert p in BatchWritten(s.cells, rows);
  }
}
