/** Runs of the service: any calls, in any order, from an empty database. */
module Runs {
  import opened Wrappers
  import opened Schema
  import opened Statements
  import opened Service
  import opened Invariants

  ghost predicate Initial(s: State) {
    && s.keys == [] && s.cells == map[] && s.history == map[]
    && s.branches == [] && s.requests == [] && s.releases == []
  }

  /** trace[i + 1] is what call ops[i] leaves of trace[i]. */
  ghost predicate Follows(trace: seq<State>, ops: seq<Op>, i: nat) {
    i < |ops| && i + 1 < |trace| && trace[i + 1] == Step(trace[i], ops[i])
  }

  ghost predicate Run(trace: seq<State>, ops: seq<Op>) {
    && |trace| == |ops| + 1
    && Initial(trace[0])
    && forall i :: 0 <= i < |ops| ==> Follows(trace, ops, i)
  }

  /** Call i committed the write w. */
  ghost predicate Commits(trace: seq<State>, ops: seq<Op>, i: nat, w: Write) {
    i < |ops| && i < |trace| && Plan(trace[i], ops[i]) == Success(w)
  }

  lemma FollowsKeepsInv(trace: seq<State>, ops: seq<Op>, i: nat)
    requires Follows(trace, ops, i) && Inv(trace[i])
    ensures Inv(trace[i + 1])
  {
    StepKeepsInv(trace[i], ops[i]);
  }

  lemma EmptyIsSound(s: State)
    requires Initial(s)
    ensures Inv(s)
  {
  }

  lemma {:induction false} RunKeepsInv(trace: seq<State>, ops: seq<Op>, i: nat)
    requires Run(trace, ops) && i < |trace|
    ensures Inv(trace[i])
  {
    if i == 0 {
      EmptyIsSound(trace[0]);
    } else {
      RunKeepsInv(trace, ops, i - 1);
      FollowsKeepsInv(trace, ops, i - 1);
    }
  }

  /** The call that led to state j, and the state it found. */
  lemma StepBefore(trace: seq<State>, ops: seq<Op>, j: nat) returns (s: State)
    requires Run(trace, ops) && 0 < j < |trace|
    ensures s == trace[j - 1] && Inv(s) && trace[j] == Step(s, ops[j - 1])
  {
    RunKeepsInv(trace, ops, j - 1);
    assert Follows(trace, ops, j - 1);
    s := trace[j - 1];
  }
}
