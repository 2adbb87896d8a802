/** Which release an over-the-air client receives. */
module Serving {
  import opened Wrappers
  import opened Bytes
  import opened Schema
  import opened Statements
  import opened Service
  import opened Invariants
  import opened Runs
  import opened ReviewMachine

  // ---- eligibility --------------------------------------------------------------------

  /** Postgres's order on int[]: element by element, then by length. */
  predicate Leq(a: seq<nat>, b: seq<nat>) {
    if a == [] then true
    else if b == [] then false
    else if a[0] != b[0] then a[0] < b[0]
    else Leq(a[1..], b[1..])
  }

  /** A client that names no version counts as 0.0.0. */
  function Client(version: Option<seq<nat>>): seq<nat> {
    if version.Some? then version.value else [0, 0, 0]
  }

  predicate Eligible(release: Release, l: nat, version: Option<seq<nat>>) {
    && l in release.bundles
    && !release.withheld
    && (release.floor.None? || Leq(release.floor.value, Client(version)))
  }

  /** The order without recursion: the floor is a prefix of the version, or it is lower at the
      first place where they differ. */
  ghost predicate FloorMet(floor: seq<nat>, version: seq<nat>) {
    || floor <= version
    || exists i :: 0 <= i < |floor| && i < |version| && floor[..i] == version[..i] && floor[i] < version[i]
  }

  lemma {:induction false} LeqIsFloorMet(a: seq<nat>, b: seq<nat>)
    ensures Leq(a, b) <==> FloorMet(a, b)
  {
    if a != [] && b != [] {
      if a[0] == b[0] {
        LeqIsFloorMet(a[1..], b[1..]);
        FloorMetBehind(a, b);
      } else {
        assert a[..0] == b[..0];
        forall i | 0 < i <= |a| && i <= |b|
          ensures a[..i] != b[..i]
        {
          FirstDiffers(a, b, i);
        }
      }
    }
  }

  lemma FirstDiffers(a: seq<nat>, b: seq<nat>, i: nat)
    requires 0 < i <= |a| && i <= |b| && a[0] != b[0]
    ensures a[..i] != b[..i]
  {
    assert a[..i][0] == a[0] && b[..i][0] == b[0];
  }

  lemma FloorMetBehind(a: seq<nat>, b: seq<nat>)
    requires a != [] && b != [] && a[0] == b[0]
    ensures FloorMet(a[1..], b[1..]) <==> FloorMet(a, b)
  {
    assert a == [a[0]] + a[1..] && b == [b[0]] + b[1..];
    if i :| 0 <= i < |a| && i < |b| && a[..i] == b[..i] && a[i] < b[i] {
      assert i > 0 && a[1..][..i - 1] == a[..i][1..] == b[..i][1..] == b[1..][..i - 1];
    }
    if i :| 0 <= i < |a| - 1 && i < |b| - 1 && a[1..][..i] == b[1..][..i] && a[1..][i] < b[1..][i] {
      assert a[..i + 1] == [a[0]] + a[1..][..i] && b[..i + 1] == [b[0]] + b[1..][..i];
    }
  }

  /** With the three components of an app version. */
  lemma FloorOfThree(a: nat, b: nat, c: nat, x: nat, y: nat, z: nat)
    ensures Leq([a, b, c], [x, y, z]) <==> a < x || (a == x && (b < y || (b == y && c <= z)))
  {
    var (floor, version) := ([a, b, c], [x, y, z]);
    assert floor[1..] == [b, c] && version[1..] == [y, z];
    assert [b, c][1..] == [c] && [y, z][1..] == [z];
    assert Leq([c], [z]) <==> c <= z;
  }

  /** What a client may receive: a release of its locale that is not withheld and whose floor,
      if it has one, the version meets; no version counts as 0.0.0. */
  ghost predicate Receives(release: Release, l: nat, version: Option<seq<nat>>) {
    && l in release.bundles && !release.withheld
    && (release.floor == None
        || FloorMet(release.floor.value, if version == None then [0, 0, 0] else version.value))
  }

  lemma EligibleExactly(release: Release, l: nat, version: Option<seq<nat>>)
    ensures Eligible(release, l, version) <==> Receives(release, l, version)
  {
    if release.floor.Some? {
      LeqIsFloorMet(release.floor.value, Client(version));
    }
  }

  datatype Answer = Serve(version: nat, strings: map<Text, Text>) | KillSwitched | NothingReleased

  /** Row i is the one ORDER BY version DESC LIMIT 1 keeps. */
  ghost predicate Newest(releases: seq<Release>, l: nat, version: Option<seq<nat>>, i: nat) {
    && i < |releases| && Eligible(releases[i], l, version)
    && forall j :: 0 <= j < |releases| && Eligible(releases[j], l, version) ==>
         releases[j].version <= releases[i].version
  }

  ghost predicate NoneEligible(releases: seq<Release>, l: nat, version: Option<seq<nat>>) {
    forall i :: 0 <= i < |releases| ==> !Eligible(releases[i], l, version)
  }

  /** The locale has a withheld release. */
  ghost predicate AnyWithheld(releases: seq<Release>, l: nat) {
    exists i :: 0 <= i < |releases| && l in releases[i].bundles && releases[i].withheld
  }

  /** The strings of the newest release the client may receive; when there is none, whether a
      release of the locale has been withheld. */
  ghost predicate AnswersFrom(releases: seq<Release>, l: nat, version: Option<seq<nat>>, answer: Answer) {
    match answer
    case Serve(v, strings) =>
      exists i :: 0 <= i < |releases| && Receives(releases[i], l, version)
                  && v == releases[i].version && strings == releases[i].bundles[l].strings
                  && forall j :: 0 <= j < |releases| && Receives(releases[j], l, version) ==> releases[j].version <= v
    case KillSwitched =>
      && (forall i :: 0 <= i < |releases| ==> !Receives(releases[i], l, version))
      && exists i :: 0 <= i < |releases| && l in releases[i].bundles && releases[i].withheld
    case NothingReleased =>
      && (forall i :: 0 <= i < |releases| ==> !Receives(releases[i], l, version))
      && forall i :: 0 <= i < |releases| && l in releases[i].bundles ==> !releases[i].withheld
  }

  method ServableBundle(releases: seq<Release>, l: nat, version: Option<seq<nat>>) returns (answer: Answer)
    ensures match answer
            case Serve(v, strings) =>
              exists i: nat :: Newest(releases, l, version, i) && v == releases[i].version
                               && strings == releases[i].bundles[l].strings
            case KillSwitched => NoneEligible(releases, l, version) && AnyWithheld(releases, l)
            case NothingReleased => NoneEligible(releases, l, version) && !AnyWithheld(releases, l)
    ensures AnswersFrom(releases, l, version, answer)
  {
    var best: Option<nat> := None;
    var withheld := false;
    for i := 0 to |releases|
      invariant withheld <==> exists j :: 0 <= j < i && l in releases[j].bundles && releases[j].withheld
      invariant best.None? ==> NoneEligible(releases[..i], l, version)
      invariant best.Some? ==> best.value < i && Newest(releases[..i], l, version, best.value)
    {
      if l in releases[i].bundles && releases[i].withheld {
        withheld := true;
      }
      if Eligible(releases[i], l, version) && (best.None? || releases[best.value].version < releases[i].version) {
        best := Some(i);
      }
    }
    assert releases[..|releases|] == releases;
    if best.Some? {
      answer := Serve(releases[best.value].version, releases[best.value].bundles[l].strings);
    } else {
      answer := if withheld then KillSwitched else NothingReleased;
    }
    forall i | 0 <= i < |releases|
      ensures Eligible(releases[i], l, version) <==> Receives(releases[i], l, version)
    {
      EligibleExactly(releases[i], l, version);
    }
  }

  // ---- one state --------------------------------------------------------------------------

  lemma {:induction false} LeqTransitive(a: seq<nat>, b: seq<nat>, c: seq<nat>)
    requires Leq(a, b) && Leq(b, c)
    ensures Leq(a, c)
  {
    if a != [] && a[0] == b[0] == c[0] {
      LeqTransitive(a[1..], b[1..], c[1..]);
    }
  }

  /** A newer app version never receives an older release than an older one does. */
  lemma NewerClientNewerRelease(releases: seq<Release>, l: nat, older: Option<seq<nat>>, newer: Option<seq<nat>>,
                                i: nat, j: nat)
    requires Leq(Client(older), Client(newer))
    requires Newest(releases, l, older, i)
    ensures Newest(releases, l, newer, j) ==> releases[i].version <= releases[j].version
    ensures !NoneEligible(releases, l, newer)
  {
    if releases[i].floor.Some? {
      LeqTransitive(releases[i].floor.value, Client(older), Client(newer));
    }
    assert Eligible(releases[i], l, newer);
  }

  /** A client that names no version receives, besides releases without a floor, those
      whose three-component floor is 0.0.0. */
  lemma UnnamedVersion(release: Release, l: nat)
    requires release.floor.Some? ==> |release.floor.value| == 3
    ensures Eligible(release, l, None)
            <==> l in release.bundles && !release.withheld && (release.floor.None? || release.floor.value == [0, 0, 0])
  {
    if release.floor.Some? {
      var f := release.floor.value;
      assert [0, 0, 0][1..] == [0, 0] && [0, 0][1..] == [0];
      assert f[1..] == [f[1], f[2]] && f[1..][1..] == [f[2]] && [f[2]][1..] == [];
      assert Leq([f[2]], [0]) <==> f[2] == 0;
      assert Leq(f[1..], [0, 0]) <==> f[1] == 0 && f[2] == 0;
      assert f == [f[0], f[1], f[2]];
    }
  }

  // ---- runs ----------------------------------------------------------------------------------

  ghost predicate Served(s: State, l: nat, version: Option<seq<nat>>, v: nat) {
    exists i :: 0 <= i < |s.releases| && Newest(s.releases, l, version, i) && s.releases[i].version == v
  }

  /** Release i is rolled back. */
  ghost predicate WithheldIn(s: State, i: nat) {
    i < |s.releases| && s.releases[i].withheld
  }

  lemma WithheldStep(s: State, op: Op, i: nat)
    requires WithheldIn(s, i)
    ensures WithheldIn(Step(s, op), i)
  {
    if Plan(s, op).Success? {
      CommitReleases(s, Plan(s, op).value);
    }
  }

  lemma {:induction false} StaysWithheld(trace: seq<State>, ops: seq<Op>, n: nat, m: nat, i: nat)
    requires Run(trace, ops) && n <= m < |trace| && WithheldIn(trace[n], i)
    ensures WithheldIn(trace[m], i)
    decreases m
  {
    if n < m {
      StaysWithheld(trace, ops, n, m - 1, i);
      assert Follows(trace, ops, m - 1);
      WithheldStep(trace[m - 1], ops[m - 1], i);
    }
  }

  /** Over every run: a rolled-back release is never served again. */
  lemma NeverServedAgain(trace: seq<State>, ops: seq<Op>, n: nat, m: nat, i: nat, l: nat, version: Option<seq<nat>>)
    requires Run(trace, ops) && n <= m < |trace| && WithheldIn(trace[n], i)
    ensures WithheldIn(trace[m], i) && !Newest(trace[m].releases, l, version, i)
    ensures !Served(trace[m], l, version, i + 1)
  {
    StaysWithheld(trace, ops, n, m, i);
    RunKeepsReleases(trace, ops, m);
  }

  ghost predicate ServedAtLeast(s: State, l: nat, version: Option<seq<nat>>, v: nat) {
    exists w: nat :: v <= w && Served(s, l, version, w)
  }

  ghost predicate RolledBack(s: State, op: Op, v: nat) {
    op == Rollback(v) && Plan(s, op) == Success(Withhold(v))
  }

  lemma WithholdPlanned(s: State, op: Op)
    requires Plan(s, op).Success? && Plan(s, op).value.Withhold?
    ensures op == Rollback(Plan(s, op).value.version)
  {
  }

  /** A release stays as eligible as it was unless a rollback withholds it. */
  lemma EligibleStep(s: State, op: Op, i: nat, l: nat, version: Option<seq<nat>>)
    requires ReleasesSound(s.releases, s.requests)
    requires i < |s.releases| && Eligible(s.releases[i], l, version)
    ensures |s.releases| <= |Step(s, op).releases|
    ensures Eligible(Step(s, op).releases[i], l, version) <==> !RolledBack(s, op, i + 1)
  {
    if Plan(s, op).Success? {
      var w := Plan(s, op).value;
      CommitReleases(s, w);
      if w.Withhold? {
        WithholdPlanned(s, op);
        assert Commit(s, w).releases[i] == WithheldRelease(s.releases[i], w.version);
      }
    }
  }

  /** A rollback makes no release eligible. */
  lemma RollbackOnlyWithholds(s: State, op: Op, v: nat, i: nat, l: nat, version: Option<seq<nat>>)
    requires RolledBack(s, op, v) && i < |Step(s, op).releases| && Eligible(Step(s, op).releases[i], l, version)
    ensures |Step(s, op).releases| == |s.releases| && Eligible(s.releases[i], l, version)
  {
    CommitReleases(s, Plan(s, op).value);
  }

  ghost predicate Numbered(releases: seq<Release>) {
    forall i :: 0 <= i < |releases| ==> releases[i].version == i + 1
  }

  /** After the rollback of the release that was served nothing as new is left. */
  lemma RollbackDrops(s: State, op: Op, i: nat, l: nat, version: Option<seq<nat>>)
    requires ReleasesSound(s.releases, s.requests) && Numbered(Step(s, op).releases)
    requires Newest(s.releases, l, version, i) && RolledBack(s, op, i + 1)
    ensures !ServedAtLeast(Step(s, op), l, version, i + 1)
  {
    EligibleStep(s, op, i, l, version);
    var t := Step(s, op);
    forall j | 0 <= j < |t.releases| && i + 1 <= t.releases[j].version
      ensures !Eligible(t.releases[j], l, version)
    {
      if Eligible(t.releases[j], l, version) {
        RollbackOnlyWithholds(s, op, i + 1, j, l, version);
      }
    }
  }

  /** Without it the release that was served, or a newer one, is. */
  lemma OtherwiseKept(s: State, op: Op, i: nat, l: nat, version: Option<seq<nat>>)
    requires ReleasesSound(s.releases, s.requests) && Numbered(Step(s, op).releases)
    requires Newest(s.releases, l, version, i) && !RolledBack(s, op, i + 1)
    ensures ServedAtLeast(Step(s, op), l, version, i + 1)
  {
    EligibleStep(s, op, i, l, version);
    var j := NewestAmong(Step(s, op).releases, l, version, i);
    assert Served(Step(s, op), l, version, j + 1);
  }

  /** Over every run and for a fixed client: the served version drops, or serving stops,
      exactly at a successful rollback of the version that was served. */
  lemma ServedDropsAtRollback(trace: seq<State>, ops: seq<Op>, n: nat, l: nat, version: Option<seq<nat>>, v: nat)
    requires Run(trace, ops) && n < |ops| && Served(trace[n], l, version, v)
    ensures !ServedAtLeast(trace[n + 1], l, version, v) <==> RolledBack(trace[n], ops[n], v)
  {
    RunKeepsReleases(trace, ops, n);
    RunKeepsReleases(trace, ops, n + 1);
    assert Follows(trace, ops, n);
    var i :| 0 <= i < |trace[n].releases| && Newest(trace[n].releases, l, version, i)
             && trace[n].releases[i].version == v;
    if RolledBack(trace[n], ops[n], v) {
      RollbackDrops(trace[n], ops[n], i, l, version);
    } else {
      OtherwiseKept(trace[n], ops[n], i, l, version);
    }
  }

  /** With versions in creation order the newest eligible release is the last eligible one. */
  lemma {:induction false} NewestAmong(releases: seq<Release>, l: nat, version: Option<seq<nat>>, i: nat)
    returns (j: nat)
    requires i < |releases| && Eligible(releases[i], l, version) && Numbered(releases)
    ensures i <= j && Newest(releases, l, version, j)
    decreases |releases| - i
  {
    if k :| i < k < |releases| && Eligible(releases[k], l, version) {
      j := NewestAmong(releases, l, version, k);
    } else {
      j := i;
    }
  }

  /** Over every run: what a client receives is the release with the highest number, so
      the last created one, among those it is eligible for. */
  lemma ServedIsLast(trace: seq<State>, ops: seq<Op>, n: nat, l: nat, version: Option<seq<nat>>, i: nat)
    requires Run(trace, ops) && n < |trace|
    ensures Newest(trace[n].releases, l, version, i) <==>
              && i < |trace[n].releases| && Eligible(trace[n].releases[i], l, version)
              && forall j :: i < j < |trace[n].releases| ==> !Eligible(trace[n].releases[j], l, version)
  {
    RunKeepsReleases(trace, ops, n);
  }

  // ---- what the kill switch says ------------------------------------------------------------------

  /** Release i is the newest the locale has, eligible or not. */
  ghost predicate NewestOf(releases: seq<Release>, l: nat, i: nat) {
    && i < |releases| && l in releases[i].bundles
    && forall j :: 0 <= j < |releases| && l in releases[j].bundles ==> releases[j].version <= releases[i].version
  }

  ghost predicate WithheldOf(releases: seq<Release>, l: nat, i: nat) {
    i < |releases| && l in releases[i].bundles && releases[i].withheld
  }

  ghost predicate KeptOf(releases: seq<Release>, l: nat, i: nat) {
    i < |releases| && l in releases[i].bundles && !releases[i].withheld
  }

  lemma {:induction false} LastOf(releases: seq<Release>, l: nat, i: nat) returns (j: nat)
    requires i < |releases| && l in releases[i].bundles && Numbered(releases)
    ensures i <= j && NewestOf(releases, l, j)
    decreases |releases| - i
  {
    if k :| i < k < |releases| && l in releases[k].bundles {
      j := LastOf(releases, l, k);
    } else {
      j := i;
    }
  }

  /** Over every run: when the kill switch is reported, the newest release of the locale is
      rolled back exactly when behind every release of the locale that is not rolled back there
      is one that is. */
  lemma SwitchNamesNewest(trace: seq<State>, ops: seq<Op>, n: nat, l: nat, version: Option<seq<nat>>)
    requires Run(trace, ops) && n < |trace|
    requires NoneEligible(trace[n].releases, l, version) && AnyWithheld(trace[n].releases, l)
    ensures var releases := trace[n].releases;
            (exists i :: NewestOf(releases, l, i) && WithheldOf(releases, l, i))
            <==> forall j :: KeptOf(releases, l, j) ==> exists i :: j < i && WithheldOf(releases, l, i)
  {
    var releases := trace[n].releases;
    RunKeepsReleases(trace, ops, n);
    var some :| 0 <= some < |releases| && l in releases[some].bundles && releases[some].withheld;
    var last := LastOf(releases, l, some);
    if WithheldOf(releases, l, last) {
      assert forall j :: KeptOf(releases, l, j) ==> j < last;
    } else {
      assert KeptOf(releases, l, last);
      assert forall i :: WithheldOf(releases, l, i) ==> i < last;
      assert forall i :: NewestOf(releases, l, i) ==> i == last;
    }
  }

  /** Three calls after which a client of no version is told of a kill switch although the
      newest release is not rolled back: a publish, a publish for app 1.0.0, and the rollback of
      the first. */
  lemma SwitchedBelowFloor(s: State, l: nat, s1: State, s2: State, s3: State)
    requires Initial(s) && l in s.locales
    requires s1 == Step(s, Publish(None)) && s2 == Step(s1, Publish(Some([1, 0, 0]))) && s3 == Step(s2, Rollback(1))
    ensures Run([s, s1, s2, s3], [Publish(None), Publish(Some([1, 0, 0])), Rollback(1)])
    ensures NoneEligible(s3.releases, l, None) && AnyWithheld(s3.releases, l)
    ensures NewestOf(s3.releases, l, 1) && KeptOf(s3.releases, l, 1)
  {
    ThreeCalls(s, s1, s2, s3);
    PublishedReleases(s, None, s1);
    PublishedReleases(s1, Some([1, 0, 0]), s2);
    WithheldReleases(s2, 1, s3);
    FloorHides(s3.releases, l);
  }

  lemma ThreeCalls(s: State, s1: State, s2: State, s3: State)
    requires Initial(s)
    requires s1 == Step(s, Publish(None)) && s2 == Step(s1, Publish(Some([1, 0, 0]))) && s3 == Step(s2, Rollback(1))
    ensures Run([s, s1, s2, s3], [Publish(None), Publish(Some([1, 0, 0])), Rollback(1)])
  {
    var (trace, ops) := ([s, s1, s2, s3], [Publish(None), Publish(Some([1, 0, 0])), Rollback(1)]);
    assert Follows(trace, ops, 0) && Follows(trace, ops, 1) && Follows(trace, ops, 2);
  }

  lemma FloorHides(releases: seq<Release>, l: nat)
    requires |releases| == 2 && l in releases[0].bundles && l in releases[1].bundles
    requires releases[0].version == 1 && releases[0].withheld
    requires releases[1].version == 2 && !releases[1].withheld && releases[1].floor == Some([1, 0, 0])
    ensures NoneEligible(releases, l, None) && AnyWithheld(releases, l)
    ensures NewestOf(releases, l, 1) && KeptOf(releases, l, 1)
  {
    assert !Leq([1, 0, 0], [0, 0, 0]);
  }

  lemma PublishedReleases(s: State, floor: Option<seq<nat>>, next: State)
    requires next == Step(s, Publish(floor))
    ensures |next.releases| == |s.releases| + 1 && next.releases[..|s.releases|] == s.releases
    ensures var last := next.releases[|s.releases|];
            && last.version == MaxReleaseVersion(s.releases) + 1 && last.floor == floor && !last.withheld
            && forall l :: l in s.locales ==> l in last.bundles
    ensures next.locales == s.locales
  {
    PublishIsCut(s, floor);
    LastCut(s, floor, next.releases);
  }

  lemma PublishIsCut(s: State, floor: Option<seq<nat>>)
    ensures Step(s, Publish(floor)) == Cut(s, ByPublish, floor).(clock := s.clock + 1)
  {
    var w := CutRelease(floor);
    assert Plan(s, Publish(floor)) == Success(w) && w.CutRelease?;
    assert Commit(s, w) == Cut(s, ByPublish, floor);
  }

  lemma LastCut(s: State, floor: Option<seq<nat>>, releases: seq<Release>)
    requires releases == Cut(s, ByPublish, floor).releases
    ensures |releases| == |s.releases| + 1 && releases[..|s.releases|] == s.releases
    ensures var last := releases[|s.releases|];
            && last.version == MaxReleaseVersion(s.releases) + 1 && last.floor == floor && !last.withheld
            && forall l :: l in s.locales ==> l in last.bundles
  {
    assert Bundles(s).Keys == set l | l in s.locales;
  }

  lemma WithheldReleases(s: State, version: nat, next: State)
    requires version > 0 && next == Step(s, Rollback(version))
    requires exists i :: 0 <= i < |s.releases| && s.releases[i].version == version && !s.releases[i].withheld
    ensures |next.releases| == |s.releases|
    ensures forall i :: 0 <= i < |s.releases| ==> next.releases[i] == WithheldRelease(s.releases[i], version)
  {
    RollbackPlanned(s, version);
    WithholdCommits(s, version);
  }

  lemma RollbackPlanned(s: State, version: nat)
    requires version > 0
    requires exists i :: 0 <= i < |s.releases| && s.releases[i].version == version && !s.releases[i].withheld
    ensures Plan(s, Rollback(version)) == Success(Withhold(version))
  {
  }

  lemma WithholdCommits(s: State, version: nat)
    ensures Commit(s, Withhold(version)).releases
            == seq(|s.releases|, i requires 0 <= i < |s.releases| => WithheldRelease(s.releases[i], version))
  {
  }
}
