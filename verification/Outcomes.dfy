/** What each call of the service does, told by the rows of the tables: when it goes through,
    which fields it writes, and that it writes nothing else. */
module Outcomes {
  import opened Wrappers
  import opened Bytes
  import opened Schema
  import opened Statements
  import opened Service
  import opened Frames
  import opened Invariants
  import opened MergeMeaning

  /** A refused call changes nothing. */
  lemma RefusalChangesNothing(s: State, op: Op)
    requires Plan(s, op).Failure?
    ensures Step(s, op) == s.(clock := s.clock + 1)
  {
  }

  // ---- keys on master ----------------------------------------------------------------------

  /** Row j is active and has the name. */
  predicate Bears(keys: seq<KeyRow>, j: nat, name: Text) {
    j < |keys| && keys[j].meta.status == Active && keys[j].meta.name == name
  }

  ghost predicate FreeFor(keys: seq<KeyRow>, k: nat, name: Text) {
    forall j: nat :: j != k ==> !Bears(keys, j, name)
  }

  /** A guard was sent, and it is not the row's version. */
  predicate Outdated(keys: seq<KeyRow>, k: nat, base: Option<nat>) {
    k < |keys| && base.Some? && base.value != 0 && base.value != keys[k].version
  }

  /** The field a patch leaves: what it mentions is as it says, the rest as it was. */
  function Patched<T>(was: T, now: Option<T>): T {
    if now.Some? then now.value else was
  }

  function PatchedOverride(was: Option<Text>, now: Override): Option<Text> {
    if now.Set? then Some(now.name) else if now.Clear? then None else was
  }

  /** One row is rewritten, one version up, in nothing but its metadata. */
  ghost predicate RowRewritten(before: seq<KeyRow>, after: seq<KeyRow>, k: nat) {
    && k < |before| == |after|
    && (forall j :: 0 <= j < |before| && j != k ==> after[j] == before[j])
    && after[k] == before[k].(meta := after[k].meta, version := before[k].version + 1)
  }

  lemma NameTakenIsBorne(keys: seq<KeyRow>, k: nat, name: Text)
    ensures NameTakenByOther(keys, k, name) <==> !FreeFor(keys, k, name)
    ensures NameTaken(keys, name) <==> !FreeFor(keys, |keys|, name)
  {
    forall j | 0 <= j < |keys|
      ensures HoldsName(keys[j], name) <==> Bears(keys, j, name)
    {
    }
    if j: nat :| Bears(keys, j, name) && j != k {
      assert HoldsName(keys[j], name);
    }
    if j: nat :| Bears(keys, j, name) {
      assert HoldsName(keys[j], name);
    }
  }

  /** What a call is answered: an error, or that it goes through. */
  ghost predicate Answers(s: State, op: Op, refusal: Option<Error>) {
    if refusal.Some? then Plan(s, op) == Failure(refusal.value) else Plan(s, op).Success?
  }

  /** An edit of a key on master answers, in this order: no such key, an outdated guard, a name
      another active key has; else it goes through. */
  lemma UpdatesMaster(s: State, k: nat, patch: Patch, base: Option<nat>)
    ensures Answers(s, UpdateKey(None, k, patch, base),
                    if |s.keys| <= k then Some(NotFound)
                    else if Outdated(s.keys, k, base) then Some(OptimisticLock)
                    else if s.keys[k].meta.status == Active
                            && !FreeFor(s.keys, k, Patched(s.keys[k].meta.name, patch.name)) then Some(KeyNameTaken)
                    else None)
  {
    if k < |s.keys| {
      NameTakenIsBorne(s.keys, k, ApplyPatch(s.keys[k].meta, patch).name);
    }
  }

  /** Then the row reads field by field as patched. */
  lemma MasterPatchShows(s: State, k: nat, patch: Patch, base: Option<nat>)
    requires Plan(s, UpdateKey(None, k, patch, base)).Success?
    ensures var t := Step(s, UpdateKey(None, k, patch, base));
            && t == s.(keys := t.keys, clock := s.clock + 1) && RowRewritten(s.keys, t.keys, k)
            && var (was, now) := (s.keys[k].meta, t.keys[k].meta);
               && now.name == Patched(was.name, patch.name)
               && now.description == Patched(was.description, patch.description)
               && now.platforms == Patched(was.platforms, patch.platforms)
               && now.androidName == PatchedOverride(was.androidName, patch.androidName)
               && now.iosName == PatchedOverride(was.iosName, patch.iosName)
               && now.status == was.status
  {
    var w := WriteKey(k, ApplyPatch(s.keys[k].meta, patch));
    assert Plan(s, UpdateKey(None, k, patch, base)) == Success(w) && w.WriteKey?;
  }

  /** A deletion on master marks the row and keeps everything else of it. */
  lemma DeletesOnMaster(s: State, k: nat, base: Option<nat>)
    ensures Answers(s, DeleteKey(None, k, base),
                    if Outdated(s.keys, k, base) then Some(OptimisticLock)
                    else if |s.keys| <= k || s.keys[k].meta.status == Deleted then Some(NotFound)
                    else None)
    ensures var (op, t) := (DeleteKey(None, k, base), Step(s, DeleteKey(None, k, base)));
            Plan(s, op).Success? ==>
              && t == s.(keys := t.keys, clock := s.clock + 1) && RowRewritten(s.keys, t.keys, k)
              && t.keys[k].meta == s.keys[k].meta.(status := Deleted)
  {
  }

  /** The last row is new, at version 1, and sorts behind all others with a gap before it. */
  ghost predicate RowAdded(before: seq<KeyRow>, after: seq<KeyRow>) {
    && |after| == |before| + 1 && after[..|before|] == before
    && after[|before|].version == 1 && after[|before|].remoteId == None
    && (forall j :: 0 <= j < |before| ==> before[j].sortIndex + 100 <= after[|before|].sortIndex)
    && (before == [] ==> after[|before|].sortIndex == 100)
    && (before != [] ==> exists j :: 0 <= j < |before| && before[j].sortIndex + 100 == after[|before|].sortIndex)
  }

  lemma {:induction false} MaxIsHighest(keys: seq<KeyRow>)
    ensures forall j :: 0 <= j < |keys| ==> keys[j].sortIndex <= MaxSortIndex(keys)
    ensures keys == [] ==> MaxSortIndex(keys) == 0
    ensures keys != [] ==> exists j :: 0 <= j < |keys| && keys[j].sortIndex == MaxSortIndex(keys)
  {
    if |keys| > 1 {
      var init := keys[..|keys| - 1];
      MaxIsHighest(init);
      var j :| 0 <= j < |init| && init[j].sortIndex == MaxSortIndex(init);
      assert keys[j] == init[j] && keys[|keys| - 1].sortIndex == keys[|keys| - 1].sortIndex;
    }
  }

  lemma NewRowSortsLast(keys: seq<KeyRow>, meta: Meta)
    ensures RowAdded(keys, keys + [NewKeyRow(keys, meta)])
  {
    MaxIsHighest(keys);
    var after := keys + [NewKeyRow(keys, meta)];
    assert after[..|keys|] == keys;
    if keys != [] {
      var j :| 0 <= j < |keys| && keys[j].sortIndex == MaxSortIndex(keys);
      assert keys[j].sortIndex + 100 == after[|keys|].sortIndex;
    }
  }

  /** A key created on master is active at once, unless an active key has its name. */
  lemma CreatesOnMaster(s: State, meta: Meta)
    ensures var op := CreateKey(None, meta);
            && (if FreeFor(s.keys, |s.keys|, meta.name) then Plan(s, op).Success?
                else Plan(s, op) == Failure(KeyNameTaken))
            && (Plan(s, op).Success? ==>
                  var t := Step(s, op);
                  && t == s.(keys := t.keys, clock := s.clock + 1) && RowAdded(s.keys, t.keys)
                  && t.keys[|s.keys|].meta == meta.(status := Active))
  {
    NameTakenIsBorne(s.keys, |s.keys|, meta.name);
    NewRowSortsLast(s.keys, meta.(status := Active));
  }

  // ---- keys on a branch ----------------------------------------------------------------------

  /** The branch is there and open. */
  ghost predicate OpenAt(s: State, name: Text, b: nat) {
    FindBranch(s.branches, name) == Some(b) && s.branches[b].status == BranchOpen
  }

  /** What a call on a branch that is not open is answered. */
  lemma {:induction false} NeedsOpenBranch(s: State, name: Text, op: Op)
    requires op.CreateKey? || op.UpdateKey? || op.DeleteKey? || op.SetTranslation? || op.DeleteTranslation?
    requires op.branch == Some(name)
    ensures FindBranch(s.branches, name).None? ==> Plan(s, op) == Failure(NotFound)
    ensures forall b :: FindBranch(s.branches, name) == Some(b) && s.branches[b].status != BranchOpen ==>
              Plan(s, op) == Failure(BranchNotOpen)
  {
  }

  /** A delta of the branch for another key has the name. */
  predicate UsedOn(branch: Branch, k: nat, name: Text) {
    exists j :: j in branch.metas && j != k && branch.metas[j].meta.name == name
  }

  /** A branch write: the branch keeps its name and status and is stamped as edited now. */
  ghost predicate BranchEdited(s: State, t: State, b: nat) {
    && b < |s.branches| == |t.branches|
    && (forall c :: 0 <= c < |s.branches| && c != b ==> t.branches[c] == s.branches[c])
    && t.branches[b] == s.branches[b].(lastEdited := Some(s.clock), values := t.branches[b].values,
                                       metas := t.branches[b].metas)
    && t.cells == s.cells && t.releases == s.releases && t.locales == s.locales && t.clock == s.clock + 1
  }

  /** A key created on a branch is a draft on master, which the branch shows as active. */
  lemma CreatesOnBranch(s: State, name: Text, b: nat, meta: Meta)
    requires OpenAt(s, name, b)
    ensures var op := CreateKey(Some(name), meta);
            && (Plan(s, op).Success? <==>
                  FreeFor(s.keys, |s.keys|, meta.name) && !UsedOn(s.branches[b], |s.keys|, meta.name))
            && (Plan(s, op).Success? ==>
                  var (t, k) := (Step(s, op), |s.keys|);
                  && BranchEdited(s, t, b) && RowAdded(s.keys, t.keys)
                  && t.keys[k].meta == meta.(status := Draft) && t.branches[b].values == s.branches[b].values
                  && (k !in s.branches[b].metas ==>
                        t.branches[b].metas == s.branches[b].metas[k := MetaDelta(meta.(status := Active), 1)]))
  {
    NameTakenIsBorne(s.keys, |s.keys|, meta.name);
    NewRowSortsLast(s.keys, meta.(status := Draft));
    var op := CreateKey(Some(name), meta);
    if Plan(s, op).Success? {
      Touching(s, Plan(s, op).value);
    }
  }

  /** An edit of a key on a branch goes through unless the branch uses the name for another key;
      the metadata is patched over what the branch showed before. */
  lemma UpdatesOnBranch(s: State, name: Text, b: nat, k: nat, patch: Patch, base: Option<nat>)
    requires OpenAt(s, name, b) && k < |s.keys|
    ensures var metas := s.branches[b].metas;
            var was := if k in metas then metas[k].meta else s.keys[k].meta;
            Answers(s, UpdateKey(Some(name), k, patch, base),
                    if UsedOn(s.branches[b], k, Patched(was.name, patch.name)) then Some(UniqueViolation) else None)
    ensures var t := Step(s, UpdateKey(Some(name), k, patch, base));
            Plan(s, UpdateKey(Some(name), k, patch, base)).Success? ==>
              BranchEdited(s, t, b) && t.keys == s.keys && t.branches[b].values == s.branches[b].values
  {
    var op := UpdateKey(Some(name), k, patch, base);
    if Plan(s, op).Success? {
      Touching(s, Plan(s, op).value);
    }
  }

  /** A deletion on a branch marks what master shows, in a delta of the branch. */
  lemma DeletesOnBranch(s: State, name: Text, b: nat, k: nat, base: Option<nat>)
    requires OpenAt(s, name, b) && k < |s.keys|
    ensures Answers(s, DeleteKey(Some(name), k, base),
                    if UsedOn(s.branches[b], k, s.keys[k].meta.name) then Some(UniqueViolation) else None)
    ensures var (metas, t) := (s.branches[b].metas, Step(s, DeleteKey(Some(name), k, base)));
            Plan(s, DeleteKey(Some(name), k, base)).Success? ==>
              && BranchEdited(s, t, b) && t.keys == s.keys && t.branches[b].values == s.branches[b].values
              && t.branches[b].metas == metas[k := MetaDelta(s.keys[k].meta.(status := Deleted),
                                                            if k in metas then metas[k].base else s.keys[k].version)]
  {
    var op := DeleteKey(Some(name), k, base);
    if Plan(s, op).Success? {
      Touching(s, Plan(s, op).value);
    }
  }

  /** Every write on a branch re-opens the approval that is older than it, and no other request
      changes. */
  lemma {:induction false} EditsReopen(s: State, name: Text, b: nat, op: Op, r: nat)
    requires op.CreateKey? || op.UpdateKey? || op.DeleteKey? || op.SetTranslation? || op.DeleteTranslation?
    requires OpenAt(s, name, b) && op.branch == Some(name) && Plan(s, op).Success? && r < |s.requests|
    ensures var (t, was) := (Step(s, op), s.requests[r]);
            && |t.requests| == |s.requests|
            && t.requests[r] ==
               if was.branch == b && was.status == Approved && was.approvedAt.Some? && was.approvedAt.value < s.clock
               then was.(status := Opened, approvedAt := None) else was
  {
    PlansOnBranch(s, name, b, op);
    Touching(s, Plan(s, op).value);
  }

  lemma {:induction false} PlansOnBranch(s: State, name: Text, b: nat, op: Op)
    requires op.CreateKey? || op.UpdateKey? || op.DeleteKey? || op.SetTranslation? || op.DeleteTranslation?
    requires OpenAt(s, name, b) && op.branch == Some(name) && Plan(s, op).Success?
    ensures TouchesBranch(Plan(s, op).value) && Plan(s, op).value.b == b
  {
  }

  // ---- translations ----------------------------------------------------------------------------

  /** The row's version, 0 where there is none. */
  function VersionAt(cells: map<Pair, Cell>, p: Pair): nat {
    if p in cells then cells[p].version else 0
  }

  /** A save on master answers, in this order: an unknown locale, an unknown key, a deleted key,
      a missing guard, and a row at another version, which it reports; else it goes through. */
  lemma SavesOnMaster(s: State, p: Pair, value: Text, hint: Hint, base: Option<nat>)
    ensures Answers(s, SetTranslation(None, p.key, p.locale, value, hint, base),
                    if p.locale !in s.locales then Some(BadRequest)
                    else if |s.keys| <= p.key then Some(NotFound)
                    else if s.keys[p.key].meta.status == Deleted || base == None then Some(BadRequest)
                    else if base.value != VersionAt(s.cells, p) then
                      Some(EditConflict(if p in s.cells then Some(s.cells[p]) else None))
                    else None)
  {
  }

  /** Then the row holds the value and the hint that were sent, one version up. */
  lemma SaveIsStored(s: State, p: Pair, value: Text, hint: Hint, base: Option<nat>)
    requires Plan(s, SetTranslation(None, p.key, p.locale, value, hint, base)).Success?
    ensures var t := Step(s, SetTranslation(None, p.key, p.locale, value, hint, base));
            && t == s.(cells := t.cells, history := t.history, clock := s.clock + 1)
            && t.cells == s.cells[p := Cell(value, hint, VersionAt(s.cells, p) + 1)]
            && Appends(s.history, t.history, p, Entry(Some(value), hint, VersionAt(s.cells, p) + 1, FromUi, None))
  {
  }

  /** One history row is added to the timeline of one pair. */
  ghost predicate Appends(before: map<Pair, seq<Entry>>, after: map<Pair, seq<Entry>>, p: Pair, e: Entry) {
    && p in after && after[p] == (if p in before then before[p] else []) + [e]
    && (forall q :: q in before && q != p ==> q in after && after[q] == before[q])
    && (forall q :: q in after && q != p ==> q in before)
  }

  /** A removal on master: the guard is optional, and what it removes is recorded. */
  lemma RemovesOnMaster(s: State, p: Pair, base: Option<nat>)
    ensures Answers(s, DeleteTranslation(None, p.key, p.locale, base),
                    if p.locale !in s.locales then Some(BadRequest)
                    else if |s.keys| <= p.key || p !in s.cells then Some(NotFound)
                    else if base.Some? && base.value != s.cells[p].version then Some(EditConflict(Some(s.cells[p])))
                    else None)
    ensures var t := Step(s, DeleteTranslation(None, p.key, p.locale, base));
            Plan(s, DeleteTranslation(None, p.key, p.locale, base)).Success? ==>
              && t == s.(cells := s.cells - {p}, history := t.history, clock := s.clock + 1)
              && Appends(s.history, t.history, p, Entry(None, s.cells[p].hint, s.cells[p].version, FromUi, None))
  {
  }

  /** A save on a branch needs no guard and takes none. */
  lemma SavesOnBranch(s: State, name: Text, b: nat, p: Pair, value: Text, hint: Hint, base: Option<nat>)
    requires OpenAt(s, name, b)
    ensures Answers(s, SetTranslation(Some(name), p.key, p.locale, value, hint, base),
                    if p.locale !in s.locales then Some(BadRequest)
                    else if |s.keys| <= p.key then Some(NotFound)
                    else if s.keys[p.key].meta.status == Deleted || base.Some? then Some(BadRequest)
                    else None)
  {
  }

  /** It is kept in the branch's delta; the version master had at first touch stays with it. */
  lemma BranchSaveIsStored(s: State, name: Text, b: nat, p: Pair, value: Text, hint: Hint)
    requires OpenAt(s, name, b) && Plan(s, SetTranslation(Some(name), p.key, p.locale, value, hint, None)).Success?
    ensures var t := Step(s, SetTranslation(Some(name), p.key, p.locale, value, hint, None));
            var values := s.branches[b].values;
            var base := if p in values then values[p].base else VersionAt(s.cells, p);
            && BranchEdited(s, t, b) && t.keys == s.keys && t.branches[b].metas == s.branches[b].metas
            && t.branches[b].values == values[p := ValueDelta(Some(value), hint, base)]
            && Appends(s.history, t.history, p, Entry(Some(value), hint, VersionAt(s.cells, p), FromUi, Some(b)))
  {
    Touching(s, EditValue(b, p, Some(value), hint));
  }

  /** A removal on a branch needs something the branch reads there. */
  lemma RemovesOnBranch(s: State, name: Text, b: nat, p: Pair, base: Option<nat>)
    requires OpenAt(s, name, b)
    ensures var values := s.branches[b].values;
            Answers(s, DeleteTranslation(Some(name), p.key, p.locale, base),
                    if p.locale !in s.locales then Some(BadRequest)
                    else if |s.keys| <= p.key then Some(NotFound)
                    else if base.Some? then Some(BadRequest)
                    else if !(if p in values then values[p].value.Some? else p in s.cells) then Some(NotFound)
                    else None)
  {
  }

  lemma BranchRemovalIsStored(s: State, name: Text, b: nat, p: Pair)
    requires OpenAt(s, name, b) && Plan(s, DeleteTranslation(Some(name), p.key, p.locale, None)).Success?
    ensures var (values, t) := (s.branches[b].values, Step(s, DeleteTranslation(Some(name), p.key, p.locale, None)));
            var kept := if p in values then values[p] else ValueDelta(None, Plain, VersionAt(s.cells, p));
            && BranchEdited(s, t, b) && t.keys == s.keys && t.branches[b].metas == s.branches[b].metas
            && t.branches[b].values == values[p := kept.(value := None)]
            && Appends(s.history, t.history, p, Entry(None, Plain, VersionAt(s.cells, p), FromUi, Some(b)))
  {
    Touching(s, EditValue(b, p, None, Plain));
  }

  // ---- branches and requests ---------------------------------------------------------------------

  lemma CreatesBranch(s: State, name: Text)
    ensures Answers(s, CreateBranch(name),
                    if exists b :: 0 <= b < |s.branches| && s.branches[b].name == name then
                      Some(BranchNameTaken)
                    else None)
    ensures Plan(s, CreateBranch(name)).Success? ==>
              Step(s, CreateBranch(name)) == s.(branches := s.branches + [Branch(name, BranchOpen, None, map[], map[])],
                                                clock := s.clock + 1)
  {
  }

  /** Closing leaves the branch closed and reopening leaves it open, whatever it was but merged;
      nothing else of it changes. */
  lemma {:induction false} MovesBranch(s: State, name: Text, b: nat, status: BranchStatus)
    requires FindBranch(s.branches, name) == Some(b)
    ensures var op := TransitionBranch(name, status);
            && Answers(s, op, if status == BranchMerged then Some(BadRequest)
                              else if s.branches[b].status == BranchMerged then Some(BranchNotOpen)
                              else None)
            && (Plan(s, op).Success? ==>
                  Step(s, op) == s.(branches := s.branches[b := s.branches[b].(status := status)],
                             clock := s.clock + 1))
  {
  }

  /** A request that is still under review. */
  predicate UnderReview(status: RequestStatus) {
    status == Opened || status == Approved || status == ChangesRequested
  }

  ghost predicate HasLive(requests: seq<Request>, b: nat) {
    exists r :: 0 <= r < |requests| && requests[r].branch == b && UnderReview(requests[r].status)
  }

  lemma {:induction false} CreatesRequest(s: State, name: Text, b: nat)
    requires FindBranch(s.branches, name) == Some(b)
    ensures var op := CreateRequest(name);
            && Answers(s, op, if s.branches[b].status != BranchOpen then Some(NotLive)
                              else if HasLive(s.requests, b) then Some(LiveRequestExists)
                              else None)
            && (Plan(s, op).Success? ==>
                  Step(s, op) == s.(requests := s.requests + [Request(b, Opened, None, map[], map[])],
                                   clock := s.clock + 1))
  {
  }

  // ---- decisions -------------------------------------------------------------------------------------

  /** The decision is about a conflict there is: master has moved since the branch first
      touched the pair, or the key. */
  predicate AboutConflict(s: State, b: nat, d: Decision)
    requires b < |s.branches|
  {
    var branch := s.branches[b];
    if d.locale == None then
      d.key in branch.metas && d.key < |s.keys| && s.keys[d.key].version != branch.metas[d.key].base
    else
      var p := Pair(d.key, d.locale.value);
      p.locale in s.locales && p in branch.values && VersionAt(s.cells, p) != branch.values[p].base
  }

  lemma Resolves(s: State, r: nat, ds: seq<Decision>)
    requires r < |s.requests| && s.requests[r].branch < |s.branches|
    ensures Answers(s, Resolving(r, ds),
                    if ds == [] then Some(BadRequest)
                    else if !UnderReview(s.requests[r].status) then Some(NotLive)
                    else if exists i :: 0 <= i < |ds| && !AboutConflict(s, s.requests[r].branch, ds[i]) then
                      Some(BadRequest)
                    else None)
  {
    forall i | 0 <= i < |ds|
      ensures Decidable(s, r, ds[i]) <==> AboutConflict(s, s.requests[r].branch, ds[i])
    {
    }
  }

  /** Decision i is the last one about its conflict. */
  ghost predicate LastAbout(ds: seq<Decision>, i: nat) {
    i < |ds| && forall j :: i < j < |ds| ==> !(ds[j].key == ds[i].key && ds[j].locale == ds[i].locale)
  }

  ghost predicate NoneAbout(ds: seq<Decision>, key: nat, locale: Option<nat>) {
    forall j :: 0 <= j < |ds| ==> !(ds[j].key == key && ds[j].locale == locale)
  }

  lemma {:induction false} LastDecides(values: map<Pair, Choice>, metas: map<nat, Choice>, ds: seq<Decision>, i: nat)
    requires LastAbout(ds, i)
    ensures ds[i].locale.Some? ==>
              var p := Pair(ds[i].key, ds[i].locale.value);
              p in DecideValues(values, ds) && DecideValues(values, ds)[p] == ds[i].choice
    ensures ds[i].locale.None? ==>
              ds[i].key in DecideMetas(metas, ds) && DecideMetas(metas, ds)[ds[i].key] == ds[i].choice
  {
    if i < |ds| - 1 {
      var init := ds[..|ds| - 1];
      assert init[i] == ds[i] && LastAbout(init, i);
      assert !(ds[|ds| - 1].key == ds[i].key && ds[|ds| - 1].locale == ds[i].locale);
      LastDecides(values, metas, init, i);
    }
  }

  lemma {:induction false} UndecidedStays(values: map<Pair, Choice>, metas: map<nat, Choice>, ds: seq<Decision>,
                                          p: Pair)
    ensures NoneAbout(ds, p.key, Some(p.locale)) ==>
              && (p in DecideValues(values, ds) <==> p in values)
              && (p in values ==> DecideValues(values, ds)[p] == values[p])
    ensures NoneAbout(ds, p.key, None) ==>
              && (p.key in DecideMetas(metas, ds) <==> p.key in metas)
              && (p.key in metas ==> DecideMetas(metas, ds)[p.key] == metas[p.key])
  {
    if ds != [] {
      var init := ds[..|ds| - 1];
      assert forall j :: 0 <= j < |init| ==> init[j] == ds[j];
      UndecidedStays(values, metas, init, p);
    }
  }

  /** Stored: for every conflict that is decided the last decision about it, for every other
      what was stored before; nothing else of the request changes, and no other request. */
  lemma ResolvesAsDecided(s: State, r: nat, ds: seq<Decision>, i: nat, p: Pair)
    requires Plan(s, Resolving(r, ds)).Success?
    ensures var t := Step(s, Resolving(r, ds));
            && r < |s.requests| == |t.requests| && t == s.(requests := t.requests, clock := s.clock + 1)
            && (forall q :: 0 <= q < |s.requests| && q != r ==> t.requests[q] == s.requests[q])
            && var (was, now) := (s.requests[r], t.requests[r]);
               && now == was.(valueChoices := now.valueChoices, metaChoices := now.metaChoices)
               && (LastAbout(ds, i) && ds[i].locale.Some? ==>
                     var q := Pair(ds[i].key, ds[i].locale.value);
                     q in now.valueChoices && now.valueChoices[q] == ds[i].choice)
               && (LastAbout(ds, i) && ds[i].locale.None? ==>
                     ds[i].key in now.metaChoices && now.metaChoices[ds[i].key] == ds[i].choice)
               && (NoneAbout(ds, p.key, Some(p.locale)) ==>
                     && (p in now.valueChoices <==> p in was.valueChoices)
                     && (p in was.valueChoices ==> now.valueChoices[p] == was.valueChoices[p]))
               && (NoneAbout(ds, p.key, None) ==>
                     && (p.key in now.metaChoices <==> p.key in was.metaChoices)
                     && (p.key in was.metaChoices ==> now.metaChoices[p.key] == was.metaChoices[p.key]))
  {
    var request := s.requests[r];
    UndecidedStays(request.valueChoices, request.metaChoices, ds, p);
    if LastAbout(ds, i) {
      LastDecides(request.valueChoices, request.metaChoices, ds, i);
    }
    DecidingStep(s, r, ds);
  }

  lemma {:induction false} DecidingStep(s: State, r: nat, ds: seq<Decision>)
    requires Plan(s, Resolving(r, ds)).Success?
    ensures r < |s.requests|
    ensures var request := s.requests[r];
            Step(s, Resolving(r, ds)) == s.(clock := s.clock + 1, requests := s.requests[r := request.(
              valueChoices := DecideValues(request.valueChoices, ds),
              metaChoices := DecideMetas(request.metaChoices, ds))])
  {
    assert Plan(s, Resolving(r, ds)).value.Decide?;
  }

  // ---- merges ------------------------------------------------------------------------------------------

  /** Approved before the branch's last edit. */
  predicate Overtaken(request: Request, branch: Branch, b: nat) {
    && request.branch == b && request.status == Approved && request.approvedAt.Some? && branch.lastEdited.Some?
    && request.approvedAt.value < branch.lastEdited.value
  }

  function OpenPairs(s: State, branch: Branch, request: Request): set<Pair> {
    set p | p in branch.values && VersionAt(s.cells, p) != branch.values[p].base && p !in request.valueChoices
  }

  function OpenKeys(s: State, branch: Branch, request: Request): set<nat> {
    set k | k in branch.metas && k < |s.keys| && s.keys[k].version != branch.metas[k].base && k !in request.metaChoices
  }

  /** A key that is active on the branch, and another one that has its name on master. */
  function Clashes(s: State, branch: Branch): set<(nat, nat)> {
    set k, j | k in branch.metas && 0 <= j < |s.keys| && branch.metas[k].meta.status == Active && j != k
               && Bears(s.keys, j, branch.metas[k].meta.name) :: (k, j)
  }

  /** What a merge answers, in this order: an overtaken approval, no live request, one that is
      not approved, conflicts nobody has decided, names that clash; else it goes through. */
  lemma {:induction false} MergeAnswers(s: State, name: Text, b: nat)
    requires Inv(s) && FindBranch(s.branches, name) == Some(b)
    ensures var (branch, live) := (s.branches[b], FindLive(s.requests, b));
            Answers(s, Merge(name),
                    if exists i :: 0 <= i < |s.requests| && Overtaken(s.requests[i], branch, b) then Some(StaleApproval)
                    else if live.None? then Some(NotFound)
                    else
                      var request := s.requests[live.value];
                      if request.status != Approved then Some(NotApproved)
                      else if OpenPairs(s, branch, request) != {} || OpenKeys(s, branch, request) != {} then
                        Some(Unresolved(OpenPairs(s, branch, request), OpenKeys(s, branch, request)))
                      else if Clashes(s, branch) != {} then Some(NameCollision(Clashes(s, branch)))
                      else None)
  {
    MergeIsItsCheck(s, name);
    MergePlanned(s, name);
    var (branch, live) := (s.branches[b], FindLive(s.requests, b));
    assert ApprovalStale(s, b) <==> exists i :: 0 <= i < |s.requests| && Overtaken(s.requests[i], branch, b);
    if live.Some? {
      var request := s.requests[live.value];
      assert OpenPairs(s, branch, request) == UndecidedValues(s, b, live.value);
      assert OpenKeys(s, branch, request) == UndecidedMetas(s, b, live.value);
    }
    ClashesCollide(s, branch);
  }

  lemma ClashesCollide(s: State, branch: Branch)
    ensures Clashes(s, branch) == NameCollisions(s.keys, branch.metas)
  {
    forall k, j
      ensures (k, j) in Clashes(s, branch) <==> (k, j) in NameCollisions(s.keys, branch.metas)
    {
    }
  }

  /** The number behind all others: one above the highest. */
  ghost predicate NextNumber(releases: seq<Release>, n: nat) {
    && (forall i :: 0 <= i < |releases| ==> releases[i].version < n)
    && (releases == [] ==> n == 1)
    && (releases != [] ==> exists i :: 0 <= i < |releases| && releases[i].version + 1 == n)
  }

  /** One release is added, not withheld. */
  ghost predicate ReleaseAdded(before: seq<Release>, after: seq<Release>, source: ReleaseSource,
                               floor: Option<seq<nat>>) {
    && |after| == |before| + 1 && after[..|before|] == before
    && var last := after[|before|];
       NextNumber(before, last.version) && last.source == source && last.floor == floor && !last.withheld
  }

  /** A merge closes its request and its branch, and no other, and cuts a release of its own. */
  lemma {:induction false} MergeCloses(s: State, name: Text, b: nat, r: nat)
    requires Inv(s) && Plan(s, Merge(name)).Success?
    requires FindBranch(s.branches, name) == Some(b) && FindLive(s.requests, b) == Some(r)
    ensures var t := Step(s, Merge(name));
            && t.requests == s.requests[r := s.requests[r].(status := RequestStatus.Merged)]
            && t.branches == s.branches[b := s.branches[b].(status := BranchMerged)]
            && ReleaseAdded(s.releases, t.releases, ByMerge(r), None)
            && t.locales == s.locales && t.clock == s.clock + 1
  {
    MergePlansLanding(s, name, b, r);
    PlannedStep(s, Merge(name), Land(b, r));
    Landing(s, b, r);
    LandingReleases(s, b, r);
  }

  lemma PlannedStep(s: State, op: Op, w: Write)
    requires Plan(s, op) == Success(w)
    ensures Step(s, op) == Commit(s, w).(clock := s.clock + 1)
  {
  }

  lemma LandingReleases(s: State, b: nat, r: nat)
    requires b < |s.branches| && r < |s.requests|
    ensures ReleaseAdded(s.releases, Commit(s, Land(b, r)).releases, ByMerge(r), None)
    ensures Commit(s, Land(b, r)).locales == s.locales
  {
  }

  // ---- releases ----------------------------------------------------------------------------------------

  lemma Publishes(s: State, floor: Option<seq<nat>>)
    ensures var t := Step(s, Publish(floor));
            && Plan(s, Publish(floor)).Success? && t == s.(releases := t.releases, clock := s.clock + 1)
            && ReleaseAdded(s.releases, t.releases, ByPublish, floor)
  {
    PlannedStep(s, Publish(floor), CutRelease(floor));
    PublishCommits(s, floor);
  }

  lemma PublishCommits(s: State, floor: Option<seq<nat>>)
    ensures var t := Commit(s, CutRelease(floor));
            t == s.(releases := t.releases) && ReleaseAdded(s.releases, t.releases, ByPublish, floor)
  {
  }

  /** A rollback withholds the release of that number and no other, once. */
  lemma RollsBack(s: State, version: nat)
    ensures Answers(s, Rollback(version),
                    if version == 0 then Some(BadRequest)
                    else if exists i ::
                        0 <= i < |s.releases| && s.releases[i].version == version && !s.releases[i].withheld
                    then None
                    else if exists i :: 0 <= i < |s.releases| && s.releases[i].version == version then
                      Some(AlreadyRolledBack)
                    else Some(NotFound))
  {
  }

  lemma RollbackWithholds(s: State, version: nat)
    requires Plan(s, Rollback(version)).Success?
    ensures var t := Step(s, Rollback(version));
            && t == s.(releases := t.releases, clock := s.clock + 1) && |t.releases| == |s.releases|
            && forall i :: 0 <= i < |s.releases| ==>
                 t.releases[i] == if s.releases[i].version == version then s.releases[i].(withheld := true)
                                  else s.releases[i]
  {
    PlannedStep(s, Rollback(version), Withhold(version));
    RollbackCommits(s, version);
  }

  lemma RollbackCommits(s: State, version: nat)
    ensures var t := Commit(s, Withhold(version));
            && t == s.(releases := t.releases) && |t.releases| == |s.releases|
            && forall i :: 0 <= i < |s.releases| ==>
                 t.releases[i] == if s.releases[i].version == version then s.releases[i].(withheld := true)
                                  else s.releases[i]
  {
  }

  // ---- upserts -------------------------------------------------------------------------------------------

  /** Alphabetical, as ORDER BY has it. */
  function Rank(p: Platform): nat {
    match p
    case Android => 0
    case Flutter => 1
    case Ios => 2
  }

  /** The platforms of both, each once, in order. */
  ghost predicate JoinedPlatforms(a: seq<Platform>, b: seq<Platform>, both: seq<Platform>) {
    && (forall p :: p in both <==> p in a || p in b)
    && (forall i, j :: 0 <= i < j < |both| ==> Rank(both[i]) < Rank(both[j]))
  }

  /** What an upsert leaves of a key that is there: an empty description and a missing override
      keep what stood there, platforms only accumulate, and nothing else changes. */
  ghost predicate Folded(was: Meta, sent: Meta, now: Meta) {
    && now.name == was.name && now.status == was.status
    && now.description == (if sent.description == [] then was.description else sent.description)
    && JoinedPlatforms(was.platforms, sent.platforms, now.platforms)
    && now.androidName == (if sent.androidName == None then was.androidName else sent.androidName)
    && now.iosName == (if sent.iosName == None then was.iosName else sent.iosName)
  }

  lemma PlatformsJoin(a: seq<Platform>, b: seq<Platform>)
    ensures JoinedPlatforms(a, b, Accumulated(a, b))
  {
    forall p
      ensures p in Accumulated(a, b) <==> p in a || p in b
    {
      match p
      case Android =>
      case Flutter =>
      case Ios =>
    }
  }

  /** A row is inserted under a free name, unless another row has the remote id. */
  lemma UpsertInserts(s: State, meta: Meta, sortIndex: int, remoteId: Option<int>)
    requires FreeFor(s.keys, |s.keys|, meta.name)
    ensures var (op, t) := (UpsertKey(meta, sortIndex, remoteId), Step(s, UpsertKey(meta, sortIndex, remoteId)));
            && Answers(s, op, if remoteId.Some? && exists j :: 0 <= j < |s.keys| && s.keys[j].remoteId == remoteId
                              then Some(UniqueViolation) else None)
            && (Plan(s, op).Success? ==>
                  t == s.(keys := s.keys + [KeyRow(meta.(status := Active), 1, sortIndex, remoteId)],
                          clock := s.clock + 1))
  {
    NameTakenIsBorne(s.keys, |s.keys|, meta.name);
  }

  /** Under the name of an active key the row is folded, one version up if that changes it. */
  lemma UpsertFolds(s: State, meta: Meta, sortIndex: int, remoteId: Option<int>, k: nat)
    requires Bears(s.keys, k, meta.name) && FreeFor(s.keys, k, meta.name)
    ensures var (op, t) := (UpsertKey(meta, sortIndex, remoteId), Step(s, UpsertKey(meta, sortIndex, remoteId)));
            && Plan(s, op).Success? && t == s.(keys := t.keys, clock := s.clock + 1)
            && |t.keys| == |s.keys| && Folded(s.keys[k].meta, meta, t.keys[k].meta)
            && (if t.keys[k].meta == s.keys[k].meta then t.keys == s.keys else RowRewritten(s.keys, t.keys, k))
  {
    var found := ActiveKey(s.keys, meta.name);
    assert HoldsName(s.keys[k], meta.name);
    if found.Some? {
      assert Bears(s.keys, found.value, meta.name);
    }
    assert found == Some(k);
    PlatformsJoin(s.keys[k].meta.platforms, meta.platforms);
    UpsertPlan(s, meta, sortIndex, remoteId);
  }

  lemma UpsertPlan(s: State, meta: Meta, sortIndex: int, remoteId: Option<int>)
    ensures Plan(s, UpsertKey(meta, sortIndex, remoteId)) == PlanUpsertKey(s, meta, sortIndex, remoteId)
  {
  }

  /** A batch goes through if its keys exist; a row it changes goes one version up. */
  lemma UpsertsCells(s: State, rows: map<Pair, (Text, Hint)>, p: Pair)
    ensures Answers(s, UpsertCells(rows),
                    if exists q :: q in rows && |s.keys| <= q.key then Some(ForeignKeyViolation) else None)
    ensures var t := Step(s, UpsertCells(rows));
            Plan(s, UpsertCells(rows)).Success? ==>
              && t == s.(cells := t.cells, clock := s.clock + 1)
              && (if p !in rows then (p in t.cells <==> p in s.cells) && (p in s.cells ==> t.cells[p] == s.cells[p])
                  else
                    && p in t.cells && t.cells[p].value == rows[p].0 && t.cells[p].hint == rows[p].1
                    && t.cells[p].version ==
                       if p in s.cells && s.cells[p].value == rows[p].0 && s.cells[p].hint == rows[p].1
                       then s.cells[p].version else VersionAt(s.cells, p) + 1)
  {
    if Plan(s, UpsertCells(rows)).Success? {
      var w := WriteCells(rows);
      assert Plan(s, UpsertCells(rows)) == Success(w) && w.WriteCells?;
    }
  }
}
