/** What a branch shows, and to whom: a branch reads its own writes, and nobody else does. */
module BranchViews {
  import opened Wrappers
  import opened Bytes
  import opened Schema
  import opened Statements
  import opened Service
  import opened Frames
  import opened Invariants
  import opened Bundling

  /** The metadata a branch shows for a key: its own delta if it has one, else master's. */
  function Shown(s: State, b: nat, k: nat): Meta
    requires b < |s.branches| && k < |s.keys|
  {
    if k in s.branches[b].metas then s.branches[b].metas[k].meta else s.keys[k].meta
  }

  function Reads(s: State, b: nat, p: Pair): Resolved
    requires b < |s.branches|
  {
    Resolve(s.cells, s.branches[b].values, p)
  }

  // ---- a branch reads its own writes ------------------------------------------------------

  /** A value saved on a branch reads back there, and only that pair changed. */
  lemma {:induction false} SaveReadsBack(s: State, name: Text, b: nat, p: Pair, value: Text, hint: Hint, q: Pair)
    requires FindBranch(s.branches, name) == Some(b)
    requires Plan(s, SetTranslation(Some(name), p.key, p.locale, value, hint, None)).Success?
    ensures var t := Step(s, SetTranslation(Some(name), p.key, p.locale, value, hint, None));
            && b < |s.branches| && |t.branches| == |s.branches|
            && Reads(t, b, q) == if q == p then Resolved(value, hint, true, true, MasterVersion(s.cells, p))
                                 else Reads(s, b, q)
  {
  }

  /** A value removed on a branch reads as untranslated there, which is not a blank. */
  lemma {:induction false} RemovalReadsBack(s: State, name: Text, b: nat, p: Pair, q: Pair)
    requires FindBranch(s.branches, name) == Some(b)
    requires Plan(s, DeleteTranslation(Some(name), p.key, p.locale, None)).Success?
    ensures var t := Step(s, DeleteTranslation(Some(name), p.key, p.locale, None));
            && b < |s.branches| && |t.branches| == |s.branches| && Reads(s, b, p).found && !Reads(t, b, p).found
            && (q != p ==> Reads(t, b, q) == Reads(s, b, q))
  {
  }

  /** A patch shows through the branch field by field: what it mentions is as it says, what
      it leaves out is what the branch showed before, earlier patches included. */
  lemma {:induction false} PatchShows(s: State, name: Text, b: nat, k: nat, patch: Patch, j: nat)
    requires FindBranch(s.branches, name) == Some(b) && k < |s.keys| && j < |s.keys|
    requires Plan(s, UpdateKey(Some(name), k, patch, None)).Success?
    ensures var (was, t) := (Shown(s, b, k), Step(s, UpdateKey(Some(name), k, patch, None)));
            && |t.branches| == |s.branches| && t.keys == s.keys
            && (j != k ==> Shown(t, b, j) == Shown(s, b, j))
            && var now := Shown(t, b, k);
               && now.name == (if patch.name.Some? then patch.name.value else was.name)
               && now.description == (if patch.description.Some? then patch.description.value else was.description)
               && now.platforms == (if patch.platforms.Some? then patch.platforms.value else was.platforms)
               && (match patch.androidName
                   case Keep => now.androidName == was.androidName
                   case Clear => now.androidName == None
                   case Set(n) => now.androidName == Some(n))
               && (match patch.iosName
                   case Keep => now.iosName == was.iosName
                   case Clear => now.iosName == None
                   case Set(n) => now.iosName == Some(n))
               && now.status == was.status
  {
  }

  // ---- nobody else does ---------------------------------------------------------------------

  /** A call addressed to a branch. */
  predicate OnBranch(op: Op) {
    (op.CreateKey? || op.UpdateKey? || op.DeleteKey? || op.SetTranslation? || op.DeleteTranslation?) && op.branch.Some?
  }

  predicate BranchWrite(w: Write) {
    w.DraftKey? || w.PatchMeta? || w.EditValue?
  }

  lemma PlannedOnBranch(s: State, op: Op)
    requires OnBranch(op) && Plan(s, op).Success?
    ensures BranchWrite(Plan(s, op).value) && FindBranch(s.branches, op.branch.value) == Some(Plan(s, op).value.b)
    ensures Plan(s, op).value.DraftKey? ==> Plan(s, op).value.meta.status.Draft?
  {
  }

  /** Master's tables but for a draft behind its keys, and all other branches. */
  ghost predicate Isolated(s: State, t: State, b: nat) {
    && t.cells == s.cells && t.releases == s.releases
    && |t.keys| <= |s.keys| + 1 && MoreDrafts(s.keys, t.keys)
    && |t.branches| == |s.branches|
    && (forall c :: 0 <= c < |s.branches| && c != b ==> t.branches[c] == s.branches[c])
  }

  lemma CommitIsolated(s: State, w: Write)
    requires Fits(s, w) && BranchWrite(w) && (w.DraftKey? ==> w.meta.status.Draft?)
    ensures Isolated(s, Commit(s, w), w.b)
  {
    match w
    case DraftKey(b, meta) =>
    case PatchMeta(b, k, meta) =>
    case EditValue(b, p, value, hint) =>
  }

  /** Key rows that differ by drafts at the end. */
  ghost predicate MoreDrafts(before: seq<KeyRow>, after: seq<KeyRow>) {
    && |before| <= |after|
    && (forall k :: 0 <= k < |before| ==> after[k] == before[k])
    && (forall k :: |before| <= k < |after| ==> after[k].meta.status.Draft?)
  }

  lemma ViewValues(strings: map<Text, Text>, before: seq<KeyRow>, after: seq<KeyRow>, cells: map<Pair, Cell>, l: nat,
                   k: nat)
    requires MoreDrafts(before, after) && IsView(strings, after, cells, l) && k in ShippedKeys(before, Flutter)
    ensures before[k].meta.name in strings && strings[before[k].meta.name] == ExportValue(cells, Pair(k, l))
  {
    assert after[k] == before[k] && k in ShippedKeys(after, Flutter);
  }

  lemma ViewNames(strings: map<Text, Text>, before: seq<KeyRow>, after: seq<KeyRow>, cells: map<Pair, Cell>, l: nat,
                  name: Text)
    requires MoreDrafts(before, after) && IsView(strings, after, cells, l) && name in strings
    ensures exists k :: k in ShippedKeys(before, Flutter) && before[k].meta.name == name
  {
    var k :| k in ShippedKeys(after, Flutter) && after[k].meta.name == name;
    assert k < |before| && before[k] == after[k];
    assert k in ShippedKeys(before, Flutter);
  }

  lemma ViewCarries(strings: map<Text, Text>, before: seq<KeyRow>, after: seq<KeyRow>, cells: map<Pair, Cell>, l: nat)
    requires MoreDrafts(before, after) && IsView(strings, after, cells, l)
    ensures IsView(strings, before, cells, l)
  {
    forall name | name in strings
      ensures exists k :: k in ShippedKeys(before, Flutter) && before[k].meta.name == name
    {
      ViewNames(strings, before, after, cells, l, name);
    }
    forall k | k in ShippedKeys(before, Flutter)
      ensures before[k].meta.name in strings && strings[before[k].meta.name] == ExportValue(cells, Pair(k, l))
    {
      ViewValues(strings, before, after, cells, l, k);
    }
  }

  /** What ships does not depend on drafts. */
  lemma DraftsDoNotShip(before: seq<KeyRow>, after: seq<KeyRow>, cells: map<Pair, Cell>, l: nat)
    requires NamesUnique(before) && NamesUnique(after) && MoreDrafts(before, after)
    ensures BundleStrings(after, cells, l) == BundleStrings(before, cells, l)
  {
    BundleIsView(before, cells, l);
    BundleIsView(after, cells, l);
    ViewCarries(BundleStrings(after, cells, l), before, after, cells, l);
    ViewIsUnique(BundleStrings(after, cells, l), BundleStrings(before, cells, l), before, cells, l);
  }

  /** A call on a branch changes no master row, no other branch, and nothing that a release
      cut now would ship, whether or not it succeeds. */
  lemma BranchesAreIsolated(s: State, op: Op, b: nat, l: nat)
    requires Inv(s) && OnBranch(op) && FindBranch(s.branches, op.branch.value) == Some(b)
    ensures Isolated(s, Step(s, op), b)
    ensures BundleStrings(Step(s, op).keys, Step(s, op).cells, l) == BundleStrings(s.keys, s.cells, l)
  {
    StepKeepsInv(s, op);
    if Plan(s, op).Success? {
      PlannedOnBranch(s, op);
      CommitIsolated(s, Plan(s, op).value);
    }
    DraftsDoNotShip(s.keys, Step(s, op).keys, s.cells, l);
  }

  // ---- copy on write -------------------------------------------------------------------------

  lemma DeltaKept(s: State, w: Write, b: nat, p: Pair)
    requires Fits(s, w) && b < |s.branches| && p in s.branches[b].values && !(w.EditValue? && w.b == b && w.p == p)
    ensures b < |Commit(s, w).branches| && p in Commit(s, w).branches[b].values
    ensures Commit(s, w).branches[b].values[p] == s.branches[b].values[p]
  {
    BranchCommitted(s, w, b);
  }

  /** What a branch has touched reads the same to it whatever else happens: only writes
      of its own change what it reads there. */
  lemma TouchedPairsHold(s: State, w: Write, b: nat, p: Pair)
    requires Fits(s, w) && b < |s.branches| && p in s.branches[b].values && !(w.EditValue? && w.b == b && w.p == p)
    ensures b < |Commit(s, w).branches|
    ensures var (was, now) := (Reads(s, b, p), Reads(Commit(s, w), b, p));
            now.found == was.found && now.value == was.value && now.hint == was.hint && now.fromBranch
  {
    DeltaKept(s, w, b, p);
  }
}
