/** The key browser's filters agree with the reads they filter. */
module Filters {
  import opened Wrappers
  import opened Bytes
  import opened Schema
  import opened Statements

  // ---- LIKE -------------------------------------------------------------------------------

  /** ILIKE ... ESCAPE '\'; letters are compared under the database's case folding. */
  predicate Like(fold: Byte -> Byte, pattern: Text, s: Text)
    decreases |pattern|, |s|
  {
    if pattern == [] then s == []
    else if pattern[0] == PERCENT then Like(fold, pattern[1..], s) || (s != [] && Like(fold, pattern, s[1..]))
    else if pattern[0] == UNDERSCORE then s != [] && Like(fold, pattern[1..], s[1..])
    else if pattern[0] == BACKSLASH && |pattern| >= 2 then
      s != [] && fold(s[0]) == fold(pattern[1]) && Like(fold, pattern[2..], s[1..])
    else s != [] && fold(s[0]) == fold(pattern[0]) && Like(fold, pattern[1..], s[1..])
  }

  function EscapeLike(s: Text): Text {
    if s == [] then []
    else if s[0] == BACKSLASH || s[0] == PERCENT || s[0] == UNDERSCORE then [BACKSLASH, s[0]] + EscapeLike(s[1..])
    else [s[0]] + EscapeLike(s[1..])
  }

  function PatternFor(needle: Text): Text {
    [PERCENT] + EscapeLike(needle) + [PERCENT]
  }

  /** The needle stands in s at i, up to case. */
  predicate StandsAt(fold: Byte -> Byte, needle: Text, s: Text, i: nat) {
    i + |needle| <= |s| && forall k :: 0 <= k < |needle| ==> fold(s[i + k]) == fold(needle[k])
  }

  predicate ContainsFolded(fold: Byte -> Byte, needle: Text, s: Text) {
    exists i :: 0 <= i <= |s| && StandsAt(fold, needle, s, i)
  }

  lemma {:induction false} PercentMatchesAll(fold: Byte -> Byte, s: Text)
    ensures Like(fold, [PERCENT], s)
  {
    if s != [] {
      PercentMatchesAll(fold, s[1..]);
    } else {
      assert Like(fold, [PERCENT][1..], s);
    }
  }

  lemma StandsStep(fold: Byte -> Byte, needle: Text, s: Text)
    requires needle != []
    ensures StandsAt(fold, needle, s, 0)
            <==> s != [] && fold(s[0]) == fold(needle[0]) && StandsAt(fold, needle[1..], s[1..], 0)
  {
    if s != [] && fold(s[0]) == fold(needle[0]) && StandsAt(fold, needle[1..], s[1..], 0) {
      forall k | 0 <= k < |needle|
        ensures fold(s[k]) == fold(needle[k])
      {
        if k > 0 {
          assert fold(s[1..][k - 1]) == fold(needle[1..][k - 1]);
        }
      }
    }
    if StandsAt(fold, needle, s, 0) {
      forall k | 0 <= k < |needle[1..]|
        ensures fold(s[1..][k]) == fold(needle[1..][k])
      {
        assert fold(s[k + 1]) == fold(needle[k + 1]);
      }
    }
  }

  /** An escaped needle and a percent sign match what begins with the needle. */
  lemma {:induction false} EscapedMatchesPrefix(fold: Byte -> Byte, needle: Text, s: Text)
    ensures Like(fold, EscapeLike(needle) + [PERCENT], s) <==> StandsAt(fold, needle, s, 0)
    decreases |needle|
  {
    var pattern := EscapeLike(needle) + [PERCENT];
    if needle == [] {
      assert pattern == [PERCENT];
      PercentMatchesAll(fold, s);
    } else {
      StandsStep(fold, needle, s);
      var rest := EscapeLike(needle[1..]) + [PERCENT];
      if needle[0] == BACKSLASH || needle[0] == PERCENT || needle[0] == UNDERSCORE {
        assert pattern == [BACKSLASH, needle[0]] + rest && pattern[2..] == rest;
      } else {
        assert pattern == [needle[0]] + rest && pattern[1..] == rest;
      }
      if s != [] {
        EscapedMatchesPrefix(fold, needle[1..], s[1..]);
      }
    }
  }

  /** A leading percent sign tries every position. */
  lemma {:induction false} PercentTriesAll(fold: Byte -> Byte, rest: Text, s: Text)
    ensures Like(fold, [PERCENT] + rest, s) <==> exists i :: 0 <= i <= |s| && Like(fold, rest, s[i..])
    decreases |s|
  {
    var pattern := [PERCENT] + rest;
    assert pattern[1..] == rest && s[0..] == s;
    if s != [] {
      PercentTriesAll(fold, rest, s[1..]);
      if Like(fold, pattern, s[1..]) {
        var i :| 0 <= i <= |s[1..]| && Like(fold, rest, s[1..][i..]);
        assert s[1..][i..] == s[i + 1..];
      }
      if i :| 0 < i <= |s| && Like(fold, rest, s[i..]) {
        assert s[1..][i - 1..] == s[i..];
      }
    }
  }

  /** The search pattern matches exactly the strings that contain the needle. */
  lemma {:induction false} PatternMatchesContaining(fold: Byte -> Byte, needle: Text, s: Text)
    ensures Like(fold, PatternFor(needle), s) <==> ContainsFolded(fold, needle, s)
  {
    var rest := EscapeLike(needle) + [PERCENT];
    assert PatternFor(needle) == [PERCENT] + rest;
    PercentTriesAll(fold, rest, s);
    forall i | 0 <= i <= |s|
      ensures Like(fold, rest, s[i..]) <==> StandsAt(fold, needle, s, i)
    {
      EscapedMatchesPrefix(fold, needle, s[i..]);
      SuffixStands(fold, needle, s, i);
    }
  }

  lemma SuffixStands(fold: Byte -> Byte, needle: Text, s: Text, i: nat)
    requires i <= |s|
    ensures StandsAt(fold, needle, s[i..], 0) <==> StandsAt(fold, needle, s, i)
  {
    assert forall k :: 0 <= k < |s| - i ==> s[i..][k] == s[i + k];
  }

  // ---- the branch clauses of List ---------------------------------------------------------------

  /** EXISTS a kept value delta of the key that matches. */
  ghost predicate DeltaMatches(deltas: map<Pair, ValueDelta>, k: nat, matches: Text -> bool) {
    exists p :: p in deltas && p.key == k && deltas[p].value.Some? && matches(deltas[p].value.value)
  }

  /** EXISTS a matching master row the branch has not touched. */
  ghost predicate MasterMatches(cells: map<Pair, Cell>, deltas: map<Pair, ValueDelta>, k: nat, matches: Text -> bool) {
    exists p :: p in cells && p.key == k && matches(cells[p].value) && p !in deltas
  }

  /** The two halves of the value search find a key exactly when some locale of it reads,
      through the branch, as a value that matches. */
  lemma SearchAgreesWithReads(cells: map<Pair, Cell>, deltas: map<Pair, ValueDelta>, k: nat, matches: Text -> bool)
    ensures DeltaMatches(deltas, k, matches) || MasterMatches(cells, deltas, k, matches)
            <==> exists p: Pair :: p.key == k && Resolve(cells, deltas, p).found
                                   && matches(Resolve(cells, deltas, p).value)
  {
    if DeltaMatches(deltas, k, matches) {
      var p :| p in deltas && p.key == k && deltas[p].value.Some? && matches(deltas[p].value.value);
      assert Resolve(cells, deltas, p).found && matches(Resolve(cells, deltas, p).value);
    } else if MasterMatches(cells, deltas, k, matches) {
      var p :| p in cells && p.key == k && matches(cells[p].value) && p !in deltas;
      assert Resolve(cells, deltas, p).found && matches(Resolve(cells, deltas, p).value);
    }
    if p: Pair :| p.key == k && Resolve(cells, deltas, p).found && matches(Resolve(cells, deltas, p).value) {
      if p in deltas {
        assert DeltaMatches(deltas, k, matches);
      } else {
        assert MasterMatches(cells, deltas, k, matches);
      }
    }
  }

  /** A whole search on a branch: by master's name, by master's description or by value. */
  ghost predicate Found(fold: Byte -> Byte, row: KeyRow, cells: map<Pair, Cell>, deltas: map<Pair, ValueDelta>,
                        k: nat, needle: Text) {
    var matches := s => Like(fold, PatternFor(needle), s);
    || matches(row.meta.name) || matches(row.meta.description)
    || DeltaMatches(deltas, k, matches) || MasterMatches(cells, deltas, k, matches)
  }

  /** It finds a key exactly when the needle occurs in its name, its description, or in what
      some locale of it reads as through the branch. */
  lemma SearchFinds(fold: Byte -> Byte, row: KeyRow, cells: map<Pair, Cell>, deltas: map<Pair, ValueDelta>, k: nat,
                    needle: Text)
    ensures Found(fold, row, cells, deltas, k, needle) <==>
            Occurs(fold, row, cells, deltas, k, needle)
  {
    var matches := s => Like(fold, PatternFor(needle), s);
    forall s
      ensures matches(s) <==> ContainsFolded(fold, needle, s)
    {
      PatternMatchesContaining(fold, needle, s);
    }
    SearchAgreesWithReads(cells, deltas, k, matches);
  }

  /** The join's CASE expression, negated. */
  predicate Untranslated(cells: map<Pair, Cell>, deltas: map<Pair, ValueDelta>, p: Pair) {
    !(if p in deltas then !deltas[p].value.None? else p in cells)
  }

  /** The WHERE clause of the key list on a branch: the key is active on master or on the
      branch, the search finds it, and the named locale is untranslated. */
  ghost predicate Listed(fold: Byte -> Byte, row: KeyRow, cells: map<Pair, Cell>, branch: Branch, k: nat,
                         needle: Option<Text>, untranslatedIn: Option<nat>) {
    && (row.meta.status.Active? || (k in branch.metas && branch.metas[k].meta.status.Active?))
    && (needle.Some? ==> Found(fold, row, cells, branch.values, k, needle.value))
    && (untranslatedIn.Some? ==> Untranslated(cells, branch.values, Pair(k, untranslatedIn.value)))
  }

  /** The needle occurs in the key's name or description on master, or in what some locale of
      it reads as through the branch. */
  ghost predicate Occurs(fold: Byte -> Byte, row: KeyRow, cells: map<Pair, Cell>, deltas: map<Pair, ValueDelta>,
                         k: nat, needle: Text) {
    || ContainsFolded(fold, needle, row.meta.name)
    || ContainsFolded(fold, needle, row.meta.description)
    || exists p: Pair :: p.key == k && Resolve(cells, deltas, p).found
                         && ContainsFolded(fold, needle, Resolve(cells, deltas, p).value)
  }

  /** The list holds exactly the keys that are active on master or on the branch, in which the
      needle occurs as the branch reads them, and which do not read as found in the named
      locale: a tombstone counts as untranslated, a deliberate blank does not. */
  lemma ListedReads(fold: Byte -> Byte, row: KeyRow, cells: map<Pair, Cell>, branch: Branch, k: nat,
                    needle: Option<Text>, untranslatedIn: Option<nat>)
    ensures Listed(fold, row, cells, branch, k, needle, untranslatedIn) <==>
            && (row.meta.status.Active? || (k in branch.metas && branch.metas[k].meta.status.Active?))
            && (needle.Some? ==> Occurs(fold, row, cells, branch.values, k, needle.value))
            && (untranslatedIn.Some? ==> !Resolve(cells, branch.values, Pair(k, untranslatedIn.value)).found)
  {
    if needle.Some? {
      SearchFinds(fold, row, cells, branch.values, k, needle.value);
    }
  }

  // ---- names the branch has changed ------------------------------------------------------------

  lemma ContainsItself(fold: Byte -> Byte, s: Text)
    ensures ContainsFolded(fold, s, s)
  {
    assert StandsAt(fold, s, s, 0);
  }

  lemma ContainsTransitive(fold: Byte -> Byte, needle: Text, between: Text, s: Text)
    requires ContainsFolded(fold, needle, between) && ContainsFolded(fold, between, s)
    ensures ContainsFolded(fold, needle, s)
  {
    var i :| 0 <= i <= |between| && StandsAt(fold, needle, between, i);
    var j :| 0 <= j <= |s| && StandsAt(fold, between, s, j);
    forall k | 0 <= k < |needle|
      ensures fold(s[j + i + k]) == fold(needle[k])
    {
      assert fold(between[i + k]) == fold(needle[k]);
      assert fold(s[j + (i + k)]) == fold(between[i + k]);
    }
    assert StandsAt(fold, needle, s, j + i);
  }

  lemma OccursWithin(fold: Byte -> Byte, row: KeyRow, cells: map<Pair, Cell>, deltas: map<Pair, ValueDelta>, k: nat,
                     needle: Text, shown: Text)
    requires ContainsFolded(fold, needle, shown) && Occurs(fold, row, cells, deltas, k, shown)
    ensures Occurs(fold, row, cells, deltas, k, needle)
  {
    if ContainsFolded(fold, shown, row.meta.name) {
      ContainsTransitive(fold, needle, shown, row.meta.name);
    } else if ContainsFolded(fold, shown, row.meta.description) {
      ContainsTransitive(fold, needle, shown, row.meta.description);
    } else {
      var p: Pair :| p.key == k && Resolve(cells, deltas, p).found
                     && ContainsFolded(fold, shown, Resolve(cells, deltas, p).value);
      ContainsTransitive(fold, needle, shown, Resolve(cells, deltas, p).value);
    }
  }

  /** Names are searched on master only. A key is found by every part of the name the branch
      shows for it exactly when that name occurs in master's name, in the description or in a
      value, as it does unless the branch has renamed the key. */
  lemma ShownNameFinds(fold: Byte -> Byte, row: KeyRow, cells: map<Pair, Cell>, deltas: map<Pair, ValueDelta>, k: nat,
                       shown: Text)
    ensures (forall needle :: ContainsFolded(fold, needle, shown) ==> Found(fold, row, cells, deltas, k, needle))
            <==> Occurs(fold, row, cells, deltas, k, shown)
    ensures shown == row.meta.name ==> Occurs(fold, row, cells, deltas, k, shown)
  {
    ContainsItself(fold, shown);
    SearchFinds(fold, row, cells, deltas, k, shown);
    if Occurs(fold, row, cells, deltas, k, shown) {
      forall needle | ContainsFolded(fold, needle, shown)
        ensures Found(fold, row, cells, deltas, k, needle)
      {
        OccursWithin(fold, row, cells, deltas, k, needle, shown);
        SearchFinds(fold, row, cells, deltas, k, needle);
      }
    }
  }

  /** A key "a" that the branch has renamed to "b" is not found there by "b". */
  lemma RenamedIsMissed(row: KeyRow, branch: Branch, k: nat)
    requires row.meta.name == [LOWER_A] && row.meta.description == [] && branch.values == map[]
    requires k in branch.metas && branch.metas[k].meta.name == [LOWER_B]
    ensures !Found(c => c, row, map[], branch.values, k, branch.metas[k].meta.name)
  {
    SearchFinds(c => c, row, map[], branch.values, k, [LOWER_B]);
  }
}
