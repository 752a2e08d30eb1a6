/** Which backups and releases the retention run selects for deletion. */
module Selections {
  import opened Common
  import opened Sets

  /**
   * `chosen` are the deletions among the verified names: no protected one, as many
   * as are needed to get down to the limit, and none that ranks above a name kept
   * only for its rank.
   */
  ghost predicate Selection(verified: set<string>, guarded: set<string>, limit: int,
                            above: (string, string) -> bool, chosen: set<string>)
  {
    && chosen <= verified - guarded
    && |verified + guarded| - |chosen| == Min(Max(limit, |guarded|), |verified + guarded|)
    && forall x, y :: x in verified - guarded - chosen && y in chosen ==> above(x, y)
  }

  /** Nothing is selected exactly when everything fits. */
  lemma NothingSelectedExactly(verified: set<string>, guarded: set<string>, limit: int,
                               above: (string, string) -> bool, chosen: set<string>)
    requires Selection(verified, guarded, limit, above, chosen)
    ensures chosen == {} <==> |verified + guarded| <= Max(limit, |guarded|)
    ensures |verified + guarded - chosen| <= Max(limit, |guarded|)
    ensures chosen != {} ==> |verified + guarded - chosen| >= limit
  {
    assert |verified + guarded - chosen| == |verified + guarded| - |chosen|;
  }

  /** A second run over what is left selects nothing. */
  lemma SecondRunKeepsAll(verified: set<string>, guarded: set<string>, limit: int,
                          above: (string, string) -> bool, first: set<string>, second: set<string>)
    requires Selection(verified, guarded, limit, above, first)
    requires Selection(verified - first, guarded, limit, above, second)
    ensures second == {}
  {
    NothingSelectedExactly(verified, guarded, limit, above, first);
    assert verified - first + guarded == verified + guarded - first;
    NothingSelectedExactly(verified - first, guarded, limit, above, second);
  }

  lemma SpilledOver<T>(a: set<T>, b: set<T>)
    requires |a| == |b| && a != b
    ensures a - b != {} && b - a != {}
  {
    assert a == (a - b) + (a * b) && b == (b - a) + (a * b);
    assert |a| == |a - b| + |a * b| && |b| == |b - a| + |a * b|;
  }

  lemma KeptAbove(verified: set<string>, guarded: set<string>, limit: int,
                  above: (string, string) -> bool, chosen: set<string>, x: string, y: string)
    requires Selection(verified, guarded, limit, above, chosen)
    ensures x in verified - guarded - chosen && y in chosen ==> above(x, y)
  {
  }

  /** Where no two names rank alike, the selection is determined. */
  lemma SelectionUnique(verified: set<string>, guarded: set<string>, limit: int,
                        above: (string, string) -> bool, a: set<string>, b: set<string>)
    requires forall x, y :: x in verified && y in verified && above(x, y) && above(y, x) ==> x == y
    requires Selection(verified, guarded, limit, above, a)
    requires Selection(verified, guarded, limit, above, b)
    ensures a == b
  {
    if a != b {
      SpilledOver(a, b);
      var x := Pick(a - b);
      var y := Pick(b - a);
      KeptAbove(verified, guarded, limit, above, b, x, y);
      KeptAbove(verified, guarded, limit, above, a, y, x);
    }
  }

  lemma TopCount(ordered: seq<string>, guarded: set<string>, limit: int, k: nat)
    requires k <= |ordered|
    requires |guarded + Elems(ordered[..k])| <= Max(limit, |guarded|)
    requires k < |ordered| ==> |guarded + Elems(ordered[..k])| >= limit
    ensures |guarded + Elems(ordered[..k])| == Min(Max(limit, |guarded|), |Elems(ordered) + guarded|)
  {
    var kept := guarded + Elems(ordered[..k]);
    assert Elems(ordered[..k]) <= Elems(ordered);
    SubsetSize(kept, Elems(ordered) + guarded);
    SubsetSize(guarded, kept);
    if k == |ordered| {
      assert ordered[..k] == ordered;
      assert kept == Elems(ordered) + guarded;
    }
  }

  lemma TopAbove(ordered: seq<string>, above: (string, string) -> bool, k: nat, x: string, y: string)
    requires forall i, j :: 0 <= i < j < |ordered| ==> above(ordered[i], ordered[j])
    requires k <= |ordered| && x in ordered[..k] && y in ordered && y !in ordered[..k]
    ensures above(x, y)
  {
    var i :| 0 <= i < k && ordered[..k][i] == x;
    var j :| 0 <= j < |ordered| && ordered[j] == y;
    InPrefix(ordered, k, j);
  }

  lemma InPrefix(ordered: seq<string>, k: nat, j: nat)
    requires k <= |ordered|
    ensures j < k ==> ordered[j] in ordered[..k]
  {
    if j < k {
      assert ordered[..k][j] == ordered[j];
    }
  }

  lemma Remaining(verified: set<string>, guarded: set<string>, top: set<string>)
    requires top <= verified
    ensures |verified + guarded| == |guarded + top| + |verified - (guarded + top)|
  {
    assert verified + guarded == (guarded + top) + (verified - (guarded + top));
  }

  /** Keeping the top of a ranked list up to the limit selects the rest. */
  lemma TopIsSelection(ordered: seq<string>, guarded: set<string>, limit: int,
                       above: (string, string) -> bool, k: nat)
    requires forall i, j :: 0 <= i < j < |ordered| ==> above(ordered[i], ordered[j])
    requires k <= |ordered|
    requires |guarded + Elems(ordered[..k])| <= Max(limit, |guarded|)
    requires k < |ordered| ==> |guarded + Elems(ordered[..k])| >= limit
    ensures Selection(Elems(ordered), guarded, limit, above, Elems(ordered) - (guarded + Elems(ordered[..k])))
  {
    var verified, kept := Elems(ordered), guarded + Elems(ordered[..k]);
    var chosen := verified - kept;
    TopCount(ordered, guarded, limit, k);
    Remaining(verified, guarded, Elems(ordered[..k]));
    forall x, y | x in verified - guarded - chosen && y in chosen
      ensures above(x, y)
    {
      TopAbove(ordered, above, k, x, y);
    }
  }
}

/** The retention run over the backup and release directories. */
module Retention {
  import opened Common
  import opened Lexicographic
  import opened Selections
  import opened Sets
  import opened Sorting
  import V = Versions

  /** Creation times with and without a time zone do not compare. */
  datatype Moment = Aware(t: int) | Naive(t: int)

  /** What verification makes of a directory entry. */
  datatype Entry = Backup(created: Moment) | Release | Other

  datatype Error = UnsafeLimits | UnsafeRoot | IncomparableTimes | UnsafeCurrent | DeletionFailed

  datatype Outcome = Done(backups: seq<string>, releases: seq<string>) | Failed(error: Error)

  /** The managed link to the current release. */
  datatype Link = Missing | To(name: string) | Unsafe

  // ------------------------------------------------------------------ ranking

  predicate IsBackup(entries: map<string, Entry>, name: string) {
    name in entries && entries[name].Backup?
  }

  predicate IsRelease(entries: map<string, Entry>, name: string) {
    name in entries && entries[name].Release? && V.Precedence(name).Some?
  }

  function Age(entries: map<string, Entry>, name: string): int {
    if IsBackup(entries, name) then entries[name].created.t else 0
  }

  /** Newer backups first, and later names first among those of one time. */
  predicate NewerOrSame(entries: map<string, Entry>, x: string, y: string) {
    Age(entries, x) > Age(entries, y) || (Age(entries, x) == Age(entries, y) && TextLeq(y, x))
  }

  function Newest(entries: map<string, Entry>): (string, string) -> bool {
    (x, y) => NewerOrSame(entries, x, y)
  }

  lemma NewestOrders(entries: map<string, Entry>)
    ensures TotalPreorder(Newest(entries)) && Antisymmetric(Newest(entries))
  {
    TextOrder();
  }

  function Rank(name: string): V.Key {
    var key := V.Precedence(name);
    if key.Some? then key.value else V.Key(0, 0, 0, 0, [])
  }

  lemma RankKeyed(name: string)
    ensures V.WellKeyed(Rank(name))
  {
    if V.Precedence(name).Some? {
      V.PrecedenceKinded(name);
    }
  }

  predicate HigherOrSame(x: string, y: string) {
    RankKeyed(x);
    RankKeyed(y);
    !V.KeyLess(Rank(x), Rank(y))
  }

  lemma HigherOrders()
    ensures TotalPreorder(HigherOrSame)
  {
    forall x, y
      ensures HigherOrSame(x, y) || HigherOrSame(y, x)
    {
      RankKeyed(x);
      RankKeyed(y);
      V.KeyTrichotomy(Rank(x), Rank(y));
    }
    forall x, y, z | HigherOrSame(x, y) && HigherOrSame(y, z)
      ensures HigherOrSame(x, z)
    {
      HigherTransitive(x, y, z);
    }
  }

  lemma HigherTransitive(x: string, y: string, z: string)
    requires HigherOrSame(x, y) && HigherOrSame(y, z)
    ensures HigherOrSame(x, z)
  {
    RankKeyed(x);
    RankKeyed(y);
    RankKeyed(z);
    V.KeyTrichotomy(Rank(x), Rank(y));
    V.KeyTrichotomy(Rank(y), Rank(z));
    if V.KeyLess(Rank(x), Rank(z)) {
      V.KeyTrichotomy(Rank(x), Rank(z));
      if Rank(z) != Rank(y) {
        V.KeyTransitive(Rank(x), Rank(z), Rank(y));
      }
    }
  }

  /** On releases the ranking is the order of Semantic Versioning. */
  lemma HigherIsSemVer(x: string, y: string)
    requires V.Precedence(x).Some? && V.Precedence(y).Some?
    ensures HigherOrSame(x, y) <==> !V.Lower(V.Parse(x).value, V.Parse(y).value)
  {
    RankKeyed(x);
    RankKeyed(y);
    V.PrecedenceIsSemVer(V.Parse(x).value, V.Parse(y).value);
  }

  // --------------------------------------------------------------- keep and remove

  function Backups(entries: map<string, Entry>): set<string> {
    set name | name in entries && IsBackup(entries, name)
  }

  function Releases(entries: map<string, Entry>): set<string> {
    set name | name in entries && IsRelease(entries, name)
  }

  predicate Comparable(entries: map<string, Entry>) {
    forall x, y :: x in Backups(entries) && y in Backups(entries) ==>
      (entries[x].created.Aware? <==> entries[y].created.Aware?)
  }

  /** The names not to be skipped, in order. */
  function Targets(ordered: seq<string>, skip: set<string>): seq<string> {
    if ordered == [] then []
    else (if ordered[0] in skip then [] else [ordered[0]]) + Targets(ordered[1..], skip)
  }

  lemma {:induction false} TargetsStep(ordered: seq<string>, skip: set<string>, k: nat)
    requires k < |ordered|
    ensures Targets(ordered[..k + 1], skip)
            == Targets(ordered[..k], skip) + if ordered[k] in skip then [] else [ordered[k]]
  {
    assert ordered[..k + 1][1..] == ordered[1..][..k];
    if k > 0 {
      assert ordered[..k][1..] == ordered[1..][..k - 1];
      TargetsStep(ordered[1..], skip, k - 1);
    }
  }

  lemma {:induction false} TargetsMembers(ordered: seq<string>, skip: set<string>)
    ensures forall x :: x in Targets(ordered, skip) <==> x in ordered && x !in skip
  {
    if ordered != [] {
      TargetsMembers(ordered[1..], skip);
      assert ordered == [ordered[0]] + ordered[1..];
    }
  }

  /** What a deletion that fails leaves behind, for each name whose deletion fails. */
  type Leftovers = map<string, Entry>

  /** The entries when the deletions of `gone` are done and the one of `next` may have failed. */
  function After(entries: map<string, Entry>, gone: seq<string>, next: Option<string>, stuck: Leftovers)
    : map<string, Entry>
  {
    var left := entries - Elems(gone);
    if next.Some? && next.value in stuck then left[next.value := stuck[next.value]] else left
  }

  /** How far the deletions got: to the first name whose deletion fails. */
  ghost predicate Progress(targets: seq<string>, stuck: Leftovers, gone: seq<string>, next: Option<string>) {
    && gone <= targets && (forall name :: name in gone ==> name !in stuck)
    && match next
       case None => gone == targets
       case Some(name) => |gone| < |targets| && name == targets[|gone|] && name in stuck
  }

  class Directory {
    var entries: map<string, Entry>

    constructor (entries: map<string, Entry>)
      ensures this.entries == entries
    {
      this.entries := entries;
    }

    /** The names in the order given by `above`, of those that `wanted` admits. */
    method Ordered(listing: seq<string>, wanted: set<string>, above: (string, string) -> bool)
      returns (ordered: seq<string>)
      requires wanted <= Elems(listing) && TotalPreorder(above)
      ensures Elems(ordered) == wanted
      ensures forall i, j :: 0 <= i < j < |ordered| ==> above(ordered[i], ordered[j])
    {
      var names := Targets(listing, Elems(listing) - wanted);
      TargetsMembers(listing, Elems(listing) - wanted);
      ordered := Sort(names, above);
      SortMembers(names, above);
      SortSorts(names, above);
    }

    /** The keep loop: protected names, then ranked ones until the limit is reached. */
    method Top(ordered: seq<string>, guarded: set<string>, limit: int) returns (kept: set<string>, ghost k: nat)
      ensures k <= |ordered| && kept == guarded + Elems(ordered[..k])
      ensures |kept| <= Max(limit, |guarded|)
      ensures k < |ordered| ==> |kept| >= limit
    {
      kept := guarded;
      var i := 0;
      while i < |ordered| && |kept| < limit
        invariant 0 <= i <= |ordered| && kept == guarded + Elems(ordered[..i])
        invariant |kept| <= Max(limit, |guarded|)
      {
        ElemsStep(ordered, i);
        kept := kept + {ordered[i]};
        i := i + 1;
      }
      k := i;
    }

    /** What is not kept is a selection. */
    method Keep(ordered: seq<string>, guarded: set<string>, limit: int, ghost above: (string, string) -> bool)
      returns (kept: set<string>)
      requires forall i, j :: 0 <= i < j < |ordered| ==> above(ordered[i], ordered[j])
      ensures guarded <= kept
      ensures Selection(Elems(ordered), guarded, limit, above, Elems(ordered) - kept)
    {
      ghost var k;
      kept, k := Top(ordered, guarded, limit);
      TopIsSelection(ordered, guarded, limit, above, k);
    }

    /** Delete what is not skipped; a deletion that fails ends the run. */
    method Remove(ordered: seq<string>, skip: set<string>, stuck: Leftovers)
      returns (removed: seq<string>, failed: Option<string>)
      modifies this
      ensures Progress(Targets(ordered, skip), stuck, removed, failed)
      ensures entries == After(old(entries), removed, failed, stuck)
    {
      removed := [];
      failed := None;
      for k := 0 to |ordered|
        invariant removed == Targets(ordered[..k], skip)
        invariant forall name :: name in removed ==> name !in stuck
        invariant entries == old(entries) - Elems(removed)
      {
        TargetsStep(ordered, skip, k);
        TargetsPrefix(ordered, skip, k + 1);
        var name := ordered[k];
        if name in skip {
          continue;
        }
        if name in stuck {
          entries := entries[name := stuck[name]];
          return removed, Some(name);
        }
        entries := entries - {name};
        removed := removed + [name];
      }
      assert ordered[..|ordered|] == ordered;
    }
  }

  lemma {:induction false} TargetsPrefix(ordered: seq<string>, skip: set<string>, k: nat)
    requires k <= |ordered|
    ensures Targets(ordered[..k], skip) <= Targets(ordered, skip)
    decreases |ordered| - k
  {
    if k == |ordered| {
      assert ordered[..k] == ordered;
    } else {
      TargetsPrefix(ordered, skip, k + 1);
      TargetsStep(ordered, skip, k);
    }
  }

  // ------------------------------------------------------------------ the run

  /** No backup was deleted that is newer than one kept for its age, or as old with a later name. */
  ghost predicate OldestGone(entries: map<string, Entry>, guarded: set<string>, gone: set<string>) {
    forall x, y :: x in Backups(entries) - guarded - gone && y in gone && y in Backups(entries) ==>
      || entries[x].created.t > entries[y].created.t
      || (entries[x].created.t == entries[y].created.t && TextLeq(y, x))
  }

  /** No release was deleted that is above one kept for its version. */
  ghost predicate LowestGone(entries: map<string, Entry>, gone: set<string>, guarded: set<string>) {
    forall x, y :: x in Releases(entries) - guarded - gone && y in gone && y in Releases(entries) ==>
      !V.Lower(V.Parse(x).value, V.Parse(y).value)
  }

  lemma SelectedOldest(entries: map<string, Entry>, guarded: set<string>, limit: int, chosen: set<string>)
    requires Selection(Backups(entries), guarded, limit, Newest(entries), chosen)
    ensures OldestGone(entries, guarded, chosen)
  {
    forall x, y | x in Backups(entries) - guarded - chosen && y in chosen && y in Backups(entries)
      ensures entries[x].created.t > entries[y].created.t
              || (entries[x].created.t == entries[y].created.t && TextLeq(y, x))
    {
      KeptAbove(Backups(entries), guarded, limit, Newest(entries), chosen, x, y);
    }
  }

  lemma SelectedLowest(entries: map<string, Entry>, guarded: set<string>, limit: int, chosen: set<string>)
    requires Selection(Releases(entries), guarded, limit, HigherOrSame, chosen)
    ensures LowestGone(entries, chosen, guarded)
  {
    forall x, y | x in Releases(entries) - guarded - chosen && y in chosen && y in Releases(entries)
      ensures !V.Lower(V.Parse(x).value, V.Parse(y).value)
    {
      KeptAbove(Releases(entries), guarded, limit, HigherOrSame, chosen, x, y);
      HigherIsSemVer(x, y);
    }
  }

  /** Entries outside `names` are the same in both. */
  ghost predicate Untouched(before: map<string, Entry>, after: map<string, Entry>, names: set<string>) {
    before - names == after - names
  }

  ghost predicate Hits(names: set<string>, stuck: Leftovers) {
    exists name :: name in names && name in stuck
  }

  lemma ProgressUntouched(entries: map<string, Entry>, targets: seq<string>, stuck: Leftovers,
                          gone: seq<string>, next: Option<string>)
    requires Progress(targets, stuck, gone, next)
    ensures Untouched(entries, After(entries, gone, next, stuck), Elems(targets))
    ensures next.Some? <==> Hits(Elems(targets), stuck)
    ensures next.None? ==> Elems(gone) == Elems(targets)
    ensures next.None? ==> After(entries, gone, next, stuck) == entries - Elems(targets)
  {
    assert forall x :: x in gone ==> x in targets;
    if next.Some? {
      assert next.value in targets;
    }
  }

  /** Keep, then remove: whatever happens, only chosen entries that are not skipped are touched. */
  method Prune(dir: Directory, listing: seq<string>, wanted: set<string>, above: (string, string) -> bool,
               guarded: set<string>, limit: int, skip: set<string>, stuck: Leftovers)
    returns (removed: seq<string>, failed: bool, ghost chosen: set<string>)
    requires wanted <= Elems(listing) && TotalPreorder(above)
    modifies dir
    ensures Selection(wanted, guarded, limit, above, chosen)
    ensures Untouched(old(dir.entries), dir.entries, chosen - skip)
    ensures failed <==> Hits(chosen - skip, stuck)
    ensures !failed ==> Elems(removed) == chosen - skip && dir.entries == old(dir.entries) - (chosen - skip)
  {
    ghost var entries := dir.entries;
    var ordered := dir.Ordered(listing, wanted, above);
    var kept := dir.Keep(ordered, guarded, limit, above);
    chosen := wanted - kept;
    var stopped;
    removed, stopped := dir.Remove(ordered, kept + skip, stuck);
    ghost var targets := Targets(ordered, kept + skip);
    ProgressUntouched(entries, targets, stuck, removed, stopped);
    assert Elems(targets) == chosen - skip by {
      TargetsMembers(ordered, kept + skip);
    }
    failed := stopped.Some?;
  }

  /** There are backups whose times have a zone and backups whose times have none. */
  ghost predicate MixedTimes(entries: map<string, Entry>) {
    exists x, y :: x in entries && y in entries && entries[x].Backup? && entries[y].Backup?
                   && entries[x].created.Aware? && entries[y].created.Naive?
  }

  lemma MixedExactly(entries: map<string, Entry>)
    ensures MixedTimes(entries) <==> !Comparable(entries)
  {
    if MixedTimes(entries) {
      var x, y :| x in entries && y in entries && entries[x].Backup? && entries[y].Backup?
                  && entries[x].created.Aware? && entries[y].created.Naive?;
      assert x in Backups(entries) && y in Backups(entries);
    }
  }

  /** The backups: creation times that do not compare stop the run before any deletion. */
  method PruneBackups(dir: Directory, listing: seq<string>, guarded: set<string>, limit: int, stuck: Leftovers)
    returns (removed: seq<string>, error: Option<Error>, ghost chosen: set<string>)
    requires Elems(listing) == dir.entries.Keys
    modifies dir
    ensures error == Some(IncomparableTimes) <==> MixedTimes(old(dir.entries))
    ensures forall name :: name in guarded || name !in Backups(old(dir.entries)) ==>
              Kept(old(dir.entries), dir.entries, name)
    ensures error in {None, Some(IncomparableTimes), Some(DeletionFailed)}
    ensures error == Some(IncomparableTimes) ==> dir.entries == old(dir.entries) && chosen == {}
    ensures error != Some(IncomparableTimes) ==>
              Selection(Backups(old(dir.entries)), guarded, limit, Newest(old(dir.entries)), chosen)
    ensures error == Some(DeletionFailed) <==> error != Some(IncomparableTimes) && Hits(chosen, stuck)
    ensures Untouched(old(dir.entries), dir.entries, chosen)
    ensures error.None? ==> Elems(removed) == chosen && dir.entries == old(dir.entries) - chosen
  {
    var entries := dir.entries;
    MixedExactly(entries);
    if !Comparable(entries) {
      return [], Some(IncomparableTimes), {};
    }
    NewestOrders(entries);
    var failed;
    removed, failed, chosen := Prune(dir, listing, Backups(entries), Newest(entries), guarded, limit, {}, stuck);
    assert chosen - {} == chosen;
    MayNotTouch(entries, dir.entries, Backups(entries), guarded, chosen);
    error := if failed then Some(DeletionFailed) else None;
  }

  /** The releases; the current one is protected, and those that no longer verify at deletion time stay. */
  method PruneReleases(dir: Directory, listing: seq<string>, guarded: set<string>, link: Link, limit: int,
                       changed: set<string>, stuck: Leftovers)
    returns (removed: seq<string>, error: Option<Error>, ghost chosen: set<string>)
    requires Elems(listing) == dir.entries.Keys
    modifies dir
    ensures error == Some(UnsafeCurrent) <==>
              link.Unsafe? || (link.To? && !(&& link.name in old(dir.entries) && old(dir.entries)[link.name] == Release
                                             && V.Precedence(link.name).Some?))
    ensures error in {None, Some(UnsafeCurrent), Some(DeletionFailed)}
    ensures error == Some(UnsafeCurrent) ==> dir.entries == old(dir.entries) && chosen == {}
    ensures error != Some(UnsafeCurrent) ==>
              Selection(Releases(old(dir.entries)), if link.To? then guarded + {link.name} else guarded,
                        limit, HigherOrSame, chosen)
    ensures error == Some(DeletionFailed) <==> error != Some(UnsafeCurrent) && Hits(chosen - changed, stuck)
    ensures Untouched(old(dir.entries), dir.entries, chosen - changed)
    ensures forall name :: name in guarded || link == To(name) || name in changed
                           || name !in Releases(old(dir.entries)) ==>
              Kept(old(dir.entries), dir.entries, name)
    ensures error.None? ==> Elems(removed) == chosen - changed && dir.entries == old(dir.entries) - (chosen - changed)
  {
    var entries, kept := dir.entries, guarded;
    if link.Unsafe? || (link.To? && !IsRelease(entries, link.name)) {
      return [], Some(UnsafeCurrent), {};
    }
    if link.To? {
      kept := kept + {link.name};
    }
    HigherOrders();
    var failed;
    removed, failed, chosen :=
      Prune(dir, listing, Releases(entries), HigherOrSame, kept, limit, changed, stuck);
    MayNotTouch(entries, dir.entries, Releases(entries), kept + changed, chosen - changed);
    error := if failed then Some(DeletionFailed) else None;
  }

  /** The entry of that name is the same in both, or in neither. */
  ghost predicate Kept(before: map<string, Entry>, after: map<string, Entry>, name: string) {
    if name in before then name in after && after[name] == before[name] else name !in after
  }

  lemma UntouchedKept(before: map<string, Entry>, after: map<string, Entry>, names: set<string>, name: string)
    requires Untouched(before, after, names) && name !in names
    ensures Kept(before, after, name)
  {
    assert name in before - names <==> name in before;
    assert name in after - names <==> name in after;
    assert name in before ==> (before - names)[name] == before[name];
    assert name in after ==> (after - names)[name] == after[name];
  }

  /** What the two sets of candidates are. */
  lemma CandidatesExactly(entries: map<string, Entry>, name: string)
    ensures name in Backups(entries) <==> name in entries && entries[name].Backup?
    ensures name in Releases(entries) <==>
            name in entries && entries[name] == Release && V.Precedence(name).Some?
  {
  }

  lemma MayNotTouch(before: map<string, Entry>, after: map<string, Entry>, candidates: set<string>,
                    guarded: set<string>, touched: set<string>)
    requires touched <= candidates - guarded && Untouched(before, after, touched)
    ensures forall name :: name in guarded || name !in candidates ==> Kept(before, after, name)
  {
    forall name | name in guarded || name !in candidates
      ensures Kept(before, after, name)
    {
      UntouchedKept(before, after, touched, name);
    }
  }

  /** One retention run over both directories. */
  method Enforce(backups: Directory, releases: Directory, rootsSafe: bool,
                 backupListing: seq<string>, releaseListing: seq<string>,
                 guardedBackups: set<string>, guardedReleases: set<string>, link: Link,
                 backupLimit: int, releaseLimit: int,
                 changed: set<string>, stuckBackups: Leftovers, stuckReleases: Leftovers)
    returns (r: Outcome, ghost oldBackups: set<string>, ghost oldReleases: set<string>)
    requires backups != releases
    requires Elems(backupListing) == backups.entries.Keys && Elems(releaseListing) == releases.entries.Keys
    modifies backups, releases
    // Protected objects, the current release and everything that does not verify stay, whatever happens.
    ensures forall name :: name in guardedBackups || name !in Backups(old(backups.entries)) ==>
              Kept(old(backups.entries), backups.entries, name)
    ensures forall name :: name in guardedReleases || link == To(name) || name in changed
                           || name !in Releases(old(releases.entries)) ==>
              Kept(old(releases.entries), releases.entries, name)
    ensures oldBackups <= Backups(old(backups.entries)) - guardedBackups
    ensures oldReleases <= Releases(old(releases.entries)) - guardedReleases
    ensures Untouched(old(backups.entries), backups.entries, oldBackups)
    ensures Untouched(old(releases.entries), releases.entries, oldReleases - changed)
    // The outcomes.
    ensures r == Failed(UnsafeLimits) <==> backupLimit < 1 || releaseLimit < 2
    ensures r == Failed(UnsafeRoot) <==> backupLimit >= 1 && releaseLimit >= 2 && !rootsSafe
    ensures r in {Failed(UnsafeLimits), Failed(UnsafeRoot), Failed(IncomparableTimes)} ==>
              backups.entries == old(backups.entries) && releases.entries == old(releases.entries)
    ensures r == Failed(UnsafeCurrent) ==> releases.entries == old(releases.entries)
    ensures r.Done? <==> && backupLimit >= 1 && releaseLimit >= 2 && rootsSafe && !MixedTimes(old(backups.entries))
                         && !Hits(oldBackups, stuckBackups) && !Hits(oldReleases - changed, stuckReleases)
                         && !link.Unsafe?
                         && (link.To? ==> link.name in Releases(old(releases.entries)))
    // A run that completes deletes exactly a selection.
    ensures r.Done? ==> Selection(Backups(old(backups.entries)), guardedBackups, backupLimit,
                                  Newest(old(backups.entries)), oldBackups)
    ensures r.Done? ==> Selection(Releases(old(releases.entries)),
                                  if link.To? then guardedReleases + {link.name} else guardedReleases,
                                  releaseLimit, HigherOrSame, oldReleases)
    ensures r.Done? ==> OldestGone(old(backups.entries), guardedBackups, oldBackups)
    ensures r.Done? ==> LowestGone(old(releases.entries), oldReleases,
                                   if link.To? then guardedReleases + {link.name} else guardedReleases)
    ensures r.Done? ==> Elems(r.backups) == oldBackups && Elems(r.releases) == oldReleases - changed
    ensures r.Done? ==> backups.entries == old(backups.entries) - oldBackups
    ensures r.Done? ==> releases.entries == old(releases.entries) - (oldReleases - changed)
  {
    oldBackups, oldReleases := {}, {};
    if backupLimit < 1 || releaseLimit < 2 {
      return Failed(UnsafeLimits), {}, {};
    }
    if !rootsSafe {
      return Failed(UnsafeRoot), {}, {};
    }
    var goneBackups, goneReleases, error;
    goneBackups, error, oldBackups := PruneBackups(backups, backupListing, guardedBackups, backupLimit, stuckBackups);
    if error.Some? {
      return Failed(error.value), oldBackups, {};
    }
    goneReleases, error, oldReleases :=
      PruneReleases(releases, releaseListing, guardedReleases, link, releaseLimit, changed, stuckReleases);
    if error.Some? {
      return Failed(error.value), oldBackups, oldReleases;
    }
    SelectedOldest(old(backups.entries), guardedBackups, backupLimit, oldBackups);
    SelectedLowest(old(releases.entries), if link.To? then guardedReleases + {link.name} else guardedReleases,
                   releaseLimit, oldReleases);
    r := Done(goneBackups, goneReleases);
  }

  /** Backups never tie: what a run deletes does not depend on the directory's order. */
  lemma BackupSelectionDetermined(entries: map<string, Entry>, guarded: set<string>, limit: int,
                                  a: set<string>, b: set<string>)
    requires Selection(Backups(entries), guarded, limit, Newest(entries), a)
    requires Selection(Backups(entries), guarded, limit, Newest(entries), b)
    ensures a == b
  {
    NewestOrders(entries);
    SelectionUnique(Backups(entries), guarded, limit, Newest(entries), a, b);
  }

  /** Releases tie exactly when they normalise to the same version. */
  lemma ReleasesTieExactly(x: string, y: string)
    requires V.Precedence(x).Some? && V.Precedence(y).Some?
    ensures HigherOrSame(x, y) && HigherOrSame(y, x) <==>
            V.Normal(V.Parse(x).value) == V.Normal(V.Parse(y).value)
  {
    RankKeyed(x);
    RankKeyed(y);
    V.KeyTrichotomy(Rank(x), Rank(y));
    V.TieExactly(V.Parse(x).value, V.Parse(y).value);
  }

  /** Without such ties the releases deleted are determined as well. */
  lemma ReleaseSelectionDetermined(entries: map<string, Entry>, guarded: set<string>, limit: int,
                                   a: set<string>, b: set<string>)
    requires forall x, y :: x in Releases(entries) && y in Releases(entries) && x != y ==>
               V.Normal(V.Parse(x).value) != V.Normal(V.Parse(y).value)
    requires Selection(Releases(entries), guarded, limit, HigherOrSame, a)
    requires Selection(Releases(entries), guarded, limit, HigherOrSame, b)
    ensures a == b
  {
    forall x, y | x in Releases(entries) && y in Releases(entries) && HigherOrSame(x, y) && HigherOrSame(y, x)
      ensures x == y
    {
      ReleasesTieExactly(x, y);
    }
    SelectionUnique(Releases(entries), guarded, limit, HigherOrSame, a, b);
  }
}
