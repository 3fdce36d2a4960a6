/** Concurrent saves of one AstrBotConfig: a snapshot with a revision is taken under one lock and
    committed under another, if no newer revision was committed first.

    Each critical section is one atomic step.  A commit replaces the file in one piece; writing
    the temporary file is private to the writer and may fail. */
module ConfigSaves {
  import opened Text
  import opened Json

  // ---------------------------------------------------------------- the object

  /** What the object and the disk hold. */
  datatype Store = Store(entries: Fields, saveRevision: nat, committedRevision: nat, file: Option<Fields>)

  function Replaced(entries: Fields, replace: Option<Fields>): Fields {
    if replace.Some? then Merge(entries, replace.value) else entries
  }

  ghost function Prepared(s: Store, replace: Option<Fields>): Store {
    Store(Replaced(s.entries, replace), s.saveRevision + 1, s.committedRevision, s.file)
  }

  ghost function Committed(s: Store, snapshot: Fields, revision: nat): Store {
    if revision > s.committedRevision then Store(s.entries, s.saveRevision, revision, Some(snapshot)) else s
  }

  class AstrBotConfig {
    var entries: Fields
    var saveRevision: nat
    var committedRevision: nat
    var file: Option<Fields>

    ghost function View(): Store
      reads this
    {
      Store(entries, saveRevision, committedRevision, file)
    }

    // No revision is committed that was never drawn.
    ghost predicate Valid()
      reads this
    {
      committedRevision <= saveRevision
    }

    constructor (entries: Fields, file: Option<Fields>)
      ensures Valid() && View() == Store(entries, 0, 0, file)
    {
      this.entries, this.file := entries, file;
      saveRevision, committedRevision := 0, 0;
    }

    method PrepareConfigSnapshot(replace: Option<Fields>) returns (snapshot: Fields, revision: nat)
      requires Valid()
      modifies this
      ensures Valid() && View() == Prepared(old(View()), replace)
      ensures snapshot == entries && revision == saveRevision
    {
      if replace.Some? && replace.value != [] {
        entries := Merge(entries, replace.value);
      }
      snapshot := entries;
      revision := saveRevision + 1;
      saveRevision := revision;
    }

    /** `written` tells whether the temporary file could be written. */
    method WriteConfigSnapshot(snapshot: Fields, revision: nat, written: bool) returns (committed: bool)
      requires Valid() && revision <= saveRevision
      modifies this`committedRevision, this`file
      ensures Valid()
      ensures View() == if written then Committed(old(View()), snapshot, revision) else old(View())
      ensures committed <==> written && revision > old(committedRevision)
    {
      committed := false;
      if written {
        if revision > committedRevision {
          file := Some(snapshot);
          committedRevision := revision;
          committed := true;
        }
      }
    }

    /** Without a concurrent writer, a save that can write leaves the whole dict in the file. */
    method SaveConfig(replace: Option<Fields>)
      requires Valid()
      modifies this
      ensures Valid()
      ensures var saved, revision := Replaced(old(entries), replace), old(saveRevision) + 1;
              View() == Store(saved, revision, revision, Some(saved))
    {
      var snapshot, revision := PrepareConfigSnapshot(replace);
      var _ := WriteConfigSnapshot(snapshot, revision, true);
    }
  }

  // ---------------------------------------------------------------- interleavings

  datatype Step =
    | Prepare(replace: Option<Fields>)   // a writer takes its snapshot
    | Commit(revision: nat)              // a writer reaches the commit section
    | Fail(revision: nat)                // a writer cannot write its temporary file
    | Assign(key: string, value: Json)   // somebody sets a key without saving

  /** The object with the writers in flight, by revision. */
  datatype State = State(store: Store, pending: map<nat, Fields>)

  /** Any step may happen at any time; a writer that is not in flight does nothing. */
  ghost function Next(s: State, step: Step): State {
    match step
    case Prepare(replace) =>
      var store := Prepared(s.store, replace);
      State(store, s.pending[store.saveRevision := store.entries])
    case Commit(r) =>
      if r in s.pending then State(Committed(s.store, s.pending[r], r), s.pending - {r}) else s
    case Fail(r) => State(s.store, s.pending - {r})
    case Assign(key, value) => State(s.store.(entries := Put(s.store.entries, key, value)), s.pending)
  }

  ghost function Initial(entries: Fields, file: Option<Fields>): State {
    State(Store(entries, 0, 0, file), map[])
  }

  ghost function Run(init: State, steps: seq<Step>): State {
    if steps == [] then init else Next(Run(init, steps[..|steps| - 1]), steps[|steps| - 1])
  }

  // ---------------------------------------------------------------- the sequential reading

  /** The dict after the steps; commits and failures play no part in it. */
  ghost function Contents(entries: Fields, steps: seq<Step>): Fields {
    if steps == [] then entries
    else
      var before := Contents(entries, steps[..|steps| - 1]);
      match steps[|steps| - 1]
      case Prepare(replace) => Replaced(before, replace)
      case Assign(key, value) => Put(before, key, value)
      case _ => before
  }

  /** The snapshots in revision order: revision r is at index r - 1. */
  ghost function Snapshots(entries: Fields, steps: seq<Step>): seq<Fields> {
    if steps == [] then []
    else
      Snapshots(entries, steps[..|steps| - 1])
      + (if steps[|steps| - 1].Prepare? then [Contents(entries, steps)] else [])
  }

  /** Whether the writer of revision r is still in flight after the steps. */
  ghost predicate InFlight(steps: seq<Step>, r: nat) {
    steps != [] &&
    var before, last := steps[..|steps| - 1], steps[|steps| - 1];
    match last
    case Prepare(_) => r == Revisions(steps) || InFlight(before, r)
    case Commit(q) => q != r && InFlight(before, r)
    case Fail(q) => q != r && InFlight(before, r)
    case Assign(_, _) => InFlight(before, r)
  }

  ghost function Revisions(steps: seq<Step>): nat {
    if steps == [] then 0
    else Revisions(steps[..|steps| - 1]) + (if steps[|steps| - 1].Prepare? then 1 else 0)
  }

  /** Whether the writer of revision r has reached the commit section. */
  ghost predicate Reached(steps: seq<Step>, r: nat) {
    steps != [] &&
    (Reached(steps[..|steps| - 1], r) || (steps[|steps| - 1] == Commit(r) && InFlight(steps[..|steps| - 1], r)))
  }

  lemma {:induction false} SnapshotCount(entries: Fields, steps: seq<Step>)
    ensures |Snapshots(entries, steps)| == Revisions(steps)
  {
    if steps != [] {
      SnapshotCount(entries, steps[..|steps| - 1]);
    }
  }

  /** Only allocated revisions are ever in flight or committed. */
  lemma {:induction false} RevisionsBound(steps: seq<Step>, r: nat)
    ensures InFlight(steps, r) || Reached(steps, r) ==> 1 <= r <= Revisions(steps)
  {
    if steps != [] {
      RevisionsBound(steps[..|steps| - 1], r);
    }
  }

  ghost predicate PendingMatches(s: State, entries: Fields, steps: seq<Step>) {
    forall r: nat ::
      (r in s.pending <==> InFlight(steps, r)) &&
      (r in s.pending ==> 1 <= r <= |Snapshots(entries, steps)| && s.pending[r] == Snapshots(entries, steps)[r - 1])
  }

  /** The dict, the revision counter and the writers in flight follow the sequential reading. */
  lemma {:induction false} RunFollows(entries: Fields, file: Option<Fields>, steps: seq<Step>)
    ensures var s := Run(Initial(entries, file), steps);
            s.store.entries == Contents(entries, steps) &&
            s.store.saveRevision == Revisions(steps) &&
            PendingMatches(s, entries, steps)
  {
    SnapshotCount(entries, steps);
    if steps != [] {
      var before := steps[..|steps| - 1];
      RunFollows(entries, file, before);
      SnapshotCount(entries, before);
      assert PendingMatches(Run(Initial(entries, file), before), entries, before);
      forall r: nat ensures !InFlight(before, r) || r <= Revisions(before) {
        RevisionsBound(before, r);
      }
    }
  }

  /** In every interleaving the committed revision is the greatest that reached the commit
      section, and the file holds exactly that revision's snapshot. */
  lemma {:induction false} FileHoldsNewest(entries: Fields, file: Option<Fields>, steps: seq<Step>)
    ensures var s := Run(Initial(entries, file), steps).store;
            (forall r: nat :: Reached(steps, r) ==> r <= s.committedRevision) &&
            (s.committedRevision == 0 ==> s.file == file) &&
            (s.committedRevision > 0 ==>
               Reached(steps, s.committedRevision) &&
               s.committedRevision <= |Snapshots(entries, steps)| &&
               s.file == Some(Snapshots(entries, steps)[s.committedRevision - 1]))
  {
    if steps != [] {
      var before := steps[..|steps| - 1];
      FileHoldsNewest(entries, file, before);
      RunFollows(entries, file, before);
      assert PendingMatches(Run(Initial(entries, file), before), entries, before);
      SnapshotCount(entries, before);
      SnapshotCount(entries, steps);
    }
  }

  /** A writer's answer: it replaced the file iff no newer revision had reached the commit. */
  lemma CommitAnswer(entries: Fields, file: Option<Fields>, steps: seq<Step>, r: nat)
    requires InFlight(steps, r)
    ensures var s := Run(Initial(entries, file), steps);
            r in s.pending &&
            (r > s.store.committedRevision ==> forall q: nat :: Reached(steps, q) ==> q < r) &&
            (r <= s.store.committedRevision ==> exists q: nat :: Reached(steps, q) && q > r)
  {
    RunFollows(entries, file, steps);
    FileHoldsNewest(entries, file, steps);
    assert PendingMatches(Run(Initial(entries, file), steps), entries, steps);
    RevisionsBound(steps, r);
    var c := Run(Initial(entries, file), steps).store.committedRevision;
    assert c > 0 ==> Reached(steps, c);
    NotBoth(steps, r);
  }

  /** Whether the writer of revision r could not write its temporary file. */
  ghost predicate Failed(steps: seq<Step>, r: nat) {
    steps != [] &&
    (Failed(steps[..|steps| - 1], r) || (steps[|steps| - 1] == Fail(r) && InFlight(steps[..|steps| - 1], r)))
  }

  /** No writer commits twice, and none both commits and fails. */
  lemma {:induction false} NotBoth(steps: seq<Step>, r: nat)
    ensures !(InFlight(steps, r) && Reached(steps, r))
    ensures !(InFlight(steps, r) && Failed(steps, r))
    ensures !(Reached(steps, r) && Failed(steps, r))
    ensures Failed(steps, r) ==> r <= Revisions(steps)
  {
    if steps != [] {
      NotBoth(steps[..|steps| - 1], r);
      RevisionsBound(steps[..|steps| - 1], r);
    }
  }

  /** Every revision is in flight, has reached the commit, or has failed. */
  lemma {:induction false} EveryRevisionSettles(steps: seq<Step>, r: nat)
    requires 1 <= r <= Revisions(steps)
    ensures InFlight(steps, r) || Reached(steps, r) || Failed(steps, r)
  {
    if steps != [] && r <= Revisions(steps[..|steps| - 1]) {
      EveryRevisionSettles(steps[..|steps| - 1], r);
    }
  }

  // ---------------------------------------------------------------- the file as a fold

  /** Nobody changes the dict without saving it. */
  ghost predicate NoAssigns(steps: seq<Step>) {
    forall i :: 0 <= i < |steps| ==> !steps[i].Assign?
  }

  ghost predicate Quiescent(steps: seq<Step>) {
    forall r: nat :: !InFlight(steps, r)
  }

  /** The replacements in the order their snapshots were taken. */
  ghost function Draws(steps: seq<Step>): seq<Option<Fields>> {
    if steps == [] then []
    else Draws(steps[..|steps| - 1]) + (if steps[|steps| - 1].Prepare? then [steps[|steps| - 1].replace] else [])
  }

  /** Folding the replacements over the dict. */
  ghost function FoldDraws(entries: Fields, draws: seq<Option<Fields>>): Fields {
    if draws == [] then entries
    else Replaced(FoldDraws(entries, draws[..|draws| - 1]), draws[|draws| - 1])
  }

  lemma {:induction false} ContentsAreFold(entries: Fields, steps: seq<Step>)
    requires NoAssigns(steps)
    ensures Contents(entries, steps) == FoldDraws(entries, Draws(steps)) && |Draws(steps)| == Revisions(steps)
  {
    if steps != [] {
      var before := steps[..|steps| - 1];
      ContentsAreFold(entries, before);
      if steps[|steps| - 1].Prepare? {
        assert Draws(steps)[..|Draws(before)|] == Draws(before);
      } else {
        assert Draws(steps) == Draws(before);
      }
    }
  }

  lemma {:induction false} SnapshotIsFold(entries: Fields, steps: seq<Step>, r: nat)
    requires NoAssigns(steps) && 1 <= r <= Revisions(steps)
    ensures |Snapshots(entries, steps)| == |Draws(steps)| == Revisions(steps)
    ensures Snapshots(entries, steps)[r - 1] == FoldDraws(entries, Draws(steps)[..r])
  {
    var before := steps[..|steps| - 1];
    ContentsAreFold(entries, steps);
    ContentsAreFold(entries, before);
    SnapshotCount(entries, steps);
    SnapshotCount(entries, before);
    if r <= Revisions(before) {
      SnapshotIsFold(entries, before, r);
      assert Draws(steps)[..r] == Draws(before)[..r];
    } else {
      assert Draws(steps)[..r] == Draws(steps);
    }
  }

  /** In every interleaving in which only saves change the dict, failed writes included, the dict is
      the fold of all replacements in revision order and the file the fold of those up to the
      committed revision; that is all of them iff the newest writer has reached the commit. */
  lemma SavesLinearise(entries: Fields, file: Option<Fields>, steps: seq<Step>)
    requires NoAssigns(steps)
    ensures var s, draws := Run(Initial(entries, file), steps).store, Draws(steps);
            && s.committedRevision <= s.saveRevision == |draws|
            && s.entries == FoldDraws(entries, draws)
            && s.file == (if s.committedRevision == 0 then file
                          else Some(FoldDraws(entries, draws[..s.committedRevision])))
            && (Reached(steps, |draws|) <==> s.committedRevision == s.saveRevision > 0)
            && (Reached(steps, |draws|) ==> s.file == Some(s.entries))
  {
    RunFollows(entries, file, steps);
    FileHoldsNewest(entries, file, steps);
    ContentsAreFold(entries, steps);
    var s := Run(Initial(entries, file), steps).store;
    RevisionsBound(steps, s.saveRevision);
    if s.committedRevision > 0 {
      RevisionsBound(steps, s.committedRevision);
      SnapshotIsFold(entries, steps, s.committedRevision);
      assert s.committedRevision == |Draws(steps)| ==> Draws(steps)[..s.committedRevision] == Draws(steps);
    }
  }

  /** Once every writer is through, the committed revision is the newest one that did not fail, or 0
      if all of them did; unsaved assignments may come in between. */
  lemma QuiescentCommit(entries: Fields, file: Option<Fields>, steps: seq<Step>)
    requires Quiescent(steps)
    ensures var s := Run(Initial(entries, file), steps).store;
            && (s.committedRevision > 0 ==> !Failed(steps, s.committedRevision))
            && forall r: nat :: s.committedRevision < r <= s.saveRevision ==> Failed(steps, r)
  {
    RunFollows(entries, file, steps);
    FileHoldsNewest(entries, file, steps);
    var s := Run(Initial(entries, file), steps).store;
    NotBoth(steps, s.committedRevision);
    forall r: nat | s.committedRevision < r <= s.saveRevision ensures Failed(steps, r) {
      EveryRevisionSettles(steps, r);
      assert !InFlight(steps, r) && !Reached(steps, r);
    }
  }

  /** Two interleavings that draw the same replacements in the same order end in one state, whatever
      the order of their commits, once the same writers have failed and all others committed. */
  lemma CommitOrderIrrelevant(entries: Fields, file: Option<Fields>, a: seq<Step>, b: seq<Step>)
    requires NoAssigns(a) && NoAssigns(b) && Quiescent(a) && Quiescent(b)
    requires Draws(a) == Draws(b) && forall r: nat :: Failed(a, r) <==> Failed(b, r)
    ensures Run(Initial(entries, file), a).store == Run(Initial(entries, file), b).store
  {
    SavesLinearise(entries, file, a);
    SavesLinearise(entries, file, b);
    QuiescentCommit(entries, file, a);
    QuiescentCommit(entries, file, b);
  }

  // ---------------------------------------------------------------- what the file holds for a key

  ghost predicate DistinctKeys(draws: seq<Option<Fields>>) {
    forall i :: 0 <= i < |draws| && draws[i].Some? ==> UniqueKeys(draws[i].value)
  }

  /** The value of the newest replacement that mentions the key. */
  ghost function LastValue(draws: seq<Option<Fields>>, key: string): Option<Json> {
    if draws == [] then None
    else
      var last := draws[|draws| - 1];
      if last.Some? && Has(last.value, key) then Find(last.value, key) else LastValue(draws[..|draws| - 1], key)
  }

  lemma {:induction false} FoldHolds(entries: Fields, draws: seq<Option<Fields>>, key: string)
    requires DistinctKeys(draws)
    ensures Find(FoldDraws(entries, draws), key)
         == if LastValue(draws, key).Some? then LastValue(draws, key) else Find(entries, key)
  {
    if draws != [] {
      var before, last := draws[..|draws| - 1], draws[|draws| - 1];
      FoldHolds(entries, before, key);
      if last.Some? {
        MergeFind(FoldDraws(entries, before), last.value, key);
        FindHas(last.value, key);
      }
    }
  }

  /** Once the newest writer has committed, each key of the file has the value of the newest
      replacement that mentions it, or else the one it started with. */
  lemma NewestValueWins(entries: Fields, file: Option<Fields>, steps: seq<Step>, key: string)
    requires NoAssigns(steps) && Reached(steps, Revisions(steps)) && DistinctKeys(Draws(steps))
    ensures var saved := Run(Initial(entries, file), steps).store.file;
            && saved.Some?
            && Find(saved.value, key)
               == if LastValue(Draws(steps), key).Some? then LastValue(Draws(steps), key) else Find(entries, key)
  {
    SavesLinearise(entries, file, steps);
    ContentsAreFold(entries, steps);
    FoldHolds(entries, Draws(steps), key);
  }
}
