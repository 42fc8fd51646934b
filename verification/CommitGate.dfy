/**
 The validated commit gate over the config repository (config_git.py, `commit_config_checked`).

 Other processes may edit the worktree, stage and commit between any two git commands:
 `Interfere` may change all three.  The gate's own writes to HEAD and to the shared index are
 recorded in a ghost log, so that what the gate does can be told apart from what others do.
 */
module CommitGate {
  import opened Documents

  /** The content of one path, in a tree, an index or the worktree. */
  datatype Blob = Blob(id: nat)

  type Files = map<Path, Blob>

  function Entry(t: Files, p: Path): Option<Blob> {
    if p in t then Some(t[p]) else None
  }

  /** A commit is its tree and its history; equal values are one object. */
  datatype Commit = Root(tree: Files) | Child(tree: Files, parent: Commit, message: string)

  /** `git add -A` into an index: every indexed or unignored file of the worktree, and no other. */
  function StageAll(index: Files, worktree: Files, ignored: Path -> bool): Files {
    map p | p in worktree && (p in index || !ignored(p)) :: worktree[p]
  }

  /** `git diff-tree` / `git diff-index --cached`: the paths at which two trees differ. */
  function Differing(a: Files, b: Files): set<Path> {
    set p | p in a.Keys + b.Keys && Entry(a, p) != Entry(b, p)
  }

  lemma DifferingExactly(a: Files, b: Files, p: Path)
    ensures p in Differing(a, b) <==> Entry(a, p) != Entry(b, p)
    ensures p in Differing(a, b) <==> (p in a && p !in b) || (p !in a && p in b) || (p in a && p in b && a[p] != b[p])
  {
  }

  /** `git reset <tree> -- <paths>`: those entries, and only those, become the tree's. */
  function ResetPaths(index: Files, tree: Files, paths: set<Path>): Files {
    (map p | p in index && p !in paths :: index[p]) + (map p | p in tree && p in paths :: tree[p])
  }

  lemma ResetExactly(index: Files, tree: Files, paths: set<Path>, p: Path)
    ensures var after := ResetPaths(index, tree, paths);
      if p in paths then (p in after <==> p in tree) && (p in tree ==> after[p] == tree[p])
      else (p in after <==> p in index) && (p in index ==> after[p] == index[p])
    ensures Entry(ResetPaths(index, tree, paths), p) == if p in paths then Entry(tree, p) else Entry(index, p)
  {
  }

  /** A write by the gate, with the index before and after it. */
  datatype Write =
    | MoveHead(from: Commit, to: Commit)
    | Refresh(before: Files, after: Files)
    | Undo(seen: Option<Files>, before: Files, after: Files)     // seen: the index when it was last listed

  datatype Outcome =
    | NothingToCommit
    | Refused(errors: seq<string>)
    | Committed(commit: Commit)
    | LostRace
    | Raised                       // an earlier git command or the validator failed

  /** The validator over an exported tree: its errors, or None when it raised. */
  type Validate = Files -> Option<seq<string>>

  /** A move of HEAD the gate may make: a validated tree on top of the very commit it replaces. */
  ghost predicate SoundMove(w: Write, validate: Validate) {
    w.MoveHead? ==> w.to.Child? && w.to.parent == w.from && validate(w.to.tree) == Some([])
  }

  /** The write leaves alone every index entry that `listed` held differently from `tree`. */
  ghost predicate Spares(w: Write, listed: Files, tree: Files) {
    !w.MoveHead? ==> forall p | Entry(listed, p) != Entry(tree, p) :: Entry(w.after, p) == Entry(w.before, p)
  }

  /** The undo leaves alone every entry that no longer held the candidate's content when listed. */
  ghost predicate SparesRestaged(w: Write, candidate: Commit) {
    w.Undo? && w.seen.Some? ==> Spares(w, w.seen.value, candidate.tree)
  }

  /** The undo resets to some HEAD the refreshed paths its listing did not take out, and no others. */
  ghost predicate Undoes(w: Write, tree: Files, paths: set<Path>) {
    w.Undo? && exists head: Files :: w.after == ResetPaths(w.before, head, UndoPaths(paths, w.seen, tree))
  }

  /** What one call of the gate saw and did. */
  datatype Run = Run(
    base: Commit,              // HEAD when it was pinned
    candidate: Commit,         // the commit object built on it
    listed: Files,             // the shared index when it was compared with the base
    refreshed: bool,           // the refresh reset went through, or there was nothing to refresh
    undone: bool)              // the undo reset went through, or there was nothing to undo

  class Repository {
    var head: Commit
    var index: Files
    var worktree: Files
    const ignored: Path -> bool
    ghost var log: seq<Write>

    /** Whatever other processes do between two of the gate's commands; nothing, when it is alone. */
    method Interfere(alone: bool)
      modifies `head, `index, `worktree
      ensures alone ==> head == old(head) && index == old(index) && worktree == old(worktree)
    {
      if !alone {
        head, index, worktree := *, *, *;
      }
    }

    /** `git reset <tree> -- <paths>`; a failed reset leaves the index. */
    method Reset(tree: Files, paths: set<Path>) returns (ok: bool)
      modifies `index
      ensures index == if ok then ResetPaths(old(index), tree, paths) else old(index)
    {
      ok := *;
      if ok {
        index := ResetPaths(index, tree, paths);
      }
    }

    /** `git update-ref HEAD new old`: refuses when HEAD is not `expected`, and may fail otherwise. */
    method CompareAndSwap(expected: Commit, next: Commit) returns (ok: bool)
      modifies `head, `log
      ensures ok ==> old(head) == expected
      ensures head == if ok then next else old(head)
      ensures log == if ok then old(log) + [MoveHead(expected, next)] else old(log)
    {
      ok := *;
      ok := ok && head == expected;
      if ok {
        head := next;
        log := log + [MoveHead(expected, next)];
      }
    }

    /** `git status --porcelain` prints nothing. */
    predicate Clean()
      reads this
    {
      index == head.tree && StageAll(index, worktree, ignored) == index
    }

    /** The tree is the worktree: every file of it that is tracked or not ignored, as it is, and no other. */
    ghost predicate HoldsWorktree(tree: Files, tracked: Files)
      reads `worktree
    {
      && (forall p | p in tree :: p in worktree && (p in tracked || !ignored(p)) && tree[p] == worktree[p])
      && (forall p | p in worktree && (p in tracked || !ignored(p)) :: p in tree)
    }

    /** Snapshot the worktree into a private index, validate it, and make a commit object of it. */
    method Prepare(message: string, validate: Validate, alone: bool)
        returns (outcome: Option<Outcome>, base: Commit, candidate: Commit)
      modifies `head, `index, `worktree
      ensures outcome.None? ==>
                candidate.Child? && candidate.parent == base &&
                validate(candidate.tree) == Some([]) && candidate.tree != base.tree
      ensures outcome.Some? ==> !outcome.value.Committed? && !outcome.value.LostRace?
      ensures outcome.Some? && outcome.value.Refused? ==> outcome.value.errors != []
      ensures alone ==> head == old(head) && index == old(index) && worktree == old(worktree) && base == head
      ensures alone && outcome.None? ==> candidate == Child(StageAll(head.tree, worktree, ignored), head, message)
      ensures alone && outcome == Some(NothingToCommit) ==> HoldsWorktree(head.tree, head.tree)
      ensures alone && outcome.None? ==> HoldsWorktree(candidate.tree, head.tree)
    {
      base, candidate := head, head;
      if Clean() {
        return Some(NothingToCommit), base, candidate;
      }
      Interfere(alone);
      base := head;                                           // rev-parse HEAD
      Interfere(alone);
      var private := base.tree;                               // read-tree, into the private index
      Interfere(alone);
      private := StageAll(private, worktree, ignored);        // add -A, into the private index
      Interfere(alone);
      var exported := private;                                 // checkout-index
      var gitOk: bool := *;
      var verdict := validate(exported);
      if !gitOk || verdict.None? {
        return Some(Raised), base, candidate;
      }
      if verdict.value != [] {
        return Some(Refused(verdict.value)), base, candidate;
      }
      Interfere(alone);
      if private == base.tree {                               // write-tree, rev-parse base^{tree}
        return Some(NothingToCommit), base, candidate;
      }
      candidate := Child(private, base, message);             // commit-tree
      return None, base, candidate;
    }

    /** Refresh the shared index for the paths the candidate touches and nobody has staged. */
    method RefreshIndex(base: Commit, candidate: Commit, alone: bool)
        returns (raised: bool, paths: set<Path>, ghost listed: Files, refreshed: bool, ghost writes: seq<Write>)
      modifies `head, `index, `worktree, `log
      ensures raised ==> log == old(log) && (alone ==> head == old(head) && index == old(index))
      ensures !raised ==> paths == Differing(candidate.tree, base.tree) - Differing(listed, base.tree)
      ensures log == old(log) + writes
      ensures forall i | 0 <= i < |writes| :: writes[i].Refresh? && Spares(writes[i], listed, base.tree)
      ensures alone ==> head == old(head) && worktree == old(worktree) && listed == old(index)
      ensures alone && !raised ==>
                index == if refreshed then ResetPaths(old(index), candidate.tree, paths) else old(index)
    {
      raised, paths, refreshed, writes := *, {}, false, [];      // both listings are checked for failure
      Interfere(alone);
      var committed := Differing(candidate.tree, base.tree);      // diff-tree
      listed := index;
      if raised {
        return;
      }
      var staged := Differing(index, base.tree);                  // diff-index --cached base
      paths := committed - staged;
      Interfere(alone);
      refreshed := true;
      ghost var before := index;
      if paths != {} {
        refreshed := Reset(candidate.tree, paths);
        if refreshed {
          writes := [Refresh(before, index)];
          log := log + writes;
          ResetSpares(listed, before, base.tree, candidate.tree, paths);
        }
      } else {
        ResetNothing(index, candidate.tree);
      }
    }

    /** After a lost race: reset to the current HEAD the entries that still hold our content. */
    method UndoRefresh(candidate: Commit, paths: set<Path>, alone: bool)
        returns (undone: bool, ghost writes: seq<Write>)
      modifies `head, `index, `worktree, `log
      ensures log == old(log) + writes
      ensures forall i | 0 <= i < |writes| :: writes[i].Undo? && SparesRestaged(writes[i], candidate)
      ensures forall i | 0 <= i < |writes| :: Undoes(writes[i], candidate.tree, paths)
      ensures forall i, p | 0 <= i < |writes| && p !in paths :: Entry(writes[i].after, p) == Entry(writes[i].before, p)
      ensures alone ==> head == old(head) && worktree == old(worktree)
      ensures alone ==> forall p | p !in paths || Entry(old(index), p) == Entry(head.tree, p) ::
                          Entry(index, p) == Entry(old(index), p)
      ensures alone && undone ==> forall p | p in paths && Entry(old(index), p) == Entry(candidate.tree, p) ::
                                    Entry(index, p) == Entry(head.tree, p)
    {
      writes := [];
      if paths == {} {
        return true, [];
      }
      Interfere(alone);
      var listOk: bool := *;                                      // this listing is not checked for failure
      ghost var seen := if listOk then Some(index) else None;
      var changedSince := if listOk then Differing(index, candidate.tree) else {};
      var undo := paths - changedSince;
      assert undo == UndoPaths(paths, seen, candidate.tree);
      forall p
        ensures listOk ==> (p in changedSince <==> Entry(index, p) != Entry(candidate.tree, p))
      {
        DifferingExactly(index, candidate.tree, p);
      }
      Interfere(alone);
      undone := true;
      ghost var before := index;
      if undo != {} {
        undone := Reset(head.tree, undo);
        if undone {
          writes := [Undo(seen, before, index)];
          log := log + writes;
          assert writes[0].after == ResetPaths(before, head.tree, undo);
        }
      }
      forall p
        ensures Entry(index, p) == if undone && p in undo then Entry(head.tree, p) else Entry(before, p)
      {
        ResetExactly(before, head.tree, undo, p);
      }
    }

    /** The second half of the gate: refresh, swap HEAD, and undo the refresh when the swap is refused. */
    method Publish(base: Commit, candidate: Commit, alone: bool)
        returns (outcome: Outcome, ghost run: Run)
      requires alone ==> head == base
      modifies `head, `index, `worktree, `log
      ensures run.base == base && run.candidate == candidate && old(log) <= log
      ensures outcome.Committed? || outcome.LostRace? || outcome.Raised?
      ensures forall i | |old(log)| <= i < |log| :: log[i].MoveHead? ==> log[i] == MoveHead(base, candidate)
      ensures outcome.Committed? <==> exists i :: |old(log)| <= i < |log| && log[i].MoveHead?
      ensures outcome.Committed? ==> log[|log| - 1] == MoveHead(base, candidate) && outcome.commit == candidate
      ensures outcome.Raised? ==> log == old(log) && (alone ==> head == base && index == old(index))
      ensures forall i | |old(log)| <= i < |log| :: Spares(log[i], run.listed, base.tree)
      ensures forall i | |old(log)| <= i < |log| :: SparesRestaged(log[i], candidate)
      ensures alone ==> worktree == old(worktree) && head == if outcome.Committed? then candidate else base
      ensures alone && outcome.Committed? && run.refreshed ==>
                forall p :: Entry(index, p) == if Entry(old(index), p) == Entry(base.tree, p)
                                               then Entry(candidate.tree, p) else Entry(old(index), p)
      ensures alone && outcome.LostRace? && run.undone ==> forall p :: Entry(index, p) == Entry(old(index), p)
    {
      var raised, paths, refreshed;
      ghost var listed, first, second;
      raised, paths, listed, refreshed, first := RefreshIndex(base, candidate, alone);
      run := Run(base, candidate, listed, refreshed, true);
      if raised {
        return Raised, run;
      }
      RefreshesExactly(listed, base.tree, candidate.tree, paths);
      Interfere(alone);
      var swapped := CompareAndSwap(base, candidate);
      if swapped {
        assert log[|log| - 1] == MoveHead(base, candidate);
        return Committed(candidate), run;
      }
      var undone;
      undone, second := UndoRefresh(candidate, paths, alone);
      assert log == old(log) + first + second;
      run := run.(undone := undone);
      return LostRace, run;
    }

    /** `commit_config_checked`. */
    method CommitChecked(message: string, validate: Validate, alone: bool)
        returns (outcome: Outcome, ghost run: Run)
      modifies this
      ensures old(log) <= log
      // HEAD only ever moves to a validated tree on top of the commit it replaces.
      ensures forall i | |old(log)| <= i < |log| :: SoundMove(log[i], validate)
      ensures outcome.Committed? <==> exists i :: |old(log)| <= i < |log| && log[i].MoveHead?
      ensures outcome.Committed? ==>
                log[|log| - 1] == MoveHead(run.base, run.candidate) && outcome.commit == run.candidate
      // A refusal, a no-op and an early failure write neither HEAD nor the shared index.
      ensures outcome.NothingToCommit? || outcome.Refused? || outcome.Raised? ==> log == old(log)
      ensures outcome.Refused? ==> outcome.errors != []
      // No index write, of the refresh or of the undo, touches an entry listed as staged differently.
      ensures forall i | |old(log)| <= i < |log| :: Spares(log[i], run.listed, run.base.tree)
      ensures forall i | |old(log)| <= i < |log| :: SparesRestaged(log[i], run.candidate)
      // With nobody else at work, the whole effect is known.
      ensures alone && !outcome.Committed? && !outcome.LostRace? ==> head == old(head) && index == old(index)
      ensures alone && outcome.NothingToCommit? ==>
                && (forall p | p in head.tree :: p in worktree && head.tree[p] == worktree[p])
                && (forall p | p in worktree && !ignored(p) :: p in head.tree)
      ensures alone && outcome.Committed? ==>
                && head.Child? && head.parent == old(head) && head.message == message
                && (forall p :: p in head.tree <==> p in worktree && (p in old(head).tree || !ignored(p)))
                && (forall p | p in head.tree :: head.tree[p] == worktree[p])
      ensures alone && outcome.Committed? && run.refreshed ==>
                forall p :: Entry(index, p) == if Entry(old(index), p) == Entry(old(head).tree, p)
                                               then Entry(head.tree, p) else Entry(old(index), p)
      ensures alone && outcome.LostRace? ==> head == old(head)
      ensures alone && outcome.LostRace? && run.undone ==> forall p :: Entry(index, p) == Entry(old(index), p)
    {
      var stop, base, candidate := Prepare(message, validate, alone);
      run := Run(base, candidate, index, true, true);
      if stop.Some? {
        return stop.value, run;
      }
      outcome, run := Publish(base, candidate, alone);
    }
  }

  lemma ResetSpares(listed: Files, before: Files, base: Files, tree: Files, paths: set<Path>)
    requires paths !! Differing(listed, base)
    ensures Spares(Refresh(before, ResetPaths(before, tree, paths)), listed, base)
  {
    forall p | Entry(listed, p) != Entry(base, p)
      ensures Entry(ResetPaths(before, tree, paths), p) == Entry(before, p)
    {
      DifferingExactly(listed, base, p);
      ResetExactly(before, tree, paths, p);
    }
  }

  /** The refresh takes on what the candidate changed and was staged as in the base. */
  lemma RefreshesExactly(listed: Files, base: Files, tree: Files, paths: set<Path>)
    requires paths == Differing(tree, base) - Differing(listed, base)
    ensures forall p :: p in paths <==> Entry(tree, p) != Entry(base, p) && Entry(listed, p) == Entry(base, p)
    ensures forall p :: Entry(ResetPaths(listed, tree, paths), p) ==
                        if p in paths then Entry(tree, p) else Entry(listed, p)
  {
    forall p
      ensures p in paths <==> Entry(tree, p) != Entry(base, p) && Entry(listed, p) == Entry(base, p)
      ensures Entry(ResetPaths(listed, tree, paths), p) == if p in paths then Entry(tree, p) else Entry(listed, p)
    {
      DifferingExactly(tree, base, p);
      DifferingExactly(listed, base, p);
      ResetExactly(listed, tree, paths, p);
    }
  }

  lemma ResetNothing(index: Files, tree: Files)
    ensures ResetPaths(index, tree, {}) == index
  {
  }

  /**
   The limit of the refresh, exactly: it overwrites what is in the index when the reset runs just
   when the candidate touches the path, the earlier listing saw the base's entry there, and the
   entry is not already the candidate's.  Content staged between the two is what this can lose.
   */
  lemma RefreshOverwritesExactly(listed: Files, before: Files, base: Files, tree: Files, p: Path)
    ensures Entry(ResetPaths(before, tree, Differing(tree, base) - Differing(listed, base)), p) != Entry(before, p) <==>
            Entry(tree, p) != Entry(base, p) && Entry(listed, p) == Entry(base, p) && Entry(before, p) != Entry(tree, p)
  {
    DifferingExactly(tree, base, p);
    DifferingExactly(listed, base, p);
    ResetExactly(before, tree, Differing(tree, base) - Differing(listed, base), p);
  }

  /** An entry staged between the listing and the reset is lost; one staged before the listing is spared. */
  lemma LateStagingIsLost(p: Path, was: Blob, ours: Blob, staged: Blob)
    requires was != ours && was != staged && ours != staged
    ensures var base, tree, index := map[p := was], map[p := ours], map[p := staged];
      && ResetPaths(index, tree, Differing(tree, base) - Differing(base, base))[p] == ours
      && ResetPaths(index, tree, Differing(tree, base) - Differing(index, base))[p] == staged
  {
    var base, tree, index := map[p := was], map[p := ours], map[p := staged];
    DifferingExactly(tree, base, p);
    DifferingExactly(base, base, p);
    DifferingExactly(index, base, p);
    ResetExactly(index, tree, Differing(tree, base) - Differing(base, base), p);
    ResetExactly(index, tree, Differing(tree, base) - Differing(index, base), p);
  }

  /** What the undo resets, given what its listing saw; a failed listing spares nothing. */
  function UndoPaths(paths: set<Path>, seen: Option<Files>, tree: Files): set<Path> {
    paths - if seen.Some? then Differing(seen.value, tree) else {}
  }

  /**
   The limit of the undo, exactly: it overwrites what is in the index when the reset runs just when
   the path was refreshed, the listing failed or saw the candidate's entry there, and the entry is
   not already HEAD's.
   */
  lemma UndoOverwritesExactly(paths: set<Path>, seen: Option<Files>, tree: Files, before: Files, head: Files, p: Path)
    ensures Entry(ResetPaths(before, head, UndoPaths(paths, seen, tree)), p) != Entry(before, p) <==>
            && p in paths && (seen.None? || Entry(seen.value, p) == Entry(tree, p))
            && Entry(before, p) != Entry(head, p)
  {
    if seen.Some? {
      DifferingExactly(seen.value, tree, p);
    }
    ResetExactly(before, head, UndoPaths(paths, seen, tree), p);
  }

  /** An entry restaged after the refresh: spared by a listing that works, lost to one that fails. */
  lemma FailedListingLosesStaging(p: Path, ours: Blob, theirs: Blob, staged: Blob)
    requires ours != theirs && ours != staged && theirs != staged
    ensures var tree, head, index := map[p := ours], map[p := theirs], map[p := staged];
      && ResetPaths(index, head, UndoPaths({p}, Some(index), tree))[p] == staged
      && ResetPaths(index, head, UndoPaths({p}, None, tree))[p] == theirs
  {
    var tree, head, index := map[p := ours], map[p := theirs], map[p := staged];
    ResetExactly(index, head, UndoPaths({p}, Some(index), tree), p);
    ResetExactly(index, head, UndoPaths({p}, None, tree), p);
    DifferingExactly(index, tree, p);
  }
}
