/**
 One boot pass of the config reconciler (config_sync.py, `_reconcile_impl` and what it calls).

 A `Pass` owns the live tree, the baseline, the sidecars and the report.  Every git snapshot,
 sidecar write, file copy, file write and deletion may fail; a failed copy may leave any bytes
 behind; an exception the source does not catch ends the pass with `ok == false`.  Files are
 visited in an arbitrary order, which covers the sorted order of the source.
 */
module Reconcile {
  import opened Documents
  import opened EntryMerge
  import opened FileMerge
  import opened Newlines

  type Tree = map<Path, Content>

  function At(t: Tree, p: Path): Option<Content> {
    if p in t then Some(t[p]) else None
  }

  /** What one image brings to the pass. */
  datatype Image = Image(
    defaults: Tree,
    codec: Codec,
    specOf: Path -> Option<MergeSpec>,                          // _merge_spec
    textChecks: bool,                                           // validate_text was supplied
    mergeRaises: (Path, Content, Content, Content) -> bool,     // _merge_file raised on these files
    salvageRaises: (Path, Content) -> bool)                     // _drop_invalid_entries raised
  {
    /** The two validators go through one parser: a text that validates also validates on disk. */
    ghost predicate Agrees() {
      forall rel, c :: codec.validText(rel, c) ==> codec.validFile(rel, c)
    }

    function Attempt(p: Path, live: Content, base: Content, shipped: Content): Option<MergeResult> {
      if !textChecks || specOf(p).None? || mergeRaises(p, live, base, shipped) then None
      else ComposedFiles(codec, p, specOf(p).value, live, shipped, base)
    }

    /** The three-way on whole files, with the entry merge as its middle case. */
    function Decide(p: Path, live: Option<Content>, base: Option<Content>): Action {
      var shipped := At(defaults, p);
      if live.None? then (if shipped.Some? then Seed else Skip)
      else if base.None? then Skip
      else if live == base then
        (if shipped.None? then Remove else if shipped != base then Track else Skip)
      else if shipped.None? || shipped == base || live == shipped then Skip
      else
        match Attempt(p, live.value, base.value, shipped.value)
        case Some(r) => Merge(r)
        case None => Overwrite
    }

    /** The entries the image ships in a file it can be read in; none otherwise. */
    function Shipped(p: Path, spec: MergeSpec): Entries {
      if p !in defaults || !codec.decodes(defaults[p]) then NO_ENTRIES
      else
        match EntryDocOf(codec, ReadText(defaults[p]), spec)
        case None => NO_ENTRIES
        case Some(doc) => doc.entries
    }

    /** What is left of an invalid file once the entries that fail alone are dropped, if that validates. */
    function Salvaged(p: Path, c: Content): Option<Content> {
      if !textChecks || specOf(p).None? || salvageRaises(p, c) || !codec.decodes(c) then None
      else
        var spec := specOf(p).value;
        EntryDocValid(codec, ReadText(c), spec);
        match EntryDocOf(codec, ReadText(c), spec)
        case None => None
        case Some(doc) =>
          match Salvage(codec, p, spec, doc.topLevel, doc.entries, Shipped(p, spec))
          case None => None
          case Some(choice) => Some(choice.text)
    }
  }

  /** Where the backstop takes a shipped and invalid content. */
  ghost predicate Backstopped(img: Image, p: Path, c: Content, refused: bool, after: Option<Content>) {
    if img.Salvaged(p, c).Some? then after == img.Salvaged(p, c) || (refused && after == Some(c))
    else after == At(img.defaults, p)
  }

  /** A salvage exists exactly when the file splits, an entry fails alone, none shipped does, and the rest validates. */
  lemma SalvagedExactly(img: Image, p: Path, c: Content)
    requires p in img.defaults && img.textChecks && img.specOf(p).Some? && !img.salvageRaises(p, c)
    ensures var spec := img.specOf(p).value;
      var doc := EntryDocOf(img.codec, ReadText(c), spec);
      var image := EntryDocOf(img.codec, ReadText(img.defaults[p]), spec);
      img.Salvaged(p, c).Some? <==>
        && img.codec.decodes(c) && doc.Some? && doc.value.entries.Valid()
        && SalvageWorks(img.codec, p, spec, doc.value.topLevel, doc.value.entries,
                        if img.codec.decodes(img.defaults[p]) && image.Some? then image.value.entries else NO_ENTRIES)
  {
    var spec := img.specOf(p).value;
    EntryDocValid(img.codec, ReadText(c), spec);
    var doc := EntryDocOf(img.codec, ReadText(c), spec);
    if doc.Some? {
      SalvageExactly(img.codec, p, spec, doc.value.topLevel, doc.value.entries, img.Shipped(p, spec));
    }
  }

  /** A salvage validates, keeps every entry but those that fail alone, and drops none the image ships. */
  lemma SalvageKeeps(img: Image, p: Path, c: Content)
    requires img.Salvaged(p, c).Some?
    ensures img.codec.validText(p, img.Salvaged(p, c).value)
    ensures img.specOf(p).Some? && EntryDocOf(img.codec, ReadText(c), img.specOf(p).value).Some?
    ensures var spec := img.specOf(p).value;
      var doc := EntryDocOf(img.codec, ReadText(c), spec).value;
      exists kept: Entries :: kept.Valid() && img.Salvaged(p, c) == Some(Dump(img.codec, spec, doc.topLevel, kept))
        && (forall n :: kept.Get(n) ==
              if ValidAlone(img.codec, p, spec, doc.topLevel, doc.entries, n) then doc.entries.Get(n) else None)
        && (forall n | n in doc.entries.at && n in img.Shipped(p, spec).at :: n in kept.at)
  {
    var spec := img.specOf(p).value;
    EntryDocValid(img.codec, ReadText(c), spec);
    var doc := EntryDocOf(img.codec, ReadText(c), spec).value;
    SalvageSound(img.codec, p, spec, doc.topLevel, doc.entries, img.Shipped(p, spec));
    OnlyValid(doc.entries, Passing(img.codec, p, spec, doc.topLevel, doc.entries));
    var kept := Salvage(img.codec, p, spec, doc.topLevel, doc.entries, img.Shipped(p, spec)).value.entries;
    assert kept == Only(doc.entries, doc.entries.names, Passing(img.codec, p, spec, doc.topLevel, doc.entries));
    forall n | n in doc.entries.at && n in img.Shipped(p, spec).at
      ensures n in kept.at
    {
      assert kept.Get(n) == doc.entries.Get(n);
    }
  }

  datatype Action = Skip | Seed | Remove | Track | Merge(result: MergeResult) | Overwrite

  /** What the first loop may leave at `p`, given whether it refused the merge. */
  ghost predicate Arranged(img: Image, p: Path, live: Option<Content>, base: Option<Content>,
                           refused: bool, after: Option<Content>) {
    match img.Decide(p, live, base)
    case Skip => after == live
    case Seed => after == At(img.defaults, p)
    case Track => after == At(img.defaults, p)
    case Overwrite => after == At(img.defaults, p)
    case Remove => after == None
    case Merge(r) =>
      if r.text.None? then after == live
      else if refused then r.copyDefault || after == live
      else after == if r.copyDefault then At(img.defaults, p) else r.text
  }

  datatype Snapshot = NotTaken | Failed | Taken(tree: Tree)

  /** An error of the boot-parity validator; `delegates` is the file its mismatch pattern names. */
  datatype RepoError = RepoError(delegates: Option<Path>)

  datatype Verdict = Raised | Errors(errors: seq<RepoError>)

  /** The self-heal for a re-seeded delegates file applies to this error. */
  predicate Healable(e: RepoError, live: Tree, defaults: Tree) {
    e.delegates.Some? && e.delegates.value in live && e.delegates.value in defaults &&
    live[e.delegates.value] == defaults[e.delegates.value]
  }

  predicate NothingToHeal(v: Verdict, live: Tree, defaults: Tree) {
    v.Errors? ==> forall i | 0 <= i < |v.errors| :: !Healable(v.errors[i], live, defaults)
  }

  /** The validator ran and found something. */
  predicate Faulty(v: Verdict) {
    v.Errors? && v.errors != []
  }

  /** Every shipped path is present, and is the default itself or valid. */
  ghost predicate Settled(img: Image, live: Tree) {
    forall p | p in img.defaults ::
      p in live && (live[p] == img.defaults[p] || img.codec.validFile(p, live[p]))
  }

  /** `backup` is `original`, or what reading `original` as text gives. */
  predicate Copies(backup: Content, original: Content) {
    backup == original || backup == ReadText(original)
  }

  /** One step of the backstop: the path visited, and the state the loop started from. */
  datatype Visit = Visit(path: Path, before: Tree, refusedBefore: set<Path>)

  type Validator = (nat, Tree) -> Verdict

  /** What deleting a file does in this pass: `unlink` may raise, or `rmdir` after it. */
  datatype Deletion = Deletes | RaisesBefore | RaisesAfter

  /** The first verdict sends the heal to a file whose deletion raises. */
  predicate HealRaises(v: Verdict, live: Tree, defaults: Tree, onDelete: Path -> Deletion) {
    v.Errors? && exists i | 0 <= i < |v.errors| ::
      Healable(v.errors[i], live, defaults) && !onDelete(v.errors[i].delegates.value).Deletes?
  }

  class Pass {
    const img: Image
    const gitAvailable: bool
    const validateRepo: Option<Validator>
    const onDelete: Path -> Deletion         // no pass deletes a path twice
    ghost const start: Tree
    ghost const startBase: Tree
    ghost const startSidecars: Tree

    var live: Tree
    var baseline: Tree
    var sidecars: Tree
    var preSync: Snapshot
    var tick: nat                    // validator calls made so far
    var casabak: set<Path>
    var mergeBackup: set<Path>
    var merged: set<Path>
    var refused: set<Path>           // report.merge_refused
    var healed: set<Path>            // report.post_sync_healed
    var unheld: set<Path>            // paths whose baseline could not be held back

    constructor (img: Image, gitAvailable: bool, validateRepo: Option<Validator>, onDelete: Path -> Deletion,
                 live: Tree, baseline: Tree, sidecars: Tree)
      ensures this.img == img && this.gitAvailable == gitAvailable && this.validateRepo == validateRepo
      ensures this.onDelete == onDelete
      ensures this.live == start == live && this.baseline == startBase == baseline
      ensures this.sidecars == startSidecars == sidecars
      ensures Idle() && tick == 0 && unheld == {}
    {
      this.img, this.gitAvailable, this.validateRepo, this.onDelete := img, gitAvailable, validateRepo, onDelete;
      this.live, this.baseline, this.sidecars := live, baseline, sidecars;
      start, startBase, startSidecars := live, baseline, sidecars;
      preSync, tick := NotTaken, 0;
      casabak, mergeBackup, merged, refused, healed, unheld := {}, {}, {}, {}, {}, {};
    }

    // -------------------------------------------------------------------------
    // What the pass keeps
    // -------------------------------------------------------------------------

    ghost predicate Edited(p: Path) {
      p in start && At(startBase, p) != Some(start[p])
    }

    predicate Listed(p: Path)
      reads `casabak, `mergeBackup
    {
      p in casabak || p in mergeBackup
    }

    ghost predicate Kept(p: Path)
      reads `live
    {
      At(live, p) == At(start, p)
    }

    ghost predicate Backed(p: Path)
      requires p in start
      reads `sidecars
    {
      p in sidecars && Copies(sidecars[p], start[p])
    }

    /** Nothing is destroyed before a recovery artifact exists, stated for one edited file. */
    ghost predicate SafeAt(p: Path)
      requires p in start
      reads `live, `sidecars, `preSync, `casabak, `mergeBackup
    {
      || At(img.defaults, p) == Some(start[p])
      || match preSync
         case NotTaken => Kept(p) && !Listed(p)
         case Taken(tree) => At(tree, p) == Some(start[p])
         case Failed => if Listed(p) then Backed(p) else Kept(p)
    }

    ghost predicate Safe()
      reads `live, `sidecars, `preSync, `casabak, `mergeBackup
    {
      forall p | Edited(p) :: SafeAt(p)
    }

    /** Whatever the backstop may still overwrite is the operator's own content, not yet backed up. */
    ghost predicate QuietAt(p: Path)
      reads `live, `casabak, `mergeBackup, `refused
    {
      p in live && p in img.defaults ==>
        || (Kept(p) && !Listed(p))
        || live[p] == img.defaults[p]
        || img.codec.validFile(p, live[p])
        || p in refused
    }

    ghost predicate Quiet()
      reads `live, `casabak, `mergeBackup, `refused
    {
      forall p :: QuietAt(p)
    }

    /** Nothing has been written, taken or reported. */
    ghost predicate Idle()
      reads `live, `baseline, `sidecars, `preSync, `casabak, `mergeBackup, `merged, `refused, `healed
    {
      && live == start && baseline == startBase && sidecars == startSidecars && preSync == NotTaken
      && casabak == {} && mergeBackup == {} && merged == {} && refused == {} && healed == {}
    }

    /** A starting content that is no longer live is in the snapshot, in the sidecar, or shipped. */
    ghost predicate Preserved()
      reads `live, `sidecars, `preSync
    {
      forall p | Edited(p) && !Kept(p) ::
        || (preSync.Taken? && At(preSync.tree, p) == Some(start[p]))
        || Backed(p)
        || At(img.defaults, p) == Some(start[p])
    }

    lemma SafePreserves()
      requires Safe()
      ensures Preserved()
    {
      forall p | Edited(p) && !Kept(p)
        ensures (preSync.Taken? && At(preSync.tree, p) == Some(start[p])) || Backed(p) ||
                At(img.defaults, p) == Some(start[p])
      {
        assert SafeAt(p);
      }
    }

    // -------------------------------------------------------------------------
    // Steps that touch the disk
    // -------------------------------------------------------------------------

    /** `_ensure_pre_sync`: taken once, lazily, and never retried. */
    method EnsurePreSync() returns (taken: bool)
      requires Safe()
      modifies this`preSync
      ensures Safe() && preSync != NotTaken && taken == preSync.Taken?
      ensures preSync == if old(preSync) != NotTaken then old(preSync) else if taken then Taken(live) else Failed
      ensures taken && old(preSync) == NotTaken ==> gitAvailable
    {
      if preSync.NotTaken? {
        var ok: bool := *;
        preSync := if gitAvailable && ok then Taken(live) else Failed;
        assert forall p | Edited(p) :: old(SafeAt(p));
      }
      return preSync.Taken?;
    }

    /** `_copy` of a default over the live file.  `shutil.copy2` may fail after writing anything. */
    method CopyDefault(p: Path) returns (ok: bool)
      requires p in img.defaults
      modifies this`live
      ensures ok ==> live == old(live)[p := img.defaults[p]]
      ensures forall q | q != p :: At(live, q) == At(old(live), q)
    {
      ok := *;
      if ok {
        live := live[p := img.defaults[p]];
      } else {
        var junk: Option<Content> := *;
        live := if junk.Some? then live[p := junk.value] else live - {p};
      }
    }

    /** `atomic_write_text`: a failed write leaves the old file. */
    method AtomicWrite(p: Path, text: Content) returns (ok: bool)
      modifies this`live
      ensures live == if ok then old(live)[p := text] else old(live)
    {
      ok := *;
      if ok {
        live := live[p := text];
      }
    }

    /** `_delete`: pruning the empty parents may fail after the file is gone. */
    method Delete(p: Path) returns (ok: bool)
      modifies this`live
      ensures ok <==> onDelete(p).Deletes?
      ensures live == if onDelete(p).RaisesBefore? then old(live) else old(live) - {p}
    {
      if onDelete(p).RaisesBefore? {
        return false;
      }
      live := live - {p};
      return onDelete(p).Deletes?;
    }

    /** `_archive_casabak`: copies the file's bytes over whatever sidecar is there. */
    method ArchiveCasabak(p: Path) returns (ok: bool)
      requires Safe() && preSync == Failed && p in live && !Listed(p)
      modifies this`sidecars, this`casabak
      ensures Safe()
      ensures ok ==> sidecars == old(sidecars)[p := live[p]]
      ensures casabak == if ok then old(casabak) + {p} else old(casabak)
      ensures forall q | q != p :: At(sidecars, q) == At(old(sidecars), q)
    {
      ok := *;
      var junk: Content := *;
      sidecars := sidecars[p := if ok then live[p] else junk];
      if ok {
        casabak := casabak + {p};
      }
      forall q | Edited(q)
        ensures SafeAt(q)
      {
        assert old(SafeAt(q));
      }
    }

    /** `_write_casabak`: the first sidecar of the pass stands; a failed write may leave any bytes. */
    method WriteCasabak(p: Path, text: Content, overwrote: bool) returns (saved: bool)
      requires Safe() && preSync != NotTaken && p in live && text == ReadText(live[p])
      modifies this`sidecars, this`casabak, this`mergeBackup
      ensures Safe() && (saved <==> Listed(p))
      ensures old(Listed(p)) ==> sidecars == old(sidecars)
      ensures saved && !old(Listed(p)) ==> sidecars == old(sidecars)[p := text] && (overwrote <==> p in casabak)
      ensures forall q | q != p :: At(sidecars, q) == At(old(sidecars), q)
      ensures forall q | q != p :: q in casabak <==> q in old(casabak)
      ensures forall q | q != p :: q in mergeBackup <==> q in old(mergeBackup)
    {
      if p in casabak || p in mergeBackup {
        return true;
      }
      saved := *;
      var junk: Content := *;
      sidecars := sidecars[p := if saved then text else junk];
      if saved {
        if overwrote {
          casabak := casabak + {p};
        } else {
          mergeBackup := mergeBackup + {p};
        }
      }
      forall q | Edited(q)
        ensures SafeAt(q)
      {
        assert old(SafeAt(q));
      }
    }

    /** Only `p` may have changed, in the live tree and in the report. */
    twostate predicate Only(p: Path)
      reads this
    {
      && (forall q | q != p :: At(live, q) == At(old(live), q))
      && (forall q | q != p :: q in casabak <==> q in old(casabak))
      && (forall q | q != p :: q in mergeBackup <==> q in old(mergeBackup))
      && (forall q | q != p :: q in refused <==> q in old(refused))
    }

    /** Preserve the file, then put the default's bytes in its place (both overwrite sites). */
    method ForceDefault(p: Path) returns (ok: bool)
      requires Safe() && p in live && p in img.defaults && !Listed(p)
      modifies this`live, this`preSync, this`sidecars, this`casabak
      ensures Safe() && Only(p)
      ensures ok ==> live == old(live)[p := img.defaults[p]]
    {
      var sha := EnsurePreSync();
      if !sha {
        ok := ArchiveCasabak(p);
        if !ok {
          return;
        }
      }
      label L:
      ok := CopyDefault(p);
      forall q | Edited(q)
        ensures SafeAt(q)
      {
        assert old@L(SafeAt(q));
      }
    }

    /** The write inside `_apply_merge`, once the file is recoverable. */
    method WriteMerge(p: Path, r: MergeResult) returns (ok: bool)
      requires Safe() && p in img.defaults && r.text.Some? && preSync != NotTaken && (preSync.Failed? ==> Listed(p))
      modifies this`live
      ensures Safe()
      ensures forall q | q != p :: At(live, q) == At(old(live), q)
      ensures ok ==> live == old(live)[p := if r.copyDefault then img.defaults[p] else r.text.value]
      ensures !ok && !r.copyDefault ==> live == old(live)
    {
      if r.copyDefault {
        ok := CopyDefault(p);
      } else {
        ok := AtomicWrite(p, r.text.value);
      }
      forall q | Edited(q)
        ensures SafeAt(q)
      {
        assert old(SafeAt(q));
      }
    }

    /** `_apply_merge`: preserve, write, record; refuse when nothing could preserve the file. */
    method ApplyMerge(p: Path, r: MergeResult)
      requires Safe() && p in live && p in img.defaults && Kept(p) && !Listed(p) && p !in refused
      requires img.Agrees() && (r.text.Some? ==> img.codec.validText(p, r.text.value))
      modifies this`live, this`preSync, this`sidecars, this`casabak, this`mergeBackup, this`merged, this`refused
      ensures Safe() && QuietAt(p) && Only(p)
      ensures p in refused ==> r.text.Some? && (r.copyDefault || live == old(live))
      ensures p !in refused ==> p in merged
      ensures p !in refused ==> At(live, p) == if r.text.None? then old(At(live, p))
                                               else if r.copyDefault then At(img.defaults, p)
                                               else r.text
    {
      if r.text.Some? {
        var sha := EnsurePreSync();
        var saved := WriteCasabak(p, ReadText(live[p]), r.OverrodeLocal());
        if !sha && !saved {
          refused := refused + {p};
          return;
        }
        var ok := WriteMerge(p, r);
        if !ok {
          refused := refused + {p};
          return;
        }
      }
      merged := merged + {p};
    }

    /** The body of the first loop for one path. */
    method ReconcileFile(p: Path) returns (ok: bool)
      requires Safe() && Kept(p) && !Listed(p) && p !in refused && baseline == startBase && img.Agrees()
      modifies this`live, this`preSync, this`sidecars, this`casabak, this`mergeBackup, this`merged, this`refused
      ensures Safe() && Only(p)
      ensures ok ==> QuietAt(p)
      ensures ok ==> Arranged(img, p, At(start, p), At(startBase, p), p in refused, At(live, p))
      ensures old(Idle()) && img.Decide(p, At(start, p), At(startBase, p)).Skip? ==> ok && Idle()
    {
      if p !in live {
        if p in img.defaults {
          ok := CopyDefault(p);
          return;
        }
        return true;
      }
      if p !in baseline {
        return true;
      }
      if live[p] == baseline[p] {
        if p !in img.defaults {
          ok := Delete(p);
        } else if img.defaults[p] != baseline[p] {
          ok := CopyDefault(p);
        } else {
          ok := true;
        }
        return;
      }
      if p !in img.defaults || img.defaults[p] == baseline[p] || live[p] == img.defaults[p] {
        return true;
      }
      ok := MergeOrOverwrite(p);
    }

    /** Both sides changed: merge per entry where the file allows it, else the image wins. */
    method MergeOrOverwrite(p: Path) returns (ok: bool)
      requires Safe() && Kept(p) && !Listed(p) && p !in refused && baseline == startBase && img.Agrees()
      requires p in live && p in baseline && p in img.defaults
      requires live[p] != baseline[p] && img.defaults[p] != baseline[p] && live[p] != img.defaults[p]
      modifies this`live, this`preSync, this`sidecars, this`casabak, this`mergeBackup, this`merged, this`refused
      ensures Safe() && Only(p)
      ensures ok ==> QuietAt(p)
      ensures ok ==> Arranged(img, p, At(start, p), At(startBase, p), p in refused, At(live, p))
    {
      var spec := if img.textChecks then img.specOf(p) else None;
      if spec.Some? && !img.mergeRaises(p, live[p], baseline[p], img.defaults[p]) {
        var r := MergeFile(img.codec, p, spec.value, live[p], img.defaults[p], baseline[p]);
        if r.Some? {
          ProposalValidates(img.codec, p, spec.value, live[p], img.defaults[p], baseline[p]);
          assert img.Decide(p, At(start, p), At(startBase, p)) == Merge(r.value);
          ApplyMerge(p, r.value);
          return true;
        }
      }
      assert img.Decide(p, At(start, p), At(startBase, p)) == Overwrite;
      ok := ForceDefault(p);
    }

    ghost predicate Untouched(p: Path)
      reads `live, `casabak, `mergeBackup, `refused
    {
      Kept(p) && p !in casabak && p !in mergeBackup && p !in refused
    }

    ghost predicate ArrangedAt(p: Path)
      reads `live, `refused
    {
      Arranged(img, p, At(start, p), At(startBase, p), p in refused, At(live, p))
    }

    ghost predicate CheckedAt(p: Path)
      reads `live, `refused
    {
      p in live && p in img.defaults ==>
        live[p] == img.defaults[p] || img.codec.validFile(p, live[p]) || p in refused
    }

    /** What a step on `p` leaves alone. */
    twostate lemma Elsewhere(p: Path)
      requires Only(p)
      ensures forall q | q != p :: At(live, q) == At(old(live), q)
      ensures forall q | q != p :: q in refused <==> q in old(refused)
      ensures forall q | q != p :: Untouched(q) <==> old(Untouched(q))
      ensures forall q | q != p :: ArrangedAt(q) <==> old(ArrangedAt(q))
      ensures forall q | q != p :: CheckedAt(q) <==> old(CheckedAt(q))
      ensures forall q | q != p :: QuietAt(q) <==> old(QuietAt(q))
    {
      forall q | q != p
        ensures CheckedAt(q) <==> old(CheckedAt(q))
        ensures QuietAt(q) <==> old(QuietAt(q))
      {
        assert At(live, q) == At(old(live), q);
      }
    }

    /** The image and the live tree agree about every path: there is nothing to do. */
    ghost predicate NothingToReconcile() {
      forall p :: img.Decide(p, At(start, p), At(startBase, p)).Skip?
    }

    /** The first loop: every path of the image, the baseline or the live tree, once. */
    method ReconcileFiles() returns (ok: bool)
      requires Idle() && img.Agrees()
      modifies this`live, this`preSync, this`sidecars, this`casabak, this`mergeBackup, this`merged, this`refused
      ensures Safe()
      ensures ok ==> Quiet() && forall p :: ArrangedAt(p)
      ensures NothingToReconcile() ==> ok && Idle()
    {
      var todo := img.defaults.Keys + baseline.Keys + live.Keys;
      ghost var nothing := NothingToReconcile();
      while todo != {}
        invariant Safe()
        invariant forall p | p in todo :: Untouched(p)
        invariant forall p | p !in todo :: ArrangedAt(p) && QuietAt(p)
        invariant nothing ==> Idle()
        decreases todo
      {
        var p :| p in todo;
        label L:
        ok := ReconcileFile(p);
        if !ok {
          return;
        }
        todo := todo - {p};
        Elsewhere@L(p);
      }
      return true;
    }

    /** The computing half of `_drop_invalid_entries`. */
    method SalvagedText(p: Path, spec: MergeSpec) returns (text: Option<Content>)
      requires p in live && p in img.defaults && img.textChecks && img.specOf(p) == Some(spec)
      ensures text == img.Salvaged(p, live[p])
    {
      if img.salvageRaises(p, live[p]) || !img.codec.decodes(live[p]) {
        return None;
      }
      var doc := ParseEntryDoc(img.codec, ReadText(live[p]), spec);
      if doc.None? {
        return None;
      }
      var shipped: Option<EntryDoc> := None;
      if img.codec.decodes(img.defaults[p]) {
        shipped := ParseEntryDoc(img.codec, ReadText(img.defaults[p]), spec);
      }
      var names := if shipped.Some? then shipped.value.entries else NO_ENTRIES;
      var c := SalvageEntries(img.codec, p, spec, doc.value.topLevel, doc.value.entries, names);
      if c.None? {
        return None;
      }
      return Some(c.value.text);
    }

    /** `_drop_invalid_entries`: salvage a file by leaving out the entries that fail alone. */
    method DropInvalidEntries(p: Path, spec: MergeSpec) returns (handled: bool)
      requires Safe() && p in live && p in img.defaults && !Listed(p) && p !in refused && img.Agrees()
      requires img.textChecks && img.specOf(p) == Some(spec)
      modifies this`live, this`preSync, this`sidecars, this`casabak, this`mergeBackup, this`refused
      ensures Safe() && Only(p)
      ensures handled <==> img.Salvaged(p, old(live)[p]).Some?
      ensures !handled ==> live == old(live) && !Listed(p) && p !in refused
      ensures handled ==>
                live == if p in refused then old(live) else old(live)[p := img.Salvaged(p, old(live)[p]).value]
      ensures handled && p !in refused ==> img.codec.validFile(p, live[p])
    {
      var text := SalvagedText(p, spec);
      if text.None? {
        return false;
      }
      SalvageKeeps(img, p, live[p]);
      var sha := EnsurePreSync();
      var saved := WriteCasabak(p, ReadText(live[p]), true);
      if !sha && !saved {
        refused := refused + {p};
        return true;
      }
      var ok := WriteSalvage(p, text.value);
      if !ok {
        refused := refused + {p};
      }
      return true;
    }

    method WriteSalvage(p: Path, text: Content) returns (ok: bool)
      requires Safe() && preSync != NotTaken && (preSync.Failed? ==> Listed(p))
      modifies this`live
      ensures Safe()
      ensures live == if ok then old(live)[p := text] else old(live)
    {
      ok := AtomicWrite(p, text);
      forall q | Edited(q)
        ensures SafeAt(q)
      {
        assert old(SafeAt(q));
      }
    }

    /** The body of the schema backstop for one path. */
    method CheckFile(p: Path) returns (ok: bool)
      requires Safe() && p in live && QuietAt(p) && img.Agrees()
      modifies this`live, this`preSync, this`sidecars, this`casabak, this`mergeBackup, this`refused
      ensures Safe() && Only(p)
      ensures ok ==> QuietAt(p)
      ensures ok ==> p in live && CheckedAt(p) && (p in old(refused) ==> p in refused)
      ensures ok ==> StandsAt(p, old(live), old(refused))
      ensures p !in img.defaults || img.codec.validFile(p, old(live)[p]) || old(live)[p] == img.defaults[p] ==>
                ok && live == old(live) && sidecars == old(sidecars) && preSync == old(preSync) &&
                casabak == old(casabak) && mergeBackup == old(mergeBackup) && refused == old(refused)
    {
      if p !in img.defaults || live[p] == img.defaults[p] || img.codec.validFile(p, live[p]) || p in refused {
        return true;
      }
      var spec := if img.textChecks then img.specOf(p) else None;
      if spec.Some? {
        var handled := DropInvalidEntries(p, spec.value);
        if handled {
          return true;
        }
      }
      ok := ForceDefault(p);
    }

    /** Since `before`, the backstop disturbed `p` only if it was shipped and invalid. */
    ghost predicate StandsAt(p: Path, before: Tree, refusedBefore: set<Path>)
      reads `live, `refused
    {
      && (p in before ==> p in live)
      && (p in refusedBefore ==> p in refused)
      && (|| (At(live, p) == At(before, p) && (p in refused ==> p in refusedBefore))
          || (p in before && p in img.defaults && before[p] != img.defaults[p] && !img.codec.validFile(p, before[p])
              && Backstopped(img, p, before[p], p in refused, At(live, p))))
    }

    /** The schema backstop over the reconciled tree. */
    method SchemaBackstop() returns (ok: bool)
      requires Safe() && Quiet() && img.Agrees()
      modifies this`live, this`preSync, this`sidecars, this`casabak, this`mergeBackup, this`refused
      ensures Safe()
      ensures ok ==> forall p :: CheckedAt(p)
      ensures ok ==> forall p :: StandsAt(p, old(live), old(refused))
      ensures old(Idle()) && Settled(img, old(live)) ==> ok && Idle()
    {
      var todo := live.Keys;
      ghost var nothing := Idle() && Settled(img, live);
      ghost var before, refusedBefore := live, refused;
      while todo != {}
        invariant Safe() && Quiet() && todo <= before.Keys
        invariant forall p | p in todo :: At(live, p) == At(before, p) && (p in refused <==> p in refusedBefore)
        invariant forall p | p !in todo :: CheckedAt(p)
        invariant forall p :: StandsAt(p, before, refusedBefore)
        invariant nothing ==> Idle()
        decreases todo
      {
        var p :| p in todo;
        assert At(live, p) == At(before, p);
        label L:
        ok := CheckFile(p);
        if !ok {
          return;
        }
        todo := todo - {p};
        StandsFrom(p, old@L(live), old@L(refused), before, refusedBefore);
        StandsElsewhere@L(Visit(p, before, refusedBefore));
      }
      return true;
    }

    lemma StandsFrom(p: Path, since: Tree, refusedSince: set<Path>, before: Tree, refusedBefore: set<Path>)
      requires StandsAt(p, since, refusedSince) && At(since, p) == At(before, p) &&
                (p in refusedSince <==> p in refusedBefore)
      ensures StandsAt(p, before, refusedBefore)
    {
    }

    twostate lemma StandsElsewhere(v: Visit)
      requires Only(v.path) && StandsAt(v.path, v.before, v.refusedBefore) && QuietAt(v.path)
      requires old(Quiet()) && forall q :: old(StandsAt(q, v.before, v.refusedBefore))
      ensures Quiet() && forall q :: StandsAt(q, v.before, v.refusedBefore)
      ensures forall q | q != v.path :: At(live, q) == At(old(live), q)
      ensures forall q | q != v.path :: q in refused <==> q in old(refused)
      ensures forall q | q != v.path :: CheckedAt(q) <==> old(CheckedAt(q))
    {
      Elsewhere(v.path);
      forall q
        ensures QuietAt(q) && StandsAt(q, v.before, v.refusedBefore)
      {
        assert old(QuietAt(q)) && old(StandsAt(q, v.before, v.refusedBefore));
      }
    }

    // -------------------------------------------------------------------------
    // The post-sync check
    // -------------------------------------------------------------------------

    method Revalidate() returns (v: Verdict)
      requires validateRepo.Some?
      modifies this`tick
      ensures v == validateRepo.value(old(tick), live) && tick == old(tick) + 1
    {
      v := validateRepo.value(tick, live);
      tick := tick + 1;
    }

    /** The path is gone, held the default's bytes, and an error names it. */
    ghost predicate Reseeded(p: Path, before: Tree, errors: seq<RepoError>)
      reads `live
    {
      && p !in live && p in before && p in img.defaults && before[p] == img.defaults[p]
      && exists i | 0 <= i < |errors| :: errors[i].delegates == Some(p)
    }

    /** The file is there, as the image ships it. */
    predicate StillDefault(p: Path)
      reads `live
    {
      p in live && p in img.defaults && live[p] == img.defaults[p]
    }

    /** Drop a re-seeded delegates file that is byte-equal to the default. */
    method DropReseeded(errors: seq<RepoError>) returns (ok: bool, any: bool)
      requires Safe()
      modifies this`live, this`healed
      ensures Safe() && old(healed) <= healed
      ensures any ==> healed != {} && live != old(live)
      ensures !any ==> healed == old(healed) && (ok ==> live == old(live))
      ensures forall p :: At(live, p) == At(old(live), p) || Reseeded(p, old(live), errors)
      ensures ok <==> !HealRaises(Errors(errors), old(live), img.defaults, onDelete)
      ensures ok ==>
                forall i | 0 <= i < |errors| && errors[i].delegates.Some? :: !StillDefault(errors[i].delegates.value)
      ensures NothingToHeal(Errors(errors), old(live), img.defaults) ==> ok && !any
      ensures ok && !any ==> NothingToHeal(Errors(errors), live, img.defaults)
    {
      any := false;
      ghost var before, gone := live, Path("");
      for i := 0 to |errors|
        invariant Safe() && old(healed) <= healed
        invariant any ==> healed != {} && gone in before && gone !in live
        invariant !any ==> live == old(live) && healed == old(healed)
        invariant forall p :: At(live, p) == At(old(live), p) || Reseeded(p, old(live), errors)
        invariant forall p | p in before && p !in live :: onDelete(p).Deletes?
        invariant forall k | 0 <= k < i && Healable(errors[k], before, img.defaults) ::
                    onDelete(errors[k].delegates.value).Deletes?
        invariant forall k | 0 <= k < i && errors[k].delegates.Some? :: !StillDefault(errors[k].delegates.value)
        invariant !any ==> forall k | 0 <= k < i :: !Healable(errors[k], live, img.defaults)
        invariant NothingToHeal(Errors(errors), old(live), img.defaults) ==> !any
      {
        if errors[i].delegates.Some? {
          assert At(live, errors[i].delegates.value) == At(before, errors[i].delegates.value)
              || Reseeded(errors[i].delegates.value, before, errors);
        }
        if Healable(errors[i], live, img.defaults) {
          label L:
          var p := errors[i].delegates.value;
          ok := Delete(p);
          forall q | Edited(q)
            ensures SafeAt(q)
          {
            assert old@L(SafeAt(q));
          }
          forall q
            ensures At(live, q) == At(old(live), q) || Reseeded(q, old(live), errors)
          {
            assert At(old@L(live), q) == At(before, q) || old@L(Reseeded(q, before, errors));
          }
          if !ok {
            return;
          }
          healed := healed + {p};
          any, gone := true, p;
        }
      }
      ok := true;
    }

    /** Put the shipped default back over one merged file, if it can be preserved first. */
    method RevertMerge(p: Path) returns (reverted: bool)
      requires Safe() && p in img.defaults
      modifies this`live, this`preSync, this`sidecars, this`casabak, this`mergeBackup, this`refused, this`healed
      ensures Safe() && healed == if reverted then old(healed) + {p} else old(healed)
      ensures !reverted ==> live == old(live)
      ensures forall q | q != p :: At(live, q) == At(old(live), q)
      ensures At(live, p) == At(img.defaults, p) || p in refused
      ensures old(refused) <= refused <= old(refused) + {p}
    {
      if p !in live || !img.codec.decodes(live[p]) {
        refused := refused + {p};
        return false;
      }
      var sha := EnsurePreSync();
      var saved := WriteCasabak(p, ReadText(live[p]), true);
      if !sha && !saved {
        refused := refused + {p};
        return false;
      }
      RecordRevert(p);
      label L:
      var ok := CopyDefault(p);
      forall q | Edited(q)
        ensures SafeAt(q)
      {
        assert old@L(SafeAt(q));
      }
      if !ok {
        refused := refused + {p};
      }
      return true;
    }

    /** `_record_revert`: a defensive backup becomes a loss the operator is told about. */
    method RecordRevert(p: Path)
      requires Safe() && preSync != NotTaken && (preSync.Failed? ==> Listed(p))
      modifies this`casabak, this`mergeBackup, this`healed
      ensures Safe() && p in casabak && p !in mergeBackup && healed == old(healed) + {p}
    {
      mergeBackup := mergeBackup - {p};
      casabak := casabak + {p};
      healed := healed + {p};
      forall q | Edited(q)
        ensures SafeAt(q)
      {
        assert old(SafeAt(q));
      }
    }

    /** Every merge of the pass: reverted to the default, or held for the next boot. */
    method RevertMerges() returns (any: bool)
      requires Safe()
      modifies this`live, this`preSync, this`sidecars, this`casabak, this`mergeBackup, this`refused, this`healed
      ensures Safe() && old(healed) <= healed && old(refused) <= refused
      ensures forall p | p in merged && p in img.defaults :: At(live, p) == At(img.defaults, p) || p in refused
      ensures forall p | p !in merged || p !in img.defaults :: At(live, p) == At(old(live), p)
      ensures any ==> healed != {}
      ensures !any ==> live == old(live) && healed == old(healed)
      ensures old(Idle()) ==> Idle() && !any
    {
      any := false;
      var todo := merged * img.defaults.Keys;
      while todo != {}
        invariant Safe() && old(healed) <= healed && old(refused) <= refused
        invariant forall p | p in merged && p in img.defaults && p !in todo ::
                    At(live, p) == At(img.defaults, p) || p in refused
        invariant forall p | p !in merged || p !in img.defaults :: At(live, p) == At(old(live), p)
        invariant any ==> healed != {}
        invariant !any ==> live == old(live) && healed == old(healed)
        invariant todo <= merged * img.defaults.Keys
        invariant old(Idle()) ==> Idle() && !any && todo == {}
        decreases todo
      {
        var p :| p in todo;
        var reverted := RevertMerge(p);
        any := any || reverted;
        todo := todo - {p};
      }
    }

    /** Every merge of the pass is back at the default, or refused, and nothing else moved since `before`. */
    ghost predicate MergesReverted(before: Tree)
      reads `live, `merged, `refused
    {
      && (forall p | p in merged && p in img.defaults :: At(live, p) == At(img.defaults, p) || p in refused)
      && (forall p | p !in merged || p !in img.defaults :: At(live, p) == At(before, p))
    }

    /** What follows once the re-seeded files are out: a clean verdict ends it, any other reverts the merges. */
    ghost predicate HealedFrom(before: Tree, mid: Tree, at: nat)
      requires validateRepo.Some?
      reads `live, `merged, `refused
    {
      if mid != before && validateRepo.value(at, mid) == Errors([]) then live == mid else MergesReverted(mid)
    }

    /** `_post_sync_validate_and_heal`; `mid` is the tree once the re-seeded files are out. */
    method PostSyncHeal() returns (ok: bool, ghost mid: Tree)
      requires Safe() && healed == {}
      modifies this`live, this`preSync, this`sidecars, this`casabak, this`mergeBackup, this`refused, this`healed,
          this`tick
      ensures Safe() && old(refused) <= refused
      // An error escapes exactly when the first verdict leads to a deletion that raises.
      ensures ok <==> validateRepo.None? ||
                      !HealRaises(validateRepo.value(old(tick), old(live)), old(live), img.defaults, onDelete)
      ensures ok && healed == {} ==> live == old(live)
      ensures ok && validateRepo.Some? && Faulty(validateRepo.value(old(tick), old(live))) ==>
                HealedFrom(old(live), mid, old(tick) + 1)
      ensures validateRepo.None? || !Faulty(validateRepo.value(old(tick), old(live))) ==> ok && live == old(live)
      ensures ok && healed == {} && validateRepo.Some? ==>
                NothingToHeal(validateRepo.value(old(tick), live), live, img.defaults)
      ensures old(Idle()) &&
              (validateRepo.Some? ==>
                  NothingToHeal(validateRepo.value(old(tick), old(live)), old(live), img.defaults)) ==>
                ok && Idle()
    {
      if validateRepo.None? {
        return true, live;
      }
      var first := Revalidate();
      if first.Raised? || first.errors == [] {
        return true, live;
      }
      ok, mid := HealErrors(first.errors);
    }

    /** Drop what was re-seeded, then revert every merge while errors remain. */
    method HealErrors(found: seq<RepoError>) returns (ok: bool, ghost mid: Tree)
      requires Safe() && healed == {} && validateRepo.Some? && found != []
      modifies this`live, this`preSync, this`sidecars, this`casabak, this`mergeBackup, this`refused, this`healed,
          this`tick
      ensures Safe() && old(refused) <= refused
      ensures ok <==> !HealRaises(Errors(found), old(live), img.defaults, onDelete)
      ensures ok ==> HealedFrom(old(live), mid, old(tick))
      ensures ok && healed == {} ==> live == old(live)
      ensures ok && healed == {} ==> NothingToHeal(Errors(found), live, img.defaults)
      ensures old(Idle()) && NothingToHeal(Errors(found), old(live), img.defaults) ==> ok && Idle()
    {
      var any;
      ok, any := DropReseeded(found);
      mid := live;
      if !ok {
        return;
      }
      var errors := found;
      if any {
        var again := Revalidate();
        errors := if again.Errors? then again.errors else errors;
      }
      if errors != [] {
        var reverted := RevertMerges();
        if reverted {
          var _ := Revalidate();
        }
      }
      if any {
        var _ := Revalidate();
      }
    }

    // -------------------------------------------------------------------------
    // The baseline mirror and the pass
    // -------------------------------------------------------------------------

    /** `_mirror_baseline`: the new defaults, except for the refused paths, which are held back. */
    method MirrorBaseline() returns (ok: bool)
      modifies this`baseline, this`unheld
      ensures ok ==> forall p | p !in refused :: At(baseline, p) == At(img.defaults, p)
      ensures ok ==> forall p | p in refused && p !in unheld :: At(baseline, p) == At(old(baseline), p)
    {
      unheld := {};
      ok := *;
      if !ok {
        baseline := *;
        return;
      }
      var held := baseline;
      var todo := refused;
      baseline := img.defaults;
      while todo != {}
        invariant todo <= refused
        invariant forall p | p !in refused || p in todo :: At(baseline, p) == At(img.defaults, p)
        invariant forall p | p in refused - todo && p !in unheld :: At(baseline, p) == At(held, p)
        decreases todo
      {
        var p :| p in todo;
        var holds: bool := *;
        var junk: Option<Content> := *;
        var put := if holds then At(held, p) else junk;
        if !holds {
          unheld := unheld + {p};
        }
        baseline := if put.Some? then baseline[p := put.value] else baseline - {p};
        todo := todo - {p};
      }
    }

    /** `_reconcile_impl`. */
    method Reconcile() returns (ok: bool)
      requires Idle() && tick == 0 && img.Agrees()
      modifies this
      ensures Preserved()
      ensures ok ==> forall p | p !in refused :: At(baseline, p) == At(img.defaults, p)
      ensures ok ==> forall p | p in refused && p !in unheld :: At(baseline, p) == At(startBase, p)
      ensures ok && healed == {} ==>
                forall p :: Reached(img, p, At(start, p), At(startBase, p), p in refused, At(live, p))
      ensures ok && healed == {} && refused == {} ==> Settled(img, live) && baseline == img.defaults
      ensures ok && healed == {} && validateRepo.Some? ==>
                NothingToHeal(validateRepo.value(0, live), live, img.defaults)
      ensures startBase == img.defaults && Settled(img, start) &&
              (validateRepo.Some? ==> NothingToHeal(validateRepo.value(0, start), start, img.defaults)) ==>
                live == start && sidecars == startSidecars && refused == {} && healed == {} &&
                (ok ==> baseline == startBase)
    {
      ok := ReconcileTree();
      ghost var checked, refusedThen := live, refused;
      if ok {
        ghost var mid;
        ok, mid := PostSyncHeal();
      }
      SafePreserves();
      if !ok {
        return;
      }
      if healed == {} {
        ReachedStill(checked, refusedThen);
      }
      ok := MirrorBaseline();
      assert refused == {} && ok ==> baseline == img.defaults by {
        if refused == {} && ok {
          assert forall p :: At(baseline, p) == At(img.defaults, p);
          SameTree(baseline, img.defaults);
        }
      }
    }

    /** Both loops: every path is where the three-way and then the schema put it. */
    method ReconcileTree() returns (ok: bool)
      requires Idle() && img.Agrees()
      modifies this`live, this`preSync, this`sidecars, this`casabak, this`mergeBackup, this`merged, this`refused
      ensures Safe()
      ensures ok ==> forall p :: Reached(img, p, At(start, p), At(startBase, p), p in refused, At(live, p))
      ensures ok && refused == {} ==> Settled(img, live)
      ensures startBase == img.defaults && Settled(img, start) ==> ok && Idle()
    {
      if startBase == img.defaults && Settled(img, start) {
        SettledSkips(img, start);
      }
      ok := ReconcileFiles();
      if ok {
        ghost var mid, refusedMid := live, refused;
        forall p
          ensures Arranged(img, p, At(start, p), At(startBase, p), p in refusedMid, At(mid, p))
        {
          assert ArrangedAt(p);
        }
        ok := SchemaBackstop();
        if ok {
          ReachedFrom(mid, refusedMid);
        }
      }
    }

    lemma ReachedFrom(mid: Tree, refusedMid: set<Path>)
      requires forall p :: Arranged(img, p, At(start, p), At(startBase, p), p in refusedMid, At(mid, p))
      requires forall p :: StandsAt(p, mid, refusedMid)
      requires forall p :: CheckedAt(p)
      ensures forall p :: Reached(img, p, At(start, p), At(startBase, p), p in refused, At(live, p))
      ensures refused == {} ==> Settled(img, live)
    {
      forall p
        ensures Reached(img, p, At(start, p), At(startBase, p), p in refused, At(live, p))
        ensures refused == {} && p in img.defaults ==> p in live && CheckedAt(p)
      {
        assert Arranged(img, p, At(start, p), At(startBase, p), p in refusedMid, At(mid, p));
        assert StandsAt(p, mid, refusedMid) && CheckedAt(p);
      }
    }

    lemma ReachedStill(checked: Tree, refusedThen: set<Path>)
      requires live == checked && refusedThen <= refused
      requires forall p :: Reached(img, p, At(start, p), At(startBase, p), p in refusedThen, At(checked, p))
      ensures forall p :: Reached(img, p, At(start, p), At(startBase, p), p in refused, At(live, p))
    {
      forall p
        ensures Reached(img, p, At(start, p), At(startBase, p), p in refused, At(live, p))
      {
        assert Reached(img, p, At(start, p), At(startBase, p), p in refusedThen, At(checked, p));
      }
    }
  }

  /** One error naming a re-seeded file whose deletion raises: the heal does not return. */
  method RaisingDeletionEscapes(img: Image, p: Path, how: Deletion) returns (pass: Pass, ok: bool)
    requires p in img.defaults && !how.Deletes?
    ensures fresh(pass) && !ok
  {
    var validator: Validator := (tick, tree) => Errors([RepoError(Some(p))]);
    pass := new Pass(img, true, Some(validator), q => how, img.defaults, img.defaults, map[]);
    assert validator(0, img.defaults).errors[0].delegates == Some(p);
    ghost var mid;
    ok, mid := pass.PostSyncHeal();
  }

  lemma SameTree(a: Tree, b: Tree)
    requires forall p :: At(a, p) == At(b, p)
    ensures a == b
  {
    assert forall p :: p in a <==> p in b by {
      forall p ensures p in a <==> p in b { assert At(a, p) == At(b, p); }
    }
    forall p | p in a ensures a[p] == b[p] { assert At(a, p) == At(b, p); }
  }

  /** Where the backstop may take the content the first loop arranged. */
  ghost predicate Reached(img: Image, p: Path, live: Option<Content>, base: Option<Content>,
                          refused: bool, after: Option<Content>) {
    && (after.Some? && p in img.defaults && !refused ==>
          after == Some(img.defaults[p]) || img.codec.validFile(p, after.value))
    && exists c, r ::
      Arranged(img, p, live, base, r, c) && (r ==> refused) &&
      (after == c || (c.Some? && p in img.defaults && c != At(img.defaults, p) && !img.codec.validFile(p, c.value)
                      && Backstopped(img, p, c.value, refused, after)))
  }

  /** The three files cannot be merged per entry: no spec for it, or one of them does not read as entries. */
  predicate Unsplittable(img: Image, p: Path, live: Content, base: Content, shipped: Content) {
    || !img.textChecks || img.specOf(p).None? || img.mergeRaises(p, live, base, shipped)
    || !img.codec.decodes(live) || !img.codec.decodes(base) || !img.codec.decodes(shipped)
    || EntryDocOf(img.codec, ReadText(live), img.specOf(p).value).None?
    || EntryDocOf(img.codec, ReadText(base), img.specOf(p).value).None?
    || EntryDocOf(img.codec, ReadText(shipped), img.specOf(p).value).None?
  }

  /** Nothing the merge could compose of the three documents validates. */
  ghost predicate NothingComposes(codec: Codec, p: Path, spec: MergeSpec, l: EntryDoc, b: EntryDoc, s: EntryDoc) {
    var merged := MergeOf(s.entries, b.entries, l.entries);
    merged.Valid() ==>
      && !codec.validText(p, Dump(codec, spec, l.topLevel, merged))
      && (Same(Mapping(s.topLevel), Mapping(l.topLevel)) || !codec.validText(p, Dump(codec, spec, s.topLevel, merged)))
      && !SalvageWorks(codec, p, spec, l.topLevel, merged, s.entries)
  }

  /** There is no merge of the three files to be had. */
  ghost predicate NotMergeable(img: Image, p: Path, live: Content, base: Content, shipped: Content) {
    Unsplittable(img, p, live, base, shipped) ||
    NothingComposes(img.codec, p, img.specOf(p).value,
                    EntryDocOf(img.codec, ReadText(live), img.specOf(p).value).value,
                    EntryDocOf(img.codec, ReadText(base), img.specOf(p).value).value,
                    EntryDocOf(img.codec, ReadText(shipped), img.specOf(p).value).value)
  }

  lemma NotMergedExactly(img: Image, p: Path, live: Content, base: Content, shipped: Content)
    ensures img.Attempt(p, live, base, shipped).None? <==> NotMergeable(img, p, live, base, shipped)
  {
    if img.specOf(p).Some? {
      ProposesWhen(img.codec, p, img.specOf(p).value, ReadText(live), ReadText(shipped), ReadText(base));
    }
  }

  /** Where one path of a pass ends, from what the three trees held there. */
  lemma PathEnds(img: Image, p: Path, live: Option<Content>, base: Option<Content>,
                 refused: bool, after: Option<Content>)
    requires Reached(img, p, live, base, refused, after)
    // Not there: seeded, or still not there.
    ensures live.None? ==> after == At(img.defaults, p)
    // Untouched: follows the image, to its new bytes or out of the tree.
    ensures live.Some? && live == base ==> after == At(img.defaults, p)
    // Edited, or never shipped before, and nothing new in the image: kept, unless it is shipped and invalid.
    ensures live.Some? && live != base && p !in img.defaults ==> after == live
    ensures && live.Some? && live != base && p in img.defaults && img.codec.validFile(p, live.value)
            && (base.None? || base == Some(img.defaults[p]))
            ==> after == live
    ensures live.Some? && live == At(img.defaults, p) ==> after == live
    // Left invalid where the image has nothing new: salvaged, or replaced by the default, or refused.
    ensures && live.Some? && live != base && p in img.defaults && live != At(img.defaults, p)
            && !img.codec.validFile(p, live.value) && (base.None? || base == Some(img.defaults[p]))
            ==> if refused then after == live || Backstopped(img, p, live.value, refused, after)
                else if img.Salvaged(p, live.value).Some? then after == img.Salvaged(p, live.value)
                else after == At(img.defaults, p)
    // Both sides changed and no merge to be had: the image wins.
    ensures && live.Some? && base.Some? && p in img.defaults && live != base && base != Some(img.defaults[p])
            && NotMergeable(img, p, live.value, base.value, img.defaults[p])
            ==> after == Some(img.defaults[p])
  {
    if live.Some? && base.Some? && p in img.defaults {
      NotMergedExactly(img, p, live.value, base.value, img.defaults[p]);
    }
    var c, r :| && Arranged(img, p, live, base, r, c) && (r ==> refused)
                && (after == c || (c.Some? && p in img.defaults && c != At(img.defaults, p)
                                   && !img.codec.validFile(p, c.value)
                                   && Backstopped(img, p, c.value, refused, after)));
  }

  /** Where a merge that was not refused leaves its file. */
  lemma MergeEnds(img: Image, p: Path, live: Content, base: Content, after: Option<Content>)
    requires Reached(img, p, Some(live), Some(base), false, after) && img.Agrees() && p in img.defaults
    requires live != base && base != img.defaults[p] && live != img.defaults[p] && img.codec.validFile(p, live)
    requires img.Attempt(p, live, base, img.defaults[p]).Some?
    ensures var r := img.Attempt(p, live, base, img.defaults[p]).value;
      after == Some(if r.text.None? then live else if r.copyDefault then img.defaults[p] else r.text.value)
  {
    ProposalValidates(img.codec, p, img.specOf(p).value, live, img.defaults[p], base);
    var c, r :| && Arranged(img, p, Some(live), Some(base), r, c) && !r
                && (after == c || (c.Some? && p in img.defaults && c != At(img.defaults, p)
                                   && !img.codec.validFile(p, c.value) && Backstopped(img, p, c.value, false, after)));
  }

  /** With the baseline at the image and every shipped file settled, no path calls for anything. */
  lemma SettledSkips(img: Image, live: Tree)
    requires Settled(img, live)
    ensures forall p :: img.Decide(p, At(live, p), At(img.defaults, p)).Skip?
  {
  }
}
