# Casa: reconciler, gates, routing, ledger, grants and bus

Dafny models of the parts of Casa whose guarantees span several functions, and proofs of those
guarantees for every input, every run or every interleaving. `dafny verify dfyconfig.toml` checks
everything.

| file | models |
|---|---|
| `Walkable.dfy`, `Documents.dfy`, `EntryMerge.dfy`, `FileMerge.dfy` | bounding, splitting and merging one config file entry by entry |
| `Newlines.dfy`, `Reconcile.dfy`, `Passes.dfy` | a boot pass over the live tree, the baseline and the sidecars, and runs of passes |
| `Dicts.dfy`, `EnvScalar.dfy` | `${VAR}` placeholders: resolving them, and when a file may be rewritten |
| `CommitGate.dfy` | the validated commit under concurrent git users |
| `Acks.dfy`, `Routing.dfy`, `Markers.dfy` | callback consent, the routed overlay and its marker files |
| `Attempts.dfy`, `Episodes.dfy` | the delivery ledger and the worker's schedule |
| `Grants.dfy`, `Challenges.dfy` | single-use grants and the challenges that mint them |
| `Bus.dfy` | the message bus and its dispatch tasks |
| `Breaker.dfy`, `Streaming.dfy` | the recall breaker and the streaming accumulator |

Files, git, the spool and the network become operations that may fail: a failed atomic write leaves
the old file, a failed `shutil.copy2` may leave any bytes, a failed marker write may leave the old
bytes or the new ones, a failed delete may or may not have removed the entry. YAML, JSON, schema
validation, hashing and git objects are parameters. Clocks are reals handed in by the caller.
Concurrency is a choice of the next step: each bus and coordinator method is one step between two
awaits, and the commit gate lets others change HEAD, index and worktree between its commands.

What is assumed of the libraries:

- the file validator accepts a text that the text validator accepts (both go through one parser);
- a snapshot that succeeds captures every synced path;
- `safe_dump` writes plain only what plain reads as that text, writes a lone placeholder plain, and
  writes every scalar that is not text so that it is read as the same value;
- for a local entry to survive a merge, the one document that merge composes is read back as it was
  dumped; nothing is asked of other documents;
- two canonical marker payloads are byte-equal only if they are equal;
- for a second pass to find nothing to heal, the boot validator gives the same verdict on the same tree.

## What the code does not promise

Where a property fails, the failure and the exact condition are both proved.

- Sidecars written as text go through universal newlines, so they give back a file's bytes exactly
  when it has no carriage return (`Newlines.TextCopyExact`, `Passes.RecoverableExactly`).
- The listing before the commit gate's undo is not checked for failure; when it fails, entries
  restaged since the refresh are reset with the rest (`CommitGate.UndoOverwritesExactly`,
  `CommitGate.FailedListingLosesStaging`).
- A refresh overwrites what somebody stages between the listing and the reset
  (`CommitGate.RefreshOverwritesExactly`, `CommitGate.LateStagingIsLost`).
- Accepts and deferrals are computed from the record as selected and merged into the one stored. If
  it ended meanwhile, both can move the schedule back, the last accept of the result phase drops the
  outcome phase, and the ended record can take three more accepts instead of two
  (`Attempts.DispatchMovesBackExactly`, `Attempts.LateAcceptsReached`,
  `Attempts.StaleDeferralMovesBack`).
- Entries are compared with Python's `==`, so a local edit from 1 to true or 1.0 is no edit: it goes
  without an override being reported (`EntryMerge.RetypedEditIsLost`; the exact condition is in
  `EntryMerge.QuietMergeKeepsLocalChanges`).
- `new_attempt` accepts status done, which does not validate (`Attempts.NewAttemptValidates`).
- A dispatch task cancelled before its first step never enters its `try`, and a request to an unknown
  target or to an agent without a handler has nobody to answer it. These are the only callers the bus
  leaves to their timeout: a caller that still waits is either queued for or being served, or is in
  `stranded` and is neither (`Bus.MessageBus.Valid`, `Bus.EvictedBeforeFirstStep`).
- `record` accepts empty names, which the loader then refuses together with the whole store
  (`Acks.EmptyNameLosesTheStore`, `Acks.CallbackAckStore.ReloadExactly`).
- Two routed plugins whose artifact paths resolve to one index key cannot both be published, and
  nothing is recorded (`Markers.SharedKeyLosesAPair`; with keys apart the promise holds).
- The loader strips a placeholder and the test for rewriting does not. `str.strip` removes characters
  that `safe_dump` with `allow_unicode` leaves plain, such as a no-break space: a quoted placeholder
  padded with one is let through and loses its quotes (`EnvScalar.NoBreakSpaceChanges`; exactly
  `EnvScalar.LeafSurvivesExactly`).
- A mapping that repeats a key around a placeholder key resolving to it changes its meaning in a
  rewrite (`EnvScalar.PlaceholderKeyChanges`; exactly `EnvScalar.MappingSurvivesExactly`).
- The docstring of the post-sync heal says that no error escapes it. One does exactly when the first
  verdict names a re-seeded file whose deletion raises (`Reconcile.Pass.PostSyncHeal`,
  `Reconcile.RaisingDeletionEscapes`).

## Model

| member | source | states |
|---|---|---|
| `Walkable.Walkable` | casa/rootfs/opt/casa/config_sync.py:130-164 | The explicit-stack walk terminates on every object graph, cyclic ones included, and answers true exactly when the document unfolds into a tree of at most 100,000 nodes, a shared object counted once per reference |
| `Walkable.WithinIsAcyclicAndSmall` | casa/rootfs/opt/casa/config_sync.py:122-129 | That bound is the same as: no path from the root revisits an object, and the unfolding has at most that many nodes |
| `Walkable.FiniteIsAcyclic` | casa/rootfs/opt/casa/config_sync.py:130-164 | A finite graph has a finite unfolding exactly when no path from the root comes back on itself |
| `Walkable.UnfoldingUnique` | casa/rootfs/opt/casa/config_sync.py:130-164 | A document has at most one unfolding, so its size is well defined |
| `Documents.EntriesOfSound` | casa/rootfs/opt/casa/config_sync.py:232-257 | A list splits into entries exactly when every item is a mapping with a non-empty string identity and no identity repeats; the dict then lists the items in order |
| `Documents.ParseEntryDoc` | casa/rootfs/opt/casa/config_sync.py:194-257 | The loop that refuses on any irregularity computes exactly that split, or nothing |
| `Documents.EntryDocValid` | casa/rootfs/opt/casa/config_sync.py:194-257 | Whatever is split has one value per name and no name twice |
| `Documents.EntryDocIdentities` | casa/rootfs/opt/casa/config_sync.py:240-254 | Every entry carries the identity it is filed under |
| `Documents.EntryDocExactly` | casa/rootfs/opt/casa/config_sync.py:194-257 | A text splits exactly when it holds no declared lone placeholder, parses to a mapping, and has a list of well-formed items under the key; the other fields are its top level |
| `Documents.IdentityExactly` | casa/rootfs/opt/casa/config_sync.py:240-250 | An item is named by the non-empty string under the key, and by nothing else |
| `Documents.UnparsedIsNothing` | casa/rootfs/opt/casa/config_sync.py:167-183 | A text that does not parse is the same document as nothing |
| `Documents.NumbersCompare` | casa/rootfs/opt/casa/config_sync.py:310-345 | Which booleans, integers and floats are one value, and that a text is never a number |
| `Documents.DumpReadsBack` | casa/rootfs/opt/casa/config_sync.py:380-383 | Splitting a dumped document gives back its top level and its entries in order, for a parser that inverts the dumper |
| `Documents.SameSymmetric` | casa/rootfs/opt/casa/config_sync.py:167-183 | Python's comparison inside dicts and lists, which identifies True, 1 and 1.0 and takes the parser's one NaN object for itself, is symmetric |
| `Documents.SameReflexive` | casa/rootfs/opt/casa/config_sync.py:167-183 | And reflexive, over documents of any depth |
| `Documents.SameTransitive` | casa/rootfs/opt/casa/config_sync.py:167-183 | And transitive, over lists and mappings of any depth |
| `EntryMerge.MergeEntries` | casa/rootfs/opt/casa/config_sync.py:283-347 | The two loops, comparing with Python's `==` in the source's order, compute for every name the three-way of its three values, and the outcome lists of the specification |
| `EntryMerge.MergeIsThreeWay` | casa/rootfs/opt/casa/config_sync.py:283-347 | The merged dict holds under every name exactly the three-way result, image names first in image order, then local ones in live order |
| `EntryMerge.MergeFollowsTheChange` | casa/rootfs/opt/casa/config_sync.py:283-347 | In the merged dict: live unchanged gives image; image unchanged gives live, up to `==`; both changed gives image unless the image dropped the name; no other value appears |
| `EntryMerge.MergeOrder` | casa/rootfs/opt/casa/config_sync.py:299-345 | The merged dict is what is kept of the image's names in image order, then of the names only live has in live order |
| `EntryMerge.ThreeWayAgain` | casa/rootfs/opt/casa/config_sync.py:283-347 | A second three-way with the baseline at the image returns its input, types included |
| `EntryMerge.EachNameOnce` | casa/rootfs/opt/casa/config_sync.py:259-347 | Every name of image or live is reported exactly once, in exactly one of the six lists |
| `EntryMerge.OutcomeLists` | casa/rootfs/opt/casa/config_sync.py:259-347 | Each of the six lists holds exactly the names with its fate, in the order met |
| `EntryMerge.ListsExactly` | casa/rootfs/opt/casa/config_sync.py:299-345 | Each of the six lists, name by name, from who has the name and which sides `==` tells from the baseline |
| `EntryMerge.MergeIdempotent` | casa/rootfs/opt/casa/config_sync.py:283-347 | Merging the result again with the baseline at the image returns the same entries in the same order |
| `EntryMerge.DestroysLocalExactly` | casa/rootfs/opt/casa/config_sync.py:271-274 | The override flag is raised exactly when some name still shipped changed on both sides |
| `EntryMerge.QuietMergeKeepsLocalChanges` | casa/rootfs/opt/casa/config_sync.py:271-274 | Without the flag a name keeps its exact local value exactly when `==` tells it from the baseline or the image has it too; so every addition, deletion and edit `==` can see is in the merge |
| `EntryMerge.RetypedEditIsLost` | casa/rootfs/opt/casa/config_sync.py:316-331 | `minutes: true` over `minutes: 1` is taken for no change: the edit goes and no override is reported |
| `FileMerge.SalvageEntries` | casa/rootfs/opt/casa/config_sync.py:440-462 | The per-entry salvage loop computes the specified choice, or refuses |
| `FileMerge.SortEntries` | casa/rootfs/opt/casa/config_sync.py:441-456 | Entries that pass alone are kept and the others dropped, unless the image ships one that fails |
| `FileMerge.SalvageSound` | casa/rootfs/opt/casa/config_sync.py:440-462 | A salvage drops only non-image entries that fail validation alone, keeps every other entry, and validates |
| `FileMerge.ChooseDocument` | casa/rootfs/opt/casa/config_sync.py:424-462 | Trying the live top level, then the default's, then salvage gives the specified choice |
| `FileMerge.ChoiceSound` | casa/rootfs/opt/casa/config_sync.py:424-462 | The chosen text validates and differs from the merge only by entries that fail alone |
| `FileMerge.MergeFile` | casa/rootfs/opt/casa/config_sync.py:386-473 | Over the three files, the code proposes exactly the specified result, or none |
| `FileMerge.ProposalSound` | casa/rootfs/opt/casa/config_sync.py:417-473 | A proposed text keeps every image-shipped entry the three-way kept and drops only non-image entries that fail alone; with no override reported, every local change is in it |
| `FileMerge.ProposesExactly` | casa/rootfs/opt/casa/config_sync.py:464-473 | The proposal is the composed document, under the default's top level exactly if that is reported; nothing exactly when it is the live document already, and the default's bytes exactly when it is that one |
| `FileMerge.ProposesWhen` | casa/rootfs/opt/casa/config_sync.py:411-462 | There is a proposal of the whole merge under the live top level if that validates, else under a different default's; else exactly when the salvage works; and none when a file does not split |
| `FileMerge.SalvageExactly` | casa/rootfs/opt/casa/config_sync.py:436-462 | The salvage works exactly when some entry fails alone, none the image ships does, and the others validate together |
| `FileMerge.ProposalValidates` | casa/rootfs/opt/casa/config_sync.py:417-473 | Whatever text is proposed validates |
| `Newlines.TextCopyExact` | casa/rootfs/opt/casa/config_sync.py:992-1003 | Reading a file as text and writing it back is byte-exact exactly when it holds no carriage return |
| `Newlines.TranslateFirstReturn` | casa/rootfs/opt/casa/config_sync.py:992-1003 | The first return of a text becomes one newline, with the newline behind it if there is one |
| `Newlines.CrlfFileLosesItsReturn` | casa/rootfs/opt/casa/config_sync.py:851-873 | A concrete file whose text sidecar is not its bytes |
| `Reconcile.Pass.EnsurePreSync` | casa/rootfs/opt/casa/config_sync.py:1057-1071 | The snapshot is taken at most once, is the live tree at that moment, and a failed one is never retried |
| `Reconcile.Pass.ArchiveCasabak` | casa/rootfs/opt/casa/config_sync.py:601-611 | A sidecar that is recorded holds the file's bytes; no other sidecar changes |
| `Reconcile.Pass.WriteCasabak` | casa/rootfs/opt/casa/config_sync.py:851-873 | The first sidecar of a pass stands; a later one that is reported saved holds the text given, and is filed as a loss or as a backup |
| `Reconcile.Pass.ForceDefault` | casa/rootfs/opt/casa/config_sync.py:1138-1146 | The default is put in place only once the file can be got back |
| `Reconcile.Pass.ApplyMerge` | casa/rootfs/opt/casa/config_sync.py:764-848 | A merge is written only when the file can be got back, else refused; it changes no other path |
| `Reconcile.Pass.ReconcileFile` | casa/rootfs/opt/casa/config_sync.py:1073-1146 | One path of the first loop ends where the three-way on whole files puts it, and the safety invariant holds even when it aborts |
| `Reconcile.Pass.MergeOrOverwrite` | casa/rootfs/opt/casa/config_sync.py:1098-1146 | With both sides changed, the entry merge is used where it composes, the image wins otherwise |
| `Reconcile.Pass.ReconcileFiles` | casa/rootfs/opt/casa/config_sync.py:1073-1146 | The whole loop: every path is arranged as its own three-way says, independently of the others |
| `Reconcile.Pass.DropInvalidEntries` | casa/rootfs/opt/casa/config_sync.py:889-964 | The file becomes exactly its salvage, or stays as it was and is refused; with nothing to salvage it is untouched |
| `Reconcile.Pass.CheckFile` | casa/rootfs/opt/casa/config_sync.py:1150-1202 | A shipped file left invalid becomes its salvage or the default, or is refused as it was; a valid one is untouched |
| `Reconcile.Pass.SchemaBackstop` | casa/rootfs/opt/casa/config_sync.py:1148-1202 | After the backstop every shipped file is the default, valid or refused, and every file it changed is its salvage or the default |
| `Reconcile.Pass.DropReseeded` | casa/rootfs/opt/casa/config_sync.py:642-658 | Every file that goes held the default's bytes and is named by an error, and nothing else changes; an error escapes exactly when some named file that holds the default cannot be deleted |
| `Reconcile.Pass.RevertMerge` | casa/rootfs/opt/casa/config_sync.py:707-745 | The file becomes the default, or is refused; no other file changes |
| `Reconcile.Pass.RecordRevert` | casa/rootfs/opt/casa/config_sync.py:967-989 | A defensive backup becomes a recorded loss, once |
| `Reconcile.Pass.RevertMerges` | casa/rootfs/opt/casa/config_sync.py:703-747 | Every merge of the pass ends as the default or refused, and no other file changes |
| `Reconcile.Pass.PostSyncHeal` | casa/rootfs/opt/casa/config_sync.py:614-761 | The heal keeps the safety invariant; a clean or failing first verdict changes nothing; otherwise the re-seeded files go and, unless that cured the tree, every merge is reverted or refused; an error escapes exactly when the first verdict names a file that holds the default and whose deletion raises |
| `Reconcile.RaisingDeletionEscapes` | casa/rootfs/opt/casa/config_sync.py:642-658 | The input: one error naming a shipped file whose deletion raises |
| `Reconcile.Pass.MirrorBaseline` | casa/rootfs/opt/casa/config_sync.py:1240-1284 | Afterwards the baseline is the image at every path that was not refused, and the old baseline at every refused one that could be held |
| `Reconcile.Pass.Reconcile` | casa/rootfs/opt/casa/config_sync.py:1039-1237 | The whole pass: preservation whatever fails, where every path and every baseline ends, and that a settled tree is left alone |
| `Reconcile.SettledSkips` | casa/rootfs/opt/casa/config_sync.py:1073-1146 | With the baseline at the image and every shipped file settled, the three-way asks for nothing anywhere |
| `Reconcile.PathEnds` | casa/rootfs/opt/casa/config_sync.py:1073-1202 | Where a path ends, from its three contents alone: seeded, following the image in bytes or removal when untouched, kept when the image has nothing new, salvaged or default when invalid, the default when both changed and no merge is to be had |
| `Reconcile.NotMergedExactly` | casa/rootfs/opt/casa/config_sync.py:1105-1137 | A merge is attempted and found exactly when the files split and something composed validates |
| `Reconcile.MergeEnds` | casa/rootfs/opt/casa/config_sync.py:1133-1136 | A merge that was not refused leaves the proposed text, the default's bytes, or the live file, exactly as proposed |
| `Passes.RunPass` | casa/rootfs/opt/casa/config_sync.py:1006-1237 | If a file that differed from its baseline ends, or aborts, with other bytes, its starting content is in the snapshot, in its sidecar (as text) or equal to the default; refused paths keep their baseline and the same decision is reached again; a clean pass is one stage of a run; on the trees, missing and untouched paths follow the image, edits stay where it has nothing new, and the image wins where no merge is to be had |
| `Passes.TreesEnd` | casa/rootfs/opt/casa/config_sync.py:1073-1202 | Those three statements, for every path of a completed pass |
| `Passes.MergeDelivers` | casa/rootfs/opt/casa/config_sync.py:386-473 | What a merge proposes carries under every name the three-way of the three files; proposing nothing, or the default, means that file already does, up to `==` |
| `Passes.PassMergesEveryName` | casa/rootfs/opt/casa/config_sync.py:1098-1202 | After a completed pass that did not refuse it, a merged file carries the three-way under every name, up to `==` |
| `Passes.ChangedEntriesArrive` | casa/rootfs/opt/casa/config_sync.py:1098-1202 | So an entry new in the image, or changed there and untouched here, is in the file, and one changed only here stays |
| `Passes.RecoverableExactly` | casa/rootfs/opt/casa/config_sync.py:851-873 | Recovery is byte for byte for files without a carriage return, and a text copy is exact only for those |
| `Passes.RunTwice` | casa/rootfs/opt/casa/config_sync.py:1073-1284 | A second pass of the same image changes neither live tree nor baseline when the first refused and healed nothing |
| `Passes.MergeKeepsEntry` | casa/rootfs/opt/casa/config_sync.py:386-473 | A merge of files that do not carry a name keeps the local entry under it, when the one document it composes reads back |
| `Passes.DecisionKeepsEntry` | casa/rootfs/opt/casa/config_sync.py:1073-1146 | Whatever the whole-file three-way decides for such a file keeps the entry |
| `Passes.PassKeepsEntry` | casa/rootfs/opt/casa/config_sync.py:1073-1284 | One pass keeps the entry and leaves a baseline that does not carry the name |
| `Passes.LocalEntrySurvives` | casa/rootfs/opt/casa/config_sync.py:1073-1284 | Over any sequence of images and clean passes, with any other change to the tree between boots, an entry under a name no image ships keeps its value, images that drop and re-ship the file included |
| `EnvScalar.SubstituteNothing` | casa/rootfs/opt/casa/config.py:65-76 | Without variables every text is left as it is |
| `EnvScalar.SubstituteLone` | casa/rootfs/opt/casa/config.py:62-76 | A lone placeholder becomes the variable's value, or stays |
| `EnvScalar.LoneExactly` | casa/rootfs/opt/casa/config.py:62-62 | A placeholder is a dollar, a brace, a letter or underscore, any letters, digits and underscores, and a brace |
| `EnvScalar.SubstituteLiteral` | casa/rootfs/opt/casa/config.py:65-76 | What stands before the first placeholder is left as it is |
| `EnvScalar.SubstitutePlaceholder` | casa/rootfs/opt/casa/config.py:65-76 | Each placeholder becomes its value or stays, and what follows is resolved like any text |
| `EnvScalar.ScalarMeans` | casa/rootfs/opt/casa/config.py:148-163 | Quoted or string-tagged is text; plain and lone is what its value reads as; other plain text is typed by YAML; an unset variable leaves it alone |
| `EnvScalar.TextSurvivesExactly` | casa/rootfs/opt/casa/config.py:148-163 | One text scalar and its rewritten form agree under an environment exactly when nothing is resolved, or the scalar is not lone, or both forms are declared alike, or the read-back is the text itself |
| `EnvScalar.LeafSurvivesExactly` | casa/rootfs/opt/casa/config.py:148-163 | The same condition, exact, for any text scalar and what the dumper makes of it |
| `EnvScalar.LeafSurvives` | casa/rootfs/opt/casa/config.py:148-163 | Every scalar the test lets through constructs the same value before and after parse and dump |
| `EnvScalar.RewriteKeepsMeaning` | casa/rootfs/opt/casa/config.py:148-163 | For every environment, every document of rewritable scalars and distinct keys loads the same before and after an environment-free parse and dump, failures included |
| `EnvScalar.TextHasLonePlaceholder` | casa/rootfs/opt/casa/config.py:179-250 | The token loop answers true exactly when the text cannot be scanned or some scalar of the parsed stream is a lone placeholder declared text by quotes or by the string tag, whatever its spelling |
| `EnvScalar.TagReachesItsScalar` | casa/rootfs/opt/casa/config.py:223-247 | A tag reaches the scalar behind it across any anchors, and the string tag declares it text however it is spelled |
| `EnvScalar.TagGoesNoFurther` | casa/rootfs/opt/casa/config.py:223-247 | A tag goes no further than the next token |
| `EnvScalar.HandlesBound` | casa/rootfs/opt/casa/config.py:225-229 | The default handles stand, and a `%TAG` directive binds its own |
| `EnvScalar.AcceptedTextMayBeRewritten` | casa/rootfs/opt/casa/config.py:179-250 | A file the test lets through, whose placeholders in white space are written back as declared and whose keys are distinct, means the same in every environment before and after a rewrite |
| `EnvScalar.RefusalIsNeeded` | casa/rootfs/opt/casa/config.py:179-250 | A quoted lone placeholder changes its meaning in a rewrite for every value that reads back as something other than that text |
| `EnvScalar.PaddedDocumentChanges` | casa/rootfs/opt/casa/config.py:238-246 | A quoted placeholder in white space that the dumper writes plain passes the test and then follows the read-back |
| `EnvScalar.NoBreakSpaceChanges` | casa/rootfs/opt/casa/config.py:238-246 | The input: a quoted placeholder followed by a no-break space, with a value that reads as a mapping |
| `EnvScalar.MappingSurvivesExactly` | casa/rootfs/opt/casa/config.py:266-276 | One mapping, repeated keys included, keeps its meaning under an environment exactly when, for every resolved key, the last assignment to it gives the value of the last of the distinct keys resolving to it |
| `EnvScalar.RepeatedKeyChanges` | casa/rootfs/opt/casa/config.py:266-276 | A key repeated around a different one that resolves to it makes the rewritten mapping load differently |
| `EnvScalar.PlaceholderKeyChanges` | casa/rootfs/opt/casa/config.py:266-276 | The input: keys a, `${V}`, a under V = a |
| `Dicts.BuildExactly` | casa/rootfs/opt/casa/config.py:266-276 | A dict filled in order holds each key at its first place with its last value |
| `Dicts.RebuildExactly` | casa/rootfs/opt/casa/config.py:266-276 | Folding repeated keys before and again after they are read is folding them as they are read, exactly under the stated agreement |
| `CommitGate.Repository.Prepare` | casa/rootfs/opt/casa/config_git.py:191-220 | What is offered as a commit is, path by path, the worktree's tracked and unignored files on top of the pinned HEAD, and passed the validator with no error; nothing to commit means HEAD already is that |
| `CommitGate.Repository.RefreshIndex` | casa/rootfs/opt/casa/config_git.py:246-280 | Only entries the candidate changed and nobody had staged differently are refreshed; a listing that fails ends the gate before any write |
| `CommitGate.Repository.UndoRefresh` | casa/rootfs/opt/casa/config_git.py:281-317 | The undo resets to HEAD the refreshed entries its listing did not take out, and no others |
| `CommitGate.Repository.CommitChecked` | casa/rootfs/opt/casa/config_git.py:158-318 | With others editing, staging and committing between any two commands: HEAD moves only to a validated tree whose parent is the HEAD replaced; refusals write neither HEAD nor the shared index; entries listed as staged differently survive both branches; alone, the final index is known entry by entry; alone, nothing to commit means the worktree is HEAD, and a commit is the worktree, path by path |
| `CommitGate.ResetSpares` | casa/rootfs/opt/casa/config_git.py:252-271 | A refresh never overwrites an entry the listing saw staged differently |
| `CommitGate.RefreshOverwritesExactly` | casa/rootfs/opt/casa/config_git.py:252-271 | The refresh overwrites what it finds exactly when the candidate touches the path, the listing saw the base's entry there and the entry is not already the candidate's |
| `CommitGate.LateStagingIsLost` | casa/rootfs/opt/casa/config_git.py:252-271 | The input: an entry staged after the listing is overwritten, the same entry staged before it is spared |
| `CommitGate.Repository.Publish` | casa/rootfs/opt/casa/config_git.py:246-318 | Refresh, swap and undo: HEAD moves only from the base to the candidate, and no index write touches an entry listed as staged differently |
| `CommitGate.UndoOverwritesExactly` | casa/rootfs/opt/casa/config_git.py:292-310 | The undo overwrites what it finds exactly when the path was refreshed, its listing failed or saw the candidate's entry, and the entry is not already HEAD's |
| `CommitGate.FailedListingLosesStaging` | casa/rootfs/opt/casa/config_git.py:292-310 | The input: an entry restaged after the refresh is spared by a listing that works and lost to one that fails |
| `Acks.Load` | casa/rootfs/opt/casa/callback_acks.py:83-149 | The loading loop yields every record of a well-formed store, and none at all if one record is bad |
| `Acks.LoadedIsGenuine` | casa/rootfs/opt/casa/callback_acks.py:126-148 | Every loaded ack has exactly the five fields, non-empty names and generation, a finite time, and computes the very identity it is filed under |
| `Acks.LoadedExactly` | casa/rootfs/opt/casa/callback_acks.py:104-149 | A readable store gives all its records when every one of them is such, fits and has the schema version, and otherwise none |
| `Acks.WrittenReadsBack` | casa/rootfs/opt/casa/callback_acks.py:104-164 | A written store loads back as it was exactly when it is empty, or fits the size cap and has no empty declared name |
| `Acks.CallbackAckStore.ReloadExactly` | casa/rootfs/opt/casa/callback_acks.py:76-236 | At every moment of every run with failing writes, a restart loads the map in memory exactly under that condition |
| `Acks.CallbackAckStore.Persist` | casa/rootfs/opt/casa/callback_acks.py:151-164 | Memory changes only together with the file |
| `Acks.CallbackAckStore.Record` | casa/rootfs/opt/casa/callback_acks.py:174-198 | One identity is added; a live ack keeps its generation, any other gets the fresh one |
| `Acks.CallbackAckStore.Revoke` | casa/rootfs/opt/casa/callback_acks.py:200-236 | Exactly the acks whose record names the plugin, and the callback if one is given, go |
| `Acks.CallbackAckStore.PruneStale` | casa/rootfs/opt/casa/callback_acks.py:213-225 | Exactly the acks outside the keep-set go, and nothing is written when there are none |
| `Acks.CallbackAckStore.Meanwhile` | casa/rootfs/opt/casa/callback_acks.py:174-236 | Any number of approvals and revocations, failing or not, keeps the store consistent with its file |
| `Acks.EmptyNameLosesTheStore` | casa/rootfs/opt/casa/callback_acks.py:174-198 | Recording an empty name succeeds and makes the next restart load no consent at all |
| `Routing.EffectiveNameUnique` | casa/rootfs/opt/casa/plugin_callbacks.py:95-103 | Under the naming rules an effective name names one callback of one plugin |
| `Routing.Reachable` | casa/rootfs/opt/casa/callback_reconcile.py:310-319 | True exactly when some target is a specialist or a live resident role |
| `Routing.ComputeDesired` | casa/rootfs/opt/casa/callback_reconcile.py:191-307 | The loop computes the specified overlay, issues, prompts, routed list, keep-set and prune flag |
| `Routing.AllOrNothing` | casa/rootfs/opt/casa/callback_reconcile.py:270-298 | A plugin that passed every gate has every callback routed to itself; any other has no route |
| `Routing.AssignedExactly` | casa/rootfs/opt/casa/callback_reconcile.py:220-226 | A plugin is assigned exactly when its last registry entry names a specialist or a live resident role |
| `Routing.RoutableExactly` | casa/rootfs/opt/casa/callback_reconcile.py:246-298 | A plugin is routed exactly when it declares callbacks, is assigned, and every identity of them is acked |
| `Routing.InvalidRegistryRoutesNothing` | casa/rootfs/opt/casa/callback_reconcile.py:206-212 | An invalid registry routes, asks for and prunes nothing |
| `Routing.GapsExactly` | casa/rootfs/opt/casa/callback_reconcile.py:229-306 | The gap a plugin is reported for is the first gate it fails, or the base URL once it passes them all |
| `Routing.IssueSound` | casa/rootfs/opt/casa/callback_reconcile.py:228-307 | Every issue of a pass is the gap of one of its plugins |
| `Routing.IssueComplete` | casa/rootfs/opt/casa/callback_reconcile.py:228-307 | Every gap of a plugin is an issue of the pass |
| `Routing.OverlaySound` | casa/rootfs/opt/casa/callback_reconcile.py:270-298 | Whatever is routed belongs to a plugin that passed every gate |
| `Routing.OverlayComplete` | casa/rootfs/opt/casa/callback_reconcile.py:270-298 | Every callback of a plugin that passed every gate is routed |
| `Routing.PromptsExactly` | casa/rootfs/opt/casa/callback_reconcile.py:259-294 | A prompt is raised exactly for a missing consent that is its plugin's only gap |
| `Routing.ValidExactly` | casa/rootfs/opt/casa/callback_reconcile.py:249-257 | The keep-set is exactly the identities some readable declaration still computes |
| `Routing.PrunableExactly` | casa/rootfs/opt/casa/callback_reconcile.py:213-245 | A valid registry's pass may prune exactly when resolution had no issue and every manifest parsed |
| `Routing.RoutedSound` | casa/rootfs/opt/casa/callback_reconcile.py:291-298 | Every plugin in the routed list passed every gate |
| `Routing.RoutedComplete` | casa/rootfs/opt/casa/callback_reconcile.py:291-298 | Every plugin that passed every gate is in the routed list |
| `Markers.Site.PairState` | casa/rootfs/opt/casa/callback_reconcile.py:395-434 | Nothing but a pair byte-equal to the desired one counts as published, and nothing on disk counts as absent |
| `Markers.Site.RetireOrphans` | casa/rootfs/opt/casa/callback_reconcile.py:505-525 | Only orphans are deleted; none remains when the listing was complete and every delete worked |
| `Markers.Site.RetireStale` | casa/rootfs/opt/casa/callback_reconcile.py:527-554 | A pair already as wanted is untouched; every other one is withdrawn unless a delete failed |
| `Markers.Site.PreSwap` | casa/rootfs/opt/casa/callback_reconcile.py:457-554 | Before the swap markers only disappear; orphans only on a clean pass |
| `Markers.Site.PublishPair` | casa/rootfs/opt/casa/callback_reconcile.py:568-583 | A pair ends as wanted or with its error on record, and whole or gone unless a delete failed |
| `Markers.Site.PostSwap` | casa/rootfs/opt/casa/callback_reconcile.py:557-583 | The same for every pair to write, and nothing else changes |
| `Markers.Site.MarkerPass` | casa/rootfs/opt/casa/callback_reconcile.py:715-725 | After a pass every routed pair is as wanted or its error is on record; never half a pair unless a delete failed; orphans stay on an unclean pass; nothing is written before the overlay routes it; a working spool converges and then stays still |
| `Markers.Site.Reconcile` | casa/rootfs/opt/casa/callback_reconcile.py:656-736 | The same from the store's acks to their prune, with approvals in between; a computation that raises closes every route; an ack is forgotten only when registry, resolution and every manifest were good and no resolved plugin computes its identity; whatever is routed has such an ack |
| `Markers.Site.VerifyPublished` | casa/rootfs/opt/casa/callback_reconcile.py:586-620 | No gap on record means both files are there as wanted; on a working spool a gap means they are not |
| `Markers.MarkersAdvertiseRoutes` | casa/rootfs/opt/casa/callback_reconcile.py:557-583 | Every callback a marker advertises is in the overlay it was written under |
| `Markers.PublishedSays` | casa/rootfs/opt/casa/callback_reconcile.py:327-361 | A published pair gives the base and maps each declared name to its effective one; the index also names the plugin |
| `Markers.NeverHalf` | casa/rootfs/opt/casa/callback_reconcile.py:568-583 | Unless a delete failed, both files of a routed plugin are there or neither is, and then its error is on record |
| `Markers.RoutedByConsent` | casa/rootfs/opt/casa/callback_reconcile.py:270-298 | Every route rests on an ack whose own record computes the identity of that very callback |
| `Markers.ByPluginExactly` | casa/rootfs/opt/casa/callback_reconcile.py:498-503 | Under distinct names the dictionary by plugin is the routed set |
| `Markers.SharedKeyExcludes` | casa/rootfs/opt/casa/callback_reconcile.py:323-361 | Two plugins with one index key are never both published |
| `Markers.SharedKeyLosesAPair` | casa/rootfs/opt/casa/callback_reconcile.py:457-583 | With a shared index key a pass on which nothing fails leaves a wrong pair and no error |
| `Attempts.DeferralExact` | casa/rootfs/opt/casa/callback_attempts.py:401-421 | The saturated deferral is min(1800, 60 * 2^d) for every natural d |
| `Attempts.AcceptKeeps` | casa/rootfs/opt/casa/callback_attempts.py:361-398 | An accept, of a current snapshot or of one taken before the ending, keeps the invariant of reachable records |
| `Attempts.RejectKeeps` | casa/rootfs/opt/casa/callback_attempts.py:401-421 | So does a deferral |
| `Attempts.StepKeeps` | casa/rootfs/opt/casa/callback_episodes.py:337-422 | So does every step of every interleaving, an ending between selection and update included |
| `Attempts.RunKeeps` | casa/rootfs/opt/casa/callback_episodes.py:337-422 | So does every state of every run |
| `Attempts.ReachableRecord` | casa/rootfs/opt/casa/callback_attempts.py:215-421 | In every interleaving from result_ready the record validates, has its end time when done, and is never selected once collected; recorded accepts are at most 4 of open snapshots, 3 of ended ones and 6 in all, and at most 2 of ended ones when no dispatch straddled the ending |
| `Attempts.TerminateKeeps` | casa/rootfs/opt/casa/callback_attempts.py:332-358 | Ending the record keeps the invariant, with or without a dispatch in flight |
| `Attempts.EndingSchedules` | casa/rootfs/opt/casa/callback_attempts.py:332-358 | An ended record falls due half an hour after its end and not before, unless it was collected or its budget is spent |
| `Attempts.TerminateSchedules` | casa/rootfs/opt/casa/callback_attempts.py:332-358 | So does every reachable ledger with nothing in flight, whatever was scheduled |
| `Attempts.DeferralWaits` | casa/rootfs/opt/casa/callback_episodes.py:413-422 | A deferral waits a minute, doubled for every one in a row before it, up to half an hour |
| `Attempts.AcceptEndsTheRow` | casa/rootfs/opt/casa/callback_episodes.py:387-410 | An accept ends the row of deferrals and spends one unit |
| `Attempts.WholeScheduleReached` | casa/rootfs/opt/casa/callback_attempts.py:361-398 | A run takes four nudges of the result and two of the outcome |
| `Attempts.NotNudged` | casa/rootfs/opt/casa/callback_episodes.py:162-180 | A spent budget, a slot ahead, a collected result and one that is gone are never nudged |
| `Attempts.DispatchMovesBackExactly` | casa/rootfs/opt/casa/callback_episodes.py:387-422 | A dispatch moves the next nudge back exactly when it is recorded across an ending with an outcome phase and its slot, by accept with or without an anchor or by deferral, falls before that phase |
| `Attempts.LateAcceptsReached` | casa/rootfs/opt/casa/callback_episodes.py:387-410 | A run with one accept across the ending and three after it |
| `Attempts.StaleDeferralMovesBack` | casa/rootfs/opt/casa/callback_episodes.py:413-422 | A deferral across an ending at 10 moves the slot from 1810 to 80 |
| `Attempts.TerminalizeIdempotent` | casa/rootfs/opt/casa/callback_attempts.py:332-358 | Ending a record again changes nothing |
| `Attempts.NewAttemptValidates` | casa/rootfs/opt/casa/callback_attempts.py:215-253 | A fresh record validates exactly when its status is not done |
| `Attempts.NewAttemptDue` | casa/rootfs/opt/casa/callback_attempts.py:215-253 | A new record is due exactly from the moment its result is there; an awaited one has no schedule |
| `Attempts.ValidatesExactly` | casa/rootfs/opt/casa/callback_attempts.py:256-329 | A clock out of range, or an outcome on the wrong side of done, is refused, and nothing else is |
| `Episodes.SelectNudgeable` | casa/rootfs/opt/casa/callback_episodes.py:183-191 | Exactly the due attempts, in listing order |
| `Episodes.ScanNextDue` | casa/rootfs/opt/casa/callback_episodes.py:194-212 | The earliest slot that can still fire, and none exactly when there is none |
| `Episodes.WakeCoversEveryDue` | casa/rootfs/opt/casa/callback_episodes.py:301-307 | The worker wakes no later than any attempt becomes due, up to the minimum wait |
| `Episodes.WakeFindsWork` | casa/rootfs/opt/casa/callback_episodes.py:301-307 | A timed wake finds an attempt due, unless its result has gone |
| `Grants.GrantStore.Mint` | casa/rootfs/opt/casa/authz_grants.py:155-164 | The key's grant becomes a fresh unused one |
| `Grants.GrantStore.Consume` | casa/rootfs/opt/casa/authz_grants.py:166-181 | The answer and the one-shot effect on the store |
| `Grants.GrantStore.Purge` | casa/rootfs/opt/casa/authz_grants.py:183-207 | Exactly the matching grants go, and their number is returned |
| `Grants.PurgedExactly` | casa/rootfs/opt/casa/authz_grants.py:183-207 | After a purge no grant of its chat, role or artifact is left, after a sweep none that has run out, and every other one is |
| `Grants.StoreIsHistory` | casa/rootfs/opt/casa/authz_grants.py:155-207 | The unused grants in the store are exactly the mints still in force |
| `Grants.ConsumeExactly` | casa/rootfs/opt/casa/authz_grants.py:166-181 | After any history, consume answers true exactly when the key's latest mint is unexpired and neither consumed nor purged since |
| `Grants.SweepIsInvisible` | casa/rootfs/opt/casa/authz_grants.py:195-200 | Inserting or removing sweeps anywhere changes no answer under a monotone clock |
| `Grants.AllowancesBounded` | casa/rootfs/opt/casa/authz_grants.py:1003-1038 | From any store, allowed calls for a key never exceed its approvals plus the usable grant it starts with |
| `Grants.AllowedWithinApprovals` | casa/rootfs/opt/casa/authz_grants.py:1003-1038 | From an empty store, allowed protected calls per key never exceed its Approve commits |
| `Grants.ApprovedExactly` | casa/rootfs/opt/casa/authz_grants.py:1003-1038 | An Approve tap allows the operator one call within five minutes; a Deny tap or anybody else's call does nothing |
| `Challenges.Coordinator.OneLivePerKey` | casa/rootfs/opt/casa/authz_grants.py:496-517 | One key never has two live challenges |
| `Challenges.Coordinator.Register` | casa/rootfs/opt/casa/authz_grants.py:541-614 | A live challenge is joined, an oversized body refused before any insert, else one is added |
| `Challenges.Coordinator.MaybeRemove` | casa/rootfs/opt/casa/authz_grants.py:788-794 | The second latch removes this challenge and never a newer one |
| `Challenges.Coordinator.SettleRequest` | casa/rootfs/opt/casa/authz_grants.py:780-782 | The map holds a challenge exactly while one of its latches is unset |
| `Challenges.Coordinator.SettleSetup` | casa/rootfs/opt/casa/authz_grants.py:784-786 | The same for the other latch |
| `Challenges.LateLatchIsHarmless` | casa/rootfs/opt/casa/authz_grants.py:780-794 | A late latch leaves a newer challenge for its key in place |
| `Bus.MessageBus.Register` | casa/rootfs/opt/casa/bus.py:97-108 | An existing queue is kept and the handler rebound |
| `Bus.MessageBus.Drain` | casa/rootfs/opt/casa/bus.py:156-171 | Every queued message is taken out and nobody waits for one any more |
| `Bus.MessageBus.Unregister` | casa/rootfs/opt/casa/bus.py:127-173 | Every request still queued is settled, the agent's dispatches are cancelled, nobody else's future changes |
| `Bus.MessageBus.Send` | casa/rootfs/opt/casa/bus.py:212-233 | An unknown target drops the message; a known one gets it in its place in the send order |
| `Bus.MessageBus.Request` | casa/rootfs/opt/casa/bus.py:235-253 | Refused at shutdown, else one pending future and one queued message |
| `Bus.MessageBus.Abandon` | casa/rootfs/opt/casa/bus.py:254-259 | A caller's timeout or cancellation completes its own future at most once |
| `Bus.MessageBus.TimedOut` | casa/rootfs/opt/casa/bus.py:256-258 | The pending entry goes |
| `Bus.MessageBus.CallerCancelled` | casa/rootfs/opt/casa/bus.py:259-269 | A running dispatch is cancelled, a queued message flagged for good |
| `Bus.MessageBus.First` | casa/rootfs/opt/casa/bus.py:158-162 | The least priority value, then the earliest sent |
| `Bus.QueueOrder` | casa/rootfs/opt/casa/bus.py:230-232 | The smaller priority goes first, and the earlier sent of equals |
| `Bus.MessageBus.Dequeue` | casa/rootfs/opt/casa/bus.py:380-394 | Equal-priority messages leave in send order; a flagged one gets no task |
| `Bus.MessageBus.Start` | casa/rootfs/opt/casa/bus.py:292-306 | A handler is reached only by a task that was not cancelled before its first step |
| `Bus.MessageBus.Finish` | casa/rootfs/opt/casa/bus.py:304-378 | A request whose body started with a handler is settled on return, None, exception and cancellation |
| `Bus.MessageBus.Respond` | casa/rootfs/opt/casa/bus.py:271-275 | A future is completed at most once |
| `Bus.MessageBus.FailPending` | casa/rootfs/opt/casa/bus.py:194-204 | Nobody waits any more, and completed futures stay as they were |
| `Bus.EvictedBeforeFirstStep` | casa/rootfs/opt/casa/bus.py:304-305 | A task cancelled before its first step leaves its caller waiting |
| `Breaker.RecallBreaker.Allow` | casa/rootfs/opt/casa/agent.py:465-483 | Within a cooldown of opening nothing is admitted, and attempts admitted while open are a cooldown apart even if a probe never reports |
| `Breaker.RecallBreaker.RecordSuccess` | casa/rootfs/opt/casa/agent.py:485-488 | The breaker closes |
| `Breaker.RecallBreaker.RecordFailure` | casa/rootfs/opt/casa/agent.py:490-494 | Open implies failures at or above the threshold, and a failed probe opens it for a full cooldown |
| `Streaming.Turn.Delta` | casa/rootfs/opt/casa/agent.py:1813-1847 | A delta extends the message in flight and emits only what is new |
| `Streaming.Turn.Assistant` | casa/rootfs/opt/casa/agent.py:1898-1923 | The canonical text supersedes the partial one |
| `Streaming.DeltasGrow` | casa/rootfs/opt/casa/agent.py:1813-1847 | The emissions of one message each strictly extend the one before |
| `Streaming.FoldGrows` | casa/rootfs/opt/casa/agent.py:1898-1923 | So does the fold |
| `Streaming.StreamIsFaithful` | casa/rootfs/opt/casa/agent.py:1803-1923 | Over any stream whose deltas add up to a prefix of each message, every emission strictly extends the last and the final text is the non-empty texts joined by blank lines |
| `Streaming.FoldExtendsExactly` | casa/rootfs/opt/casa/agent.py:1898-1923 | A fold extends what was streamed exactly when the partial text is a prefix of the message |
| `Reconcile.Pass.CopyDefault` | casa/rootfs/opt/casa/config_sync.py:581-584 | A copy that works leaves the default; one that fails may leave any bytes |
| `Reconcile.Pass.AtomicWrite` | casa/rootfs/opt/casa/config_sync.py:946-954 | A failed write leaves the old file |
| `Reconcile.Pass.Delete` | casa/rootfs/opt/casa/config_sync.py:587-598 | The file goes, unless the unlink raises; pruning the empty parents may raise after it |
| `Reconcile.Pass.WriteMerge` | casa/rootfs/opt/casa/config_sync.py:764-848 | The proposed text, or the default's bytes when the merge converged on it, or the file as it was |
| `Reconcile.Pass.SalvagedText` | casa/rootfs/opt/casa/config_sync.py:905-932 | The code computes exactly the salvage of the file, or none |
| `Reconcile.SalvageKeeps` | casa/rootfs/opt/casa/config_sync.py:905-932 | A salvage validates, holds exactly the entries that pass alone, and every one the image ships |
| `Reconcile.SalvagedExactly` | casa/rootfs/opt/casa/config_sync.py:905-932 | There is a salvage exactly when the file splits, an entry fails alone, none shipped does, and the rest validates |
| `Reconcile.Pass.WriteSalvage` | casa/rootfs/opt/casa/config_sync.py:946-958 | The salvaged text, or the file as it was and a refusal |
| `Reconcile.Pass.HealErrors` | casa/rootfs/opt/casa/config_sync.py:642-761 | What was re-seeded is dropped; unless that made the validator clean, every merge is then back at the default or refused; an error escapes exactly when such a deletion raises; completing and recording nothing means changing nothing |
| `Reconcile.Pass.ReconcileTree` | casa/rootfs/opt/casa/config_sync.py:1073-1202 | After both loops every path is where the three-way and then the schema put it |
| `CommitGate.Repository.CompareAndSwap` | casa/rootfs/opt/casa/config_git.py:281-282 | HEAD moves only from the commit expected |
| `CommitGate.Repository.Reset` | casa/rootfs/opt/casa/config_git.py:265-280 | The named entries, and only those, become the tree's; a failed reset changes nothing |
| `CommitGate.RefreshesExactly` | casa/rootfs/opt/casa/config_git.py:246-271 | What is refreshed is what the candidate changed and was staged as in the base |
| `Routing.ConsentGate` | casa/rootfs/opt/casa/callback_reconcile.py:270-289 | The routes of a fully acked plugin, or one prompt and one issue for each missing ack |
| `Routing.AddPlugin` | casa/rootfs/opt/casa/callback_reconcile.py:228-306 | One plugin adds exactly what its gates call for to the overlay, the issues, the prompts, the routed list and the keep-set |
| `Markers.Site.Read` | casa/rootfs/opt/casa/callback_reconcile.py:364-373 | A failed read is invalid, never absent, and what is read as present is on disk |
| `Markers.Site.Retire` | casa/rootfs/opt/casa/callback_reconcile.py:437-454 | True only when the entry is gone |
| `Markers.Site.Write` | casa/rootfs/opt/casa/callback_reconcile.py:623-642 | A failure is recorded; the old bytes or the new ones are left |
| `Markers.Site.RetirePair` | casa/rootfs/opt/casa/callback_reconcile.py:547-552 | Both files go unless a delete fails, which is recorded, and no other file is touched |
| `Markers.Site.RetireIfStale` | casa/rootfs/opt/casa/callback_reconcile.py:528-553 | A pair already as wanted is left; any other is withdrawn |
| `Bus.MessageBus.Settle` | casa/rootfs/opt/casa/bus.py:271-275 | A waiting future is completed once, a completed one left |
| `Bus.MessageBus.CancelDispatches` | casa/rootfs/opt/casa/bus.py:149-151 | Exactly the agent's own unfinished dispatches are cancelled |
| `Bus.MessageBus.Enqueue` | casa/rootfs/opt/casa/bus.py:218-233 | A known target's queue gets the message with the next number of the send order, behind every earlier one of its priority; an unknown target drops it |
| `Bus.MessageBus.BeginShutdown` | casa/rootfs/opt/casa/bus.py:189-192 | New requests are refused from then on |

## Left out

- Reading a file: a read that raises is not modelled, only text that does not decode.
- Mapping keys that are not strings: `==` and dict keys are modelled for string keys, and scalar keys of a placeholder document by their value.
- The order of the outcome lists: the source sorts them; their contents are what is proved.
- The order of top-level fields: a parsed mapping is compared without order, as Python compares dicts.
- The visiting order of paths, plugins and store records: any order, which covers the source's.
- `_merge_spec`, the report file, operator notifications and the git plumbing of `RealGit`: prose, constants or I/O.
- Git internals: an index is a map from paths to blobs; modes, hooks and ignore rules beyond a predicate are not modelled.
- YAML merge keys, collection tags and aliases inside one document: documents are unfolded trees of scalars, lists and mappings.
- Routed lists with a repeated plugin name: the registry drops both; the dictionary by plugin keeps the last.
- The parsing of `casa.callbacks`: its naming rules enter as the condition of `Routing.AllOrNothing`.
- Crashes in the middle of a marker pass: stated only as the order of deletions, swap and writes.
- Setup episodes, consent prompts' delivery and the trigger half of the callback reconciler.
- `state_hash`, `meta` and envelope parsing of attempt records; exhaustion notes and removal records, which only send text; the spool's re-opening of a record whose deletion was lost.
- `_interpolate_summary` and the challenge texts: rendering.
- `unregister_and_wait`, `start_agent_loop` and the message log of the bus: bookkeeping around the modelled steps; finished tasks stay in the per-agent set, where cancelling them does nothing.
- Accepted dispatches whose update is lost: the counts are of accepts on record; a lost one is dispatched again, as the source says.
- Timestamps are reals: float rounding and non-finite values are outside the ledger model.
- Telegram, HTTP and SDK handlers: steps that may fail.
