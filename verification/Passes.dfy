/**
 Whole passes and runs of passes (config_sync.py, `reconcile`, `_mirror_baseline`).

 `RunPass` gives the contract of one pass over values; `RunTwice` runs the same image twice; the
 rest follows one locally added entry through any sequence of images.
 */
module Passes {
  import opened Documents
  import opened EntryMerge
  import opened FileMerge
  import opened Newlines
  import opened Reconcile

  datatype PassResult = PassResult(
    ok: bool,                      // false: an exception ended the pass
    live: Tree, baseline: Tree, sidecars: Tree,
    preSync: Snapshot,
    refused: set<Path>, healed: set<Path>,
    unheld: set<Path>)             // refused paths whose baseline could not be kept

  /** The content can be got back after the pass. */
  predicate Recoverable(img: Image, r: PassResult, p: Path, original: Content) {
    || (r.preSync.Taken? && At(r.preSync.tree, p) == Some(original))
    || (p in r.sidecars && Copies(r.sidecars[p], original))
    || At(img.defaults, p) == Some(original)
  }

  /** Byte-exact recovery, which a text-mode sidecar gives exactly to files without a carriage return. */
  lemma RecoverableExactly(img: Image, r: PassResult, p: Path, original: Content)
    requires Recoverable(img, r, p, original)
    ensures '\r' !in original.bytes ==>
              || (r.preSync.Taken? && At(r.preSync.tree, p) == Some(original))
              || At(r.sidecars, p) == Some(original)
              || At(img.defaults, p) == Some(original)
    ensures ReadText(original) == original <==> '\r' !in original.bytes
  {
    TextCopyExact(original);
  }

  /** A validator that answers the same whenever it is asked. */
  ghost predicate Steady(v: Option<Validator>) {
    v.Some? ==> forall t, u, tree :: v.value(t, tree) == v.value(u, tree)
  }

  /** The live tree at a boot, and the state after a pass that healed nothing and held every refused baseline. */
  datatype Stage = Stage(img: Image, boot: Tree, live: Tree, baseline: Tree, refused: set<Path>)

  ghost predicate Completes(baseline: Tree, s: Stage) {
    && (forall p :: Reached(s.img, p, At(s.boot, p), At(baseline, p), p in s.refused, At(s.live, p)))
    && (forall p | p !in s.refused :: At(s.baseline, p) == At(s.img.defaults, p))
    && (forall p | p in s.refused :: At(s.baseline, p) == At(baseline, p))
  }

  /** `reconcile`: what one pass guarantees, whatever fails in it. */
  method RunPass(img: Image, gitAvailable: bool, validateRepo: Option<Validator>, onDelete: Path -> Deletion,
                 live: Tree, baseline: Tree, sidecars: Tree) returns (r: PassResult)
    requires img.Agrees()
    // Aborted or not: an edited file that no longer holds its starting bytes is recoverable.
    ensures forall p | p in live && At(baseline, p) != Some(live[p]) && At(r.live, p) != Some(live[p]) ::
              Recoverable(img, r, p, live[p])
    // The baseline moves to the image, except where the pass refused.
    ensures r.ok ==> forall p | p !in r.refused :: At(r.baseline, p) == At(img.defaults, p)
    ensures r.ok ==> forall p | p in r.refused && p !in r.unheld :: At(r.baseline, p) == At(baseline, p)
    // A refused file that was left alone meets the same decision next time.
    ensures r.ok ==> forall p | p in r.refused && p !in r.unheld && At(r.live, p) == At(live, p) ::
              img.Decide(p, At(r.live, p), At(r.baseline, p)) == img.Decide(p, At(live, p), At(baseline, p))
    // Missing and untouched paths follow the image; edits stay where it has nothing new; else merge or image.
    ensures r.ok && r.healed == {} ==> FollowsImage(img, live, baseline, r.live)
    ensures r.ok && r.healed == {} ==> KeepsEdits(img, live, baseline, r.live)
    ensures r.ok && r.healed == {} ==> ImageWins(img, live, baseline, r.live)
    // Every path is where the three-way and then the schema put it.
    ensures r.ok && r.healed == {} ==>
              forall p :: Reached(img, p, At(live, p), At(baseline, p), p in r.refused, At(r.live, p))
    ensures r.ok && r.healed == {} && r.unheld == {} ==>
              Completes(baseline, Stage(img, live, r.live, r.baseline, r.refused))
    ensures r.ok && r.healed == {} && r.refused == {} ==> Settled(img, r.live) && r.baseline == img.defaults
    ensures r.ok && r.healed == {} && validateRepo.Some? ==>
              NothingToHeal(validateRepo.value(0, r.live), r.live, img.defaults)
    // A settled tree is left exactly as it is.
    ensures baseline == img.defaults && Settled(img, live) &&
            (validateRepo.Some? ==> NothingToHeal(validateRepo.value(0, live), live, img.defaults)) ==>
              r.live == live && r.sidecars == sidecars && r.refused == {} && r.healed == {} &&
              (r.ok ==> r.baseline == baseline)
  {
    var pass := new Pass(img, gitAvailable, validateRepo, onDelete, live, baseline, sidecars);
    var ok := pass.Reconcile();
    r := PassResult(ok, pass.live, pass.baseline, pass.sidecars, pass.preSync, pass.refused, pass.healed, pass.unheld);
    forall p | p in live && At(baseline, p) != Some(live[p]) && At(r.live, p) != Some(live[p])
      ensures Recoverable(img, r, p, live[p])
    {
      assert pass.Edited(p) && !pass.Kept(p);
    }
    if r.ok && r.healed == {} {
      TreesEnd(img, live, baseline, r.refused, r.live);
    }
  }

  /** What was missing is seeded, and what was untouched gets the image's bytes or goes with them. */
  ghost predicate FollowsImage(img: Image, live: Tree, baseline: Tree, after: Tree) {
    forall p | p !in live || (p in baseline && live[p] == baseline[p]) ::
      (p in after <==> p in img.defaults) && (p in after ==> after[p] == img.defaults[p])
  }

  /** What was edited stays where the image ships nothing, or nothing new, unless it is shipped and invalid. */
  ghost predicate KeepsEdits(img: Image, live: Tree, baseline: Tree, after: Tree) {
    forall p | p in live && (p !in baseline || live[p] != baseline[p]) && !Superseded(img, p, live, baseline) ::
      p in after && after[p] == live[p]
  }

  ghost predicate Superseded(img: Image, p: Path, live: Tree, baseline: Tree)
    requires p in live
  {
    && p in img.defaults && live[p] != img.defaults[p]
    && (!img.codec.validFile(p, live[p]) || (p in baseline && baseline[p] != img.defaults[p]))
  }

  /** Where both sides changed and the three files do not merge, the image wins. */
  ghost predicate ImageWins(img: Image, live: Tree, baseline: Tree, after: Tree) {
    forall p | && p in live && p in baseline && p in img.defaults
               && live[p] != baseline[p] && baseline[p] != img.defaults[p]
               && NotMergeable(img, p, live[p], baseline[p], img.defaults[p]) ::
      p in after && after[p] == img.defaults[p]
  }

  lemma TreesEnd(img: Image, live: Tree, baseline: Tree, refused: set<Path>, after: Tree)
    requires forall p :: Reached(img, p, At(live, p), At(baseline, p), p in refused, At(after, p))
    ensures FollowsImage(img, live, baseline, after) && KeepsEdits(img, live, baseline, after)
    ensures ImageWins(img, live, baseline, after)
  {
    forall p | p !in live || (p in baseline && live[p] == baseline[p])
      ensures (p in after <==> p in img.defaults) && (p in after ==> after[p] == img.defaults[p])
    {
      PathEnds(img, p, At(live, p), At(baseline, p), p in refused, At(after, p));
    }
    forall p | p in live && (p !in baseline || live[p] != baseline[p]) && !Superseded(img, p, live, baseline)
      ensures p in after && after[p] == live[p]
    {
      PathEnds(img, p, At(live, p), At(baseline, p), p in refused, At(after, p));
    }
    forall p | && p in live && p in baseline && p in img.defaults
               && live[p] != baseline[p] && baseline[p] != img.defaults[p]
               && NotMergeable(img, p, live[p], baseline[p], img.defaults[p])
      ensures p in after && after[p] == img.defaults[p]
    {
      PathEnds(img, p, At(live, p), At(baseline, p), p in refused, At(after, p));
    }
  }

  /** A second pass of the same image changes nothing once the first refused and healed nothing. */
  method RunTwice(img: Image, gitAvailable: bool, validateRepo: Option<Validator>,
                  onDelete: Path -> Deletion, onDeleteAgain: Path -> Deletion,
                  live: Tree, baseline: Tree, sidecars: Tree) returns (first: PassResult, second: PassResult)
    requires img.Agrees() && Steady(validateRepo)
    ensures first.ok && first.refused == {} && first.healed == {} ==>
              second.live == first.live && second.sidecars == first.sidecars &&
              second.refused == {} && second.healed == {} &&
              (second.ok ==> second.baseline == first.baseline)
  {
    first := RunPass(img, gitAvailable, validateRepo, onDelete, live, baseline, sidecars);
    second := RunPass(img, gitAvailable, validateRepo, onDeleteAgain, first.live, first.baseline, first.sidecars);
  }

  // ---------------------------------------------------------------------------
  // A locally added entry, over any sequence of images
  // ---------------------------------------------------------------------------

  ghost function EntryIn(codec: Codec, spec: MergeSpec, c: Content, n: Name): Option<Yaml> {
    var d := EntryDocOf(codec, ReadText(c), spec);
    if d.None? then None else d.value.entries.Get(n)
  }

  /** A file every merge can read and that does not carry the name. */
  ghost predicate Without(codec: Codec, spec: MergeSpec, c: Option<Content>, n: Name) {
    c.Some? ==> codec.decodes(c.value) && EntryDocOf(codec, ReadText(c.value), spec).Some? &&
                EntryIn(codec, spec, c.value, n) == None
  }

  ghost predicate Holds(codec: Codec, spec: MergeSpec, c: Option<Content>, n: Name, v: Yaml) {
    c.Some? && codec.decodes(c.value) && EntryIn(codec, spec, c.value, n) == Some(v)
  }

  /** This document is dumped as a text that reads back as it, and that a later merge accepts. */
  ghost predicate ReadsBack(codec: Codec, y: Yaml) {
    && codec.parse(codec.dump(y)) == Some(y) && !codec.lonePlaceholder(codec.dump(y))
    && codec.decodes(codec.dump(y)) && ReadText(codec.dump(y)) == codec.dump(y)
  }

  /** The document `_dump` writes. */
  function DocumentOf(spec: MergeSpec, topLevel: map<string, Yaml>, e: Entries): Yaml
    requires e.Valid()
  {
    Mapping(topLevel[spec.listKey := List(e.Values())])
  }

  /** Under one of the two top levels the entries validate; the document first tried that does reads back. */
  ghost predicate ComposesWhole(codec: Codec, p: Path, spec: MergeSpec, l: EntryDoc, s: EntryDoc, merged: Entries)
    requires merged.Valid()
  {
    if codec.validText(p, Dump(codec, spec, l.topLevel, merged))
    then ReadsBack(codec, DocumentOf(spec, l.topLevel, merged))
    else
      && TopLevelsDiffer(l, s) && codec.validText(p, Dump(codec, spec, s.topLevel, merged))
      && ReadsBack(codec, DocumentOf(spec, s.topLevel, merged))
  }

  /** All images share the YAML library; only their schemas differ. */
  ghost predicate SameLibrary(a: Codec, b: Codec) {
    a.decodes == b.decodes && a.lonePlaceholder == b.lonePlaceholder && a.parse == b.parse && a.dump == b.dump
  }

  /** The merge of these three files composes without dropping anything, into a document that reads back. */
  ghost predicate Composes(img: Image, p: Path, spec: MergeSpec, live: Content, base: Content, shipped: Content) {
    var l := EntryDocOf(img.codec, ReadText(live), spec);
    var s := EntryDocOf(img.codec, ReadText(shipped), spec);
    var b := EntryDocOf(img.codec, ReadText(base), spec);
    l.Some? && s.Some? && b.Some? ==>
      var merged := MergeOf(s.value.entries, b.value.entries, l.value.entries);
      merged.Valid() ==> ComposesWhole(img.codec, p, spec, l.value, s.value, merged)
  }

  /** The image leaves the name alone, the file stays mergeable and everything validates. */
  ghost predicate Friendly(img: Image, codec: Codec, p: Path, spec: MergeSpec, n: Name, live: Tree, baseline: Tree) {
    && img.Agrees() && SameLibrary(img.codec, codec)
    && img.textChecks && img.specOf(p) == Some(spec)
    && Without(codec, spec, At(img.defaults, p), n)
    && (p in live ==> img.codec.validFile(p, live[p]))
    && (p in live && p in baseline && p in img.defaults && img.defaults[p] != baseline[p] &&
        live[p] != img.defaults[p] ==>
          !img.mergeRaises(p, live[p], baseline[p], img.defaults[p]) &&
          Composes(img, p, spec, live[p], baseline[p], img.defaults[p]))
  }

  lemma SameEntryDoc(a: Codec, b: Codec, c: Content, spec: MergeSpec)
    requires SameLibrary(a, b)
    ensures EntryDocOf(a, c, spec) == EntryDocOf(b, c, spec)
  {
  }

  /** The merge case: the composed text, or the untouched file, still carries the entry. */
  lemma MergeKeepsEntry(img: Image, codec: Codec, p: Path, spec: MergeSpec, n: Name, v: Yaml,
                        live: Content, base: Content, shipped: Content)
    requires SameLibrary(img.codec, codec)
    requires Holds(codec, spec, Some(live), n, v)
    requires Without(codec, spec, Some(base), n) && Without(codec, spec, Some(shipped), n)
    requires Composes(img, p, spec, live, base, shipped)
    ensures var r := ComposedFiles(img.codec, p, spec, live, shipped, base);
            r.Some? &&
            (r.value.text.Some? ==>
               !r.value.copyDefault && img.codec.validText(p, r.value.text.value) &&
               Holds(codec, spec, r.value.text, n, v))
  {
    var liveText, baseText, shippedText := ReadText(live), ReadText(base), ReadText(shipped);
    SameEntryDoc(img.codec, codec, liveText, spec);
    SameEntryDoc(img.codec, codec, baseText, spec);
    SameEntryDoc(img.codec, codec, shippedText, spec);
    EntryDocValid(codec, liveText, spec);
    EntryDocValid(codec, baseText, spec);
    EntryDocValid(codec, shippedText, spec);
    var l := EntryDocOf(codec, liveText, spec).value;
    var b := EntryDocOf(codec, baseText, spec).value;
    var s := EntryDocOf(codec, shippedText, spec).value;
    var merged := MergeOf(s.entries, b.entries, l.entries);
    MergeIsThreeWay(s.entries, b.entries, l.entries);
    assert merged.Get(n) == Resolve(s.entries, b.entries, l.entries, n) == Some(v);
    MergedIdentities(codec, spec, liveText, baseText, shippedText);
    ChoiceReadsBack(img, codec, p, spec, l, s, merged);
    var c := Choose(img.codec, p, spec, l, s, merged).value;
    if SameDocument(img.codec, c.text, shippedText) {
      // The shipped file would carry the entry too.
      SameEntries(codec, c.text, shippedText, spec, n);
      assert false;
    }
  }

  /** A document that composes whole is chosen whole, and reads back as the merge. */
  lemma ChoiceReadsBack(img: Image, codec: Codec, p: Path, spec: MergeSpec, l: EntryDoc, s: EntryDoc, merged: Entries)
    requires SameLibrary(img.codec, codec) && merged.Valid() && ComposesWhole(img.codec, p, spec, l, s, merged)
    requires forall m | m in merged.at :: Identity(merged.at[m], spec.identityKey) == Some(m)
    ensures var c := Choose(img.codec, p, spec, l, s, merged);
            c.Some? && c.value.dropped == [] && img.codec.validText(p, c.value.text) &&
            codec.decodes(c.value.text) && !codec.lonePlaceholder(c.value.text) &&
            ReadText(c.value.text) == c.value.text &&
            EntryDocOf(codec, c.value.text, spec).Some? &&
            EntryDocOf(codec, c.value.text, spec).value.entries == merged
  {
    var top := TopLevel(l, s, !img.codec.validText(p, Dump(img.codec, spec, l.topLevel, merged)));
    DumpReadsBack(codec, spec, top, merged);
  }

  /** Two texts that Python calls the same document carry the same entries, up to `==`. */
  lemma SameEntries(codec: Codec, a: Content, b: Content, spec: MergeSpec, n: Name)
    requires SameDocument(codec, a, b)
    requires EntryDocOf(codec, a, spec).Some? && EntryDocOf(codec, b, spec).Some?
    ensures Alike(EntryDocOf(codec, a, spec).value.entries.Get(n), EntryDocOf(codec, b, spec).value.entries.Get(n))
  {
    var ya, yb := codec.parse(a).value.fields[spec.listKey], codec.parse(b).value.fields[spec.listKey];
    assert Same(ya, yb);
    SameItems(ya.items, yb.items, spec.identityKey, n);
  }

  lemma SameItems(xs: seq<Yaml>, ys: seq<Yaml>, key: string, n: Name)
    requires |xs| == |ys| && forall i | 0 <= i < |xs| :: Same(xs[i], ys[i])
    requires EntriesOf(xs, key).Some? && EntriesOf(ys, key).Some?
    ensures Alike(EntriesOf(xs, key).value.Get(n), EntriesOf(ys, key).value.Get(n))
  {
    EntriesOfSound(xs, key);
    EntriesOfSound(ys, key);
    var ex, ey := EntriesOf(xs, key).value, EntriesOf(ys, key).value;
    forall i | 0 <= i < |xs|
      ensures ex.names[i] == ey.names[i]
    {
      SameIdentity(xs[i], ys[i], key);
    }
    assert ex.names == ey.names;
    if n in ex.at {
      assert n in ex.names;
      var i :| 0 <= i < |ex.names| && ex.names[i] == n;
      assert ex.at[n] == xs[i] && ey.at[n] == ys[i];
    } else {
      assert n !in ex.names;
    }
  }

  lemma SameIdentity(x: Yaml, y: Yaml, key: string)
    requires Same(x, y) && Identity(x, key).Some?
    ensures Identity(y, key) == Identity(x, key)
  {
    assert Same(x.fields[key], y.fields[key]);
  }

  lemma MergedIdentities(codec: Codec, spec: MergeSpec, liveText: Content, baseText: Content, shippedText: Content)
    requires EntryDocOf(codec, liveText, spec).Some? && EntryDocOf(codec, baseText, spec).Some? &&
             EntryDocOf(codec, shippedText, spec).Some?
    ensures var merged := MergeOf(EntryDocOf(codec, shippedText, spec).value.entries,
                                  EntryDocOf(codec, baseText, spec).value.entries,
                                  EntryDocOf(codec, liveText, spec).value.entries);
            forall m | m in merged.at :: Identity(merged.at[m], spec.identityKey) == Some(m)
  {
    EntryDocValid(codec, liveText, spec);
    EntryDocValid(codec, baseText, spec);
    EntryDocValid(codec, shippedText, spec);
    EntryDocIdentities(codec, liveText, spec);
    EntryDocIdentities(codec, shippedText, spec);
    var l := EntryDocOf(codec, liveText, spec).value.entries;
    var b := EntryDocOf(codec, baseText, spec).value.entries;
    var s := EntryDocOf(codec, shippedText, spec).value.entries;
    MergeIsThreeWay(s, b, l);
    forall m | m in MergeOf(s, b, l).at
      ensures Identity(MergeOf(s, b, l).at[m], spec.identityKey) == Some(m)
    {
      assert MergeOf(s, b, l).Get(m) == Resolve(s, b, l, m);
    }
  }

  /** For such a file the pass either leaves it alone or merges it, and a merge keeps the entry. */
  lemma {:induction false} DecisionKeepsEntry(img: Image, codec: Codec, p: Path, spec: MergeSpec, n: Name, v: Yaml,
                           live: Content, base: Option<Content>)
    requires SameLibrary(img.codec, codec) && img.textChecks && img.specOf(p) == Some(spec)
    requires Holds(codec, spec, Some(live), n, v)
    requires Without(codec, spec, base, n) && Without(codec, spec, At(img.defaults, p), n)
    requires base.Some? && p in img.defaults && img.defaults[p] != base.value && live != img.defaults[p] ==>
               !img.mergeRaises(p, live, base.value, img.defaults[p]) &&
               Composes(img, p, spec, live, base.value, img.defaults[p])
    ensures match img.Decide(p, Some(live), base)
            case Skip => true
            case Merge(r) => r.text.Some? ==>
              !r.copyDefault && img.codec.validText(p, r.text.value) && Holds(codec, spec, r.text, n, v)
            case _ => false
  {
    if base.Some? {
      Differ(codec, spec, n, v, live, base.value);
      if p in img.defaults && img.defaults[p] != base.value && live != img.defaults[p] {
        MergeKeepsEntry(img, codec, p, spec, n, v, live, base.value, img.defaults[p]);
      }
    }
  }

  /** A file that carries the entry is not one without the name. */
  lemma Differ(codec: Codec, spec: MergeSpec, n: Name, v: Yaml, live: Content, base: Content)
    requires Holds(codec, spec, Some(live), n, v) && Without(codec, spec, Some(base), n)
    ensures live != base
  {
  }

  // ---------------------------------------------------------------------------
  // What a merge delivers
  // ---------------------------------------------------------------------------

  /** Both sides of the path changed, the three files split into entries, and their merge composes whole. */
  ghost predicate Merges(img: Image, p: Path, spec: MergeSpec, live: Content, base: Content, shipped: Content) {
    && img.Agrees() && img.textChecks && img.specOf(p) == Some(spec) && !img.mergeRaises(p, live, base, shipped)
    && live != base && base != shipped && live != shipped && img.codec.validFile(p, live)
    && Splits(img.codec, spec, live) && Splits(img.codec, spec, base) && Splits(img.codec, spec, shipped)
    && Composes(img, p, spec, live, base, shipped)
  }

  ghost predicate Splits(codec: Codec, spec: MergeSpec, c: Content) {
    codec.decodes(c) && EntryDocOf(codec, ReadText(c), spec).Some?
  }

  /** What the merge makes of three files: a result, and what its text, if any, carries under every name. */
  lemma MergeDelivers(img: Image, p: Path, spec: MergeSpec, live: Content, base: Content, shipped: Content, n: Name)
    requires Merges(img, p, spec, live, base, shipped)
    ensures var r := ComposedFiles(img.codec, p, spec, live, shipped, base);
      var result := ThreeWay(EntryIn(img.codec, spec, shipped, n), EntryIn(img.codec, spec, base, n),
                             EntryIn(img.codec, spec, live, n));
      && r.Some?
      && (r.value.text.None? ==> Alike(EntryIn(img.codec, spec, live, n), result))
      && (r.value.copyDefault ==> Alike(EntryIn(img.codec, spec, shipped, n), result))
      && (r.value.text.Some? ==> EntryIn(img.codec, spec, r.value.text.value, n) == result)
      && (r.value.text.Some? ==> img.codec.validText(p, r.value.text.value))
  {
    var codec := img.codec;
    var liveText, baseText, shippedText := ReadText(live), ReadText(base), ReadText(shipped);
    EntryDocValid(codec, liveText, spec);
    EntryDocValid(codec, baseText, spec);
    EntryDocValid(codec, shippedText, spec);
    var l := EntryDocOf(codec, liveText, spec).value;
    var b := EntryDocOf(codec, baseText, spec).value;
    var s := EntryDocOf(codec, shippedText, spec).value;
    var merged := MergeOf(s.entries, b.entries, l.entries);
    MergeIsThreeWay(s.entries, b.entries, l.entries);
    MergedIdentities(codec, spec, liveText, baseText, shippedText);
    ChoiceReadsBack(img, codec, p, spec, l, s, merged);
    var c := Choose(codec, p, spec, l, s, merged).value;
    assert EntryDocOf(codec, c.text, spec).value.entries.Get(n) == merged.Get(n);
    if SameDocument(codec, c.text, liveText) {
      SameEntries(codec, c.text, liveText, spec, n);
      AlikeSymmetric(merged.Get(n), l.entries.Get(n));
    } else if SameDocument(codec, c.text, shippedText) {
      SameEntries(codec, c.text, shippedText, spec, n);
      AlikeSymmetric(merged.Get(n), s.entries.Get(n));
    }
  }

  /** A completed pass that did not refuse the file leaves the three-way under every name, up to `==`. */
  lemma PassMergesEveryName(p: Path, spec: MergeSpec, n: Name, baseline: Tree, s: Stage)
    requires Completes(baseline, s) && p in s.boot && p in baseline && p in s.img.defaults && p !in s.refused
    requires Merges(s.img, p, spec, s.boot[p], baseline[p], s.img.defaults[p])
    ensures p in s.live
    ensures Alike(EntryIn(s.img.codec, spec, s.live[p], n),
                  ThreeWay(EntryIn(s.img.codec, spec, s.img.defaults[p], n), EntryIn(s.img.codec, spec, baseline[p], n),
                           EntryIn(s.img.codec, spec, s.boot[p], n)))
  {
    assert Reached(s.img, p, At(s.boot, p), At(baseline, p), p in s.refused, At(s.live, p));
    MergeDelivers(s.img, p, spec, s.boot[p], baseline[p], s.img.defaults[p], n);
    MergeEnds(s.img, p, s.boot[p], baseline[p], At(s.live, p));
    AlikeReflexive(EntryIn(s.img.codec, spec, s.live[p], n));
  }

  /** So an entry new in the image, or changed there and untouched here, arrives; one changed only here stays. */
  lemma ChangedEntriesArrive(p: Path, spec: MergeSpec, n: Name, baseline: Tree, s: Stage)
    requires Completes(baseline, s) && p in s.boot && p in baseline && p in s.img.defaults && p !in s.refused
    requires Merges(s.img, p, spec, s.boot[p], baseline[p], s.img.defaults[p])
    ensures p in s.live
    ensures var codec := s.img.codec;
      var shipped, base := EntryIn(codec, spec, s.img.defaults[p], n), EntryIn(codec, spec, baseline[p], n);
      var live, after := EntryIn(codec, spec, s.boot[p], n), EntryIn(codec, spec, s.live[p], n);
      && (shipped.Some? && base.None? ==> Alike(after, shipped))
      && (Alike(live, base) ==> Alike(after, shipped))
      && (!Alike(live, base) && Alike(shipped, base) ==> Alike(after, live))
  {
    PassMergesEveryName(p, spec, n, baseline, s);
  }

  /** One pass keeps the entry, and leaves a baseline that still does not carry the name. */
  lemma PassKeepsEntry(codec: Codec, p: Path, spec: MergeSpec, n: Name, v: Yaml, baseline: Tree, s: Stage)
    requires Friendly(s.img, codec, p, spec, n, s.boot, baseline) && Completes(baseline, s)
    requires Holds(codec, spec, At(s.boot, p), n, v) && Without(codec, spec, At(baseline, p), n)
    ensures Holds(codec, spec, At(s.live, p), n, v) && Without(codec, spec, At(s.baseline, p), n)
  {
    DecisionKeepsEntry(s.img, codec, p, spec, n, v, s.boot[p], At(baseline, p));
    assert Reached(s.img, p, At(s.boot, p), At(baseline, p), p in s.refused, At(s.live, p));
  }

  /**
   A run: each pass completes under a friendly image from the baseline the one before it left.  The
   live tree may change in any way between two boots, as long as the entry is not touched.
   */
  ghost predicate Run(codec: Codec, p: Path, spec: MergeSpec, n: Name, v: Yaml,
                      live: Tree, baseline: Tree, stages: seq<Stage>)
    decreases |stages|
  {
    stages == [] ||
    (&& (Holds(codec, spec, At(live, p), n, v) ==> Holds(codec, spec, At(stages[0].boot, p), n, v))
     && Completes(baseline, stages[0])
     && Friendly(stages[0].img, codec, p, spec, n, stages[0].boot, baseline)
     && Run(codec, p, spec, n, v, stages[0].live, stages[0].baseline, stages[1..]))
  }

  /**
   Over any sequence of images and clean passes, an entry added locally under a name no image
   ships keeps its value.  An image may drop the file and a later one ship it again.
   */
  lemma {:induction false} LocalEntrySurvives(codec: Codec, p: Path, spec: MergeSpec, n: Name, v: Yaml,
                                              live: Tree, baseline: Tree, stages: seq<Stage>)
    requires Run(codec, p, spec, n, v, live, baseline, stages)
    requires Holds(codec, spec, At(live, p), n, v) && Without(codec, spec, At(baseline, p), n)
    ensures forall i | 0 <= i < |stages| :: Holds(codec, spec, At(stages[i].live, p), n, v)
    decreases |stages|
  {
    if stages != [] {
      var s, rest := stages[0], stages[1..];
      PassKeepsEntry(codec, p, spec, n, v, baseline, s);
      LocalEntrySurvives(codec, p, spec, n, v, s.live, s.baseline, rest);
      assert forall i | 0 < i < |stages| :: stages[i] == rest[i - 1];
    }
  }
}
