/**
 Composing one merge-eligible file (config_sync.py, `_merge_file` and `MergeResult`).

 `MergeFile` is the code: compose under the live top level, then under the default's, then drop
 the local entries that fail on their own.  `Composed` is what it computes, as a function, and the
 lemmas say what any text it proposes is worth.
 */
module FileMerge {
  import opened Documents
  import opened EntryMerge
  import opened Newlines

  datatype MergeResult = MergeResult(
    outcome: MergeOutcome,
    entries: Entries,             // the entries of the chosen document
    dropped: seq<Name>,
    text: Option<Content>,        // what to write; None = nothing to apply
    copyDefault: bool,            // write the default's bytes instead
    topLevelChanged: bool)
  {
    predicate OverrodeLocal() {
      outcome.DestroysLocal() || dropped != [] || topLevelChanged
    }
  }

  /** The document chosen: its text and entries, the names left out, and whether under the default's top level. */
  datatype Choice = Choice(text: Content, entries: Entries, dropped: seq<Name>, underDefault: bool)

  /** `new.top_level != live.top_level`. */
  predicate TopLevelsDiffer(live: EntryDoc, image: EntryDoc) {
    !Same(Mapping(image.topLevel), Mapping(live.topLevel))
  }

  function TopLevel(live: EntryDoc, image: EntryDoc, underDefault: bool): map<string, Yaml> {
    if underDefault then image.topLevel else live.topLevel
  }

  /** A document holding only this entry. */
  function Alone(n: Name, y: Yaml): (e: Entries)
    ensures e.Valid()
  {
    Entries([n], map[n := y])
  }

  predicate ValidAlone(codec: Codec, rel: Path, spec: MergeSpec, top: map<string, Yaml>, e: Entries, n: Name) {
    n in e.at && codec.validText(rel, Dump(codec, spec, top, Alone(n, e.at[n])))
  }

  function Passing(codec: Codec, rel: Path, spec: MergeSpec, top: map<string, Yaml>, e: Entries): Name -> bool {
    n => ValidAlone(codec, rel, spec, top, e, n)
  }

  function Failing(codec: Codec, rel: Path, spec: MergeSpec, top: map<string, Yaml>, e: Entries): Name -> bool {
    n => !ValidAlone(codec, rel, spec, top, e, n)
  }

  /** The entries of `e` among `names` that pass, in that order. */
  function Only(e: Entries, names: seq<Name>, keep: Name -> bool): Entries {
    if names == [] then NO_ENTRIES else
      var n := names[|names| - 1];
      var before := Only(e, names[..|names| - 1], keep);
      if n in e.at && keep(n) then Put(before, n, e.at[n]) else before
  }

  lemma OnlySnoc(e: Entries, names: seq<Name>, n: Name, keep: Name -> bool)
    ensures Only(e, names + [n], keep) ==
            if n in e.at && keep(n) then Put(Only(e, names, keep), n, e.at[n]) else Only(e, names, keep)
  {
    assert (names + [n])[..|names + [n]| - 1] == names;
  }

  lemma {:induction false} OnlyLookup(e: Entries, names: seq<Name>, keep: Name -> bool)
    requires Distinct(names) && forall i | 0 <= i < |names| :: names[i] in e.at
    ensures Only(e, names, keep).Valid()
    ensures forall n :: Only(e, names, keep).Get(n) == if n in names && keep(n) then Some(e.at[n]) else None
  {
    if names != [] {
      var init, n := names[..|names| - 1], names[|names| - 1];
      assert names == init + [n];
      OnlyLookup(e, init, keep);
      assert Only(e, init, keep).Get(n) == None;
      if keep(n) {
        ValidSnoc(Only(e, init, keep), n, e.at[n]);
      }
    }
  }

  lemma OnlyValid(e: Entries, keep: Name -> bool)
    requires e.Valid()
    ensures Only(e, e.names, keep).Valid()
    ensures forall n :: Only(e, e.names, keep).Get(n) == if n in e.at && keep(n) then Some(e.at[n]) else None
  {
    OnlyLookup(e, e.names, keep);
  }

  /**
   Leave out the entries that fail alone under `top`.  None when one of them is shipped by the
   image, when none fails, or when what is left still does not validate.
   */
  function Salvage(codec: Codec, rel: Path, spec: MergeSpec, top: map<string, Yaml>,
                   e: Entries, image: Entries): (r: Option<Choice>)
    requires e.Valid()
  {
    var kept := Only(e, e.names, Passing(codec, rel, spec, top, e));
    var dropped := Select(e.names, Failing(codec, rel, spec, top, e));
    OnlyValid(e, Passing(codec, rel, spec, top, e));
    var text := Dump(codec, spec, top, kept);
    if (exists i :: 0 <= i < |dropped| && dropped[i] in image.at) || dropped == [] || !codec.validText(rel, text)
    then None
    else Some(Choice(text, kept, dropped, false))
  }

  function Choose(codec: Codec, rel: Path, spec: MergeSpec,
                  live: EntryDoc, image: EntryDoc, merged: Entries): Option<Choice>
    requires merged.Valid()
  {
    var underLive := Dump(codec, spec, live.topLevel, merged);
    var underImage := Dump(codec, spec, image.topLevel, merged);
    if codec.validText(rel, underLive) then
      Some(Choice(underLive, merged, [], false))
    else if TopLevelsDiffer(live, image) && codec.validText(rel, underImage) then
      Some(Choice(underImage, merged, [], true))
    else
      Salvage(codec, rel, spec, live.topLevel, merged, image.entries)
  }

  function Composed(codec: Codec, rel: Path, spec: MergeSpec,
                    liveText: Content, imageText: Content, baseText: Content): Option<MergeResult> {
    EntryDocValid(codec, liveText, spec);
    EntryDocValid(codec, imageText, spec);
    EntryDocValid(codec, baseText, spec);
    var live := EntryDocOf(codec, liveText, spec);
    var image := EntryDocOf(codec, imageText, spec);
    var base := EntryDocOf(codec, baseText, spec);
    if live.None? || image.None? || base.None? then None else
      var merged := MergeOf(image.value.entries, base.value.entries, live.value.entries);
      MergeIsThreeWay(image.value.entries, base.value.entries, live.value.entries);
      match Choose(codec, rel, spec, live.value, image.value, merged)
      case None => None
      case Some(c) =>
        var same := SameDocument(codec, c.text, liveText);
        Some(MergeResult(
          OutcomeOf(image.value.entries, base.value.entries, live.value.entries),
          c.entries, c.dropped,
          if same then None else Some(c.text),
          !same && SameDocument(codec, c.text, imageText),
          c.underDefault))
  }

  /** The same over three files: read as text, or not merged at all. */
  function ComposedFiles(codec: Codec, rel: Path, spec: MergeSpec,
                         liveFile: Content, imageFile: Content, baseFile: Content): Option<MergeResult> {
    if codec.decodes(liveFile) && codec.decodes(imageFile) && codec.decodes(baseFile)
    then Composed(codec, rel, spec, ReadText(liveFile), ReadText(imageFile), ReadText(baseFile))
    else None
  }

  method SalvageEntries(codec: Codec, rel: Path, spec: MergeSpec, top: map<string, Yaml>, e: Entries, image: Entries)
      returns (r: Option<Choice>)
    requires e.Valid()
    ensures r == Salvage(codec, rel, spec, top, e, image)
  {
    var refused, kept, dropped := SortEntries(codec, rel, spec, top, e, image);
    if refused || dropped == [] {
      return None;
    }
    OnlyValid(e, Passing(codec, rel, spec, top, e));
    var candidate := Dump(codec, spec, top, kept);
    if !codec.validText(rel, candidate) {
      return None;
    }
    return Some(Choice(candidate, kept, dropped, false));
  }

  /** Its loop: each entry validated alone; one the image ships may not fail. */
  method SortEntries(codec: Codec, rel: Path, spec: MergeSpec, top: map<string, Yaml>, e: Entries, image: Entries)
      returns (refused: bool, kept: Entries, dropped: seq<Name>)
    requires e.Valid()
    ensures refused ==> Salvage(codec, rel, spec, top, e, image) == None
    ensures !refused ==>
              Sorted(e, e.names, Passing(codec, rel, spec, top, e), Failing(codec, rel, spec, top, e), kept, dropped)
    ensures !refused ==> forall k | 0 <= k < |dropped| :: dropped[k] !in image.at
  {
    ghost var pass, fail := Passing(codec, rel, spec, top, e), Failing(codec, rel, spec, top, e);
    kept, dropped := NO_ENTRIES, [];
    for i := 0 to |e.names|
      invariant Sorted(e, e.names[..i], pass, fail, kept, dropped)
      invariant forall k | 0 <= k < |dropped| :: dropped[k] !in image.at
    {
      var n := e.names[i];
      SalvageStep(e, i, pass, fail, kept, dropped);
      if codec.validText(rel, Dump(codec, spec, top, Alone(n, e.at[n]))) {
        kept := Put(kept, n, e.at[n]);
      } else if n in image.at {
        SalvageRefused(codec, rel, spec, top, e, image, n);
        return true, kept, dropped;
      } else {
        dropped := dropped + [n];
      }
    }
    assert e.names[..|e.names|] == e.names;
    refused := false;
  }

  /** An image-shipped entry that fails alone refuses the salvage. */
  lemma SalvageRefused(codec: Codec, rel: Path, spec: MergeSpec, top: map<string, Yaml>,
                       e: Entries, image: Entries, n: Name)
    requires e.Valid() && n in e.names && n in image.at && Failing(codec, rel, spec, top, e)(n)
    ensures Salvage(codec, rel, spec, top, e, image) == None
  {
    SelectMembers(e.names, Failing(codec, rel, spec, top, e));
  }

  /** The names met so far: those that pass with their entries, those that fail by name. */
  ghost predicate Sorted(e: Entries, met: seq<Name>, pass: Name -> bool, fail: Name -> bool,
                         kept: Entries, dropped: seq<Name>) {
    kept == Only(e, met, pass) && dropped == Select(met, fail)
  }

  lemma SalvageStep(e: Entries, i: nat, pass: Name -> bool, fail: Name -> bool, kept: Entries, dropped: seq<Name>)
    requires e.Valid() && i < |e.names| && pass(e.names[i]) != fail(e.names[i])
    requires Sorted(e, e.names[..i], pass, fail, kept, dropped)
    ensures var n := e.names[i];
            if pass(n) then Sorted(e, e.names[..i + 1], pass, fail, Put(kept, n, e.at[n]), dropped)
            else Sorted(e, e.names[..i + 1], pass, fail, kept, dropped + [n])
  {
    var n := e.names[i];
    assert e.names[..i + 1] == e.names[..i] + [n];
    OnlySnoc(e, e.names[..i], n, pass);
    SelectSnoc(e.names[..i], n, fail);
  }

  /** Try the live top level, then the default's; then salvage. */
  method ChooseDocument(codec: Codec, rel: Path, spec: MergeSpec, live: EntryDoc, image: EntryDoc, merged: Entries)
      returns (chosen: Option<Choice>)
    requires merged.Valid()
    ensures chosen == Choose(codec, rel, spec, live, image, merged)
  {
    var candidates := [live.topLevel];
    if TopLevelsDiffer(live, image) {
      candidates := candidates + [image.topLevel];
    }
    for i := 0 to |candidates|
      invariant forall k | 0 <= k < i :: !codec.validText(rel, Dump(codec, spec, candidates[k], merged))
    {
      var candidate := Dump(codec, spec, candidates[i], merged);
      if codec.validText(rel, candidate) {
        assert i == 1 ==> !codec.validText(rel, Dump(codec, spec, candidates[0], merged));
        return Some(Choice(candidate, merged, [], i == 1));
      }
    }
    assert candidates[0] == live.topLevel;
    assert TopLevelsDiffer(live, image) ==> candidates[1] == image.topLevel;
    chosen := SalvageEntries(codec, rel, spec, live.topLevel, merged, image.entries);
  }

  /** `_merge_file`, over the three files it reads. */
  method MergeFile(codec: Codec, rel: Path, spec: MergeSpec,
                   liveFile: Content, imageFile: Content, baseFile: Content) returns (r: Option<MergeResult>)
    ensures r == ComposedFiles(codec, rel, spec, liveFile, imageFile, baseFile)
  {
    if !(codec.decodes(liveFile) && codec.decodes(imageFile) && codec.decodes(baseFile)) {
      return None;
    }
    var liveText, imageText, baseText := ReadText(liveFile), ReadText(imageFile), ReadText(baseFile);
    var live := ParseEntryDoc(codec, liveText, spec);
    var image := ParseEntryDoc(codec, imageText, spec);
    var base := ParseEntryDoc(codec, baseText, spec);
    if live.None? || image.None? || base.None? {
      return None;
    }
    var merged, outcome := MergeEntries(image.value.entries, base.value.entries, live.value.entries);
    var chosen := ChooseDocument(codec, rel, spec, live.value, image.value, merged);
    if chosen.None? {
      return None;
    }
    var c := chosen.value;
    var result := MergeResult(outcome, c.entries, c.dropped, None, false, c.underDefault);
    if SameDocument(codec, c.text, liveText) {
      return Some(result);
    }
    return Some(result.(text := Some(c.text), copyDefault := SameDocument(codec, c.text, imageText)));
  }

  // ---------------------------------------------------------------------------
  // What a proposal is worth
  // ---------------------------------------------------------------------------

  lemma SalvageSound(codec: Codec, rel: Path, spec: MergeSpec, top: map<string, Yaml>, e: Entries, image: Entries)
    requires e.Valid() && Salvage(codec, rel, spec, top, e, image).Some?
    ensures var c := Salvage(codec, rel, spec, top, e, image).value;
            && c.entries.Valid() && !c.underDefault && c.dropped != []
            && c.text == Dump(codec, spec, top, c.entries) && codec.validText(rel, c.text)
            && (forall n :: c.entries.Get(n) == if n in c.dropped then None else e.Get(n))
            && (forall n | n in c.dropped ::
                  n in e.at && n !in image.at && !ValidAlone(codec, rel, spec, top, e, n))
  {
    OnlyValid(e, Passing(codec, rel, spec, top, e));
    SelectMembers(e.names, Failing(codec, rel, spec, top, e));
    var dropped := Select(e.names, Failing(codec, rel, spec, top, e));
    forall n | n in dropped
      ensures n !in image.at && n in e.at
    {
      var i :| 0 <= i < |dropped| && dropped[i] == n;
    }
  }

  /** The document chosen validates, and differs from the merge only by entries that fail alone. */
  ghost predicate Sound(codec: Codec, rel: Path, spec: MergeSpec,
                        live: EntryDoc, image: EntryDoc, merged: Entries, c: Choice) {
    && c.entries.Valid() && (c.underDefault ==> TopLevelsDiffer(live, image))
    && c.text == Dump(codec, spec, TopLevel(live, image, c.underDefault), c.entries) && codec.validText(rel, c.text)
    && (forall n :: c.entries.Get(n) == if n in c.dropped then None else merged.Get(n))
    && (forall n | n in c.dropped ::
          n in merged.at && n !in image.entries.at &&
          !ValidAlone(codec, rel, spec, live.topLevel, merged, n))
  }

  lemma ChoiceSound(codec: Codec, rel: Path, spec: MergeSpec, live: EntryDoc, image: EntryDoc, merged: Entries)
    requires merged.Valid() && Choose(codec, rel, spec, live, image, merged).Some?
    ensures Sound(codec, rel, spec, live, image, merged, Choose(codec, rel, spec, live, image, merged).value)
  {
    if codec.validText(rel, Dump(codec, spec, live.topLevel, merged)) {
    } else if TopLevelsDiffer(live, image) && codec.validText(rel, Dump(codec, spec, image.topLevel, merged)) {
    } else {
      SalvageSound(codec, rel, spec, live.topLevel, merged, image.entries);
    }
  }

  /**
   Whatever `_merge_file` proposes validates, keeps every image-shipped entry the three-way kept,
   and leaves out only non-image entries that fail validation alone; with no local override
   reported, every local change is in what it composed.
   */
  lemma ProposalSound(codec: Codec, rel: Path, spec: MergeSpec,
                      liveText: Content, imageText: Content, baseText: Content)
    requires Composed(codec, rel, spec, liveText, imageText, baseText).Some?
    ensures var r := Composed(codec, rel, spec, liveText, imageText, baseText).value;
            var live := EntryDocOf(codec, liveText, spec);
            var image := EntryDocOf(codec, imageText, spec);
            var base := EntryDocOf(codec, baseText, spec);
            && live.Some? && image.Some? && base.Some?
            && r.entries.Valid()
            && (r.text.Some? ==> codec.validText(rel, r.text.value))
            && (r.text.Some? ==> exists top :: r.text.value == Dump(codec, spec, top, r.entries))
            && (forall n :: r.entries.Get(n) ==
                  if n in r.dropped then None
                  else Resolve(image.value.entries, base.value.entries, live.value.entries, n))
            && (forall n | n in r.dropped ::
                  n !in image.value.entries.at &&
                  Resolve(image.value.entries, base.value.entries, live.value.entries, n).Some? &&
                  !codec.validText(rel, Dump(codec, spec, live.value.topLevel,
                    Alone(n, Resolve(image.value.entries, base.value.entries, live.value.entries, n).value))))
            && (r.OverrodeLocal() <==>
                  || r.dropped != [] || r.topLevelChanged
                  || exists n :: BothMoved(image.value.entries, base.value.entries, live.value.entries, n))
            && (!r.OverrodeLocal() ==>
                  forall n | !Alike(live.value.entries.Get(n), base.value.entries.Get(n)) ::
                    r.entries.Get(n) == live.value.entries.Get(n))
  {
    EntryDocValid(codec, liveText, spec);
    EntryDocValid(codec, imageText, spec);
    EntryDocValid(codec, baseText, spec);
    var live := EntryDocOf(codec, liveText, spec).value;
    var image := EntryDocOf(codec, imageText, spec).value;
    var base := EntryDocOf(codec, baseText, spec).value;
    var merged := MergeOf(image.entries, base.entries, live.entries);
    MergeIsThreeWay(image.entries, base.entries, live.entries);
    ChoiceSound(codec, rel, spec, live, image, merged);
    var r := Composed(codec, rel, spec, liveText, imageText, baseText).value;
    DestroysLocalExactly(image.entries, base.entries, live.entries);
    if !r.OverrodeLocal() {
      QuietMergeKeepsLocalChanges(image.entries, base.entries, live.entries);
    }
  }

  /** `_same_document` of a text with one that splits into entries. */
  predicate ReadsAs(codec: Codec, a: Content, b: Content) {
    codec.parse(a).Some? && codec.parse(b).Some? && Same(codec.parse(a).value, codec.parse(b).value)
  }

  /**
   What is proposed, exactly: the composed document, under the default's top level if that is
   reported; nothing when it is the live document already, and the default's bytes when it is that one.
   */
  lemma ProposesExactly(codec: Codec, rel: Path, spec: MergeSpec,
                        liveText: Content, imageText: Content, baseText: Content)
    requires Composed(codec, rel, spec, liveText, imageText, baseText).Some?
    ensures var r := Composed(codec, rel, spec, liveText, imageText, baseText).value;
            var live, image := EntryDocOf(codec, liveText, spec), EntryDocOf(codec, imageText, spec);
            && live.Some? && image.Some? && r.entries.Valid()
            && var top := if r.topLevelChanged then image.value.topLevel else live.value.topLevel;
            var text := Dump(codec, spec, top, r.entries);
            && codec.validText(rel, text)
            && r.text == (if ReadsAs(codec, text, liveText) then None else Some(text))
            && (r.copyDefault <==> !ReadsAs(codec, text, liveText) && ReadsAs(codec, text, imageText))
  {
    EntryDocValid(codec, liveText, spec);
    EntryDocValid(codec, imageText, spec);
    EntryDocValid(codec, baseText, spec);
    var live := EntryDocOf(codec, liveText, spec).value;
    var image := EntryDocOf(codec, imageText, spec).value;
    var base := EntryDocOf(codec, baseText, spec).value;
    var merged := MergeOf(image.entries, base.entries, live.entries);
    MergeIsThreeWay(image.entries, base.entries, live.entries);
    ChoiceText(codec, rel, spec, live, image, merged);
    var c := Choose(codec, rel, spec, live, image, merged).value;
    ReadsAsExactly(codec, c.text, liveText, spec);
    ReadsAsExactly(codec, c.text, imageText, spec);
  }

  lemma ChoiceText(codec: Codec, rel: Path, spec: MergeSpec, live: EntryDoc, image: EntryDoc, merged: Entries)
    requires merged.Valid() && Choose(codec, rel, spec, live, image, merged).Some?
    ensures var c := Choose(codec, rel, spec, live, image, merged).value;
      && c.entries.Valid() && codec.validText(rel, c.text)
      && c.text == Dump(codec, spec, if c.underDefault then image.topLevel else live.topLevel, c.entries)
  {
    ChoiceSound(codec, rel, spec, live, image, merged);
  }

  lemma ReadsAsExactly(codec: Codec, a: Content, b: Content, spec: MergeSpec)
    requires EntryDocOf(codec, b, spec).Some?
    ensures ReadsAs(codec, a, b) <==> SameDocument(codec, a, b)
  {
  }

  /**
   When there is a proposal: the merge whole, under the live top level, or else under the default's; or
   else without the entries that fail alone, if none of those is shipped and what is left validates.
   */
  lemma ProposesWhen(codec: Codec, rel: Path, spec: MergeSpec,
                     liveText: Content, imageText: Content, baseText: Content)
    ensures var r := Composed(codec, rel, spec, liveText, imageText, baseText);
            var live, image, base := EntryDocOf(codec, liveText, spec), EntryDocOf(codec, imageText, spec),
                                     EntryDocOf(codec, baseText, spec);
            if live.None? || image.None? || base.None? then r.None?
            else
              var merged := MergeOf(image.value.entries, base.value.entries, live.value.entries);
              && merged.Valid()
              && (if codec.validText(rel, Dump(codec, spec, live.value.topLevel, merged))
                  then r.Some? && !r.value.topLevelChanged && r.value.dropped == [] && r.value.entries == merged
                  else if && !Same(Mapping(image.value.topLevel), Mapping(live.value.topLevel))
                          && codec.validText(rel, Dump(codec, spec, image.value.topLevel, merged))
                  then r.Some? && r.value.topLevelChanged && r.value.dropped == [] && r.value.entries == merged
                  else
                    && (r.Some? ==> !r.value.topLevelChanged && r.value.dropped != [])
                    && (r.Some? <==> SalvageWorks(codec, rel, spec, live.value.topLevel, merged, image.value.entries)))
  {
    EntryDocValid(codec, liveText, spec);
    EntryDocValid(codec, imageText, spec);
    EntryDocValid(codec, baseText, spec);
    var live, image, base := EntryDocOf(codec, liveText, spec), EntryDocOf(codec, imageText, spec),
                             EntryDocOf(codec, baseText, spec);
    if live.Some? && image.Some? && base.Some? {
      var merged := MergeOf(image.value.entries, base.value.entries, live.value.entries);
      MergeIsThreeWay(image.value.entries, base.value.entries, live.value.entries);
      SalvageExactly(codec, rel, spec, live.value.topLevel, merged, image.value.entries);
      if Salvage(codec, rel, spec, live.value.topLevel, merged, image.value.entries).Some? {
        SalvageSound(codec, rel, spec, live.value.topLevel, merged, image.value.entries);
      }
    }
  }

  /** Some entry fails alone, none of the image's does, and the others validate together. */
  ghost predicate SalvageWorks(codec: Codec, rel: Path, spec: MergeSpec, top: map<string, Yaml>,
                               e: Entries, image: Entries)
    requires e.Valid()
  {
    && (exists n :: n in e.at && !codec.validText(rel, Dump(codec, spec, top, Alone(n, e.at[n]))))
    && (forall n | n in e.at && n in image.at :: codec.validText(rel, Dump(codec, spec, top, Alone(n, e.at[n]))))
    && exists kept: Entries ::
         && kept.Valid() && codec.validText(rel, Dump(codec, spec, top, kept))
         && kept.names == Select(e.names, Passing(codec, rel, spec, top, e))
         && (forall n | n in kept.at :: n in e.at && kept.at[n] == e.at[n])
  }

  lemma SalvageExactly(codec: Codec, rel: Path, spec: MergeSpec, top: map<string, Yaml>, e: Entries, image: Entries)
    requires e.Valid()
    ensures Salvage(codec, rel, spec, top, e, image).Some? <==> SalvageWorks(codec, rel, spec, top, e, image)
  {
    if SalvageWorks(codec, rel, spec, top, e, image) {
      SalvageIf(codec, rel, spec, top, e, image);
    }
    if Salvage(codec, rel, spec, top, e, image).Some? {
      SalvageOnlyIf(codec, rel, spec, top, e, image);
    }
  }

  lemma DroppedExactly(codec: Codec, rel: Path, spec: MergeSpec, top: map<string, Yaml>, e: Entries, n: Name)
    requires e.Valid()
    ensures n in Select(e.names, Failing(codec, rel, spec, top, e)) <==>
            n in e.at && !codec.validText(rel, Dump(codec, spec, top, Alone(n, e.at[n])))
  {
    SelectMembers(e.names, Failing(codec, rel, spec, top, e));
  }

  lemma SalvageIf(codec: Codec, rel: Path, spec: MergeSpec, top: map<string, Yaml>, e: Entries, image: Entries)
    requires e.Valid() && SalvageWorks(codec, rel, spec, top, e, image)
    ensures Salvage(codec, rel, spec, top, e, image).Some?
  {
    var pass, fail := Passing(codec, rel, spec, top, e), Failing(codec, rel, spec, top, e);
    var n :| n in e.at && !codec.validText(rel, Dump(codec, spec, top, Alone(n, e.at[n])));
    DroppedExactly(codec, rel, spec, top, e, n);
    var dropped := Select(e.names, fail);
    forall i | 0 <= i < |dropped|
      ensures dropped[i] !in image.at
    {
      DroppedExactly(codec, rel, spec, top, e, dropped[i]);
    }
    KeptUnique(codec, rel, spec, top, e);
  }

  /** Whatever validates with the passing names and the values of `e` is what the salvage keeps. */
  lemma KeptUnique(codec: Codec, rel: Path, spec: MergeSpec, top: map<string, Yaml>, e: Entries)
    requires e.Valid() && exists kept: Entries ::
      && kept.Valid() && codec.validText(rel, Dump(codec, spec, top, kept))
      && kept.names == Select(e.names, Passing(codec, rel, spec, top, e))
      && (forall n | n in kept.at :: n in e.at && kept.at[n] == e.at[n])
    ensures var kept := Only(e, e.names, Passing(codec, rel, spec, top, e));
      kept.Valid() && codec.validText(rel, Dump(codec, spec, top, kept))
  {
    var pass := Passing(codec, rel, spec, top, e);
    var other: Entries :|
      && other.Valid() && codec.validText(rel, Dump(codec, spec, top, other))
      && other.names == Select(e.names, pass) && (forall n | n in other.at :: n in e.at && other.at[n] == e.at[n]);
    OnlyValid(e, pass);
    OnlyNames(e, e.names, pass);
    var kept := Only(e, e.names, pass);
    forall n | n in other.at && n in kept.at
      ensures other.at[n] == kept.at[n]
    {
      assert kept.Get(n) == Some(e.at[n]);
    }
    SameByNames(other, kept);
  }

  lemma SalvageOnlyIf(codec: Codec, rel: Path, spec: MergeSpec, top: map<string, Yaml>, e: Entries, image: Entries)
    requires e.Valid() && Salvage(codec, rel, spec, top, e, image).Some?
    ensures SalvageWorks(codec, rel, spec, top, e, image)
  {
    var pass := Passing(codec, rel, spec, top, e);
    var dropped := Select(e.names, Failing(codec, rel, spec, top, e));
    DroppedExactly(codec, rel, spec, top, e, dropped[0]);
    forall n | n in e.at && n in image.at
      ensures codec.validText(rel, Dump(codec, spec, top, Alone(n, e.at[n])))
    {
      DroppedExactly(codec, rel, spec, top, e, n);
    }
    OnlyValid(e, pass);
    OnlyNames(e, e.names, pass);
    var kept := Only(e, e.names, pass);
    forall n | n in kept.at
      ensures n in e.at && kept.at[n] == e.at[n]
    {
      assert kept.Get(n) == Some(kept.at[n]);
    }
  }

  lemma {:induction false} OnlyNames(e: Entries, names: seq<Name>, keep: Name -> bool)
    requires forall i | 0 <= i < |names| :: names[i] in e.at
    ensures Only(e, names, keep).names == Select(names, keep)
  {
    if names != [] {
      OnlyNames(e, names[..|names| - 1], keep);
    }
  }

  lemma SameByNames(a: Entries, b: Entries)
    requires a.Valid() && b.Valid() && a.names == b.names
    requires forall n | n in a.at && n in b.at :: a.at[n] == b.at[n]
    ensures a == b
  {
    forall n
      ensures n in a.at <==> n in b.at
    {
      assert n in a.at ==> n in a.names;
      assert n in b.at ==> n in b.names;
    }
    assert a.at == b.at;
  }

  lemma ProposalValidates(codec: Codec, rel: Path, spec: MergeSpec,
                          liveFile: Content, imageFile: Content, baseFile: Content)
    ensures var r := ComposedFiles(codec, rel, spec, liveFile, imageFile, baseFile);
            r.Some? && r.value.text.Some? ==> codec.validText(rel, r.value.text.value)
  {
    if ComposedFiles(codec, rel, spec, liveFile, imageFile, baseFile).Some? {
      ProposalSound(codec, rel, spec, ReadText(liveFile), ReadText(imageFile), ReadText(baseFile));
    }
  }
}
