/**
 The three-way over named entries (config_sync.py, `_merge_entries` and `MergeOutcome`).

 `ThreeWay` and `FateOf` say what should happen to one name from three optional values;
 `MergeEntries` is the two-loop code that fills an ordered dict and six outcome lists.
 */
module EntryMerge {
  import opened Documents

  /** The image overrides a local change only when the image itself changed, and never by dropping. */
  function ThreeWay(image: Option<Yaml>, base: Option<Yaml>, live: Option<Yaml>): Option<Yaml> {
    if Alike(live, base) then image
    else if Alike(image, base) then live
    else if image.Some? then image
    else live
  }

  datatype Fate = Absent | TrackedImage | Deleted | KeptLocal | DisplacedLocal | Conflicted | Reinserted

  function FateOf(image: Option<Yaml>, base: Option<Yaml>, live: Option<Yaml>): Fate {
    var imageMoved := !Alike(image, base);
    var localMoved := !Alike(live, base);
    if image.None? && live.None? then Absent
    else if image.None? then (if localMoved then KeptLocal else Deleted)
    else if !localMoved then TrackedImage
    else if !imageMoved then KeptLocal
    else if live.None? then Reinserted
    else if base.None? then DisplacedLocal
    else Conflicted
  }

  function Resolve(image: Entries, base: Entries, live: Entries, n: Name): Option<Yaml> {
    ThreeWay(image.Get(n), base.Get(n), live.Get(n))
  }

  function Fates(image: Entries, base: Entries, live: Entries, n: Name): Fate {
    FateOf(image.Get(n), base.Get(n), live.Get(n))
  }

  function NotIn(image: Entries): Name -> bool {
    n => n !in image.at
  }

  function Survives(image: Entries, base: Entries, live: Entries): Name -> bool {
    n => Resolve(image, base, live, n).Some?
  }

  function Meets(image: Entries, base: Entries, live: Entries, fate: Fate): Name -> bool {
    n => Fates(image, base, live, n) == fate
  }

  /** The names that pass, in order. */
  function Select(names: seq<Name>, keep: Name -> bool): seq<Name> {
    if names == [] then [] else
      var n := names[|names| - 1];
      Select(names[..|names| - 1], keep) + if keep(n) then [n] else []
  }

  lemma SelectSnoc(names: seq<Name>, n: Name, keep: Name -> bool)
    ensures Select(names + [n], keep) == Select(names, keep) + if keep(n) then [n] else []
  {
    assert (names + [n])[..|names + [n]| - 1] == names;
  }

  lemma {:induction false} SelectMembers(names: seq<Name>, keep: Name -> bool)
    ensures forall n :: n in Select(names, keep) <==> n in names && keep(n)
  {
    if names != [] {
      SelectMembers(names[..|names| - 1], keep);
      assert names == names[..|names| - 1] + [names[|names| - 1]];
    }
  }

  lemma {:induction false} SelectDistinct(names: seq<Name>, keep: Name -> bool)
    requires Distinct(names)
    ensures Distinct(Select(names, keep))
  {
    if names != [] {
      SelectDistinct(names[..|names| - 1], keep);
      SelectMembers(names[..|names| - 1], keep);
    }
  }

  lemma {:induction false} SelectAppend(a: seq<Name>, b: seq<Name>, keep: Name -> bool)
    ensures Select(a + b, keep) == Select(a, keep) + Select(b, keep)
  {
    if b == [] {
      assert a + b == a;
    } else {
      assert (a + b)[..|a + b| - 1] == a + b[..|b| - 1];
      SelectAppend(a, b[..|b| - 1], keep);
    }
  }

  lemma {:induction false} SelectAll(names: seq<Name>, keep: Name -> bool)
    requires forall n | n in names :: keep(n)
    ensures Select(names, keep) == names
  {
    if names != [] {
      var init, n := names[..|names| - 1], names[|names| - 1];
      assert names == init + [n] && keep(n);
      SelectAll(init, keep);
    }
  }

  lemma {:induction false} SelectNone(names: seq<Name>, keep: Name -> bool)
    requires forall n | n in names :: !keep(n)
    ensures Select(names, keep) == []
  {
    if names != [] {
      SelectNone(names[..|names| - 1], keep);
    }
  }

  lemma {:induction false} SelectSame(names: seq<Name>, keep: Name -> bool, other: Name -> bool)
    requires forall n | n in names :: keep(n) == other(n)
    ensures Select(names, keep) == Select(names, other)
  {
    if names != [] {
      SelectSame(names[..|names| - 1], keep, other);
    }
  }

  // ---------------------------------------------------------------------------
  // The merged entries: image names in image order, then what only live has, in live order
  // ---------------------------------------------------------------------------

  function LiveOnly(image: Entries, live: Entries): seq<Name> {
    Select(live.names, NotIn(image))
  }

  /** Every name of the image or of live, in the order the two loops meet them. */
  function AllNames(image: Entries, live: Entries): seq<Name> {
    image.names + LiveOnly(image, live)
  }

  function Put(e: Entries, n: Name, y: Yaml): Entries {
    Entries(e.names + [n], e.at[n := y])
  }

  /** The dict after meeting only these names. */
  function Partial(image: Entries, base: Entries, live: Entries, met: seq<Name>): Entries {
    if met == [] then NO_ENTRIES else
      var n := met[|met| - 1];
      var before := Partial(image, base, live, met[..|met| - 1]);
      match Resolve(image, base, live, n)
      case None => before
      case Some(y) => Put(before, n, y)
  }

  lemma {:induction false} PartialLookup(image: Entries, base: Entries, live: Entries, met: seq<Name>)
    ensures var e := Partial(image, base, live, met);
            && e.names == Select(met, Survives(image, base, live))
            && (forall n | n in met :: e.Get(n) == Resolve(image, base, live, n))
            && (forall n | n !in met :: n !in e.at)
  {
    if met != [] {
      var init, n := met[..|met| - 1], met[|met| - 1];
      assert met == init + [n];
      PartialLookup(image, base, live, init);
      PutIf(Partial(image, base, live, init), n, Resolve(image, base, live, n));
    }
  }

  /** The dict with the value put in, if there is one. */
  lemma PutIf(e: Entries, n: Name, y: Option<Yaml>)
    requires n !in e.at || e.Get(n) == y
    ensures var after := match y case None => e case Some(v) => Put(e, n, v);
            && after.Get(n) == y && (forall m | m != n :: after.Get(m) == e.Get(m))
            && after.names == e.names + if y.Some? then [n] else []
  {
  }

  function MergeOf(image: Entries, base: Entries, live: Entries): Entries {
    Partial(image, base, live, AllNames(image, live))
  }

  lemma AllNamesMembers(image: Entries, live: Entries)
    requires image.Valid() && live.Valid()
    ensures Distinct(AllNames(image, live))
    ensures forall n :: n in AllNames(image, live) <==> n in image.at || n in live.at
  {
    SelectMembers(live.names, NotIn(image));
    SelectDistinct(live.names, NotIn(image));
    var only := LiveOnly(image, live);
    forall i, j | 0 <= i < j < |AllNames(image, live)|
      ensures AllNames(image, live)[i] != AllNames(image, live)[j]
    {
      if i < |image.names| <= j {
        assert only[j - |image.names|] in only;
        assert image.names[i] in image.at;
      }
    }
  }

  /**
   Entry merge is a full three-way: looked up by name, the merge is `ThreeWay` of the three
   documents, for every name there is.
   */
  lemma MergeIsThreeWay(image: Entries, base: Entries, live: Entries)
    requires image.Valid() && base.Valid() && live.Valid()
    ensures MergeOf(image, base, live).Valid()
    ensures forall n :: MergeOf(image, base, live).Get(n) == Resolve(image, base, live, n)
  {
    var names := AllNames(image, live);
    AllNamesMembers(image, live);
    PartialLookup(image, base, live, names);
    SelectMembers(names, Survives(image, base, live));
    SelectDistinct(names, Survives(image, base, live));
    var merged := MergeOf(image, base, live);
    forall i | 0 <= i < |merged.names|
      ensures merged.names[i] in merged.at
    {
      assert merged.names[i] in merged.names;
    }
  }

  /** The order of the merged dict: what is kept of the image's names, then of the names only live has. */
  lemma MergeOrder(image: Entries, base: Entries, live: Entries)
    requires image.Valid() && base.Valid() && live.Valid()
    ensures var merged := MergeOf(image, base, live);
      merged.names == Select(image.names, n => n in merged.at) +
                      Select(live.names, n => n !in image.at && n in merged.at)
  {
    var merged := MergeOf(image, base, live);
    var keep, only := Survives(image, base, live), LiveOnly(image, live);
    MergeIsThreeWay(image, base, live);
    PartialLookup(image, base, live, AllNames(image, live));
    SelectAppend(image.names, only, keep);
    forall n
      ensures keep(n) <==> n in merged.at
    {
      assert merged.Get(n) == Resolve(image, base, live, n);
    }
    SelectSame(image.names, keep, n => n in merged.at);
    SelectBoth(live.names, NotIn(image), keep, n => n !in image.at && n in merged.at);
  }

  lemma {:induction false} SelectBoth(names: seq<Name>, first: Name -> bool, second: Name -> bool, both: Name -> bool)
    requires forall n | n in names :: both(n) <==> first(n) && second(n)
    ensures Select(Select(names, first), second) == Select(names, both)
  {
    if names != [] {
      var init, n := names[..|names| - 1], names[|names| - 1];
      assert names == init + [n] && n in names;
      SelectBoth(init, first, second, both);
      if first(n) {
        SelectSnoc(Select(init, first), n, second);
      } else {
        assert Select(init, first) + [] == Select(init, first);
      }
    }
  }

  /** The merge follows whichever side moved, up to Python's `==`, and invents nothing. */
  lemma MergeFollowsTheChange(image: Entries, base: Entries, live: Entries)
    requires image.Valid() && base.Valid() && live.Valid()
    ensures forall n | Alike(live.Get(n), base.Get(n)) :: MergeOf(image, base, live).Get(n) == image.Get(n)
    ensures forall n | Alike(image.Get(n), base.Get(n)) :: Alike(MergeOf(image, base, live).Get(n), live.Get(n))
    ensures forall n | n in image.at && !Alike(image.Get(n), base.Get(n)) ::
              MergeOf(image, base, live).Get(n) == image.Get(n)
    ensures forall n | n !in image.at && !Alike(live.Get(n), base.Get(n)) ::
              MergeOf(image, base, live).Get(n) == live.Get(n)
    ensures forall n | n in MergeOf(image, base, live).at ::
              MergeOf(image, base, live).Get(n) == image.Get(n) || MergeOf(image, base, live).Get(n) == live.Get(n)
  {
    MergeIsThreeWay(image, base, live);
    var merged := MergeOf(image, base, live);
    forall n
      ensures Alike(image.Get(n), base.Get(n)) ==> Alike(merged.Get(n), live.Get(n))
    {
      if live.Get(n).Some? {
        SameReflexive(live.Get(n).value);
      }
      if Alike(image.Get(n), base.Get(n)) && Alike(live.Get(n), base.Get(n)) {
        AlikeSymmetric(live.Get(n), base.Get(n));
        AlikeTransitive(image.Get(n), base.Get(n), live.Get(n));
      }
    }
  }

  /** A second three-way with the baseline at the image changes nothing, types included. */
  lemma ThreeWayAgain(image: Option<Yaml>, base: Option<Yaml>, live: Option<Yaml>)
    ensures ThreeWay(image, image, ThreeWay(image, base, live)) == ThreeWay(image, base, live)
  {
    if !Alike(live, base) && Alike(image, base) {
      AlikeSymmetric(image, base);
      AlikeTransitive(image, base, image);
      if Alike(live, image) {
        AlikeTransitive(live, image, base);
      }
    }
  }

  /** The second merge meets the image's names, then the local ones, both already filtered. */
  lemma MergedLiveOnly(image: Entries, base: Entries, live: Entries)
    requires image.Valid() && base.Valid() && live.Valid()
    ensures LiveOnly(image, MergeOf(image, base, live)) ==
            Select(LiveOnly(image, live), Survives(image, base, live))
  {
    var keep := Survives(image, base, live);
    var only := LiveOnly(image, live);
    PartialLookup(image, base, live, AllNames(image, live));
    SelectAppend(image.names, only, keep);
    SelectAppend(Select(image.names, keep), Select(only, keep), NotIn(image));
    SelectMembers(image.names, keep);
    SelectNone(Select(image.names, keep), NotIn(image));
    SelectMembers(live.names, NotIn(image));
    SelectMembers(only, keep);
    SelectAll(Select(only, keep), NotIn(image));
  }

  /** Merging again once the baseline has caught up with the image gives back the same dict, in order. */
  lemma MergeIdempotent(image: Entries, base: Entries, live: Entries)
    requires image.Valid() && base.Valid() && live.Valid()
    ensures var merged := MergeOf(image, base, live);
            MergeOf(image, image, merged) == merged
  {
    var merged := MergeOf(image, base, live);
    MergeIsThreeWay(image, base, live);
    MergeIsThreeWay(image, image, merged);
    SameNamesAgain(image, base, live);
    forall n
      ensures MergeOf(image, image, merged).Get(n) == merged.Get(n)
    {
      ThreeWayAgain(image.Get(n), base.Get(n), live.Get(n));
    }
    SameLookup(MergeOf(image, image, merged), merged);
  }

  lemma SameNamesAgain(image: Entries, base: Entries, live: Entries)
    requires image.Valid() && base.Valid() && live.Valid()
    ensures var merged := MergeOf(image, base, live);
            MergeOf(image, image, merged).names == merged.names
  {
    var merged := MergeOf(image, base, live);
    var keep, again := Survives(image, base, live), Survives(image, image, merged);
    var only := Select(LiveOnly(image, live), keep);
    SurvivesAgain(image, base, live);
    PartialLookup(image, base, live, AllNames(image, live));
    PartialLookup(image, image, merged, AllNames(image, merged));
    MergedLiveOnly(image, base, live);
    SelectAppend(image.names, LiveOnly(image, live), keep);
    SelectAppend(image.names, only, again);
    SelectSame(image.names, again, keep);
    SelectAll(only, again);
  }

  lemma SurvivesAgain(image: Entries, base: Entries, live: Entries)
    requires image.Valid() && base.Valid() && live.Valid()
    ensures var again := Survives(image, image, MergeOf(image, base, live));
            && (forall n | n in image.names :: again(n) == Survives(image, base, live)(n))
            && (forall n | n in Select(LiveOnly(image, live), Survives(image, base, live)) :: again(n))
  {
    MergeIsThreeWay(image, base, live);
    var keep := Survives(image, base, live);
    SelectMembers(LiveOnly(image, live), keep);
    SelectMembers(live.names, NotIn(image));
    forall n
      ensures Survives(image, image, MergeOf(image, base, live))(n) == keep(n)
    {
      ThreeWayAgain(image.Get(n), base.Get(n), live.Get(n));
    }
  }

  lemma SameLookup(a: Entries, b: Entries)
    requires a.names == b.names && forall n :: a.Get(n) == b.Get(n)
    ensures a == b
  {
    assert forall n :: (n in a.at <==> n in b.at) by {
      forall n ensures n in a.at <==> n in b.at { assert a.Get(n) == b.Get(n); }
    }
    forall n | n in a.at ensures a.at[n] == b.at[n] { assert a.Get(n) == b.Get(n); }
    assert a.at == b.at;
  }

  // ---------------------------------------------------------------------------
  // The outcome lists
  // ---------------------------------------------------------------------------

  datatype MergeOutcome = MergeOutcome(
    trackedImage: seq<Name>, deleted: seq<Name>, keptLocal: seq<Name>,
    displacedLocal: seq<Name>, conflicted: seq<Name>, reinserted: seq<Name>)
  {
    function Names(): multiset<Name> {
      multiset(trackedImage) + multiset(deleted) + multiset(keptLocal) +
      multiset(displacedLocal) + multiset(conflicted) + multiset(reinserted)
    }

    /** Append `n` to the list of its fate. */
    function Report(fate: Fate, n: Name): MergeOutcome {
      match fate
      case Absent => this
      case TrackedImage => this.(trackedImage := trackedImage + [n])
      case Deleted => this.(deleted := deleted + [n])
      case KeptLocal => this.(keptLocal := keptLocal + [n])
      case DisplacedLocal => this.(displacedLocal := displacedLocal + [n])
      case Conflicted => this.(conflicted := conflicted + [n])
      case Reinserted => this.(reinserted := reinserted + [n])
    }

    predicate DestroysLocal() {
      displacedLocal != [] || conflicted != [] || reinserted != []
    }
  }

  function With(image: Entries, base: Entries, live: Entries, names: seq<Name>, fate: Fate): seq<Name> {
    Select(names, Meets(image, base, live, fate))
  }

  const NOTHING_REPORTED := MergeOutcome([], [], [], [], [], [])

  function OutcomeFor(image: Entries, base: Entries, live: Entries, names: seq<Name>): MergeOutcome {
    if names == [] then NOTHING_REPORTED else
      var n := names[|names| - 1];
      OutcomeFor(image, base, live, names[..|names| - 1]).Report(Fates(image, base, live, n), n)
  }

  function OutcomeOf(image: Entries, base: Entries, live: Entries): MergeOutcome {
    OutcomeFor(image, base, live, AllNames(image, live))
  }

  /** Each list holds the names with its fate, in the order they were met. */
  lemma {:induction false} OutcomeLists(image: Entries, base: Entries, live: Entries, names: seq<Name>)
    ensures var out := OutcomeFor(image, base, live, names);
            && out.trackedImage == With(image, base, live, names, TrackedImage)
            && out.deleted == With(image, base, live, names, Deleted)
            && out.keptLocal == With(image, base, live, names, KeptLocal)
            && out.displacedLocal == With(image, base, live, names, DisplacedLocal)
            && out.conflicted == With(image, base, live, names, Conflicted)
            && out.reinserted == With(image, base, live, names, Reinserted)
  {
    if names != [] {
      OutcomeLists(image, base, live, names[..|names| - 1]);
    }
  }

  lemma OutcomeSnoc(image: Entries, base: Entries, live: Entries, names: seq<Name>, n: Name)
    ensures OutcomeFor(image, base, live, names + [n]) ==
            OutcomeFor(image, base, live, names).Report(Fates(image, base, live, n), n)
  {
    assert (names + [n])[..|names + [n]| - 1] == names;
  }

  lemma ReportCounts(out: MergeOutcome, fate: Fate, n: Name)
    requires fate != Absent
    ensures out.Report(fate, n).Names() == out.Names() + multiset{n}
  {
    match fate
    case TrackedImage =>
    case Deleted =>
    case KeptLocal =>
    case DisplacedLocal =>
    case Conflicted =>
    case Reinserted =>
  }

  lemma {:induction false} OutcomePartition(image: Entries, base: Entries, live: Entries, names: seq<Name>)
    requires forall n | n in names :: n in image.at || n in live.at
    ensures OutcomeFor(image, base, live, names).Names() == multiset(names)
  {
    if names != [] {
      var init, n := names[..|names| - 1], names[|names| - 1];
      assert names == init + [n];
      OutcomePartition(image, base, live, init);
      OutcomeSnoc(image, base, live, init, n);
      ReportCounts(OutcomeFor(image, base, live, init), Fates(image, base, live, n), n);
    }
  }

  /** Every name of the image or of live is reported exactly once, in exactly one list. */
  lemma EachNameOnce(image: Entries, base: Entries, live: Entries)
    requires image.Valid() && live.Valid()
    ensures forall n :: OutcomeOf(image, base, live).Names()[n] == if n in image.at || n in live.at then 1 else 0
  {
    var names := AllNames(image, live);
    AllNamesMembers(image, live);
    OutcomePartition(image, base, live, names);
    forall n
      ensures multiset(names)[n] == if n in names then 1 else 0
    {
      OccursOnce(names, n);
    }
  }

  lemma {:induction false} OccursOnce(names: seq<Name>, n: Name)
    requires Distinct(names)
    ensures multiset(names)[n] == if n in names then 1 else 0
  {
    if names != [] {
      var init := names[..|names| - 1];
      assert names == init + [names[|names| - 1]];
      OccursOnce(init, n);
    }
  }

  /** The image still ships a name that changed on both sides since the baseline. */
  predicate BothMoved(image: Entries, base: Entries, live: Entries, n: Name) {
    image.Get(n).Some? && !Alike(image.Get(n), base.Get(n)) && !Alike(live.Get(n), base.Get(n))
  }

  lemma BothMovedFates(image: Entries, base: Entries, live: Entries, n: Name)
    ensures BothMoved(image, base, live, n) <==>
            || Fates(image, base, live, n) == DisplacedLocal
            || Fates(image, base, live, n) == Conflicted
            || Fates(image, base, live, n) == Reinserted
  {
  }

  /** `destroys_local` fires exactly when the image took over a name that had changed on both sides. */
  lemma DestroysLocalExactly(image: Entries, base: Entries, live: Entries)
    requires image.Valid() && base.Valid() && live.Valid()
    ensures OutcomeOf(image, base, live).DestroysLocal() <==> exists n :: BothMoved(image, base, live, n)
  {
    OutcomeLists(image, base, live, AllNames(image, live));
    Reported(image, base, live, DisplacedLocal);
    Reported(image, base, live, Conflicted);
    Reported(image, base, live, Reinserted);
    if n :| BothMoved(image, base, live, n) {
      BothMovedFates(image, base, live, n);
    }
    if OutcomeOf(image, base, live).DestroysLocal() {
      var n :| Fates(image, base, live, n) in {DisplacedLocal, Conflicted, Reinserted};
      BothMovedFates(image, base, live, n);
    }
  }

  /**
   When it does not fire, every local change (an addition, an edit, a deletion) is in the merge.  A
   change is what Python's `==` tells apart: exactly the values it tells apart from the baseline, or
   that the image has too, are kept as they are.
   */
  lemma QuietMergeKeepsLocalChanges(image: Entries, base: Entries, live: Entries)
    requires image.Valid() && base.Valid() && live.Valid()
    requires !OutcomeOf(image, base, live).DestroysLocal()
    ensures forall n :: MergeOf(image, base, live).Get(n) == live.Get(n) <==>
                        !Alike(live.Get(n), base.Get(n)) || image.Get(n) == live.Get(n)
  {
    DestroysLocalExactly(image, base, live);
    MergeIsThreeWay(image, base, live);
    forall n
      ensures MergeOf(image, base, live).Get(n) == live.Get(n) <==>
              !Alike(live.Get(n), base.Get(n)) || image.Get(n) == live.Get(n)
    {
      assert !BothMoved(image, base, live, n);
    }
  }

  /** An entry with one field. */
  function OneField(n: Name, key: string, y: Yaml): Entries {
    Entries([n], map[n := Mapping(map[key := y])])
  }

  /** `minutes: 1` in image and baseline, `minutes: true` locally: the edit goes, and no override is reported. */
  lemma RetypedEditIsLost(n: Name, key: string)
    ensures var shipped, live := OneField(n, key, Int(1)), OneField(n, key, Bool(true));
      && MergeOf(shipped, shipped, live).Get(n) == shipped.Get(n) != live.Get(n)
      && !OutcomeOf(shipped, shipped, live).DestroysLocal()
  {
    var shipped, live := OneField(n, key, Int(1)), OneField(n, key, Bool(true));
    assert Same(Bool(true), Int(1));
    assert Alike(live.Get(n), shipped.Get(n));
    MergeIsThreeWay(shipped, shipped, live);
    DestroysLocalExactly(shipped, shipped, live);
    assert Bool(true) != Int(1);
    assert map[key := Bool(true)][key] != map[key := Int(1)][key];
    forall m
      ensures !BothMoved(shipped, shipped, live, m)
    {
    }
  }

  /** Each list, from the three dicts: who has the name, and which sides `==` tells from the baseline. */
  lemma ListsExactly(image: Entries, base: Entries, live: Entries, n: Name)
    requires image.Valid() && base.Valid() && live.Valid()
    ensures var out := OutcomeOf(image, base, live);
      var tracked := n in live.at && n in base.at && Same(live.at[n], base.at[n]);
      var idle := n in image.at && n in base.at && Same(image.at[n], base.at[n]);
      && (n in out.trackedImage <==> n in image.at && (tracked || (n !in live.at && n !in base.at)))
      && (n in out.deleted <==> n !in image.at && tracked)
      && (n in out.keptLocal <==>
            || (n in image.at && idle && !tracked)
            || (n !in image.at && n in live.at && !tracked))
      && (n in out.displacedLocal <==> n in image.at && n in live.at && n !in base.at)
      && (n in out.conflicted <==> n in image.at && n in live.at && n in base.at && !tracked && !idle)
      && (n in out.reinserted <==> n in image.at && n !in live.at && n in base.at && !idle)
  {
    OutcomeLists(image, base, live, AllNames(image, live));
    ListedExactly(image, base, live, TrackedImage, n);
    ListedExactly(image, base, live, Deleted, n);
    ListedExactly(image, base, live, KeptLocal, n);
    ListedExactly(image, base, live, DisplacedLocal, n);
    ListedExactly(image, base, live, Conflicted, n);
    ListedExactly(image, base, live, Reinserted, n);
  }

  lemma Reported(image: Entries, base: Entries, live: Entries, fate: Fate)
    requires image.Valid() && live.Valid() && fate != Absent
    ensures With(image, base, live, AllNames(image, live), fate) != [] <==>
            exists n :: Fates(image, base, live, n) == fate
  {
    var listed := With(image, base, live, AllNames(image, live), fate);
    if listed != [] {
      ListedExactly(image, base, live, fate, listed[0]);
    }
    if n :| Fates(image, base, live, n) == fate {
      ListedExactly(image, base, live, fate, n);
    }
  }

  lemma ListedExactly(image: Entries, base: Entries, live: Entries, fate: Fate, n: Name)
    requires image.Valid() && live.Valid() && fate != Absent
    ensures n in With(image, base, live, AllNames(image, live), fate) <==> Fates(image, base, live, n) == fate
  {
    AllNamesMember(image, live, n);
    SelectMembers(AllNames(image, live), Meets(image, base, live, fate));
  }

  lemma AllNamesMember(image: Entries, live: Entries, n: Name)
    requires image.Valid() && live.Valid()
    ensures n in AllNames(image, live) <==> n in image.at || n in live.at
  {
    AllNamesMembers(image, live);
  }

  // ---------------------------------------------------------------------------
  // The code
  // ---------------------------------------------------------------------------

  /** `_merge_entries`.  The source sorts the six lists afterwards; their contents are what is proved. */
  method MergeEntries(image: Entries, base: Entries, live: Entries)
      returns (merged: Entries, out: MergeOutcome)
    requires image.Valid() && base.Valid() && live.Valid()
    ensures merged == MergeOf(image, base, live) && out == OutcomeOf(image, base, live)
    ensures merged.Valid() && forall n :: merged.Get(n) == Resolve(image, base, live, n)
  {
    merged, out := MergeImageNames(image, base, live);
    LiveStart(image, live);
    merged, out := MergeLiveNames(image, base, live, merged, out);
    MergeIsThreeWay(image, base, live);
  }

  /** Its first loop: every name the image ships. */
  method MergeImageNames(image: Entries, base: Entries, live: Entries) returns (merged: Entries, out: MergeOutcome)
    requires image.Valid() && base.Valid() && live.Valid()
    ensures Done(image, base, live, image.names[..|image.names|], merged, out)
  {
    merged, out := NO_ENTRIES, NOTHING_REPORTED;
    for i := 0 to |image.names|
      invariant Done(image, base, live, image.names[..i], merged, out)
    {
      var n := image.names[i];
      ImageStep(image, base, live, i, merged, out);
      AlikeSymmetric(base.Get(n), image.Get(n));
      var imageEntry := image.at[n];
      if n !in live.at {
        if n !in base.at {
          merged := Put(merged, n, imageEntry);
          out := out.Report(TrackedImage, n);
        } else if Same(base.at[n], imageEntry) {
          out := out.Report(KeptLocal, n);
        } else {
          merged := Put(merged, n, imageEntry);
          out := out.Report(Reinserted, n);
        }
        continue;
      }
      if n !in base.at {
        merged := Put(merged, n, imageEntry);
        out := out.Report(DisplacedLocal, n);
      } else if Same(live.at[n], base.at[n]) {
        merged := Put(merged, n, imageEntry);
        out := out.Report(TrackedImage, n);
      } else if Same(imageEntry, base.at[n]) {
        merged := Put(merged, n, live.at[n]);
        out := out.Report(KeptLocal, n);
      } else {
        merged := Put(merged, n, imageEntry);
        out := out.Report(Conflicted, n);
      }
    }
  }

  /** Its second loop: the names only live has. */
  method MergeLiveNames(image: Entries, base: Entries, live: Entries, merged0: Entries, out0: MergeOutcome)
      returns (merged: Entries, out: MergeOutcome)
    requires image.Valid() && base.Valid() && live.Valid()
    requires Done(image, base, live, Met(image, live, 0), merged0, out0)
    ensures Done(image, base, live, Met(image, live, |live.names|), merged, out)
  {
    merged, out := merged0, out0;
    for i := 0 to |live.names|
      invariant Done(image, base, live, Met(image, live, i), merged, out)
    {
      var n := live.names[i];
      LiveStep(image, base, live, i, merged, out);
      if n in image.at {
        continue;
      }
      if n !in base.at {
        merged := Put(merged, n, live.at[n]);
        out := out.Report(KeptLocal, n);
      } else if Same(live.at[n], base.at[n]) {
        out := out.Report(Deleted, n);
      } else {
        merged := Put(merged, n, live.at[n]);
        out := out.Report(KeptLocal, n);
      }
    }
  }

  /** The names met when the second loop has looked at `i` names of live. */
  function Met(image: Entries, live: Entries, i: nat): seq<Name>
    requires i <= |live.names|
  {
    image.names + Select(live.names[..i], NotIn(image))
  }

  /** The dict and the lists hold exactly what the names met so far call for. */
  ghost predicate Done(image: Entries, base: Entries, live: Entries, met: seq<Name>,
                       merged: Entries, out: MergeOutcome) {
    && merged == Partial(image, base, live, met)
    && out == OutcomeFor(image, base, live, met)
  }

  lemma PartialSnoc(image: Entries, base: Entries, live: Entries, met: seq<Name>, n: Name)
    ensures var r := Resolve(image, base, live, n);
            var merged := Partial(image, base, live, met);
            Partial(image, base, live, met + [n]) == if r.Some? then Put(merged, n, r.value) else merged
  {
    assert (met + [n])[..|met + [n]| - 1] == met;
  }

  /** The dict and the lists after one more name. */
  ghost predicate Next(image: Entries, base: Entries, live: Entries, met: seq<Name>, n: Name,
                       merged: Entries, out: MergeOutcome) {
    var r := Resolve(image, base, live, n);
    Done(image, base, live, met,
         if r.Some? then Put(merged, n, r.value) else merged,
         out.Report(Fates(image, base, live, n), n))
  }

  lemma DoneStep(image: Entries, base: Entries, live: Entries, met: seq<Name>, n: Name,
                 merged: Entries, out: MergeOutcome)
    requires Done(image, base, live, met, merged, out)
    ensures Next(image, base, live, met + [n], n, merged, out)
  {
    PartialSnoc(image, base, live, met, n);
    OutcomeSnoc(image, base, live, met, n);
  }

  lemma ImageStep(image: Entries, base: Entries, live: Entries, i: nat, merged: Entries, out: MergeOutcome)
    requires i < |image.names| && Done(image, base, live, image.names[..i], merged, out)
    ensures Next(image, base, live, image.names[..i + 1], image.names[i], merged, out)
  {
    DoneStep(image, base, live, image.names[..i], image.names[i], merged, out);
    assert image.names[..i] + [image.names[i]] == image.names[..i + 1];
  }

  lemma LiveStart(image: Entries, live: Entries)
    ensures Met(image, live, 0) == image.names[..|image.names|]
    ensures Met(image, live, |live.names|) == AllNames(image, live)
  {
    assert live.names[..|live.names|] == live.names;
  }

  lemma LiveStep(image: Entries, base: Entries, live: Entries, i: nat, merged: Entries, out: MergeOutcome)
    requires i < |live.names| && Done(image, base, live, Met(image, live, i), merged, out)
    ensures live.names[i] in image.at ==> Done(image, base, live, Met(image, live, i + 1), merged, out)
    ensures live.names[i] !in image.at ==>
              Next(image, base, live, Met(image, live, i + 1), live.names[i], merged, out)
  {
    var n := live.names[i];
    MetStep(image, live, i);
    if n in image.at {
      assert Met(image, live, i) + [] == Met(image, live, i);
    } else {
      DoneStep(image, base, live, Met(image, live, i), n, merged, out);
    }
  }

  lemma MetStep(image: Entries, live: Entries, i: nat)
    requires i < |live.names|
    ensures Met(image, live, i + 1) == Met(image, live, i) + if live.names[i] in image.at then [] else [live.names[i]]
  {
    assert live.names[..i + 1] == live.names[..i] + [live.names[i]];
    SelectSnoc(live.names[..i], live.names[i], NotIn(image));
  }
}
