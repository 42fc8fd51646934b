/**
 The paired marker transaction of the callback reconciler (callback_reconcile.py), over a spool
 whose every operation may fail: a failed write may leave the old bytes or the new ones, a failed
 delete may or may not have removed the entry, and a read may report a good marker as invalid.
 */
module Markers {
  import opened Acks
  import opened Routing

  /** The two kinds of advisory file: `<plugin>/ready.json` and `.index/<key>.json`. */
  datatype Slot = Ready(plugin: Text) | Index(key: Text)

  /** What both files say; the redirect URIs follow from the base and the effective names. */
  datatype Payload = Payload(base: Text, callbacks: map<Text, Text>, pluginDir: Maybe<Text>)

  /** The bytes on disk: the canonical form of a payload, any other text, or no regular file. */
  datatype Marker = Canonical(payload: Payload) | OtherBytes(text: string) | NotAFile

  datatype Reading = Absent | Invalid | Present(raw: Marker)

  datatype Wiring = Unwired | Closed | Open

  type Markers = map<Slot, Marker>

  /** `index_key`: a hash of the resolved artifact path. */
  type KeyOf = Text -> Text

  // ---------------------------------------------------------------------------
  // The desired pair
  // ---------------------------------------------------------------------------

  function EffectiveByDeclared(cbs: seq<Callback>): map<Text, Text> {
    if cbs == [] then map[]
    else EffectiveByDeclared(cbs[..|cbs| - 1])[cbs[|cbs| - 1].declared := cbs[|cbs| - 1].effective]
  }

  function ReadySlot(r: Routed): Slot {
    Ready(r.plugin)
  }

  function IndexSlot(keyOf: KeyOf, r: Routed): Slot {
    Index(keyOf(r.path))
  }

  /** An artifact path is known; without one there is no index entry. */
  predicate Pathed(r: Routed) {
    r.path != Text("")
  }

  function WantedReady(base: Text, r: Routed): Marker {
    Canonical(Payload(base, EffectiveByDeclared(r.callbacks), Nothing))
  }

  function WantedIndex(base: Text, r: Routed): Marker {
    Canonical(Payload(base, EffectiveByDeclared(r.callbacks), Just(r.plugin)))
  }

  predicate Holds(m: Markers, s: Slot, wanted: Marker) {
    s in m && m[s] == wanted
  }

  /** Both files are there and say what is wanted. */
  predicate Published(m: Markers, keyOf: KeyOf, base: Text, r: Routed) {
    Holds(m, ReadySlot(r), WantedReady(base, r)) && (Pathed(r) ==> Holds(m, IndexSlot(keyOf, r), WantedIndex(base, r)))
  }

  /** Neither file is there. */
  predicate Withdrawn(m: Markers, keyOf: KeyOf, r: Routed) {
    ReadySlot(r) !in m && (Pathed(r) ==> IndexSlot(keyOf, r) !in m)
  }

  predicate Owns(keyOf: KeyOf, r: Routed, s: Slot) {
    s == ReadySlot(r) || (Pathed(r) && s == IndexSlot(keyOf, r))
  }

  /** No slot is wanted by both. */
  predicate Apart(keyOf: KeyOf, a: Routed, b: Routed) {
    a.plugin != b.plugin && (Pathed(a) && Pathed(b) ==> keyOf(a.path) != keyOf(b.path))
  }

  /** The dictionary of the routed set by plugin; the last one wins. */
  function ByPlugin(routed: seq<Routed>): (d: map<Text, Routed>)
    ensures forall p | p in d :: d[p].plugin == p
  {
    if routed == [] then map[]
    else ByPlugin(routed[..|routed| - 1])[routed[|routed| - 1].plugin := routed[|routed| - 1]]
  }

  /** Under distinct names the dictionary holds the routed set, and nothing else. */
  lemma {:induction false} ByPluginExactly(routed: seq<Routed>, r: Routed)
    requires forall i, j | 0 <= i < j < |routed| :: routed[i].plugin != routed[j].plugin
    ensures r in routed <==> r.plugin in ByPlugin(routed) && ByPlugin(routed)[r.plugin] == r
  {
    if routed != [] {
      var n := |routed| - 1;
      var init, last := routed[..n], routed[n];
      ByPluginExactly(init, r);
      assert routed == init + [last];
      assert forall i | 0 <= i < n :: init[i].plugin != last.plugin;
    }
  }

  /** No two routed plugins share an index key. */
  ghost predicate KeysApart(keyOf: KeyOf, d: map<Text, Routed>) {
    forall p, q | p in d && q in d && p != q :: Apart(keyOf, d[p], d[q])
  }

  /** The routed plugins that markers are kept for: without a base URL, none. */
  function Kept(base: Maybe<Text>, routed: seq<Routed>): map<Text, Routed> {
    if base.Just? then ByPlugin(routed) else map[]
  }

  /** The slot belongs to no routed plugin. */
  predicate Orphan(keyOf: KeyOf, d: map<Text, Routed>, s: Slot) {
    forall p | p in d :: !Owns(keyOf, d[p], s)
  }

  ghost predicate Shrinks(before: Markers, after: Markers) {
    forall s | s in after :: s in before && after[s] == before[s]
  }

  predicate Same(before: Markers, after: Markers, s: Slot) {
    (s in before <==> s in after) && (s in before ==> before[s] == after[s])
  }

  ghost predicate SameAll(before: Markers, after: Markers, keyOf: KeyOf, r: Routed) {
    forall s | Owns(keyOf, r, s) :: Same(before, after, s)
  }

  lemma PairFollowsSlots(before: Markers, after: Markers, keyOf: KeyOf, base: Text, r: Routed)
    requires SameAll(before, after, keyOf, r)
    ensures Published(before, keyOf, base, r) <==> Published(after, keyOf, base, r)
    ensures Withdrawn(before, keyOf, r) <==> Withdrawn(after, keyOf, r)
  {
    assert Owns(keyOf, r, ReadySlot(r));
    assert Pathed(r) ==> Owns(keyOf, r, IndexSlot(keyOf, r));
  }

  lemma ApartKeeps(before: Markers, after: Markers, keyOf: KeyOf, a: Routed, b: Routed)
    requires Apart(keyOf, a, b)
    requires forall s | !Owns(keyOf, a, s) :: Same(before, after, s)
    ensures SameAll(before, after, keyOf, b)
  {
  }

  ghost predicate OwnedIn(keyOf: KeyOf, d: map<Text, Routed>, ps: set<Text>, s: Slot) {
    exists p | p in ps && p in d :: Owns(keyOf, d[p], s)
  }

  lemma OthersKept(before: Markers, after: Markers, keyOf: KeyOf, base: Text, d: map<Text, Routed>, p: Text)
    requires KeysApart(keyOf, d) && p in d && forall s | !Owns(keyOf, d[p], s) :: Same(before, after, s)
    ensures forall q | q in d && q != p :: SameAll(before, after, keyOf, d[q])
    ensures forall q | q in d && q != p :: Published(before, keyOf, base, d[q]) <==> Published(after, keyOf, base, d[q])
    ensures forall q | q in d && q != p :: Withdrawn(before, keyOf, d[q]) <==> Withdrawn(after, keyOf, d[q])
  {
    forall q | q in d && q != p
      ensures SameAll(before, after, keyOf, d[q])
      ensures Published(before, keyOf, base, d[q]) <==> Published(after, keyOf, base, d[q])
      ensures Withdrawn(before, keyOf, d[q]) <==> Withdrawn(after, keyOf, d[q])
    {
      ApartKeeps(before, after, keyOf, d[p], d[q]);
      PairFollowsSlots(before, after, keyOf, base, d[q]);
    }
  }

  lemma BystandersKept(before: Markers, after: Markers, keyOf: KeyOf, base: Text, d: map<Text, Routed>, ps: set<Text>)
    requires KeysApart(keyOf, d) && forall s | !OwnedIn(keyOf, d, ps, s) :: Same(before, after, s)
    ensures forall p | p in d && p !in ps :: Published(before, keyOf, base, d[p]) <==>
              Published(after, keyOf, base, d[p])
  {
    forall p | p in d && p !in ps
      ensures Published(before, keyOf, base, d[p]) <==> Published(after, keyOf, base, d[p])
    {
      forall s | Owns(keyOf, d[p], s)
        ensures Same(before, after, s)
      {
        assert forall q | q in ps && q in d :: Apart(keyOf, d[p], d[q]);
      }
      PairFollowsSlots(before, after, keyOf, base, d[p]);
    }
  }

  lemma OrphansKept(before: Markers, after: Markers, keyOf: KeyOf, d: map<Text, Routed>, ps: set<Text>)
    requires forall s | !OwnedIn(keyOf, d, ps, s) :: Same(before, after, s)
    ensures forall s | Orphan(keyOf, d, s) :: Same(before, after, s)
  {
  }

  lemma RoutedKept(before: Markers, after: Markers, keyOf: KeyOf, base: Text, d: map<Text, Routed>)
    requires forall s | !Orphan(keyOf, d, s) :: Same(before, after, s)
    ensures forall p | p in d :: Published(before, keyOf, base, d[p]) <==> Published(after, keyOf, base, d[p])
  {
    forall p | p in d
      ensures Published(before, keyOf, base, d[p]) <==> Published(after, keyOf, base, d[p])
    {
      PairFollowsSlots(before, after, keyOf, base, d[p]);
    }
  }

  /** Two routed plugins with one index key can never both be published, whatever the spool holds. */
  lemma SharedKeyExcludes(m: Markers, keyOf: KeyOf, base: Text, a: Routed, b: Routed)
    requires a.plugin != b.plugin && Pathed(a) && Pathed(b) && keyOf(a.path) == keyOf(b.path)
    ensures !(Published(m, keyOf, base, a) && Published(m, keyOf, base, b))
  {
  }

  /** A marker write, and the overlay in force at that moment. */
  datatype Written = Written(plugin: Text, overlay: map<Text, Route>)

  class Site {
    const keyOf: KeyOf
    const wiring: Wiring
    const reliable: bool                         // a spool on which no operation fails
    var markers: Markers
    var overlay: map<Text, Route>
    var spoolErrors: set<Text>                   // plugins with a `callback_spool_error`, one row each
    ghost var writes: set<Written>                // of this pass
    ghost var deleteFailed: bool

    constructor (keyOf: KeyOf, wiring: Wiring, reliable: bool, markers: Markers)
      ensures this.keyOf == keyOf && this.wiring == wiring && this.reliable == reliable && this.markers == markers
      ensures spoolErrors == {} && writes == {} && overlay == map[] && !deleteFailed
    {
      this.keyOf, this.wiring, this.reliable, this.markers := keyOf, wiring, reliable, markers;
      overlay, spoolErrors, writes, deleteFailed := map[], {}, {}, false;
    }

    // -------------------------------------------------------------------------
    // One spool operation
    // -------------------------------------------------------------------------

    /** `_read_marker`: a closed spool has nothing; any failure is INVALID, never absent. */
    method Read(s: Slot) returns (r: Reading)
      requires wiring != Unwired
      ensures wiring == Closed ==> r == Absent
      ensures wiring == Open && r.Absent? ==> s !in markers
      ensures r.Present? ==> Holds(markers, s, r.raw)
      ensures wiring == Open && reliable && s in markers && markers[s].Canonical? ==> r == Present(markers[s])
      ensures wiring == Open && reliable && s !in markers ==> r == Absent
    {
      var fails: bool := *;
      if wiring == Closed {
        return Absent;
      } else if fails && !reliable {
        return Invalid;
      } else if s !in markers {
        return Absent;
      } else if markers[s].NotAFile? {
        return Invalid;
      } else {
        return Present(markers[s]);
      }
    }

    /** `_retire_marker`: true only when the entry is confirmed gone. */
    method Retire(s: Slot) returns (gone: bool)
      modifies `markers, `deleteFailed
      ensures wiring != Unwired && gone ==> s !in markers
      ensures markers == old(markers) || markers == old(markers) - {s}
      ensures wiring == Unwired ==> gone && markers == old(markers)
      ensures deleteFailed == (old(deleteFailed) || !gone)
      ensures reliable && wiring == Open ==> gone
    {
      var removed: bool, confirmed: bool := *, *;
      gone := wiring == Unwired || (wiring == Open && (reliable || confirmed));
      if wiring == Open && (gone || removed) {
        markers := markers - {s};
      }
      deleteFailed := deleteFailed || !gone;
    }

    /** `_guard` around `ensure_plugin_dirs`. */
    method EnsureDirs(plugin: Text) returns (ok: bool)
      modifies `spoolErrors
      ensures wiring != Open ==> !ok
      ensures !ok ==> plugin in spoolErrors
      ensures old(spoolErrors) <= spoolErrors
      ensures reliable && wiring == Open ==> ok
      ensures ok ==> spoolErrors == old(spoolErrors)
    {
      var works: bool := *;
      ok := wiring == Open && (reliable || works);
      if !ok {
        spoolErrors := spoolErrors + {plugin};
      }
    }

    /** `_guard` around `write_ready` or `write_index_entry`; a failure may come after the rename. */
    method Write(s: Slot, plugin: Text, marker: Marker) returns (ok: bool)
      modifies `markers, `spoolErrors, `writes
      ensures ok ==> markers == old(markers)[s := marker] && spoolErrors == old(spoolErrors)
      ensures !ok ==> plugin in spoolErrors && (markers == old(markers) || markers == old(markers)[s := marker])
      ensures old(spoolErrors) <= spoolErrors
      ensures writes == old(writes) || writes == old(writes) + {Written(plugin, overlay)}
      ensures markers != old(markers) ==> writes == old(writes) + {Written(plugin, overlay)}
      ensures reliable && wiring == Open ==> ok
    {
      var works: bool, renamed: bool := *, *;
      ok := wiring == Open && (reliable || works);
      if ok || (wiring == Open && renamed) {
        markers := markers[s := marker];
        writes := writes + {Written(plugin, overlay)};
      }
      if !ok {
        spoolErrors := spoolErrors + {plugin};
      }
    }

    // -------------------------------------------------------------------------
    // Before the overlay is swapped: only deletions
    // -------------------------------------------------------------------------

    /** `_pair_state`: byte-strict, and never mistaken for published. */
    method PairState(base: Text, r: Routed) returns (needs: bool, onDisk: bool)
      requires wiring != Unwired
      ensures wiring == Closed ==> needs && !onDisk
      ensures !needs ==> Published(markers, keyOf, base, r)
      ensures wiring == Open && !onDisk ==> Withdrawn(markers, keyOf, r)
      ensures wiring == Open && reliable ==> (needs <==> !Published(markers, keyOf, base, r))
    {
      var ready := Read(ReadySlot(r));
      var readyOk := ready == Present(WantedReady(base, r));
      var indexOk, indexOnDisk := true, false;
      if Pathed(r) {
        var index := Read(IndexSlot(keyOf, r));
        indexOk := index == Present(WantedIndex(base, r));
        indexOnDisk := !index.Absent?;
      }
      needs := !(readyOk && indexOk);
      onDisk := !ready.Absent? || indexOnDisk;
    }

    /** The durable inventory: a failed listing, or a failed entry in it, leaves entries out. */
    method List() returns (listed: set<Slot>, complete: bool)
      ensures listed <= markers.Keys && (complete ==> listed == markers.Keys)
      ensures wiring == Open && reliable ==> complete
    {
      complete := *;
      complete := wiring == Open && (reliable || complete);
      if complete {
        listed := markers.Keys;
      } else {
        listed := *;
        listed := listed * markers.Keys;
      }
    }

    /** Retire every listed entry that no routed plugin wants. */
    method RetireOrphans(d: map<Text, Routed>) returns (complete: bool)
      requires wiring != Unwired
      modifies `markers, `spoolErrors, `deleteFailed
      ensures Shrinks(old(markers), markers) && old(spoolErrors) <= spoolErrors
      ensures forall s | !Orphan(keyOf, d, s) :: Same(old(markers), markers, s)
      ensures complete && !deleteFailed ==> forall s | s in markers :: !Orphan(keyOf, d, s)
      ensures old(deleteFailed) ==> deleteFailed
      ensures wiring == Open && reliable ==>
                complete && deleteFailed == old(deleteFailed) && spoolErrors == old(spoolErrors)
    {
      var todo;
      todo, complete := List();
      ghost var listed := todo;
      while todo != {}
        invariant todo <= listed
        invariant Shrinks(old(markers), markers) && old(spoolErrors) <= spoolErrors
        invariant forall s | !Orphan(keyOf, d, s) :: Same(old(markers), markers, s)
        invariant !deleteFailed ==> forall s | s in listed && s in markers && Orphan(keyOf, d, s) :: s in todo
        invariant old(deleteFailed) ==> deleteFailed
        invariant wiring == Open && reliable ==> deleteFailed == old(deleteFailed) && spoolErrors == old(spoolErrors)
        decreases todo
      {
        var s :| s in todo;
        todo := todo - {s};
        if Orphan(keyOf, d, s) {
          var gone := Retire(s);
          if !gone && s.Ready? {
            spoolErrors := spoolErrors + {s.plugin};
          }
        }
      }
    }

    /** Retire both files of a pair that is about to be rewritten. */
    method RetirePair(r: Routed)
      modifies `markers, `deleteFailed, `spoolErrors
      ensures Shrinks(old(markers), markers) && old(spoolErrors) <= spoolErrors
      ensures forall s | !Owns(keyOf, r, s) :: Same(old(markers), markers, s)
      ensures wiring != Unwired && !deleteFailed ==> Withdrawn(markers, keyOf, r)
      ensures wiring == Unwired ==> markers == old(markers)
      ensures old(deleteFailed) ==> deleteFailed
      ensures wiring == Open && reliable ==> deleteFailed == old(deleteFailed) && spoolErrors == old(spoolErrors)
    {
      var gone := Retire(ReadySlot(r));
      if !gone {
        spoolErrors := spoolErrors + {r.plugin};
      }
      if Pathed(r) {
        gone := Retire(IndexSlot(keyOf, r));
        if !gone {
          spoolErrors := spoolErrors + {r.plugin};
        }
      }
    }

    /** One pair: nothing is touched when it is already the desired one. */
    method RetireIfStale(base: Text, r: Routed) returns (needs: bool)
      requires wiring != Unwired
      modifies `markers, `spoolErrors, `deleteFailed
      ensures Shrinks(old(markers), markers) && old(spoolErrors) <= spoolErrors && (old(deleteFailed) ==> deleteFailed)
      ensures forall s | !Owns(keyOf, r, s) :: Same(old(markers), markers, s)
      ensures !needs ==> Published(markers, keyOf, base, r)
      ensures needs && wiring == Open && !deleteFailed ==> Withdrawn(markers, keyOf, r)
      ensures wiring == Open && reliable ==> (needs <==> !Published(old(markers), keyOf, base, r))
      ensures wiring == Open && reliable ==> deleteFailed == old(deleteFailed) && spoolErrors == old(spoolErrors)
    {
      var onDisk;
      needs, onDisk := PairState(base, r);
      if needs && onDisk {
        RetirePair(r);
      }
    }

    /** The routed half of it: retire every pair that is not already exactly the desired one. */
    method RetireStale(base: Text, d: map<Text, Routed>, ghost apart: bool) returns (republish: set<Text>)
      requires apart ==> KeysApart(keyOf, d)
      requires wiring != Unwired && forall p | p in d :: d[p].plugin == p
      modifies `markers, `spoolErrors, `deleteFailed
      ensures Shrinks(old(markers), markers) && old(spoolErrors) <= spoolErrors && (old(deleteFailed) ==> deleteFailed)
      ensures forall s | Orphan(keyOf, d, s) :: Same(old(markers), markers, s)
      ensures republish <= d.Keys
      ensures apart ==> forall p | p in d && p !in republish :: Published(markers, keyOf, base, d[p])
      ensures wiring == Open && !deleteFailed ==> forall p | p in republish :: Withdrawn(markers, keyOf, d[p])
      ensures wiring == Open && reliable && apart ==>
                forall p | p in republish :: !Published(old(markers), keyOf, base, d[p])
      ensures wiring == Open && reliable ==> deleteFailed == old(deleteFailed) && spoolErrors == old(spoolErrors)
    {
      republish := {};
      var todo := d.Keys;
      while todo != {}
        invariant todo <= d.Keys
        invariant Shrinks(old(markers), markers) && old(spoolErrors) <= spoolErrors &&
                    (old(deleteFailed) ==> deleteFailed)
        invariant forall s | Orphan(keyOf, d, s) :: Same(old(markers), markers, s)
        invariant republish <= d.Keys - todo
        invariant apart ==> forall p | p in todo :: SameAll(old(markers), markers, keyOf, d[p])
        invariant apart ==>
                    forall p | p in d && p !in todo && p !in republish :: Published(markers, keyOf, base, d[p])
        invariant wiring == Open && !deleteFailed ==> forall p | p in republish :: Withdrawn(markers, keyOf, d[p])
        invariant wiring == Open && reliable && apart ==>
                    forall p | p in republish :: !Published(old(markers), keyOf, base, d[p])
        invariant wiring == Open && reliable ==> deleteFailed == old(deleteFailed) && spoolErrors == old(spoolErrors)
        decreases todo
      {
        var p :| p in todo;
        var r := d[p];
        ghost var before := markers;
        var needs := RetireIfStale(base, r);
        todo := todo - {p};
        if needs {
          republish := republish + {p};
        }
        if apart {
          PairFollowsSlots(old(markers), before, keyOf, base, r);
          OthersKept(before, markers, keyOf, base, d, p);
        }
      }
    }

    /** `_reconcile_markers_pre_swap`: which pairs must be written once the overlay routes them. */
    method PreSwap(base: Maybe<Text>, routed: seq<Routed>, prunable: bool)
        returns (republish: set<Text>, complete: bool)
      modifies `markers, `spoolErrors, `deleteFailed
      ensures Shrinks(old(markers), markers) && old(spoolErrors) <= spoolErrors && (old(deleteFailed) ==> deleteFailed)
      ensures wiring == Unwired ==> markers == old(markers) && republish == Kept(base, routed).Keys
      ensures republish <= Kept(base, routed).Keys
      ensures wiring != Unwired && KeysApart(keyOf, Kept(base, routed)) ==>
                forall p | p in Kept(base, routed) && p !in republish ::
                  Published(markers, keyOf, base.value, Kept(base, routed)[p])
      ensures wiring == Open && !deleteFailed ==>
                forall p | p in republish :: Withdrawn(markers, keyOf, Kept(base, routed)[p])
      ensures !prunable ==> forall s | Orphan(keyOf, Kept(base, routed), s) :: Same(old(markers), markers, s)
      ensures wiring != Unwired && prunable && complete && !deleteFailed ==>
                forall s | s in markers :: !Orphan(keyOf, Kept(base, routed), s)
      // On a spool that works, a pair that already says what is wanted is left alone.
      ensures wiring == Open && reliable && KeysApart(keyOf, Kept(base, routed)) ==>
                forall p | p in republish :: !Published(old(markers), keyOf, base.value, Kept(base, routed)[p])
      ensures wiring == Open && reliable ==>
                complete && deleteFailed == old(deleteFailed) && spoolErrors == old(spoolErrors)
    {
      var d := Kept(base, routed);
      republish, complete := {}, true;
      if wiring == Unwired {
        return d.Keys, true;
      }
      if prunable {
        complete := RetireOrphans(d);
      }
      if base.Just? {
        RoutedKept(old(markers), markers, keyOf, base.value, d);
        republish := RetireStale(base.value, d, KeysApart(keyOf, d));
      }
    }

    // -------------------------------------------------------------------------
    // After the swap: both files, or neither
    // -------------------------------------------------------------------------

    /** Every marker written since was written for one of these plugins, under the overlay of now. */
    ghost predicate WroteFor(before: set<Written>, plugins: set<Text>)
      reads `writes, `overlay
    {
      forall w | w in writes && w !in before :: w.plugin in plugins && w.overlay == overlay
    }

    /** The pair is as wanted or its error is on record; and, unless a delete failed, it is whole or gone. */
    ghost predicate Outcome(base: Text, r: Routed)
      reads `markers, `spoolErrors, `deleteFailed
    {
      && (Published(markers, keyOf, base, r) || (r.plugin in spoolErrors && !(wiring == Open && reliable)))
      && (wiring == Unwired || deleteFailed || Published(markers, keyOf, base, r) || Withdrawn(markers, keyOf, r))
    }

    /** One turn of `_publish_markers_post_swap`; the error of a failed write is on record already. */
    method PublishPair(base: Text, r: Routed)
      modifies `markers, `spoolErrors, `writes, `deleteFailed
      ensures Outcome(base, r)
      ensures wiring == Unwired ==> r.plugin in spoolErrors && markers == old(markers)
      ensures forall s | !Owns(keyOf, r, s) :: Same(old(markers), markers, s)
      ensures old(spoolErrors) <= spoolErrors && (old(deleteFailed) ==> deleteFailed)
      ensures WroteFor(old(writes), {r.plugin})
      ensures wiring == Open && reliable ==> spoolErrors == old(spoolErrors) && deleteFailed == old(deleteFailed)
    {
      var ok := EnsureDirs(r.plugin);
      if ok {
        ok := Write(ReadySlot(r), r.plugin, WantedReady(base, r));
      }
      if ok && Pathed(r) {
        ok := Write(IndexSlot(keyOf, r), r.plugin, WantedIndex(base, r));
      }
      if !ok {
        RetirePair(r);
      }
    }

    /** `_publish_markers_post_swap`. */
    method PostSwap(base: Text, d: map<Text, Routed>, republish: set<Text>, ghost apart: bool)
      requires apart ==> KeysApart(keyOf, d)
      requires republish <= d.Keys && forall p | p in d :: d[p].plugin == p
      modifies `markers, `spoolErrors, `writes, `deleteFailed
      ensures apart ==> forall p | p in republish :: Outcome(base, d[p])
      ensures wiring == Unwired ==> markers == old(markers) && forall p | p in republish :: p in spoolErrors
      ensures forall s | !OwnedIn(keyOf, d, republish, s) :: Same(old(markers), markers, s)
      ensures old(spoolErrors) <= spoolErrors && (old(deleteFailed) ==> deleteFailed)
      ensures WroteFor(old(writes), republish)
      ensures republish == {} ==> markers == old(markers) && writes == old(writes)
      ensures wiring == Open && reliable ==> spoolErrors == old(spoolErrors) && deleteFailed == old(deleteFailed)
    {
      if republish == {} {
        return;
      }
      var todo := republish;
      while todo != {}
        invariant todo <= republish
        invariant apart ==> forall p | p in republish && p !in todo :: Outcome(base, d[p])
        invariant wiring == Unwired ==>
                    markers == old(markers) && forall p | p in republish && p !in todo :: p in spoolErrors
        invariant forall s | !OwnedIn(keyOf, d, republish, s) :: Same(old(markers), markers, s)
        invariant old(spoolErrors) <= spoolErrors && (old(deleteFailed) ==> deleteFailed)
        invariant WroteFor(old(writes), republish)
        invariant wiring == Open && reliable ==> spoolErrors == old(spoolErrors) && deleteFailed == old(deleteFailed)
        decreases todo
      {
        var p :| p in todo;
        ghost var before := markers;
        PublishPair(base, d[p]);
        todo := todo - {p};
        if apart {
          OthersKept(before, markers, keyOf, base, d, p);
        }
      }
    }

    // -------------------------------------------------------------------------
    // The whole pass
    // -------------------------------------------------------------------------

    /** Retire, swap the overlay, publish. */
    method MarkerPass(base: Maybe<Text>, d: Desired) returns (complete: bool)
      modifies `markers, `overlay, `spoolErrors, `writes, `deleteFailed
      ensures overlay == d.overlay
      // Every routed pair is as wanted or its error is on record, and unless a delete failed it is whole or gone.
      ensures KeysApart(keyOf, Kept(base, d.routed)) ==>
                forall p | p in Kept(base, d.routed) :: Outcome(base.value, Kept(base, d.routed)[p])
      ensures wiring == Unwired ==> markers == old(markers) && forall p | p in Kept(base, d.routed) :: p in spoolErrors
      // Orphans never appear, stay on a pass that is not clean, and are gone after one that is.
      ensures forall s | Orphan(keyOf, Kept(base, d.routed), s) && s in markers ::
                s in old(markers) && markers[s] == old(markers)[s]
      ensures !d.prunable ==> forall s | Orphan(keyOf, Kept(base, d.routed), s) :: Same(old(markers), markers, s)
      ensures wiring != Unwired && d.prunable && complete && !deleteFailed ==>
                forall s | s in markers :: !Orphan(keyOf, Kept(base, d.routed), s)
      // Nothing is written before the overlay routes it.
      ensures forall w | w in writes :: w.plugin in Kept(base, d.routed) && w.overlay == d.overlay
      // A spool that works ends with no error; if every pair was already as wanted, nothing is written.
      ensures wiring == Open && reliable ==> complete && !deleteFailed && spoolErrors == {}
      ensures wiring == Open && reliable && KeysApart(keyOf, Kept(base, d.routed))
              && (forall p | p in Kept(base, d.routed) ::
                  Published(old(markers), keyOf, base.value, Kept(base, d.routed)[p]))
              ==> writes == {}
    {
      var kept := Kept(base, d.routed);
      spoolErrors, writes, deleteFailed := {}, {}, false;
      var republish;
      republish, complete := PreSwap(base, d.routed, d.prunable);
      overlay := d.overlay;
      if base.Just? {
        ghost var before := markers;
        PostSwap(base.value, kept, republish, KeysApart(keyOf, kept));
        OrphansKept(before, markers, keyOf, kept, republish);
        if KeysApart(keyOf, kept) {
          BystandersKept(before, markers, keyOf, base.value, kept, republish);
        }
      }
    }

    /**
     `reconcile_plugin_callbacks`: a computation that raises closes every route and touches no file.
     Approvals and revocations may land between reading the acks and pruning them; `acked` is what
     the store holds when the prune runs.
     */
    method Reconcile(ctx: Context, computes: bool, store: CallbackAckStore)
        returns (complete: bool, ghost acked: AckMap)
      requires store.Valid() && ctx.acks == store.acks && ctx.identify == store.identify
      modifies `markers, `overlay, `spoolErrors, `writes, `deleteFailed, store
      ensures store.Valid()
      ensures !computes ==> overlay == map[] && markers == old(markers) && store.acks == old(store.acks)
      ensures computes ==> overlay == DesiredOf(ctx.(acks := old(store.acks))).overlay
      ensures computes && KeysApart(keyOf, Kept(ctx.base, DesiredOf(ctx).routed)) ==>
                forall p | p in Kept(ctx.base, DesiredOf(ctx).routed) ::
                  Outcome(ctx.base.value, Kept(ctx.base, DesiredOf(ctx).routed)[p])
      ensures computes ==> forall w | w in writes ::
                w.overlay == overlay && w.plugin in Kept(ctx.base, DesiredOf(ctx).routed)
      // Whatever is routed, the operator consented to exactly that.
      ensures computes ==> forall e | e in overlay :: Consented(ctx, e, overlay[e])
      // Consent is only ever forgotten when everything was read and no declaration still computes it.
      ensures forall i | i in store.acks :: i in acked && store.acks[i] == acked[i]
      ensures forall i | i in acked && i !in store.acks ::
                && computes && ctx.registryValid && !ctx.resolutionIssues
                && (forall p | p in ctx.plugins :: p.declaration.Callbacks? && !Computes(ctx, p, i))
    {
      acked := store.acks;
      if !computes {
        overlay := map[];
        return false, acked;
      }
      assert ctx.(acks := store.acks) == ctx;
      var d := ComputeDesired(ctx);
      forall e | e in d.overlay
        ensures Consented(ctx, e, d.overlay[e])
      {
        var _, _ := RoutedByConsent(ctx, e);
      }
      complete := MarkerPass(ctx.base, d);
      store.Meanwhile();
      acked := store.acks;
      if d.prunable {
        var ok, removed := store.PruneStale(d.validIdentities);
        PrunableExactly(ctx, ctx.plugins);
        forall i | i in removed
          ensures forall p | p in ctx.plugins :: p.declaration.Callbacks? && !Computes(ctx, p, i)
        {
          ValidExactly(ctx, ctx.plugins, i);
        }
      }
    }

    /** `verify_published_markers`: no gap on record means both files are there as wanted. */
    method VerifyPublished(base: Text, routed: seq<Routed>)
      modifies `spoolErrors
      ensures old(spoolErrors) <= spoolErrors
      ensures forall r | r in routed && r.plugin !in spoolErrors ::
                wiring != Unwired && Published(markers, keyOf, base, r)
      ensures wiring == Open && reliable ==>
                forall p | p in spoolErrors && p !in old(spoolErrors) :: exists r | r in routed ::
                    r.plugin == p && !Published(markers, keyOf, base, r)
    {
      for n := 0 to |routed|
        invariant old(spoolErrors) <= spoolErrors
        invariant forall r | r in routed[..n] && r.plugin !in spoolErrors ::
                    wiring != Unwired && Published(markers, keyOf, base, r)
        invariant wiring == Open && reliable ==>
                    forall p | p in spoolErrors && p !in old(spoolErrors) :: exists r | r in routed ::
                        r.plugin == p && !Published(markers, keyOf, base, r)
      {
        var r := routed[n];
        var needs := true;
        if wiring != Unwired {
          var onDisk;
          needs, onDisk := PairState(base, r);
        }
        if needs {
          spoolErrors := spoolErrors + {r.plugin};
        }
        assert routed[..n + 1] == routed[..n] + [r];
      }
      assert routed[..|routed|] == routed;
    }
  }

  /** The exception: with one index key for two plugins, a pass on which nothing fails leaves a pair wrong. */
  method SharedKeyLosesAPair(keyOf: KeyOf, base: Text, a: Routed, b: Routed, m: Markers) returns (site: Site)
    requires a.plugin != b.plugin && Pathed(a) && Pathed(b) && keyOf(a.path) == keyOf(b.path)
    ensures fresh(site) && site.keyOf == keyOf && site.spoolErrors == {} && !site.deleteFailed
    ensures !Published(site.markers, keyOf, base, a) || !Published(site.markers, keyOf, base, b)
  {
    site := new Site(keyOf, Open, true, m);
    var complete := site.MarkerPass(Just(base), Desired(map[], [], [], [a, b], {}, true));
    SharedKeyExcludes(site.markers, keyOf, base, a, b);
  }

  /** What a marker advertises is served: every callback of a routed plugin is in the overlay it was written under. */
  lemma MarkersAdvertiseRoutes(ctx: Context, p: Text, i: nat)
    requires AllWellNamed(ctx.plugins)
    requires p in Kept(ctx.base, DesiredOf(ctx).routed)
    requires i < |Kept(ctx.base, DesiredOf(ctx).routed)[p].callbacks|
    ensures var cb := Kept(ctx.base, DesiredOf(ctx).routed)[p].callbacks[i];
      cb.effective in DesiredOf(ctx).overlay && DesiredOf(ctx).overlay[cb.effective].plugin == p
  {
    var routed := DesiredOf(ctx).routed;
    var r := ByPlugin(routed)[p];
    ByPluginSound(routed, p);
    var q := RoutedSound(ctx, ctx.plugins, r);
    var k :| 0 <= k < |ctx.plugins| && ctx.plugins[k] == q;
    AllOrNothing(ctx, k);
  }

  lemma {:induction false} ByPluginSound(routed: seq<Routed>, p: Text)
    requires p in ByPlugin(routed)
    ensures ByPlugin(routed)[p] in routed
  {
    if routed[|routed| - 1].plugin != p {
      ByPluginSound(routed[..|routed| - 1], p);
    }
  }

  lemma {:induction false} MapsEachName(cbs: seq<Callback>, i: nat)
    requires i < |cbs| && forall j, k | 0 <= j < k < |cbs| :: cbs[j].declared != cbs[k].declared
    ensures cbs[i].declared in EffectiveByDeclared(cbs)
    ensures EffectiveByDeclared(cbs)[cbs[i].declared] == cbs[i].effective
  {
    if i < |cbs| - 1 {
      MapsEachName(cbs[..|cbs| - 1], i);
    }
  }

  /** What a consumer reads: both files give the base and the effective name of each declared callback. */
  lemma PublishedSays(m: Markers, keyOf: KeyOf, base: Text, r: Routed, i: nat)
    requires Published(m, keyOf, base, r) && i < |r.callbacks|
    requires forall j, k | 0 <= j < k < |r.callbacks| :: r.callbacks[j].declared != r.callbacks[k].declared
    ensures Ready(r.plugin) in m && m[Ready(r.plugin)].Canonical?
    ensures var said := m[Ready(r.plugin)].payload;
      && said.base == base && said.pluginDir == Nothing
      && r.callbacks[i].declared in said.callbacks
      && said.callbacks[r.callbacks[i].declared] == r.callbacks[i].effective
    ensures r.path.chars != "" ==>
              && Index(keyOf(r.path)) in m && m[Index(keyOf(r.path))].Canonical?
              && m[Index(keyOf(r.path))].payload == m[Ready(r.plugin)].payload.(pluginDir := Just(r.plugin))
  {
    MapsEachName(r.callbacks, i);
  }

  /** Never half a pair: after such a pass both files of a plugin with a path are there, or neither is. */
  lemma NeverHalf(site: Site, base: Text, r: Routed)
    requires site.Outcome(base, r) && site.wiring != Unwired && !site.deleteFailed && r.path.chars != ""
    ensures Ready(r.plugin) in site.markers <==> Index(site.keyOf(r.path)) in site.markers
    ensures Ready(r.plugin) in site.markers || r.plugin in site.spoolErrors
  {
  }

  /** There is an ack for the callback, and its own record computes the identity it is filed under. */
  ghost predicate ConsentFor(ctx: Context, p: Resolved, cb: Callback) {
    var ident := ctx.identify(p.name, cb.effective, ctx.digest(cb));
    && ident in ctx.acks && ctx.acks[ident].Obj?
    && var rec := ctx.acks[ident].fields;
       && Text("plugin") in rec && Text("effective") in rec && Text("declaration_digest") in rec
       && rec[Text("plugin")].Str? && rec[Text("effective")].Str? && rec[Text("declaration_digest")].Str?
       && ctx.identify(rec[Text("plugin")].text, rec[Text("effective")].text, rec[Text("declaration_digest")].text)
          == ident
  }

  /** The route serves a declared callback the operator consented to. */
  ghost predicate Consented(ctx: Context, e: Text, route: Route) {
    exists p, cb | p in ctx.plugins && p.declaration.Callbacks? && cb in p.declaration.callbacks ::
      cb.effective == e && Serves(route, p, cb) && ConsentFor(ctx, p, cb)
  }

  /** Every route rests on an ack whose own record computes the identity of that very callback. */
  lemma RoutedByConsent(ctx: Context, e: Text) returns (p: Resolved, cb: Callback)
    requires e in DesiredOf(ctx).overlay && AllShaped(ctx.identify, ctx.acks)
    ensures p in ctx.plugins && p.declaration.Callbacks? && cb in p.declaration.callbacks && cb.effective == e
    ensures Serves(DesiredOf(ctx).overlay[e], p, cb) && ConsentFor(ctx, p, cb)
    ensures Consented(ctx, e, DesiredOf(ctx).overlay[e])
  {
    var k, i := OverlaySound(ctx, ctx.plugins, e);
    p, cb := ctx.plugins[k], ctx.plugins[k].declaration.callbacks[i];
    assert Acked(ctx, p, cb);
  }
}
