/**
 The durable store of operator consents for plugin callbacks (callback_acks.py).

 A file holds any JSON at all; loading it is whole-store and fails closed.  A write either replaces
 the file or fails and leaves it, and memory is published only after the write.
 */
module Acks {

  datatype Text = Text(chars: string)

  datatype Number = Finite(value: real) | NotFinite

  datatype Json =
    | Null
    | Bool(value: bool)
    | Int(number: int)
    | Float(float: Number)
    | Str(text: Text)
    | Arr(items: seq<Json>)
    | Obj(fields: map<Text, Json>)

  datatype Bytes = Garbage | Document(json: Json)     // Garbage: not UTF-8, not JSON, nested too deep

  datatype File = Missing | Unreadable | Stored(size: nat, bytes: Bytes)

  /** `ack_identity`: a hash of plugin, effective name and declaration digest. */
  type Identify = (Text, Text, Text) -> Text

  type AckMap = map<Text, Json>

  const MAX_ACKS_BYTES: nat := 4 * 1024 * 1024

  const SCHEMA_VERSION := Text("schema_version")
  const ACKS := Text("acks")
  const PLUGIN := Text("plugin")
  const EFFECTIVE := Text("effective")
  const DIGEST := Text("declaration_digest")
  const GEN := Text("gen")
  const TS := Text("ts")

  // ---------------------------------------------------------------------------
  // What may be loaded
  // ---------------------------------------------------------------------------

  /** `raw.get(...) == 1`, in a language where `True` and `1.0` equal 1. */
  predicate IsOne(j: Json) {
    j == Int(1) || j == Bool(true) || j == Float(Finite(1.0))
  }

  predicate ValidTs(j: Json) {
    j.Int? || (j.Float? && j.float.Finite?)
  }

  predicate NonEmpty(j: Json) {
    j.Str? && j.text != Text("")
  }

  /** The exact schema of a record, except that the declared names may be empty. */
  predicate Shaped(identify: Identify, ident: Text, rec: Json) {
    && rec.Obj? && rec.fields.Keys == {PLUGIN, EFFECTIVE, DIGEST, GEN, TS}
    && rec.fields[PLUGIN].Str? && rec.fields[EFFECTIVE].Str? && rec.fields[DIGEST].Str?
    && NonEmpty(rec.fields[GEN]) && ValidTs(rec.fields[TS])
    && identify(rec.fields[PLUGIN].text, rec.fields[EFFECTIVE].text, rec.fields[DIGEST].text) == ident
  }

  /** No declared name of the record is empty. */
  predicate Filled(rec: Json) {
    && rec.Obj? && PLUGIN in rec.fields && EFFECTIVE in rec.fields && DIGEST in rec.fields
    && NonEmpty(rec.fields[PLUGIN]) && NonEmpty(rec.fields[EFFECTIVE]) && NonEmpty(rec.fields[DIGEST])
  }

  ghost predicate AllShaped(identify: Identify, acks: AckMap) {
    forall ident | ident in acks :: Shaped(identify, ident, acks[ident])
  }

  ghost predicate AllFilled(acks: AckMap) {
    forall ident | ident in acks :: Filled(acks[ident])
  }

  /** The `acks` object of a readable store of the right schema version. */
  function Records(file: File): AckMap {
    if && file.Stored? && file.size <= MAX_ACKS_BYTES && file.bytes.Document? && file.bytes.json.Obj?
       && SCHEMA_VERSION in file.bytes.json.fields && IsOne(file.bytes.json.fields[SCHEMA_VERSION])
       && ACKS in file.bytes.json.fields && file.bytes.json.fields[ACKS].Obj?
    then file.bytes.json.fields[ACKS].fields else map[]
  }

  /** Every record or none: consent is never taken from part of a store. */
  ghost function Loaded(identify: Identify, file: File): AckMap {
    if AllShaped(identify, Records(file)) && AllFilled(Records(file)) then Records(file) else map[]
  }

  /** `_load_body`: one bad record refuses the whole store. */
  method Load(identify: Identify, file: File) returns (out: AckMap)
    ensures out == Loaded(identify, file)
  {
    var acks := Records(file);
    var todo := acks.Keys;
    out := map[];
    while todo != {}
      invariant todo <= acks.Keys && out.Keys == acks.Keys - todo
      invariant forall ident | ident in out :: out[ident] == acks[ident]
      invariant forall ident | ident in out :: Shaped(identify, ident, acks[ident])
      invariant forall ident | ident in out :: Filled(acks[ident])
      decreases todo
    {
      var ident :| ident in todo;
      if !Shaped(identify, ident, acks[ident]) || !Filled(acks[ident]) {
        return map[];
      }
      out := out[ident := acks[ident]];
      todo := todo - {ident};
    }
    assert out == acks;
  }

  /** Every loaded ack is a full record that computes the very identity it is filed under. */
  lemma LoadedIsGenuine(identify: Identify, file: File, ident: Text)
    requires ident in Loaded(identify, file)
    ensures Loaded(identify, file)[ident].Obj?
    ensures var rec := Loaded(identify, file)[ident].fields;
      && rec.Keys == {Text("plugin"), Text("effective"), Text("declaration_digest"), Text("gen"), Text("ts")}
      && rec[Text("plugin")].Str? && rec[Text("plugin")].text.chars != ""
      && rec[Text("effective")].Str? && rec[Text("effective")].text.chars != ""
      && rec[Text("declaration_digest")].Str? && rec[Text("declaration_digest")].text.chars != ""
      && rec[Text("gen")].Str? && rec[Text("gen")].text.chars != ""
      && (rec[Text("ts")].Int? || (rec[Text("ts")].Float? && rec[Text("ts")].float.Finite?))
      && identify(rec[Text("plugin")].text, rec[Text("effective")].text, rec[Text("declaration_digest")].text) == ident
  {
  }

  /** The record is one the store writes, filed where it belongs; its declared names are not empty. */
  ghost predicate Genuine(identify: Identify, ident: Text, rec: Json) {
    && rec.Obj?
    && rec.fields.Keys == {Text("plugin"), Text("effective"), Text("declaration_digest"), Text("gen"), Text("ts")}
    && (forall k | k in {Text("plugin"), Text("effective"), Text("declaration_digest"), Text("gen")} ::
          rec.fields[k].Str? && rec.fields[k].text.chars != "")
    && (rec.fields[Text("ts")].Int? || (rec.fields[Text("ts")].Float? && rec.fields[Text("ts")].float.Finite?))
    && identify(rec.fields[Text("plugin")].text, rec.fields[Text("effective")].text,
                rec.fields[Text("declaration_digest")].text) == ident
  }

  /** A readable store gives every record of its `acks` when each of them is genuine, and otherwise none. */
  lemma LoadedExactly(identify: Identify, size: nat, fields: map<Text, Json>)
    ensures var loaded := Loaded(identify, Stored(size, Document(Obj(fields))));
      if && size <= 4194304 && Text("schema_version") in fields && Text("acks") in fields
         && fields[Text("schema_version")] in {Int(1), Bool(true), Float(Finite(1.0))} && fields[Text("acks")].Obj?
         && forall ident | ident in fields[Text("acks")].fields ::
              Genuine(identify, ident, fields[Text("acks")].fields[ident])
      then loaded == fields[Text("acks")].fields
      else loaded == map[]
  {
    var file := Stored(size, Document(Obj(fields)));
    var recs := Records(file);
    forall ident | ident in recs
      ensures Shaped(identify, ident, recs[ident]) && Filled(recs[ident]) <==> Genuine(identify, ident, recs[ident])
    {
    }
  }

  // ---------------------------------------------------------------------------
  // What is written
  // ---------------------------------------------------------------------------

  function Encode(acks: AckMap): Json {
    Obj(map[SCHEMA_VERSION := Int(1), ACKS := Obj(acks)])
  }

  function Persisted(acks: AckMap, sizeOf: Json -> nat): File {
    Stored(sizeOf(Encode(acks)), Document(Encode(acks)))
  }

  function RecordOf(plugin: Text, effective: Text, digest: Text, gen: Text, now: int): (r: Json)
    ensures r.Obj? && r.fields.Keys == {PLUGIN, EFFECTIVE, DIGEST, GEN, TS}
    ensures r.fields[PLUGIN] == Str(plugin) && r.fields[EFFECTIVE] == Str(effective) && r.fields[DIGEST] == Str(digest)
    ensures r.fields[GEN] == Str(gen) && r.fields[TS] == Int(now)
  {
    FieldNamesDiffer();
    Obj(map[PLUGIN := Str(plugin), EFFECTIVE := Str(effective), DIGEST := Str(digest), GEN := Str(gen), TS := Int(now)])
  }

  lemma FieldNamesDiffer()
    ensures SCHEMA_VERSION != ACKS
    ensures PLUGIN != EFFECTIVE && PLUGIN != DIGEST && PLUGIN != GEN && PLUGIN != TS
    ensures EFFECTIVE != DIGEST && EFFECTIVE != GEN && EFFECTIVE != TS
    ensures DIGEST != GEN && DIGEST != TS && GEN != TS
  {
    assert |SCHEMA_VERSION.chars| == 14 && |ACKS.chars| == 4;
    assert |PLUGIN.chars| == 6 && |EFFECTIVE.chars| == 9 && |DIGEST.chars| == 18 && |GEN.chars| == 3 && |TS.chars| == 2;
  }

  /** A written store is read back exactly when it fits and no declared name in it is empty. */
  lemma WrittenReadsBack(identify: Identify, acks: AckMap, sizeOf: Json -> nat)
    requires AllShaped(identify, acks)
    ensures Loaded(identify, Persisted(acks, sizeOf)) == acks
       <==> acks == map[] || (sizeOf(Encode(acks)) <= MAX_ACKS_BYTES && AllFilled(acks))
  {
    FieldNamesDiffer();
    if sizeOf(Encode(acks)) <= MAX_ACKS_BYTES {
      assert Records(Persisted(acks, sizeOf)) == acks;
    }
  }

  // ---------------------------------------------------------------------------
  // The store
  // ---------------------------------------------------------------------------

  /** What a revocation names: `revoke_plugin`, or `revoke_effective` across every digest. */
  datatype Revocation = OfPlugin(plugin: Text) | OfCallback(plugin: Text, effective: Text)

  predicate Matches(rec: Json, what: Revocation) {
    && rec.Obj? && PLUGIN in rec.fields && rec.fields[PLUGIN] == Str(what.plugin)
    && (what.OfCallback? ==> EFFECTIVE in rec.fields && rec.fields[EFFECTIVE] == Str(what.effective))
  }

  class CallbackAckStore {
    const identify: Identify
    const sizeOf: Json -> nat
    var file: File
    var acks: AckMap

    /** Memory is what was loaded from the file, or what was last written to it. */
    ghost predicate Valid()
      reads this
    {
      AllShaped(identify, acks) && (acks == Loaded(identify, file) || file == Persisted(acks, sizeOf))
    }

    constructor (file: File, identify: Identify, sizeOf: Json -> nat)
      ensures Valid() && this.file == file && this.identify == identify && this.sizeOf == sizeOf
      ensures acks == Loaded(identify, file)
    {
      var loaded := Load(identify, file);
      this.file, this.identify, this.sizeOf := file, identify, sizeOf;
      this.acks := loaded;
    }

    /** At every moment of every run, a restart would load the acks in memory exactly when this holds. */
    lemma ReloadExactly()
      requires Valid()
      ensures Loaded(identify, file) == acks
         <==> acks == map[] || (file.Stored? && file.size <= MAX_ACKS_BYTES && AllFilled(acks))
    {
      if file == Persisted(acks, sizeOf) {
        WrittenReadsBack(identify, acks, sizeOf);
      }
    }

    /** `_persist_candidate_locked`, then publish; a failed write changes neither file nor memory. */
    method Persist(candidate: AckMap) returns (ok: bool)
      requires AllShaped(identify, candidate) && Valid()
      modifies `file, `acks
      ensures Valid()
      ensures if ok then acks == candidate && file == Persisted(candidate, sizeOf)
              else acks == old(acks) && file == old(file)
    {
      ok := *;
      if ok {
        file := Persisted(candidate, sizeOf);
        acks := candidate;
      }
    }

    /** What approvals and revocations do while nobody holds the lock. */
    method Meanwhile()
      requires Valid()
      modifies `file, `acks
      ensures Valid()
    {
      var steps: nat :| true;
      for i := 0 to steps
        invariant Valid()
      {
        var plugin: Text, effective: Text, digest: Text, now: int, uuid: Text, what: Revocation := *, *, *, *, *, *;
        var approve: bool := *;
        if approve && uuid != Text("") {
          var _ := Record(plugin, effective, digest, now, uuid);
        } else {
          var _, _ := Revoke(what);
        }
      }
    }

    /** `record`: a live ack keeps its generation, any other approval gets the fresh one. */
    method Record(plugin: Text, effective: Text, digest: Text, now: int, uuid: Text) returns (ok: bool)
      requires Valid() && uuid != Text("")
      modifies `file, `acks
      ensures Valid()
      ensures !ok ==> acks == old(acks) && file == old(file)
      ensures ok ==> var ident := identify(plugin, effective, digest);
                acks.Keys == old(acks).Keys + {ident} && (forall i | i in acks && i != ident :: acks[i] == old(acks)[i])
                && acks[ident].Obj? && GEN in acks[ident].fields
                && acks[ident] == RecordOf(plugin, effective, digest, acks[ident].fields[GEN].text, now)
                && acks[ident].fields[GEN] == if ident in old(acks) then old(acks)[ident].fields[GEN] else Str(uuid)
    {
      var ident := identify(plugin, effective, digest);
      var gen := if ident in acks && NonEmpty(acks[ident].fields[GEN]) then acks[ident].fields[GEN].text else uuid;
      ok := Persist(acks[ident := RecordOf(plugin, effective, digest, gen, now)]);
    }

    /** `_revoke`: every matching ack, and no other; nothing to remove writes nothing. */
    method Revoke(what: Revocation) returns (ok: bool, removed: set<Text>)
      requires Valid()
      modifies `file, `acks
      ensures Valid()
      ensures removed == set i | i in old(acks) && Matches(old(acks)[i], what)
      ensures forall i | i in old(acks) :: i in removed <==>
                && old(acks)[i].fields[Text("plugin")] == Str(what.plugin)
                && (what.OfCallback? ==> old(acks)[i].fields[Text("effective")] == Str(what.effective))
      ensures removed == {} ==> ok && file == old(file)
      ensures acks == if ok then old(acks) - removed else old(acks)
      ensures !ok ==> file == old(file)
    {
      removed := set i | i in acks && Matches(acks[i], what);
      if removed == {} {
        return true, {};
      }
      ok := Persist(acks - removed);
    }

    /** `prune_stale`: every ack outside the keep-set, and no other. */
    method PruneStale(valid: set<Text>) returns (ok: bool, removed: set<Text>)
      requires Valid()
      modifies `file, `acks
      ensures Valid()
      ensures removed == old(acks).Keys - valid
      ensures removed == {} ==> ok && file == old(file)
      ensures acks == if ok then old(acks) - removed else old(acks)
      ensures !ok ==> file == old(file)
    {
      removed := set i | i in acks && i !in valid;
      if removed == {} {
        return true, {};
      }
      ok := Persist(acks - removed);
    }
  }

  /** Recording an empty name is accepted, and the next restart then loads no consent at all. */
  method EmptyNameLosesTheStore(store: CallbackAckStore, other: Text, uuid: Text) returns (ok: bool)
    requires store.Valid() && uuid != Text("")
    modifies store
    ensures store.Valid()
    ensures ok ==> store.acks != map[] && Loaded(store.identify, store.file) == map[]
  {
    ok := store.Record(Text(""), other, other, 0, uuid);
    if ok {
      var ident := store.identify(Text(""), other, other);
      assert !Filled(store.acks[ident]);
      store.ReloadExactly();
    }
  }
}
