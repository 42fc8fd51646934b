/**
 The documents the config reconciler reads and writes (config_sync.py, `_entry_doc`, `_dump`).

 YAML parsing, YAML dumping and schema validation are libraries: they enter as the function
 fields of `Codec`, with nothing assumed about them here.
 */
module Documents {

  datatype Option<+T> = None | Some(value: T)

  /** Bytes of one file. */
  datatype Content = Content(bytes: string)

  /** A path relative to each of the three roots. */
  datatype Path = Path(rel: string)

  /** The identity of an entry within its file. */
  datatype Name = Name(text: string)

  datatype Number = Finite(value: real) | Infinite(positive: bool) | NaN

  /** A parsed document.  Dict order is not kept, because Python compares dicts without it. */
  datatype Yaml =
    | Text(text: string)
    | Null
    | Bool(flag: bool)
    | Int(whole: int)
    | Float(float: Number)
    | Other(repr: string)                  // dates, binaries: equal to themselves alone
    | List(items: seq<Yaml>)
    | Mapping(fields: map<string, Yaml>)

  datatype Codec = Codec(
    decodes: Content -> bool,              // read_text(encoding="utf-8") succeeds
    lonePlaceholder: Content -> bool,      // config.text_has_lone_placeholder
    parse: Content -> Option<Yaml>,        // _parse: None stands for _UNPARSEABLE
    dump: Yaml -> Content,                 // yaml.safe_dump
    validText: (Path, Content) -> bool,    // validate_text(rel, text) is None
    validFile: (Path, Content) -> bool)    // validate(rel) is None for a file holding this content

  // ---------------------------------------------------------------------------
  // Python's ==
  // ---------------------------------------------------------------------------

  /** The number a scalar compares as: True is 1, and 1 is 1.0. */
  function NumberOf(y: Yaml): Option<Number> {
    match y
    case Bool(b) => Some(Finite(if b then 1.0 else 0.0))
    case Int(n) => Some(Finite(n as real))
    case Float(f) => Some(f)
    case _ => None
  }

  /**
   Python's comparison of two values inside a dict or a list, where an object is equal to itself; the
   parser makes one object of every NaN, so inside a container a NaN equals a NaN.
   */
  predicate Same(a: Yaml, b: Yaml)
    decreases a
  {
    if NumberOf(a).Some? || NumberOf(b).Some? then NumberOf(a) == NumberOf(b)
    else
      match a
      case List(items) => b.List? && |items| == |b.items| && forall i | 0 <= i < |items| :: Same(items[i], b.items[i])
      case Mapping(fields) =>
        && b.Mapping? && fields.Keys == b.fields.Keys
        && forall k | k in fields :: k in b.fields && Same(fields[k], b.fields[k])
      case _ => a == b
  }

  lemma {:induction false} SameReflexive(a: Yaml)
    ensures Same(a, a)
    decreases a
  {
    match a
    case List(items) => forall i | 0 <= i < |items| ensures Same(items[i], items[i]) { SameReflexive(items[i]); }
    case Mapping(fields) => forall k | k in fields ensures Same(fields[k], fields[k]) { SameReflexive(fields[k]); }
    case _ =>
  }

  lemma {:induction false} SameSymmetric(a: Yaml, b: Yaml)
    requires Same(a, b)
    ensures Same(b, a)
    decreases a
  {
    if NumberOf(a).None? {
      match a
      case List(items) =>
        forall i | 0 <= i < |items| ensures Same(b.items[i], items[i]) { SameSymmetric(items[i], b.items[i]); }
      case Mapping(fields) =>
        forall k | k in fields ensures Same(b.fields[k], fields[k]) { SameSymmetric(fields[k], b.fields[k]); }
      case _ =>
    }
  }

  lemma {:induction false} SameTransitive(a: Yaml, b: Yaml, c: Yaml)
    requires Same(a, b) && Same(b, c)
    ensures Same(a, c)
    decreases a
  {
    if NumberOf(a).None? {
      match a
      case List(items) =>
        forall i | 0 <= i < |items|
          ensures Same(items[i], c.items[i])
        {
          SameTransitive(items[i], b.items[i], c.items[i]);
        }
      case Mapping(fields) =>
        forall k | k in fields
          ensures Same(fields[k], c.fields[k])
        {
          SameTransitive(fields[k], b.fields[k], c.fields[k]);
        }
      case _ =>
    }
  }

  /** The same for an entry that may be missing. */
  predicate Alike(a: Option<Yaml>, b: Option<Yaml>) {
    match (a, b)
    case (None, None) => true
    case (Some(x), Some(y)) => Same(x, y)
    case _ => false
  }

  lemma AlikeReflexive(a: Option<Yaml>)
    ensures Alike(a, a)
  {
    if a.Some? {
      SameReflexive(a.value);
    }
  }

  lemma AlikeSymmetric(a: Option<Yaml>, b: Option<Yaml>)
    ensures Alike(a, b) <==> Alike(b, a)
  {
    if a.Some? && b.Some? {
      if Same(a.value, b.value) {
        SameSymmetric(a.value, b.value);
      }
      if Same(b.value, a.value) {
        SameSymmetric(b.value, a.value);
      }
    }
  }

  lemma AlikeTransitive(a: Option<Yaml>, b: Option<Yaml>, c: Option<Yaml>)
    requires Alike(a, b) && Alike(b, c)
    ensures Alike(a, c)
  {
    if a.Some? {
      SameTransitive(a.value, b.value, c.value);
    }
  }

  /** `(list_key, identity_key)` of a merge-eligible file. */
  datatype MergeSpec = MergeSpec(listKey: string, identityKey: string)

  // ---------------------------------------------------------------------------
  // Entries: a Python dict from names to entries, with its insertion order
  // ---------------------------------------------------------------------------

  ghost predicate Distinct<T>(s: seq<T>) {
    forall i, j | 0 <= i < j < |s| :: s[i] != s[j]
  }

  datatype Entries = Entries(names: seq<Name>, at: map<Name, Yaml>) {
    ghost predicate Valid() {
      && Distinct(names)
      && (forall i | 0 <= i < |names| :: names[i] in at)
      && (forall n | n in at :: n in names)
    }

    function Get(n: Name): Option<Yaml> {
      if n in at then Some(at[n]) else None
    }

    function Values(): seq<Yaml>
      requires forall n | n in names :: n in at
    {
      seq(|names|, i requires 0 <= i < |names| => at[names[i]])
    }
  }

  const NO_ENTRIES := Entries([], map[])

  datatype EntryDoc = EntryDoc(topLevel: map<string, Yaml>, entries: Entries)

  // ---------------------------------------------------------------------------
  // Splitting a document into entries
  // ---------------------------------------------------------------------------

  /** The identity of one list item, if it is a mapping with a non-empty string under the key. */
  function Identity(item: Yaml, identityKey: string): Option<Name> {
    if item.Mapping? && identityKey in item.fields && item.fields[identityKey].Text? &&
       item.fields[identityKey].text != ""
    then Some(Name(item.fields[identityKey].text))
    else None
  }

  function EntriesOf(items: seq<Yaml>, identityKey: string): Option<Entries> {
    if items == [] then Some(NO_ENTRIES) else
      var last := items[|items| - 1];
      match EntriesOf(items[..|items| - 1], identityKey)
      case None => None
      case Some(before) =>
        match Identity(last, identityKey)
        case None => None
        case Some(id) =>
          if id in before.at then None else Some(Entries(before.names + [id], before.at[id := last]))
  }

  /** `e` lists exactly `items`, in their order, each under its own identity. */
  ghost predicate Lists(e: Entries, items: seq<Yaml>, identityKey: string) {
    && e.Valid()
    && |e.names| == |items|
    && forall i | 0 <= i < |items| ::
         Identity(items[i], identityKey) == Some(e.names[i]) &&
         e.names[i] in e.at && e.at[e.names[i]] == items[i]
  }

  ghost predicate WellFormedItems(items: seq<Yaml>, identityKey: string) {
    && (forall i | 0 <= i < |items| :: Identity(items[i], identityKey).Some?)
    && (forall i, j | 0 <= i < j < |items| ::
          Identity(items[i], identityKey) != Identity(items[j], identityKey))
  }

  /** The shape gate: a list splits into entries exactly when every item has an identity of its own. */
  lemma {:induction false} EntriesOfSound(items: seq<Yaml>, identityKey: string)
    ensures EntriesOf(items, identityKey).Some? <==> WellFormedItems(items, identityKey)
    ensures EntriesOf(items, identityKey).Some? ==>
              Lists(EntriesOf(items, identityKey).value, items, identityKey)
  {
    if items != [] {
      var n := |items| - 1;
      var init := items[..n];
      assert items == init + [items[n]];
      EntriesOfSound(init, identityKey);
      match EntriesOf(init, identityKey)
      case None =>
        IllFormedPrefix(init, items[n], identityKey);
      case Some(before) =>
        ListsStep(before, init, items[n], identityKey);
    }
  }

  lemma IllFormedPrefix(init: seq<Yaml>, last: Yaml, identityKey: string)
    requires !WellFormedItems(init, identityKey)
    ensures !WellFormedItems(init + [last], identityKey)
  {
    var items := init + [last];
    assert forall i | 0 <= i < |init| :: items[i] == init[i];
  }

  lemma ListsStep(before: Entries, init: seq<Yaml>, last: Yaml, identityKey: string)
    requires Lists(before, init, identityKey)
    ensures var id := Identity(last, identityKey);
            if id.Some? && id.value !in before.at then
              Lists(Entries(before.names + [id.value], before.at[id.value := last]), init + [last], identityKey) &&
              WellFormedItems(init + [last], identityKey)
            else
              !WellFormedItems(init + [last], identityKey)
  {
    var items := init + [last];
    var id := Identity(last, identityKey);
    assert items[|init|] == last;
    if id.Some? {
      if id.value in before.at {
        var i :| 0 <= i < |init| && before.names[i] == id.value;
        assert Identity(items[i], identityKey) == id;
      } else {
        forall i | 0 <= i < |init|
          ensures Identity(items[i], identityKey) == Some(before.names[i]) && before.names[i] != id.value
        {
          assert items[i] == init[i] && before.names[i] in before.at;
        }
        WellFormedFromNames(items, before.names + [id.value], identityKey);
        ValidSnoc(before, id.value, last);
      }
    }
  }

  lemma WellFormedFromNames(items: seq<Yaml>, names: seq<Name>, identityKey: string)
    requires |items| == |names| && Distinct(names)
    requires forall i | 0 <= i < |items| :: Identity(items[i], identityKey) == Some(names[i])
    ensures WellFormedItems(items, identityKey)
  {
    forall i, j | 0 <= i < j < |items|
      ensures Identity(items[i], identityKey) != Identity(items[j], identityKey)
    {
      assert names[i] != names[j];
    }
  }

  lemma ValidSnoc(e: Entries, n: Name, y: Yaml)
    requires e.Valid() && n !in e.at
    ensures Entries(e.names + [n], e.at[n := y]).Valid()
  {
    var f := Entries(e.names + [n], e.at[n := y]);
    assert f.names[|e.names|] == n;
    assert forall m | m in e.names :: m in f.names;
  }

  lemma ListsUnique(e: Entries, f: Entries, items: seq<Yaml>, identityKey: string)
    requires Lists(e, items, identityKey) && Lists(f, items, identityKey)
    ensures e == f
  {
    forall i | 0 <= i < |items|
      ensures e.names[i] == f.names[i]
    {
      assert Identity(items[i], identityKey) == Some(e.names[i]);
    }
    assert e.names == f.names;
    assert forall n | n in e.names :: n in e.at && n in f.at;
    assert e.at.Keys == f.at.Keys;
    forall n | n in e.at
      ensures e.at[n] == f.at[n]
    {
      var i :| 0 <= i < |items| && e.names[i] == n;
    }
  }

  /** What `_entry_doc` returns for a text. */
  function EntryDocOf(codec: Codec, text: Content, spec: MergeSpec): Option<EntryDoc> {
    if codec.lonePlaceholder(text) then None else
      match codec.parse(text)
      case None => None
      case Some(doc) =>
        if !(doc.Mapping? && spec.listKey in doc.fields && doc.fields[spec.listKey].List?) then None else
          match EntriesOf(doc.fields[spec.listKey].items, spec.identityKey)
          case None => None
          case Some(entries) => Some(EntryDoc(doc.fields - {spec.listKey}, entries))
  }

  /** `_entry_doc`: refuse on any irregularity, else fill the dict in one loop over the raw list. */
  method ParseEntryDoc(codec: Codec, text: Content, spec: MergeSpec) returns (r: Option<EntryDoc>)
    ensures r == EntryDocOf(codec, text, spec)
    ensures r.Some? ==> r.value.entries.Valid()
  {
    if codec.lonePlaceholder(text) {
      return None;
    }
    var parsed := codec.parse(text);
    if parsed.None? || !parsed.value.Mapping? {
      return None;
    }
    var doc := parsed.value.fields;
    if spec.listKey !in doc || !doc[spec.listKey].List? {
      return None;
    }
    var raw := doc[spec.listKey].items;
    var entries := NO_ENTRIES;
    for i := 0 to |raw|
      invariant EntriesOf(raw[..i], spec.identityKey) == Some(entries)
    {
      assert raw[..i + 1][..i] == raw[..i];
      var id := Identity(raw[i], spec.identityKey);
      if id.None? || id.value in entries.at {
        RefusalSticks(raw, i + 1, spec.identityKey);
        return None;
      }
      entries := Entries(entries.names + [id.value], entries.at[id.value := raw[i]]);
    }
    assert raw[..|raw|] == raw;
    EntriesOfSound(raw, spec.identityKey);
    return Some(EntryDoc(doc - {spec.listKey}, entries));
  }

  lemma {:induction false} RefusalSticks(items: seq<Yaml>, i: nat, identityKey: string)
    requires i <= |items| && EntriesOf(items[..i], identityKey).None?
    ensures EntriesOf(items, identityKey).None?
    decreases |items|
  {
    if i < |items| {
      assert items[..|items| - 1][..i] == items[..i];
      RefusalSticks(items[..|items| - 1], i, identityKey);
    } else {
      assert items[..i] == items;
    }
  }

  lemma EntryDocValid(codec: Codec, text: Content, spec: MergeSpec)
    ensures var d := EntryDocOf(codec, text, spec); d.Some? ==> d.value.entries.Valid()
  {
    match codec.parse(text)
    case None =>
    case Some(doc) =>
      if doc.Mapping? && spec.listKey in doc.fields && doc.fields[spec.listKey].List? {
        EntriesOfSound(doc.fields[spec.listKey].items, spec.identityKey);
      }
  }

  /** What the gate lets through, and what it makes of it: the other fields, and the items under their identities. */
  lemma EntryDocExactly(codec: Codec, text: Content, spec: MergeSpec)
    ensures EntryDocOf(codec, text, spec).Some? <==>
      && !codec.lonePlaceholder(text) && codec.parse(text).Some? && codec.parse(text).value.Mapping?
      && spec.listKey in codec.parse(text).value.fields && codec.parse(text).value.fields[spec.listKey].List?
      && WellFormedItems(codec.parse(text).value.fields[spec.listKey].items, spec.identityKey)
    ensures EntryDocOf(codec, text, spec).Some? ==>
      var fields, d := codec.parse(text).value.fields, EntryDocOf(codec, text, spec).value;
      && d.topLevel == (map k | k in fields && k != spec.listKey :: fields[k])
      && Lists(d.entries, fields[spec.listKey].items, spec.identityKey)
  {
    if codec.parse(text).Some? && codec.parse(text).value.Mapping? {
      var fields := codec.parse(text).value.fields;
      if spec.listKey in fields && fields[spec.listKey].List? {
        EntriesOfSound(fields[spec.listKey].items, spec.identityKey);
      }
    }
  }

  /** An item is named by the non-empty string under the key, and by nothing else. */
  lemma IdentityExactly(item: Yaml, key: string, n: Name)
    ensures Identity(item, key) == Some(n) <==>
            n.text != "" && item.Mapping? && key in item.fields && item.fields[key] == Text(n.text)
  {
  }

  /** True, 1 and 1.0 are one value and 0 another; a text is never a number. */
  lemma NumbersCompare(s: string, r: real, n: int, b: bool)
    ensures Same(Bool(b), Int(n)) <==> n == if b then 1 else 0
    ensures Same(Int(n), Float(Finite(r))) <==> n as real == r
    ensures Same(Bool(b), Float(Finite(r))) <==> r == if b then 1.0 else 0.0
    ensures !Same(Text(s), Int(n)) && !Same(Text(s), Bool(b)) && !Same(Null, Int(n)) && !Same(Null, Bool(b))
    ensures Same(Float(NaN), Float(NaN)) && !Same(Float(NaN), Float(Finite(r)))
  {
  }

  /** `_dump`: the top-level fields with the entries put back as a list. */
  function Dump(codec: Codec, spec: MergeSpec, topLevel: map<string, Yaml>, entries: Entries): Content
    requires entries.Valid()
  {
    codec.dump(Mapping(topLevel[spec.listKey := List(entries.Values())]))
  }

  /** `_same_document`: a text that does not parse, or is nothing but a NaN, is the same as nothing. */
  predicate SameDocument(codec: Codec, a: Content, b: Content) {
    && codec.parse(a).Some? && codec.parse(b).Some?
    && Same(codec.parse(a).value, codec.parse(b).value) && codec.parse(a) != Some(Float(NaN))
  }

  /** A text that does not parse is the same document as nothing, itself included. */
  lemma UnparsedIsNothing(codec: Codec, a: Content, b: Content)
    requires codec.parse(a).None? || codec.parse(b).None?
    ensures !SameDocument(codec, a, b)
  {
  }

  /**
   Reading back what `_dump` wrote gives the same entries, for a parser that inverts the dumper.
   Each entry must still carry the identity it is filed under.
   */
  lemma DumpReadsBack(codec: Codec, spec: MergeSpec, topLevel: map<string, Yaml>, entries: Entries)
    requires entries.Valid()
    requires forall n | n in entries.names :: Identity(entries.at[n], spec.identityKey) == Some(n)
    requires var y := Mapping(topLevel[spec.listKey := List(entries.Values())]);
             codec.parse(codec.dump(y)) == Some(y) && !codec.lonePlaceholder(codec.dump(y))
    ensures EntryDocOf(codec, Dump(codec, spec, topLevel, entries), spec) ==
            Some(EntryDoc(topLevel - {spec.listKey}, entries))
  {
    var values := entries.Values();
    assert Lists(entries, values, spec.identityKey);
    WellFormedFromNames(values, entries.names, spec.identityKey);
    EntriesOfSound(values, spec.identityKey);
    ListsUnique(entries, EntriesOf(values, spec.identityKey).value, values, spec.identityKey);
    assert topLevel[spec.listKey := List(values)] - {spec.listKey} == topLevel - {spec.listKey};
  }

  /** Entries read from a document carry the identity they are filed under. */
  lemma EntryDocIdentities(codec: Codec, text: Content, spec: MergeSpec)
    ensures var d := EntryDocOf(codec, text, spec);
            d.Some? ==> forall n | n in d.value.entries.at ::
                          Identity(d.value.entries.at[n], spec.identityKey) == Some(n)
  {
    var d := EntryDocOf(codec, text, spec);
    if d.Some? {
      var raw := codec.parse(text).value.fields[spec.listKey].items;
      EntriesOfSound(raw, spec.identityKey);
      var e := d.value.entries;
      forall n | n in e.at
        ensures Identity(e.at[n], spec.identityKey) == Some(n)
      {
        assert n in e.names;
        var i :| 0 <= i < |e.names| && e.names[i] == n;
        assert e.at[e.names[i]] == raw[i];
      }
    }
  }
}
