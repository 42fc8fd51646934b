/**
 `${VAR}` placeholders in YAML documents (config.py): resolving them as each scalar is constructed,
 and the test that decides whether a file may be rewritten through an environment-free parse and dump.

 YAML itself is a parameter: how plain text is typed, how other tags are built, how a text is read
 as a document of its own, and how the dumper writes texts and atoms.
 */
module EnvScalar {
  import opened Dicts

  type Env = map<string, string>

  // ---------------------------------------------------------------------------
  // Placeholders
  // ---------------------------------------------------------------------------

  predicate IsLetter(c: char) {
    'a' <= c <= 'z' || 'A' <= c <= 'Z' || c == '_'
  }

  predicate IsNameChar(c: char) {
    IsLetter(c) || '0' <= c <= '9'
  }

  /** The end of the run of name characters that starts at `i`. */
  function NameEnd(s: string, i: nat): (k: nat)
    requires i <= |s|
    ensures i <= k <= |s|
    decreases |s| - i
  {
    if i < |s| && IsNameChar(s[i]) then NameEnd(s, i + 1) else i
  }

  /** The length of the placeholder `s` starts with; 0 for none. */
  function MatchEnd(s: string): (k: nat)
    ensures k <= |s| && (k > 0 ==> k >= 4)
  {
    if |s| < 4 || s[0] != '$' || s[1] != '{' || !IsLetter(s[2]) then 0
    else
      var k := NameEnd(s, 3);
      if k < |s| && s[k] == '}' then k + 1 else 0
  }

  /** `_ENV_RE.fullmatch`. */
  predicate IsLone(s: string) {
    s != "" && MatchEnd(s) == |s|
  }

  function Variable(s: string): string
    requires MatchEnd(s) > 0
  {
    s[2..MatchEnd(s) - 1]
  }

  /** `_substitute_env`: an unset variable keeps its placeholder. */
  function Substitute(env: Env, s: string): string {
    if s == "" then ""
    else if MatchEnd(s) > 0 then
      (if Variable(s) in env then env[Variable(s)] else s[..MatchEnd(s)]) + Substitute(env, s[MatchEnd(s)..])
    else [s[0]] + Substitute(env, s[1..])
  }

  lemma {:induction false} SubstituteNothing(s: string)
    ensures Substitute(map[], s) == s
  {
    if s != "" {
      var k := if MatchEnd(s) > 0 then MatchEnd(s) else 1;
      SubstituteNothing(s[k..]);
      assert s == s[..k] + s[k..];
    }
  }

  lemma SubstituteLone(env: Env, s: string)
    requires IsLone(s)
    ensures Substitute(env, s) == if Variable(s) in env then env[Variable(s)] else s
  {
    assert s[MatchEnd(s)..] == "" && s[..MatchEnd(s)] == s;
    assert Substitute(env, s[MatchEnd(s)..]) == "";
  }

  /** A placeholder is `${`, a letter or underscore, any letters, digits and underscores, and `}`. */
  lemma LoneExactly(s: string)
    ensures IsLone(s) <==>
      && |s| >= 4 && s[0] == '$' && s[1] == '{' && s[|s| - 1] == '}' && IsLetter(s[2])
      && forall i | 3 <= i < |s| - 1 :: IsNameChar(s[i])
  {
    if |s| >= 4 && s[0] == '$' && s[1] == '{' && IsLetter(s[2]) {
      NameEndExactly(s, 3);
    }
  }

  lemma {:induction false} NameEndExactly(s: string, i: nat)
    requires i <= |s|
    ensures forall j | i <= j < NameEnd(s, i) :: IsNameChar(s[j])
    ensures NameEnd(s, i) < |s| ==> !IsNameChar(s[NameEnd(s, i)])
    decreases |s| - i
  {
    if i < |s| && IsNameChar(s[i]) {
      NameEndExactly(s, i + 1);
    }
  }

  /** The matching prefix of a text does not depend on what follows it. */
  lemma MatchPrefix(p: string, s: string)
    requires IsLone(p)
    ensures MatchEnd(p + s) == |p| && Variable(p + s) == Variable(p)
  {
    LoneExactly(p);
    NameEndExactly(p + s, 3);
    assert forall i | 0 <= i < |p| :: (p + s)[i] == p[i];
    assert !IsNameChar('}');
    assert NameEnd(p + s, 3) == |p| - 1;
    assert (p + s)[2..|p| - 1] == p[2..|p| - 1];
  }

  /** What stands before the first placeholder is left as it is. */
  lemma {:induction false} SubstituteLiteral(env: Env, literal: string, s: string)
    requires '$' !in literal
    ensures Substitute(env, literal + s) == literal + Substitute(env, s)
  {
    if literal == "" {
      assert literal + s == s;
    } else {
      assert literal[0] in literal;
      SubstituteLiteral(env, literal[1..], s);
      assert (literal + s)[1..] == literal[1..] + s && literal == [literal[0]] + literal[1..];
    }
  }

  /** Each placeholder is resolved, and what follows it like any text. */
  lemma {:induction false} SubstitutePlaceholder(env: Env, p: string, s: string)
    requires IsLone(p)
    ensures Substitute(env, p + s) == (if Variable(p) in env then env[Variable(p)] else p) + Substitute(env, s)
  {
    MatchPrefix(p, s);
    assert (p + s)[|p|..] == s && (p + s)[..|p|] == p;
  }

  // ---------------------------------------------------------------------------
  // Documents
  // ---------------------------------------------------------------------------

  datatype Style = Plain | Quoted

  /** How the document tags a scalar: not at all, with `!`, or with a tag that resolves to this URI. */
  datatype Tag = Untagged | NonSpecific | Uri(uri: string)

  datatype Leaf = Leaf(text: string, style: Style, tag: Tag)

  datatype Node =
    | Scalar(leaf: Leaf)
    | Sequence(items: seq<Node>)
    | Mapping(keys: seq<Leaf>, values: seq<Node>)

  datatype Value =
    | Text(text: string)
    | Atom(id: string)                    // any scalar that is not text
    | List(items: seq<Value>)
    | Dict(keys: seq<Value>, values: seq<Value>)

  datatype Typed = IsText | IsAtom(id: string) | Fails

  datatype Made = Made(id: string) | Raised

  datatype Yaml = Yaml(
    implicit: string -> Typed,            // what a plain scalar is, by its text
    typed: (string, string) -> Made,      // what a scalar under another tag is
    readBack: string -> Maybe,            // `safe_load` of a text on its own
    space: char -> bool,                  // `str.strip`
    style: string -> Style,               // how `safe_dump` writes a text
    atom: string -> Leaf)                 // how `safe_dump` writes an atom

  datatype Maybe = Nothing | Just(value: Value)

  const STR_TAG := "tag:yaml.org,2002:str"

  function Strip(space: char -> bool, s: string): string {
    if s == "" then ""
    else if space(s[0]) then Strip(space, s[1..])
    else if space(s[|s| - 1]) then Strip(space, s[..|s| - 1])
    else s
  }

  /** What type the loader gives a scalar; `!` types a quoted scalar as if it were plain. */
  function TypeOf(yaml: Yaml, n: Leaf): Typed {
    match n.tag
    case Untagged => if n.style.Plain? then yaml.implicit(n.text) else IsText
    case NonSpecific => yaml.implicit(n.text)
    case Uri(u) =>
      if u == STR_TAG then IsText
      else if yaml.typed(u, n.text).Made? then IsAtom(yaml.typed(u, n.text).id)
      else Fails
  }

  /** Neither quoted nor explicitly tagged. */
  predicate Undeclared(n: Leaf) {
    n.style.Plain? && !n.tag.Uri?
  }

  /** `_construct_env_scalar`. */
  function ConstructText(yaml: Yaml, env: Env, n: Leaf): Value {
    var resolved := Substitute(env, n.text);
    if resolved == n.text then Text(n.text)
    else if !Undeclared(n) || !IsLone(Strip(yaml.space, n.text)) then Text(resolved)
    else
      match yaml.readBack(resolved)
      case Just(v) => v
      case Nothing => Text(resolved)
  }

  function ConstructLeaf(yaml: Yaml, env: Env, n: Leaf): Maybe {
    match TypeOf(yaml, n)
    case IsText => Just(ConstructText(yaml, env, n))
    case IsAtom(a) => Just(Atom(a))
    case Fails => Nothing
  }

  /**
   What a scalar means.  Quoted, or tagged as a string, it is text with its placeholders resolved; plain
   and lone it is what its value reads as, or that text; plain it is otherwise typed by YAML; unset
   variables leave it alone.
   */
  lemma ScalarMeans(yaml: Yaml, env: Env, s: string, style: Style, n: Leaf)
    requires n.text == s && n.style == style
    ensures n.tag == Uri("tag:yaml.org,2002:str") || (n.tag == Untagged && style.Quoted?) ==>
              ConstructLeaf(yaml, env, n) == Just(Text(Substitute(env, s)))
    ensures n.tag == Untagged && style.Plain? && yaml.implicit(s).IsAtom? ==>
              ConstructLeaf(yaml, env, n) == Just(Atom(yaml.implicit(s).id))
    ensures n.tag == Untagged && style.Plain? && yaml.implicit(s).IsText? && !IsLone(Strip(yaml.space, s)) ==>
              ConstructLeaf(yaml, env, n) == Just(Text(Substitute(env, s)))
    ensures && n.tag == Untagged && style.Plain? && yaml.implicit(s).IsText? && IsLone(Strip(yaml.space, s))
            && Substitute(env, s) != s && yaml.readBack(Substitute(env, s)).Just?
            ==> ConstructLeaf(yaml, env, n) == yaml.readBack(Substitute(env, s))
    ensures n.tag == Untagged && yaml.implicit(s).IsText? && Substitute(env, s) == s ==>
              ConstructLeaf(yaml, env, n) == Just(Text(s))
  {
  }

  predicate Hashable(v: Value) {
    v.Text? || v.Atom?
  }

  /** The dict of these pairs, filled in order. */
  function DictOf(keys: seq<Value>, values: seq<Value>): (r: Value)
    requires |keys| == |values|
    ensures r.Dict? && |r.keys| == |r.values|
  {
    var d := Build(keys, values);
    Dict(d.keys, d.values)
  }

  /** Several nodes: all of them, or a failure. */
  datatype Many = Broken | All(values: seq<Value>)

  function Load(yaml: Yaml, env: Env, n: Node): Maybe
    decreases n, 0
  {
    match n
    case Scalar(leaf) => ConstructLeaf(yaml, env, leaf)
    case Sequence(items) =>
      (match LoadAll(yaml, env, items)
       case All(vs) => Just(List(vs))
       case Broken => Nothing)
    case Mapping(keys, values) =>
      var ks := LoadKeys(yaml, env, keys);
      var vs := LoadAll(yaml, env, values);
      if ks.All? && vs.All? && |keys| == |values| then Just(DictOf(ks.values, vs.values)) else Nothing
  }

  function LoadAll(yaml: Yaml, env: Env, ns: seq<Node>): (r: Many)
    ensures r.All? ==> |r.values| == |ns|
    decreases ns, 1
  {
    if ns == [] then All([])
    else
      var last := Load(yaml, env, ns[|ns| - 1]);
      var init := LoadAll(yaml, env, ns[..|ns| - 1]);
      if init.All? && last.Just? then All(init.values + [last.value]) else Broken
  }

  /** Keys must be hashable; a placeholder that reads back as a list is not. */
  function LoadKeys(yaml: Yaml, env: Env, keys: seq<Leaf>): (r: Many)
    ensures r.All? ==> |r.values| == |keys|
  {
    if keys == [] then All([])
    else
      var last := ConstructLeaf(yaml, env, keys[|keys| - 1]);
      var init := LoadKeys(yaml, env, keys[..|keys| - 1]);
      if init.All? && last.Just? && Hashable(last.value) then All(init.values + [last.value]) else Broken
  }

  /** The environment-free `_parse`. */
  function Parse(yaml: Yaml, n: Node): Maybe {
    Load(yaml, map[], n)
  }

  // ---------------------------------------------------------------------------
  // Dumping
  // ---------------------------------------------------------------------------

  function DumpLeaf(yaml: Yaml, v: Value): Leaf
    requires Hashable(v)
  {
    if v.Text? then Leaf(v.text, yaml.style(v.text), Untagged) else yaml.atom(v.id)
  }

  function DumpKeys(yaml: Yaml, keys: seq<Value>): (r: seq<Leaf>)
    requires forall i | 0 <= i < |keys| :: Hashable(keys[i])
    ensures |r| == |keys|
  {
    if keys == [] then [] else DumpKeys(yaml, keys[..|keys| - 1]) + [DumpLeaf(yaml, keys[|keys| - 1])]
  }

  /** A value the parser can have built: every dict has hashable keys, one value each. */
  ghost predicate Dumpable(v: Value)
    decreases v
  {
    match v
    case Text(_) => true
    case Atom(_) => true
    case List(items) => forall i | 0 <= i < |items| :: Dumpable(items[i])
    case Dict(keys, values) =>
      && |keys| == |values| && (forall i | 0 <= i < |keys| :: Hashable(keys[i]))
      && (forall i | 0 <= i < |values| :: Dumpable(values[i]))
  }

  ghost function Dump(yaml: Yaml, v: Value): Node
    requires Dumpable(v)
    decreases v, 0
  {
    match v
    case Text(_) => Scalar(DumpLeaf(yaml, v))
    case Atom(_) => Scalar(DumpLeaf(yaml, v))
    case List(items) => Sequence(DumpAll(yaml, items))
    case Dict(keys, values) => Mapping(DumpKeys(yaml, keys), DumpAll(yaml, values))
  }

  ghost function DumpAll(yaml: Yaml, vs: seq<Value>): (r: seq<Node>)
    requires forall i | 0 <= i < |vs| :: Dumpable(vs[i])
    ensures |r| == |vs|
    decreases vs, 1
  {
    if vs == [] then [] else DumpAll(yaml, vs[..|vs| - 1]) + [Dump(yaml, vs[|vs| - 1])]
  }

  /** The text is a placeholder once stripped, though not as it stands. */
  predicate PaddedLone(yaml: Yaml, s: string) {
    IsLone(Strip(yaml.space, s)) && !IsLone(s)
  }

  /**
   What `safe_dump` does: plain only what plain reads as that text, a lone placeholder plain, and
   every atom the loader can make so that it is made again.  White space is neither `$` nor `}`.
   */
  ghost predicate FaithfulDumper(yaml: Yaml) {
    && (forall s | yaml.style(s).Plain? :: yaml.implicit(s).IsText?)
    && (forall s | IsLone(s) :: yaml.style(s).Plain?)
    && (forall n | TypeOf(yaml, n).IsAtom? :: TypeOf(yaml, yaml.atom(TypeOf(yaml, n).id)) == TypeOf(yaml, n))
    && (forall c | yaml.space(c) :: c != '$' && c != '}')
  }

  // ---------------------------------------------------------------------------
  // What a rewrite keeps
  // ---------------------------------------------------------------------------

  /** Nothing but a placeholder, and declared text by quotes or by the string tag. */
  predicate DeclaredLone(n: Leaf) {
    IsLone(n.text) && (n.style.Quoted? || n.tag == Uri(STR_TAG))
  }

  /** A placeholder in white space is written back as it was declared. */
  predicate PaddingKept(yaml: Yaml, n: Leaf) {
    PaddedLone(yaml, n.text) ==> (Undeclared(n) <==> yaml.style(n.text).Plain?)
  }

  /** A scalar that keeps its meaning through a rewrite. */
  predicate Rewritable(yaml: Yaml, n: Leaf) {
    !DeclaredLone(n) && PaddingKept(yaml, n)
  }

  /** Every scalar of a node, in document order. */
  function Leaves(n: Node): seq<Leaf>
    decreases n, 0
  {
    match n
    case Scalar(leaf) => [leaf]
    case Sequence(items) => AllLeaves(items)
    case Mapping(keys, values) => PairLeaves(keys, values)
  }

  function AllLeaves(ns: seq<Node>): seq<Leaf>
    decreases ns, 1
  {
    if ns == [] then [] else AllLeaves(ns[..|ns| - 1]) + Leaves(ns[|ns| - 1])
  }

  function PairLeaves(keys: seq<Leaf>, values: seq<Node>): seq<Leaf>
    decreases values, 1
  {
    if keys == [] || values == [] then []
    else PairLeaves(keys[..|keys| - 1], values[..|values| - 1]) + [keys[|keys| - 1]] + Leaves(values[|values| - 1])
  }

  ghost predicate AllRewritable(yaml: Yaml, leaves: seq<Leaf>) {
    forall l | l in leaves :: Rewritable(yaml, l)
  }

  /** No mapping repeats a key. */
  ghost predicate DistinctKeys(yaml: Yaml, n: Node)
    decreases n
  {
    match n
    case Scalar(_) => true
    case Sequence(items) => forall i | 0 <= i < |items| :: DistinctKeys(yaml, items[i])
    case Mapping(keys, values) =>
      && |keys| == |values|
      && (LoadKeys(yaml, map[], keys).All? ==> NoRepeats(LoadKeys(yaml, map[], keys).values))
      && (forall i | 0 <= i < |values| :: DistinctKeys(yaml, values[i]))
  }

  /** One text scalar and its rewritten form agree under an environment exactly when one of these holds. */
  lemma TextSurvivesExactly(yaml: Yaml, env: Env, n: Leaf, m: Leaf)
    requires n.text == m.text
    ensures ConstructText(yaml, env, n) == ConstructText(yaml, env, m) <==>
      || Substitute(env, n.text) == n.text
      || !IsLone(Strip(yaml.space, n.text))
      || (Undeclared(n) <==> Undeclared(m))
      || yaml.readBack(Substitute(env, n.text)) == Nothing
      || yaml.readBack(Substitute(env, n.text)) == Just(Text(Substitute(env, n.text)))
  {
  }

  lemma StripLone(yaml: Yaml, s: string)
    requires IsLone(s) && FaithfulDumper(yaml)
    ensures Strip(yaml.space, s) == s
  {
    assert s[0] == '$' && s[|s| - 1] == '}';
  }

  /** The same for any text scalar of a document and what the dumper makes of it. */
  lemma LeafSurvivesExactly(yaml: Yaml, env: Env, n: Leaf)
    requires FaithfulDumper(yaml) && TypeOf(yaml, n).IsText?
    ensures var resolved := Substitute(env, n.text);
      ConstructLeaf(yaml, env, DumpLeaf(yaml, Text(n.text))) == ConstructLeaf(yaml, env, n) <==>
        || resolved == n.text
        || !IsLone(Strip(yaml.space, n.text))
        || (Undeclared(n) <==> yaml.style(n.text).Plain?)
        || yaml.readBack(resolved) == Nothing
        || yaml.readBack(resolved) == Just(Text(resolved))
  {
    TextSurvivesExactly(yaml, env, n, DumpLeaf(yaml, Text(n.text)));
  }

  lemma LeafSurvives(yaml: Yaml, env: Env, n: Leaf)
    requires FaithfulDumper(yaml) && Rewritable(yaml, n) && ConstructLeaf(yaml, map[], n).Just?
    ensures var v := ConstructLeaf(yaml, map[], n).value;
      Hashable(v) && ConstructLeaf(yaml, env, DumpLeaf(yaml, v)) == ConstructLeaf(yaml, env, n)
  {
    if TypeOf(yaml, n).IsText? {
      SubstituteNothing(n.text);
      if IsLone(n.text) {
        StripLone(yaml, n.text);
      }
      LeafSurvivesExactly(yaml, env, n);
    }
  }

  lemma {:induction false} KeysSurvive(yaml: Yaml, env: Env, keys: seq<Leaf>)
    requires FaithfulDumper(yaml) && AllRewritable(yaml, keys) && LoadKeys(yaml, map[], keys).All?
    ensures var ks := LoadKeys(yaml, map[], keys).values;
      && (forall i | 0 <= i < |ks| :: Hashable(ks[i]))
      && LoadKeys(yaml, env, DumpKeys(yaml, ks)) == LoadKeys(yaml, env, keys)
  {
    if keys != [] {
      var init, last := keys[..|keys| - 1], keys[|keys| - 1];
      assert keys == init + [last];
      KeysSurvive(yaml, env, init);
      LeafSurvives(yaml, env, last);
      var ks := LoadKeys(yaml, map[], keys).values;
      assert ks[..|ks| - 1] == LoadKeys(yaml, map[], init).values;
      var dumped := DumpKeys(yaml, ks);
      assert dumped[..|dumped| - 1] == DumpKeys(yaml, ks[..|ks| - 1]);
    }
  }

  lemma {:induction false} PairLeavesHold(yaml: Yaml, keys: seq<Leaf>, values: seq<Node>)
    requires |keys| == |values| && AllRewritable(yaml, PairLeaves(keys, values))
    ensures AllRewritable(yaml, keys) && AllRewritable(yaml, AllLeaves(values))
  {
    if keys != [] {
      var n := |keys| - 1;
      PairLeavesHold(yaml, keys[..n], values[..n]);
      assert keys == keys[..n] + [keys[n]];
    }
  }

  /** For every environment, the rewritten document means what the original means. */
  lemma {:induction false} RewriteKeepsMeaning(yaml: Yaml, env: Env, n: Node)
    requires FaithfulDumper(yaml) && AllRewritable(yaml, Leaves(n)) && DistinctKeys(yaml, n) && Parse(yaml, n).Just?
    ensures Dumpable(Parse(yaml, n).value)
    ensures Load(yaml, env, Dump(yaml, Parse(yaml, n).value)) == Load(yaml, env, n)
    decreases n, 0
  {
    match n
    case Scalar(leaf) =>
      LeafSurvives(yaml, env, leaf);
    case Sequence(items) =>
      RewriteKeepsAll(yaml, env, items);
    case Mapping(keys, values) =>
      PairLeavesHold(yaml, keys, values);
      KeysSurvive(yaml, env, keys);
      RewriteKeepsAll(yaml, env, values);
      BuildDistinct(LoadKeys(yaml, map[], keys).values, LoadAll(yaml, map[], values).values);
  }

  lemma {:induction false} RewriteKeepsAll(yaml: Yaml, env: Env, ns: seq<Node>)
    requires FaithfulDumper(yaml) && AllRewritable(yaml, AllLeaves(ns)) && LoadAll(yaml, map[], ns).All?
    requires forall i | 0 <= i < |ns| :: DistinctKeys(yaml, ns[i])
    ensures var vs := LoadAll(yaml, map[], ns).values;
      && (forall i | 0 <= i < |vs| :: Dumpable(vs[i]))
      && LoadAll(yaml, env, DumpAll(yaml, vs)) == LoadAll(yaml, env, ns)
    decreases ns, 1
  {
    if ns != [] {
      var init, last := ns[..|ns| - 1], ns[|ns| - 1];
      RewriteKeepsAll(yaml, env, init);
      RewriteKeepsMeaning(yaml, env, last);
      var vs := LoadAll(yaml, map[], ns).values;
      assert vs[..|vs| - 1] == LoadAll(yaml, map[], init).values;
      var dumped := DumpAll(yaml, vs);
      assert dumped[..|dumped| - 1] == DumpAll(yaml, vs[..|vs| - 1]);
    }
  }

  // ---------------------------------------------------------------------------
  // The test on the text
  // ---------------------------------------------------------------------------

  datatype Token =
    | Directive(name: string, defines: string, prefix: string)
    | TagToken(tag: Pending)
    | Anchor
    | ScalarToken(text: string, plain: bool)
    | OtherToken

  /** A tag waiting for its node: none, a verbatim one, or a handle and a suffix. */
  datatype Pending = NoTag | Verbatim(whole: string) | Handled(handle: string, suffix: string)

  /** The tokens of a text, unless scanning it fails. */
  datatype Scan = Unscannable | Tokens(tokens: seq<Token>)

  type Handles = map<string, string>

  const DEFAULT_HANDLES: Handles := map["!" := "!", "!!" := "tag:yaml.org,2002:"]

  /** `_resolve_tag`. */
  function ResolveTag(tag: Pending, handles: Handles): string
    requires !tag.NoTag?
  {
    if tag.Verbatim? then tag.whole
    else (if tag.handle in handles then handles[tag.handle] else tag.handle) + tag.suffix
  }

  /** What the parser makes of a tag: `!` alone names no type. */
  function TagOf(tag: Pending, handles: Handles): Tag {
    if tag.NoTag? then Untagged
    else if ResolveTag(tag, handles) == "!" then NonSpecific
    else Uri(ResolveTag(tag, handles))
  }

  /** The parser over the tokens: the handles bound so far, the tag waiting for its node, the scalars met. */
  datatype Parser = Parser(handles: Handles, pending: Pending, leaves: seq<Leaf>)

  /** A tag belongs to the node that follows it, an anchor in between or not. */
  function Step(p: Parser, t: Token): Parser {
    match t
    case Directive(name, handle, prefix) => if name == "TAG" then p.(handles := p.handles[handle := prefix]) else p
    case TagToken(tag) => p.(pending := tag)
    case Anchor => p
    case ScalarToken(text, plain) =>
      Parser(p.handles, NoTag, p.leaves + [Leaf(text, if plain then Plain else Quoted, TagOf(p.pending, p.handles))])
    case OtherToken => p.(pending := NoTag)
  }

  function Run(tokens: seq<Token>): Parser {
    if tokens == [] then Parser(DEFAULT_HANDLES, NoTag, []) else Step(Run(tokens[..|tokens| - 1]), tokens[|tokens| - 1])
  }

  /** The scalars of a longer token stream extend those of its prefixes. */
  lemma {:induction false} LeavesGrow(tokens: seq<Token>, n: nat)
    requires n <= |tokens|
    ensures Run(tokens[..n]).leaves <= Run(tokens).leaves
  {
    if n < |tokens| {
      var init := tokens[..|tokens| - 1];
      LeavesGrow(init, n);
      assert init[..n] == tokens[..n];
    } else {
      assert tokens[..n] == tokens;
    }
  }

  lemma RunSnoc(tokens: seq<Token>, t: Token)
    ensures Run(tokens + [t]) == Step(Run(tokens), t)
  {
    assert (tokens + [t])[..|tokens|] == tokens;
  }

  function Anchors(n: nat): seq<Token> {
    if n == 0 then [] else Anchors(n - 1) + [Anchor]
  }

  lemma {:induction false} AnchorsChangeNothing(tokens: seq<Token>, n: nat)
    ensures Run(tokens + Anchors(n)) == Run(tokens)
  {
    if n == 0 {
      assert tokens + Anchors(0) == tokens;
    } else {
      AnchorsChangeNothing(tokens, n - 1);
      RunSnoc(tokens + Anchors(n - 1), Anchor);
      assert tokens + Anchors(n) == tokens + Anchors(n - 1) + [Anchor];
    }
  }

  /** A tag reaches the scalar behind it, across any anchors; the string tag declares it text in every spelling. */
  lemma TagReachesItsScalar(before: seq<Token>, tag: Pending, anchors: nat, s: string, plain: bool)
    requires !tag.NoTag?
    ensures var leaves := Run(before + [TagToken(tag)] + Anchors(anchors) + [ScalarToken(s, plain)]).leaves;
      && |leaves| == |Run(before).leaves| + 1 && leaves[|leaves| - 1].text == s
      && (tag == Verbatim("tag:yaml.org,2002:str") && IsLone(s) ==> DeclaredLone(leaves[|leaves| - 1]))
      && (forall h, suffix | tag == Handled(h, suffix) && h in Run(before).handles && IsLone(s) ::
            Run(before).handles[h] + suffix == "tag:yaml.org,2002:str" ==> DeclaredLone(leaves[|leaves| - 1]))
      && (!plain && IsLone(s) ==> DeclaredLone(leaves[|leaves| - 1]))
  {
    RunSnoc(before, TagToken(tag));
    AnchorsChangeNothing(before + [TagToken(tag)], anchors);
    RunSnoc(before + [TagToken(tag)] + Anchors(anchors), ScalarToken(s, plain));
    assert STR_TAG[0] == 't';
  }

  /** A tag goes no further than the next token that is no anchor and no directive. */
  lemma TagGoesNoFurther(before: seq<Token>, s: string)
    ensures var leaves := Run(before + [OtherToken] + [ScalarToken(s, true)]).leaves;
      leaves == Run(before).leaves + [Leaf(s, Plain, Untagged)] && !DeclaredLone(leaves[|leaves| - 1])
  {
    RunSnoc(before, OtherToken);
    RunSnoc(before + [OtherToken], ScalarToken(s, true));
  }

  /** Without directives the two default handles stand; a `%TAG` directive binds its own, and no other one does. */
  lemma HandlesBound(before: seq<Token>, name: string, handle: string, prefix: string)
    ensures Run([]).handles == map["!" := "!", "!!" := "tag:yaml.org,2002:"]
    ensures Run(before + [Directive(name, handle, prefix)]).handles ==
            if name == "TAG" then Run(before).handles[handle := prefix] else Run(before).handles
    ensures Run(before + [Directive(name, handle, prefix)]).leaves == Run(before).leaves
  {
    RunSnoc(before, Directive(name, handle, prefix));
  }

  /** `text_has_lone_placeholder`: one declared-text lone placeholder is found wherever it stands. */
  method TextHasLonePlaceholder(scan: Scan) returns (r: bool)
    ensures r <==> scan.Unscannable? || exists l | l in Run(scan.tokens).leaves :: DeclaredLone(l)
  {
    if scan.Unscannable? {
      return true;
    }
    var tokens := scan.tokens;
    var handles, pending := DEFAULT_HANDLES, NoTag;
    for n := 0 to |tokens|
      invariant handles == Run(tokens[..n]).handles && pending == Run(tokens[..n]).pending
      invariant forall l | l in Run(tokens[..n]).leaves :: !DeclaredLone(l)
    {
      assert tokens[..n + 1][..n] == tokens[..n];
      LeavesGrow(tokens, n + 1);
      var token := tokens[n];
      if token.Directive? {
        if token.name == "TAG" {
          handles := handles[token.defines := token.prefix];
        }
        continue;
      }
      if token.TagToken? {
        pending := token.tag;
        continue;
      }
      if token.Anchor? {
        continue;
      }
      if token.ScalarToken? {
        var declaredText := !token.plain || (!pending.NoTag? && ResolveTag(pending, handles) == STR_TAG);
        ghost var leaf := Leaf(token.text, if token.plain then Plain else Quoted, TagOf(pending, handles));
        assert leaf in Run(tokens[..n + 1]).leaves;
        if declaredText && IsLone(token.text) {
          assert DeclaredLone(leaf);
          return true;
        }
      }
      pending := NoTag;
    }
    assert tokens[..|tokens|] == tokens;
    return false;
  }

  /** A file the test lets through means the same, in every environment, before and after a rewrite. */
  lemma AcceptedTextMayBeRewritten(yaml: Yaml, env: Env, tokens: seq<Token>, n: Node)
    requires FaithfulDumper(yaml) && DistinctKeys(yaml, n) && Parse(yaml, n).Just?
    // Every scalar of the document is one the scanner met, or the empty one of a missing value.
    requires forall l | l in Leaves(n) :: l.text == "" || l in Run(tokens).leaves
    requires forall l | l in Leaves(n) :: PaddingKept(yaml, l)
    requires forall l | l in Run(tokens).leaves :: !DeclaredLone(l)
    ensures Dumpable(Parse(yaml, n).value)
    ensures Load(yaml, env, Dump(yaml, Parse(yaml, n).value)) == Load(yaml, env, n)
    ensures Parse(yaml, Dump(yaml, Parse(yaml, n).value)) == Parse(yaml, n)
  {
    RewriteKeepsMeaning(yaml, env, n);
    RewriteKeepsMeaning(yaml, map[], n);
  }

  /** The refusal is needed: a quoted lone placeholder changes its meaning for any value that reads back as no text. */
  lemma RefusalIsNeeded(yaml: Yaml, s: string, x: string, v: Value)
    requires IsLone(s) && x != s && Strip(yaml.space, s) == s && yaml.style(s).Plain? && yaml.implicit(s).IsText?
    requires yaml.readBack(x) == Just(v) && v != Text(x)
    ensures var n, env := Scalar(Leaf(s, Quoted, Untagged)), map[Variable(s) := x];
      && Parse(yaml, n) == Just(Text(s))
      && Load(yaml, env, n) == Just(Text(x))
      && Load(yaml, env, Dump(yaml, Text(s))) == Just(v)
  {
    SubstituteNothing(s);
    SubstituteLone(map[Variable(s) := x], s);
  }

  /**
   The test does not strip and the loader does: a quoted placeholder in white space that the dumper
   writes plain is let through, and then follows the read-back.
   */
  lemma PaddedDocumentChanges(yaml: Yaml, env: Env, s: string, v: Value)
    requires PaddedLone(yaml, s) && yaml.style(s).Plain? && yaml.implicit(s).IsText?
    requires Substitute(env, s) != s && yaml.readBack(Substitute(env, s)) == Just(v) && v != Text(Substitute(env, s))
    ensures var n := Scalar(Leaf(s, Quoted, Untagged));
      && (forall l | l in Leaves(n) :: !DeclaredLone(l))
      && Parse(yaml, n) == Just(Text(s))
      && Load(yaml, env, n) == Just(Text(Substitute(env, s)))
      && Load(yaml, env, Dump(yaml, Text(s))) == Just(v)
  {
    SubstituteNothing(s);
  }

  // ---------------------------------------------------------------------------
  // Repeated keys
  // ---------------------------------------------------------------------------

  /** The keys and values of one mapping, without and with the environment. */
  datatype Loaded = Loaded(ks: seq<Value>, rs: seq<Value>, us: seq<Value>)

  ghost predicate LoadsAs(yaml: Yaml, env: Env, keys: seq<Leaf>, values: seq<Node>, l: Loaded) {
    && LoadKeys(yaml, map[], keys) == All(l.ks) && LoadKeys(yaml, env, keys) == All(l.rs)
    && LoadAll(yaml, map[], values).All? && LoadAll(yaml, env, values) == All(l.us)
    && |keys| == |values|
  }

  lemma {:induction false} KeyAt(yaml: Yaml, env: Env, keys: seq<Leaf>, i: nat)
    requires LoadKeys(yaml, env, keys).All? && i < |keys|
    ensures ConstructLeaf(yaml, env, keys[i]) == Just(LoadKeys(yaml, env, keys).values[i])
    ensures Hashable(LoadKeys(yaml, env, keys).values[i])
  {
    if i < |keys| - 1 {
      KeyAt(yaml, env, keys[..|keys| - 1], i);
    }
  }

  /** A key is resolved from its environment-free value alone. */
  lemma KeyResolves(yaml: Yaml, env: Env, keys: seq<Leaf>, i: nat)
    requires FaithfulDumper(yaml) && AllRewritable(yaml, keys) && i < |keys|
    requires LoadKeys(yaml, map[], keys).All? && LoadKeys(yaml, env, keys).All?
    ensures var k := LoadKeys(yaml, map[], keys).values[i];
      Hashable(k) && ConstructLeaf(yaml, env, DumpLeaf(yaml, k)) == Just(LoadKeys(yaml, env, keys).values[i])
  {
    KeyAt(yaml, map[], keys, i);
    KeyAt(yaml, env, keys, i);
    assert keys[i] in keys;
    LeafSurvives(yaml, env, keys[i]);
  }

  /** Every key and every value, taken alone, is written so that it loads as the original does. */
  ghost predicate EachSurvives(yaml: Yaml, env: Env, l: Loaded, vs: seq<Value>) {
    && |l.ks| == |l.rs| == |l.us| == |vs|
    && (forall i | 0 <= i < |l.ks| :: Hashable(l.ks[i]) && Hashable(l.rs[i]))
    && (forall i | 0 <= i < |l.ks| && Hashable(l.ks[i]) ::
        ConstructLeaf(yaml, env, DumpLeaf(yaml, l.ks[i])) == Just(l.rs[i]))
    && (forall i | 0 <= i < |vs| :: Dumpable(vs[i]))
    && (forall i | 0 <= i < |vs| && Dumpable(vs[i]) :: Load(yaml, env, Dump(yaml, vs[i])) == Just(l.us[i]))
  }

  lemma {:induction false} PickedKeysLoad(yaml: Yaml, env: Env, l: Loaded, vs: seq<Value>, ds: seq<Value>)
    requires EachSurvives(yaml, env, l, vs) && forall d | d in ds :: d in l.ks
    ensures forall i | 0 <= i < |ds| :: Hashable(ds[i])
    ensures LoadKeys(yaml, env, DumpKeys(yaml, ds)) == All(Picked(l.ks, l.rs, ds))
  {
    forall i | 0 <= i < |ds|
      ensures Hashable(ds[i])
    {
      assert ds[i] in ds;
    }
    if ds != [] {
      var init, d := ds[..|ds| - 1], ds[|ds| - 1];
      PickedKeysLoad(yaml, env, l, vs, init);
      assert d in ds;
      var i := Last(l.ks, d);
      assert ConstructLeaf(yaml, env, DumpLeaf(yaml, l.ks[i])) == Just(l.rs[i]);
      var dumped := DumpKeys(yaml, ds);
      assert dumped[..|dumped| - 1] == DumpKeys(yaml, init);
    }
  }

  lemma {:induction false} PickedValuesLoad(yaml: Yaml, env: Env, l: Loaded, vs: seq<Value>, ds: seq<Value>)
    requires EachSurvives(yaml, env, l, vs) && forall d | d in ds :: d in l.ks
    ensures forall i | 0 <= i < |ds| :: Dumpable(Picked(l.ks, vs, ds)[i])
    ensures LoadAll(yaml, env, DumpAll(yaml, Picked(l.ks, vs, ds))) == All(Picked(l.ks, l.us, ds))
  {
    if ds != [] {
      var init, d := ds[..|ds| - 1], ds[|ds| - 1];
      PickedValuesLoad(yaml, env, l, vs, init);
      assert d in ds;
      var i := Last(l.ks, d);
      assert Load(yaml, env, Dump(yaml, vs[i])) == Just(l.us[i]);
      var ps := Picked(l.ks, vs, ds);
      assert ps[..|ps| - 1] == Picked(l.ks, vs, init);
      var dumped := DumpAll(yaml, ps);
      assert dumped[..|dumped| - 1] == DumpAll(yaml, Picked(l.ks, vs, init));
    }
  }

  lemma RebuiltLoads(yaml: Yaml, env: Env, l: Loaded, vs: seq<Value>)
    requires EachSurvives(yaml, env, l, vs)
    ensures var d := DictOf(l.ks, vs);
      && Dumpable(d) && (forall k | k in Firsts(l.ks) :: k in l.ks)
      && Load(yaml, env, Dump(yaml, d)) ==
         Just(DictOf(Picked(l.ks, l.rs, Firsts(l.ks)), Picked(l.ks, l.us, Firsts(l.ks))))
  {
    BuildExactly(l.ks, vs);
    PickedKeysLoad(yaml, env, l, vs, Firsts(l.ks));
    PickedValuesLoad(yaml, env, l, vs, Firsts(l.ks));
  }

  /** Each value, and each key, of a mapping whose parts may be rewritten. */
  ghost predicate PartsRewritable(yaml: Yaml, keys: seq<Leaf>, values: seq<Node>) {
    && AllRewritable(yaml, keys)
    && (forall i | 0 <= i < |values| :: AllRewritable(yaml, Leaves(values[i])) && DistinctKeys(yaml, values[i]))
  }

  lemma {:induction false} ValueAt(yaml: Yaml, env: Env, ns: seq<Node>, i: nat)
    requires LoadAll(yaml, env, ns).All? && i < |ns|
    ensures Load(yaml, env, ns[i]) == Just(LoadAll(yaml, env, ns).values[i])
  {
    if i < |ns| - 1 {
      ValueAt(yaml, env, ns[..|ns| - 1], i);
    }
  }

  lemma PartsSurvive(yaml: Yaml, env: Env, keys: seq<Leaf>, values: seq<Node>, l: Loaded)
    requires FaithfulDumper(yaml) && PartsRewritable(yaml, keys, values) && LoadsAs(yaml, env, keys, values, l)
    ensures EachSurvives(yaml, env, l, LoadAll(yaml, map[], values).values)
    ensures ReadAlike(l.ks, l.rs)
  {
    forall i | 0 <= i < |keys|
      ensures Hashable(l.ks[i]) && Hashable(l.rs[i]) &&
                ConstructLeaf(yaml, env, DumpLeaf(yaml, l.ks[i])) == Just(l.rs[i])
    {
      KeyResolves(yaml, env, keys, i);
      KeyAt(yaml, env, keys, i);
    }
    var vs := LoadAll(yaml, map[], values).values;
    forall i | 0 <= i < |values|
      ensures Dumpable(vs[i]) && Load(yaml, env, Dump(yaml, vs[i])) == Just(l.us[i])
    {
      ValueAt(yaml, map[], values, i);
      ValueAt(yaml, env, values, i);
      RewriteKeepsMeaning(yaml, env, values[i]);
    }
  }

  /**
   One mapping, repeated keys and all, keeps its meaning under an environment exactly when, for every
   key as resolved, the last assignment to it and the last assignment to the last of the distinct
   keys that resolve to it give the same value.
   */
  lemma MappingSurvivesExactly(yaml: Yaml, env: Env, keys: seq<Leaf>, values: seq<Node>, l: Loaded)
    requires FaithfulDumper(yaml) && PartsRewritable(yaml, keys, values) && LoadsAs(yaml, env, keys, values, l)
    ensures var n := Mapping(keys, values);
      && Parse(yaml, n).Just? && Dumpable(Parse(yaml, n).value) && ReadAlike(l.ks, l.rs) && |l.us| == |l.ks|
      && (Load(yaml, env, Dump(yaml, Parse(yaml, n).value)) == Load(yaml, env, n) <==>
            forall r | r in l.rs :: Agrees(l.ks, l.rs, l.us, r))
  {
    var n, vs := Mapping(keys, values), LoadAll(yaml, map[], values).values;
    PartsSurvive(yaml, env, keys, values, l);
    RebuiltLoads(yaml, env, l, vs);
    RebuildExactly(l.ks, l.rs, l.us);
    assert Parse(yaml, n) == Just(DictOf(l.ks, vs));
    assert Load(yaml, env, n) == Just(DictOf(l.rs, l.us));
    SameDict(Picked(l.ks, l.rs, Firsts(l.ks)), Picked(l.ks, l.us, Firsts(l.ks)), l.rs, l.us);
  }

  lemma SameDict(ks: seq<Value>, vs: seq<Value>, rs: seq<Value>, us: seq<Value>)
    requires |ks| == |vs| && |rs| == |us|
    ensures DictOf(ks, vs) == DictOf(rs, us) <==> Build(ks, vs) == Build(rs, us)
  {
  }

  /** The failing shape: a key repeated around a different one that the environment resolves to it. */
  lemma RepeatedKeyChanges(yaml: Yaml, env: Env, a: Leaf, w: Leaf, x: Node, y: Node, z: Node, l: Loaded)
    requires FaithfulDumper(yaml) && PartsRewritable(yaml, [a, w, a], [x, y, z]) &&
              LoadsAs(yaml, env, [a, w, a], [x, y, z], l)
    requires l.ks[0] != l.ks[1] && l.rs[0] == l.rs[1] && l.us[1] != l.us[2]
    ensures var n := Mapping([a, w, a], [x, y, z]);
      && Parse(yaml, n).Just? && Dumpable(Parse(yaml, n).value)
      && Load(yaml, env, Dump(yaml, Parse(yaml, n).value)) != Load(yaml, env, n)
  {
    MappingSurvivesExactly(yaml, env, [a, w, a], [x, y, z], l);
    KeyAt(yaml, map[], [a, w, a], 0);
    KeyAt(yaml, map[], [a, w, a], 2);
    KeyAt(yaml, env, [a, w, a], 0);
    KeyAt(yaml, env, [a, w, a], 2);
    AroundDisagrees(l.ks, l.rs, l.us);
  }

  lemma LoadKeysSnoc(yaml: Yaml, env: Env, keys: seq<Leaf>, n: Leaf, v: Value)
    requires LoadKeys(yaml, env, keys).All? && ConstructLeaf(yaml, env, n) == Just(v) && Hashable(v)
    ensures LoadKeys(yaml, env, keys + [n]) == All(LoadKeys(yaml, env, keys).values + [v])
  {
    assert (keys + [n])[..|keys|] == keys;
  }

  lemma LoadAllSnoc(yaml: Yaml, env: Env, ns: seq<Node>, n: Node, v: Value)
    requires LoadAll(yaml, env, ns).All? && Load(yaml, env, n) == Just(v)
    ensures LoadAll(yaml, env, ns + [n]) == All(LoadAll(yaml, env, ns).values + [v])
  {
    assert (ns + [n])[..|ns|] == ns;
  }

  lemma Keys3(yaml: Yaml, env: Env, a: Leaf, b: Leaf, c: Leaf, u: Value, v: Value, w: Value)
    requires ConstructLeaf(yaml, env, a) == Just(u) && ConstructLeaf(yaml, env, b) == Just(v) &&
              ConstructLeaf(yaml, env, c) == Just(w)
    requires Hashable(u) && Hashable(v) && Hashable(w)
    ensures LoadKeys(yaml, env, [a, b, c]) == All([u, v, w])
  {
    LoadKeysSnoc(yaml, env, [], a, u);
    LoadKeysSnoc(yaml, env, [] + [a], b, v);
    LoadKeysSnoc(yaml, env, [] + [a] + [b], c, w);
    assert [] + [a] + [b] + [c] == [a, b, c] && [] + [u] + [v] + [w] == [u, v, w];
  }

  lemma Values3(yaml: Yaml, env: Env, a: Node, b: Node, c: Node, u: Value, v: Value, w: Value)
    requires Load(yaml, env, a) == Just(u) && Load(yaml, env, b) == Just(v) && Load(yaml, env, c) == Just(w)
    ensures LoadAll(yaml, env, [a, b, c]) == All([u, v, w])
  {
    LoadAllSnoc(yaml, env, [], a, u);
    LoadAllSnoc(yaml, env, [] + [a], b, v);
    LoadAllSnoc(yaml, env, [] + [a] + [b], c, w);
    assert [] + [a] + [b] + [c] == [a, b, c] && [] + [u] + [v] + [w] == [u, v, w];
  }

  const V := "${V}"

  lemma LoneV()
    ensures IsLone(V) && Variable(V) == "V"
  {
    assert NameEnd(V, 3) == 3;
  }

  /** Quoted, a text without placeholders loads as itself. */
  lemma PlainTextLoads(yaml: Yaml, env: Env, n: Leaf)
    requires |n.text| == 1 && TypeOf(yaml, n).IsText?
    ensures ConstructLeaf(yaml, env, n) == Just(Text(n.text)) && !IsLone(n.text) && !IsLone(Strip(yaml.space, n.text))
  {
    assert n.text[1..] == "" && [n.text[0]] == n.text;
    assert Substitute(env, n.text[1..]) == "";
  }

  lemma VLoads(yaml: Yaml, env: Env, n: Leaf)
    requires FaithfulDumper(yaml) && n == Leaf(V, Plain, Untagged) && yaml.readBack("a") == Just(Text("a"))
    ensures env == map[] ==> ConstructLeaf(yaml, env, n) == Just(Text(V))
    ensures env == map["V" := "a"] ==> ConstructLeaf(yaml, env, n) == Just(Text("a"))
    ensures Rewritable(yaml, n)
  {
    LoneV();
    StripLone(yaml, V);
    SubstituteNothing(V);
    SubstituteLone(env, V);
    assert |V| == 4 && |"a"| == 1;
  }

  const A := Leaf("a", Plain, Untagged)
  const W := Leaf(V, Plain, Untagged)
  const X := Leaf("x", Quoted, Untagged)
  const Y := Leaf("y", Quoted, Untagged)
  const Z := Leaf("z", Quoted, Untagged)
  const REPEATED := Mapping([A, W, A], [Scalar(X), Scalar(Y), Scalar(Z)])

  lemma RepeatedLoads(yaml: Yaml, env: Env, v: Value)
    requires yaml.implicit("a").IsText? && ConstructLeaf(yaml, env, W) == Just(v) && Hashable(v)
    ensures LoadKeys(yaml, env, REPEATED.keys) == All([Text("a"), v, Text("a")])
    ensures LoadAll(yaml, env, REPEATED.values) == All([Text("x"), Text("y"), Text("z")])
  {
    PlainTextLoads(yaml, env, A);
    PlainTextLoads(yaml, env, X);
    PlainTextLoads(yaml, env, Y);
    PlainTextLoads(yaml, env, Z);
    Keys3(yaml, env, A, W, A, Text("a"), v, Text("a"));
    Values3(yaml, env, Scalar(X), Scalar(Y), Scalar(Z), Text("x"), Text("y"), Text("z"));
  }

  lemma RepeatedParts(yaml: Yaml)
    requires FaithfulDumper(yaml) && yaml.implicit("a").IsText? && Rewritable(yaml, W)
    ensures PartsRewritable(yaml, REPEATED.keys, REPEATED.values)
  {
    PlainTextLoads(yaml, map[], A);
    PlainTextLoads(yaml, map[], X);
    PlainTextLoads(yaml, map[], Y);
    PlainTextLoads(yaml, map[], Z);
  }

  /** `{a: "x", ${V}: "y", a: "z"}` under V = a: the original ends with z, its rewritten form with y. */
  lemma PlaceholderKeyChanges(yaml: Yaml)
    requires FaithfulDumper(yaml) && yaml.implicit("a").IsText? && yaml.readBack("a") == Just(Text("a"))
    ensures Parse(yaml, REPEATED).Just? && Dumpable(Parse(yaml, REPEATED).value)
    ensures Load(yaml, map["V" := "a"], Dump(yaml, Parse(yaml, REPEATED).value)) !=
            Load(yaml, map["V" := "a"], REPEATED)
  {
    var env := map["V" := "a"];
    VLoads(yaml, env, W);
    VLoads(yaml, map[], W);
    RepeatedLoads(yaml, env, Text("a"));
    RepeatedLoads(yaml, map[], Text(V));
    RepeatedParts(yaml);
    var l := Loaded([Text("a"), Text(V), Text("a")], [Text("a"), Text("a"), Text("a")],
                    [Text("x"), Text("y"), Text("z")]);
    assert |V| == 4 && |"a"| == 1 && "y"[0] != "z"[0];
    RepeatedKeyChanges(yaml, env, A, W, Scalar(X), Scalar(Y), Scalar(Z), l);
  }

  const NBSP := '\U{00A0}'

  /** `"${V}<no-break space>"` under `V = a: b`, for a dumper that leaves that character plain. */
  lemma NoBreakSpaceChanges(yaml: Yaml, v: Value)
    requires yaml.space(NBSP) && !yaml.space('$') && !yaml.space('}')
    requires yaml.style(V + [NBSP]).Plain? && yaml.implicit(V + [NBSP]).IsText?
    requires yaml.readBack("a: b" + [NBSP]) == Just(v) && v != Text("a: b" + [NBSP])
    ensures var s, env := V + [NBSP], map["V" := "a: b"];
      && !DeclaredLone(Leaf(s, Quoted, Untagged))
      && Parse(yaml, Scalar(Leaf(s, Quoted, Untagged))) == Just(Text(s))
      && Load(yaml, env, Scalar(Leaf(s, Quoted, Untagged))) == Just(Text("a: b" + [NBSP]))
      && Load(yaml, env, Dump(yaml, Text(s))) == Just(v)
  {
    var s, env := V + [NBSP], map["V" := "a: b"];
    LoneV();
    assert NameEnd(s, 3) == 3;
    assert MatchEnd(s) == 4 && s[4..] == [NBSP] && Variable(s) == "V";
    assert Substitute(env, [NBSP]) == [NBSP] by {
      assert [NBSP][1..] == "";
    }
    assert Substitute(env, s) == "a: b" + [NBSP];
    assert s[..|s| - 1] == V && Strip(yaml.space, V) == V;
    PaddedDocumentChanges(yaml, env, s, v);
  }
}
