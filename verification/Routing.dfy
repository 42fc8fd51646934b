/**
 The desired callback overlay (callback_reconcile.py, `compute_desired`).

 What a manifest declares, which registry entries exist and which identities are acked are inputs.
 A plugin's callbacks are routed together or not at all.
 */
module Routing {
  import opened Acks

  datatype Maybe<T> = Nothing | Just(value: T)

  datatype Callback = Callback(declared: Text, effective: Text)

  /** `manifest_callbacks`: it raises on a set with any error. */
  datatype Declaration = Unparsable | Callbacks(callbacks: seq<Callback>)

  datatype Resolved = Resolved(name: Text, artifact: Text, path: Text, declaration: Declaration)

  datatype Target = NotText | Resident(role: Text) | Specialist(name: Text) | OtherTarget

  datatype Entry = Malformed | Named(name: Text, targets: seq<Target>)

  /** Everything a computation reads. */
  datatype Context = Context(
    registryValid: bool,
    resolutionIssues: bool,
    plugins: seq<Resolved>,
    entries: seq<Entry>,
    roles: set<Text>,
    acks: AckMap,
    base: Maybe<Text>,
    identify: Identify,
    digest: Callback -> Text)

  datatype Route = Route(plugin: Text, declared: Text, effective: Text, path: Text)

  datatype Reason = CallbackInvalid | NoTarget | PendingAck | BaseUrlInvalid

  datatype Issue = Issue(plugin: Text, reason: Reason)

  datatype Prompt = Prompt(plugin: Text, callback: Callback, identity: Text)

  datatype Routed = Routed(plugin: Text, artifact: Text, path: Text, callbacks: seq<Callback>)

  datatype Desired = Desired(
    overlay: map<Text, Route>,
    issues: seq<Issue>,
    pending: seq<Prompt>,
    routed: seq<Routed>,
    validIdentities: set<Text>,
    prunable: bool)

  // ---------------------------------------------------------------------------
  // The gates
  // ---------------------------------------------------------------------------

  function IdentityOf(ctx: Context, p: Resolved, cb: Callback): Text {
    ctx.identify(p.name, cb.effective, ctx.digest(cb))
  }

  predicate Acked(ctx: Context, p: Resolved, cb: Callback) {
    IdentityOf(ctx, p, cb) in ctx.acks
  }

  /** The targets of the last well-formed registry entry under the name. */
  function TargetsOf(entries: seq<Entry>, name: Text): seq<Target> {
    if entries == [] then []
    else
      var e := entries[|entries| - 1];
      if e.Named? && e.name == name then e.targets else TargetsOf(entries[..|entries| - 1], name)
  }

  predicate ReachableBy(t: Target, roles: set<Text>) {
    t.Specialist? || (t.Resident? && t.role in roles)
  }

  ghost predicate Assigned(ctx: Context, p: Resolved) {
    var targets := TargetsOf(ctx.entries, p.name);
    exists i | 0 <= i < |targets| :: ReachableBy(targets[i], ctx.roles)
  }

  /** The plugin declares something, readably. */
  predicate Declares(p: Resolved) {
    p.declaration.Callbacks? && p.declaration.callbacks != []
  }

  ghost predicate AllAcked(ctx: Context, p: Resolved)
    requires p.declaration.Callbacks?
  {
    forall i | 0 <= i < |p.declaration.callbacks| :: Acked(ctx, p, p.declaration.callbacks[i])
  }

  /** Every gate passed. */
  ghost predicate Routable(ctx: Context, p: Resolved) {
    Declares(p) && Assigned(ctx, p) && AllAcked(ctx, p)
  }

  method Reachable(targets: seq<Target>, roles: set<Text>) returns (r: bool)
    ensures r <==> exists i | 0 <= i < |targets| :: ReachableBy(targets[i], roles)
  {
    for n := 0 to |targets|
      invariant forall i | 0 <= i < n :: !ReachableBy(targets[i], roles)
    {
      if ReachableBy(targets[n], roles) {
        return true;
      }
    }
    return false;
  }

  // ---------------------------------------------------------------------------
  // What one plugin, and then a list of them, contributes
  // ---------------------------------------------------------------------------

  function RouteOf(p: Resolved, cb: Callback): Route {
    Route(p.name, cb.declared, cb.effective, p.path)
  }

  function RoutesOf(p: Resolved, cbs: seq<Callback>): map<Text, Route> {
    if cbs == [] then map[]
    else RoutesOf(p, cbs[..|cbs| - 1])[cbs[|cbs| - 1].effective := RouteOf(p, cbs[|cbs| - 1])]
  }

  function IdentitiesOf(ctx: Context, p: Resolved, cbs: seq<Callback>): set<Text> {
    if cbs == [] then {} else IdentitiesOf(ctx, p, cbs[..|cbs| - 1]) + {IdentityOf(ctx, p, cbs[|cbs| - 1])}
  }

  function UnackedOf(ctx: Context, p: Resolved, cbs: seq<Callback>): seq<Prompt> {
    if cbs == [] then []
    else
      var cb := cbs[|cbs| - 1];
      UnackedOf(ctx, p, cbs[..|cbs| - 1]) +
        if Acked(ctx, p, cb) then [] else [Prompt(p.name, cb, IdentityOf(ctx, p, cb))]
  }

  /** Prompts: only for a plugin whose one gap is consent. */
  ghost function PromptsOf(ctx: Context, p: Resolved): seq<Prompt> {
    if Declares(p) && Assigned(ctx, p) then UnackedOf(ctx, p, p.declaration.callbacks) else []
  }

  function OnePerPrompt(plugin: Text, prompts: seq<Prompt>): seq<Issue> {
    if prompts == [] then [] else OnePerPrompt(plugin, prompts[..|prompts| - 1]) + [Issue(plugin, PendingAck)]
  }

  /** One issue for each gap, in the order of the gates. */
  ghost function GapsOf(ctx: Context, p: Resolved): seq<Issue> {
    if p.declaration.Unparsable? then [Issue(p.name, CallbackInvalid)]
    else if p.declaration.callbacks == [] then []
    else if !Assigned(ctx, p) then [Issue(p.name, NoTarget)]
    else if !AllAcked(ctx, p) then OnePerPrompt(p.name, UnackedOf(ctx, p, p.declaration.callbacks))
    else if ctx.base.Nothing? then [Issue(p.name, BaseUrlInvalid)]
    else []
  }

  ghost function Extend(ctx: Context, d: Desired, p: Resolved): Desired {
    Desired(
      d.overlay + if Routable(ctx, p) then RoutesOf(p, p.declaration.callbacks) else map[],
      d.issues + GapsOf(ctx, p),
      d.pending + PromptsOf(ctx, p),
      d.routed + RoutedPart(ctx, p),
      d.validIdentities + ValidPart(ctx, p),
      d.prunable && p.declaration.Callbacks?)
  }

  function ValidPart(ctx: Context, p: Resolved): set<Text> {
    if Declares(p) then IdentitiesOf(ctx, p, p.declaration.callbacks) else {}
  }

  ghost function RoutedPart(ctx: Context, p: Resolved): seq<Routed> {
    if Routable(ctx, p) then [RoutedOf(p)] else []
  }

  function RoutedOf(p: Resolved): Routed
    requires p.declaration.Callbacks?
  {
    Routed(p.name, p.artifact, p.path, p.declaration.callbacks)
  }

  ghost function Gather(ctx: Context, ps: seq<Resolved>): Desired {
    if ps == [] then Desired(map[], [], [], [], {}, !ctx.resolutionIssues)
    else Extend(ctx, Gather(ctx, ps[..|ps| - 1]), ps[|ps| - 1])
  }

  ghost function DesiredOf(ctx: Context): Desired {
    if ctx.registryValid then Gather(ctx, ctx.plugins) else Desired(map[], [], [], [], {}, false)
  }

  lemma {:induction false} UnackedNoneExactly(ctx: Context, p: Resolved, cbs: seq<Callback>)
    ensures UnackedOf(ctx, p, cbs) == [] <==> forall i | 0 <= i < |cbs| :: Acked(ctx, p, cbs[i])
  {
    if cbs != [] {
      UnackedNoneExactly(ctx, p, cbs[..|cbs| - 1]);
      assert forall i | 0 <= i < |cbs| - 1 :: cbs[..|cbs| - 1][i] == cbs[i];
    }
  }

  // ---------------------------------------------------------------------------
  // The computation
  // ---------------------------------------------------------------------------

  /** The consent gate of one plugin: its routes, the prompts it needs, one issue per prompt. */
  method ConsentGate(ctx: Context, p: Resolved, issues: seq<Issue>)
      returns (routes: map<Text, Route>, prompts: seq<Prompt>, all: seq<Issue>)
    requires p.declaration.Callbacks?
    ensures prompts == UnackedOf(ctx, p, p.declaration.callbacks)
    ensures prompts == [] <==> AllAcked(ctx, p)
    ensures prompts == [] ==> routes == RoutesOf(p, p.declaration.callbacks)
    ensures all == issues + OnePerPrompt(p.name, prompts)
  {
    var cbs := p.declaration.callbacks;
    routes, prompts, all := map[], [], issues;
    for n := 0 to |cbs|
      invariant Gated(ctx, p, cbs[..n], issues, routes, prompts, all)
    {
      GatedStep(ctx, p, cbs, n, issues, routes, prompts, all);
      if !Acked(ctx, p, cbs[n]) {
        all := all + [Issue(p.name, PendingAck)];
        prompts := prompts + [Prompt(p.name, cbs[n], IdentityOf(ctx, p, cbs[n]))];
      } else {
        routes := routes[cbs[n].effective := RouteOf(p, cbs[n])];
      }
    }
    assert cbs[..|cbs|] == cbs;
    UnackedNoneExactly(ctx, p, cbs);
  }

  /** What the gate holds after these callbacks. */
  ghost predicate Gated(ctx: Context, p: Resolved, met: seq<Callback>, issues: seq<Issue>,
                        routes: map<Text, Route>, prompts: seq<Prompt>, all: seq<Issue>) {
    && prompts == UnackedOf(ctx, p, met)
    && (prompts == [] ==> routes == RoutesOf(p, met))
    && all == issues + OnePerPrompt(p.name, prompts)
  }

  lemma GatedStep(ctx: Context, p: Resolved, cbs: seq<Callback>, n: nat, issues: seq<Issue>,
                  routes: map<Text, Route>, prompts: seq<Prompt>, all: seq<Issue>)
    requires n < |cbs| && Gated(ctx, p, cbs[..n], issues, routes, prompts, all)
    ensures var prompt := Prompt(p.name, cbs[n], IdentityOf(ctx, p, cbs[n]));
      if Acked(ctx, p, cbs[n])
      then Gated(ctx, p, cbs[..n + 1], issues, routes[cbs[n].effective := RouteOf(p, cbs[n])], prompts, all)
      else Gated(ctx, p, cbs[..n + 1], issues, routes, prompts + [prompt], all + [Issue(p.name, PendingAck)])
  {
    assert cbs[..n + 1][..n] == cbs[..n];
    var more := prompts + [Prompt(p.name, cbs[n], IdentityOf(ctx, p, cbs[n]))];
    assert more[..|prompts|] == prompts;
  }

  /** One turn of the loop over the resolved plugins. */
  method AddPlugin(ctx: Context, p: Resolved, d: Desired) returns (out: Desired)
    ensures out == Extend(ctx, d, p)
  {
    if p.declaration.Unparsable? {
      return d.(issues := d.issues + [Issue(p.name, CallbackInvalid)], prunable := false);
    }
    var cbs := p.declaration.callbacks;
    if cbs == [] {
      return d;
    }
    out := d.(validIdentities := d.validIdentities + IdentitiesOf(ctx, p, cbs));
    var reached := Reachable(TargetsOf(ctx.entries, p.name), ctx.roles);
    if !reached {
      return out.(issues := out.issues + [Issue(p.name, NoTarget)]);
    }
    var routes, prompts, all := ConsentGate(ctx, p, out.issues);
    out := out.(issues := all);
    if prompts != [] {
      return out.(pending := out.pending + prompts);
    }
    out := out.(overlay := out.overlay + routes, routed := out.routed + [RoutedOf(p)]);
    if ctx.base.Nothing? {
      out := out.(issues := out.issues + [Issue(p.name, BaseUrlInvalid)]);
    }
  }

  /** `compute_desired`: an invalid registry routes nothing and prunes nothing. */
  method ComputeDesired(ctx: Context) returns (out: Desired)
    ensures out == DesiredOf(ctx)
  {
    out := Desired(map[], [], [], [], {}, false);
    if !ctx.registryValid {
      return;
    }
    out := out.(prunable := !ctx.resolutionIssues);
    var ps := ctx.plugins;
    for n := 0 to |ps|
      invariant out == Gather(ctx, ps[..n])
    {
      assert ps[..n + 1][..n] == ps[..n];
      out := AddPlugin(ctx, ps[n], out);
    }
    assert ps[..|ps|] == ps;
  }

  // ---------------------------------------------------------------------------
  // All or nothing
  // ---------------------------------------------------------------------------

  /** `effective_name`: `plg-<plugin>--<declared>`. */
  function EffectiveName(plugin: string, declared: string): string {
    "plg-" + plugin + "--" + declared
  }

  /** No two dashes in a row, none at the end. */
  predicate SafePlugin(plugin: string) {
    && (forall i | 0 <= i < |plugin| - 1 :: plugin[i] == '-' ==> plugin[i + 1] != '-')
    && (plugin != "" ==> plugin[|plugin| - 1] != '-')
  }

  /** The first double dash separates: an effective name names one callback of one plugin. */
  lemma EffectiveNameUnique(p1: string, d1: string, p2: string, d2: string)
    requires SafePlugin(p1) && SafePlugin(p2) && EffectiveName(p1, d1) == EffectiveName(p2, d2)
    ensures p1 == p2 && d1 == d2
  {
    var e1, e2 := EffectiveName(p1, d1), EffectiveName(p2, d2);
    Separator(p1, d1);
    Separator(p2, d2);
    if |p1| < |p2| {
      NoLaterSeparator(p1, d1, p2, d2);
    } else if |p2| < |p1| {
      NoLaterSeparator(p2, d2, p1, d1);
    }
    assert p1 == e1[4..4 + |p1|] && p2 == e2[4..4 + |p2|];
    assert d1 == e1[6 + |p1|..] && d2 == e2[6 + |p2|..];
  }

  lemma Separator(p: string, d: string)
    ensures var e := EffectiveName(p, d);
      && |e| == 6 + |p| + |d| && e[4 + |p|] == '-' && e[5 + |p|] == '-'
      && forall i | 0 <= i < |p| :: e[4 + i] == p[i]
  {
  }

  lemma NoLaterSeparator(p1: string, d1: string, p2: string, d2: string)
    requires SafePlugin(p2) && |p1| < |p2|
    ensures EffectiveName(p1, d1) != EffectiveName(p2, d2)
  {
    Separator(p1, d1);
    Separator(p2, d2);
    var e2 := EffectiveName(p2, d2);
    assert e2[4 + |p1|] == p2[|p1|];
    assert |p1| + 1 < |p2| ==> e2[4 + (|p1| + 1)] == p2[|p1| + 1];
  }

  /** The plugin's names are those `parse_and_validate` lets through. */
  ghost predicate WellNamed(p: Resolved) {
    Declares(p) ==>
      && SafePlugin(p.name.chars)
      && (forall i | 0 <= i < |p.declaration.callbacks| ::
            p.declaration.callbacks[i].effective.chars ==
            EffectiveName(p.name.chars, p.declaration.callbacks[i].declared.chars))
      && (forall i, j | 0 <= i < j < |p.declaration.callbacks| ::
            p.declaration.callbacks[i].declared != p.declaration.callbacks[j].declared)
  }

  /** Well named each, and no two under one name: the registry drops both of a duplicated name. */
  ghost predicate AllWellNamed(ps: seq<Resolved>) {
    && (forall k | 0 <= k < |ps| :: WellNamed(ps[k]))
    && (forall k, l | 0 <= k < l < |ps| :: ps[k].name != ps[l].name)
  }

  lemma {:induction false} RoutesSound(p: Resolved, cbs: seq<Callback>, e: Text) returns (i: nat)
    requires e in RoutesOf(p, cbs)
    ensures i < |cbs| && cbs[i].effective == e && RoutesOf(p, cbs)[e] == RouteOf(p, cbs[i])
  {
    if cbs[|cbs| - 1].effective == e {
      i := |cbs| - 1;
    } else {
      i := RoutesSound(p, cbs[..|cbs| - 1], e);
    }
  }

  lemma {:induction false} RoutesComplete(p: Resolved, cbs: seq<Callback>, i: nat)
    requires i < |cbs|
    ensures cbs[i].effective in RoutesOf(p, cbs)
  {
    if i < |cbs| - 1 {
      RoutesComplete(p, cbs[..|cbs| - 1], i);
    }
  }

  /** Whatever is routed belongs to a plugin that passed every gate. */
  lemma {:induction false} OverlaySound(ctx: Context, ps: seq<Resolved>, e: Text) returns (k: nat, i: nat)
    requires e in Gather(ctx, ps).overlay
    ensures k < |ps| && Routable(ctx, ps[k]) && i < |ps[k].declaration.callbacks|
    ensures ps[k].declaration.callbacks[i].effective == e
    ensures Gather(ctx, ps).overlay[e] == RouteOf(ps[k], ps[k].declaration.callbacks[i])
  {
    var p := ps[|ps| - 1];
    if Routable(ctx, p) && e in RoutesOf(p, p.declaration.callbacks) {
      k := |ps| - 1;
      i := RoutesSound(p, p.declaration.callbacks, e);
    } else {
      k, i := OverlaySound(ctx, ps[..|ps| - 1], e);
    }
  }

  lemma {:induction false} OverlayComplete(ctx: Context, ps: seq<Resolved>, k: nat, i: nat)
    requires k < |ps| && Routable(ctx, ps[k]) && i < |ps[k].declaration.callbacks|
    ensures ps[k].declaration.callbacks[i].effective in Gather(ctx, ps).overlay
  {
    if k < |ps| - 1 {
      OverlayComplete(ctx, ps[..|ps| - 1], k, i);
    } else {
      RoutesComplete(ps[k], ps[k].declaration.callbacks, i);
    }
  }

  /** The route is this plugin's, under both names of this callback. */
  predicate Serves(route: Route, p: Resolved, cb: Callback) {
    route.plugin == p.name && route.declared == cb.declared && route.effective == cb.effective && route.path == p.path
  }

  /** A plugin that passed every gate has every callback routed to itself; any other has no route at all. */
  lemma AllOrNothing(ctx: Context, k: nat)
    requires ctx.registryValid && AllWellNamed(ctx.plugins) && k < |ctx.plugins|
    ensures Routable(ctx, ctx.plugins[k]) ==> forall i | 0 <= i < |ctx.plugins[k].declaration.callbacks| ::
                var cb := ctx.plugins[k].declaration.callbacks[i];
                && cb.effective in DesiredOf(ctx).overlay
                && Serves(DesiredOf(ctx).overlay[cb.effective], ctx.plugins[k], cb)
    ensures !Routable(ctx, ctx.plugins[k]) ==> forall e | e in DesiredOf(ctx).overlay ::
                DesiredOf(ctx).overlay[e].plugin != ctx.plugins[k].name
  {
    var ps := ctx.plugins;
    if Routable(ctx, ps[k]) {
      forall i | 0 <= i < |ps[k].declaration.callbacks|
        ensures var cb := ps[k].declaration.callbacks[i];
          cb.effective in Gather(ctx, ps).overlay && Gather(ctx, ps).overlay[cb.effective] == RouteOf(ps[k], cb)
      {
        OverlayComplete(ctx, ps, k, i);
        OwnRoute(ctx, ps, k, i);
      }
    } else {
      forall e | e in Gather(ctx, ps).overlay
        ensures Gather(ctx, ps).overlay[e].plugin != ps[k].name
      {
        var l, i := OverlaySound(ctx, ps, e);
        assert k != l;
      }
    }
  }

  lemma OwnRoute(ctx: Context, ps: seq<Resolved>, k: nat, i: nat)
    requires AllWellNamed(ps) && k < |ps| && Routable(ctx, ps[k]) && i < |ps[k].declaration.callbacks|
    requires ps[k].declaration.callbacks[i].effective in Gather(ctx, ps).overlay
    ensures Gather(ctx, ps).overlay[ps[k].declaration.callbacks[i].effective] ==
            RouteOf(ps[k], ps[k].declaration.callbacks[i])
  {
    var cb := ps[k].declaration.callbacks[i];
    var l, j := OverlaySound(ctx, ps, cb.effective);
    var other := ps[l].declaration.callbacks[j];
    assert WellNamed(ps[k]) && WellNamed(ps[l]);
    EffectiveNameUnique(ps[k].name.chars, cb.declared.chars, ps[l].name.chars, other.declared.chars);
    assert ps[k].name == ps[l].name && cb.declared == other.declared;
    assert k == l && i == j;
  }

  // ---------------------------------------------------------------------------
  // Consent: what is asked for, and what must not be forgotten
  // ---------------------------------------------------------------------------

  lemma {:induction false} IdentitiesExactly(ctx: Context, p: Resolved, cbs: seq<Callback>, ident: Text)
    ensures ident in IdentitiesOf(ctx, p, cbs) <==> exists i | 0 <= i < |cbs| :: IdentityOf(ctx, p, cbs[i]) == ident
  {
    if cbs != [] {
      var init := cbs[..|cbs| - 1];
      IdentitiesExactly(ctx, p, init, ident);
      assert forall i | 0 <= i < |init| :: init[i] == cbs[i];
    }
  }

  /** The plugin declares a callback whose consent is this identity, routed or not. */
  ghost predicate Computes(ctx: Context, p: Resolved, ident: Text) {
    p.declaration.Callbacks? && exists i | 0 <= i < |p.declaration.callbacks| ::
        IdentityOf(ctx, p, p.declaration.callbacks[i]) == ident
  }

  lemma ComputesExactly(ctx: Context, p: Resolved, ident: Text)
    ensures Computes(ctx, p, ident) <==> ident in ValidPart(ctx, p)
  {
    if Declares(p) {
      IdentitiesExactly(ctx, p, p.declaration.callbacks, ident);
    }
  }

  /** The keep-set of the prune: every identity some readable declaration still computes, and no other. */
  lemma {:induction false} ValidExactly(ctx: Context, ps: seq<Resolved>, ident: Text)
    ensures ident in Gather(ctx, ps).validIdentities <==> exists p | p in ps :: Computes(ctx, p, ident)
  {
    if ps != [] {
      var init, p := ps[..|ps| - 1], ps[|ps| - 1];
      ValidExactly(ctx, init, ident);
      ComputesExactly(ctx, p, ident);
      assert ps == init + [p];
    }
  }

  lemma {:induction false} UnackedExactly(ctx: Context, p: Resolved, cbs: seq<Callback>, prompt: Prompt)
    ensures prompt in UnackedOf(ctx, p, cbs)
       <==> exists i | 0 <= i < |cbs| ::
           !Acked(ctx, p, cbs[i]) && prompt == Prompt(p.name, cbs[i], IdentityOf(ctx, p, cbs[i]))
  {
    if cbs != [] {
      var init := cbs[..|cbs| - 1];
      UnackedExactly(ctx, p, init, prompt);
      assert forall i | 0 <= i < |init| :: init[i] == cbs[i];
    }
  }

  /** The operator would be asked for this callback of the plugin: consent is its only gap. */
  ghost predicate Asks(ctx: Context, p: Resolved, prompt: Prompt) {
    && Declares(p) && Assigned(ctx, p)
    && exists i | 0 <= i < |p.declaration.callbacks| ::
         !Acked(ctx, p, p.declaration.callbacks[i])
         && prompt == Prompt(p.name, p.declaration.callbacks[i], IdentityOf(ctx, p, p.declaration.callbacks[i]))
  }

  lemma AsksExactly(ctx: Context, p: Resolved, prompt: Prompt)
    ensures prompt in PromptsOf(ctx, p) <==> Asks(ctx, p, prompt)
  {
    if Declares(p) {
      UnackedExactly(ctx, p, p.declaration.callbacks, prompt);
    }
  }

  /** A prompt is posted exactly for a missing consent that approving could turn into a route. */
  lemma {:induction false} PromptsExactly(ctx: Context, ps: seq<Resolved>, prompt: Prompt)
    ensures prompt in Gather(ctx, ps).pending <==> exists p | p in ps :: Asks(ctx, p, prompt)
  {
    if ps != [] {
      var init, p := ps[..|ps| - 1], ps[|ps| - 1];
      PromptsExactly(ctx, init, prompt);
      AsksExactly(ctx, p, prompt);
      assert ps == init + [p];
    }
  }

  lemma {:induction false} PrunableExactly(ctx: Context, ps: seq<Resolved>)
    ensures Gather(ctx, ps).prunable <==> !ctx.resolutionIssues && forall p | p in ps :: p.declaration.Callbacks?
  {
    if ps != [] {
      var init, p := ps[..|ps| - 1], ps[|ps| - 1];
      PrunableExactly(ctx, init);
      assert ps == init + [p];
    }
  }

  /** Every plugin in the routed list passed every gate. */
  lemma {:induction false} RoutedSound(ctx: Context, ps: seq<Resolved>, r: Routed) returns (p: Resolved)
    requires r in Gather(ctx, ps).routed
    ensures p in ps && Routable(ctx, p) && r == RoutedOf(p)
    ensures r.plugin == p.name && r.artifact == p.artifact && r.path == p.path && r.callbacks == p.declaration.callbacks
  {
    var init, last := ps[..|ps| - 1], ps[|ps| - 1];
    if r in RoutedPart(ctx, last) {
      p := last;
    } else {
      p := RoutedSound(ctx, init, r);
    }
  }

  /** Every plugin that passed every gate is in the routed list. */
  lemma {:induction false} RoutedComplete(ctx: Context, ps: seq<Resolved>, p: Resolved)
    requires p in ps && Routable(ctx, p)
    ensures RoutedOf(p) in Gather(ctx, ps).routed
  {
    var init, last := ps[..|ps| - 1], ps[|ps| - 1];
    assert ps == init + [last];
    if p in init {
      RoutedComplete(ctx, init, p);
    } else {
      assert RoutedOf(p) in RoutedPart(ctx, last);
    }
  }

  // ---------------------------------------------------------------------------
  // The gates, from the inputs alone
  // ---------------------------------------------------------------------------

  /** The entry that counts for a name is its last well-formed one. */
  ghost predicate LastEntry(entries: seq<Entry>, name: Text, i: nat) {
    && i < |entries| && entries[i].Named? && entries[i].name == name
    && forall j | i < j < |entries| :: !(entries[j].Named? && entries[j].name == name)
  }

  lemma {:induction false} TargetsExactly(entries: seq<Entry>, name: Text, i: nat)
    requires LastEntry(entries, name, i)
    ensures TargetsOf(entries, name) == entries[i].targets
  {
    if i < |entries| - 1 {
      TargetsExactly(entries[..|entries| - 1], name, i);
    }
  }

  lemma {:induction false} NoEntryNoTargets(entries: seq<Entry>, name: Text)
    requires forall i | 0 <= i < |entries| :: !(entries[i].Named? && entries[i].name == name)
    ensures TargetsOf(entries, name) == []
  {
    if entries != [] {
      NoEntryNoTargets(entries[..|entries| - 1], name);
    }
  }

  /** The entry that counts for the plugin names a specialist, or a resident role that is live. */
  ghost predicate Reaches(ctx: Context, p: Resolved, i: nat) {
    LastEntry(ctx.entries, p.name, i) &&
    exists t | t in ctx.entries[i].targets :: t.Specialist? || (t.Resident? && t.role in ctx.roles)
  }

  lemma AssignedExactly(ctx: Context, p: Resolved)
    ensures Assigned(ctx, p) <==> exists i: nat :: Reaches(ctx, p, i)
  {
    if i: nat :| LastEntry(ctx.entries, p.name, i) {
      TargetsExactly(ctx.entries, p.name, i);
      var targets := ctx.entries[i].targets;
      if Assigned(ctx, p) {
        var k :| 0 <= k < |targets| && ReachableBy(targets[k], ctx.roles);
        assert targets[k] in targets;
        assert Reaches(ctx, p, i);
      }
      if j: nat :| Reaches(ctx, p, j) {
        assert i == j;
        var t :| t in targets && (t.Specialist? || (t.Resident? && t.role in ctx.roles));
        var k :| 0 <= k < |targets| && targets[k] == t;
        assert ReachableBy(targets[k], ctx.roles);
      }
    } else {
      NoLastNone(ctx.entries, p.name);
      NoEntryNoTargets(ctx.entries, p.name);
    }
  }

  lemma {:induction false} NoLastNone(entries: seq<Entry>, name: Text)
    requires forall i: nat :: !LastEntry(entries, name, i)
    ensures forall i | 0 <= i < |entries| :: !(entries[i].Named? && entries[i].name == name)
  {
    if i :| 0 <= i < |entries| && entries[i].Named? && entries[i].name == name {
      var last := LastAfter(entries, name, i);
    }
  }

  lemma LastAfter(entries: seq<Entry>, name: Text, i: nat) returns (last: nat)
    requires i < |entries| && entries[i].Named? && entries[i].name == name
    ensures LastEntry(entries, name, last)
    decreases |entries| - i
  {
    if j :| i < j < |entries| && entries[j].Named? && entries[j].name == name {
      last := LastAfter(entries, name, j);
    } else {
      last := i;
    }
  }

  /** A plugin is routed when it declares callbacks, is assigned, and every identity of them is acked. */
  lemma RoutableExactly(ctx: Context, p: Resolved)
    ensures Routable(ctx, p) <==>
      && p.declaration.Callbacks? && |p.declaration.callbacks| > 0 && Assigned(ctx, p)
      && forall cb | cb in p.declaration.callbacks :: ctx.identify(p.name, cb.effective, ctx.digest(cb)) in ctx.acks
  {
    if p.declaration.Callbacks? {
      var cbs := p.declaration.callbacks;
      assert forall i | 0 <= i < |cbs| :: cbs[i] in cbs;
    }
  }

  /** An invalid registry routes, asks for and prunes nothing. */
  lemma InvalidRegistryRoutesNothing(ctx: Context)
    requires !ctx.registryValid
    ensures DesiredOf(ctx).overlay == map[] && DesiredOf(ctx).routed == [] && DesiredOf(ctx).pending == []
    ensures !DesiredOf(ctx).prunable && DesiredOf(ctx).issues == []
  {
  }

  /** The one gap a plugin is reported for: the first gate it fails, or the base URL once it passes them all. */
  ghost predicate Reported(ctx: Context, p: Resolved, reason: Reason) {
    match reason
    case CallbackInvalid => p.declaration.Unparsable?
    case NoTarget => Declares(p) && !Assigned(ctx, p)
    case PendingAck => Declares(p) && Assigned(ctx, p) && !Routable(ctx, p)
    case BaseUrlInvalid => Routable(ctx, p) && ctx.base.Nothing?
  }

  ghost predicate ReportedFor(ctx: Context, p: Resolved, issue: Issue) {
    issue.plugin == p.name && Reported(ctx, p, issue.reason)
  }

  lemma GapsExactly(ctx: Context, p: Resolved, issue: Issue)
    ensures issue in GapsOf(ctx, p) <==> ReportedFor(ctx, p, issue)
  {
    if Declares(p) && Assigned(ctx, p) && !AllAcked(ctx, p) {
      UnackedNoneExactly(ctx, p, p.declaration.callbacks);
      OnePerPromptExactly(p.name, UnackedOf(ctx, p, p.declaration.callbacks), issue);
    }
  }

  lemma {:induction false} OnePerPromptExactly(plugin: Text, prompts: seq<Prompt>, issue: Issue)
    ensures issue in OnePerPrompt(plugin, prompts) <==> prompts != [] && issue == Issue(plugin, PendingAck)
  {
    if prompts != [] {
      OnePerPromptExactly(plugin, prompts[..|prompts| - 1], issue);
    }
  }

  /** Every issue of a pass is the gap of one of its plugins. */
  lemma {:induction false} IssueSound(ctx: Context, ps: seq<Resolved>, issue: Issue) returns (p: Resolved)
    requires issue in Gather(ctx, ps).issues
    ensures p in ps && ReportedFor(ctx, p, issue)
  {
    var init, last := ps[..|ps| - 1], ps[|ps| - 1];
    if issue in GapsOf(ctx, last) {
      GapsExactly(ctx, last, issue);
      p := last;
    } else {
      p := IssueSound(ctx, init, issue);
    }
  }

  /** Every gap of a plugin is an issue of the pass. */
  lemma {:induction false} IssueComplete(ctx: Context, ps: seq<Resolved>, p: Resolved, issue: Issue)
    requires p in ps && ReportedFor(ctx, p, issue)
    ensures issue in Gather(ctx, ps).issues
  {
    var init, last := ps[..|ps| - 1], ps[|ps| - 1];
    assert ps == init + [last];
    if p in init {
      IssueComplete(ctx, init, p, issue);
    } else {
      GapsExactly(ctx, last, issue);
    }
  }
}
