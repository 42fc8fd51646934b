/**
 Single-use grants (authz_grants.py, `GrantStore`, the commit step of `get_or_create` and the
 `_authorize` tail of the hook).

 `Apply` and `Answer` are the store's operations on its map; `GrantStore` is the class.  `LiveAt`
 says from the history alone, with no store, whether a consume must succeed.
 */
module Grants {
  import opened Documents

  const DEFAULT_GRANT_TTL_S: real := 300.0

  datatype GrantKey = GrantKey(
    operatorId: int, chatId: int, role: string, artifactId: string, tool: string, argsHash: string,
    engagementId: string)

  datatype Grant = Grant(expiresAt: real, used: bool)

  type Store = map<GrantKey, Grant>

  datatype Op =
    | Mint(key: GrantKey, expiresAt: real)        // the clock is read before the lock is taken
    | Consume(key: GrantKey, now: real)
    | PurgeChat(chatId: int)
    | PurgeRole(role: string)
    | PurgeArtifact(artifactId: string)
    | Sweep(now: real)

  /** A purge drops this grant. */
  predicate Drops(op: Op, key: GrantKey, grant: Grant) {
    match op
    case PurgeChat(c) => key.chatId == c
    case PurgeRole(r) => key.role == r
    case PurgeArtifact(a) => key.artifactId == a
    case Sweep(now) => grant.expiresAt <= now
    case Mint(_, _) => false
    case Consume(_, _) => false
  }

  predicate Usable(s: Store, key: GrantKey, now: real) {
    key in s && !s[key].used && now < s[key].expiresAt
  }

  function Apply(s: Store, op: Op): Store {
    match op
    case Mint(key, expiresAt) => s[key := Grant(expiresAt, false)]
    case Consume(key, now) => if Usable(s, key, now) then s[key := s[key].(used := true)] else s
    case _ => map k | k in s && !Drops(op, k, s[k]) :: s[k]
  }

  class GrantStore {
    var grants: Store

    constructor ()
      ensures grants == map[]
    {
      grants := map[];
    }

    method Mint(key: GrantKey, now: real, ttl: real)
      modifies this
      ensures grants == Apply(old(grants), Op.Mint(key, now + ttl))
    {
      grants := grants[key := Grant(now + ttl, false)];
    }

    method Consume(key: GrantKey, now: real) returns (ok: bool)
      modifies this
      ensures ok == Usable(old(grants), key, now)
      ensures grants == Apply(old(grants), Op.Consume(key, now))
    {
      if key !in grants {
        return false;
      }
      var grant := grants[key];
      if grant.used || grant.expiresAt <= now {
        return false;
      }
      grants := grants[key := grant.(used := true)];
      return true;
    }

    /** `_purge`: collect the matching keys, then delete them one by one. */
    method Purge(op: Op) returns (count: nat)
      requires !op.Mint? && !op.Consume?
      modifies this
      ensures grants == Apply(old(grants), op)
      ensures count == |old(grants)| - |grants|
    {
      var matched := set k | k in grants && Drops(op, k, grants[k]);
      count := |matched|;
      var todo := matched;
      ghost var gone: set<GrantKey> := {};
      assert grants - gone == grants;
      while todo != {}
        invariant gone + todo == matched
        invariant grants == old(grants) - gone
        decreases todo
      {
        var k :| k in todo;
        DropOne(old(grants), gone, k);
        grants := grants - {k};
        gone, todo := gone + {k}, todo - {k};
      }
      assert gone == matched;
      PurgeDrops(old(grants), op, matched);
      CountDropped(old(grants), matched);
    }
  }

  lemma DropOne(s: Store, gone: set<GrantKey>, k: GrantKey)
    ensures s - gone - {k} == s - (gone + {k})
  {
  }

  lemma PurgeDrops(s: Store, op: Op, matched: set<GrantKey>)
    requires !op.Mint? && !op.Consume?
    requires matched == set k | k in s && Drops(op, k, s[k])
    ensures Apply(s, op) == s - matched
  {
  }

  lemma CountDropped(s: Store, matched: set<GrantKey>)
    requires matched <= s.Keys
    ensures |s| == |s - matched| + |matched|
  {
    assert (s - matched).Keys == s.Keys - matched;
    assert s.Keys == (s - matched).Keys + matched;
  }

  /** A purge leaves no grant of its chat, role or artifact, a sweep none that has run out, and every other one. */
  lemma PurgedExactly(s: Store, key: GrantKey, chat: int, role: string, artifact: string, now: real)
    ensures key in Apply(s, PurgeChat(chat)) <==> key in s && key.chatId != chat
    ensures key in Apply(s, PurgeRole(role)) <==> key in s && key.role != role
    ensures key in Apply(s, PurgeArtifact(artifact)) <==> key in s && key.artifactId != artifact
    ensures key in Apply(s, Sweep(now)) <==> key in s && now < s[key].expiresAt
    ensures forall op | op in {PurgeChat(chat), PurgeRole(role), PurgeArtifact(artifact), Sweep(now)} ::
              key in Apply(s, op) ==> Apply(s, op)[key] == s[key]
  {
  }

  // ---------------------------------------------------------------------------
  // What the history says
  // ---------------------------------------------------------------------------

  function StateAfter(h: seq<Op>): Store {
    if h == [] then map[] else Apply(StateAfter(h[..|h| - 1]), h[|h| - 1])
  }

  /** The operation leaves alone an unused grant for `key` that runs out at `expiry`. */
  predicate Spares(op: Op, key: GrantKey, expiry: real) {
    match op
    case Mint(k, _) => k != key
    case Consume(k, now) => k != key || expiry <= now
    case _ => !Drops(op, key, Grant(expiry, false))
  }

  /** The i-th operation is the mint in force at `now`: unexpired, not consumed or purged since. */
  predicate InForce(h: seq<Op>, i: int, key: GrantKey, now: real) {
    0 <= i < |h| && h[i].Mint? && h[i].key == key && now < h[i].expiresAt &&
    forall j | i < j < |h| :: Spares(h[j], key, h[i].expiresAt)
  }

  ghost predicate LiveAt(h: seq<Op>, key: GrantKey, now: real) {
    exists i :: InForce(h, i, key, now)
  }

  lemma InForceSnoc(h: seq<Op>, op: Op, i: int, key: GrantKey, now: real)
    requires 0 <= i < |h|
    ensures InForce(h + [op], i, key, now) <==> InForce(h, i, key, now) && Spares(op, key, h[i].expiresAt)
  {
    var g := h + [op];
    assert g[i] == h[i] && g[|h|] == op;
    if InForce(g, i, key, now) {
      forall j | i < j < |h| ensures Spares(h[j], key, h[i].expiresAt) { assert g[j] == h[j]; }
      assert Spares(g[|h|], key, g[i].expiresAt);
    }
  }

  /** Any unused grant in the store is the latest mint of its key, and every mint in force is there. */
  lemma {:induction false} StoreIsHistory(h: seq<Op>, key: GrantKey, now: real)
    ensures Usable(StateAfter(h), key, now) <==> LiveAt(h, key, now)
    ensures forall i | InForce(h, i, key, now) ::
              key in StateAfter(h) && StateAfter(h)[key] == Grant(h[i].expiresAt, false)
  {
    if h != [] {
      var init, op := h[..|h| - 1], h[|h| - 1];
      assert h == init + [op];
      StoreIsHistory(init, key, now);
      forall i | 0 <= i < |init|
        ensures InForce(h, i, key, now) <==> InForce(init, i, key, now) && Spares(op, key, init[i].expiresAt)
      {
        InForceSnoc(init, op, i, key, now);
      }
      LastOp(init, op, key, now);
    }
  }

  lemma LastOp(init: seq<Op>, op: Op, key: GrantKey, now: real)
    requires Usable(StateAfter(init), key, now) <==> LiveAt(init, key, now)
    requires forall i | InForce(init, i, key, now) ::
               key in StateAfter(init) && StateAfter(init)[key] == Grant(init[i].expiresAt, false)
    requires forall i | 0 <= i < |init| ::
               InForce(init + [op], i, key, now) <==> InForce(init, i, key, now) && Spares(op, key, init[i].expiresAt)
    ensures Usable(Apply(StateAfter(init), op), key, now) <==> LiveAt(init + [op], key, now)
    ensures forall i | InForce(init + [op], i, key, now) ::
              key in Apply(StateAfter(init), op) &&
              Apply(StateAfter(init), op)[key] == Grant((init + [op])[i].expiresAt, false)
  {
    var s, h := StateAfter(init), init + [op];
    assert h[|init|] == op;
    if op.Mint? && op.key == key {
      assert InForce(h, |init|, key, now) <==> now < op.expiresAt;
    } else if i :| InForce(init, i, key, now) {
      assert s[key] == Grant(init[i].expiresAt, false);
      assert Usable(Apply(s, op), key, now) <==> Spares(op, key, init[i].expiresAt);
      if Spares(op, key, init[i].expiresAt) {
        assert InForce(h, i, key, now);
      }
    }
  }

  /** `consume` answers true exactly when the key's latest mint is in force. */
  lemma ConsumeExactly(h: seq<Op>, key: GrantKey, now: real)
    ensures Usable(StateAfter(h), key, now) <==> LiveAt(h, key, now)
    ensures forall i, j | InForce(h, i, key, now) && InForce(h, j, key, now) :: i == j
  {
    StoreIsHistory(h, key, now);
    forall i, j | InForce(h, i, key, now) && InForce(h, j, key, now)
      ensures i >= j
    {
      assert !Spares(h[j], key, h[i].expiresAt);
    }
  }

  // ---------------------------------------------------------------------------
  // Sweeping is invisible
  // ---------------------------------------------------------------------------

  /** The answers to the consumes of `ops`, in order. */
  function Answers(s: Store, ops: seq<Op>): seq<bool>
    decreases |ops|
  {
    if ops == [] then [] else
      (if ops[0].Consume? then [Usable(s, ops[0].key, ops[0].now)] else []) + Answers(Apply(s, ops[0]), ops[1..])
  }

  function WithoutSweeps(ops: seq<Op>): seq<Op>
    decreases |ops|
  {
    if ops == [] then []
    else if ops[0].Sweep? then WithoutSweeps(ops[1..])
    else [ops[0]] + WithoutSweeps(ops[1..])
  }

  /** A monotone clock, as far as it matters: no consume reads an earlier time than a sweep before it. */
  predicate SweepsInOrder(ops: seq<Op>) {
    forall i, j | 0 <= i < j < |ops| && ops[i].Sweep? && ops[j].Consume? :: ops[i].now <= ops[j].now
  }

  /** `s` is `full` without some grants that no consume of `ops` could use any more. */
  ghost predicate Trimmed(s: Store, full: Store, ops: seq<Op>) {
    && (forall k | k in s :: k in full && full[k] == s[k])
    && (forall k, i | k in full && k !in s && 0 <= i < |ops| && ops[i].Consume? && ops[i].key == k ::
          full[k].expiresAt <= ops[i].now)
  }

  lemma TrimmedStep(s: Store, full: Store, ops: seq<Op>)
    requires ops != [] && Trimmed(s, full, ops) && SweepsInOrder(ops)
    ensures Trimmed(Apply(s, ops[0]), if ops[0].Sweep? then full else Apply(full, ops[0]), ops[1..])
    ensures ops[0].Consume? ==> (Usable(s, ops[0].key, ops[0].now) <==> Usable(full, ops[0].key, ops[0].now))
  {
    var rest := ops[1..];
    forall k, i | k in full && k !in s && 0 <= i < |rest| && rest[i].Consume? && rest[i].key == k
      ensures full[k].expiresAt <= rest[i].now
    {
      assert rest[i] == ops[i + 1];
    }
    if ops[0].Sweep? {
      forall i | 0 <= i < |rest| && rest[i].Consume?
        ensures ops[0].now <= rest[i].now
      {
        assert rest[i] == ops[i + 1];
      }
    }
  }

  lemma {:induction false} AnswersTrimmed(s: Store, full: Store, ops: seq<Op>)
    requires Trimmed(s, full, ops) && SweepsInOrder(ops)
    ensures Answers(s, ops) == Answers(full, WithoutSweeps(ops))
    decreases |ops|
  {
    if ops != [] {
      TrimmedStep(s, full, ops);
      assert SweepsInOrder(ops[1..]) by {
        forall i, j | 0 <= i < j < |ops[1..]| && ops[1..][i].Sweep? && ops[1..][j].Consume?
          ensures ops[1..][i].now <= ops[1..][j].now
        {
          assert ops[1..][i] == ops[i + 1] && ops[1..][j] == ops[j + 1];
        }
      }
      if ops[0].Sweep? {
        AnswersTrimmed(Apply(s, ops[0]), full, ops[1..]);
      } else {
        AnswersTrimmed(Apply(s, ops[0]), Apply(full, ops[0]), ops[1..]);
        var kept := WithoutSweeps(ops);
        assert kept == [ops[0]] + WithoutSweeps(ops[1..]);
        assert kept[1..] == WithoutSweeps(ops[1..]);
      }
    }
  }

  /** Inserting or removing sweeps anywhere changes no answer. */
  lemma SweepIsInvisible(ops: seq<Op>)
    requires SweepsInOrder(ops)
    ensures Answers(map[], ops) == Answers(map[], WithoutSweeps(ops))
  {
    AnswersTrimmed(map[], map[], ops);
  }

  // ---------------------------------------------------------------------------
  // Protected calls never outnumber approvals
  // ---------------------------------------------------------------------------

  /** What reaches the store: taps on the challenge keyboard, protected calls, and housekeeping. */
  datatype Act =
    | Tap(key: GrantKey, option: nat, now: real)          // a committed answer; option 0 is Approve
    | Call(key: GrantKey, fromOperator: bool, renderable: bool, now: real)
    | Housekeeping(op: Op)

  /** The `_authorize` tail: a call is allowed only for the operator, and only by consuming a grant. */
  predicate Allowed(s: Store, a: Act) {
    a.Call? && a.fromOperator && a.renderable && Usable(s, a.key, a.now)
  }

  function Effect(s: Store, a: Act): Store {
    match a
    case Tap(key, option, now) => if option == 0 then Apply(s, Mint(key, now + DEFAULT_GRANT_TTL_S)) else s
    case Call(key, fromOperator, renderable, now) =>
      if fromOperator && renderable then Apply(s, Consume(key, now)) else s
    case Housekeeping(op) => if op.Mint? || op.Consume? then s else Apply(s, op)
  }

  function Allowances(s: Store, acts: seq<Act>, key: GrantKey): nat
    decreases |acts|
  {
    if acts == [] then 0 else
      (if Allowed(s, acts[0]) && acts[0].key == key then 1 else 0) + Allowances(Effect(s, acts[0]), acts[1..], key)
  }

  function Approvals(acts: seq<Act>, key: GrantKey): nat
    decreases |acts|
  {
    if acts == [] then 0 else
      (if acts[0].Tap? && acts[0].option == 0 && acts[0].key == key then 1 else 0) + Approvals(acts[1..], key)
  }

  lemma {:induction false} AllowancesBounded(s: Store, acts: seq<Act>, key: GrantKey)
    ensures Allowances(s, acts, key) <= Approvals(acts, key) + if key in s && !s[key].used then 1 else 0
    decreases |acts|
  {
    if acts != [] {
      AllowancesBounded(Effect(s, acts[0]), acts[1..], key);
    }
  }

  /** From an empty store, the calls allowed for a key never outnumber the Approve taps for it. */
  lemma AllowedWithinApprovals(acts: seq<Act>, key: GrantKey)
    ensures Allowances(map[], acts, key) <= Approvals(acts, key)
  {
    AllowancesBounded(map[], acts, key);
  }

  /** An Approve tap allows the operator one call within five minutes; a Deny or anybody else's call does nothing. */
  lemma ApprovedExactly(s: Store, key: GrantKey, option: nat, tapped: real, now: real, operator: bool, renderable: bool)
    ensures var call := Call(key, operator, renderable, now);
      && (Allowed(Effect(s, Tap(key, 0, tapped)), call) <==> operator && renderable && now < tapped + 300.0)
      && (option != 0 ==> Effect(s, Tap(key, option, tapped)) == s)
      && (!operator || !renderable ==> !Allowed(s, call) && Effect(s, call) == s)
      && (Allowed(s, call) ==> !Allowed(Effect(s, call), call))
  {
  }
}
