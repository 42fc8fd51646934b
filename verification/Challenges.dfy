/**
 Live authorization challenges (authz_grants.py, `ChallengeCoordinator`: registration, the two
 latches and the identity-guarded removal).

 Every entry point runs on one event loop without awaiting, so each method is one atomic step and
 `Valid`, kept by all of them, holds in every order of events.
 */
module Challenges {
  import opened Grants

  class Challenge {
    const key: GrantKey
    var setupSettled: bool
    var requestSettled: bool

    constructor (key: GrantKey)
      ensures this.key == key && !setupSettled && !requestSettled
    {
      this.key := key;
      setupSettled, requestSettled := false, false;
    }

    predicate Settled()
      reads this
    {
      setupSettled && requestSettled
    }
  }

  datatype Handle = Pending(existing: Challenge) | TooLarge | Created(challenge: Challenge)

  class Coordinator {
    var entries: map<GrantKey, Challenge>
    ghost var registered: set<Challenge>       // every challenge ever registered

    /** A challenge is the entry of its key exactly while one of its latches is unset. */
    ghost predicate Valid()
      reads this, registered
    {
      && (forall k | k in entries :: entries[k] in registered && entries[k].key == k)
      && (forall c | c in registered :: (c.key in entries && entries[c.key] == c) <==> !c.Settled())
    }

    constructor ()
      ensures Valid() && entries == map[] && registered == {}
    {
      entries, registered := map[], {};
    }

    /** One key never has two live challenges. */
    lemma OneLivePerKey(a: Challenge, b: Challenge)
      requires Valid() && a in registered && b in registered
      requires a.key == b.key && !a.Settled() && !b.Settled()
      ensures a == b
    {
    }

    /** `register_challenge`: deduplicate by key, refuse an oversized body before any insert. */
    method Register(key: GrantKey, oversized: bool) returns (h: Handle)
      requires Valid()
      modifies this
      ensures Valid()
      ensures key in old(entries) ==>
                h == Pending(old(entries)[key]) && entries == old(entries) && registered == old(registered)
      ensures key !in old(entries) && oversized ==>
                h == TooLarge && entries == old(entries) && registered == old(registered)
      ensures key !in old(entries) && !oversized ==>
                h.Created? && fresh(h.challenge) && h.challenge.key == key && !h.challenge.Settled() &&
                entries == old(entries)[key := h.challenge] && registered == old(registered) + {h.challenge}
    {
      if key in entries {
        return Pending(entries[key]);
      }
      if oversized {
        return TooLarge;
      }
      var c := new Challenge(key);
      assert forall d | d in registered :: d != c;
      entries := entries[key := c];
      registered := registered + {c};
      return Created(c);
    }

    /** `_maybe_remove`: the second latch removes this challenge, and never a newer one. */
    method MaybeRemove(c: Challenge)
      requires c in registered
      requires forall k | k in entries :: entries[k] in registered && entries[k].key == k
      requires forall d | d in registered && d != c :: (d.key in entries && entries[d.key] == d) <==> !d.Settled()
      requires !c.Settled() ==> c.key in entries && entries[c.key] == c
      modifies this`entries
      ensures Valid()
      ensures entries == if c.Settled() && c.key in old(entries) && old(entries)[c.key] == c
                         then old(entries) - {c.key} else old(entries)
    {
      if !(c.setupSettled && c.requestSettled) {
        return;
      }
      if c.key in entries && entries[c.key] == c {
        entries := entries - {c.key};
      }
    }

    /** `_settle_request`: the broker future has resolved. */
    method SettleRequest(c: Challenge)
      requires Valid() && c in registered
      modifies this`entries, c`requestSettled
      ensures Valid() && c.requestSettled
      ensures entries == if c.setupSettled && !old(c.requestSettled) then old(entries) - {c.key} else old(entries)
      ensures forall k | k in old(entries) && old(entries)[k] != c :: k in entries && entries[k] == old(entries)[k]
    {
      c.requestSettled := true;
      MaybeRemove(c);
    }

    /** `_settle_setup`: posting and its settlement are done. */
    method SettleSetup(c: Challenge)
      requires Valid() && c in registered
      modifies this`entries, c`setupSettled
      ensures Valid() && c.setupSettled
      ensures entries == if c.requestSettled && !old(c.setupSettled) then old(entries) - {c.key} else old(entries)
      ensures forall k | k in old(entries) && old(entries)[k] != c :: k in entries && entries[k] == old(entries)[k]
    {
      c.setupSettled := true;
      MaybeRemove(c);
    }
  }

  /** A retry after settlement gets a fresh challenge, and the old one's late latch leaves it alone. */
  method LateLatchIsHarmless(coordinator: Coordinator, first: Challenge) returns (second: Challenge)
    requires coordinator.Valid() && first in coordinator.registered && first.Settled()
    requires first.key !in coordinator.entries
    modifies coordinator, first
    ensures coordinator.Valid() && second != first && second.key == first.key
    ensures second.key in coordinator.entries && coordinator.entries[second.key] == second
  {
    var h := coordinator.Register(first.key, false);
    second := h.challenge;
    coordinator.SettleRequest(first);
    coordinator.SettleSetup(first);
  }
}
