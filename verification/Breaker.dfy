/**
 The half-open circuit breaker around recall (agent.py, `_RecallBreaker`).

 The clock is a monotone sequence of readings passed to each call; a ghost log keeps the readings
 at which an attempt was admitted while the breaker was open.
 */
module Breaker {
  import opened Documents

  class RecallBreaker {
    const threshold: int
    const cooldown: real
    var failures: nat
    var openedAt: Option<real>
    var probeStartedAt: Option<real>

    ghost var clock: real                  // the latest reading
    ghost var probes: seq<real>            // admissions while open, over the whole life
    ghost var openings: seq<real>          // for each probe, when the breaker had last opened

    ghost predicate Valid()
      reads this
    {
      && 0.0 <= cooldown && |probes| == |openings|
      // Open implies enough consecutive failures.
      && (openedAt.Some? ==> threshold <= failures && openedAt.value <= clock)
      && (openedAt.None? ==> probeStartedAt.None?)
      // Nothing is admitted within a cooldown of opening.
      && (forall i | 0 <= i < |probes| :: openings[i] + cooldown <= probes[i] <= clock)
      // Any two probes are at least a cooldown apart.
      && (forall i, j | 0 <= i < j < |probes| :: probes[i] + cooldown <= probes[j])
      // What the two timestamps remember is enough to keep it so.
      && (openedAt.Some? ==> forall i | 0 <= i < |probes| ::
            probes[i] <= openedAt.value || (probeStartedAt.Some? && probes[i] <= probeStartedAt.value))
    }

    constructor (threshold: int, cooldown: real, now: real)
      requires 0.0 <= cooldown
      ensures Valid() && this.threshold == threshold && this.cooldown == cooldown && clock == now
      ensures openedAt.None? && probes == []
    {
      this.threshold, this.cooldown := threshold, cooldown;
      failures, openedAt, probeStartedAt := 0, None, None;
      clock, probes, openings := now, [], [];
    }

    /** `allow`: closed, or the one half-open probe, whose reservation expires after a cooldown. */
    method Allow(now: real) returns (admitted: bool)
      requires Valid() && clock <= now
      modifies `probeStartedAt, `clock, `probes, `openings
      ensures Valid() && clock == now
      ensures openedAt.None? ==> admitted
      ensures openedAt.Some? ==>
                (admitted <==> openedAt.value + cooldown <= now &&
                               (old(probeStartedAt).Some? ==> old(probeStartedAt).value + cooldown <= now))
      ensures probes == if admitted && openedAt.Some? then old(probes) + [now] else old(probes)
    {
      clock := now;
      if openedAt.None? {
        return true;
      }
      if now - openedAt.value < cooldown {
        return false;
      }
      if probeStartedAt.Some? && now - probeStartedAt.value < cooldown {
        return false;
      }
      probeStartedAt := Some(now);
      probes, openings := probes + [now], openings + [openedAt.value];
      return true;
    }

    method RecordSuccess()
      requires Valid()
      modifies `failures, `openedAt, `probeStartedAt
      ensures Valid() && openedAt.None? && failures == 0
    {
      failures, openedAt, probeStartedAt := 0, None, None;
    }

    /** `record_failure`: opens at the threshold, and re-opens for a full cooldown after a failed probe. */
    method RecordFailure(now: real)
      requires Valid() && clock <= now
      modifies `failures, `openedAt, `probeStartedAt, `clock
      ensures Valid() && clock == now && failures == old(failures) + 1 && probeStartedAt.None?
      ensures openedAt == if threshold <= failures then Some(now) else None
    {
      clock := now;
      probeStartedAt := None;
      failures := failures + 1;
      if failures >= threshold {
        openedAt := Some(now);
      }
    }
  }
}
