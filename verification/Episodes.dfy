/**
 Selecting due attempts and computing the worker's next wake (callback_episodes.py,
 `_select_nudgeable`, `_scan_next_due`, `_wake_timeout`), over every attempt of every plugin.
 */
module Episodes {
  import opened Documents
  import opened Attempts

  /** One validated attempt file, with the spool's answer about its result. */
  datatype Listed = Listed(plugin: string, hash: string, rec: Attempt, hasResult: bool)

  const MIN_WAKE_S := 5.0

  predicate Due(a: Listed, now: real) {
    Nudgeable(a.rec, a.hasResult, now)
  }

  function DueAmong(attempts: seq<Listed>, now: real): seq<Listed> {
    if attempts == [] then [] else
      var last := attempts[|attempts| - 1];
      DueAmong(attempts[..|attempts| - 1], now) + if Due(last, now) then [last] else []
  }

  /** `_select_nudgeable`: exactly the due attempts, in listing order. */
  method SelectNudgeable(attempts: seq<Listed>, now: real) returns (due: seq<Listed>)
    ensures due == DueAmong(attempts, now)
    ensures forall a :: a in due <==> a in attempts && Due(a, now)
  {
    due := [];
    for i := 0 to |attempts|
      invariant due == DueAmong(attempts[..i], now)
      invariant forall a :: a in due <==> a in attempts[..i] && Due(a, now)
    {
      assert attempts[..i + 1] == attempts[..i] + [attempts[i]];
      if Due(attempts[i], now) {
        due := due + [attempts[i]];
      }
    }
    assert attempts[..|attempts|] == attempts;
  }

  /** A slot that can still fire: scheduled, within budget, not collected. */
  predicate Pending(a: Listed) {
    a.rec.nextNudge.Some? && a.rec.nudges < MAX_NUDGES && !Settled(a.rec)
  }

  /** `_scan_next_due`: the earliest slot that can still fire. */
  method ScanNextDue(attempts: seq<Listed>) returns (best: Option<real>)
    ensures best.None? <==> forall a | a in attempts :: !Pending(a)
    ensures best.Some? ==> exists a :: a in attempts && Pending(a) && a.rec.nextNudge == best
    ensures forall a | a in attempts && Pending(a) :: best.Some? && best.value <= a.rec.nextNudge.value
  {
    best := None;
    for i := 0 to |attempts|
      invariant best.None? ==> forall a | a in attempts[..i] :: !Pending(a)
      invariant best.Some? ==> exists a :: a in attempts[..i] && Pending(a) && a.rec.nextNudge == best
      invariant forall a | a in attempts[..i] && Pending(a) :: best.Some? && best.value <= a.rec.nextNudge.value
    {
      var rec := attempts[i].rec;
      assert attempts[..i + 1] == attempts[..i] + [attempts[i]];
      if rec.nextNudge.None? || rec.nudges >= MAX_NUDGES || Settled(rec) {
        continue;
      }
      if best.None? || rec.nextNudge.value < best.value {
        best := rec.nextNudge;
        assert attempts[i] in attempts[..i + 1];
      }
    }
    assert attempts[..|attempts|] == attempts;
  }

  /** `_wake_timeout`: how long the worker sleeps when nothing kicks it. */
  function WakeTimeout(nextDue: Option<real>, now: real): Option<real> {
    if nextDue.None? then None else Some(Later(MIN_WAKE_S, nextDue.value - now))
  }

  /**
   No attempt is stranded: if a ledger scanned at `scanned` holds an attempt that is due at some
   later moment, the worker's timed wake comes no later than that moment, or a minimum sleep after
   the scan.
   */
  lemma WakeCoversEveryDue(attempts: seq<Listed>, best: Option<real>, scanned: real, a: Listed, moment: real)
    requires forall b | b in attempts && Pending(b) :: best.Some? && best.value <= b.rec.nextNudge.value
    requires a in attempts && Due(a, moment) && scanned <= moment
    ensures WakeTimeout(best, scanned).Some?
    ensures 5.0 <= WakeTimeout(best, scanned).value
    ensures scanned + WakeTimeout(best, scanned).value <= Later(scanned + MIN_WAKE_S, moment)
  {
    assert Pending(a);
  }

  /** A timed wake is never for nothing: some attempt is due then, unless its result has gone. */
  lemma WakeFindsWork(attempts: seq<Listed>, best: real, a: Listed)
    requires a in attempts && Pending(a) && a.rec.nextNudge == Some(best)
    requires a.rec.status.ResultReady? ==> a.hasResult
    ensures Due(a, best) && a in DueAmong(attempts, best)
  {
    DueMembers(attempts, best);
  }

  lemma {:induction false} DueMembers(attempts: seq<Listed>, now: real)
    ensures forall a :: a in DueAmong(attempts, now) <==> a in attempts && Due(a, now)
  {
    if attempts != [] {
      var n := |attempts| - 1;
      assert attempts == attempts[..n] + [attempts[n]];
      DueMembers(attempts[..n], now);
    }
  }
}
