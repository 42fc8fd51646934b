/**
 The delivery ledger of one authorization attempt (callback_attempts.py) and the worker steps that
 move it (callback_episodes.py, `_is_nudgeable`, `_accept`, `_defer`).

 Clocks are real numbers.  The consumer's opaque `meta`, the schema version and the state hash are
 carried unchanged by every step and are left out of the record.
 */
module Attempts {
  import opened Documents

  const MAX_NUDGES := 6
  const RESULT_SLOTS := 4
  const OUTCOME_SLOTS := 2
  const DEFERRAL_BASE_S := 60.0
  const DEFERRAL_CAP_S := 1800.0
  const DEFERRAL_MAX_SHIFT := 32
  const TS_ABS_MAX: real := 1_000_000_000_000_000.0

  datatype Status = AwaitingRedirect | ResultReady | Done

  datatype Ending = Collected | Expired | ExpiredUnread | PublishFailed | Evicted

  datatype Attempt = Attempt(
    mintedTs: Option<real>, status: Status, outcome: Option<Ending>, claimed: bool,
    nudges: nat, lastNudge: Option<real>, nextNudge: Option<real>, deferrals: nat,
    noted: bool, endedTs: Option<real>)

  /** `RESULT_PHASE_OFFSETS`, from the publishing of the result. */
  function ResultOffset(slot: nat): (s: real)
    requires slot < RESULT_SLOTS
  {
    if slot == 0 then 0.0 else if slot == 1 then 60.0 else if slot == 2 then 180.0 else 480.0
  }

  /** `OUTCOME_PHASE_OFFSETS`, from the end of the attempt. */
  function OutcomeOffset(slot: nat): (s: real)
    requires slot < OUTCOME_SLOTS
  {
    if slot == 0 then 1800.0 else 7200.0
  }

  predicate IsTs(t: Option<real>) {
    t.Some? ==> -TS_ABS_MAX <= t.value <= TS_ABS_MAX
  }

  /** `validate_attempt`: bounded clocks, and an outcome exactly on a done record. */
  predicate Validates(rec: Attempt) {
    && (rec.outcome.Some? <==> rec.status.Done?)
    && IsTs(rec.mintedTs) && IsTs(rec.lastNudge) && IsTs(rec.nextNudge) && IsTs(rec.endedTs)
  }

  function NewAttempt(minted: Option<real>, status: Status, claimed: bool, now: real): Attempt {
    Attempt(if IsTs(minted) then minted else None, status, None, claimed, 0, None,
            if status.ResultReady? then Some(now + ResultOffset(0)) else None,
            0, false, None)
  }

  function Terminalize(rec: Attempt, outcome: Ending, now: real, claimed: Option<bool>): Attempt {
    var out := rec.(claimed := if claimed.Some? then claimed.value else rec.claimed);
    if rec.status.Done? && rec.outcome == Some(outcome) then out else
      out.(status := Done, outcome := Some(outcome), endedTs := Some(now),
           nextNudge := if !outcome.Collected? && rec.nudges < MAX_NUDGES
                        then Some(now + OutcomeOffset(0)) else None)
  }

  predicate Settled(rec: Attempt) {
    rec.status.Done? && rec.outcome == Some(Collected)
  }

  /** The first slot of the outcome phase strictly after `current`. */
  function NextOutcomeSlot(ended: real, current: real): Option<real> {
    if ended + OutcomeOffset(0) > current then Some(ended + OutcomeOffset(0))
    else if ended + OutcomeOffset(1) > current then Some(ended + OutcomeOffset(1))
    else None
  }

  function Later(a: real, b: real): real {
    if a < b then b else a
  }

  /** `next_nudge_after_accept`.  On a done record the source adds to `ended_ts`, which must be there. */
  function AfterAccept(rec: Attempt, now: real, anchor: Option<real>): Option<real>
    requires rec.status.Done? && !Settled(rec) ==> rec.endedTs.Some?
  {
    if Settled(rec) || rec.nudges + 1 >= MAX_NUDGES || rec.nextNudge.None? then None
    else if rec.status.Done? then NextOutcomeSlot(rec.endedTs.value, rec.nextNudge.value)
    else if rec.nudges + 1 >= RESULT_SLOTS then None
    else if anchor.Some? then Some(Later(now, anchor.value + ResultOffset(rec.nudges + 1)))
    else Some(rec.nextNudge.value + (ResultOffset(rec.nudges + 1) - ResultOffset(rec.nudges)))
  }

  function Pow2(n: nat): nat {
    if n == 0 then 1 else 2 * Pow2(n - 1)
  }

  function Earlier(a: real, b: real): real {
    if b < a then b else a
  }

  /** The deferral, saturated before exponentiating. */
  function Deferral(d: nat): real {
    if d >= DEFERRAL_MAX_SHIFT then DEFERRAL_CAP_S
    else Earlier(DEFERRAL_CAP_S, Unsaturated(d))
  }

  function AfterReject(rec: Attempt, now: real): real {
    now + Deferral(rec.deferrals)
  }

  lemma {:induction false} Pow2Grows(m: nat, n: nat)
    requires m <= n
    ensures 1 <= Pow2(m) <= Pow2(n)
    decreases n
  {
    if m < n {
      Pow2Grows(m, n - 1);
    } else if m > 0 {
      Pow2Grows(m - 1, m - 1);
    }
  }

  /** What the deferral would be without the saturation. */
  function Unsaturated(d: nat): real {
    DEFERRAL_BASE_S * Pow2(d) as real
  }

  lemma UnsaturatedGrows(m: nat, n: nat)
    requires m <= n
    ensures Unsaturated(m) <= Unsaturated(n)
  {
    Pow2Grows(m, n);
    var a, b := Pow2(m) as real, Pow2(n) as real;
    assert a <= b;
    assert DEFERRAL_BASE_S * a <= DEFERRAL_BASE_S * b;
  }

  lemma UnsaturatedPastCap()
    ensures Unsaturated(0) == 60.0 && Unsaturated(5) == 1920.0
  {
    assert Pow2(3) == 8;
  }

  /** Saturating is exact: the deferral is `min(1800, 60 * 2^d)` for every natural `d`. */
  lemma DeferralExact(d: nat)
    ensures Deferral(d) == Earlier(DEFERRAL_CAP_S, Unsaturated(d))
    ensures DEFERRAL_BASE_S <= Deferral(d) <= DEFERRAL_CAP_S
  {
    UnsaturatedPastCap();
    UnsaturatedGrows(0, d);
    if d >= DEFERRAL_MAX_SHIFT {
      UnsaturatedGrows(5, d);
    }
  }

  /** `_is_nudgeable`, given the spool's answer about the result. */
  predicate Nudgeable(rec: Attempt, hasResult: bool, now: real) {
    && rec.nextNudge.Some? && rec.nextNudge.value <= now
    && rec.nudges < MAX_NUDGES
    && !Settled(rec)
    && (rec.status.ResultReady? ==> hasResult)
  }

  // ---------------------------------------------------------------------------
  // Runs of one record
  // ---------------------------------------------------------------------------

  /**
   The steps that reach one record, each at a clock reading `at`.  The worker selects a snapshot,
   awaits the dispatch and its backoff, and only then merges what it computed from the snapshot
   into whatever is stored; `now` is the reading it computed with.  The attempt may end in between.
   */
  datatype Event =
    | Select(at: real, hasResult: bool)
    | Accept(at: real, now: real, anchor: Option<real>)             // the bus took the nudge
    | Reject(at: real, now: real)                                   // every dispatch of the pass was rejected
    | GiveUp(at: real)                                              // nothing recorded: no target, a failed update
    | Terminate(at: real, outcome: Ending, claimed: Option<bool>)

  /** A clock reading with room for every offset the schedule adds. */
  predicate ClockOk(t: real) {
    -TS_ABS_MAX <= t && t + OutcomeOffset(1) <= TS_ABS_MAX
  }

  /** The snapshot a dispatch works from, and when it was taken. */
  datatype Flight = Flight(rec: Attempt, since: real)

  /** The accepts on record: of an open snapshot into an open record, across the ending, and of an ended one. */
  datatype Count = Count(open: nat, across: nat, ended: nat)
  {
    function Total(): nat {
      open + across + ended
    }
  }

  /** `straddled`: some dispatch was recorded across the ending. */
  datatype Ledger = Ledger(rec: Attempt, clock: real, flight: Option<Flight>, accepts: Count, straddled: bool)

  /** What an accept computed from `selected` merges into `stored`. */
  function Accepted(stored: Attempt, selected: Attempt, now: real, anchor: Option<real>): Attempt
    requires selected.status.Done? && !Settled(selected) ==> selected.endedTs.Some?
  {
    stored.(nudges := selected.nudges + 1, lastNudge := Some(now),
            nextNudge := AfterAccept(selected, now, anchor), deferrals := 0)
  }

  function Rejected(stored: Attempt, selected: Attempt, now: real): Attempt {
    stored.(nextNudge := Some(AfterReject(selected, now)), deferrals := selected.deferrals + 1)
  }

  /** A dispatch recorded now is recorded across the ending. */
  predicate Stale(l: Ledger) {
    l.flight.Some? && l.rec.status.Done? && !l.flight.value.rec.status.Done?
  }

  predicate Enabled(l: Ledger, e: Event) {
    && l.clock <= e.at && ClockOk(e.at)
    && match e
       case Select(at, hasResult) => l.flight.None? && Nudgeable(l.rec, hasResult, at)
       case Accept(at, now, anchor) =>
         l.flight.Some? && l.flight.value.since <= now <= at && (anchor.Some? ==> ClockOk(anchor.value))
       case Reject(at, now) => l.flight.Some? && l.flight.value.since <= now <= at
       case GiveUp(_) => l.flight.Some?
       case Terminate(_, _, _) => !l.rec.status.Done?
  }

  /** The one thing the schedule needs that validation does not ask for: an end time on a done record. */
  predicate Dated(rec: Attempt) {
    rec.status.Done? ==> rec.endedTs.Some?
  }

  predicate AllDated(l: Ledger) {
    Dated(l.rec) && (l.flight.Some? ==> Dated(l.flight.value.rec))
  }

  function After(l: Ledger, e: Event): Ledger
    requires Enabled(l, e) && AllDated(l)
  {
    match e
    case Select(at, _) => l.(clock := at, flight := Some(Flight(l.rec, at)))
    case Accept(at, now, anchor) =>
      var selected := l.flight.value.rec;
      Ledger(Accepted(l.rec, selected, now, anchor), at, None,
             if !l.rec.status.Done? then l.accepts.(open := l.accepts.open + 1)
             else if Stale(l) then l.accepts.(across := l.accepts.across + 1)
             else l.accepts.(ended := l.accepts.ended + 1),
             l.straddled || Stale(l))
    case Reject(at, now) =>
      Ledger(Rejected(l.rec, l.flight.value.rec, now), at, None, l.accepts, l.straddled || Stale(l))
    case GiveUp(at) => l.(clock := at, flight := None)
    case Terminate(at, outcome, claimed) => l.(rec := Terminalize(l.rec, outcome, at, claimed), clock := at)
  }

  /** How many more accepts an ended record can take: its slot, and the outcome slots after it. */
  function Remaining(rec: Attempt): nat
    requires rec.endedTs.Some?
  {
    if rec.nextNudge.None? then 0
    else if rec.nextNudge.value < rec.endedTs.value + OutcomeOffset(0) then 3
    else if rec.nextNudge.value < rec.endedTs.value + OutcomeOffset(1) then 2
    else 1
  }

  /** The invariant on the stored record. */
  ghost predicate RecordKept(l: Ledger) {
    var rec := l.rec;
    && Validates(rec) && !rec.status.AwaitingRedirect?
    && rec.nudges == l.accepts.Total() && l.accepts.open + l.accepts.across <= 4
    && (rec.status.ResultReady? ==>
          && l.accepts.across == l.accepts.ended == 0 && !l.straddled
          && (rec.nextNudge.Some? ==> l.accepts.open <= 3))
    && (rec.status.Done? ==>
          && rec.endedTs.Some? && ClockOk(rec.endedTs.value)
          && l.accepts.ended + Remaining(rec) <= (if l.straddled then 3 else 2)
          && l.accepts.across <= (if l.straddled then 1 else 0)
          && l.accepts.Total() + Remaining(rec) <= MAX_NUDGES)
  }

  /** The invariant on the snapshot in flight: it is the stored record, or that record before it ended. */
  ghost predicate FlightKept(l: Ledger) {
    l.flight.Some? ==>
      var selected := l.flight.value.rec;
      && l.flight.value.since <= l.clock && ClockOk(l.flight.value.since)
      && selected.nextNudge.Some? && selected.nextNudge.value <= l.flight.value.since && IsTs(selected.nextNudge)
      && !Settled(selected) && selected.nudges == l.rec.nudges < MAX_NUDGES
      && (!Stale(l) ==> selected == l.rec)
      && (Stale(l) ==>
            && selected.status.ResultReady? && !l.straddled && l.accepts.ended == 0 && selected.nudges <= 3
            && l.rec.endedTs.Some?
            && l.rec.nextNudge == if Settled(l.rec) then None else Some(l.rec.endedTs.value + OutcomeOffset(0)))
  }

  ghost predicate Kept(l: Ledger) {
    RecordKept(l) && FlightKept(l)
  }

  /** An accept of an open snapshot takes the next result-phase slot, if there is one, within bounds. */
  lemma OpenSlot(selected: Attempt, now: real, anchor: Option<real>)
    requires selected.status.ResultReady? && selected.nudges <= 3 && ClockOk(now)
    requires selected.nextNudge.Some? && IsTs(selected.nextNudge) && selected.nextNudge.value <= now
    requires anchor.Some? ==> ClockOk(anchor.value)
    ensures var next := AfterAccept(selected, now, anchor);
      IsTs(next) && (next.Some? <==> selected.nudges < 3)
  {
    if selected.nudges < 3 {
      var a, b := ResultOffset(selected.nudges), ResultOffset(selected.nudges + 1);
      assert 0.0 <= a <= b <= 480.0;
    }
  }

  /** An accept of an ended snapshot leaves one slot fewer, within bounds. */
  lemma EndedSlot(rec: Attempt, now: real, anchor: Option<real>)
    requires rec.status.Done? && !Settled(rec) && rec.endedTs.Some? && ClockOk(rec.endedTs.value) && rec.nextNudge.Some?
    ensures var next := AfterAccept(rec, now, anchor);
      IsTs(next) && Remaining(rec.(nextNudge := next)) < Remaining(rec)
  {
  }

  lemma EndedAcceptKeeps(l: Ledger, e: Event)
    requires Kept(l) && Enabled(l, e) && e.Accept? && l.flight.value.rec.status.Done?
    ensures Kept(After(l, e))
  {
    EndedSlot(l.rec, e.now, e.anchor);
  }

  lemma OpenAcceptKeeps(l: Ledger, e: Event)
    requires Kept(l) && Enabled(l, e) && e.Accept? && !l.flight.value.rec.status.Done?
    ensures Kept(After(l, e))
  {
    OpenSlot(l.flight.value.rec, e.now, e.anchor);
  }

  lemma AcceptKeeps(l: Ledger, e: Event)
    requires Kept(l) && Enabled(l, e) && e.Accept?
    ensures Kept(After(l, e))
  {
    if l.flight.value.rec.status.Done? {
      EndedAcceptKeeps(l, e);
    } else {
      OpenAcceptKeeps(l, e);
    }
  }

  lemma RejectKeeps(l: Ledger, e: Event)
    requires Kept(l) && Enabled(l, e) && e.Reject?
    ensures Kept(After(l, e))
  {
    DeferralExact(l.flight.value.rec.deferrals);
  }

  lemma TerminateKeeps(l: Ledger, e: Event)
    requires Kept(l) && Enabled(l, e) && e.Terminate?
    ensures Kept(After(l, e))
  {
  }

  /**
   Ending a record starts its outcome phase: with budget left and nothing collected it falls due half
   an hour after the end and not before, whatever was scheduled; collected or spent, it never does.
   */
  lemma EndingSchedules(rec: Attempt, outcome: Ending, now: real, claimed: Option<bool>, hasResult: bool, at: real)
    requires !rec.status.Done?
    ensures var ended := Terminalize(rec, outcome, now, claimed);
      && ended.status.Done? && ended.outcome == Some(outcome) && ended.endedTs == Some(now)
      && ended.nudges == rec.nudges && ended.claimed == (if claimed.Some? then claimed.value else rec.claimed)
      && (Nudgeable(ended, hasResult, at) <==> outcome != Collected && rec.nudges < 6 && now + 1800.0 <= at)
  {
  }

  /** On every reachable ledger, with nothing in flight: due from half an hour after the end, unless collected. */
  lemma TerminateSchedules(l: Ledger, e: Event, hasResult: bool, at: real)
    requires Kept(l) && Enabled(l, e) && e.Terminate? && l.flight.None?
    ensures After(l, e).flight.None? && After(l, e).rec.endedTs == Some(e.at)
    ensures Nudgeable(After(l, e).rec, hasResult, at) <==> e.outcome != Collected && e.at + 1800.0 <= at
  {
    EndingSchedules(l.rec, e.outcome, e.at, e.claimed, hasResult, at);
  }

  /** Every step keeps the invariant, whatever ends between a selection and its update. */
  lemma StepKeeps(l: Ledger, e: Event)
    requires Kept(l) && Enabled(l, e)
    ensures Kept(After(l, e))
  {
    match e
    case Accept(_, _, _) => AcceptKeeps(l, e);
    case Reject(_, _) => RejectKeeps(l, e);
    case Terminate(_, _, _) => TerminateKeeps(l, e);
    case _ =>
  }

  /** The dispatch recorded by this step puts the schedule earlier than it was. */
  predicate MovesBack(before: Option<real>, after: Option<real>) {
    before.Some? && after.Some? && after.value < before.value
  }

  /** The slot a dispatch computed from an open snapshot falls before `phase`. */
  predicate FallsBefore(selected: Attempt, e: Event, phase: real)
    requires selected.nextNudge.Some?
  {
    match e
    case Accept(_, now, Some(anchor)) =>
      selected.nudges < 3 && now < phase && anchor + ResultOffset(selected.nudges + 1) < phase
    case Accept(_, _, None) =>
      && selected.nudges < 3
      && selected.nextNudge.value
         + (ResultOffset(selected.nudges + 1) - ResultOffset(selected.nudges)) < phase
    case Reject(_, now) => now + Earlier(DEFERRAL_CAP_S, Unsaturated(selected.deferrals)) < phase
    case _ => false
  }

  /**
   Exactly when a dispatch moves the schedule back: it is recorded across an ending that still has
   an outcome phase, and the slot computed from the open snapshot falls before that phase starts.
   */
  lemma DispatchMovesBackExactly(l: Ledger, e: Event)
    requires Kept(l) && Enabled(l, e) && (e.Accept? || e.Reject?)
    ensures MovesBack(l.rec.nextNudge, After(l, e).rec.nextNudge) <==>
      Stale(l) && !Settled(l.rec) && FallsBefore(l.flight.value.rec, e, l.rec.endedTs.value + OutcomeOffset(0))
    // The last accept of the result phase, recorded across the ending, drops the outcome phase altogether.
    ensures Stale(l) && e.Accept? && l.flight.value.rec.nudges == 3 ==> After(l, e).rec.nextNudge == None
  {
    var selected := l.flight.value.rec;
    if e.Reject? {
      DeferralExact(selected.deferrals);
    } else if selected.status.Done? {
      EndedSlotLater(selected, e.now, e.anchor);
    } else {
      OpenSlotLater(selected, e);
    }
  }

  lemma EndedSlotLater(rec: Attempt, now: real, anchor: Option<real>)
    requires rec.status.Done? && !Settled(rec) && rec.endedTs.Some? && rec.nextNudge.Some?
    ensures !MovesBack(rec.nextNudge, AfterAccept(rec, now, anchor))
  {
  }

  lemma OpenSlotLater(selected: Attempt, e: Event)
    requires e.Accept? && selected.status.ResultReady? && selected.nudges <= 3
    requires selected.nextNudge.Some? && selected.nextNudge.value <= e.now
    ensures !MovesBack(selected.nextNudge, AfterAccept(selected, e.now, e.anchor))
    ensures forall phase :: MovesBack(Some(phase), AfterAccept(selected, e.now, e.anchor)) <==>
              FallsBefore(selected, e, phase)
    ensures selected.nudges == 3 ==> AfterAccept(selected, e.now, e.anchor) == None
  {
    if selected.nudges < 3 {
      assert 0.0 <= ResultOffset(selected.nudges) <= ResultOffset(selected.nudges + 1);
    }
  }

  ghost predicate Step(l: Ledger, e: Event, next: Ledger) {
    AllDated(l) && Enabled(l, e) && next == After(l, e)
  }

  /** A deferral waits a minute, doubled for every one in a row before it, up to half an hour. */
  lemma {:induction false} DeferralWaits(l: Ledger, reject: Event, next: Ledger)
    requires Kept(l) && Step(l, reject, next) && reject.Reject? && !Stale(l)
    ensures next.rec.nextNudge == Some(reject.now + Earlier(1800.0, Unsaturated(l.rec.deferrals)))
    ensures next.rec.deferrals == l.rec.deferrals + 1 && next.rec.nudges == l.rec.nudges
  {
    SlotAfterReject(l.rec, reject.now);
    assert l.flight.value.rec == l.rec;
  }

  lemma SlotAfterReject(rec: Attempt, now: real)
    ensures AfterReject(rec, now) == now + Earlier(1800.0, Unsaturated(rec.deferrals))
  {
    DeferralExact(rec.deferrals);
  }

  /** An accept ends the row; selecting, giving up and ending leave it. */
  lemma AcceptEndsTheRow(l: Ledger, e: Event, next: Ledger)
    requires Kept(l) && Step(l, e, next) && !e.Reject?
    ensures next.rec.deferrals == if e.Accept? then 0 else l.rec.deferrals
    ensures e.Accept? ==> next.rec.lastNudge == Some(e.now) && next.rec.nudges == l.rec.nudges + 1
  {
  }

  /** The ledgers one run passes through, and the events between them. */
  ghost predicate Run(ls: seq<Ledger>, es: seq<Event>) {
    |ls| == |es| + 1 && forall i | 0 <= i < |es| :: Step(ls[i], es[i], ls[i + 1])
  }

  lemma {:induction false} RunKeeps(ls: seq<Ledger>, es: seq<Event>, n: nat)
    requires Run(ls, es) && n <= |es| && Kept(ls[0])
    ensures Kept(ls[n])
  {
    if n > 0 {
      RunKeeps(ls, es, n - 1);
      assert Step(ls[n - 1], es[n - 1], ls[n - 1 + 1]);
      StepKeeps(ls[n - 1], es[n - 1]);
    }
  }

  /** A freshly published result. */
  function Published(minted: Option<real>, claimed: bool, now: real): Ledger {
    Ledger(NewAttempt(minted, ResultReady, claimed, now), now, None, Count(0, 0, 0), false)
  }

  ghost predicate FreshlyPublished(l: Ledger) {
    ClockOk(l.clock) && l == Published(l.rec.mintedTs, l.rec.claimed, l.clock)
  }

  /**
   In every interleaving from a freshly published result, the record validates, carries its end time
   once it is done, and is never selected again once collected.  It records at most four accepts of
   open snapshots, three of ended ones and six in all; two of ended ones if no dispatch straddled
   the ending, and then none across it.
   */
  lemma {:induction false} ReachableRecord(ls: seq<Ledger>, es: seq<Event>, n: nat, hasResult: bool, at: real)
    requires Run(ls, es) && n <= |es| && FreshlyPublished(ls[0])
    ensures Validates(ls[n].rec)
    ensures ls[n].rec.status.Done? ==> ls[n].rec.endedTs.Some?
    ensures ls[n].rec.nudges == ls[n].accepts.Total() <= MAX_NUDGES
    ensures ls[n].accepts.open + ls[n].accepts.across <= 4 && ls[n].accepts.across <= 1 && ls[n].accepts.ended <= 3
    ensures !ls[n].straddled ==> ls[n].accepts.across == 0 && ls[n].accepts.ended <= 2
    ensures ls[n].rec.outcome == Some(Collected) ==> !Nudgeable(ls[n].rec, hasResult, at)
  {
    PublishedKept(ls[0]);
    RunKeeps(ls, es, n);
    KeptMeans(ls[n], hasResult, at);
  }

  lemma PublishedKept(start: Ledger)
    requires FreshlyPublished(start)
    ensures Kept(start)
  {
  }

  lemma KeptMeans(l: Ledger, hasResult: bool, at: real)
    requires Kept(l)
    ensures Validates(l.rec) && (l.rec.status.Done? ==> l.rec.endedTs.Some?)
    ensures l.rec.nudges == l.accepts.Total() <= MAX_NUDGES
    ensures l.accepts.open + l.accepts.across <= 4 && l.accepts.across <= 1 && l.accepts.ended <= 3
    ensures !l.straddled ==> l.accepts.across == 0 && l.accepts.ended <= 2
    ensures l.rec.outcome == Some(Collected) ==> !Nudgeable(l.rec, hasResult, at)
  {
  }

  lemma Extend(ls: seq<Ledger>, es: seq<Event>, e: Event, next: Ledger)
    requires Run(ls, es) && Step(ls[|es|], e, next)
    ensures Run(ls + [next], es + [e])
  {
  }

  /** A selection at `at` and the accept of it. */
  lemma Nudge(ls: seq<Ledger>, es: seq<Event>, at: real) returns (ms: seq<Ledger>, fs: seq<Event>)
    requires Run(ls, es) && AllDated(ls[|es|]) && Enabled(ls[|es|], Select(at, true))
    ensures Run(ms, fs) && ms[0] == ls[0]
    ensures ms[|fs|] == After(After(ls[|es|], Select(at, true)), Accept(at, at, None))
  {
    var l := ls[|es|];
    var mid := After(l, Select(at, true));
    var next := After(mid, Accept(at, at, None));
    Extend(ls, es, Select(at, true), mid);
    Extend(ls + [mid], es + [Select(at, true)], Accept(at, at, None), next);
    ms, fs := ls + [mid] + [next], es + [Select(at, true)] + [Accept(at, at, None)];
  }

  /** The bounds are reached: an accept across an ending at 10, and three more of the ended record. */
  lemma LateAcceptsReached() returns (ls: seq<Ledger>, es: seq<Event>)
    ensures Run(ls, es) && FreshlyPublished(ls[0])
    ensures ls[|es|].accepts == Count(0, 1, 3)
  {
    var l0 := Published(None, true, 0.0);
    var l1 := After(l0, Select(0.0, true));
    var l2 := After(l1, Terminate(10.0, Expired, None));
    var across := Accept(20.0, 20.0, Some(0.0));
    var l3 := After(l2, across);
    Extend([l0], [], Select(0.0, true), l1);
    Extend([l0, l1], [Select(0.0, true)], Terminate(10.0, Expired, None), l2);
    Extend([l0, l1, l2], [Select(0.0, true), Terminate(10.0, Expired, None)], across, l3);
    ls, es := [l0, l1, l2, l3], [Select(0.0, true), Terminate(10.0, Expired, None), across];
    assert l3.rec.nextNudge == Some(60.0) && l3.rec.endedTs == Some(10.0);
    ls, es := Nudge(ls, es, 60.0);
    ls, es := Nudge(ls, es, 1810.0);
    ls, es := Nudge(ls, es, 7210.0);
  }

  /** The result phase: four nudges, at its slots. */
  lemma ResultPhaseReached() returns (ls: seq<Ledger>, es: seq<Event>)
    ensures Run(ls, es) && FreshlyPublished(ls[0]) && Stands(ls[|es|], Count(4, 0, 0), None, 480.0)
  {
    ls, es := [Published(None, true, 0.0)], [];
    ls, es := Nudge(ls, es, 0.0);
    assert Stands(ls[|es|], Count(1, 0, 0), Some(60.0), 0.0);
    ls, es := Nudge(ls, es, 60.0);
    assert Stands(ls[|es|], Count(2, 0, 0), Some(180.0), 60.0);
    ls, es := Nudge(ls, es, 180.0);
    assert Stands(ls[|es|], Count(3, 0, 0), Some(480.0), 180.0);
    ls, es := Nudge(ls, es, 480.0);
  }

  /** The whole schedule: four nudges of the result, then two of the outcome. */
  lemma WholeScheduleReached() returns (ls: seq<Ledger>, es: seq<Event>)
    ensures Run(ls, es) && FreshlyPublished(ls[0])
    ensures ls[|es|].accepts == Count(4, 0, 2) && ls[|es|].rec.nextNudge == None
  {
    ls, es := ResultPhaseReached();
    var expired := Terminate(600.0, ExpiredUnread, None);
    var ended := After(ls[|es|], expired);
    Extend(ls, es, expired, ended);
    ls, es := ls + [ended], es + [expired];
    assert Ended(ended, Count(4, 0, 0), Some(2400.0), 600.0);
    ls, es := Nudge(ls, es, 2400.0);
    assert Ended(ls[|es|], Count(4, 0, 1), Some(7800.0), 2400.0);
    ls, es := Nudge(ls, es, 7800.0);
  }

  /** A record that ended at 600 unread, with nothing in flight. */
  ghost predicate Ended(l: Ledger, accepts: Count, next: Option<real>, clock: real) {
    && l.rec.status.Done? && l.rec.outcome == Some(ExpiredUnread) && l.rec.endedTs == Some(600.0)
    && l.flight.None? && l.clock == clock
    && l.accepts == accepts && l.rec.nudges == accepts.Total() && l.rec.nextNudge == next
  }

  /** An open record with nothing in flight, these accepts behind it and this slot ahead. */
  ghost predicate Stands(l: Ledger, accepts: Count, next: Option<real>, clock: real) {
    && l.rec.status.ResultReady? && l.rec.outcome.None? && l.flight.None? && l.clock == clock
    && l.accepts == accepts && l.rec.nudges == accepts.open && l.rec.nextNudge == next
  }

  /** A deferral recorded across an ending at 10: the slot goes from 1810 back to 80. */
  lemma StaleDeferralMovesBack()
    ensures var ended := After(After(Published(None, true, 0.0), Select(0.0, true)), Terminate(10.0, Expired, None));
      ended.rec.nextNudge == Some(1810.0) && After(ended, Reject(20.0, 20.0)).rec.nextNudge == Some(80.0)
  {
    DeferralExact(0);
    UnsaturatedPastCap();
  }

  /** Terminalizing again with the same outcome changes nothing, whatever the clock says. */
  lemma TerminalizeIdempotent(rec: Attempt, outcome: Ending, now: real, later: real, claimed: Option<bool>)
    ensures Terminalize(Terminalize(rec, outcome, now, claimed), outcome, later, claimed) ==
            Terminalize(rec, outcome, now, claimed)
  {
  }

  /** A record without a clock in range, or with an outcome on the wrong side of done, is refused. */
  lemma ValidatesExactly(rec: Attempt)
    ensures Validates(rec) <==>
      && (rec.status.Done? <==> rec.outcome.Some?)
      && forall t | t in [rec.mintedTs, rec.lastNudge, rec.nextNudge, rec.endedTs] ::
           t.Some? ==> -1_000_000_000_000_000.0 <= t.value <= 1_000_000_000_000_000.0
  {
    var ts := [rec.mintedTs, rec.lastNudge, rec.nextNudge, rec.endedTs];
    assert ts[0] in ts && ts[1] in ts && ts[2] in ts && ts[3] in ts;
  }

  /** A new record is due from the moment its result is there, and only then; an awaited one has no schedule. */
  lemma NewAttemptDue(minted: Option<real>, status: Status, claimed: bool, now: real, hasResult: bool, at: real)
    ensures var rec := NewAttempt(minted, status, claimed, now);
      && (Nudgeable(rec, hasResult, at) <==> status.ResultReady? && hasResult && now <= at)
      && rec.status == status && rec.claimed == claimed && rec.nudges == 0 && rec.deferrals == 0 && rec.endedTs.None?
  {
  }

  /** What is never nudged: a spent budget, a slot still ahead or none, a collected result, one that is gone. */
  lemma NotNudged(rec: Attempt, hasResult: bool, at: real)
    ensures rec.nudges >= 6 ==> !Nudgeable(rec, hasResult, at)
    ensures rec.nextNudge.None? || at < rec.nextNudge.value ==> !Nudgeable(rec, hasResult, at)
    ensures rec.status.Done? && rec.outcome == Some(Collected) ==> !Nudgeable(rec, hasResult, at)
    ensures rec.status.ResultReady? && !hasResult ==> !Nudgeable(rec, hasResult, at)
  {
  }

  /** A record made with status done has no outcome and does not validate; the open ones do. */
  lemma NewAttemptValidates(minted: Option<real>, status: Status, claimed: bool, now: real)
    requires ClockOk(now)
    ensures Validates(NewAttempt(minted, status, claimed, now)) <==> !status.Done?
  {
  }
}
