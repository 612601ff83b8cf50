/**
 One call that connects to a ready broker or spawns one: the loop itself, over
 dependencies that may answer anything. Each dependency may be used only where
 the caller automaton of `BrokerElection` allows it, so every call is one of the
 callers the interleaving theorems range over; and the loop is bounded by the
 timeout alone.
 */
module BrokerReady {
  import opened Wire
  import opened Words
  import opened BrokerElection

  const MILLISECOND: nat := 1_000_000
  const INITIAL_BACKOFF: nat := 5 * MILLISECOND
  const MAX_BACKOFF: nat := 50 * MILLISECOND
  const PROBE_BUDGET: nat := 2000 * MILLISECOND

  /** The wait after pass `k`. */
  function Backoff(k: nat): nat {
    if INITIAL_BACKOFF * Pow2(k) < MAX_BACKOFF then INITIAL_BACKOFF * Pow2(k) else MAX_BACKOFF
  }

  lemma NextBackoff(k: nat)
    ensures Backoff(k + 1) == if 2 * Backoff(k) > MAX_BACKOFF then MAX_BACKOFF else 2 * Backoff(k)
    ensures Backoff(k) >= INITIAL_BACKOFF
  {
    PowerPositive(k);
  }

  lemma {:induction false} PowerPositive(k: nat)
    ensures Pow2(k) >= 1
  {
    if k > 0 {
      PowerPositive(k - 1);
    }
  }

  /** The least time spent in the first `k` waits. */
  function Elapsed(k: nat): nat {
    if k == 0 then 0 else Elapsed(k - 1) + Backoff(k - 1)
  }

  lemma {:induction false} ElapsedClosedForm(k: nat)
    requires k >= 4
    ensures Elapsed(k) == 75 * MILLISECOND + MAX_BACKOFF * (k - 4)
    ensures Backoff(k) == MAX_BACKOFF
  {
    if k == 4 {
      assert Pow2(1) == 2 && Pow2(2) == 4 && Pow2(3) == 8 && Pow2(4) == 16;
      assert Backoff(0) == 5 * MILLISECOND && Backoff(1) == 10 * MILLISECOND;
      assert Backoff(2) == 20 * MILLISECOND && Backoff(3) == 40 * MILLISECOND;
      assert Elapsed(1) == 5 * MILLISECOND && Elapsed(2) == 15 * MILLISECOND && Elapsed(3) == 35 * MILLISECOND;
    } else {
      ElapsedClosedForm(k - 1);
      NextBackoff(k - 1);
    }
  }

  /** How many passes a timeout allows. */
  function MaxPasses(timeout: int): nat {
    if timeout <= 0 then 1 else timeout / MAX_BACKOFF + 5
  }

  lemma WaitsAreBounded(k: nat, timeout: int)
    requires Elapsed(k) < timeout
    ensures k + 2 <= MaxPasses(timeout)
  {
    if k >= 4 {
      ElapsedClosedForm(k);
    }
  }

  // ----- What one call observed

  datatype Budget = Budget(at: int, given: int)

  /**
   The events of a call with the moment each was asked for, the waits asked for,
   the moment of each probe with the time it was given,
       and how many events came before the first answer that ends the call: a
   cancellation, a probe cut short or answered by something else than a broker, a
   failed election, inspection, spawn or wait.
   */
  datatype Record = Record(
    log: seq<Event>, times: seq<int>, waits: seq<nat>, budgets: seq<Budget>, decided: Option<nat>
  ) {
    function Add(e: Event, at: int): Record {
      this.(log := log + [e], times := times + [at])
    }

    function Given(at: int, given: int): Record {
      this.(budgets := budgets + [Budget(at, given)])
    }

    function Decide(): Record {
      if decided.Some? then this else this.(decided := Some(|log|))
    }
  }

  const NOTHING: Record := Record([], [], [], [], None)

  predicate Decisive(e: Event) {
    match e
    case Probed(endpoint) => endpoint == Retired || endpoint == Incompatible
    case ElectionFailed => true
    case LifetimeFailed => true
    case Spawned(ok) => !ok
    case _ => false
  }

  /** The record after a dependency answered `e`. */
  function Answered(r: Record, e: Event, at: int): Record {
    if Decisive(e) then r.Add(e, at).Decide() else r.Add(e, at)
  }

  predicate IsElection(e: Event) {
    e == Elected || e == ElectionBusy || e == ElectionFailed
  }

  predicate IsInspection(e: Event) {
    e == LifetimeFree || e == LifetimeBusy || e == LifetimeFailed
  }

  /** The event at `i` needs the deadline to be ahead: an election, or an inspection but for one right after winning. */
  predicate NeedsTime(log: seq<Event>, i: nat)
    requires i < |log|
  {
    IsElection(log[i]) || (IsInspection(log[i]) && (i < 2 || log[i - 2] != Elected))
  }

  /**
   No election was entered after the deadline, nor the lifetime lock inspected on
   a probe that ended after it; only the probe that follows an election is not timed.
   */
  ghost predicate OnTime(log: seq<Event>, times: seq<int>, deadline: int) {
    |times| == |log| && forall i :: 0 <= i < |log| && NeedsTime(log, i) ==> times[i] < deadline
  }

  /** Every probe is given two seconds or what is left until the deadline, whichever is less, and some time at least. */
  ghost predicate Budgeted(budgets: seq<Budget>, deadline: int) {
    forall i :: 0 <= i < |budgets| ==> WithinBudget(budgets[i], deadline)
  }

  predicate WithinBudget(b: Budget, deadline: int) {
    && 0 < b.given && b.given <= 2_000_000_000 && b.given <= deadline - b.at
    && (b.given == 2_000_000_000 || b.given == deadline - b.at)
  }

  lemma OneMoreBudget(budgets: seq<Budget>, at: int, given: int, deadline: int)
    requires WithinBudget(Budget(at, given), deadline)
    ensures Budgeted(budgets, deadline) ==> Budgeted(budgets + [Budget(at, given)], deadline)
  {
  }

  lemma ProbeIsAllowed(c: Caller, endpoint: Endpoint)
    requires c.pc == Top || c.pc == Reprobing
    ensures Step(c, Probed(endpoint)).Some?
  {
  }

  ghost predicate Timely(r: Record, deadline: int) {
    OnTime(r.log, r.times, deadline) && Budgeted(r.budgets, deadline)
  }

  lemma OneMoreOnTime(log: seq<Event>, times: seq<int>, e: Event, at: int, deadline: int)
    requires OnTime(log, times, deadline)
    requires NeedsTime(log + [e], |log|) ==> at < deadline
    ensures OnTime(log + [e], times + [at], deadline)
  {
    forall i | 0 <= i < |log| ensures NeedsTime(log + [e], i) <==> NeedsTime(log, i) {
    }
  }

  /** The waits double from 5 ms and stop at 50 ms. */
  ghost predicate WaitsDouble(waits: seq<nat>) {
    forall k :: 0 <= k < |waits| ==>
      waits[k] == if 5 * Pow2(k) < 50 then 5 * Pow2(k) * MILLISECOND else 50 * MILLISECOND
  }

  class Dependencies {
    var now: int
    /** The caller as the automaton sees it, and what it observed. */
    ghost var caller: Caller
    ghost var record: Record

    ghost predicate Valid()
      reads this
    {
      Follow(START, record.log) == Some(caller)
    }

    constructor (now: int)
      ensures Valid() && this.now == now && caller == START && record == NOTHING
    {
      this.now, caller, record := now, START, NOTHING;
    }

    ghost method Observe(e: Event, at: int)
      requires Valid() && Step(caller, e).Some?
      modifies this`caller, this`record
      ensures Valid() && Some(caller) == Step(old(caller), e) && record == Answered(old(record), e, at)
    {
      caller := Step(caller, e).value;
      record := Answered(record, e, at);
      assert record.log[..|record.log| - 1] == old(record.log);
    }

    method PassTime(least: nat)
      modifies this`now
      ensures now >= old(now) + least
    {
      var extra: int := *;
      now := now + least + (if extra >= 0 then extra else 0);
    }

    /** Context cancellation or expiry, at any moment. */
    method Cancelled() returns (cancelled: bool)
      requires Valid()
      modifies this`record
      ensures Valid() && record == if cancelled then old(record).Decide() else old(record)
    {
      cancelled := *;
      if cancelled {
        record := record.Decide();
      }
    }

    /** `None` is a probe cut short by its budget or by cancellation. */
    method Probe(deadline: int) returns (r: Option<Endpoint>)
      requires Valid() && (caller.pc == Top || caller.pc == Reprobing)
      modifies this
      ensures Valid() && now >= old(now)
      ensures r.Some? ==> Some(caller) == Step(old(caller), Probed(r.value))
      ensures var given := if deadline - old(now) < 2_000_000_000 then deadline - old(now) else 2_000_000_000;
              var asked := if given <= 0 then old(record) else old(record).Given(old(now), given);
              record == if r.Some? then Answered(asked, Probed(r.value), old(now)) else asked.Decide()
      ensures r.Some? ==> old(now) < deadline
      ensures r.None? ==> caller == old(caller)
      ensures Budgeted(old(record).budgets, deadline) ==> Budgeted(record.budgets, deadline)
    {
      hide Follow, Step, Budgeted;
      ghost var at := now;
      var budget := if deadline - now < PROBE_BUDGET then deadline - now else PROBE_BUDGET;
      if budget <= 0 {
        record := record.Decide();
        return None;
      }
      OneMoreBudget(record.budgets, now, budget, deadline);
      record := record.Given(now, budget);
      PassTime(0);
      var cut := *;
      if cut {
        record := record.Decide();
        return None;
      }
      var endpoint: Endpoint := *;
      ProbeIsAllowed(caller, endpoint);
      Observe(Probed(endpoint), at);
      return Some(endpoint);
    }

    method AcquireElection() returns (e: Event)
      requires Valid() && caller.pc == Electing
      modifies this
      ensures Valid() && now >= old(now)
      ensures IsElection(e) && Some(caller) == Step(old(caller), e)
      ensures record == Answered(old(record), e, old(now))
    {
      ghost var at := now;
      PassTime(0);
      var won, busy := *, *;
      e := if won then Elected else if busy then ElectionBusy else ElectionFailed;
      Observe(e, at);
    }

    method LifetimeOwner() returns (e: Event)
      requires Valid() && caller.pc == Inspecting
      modifies this
      ensures Valid() && now >= old(now)
      ensures IsInspection(e) && Some(caller) == Step(old(caller), e)
      ensures record == Answered(old(record), e, old(now))
    {
      ghost var at := now;
      PassTime(0);
      var free, busy := *, *;
      e := if free then LifetimeFree else if busy then LifetimeBusy else LifetimeFailed;
      Observe(e, at);
    }

    method Spawn() returns (ok: bool)
      requires Valid() && caller.pc == Spawning
      modifies this
      ensures Valid() && now >= old(now)
      ensures Some(caller) == Step(old(caller), Spawned(ok))
      ensures record == Answered(old(record), Spawned(ok), old(now))
    {
      ghost var at := now;
      PassTime(0);
      ok := *;
      Observe(Spawned(ok), at);
    }

    /** A successful wait takes at least the time asked for. */
    method Wait(d: nat) returns (ok: bool)
      requires Valid() && caller.pc == Waiting
      modifies this
      ensures Valid() && now >= old(now)
      ensures ok ==> now >= old(now) + d && caller == old(caller).(pc := Top)
      ensures !ok ==> caller == old(caller)
      ensures var r := old(record).(waits := old(record).waits + [d]);
              record == if ok then r.Add(Waited, old(now)) else r.Decide()
    {
      ghost var at := now;
      record := record.(waits := record.waits + [d]);
      ok := *;
      if ok {
        PassTime(d);
        Observe(Waited, at);
      } else {
        PassTime(0);
        record := record.Decide();
      }
    }

    /** The deferred release on the way out. */
    method Finish()
      requires Valid() && !caller.pc.Finished?
      modifies this`caller, this`record
      ensures Valid() && caller.pc == Finished(old(caller.pc) == Returning(true)) && !caller.held
      ensures record == if old(caller.pc).Returning? then old(record).Add(Released, now)
                        else old(record).Add(Expired, now).Add(Released, now)
    {
      if !caller.pc.Returning? {
        Observe(Expired, now);
      }
      Observe(Released, now);
    }
  }

  /** How a pass ends: on to the wait, or with an answer. */
  datatype Outcome = Carry | Connected | Failed

  /** A pass that connects has just been answered ready; one that fails has a reason. */
  ghost predicate Explained(outcome: Outcome, pc: Pc, r: Record, late: bool) {
    match outcome
    case Carry => r.decided.None? && (r.log != [] ==> r.log[|r.log| - 1] != Probed(Ready))
    case Connected =>
      r.decided.None? && pc == Returning(true) && r.log != [] && r.log[|r.log| - 1] == Probed(Ready)
    case Failed =>
      && !pc.Finished? && pc != Returning(true) && (r.log != [] ==> r.log[|r.log| - 1] != Probed(Ready))
      && (if r.decided.Some? then r.decided.value == |r.log| else late)
  }

  /** Takes the election and, having won it, probes again before anything else. */
  method Elect(deps: Dependencies, deadline: int) returns (outcome: Outcome, won: bool)
    requires deps.Valid() && deps.now < deadline && deps.caller == Caller(Electing, false, false)
    requires deps.record.decided.None? && Timely(deps.record, deadline)
    modifies deps
    ensures deps.Valid() && deps.now >= old(deps.now)
    ensures outcome == Carry ==> deps.caller == Caller(if won then Inspecting else Waiting, won, false)
    ensures outcome == Carry && won ==> deps.record.log == old(deps.record.log) + [Elected, Probed(Absent)]
    ensures Explained(outcome, deps.caller.pc, deps.record, false)
    ensures Timely(deps.record, deadline) && deps.record.waits == old(deps.record.waits)
  {
    hide Follow, OnTime, Budgeted;
    ghost var r0 := deps.record;
    var election := deps.AcquireElection();
    OneMoreOnTime(r0.log, r0.times, election, old(deps.now), deadline);
    if election == ElectionBusy {
      return Carry, false;
    }
    if election == ElectionFailed {
      return Failed, false;
    }
    ghost var r1, at := deps.record, deps.now;
    var r := deps.Probe(deadline);
    if r.Some? {
      OneMoreOnTime(r1.log, r1.times, Probed(r.value), at, deadline);
    }
    if r == Some(Ready) {
      return Connected, true;
    }
    var cancelled := deps.Cancelled();
    if cancelled || r != Some(Absent) {
      return Failed, true;
    }
    return Carry, true;
  }

  /** Spawns when the lifetime lock is found free. */
  method InspectAndSpawn(deps: Dependencies, deadline: int) returns (outcome: Outcome, spawned: bool)
    requires deps.Valid() && deps.caller == Caller(Inspecting, true, false)
    requires deps.record.decided.None? && Timely(deps.record, deadline)
    requires deps.now < deadline || (|deps.record.log| >= 2 && deps.record.log[|deps.record.log| - 2] == Elected)
    modifies deps
    ensures deps.Valid() && deps.now >= old(deps.now)
    ensures outcome == Carry ==> deps.caller == Caller(Waiting, true, spawned)
    ensures outcome != Connected && Explained(outcome, deps.caller.pc, deps.record, false)
    ensures Timely(deps.record, deadline) && deps.record.waits == old(deps.record.waits)
  {
    hide Follow, OnTime, Budgeted;
    ghost var r0 := deps.record;
    var lifetime := deps.LifetimeOwner();
    OneMoreOnTime(r0.log, r0.times, lifetime, old(deps.now), deadline);
    if lifetime == LifetimeFailed {
      return Failed, false;
    }
    if lifetime == LifetimeBusy {
      return Carry, false;
    }
    ghost var r1, at := deps.record, deps.now;
    spawned := deps.Spawn();
    OneMoreOnTime(r1.log, r1.times, Spawned(spawned), at, deadline);
    outcome := if spawned then Carry else Failed;
  }

  /** The part of a pass that takes the election, inspects the lifetime lock and spawns. */
  method ElectAndSpawn(deps: Dependencies, deadline: int, held: bool, spawned: bool)
    returns (outcome: Outcome, heldNow: bool, spawnedNow: bool)
    requires deps.Valid() && (spawned ==> held) && deps.now < deadline
    requires deps.caller == Caller(AfterAbsent(Caller(Top, held, spawned)), held, spawned)
    requires deps.record.decided.None? && Timely(deps.record, deadline)
    requires deps.record.log != [] && deps.record.log[|deps.record.log| - 1] == Probed(Absent)
    modifies deps
    ensures deps.Valid() && deps.now >= old(deps.now)
    ensures outcome == Carry ==> deps.caller == Caller(Waiting, heldNow, spawnedNow) && (spawnedNow ==> heldNow)
    ensures Explained(outcome, deps.caller.pc, deps.record, false)
    ensures Timely(deps.record, deadline) && deps.record.waits == old(deps.record.waits)
  {
    hide Follow, OnTime, Budgeted, Step;
    heldNow, spawnedNow := held, spawned;
    outcome := Carry;
    if !held {
      outcome, heldNow := Elect(deps, deadline);
      if outcome != Carry || !heldNow {
        return;
      }
    }
    if !spawnedNow {
      outcome, spawnedNow := InspectAndSpawn(deps, deadline);
    }
  }

  /** One pass of the loop up to its wait, which it reaches only before the deadline. */
  method Pass(deps: Dependencies, deadline: int, held: bool, spawned: bool)
    returns (outcome: Outcome, heldNow: bool, spawnedNow: bool)
    requires deps.Valid() && (spawned ==> held) && deps.caller == Caller(Top, held, spawned)
    requires deps.record.decided.None? && Timely(deps.record, deadline)
    requires deps.record.log != [] ==> deps.record.log[|deps.record.log| - 1] == Waited
    modifies deps
    ensures deps.Valid() && deps.now >= old(deps.now)
    ensures outcome == Carry ==> old(deps.now) < deadline
    ensures outcome == Carry ==> deps.caller == Caller(Waiting, heldNow, spawnedNow) && (spawnedNow ==> heldNow)
    ensures Explained(outcome, deps.caller.pc, deps.record, deps.now >= deadline)
    ensures Timely(deps.record, deadline) && deps.record.waits == old(deps.record.waits)
  {
    hide Follow, OnTime, Budgeted;
    ghost var r0 := deps.record;
    heldNow, spawnedNow := held, spawned;
    var cancelled := deps.Cancelled();
    if cancelled || deps.now >= deadline {
      return Failed, heldNow, spawnedNow;
    }
    var r := deps.Probe(deadline);
    if r.Some? {
      OneMoreOnTime(r0.log, r0.times, Probed(r.value), old(deps.now), deadline);
    }
    if r == Some(Ready) {
      return Connected, heldNow, spawnedNow;
    }
    cancelled := deps.Cancelled();
    if cancelled || deps.now >= deadline || r != Some(Absent) {
      return Failed, heldNow, spawnedNow;
    }
    outcome, heldNow, spawnedNow := ElectAndSpawn(deps, deadline, held, spawned);
  }

  /** How a whole call ended, read off its record. */
  ghost predicate CallExplained(ready: bool, r: Record, late: bool) {
    && |r.log| > 0 && r.log[|r.log| - 1] == Released
    && (ready <==> |r.log| > 1 && r.log[|r.log| - 2] == Probed(Ready))
    && (ready ==> r.decided.None?)
    && (!ready ==> r.decided.Some? || late)
    && (r.decided.Some? ==>
          r.decided.value <= |r.log| && forall i :: r.decided.value <= i < |r.log| ==> r.log[i] in {Expired, Released})
  }

  /**
   Terminates whatever the dependencies answer, within a number of passes fixed
   by the timeout, as one complete run of the caller automaton. It answers ready
   exactly when the last probe did; otherwise the deadline has passed or some
   answer ended the call, and nothing was done after that answer.
   */
  method EnsureBrokerReady(deps: Dependencies, deadline: int) returns (ready: bool, passes: nat)
    requires deps.Valid() && deps.caller == START && deps.record == NOTHING
    modifies deps
    ensures deps.Valid() && deps.caller.pc == Finished(ready) && !deps.caller.held
    ensures 1 <= passes <= if deadline <= old(deps.now) then 1 else (deadline - old(deps.now)) / 50_000_000 + 5
    ensures CallExplained(ready, deps.record, deps.now >= deadline)
    ensures Timely(deps.record, deadline)
    ensures WaitsDouble(deps.record.waits) && passes - 1 <= |deps.record.waits| <= passes
  {
    hide Follow, Step, Pow2, Elapsed, Backoff, OnTime, Budgeted, WaitsDouble, CallExplained;
    ghost var start := deps.now;
    ghost var waits: nat := 0;
    var held, spawned := false, false;
    var backoff: nat := INITIAL_BACKOFF;
    FirstBackoff();
    NothingRecorded(deadline);
    passes := 0;
    while true
      invariant deps.Valid() && deps.caller == Caller(Top, held, spawned) && (spawned ==> held)
      invariant passes == waits == |deps.record.waits| && backoff == Backoff(waits)
      invariant deps.record.decided.None? && Timely(deps.record, deadline)
                  && WaitsDouble(deps.record.waits)
      invariant deps.record.log != [] ==> deps.record.log[|deps.record.log| - 1] == Waited
      invariant deps.now >= start + Elapsed(waits)
      invariant waits > 0 ==> start + Elapsed(waits - 1) < deadline
      decreases deadline - deps.now
    {
      passes := passes + 1;
      if waits > 0 {
        WaitsAreBounded(waits - 1, deadline - start);
      }
      var outcome;
      outcome, held, spawned := Pass(deps, deadline, held, spawned);
      ghost var before, pc := deps.record, deps.caller.pc;
      if outcome != Carry {
        deps.Finish();
        EndsOnTime(before.log, before.times, deps.now, deadline);
        CallEnds(outcome, pc, before, deps.now, deps.now >= deadline);
        return outcome == Connected, passes;
      }
      EndsOnTime(before.log, before.times, deps.now, deadline);
      OneMoreRecorded(before.waits, backoff);
      var waited := deps.Wait(backoff);
      if !waited {
        ghost var cut := deps.record;
        deps.Finish();
        EndsOnTime(before.log, before.times, deps.now, deadline);
        CallEnds(Failed, pc, cut, deps.now, deps.now >= deadline);
        return false, passes;
      }
      OneMoreWait(waits);
      waits := waits + 1;
      backoff := backoff * 2;
      if backoff > MAX_BACKOFF {
        backoff := MAX_BACKOFF;
      }
    }
  }

  lemma CallEnds(outcome: Outcome, pc: Pc, r: Record, at: int, late: bool)
    requires outcome != Carry && Explained(outcome, pc, r, late)
    ensures CallExplained(outcome == Connected, if pc.Returning? then r.Add(Released, at)
                                                else r.Add(Expired, at).Add(Released, at), late)
  {
  }

  lemma NothingRecorded(deadline: int)
    ensures OnTime([], [], deadline) && Budgeted([], deadline) && WaitsDouble([])
  {
  }

  lemma OneMoreRecorded(waits: seq<nat>, backoff: nat)
    requires WaitsDouble(waits) && backoff == Backoff(|waits|)
    ensures WaitsDouble(waits + [backoff])
  {
    hide Pow2;
  }

  lemma EndsOnTime(log: seq<Event>, times: seq<int>, at: int, deadline: int)
    requires OnTime(log, times, deadline)
    ensures OnTime(log + [Waited], times + [at], deadline)
    ensures OnTime(log + [Released], times + [at], deadline)
    ensures OnTime(log + [Expired] + [Released], times + [at] + [at], deadline)
  {
    hide OnTime;
    OneMoreOnTime(log, times, Waited, at, deadline);
    OneMoreOnTime(log, times, Released, at, deadline);
    OneMoreOnTime(log, times, Expired, at, deadline);
    OneMoreOnTime(log + [Expired], times + [at], Released, at, deadline);
  }

  // ----- What the events of a call imply

  lemma FollowPrefix(log: seq<Event>, i: nat)
    requires Follow(START, log).Some? && i <= |log|
    ensures Follow(START, log[..i]).Some?
    decreases |log|
  {
    hide Step;
    if i == |log| {
      assert log[..i] == log;
    } else {
      var n := |log| - 1;
      assert log[..n][..i] == log[..i];
      FollowPrefix(log[..n], i);
    }
  }

  /** After `last` a caller with these events behind it waits. */
  predicate MayWait(log: seq<Event>, last: Event) {
    || last == ElectionBusy || last == LifetimeBusy || last == Spawned(true)
    || (last == Probed(Absent) && Spawned(true) in log)
  }

  /** What a caller that waits has just seen, and what one that has spawned did earlier. */
  lemma {:induction false} BeforeWaiting(log: seq<Event>)
    requires Follow(START, log).Some?
    ensures var c := Follow(START, log).value;
            && (c.spawned ==> Spawned(true) in log)
            && (c.pc == Waiting ==> log != [] && MayWait(log, log[|log| - 1]))
  {
    if log != [] {
      BeforeWaiting(log[..|log| - 1]);
    }
  }

  /**
   Every wait of every call comes right after a busy election, a busy lifetime
   lock, a spawn, or an absent endpoint when it had already spawned.
   */
  lemma WaitsHaveAReason(log: seq<Event>, i: nat)
    requires Follow(START, log).Some? && i < |log| && log[i] == Waited
    ensures i > 0
    ensures || log[i - 1] == ElectionBusy || log[i - 1] == LifetimeBusy || log[i - 1] == Spawned(true)
            || (log[i - 1] == Probed(Absent) && Spawned(true) in log[..i])
  {
    hide Follow;
    WaitedFromWaiting(log, i);
    FollowPrefix(log, i);
    BeforeWaiting(log[..i]);
  }

  lemma WaitedFromWaiting(log: seq<Event>, i: nat)
    requires Follow(START, log).Some? && i < |log| && log[i] == Waited
    ensures Follow(START, log[..i]).Some? && Follow(START, log[..i]).value.pc == Waiting
  {
    FollowPrefix(log, i + 1);
    assert log[..i + 1][..i] == log[..i];
  }

  /** A free lifetime lock is followed by the spawn and nothing else, unless the call ends there. */
  lemma FreeIsFollowedBySpawn(log: seq<Event>, i: nat)
    requires Follow(START, log).Some? && i + 1 < |log| && log[i] == LifetimeFree
    ensures Spawns(log[i + 1]) || log[i + 1] == Expired || log[i + 1] == Crashed
  {
    FollowPrefix(log, i + 2);
    assert log[..i + 2][..i + 1] == log[..i + 1];
    assert log[..i + 1][..i] == log[..i];
  }

  lemma FirstBackoff()
    ensures Backoff(0) == INITIAL_BACKOFF && Elapsed(0) == 0
  {
    assert Pow2(0) == 1;
  }

  lemma OneMoreWait(k: nat)
    ensures Elapsed(k + 1) == Elapsed(k) + Backoff(k)
    ensures Backoff(k + 1) == if 2 * Backoff(k) > MAX_BACKOFF then MAX_BACKOFF else 2 * Backoff(k)
    ensures Backoff(k) >= INITIAL_BACKOFF
  {
    NextBackoff(k);
  }
}
