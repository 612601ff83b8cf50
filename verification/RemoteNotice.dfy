/**
 The notices worth showing about one observed remote host, over a whole run of
 observations.
 */
module RemoteNotice {
  import opened Wire

  datatype Availability =
    | Unknown
    | Reachable
    | Unreachable
    | Incompatible
    | AuthFailed
    | InvalidResponse
    | NoDaemon
    | Unrecognised(code: nat)
  {
    predicate Failing() {
      Unreachable? || AuthFailed? || InvalidResponse? || NoDaemon? || Incompatible?
    }
  }

  datatype Health = Health(availability: Availability, versionMismatch: bool, episode: nat)
  {
    predicate Failing() {
      versionMismatch || availability.Failing()
    }

    predicate Healthy() {
      availability == Reachable && !versionMismatch
    }

    predicate Settled() {
      Failing() || availability == Reachable
    }
  }

  datatype Event = Silent | Failed | Recovered

  /** The state to remember and the event worth one notice; `prev` is `None` when the host is unseen. */
  function Transition(prev: Option<Health>, cur: Health): (Health, Event) {
    var next := if prev.Some? && !cur.Settled() then prev.value else cur;
    if cur.Failing() then
      if prev.Some? && prev.value.Failing() && prev.value.episode == cur.episode
         && prev.value.availability == cur.availability
      then (next, Silent)
      else (next, Failed)
    else if prev.Some? && prev.value.Failing() && prev.value.availability != NoDaemon && cur.Healthy() then
      (next, Recovered)
    else
      (next, Silent)
  }

  // ----- Whole runs

  /** What is remembered after a run of observations. */
  function Remembered(obs: seq<Health>): Option<Health> {
    if obs == [] then None
    else Some(Transition(Remembered(obs[..|obs| - 1]), obs[|obs| - 1]).0)
  }

  /** One event per observation. */
  function Events(obs: seq<Health>): (r: seq<Event>)
    ensures |r| == |obs|
  {
    if obs == [] then []
    else Events(obs[..|obs| - 1]) + [Transition(Remembered(obs[..|obs| - 1]), obs[|obs| - 1]).1]
  }

  /** The events that reach the user. */
  function Notices(events: seq<Event>): seq<Event> {
    if events == [] then []
    else
      var e := events[|events| - 1];
      Notices(events[..|events| - 1]) + if e == Silent then [] else [e]
  }

  function SettledOnly(obs: seq<Health>): seq<Health> {
    if obs == [] then []
    else
      var h := obs[|obs| - 1];
      SettledOnly(obs[..|obs| - 1]) + if h.Settled() then [h] else []
  }

  /** The latest settled observation. */
  function LastSettled(obs: seq<Health>): Option<Health> {
    if obs == [] then None
    else if obs[|obs| - 1].Settled() then Some(obs[|obs| - 1])
    else LastSettled(obs[..|obs| - 1])
  }

  // ----- What the events mean

  /** What is remembered is the latest settled observation; before any, only an unsettled one. */
  lemma {:induction false} RememberedIsLastSettled(obs: seq<Health>)
    ensures LastSettled(obs).Some? ==> Remembered(obs) == LastSettled(obs)
    ensures LastSettled(obs).None? && Remembered(obs).Some? ==> !Remembered(obs).value.Settled()
  {
    if obs != [] {
      RememberedIsLastSettled(obs[..|obs| - 1]);
    }
  }

  lemma EventAt(obs: seq<Health>, j: nat)
    requires j < |obs|
    ensures Events(obs)[j] == Transition(Remembered(obs[..j]), obs[j]).1
  {
    var n := |obs| - 1;
    if j < n {
      EventAt(obs[..n], j);
      assert obs[..n][..j] == obs[..j];
    }
  }

  /** A failure is announced exactly when it is new: no settled failure of its episode and class comes just before. */
  lemma FailedExactlyWhenNew(obs: seq<Health>, j: nat)
    requires j < |obs|
    ensures Events(obs)[j] == Failed <==>
            obs[j].Failing() &&
            var last := LastSettled(obs[..j]);
            !(last.Some? && last.value.Failing() && last.value.episode == obs[j].episode
              && last.value.availability == obs[j].availability)
  {
    EventAt(obs, j);
    RememberedIsLastSettled(obs[..j]);
  }

  /** A recovery is announced exactly when a healthy host was last settled in a failure other than "no daemon". */
  lemma RecoveredExactlyAfterFailure(obs: seq<Health>, j: nat)
    requires j < |obs|
    ensures Events(obs)[j] == Recovered <==>
            obs[j].Healthy() &&
            var last := LastSettled(obs[..j]);
            last.Some? && last.value.Failing() && last.value.availability != NoDaemon
  {
    EventAt(obs, j);
    RememberedIsLastSettled(obs[..j]);
  }

  /** The conditions by class: which availabilities fail, which settle, which are healthy. */
  lemma ClassesExactly(h: Health)
    ensures h.Failing() <==>
            h.versionMismatch || h.availability in {Unreachable, Incompatible, AuthFailed, InvalidResponse, NoDaemon}
    ensures h.Settled() <==> h.versionMismatch || !(h.availability == Unknown || h.availability.Unrecognised?)
    ensures h.Healthy() <==> h.Settled() && !h.Failing()
  {
  }

  // ----- Failures and recoveries

  /** While a failure is remembered, the latest notice is the announcement of one. */
  ghost predicate LatestIsFailed(events: seq<Event>, k: nat) {
    k < |events| && events[k] == Failed && forall l :: k < l < |events| ==> events[l] == Silent
  }

  lemma {:induction false} FailureWasAnnounced(obs: seq<Health>) returns (k: nat)
    requires Remembered(obs).Some? && Remembered(obs).value.Failing()
    ensures LatestIsFailed(Events(obs), k)
  {
    var n := |obs| - 1;
    if Events(obs)[n] == Failed {
      k := n;
    } else {
      k := FailureWasAnnounced(obs[..n]);
    }
  }

  /**
   Every recovery follows a failure with nothing but silence in between: so
   before the first recovery, and between any two, a failure was announced.
   */
  lemma RecoveryFollowsFailure(obs: seq<Health>, j: nat) returns (k: nat)
    requires j < |obs| && Events(obs)[j] == Recovered
    ensures k < j && Events(obs)[k] == Failed
    ensures forall l :: k < l < j ==> Events(obs)[l] == Silent
  {
    EventAt(obs, j);
    k := FailureWasAnnounced(obs[..j]);
    EventsPrefix(obs, j);
  }

  lemma FailureBetweenRecoveries(obs: seq<Health>, i: nat, j: nat) returns (k: nat)
    requires i < j < |obs| && Events(obs)[i] == Recovered && Events(obs)[j] == Recovered
    ensures i < k < j && Events(obs)[k] == Failed
  {
    k := RecoveryFollowsFailure(obs, j);
  }

  lemma {:induction false} EventsPrefix(obs: seq<Health>, j: nat)
    requires j <= |obs|
    ensures Events(obs[..j]) == Events(obs)[..j]
    decreases |obs|
  {
    if j == |obs| {
      assert obs[..j] == obs;
    } else {
      var n := |obs| - 1;
      EventsPrefix(obs[..n], j);
      assert obs[..n][..j] == obs[..j];
    }
  }

  // ----- Unsettled observations do not matter

  lemma SettledOnlyKeepsLast(obs: seq<Health>)
    ensures SettledOnly(obs) == [] <==> LastSettled(obs).None?
    ensures LastSettled(SettledOnly(obs)) == LastSettled(obs)
  {
    if obs != [] {
      SettledOnlyKeepsLast(obs[..|obs| - 1]);
      var before := SettledOnly(obs[..|obs| - 1]);
      if obs[|obs| - 1].Settled() {
        assert (before + [obs[|obs| - 1]])[..|before|] == before;
      } else {
        assert before + [] == before;
      }
    }
  }

  /** Deleting every unsettled observation leaves the notices unchanged. */
  lemma {:induction false} UnsettledChangesNothing(obs: seq<Health>)
    ensures Notices(Events(obs)) == Notices(Events(SettledOnly(obs)))
  {
    if obs != [] {
      var n := |obs| - 1;
      var before, h := obs[..n], obs[n];
      UnsettledChangesNothing(before);
      var kept := SettledOnly(before);
      assert Events(obs)[..n] == Events(before);
      if h.Settled() {
        assert (kept + [h])[..|kept|] == kept;
        assert Events(kept + [h])[..|kept|] == Events(kept);
        SameEvent(before, h);
      } else {
        assert kept + [] == kept;
      }
    }
  }

  lemma SameEvent(before: seq<Health>, h: Health)
    ensures Transition(Remembered(before), h).1 == Transition(Remembered(SettledOnly(before)), h).1
  {
    RememberedIsLastSettled(before);
    RememberedIsLastSettled(SettledOnly(before));
    SettledOnlyKeepsLast(before);
  }
}
