/**
 Connect-or-spawn under concurrency: any number of callers, one spawn-election
 lock, one broker lifetime lock, an endpoint that comes and goes, deadlines and
 crashes. A caller is a deterministic automaton over the events it observes; the
 world interleaves callers and environment arbitrarily.
 */
module BrokerElection {
  import opened Wire

  datatype Endpoint = Ready | Absent | Retired | Incompatible

  /** Everything a caller can observe or do between two steps of its own. */
  datatype Event =
    | Probed(endpoint: Endpoint)
    | Elected
    | ElectionBusy
    | ElectionFailed
    | LifetimeFree
    | LifetimeBusy
    | LifetimeFailed
    | Spawned(ok: bool)
    | SpawnCrashed
    | Waited
    | Expired
    | Released
    | Crashed

  datatype Pc = Top | Electing | Reprobing | Inspecting | Spawning | Waiting | Returning(ready: bool)
      | Finished(ready: bool)

  datatype Caller = Caller(pc: Pc, held: bool, spawned: bool)

  const START: Caller := Caller(Top, false, false)

  /** Where an absent endpoint leads. */
  function AfterAbsent(c: Caller): Pc {
    if !c.held then Electing else if !c.spawned then Inspecting else Waiting
  }

  /** One step of one caller; `None` when the event cannot happen there. */
  function Step(c: Caller, e: Event): Option<Caller> {
    if c.pc.Finished? then None
    else if e == Crashed then Some(c.(pc := Finished(false), held := false))
    else if c.pc.Returning? then
      if e == Released then Some(c.(pc := Finished(c.pc.ready), held := false)) else None
    else if e == Expired then Some(c.(pc := Returning(false)))
    else
      match (c.pc, e)
      case (Top, Probed(Ready)) => Some(c.(pc := Returning(true)))
      case (Top, Probed(Absent)) => Some(c.(pc := AfterAbsent(c)))
      case (Top, Probed(_)) => Some(c.(pc := Returning(false)))
      case (Electing, Elected) => Some(c.(pc := Reprobing, held := true))
      case (Electing, ElectionBusy) => Some(c.(pc := Waiting))
      case (Electing, ElectionFailed) => Some(c.(pc := Returning(false)))
      case (Reprobing, Probed(Ready)) => Some(c.(pc := Returning(true)))
      case (Reprobing, Probed(Absent)) => Some(c.(pc := AfterAbsent(c)))
      case (Reprobing, Probed(_)) => Some(c.(pc := Returning(false)))
      case (Inspecting, LifetimeFree) => Some(c.(pc := Spawning))
      case (Inspecting, LifetimeBusy) => Some(c.(pc := Waiting))
      case (Inspecting, LifetimeFailed) => Some(c.(pc := Returning(false)))
      case (Spawning, Spawned(true)) => Some(c.(pc := Waiting, spawned := true))
      case (Spawning, Spawned(false)) => Some(c.(pc := Returning(false)))
      case (Spawning, SpawnCrashed) => Some(c.(pc := Finished(false), held := false))
      case (Waiting, Waited) => Some(c.(pc := Top))
      case _ => None
  }

  /** What a caller goes through on a sequence of its own events. */
  function Follow(c: Caller, es: seq<Event>): Option<Caller> {
    if es == [] then Some(c)
    else
      match Follow(c, es[..|es| - 1])
      case None => None
      case Some(d) => Step(d, es[|es| - 1])
  }

  // ----- The world

  type Id = nat

  datatype World = World(callers: map<Id, Caller>, election: Option<Id>, endpoint: Endpoint, lifetimeHeld: bool)

  datatype Action = Join(id: Id) | Act(id: Id, event: Event) | Environment

  /** What the shared state must look like for the event to be observed. */
  ghost predicate Observable(w: World, id: Id, e: Event) {
    match e
    case Probed(r) => r == w.endpoint
    case Elected => w.election == None
    case ElectionBusy => w.election.Some? && w.election != Some(id)
    case LifetimeFree => !w.lifetimeHeld
    case LifetimeBusy => w.lifetimeHeld
    case _ => true
  }

  function ElectionAfter(election: Option<Id>, id: Id, e: Event): Option<Id> {
    if e == Elected then Some(id)
    else if (e == Released || e == Crashed || e == SpawnCrashed) && election == Some(id) then None
    else election
  }

  ghost predicate Next(w: World, a: Action, w': World) {
    match a
    case Join(id) => id !in w.callers && w' == w.(callers := w.callers[id := START])
    case Environment => w' == w.(endpoint := w'.endpoint, lifetimeHeld := w'.lifetimeHeld)
    case Act(id, e) =>
      && id in w.callers && Observable(w, id, e)
      && var next := Step(w.callers[id], e);
      && next.Some?
      && w' == w.(callers := w.callers[id := next.value], election := ElectionAfter(w.election, id, e))
  }

  ghost predicate Initial(w: World) {
    w.callers == map[] && w.election == None
  }

  /** A run: worlds joined by actions. */
  ghost predicate IsRun(ws: seq<World>, acts: seq<Action>) {
    Linked(ws, acts) && Initial(ws[0])
  }

  ghost predicate Linked(ws: seq<World>, acts: seq<Action>) {
    |ws| == |acts| + 1 && forall i :: 0 <= i < |acts| ==> Next(ws[i], acts[i], ws[i + 1])
  }

  // ----- What every reachable world satisfies

  ghost predicate CallerOk(c: Caller) {
    && (c.pc == Electing ==> !c.held)
    && (c.pc == Reprobing || c.pc == Inspecting || c.pc == Spawning ==> c.held && !c.spawned)
    && (c.spawned && !c.pc.Finished? ==> c.held)
    && (c.pc.Finished? ==> !c.held)
  }

  /** The election lock is held by exactly the caller that believes so. */
  ghost predicate Inv(w: World) {
    && (forall id :: id in w.callers ==> CallerOk(w.callers[id]))
    && (forall id :: id in w.callers ==> (w.callers[id].held <==> w.election == Some(id)))
    && (w.election.Some? ==> w.election.value in w.callers)
  }

  lemma StepKeepsOk(c: Caller, e: Event)
    requires CallerOk(c) && Step(c, e).Some?
    ensures CallerOk(Step(c, e).value)
    ensures Step(c, e).value.held <==> (e == Elected || (c.held && e != Released && e != Crashed && e != SpawnCrashed))
  {
  }

  lemma StartOk()
    ensures CallerOk(START)
  {
  }

  lemma NextKeepsInv(w: World, a: Action, w': World)
    requires Inv(w) && Next(w, a, w')
    ensures Inv(w')
  {
    hide Step, CallerOk;
    StartOk();
    if a.Act? {
      StepKeepsOk(w.callers[a.id], a.event);
    }
  }

  lemma {:induction false} RunKeepsInv(ws: seq<World>, acts: seq<Action>, i: nat)
    requires IsRun(ws, acts) && i < |ws|
    ensures Inv(ws[i])
  {
    hide Next, Inv;
    if i == 0 {
      InitialInv(ws[0]);
    } else {
      RunKeepsInv(ws, acts, i - 1);
      NextKeepsInv(ws[i - 1], acts[i - 1], ws[i]);
    }
  }

  lemma InitialInv(w: World)
    requires Initial(w)
    ensures Inv(w)
  {
  }

  /** The events of one caller, in order. */
  ghost function EventsOf(acts: seq<Action>, id: Id): seq<Event> {
    if acts == [] then []
    else
      var before := EventsOf(acts[..|acts| - 1], id);
      var last := acts[|acts| - 1];
      if last.Act? && last.id == id then before + [last.event] else before
  }

  /** Every caller of every run is where its own events take it. */
  lemma {:induction false} CallersFollowTheirEvents(ws: seq<World>, acts: seq<Action>, i: nat, id: Id)
    requires IsRun(ws, acts) && i < |ws|
    ensures if id in ws[i].callers then Follow(START, EventsOf(acts[..i], id)) == Some(ws[i].callers[id])
            else EventsOf(acts[..i], id) == []
  {
    hide Next, Follow;
    if i == 0 {
      assert Initial(ws[0]);
    } else {
      CallersFollowTheirEvents(ws, acts, i - 1, id);
      assert Next(ws[i - 1], acts[i - 1], ws[i]);
      assert acts[..i][..i - 1] == acts[..i - 1] && acts[..i][i - 1] == acts[i - 1];
      OneMoreEvent(ws[i - 1], acts[i - 1], ws[i], id, EventsOf(acts[..i - 1], id));
    }
  }

  lemma OneMoreEvent(w: World, a: Action, w': World, id: Id, es: seq<Event>)
    requires Next(w, a, w')
    requires if id in w.callers then Follow(START, es) == Some(w.callers[id]) else es == []
    ensures var es' := if a.Act? && a.id == id then es + [a.event] else es;
            if id in w'.callers then Follow(START, es') == Some(w'.callers[id]) else es' == []
  {
    hide Step;
    if a.Act? && a.id == id {
      assert (es + [a.event])[..|es|] == es;
    }
  }

  /** The action `a` is not a step of caller `id`. */
  ghost predicate NotBy(a: Action, id: Id) {
    match a
    case Join(other) => other != id
    case Act(other, _) => other != id
    case Environment => true
  }

  lemma OthersLeaveCallerAlone(w: World, a: Action, w': World, id: Id)
    requires Next(w, a, w') && NotBy(a, id)
    ensures id in w'.callers <==> id in w.callers
    ensures id in w.callers ==> w'.callers[id] == w.callers[id]
  {
    hide Step;
  }

  /** From world `j` to world `i` the caller holds the election throughout. */
  ghost predicate HoldsThroughout(ws: seq<World>, id: Id, j: nat, i: nat)
    requires j <= i < |ws|
  {
    forall m :: j <= m <= i ==> ws[m].election == Some(id)
  }

  /** A caller about to spawn found the lifetime lock free earlier under the same hold. */
  lemma {:induction false} SpawningCameFromFree(ws: seq<World>, acts: seq<Action>, i: nat, id: Id) returns (k: nat)
    requires IsRun(ws, acts) && i < |ws|
    requires id in ws[i].callers && ws[i].callers[id].pc == Spawning
    ensures k < i && acts[k] == Act(id, LifetimeFree) && HoldsThroughout(ws, id, k, i)
  {
    hide Next;
    RunKeepsInv(ws, acts, i);
    assert ws[i].election == Some(id);
    assert i > 0 by {
      assert Initial(ws[0]);
    }
    assert Next(ws[i - 1], acts[i - 1], ws[i]);
    if NotBy(acts[i - 1], id) {
      OthersLeaveCallerAlone(ws[i - 1], acts[i - 1], ws[i], id);
      k := SpawningCameFromFree(ws, acts, i - 1, id);
    } else {
      RunKeepsInv(ws, acts, i - 1);
      EntersSpawning(ws[i - 1], acts[i - 1], ws[i], id);
      k := i - 1;
    }
  }

  lemma EntersSpawning(w: World, a: Action, w': World, id: Id)
    requires Next(w, a, w') && !NotBy(a, id) && Inv(w)
    requires id in w'.callers && w'.callers[id].pc == Spawning
    ensures a == Act(id, LifetimeFree) && w.election == Some(id) && !w.lifetimeHeld
    ensures id in w.callers && w.callers[id].pc == Inspecting
  {
  }

  /** A caller about to inspect saw the endpoint absent earlier under the same hold. */
  lemma {:induction false} InspectingCameFromAbsent(ws: seq<World>, acts: seq<Action>, i: nat, id: Id) returns (j: nat)
    requires IsRun(ws, acts) && i < |ws|
    requires id in ws[i].callers && ws[i].callers[id].pc == Inspecting
    ensures j < i && acts[j] == Act(id, Probed(Absent)) && HoldsThroughout(ws, id, j, i)
  {
    hide Next;
    RunKeepsInv(ws, acts, i);
    assert ws[i].election == Some(id);
    assert i > 0 by {
      assert Initial(ws[0]);
    }
    assert Next(ws[i - 1], acts[i - 1], ws[i]);
    if NotBy(acts[i - 1], id) {
      OthersLeaveCallerAlone(ws[i - 1], acts[i - 1], ws[i], id);
      j := InspectingCameFromAbsent(ws, acts, i - 1, id);
    } else {
      RunKeepsInv(ws, acts, i - 1);
      EntersInspecting(ws[i - 1], acts[i - 1], ws[i], id);
      j := i - 1;
    }
  }

  lemma EntersInspecting(w: World, a: Action, w': World, id: Id)
    requires Next(w, a, w') && !NotBy(a, id) && Inv(w)
    requires id in w'.callers && w'.callers[id].pc == Inspecting
    ensures a == Act(id, Probed(Absent)) && w.election == Some(id)
  {
  }

  /** The spawn call was made: it returned, or the caller crashed during it. */
  predicate Spawns(e: Event) {
    e.Spawned? || e.SpawnCrashed?
  }

  ghost predicate SpawnsAt(acts: seq<Action>, i: nat, id: Id) {
    i < |acts| && acts[i].Act? && acts[i].id == id && Spawns(acts[i].event)
  }

  /**
   In every interleaving a spawn is made only by the current election holder,
   after a probe made under that same hold found the endpoint absent and the
   lifetime lock was then found free.
   */
  lemma SpawnIsJustified(ws: seq<World>, acts: seq<Action>, i: nat, id: Id) returns (j: nat, k: nat)
    requires IsRun(ws, acts) && SpawnsAt(acts, i, id)
    ensures j < k < i
    ensures acts[j] == Act(id, Probed(Absent)) && ws[j].endpoint == Absent
    ensures acts[k] == Act(id, LifetimeFree) && !ws[k].lifetimeHeld
    ensures HoldsThroughout(ws, id, j, i)
  {
    hide Inv;
    assert Next(ws[i], acts[i], ws[i + 1]);
    assert ws[i].callers[id].pc == Spawning;
    k := SpawningCameFromFree(ws, acts, i, id);
    assert Next(ws[k], acts[k], ws[k + 1]);
    assert ws[k].callers[id].pc == Inspecting;
    j := InspectingCameFromAbsent(ws, acts, k, id);
    assert Next(ws[j], acts[j], ws[j + 1]);
  }

  /** After its spawn a caller has either noted it or is on its way out. */
  lemma {:induction false} AfterSpawn(ws: seq<World>, acts: seq<Action>, i: nat, m: nat, id: Id)
    requires IsRun(ws, acts) && SpawnsAt(acts, i, id) && i < m < |ws|
    ensures id in ws[m].callers
    ensures var c := ws[m].callers[id]; c.spawned || c.pc.Returning? || c.pc.Finished?
    decreases m
  {
    assert Next(ws[m - 1], acts[m - 1], ws[m]);
    if m > i + 1 {
      AfterSpawn(ws, acts, i, m - 1, id);
      if NotBy(acts[m - 1], id) {
        OthersLeaveCallerAlone(ws[m - 1], acts[m - 1], ws[m], id);
      }
    }
  }

  /** No call spawns twice. */
  lemma SpawnsAtMostOnce(ws: seq<World>, acts: seq<Action>, i: nat, m: nat, id: Id)
    requires IsRun(ws, acts) && SpawnsAt(acts, i, id) && i < m
    ensures !SpawnsAt(acts, m, id)
  {
    if m < |acts| {
      AfterSpawn(ws, acts, i, m, id);
      RunKeepsInv(ws, acts, m);
      SpawnsFromSpawning(ws, acts, m, id);
    }
  }

  lemma SpawnsFromSpawning(ws: seq<World>, acts: seq<Action>, i: nat, id: Id)
    requires IsRun(ws, acts)
    ensures SpawnsAt(acts, i, id) ==> id in ws[i].callers && ws[i].callers[id].pc == Spawning
  {
    if i < |acts| {
      assert Next(ws[i], acts[i], ws[i + 1]);
    }
  }

  /** Waiters and callers that already spawned never touch the lifetime lock. */
  lemma OnlyTheElectedInspect(ws: seq<World>, acts: seq<Action>, i: nat, id: Id)
    requires IsRun(ws, acts) && i < |acts| && acts[i].Act? && acts[i].id == id
    requires acts[i].event in {LifetimeFree, LifetimeBusy, LifetimeFailed}
    ensures ws[i].election == Some(id) && id in ws[i].callers && !ws[i].callers[id].spawned
    ensures forall m :: 0 <= m < i ==> !SpawnsAt(acts, m, id)
  {
    RunKeepsInv(ws, acts, i);
    assert Next(ws[i], acts[i], ws[i + 1]);
    forall m | 0 <= m < i ensures !SpawnsAt(acts, m, id) {
      if SpawnsAt(acts, m, id) {
        AfterSpawn(ws, acts, m, i, id);
      }
    }
  }

  /** Between two spawns the first spawner gave up the election. */
  lemma SpawnersTakeTurns(ws: seq<World>, acts: seq<Action>, i: nat, m: nat, a: Id, b: Id)
    requires IsRun(ws, acts) && SpawnsAt(acts, i, a) && SpawnsAt(acts, m, b) && i < m
    ensures a != b && !HoldsThroughout(ws, a, i, m)
  {
    hide Next, Inv;
    SpawnsAtMostOnce(ws, acts, i, m, a);
    var j, k := SpawnIsJustified(ws, acts, m, b);
    assert ws[m].election == Some(b);
  }

  // ----- Readiness

  /** No caller is between a decision to spawn and the spawn. */
  ghost predicate Quiet(w: World) {
    forall id :: id in w.callers ==> w.callers[id].pc != Inspecting && w.callers[id].pc != Spawning
  }

  lemma QuietStays(w: World, a: Action, w': World)
    requires Quiet(w) && Inv(w) && Next(w, a, w') && w.endpoint == Ready
    ensures Quiet(w')
    ensures !(a.Act? && Spawns(a.event))
  {
  }

  lemma ReadyHolderIsQuiet(w: World, a: Action, w': World, id: Id)
    requires Inv(w) && Next(w, a, w') && a == Act(id, Probed(Ready)) && w.election == Some(id)
    ensures Quiet(w')
  {
    assert w.callers[id].held;
    forall other | other in w'.callers ensures w'.callers[other].pc != Inspecting && w'.callers[other].pc != Spawning {
      assert CallerOk(w.callers[other]);
      assert w.callers[other].held <==> w.election == Some(other);
    }
  }

  lemma {:induction false} QuietFrom(ws: seq<World>, acts: seq<Action>, i: nat, m: nat)
    requires IsRun(ws, acts) && i <= m < |ws| && Quiet(ws[i])
    requires forall n :: i <= n < m ==> ws[n].endpoint == Ready
    ensures Quiet(ws[m])
    decreases m
  {
    hide Next, Inv, Quiet;
    if m > i {
      QuietFrom(ws, acts, i, m - 1);
      RunKeepsInv(ws, acts, m - 1);
      assert Next(ws[m - 1], acts[m - 1], ws[m]);
      QuietStays(ws[m - 1], acts[m - 1], ws[m]);
    }
  }

  /**
   Once a holder has seen the endpoint ready, and for as long as it stays ready,
   nobody spawns: not that holder, not the waiters, not later callers.
   */
  lemma NoSpawnWhileReady(ws: seq<World>, acts: seq<Action>, i: nat, m: nat, id: Id, other: Id)
    requires IsRun(ws, acts) && i < |acts| && acts[i] == Act(id, Probed(Ready)) && ws[i].election == Some(id)
    requires i < m < |acts| && forall n :: i < n <= m ==> ws[n].endpoint == Ready
    ensures !SpawnsAt(acts, m, other)
  {
    hide Next, Inv, Quiet;
    RunKeepsInv(ws, acts, i);
    assert Next(ws[i], acts[i], ws[i + 1]);
    ReadyHolderIsQuiet(ws[i], acts[i], ws[i + 1], id);
    QuietFrom(ws, acts, i + 1, m);
    RunKeepsInv(ws, acts, m);
    assert Next(ws[m], acts[m], ws[m + 1]);
    QuietStays(ws[m], acts[m], ws[m + 1]);
  }

  // ----- The limit of the guarantee

  /** What a caller's action or an arrival makes of a world. */
  ghost function Play(w: World, a: Action): World {
    match a
    case Join(id) => w.(callers := w.callers[id := START])
    case Environment => w
    case Act(id, e) =>
      if id in w.callers && Step(w.callers[id], e).Some? then
        w.(callers := w.callers[id := Step(w.callers[id], e).value], election := ElectionAfter(w.election, id, e))
      else w
  }

  ghost function Replay(w: World, acts: seq<Action>): (ws: seq<World>)
    ensures |ws| == |acts| + 1 && ws[0] == w
    decreases acts
  {
    if acts == [] then [w] else [w] + Replay(Play(w, acts[0]), acts[1..])
  }

  ghost predicate Playable(w: World, acts: seq<Action>)
    decreases acts
  {
    acts == [] || (Next(w, acts[0], Play(w, acts[0])) && Playable(Play(w, acts[0]), acts[1..]))
  }

  lemma {:induction false} ReplayIsRun(w: World, acts: seq<Action>)
    requires Playable(w, acts)
    ensures Linked(Replay(w, acts), acts)
    decreases acts
  {
    hide Next, Play;
    if acts == [] {
    } else {
      var next := Play(w, acts[0]);
      ReplayIsRun(next, acts[1..]);
      var ws := Replay(w, acts);
      forall i | 0 <= i < |acts| ensures Next(ws[i], acts[i], ws[i + 1]) {
        if i > 0 {
          assert ws[i] == Replay(next, acts[1..])[i - 1] && ws[i + 1] == Replay(next, acts[1..])[i];
          assert acts[i] == acts[1..][i - 1];
        }
      }
    }
  }

  /** The world `w` with one caller and the election lock as given. */
  ghost function At(w: World, id: Id, c: Caller, election: Option<Id>): World {
    w.(callers := w.callers[id := c], election := election)
  }

  lemma PlayOne(w: World, id: Id, c: Caller, election: Option<Id>, e: Event, c': Caller, rest: seq<Action>)
    requires Step(c, e) == Some(c') && Observable(At(w, id, c, election), id, e)
    requires Playable(At(w, id, c', ElectionAfter(election, id, e)), rest)
    ensures Playable(At(w, id, c, election), [Act(id, e)] + rest)
  {
    hide Step;
    var from := At(w, id, c, election);
    var acts := [Act(id, e)] + rest;
    assert acts[0] == Act(id, e) && acts[1..] == rest;
    assert w.callers[id := c][id := c'] == w.callers[id := c'];
    assert Play(from, acts[0]) == At(w, id, c', ElectionAfter(election, id, e));
  }

  /** The steps of a caller that spawns, followed by `rest`. */
  function SpawningCall(id: Id, rest: seq<Action>): seq<Action> {
    [Act(id, Probed(Absent))] + ([Act(id, Elected)] + ([Act(id, Probed(Absent))]
      + ([Act(id, LifetimeFree)] + ([Act(id, Spawned(true))] + rest))))
  }

  lemma SpawningCallPlays(w: World, id: Id, rest: seq<Action>)
    requires w.endpoint == Absent && !w.lifetimeHeld
    requires Playable(At(w, id, Caller(Waiting, true, true), Some(id)), rest)
    ensures Playable(At(w, id, START, None), SpawningCall(id, rest))
  {
    hide Playable;
    PlayOne(w, id, Caller(Spawning, true, false), Some(id), Spawned(true), Caller(Waiting, true, true), rest);
    var r4 := [Act(id, Spawned(true))] + rest;
    PlayOne(w, id, Caller(Inspecting, true, false), Some(id), LifetimeFree, Caller(Spawning, true, false), r4);
    var r3 := [Act(id, LifetimeFree)] + r4;
    PlayOne(w, id, Caller(Reprobing, true, false), Some(id), Probed(Absent), Caller(Inspecting, true, false), r3);
    var r2 := [Act(id, Probed(Absent))] + r3;
    PlayOne(w, id, Caller(Electing, false, false), None, Elected, Caller(Reprobing, true, false), r2);
    PlayOne(w, id, START, None, Probed(Absent), Caller(Electing, false, false), [Act(id, Elected)] + r2);
  }

  lemma PlayNothing(w: World)
    ensures Playable(w, [])
  {
  }

  lemma JoinPlays(w: World, id: Id, rest: seq<Action>)
    requires id !in w.callers && Playable(w.(callers := w.callers[id := START]), rest)
    ensures Playable(w, [Join(id)] + rest)
  {
    var acts := [Join(id)] + rest;
    assert acts[0] == Join(id) && acts[1..] == rest;
  }

  /**
   Two calls can both spawn: a spawner that gives up before its broker takes the
   lifetime lock lets the next elected caller spawn again.
   */
  lemma TwoCallsCanSpawn() returns (ws: seq<World>, acts: seq<Action>)
    ensures IsRun(ws, acts)
    ensures exists i, m, a, b :: SpawnsAt(acts, i, a) && SpawnsAt(acts, m, b) && i < m && a != b
  {
    hide Playable, Next, SpawningCall, Replay;
    var w0 := World(map[], None, Absent, false);
    var both := w0.(callers := map[0 := START, 1 := START]);
    var quitter := Caller(Finished(false), false, true);
    var gone := At(both, 0, quitter, None);
    assert gone == At(gone, 1, START, None) by {
      assert gone.callers[1 := START] == gone.callers;
    }
    PlayNothing(At(gone, 1, Caller(Waiting, true, true), Some(1)));
    SpawningCallPlays(gone, 1, []);
    var second := SpawningCall(1, []);
    PlayOne(both, 0, Caller(Waiting, true, true), Some(0), Crashed, quitter, second);
    var rest := [Act(0, Crashed)] + second;
    SpawningCallPlays(both, 0, rest);
    var first := SpawningCall(0, rest);
    assert both == At(both, 0, START, None) by {
      assert both.callers[0 := START] == both.callers;
    }
    assert map[0 := START][1 := START] == both.callers;
    JoinPlays(w0.(callers := map[0 := START]), 1, first);
    JoinPlays(w0, 0, [Join(1)] + first);
    acts := [Join(0)] + ([Join(1)] + first);
    ReplayIsRun(w0, acts);
    ws := Replay(w0, acts);
    SpawnPositions(acts, rest, second);
  }

  lemma SpawnPositions(acts: seq<Action>, rest: seq<Action>, second: seq<Action>)
    requires second == SpawningCall(1, []) && rest == [Act(0, Crashed)] + second
    requires acts == [Join(0)] + ([Join(1)] + SpawningCall(0, rest))
    ensures SpawnsAt(acts, 6, 0) && SpawnsAt(acts, 12, 1)
  {
    assert second[4] == Act(1, Spawned(true));
    assert rest[5] == second[4];
    var first := SpawningCall(0, rest);
    assert first[4] == Act(0, Spawned(true));
    assert first[10] == rest[5];
    assert acts[6] == first[4] && acts[12] == first[10];
  }

  lemma {:induction false} UnusedId(ids: set<Id>) returns (id: Id)
    ensures id !in ids && forall other :: other in ids ==> other < id
  {
    if ids == {} {
      id := 0;
    } else {
      var one :| one in ids;
      var rest := UnusedId(ids - {one});
      id := if one < rest then rest else one + 1;
      forall other | other in ids ensures other < id {
        assert other == one || other in ids - {one};
      }
    }
  }

  /** A new caller that finds the election free, the endpoint absent and the lifetime lock free spawns. */
  lemma NewcomerSpawns(w: World, id: Id)
    requires id !in w.callers && w.election == None && w.endpoint == Absent && !w.lifetimeHeld
    ensures Playable(w, [Join(id)] + SpawningCall(id, []))
  {
    hide Playable, SpawningCall;
    PlayNothing(At(w, id, Caller(Waiting, true, true), Some(id)));
    SpawningCallPlays(w, id, []);
    JoinPlays(w, id, SpawningCall(id, []));
  }

  /** The holder of the election, if any, crashes; the others stay as they are. */
  function Vacate(election: Option<Id>): seq<Action> {
    if election.Some? then [Act(election.value, Crashed)] else []
  }

  lemma VacatedPlays(w: World, rest: seq<Action>)
    requires Inv(w)
    requires Playable(if w.election.Some? then Play(w, Act(w.election.value, Crashed)) else w, rest)
    ensures Playable(w, Vacate(w.election) + rest)
  {
    if w.election.Some? {
      var acts := Vacate(w.election) + rest;
      assert acts[0] == Act(w.election.value, Crashed) && acts[1..] == rest;
    } else {
      assert [] + rest == rest;
    }
  }

  /**
   The other half: while the endpoint is absent and the lifetime lock free, every
   run extends to one more spawn, at the worst after the holder crashes. So what
   keeps a second broker from being spawned is that the first one took the lock
   or answers, and nothing else.
   */
  lemma AnotherSpawnCanFollow(ws: seq<World>, acts: seq<Action>) returns (more: seq<Action>, id: Id)
    requires IsRun(ws, acts)
    requires ws[|acts|].endpoint == Absent && !ws[|acts|].lifetimeHeld
    ensures IsRun(ws + Replay(ws[|acts|], more)[1..], acts + more)
    ensures id !in ws[|acts|].callers && more != [] && SpawnsAt(acts + more, |acts| + |more| - 1, id)
  {
    hide Next, Playable, Inv, Step;
    var w := ws[|acts|];
    RunKeepsInv(ws, acts, |acts|);
    id := UnusedId(w.callers.Keys);
    var call := [Join(id)] + SpawningCall(id, []);
    more := Vacate(w.election) + call;
    var free := if w.election.Some? then Play(w, Act(w.election.value, Crashed)) else w;
    if w.election.Some? {
      Vacated(w);
    }
    NewcomerSpawns(free, id);
    VacatedPlays(w, call);
    ReplayIsRun(w, more);
    RunsJoin(ws, acts, Replay(w, more), more);
    assert call[5] == Act(id, Spawned(true));
    assert more[|more| - 1] == call[5];
  }

  lemma Vacated(w: World)
    requires Inv(w) && w.election.Some?
    ensures var free := Play(w, Act(w.election.value, Crashed));
            free == w.(callers := free.callers, election := None) && free.callers.Keys == w.callers.Keys
  {
  }

  lemma RunsJoin(ws: seq<World>, acts: seq<Action>, after: seq<World>, more: seq<Action>)
    requires IsRun(ws, acts) && Linked(after, more) && after[0] == ws[|acts|]
    ensures IsRun(ws + after[1..], acts + more)
  {
    hide Next, Initial;
    var all := ws + after[1..];
    forall i | 0 <= i < |acts + more| ensures Next(all[i], (acts + more)[i], all[i + 1]) {
      if i < |acts| {
        assert all[i] == ws[i] && all[i + 1] == ws[i + 1] && (acts + more)[i] == acts[i];
      } else {
        var j := i - |acts|;
        assert (acts + more)[i] == more[j] && all[i + 1] == after[j + 1];
        assert all[i] == after[j];
        assert Next(after[j], more[j], after[j + 1]);
      }
    }
  }
}
