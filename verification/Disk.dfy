/**
 The file-system calls behind the key/value store, with failures and crashes.

 Any call may fail, and a failing call may or may not have taken effect. What a
 crash can leave under the main pathname is tracked explicitly: a rename adds
 one possible survivor, only a directory sync discards the older ones, and
 renaming a file whose contents were never synced leaves anything possible.
 */
module Disk {
  import opened Wire

  datatype File = File(content: bytes, synced: bool)

  datatype DiskState = DiskState(
    main: Option<File>, tmp: Option<File>, survivors: set<Option<bytes>>, torn: bool)

  function Contents(f: Option<File>): Option<bytes> {
    if f.Some? then Some(f.value.content) else None
  }

  /** `m` may be what the main pathname holds after a crash in state `d`. */
  ghost predicate MaySurvive(d: DiskState, m: Option<bytes>) {
    d.torn || m in d.survivors
  }

  /** `d'` is a disk found after a crash in state `d`; temporary files hold anything. */
  ghost predicate CrashedTo(d: DiskState, d': DiskState) {
    && MaySurvive(d, Contents(d'.main))
    && (d'.main.Some? ==> d'.main.value.synced)
    && d'.survivors == {Contents(d'.main)} && !d'.torn
  }

  /** What the main pathname holds is intact, synced and among the survivors. */
  ghost predicate Sound(d: DiskState) {
    && !d.torn
    && Contents(d.main) in d.survivors
    && (d.main.Some? ==> d.main.value.synced)
  }

  /** Only what the main pathname holds can survive. */
  ghost predicate Settled(d: DiskState) {
    Sound(d) && d.main.Some? && d.survivors == {Contents(d.main)}
  }

  function Renamed(d: DiskState): DiskState
    requires d.tmp.Some?
  {
    DiskState(d.tmp, None, d.survivors + {Contents(d.tmp)}, d.torn || !d.tmp.value.synced)
  }

  function DirectorySynced(d: DiskState): DiskState {
    d.(survivors := {Contents(d.main)}, torn := d.torn && d.main.Some? && !d.main.value.synced)
  }

  class Volume {
    var s: DiskState
    /** Every state the disk has been in; a crash may happen in any of them. */
    ghost var trace: seq<DiskState>
    /** How many calls have failed so far. */
    ghost var faults: nat

    constructor (state: DiskState)
      ensures s == state && trace == [state] && faults == 0
    {
      s, trace, faults := state, [state], 0;
    }

    /** Any other call the system may fail: taking a lock, reading, releasing. */
    method Attempt() returns (ok: bool)
      modifies this`faults
      ensures faults == old(faults) + if ok then 0 else 1
    {
      ok := *;
      faults := faults + if ok then 0 else 1;
    }

    method Step(next: DiskState)
      modifies this`s, this`trace
      ensures s == next && trace == old(trace) + [next]
    {
      s, trace := next, trace + [next];
    }

    method CreateTmp() returns (ok: bool)
      modifies this
      ensures s.(tmp := old(s.tmp)) == old(s) && trace == old(trace) + [s]
      ensures ok ==> s.tmp == Some(File([], false))
      ensures faults == old(faults) + if ok then 0 else 1
    {
      ok := Attempt();
      var effect := *;
      Step(if ok || effect then s.(tmp := Some(File([], false))) else s);
    }

    /** Appends a prefix of `data`; a failed write may have appended some of it. */
    method WriteTmp(data: bytes) returns (ok: bool, n: nat)
      requires s.tmp.Some?
      modifies this
      ensures n <= |data|
      ensures s == old(s).(tmp := Some(File(old(s.tmp).value.content + data[..n], false)))
      ensures trace == old(trace) + [s]
      ensures faults == old(faults) + if !ok || (n == 0 && data != []) then 1 else 0
    {
      ok := Attempt();
      var count: int := *;
      n := if 0 <= count <= |data| then count else |data|;
      faults := faults + if ok && n == 0 && data != [] then 1 else 0;
      Step(s.(tmp := Some(File(s.tmp.value.content + data[..n], false))));
    }

    method SyncTmp() returns (ok: bool)
      requires s.tmp.Some?
      modifies this
      ensures s.(tmp := old(s.tmp)) == old(s) && trace == old(trace) + [s]
      ensures s.tmp.Some? && s.tmp.value.content == old(s.tmp.value.content)
      ensures ok ==> s.tmp.value.synced
      ensures faults == old(faults) + if ok then 0 else 1
    {
      ok := Attempt();
      var effect := *;
      Step(if ok || effect then s.(tmp := Some(s.tmp.value.(synced := true))) else s);
    }

    method CloseTmp() returns (ok: bool)
      modifies this`faults
      ensures faults == old(faults) + if ok then 0 else 1
    {
      ok := Attempt();
    }

    method RenameTmp() returns (ok: bool)
      requires s.tmp.Some?
      modifies this
      ensures s == Renamed(old(s)) || s == old(s)
      ensures ok ==> s == Renamed(old(s))
      ensures trace == old(trace) + [s]
      ensures faults == old(faults) + if ok then 0 else 1
    {
      ok := Attempt();
      var effect := *;
      Step(if ok || effect then Renamed(s) else s);
    }

    method SyncDirectory() returns (ok: bool)
      modifies this
      ensures s == DirectorySynced(old(s)) || s == old(s)
      ensures ok ==> s == DirectorySynced(old(s))
      ensures trace == old(trace) + [s]
      ensures faults == old(faults) + if ok then 0 else 1
    {
      ok := Attempt();
      var effect := *;
      Step(if ok || effect then DirectorySynced(s) else s);
    }
  }
}
