/**
 Whole runs of catalogue operations, with any pattern of store and disk failures:
 one step as a relation between snapshots, and the method that makes one.
 */
module CatalogueRun {
  import opened Wire
  import opened Envelope
  import opened Catalogue
  import opened KvCodec
  import opened Disk
  import opened KvStore
  import opened PersistModel
  import opened Persister

  datatype Op =
    | Create(record: Record)
    | Apply(batch: Batch)
    | Rename(oldName: Name, next: Record)
    | Replace(name: Name, record: Record)
    | Delete(name: Name)
    | UpdateMetadata(update: Update)
    | Sync
    | Close

  function Single(record: Record): Batch {
    map[record.name := Some(record)]
  }

  /** A rename to the same name is an ordinary error, before anything is looked at. */
  predicate Pointless(op: Op) {
    op.Rename? && op.oldName == op.next.name
  }

  /** The batch an operation carries out on a table, if it is one and gets that far. */
  function BatchOf(op: Op, data: Table): Option<Batch> {
    match op
    case Create(record) => if record.name in data then None else Some(Single(record))
    case Apply(batch) => Some(batch)
    case Rename(oldName, next) => if oldName
        == next.name then None else Some(map[oldName := None, next.name := Some(next)])
    case Replace(name, record) => Some(map[name := Some(record)])
    case Delete(name) => Some(map[name := None])
    case _ => None
  }

  /** What memory holds after an operation that nothing hinders. */
  ghost function Perform(op: Op, data: Table): Table {
    match BatchOf(op, data)
    case Some(batch) => Outcome(batch, data)
    case None => if op.UpdateMetadata? then UpdateTable(data, op.update) else data
  }

  /** What the operation gives the file to hold, if it writes at all. */
  ghost function Written(op: Op, data: Table): Table {
    if op.UpdateMetadata? then data else Perform(op, data)
  }

  // ----- One step

  /** A clean store's file holds its table. */
  ghost predicate Consistent(crc: Checksum, a: Snapshot) {
    Sound(a.disk) && (!a.dirty ==> a.disk.main.Some? && Holds(crc, a.disk.main.value.content, a.data))
  }

  /** What a step does to memory and answers, in front of the fence. */
  ghost predicate Memory(op: Op, s: Status, a: Snapshot, b: Snapshot) {
    match op
    case UpdateMetadata(u) => UpdateOutcome(s, u, b.data, a.data) && b.disk == a.disk && b.trace == a.trace
    case Sync => b.data == a.data && s != Refused
    case Close => b.data == a.data && !s.Fenced? && (s == Refused ==> a.faults < b.faults)
    case _ =>
      match BatchOf(op, a.data)
      case Some(batch) => BatchOutcome(s, batch, b.data, a.data)
      case None => s == Refused && b.data == a.data
  }

  /** An operation that syncs: any but a buffered update and closing what is closed. */
  predicate Syncs(op: Op, a: Snapshot) {
    !op.UpdateMetadata? && !(op.Close? && a.closed)
  }

  /** There is something to write when the operation syncs. */
  ghost predicate Writes(op: Op, a: Snapshot) {
    a.dirty || (BatchOf(op, a.data).Some? && Dirties(BatchOf(op, a.data).value, a.data))
  }

  /**
   What a step does to the disk, in front of the fence: nothing once closed or
   when refused; a success leaves nothing dirty and, when it wrote, only its own
   file to survive a crash.
   */
  ghost predicate Durability(crc: Checksum, op: Op, s: Status, a: Snapshot, b: Snapshot) {
    && (a.closed ==> b.disk == a.disk && b.trace == a.trace)
    && (s == Applied && Syncs(op, a) ==> !b.dirty && Synced(Writes(op, a), b.disk, a.disk, EncodeFile(crc, b.data)))
    && (s == Refused && !op.Close? ==> b.dirty == a.dirty && b.disk == a.disk && b.trace == a.trace)
  }

  /** Flags only go up, only closing closes, and a fence has a cause. */
  ghost predicate Flags(op: Op, s: Status, a: Snapshot, b: Snapshot) {
    && Stays(s, a.fenced, b.fenced) && Caused(s, b, a)
    && (b.closed <==> a.closed || op.Close?)
  }

  ghost predicate Step(crc: Checksum, op: Op, s: Status, a: Snapshot, b: Snapshot) {
    && Consistent(crc, b) && a.trace <= b.trace
    && Rewrites(b.trace, |a.trace|, b.disk, a.disk, crc, Written(op, a.data))
    && (if Pointless(op) then s == Refused && b == a
        else Flags(op, s, a, b)
             && (if a.fenced then FencedOff(b, a) else Memory(op, s, a, b) && Durability(crc, op, s, a, b)))
  }

  method Do(p: Persister, op: Op) returns (s: Status)
    requires p.Valid()
    modifies p, p.store, p.store.disk
    ensures p.Valid()
    ensures Step(p.store.crc, op, s, old(p.Snap()), p.Snap())
  {
    hide Good, IndexMatches, Rewrites, Holds, Sound, BatchOutcome, UpdateOutcome, Outcome, UpdateTable, IdentityKept;
    hide Synced, Dirties, EncodeFile;
    ghost var a := p.Snap();
    NothingWritten(a.trace, a.disk, p.store.crc, a.data);
    match op
    case Create(record) =>
      SingleDirties(record, a.data);
      s := p.Create(record);
    case Apply(batch) =>
      s := p.Apply(batch);
    case Rename(oldName, next) =>
      if oldName == next.name {
        return Refused;
      }
      s := p.Apply(map[oldName := None, next.name := Some(next)]);
    case Replace(name, record) =>
      s := p.Apply(map[name := Some(record)]);
    case Delete(name) =>
      s := p.Apply(map[name := None]);
    case UpdateMetadata(update) =>
      s := p.UpdateMetadata(update);
    case Sync =>
      s := p.Sync();
    case Close =>
      var ok := p.Close();
      s := if ok then Applied else if p.fenced then Fenced(true) else Refused;
  }

  lemma SingleDirties(record: Record, data: Table)
    ensures Dirties(Single(record), data)
  {
    assert record.name in Single(record);
  }

  // ----- Runs

  /** One snapshot before the first operation and one after each, joined by steps. */
  ghost predicate IsHistory(crc: Checksum, ops: seq<Op>, results: seq<Status>, hist: seq<Snapshot>) {
    && |results| == |ops| && |hist| == |ops| + 1
    && forall k :: 0 <= k < |ops| ==> Step(crc, ops[k], results[k], hist[k], hist[k + 1])
  }

  /** Every run of the persister is a history, from its first state to its last. */
  method RunAll(p: Persister, ops: seq<Op>) returns (results: seq<Status>, ghost hist: seq<Snapshot>)
    requires p.Valid()
    modifies p, p.store, p.store.disk
    ensures p.Valid() && IsHistory(p.store.crc, ops, results, hist)
    ensures hist[0] == old(p.Snap()) && hist[|ops|] == p.Snap()
  {
    hide Step, IsHistory, Good, IndexMatches, Holds, Sound;
    results, hist := [], [p.Snap()];
    HistoryStarts(p.store.crc, p.Snap());
    assert ops[..0] == [];
    for k := 0 to |ops|
      invariant p.Valid() && |results| == k && |hist| == k + 1
      invariant hist[0] == old(p.Snap()) && hist[k] == p.Snap()
      invariant IsHistory(p.store.crc, ops[..k], results, hist)
    {
      var s := Do(p, ops[k]);
      HistoryGrows(p.store.crc, ops[..k], results, hist, ops[k], s, p.Snap());
      assert ops[..k + 1] == ops[..k] + [ops[k]];
      results, hist := results + [s], hist + [p.Snap()];
    }
    assert ops[..|ops|] == ops;
  }

  lemma HistoryStarts(crc: Checksum, a: Snapshot)
    ensures IsHistory(crc, [], [], [a])
  {
  }

  lemma HistoryGrows(crc: Checksum, ops: seq<Op>, results: seq<Status>, hist: seq<Snapshot>, op: Op, s: Status,
                     b: Snapshot)
    requires IsHistory(crc, ops, results, hist) && Step(crc, op, s, hist[|ops|], b)
    ensures IsHistory(crc, ops + [op], results + [s], hist + [b])
  {
    hide Step;
  }
}
