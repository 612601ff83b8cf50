/** The durable catalogue record of one named session, and when it is valid. */
module Catalogue {
  import opened Wire
  import ManifestFormat

  type Incarnation = ManifestFormat.Incarnation
  type Checkpoint = ManifestFormat.Checkpoint

  datatype TabRecord = TabRecord(stableId: bytes, name: bytes)

  datatype Record = Record(
    name: bytes, incarnation: Incarnation, cwd: bytes,
    createdAt: i64, updatedAt: i64, lastUsedSeq: u64,
    tabNames: seq<bytes>, tabs: seq<TabRecord>,
    committed: Option<Checkpoint>, degradedReason: bytes)

  // ----- UTF-8

  predicate Continues(b: bytes, i: nat) {
    i < |b| && 0x80 <= b[i] <= 0xBF
  }

  /** The length of the encoded rune at the front of `b`; zero when there is none. */
  function RuneSize(b: bytes): (n: nat)
    ensures n <= |b|
  {
    if b == [] then 0
    else if b[0] < 0x80 then 1
    else if 0xC2 <= b[0] <= 0xDF && Continues(b, 1) then 2
    else if 0xE0 <= b[0] <= 0xEF && Continues(b, 1) && Continues(b, 2)
            && (b[0] != 0xE0 || b[1] >= 0xA0) && (b[0] != 0xED || b[1] <= 0x9F) then 3
    else if 0xF0 <= b[0] <= 0xF4 && Continues(b, 1) && Continues(b, 2) && Continues(b, 3)
            && (b[0] != 0xF0 || b[1] >= 0x90) && (b[0] != 0xF4 || b[1] <= 0x8F) then 4
    else 0
  }

  function RuneAt(b: bytes): nat {
    var n := RuneSize(b);
    if n == 0 then 0xFFFD
    else if n == 1 then b[0]
    else if n == 2 then (b[0] as nat - 0xC0) * 0x40 + (b[1] as nat - 0x80)
    else if n == 3 then (b[0] as nat - 0xE0) * 0x1000 + (b[1] as nat - 0x80) * 0x40 + (b[2] as nat - 0x80)
    else
      (b[0] as nat - 0xF0) * 0x4_0000 + (b[1] as nat - 0x80) * 0x1000
      + (b[2] as nat - 0x80) * 0x40 + (b[3] as nat - 0x80)
  }

  predicate Utf8(b: bytes)
    decreases |b|
  {
    b == [] || (RuneSize(b) > 0 && Utf8(b[RuneSize(b)..]))
  }

  predicate ControlOrSpace(r: nat) {
    || r < 0x20 || 0x7F <= r <= 0x9F
    || r == 0x20 || r == 0xA0 || r == 0x1680 || 0x2000 <= r <= 0x200A
    || r == 0x2028 || r == 0x2029 || r == 0x202F || r == 0x205F || r == 0x3000
  }

  predicate Printable(b: bytes)
    decreases |b|
  {
    b == [] || (RuneSize(b) > 0 && !ControlOrSpace(RuneAt(b)) && Printable(b[RuneSize(b)..]))
  }

  // ----- Names

  predicate Alphanumeric(c: byte) {
    0x30 <= c <= 0x39 || 0x41 <= c <= 0x5A || 0x61 <= c <= 0x7A
  }

  /** `[A-Za-z0-9][A-Za-z0-9._-]{0,63}` */
  predicate ValidSessionName(name: bytes) {
    && 1 <= |name| <= 64
    && Alphanumeric(name[0])
    && forall i :: 1 <= i < |name| ==> Alphanumeric(name[i]) || name[i] == 0x2E || name[i] == 0x5F || name[i] == 0x2D
  }

  predicate ValidStableId(id: bytes) {
    id != [] && |id| <= 128 && Utf8(id) && Printable(id)
  }

  // ----- Validity

  predicate ValidTab(t: TabRecord) {
    (t.stableId == [] || ValidStableId(t.stableId)) && Utf8(t.name)
  }

  predicate ValidTabs(ts: seq<TabRecord>) {
    forall i :: 0 <= i < |ts| ==> ValidTab(ts[i])
  }

  predicate ValidRecord(r: Record) {
    && ValidSessionName(r.name)
    && !AllZero(r.incarnation)
    && ValidTabs(r.tabs)
    && (r.degradedReason != [] ==> r.committed.Some?)
    && (r.committed.Some? ==> r.committed.value.generation != 0 && !AllZero(r.committed.value.digest))
  }

  method Validate(r: Record) returns (ok: bool)
    ensures ok <==> ValidRecord(r)
  {
    hide ValidTab, AllZero, ValidSessionName;
    if !ValidSessionName(r.name) {
      return false;
    }
    if AllZero(r.incarnation) {
      return false;
    }
    for i := 0 to |r.tabs|
      invariant forall j :: 0 <= j < i ==> ValidTab(r.tabs[j])
    {
      if !ValidTab(r.tabs[i]) {
        return false;
      }
    }
    if r.degradedReason != [] && r.committed.None? {
      return false;
    }
    if r.committed.Some? && (r.committed.value.generation == 0 || AllZero(r.committed.value.digest)) {
      return false;
    }
    return true;
  }
}
