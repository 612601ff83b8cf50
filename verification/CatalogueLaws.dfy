/**
 What the catalogue's validity rules mean: text as the encoding of characters,
 names by their letters, records field by field.
 */
module CatalogueLaws {
  import opened Wire
  import opened Catalogue
  import opened KvCodec
  import opened RecordFormat
  import opened PersistModel
  import opened Persister

  // ----- UTF-8 as the encoding of characters

  /** A Unicode scalar value: any code point but a surrogate. */
  predicate Scalar(r: nat) {
    r < 0x11_0000 && !(0xD800 <= r < 0xE000)
  }

  /** Section 3 of RFC 3629. */
  function EncodeRune(r: nat): bytes
    requires Scalar(r)
  {
    if r < 0x80 then [r]
    else if r < 0x800 then [0xC0 + r / 0x40, 0x80 + r % 0x40]
    else if r < 0x1_0000 then [0xE0 + r / 0x1000, 0x80 + r / 0x40 % 0x40, 0x80 + r % 0x40]
    else [0xF0 + r / 0x4_0000, 0x80 + r / 0x1000 % 0x40, 0x80 + r / 0x40 % 0x40, 0x80 + r % 0x40]
  }

  predicate AllScalar(rs: seq<nat>) {
    forall i :: 0 <= i < |rs| ==> Scalar(rs[i])
  }

  function EncodeText(rs: seq<nat>): bytes
    requires AllScalar(rs)
  {
    if rs == [] then [] else EncodeRune(rs[0]) + EncodeText(rs[1..])
  }

  /** An encoded character is recognised with its length, whatever follows it. */
  lemma RuneRoundTrip(r: nat, k: bytes)
    requires Scalar(r)
    ensures var b := EncodeRune(r) + k;
            RuneSize(b) == |EncodeRune(r)| && RuneAt(b) == r && b[RuneSize(b)..] == k
  {
    hide RuneSize, RuneAt;
    var e := EncodeRune(r);
    var b := e + k;
    assert b[..|e|] == e && b[|e|..] == k;
    if r < 0x80 {
      OneByte(r, k);
    } else if r < 0x800 {
      TwoBytes(r / 0x40, r % 0x40, k);
    } else if r < 0x1_0000 {
      SplitThree(r);
      ThreeBytes(r / 0x1000, r / 0x40 % 0x40, r % 0x40, k);
    } else {
      SplitFour(r);
      FourBytes(r / 0x4_0000, r / 0x1000 % 0x40, r / 0x40 % 0x40, r % 0x40, k);
    }
  }

  lemma SplitThree(r: nat)
    requires 0x800 <= r < 0x1_0000 && !(0xD800 <= r < 0xE000)
    ensures r == r / 0x1000 * 0x1000 + r / 0x40 % 0x40 * 0x40 + r % 0x40
    ensures r / 0x1000 < 0x10
    ensures r / 0x1000 == 0 ==> r / 0x40 % 0x40 >= 0x20
    ensures r / 0x1000 == 0xD ==> r / 0x40 % 0x40 < 0x20
  {
  }

  lemma SplitFour(r: nat)
    requires 0x1_0000 <= r < 0x11_0000
    ensures r == r / 0x4_0000 * 0x4_0000 + r / 0x1000 % 0x40 * 0x1000 + r / 0x40 % 0x40 * 0x40 + r % 0x40
    ensures r / 0x4_0000 <= 4
    ensures r / 0x4_0000 == 0 ==> r / 0x1000 % 0x40 >= 0x10
    ensures r / 0x4_0000 == 4 ==> r / 0x1000 % 0x40 < 0x10
  {
  }

  lemma OneByte(r: nat, k: bytes)
    requires r < 0x80
    ensures RuneSize([r] + k) == 1 && RuneAt([r] + k) == r
  {
  }

  lemma TwoBytes(x: nat, y: nat, k: bytes)
    requires 2 <= x < 0x20 && y < 0x40
    ensures var b := [0xC0 + x, 0x80 + y] + k; RuneSize(b) == 2 && RuneAt(b) == x * 0x40 + y
  {
    var b: bytes := [0xC0 + x, 0x80 + y] + k;
    assert b[0] == 0xC0 + x && b[1] == 0x80 + y;
  }

  lemma ThreeBytes(x: nat, y: nat, z: nat, k: bytes)
    requires x < 0x10 && y < 0x40 && z < 0x40 && (x == 0 ==> y >= 0x20) && (x == 0xD ==> y < 0x20)
    ensures var b := [0xE0 + x, 0x80 + y, 0x80 + z] + k;
            RuneSize(b) == 3 && RuneAt(b) == x * 0x1000 + y * 0x40 + z
  {
    var b: bytes := [0xE0 + x, 0x80 + y, 0x80 + z] + k;
    assert b[0] == 0xE0 + x && b[1] == 0x80 + y && b[2] == 0x80 + z;
  }

  lemma FourBytes(x: nat, y: nat, z: nat, w: nat, k: bytes)
    requires x <= 4 && y < 0x40 && z < 0x40 && w < 0x40 && (x == 0 ==> y >= 0x10) && (x == 4 ==> y < 0x10)
    ensures var b := [0xF0 + x, 0x80 + y, 0x80 + z, 0x80 + w] + k;
            RuneSize(b) == 4 && RuneAt(b) == x * 0x4_0000 + y * 0x1000 + z * 0x40 + w
  {
    var b: bytes := [0xF0 + x, 0x80 + y, 0x80 + z, 0x80 + w] + k;
    assert b[0] == 0xF0 + x && b[1] == 0x80 + y && b[2] == 0x80 + z && b[3] == 0x80 + w;
  }

  /** A recognised character is the encoding of the scalar value it is read as. */
  lemma RuneCanonical(b: bytes)
    requires RuneSize(b) > 0
    ensures Scalar(RuneAt(b)) && EncodeRune(RuneAt(b)) == b[..RuneSize(b)]
  {
    var n := RuneSize(b);
    if n == 2 {
      TwoDigits(b[0] as nat - 0xC0, b[1] as nat - 0x80);
    } else if n == 3 {
      ThreeDigits(b[0] as nat - 0xE0, b[1] as nat - 0x80, b[2] as nat - 0x80);
    } else if n == 4 {
      FourDigits(b[0] as nat - 0xF0, b[1] as nat - 0x80, b[2] as nat - 0x80, b[3] as nat - 0x80);
    }
  }

  lemma ThreeDigits(x: nat, y: nat, z: nat)
    requires y < 0x40 && z < 0x40
    ensures var r := x * 0x1000 + y * 0x40 + z; r / 0x1000 == x && r / 0x40 % 0x40 == y && r % 0x40 == z
  {
    TwoDigits(x * 0x40 + y, z);
    TwoDigits(x, y);
  }

  lemma FourDigits(x: nat, y: nat, z: nat, w: nat)
    requires y < 0x40 && z < 0x40 && w < 0x40
    ensures var r := x * 0x4_0000 + y * 0x1000 + z * 0x40 + w;
            r / 0x4_0000 == x && r / 0x1000 % 0x40 == y && r / 0x40 % 0x40 == z && r % 0x40 == w
  {
    ThreeDigits(x * 0x40 + y, z, w);
    TwoDigits(x, y);
  }

  lemma TwoDigits(high: nat, low: nat)
    requires low < 0x40
    ensures (high * 0x40 + low) / 0x40 == high && (high * 0x40 + low) % 0x40 == low
  {
  }

  /** The characters of a text, as far as it is one. */
  function Characters(b: bytes): seq<nat>
    decreases |b|
  {
    if RuneSize(b) == 0 then [] else [RuneAt(b)] + Characters(b[RuneSize(b)..])
  }

  lemma {:induction false} Utf8IsEncoded(b: bytes)
    requires Utf8(b)
    ensures AllScalar(Characters(b)) && EncodeText(Characters(b)) == b
    decreases |b|
  {
    hide RuneSize, RuneAt;
    if b == [] {
      NoRune();
    } else {
      RuneCanonical(b);
      Utf8IsEncoded(b[RuneSize(b)..]);
      assert Characters(b)[1..] == Characters(b[RuneSize(b)..]);
    }
  }

  lemma NoRune()
    ensures RuneSize([]) == 0
  {
  }

  lemma {:induction false} EncodedIsUtf8(rs: seq<nat>)
    requires AllScalar(rs)
    ensures Utf8(EncodeText(rs)) && Characters(EncodeText(rs)) == rs
    decreases |rs|
  {
    hide RuneSize, RuneAt, EncodeRune;
    if rs == [] {
      NoRune();
    } else {
      EncodedIsUtf8(rs[1..]);
      RuneRoundTrip(rs[0], EncodeText(rs[1..]));
      RuneNotEmpty(rs[0]);
    }
  }

  lemma RuneNotEmpty(r: nat)
    requires Scalar(r)
    ensures |EncodeRune(r)| > 0
  {
  }

  /** A byte string is text exactly when it is the encoding of some characters. */
  lemma Utf8Exactly(b: bytes)
    ensures Utf8(b) <==> exists rs :: AllScalar(rs) && EncodeText(rs) == b
  {
    if Utf8(b) {
      Utf8IsEncoded(b);
    }
    if exists rs :: AllScalar(rs) && EncodeText(rs) == b {
      var rs :| AllScalar(rs) && EncodeText(rs) == b;
      EncodedIsUtf8(rs);
    }
  }

  predicate NoneSpecial(rs: seq<nat>) {
    forall i :: 0 <= i < |rs| ==> !ControlOrSpace(rs[i])
  }

  lemma NoneSpecialCons(r: nat, rs: seq<nat>)
    ensures NoneSpecial([r] + rs) <==> !ControlOrSpace(r) && NoneSpecial(rs)
  {
    hide ControlOrSpace;
    var all := [r] + rs;
    assert all[0] == r && forall i :: 0 <= i < |rs| ==> all[i + 1] == rs[i];
    if NoneSpecial(all) {
      forall i | 0 <= i < |rs| ensures !ControlOrSpace(rs[i]) {
        assert !ControlOrSpace(all[i + 1]);
      }
    }
  }

  /** Text is free of control and space characters exactly when each character is neither. */
  lemma {:induction false} PrintableExactly(b: bytes)
    ensures Printable(b) <==> Utf8(b) && NoneSpecial(Characters(b))
    decreases |b|
  {
    hide RuneSize, RuneAt, ControlOrSpace, NoneSpecial;
    if b == [] {
      NoRune();
      NothingSpecial();
    } else if RuneSize(b) > 0 {
      PrintableExactly(b[RuneSize(b)..]);
      NoneSpecialCons(RuneAt(b), Characters(b[RuneSize(b)..]));
    }
  }

  lemma NothingSpecial()
    ensures NoneSpecial([])
  {
  }

  // ----- Names and records

  predicate Letter(c: byte) {
    var ch := c as char;
    'A' <= ch <= 'Z' || 'a' <= ch <= 'z' || '0' <= ch <= '9'
  }

  /** A letter or digit, then at most 63 letters, digits, dots, underscores and dashes. */
  lemma SessionNameExactly(name: bytes)
    ensures ValidSessionName(name) <==>
            && 1 <= |name| <= 64 && Letter(name[0])
            && forall i :: 1 <= i < |name| ==>
                 Letter(name[i]) || name[i] as char == '.' || name[i] as char == '_' || name[i] as char == '-'
  {
  }

  predicate HasBit(d: bytes) {
    exists i :: 0 <= i < |d| && d[i] != 0
  }

  predicate TabSound(t: TabRecord) {
    && Utf8(t.name)
    && (t.stableId != [] ==> |t.stableId| <= 128 && Utf8(t.stableId) && NoneSpecial(Characters(t.stableId)))
  }

  predicate RecordSound(r: Record) {
    && ValidSessionName(r.name) && HasBit(r.incarnation)
    && (forall i :: 0 <= i < |r.tabs| ==> TabSound(r.tabs[i]))
    && (match r.committed
        case None => r.degradedReason == []
        case Some(c) => c.generation > 0 && HasBit(c.digest))
  }

  /**
   A record is stored exactly when its name is a session name, its incarnation is
   not zero, its tabs are named in text and identified by printable text of at most
   128 bytes, a degraded one has a checkpoint, a checkpoint is real, and every
   length fits 32 bits.
   */
  lemma StoredExactly(r: Record)
    ensures Stamp(r).Some? <==> RecordSound(r) && RecordFits(r, 6)
  {
    hide ValidTab, TabSound, ValidSessionName, RecordFits, PutRecord;
    forall i | 0 <= i < |r.tabs| ensures ValidTab(r.tabs[i]) <==> TabSound(r.tabs[i]) {
      TabExactly(r.tabs[i]);
    }
  }

  lemma TabExactly(t: TabRecord)
    ensures ValidTab(t) <==> TabSound(t)
  {
    hide Utf8, Printable, Characters, NoneSpecial;
    PrintableExactly(t.stableId);
  }

  /**
   An update is carried out exactly when its record is stored under its incarnation and what it
   makes of it can be.
   */
  lemma UpdatesExactly(data: Table, u: Update)
    ensures Updates(data, u) <==>
            && Good(data) && HasBit(u.incarnation) && u.name in data
            && RecordOf(data, u.name).incarnation == u.incarnation
            && forall r | MetadataTaken(u, RecordOf(data, u.name), r) :: RecordSound(r) && RecordFits(r, 6)
  {
    hide DecodeRecord, EncodeRecord, Unique, RecordSound, RecordFits;
    if Good(data) && u.name in data {
      var before := RecordOf(data, u.name);
      StoredExactly(Updated(before, u));
      assert MetadataTaken(u, before, Updated(before, u));
      forall r | MetadataTaken(u, before, r) ensures r == Updated(before, u) {
      }
    }
  }

  /**
   A batch is well formed exactly when each name is a session name and each record is that name's
   and can be stored.
   */
  lemma WellFormedExactly(batch: Batch)
    ensures WellFormedBatch(batch) <==>
            forall name :: name in batch ==>
              && ValidSessionName(name)
              && (batch[name].Some? ==>
                    batch[name].value.name == name && RecordSound(batch[name].value)
                        && RecordFits(batch[name].value, 6))
  {
    hide RecordSound, RecordFits, Stamp, ValidSessionName;
    forall name | name in batch && batch[name].Some?
      ensures Stamp(batch[name].value).Some? <==> RecordSound(batch[name].value) && RecordFits(batch[name].value, 6)
    {
      StoredExactly(batch[name].value);
    }
  }

  /** Whose incarnation a name holds once a batch is done. */
  ghost function HoldsAfter(data: Table, batch: Batch, name: Name): Option<Incarnation>
    requires Decodes(data)
  {
    if name in batch then
      if batch[name].Some? then Some(batch[name].value.incarnation) else None
    else if name in data then Some(RecordOf(data, name).incarnation)
    else None
  }

  ghost predicate NoClash(data: Table, batch: Batch)
    requires Decodes(data)
  {
    forall a, b :: a != b && HoldsAfter(data, batch, a).Some? ==>
      HoldsAfter(data, batch, a) != HoldsAfter(data, batch, b)
  }

  lemma HeldAfter(data: Table, batch: Batch, name: Name)
    requires Decodes(data) && WellFormedBatch(batch)
    ensures var next := ApplyBatch(data, batch);
            && (name in next <==> HoldsAfter(data, batch, name).Some?)
            && (name in next ==>
                  && DecodeRecord(name, next[name]).Some?
                  && Some(RecordOf(next, name).incarnation) == HoldsAfter(data, batch, name))
  {
    hide DecodeRecord, EncodeRecord, ValidSessionName;
    if name in batch && batch[name].Some? {
      StampDecodes(batch[name].value);
    }
  }

  /**
   A batch is carried out exactly when it is well formed and not empty, the catalogue is good, and
   no two names would hold one incarnation.
   */
  lemma AcceptableExactly(data: Table, batch: Batch)
    ensures Acceptable(data, batch) <==> batch != map[] && Good(data) && WellFormedBatch(batch) && NoClash(data, batch)
  {
    hide DecodeRecord, EncodeRecord, WellFormedBatch, HoldsAfter, ApplyBatch;
    if batch != map[] && Good(data) && WellFormedBatch(batch) {
      var next := ApplyBatch(data, batch);
      forall name
        ensures name in next <==> HoldsAfter(data, batch, name).Some?
        ensures name in next ==>
                  && DecodeRecord(name, next[name]).Some?
                  && Some(RecordOf(next, name).incarnation) == HoldsAfter(data, batch, name)
      {
        HeldAfter(data, batch, name);
      }
    }
  }
}
