/**
 The four versions of the stored catalogue record: printers, parsers and the
 laws between them.
 */
module RecordFormat {
  import opened Wire
  import opened Catalogue
  import ManifestFormat
  import ManifestRoundTrip
  import opened KvCodec

  const CATALOGUE_MAGIC: bytes := [0x56, 0x45, 0x56, 0x43] // "VEVC"
  const CURRENT: u16 := 6
  const WITH_PROTOCOL: u16 := 5
  const WITHOUT_PROTOCOL: u16 := 4
  const LEGACY: u16 := 3

  predicate Supported(format: u16) {
    format == CURRENT || format == WITH_PROTOCOL || format == WITHOUT_PROTOCOL || format == LEGACY
  }

  datatype Stored = Stored(record: Record, format: u16)

  // ----- 64-bit two's complement

  function ToU64(x: i64): u64 {
    if x < 0 then x + 0x1_0000_0000_0000_0000 else x
  }

  function ToI64(x: u64): i64 {
    if x < 0x8000_0000_0000_0000 then x else x - 0x1_0000_0000_0000_0000
  }

  // ----- Lengths that fit

  predicate NamesFit(ss: seq<bytes>) {
    forall i :: 0 <= i < |ss| ==> |ss[i]| < U32_SPAN
  }

  predicate TabsFit(ts: seq<TabRecord>) {
    forall i :: 0 <= i < |ts| ==> |ts[i].stableId| < U32_SPAN && |ts[i].name| < U32_SPAN
  }

  predicate RecordFits(r: Record, format: u16) {
    && |r.cwd| < U32_SPAN && |r.degradedReason| < U32_SPAN
    && |r.tabNames| < U32_SPAN && NamesFit(r.tabNames)
    && (format != LEGACY ==> |r.tabs| < U32_SPAN && TabsFit(r.tabs))
  }

  // ----- Printers

  function PutString32(s: bytes, k: bytes): bytes
    requires |s| < U32_SPAN
  {
    PutU32(|s|, s + k)
  }

  function PutNames(ss: seq<bytes>, k: bytes): bytes
    requires NamesFit(ss)
  {
    if ss == [] then k else PutString32(ss[0], PutNames(ss[1..], k))
  }

  function PutTabs(ts: seq<TabRecord>, k: bytes): bytes
    requires TabsFit(ts)
  {
    if ts == [] then k else PutString32(ts[0].stableId, PutString32(ts[0].name, PutTabs(ts[1..], k)))
  }

  /** Everything from the tab records on. */
  function PutTail(r: Record, format: u16): bytes
    requires RecordFits(r, format)
  {
    var k := ManifestFormat.PutParent(r.committed, PutString32(r.degradedReason, []));
    if format == LEGACY then k else PutU32(|r.tabs|, PutTabs(r.tabs, k))
  }

  /** Everything from the incarnation on. */
  function PutBody(r: Record, format: u16): bytes
    requires RecordFits(r, format)
  {
    r.incarnation + PutString32(r.cwd,
      PutU64(ToU64(r.createdAt), PutU64(ToU64(r.updatedAt), PutU64(r.lastUsedSeq,
        PutU32(|r.tabNames|, PutNames(r.tabNames, PutTail(r, format)))))))
  }

  function PutRecord(r: Record, format: u16, protocol: u16): bytes
    requires RecordFits(r, format)
  {
    CATALOGUE_MAGIC + PutU16(format,
      if format == WITH_PROTOCOL then PutU16(protocol, PutBody(r, format)) else PutBody(r, format))
  }

  function EncodeRecord(r: Record, format: u16, protocol: u16): Option<bytes> {
    if ValidRecord(r) && RecordFits(r, format) then Some(PutRecord(r, format, protocol)) else None
  }

  // ----- Parsers

  function GetNames(b: bytes, n: nat): (p: Parsed<seq<bytes>>)
    ensures p.Parsed? ==> |p.value| == n && NamesFit(p.value) && |p.rest| + 4 * n <= |b|
    decreases n
  {
    if n == 0 then Parsed([], b)
    else
      var (s, b1) :- GetString32(b);
      After([s], GetNames(b1, n - 1))
  }

  function GetTabs(b: bytes, n: nat): (p: Parsed<seq<TabRecord>>)
    ensures p.Parsed? ==> |p.value| == n && TabsFit(p.value) && |p.rest| + 8 * n <= |b|
    decreases n
  {
    if n == 0 then Parsed([], b)
    else
      var (id, b1) :- GetString32(b);
      var (name, b2) :- GetString32(b1);
      After([TabRecord(id, name)], GetTabs(b2, n - 1))
  }

  /** Tab records for a record that predates them. */
  function Rebuilt(names: seq<bytes>): (ts: seq<TabRecord>)
    ensures |ts| == |names|
    ensures forall i :: 0 <= i < |names| ==> ts[i] == TabRecord([], names[i])
  {
    if names == [] then [] else [TabRecord([], names[0])] + Rebuilt(names[1..])
  }

  function GetTabSection(b: bytes, format: u16, names: seq<bytes>): (p: Parsed<seq<TabRecord>>)
    ensures p.Parsed? && format != LEGACY ==> |p.value| < U32_SPAN && TabsFit(p.value)
    ensures p.Parsed? && format == LEGACY ==> p.value == Rebuilt(names)
  {
    if format == LEGACY then Parsed(Rebuilt(names), b)
    else
      var (n, b1) :- GetU32(b);
      GetTabs(b1, n)
  }

  /** Everything from the incarnation on, to the end of `b`. */
  function GetBody(b: bytes, name: bytes, format: u16): (r: Option<Record>)
    ensures r.Some? ==> r.value.name == name && RecordFits(r.value, format)
  {
    var p := GetFields(b, name, format);
    if p.Rejected? then None
    else
      var tail := GetTail(p.rest);
      if tail.None? then None
      else Some(p.value.(committed := tail.value.0, degradedReason := tail.value.1))
  }

  function GetFields(b: bytes, name: bytes, format: u16): (p: Parsed<Record>)
    ensures p.Parsed? ==> p.value.name == name && p.value.degradedReason == [] && RecordFits(p.value, format)
  {
    var (incarnation, b1) :- GetBytes(b, 16);
    var (cwd, b2) :- GetString32(b1);
    var (created, b3) :- GetU64(b2);
    var (updated, b4) :- GetU64(b3);
    var (lastUsed, b5) :- GetU64(b4);
    var (n, b6) :- GetU32(b5);
    var (names, b7) :- GetNames(b6, n);
    var (tabs, b8) :- GetTabSection(b7, format, names);
    Parsed(Record(name, incarnation, cwd, ToI64(created), ToI64(updated), lastUsed, names, tabs, None, []), b8)
  }

  function GetTail(b: bytes): (r: Option<(Option<Checkpoint>, bytes)>)
    ensures r.Some? ==> |r.value.1| < U32_SPAN
  {
    var committed := ManifestFormat.GetParent(b);
    if committed.Rejected? then None
    else
      var reason := GetString32(committed.rest);
      if reason.Rejected? || reason.rest != [] then None
      else Some((committed.value, reason.value))
  }

  /** The header up to the incarnation: the format, and for version 5 its unused protocol. */
  function GetFormat(b: bytes): Parsed<(u16, u16)> {
    if |b| < 4 || b[..4] != CATALOGUE_MAGIC then Rejected
    else
      var (format, b1) :- GetU16(b[4..]);
      if !Supported(format) then Rejected
      else if format == WITH_PROTOCOL then
        var (protocol, b2) :- GetU16(b1);
        Parsed((format, protocol), b2)
      else
        Parsed((format, 0), b1)
  }

  function DecodeRecord(name: bytes, value: bytes): Option<Stored> {
    if !ValidSessionName(name) then None
    else
      var format := GetFormat(value);
      if format.Rejected? then None
      else
        var r := GetBody(format.rest, name, format.value.0);
        if r.Some? && ValidRecord(r.value) then Some(Stored(r.value, format.value.0)) else None
  }

  // ----- Parsing what was printed

  lemma StringRoundTrip(s: bytes, k: bytes)
    requires |s| < U32_SPAN
    ensures GetString32(PutString32(s, k)) == Parsed(s, k)
  {
    hide GetU32, PutU32;
    U32RoundTrip(|s|, s + k);
    BytesRoundTrip(s, k);
  }

  lemma {:induction false} NamesRoundTrip(ss: seq<bytes>, k: bytes)
    requires NamesFit(ss)
    ensures GetNames(PutNames(ss, k), |ss|) == Parsed(ss, k)
  {
    hide GetString32, PutString32;
    if ss == [] {
    } else {
      StringRoundTrip(ss[0], PutNames(ss[1..], k));
      NamesRoundTrip(ss[1..], k);
      assert ss == [ss[0]] + ss[1..];
    }
  }

  lemma {:induction false} TabsRoundTrip(ts: seq<TabRecord>, k: bytes)
    requires TabsFit(ts)
    ensures GetTabs(PutTabs(ts, k), |ts|) == Parsed(ts, k)
  {
    hide GetString32, PutString32;
    if ts == [] {
    } else {
      var k1 := PutTabs(ts[1..], k);
      StringRoundTrip(ts[0].name, k1);
      StringRoundTrip(ts[0].stableId, PutString32(ts[0].name, k1));
      TabsRoundTrip(ts[1..], k);
      assert ts == [ts[0]] + ts[1..];
    }
  }

  /** What decoding makes of a record written in `format`. */
  function AsDecoded(r: Record, format: u16): Record {
    if format == LEGACY then r.(tabs := Rebuilt(r.tabNames)) else r
  }

  lemma TailRoundTrip(r: Record)
    requires |r.degradedReason| < U32_SPAN
    ensures GetTail(ManifestFormat.PutParent(r.committed, PutString32(r.degradedReason, [])))
            == Some((r.committed, r.degradedReason))
  {
    hide GetString32, PutString32, ManifestFormat.GetParent, ManifestFormat.PutParent;
    StringRoundTrip(r.degradedReason, []);
    ManifestRoundTrip.ParentRoundTrip(r.committed, PutString32(r.degradedReason, []));
  }

  lemma TabSectionRoundTrip(r: Record, format: u16)
    requires RecordFits(r, format)
    ensures GetTabSection(PutTail(r, format), format, r.tabNames)
            == Parsed(AsDecoded(r, format).tabs, ManifestFormat.PutParent(r.committed, PutString32(r.degradedReason,
                [])))
  {
    hide GetU32, PutU32, PutString32, ManifestFormat.PutParent, GetTabs, PutTabs;
    var k := ManifestFormat.PutParent(r.committed, PutString32(r.degradedReason, []));
    if format != LEGACY {
      U32RoundTrip(|r.tabs|, PutTabs(r.tabs, k));
      TabsRoundTrip(r.tabs, k);
    }
  }

  lemma FieldsRoundTrip(r: Record, format: u16)
    requires RecordFits(r, format)
    ensures GetFields(PutBody(r, format), r.name, format)
            == Parsed(AsDecoded(r, format).(committed := None, degradedReason := []),
                      ManifestFormat.PutParent(r.committed, PutString32(r.degradedReason, [])))
  {
    hide GetU32, PutU32, GetU64, PutU64, GetString32, PutString32, GetNames, PutNames, PutTail, GetTabSection;
    var k6 := PutTail(r, format);
    var k5 := PutNames(r.tabNames, k6);
    var k4 := PutU32(|r.tabNames|, k5);
    var k3 := PutU64(r.lastUsedSeq, k4);
    var k2 := PutU64(ToU64(r.updatedAt), k3);
    var k1 := PutU64(ToU64(r.createdAt), k2);
    BytesRoundTrip(r.incarnation, PutString32(r.cwd, k1));
    StringRoundTrip(r.cwd, k1);
    U64RoundTrip(ToU64(r.createdAt), k2);
    U64RoundTrip(ToU64(r.updatedAt), k3);
    U64RoundTrip(r.lastUsedSeq, k4);
    U32RoundTrip(|r.tabNames|, k5);
    NamesRoundTrip(r.tabNames, k6);
    TabSectionRoundTrip(r, format);
  }

  lemma BodyRoundTrip(r: Record, format: u16)
    requires RecordFits(r, format)
    ensures GetBody(PutBody(r, format), r.name, format) == Some(AsDecoded(r, format))
  {
    hide GetFields, PutBody, GetTail, PutString32, ManifestFormat.PutParent;
    FieldsRoundTrip(r, format);
    TailRoundTrip(r);
  }

  lemma FormatRoundTrip(r: Record, format: u16, protocol: u16)
    requires RecordFits(r, format) && Supported(format)
    ensures var p := GetFormat(PutRecord(r, format, protocol));
            p.Parsed? && p.value.0 == format && p.rest == PutBody(r, format)
  {
    hide GetU16, PutU16, PutBody;
    var k := if format == WITH_PROTOCOL then PutU16(protocol, PutBody(r, format)) else PutBody(r, format);
    var v := PutRecord(r, format, protocol);
    assert v[..4] == CATALOGUE_MAGIC && v[4..] == PutU16(format, k);
    U16RoundTrip(format, k);
    if format == WITH_PROTOCOL {
      U16RoundTrip(protocol, PutBody(r, format));
    }
  }

  /**
   A record written in any supported format is read back as itself, with tab
   records rebuilt from tab names for version 3; version 3 reads back exactly
   when every tab name is valid UTF-8, since only tab records were validated.
   */
  lemma RecordRoundTrip(r: Record, format: u16, protocol: u16)
    requires Supported(format) && EncodeRecord(r, format, protocol).Some?
    ensures DecodeRecord(r.name, EncodeRecord(r, format, protocol).value)
            == if format != LEGACY || forall i :: 0 <= i < |r.tabNames| ==> Utf8(r.tabNames[i])
               then Some(Stored(AsDecoded(r, format), format)) else None
  {
    hide GetFormat, PutRecord, GetBody, PutBody, RecordFits, ValidSessionName, ValidStableId, Utf8;
    FormatRoundTrip(r, format, protocol);
    BodyRoundTrip(r, format);
    var names := r.tabNames;
    assert forall i :: 0 <= i < |names| ==> (ValidTab(Rebuilt(names)[i]) <==> Utf8(names[i]));
  }

  /** A valid record whose format 3 encoding cannot be read: its tab name is not UTF-8. */
  lemma LegacyNameMayNotReadBack() returns (r: Record)
    ensures EncodeRecord(r, LEGACY, 0).Some?
    ensures DecodeRecord(r.name, EncodeRecord(r, LEGACY, 0).value) == None
  {
    r := Record([0x61], seq(16, i => 1), [], 0, 0, 0, [[0xFF]], [], None, []);
    assert r.incarnation[0] == 1;
    assert !Utf8(r.tabNames[0]);
    RecordRoundTrip(r, LEGACY, 0);
  }

  // ----- Printing what was parsed

  lemma StringCanonical(b: bytes)
    requires GetString32(b).Parsed?
    ensures PutString32(GetString32(b).value, GetString32(b).rest) == b
  {
    hide GetU32, PutU32;
    U32Canonical(b);
    var p := GetU32(b);
    assert p.rest == GetString32(b).value + GetString32(b).rest;
  }

  lemma {:induction false} NamesCanonical(b: bytes, n: nat)
    requires GetNames(b, n).Parsed?
    ensures PutNames(GetNames(b, n).value, GetNames(b, n).rest) == b
    decreases n
  {
    hide GetString32, PutString32;
    if n == 0 {
    } else {
      var p := GetString32(b);
      StringCanonical(b);
      NamesCanonical(p.rest, n - 1);
      assert GetNames(b, n).value[1..] == GetNames(p.rest, n - 1).value;
    }
  }

  lemma {:induction false} TabsCanonical(b: bytes, n: nat)
    requires GetTabs(b, n).Parsed?
    ensures PutTabs(GetTabs(b, n).value, GetTabs(b, n).rest) == b
    decreases n
  {
    hide GetString32, PutString32;
    if n == 0 {
    } else {
      var id := GetString32(b);
      var name := GetString32(id.rest);
      StringCanonical(b);
      StringCanonical(id.rest);
      TabsCanonical(name.rest, n - 1);
      assert GetTabs(b, n).value[1..] == GetTabs(name.rest, n - 1).value;
    }
  }

  lemma TailCanonical(b: bytes)
    requires GetTail(b).Some?
    ensures ManifestFormat.PutParent(GetTail(b).value.0, PutString32(GetTail(b).value.1, [])) == b
  {
    hide GetString32, PutString32, ManifestFormat.GetParent, ManifestFormat.PutParent;
    ManifestRoundTrip.ParentCanonical(b);
    StringCanonical(ManifestFormat.GetParent(b).rest);
  }

  lemma BodyCanonical(b: bytes, name: bytes, format: u16)
    requires GetBody(b, name, format).Some?
    ensures PutBody(GetBody(b, name, format).value, format) == b
    ensures format == LEGACY ==> GetBody(b, name, format).value.tabs == Rebuilt(GetBody(b, name, format).value.tabNames)
  {
    hide GetU32, PutU32, GetU64, PutU64, GetString32, PutString32, GetNames;
    hide PutNames, GetTabs, PutTabs, GetTail, ManifestFormat.PutParent;
    var b1 := GetBytes(b, 16).rest;
    assert b == b[..16] + b1;
    StringCanonical(b1);
    var b2 := GetString32(b1).rest;
    U64Canonical(b2);
    var b3 := GetU64(b2).rest;
    U64Canonical(b3);
    var b4 := GetU64(b3).rest;
    U64Canonical(b4);
    var b5 := GetU64(b4).rest;
    U32Canonical(b5);
    var n := GetU32(b5);
    NamesCanonical(n.rest, n.value);
    var b7 := GetNames(n.rest, n.value).rest;
    var b8 := b7;
    if format != LEGACY {
      U32Canonical(b7);
      TabsCanonical(GetU32(b7).rest, GetU32(b7).value);
      b8 := GetTabs(GetU32(b7).rest, GetU32(b7).value).rest;
    }
    TailCanonical(b8);
  }

  /**
   A stored value is the only encoding of its record in its format; only the
   ignored protocol number of version 5 is free.
   */
  lemma RecordCanonical(name: bytes, value: bytes)
    requires DecodeRecord(name, value).Some?
    ensures var s := DecodeRecord(name, value).value;
            && s.record.name == name && Supported(s.format)
            && EncodeRecord(s.record, s.format, GetFormat(value).value.1) == Some(value)
            && (s.format != WITH_PROTOCOL ==> forall p :: EncodeRecord(s.record, s.format, p) == Some(value))
            && (s.format == LEGACY ==> s.record.tabs == Rebuilt(s.record.tabNames))
  {
    hide GetU16, PutU16, GetBody, PutBody, RecordFits, ValidRecord;
    var format := GetFormat(value);
    BodyCanonical(format.rest, name, format.value.0);
    U16Canonical(value[4..]);
    if format.value.0 == WITH_PROTOCOL {
      U16Canonical(GetU16(value[4..]).rest);
    }
    assert value == value[..4] + value[4..];
  }
}
