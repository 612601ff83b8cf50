/** The catalogue record reader and writer, as the store's values are built and parsed. */
module RecordCodec {
  import opened Wire
  import opened Catalogue
  import opened KvCodec
  import opened RecordFormat
  import ManifestFormat

  // ----- Writing

  method AppendCheckedString(buf: bytes, value: bytes, ghost k: bytes) returns (ok: bool, out: bytes)
    ensures ok <==> |value| < U32_SPAN
    ensures ok ==> out + k == buf + PutString32(value, k)
  {
    if |value| > 0xFFFF_FFFF {
      return false, buf;
    }
    AppendU32(buf, |value|, value + k);
    out := buf + PutU32(|value|, []);
    assert out + (value + k) == out + value + k;
    out := out + value;
    return true, out;
  }

  lemma AppendU16(buf: bytes, v: u16, k: bytes)
    ensures buf + PutU16(v, []) + k == buf + PutU16(v, k)
  {
    hide PutU16;
    U16Append(v, [], k);
    assert [] + k == k;
    assert buf + PutU16(v, []) + k == buf + (PutU16(v, []) + k);
  }

  lemma AppendU32(buf: bytes, v: u32, k: bytes)
    ensures buf + PutU32(v, []) + k == buf + PutU32(v, k)
  {
    hide PutU32;
    U32Append(v, [], k);
    assert [] + k == k;
    assert buf + PutU32(v, []) + k == buf + (PutU32(v, []) + k);
  }

  lemma AppendU64(buf: bytes, v: u64, k: bytes)
    ensures buf + PutU64(v, []) + k == buf + PutU64(v, k)
  {
    hide PutU64;
    U64Append(v, [], k);
    assert [] + k == k;
    assert buf + PutU64(v, []) + k == buf + (PutU64(v, []) + k);
  }

  method AppendNames(buf: bytes, names: seq<bytes>, ghost k: bytes) returns (ok: bool, out: bytes)
    ensures ok <==> NamesFit(names)
    ensures ok ==> out + k == buf + PutNames(names, k)
  {
    hide PutString32;
    out := buf;
    ghost var fit := NamesFit(names);
    for i := 0 to |names|
      invariant NamesFit(names[..i])
      invariant fit ==> out + PutNames(names[i..], k) == buf + PutNames(names, k)
    {
      assert names[i..][1..] == names[i + 1..];
      ok, out := AppendCheckedString(out, names[i], if fit then PutNames(names[i + 1..], k) else k);
      if !ok {
        return;
      }
    }
    assert names[..|names|] == names;
    return true, out;
  }

  method AppendTabs(buf: bytes, tabs: seq<TabRecord>, ghost k: bytes) returns (ok: bool, out: bytes)
    ensures ok <==> TabsFit(tabs)
    ensures ok ==> out + k == buf + PutTabs(tabs, k)
  {
    hide PutString32;
    out := buf;
    ghost var fit := TabsFit(tabs);
    for i := 0 to |tabs|
      invariant TabsFit(tabs[..i])
      invariant fit ==> out + PutTabs(tabs[i..], k) == buf + PutTabs(tabs, k)
    {
      assert tabs[i..][1..] == tabs[i + 1..];
      ghost var k1 := if fit then PutTabs(tabs[i + 1..], k) else k;
      ok, out := AppendCheckedString(out, tabs[i].stableId, if fit then PutString32(tabs[i].name, k1) else k);
      if !ok {
        return;
      }
      ok, out := AppendCheckedString(out, tabs[i].name, k1);
      if !ok {
        return;
      }
    }
    assert tabs[..|tabs|] == tabs;
    return true, out;
  }

  method AppendRef(buf: bytes, ref: Option<Checkpoint>, ghost k: bytes) returns (out: bytes)
    ensures out + k == buf + ManifestFormat.PutParent(ref, k)
  {
    hide PutU64;
    if ref.None? {
      return buf + [0];
    }
    out := buf + [1];
    AppendU64(out, ref.value.generation, ref.value.digest + k);
    out := out + PutU64(ref.value.generation, []);
    assert out + (ref.value.digest + k) == out + ref.value.digest + k;
    out := out + ref.value.digest;
  }

  method AppendTail(buf: bytes, r: Record, format: u16) returns (ok: bool, out: bytes)
    ensures ok <==> |r.degradedReason| < U32_SPAN && (format != LEGACY ==> |r.tabs| < U32_SPAN && TabsFit(r.tabs))
    ensures ok && RecordFits(r, format) ==> out == buf + PutTail(r, format)
  {
    hide PutString32, PutU32, PutTabs, ManifestFormat.PutParent, NamesFit;
    ghost var fit := |r.degradedReason| < U32_SPAN;
    ghost var k := if fit then ManifestFormat.PutParent(r.committed, PutString32(r.degradedReason, [])) else [];
    out := buf;
    if format != LEGACY {
      if |r.tabs| > 0xFFFF_FFFF {
        return false, buf;
      }
      ghost var tabsFit := TabsFit(r.tabs);
      ghost var k1 := if tabsFit then PutTabs(r.tabs, k) else [];
      AppendU32(out, |r.tabs|, k1);
      out := out + PutU32(|r.tabs|, []);
      ok, out := AppendTabs(out, r.tabs, k);
      if !ok {
        return;
      }
    }
    out := AppendRef(out, r.committed, if fit then PutString32(r.degradedReason, []) else []);
    ok, out := AppendCheckedString(out, r.degradedReason, []);
    assert out + [] == out;
  }

  method AppendBody(buf: bytes, r: Record, format: u16) returns (ok: bool, out: bytes)
    ensures ok <==> RecordFits(r, format)
    ensures ok ==> out == buf + PutBody(r, format)
  {
    hide PutString32, PutU64, PutU32, PutNames, PutTail, TabsFit, NamesFit;
    ghost var fit := RecordFits(r, format);
    ghost var k6 := if fit then PutTail(r, format) else [];
    ghost var k5 := if fit then PutNames(r.tabNames, k6) else [];
    ghost var k4 := if fit then PutU32(|r.tabNames|, k5) else [];
    ghost var k3 := PutU64(r.lastUsedSeq, k4);
    ghost var k2 := PutU64(ToU64(r.updatedAt), k3);
    ghost var k1 := PutU64(ToU64(r.createdAt), k2);
    out := buf + r.incarnation;
    ghost var k0 := if fit then PutString32(r.cwd, k1) else [];
    assert out + k0 == buf + (r.incarnation + k0);
    ok, out := AppendCheckedString(out, r.cwd, k1);
    if !ok {
      return;
    }
    AppendU64(out, ToU64(r.createdAt), k2);
    out := out + PutU64(ToU64(r.createdAt), []);
    AppendU64(out, ToU64(r.updatedAt), k3);
    out := out + PutU64(ToU64(r.updatedAt), []);
    AppendU64(out, r.lastUsedSeq, k4);
    out := out + PutU64(r.lastUsedSeq, []);
    if |r.tabNames| > 0xFFFF_FFFF {
      return false, buf;
    }
    AppendU32(out, |r.tabNames|, k5);
    out := out + PutU32(|r.tabNames|, []);
    ok, out := AppendNames(out, r.tabNames, k6);
    if !ok {
      return;
    }
    ok, out := AppendTail(out, r, format);
  }

  method EncodeForFormat(r: Record, format: u16, protocol: u16) returns (res: Option<bytes>)
    ensures res == EncodeRecord(r, format, protocol)
  {
    hide ValidRecord, RecordFits, PutBody, PutU16;
    var valid := Validate(r);
    if !valid {
      return None;
    }
    ghost var body := if RecordFits(r, format) then PutBody(r, format) else [];
    ghost var k := if format == WITH_PROTOCOL then PutU16(protocol, body) else body;
    AppendU16(CATALOGUE_MAGIC, format, k);
    var buf := CATALOGUE_MAGIC + PutU16(format, []);
    if format == WITH_PROTOCOL {
      AppendU16(buf, protocol, body);
      buf := buf + PutU16(protocol, []);
    }
    var ok, out := AppendBody(buf, r, format);
    if !ok {
      return None;
    }
    return Some(out);
  }

  // ----- Reading

  /** A cursor over a value; `Rest` is what it has not consumed. */
  class ValueReader {
    const data: bytes
    var off: nat

    ghost predicate Valid()
      reads this
    {
      off <= |data|
    }

    function Rest(): bytes
      requires Valid()
      reads this
    {
      data[off..]
    }

    constructor (value: bytes)
      ensures Valid() && Rest() == value
    {
      data, off := value, 0;
    }

    method Take(n: nat) returns (res: Option<bytes>)
      requires Valid()
      modifies this
      ensures Valid() && Agrees(GetBytes(old(Rest()), n), res, Rest())
    {
      if n > |data| - off {
        return None;
      }
      res := Some(data[off..off + n]);
      off := off + n;
      assert data[off - n..][..n] == data[off - n..off] && data[off - n..][n..] == data[off..];
    }

    method Byte() returns (res: Option<byte>)
      requires Valid()
      modifies this
      ensures Valid() && Agrees(GetByte(old(Rest())), res, Rest())
    {
      var v := Take(1);
      return if v.None? then None else Some(v.value[0]);
    }

    method U16() returns (res: Option<u16>)
      requires Valid()
      modifies this
      ensures Valid() && Agrees(GetU16(old(Rest())), res, Rest())
    {
      ghost var before := Rest();
      var v := Take(2);
      if v.None? {
        return None;
      }
      assert v.value[0] == before[0] && v.value[1] == before[1];
      return Some(GetU16(v.value).value);
    }

    method U32() returns (res: Option<u32>)
      requires Valid()
      modifies this
      ensures Valid() && Agrees(GetU32(old(Rest())), res, Rest())
    {
      ghost var before := Rest();
      U32Length(before);
      var v := Take(4);
      if v.None? {
        return None;
      }
      U32Prefix(before);
      U32Length(v.value);
      return Some(GetU32(v.value).value);
    }

    method U64() returns (res: Option<u64>)
      requires Valid()
      modifies this
      ensures Valid() && Agrees(GetU64(old(Rest())), res, Rest())
    {
      ghost var before := Rest();
      U64Length(before);
      var v := Take(8);
      if v.None? {
        return None;
      }
      U64Prefix(before);
      U64Length(v.value);
      return Some(GetU64(v.value).value);
    }

    method Str() returns (res: Option<bytes>)
      requires Valid()
      modifies this
      ensures Valid() && Agrees(GetString32(old(Rest())), res, Rest())
    {
      hide GetU32;
      var size := U32();
      if size.None? || size.value > |data| - off {
        return None;
      }
      res := Take(size.value);
    }

    method Ref() returns (res: Option<Option<Checkpoint>>)
      requires Valid()
      modifies this
      ensures Valid() && Agrees(ManifestFormat.GetParent(old(Rest())), res, Rest())
    {
      hide GetU64, GetByte;
      var present := Byte();
      if present.None? {
        return None;
      }
      if present.value == 0 {
        return Some(None);
      }
      if present.value != 1 {
        return None;
      }
      var generation := U64();
      if generation.None? {
        return None;
      }
      var digest := Take(32);
      if digest.None? {
        return None;
      }
      return Some(Some(ManifestFormat.Checkpoint(generation.value, digest.value)));
    }
  }

  ghost predicate Agrees<T>(p: Parsed<T>, got: Option<T>, rest: bytes) {
    match p
    case Parsed(v, r) => got == Some(v) && rest == r
    case Rejected => got == None
  }

  lemma U32Prefix(b: bytes)
    requires |b| >= 4
    ensures GetU32(b[..4]).Parsed? && GetU32(b).Parsed? && GetU32(b[..4]).value == GetU32(b).value
  {
  }

  lemma U64Prefix(b: bytes)
    requires |b| >= 8
    ensures GetU64(b[..8]).Parsed? && GetU64(b).Parsed? && GetU64(b[..8]).value == GetU64(b).value
  {
    hide GetU32;
    U64Length(b);
    U64Length(b[..8]);
    U32Length(b);
    U32Length(b[..8]);
    U32Prefix(b);
    U32Prefix(b[..8]);
    assert b[..8][..4] == b[..4];
    U32Prefix(b[4..]);
    U32Prefix(b[..8][4..]);
    assert b[..8][4..][..4] == b[4..][..4];
  }

  method ReadNames(reader: ValueReader, n: nat) returns (res: Option<seq<bytes>>)
    requires reader.Valid()
    modifies reader
    ensures reader.Valid() && Agrees(GetNames(old(reader.Rest()), n), res, reader.Rest())
  {
    hide GetString32;
    ghost var start := reader.Rest();
    var out: seq<bytes> := [];
    AfterNothing(GetNames(start, n));
    for i := 0 to n
      invariant reader.Valid() && |out| == i
      invariant GetNames(start, n) == After(out, GetNames(reader.Rest(), n - i))
    {
      var s := reader.Str();
      if s.None? {
        return None;
      }
      AfterOneMore(out, s.value, GetNames(reader.Rest(), n - i - 1));
      out := out + [s.value];
    }
    AfterAll(out, reader.Rest());
    return Some(out);
  }

  method ReadTabs(reader: ValueReader, n: nat) returns (res: Option<seq<TabRecord>>)
    requires reader.Valid()
    modifies reader
    ensures reader.Valid() && Agrees(GetTabs(old(reader.Rest()), n), res, reader.Rest())
  {
    hide GetString32;
    ghost var start := reader.Rest();
    var out: seq<TabRecord> := [];
    AfterNothing(GetTabs(start, n));
    for i := 0 to n
      invariant reader.Valid() && |out| == i
      invariant GetTabs(start, n) == After(out, GetTabs(reader.Rest(), n - i))
    {
      var id := reader.Str();
      if id.None? {
        return None;
      }
      var name := reader.Str();
      if name.None? {
        return None;
      }
      AfterOneMore(out, TabRecord(id.value, name.value), GetTabs(reader.Rest(), n - i - 1));
      out := out + [TabRecord(id.value, name.value)];
    }
    AfterAll(out, reader.Rest());
    return Some(out);
  }

  method RebuildTabs(names: seq<bytes>) returns (tabs: seq<TabRecord>)
    ensures tabs == Rebuilt(names)
  {
    tabs := [];
    for i := 0 to |names|
      invariant |tabs| == i && forall j :: 0 <= j < i ==> tabs[j] == TabRecord([], names[j])
    {
      tabs := tabs + [TabRecord([], names[i])];
    }
  }

  method ReadFormat(reader: ValueReader) returns (res: Option<u16>)
    requires reader.Valid()
    modifies reader
    ensures reader.Valid()
    ensures res.Some? <==> GetFormat(old(reader.Rest())).Parsed?
    ensures res.Some? ==>
              && res.value == GetFormat(old(reader.Rest())).value.0
              && reader.Rest() == GetFormat(old(reader.Rest())).rest
  {
    hide GetU16;
    var magic := reader.Take(4);
    if magic.None? || magic.value != CATALOGUE_MAGIC {
      return None;
    }
    var format := reader.U16();
    if format.None? {
      return None;
    }
    if !Supported(format.value) {
      return None;
    }
    if format.value == WITH_PROTOCOL {
      var protocol := reader.U16();
      if protocol.None? {
        return None;
      }
    }
    return format;
  }

  method ReadFields(reader: ValueReader, name: bytes, format: u16) returns (res: Option<Record>)
    requires reader.Valid()
    modifies reader
    ensures reader.Valid() && Agrees(GetFields(old(reader.Rest()), name, format), res, reader.Rest())
  {
    hide GetU32, GetU64, GetString32, GetNames, GetTabs;
    var incarnation := reader.Take(16);
    if incarnation.None? {
      return None;
    }
    var cwd := reader.Str();
    if cwd.None? {
      return None;
    }
    var created := reader.U64();
    if created.None? {
      return None;
    }
    var updated := reader.U64();
    if updated.None? {
      return None;
    }
    var lastUsed := reader.U64();
    if lastUsed.None? {
      return None;
    }
    var count := reader.U32();
    if count.None? || count.value > |reader.Rest()| / 4 {
      return None;
    }
    var names := ReadNames(reader, count.value);
    if names.None? {
      return None;
    }
    var tabs: seq<TabRecord>;
    if format == LEGACY {
      tabs := RebuildTabs(names.value);
    } else {
      var tabCount := reader.U32();
      if tabCount.None? || tabCount.value > |reader.Rest()| / 8 {
        return None;
      }
      var read := ReadTabs(reader, tabCount.value);
      if read.None? {
        return None;
      }
      tabs := read.value;
    }
    return Some(Record(name, incarnation.value, cwd.value, ToI64(created.value), ToI64(updated.value),
                       lastUsed.value, names.value, tabs, None, []));
  }

  method Decode(name: bytes, value: bytes) returns (res: Option<Stored>)
    ensures res == DecodeRecord(name, value)
  {
    hide ValidSessionName, ValidRecord, GetFormat, GetFields, GetString32, ManifestFormat.GetParent;
    if !ValidSessionName(name) {
      return None;
    }
    var reader := new ValueReader(value);
    var format := ReadFormat(reader);
    if format.None? {
      return None;
    }
    var fields := ReadFields(reader, name, format.value);
    if fields.None? {
      return None;
    }
    var committed := reader.Ref();
    if committed.None? {
      return None;
    }
    var reason := reader.Str();
    if reason.None? || |reader.Rest()| != 0 {
      return None;
    }
    var record := fields.value.(committed := committed.value, degradedReason := reason.value);
    var valid := Validate(record);
    if !valid {
      return None;
    }
    return Some(Stored(record, format.value));
  }
}
