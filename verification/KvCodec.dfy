/**
 The key/value file: magic, version, entry count, length-prefixed entries in key
 order, and one trailing checksum.
 */
module KvCodec {
  import opened Wire
  import opened Ordering
  import opened Envelope

  type Table = map<bytes, bytes>

  const FILE_MAGIC: bytes := [0x56, 0x45, 0x56, 0x4B] // "VEVK"
  const FILE_VERSION: u16 := 3
  const U32_SPAN: nat := 0x1_0000_0000

  /** Lengths are written in 32 bits; longer ones lose their high part. */
  function PutLength(n: nat, k: bytes): bytes {
    PutU32(n % U32_SPAN, k)
  }

  function PutEntries(keys: seq<bytes>, m: Table, k: bytes): bytes
    requires forall i :: 0 <= i < |keys| ==> keys[i] in m
  {
    if keys == [] then k
    else
      var key := keys[0];
      PutLength(|key|, key + PutLength(|m[key]|, m[key] + PutEntries(keys[1..], m, k)))
  }

  ghost function FilePayload(m: Table): bytes {
    SortedInTable(m);
    var keys := SortedSeq(m.Keys);
    FILE_MAGIC + PutU16(FILE_VERSION, PutLength(|m|, PutEntries(keys, m, [])))
  }

  ghost function EncodeFile(crc: Checksum, m: Table): bytes {
    FilePayload(m) + PutU32(crc(FilePayload(m)), [])
  }

  lemma SortedInTable(m: Table)
    ensures |SortedSeq(m.Keys)| == |m|
    ensures forall i :: 0 <= i < |SortedSeq(m.Keys)| ==> SortedSeq(m.Keys)[i] in m
  {
    var keys := SortedSeq(m.Keys);
    assert |m.Keys| == |m|;
    assert forall i :: 0 <= i < |keys| ==> keys[i] in Elements(keys);
  }

  function GetString32(b: bytes): (p: Parsed<bytes>)
    ensures p.Parsed? ==> |p.value| < U32_SPAN && |p.rest| + 4 + |p.value| == |b|
  {
    U32Length(b);
    var (n, b1) :- GetU32(b);
    GetBytes(b1, n)
  }

  /** Entries collected into `acc`; a repeated key is an error. */
  function GetEntries(b: bytes, n: nat, acc: Table): Option<Table>
    decreases n
  {
    if n == 0 then (if b == [] then Some(acc) else None)
    else
      var key := GetString32(b);
      if key.Rejected? then None
      else
        var value := GetString32(key.rest);
        if value.Rejected? || key.value in acc then None
        else GetEntries(value.rest, n - 1, acc[key.value := value.value])
  }

  function DecodeFile(crc: Checksum, raw: bytes): Option<Table> {
    if |raw| < 14 then None
    else
      var payload := raw[..|raw| - 4];
      U32Length(raw[|raw| - 4..]);
      U32Length(payload[6..]);
      if GetU32(raw[|raw| - 4..]).value != crc(payload) then None
      else if payload[..4] != FILE_MAGIC || GetU16(payload[4..]).value != FILE_VERSION then None
      else GetEntries(payload[10..], GetU32(payload[6..]).value, map[])
  }

  /** Every count and length of the table fits in 32 bits. */
  ghost predicate FileFits(m: Table) {
    && |m| < U32_SPAN
    && forall key :: key in m ==> |key| < U32_SPAN && |m[key]| < U32_SPAN
  }

  // ----- Decoding what was encoded

  lemma String32RoundTrip(s: bytes, k: bytes)
    requires |s| < U32_SPAN
    ensures GetString32(PutLength(|s|, s + k)) == Parsed(s, k)
  {
    hide GetU32, PutU32;
    assert |s| % U32_SPAN == |s|;
    U32RoundTrip(|s|, s + k);
    BytesRoundTrip(s, k);
  }

  /** `acc` extended by the entries of `m` for `keys`, in order. */
  function Added(acc: Table, keys: seq<bytes>, m: Table): Table
    requires forall i :: 0 <= i < |keys| ==> keys[i] in m
    decreases keys
  {
    if keys == [] then acc
    else Added(acc[keys[0] := m[keys[0]]], keys[1..], m)
  }

  /** No key of `keys` repeats or is already in `acc`. */
  predicate AllNew(acc: set<bytes>, keys: seq<bytes>)
    decreases keys
  {
    keys == [] || (keys[0] !in acc && AllNew(acc + {keys[0]}, keys[1..]))
  }

  lemma {:induction false} EntriesRoundTrip(keys: seq<bytes>, m: Table, acc: Table)
    requires forall i :: 0 <= i < |keys| ==> keys[i] in m && |keys[i]| < U32_SPAN && |m[keys[i]]| < U32_SPAN
    requires AllNew(acc.Keys, keys)
    ensures GetEntries(PutEntries(keys, m, []), |keys|, acc) == Some(Added(acc, keys, m))
    decreases |keys|
  {
    hide GetString32, PutLength;
    if keys == [] {
    } else {
      var key := keys[0];
      var value := m[key];
      var k1 := PutEntries(keys[1..], m, []);
      String32RoundTrip(value, k1);
      String32RoundTrip(key, PutLength(|value|, value + k1));
      assert acc[key := value].Keys == acc.Keys + {key};
      EntriesRoundTrip(keys[1..], m, acc[key := value]);
    }
  }

  lemma {:induction false} SortedAreNew(acc: set<bytes>, keys: seq<bytes>)
    requires Sorted(keys) && acc !! Elements(keys)
    ensures AllNew(acc, keys)
    decreases |keys|
  {
    hide Less;
    if keys == [] {
    } else {
      TailElements(keys);
      assert keys[0] in Elements(keys);
      SortedAreNew(acc + {keys[0]}, keys[1..]);
    }
  }

  lemma {:induction false} AddedKeys(acc: Table, keys: seq<bytes>, m: Table)
    requires forall i :: 0 <= i < |keys| ==> keys[i] in m
    requires forall key :: key in acc ==> key in m && acc[key] == m[key]
    ensures Added(acc, keys, m).Keys == acc.Keys + Elements(keys)
    ensures forall key :: key in Added(acc, keys, m) ==> key in m && Added(acc, keys, m)[key] == m[key]
    decreases |keys|
  {
    if keys == [] {
      NoElements(keys);
    } else {
      AddedKeys(acc[keys[0] := m[keys[0]]], keys[1..], m);
      ConsElements(keys);
    }
  }

  lemma ConsElements(keys: seq<bytes>)
    requires keys != []
    ensures Elements(keys) == {keys[0]} + Elements(keys[1..])
  {
    forall e | e in Elements(keys) ensures e in {keys[0]} + Elements(keys[1..]) {
      var i :| 0 <= i < |keys| && keys[i] == e;
      assert i > 0 ==> keys[1..][i - 1] == e;
    }
    forall e | e in Elements(keys[1..]) ensures e in Elements(keys) {
      var i :| 0 <= i < |keys[1..]| && keys[1..][i] == e;
      assert keys[i + 1] == e;
    }
  }

  lemma AddedAll(keys: seq<bytes>, m: Table)
    requires Elements(keys) == m.Keys
    requires forall i :: 0 <= i < |keys| ==> keys[i] in m
    ensures Added(map[], keys, m) == m
  {
    hide Added;
    AddedKeys(map[], keys, m);
    var r := Added(map[], keys, m);
    assert r.Keys == m.Keys;
  }

  lemma AllEntriesRoundTrip(keys: seq<bytes>, m: Table)
    requires FileFits(m) && Sorted(keys) && Elements(keys) == m.Keys
    requires forall i :: 0 <= i < |keys| ==> keys[i] in m
    ensures GetEntries(PutEntries(keys, m, []), |keys|, map[]) == Some(m)
  {
    hide GetEntries, PutEntries, Less, Added, AllNew, Elements;
    SortedAreNew({}, keys);
    EntriesRoundTrip(keys, m, map[]);
    AddedAll(keys, m);
  }

  lemma DecodeOfEncoded(crc: Checksum, m: Table)
    requires FileFits(m)
    ensures DecodeFile(crc, EncodeFile(crc, m)) == Some(m)
  {
    hide GetEntries, PutEntries, GetU32, PutU32, GetU16, PutU16, SortedSeq, Sorted, Elements;
    SortedInTable(m);
    var entries := PutEntries(SortedSeq(m.Keys), m, []);
    AllEntriesRoundTrip(SortedSeq(m.Keys), m);
    hide FileFits;
    var counted := PutLength(|m|, entries);
    var payload := FilePayload(m);
    U32Tail(|m| % U32_SPAN, entries);
    U16Tail(FILE_VERSION, counted);
    U16RoundTrip(FILE_VERSION, counted);
    U32RoundTrip(|m| % U32_SPAN, entries);
    assert payload[..4] == FILE_MAGIC;
    assert payload[4..] == PutU16(FILE_VERSION, counted);
    assert payload[6..] == payload[4..][2..] == counted;
    assert payload[10..] == counted[4..] == entries;
    TrailerSplit(payload, crc(payload));
  }

  lemma TrailerSplit(payload: bytes, sum: u32)
    ensures var raw := payload + PutU32(sum, []);
            && |raw| == |payload| + 4
            && raw[..|raw| - 4] == payload
            && GetU32(raw[|raw| - 4..]) == Parsed(sum, [])
  {
    hide GetU32, PutU32;
    U32Tail(sum, []);
    U32RoundTrip(sum, []);
    var raw := payload + PutU32(sum, []);
    assert raw[|raw| - 4..] == PutU32(sum, []);
  }

  lemma {:induction false} EntriesFit(b: bytes, n: nat, acc: Table)
    requires |acc| + n < U32_SPAN && FileFits(acc)
    requires GetEntries(b, n, acc).Some?
    ensures FileFits(GetEntries(b, n, acc).value)
    decreases n
  {
    hide GetString32;
    if n == 0 {
    } else {
      var key := GetString32(b);
      var value := GetString32(key.rest);
      EntriesFit(value.rest, n - 1, acc[key.value := value.value]);
    }
  }

  /** The file is read back as the table that was written exactly when lengths fit. */
  lemma FileRoundTrip(crc: Checksum, m: Table)
    ensures DecodeFile(crc, EncodeFile(crc, m)) == Some(m) <==> FileFits(m)
  {
    hide EncodeFile, GetEntries;
    if FileFits(m) {
      DecodeOfEncoded(crc, m);
    }
    var raw := EncodeFile(crc, m);
    if DecodeFile(crc, raw).Some? {
      EntriesFit(raw[..|raw| - 4][10..], GetU32(raw[..|raw| - 4][6..]).value, map[]);
    }
  }

  /** A key of 2^32 bytes is written with length zero and cannot be read back. */
  lemma LongKeyDoesNotReadBack(crc: Checksum)
    ensures var m: Table := map[seq(U32_SPAN, i => 0) := []];
            DecodeFile(crc, EncodeFile(crc, m)) != Some(m)
  {
    hide DecodeFile, EncodeFile;
    var key: bytes := seq(U32_SPAN, i => 0);
    var m: Table := map[key := []];
    assert key in m && |key| == U32_SPAN;
    FileRoundTrip(crc, m);
  }

  // ----- What an accepted file looks like

  lemma String32Canonical(b: bytes)
    requires GetString32(b).Parsed?
    ensures var p := GetString32(b); PutLength(|p.value|, p.value + p.rest) == b
  {
    hide GetU32, PutU32;
    U32Canonical(b);
    var p := GetU32(b);
    assert p.rest == GetString32(b).value + GetString32(b).rest;
  }

  lemma {:induction false} EntriesCanonical(b: bytes, n: nat, acc: Table) returns (keys: seq<bytes>)
    requires GetEntries(b, n, acc).Some?
    ensures var m := GetEntries(b, n, acc).value;
            && |keys| == n && AllNew(acc.Keys, keys) && m.Keys == acc.Keys + Elements(keys)
            && (forall key :: key in acc ==> key in m && m[key] == acc[key])
            && (forall i :: 0 <= i < |keys| ==> keys[i] in m)
            && PutEntries(keys, m, []) == b
    decreases n
  {
    hide GetString32, PutLength;
    if n == 0 {
      keys := [];
    } else {
      var key := GetString32(b);
      var value := GetString32(key.rest);
      var acc1 := acc[key.value := value.value];
      var more := EntriesCanonical(value.rest, n - 1, acc1);
      keys := [key.value] + more;
      ConsElements(keys);
      assert acc1.Keys == acc.Keys + {key.value};
      assert keys[1..] == more;
      String32Canonical(key.rest);
      String32Canonical(b);
      assert key.value in acc1;
    }
  }

  lemma {:induction false} NewKeysCount(acc: set<bytes>, keys: seq<bytes>)
    requires AllNew(acc, keys)
    ensures |acc + Elements(keys)| == |acc| + |keys|
    decreases |keys|
  {
    if keys == [] {
      assert acc + Elements(keys) == acc;
    } else {
      NewKeysCount(acc + {keys[0]}, keys[1..]);
      ConsElements(keys);
      assert acc + Elements(keys) == (acc + {keys[0]}) + Elements(keys[1..]);
    }
  }

  /** The last four bytes are the checksum of all bytes before them, most significant first. */
  ghost predicate TrailerMatches(crc: Checksum, raw: bytes) {
    var n := |raw| - 4;
    n >= 0 && crc(raw[..n]) == BigEndian4(raw[n], raw[n + 1], raw[n + 2], raw[n + 3])
  }

  /** `raw` is the table's file with its keys in the given order. */
  ghost predicate WrittenAs(crc: Checksum, raw: bytes, m: Table, keys: seq<bytes>)
    requires forall i :: 0 <= i < |keys| ==> keys[i] in m
  {
    var payload := [0x56, 0x45, 0x56, 0x4B] + ([0, 3] + PutLength(|m|, PutEntries(keys, m, [])));
    raw == payload + PutU32(crc(payload), [])
  }

  lemma AcceptedTrailer(crc: Checksum, raw: bytes)
    requires DecodeFile(crc, raw).Some?
    ensures TrailerMatches(crc, raw)
    ensures raw == raw[..|raw| - 4] + PutU32(crc(raw[..|raw| - 4]), [])
  {
    hide GetU32, PutU32, GetEntries;
    var n := |raw| - 4;
    U32Bytes(raw[n..]);
    U32Canonical(raw[n..]);
    assert raw[n..][4..] == [];
    assert raw == raw[..n] + raw[n..];
  }

  lemma AcceptedPrefix(crc: Checksum, raw: bytes)
    requires DecodeFile(crc, raw).Some?
    ensures var payload := raw[..|raw| - 4];
            && |payload| >= 10
            && payload == [0x56, 0x45, 0x56, 0x4B] + ([0, 3] + PutU32(GetU32(payload[6..]).value, payload[10..]))
  {
    hide GetU32, PutU32, GetEntries;
    var payload := raw[..|raw| - 4];
    U16Bytes(payload[4..]);
    assert payload[4] == 0 && payload[5] == 3;
    U32Bytes(payload[6..]);
    U32Canonical(payload[6..]);
    assert payload[6..][4..] == payload[10..];
    assert payload == payload[..4] + (payload[4..6] + payload[6..]);
    assert payload[4..6] == [0, 3];
  }

  /**
   Every accepted file carries the checksum of its contents and is the file of
   its table with the keys, each once, in some order; in sorted order it is the
   very file the table would be written as.
   */
  lemma AcceptedFileIsWritten(crc: Checksum, raw: bytes) returns (keys: seq<bytes>)
    requires DecodeFile(crc, raw).Some?
    ensures var m := DecodeFile(crc, raw).value;
            && TrailerMatches(crc, raw)
            && Elements(keys) == m.Keys && |keys| == |m|
            && (forall i :: 0 <= i < |keys| ==> keys[i] in m)
            && WrittenAs(crc, raw, m, keys)
            && (Sorted(keys) ==> raw == EncodeFile(crc, m))
  {
    hide GetU32, PutU32, GetEntries, PutEntries, SortedSeq, Sorted, Elements, PutLength;
    var payload := raw[..|raw| - 4];
    var m := DecodeFile(crc, raw).value;
    AcceptedTrailer(crc, raw);
    AcceptedPrefix(crc, raw);
    keys := AcceptedKeys(crc, raw);
    SameLength(|m|, payload[10..]);
    if Sorted(keys) {
      SortedFile(crc, m, keys);
    }
  }

  lemma SameLength(n: nat, k: bytes)
    requires n < U32_SPAN
    ensures PutLength(n, k) == PutU32(n, k)
  {
  }

  /** The entries of an accepted file: every key once, and the count says how many. */
  lemma AcceptedKeys(crc: Checksum, raw: bytes) returns (keys: seq<bytes>)
    requires DecodeFile(crc, raw).Some?
    ensures var m := DecodeFile(crc, raw).value;
            var payload := raw[..|raw| - 4];
            && Elements(keys) == m.Keys && |keys| == |m|
            && (forall i :: 0 <= i < |keys| ==> keys[i] in m)
            && |payload| >= 10 && PutEntries(keys, m, []) == payload[10..]
            && GetU32(payload[6..]).Parsed? && GetU32(payload[6..]).value == |m|
  {
    hide GetU32, GetEntries, PutEntries, Elements, AllNew;
    var payload := raw[..|raw| - 4];
    U32Length(payload[6..]);
    var none: Table := map[];
    keys := EntriesCanonical(payload[10..], GetU32(payload[6..]).value, none);
    assert none.Keys == {};
    NewKeysCount({}, keys);
    var m := DecodeFile(crc, raw).value;
    assert {} + Elements(keys) == Elements(keys);
    assert m.Keys == Elements(keys);
    assert |m.Keys| == |m|;
  }

  lemma SortedFile(crc: Checksum, m: Table, keys: seq<bytes>)
    requires Sorted(keys) && Elements(keys) == m.Keys && forall i :: 0 <= i < |keys| ==> keys[i] in m
    ensures forall raw :: WrittenAs(crc, raw, m, keys) ==> raw == EncodeFile(crc, m)
  {
    hide PutU32, PutEntries, SortedSeq, Sorted, Elements, PutLength;
    SortedUnique(keys, SortedSeq(m.Keys));
    var k := PutLength(|m|, PutEntries(keys, m, []));
    assert PutU16(FILE_VERSION, k) == [0, 3] + k;
  }

  // ----- The loops

  method Encode(crc: Checksum, m: Table) returns (buf: bytes)
    ensures buf == EncodeFile(crc, m)
  {
    hide PutLength, PutU16, PutU32, Less, Sorted, Elements, SortedSeq;
    var keys := SortKeys(m.Keys);
    SortedInTable(m);
    ghost var whole := FilePayload(m);
    buf := FILE_MAGIC + PutU16(FILE_VERSION, PutLength(|keys|, []));
    assert buf + PutEntries(keys, m, []) == whole by {
      U16Append(FILE_VERSION, PutLength(|keys|, []), PutEntries(keys, m, []));
      LengthAppend(|keys|, [], PutEntries(keys, m, []));
      assert [] + PutEntries(keys, m, []) == PutEntries(keys, m, []);
    }
    for i := 0 to |keys|
      invariant buf + PutEntries(keys[i..], m, []) == whole
    {
      var key := keys[i];
      var value := m[key];
      ghost var k := PutEntries(keys[i + 1..], m, []);
      assert keys[i..][1..] == keys[i + 1..];
      assert PutEntries(keys[i..], m, []) == PutLength(|key|, key + PutLength(|value|, value + k));
      ghost var before := buf;
      buf := buf + PutLength(|key|, []) + key + PutLength(|value|, []) + value;
      EntryAppend(before, key, value, k);
    }
    assert keys[|keys|..] == [];
    assert buf == whole;
    buf := buf + PutU32(crc(buf), []);
  }

  lemma LengthAppend(n: nat, a: bytes, k: bytes)
    ensures PutLength(n, a) + k == PutLength(n, a + k)
  {
    U32Append(n % U32_SPAN, a, k);
  }

  lemma EntryAppend(before: bytes, key: bytes, value: bytes, k: bytes)
    ensures before + PutLength(|key|, []) + key + PutLength(|value|, []) + value + k
            == before + PutLength(|key|, key + PutLength(|value|, value + k))
  {
    hide PutLength;
    LengthAppend(|value|, [], value + k);
    assert [] + (value + k) == value + k;
    var k1 := PutLength(|value|, value + k);
    LengthAppend(|key|, [], key + k1);
    assert [] + (key + k1) == key + k1;
    assert before + PutLength(|key|, []) + key + PutLength(|value|, []) + value + k
        == before + (PutLength(|key|, []) + (key + (PutLength(|value|, []) + (value + k))));
  }

  method DecodeLength(payload: bytes, off: nat) returns (ok: bool, length: nat, next: nat)
    requires off <= |payload|
    ensures ok <==> GetU32(payload[off..]).Parsed?
    ensures ok ==> length == GetU32(payload[off..]).value && next == off + 4 <= |payload|
    ensures ok ==> GetU32(payload[off..]).rest == payload[next..]
  {
    U32Length(payload[off..]);
    if |payload| - off < 4 {
      return false, 0, off;
    }
    return true, GetU32(payload[off..]).value, off + 4;
  }

  /** One length-prefixed string of the payload. */
  method DecodeString(payload: bytes, off: nat) returns (ok: bool, text: bytes, next: nat)
    requires off <= |payload|
    ensures ok <==> GetString32(payload[off..]).Parsed?
    ensures ok ==> off <= next <= |payload| && GetString32(payload[off..]) == Parsed(text, payload[next..])
  {
    hide GetU32;
    var read, length, start := DecodeLength(payload, off);
    if !read || length > |payload| - start {
      return false, [], off;
    }
    assert payload[start..][..length] == payload[start..start + length];
    assert payload[start..][length..] == payload[start + length..];
    return true, payload[start..start + length], start + length;
  }

  method Decode(crc: Checksum, raw: bytes) returns (res: Option<Table>)
    ensures res == DecodeFile(crc, raw)
  {
    hide GetU32, GetString32;
    if |raw| < 14 {
      return None;
    }
    var payload := raw[..|raw| - 4];
    U32Length(raw[|raw| - 4..]);
    if crc(payload) != GetU32(raw[|raw| - 4..]).value {
      return None;
    }
    if payload[..4] != FILE_MAGIC || GetU16(payload[4..]).value != FILE_VERSION {
      return None;
    }
    U32Length(payload[6..]);
    var count := GetU32(payload[6..]).value;
    res := DecodeEntries(payload, 10, count);
  }

  method DecodeEntries(payload: bytes, start: nat, count: nat) returns (res: Option<Table>)
    requires start <= |payload|
    ensures res == GetEntries(payload[start..], count, map[])
  {
    hide GetString32, GetEntries;
    var off := start;
    var data: Table := map[];
    for i := 0 to count
      invariant 0 <= off <= |payload|
      invariant GetEntries(payload[start..], count, map[]) == GetEntries(payload[off..], count - i, data)
    {
      EntriesOneMore(payload[off..], count - i, data);
      var readKey, key, next := DecodeString(payload, off);
      if !readKey {
        return None;
      }
      var readValue, value, end := DecodeString(payload, next);
      if !readValue || key in data {
        return None;
      }
      data := data[key := value];
      off := end;
    }
    EntriesDone(payload[off..], data);
    if off != |payload| {
      return None;
    }
    return Some(data);
  }

  lemma EntriesOneMore(b: bytes, n: nat, acc: Table)
    requires n > 0
    ensures var key := GetString32(b);
            if key.Rejected? then GetEntries(b, n, acc) == None
            else
              var value := GetString32(key.rest);
              GetEntries(b, n, acc)
              == if value.Rejected? || key.value in acc then None
                 else GetEntries(value.rest, n - 1, acc[key.value := value.value])
  {
  }

  lemma EntriesDone(b: bytes, acc: Table)
    ensures GetEntries(b, 0, acc) == if b == [] then Some(acc) else None
  {
  }
}
