/**
 The snapshot payload reader and writer: a byte buffer consumed from the front
 and a byte buffer grown at the back, each method proved against the printers
 and parsers of `Wire`.
 */
module Payload {
  import opened Wire

  const MAX_U16: nat := 0xFFFF

  /** What a fallible step of the codec returns; error identities are not modelled. */
  datatype Outcome<+T> = Success(value: T) | Failure {
    predicate IsFailure() {
      Failure?
    }

    function PropagateFailure<U>(): Outcome<U>
      requires Failure?
    {
      Failure
    }

    function Extract(): T
      requires Success?
    {
      value
    }
  }

  /** `got` and the buffer `rest` are what parsing produced. */
  ghost predicate Matches<T>(p: Parsed<T>, got: Outcome<T>, rest: bytes) {
    match p
    case Parsed(v, r) => got == Success(v) && rest == r
    case Rejected => got == Failure
  }

  // ----- Length-prefixed strings

  function PutString(s: bytes, k: bytes): bytes
    requires |s| <= MAX_U16
  {
    PutU16(|s|, s + k)
  }

  function GetString(b: bytes): (p: Parsed<bytes>)
    ensures p.Parsed? ==> |p.value| <= MAX_U16 && |p.rest| == |b| - 2 - |p.value|
  {
    var (n, b1) :- GetU16(b);
    GetBytes(b1, n)
  }

  lemma StringRoundTrip(s: bytes, k: bytes)
    requires |s| <= MAX_U16
    ensures GetString(PutString(s, k)) == Parsed(s, k)
  {
    U16RoundTrip(|s|, s + k);
    BytesRoundTrip(s, k);
  }

  lemma StringCanonical(b: bytes)
    requires GetString(b).Parsed?
    ensures PutString(GetString(b).value, GetString(b).rest) == b
  {
    U16Canonical(b);
    var p := GetU16(b);
    assert p.rest == GetString(b).value + GetString(b).rest;
  }

  predicate StringsFit(ss: seq<bytes>) {
    forall i :: 0 <= i < |ss| ==> |ss[i]| <= MAX_U16
  }

  function PutStringItems(ss: seq<bytes>, k: bytes): bytes
    requires StringsFit(ss)
  {
    if ss == [] then k else PutString(ss[0], PutStringItems(ss[1..], k))
  }

  function GetStringItems(b: bytes, n: nat): (p: Parsed<seq<bytes>>)
    ensures p.Parsed? ==> |p.value| == n && StringsFit(p.value) && |p.rest| <= |b|
    decreases n
  {
    if n == 0 then Parsed([], b)
    else
      var (s, b1) :- GetString(b);
      After([s], GetStringItems(b1, n - 1))
  }

  lemma {:induction false} StringItemsRoundTrip(ss: seq<bytes>, k: bytes)
    requires StringsFit(ss)
    ensures GetStringItems(PutStringItems(ss, k), |ss|) == Parsed(ss, k)
  {
    hide GetString, PutString;
    if ss == [] {
    } else {
      StringItemsRoundTrip(ss[1..], k);
      StringRoundTrip(ss[0], PutStringItems(ss[1..], k));
      assert ss == [ss[0]] + ss[1..];
    }
  }

  lemma {:induction false} StringItemsCanonical(b: bytes, n: nat)
    requires GetStringItems(b, n).Parsed?
    ensures PutStringItems(GetStringItems(b, n).value, GetStringItems(b, n).rest) == b
    decreases n
  {
    hide GetString, PutString;
    if n == 0 {
    } else {
      var p := GetString(b);
      StringCanonical(b);
      StringItemsCanonical(p.rest, n - 1);
      assert GetStringItems(b, n).value[1..] == GetStringItems(p.rest, n - 1).value;
    }
  }

  // ----- The writer

  /**
   Every writer method takes the ghost bytes `k` that will follow what it
   writes: `b + k` afterwards is what `b` was, then the encoding, then `k`.
   */
  class PayloadWriter {
    var b: bytes

    constructor ()
      ensures b == []
    {
      b := [];
    }

    method PutUint8(v: byte, ghost k: bytes)
      modifies this
      ensures b + k == old(b) + PutByte(v, k)
    {
      b := b + [v];
    }

    method PutUint16(v: u16, ghost k: bytes)
      modifies this
      ensures b + k == old(b) + PutU16(v, k)
    {
      b := b + [v / 0x100, v % 0x100];
    }

    method PutUint32(v: u32, ghost k: bytes)
      modifies this
      ensures b + k == old(b) + PutU32(v, k)
    {
      PutUint16(v / 0x1_0000, PutU16(v % 0x1_0000, k));
      PutUint16(v % 0x1_0000, k);
    }

    method PutUint64(v: u64, ghost k: bytes)
      modifies this
      ensures b + k == old(b) + PutU64(v, k)
    {
      PutUint32(v / 0x1_0000_0000, PutU32(v % 0x1_0000_0000, k));
      PutUint32(v % 0x1_0000_0000, k);
    }

    method PutRaw(s: bytes, ghost k: bytes)
      modifies this
      ensures b + k == old(b) + (s + k)
    {
      b := b + s;
    }

    method PutStr(s: bytes, ghost k: bytes) returns (ok: bool)
      modifies this
      ensures ok <==> |s| <= MAX_U16
      ensures ok ==> b + k == old(b) + PutString(s, k)
    {
      if |s| > MAX_U16 {
        return false;
      }
      PutUint16(|s|, s + k);
      PutRaw(s, k);
      return true;
    }

    method PutStrs(ss: seq<bytes>, ghost k: bytes) returns (ok: bool)
      modifies this
      ensures ok <==> |ss| <= MAX_U16 && StringsFit(ss)
      ensures ok ==> b + k == old(b) + PutU16(|ss|, PutStringItems(ss, k))
    {
      if |ss| > MAX_U16 {
        return false;
      }
      ghost var fit := StringsFit(ss);
      ghost var start := b;
      PutUint16(|ss|, if fit then PutStringItems(ss, k) else k);
      for i := 0 to |ss|
        invariant StringsFit(ss[..i])
        invariant fit ==> b + PutStringItems(ss[i..], k) == start + PutU16(|ss|, PutStringItems(ss, k))
      {
        assert fit ==> PutStringItems(ss[i..], k) == PutString(ss[i], PutStringItems(ss[i + 1..], k)) by {
          assert ss[i..][1..] == ss[i + 1..];
        }
        ok := PutStr(ss[i], if fit then PutStringItems(ss[i + 1..], k) else k);
        if !ok {
          return;
        }
      }
      assert ss[..|ss|] == ss;
      return true;
    }
  }

  // ----- The reader

  class PayloadReader {
    var b: bytes

    constructor (body: bytes)
      ensures b == body
    {
      b := body;
    }

    method GetRaw(n: nat) returns (r: Outcome<bytes>)
      modifies this
      ensures Matches(GetBytes(old(b), n), r, b)
    {
      if |b| < n {
        return Failure;
      }
      r := Success(b[..n]);
      b := b[n..];
    }

    method GetUint8() returns (r: Outcome<byte>)
      modifies this
      ensures Matches(GetByte(old(b)), r, b)
    {
      if |b| < 1 {
        return Failure;
      }
      r := Success(b[0]);
      b := b[1..];
    }

    method GetUint16() returns (r: Outcome<u16>)
      modifies this
      ensures Matches(GetU16(old(b)), r, b)
    {
      if |b| < 2 {
        return Failure;
      }
      r := Success(b[0] as int * 0x100 + b[1]);
      b := b[2..];
    }

    method GetUint32() returns (r: Outcome<u32>)
      modifies this
      ensures Matches(GetU32(old(b)), r, b)
    {
      U32Length(b);
      if |b| < 4 {
        return Failure;
      }
      r := Success(GetU32(b).value);
      b := b[4..];
    }

    method GetUint64() returns (r: Outcome<u64>)
      modifies this
      ensures Matches(GetU64(old(b)), r, b)
    {
      U64Length(b);
      if |b| < 8 {
        return Failure;
      }
      r := Success(GetU64(b).value);
      b := b[8..];
    }

    method GetStr() returns (r: Outcome<bytes>)
      modifies this
      ensures Matches(GetString(old(b)), r, b)
    {
      var n :- GetUint16();
      r := GetRaw(n);
    }

    method GetStrs() returns (r: Outcome<seq<bytes>>)
      modifies this
      ensures GetU16(old(b)).Rejected? ==> r == Failure
      ensures GetU16(old(b)).Parsed? ==> Matches(GetStringItems(GetU16(old(b)).rest, GetU16(old(b)).value), r, b)
    {
      hide GetU16, GetString, StringsFit;
      var n :- GetUint16();
      ghost var start := b;
      var out: seq<bytes> := [];
      AfterNothing(GetStringItems(b, n));
      for i := 0 to n
        invariant |out| == i
        invariant GetStringItems(start, n) == After(out, GetStringItems(b, n - i))
      {
        var s :- GetStr();
        AfterOneMore(out, s, GetStringItems(b, n - i - 1));
        out := out + [s];
      }
      AfterAll(out, b);
      return Success(out);
    }

    method Done() returns (ok: bool)
      ensures ok <==> b == []
    {
      return |b| == 0;
    }
  }
}
