/**
 Big-endian wire primitives shared by every codec of the repository.

 A printer `PutX(x, k)` is the encoding of `x` followed by the bytes `k`; a
 parser `GetX(b)` takes one `X` off the front of `b`. Writing printers with an
 explicit continuation makes sequential composition plain function nesting, so
 round-trip proofs never need associativity of concatenation.
 */
module Wire {
  type byte = x: int | 0 <= x < 0x100
  type u16 = x: int | 0 <= x < 0x1_0000
  type u32 = x: int | 0 <= x < 0x1_0000_0000
  type u64 = x: int | 0 <= x < 0x1_0000_0000_0000_0000
  type i64 = x: int | -0x8000_0000_0000_0000 <= x < 0x8000_0000_0000_0000
  type bytes = seq<byte>

  datatype Option<+T> = None | Some(value: T)

  /** The outcome of taking one value off the front of a byte string. */
  datatype Parsed<+T> = Parsed(value: T, rest: bytes) | Rejected {
    predicate IsFailure() {
      Rejected?
    }

    function PropagateFailure<U>(): Parsed<U>
      requires Rejected?
    {
      Rejected
    }

    function Extract(): (T, bytes)
      requires Parsed?
    {
      (value, rest)
    }
  }

  /** A list parse whose first items, `done`, were taken off before `p` began. */
  function After<T>(done: seq<T>, p: Parsed<seq<T>>): Parsed<seq<T>> {
    match p
    case Parsed(more, rest) => Parsed(done + more, rest)
    case Rejected => Rejected
  }

  lemma AfterNothing<T>(p: Parsed<seq<T>>)
    ensures After([], p) == p
  {
    if p.Parsed? {
      assert [] + p.value == p.value;
    }
  }

  lemma AfterOneMore<T>(done: seq<T>, x: T, p: Parsed<seq<T>>)
    ensures After(done, After([x], p)) == After(done + [x], p)
  {
    if p.Parsed? {
      assert done + ([x] + p.value) == (done + [x]) + p.value;
    }
  }

  lemma AfterAll<T>(done: seq<T>, rest: bytes)
    ensures After(done, Parsed([], rest)) == Parsed(done, rest)
  {
    assert done + [] == done;
  }

  predicate AllZero(b: bytes) {
    forall i :: 0 <= i < |b| ==> b[i] == 0
  }

  // ----- Printers

  function PutByte(v: byte, k: bytes): bytes {
    [v] + k
  }

  function PutU16(v: u16, k: bytes): bytes {
    [v / 0x100, v % 0x100] + k
  }

  function PutU32(v: u32, k: bytes): bytes {
    PutU16(v / 0x1_0000, PutU16(v % 0x1_0000, k))
  }

  function PutU64(v: u64, k: bytes): bytes {
    PutU32(v / 0x1_0000_0000, PutU32(v % 0x1_0000_0000, k))
  }

  // ----- Parsers

  function GetByte(b: bytes): (p: Parsed<byte>)
    ensures p.Parsed? ==> |p.rest| == |b| - 1
  {
    if |b| < 1 then Rejected else Parsed(b[0], b[1..])
  }

  function GetU16(b: bytes): (p: Parsed<u16>)
    ensures p.Parsed? ==> |p.rest| == |b| - 2
  {
    if |b| < 2 then Rejected else Parsed(b[0] as int * 0x100 + b[1], b[2..])
  }

  function GetU32(b: bytes): Parsed<u32> {
    var (hi, b1) :- GetU16(b);
    var (lo, b2) :- GetU16(b1);
    Parsed(hi * 0x1_0000 + lo, b2)
  }

  function GetU64(b: bytes): Parsed<u64> {
    var (hi, b1) :- GetU32(b);
    var (lo, b2) :- GetU32(b1);
    Parsed(hi * 0x1_0000_0000 + lo, b2)
  }

  function GetBytes(b: bytes, n: nat): Parsed<bytes> {
    if |b| < n then Rejected else Parsed(b[..n], b[n..])
  }

  // ----- Parsers invert printers, and printers invert parsers

  lemma ByteRoundTrip(v: byte, k: bytes)
    ensures GetByte(PutByte(v, k)) == Parsed(v, k)
  {
  }

  lemma U16RoundTrip(v: u16, k: bytes)
    ensures GetU16(PutU16(v, k)) == Parsed(v, k)
  {
  }

  lemma U32RoundTrip(v: u32, k: bytes)
    ensures GetU32(PutU32(v, k)) == Parsed(v, k)
  {
    U16RoundTrip(v / 0x1_0000, PutU16(v % 0x1_0000, k));
    U16RoundTrip(v % 0x1_0000, k);
  }

  lemma U64RoundTrip(v: u64, k: bytes)
    ensures GetU64(PutU64(v, k)) == Parsed(v, k)
  {
    U32RoundTrip(v / 0x1_0000_0000, PutU32(v % 0x1_0000_0000, k));
    U32RoundTrip(v % 0x1_0000_0000, k);
  }

  lemma BytesRoundTrip(s: bytes, k: bytes)
    ensures GetBytes(s + k, |s|) == Parsed(s, k)
  {
  }

  lemma ByteCanonical(b: bytes)
    requires GetByte(b).Parsed?
    ensures PutByte(GetByte(b).value, GetByte(b).rest) == b
  {
  }

  lemma U16Canonical(b: bytes)
    requires GetU16(b).Parsed?
    ensures PutU16(GetU16(b).value, GetU16(b).rest) == b
  {
  }

  lemma U32Canonical(b: bytes)
    requires GetU32(b).Parsed?
    ensures PutU32(GetU32(b).value, GetU32(b).rest) == b
  {
    var hi := GetU16(b);
    var lo := GetU16(hi.rest);
    U16Canonical(b);
    U16Canonical(hi.rest);
    assert GetU32(b).value / 0x1_0000 == hi.value;
    assert GetU32(b).value % 0x1_0000 == lo.value;
  }

  lemma U64Canonical(b: bytes)
    requires GetU64(b).Parsed?
    ensures PutU64(GetU64(b).value, GetU64(b).rest) == b
  {
    var hi := GetU32(b);
    var lo := GetU32(hi.rest);
    U32Canonical(b);
    U32Canonical(hi.rest);
    assert GetU64(b).value / 0x1_0000_0000 == hi.value;
    assert GetU64(b).value % 0x1_0000_0000 == lo.value;
  }

  // ----- Lengths

  lemma U32Length(b: bytes)
    ensures GetU32(b).Parsed? <==> |b| >= 4
    ensures GetU32(b).Parsed? ==> GetU32(b).rest == b[4..]
  {
  }

  lemma U64Length(b: bytes)
    ensures GetU64(b).Parsed? <==> |b| >= 8
    ensures GetU64(b).Parsed? ==> GetU64(b).rest == b[8..]
  {
    U32Length(b);
    if |b| >= 4 {
      U32Length(b[4..]);
    }
  }

  lemma U16Tail(v: u16, k: bytes)
    ensures |PutU16(v, k)| == 2 + |k| && PutU16(v, k)[2..] == k
  {
  }

  lemma U32Tail(v: u32, k: bytes)
    ensures |PutU32(v, k)| == 4 + |k| && PutU32(v, k)[4..] == k
  {
    U32RoundTrip(v, k);
    U32Length(PutU32(v, k));
  }

  lemma U64Tail(v: u64, k: bytes)
    ensures |PutU64(v, k)| == 8 + |k| && PutU64(v, k)[8..] == k
  {
    hide PutU32;
    var low := PutU32(v % 0x1_0000_0000, k);
    U32Tail(v % 0x1_0000_0000, k);
    U32Tail(v / 0x1_0000_0000, low);
    assert PutU64(v, k)[8..] == PutU64(v, k)[4..][4..];
  }

  // ----- Big-endian, byte by byte

  /** The number four bytes stand for, most significant first. */
  function BigEndian4(a: byte, b: byte, c: byte, d: byte): nat {
    0x100_0000 * (a as nat) + 0x1_0000 * (b as nat) + 0x100 * (c as nat) + d as nat
  }

  lemma U16Bytes(b: bytes)
    requires |b| >= 2
    ensures GetU16(b) == Parsed(0x100 * (b[0] as nat) + b[1] as nat, b[2..])
  {
  }

  lemma U32Bytes(b: bytes)
    requires |b| >= 4
    ensures GetU32(b) == Parsed(BigEndian4(b[0], b[1], b[2], b[3]), b[4..])
  {
    U16Bytes(b);
    U16Bytes(b[2..]);
    U32Length(b);
  }

  // ----- A printer only prepends to its continuation

  lemma U16Append(v: u16, a: bytes, k: bytes)
    ensures PutU16(v, a + k) == PutU16(v, a) + k
  {
  }

  lemma U32Append(v: u32, a: bytes, k: bytes)
    ensures PutU32(v, a + k) == PutU32(v, a) + k
  {
    U16Append(v % 0x1_0000, a, k);
    U16Append(v / 0x1_0000, PutU16(v % 0x1_0000, a), k);
  }

  lemma U64Append(v: u64, a: bytes, k: bytes)
    ensures PutU64(v, a + k) == PutU64(v, a) + k
  {
    U32Append(v % 0x1_0000_0000, a, k);
    U32Append(v / 0x1_0000_0000, PutU32(v % 0x1_0000_0000, a), k);
  }

  lemma ByteAppend(v: byte, a: bytes, k: bytes)
    ensures PutByte(v, a + k) == PutByte(v, a) + k
  {
  }

  lemma BytesAppend(s: bytes, a: bytes, k: bytes)
    ensures s + (a + k) == (s + a) + k
  {
  }
}
