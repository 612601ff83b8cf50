/** Reading an exact number of bytes without trusting the declared size. */
module Inflate {
  import opened Wire

  /** A byte source: what it will ever produce, and how much of it was taken. */
  class Stream {
    const data: bytes
    var taken: nat

    ghost predicate Valid()
      reads this
    {
      taken <= |data|
    }

    constructor (data: bytes)
      ensures Valid() && this.data == data && taken == 0
    {
      this.data, taken := data, 0;
    }

    /** Fills `buf[from..]`, or stops where the stream does and reports failure. */
    method ReadFull(buf: array<byte>, from: nat) returns (ok: bool)
      requires Valid() && from <= buf.Length
      modifies this, buf
      ensures Valid() && old(taken) <= taken
      ensures ok <==> buf.Length - from <= |data| - old(taken)
      ensures ok ==> taken == old(taken) + (buf.Length - from)
      ensures !ok ==> taken == |data|
      ensures buf[..from] == old(buf[..from])
      ensures ok ==> buf[from..] == data[old(taken)..taken]
    {
      var start := taken;
      var n := from;
      while n < buf.Length && taken < |data|
        invariant from <= n <= buf.Length && Valid() && taken == start + (n - from)
        invariant buf[..from] == old(buf[..from])
        invariant buf[from..n] == data[start..taken]
      {
        buf[n] := data[taken];
        n, taken := n + 1, taken + 1;
      }
      return n == buf.Length;
    }
  }

  function Min(a: nat, b: nat): nat {
    if a < b then a else b
  }

  function Max(a: nat, b: nat): nat {
    if a > b then a else b
  }

  /** The buffer size after `k` growths. */
  function Grown(k: nat, size: nat, initial: nat): nat {
    if k == 0 then Min(size, initial) else Min(2 * Grown(k - 1, size, initial), size)
  }

  lemma {:induction false} GrownAtLeast(k: nat, size: nat, initial: nat)
    ensures initial > 0 ==> Grown(k, size, initial) >= Min(k, size)
    ensures initial == 0 ==> Grown(k, size, initial) == 0
    ensures Grown(k, size, initial) <= size
  {
    if k > 0 {
      GrownAtLeast(k - 1, size, initial);
      if initial > 0 && size > 0 {
        SomethingToGrow(k - 1, size, initial);
      }
    }
  }

  lemma {:induction false} SomethingToGrow(k: nat, size: nat, initial: nat)
    requires initial > 0 && size > 0
    ensures Grown(k, size, initial) > 0
  {
    if k > 0 {
      SomethingToGrow(k - 1, size, initial);
    }
  }

  /**
   Doubling reaches the declared size, and so the loop ends, exactly when it starts above zero or
   has nothing to reach.
   */
  lemma GrowthReachesSize(size: nat, initial: nat)
    ensures (exists k: nat :: Grown(k, size, initial) == size) <==> initial > 0 || size == 0
  {
    if size == 0 {
      assert Grown(0, size, initial) == size;
    } else if initial > 0 {
      GrownAtLeast(size, size, initial);
      assert Grown(size, size, initial) == size;
    } else {
      forall k: nat ensures Grown(k, size, initial) == 0 {
        GrownAtLeast(k, size, initial);
      }
    }
  }

  /**
   Succeeds exactly when the stream has `size` bytes, returns exactly those, and
   in any case allocates less than four times what the stream really produced or
   the initial size, whichever is larger. The precondition is exactly when the
   buffer can reach `size` at all.
   */
  method ReadExact(r: Stream, size: nat, initial: nat) returns (ok: bool, buf: array<byte>, spent: nat)
    requires r.Valid() && (initial > 0 || size == 0)
    modifies r
    ensures r.Valid() && old(r.taken) <= r.taken
    ensures ok <==> size <= |r.data| - old(r.taken)
    ensures ok ==> fresh(buf) && buf[..] == r.data[old(r.taken)..old(r.taken) + size] && r.taken == old(r.taken) + size
    ensures initial > 0 ==> spent < 4 * Max(initial, r.taken - old(r.taken))
    ensures initial == 0 ==> spent == 0
  {
    ghost var start := r.taken;
    buf := new byte[Min(size, initial)](i => 0);
    spent := buf.Length;
    var n := 0;
    while true
      invariant r.Valid() && fresh(buf) && n <= buf.Length <= size
      invariant r.taken == start + n && buf[..n] == r.data[start..r.taken]
      invariant n == 0 ==> spent == buf.Length == Min(size, initial)
      invariant n > 0 ==> n < buf.Length == Min(2 * n, size) && spent - buf.Length < 2 * n
      decreases size - buf.Length
    {
      ok := r.ReadFull(buf, n);
      if !ok {
        return;
      }
      ghost var before := n;
      assert buf[..] == buf[..before] + buf[before..];
      n := buf.Length;
      if n == size {
        return;
      }
      var grown := new byte[Min(2 * buf.Length, size)](i => 0);
      forall i | 0 <= i < buf.Length {
        grown[i] := buf[i];
      }
      assert grown[..n] == buf[..];
      spent := spent + grown.Length;
      buf := grown;
    }
  }
}
