/** Bytewise lexicographic order, and sorting a set of strings by it. */
module Ordering {
  import opened Wire

  predicate Less(a: bytes, b: bytes) {
    if b == [] then false
    else if a == [] then true
    else a[0] < b[0] || (a[0] == b[0] && Less(a[1..], b[1..]))
  }

  /** One string comes before another at their first difference, or as its prefix. */
  lemma {:induction false} LessExactly(a: bytes, b: bytes)
    ensures Less(a, b) <==>
            exists i :: 0 <= i <= |a| && i < |b| && a[..i] == b[..i] && (i == |a| || a[i] < b[i])
    decreases |a|
  {
    if a != [] && b != [] && a[0] == b[0] {
      LessExactly(a[1..], b[1..]);
      if i :| 0 <= i <= |a[1..]| && i < |b[1..]| && a[1..][..i] == b[1..][..i]
              && (i == |a[1..]| || a[1..][i] < b[1..][i])
      {
        assert a[..i + 1] == [a[0]] + a[1..][..i] && b[..i + 1] == [b[0]] + b[1..][..i];
      }
      if i :| 0 <= i <= |a| && i < |b| && a[..i] == b[..i] && (i == |a| || a[i] < b[i]) {
        assert i > 0;
        assert a[1..][..i - 1] == a[..i][1..] && b[1..][..i - 1] == b[..i][1..];
      }
    } else if a == [] && b != [] {
      assert a[..0] == b[..0];
    } else if a != [] && b != [] {
      assert a[..0] == b[..0];
      forall i | 0 < i <= |a| && i < |b| ensures a[..i] != b[..i] {
        assert a[..i][0] != b[..i][0];
      }
    }
  }

  lemma {:induction false} LessTransitive(a: bytes, b: bytes, c: bytes)
    requires Less(a, b) && Less(b, c)
    ensures Less(a, c)
  {
    if a != [] && b != [] && c != [] && a[0] == b[0] == c[0] {
      LessTransitive(a[1..], b[1..], c[1..]);
    }
  }

  lemma {:induction false} LessTotal(a: bytes, b: bytes)
    ensures a != b ==> Less(a, b) || Less(b, a)
    ensures !(Less(a, b) && Less(b, a)) && !Less(a, a)
  {
    if a != [] && b != [] && a[0] == b[0] {
      LessTotal(a[1..], b[1..]);
      assert a == [a[0]] + a[1..] && b == [b[0]] + b[1..];
    }
    if a != [] {
      LessTotal(a[1..], a[1..]);
    }
  }

  predicate Sorted(ks: seq<bytes>) {
    forall i, j :: 0 <= i < j < |ks| ==> Less(ks[i], ks[j])
  }

  function Elements(ks: seq<bytes>): set<bytes> {
    set i | 0 <= i < |ks| :: ks[i]
  }

  /** The elements of `s` in order. */
  ghost function SortedSeq(s: set<bytes>): (ks: seq<bytes>)
    ensures Sorted(ks) && Elements(ks) == s && |ks| == |s|
  {
    if s == {} then []
    else
      var x :| x in s;
      var ks := SortedSeq(s - {x});
      InsertKeepsSorted(ks, x, Place(ks, x));
      ks[..Place(ks, x)] + [x] + ks[Place(ks, x)..]
  }

  /** How many elements of a sorted list come before `x`. */
  function Place(ks: seq<bytes>, x: bytes): (p: nat)
    ensures p <= |ks|
    ensures Sorted(ks) ==>
              && (forall i :: 0 <= i < p ==> Less(ks[i], x))
              && (p < |ks| ==> !Less(ks[p], x))
  {
    if ks == [] || !Less(ks[0], x) then 0
    else
      assert Sorted(ks) ==> Sorted(ks[1..]);
      1 + Place(ks[1..], x)
  }

  lemma InsertKeepsSorted(ks: seq<bytes>, x: bytes, p: nat)
    requires Sorted(ks) && x !in Elements(ks) && p == Place(ks, x)
    ensures Sorted(ks[..p] + [x] + ks[p..])
    ensures Elements(ks[..p] + [x] + ks[p..]) == Elements(ks) + {x}
  {
    hide Place, Less;
    var r := ks[..p] + [x] + ks[p..];
    forall i | p <= i < |ks| ensures Less(x, ks[i]) {
      assert ks[p] in Elements(ks);
      LessTotal(x, ks[p]);
      if p < i {
        LessTransitive(x, ks[p], ks[i]);
      }
    }
    assert forall i :: 0 <= i < |r| ==> r[i] == if i < p then ks[i] else if i == p then x else ks[i - 1];
    forall i, j | 0 <= i < j < |r| ensures Less(r[i], r[j]) {
      if j <= p {
      } else if i < p {
        assert r[j] == ks[j - 1];
      }
    }
    forall e | e in Elements(ks) + {x} ensures e in Elements(r) {
      if e == x {
        assert r[p] == e;
      } else {
        var i :| 0 <= i < |ks| && ks[i] == e;
        assert r[if i < p then i else i + 1] == e;
      }
    }
  }

  lemma NoElements(a: seq<bytes>)
    ensures Elements(a) == {} <==> a == []
  {
    assert |a| > 0 ==> a[0] in Elements(a);
  }

  /** A set has only one sorted enumeration. */
  lemma {:induction false} SortedUnique(a: seq<bytes>, b: seq<bytes>)
    requires Sorted(a) && Sorted(b) && Elements(a) == Elements(b)
    ensures a == b
  {
    if a == [] {
      NoElements(a);
      NoElements(b);
    } else {
      assert a[0] in Elements(b);
      assert b != [];
      assert b[0] in Elements(a);
      var i :| 0 <= i < |b| && b[i] == a[0];
      var j :| 0 <= j < |a| && a[j] == b[0];
      LessTotal(a[0], b[0]);
      assert a[0] == b[0];
      TailElements(a);
      TailElements(b);
      SortedUnique(a[1..], b[1..]);
      assert a == [a[0]] + a[1..] && b == [b[0]] + b[1..];
    }
  }

  lemma TailElements(a: seq<bytes>)
    requires Sorted(a) && a != []
    ensures Sorted(a[1..]) && Elements(a[1..]) == Elements(a) - {a[0]}
  {
    hide Less;
    forall e | e in Elements(a[1..]) ensures e in Elements(a) && e != a[0] {
      var i :| 0 <= i < |a[1..]| && a[1..][i] == e;
      assert a[i + 1] == e && Less(a[0], a[i + 1]);
      LessTotal(a[0], a[0]);
    }
    forall e | e in Elements(a) - {a[0]} ensures e in Elements(a[1..]) {
      var i :| 0 <= i < |a| && a[i] == e;
      assert a[1..][i - 1] == e;
    }
  }

  /** Sorting, as an insertion sort over the set. */
  method SortKeys(keys: set<bytes>) returns (ks: seq<bytes>)
    ensures ks == SortedSeq(keys)
  {
    hide Less, Place;
    ks := [];
    var todo := keys;
    while todo != {}
      invariant Sorted(ks) && todo <= keys && Elements(ks) == keys - todo
      decreases todo
    {
      var x :| x in todo;
      var p := Place(ks, x);
      InsertKeepsSorted(ks, x, p);
      ks := ks[..p] + [x] + ks[p..];
      todo := todo - {x};
    }
    SortedUnique(ks, SortedSeq(keys));
  }
}
