/**
 The bounded anti-replay window for logical stream identities: a 1024-bit
 sliding bitset in sixteen words, proved to refine a ledger of every identity
 ever consumed.
 */
module StreamWindow {
  import opened Wire
  import opened Words

  const WINDOW_SIZE: nat := 1024
  const WINDOW_WORDS: nat := 16

  datatype Verdict = Admitted | Invalid | Stale

  // ----- The ledger: what the window means

  /** Every identity ever consumed, and the newest of them (zero when none). */
  datatype Ledger = Ledger(highest: nat, consumed: set<nat>)

  const EMPTY: Ledger := Ledger(0, {})

  ghost predicate WellFormed(l: Ledger) {
    && (l.highest == 0 <==> l.consumed == {})
    && (l.highest != 0 ==> l.highest in l.consumed)
    && forall id :: id in l.consumed ==> 0 < id <= l.highest
  }

  function Judge(l: Ledger, id: nat): Verdict {
    if id == 0 then Invalid
    else if id in l.consumed || id + WINDOW_SIZE <= l.highest then Stale
    else Admitted
  }

  function Record(l: Ledger, id: nat): Ledger {
    if Judge(l, id) != Admitted then l
    else Ledger(if id > l.highest then id else l.highest, l.consumed + {id})
  }

  lemma RecordKeepsWellFormed(l: Ledger, id: nat)
    requires WellFormed(l)
    ensures WellFormed(Record(l, id))
  {
    if Judge(l, id) == Admitted {
      assert id in Record(l, id).consumed;
    }
  }

  function Run(l: Ledger, ids: seq<nat>): Ledger
    decreases ids
  {
    if ids == [] then l else Run(Record(l, ids[0]), ids[1..])
  }

  function Verdicts(l: Ledger, ids: seq<nat>): (vs: seq<Verdict>)
    ensures |vs| == |ids|
    decreases ids
  {
    if ids == [] then [] else [Judge(l, ids[0])] + Verdicts(Record(l, ids[0]), ids[1..])
  }

  /** Nothing is ever forgotten, and the newest identity never goes back. */
  lemma {:induction false} RunKeeps(l: Ledger, ids: seq<nat>)
    ensures l.consumed <= Run(l, ids).consumed
    ensures l.highest <= Run(l, ids).highest
    decreases ids
  {
    if ids == [] {
    } else {
      RunKeeps(Record(l, ids[0]), ids[1..]);
    }
  }

  lemma {:induction false} VerdictAt(l: Ledger, ids: seq<nat>, i: nat)
    requires i < |ids|
    ensures Verdicts(l, ids)[i] == Judge(Run(l, ids[..i]), ids[i])
    decreases ids
  {
    if i == 0 {
      assert ids[..0] == [];
    } else {
      VerdictAt(Record(l, ids[0]), ids[1..], i - 1);
      assert ids[1..][..i - 1] == ids[..i][1..];
    }
  }

  lemma {:induction false} RunSplit(l: Ledger, a: seq<nat>, b: seq<nat>)
    ensures Run(l, a + b) == Run(Run(l, a), b)
    decreases a
  {
    if a == [] {
      assert [] + b == b;
    } else {
      RunSplit(Record(l, a[0]), a[1..], b);
      assert (a + b)[1..] == a[1..] + b;
    }
  }

  /** In every run, no identity is admitted twice. */
  lemma NoIdentityAdmittedTwice(l: Ledger, ids: seq<nat>, i: nat, j: nat)
    requires i < j < |ids| && ids[i] == ids[j]
    requires Verdicts(l, ids)[i] == Admitted
    ensures Verdicts(l, ids)[j] == Stale
  {
    VerdictAt(l, ids, i);
    VerdictAt(l, ids, j);
    var before := Run(l, ids[..i]);
    assert ids[..j] == ids[..i] + ids[i..j];
    RunSplit(l, ids[..i], ids[i..j]);
    RunKeeps(Record(before, ids[i]), ids[i..j][1..]);
  }

  /** A refusal as stale is final. */
  lemma StaleStaysStale(l: Ledger, ids: seq<nat>, id: nat)
    requires Judge(l, id) == Stale
    ensures Judge(Run(l, ids), id) == Stale
  {
    RunKeeps(l, ids);
  }

  ghost predicate Distinct(ids: seq<nat>) {
    forall i, j :: 0 <= i < j < |ids| ==> ids[i] != ids[j]
  }

  lemma {:induction false} RunConsumesOnly(l: Ledger, ids: seq<nat>)
    ensures forall id :: id in Run(l, ids).consumed ==> id in l.consumed || id in ids
    ensures Run(l, ids).highest == l.highest || Run(l, ids).highest in ids
    decreases ids
  {
    if ids == [] {
    } else {
      RunConsumesOnly(Record(l, ids[0]), ids[1..]);
      assert ids == [ids[0]] + ids[1..];
    }
  }

  lemma {:induction false} RunKeepsWellFormed(l: Ledger, ids: seq<nat>)
    requires WellFormed(l)
    ensures WellFormed(Run(l, ids))
    decreases ids
  {
    if ids != [] {
      RecordKeepsWellFormed(l, ids[0]);
      RunKeepsWellFormed(Record(l, ids[0]), ids[1..]);
    }
  }

  /** What a run has consumed is what it admitted. */
  lemma {:induction false} ConsumedIsAdmitted(ids: seq<nat>, n: nat, id: nat)
    requires n <= |ids|
    ensures id in Run(EMPTY, ids[..n]).consumed <==>
            exists j :: 0 <= j < n && ids[j] == id && Verdicts(EMPTY, ids)[j] == Admitted
    decreases n
  {
    if n == 0 {
      assert ids[..0] == [];
    } else {
      ConsumedIsAdmitted(ids, n - 1, id);
      VerdictAt(EMPTY, ids, n - 1);
      assert ids[..n] == ids[..n - 1] + [ids[n - 1]];
      RunSplit(EMPTY, ids[..n - 1], [ids[n - 1]]);
      RunOne(Run(EMPTY, ids[..n - 1]), ids[n - 1]);
    }
  }

  lemma RunOne(l: Ledger, id: nat)
    ensures Run(l, [id]) == Record(l, id)
  {
    assert [id][1..] == [];
    assert Run(Record(l, id), []) == Record(l, id);
  }

  /**
   In every run an identity is admitted exactly when it is not zero and every
   identity admitted before it is a different one and less than 1024 ahead of it.
   */
  lemma AdmittedExactly(ids: seq<nat>, i: nat)
    requires i < |ids|
    ensures Verdicts(EMPTY, ids)[i] == Admitted <==>
            && ids[i] != 0
            && forall j :: 0 <= j < i && Verdicts(EMPTY, ids)[j] == Admitted ==>
                 ids[j] != ids[i] && ids[j] < ids[i] + 1024
  {
    hide Verdicts;
    var l := Run(EMPTY, ids[..i]);
    VerdictAt(EMPTY, ids, i);
    RunKeepsWellFormed(EMPTY, ids[..i]);
    ConsumedIsAdmitted(ids, i, ids[i]);
    ConsumedIsAdmitted(ids, i, l.highest);
    forall j | 0 <= j < i && Verdicts(EMPTY, ids)[j] == Admitted ensures ids[j] in l.consumed {
      ConsumedIsAdmitted(ids, i, ids[j]);
    }
  }

  /** Distinct identities that stay within one window are all admitted, in any order. */
  lemma CloseIdentitiesAllAdmitted(ids: seq<nat>)
    requires Distinct(ids)
    requires forall i :: 0 <= i < |ids| ==> ids[i] != 0
    requires forall i, j :: 0 <= i < |ids| && 0 <= j < |ids| ==> ids[i] < ids[j] + WINDOW_SIZE
    ensures forall i :: 0 <= i < |ids| ==> Verdicts(EMPTY, ids)[i] == Admitted
  {
    forall i | 0 <= i < |ids| ensures Verdicts(EMPTY, ids)[i] == Admitted {
      VerdictAt(EMPTY, ids, i);
      RunConsumesOnly(EMPTY, ids[..i]);
      var l := Run(EMPTY, ids[..i]);
      assert ids[i] !in ids[..i];
      if l.highest in ids[..i] {
        var k :| 0 <= k < i && ids[..i][k] == l.highest;
        assert ids[k] < ids[i] + WINDOW_SIZE;
      }
    }
  }

  // ----- The window itself

  /** The lowest identity represented by a window whose newest identity is `highest`. */
  function WindowBase(highest: u64): (base: u64)
    requires highest != 0
    ensures 1 <= base <= highest < base + WINDOW_SIZE
  {
    if highest <= WINDOW_SIZE then 1 else highest - (WINDOW_SIZE - 1)
  }

  /** Bit `o` of the whole bitset. */
  function Marked(words: seq<u64>, o: nat): bool
    requires |words| == WINDOW_WORDS && o < WINDOW_SIZE
  {
    Bit(words[o / 64], o % 64)
  }

  ghost predicate SetExactly(after: seq<u64>, before: seq<u64>, offset: nat)
    requires |after| == |before| == WINDOW_WORDS && offset < WINDOW_SIZE
  {
    forall o :: 0 <= o < WINDOW_SIZE ==> (Marked(after, o) <==> o == offset || Marked(before, o))
  }

  ghost predicate ShiftedBy(after: seq<u64>, before: seq<u64>, shift: nat)
    requires |after| == |before| == WINDOW_WORDS
  {
    forall o :: 0 <= o < WINDOW_SIZE ==>
      (Marked(after, o) <==> o + shift < WINDOW_SIZE && Marked(before, o + shift))
  }

  class BrokerStreamWindow {
    var highest: u64
    var base: u64
    var words: array<u64>
    ghost var ledger: Ledger

    /** The bitset is the part of the ledger from `base` up. */
    ghost predicate Valid()
      reads this, words
    {
      && words.Length == WINDOW_WORDS
      && WellFormed(ledger)
      && highest == ledger.highest
      && base == (if highest == 0 then 0 else WindowBase(highest))
      && forall o :: 0 <= o < WINDOW_SIZE ==> (Marked(words[..], o) <==> base + o in ledger.consumed)
    }

    constructor ()
      ensures Valid() && fresh(words)
      ensures ledger == EMPTY
    {
      highest, base, ledger := 0, 0, EMPTY;
      words := new u64[WINDOW_WORDS](i => 0);
      new;
      forall o | 0 <= o < WINDOW_SIZE ensures !Marked(words[..], o) {
        BitOfZero(o % 64);
      }
    }

    method SetLocked(offset: nat)
      requires words.Length == WINDOW_WORDS && offset < WINDOW_SIZE
      modifies words
      ensures SetExactly(words[..], old(words[..]), offset)
    {
      MaskSet(words[offset / 64], offset % 64, 0);
      ghost var before := words[..];
      words[offset / 64] := Or(words[offset / 64], Shl(1, offset % 64));
      forall o | 0 <= o < WINDOW_SIZE
        ensures Marked(words[..], o) <==> o == offset || Marked(before, o)
      {
        MaskSet(before[offset / 64], offset % 64, o % 64);
      }
    }

    method ShiftLocked(shift: nat)
      requires words.Length == WINDOW_WORDS
      modifies this`words
      ensures fresh(words) && words.Length == WINDOW_WORDS
      ensures ShiftedBy(words[..], old(words[..]), shift)
    {
      var shifted := new u64[WINDOW_WORDS](i => 0);
      if shift >= WINDOW_SIZE {
        words := shifted;
        forall o | 0 <= o < WINDOW_SIZE ensures !Marked(words[..], o) {
          BitOfZero(o % 64);
        }
        return;
      }
      var skip, bits := shift / 64, shift % 64;
      ghost var before := words[..];
      var i := 0;
      while i < WINDOW_WORDS
        invariant 0 <= i <= WINDOW_WORDS
        invariant shifted.Length == WINDOW_WORDS && fresh(shifted) && words == old(words) && words[..] == before
        invariant forall k :: i <= k < WINDOW_WORDS ==> shifted[k] == 0
        invariant i == 0 || i + skip <= WINDOW_WORDS
        invariant forall k :: 0 <= k < i ==> shifted[k] == ShiftedWord(before, k + skip, bits)
      {
        var index := i + skip;
        if index >= WINDOW_WORDS {
          break;
        }
        var high: u64 := 0;
        if index + 1 < WINDOW_WORDS {
          high := Shl(words[index + 1], 64 - bits);
        } else {
          ShlZero(64 - bits);
        }
        JoinedShift(words[index], if index + 1 < WINDOW_WORDS then words[index + 1] else 0, bits, 0);
        shifted[i] := Or(Shr(words[index], bits), high);
        i := i + 1;
      }
      words := shifted;
      forall o | 0 <= o < WINDOW_SIZE
        ensures Marked(words[..], o) <==> o + shift < WINDOW_SIZE && Marked(before, o + shift)
      {
        if o / 64 < i {
          ShiftedBit(before, shift, o);
        } else {
          BitOfZero(o % 64);
        }
      }
    }

    /** Consumes one identity, as the ledger would. */
    method Admit(stream: u64) returns (v: Verdict)
      requires Valid()
      modifies this, words
      ensures Valid() && (words == old(words) || fresh(words))
      ensures v == Judge(old(ledger), stream)
      ensures ledger == Record(old(ledger), stream)
    {
      if stream == 0 {
        return Invalid;
      }
      hide Marked, Bit, And, Shl;
      RecordKeepsWellFormed(ledger, stream);
      if highest == 0 {
        highest := stream;
        base := WindowBase(stream);
        SetLocked(stream - base);
        ledger := Record(ledger, stream);
        return Admitted;
      }
      if stream < base {
        return Stale;
      }
      if stream <= highest {
        var offset := stream - base;
        MaskedIsMarked(words[..], offset);
        assert Marked(words[..], offset) <==> stream in ledger.consumed;
        if And(words[offset / 64], Shl(1, offset % 64)) != 0 {
          return Stale;
        }
        SetLocked(offset);
        ledger := Record(ledger, stream);
        return Admitted;
      }
      var next := WindowBase(stream);
      if next > base {
        ShiftLocked(next - base);
        base := next;
      }
      highest := stream;
      SetLocked(stream - base);
      ledger := Record(ledger, stream);
      return Admitted;
    }
  }

  /** Word `index` and its successor, shifted right together by `bits`. */
  function ShiftedWord(words: seq<u64>, index: nat, bits: nat): nat
    requires |words| == WINDOW_WORDS && index < WINDOW_WORDS && bits < 64
  {
    Or(Shr(words[index], bits), Shl(if index + 1 < WINDOW_WORDS then words[index + 1] else 0, 64 - bits))
  }

  lemma MaskedIsMarked(words: seq<u64>, offset: nat)
    requires |words| == WINDOW_WORDS && offset < WINDOW_SIZE
    ensures And(words[offset / 64], Shl(1, offset % 64)) != 0 <==> Marked(words, offset)
  {
    MaskTest(words[offset / 64], offset % 64);
  }

  lemma {:induction false} ShlZero(s: nat)
    ensures Shl(0, s) == 0
  {
    if s > 0 {
      ShlZero(s - 1);
    }
  }

  lemma ShiftedBit(before: seq<u64>, shift: nat, o: nat)
    requires |before| == WINDOW_WORDS && shift < WINDOW_SIZE && o < WINDOW_SIZE
    requires o / 64 + shift / 64 < WINDOW_WORDS
    ensures Bit(ShiftedWord(before, o / 64 + shift / 64, shift % 64), o % 64)
            <==> o + shift < WINDOW_SIZE && Marked(before, o + shift)
  {
    hide ShiftedWord, Bit, Or, Shr, Shl;
    SplitSum(o, shift);
    ShiftedWordBit(before, o / 64 + shift / 64, shift % 64, o % 64);
  }

  lemma SplitSum(o: nat, shift: nat)
    ensures var index, j := o / 64 + shift / 64, o % 64 + shift % 64;
            if j < 64 then (o + shift) / 64 == index && (o + shift) % 64 == j
            else (o + shift) / 64 == index + 1 && (o + shift) % 64 == j - 64
  {
  }

  lemma ShiftedWordBit(before: seq<u64>, index: nat, bits: nat, j: nat)
    requires |before| == WINDOW_WORDS && index < WINDOW_WORDS && bits < 64 && j < 64
    ensures Bit(ShiftedWord(before, index, bits), j)
            <==> if j + bits < 64 then Bit(before[index], j + bits)
                 else index + 1 < WINDOW_WORDS && Bit(before[index + 1], j + bits - 64)
  {
    hide Bit, Or, Shr, Shl;
    var high: u64 := if index + 1 < WINDOW_WORDS then before[index + 1] else 0;
    JoinedShift(before[index], high, bits, j);
    if j + bits >= 64 {
      BitOfZero(j + bits - 64);
    }
  }
}
