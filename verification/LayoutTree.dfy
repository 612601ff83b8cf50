/**
 The pane layout tree of a tab, its wire form, and the quantities the codecs
 compute over it.

 A nil pointer is the constructor `Nil`. The wire form allows it anywhere; the
 validators allow it only as a root.
 */
module LayoutTree {
  import opened Wire
  import opened Payload

  type PaneID = bytes

  /** `weight` is the IEEE-754 bit pattern of the node's layout weight. */
  datatype Node =
    | Nil
    | Leaf(pane: PaneID, weight: u64)
    | Split(dir: byte, children: seq<Node>, weight: u64)
    | Stack(expanded: PaneID, children: seq<Node>, weight: u64)

  const HORIZONTAL: byte := 0
  const VERTICAL: byte := 1

  const LEAF_TAG: byte := 0
  const SPLIT_TAG: byte := 1
  const STACK_TAG: byte := 2
  const NIL_TAG: byte := 3

  const MAX_DEPTH: nat := 64
  const NODE_COST: nat := 128
  const STRING_COST: nat := 16

  // ----- Wire form

  /** Every string and child count of the tree fits its 16-bit length field. */
  predicate NodeFits(n: Node) {
    match n
    case Nil => true
    case Leaf(p, _) => |p| <= MAX_U16
    case Split(_, cs, _) => |cs| <= MAX_U16 && NodesFit(cs)
    case Stack(e, cs, _) => |e| <= MAX_U16 && |cs| <= MAX_U16 && NodesFit(cs)
  }

  predicate NodesFit(ns: seq<Node>) {
    forall i :: 0 <= i < |ns| ==> NodeFits(ns[i])
  }

  function PutNode(n: Node, k: bytes): bytes
    requires NodeFits(n)
    decreases n, 1
  {
    match n
    case Nil => PutByte(NIL_TAG, k)
    case Leaf(p, _) => PutByte(LEAF_TAG, PutString(p, k))
    case Split(d, cs, _) => PutByte(SPLIT_TAG, PutByte(d, PutU16(|cs|, PutNodes(cs, k))))
    case Stack(e, cs, _) => PutByte(STACK_TAG, PutString(e, PutU16(|cs|, PutNodes(cs, k))))
  }

  function PutNodes(ns: seq<Node>, k: bytes): bytes
    requires NodesFit(ns)
    decreases ns, 0
  {
    if ns == [] then k else PutNode(ns[0], PutNodes(ns[1..], k))
  }

  /** The parser leaves every weight zero; weights travel separately. */
  function GetNode(b: bytes): (p: Parsed<Node>)
    ensures p.Parsed? ==> |p.rest| < |b| && NodeFits(p.value)
    decreases |b|, 0
  {
    var (kind, b1) :- GetByte(b);
    if kind == LEAF_TAG then
      var (pane, b2) :- GetString(b1);
      Parsed(Leaf(pane, 0), b2)
    else if kind == SPLIT_TAG then
      var (dir, b2) :- GetByte(b1);
      var (n, b3) :- GetU16(b2);
      var (cs, b4) :- GetNodes(b3, n);
      Parsed(Split(dir, cs, 0), b4)
    else if kind == STACK_TAG then
      var (expanded, b2) :- GetString(b1);
      var (n, b3) :- GetU16(b2);
      var (cs, b4) :- GetNodes(b3, n);
      Parsed(Stack(expanded, cs, 0), b4)
    else if kind == NIL_TAG then
      Parsed(Nil, b1)
    else
      Rejected
  }

  function GetNodes(b: bytes, n: nat): (p: Parsed<seq<Node>>)
    ensures p.Parsed? ==> |p.value| == n && NodesFit(p.value) && |p.rest| + n <= |b|
    decreases |b|, n + 1
  {
    if n == 0 then Parsed([], b)
    else
      var (c, b1) :- GetNode(b);
      After([c], GetNodes(b1, n - 1))
  }

  /** The tree with every weight cleared. */
  function Strip(n: Node): Node
    decreases n, 1
  {
    match n
    case Nil => Nil
    case Leaf(p, _) => Leaf(p, 0)
    case Split(d, cs, _) => Split(d, StripAll(cs), 0)
    case Stack(e, cs, _) => Stack(e, StripAll(cs), 0)
  }

  function StripAll(ns: seq<Node>): (r: seq<Node>)
    ensures |r| == |ns|
    ensures forall i :: 0 <= i < |ns| ==> r[i] == Strip(ns[i])
    decreases ns, 0
  {
    if ns == [] then [] else [Strip(ns[0])] + StripAll(ns[1..])
  }

  lemma {:induction false} NodeRoundTrip(n: Node, k: bytes)
    requires NodeFits(n)
    ensures GetNode(PutNode(n, k)) == Parsed(Strip(n), k)
    decreases n, 1
  {
    hide GetNodes, PutNodes, GetString, PutString, StripAll;
    match n
    case Nil =>
      ByteRoundTrip(NIL_TAG, k);
    case Leaf(p, _) =>
      ByteRoundTrip(LEAF_TAG, PutString(p, k));
      StringRoundTrip(p, k);
    case Split(d, cs, _) =>
      var k1 := PutNodes(cs, k);
      ByteRoundTrip(SPLIT_TAG, PutByte(d, PutU16(|cs|, k1)));
      ByteRoundTrip(d, PutU16(|cs|, k1));
      U16RoundTrip(|cs|, k1);
      NodesRoundTrip(cs, k);
    case Stack(e, cs, _) =>
      var k1 := PutNodes(cs, k);
      ByteRoundTrip(STACK_TAG, PutString(e, PutU16(|cs|, k1)));
      StringRoundTrip(e, PutU16(|cs|, k1));
      U16RoundTrip(|cs|, k1);
      NodesRoundTrip(cs, k);
  }

  lemma {:induction false} NodesRoundTrip(ns: seq<Node>, k: bytes)
    requires NodesFit(ns)
    ensures GetNodes(PutNodes(ns, k), |ns|) == Parsed(StripAll(ns), k)
    decreases ns, 0
  {
    hide GetNode, PutNode, Strip;
    if ns == [] {
    } else {
      NodeRoundTrip(ns[0], PutNodes(ns[1..], k));
      NodesRoundTrip(ns[1..], k);
    }
  }

  lemma {:induction false} NodeCanonical(b: bytes)
    requires GetNode(b).Parsed?
    ensures PutNode(GetNode(b).value, GetNode(b).rest) == b
    ensures Strip(GetNode(b).value) == GetNode(b).value
    decreases |b|, 0
  {
    hide GetNodes, PutNodes, GetString, PutString, StripAll;
    ByteCanonical(b);
    var b1 := GetByte(b).rest;
    match GetNode(b).value
    case Nil =>
    case Leaf(_, _) =>
      StringCanonical(b1);
    case Split(_, cs, _) =>
      ByteCanonical(b1);
      var b2 := GetByte(b1).rest;
      U16Canonical(b2);
      NodesCanonical(GetU16(b2).rest, GetU16(b2).value);
    case Stack(_, cs, _) =>
      StringCanonical(b1);
      var b2 := GetString(b1).rest;
      U16Canonical(b2);
      NodesCanonical(GetU16(b2).rest, GetU16(b2).value);
  }

  lemma {:induction false} NodesCanonical(b: bytes, n: nat)
    requires GetNodes(b, n).Parsed?
    ensures PutNodes(GetNodes(b, n).value, GetNodes(b, n).rest) == b
    ensures StripAll(GetNodes(b, n).value) == GetNodes(b, n).value
    decreases |b|, n + 1
  {
    hide GetNode, PutNode, Strip;
    if n == 0 {
    } else {
      var p := GetNode(b);
      NodeCanonical(b);
      NodesCanonical(p.rest, n - 1);
      assert GetNodes(b, n).value[1..] == GetNodes(p.rest, n - 1).value;
    }
  }

  // ----- What the validators and the budget look at

  /** Split axes are known and nil occurs only as a root. */
  predicate WellShaped(n: Node, root: bool) {
    match n
    case Nil => root
    case Leaf(_, _) => true
    case Split(d, cs, _) => (d == HORIZONTAL || d == VERTICAL) && AllShaped(cs)
    case Stack(_, cs, _) => AllShaped(cs)
  }

  predicate AllShaped(ns: seq<Node>) {
    forall i :: 0 <= i < |ns| ==> WellShaped(ns[i], false)
  }

  /** No node lies more than `h` levels below this one. */
  predicate HeightWithin(n: Node, h: int) {
    && h >= 0
    && match n
       case Nil => true
       case Leaf(_, _) => true
       case Split(_, cs, _) => AllWithin(cs, h - 1)
       case Stack(_, cs, _) => AllWithin(cs, h - 1)
  }

  predicate AllWithin(ns: seq<Node>, h: int) {
    forall i :: 0 <= i < |ns| ==> HeightWithin(ns[i], h)
  }

  /** Decoded size charged for a tree by the manifest budget. */
  function Cost(n: Node): nat
    decreases n, 1
  {
    NODE_COST + match n
                case Nil => 0
                case Leaf(p, _) => |p| + STRING_COST
                case Split(_, cs, _) => CostAll(cs)
                case Stack(e, cs, _) => |e| + STRING_COST + CostAll(cs)
  }

  function CostAll(ns: seq<Node>): nat
    decreases ns, 0
  {
    if ns == [] then 0 else Cost(ns[0]) + CostAll(ns[1..])
  }

  /** The number of non-nil nodes. */
  function Count(n: Node): nat
    decreases n, 1
  {
    match n
    case Nil => 0
    case Leaf(_, _) => 1
    case Split(_, cs, _) => 1 + CountAll(cs)
    case Stack(_, cs, _) => 1 + CountAll(cs)
  }

  function CountAll(ns: seq<Node>): nat
    decreases ns, 0
  {
    if ns == [] then 0 else Count(ns[0]) + CountAll(ns[1..])
  }

  /** The pane identities a tree mentions, in pre-order. */
  function Refs(n: Node): seq<PaneID>
    decreases n, 1
  {
    match n
    case Nil => []
    case Leaf(p, _) => [p]
    case Split(_, cs, _) => RefsAll(cs)
    case Stack(e, cs, _) => (if e == [] then [] else [e]) + RefsAll(cs)
  }

  function RefsAll(ns: seq<Node>): seq<PaneID>
    decreases ns, 0
  {
    if ns == [] then [] else Refs(ns[0]) + RefsAll(ns[1..])
  }

  /** The tree validator: known axes, no nil child, every mentioned pane declared. */
  predicate NodeValid(n: Node, ids: set<PaneID>) {
    match n
    case Nil => false
    case Leaf(p, _) => p in ids
    case Split(d, cs, _) => (d == HORIZONTAL || d == VERTICAL) && NodesValid(cs, ids)
    case Stack(e, cs, _) => (e == [] || e in ids) && NodesValid(cs, ids)
  }

  predicate NodesValid(ns: seq<Node>, ids: set<PaneID>) {
    forall i :: 0 <= i < |ns| ==> NodeValid(ns[i], ids)
  }

  predicate TreeValid(root: Node, ids: set<PaneID>) {
    root.Nil? || NodeValid(root, ids)
  }

  predicate AllIn(refs: seq<PaneID>, ids: set<PaneID>) {
    forall i :: 0 <= i < |refs| ==> refs[i] in ids
  }

  lemma AllInAppend(a: seq<PaneID>, b: seq<PaneID>, ids: set<PaneID>)
    ensures AllIn(a + b, ids) <==> AllIn(a, ids) && AllIn(b, ids)
  {
    if AllIn(a + b, ids) {
      forall i | 0 <= i < |a| ensures a[i] in ids {
        assert (a + b)[i] in ids;
      }
      forall i | 0 <= i < |b| ensures b[i] in ids {
        assert (a + b)[|a| + i] in ids;
      }
    }
  }

  /**
   Two independently written tree checks agree: the recursive validator, and
   the shape check that collects references and tests them all at the end.
   */
  lemma {:induction false} ShapeAndRefsAreValidity(n: Node, ids: set<PaneID>, root: bool)
    ensures (if root then TreeValid(n, ids) else NodeValid(n, ids))
            <==> WellShaped(n, root) && AllIn(Refs(n), ids)
    decreases n, 1
  {
    match n
    case Nil =>
    case Leaf(p, _) =>
      assert Refs(n)[0] == p;
    case Split(_, cs, _) =>
      ShapesAndRefsAreValidity(cs, ids);
    case Stack(e, cs, _) =>
      ShapesAndRefsAreValidity(cs, ids);
      var own: seq<PaneID> := if e == [] then [] else [e];
      AllInAppend(own, RefsAll(cs), ids);
      assert AllIn(own, ids) <==> e == [] || e in ids by {
        if e != [] {
          assert own[0] == e;
        }
      }
  }

  lemma {:induction false} ShapesAndRefsAreValidity(ns: seq<Node>, ids: set<PaneID>)
    ensures NodesValid(ns, ids) <==> AllShaped(ns) && AllIn(RefsAll(ns), ids)
    decreases ns, 0
  {
    if ns == [] {
    } else {
      ShapeAndRefsAreValidity(ns[0], ids, false);
      ShapesAndRefsAreValidity(ns[1..], ids);
      AllInAppend(Refs(ns[0]), RefsAll(ns[1..]), ids);
      assert ns == [ns[0]] + ns[1..];
    }
  }

  // ----- The same quantities over a list that grows at the end

  lemma {:induction false} Snoc(ns: seq<Node>, c: Node)
    ensures CostAll(ns + [c]) == CostAll(ns) + Cost(c)
    ensures CountAll(ns + [c]) == CountAll(ns) + Count(c)
    ensures RefsAll(ns + [c]) == RefsAll(ns) + Refs(c)
  {
    hide Cost, Count, Refs;
    if ns == [] {
      assert [] + [c] == [c];
      assert CostAll([c]) == Cost(c) + CostAll([]);
      assert RefsAll([c]) == Refs(c) + RefsAll([]);
    } else {
      Snoc(ns[1..], c);
      assert (ns + [c])[1..] == ns[1..] + [c];
    }
  }

  lemma {:induction false} CostBoundsPrefix(ns: seq<Node>, ms: seq<Node>)
    ensures CostAll(ns + ms) == CostAll(ns) + CostAll(ms)
  {
    if ns == [] {
      assert [] + ms == ms;
    } else {
      CostBoundsPrefix(ns[1..], ms);
      assert (ns + ms)[1..] == ns[1..] + ms;
    }
  }

  /** Every counted node has been charged, so a 32-bit counter cannot wrap. */
  lemma {:induction false} CountWithinCost(n: Node)
    ensures NODE_COST * Count(n) <= Cost(n)
    decreases n, 1
  {
    match n
    case Nil =>
    case Leaf(_, _) =>
    case Split(_, cs, _) => CountsWithinCost(cs);
    case Stack(_, cs, _) => CountsWithinCost(cs);
  }

  lemma {:induction false} CountsWithinCost(ns: seq<Node>)
    ensures NODE_COST * CountAll(ns) <= CostAll(ns)
    decreases ns, 0
  {
    if ns == [] {
    } else {
      CountWithinCost(ns[0]);
      CountsWithinCost(ns[1..]);
    }
  }

  // ----- Weights

  /** Weights of the non-nil nodes, in pre-order. */
  function Weights(n: Node): (ws: seq<u64>)
    ensures |ws| == Count(n)
    decreases n, 1
  {
    match n
    case Nil => []
    case Leaf(_, w) => [w]
    case Split(_, cs, w) => [w] + WeightsAll(cs)
    case Stack(_, cs, w) => [w] + WeightsAll(cs)
  }

  function WeightsAll(ns: seq<Node>): (ws: seq<u64>)
    ensures |ws| == CountAll(ns)
    decreases ns, 0
  {
    if ns == [] then [] else Weights(ns[0]) + WeightsAll(ns[1..])
  }

  /** The tree with its weights replaced, in pre-order. */
  function Assign(n: Node, ws: seq<u64>): Node
    requires |ws| == Count(n)
    decreases n, 1
  {
    match n
    case Nil => Nil
    case Leaf(p, _) => Leaf(p, ws[0])
    case Split(d, cs, _) => Split(d, AssignAll(cs, ws[1..]), ws[0])
    case Stack(e, cs, _) => Stack(e, AssignAll(cs, ws[1..]), ws[0])
  }

  function AssignAll(ns: seq<Node>, ws: seq<u64>): (r: seq<Node>)
    requires |ws| == CountAll(ns)
    ensures |r| == |ns|
    decreases ns, 0
  {
    if ns == [] then []
    else
      var c := Count(ns[0]);
      [Assign(ns[0], ws[..c])] + AssignAll(ns[1..], ws[c..])
  }

  /** Clearing the weights and giving them back is the identity. */
  lemma {:induction false} AssignOwnWeights(n: Node)
    ensures Count(Strip(n)) == Count(n)
    ensures Assign(Strip(n), Weights(n)) == n
    decreases n, 1
  {
    hide AssignAll, StripAll, WeightsAll;
    match n
    case Nil =>
    case Leaf(_, w) =>
    case Split(_, cs, w) =>
      AssignAllOwnWeights(cs);
      assert Weights(n)[1..] == WeightsAll(cs);
    case Stack(_, cs, w) =>
      AssignAllOwnWeights(cs);
      assert Weights(n)[1..] == WeightsAll(cs);
  }

  lemma {:induction false} AssignAllOwnWeights(ns: seq<Node>)
    ensures CountAll(StripAll(ns)) == CountAll(ns)
    ensures AssignAll(StripAll(ns), WeightsAll(ns)) == ns
    decreases ns, 0
  {
    hide Assign, Weights, Strip;
    if ns == [] {
    } else {
      AssignOwnWeights(ns[0]);
      AssignAllOwnWeights(ns[1..]);
      assert StripAll(ns)[1..] == StripAll(ns[1..]);
      var c := Count(ns[0]);
      assert WeightsAll(ns)[..c] == Weights(ns[0]);
      assert WeightsAll(ns)[c..] == WeightsAll(ns[1..]);
    }
  }

  /** Assigned weights are read back in the same order, and nothing else moves. */
  lemma {:induction false} WeightsOfAssigned(n: Node, ws: seq<u64>)
    requires |ws| == Count(n)
    ensures Weights(Assign(n, ws)) == ws
    ensures Strip(Assign(n, ws)) == Strip(n)
    decreases n, 1
  {
    hide AssignAll, StripAll, WeightsAll, CountAll;
    match n
    case Nil =>
    case Leaf(_, _) =>
    case Split(_, cs, _) => WeightsOfAllAssigned(cs, ws[1..]);
    case Stack(_, cs, _) => WeightsOfAllAssigned(cs, ws[1..]);
  }

  lemma {:induction false} WeightsOfAllAssigned(ns: seq<Node>, ws: seq<u64>)
    requires |ws| == CountAll(ns)
    ensures WeightsAll(AssignAll(ns, ws)) == ws
    ensures StripAll(AssignAll(ns, ws)) == StripAll(ns)
    decreases ns, 0
  {
    hide Assign, Strip, Weights, Count;
    if ns == [] {
    } else {
      var c := Count(ns[0]);
      WeightsOfAssigned(ns[0], ws[..c]);
      WeightsOfAllAssigned(ns[1..], ws[c..]);
      assert ws == ws[..c] + ws[c..];
      assert AssignAll(ns, ws)[1..] == AssignAll(ns[1..], ws[c..]);
    }
  }

  /** Nothing but `Weights` looks at weights. */
  lemma {:induction false} StripChangesOnlyWeights(n: Node)
    ensures Cost(Strip(n)) == Cost(n)
    ensures Count(Strip(n)) == Count(n)
    ensures Refs(Strip(n)) == Refs(n)
    ensures NodeFits(Strip(n)) <==> NodeFits(n)
    decreases n, 1
  {
    match n
    case Nil =>
    case Leaf(_, _) =>
    case Split(_, cs, _) => StripAllChangesOnlyWeights(cs);
    case Stack(_, cs, _) => StripAllChangesOnlyWeights(cs);
  }

  lemma {:induction false} StripAllChangesOnlyWeights(ns: seq<Node>)
    ensures CostAll(StripAll(ns)) == CostAll(ns)
    ensures CountAll(StripAll(ns)) == CountAll(ns)
    ensures RefsAll(StripAll(ns)) == RefsAll(ns)
    ensures NodesFit(StripAll(ns)) <==> NodesFit(ns)
    decreases ns, 0
  {
    if ns == [] {
    } else {
      StripChangesOnlyWeights(ns[0]);
      StripAllChangesOnlyWeights(ns[1..]);
      var s := StripAll(ns);
      assert s[1..] == StripAll(ns[1..]);
      assert NodesFit(s) <==> NodeFits(s[0]) && NodesFit(s[1..]);
      assert NodesFit(ns) <==> NodeFits(ns[0]) && NodesFit(ns[1..]);
    }
  }

  lemma {:induction false} StripKeepsShape(n: Node, root: bool, ids: set<PaneID>)
    ensures WellShaped(Strip(n), root) <==> WellShaped(n, root)
    ensures NodeValid(Strip(n), ids) <==> NodeValid(n, ids)
    decreases n
  {
    match n
    case Nil =>
    case Leaf(_, _) =>
    case Split(_, cs, _) =>
      forall i | 0 <= i < |cs| {
        StripKeepsShape(cs[i], false, ids);
      }
    case Stack(_, cs, _) =>
      forall i | 0 <= i < |cs| {
        StripKeepsShape(cs[i], false, ids);
      }
  }

  lemma {:induction false} StripKeepsHeight(n: Node, h: int)
    ensures HeightWithin(Strip(n), h) <==> HeightWithin(n, h)
    decreases n
  {
    match n
    case Nil =>
    case Leaf(_, _) =>
    case Split(_, cs, _) =>
      forall i | 0 <= i < |cs| {
        StripKeepsHeight(cs[i], h - 1);
      }
    case Stack(_, cs, _) =>
      forall i | 0 <= i < |cs| {
        StripKeepsHeight(cs[i], h - 1);
      }
  }

  lemma {:induction false} PutIgnoresWeights(n: Node, k: bytes)
    requires NodeFits(n) && NodeFits(Strip(n))
    ensures PutNode(Strip(n), k) == PutNode(n, k)
    decreases n, 1
  {
    match n
    case Nil =>
    case Leaf(_, _) =>
    case Split(_, cs, _) => PutAllIgnoresWeights(cs, k);
    case Stack(_, cs, _) => PutAllIgnoresWeights(cs, k);
  }

  lemma {:induction false} PutAllIgnoresWeights(ns: seq<Node>, k: bytes)
    requires NodesFit(ns) && NodesFit(StripAll(ns))
    ensures PutNodes(StripAll(ns), k) == PutNodes(ns, k)
    decreases ns, 0
  {
    if ns == [] {
    } else {
      assert StripAll(ns)[1..] == StripAll(ns[1..]);
      PutAllIgnoresWeights(ns[1..], k);
      PutIgnoresWeights(ns[0], PutNodes(ns[1..], k));
    }
  }
}
