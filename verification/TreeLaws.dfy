/**
 A layout tree as the list of its nodes with their depths, and what validity,
 height and cost mean in terms of that list.
 */
module TreeLaws {
  import opened Wire
  import opened Payload
  import opened LayoutTree

  datatype Placed = Placed(node: Node, depth: nat)

  /** Every node of the tree in pre-order, nil ones included. */
  function Flat(n: Node, depth: nat): (r: seq<Placed>)
    ensures |r| > 0 && r[0] == Placed(n, depth)
    decreases n, 1
  {
    [Placed(n, depth)] +
    match n
    case Nil => []
    case Leaf(_, _) => []
    case Split(_, cs, _) => FlatAll(cs, depth + 1)
    case Stack(_, cs, _) => FlatAll(cs, depth + 1)
  }

  function FlatAll(ns: seq<Node>, depth: nat): seq<Placed>
    decreases ns, 0
  {
    if ns == [] then [] else Flat(ns[0], depth) + FlatAll(ns[1..], depth)
  }

  // ----- Validity

  /** What one node must satisfy: a declared pane, a known axis, a declared expanded pane or none. */
  predicate NodeOk(n: Node, ids: set<PaneID>) {
    match n
    case Nil => false
    case Leaf(p, _) => p in ids
    case Split(d, _, _) => d == 0 || d == 1
    case Stack(e, _, _) => e == [] || e in ids
  }

  predicate AllOk(xs: seq<Placed>, ids: set<PaneID>) {
    forall i :: 0 <= i < |xs| ==> NodeOk(xs[i].node, ids)
  }

  lemma AllOkAppend(xs: seq<Placed>, ys: seq<Placed>, ids: set<PaneID>)
    ensures AllOk(xs + ys, ids) <==> AllOk(xs, ids) && AllOk(ys, ids)
  {
    hide NodeOk;
    if AllOk(xs + ys, ids) {
      forall i | 0 <= i < |xs| ensures NodeOk(xs[i].node, ids) {
        assert (xs + ys)[i] == xs[i];
      }
      forall i | 0 <= i < |ys| ensures NodeOk(ys[i].node, ids) {
        assert (xs + ys)[|xs| + i] == ys[i];
      }
    }
  }

  /** A tree is valid exactly when each of its nodes is. */
  lemma {:induction false} ValidExactly(n: Node, depth: nat, ids: set<PaneID>)
    ensures NodeValid(n, ids) <==> AllOk(Flat(n, depth), ids)
    decreases n, 1
  {
    var cs := if n.Split? || n.Stack? then n.children else [];
    if n.Split? || n.Stack? {
      AllValidExactly(n.children, depth + 1, ids);
    }
    AllOkAppend([Placed(n, depth)], FlatAll(cs, depth + 1), ids);
    assert AllOk([Placed(n, depth)], ids) <==> NodeOk(n, ids) by {
      assert [Placed(n, depth)][0].node == n;
    }
    assert Flat(n, depth) == [Placed(n, depth)] + FlatAll(cs, depth + 1);
  }

  lemma {:induction false} AllValidExactly(ns: seq<Node>, depth: nat, ids: set<PaneID>)
    ensures NodesValid(ns, ids) <==> AllOk(FlatAll(ns, depth), ids)
    decreases ns, 0
  {
    hide NodeOk;
    if ns == [] {
    } else {
      ValidExactly(ns[0], depth, ids);
      AllValidExactly(ns[1..], depth, ids);
      AllOkAppend(Flat(ns[0], depth), FlatAll(ns[1..], depth), ids);
      assert ns == [ns[0]] + ns[1..];
    }
  }

  // ----- Height

  predicate NoDeeper(xs: seq<Placed>, limit: int) {
    forall i :: 0 <= i < |xs| ==> xs[i].depth <= limit
  }

  lemma NoDeeperAppend(xs: seq<Placed>, ys: seq<Placed>, limit: int)
    ensures NoDeeper(xs + ys, limit) <==> NoDeeper(xs, limit) && NoDeeper(ys, limit)
  {
    if NoDeeper(xs + ys, limit) {
      forall i | 0 <= i < |xs| ensures xs[i].depth <= limit {
        assert (xs + ys)[i] == xs[i];
      }
      forall i | 0 <= i < |ys| ensures ys[i].depth <= limit {
        assert (xs + ys)[|xs| + i] == ys[i];
      }
    }
  }

  /** A tree has height at most `h` exactly when no node lies deeper than that. */
  lemma {:induction false} HeightExactly(n: Node, depth: nat, h: int)
    ensures HeightWithin(n, h) <==> NoDeeper(Flat(n, depth), depth + h)
    decreases n, 1
  {
    var cs := if n.Split? || n.Stack? then n.children else [];
    if n.Split? || n.Stack? {
      AllHeightExactly(n.children, depth + 1, h - 1);
    }
    NoDeeperAppend([Placed(n, depth)], FlatAll(cs, depth + 1), depth + h);
    assert NoDeeper([Placed(n, depth)], depth + h) <==> h >= 0 by {
      assert [Placed(n, depth)][0].depth == depth;
    }
    assert Flat(n, depth) == [Placed(n, depth)] + FlatAll(cs, depth + 1);
  }

  lemma {:induction false} AllHeightExactly(ns: seq<Node>, depth: nat, h: int)
    ensures AllWithin(ns, h) <==> NoDeeper(FlatAll(ns, depth), depth + h)
    decreases ns, 0
  {
    if ns == [] {
    } else {
      HeightExactly(ns[0], depth, h);
      AllHeightExactly(ns[1..], depth, h);
      NoDeeperAppend(Flat(ns[0], depth), FlatAll(ns[1..], depth), depth + h);
      assert ns == [ns[0]] + ns[1..];
    }
  }

  // ----- Cost

  /** The bytes of the strings of these nodes, and how many strings there are. */
  function TextBytes(xs: seq<Placed>): nat {
    if xs == [] then 0
    else
      TextBytes(xs[1..]) +
      match xs[0].node
      case Leaf(p, _) => |p|
      case Stack(e, _, _) => |e|
      case _ => 0
  }

  function TextCount(xs: seq<Placed>): nat {
    if xs == [] then 0 else TextCount(xs[1..]) + if xs[0].node.Leaf? || xs[0].node.Stack? then 1 else 0
  }

  lemma {:induction false} TextAppend(xs: seq<Placed>, ys: seq<Placed>)
    ensures TextBytes(xs + ys) == TextBytes(xs) + TextBytes(ys)
    ensures TextCount(xs + ys) == TextCount(xs) + TextCount(ys)
  {
    if xs == [] {
      assert xs + ys == ys;
    } else {
      TextAppend(xs[1..], ys);
      assert (xs + ys)[1..] == xs[1..] + ys;
    }
  }

  /** A tree costs 128 bytes a node, nil roots included, and 16 bytes a string on top of its bytes. */
  lemma {:induction false} CostExactly(n: Node, depth: nat)
    ensures var xs := Flat(n, depth); Cost(n) == 128 * |xs| + 16 * TextCount(xs) + TextBytes(xs)
    decreases n, 1
  {
    var cs := if n.Split? || n.Stack? then n.children else [];
    if n.Split? || n.Stack? {
      AllCostExactly(n.children, depth + 1);
    }
    var here := [Placed(n, depth)];
    assert here[1..] == [];
    TextAppend(here, FlatAll(cs, depth + 1));
    assert Flat(n, depth) == here + FlatAll(cs, depth + 1);
  }

  lemma {:induction false} AllCostExactly(ns: seq<Node>, depth: nat)
    ensures var xs := FlatAll(ns, depth); CostAll(ns) == 128 * |xs| + 16 * TextCount(xs) + TextBytes(xs)
    decreases ns, 0
  {
    if ns == [] {
    } else {
      CostExactly(ns[0], depth);
      AllCostExactly(ns[1..], depth);
      TextAppend(Flat(ns[0], depth), FlatAll(ns[1..], depth));
    }
  }

  // ----- Weights

  function OwnWeight(n: Node): seq<u64> {
    if n.Nil? then [] else [n.weight]
  }

  /** The weights of the nodes that are there, in this order. */
  function WeightsOf(xs: seq<Placed>): seq<u64> {
    if xs == [] then [] else OwnWeight(xs[0].node) + WeightsOf(xs[1..])
  }

  lemma {:induction false} WeightsOfAppend(xs: seq<Placed>, ys: seq<Placed>)
    ensures WeightsOf(xs + ys) == WeightsOf(xs) + WeightsOf(ys)
  {
    hide OwnWeight;
    if xs == [] {
      assert xs + ys == ys;
    } else {
      WeightsOfAppend(xs[1..], ys);
      assert (xs + ys)[1..] == xs[1..] + ys && (xs + ys)[0] == xs[0];
      var first, more, last := OwnWeight(xs[0].node), WeightsOf(xs[1..]), WeightsOf(ys);
      assert first + (more + last) == (first + more) + last;
    }
  }

  /** Weights are collected in the order in which the nodes themselves are written. */
  lemma {:induction false} WeightsInPreOrder(n: Node, depth: nat)
    ensures Weights(n) == WeightsOf(Flat(n, depth))
    decreases n, 1
  {
    var cs := if n.Split? || n.Stack? then n.children else [];
    if n.Split? || n.Stack? {
      AllWeightsInPreOrder(n.children, depth + 1);
    }
    var here := [Placed(n, depth)];
    assert here[1..] == [];
    WeightsOfAppend(here, FlatAll(cs, depth + 1));
    assert Flat(n, depth) == here + FlatAll(cs, depth + 1);
    assert WeightsOf(here) == if n.Nil? then [] else [n.weight];
  }

  lemma {:induction false} AllWeightsInPreOrder(ns: seq<Node>, depth: nat)
    ensures WeightsAll(ns) == WeightsOf(FlatAll(ns, depth))
    decreases ns, 0
  {
    if ns != [] {
      WeightsInPreOrder(ns[0], depth);
      AllWeightsInPreOrder(ns[1..], depth);
      WeightsOfAppend(Flat(ns[0], depth), FlatAll(ns[1..], depth));
    }
  }

  // ----- Bytes

  function StringBytes(s: bytes): bytes
    requires |s| <= 65535
  {
    [|s| / 256, |s| % 256] + s
  }

  /** The bytes that stand for one node, without its children. */
  function NodeBytes(n: Node): bytes
    requires NodeFits(n)
  {
    match n
    case Nil => [3]
    case Leaf(p, _) => [0] + StringBytes(p)
    case Split(d, cs, _) => [1, d] + [|cs| / 256, |cs| % 256]
    case Stack(e, cs, _) => [2] + StringBytes(e) + [|cs| / 256, |cs| % 256]
  }

  predicate AllFit(xs: seq<Placed>) {
    forall i :: 0 <= i < |xs| ==> NodeFits(xs[i].node)
  }

  function BytesOfNodes(xs: seq<Placed>): bytes
    requires AllFit(xs)
  {
    if xs == [] then [] else NodeBytes(xs[0].node) + BytesOfNodes(xs[1..])
  }

  lemma {:induction false} FlatFits(n: Node, depth: nat)
    requires NodeFits(n)
    ensures AllFit(Flat(n, depth))
    decreases n, 1
  {
    if n.Split? || n.Stack? {
      FlatAllFits(n.children, depth + 1);
    }
  }

  lemma {:induction false} FlatAllFits(ns: seq<Node>, depth: nat)
    requires NodesFit(ns)
    ensures AllFit(FlatAll(ns, depth))
    decreases ns, 0
  {
    if ns != [] {
      FlatFits(ns[0], depth);
      FlatAllFits(ns[1..], depth);
    }
  }

  lemma {:induction false} BytesOfNodesAppend(xs: seq<Placed>, ys: seq<Placed>)
    requires AllFit(xs) && AllFit(ys)
    ensures AllFit(xs + ys) && BytesOfNodes(xs + ys) == BytesOfNodes(xs) + BytesOfNodes(ys)
  {
    hide NodeBytes, NodeFits;
    if xs == [] {
      assert xs + ys == ys;
    } else {
      BytesOfNodesAppend(xs[1..], ys);
      assert (xs + ys)[1..] == xs[1..] + ys;
    }
  }

  /** One node is written as its own bytes, then its children. */
  lemma NodeFirst(n: Node, k: bytes)
    requires NodeFits(n)
    ensures PutNode(n, k) == NodeBytes(n) + if n.Split? || n.Stack? then PutNodes(n.children, k) else k
  {
    hide PutNodes;
    if n.Stack? {
      var rest := PutNodes(n.children, k);
      StringPlain(n.expanded, PutU16(|n.children|, rest));
      assert PutU16(|n.children|, rest) == [|n.children| / 256, |n.children| % 256] + rest;
    } else if n.Leaf? {
      StringPlain(n.pane, k);
    }
  }

  lemma StringPlain(s: bytes, k: bytes)
    requires |s| <= 65535
    ensures PutString(s, k) == StringBytes(s) + k
  {
  }

  /** A tree is written as its nodes one after the other, each by its own bytes. */
  lemma {:induction false} WrittenInPreOrder(n: Node, depth: nat, k: bytes)
    requires NodeFits(n)
    ensures AllFit(Flat(n, depth)) && PutNode(n, k) == BytesOfNodes(Flat(n, depth)) + k
    decreases n, 1
  {
    hide PutNode, NodeBytes, PutNodes, BytesOfNodes, AllFit;
    FlatFits(n, depth);
    NodeFirst(n, k);
    var here := [Placed(n, depth)];
    OneNode(n, depth);
    if n.Split? || n.Stack? {
      AllWrittenInPreOrder(n.children, depth + 1, k);
      var below := FlatAll(n.children, depth + 1);
      BytesOfNodesAppend(here, below);
      assert Flat(n, depth) == here + below;
      assert NodeBytes(n) + (BytesOfNodes(below) + k) == (NodeBytes(n) + BytesOfNodes(below)) + k;
    } else {
      assert Flat(n, depth) == here;
    }
  }

  lemma OneNode(n: Node, depth: nat)
    requires NodeFits(n)
    ensures AllFit([Placed(n, depth)]) && BytesOfNodes([Placed(n, depth)]) == NodeBytes(n)
  {
    hide NodeBytes;
    var here := [Placed(n, depth)];
    assert here[1..] == [] && BytesOfNodes(here[1..]) == [];
  }

  lemma {:induction false} AllWrittenInPreOrder(ns: seq<Node>, depth: nat, k: bytes)
    requires NodesFit(ns)
    ensures AllFit(FlatAll(ns, depth)) && PutNodes(ns, k) == BytesOfNodes(FlatAll(ns, depth)) + k
    decreases ns, 0
  {
    hide NodeBytes;
    FlatAllFits(ns, depth);
    if ns != [] {
      AllWrittenInPreOrder(ns[1..], depth, k);
      WrittenInPreOrder(ns[0], depth, PutNodes(ns[1..], k));
      FlatFits(ns[0], depth);
      FlatAllFits(ns[1..], depth);
      var first, more := Flat(ns[0], depth), FlatAll(ns[1..], depth);
      BytesOfNodesAppend(first, more);
      assert BytesOfNodes(first) + (BytesOfNodes(more) + k) == (BytesOfNodes(first) + BytesOfNodes(more)) + k;
    }
  }
}
