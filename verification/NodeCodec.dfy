/** The layout tree reader, writer and validator shared by both snapshot codecs. */
module NodeCodec {
  import opened Wire
  import opened Payload
  import opened LayoutTree

  method WriteNode(w: PayloadWriter, n: Node, ghost k: bytes) returns (ok: bool)
    modifies w
    ensures ok <==> NodeFits(n)
    ensures ok ==> w.b + k == old(w.b) + PutNode(n, k)
    decreases n, 1
  {
    ghost var fits := NodeFits(n);
    match n
    case Nil =>
      w.PutUint8(NIL_TAG, k);
      return true;
    case Leaf(pane, _) =>
      w.PutUint8(LEAF_TAG, if fits then PutString(pane, k) else k);
      ok := w.PutStr(pane, k);
    case Split(dir, children, _) =>
      ghost var k1 := if fits then PutU16(|children|, PutNodes(children, k)) else k;
      w.PutUint8(SPLIT_TAG, PutByte(dir, k1));
      w.PutUint8(dir, k1);
      ok := WriteChildren(w, children, k);
    case Stack(expanded, children, _) =>
      ghost var k1 := if fits then PutU16(|children|, PutNodes(children, k)) else k;
      w.PutUint8(STACK_TAG, if fits then PutString(expanded, k1) else k);
      ok := w.PutStr(expanded, k1);
      if !ok {
        return;
      }
      ok := WriteChildren(w, children, k);
  }

  method WriteChildren(w: PayloadWriter, children: seq<Node>, ghost k: bytes) returns (ok: bool)
    modifies w
    ensures ok <==> |children| <= MAX_U16 && NodesFit(children)
    ensures ok ==> w.b + k == old(w.b) + PutU16(|children|, PutNodes(children, k))
    decreases children, 0
  {
    if |children| > MAX_U16 {
      return false;
    }
    ghost var fit := NodesFit(children);
    ghost var start := w.b;
    w.PutUint16(|children|, if fit then PutNodes(children, k) else k);
    for i := 0 to |children|
      invariant NodesFit(children[..i])
      invariant fit ==> w.b + PutNodes(children[i..], k) == start + PutU16(|children|, PutNodes(children, k))
    {
      assert children[i] in children;
      assert children[i..][1..] == children[i + 1..];
      ok := WriteNode(w, children[i], if fit then PutNodes(children[i + 1..], k) else k);
      if !ok {
        return;
      }
    }
    assert children[..|children|] == children;
    return true;
  }

  method ReadNode(r: PayloadReader) returns (res: Outcome<Node>)
    modifies r
    ensures Matches(GetNode(old(r.b)), res, r.b)
    decreases |r.b|, 0
  {
    var kind :- r.GetUint8();
    if kind == LEAF_TAG {
      var leaf :- r.GetStr();
      return Success(Leaf(leaf, 0));
    } else if kind == SPLIT_TAG {
      var dir :- r.GetUint8();
      var children :- ReadChildren(r);
      return Success(Split(dir, children, 0));
    } else if kind == STACK_TAG {
      var expanded :- r.GetStr();
      var children :- ReadChildren(r);
      return Success(Stack(expanded, children, 0));
    } else if kind == NIL_TAG {
      return Success(Nil);
    } else {
      return Failure;
    }
  }

  method ReadChildren(r: PayloadReader) returns (res: Outcome<seq<Node>>)
    modifies r
    ensures GetU16(old(r.b)).Rejected? ==> res == Failure
    ensures GetU16(old(r.b)).Parsed? ==> Matches(GetNodes(GetU16(old(r.b)).rest, GetU16(old(r.b)).value), res, r.b)
    decreases |r.b|, 1
  {
    hide GetNode;
    var n :- r.GetUint16();
    ghost var start := r.b;
    var out: seq<Node> := [];
    AfterNothing(GetNodes(r.b, n));
    for i := 0 to n
      invariant |out| == i && |r.b| <= |start|
      invariant GetNodes(start, n) == After(out, GetNodes(r.b, n - i))
    {
      var c :- ReadNode(r);
      AfterOneMore(out, c, GetNodes(r.b, n - i - 1));
      out := out + [c];
    }
    AfterAll(out, r.b);
    return Success(out);
  }

  method ValidateNode(n: Node, ids: set<PaneID>) returns (ok: bool)
    ensures ok <==> NodeValid(n, ids)
    decreases n, 1
  {
    match n
    case Nil =>
      return false;
    case Leaf(pane, _) =>
      return pane in ids;
    case Split(dir, children, _) =>
      if dir != HORIZONTAL && dir != VERTICAL {
        return false;
      }
      ok := ValidateChildren(children, ids);
    case Stack(expanded, children, _) =>
      if expanded != [] && expanded !in ids {
        return false;
      }
      ok := ValidateChildren(children, ids);
  }

  method ValidateChildren(children: seq<Node>, ids: set<PaneID>) returns (ok: bool)
    ensures ok <==> NodesValid(children, ids)
    decreases children, 0
  {
    for i := 0 to |children|
      invariant forall j :: 0 <= j < i ==> NodeValid(children[j], ids)
    {
      assert children[i] in children;
      ok := ValidateNode(children[i], ids);
      if !ok {
        return;
      }
    }
    return true;
  }

  method ValidateTree(root: Node, ids: set<PaneID>) returns (ok: bool)
    ensures ok <==> TreeValid(root, ids)
  {
    if root.Nil? {
      return true;
    }
    ok := ValidateNode(root, ids);
  }

  /** The pane references collected from one tab. */
  class References {
    var ids: seq<PaneID>

    constructor ()
      ensures ids == []
    {
      ids := [];
    }
  }

  method AllDeclared(refs: seq<PaneID>, ids: set<PaneID>) returns (ok: bool)
    ensures ok <==> AllIn(refs, ids)
  {
    for i := 0 to |refs|
      invariant AllIn(refs[..i], ids)
    {
      if refs[i] !in ids {
        return false;
      }
    }
    assert refs[..|refs|] == refs;
    return true;
  }
}
