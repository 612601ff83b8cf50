/**
 The allocation-free manifest checker. It is a second, independently written
 parser of the manifest grammar that charges an arithmetic budget and checks
 pane references before anything is decoded. Every method is proved to accept
 exactly what the decoding parsers of `ManifestFormat` accept, within budget.
 */
module ManifestPreflight {
  import opened Wire
  import opened Payload
  import opened LayoutTree
  import opened NodeCodec
  import opened ManifestFormat
  import opened ManifestRoundTrip

  class Budget {
    var allocation: u64
    var nodes: u32

    constructor ()
      ensures allocation == 0 && nodes == 0
    {
      allocation, nodes := 0, 0;
    }

    /** Keeps the subtraction in `Add` from underflowing and `nodes` from wrapping. */
    ghost predicate Valid()
      reads this
    {
      allocation <= MAX_ALLOCATION && NODE_COST * nodes <= allocation
    }

    method Add(n: u64) returns (ok: bool)
      requires Valid()
      modifies this`allocation
      ensures Valid()
      ensures ok <==> old(allocation) + n <= MAX_ALLOCATION
      ensures allocation == if ok then old(allocation) + n else old(allocation)
    {
      if n > MAX_ALLOCATION - allocation {
        return false;
      }
      allocation := allocation + n;
      return true;
    }
  }

  // ----- Strings

  ghost predicate StringAdmitted(b: bytes, spent: nat) {
    var p := GetString(b);
    p.Parsed? && spent + StringCost(p.value) <= MAX_ALLOCATION
  }

  method PreflightString(r: PayloadReader, budget: Budget) returns (res: Outcome<bytes>)
    requires budget.Valid()
    modifies r, budget`allocation
    ensures budget.Valid()
    ensures res.Success? <==> StringAdmitted(old(r.b), old(budget.allocation))
    ensures res.Success? ==>
              && Matches(GetString(old(r.b)), res, r.b)
              && budget.allocation == old(budget.allocation) + StringCost(res.value)
  {
    var n :- r.GetUint16();
    if n > |r.b| {
      return Failure;
    }
    var ok := budget.Add(n + 16);
    if !ok {
      return Failure;
    }
    res := Success(r.b[..n]);
    r.b := r.b[n..];
  }

  // ----- Layout trees

  ghost predicate NodeAdmitted(b: bytes, depth: nat, root: bool, spent: nat) {
    var p := GetNode(b);
    && p.Parsed?
    && WellShaped(p.value, root)
    && HeightWithin(p.value, MAX_DEPTH - depth)
    && spent + Cost(p.value) <= MAX_ALLOCATION
  }

  ghost predicate ChildrenAdmitted(b: bytes, n: nat, depth: nat, spent: nat) {
    var p := GetNodes(b, n);
    && p.Parsed?
    && AllShaped(p.value)
    && AllWithin(p.value, MAX_DEPTH - depth)
    && spent + CostAll(p.value) <= MAX_ALLOCATION
  }

  /** A child count followed by that many children. */
  ghost predicate ContainerAdmitted(b: bytes, depth: nat, spent: nat) {
    var n := GetU16(b);
    n.Parsed? && ChildrenAdmitted(n.rest, n.value, depth, spent)
  }

  /** What every node needs, whatever its kind. */
  lemma NodeNeeds(b: bytes, depth: nat, root: bool, spent: nat)
    requires NodeAdmitted(b, depth, root, spent)
    ensures depth <= MAX_DEPTH && spent + NODE_COST <= MAX_ALLOCATION
    ensures GetByte(b).Parsed? && GetByte(b).value <= NIL_TAG
  {
  }

  lemma NilAdmitted(b: bytes, depth: nat, root: bool, spent: nat)
    requires GetByte(b).Parsed? && GetByte(b).value == NIL_TAG
    requires depth <= MAX_DEPTH && spent + NODE_COST <= MAX_ALLOCATION
    ensures NodeAdmitted(b, depth, root, spent) <==> root
    ensures GetNode(b) == Parsed(Nil, GetByte(b).rest)
    ensures Cost(Nil) == NODE_COST && Count(Nil) == 0 && Refs(Nil) == []
  {
  }

  lemma LeafAdmitted(b: bytes, depth: nat, root: bool, spent: nat)
    requires GetByte(b).Parsed? && GetByte(b).value == LEAF_TAG && depth <= MAX_DEPTH
    ensures NodeAdmitted(b, depth, root, spent) <==> StringAdmitted(GetByte(b).rest, spent + NODE_COST)
    ensures NodeAdmitted(b, depth, root, spent) ==>
              var s := GetString(GetByte(b).rest);
              var n := GetNode(b).value;
              && GetNode(b).rest == s.rest && Refs(n) == [s.value]
              && Cost(n) == NODE_COST + StringCost(s.value) && Count(n) == 1
  {
    hide GetString, GetByte;
  }

  lemma SplitAdmitted(b: bytes, depth: nat, root: bool, spent: nat)
    requires GetByte(b).Parsed? && GetByte(b).value == SPLIT_TAG && depth <= MAX_DEPTH
    ensures NodeAdmitted(b, depth, root, spent) <==>
              var dir := GetByte(GetByte(b).rest);
              && dir.Parsed? && (dir.value == HORIZONTAL || dir.value == VERTICAL)
              && ContainerAdmitted(dir.rest, depth + 1, spent + NODE_COST)
    ensures NodeAdmitted(b, depth, root, spent) ==>
              var c := GetU16(GetByte(GetByte(b).rest).rest);
              var cs := GetNodes(c.rest, c.value);
              var n := GetNode(b).value;
              && GetNode(b).rest == cs.rest && Refs(n) == RefsAll(cs.value)
              && Cost(n) == NODE_COST + CostAll(cs.value) && Count(n) == 1 + CountAll(cs.value)
  {
    hide GetByte, GetU16, GetNodes, CostAll, CountAll, RefsAll, AllShaped, AllWithin;
  }

  lemma StackAdmitted(b: bytes, depth: nat, root: bool, spent: nat)
    requires GetByte(b).Parsed? && GetByte(b).value == STACK_TAG && depth <= MAX_DEPTH
    ensures NodeAdmitted(b, depth, root, spent) <==>
              var s := GetString(GetByte(b).rest);
              s.Parsed? && ContainerAdmitted(s.rest, depth + 1, spent + NODE_COST + StringCost(s.value))
    ensures NodeAdmitted(b, depth, root, spent) ==>
              var s := GetString(GetByte(b).rest);
              var c := GetU16(s.rest);
              var cs := GetNodes(c.rest, c.value);
              var n := GetNode(b).value;
              && GetNode(b).rest == cs.rest
              && Refs(n) == (if s.value == [] then [] else [s.value]) + RefsAll(cs.value)
              && Cost(n) == NODE_COST + StringCost(s.value) + CostAll(cs.value)
              && Count(n) == 1 + CountAll(cs.value)
  {
    hide GetByte, GetString, GetU16, GetNodes, CostAll, CountAll, RefsAll, AllShaped, AllWithin;
  }

  method PreflightNode(r: PayloadReader, depth: nat, root: bool, budget: Budget, refs: References)
    returns (ok: bool)
    requires budget.Valid()
    modifies r, budget, refs
    ensures budget.Valid()
    ensures ok <==> NodeAdmitted(old(r.b), depth, root, old(budget.allocation))
    ensures ok ==>
              var p := GetNode(old(r.b));
              && r.b == p.rest
              && budget.allocation == old(budget.allocation) + Cost(p.value)
              && budget.nodes == old(budget.nodes) + Count(p.value)
              && refs.ids == old(refs.ids) + Refs(p.value)
    decreases |r.b|, 0
  {
    hide GetByte, GetString, GetNode, Cost, Count, Refs, NodeAdmitted, ContainerAdmitted;
    ghost var b, spent := r.b, budget.allocation;
    if NodeAdmitted(b, depth, root, spent) {
      NodeNeeds(b, depth, root, spent);
    }
    if depth > MAX_DEPTH {
      return false;
    }
    ok := budget.Add(128);
    if !ok {
      return;
    }
    var kind := r.GetUint8();
    if kind.Failure? {
      return false;
    }
    if kind.value == LEAF_TAG {
      LeafAdmitted(b, depth, root, spent);
      var leaf := PreflightString(r, budget);
      if leaf.Failure? {
        return false;
      }
      budget.nodes := budget.nodes + 1;
      refs.ids := refs.ids + [leaf.value];
      return true;
    } else if kind.value == SPLIT_TAG {
      SplitAdmitted(b, depth, root, spent);
      var dir := r.GetUint8();
      if dir.Failure? || (dir.value != HORIZONTAL && dir.value != VERTICAL) {
        return false;
      }
      ok := PreflightContainer(r, depth + 1, budget, refs);
    } else if kind.value == STACK_TAG {
      StackAdmitted(b, depth, root, spent);
      var expanded := PreflightString(r, budget);
      if expanded.Failure? {
        StringNeeded(b, depth, spent);
        return false;
      }
      if expanded.value != [] {
        refs.ids := refs.ids + [expanded.value];
      }
      ok := PreflightContainer(r, depth + 1, budget, refs);
    } else if kind.value == NIL_TAG {
      NilAdmitted(b, depth, root, spent);
      assert refs.ids + [] == refs.ids;
      return root;
    } else {
      return false;
    }
  }

  /** A stack whose expanded name is over budget is over budget. */
  lemma StringNeeded(b: bytes, depth: nat, spent: nat)
    requires GetByte(b).Parsed?
    requires !StringAdmitted(GetByte(b).rest, spent + NODE_COST)
    ensures var s := GetString(GetByte(b).rest);
            s.Parsed? ==> !ContainerAdmitted(s.rest, depth + 1, spent + NODE_COST + StringCost(s.value))
  {
  }

  /** The common part of a split and a stack: count the node, then its children. */
  method PreflightContainer(r: PayloadReader, depth: nat, budget: Budget, refs: References)
    returns (ok: bool)
    requires budget.Valid() && NODE_COST * (budget.nodes + 1) <= budget.allocation
    modifies r, budget, refs
    ensures budget.Valid()
    ensures ok <==> ContainerAdmitted(old(r.b), depth, old(budget.allocation))
    ensures ok ==>
              var n := GetU16(old(r.b));
              var p := GetNodes(n.rest, n.value);
              && r.b == p.rest
              && budget.allocation == old(budget.allocation) + CostAll(p.value)
              && budget.nodes == old(budget.nodes) + 1 + CountAll(p.value)
              && refs.ids == old(refs.ids) + RefsAll(p.value)
    decreases |r.b|, 2
  {
    hide GetU16, GetNodes, CostAll, CountAll, RefsAll, AllShaped, AllWithin;
    budget.nodes := budget.nodes + 1;
    var n := r.GetUint16();
    if n.Failure? {
      return false;
    }
    if n.value > |r.b| {
      return false;
    }
    ok := PreflightChildren(r, n.value, depth, budget, refs);
  }

  /** The loop over the children of one split or stack. */
  method PreflightChildren(r: PayloadReader, n: nat, depth: nat, budget: Budget, refs: References)
    returns (ok: bool)
    requires budget.Valid()
    modifies r, budget, refs
    ensures budget.Valid()
    ensures ok <==> ChildrenAdmitted(old(r.b), n, depth, old(budget.allocation))
    ensures ok ==>
              var p := GetNodes(old(r.b), n);
              && r.b == p.rest
              && budget.allocation == old(budget.allocation) + CostAll(p.value)
              && budget.nodes == old(budget.nodes) + CountAll(p.value)
              && refs.ids == old(refs.ids) + RefsAll(p.value)
    decreases |r.b|, 1
  {
    hide GetNode, WellShaped, HeightWithin, Cost, Count, Refs;
    ghost var start, spent, counted, cited := r.b, budget.allocation, budget.nodes, refs.ids;
    ghost var done: seq<Node> := [];
    AfterNothing(GetNodes(r.b, n));
    for i := 0 to n
      invariant |done| == i && |r.b| <= |start| && budget.Valid()
      invariant GetNodes(start, n) == After(done, GetNodes(r.b, n - i))
      invariant AllShaped(done) && AllWithin(done, MAX_DEPTH - depth)
      invariant budget.allocation == spent + CostAll(done)
      invariant budget.nodes == counted + CountAll(done)
      invariant refs.ids == cited + RefsAll(done)
    {
      ghost var here := r.b;
      ghost var used := budget.allocation;
      ok := PreflightNode(r, depth, false, budget, refs);
      if !ok {
        ChildRejected(start, n, depth, done, here, spent);
        return;
      }
      ghost var c := GetNode(here).value;
      AfterOneMore(done, c, GetNodes(r.b, n - i - 1));
      Snoc(done, c);
      assert refs.ids == cited + (RefsAll(done) + Refs(c));
      done := done + [c];
    }
    AfterAll(done, r.b);
    return true;
  }

  /** One bad child spoils the whole list. */
  lemma ChildRejected(start: bytes, n: nat, depth: nat, done: seq<Node>, here: bytes, spent: nat)
    requires |done| < n
    requires GetNodes(start, n) == After(done, GetNodes(here, n - |done|))
    requires !NodeAdmitted(here, depth, false, spent + CostAll(done))
    ensures !ChildrenAdmitted(start, n, depth, spent)
  {
    hide GetNode, WellShaped, HeightWithin, Cost;
    var q := GetNodes(here, n - |done|);
    if q.Parsed? {
      var all := done + q.value;
      assert all[|done|] == GetNode(here).value;
      CostBoundsPrefix(done, q.value);
      assert CostAll(q.value) >= Cost(q.value[0]);
    }
  }

  // ----- Panes

  ghost predicate PaneAdmitted(b: bytes, spent: nat) {
    var p := GetPane(b);
    p.Parsed? && PaneRefsValid(p.value) && spent + PaneCost(p.value) <= MAX_ALLOCATION
  }

  method PreflightRef(r: PayloadReader, want: byte) returns (ok: bool)
    modifies r
    ensures ok <==> GetRef(old(r.b)).Parsed? && RefValid(GetRef(old(r.b)).value, want)
    ensures ok ==> r.b == GetRef(old(r.b)).rest
  {
    var kind := r.GetUint8();
    if kind.Failure? {
      return false;
    }
    var digest := r.GetRaw(32);
    if digest.Failure? {
      return false;
    }
    var size := r.GetUint32();
    if size.Failure? {
      return false;
    }
    var zero := IsZeroDigest(digest.value);
    return kind.value == want && MIN_OBJECT_SIZE <= size.value <= MAX_OBJECT_SIZE && !zero;
  }

  method IsZeroDigest(d: bytes) returns (zero: bool)
    ensures zero <==> AllZero(d)
  {
    for i := 0 to |d|
      invariant AllZero(d[..i])
    {
      if d[i] != 0 {
        return false;
      }
    }
    assert d[..|d|] == d;
    return true;
  }

  ghost predicate StringsAdmitted(b: bytes, n: nat, spent: nat) {
    var p := GetStringItems(b, n);
    p.Parsed? && spent + StringsCost(p.value) <= MAX_ALLOCATION
  }

  lemma {:induction false} StringsCostAppend(ss: seq<bytes>, ts: seq<bytes>)
    ensures StringsCost(ss + ts) == StringsCost(ss) + StringsCost(ts)
  {
    if ss == [] {
      assert [] + ts == ts;
    } else {
      StringsCostAppend(ss[1..], ts);
      assert (ss + ts)[1..] == ss[1..] + ts;
    }
  }

  method PreflightStrings(r: PayloadReader, n: nat, budget: Budget) returns (ok: bool)
    requires budget.Valid()
    modifies r, budget`allocation
    ensures budget.Valid()
    ensures ok <==> StringsAdmitted(old(r.b), n, old(budget.allocation))
    ensures ok ==>
              var p := GetStringItems(old(r.b), n);
              r.b == p.rest && budget.allocation == old(budget.allocation) + StringsCost(p.value)
  {
    hide GetString;
    ghost var start, spent := r.b, budget.allocation;
    ghost var done: seq<bytes> := [];
    AfterNothing(GetStringItems(r.b, n));
    for i := 0 to n
      invariant |done| == i && budget.Valid()
      invariant GetStringItems(start, n) == After(done, GetStringItems(r.b, n - i))
      invariant budget.allocation == spent + StringsCost(done)
    {
      ghost var q := GetStringItems(r.b, n - i);
      var s := PreflightString(r, budget);
      if s.Failure? {
        if q.Parsed? {
          StringsCostAppend(done, q.value);
        }
        return false;
      }
      AfterOneMore(done, s.value, GetStringItems(r.b, n - i - 1));
      StringsCostAppend(done, [s.value]);
      assert StringsCost([s.value]) == StringCost(s.value) + StringsCost([]);
      done := done + [s.value];
    }
    AfterAll(done, r.b);
    return true;
  }

  ghost predicate ProcessAdmitted(b: bytes, spent: nat) {
    var p := GetProcess(b);
    p.Parsed? && spent + ProcessCost(p.value) <= MAX_ALLOCATION
  }

  method PreflightProcess(r: PayloadReader, budget: Budget) returns (ok: bool)
    requires budget.Valid()
    modifies r, budget`allocation
    ensures budget.Valid()
    ensures ok <==> ProcessAdmitted(old(r.b), old(budget.allocation))
    ensures ok ==>
              var p := GetProcess(old(r.b));
              r.b == p.rest && budget.allocation == old(budget.allocation) + ProcessCost(p.value)
  {
    hide GetString, GetStringItems, StringsCost, GetU16;
    var present := r.GetUint8();
    if present.Failure? {
      return false;
    }
    if present.value == 0 {
      return true;
    }
    if present.value != 1 {
      return false;
    }
    var n := r.GetUint16();
    if n.Failure? || n.value == 0 {
      return false;
    }
    ok := budget.Add(n.value as int * 16);
    if !ok {
      return;
    }
    ok := PreflightStrings(r, n.value, budget);
    if !ok {
      return;
    }
    var strategy := PreflightString(r, budget);
    if strategy.Failure? {
      return false;
    }
    var agent := PreflightString(r, budget);
    return agent.Success?;
  }

  method PreflightSealed(r: PayloadReader, n: nat) returns (ok: bool)
    modifies r
    ensures ok <==> GetRefs(old(r.b), n).Parsed? && SealedValid(GetRefs(old(r.b), n).value)
    ensures ok ==> r.b == GetRefs(old(r.b), n).rest
  {
    hide GetRef, RefValid;
    ghost var start := r.b;
    ghost var done: seq<ObjectRef> := [];
    AfterNothing(GetRefs(r.b, n));
    for i := 0 to n
      invariant |done| == i
      invariant GetRefs(start, n) == After(done, GetRefs(r.b, n - i))
      invariant SealedValid(done)
    {
      ghost var here := r.b;
      ok := PreflightRef(r, HISTORY_CHUNK);
      if !ok {
        assert GetRefs(start, n).Parsed? ==> GetRefs(start, n).value[i] == GetRef(here).value;
        return;
      }
      AfterOneMore(done, GetRef(here).value, GetRefs(r.b, n - i - 1));
      done := done + [GetRef(here).value];
    }
    AfterAll(done, r.b);
    return true;
  }

  ghost predicate PaneRefsAdmitted(b: bytes, id: bytes, stableId: bytes, cwd: bytes, spent: nat)
    requires |id| <= MAX_U16 && |stableId| <= MAX_U16 && |cwd| <= MAX_U16
  {
    var p := GetPaneRefs(b, id, stableId, cwd);
    && p.Parsed?
    && PaneRefsValid(p.value)
    && spent + 48 * |p.value.sealedRefs| + ProcessCost(p.value.process) <= MAX_ALLOCATION
  }

  method PreflightPaneRefs(r: PayloadReader, ghost id: bytes, ghost stableId: bytes, ghost cwd: bytes, budget: Budget)
    returns (ok: bool)
    requires budget.Valid()
    requires |id| <= MAX_U16 && |stableId| <= MAX_U16 && |cwd| <= MAX_U16
    modifies r, budget`allocation
    ensures budget.Valid()
    ensures ok <==> PaneRefsAdmitted(old(r.b), id, stableId, cwd, old(budget.allocation))
    ensures ok ==>
              var p := GetPaneRefs(old(r.b), id, stableId, cwd);
              && r.b == p.rest
              && budget.allocation == old(budget.allocation) + 48 * |p.value.sealedRefs| + ProcessCost(p.value.process)
  {
    hide GetU16, GetRef, GetRefs, GetProcess, RefValid, SealedValid, ProcessCost;
    var n := r.GetUint16();
    if n.Failure? {
      return false;
    }
    if n.value > |r.b| / REF_SIZE {
      return false;
    }
    ok := budget.Add(n.value as int * 48);
    if !ok {
      return;
    }
    ok := PreflightSealed(r, n.value);
    if !ok {
      return;
    }
    ok := PreflightRef(r, HISTORY_TAIL);
    if !ok {
      return;
    }
    ok := PreflightRef(r, RECOVERY_TRANSCRIPT);
    if !ok {
      return;
    }
    ok := PreflightProcess(r, budget);
  }

  method PreflightPane(r: PayloadReader, budget: Budget) returns (res: Outcome<PaneID>)
    requires budget.Valid()
    modifies r, budget`allocation
    ensures budget.Valid()
    ensures res.Success? <==> PaneAdmitted(old(r.b), old(budget.allocation))
    ensures res.Success? ==>
              var p := GetPane(old(r.b));
              && r.b == p.rest && res.value == p.value.id
              && budget.allocation == old(budget.allocation) + PaneCost(p.value)
  {
    hide GetString, GetPaneRefs, PaneRefsValid, ProcessCost;
    var id :- PreflightString(r, budget);
    var stableId :- PreflightString(r, budget);
    var cwd :- PreflightString(r, budget);
    var ok := PreflightPaneRefs(r, id, stableId, cwd, budget);
    if !ok {
      return Failure;
    }
    return Success(id);
  }

  ghost predicate PanesAdmitted(b: bytes, n: nat, spent: nat) {
    var p := GetPanes(b, n);
    p.Parsed? && PanesValid(p.value) && spent + PanesCost(p.value) <= MAX_ALLOCATION
  }

  lemma {:induction false} PanesCostAppend(ps: seq<Pane>, qs: seq<Pane>)
    ensures PanesCost(ps + qs) == PanesCost(ps) + PanesCost(qs)
  {
    hide PaneCost;
    if ps == [] {
      assert [] + qs == qs;
    } else {
      PanesCostAppend(ps[1..], qs);
      assert (ps + qs)[1..] == ps[1..] + qs;
    }
  }

  method PreflightPanes(r: PayloadReader, n: nat, budget: Budget) returns (ok: bool, ids: set<PaneID>)
    requires budget.Valid()
    modifies r, budget`allocation
    ensures budget.Valid()
    ensures ok <==> PanesAdmitted(old(r.b), n, old(budget.allocation))
    ensures ok ==>
              var p := GetPanes(old(r.b), n);
              && r.b == p.rest && ids == PaneIds(p.value)
              && budget.allocation == old(budget.allocation) + PanesCost(p.value)
  {
    hide GetPane, PaneRefsValid, PaneCost;
    ghost var start, spent := r.b, budget.allocation;
    ghost var done: seq<Pane> := [];
    ids := {};
    AfterNothing(GetPanes(r.b, n));
    for i := 0 to n
      invariant |done| == i && budget.Valid()
      invariant GetPanes(start, n) == After(done, GetPanes(r.b, n - i))
      invariant PanesValid(done) && ids == PaneIds(done)
      invariant budget.allocation == spent + PanesCost(done)
    {
      ghost var here := r.b;
      var id := PreflightPane(r, budget);
      if id.Failure? || id.value == [] || id.value in ids {
        PaneRejected(start, n, done, here, spent);
        return false, ids;
      }
      ghost var pane := GetPane(here).value;
      ids := ids + {id.value};
      AfterOneMore(done, pane, GetPanes(r.b, n - i - 1));
      PanesCostAppend(done, [pane]);
      assert PanesCost([pane]) == PaneCost(pane) + PanesCost([]);
      PaneIdsSnoc(done, pane);
      done := done + [pane];
    }
    AfterAll(done, r.b);
    return true, ids;
  }

  /** One bad, unnamed or repeated pane spoils the whole list. */
  lemma PaneRejected(start: bytes, n: nat, done: seq<Pane>, here: bytes, spent: nat)
    requires |done| < n
    requires GetPanes(start, n) == After(done, GetPanes(here, n - |done|))
    requires
      || !PaneAdmitted(here, spent + PanesCost(done))
      || GetPane(here).value.id == []
      || GetPane(here).value.id in PaneIds(done)
    ensures !PanesAdmitted(start, n, spent)
  {
    hide GetPane, PaneRefsValid, PaneCost;
    var q := GetPanes(here, n - |done|);
    if q.Parsed? {
      var all := done + q.value;
      var pane := GetPane(here).value;
      assert all[|done|] == pane;
      PanesCostAppend(done, q.value);
      assert PanesCost(q.value) >= PaneCost(q.value[0]);
      if pane.id in PaneIds(done) {
        var j :| 0 <= j < |done| && done[j].id == pane.id;
        assert all[j] == done[j];
      }
    }
  }

  lemma PaneIdsSnoc(ps: seq<Pane>, p: Pane)
    ensures PaneIds(ps + [p]) == PaneIds(ps) + {p.id}
  {
    var qs := ps + [p];
    forall id | id in PaneIds(ps) + {p.id} ensures id in PaneIds(qs) {
      if id == p.id {
        assert qs[|ps|].id == id;
      } else {
        var i :| 0 <= i < |ps| && ps[i].id == id;
        assert qs[i].id == id;
      }
    }
  }

  // ----- Tabs

  ghost predicate TabBodyAdmitted(b: bytes, stableId: bytes, cols: u16, rows: u16, nextPane: u64, spent: nat)
    requires |stableId| <= MAX_U16
  {
    var p := GetTabBody(b, stableId, cols, rows, nextPane);
    && p.Parsed?
    && TabValid(p.value)
    && HeightWithin(Root(p.value), MAX_DEPTH)
    && spent + TabCost(p.value) <= MAX_ALLOCATION + StringCost(stableId)
  }

  ghost predicate TabAdmitted(b: bytes, spent: nat) {
    var p := GetTab(b);
    && p.Parsed?
    && TabValid(p.value)
    && HeightWithin(Root(p.value), MAX_DEPTH)
    && spent + TabCost(p.value) <= MAX_ALLOCATION
  }

  method PreflightTabBody(r: PayloadReader, ghost stableId: bytes, ghost cols: u16, ghost rows: u16,
                          ghost nextPane: u64, budget: Budget)
    returns (ok: bool)
    requires |stableId| <= MAX_U16 && SafeDimensions(cols, rows)
    requires budget.Valid()
    modifies r, budget
    ensures budget.Valid()
    ensures ok <==> TabBodyAdmitted(old(r.b), stableId, cols, rows, nextPane, old(budget.allocation))
    ensures ok ==>
              var p := GetTabBody(old(r.b), stableId, cols, rows, nextPane);
              && r.b == p.rest
              && budget.allocation + StringCost(stableId) == old(budget.allocation) + TabCost(p.value)
              && budget.nodes == old(budget.nodes) + Count(Root(p.value))
  {
    hide GetString, GetNode, GetPanes, Cost, PanesCost, Count, Refs, PanesValid, HeightWithin, WellShaped, GetU16;
    var focus := PreflightString(r, budget);
    if focus.Failure? {
      return false;
    }
    var refs := new References();
    ghost var tree := r.b;
    ok := PreflightNode(r, 0, true, budget, refs);
    if !ok {
      if GetNode(tree).Parsed? {
        ShapeOfValid(GetNode(tree).value);
      }
      return;
    }
    ghost var root := GetNode(tree).value;
    assert refs.ids == Refs(root) by {
      assert [] + Refs(root) == Refs(root);
    }
    var n := r.GetUint16();
    if n.Failure? {
      return false;
    }
    if n.value > |r.b| / 2 {
      return false;
    }
    ok := budget.Add(n.value as int * 256);
    if !ok {
      return;
    }
    ghost var listed := r.b;
    var ids;
    ok, ids := PreflightPanes(r, n.value, budget);
    if !ok {
      return;
    }
    if focus.value != [] {
      refs.ids := refs.ids + [focus.value];
    }
    ok := AllDeclared(refs.ids, ids);
    ShapeAndRefsAreValidity(root, ids, true);
    AllInAppend(Refs(root), [focus.value], ids);
    assert AllIn([focus.value], ids) <==> focus.value in ids by {
      assert [focus.value][0] == focus.value;
    }
  }

  lemma ShapeOfValid(n: Node)
    ensures !WellShaped(n, true) ==> forall ids :: !TreeValid(n, ids)
  {
    forall ids ensures TreeValid(n, ids) ==> WellShaped(n, true) {
      ShapeAndRefsAreValidity(n, ids, true);
    }
  }

  method PreflightTab(r: PayloadReader, budget: Budget) returns (ok: bool)
    requires budget.Valid()
    modifies r, budget
    ensures budget.Valid()
    ensures ok <==> TabAdmitted(old(r.b), old(budget.allocation))
    ensures ok ==>
              var p := GetTab(old(r.b));
              && r.b == p.rest
              && budget.allocation == old(budget.allocation) + TabCost(p.value)
              && budget.nodes == old(budget.nodes) + Count(Root(p.value))
  {
    hide GetString, GetTabBody, GetU16, GetU64, PanesValid, TreeValid, Cost, PanesCost, HeightWithin;
    var stableId := PreflightString(r, budget);
    if stableId.Failure? {
      return false;
    }
    var cols := r.GetUint16();
    if cols.Failure? {
      return false;
    }
    var rows := r.GetUint16();
    if rows.Failure? {
      return false;
    }
    if !SafeDimensions(cols.value, rows.value) {
      return false;
    }
    var nextPane := r.GetUint64();
    if nextPane.Failure? {
      return false;
    }
    ok := PreflightTabBody(r, stableId.value, cols.value, rows.value, nextPane.value, budget);
  }

  ghost predicate TabsAdmitted(b: bytes, n: nat, spent: nat) {
    var p := GetTabs(b, n);
    && p.Parsed?
    && TabsValid(p.value)
    && HeightsWithin(p.value)
    && spent + TabsCost(p.value) <= MAX_ALLOCATION
  }

  lemma {:induction false} TabsCostAppend(ts: seq<Tab>, us: seq<Tab>)
    ensures TabsCost(ts + us) == TabsCost(ts) + TabsCost(us)
    ensures TabNodes(ts + us) == TabNodes(ts) + TabNodes(us)
  {
    hide TabCost, Count;
    if ts == [] {
      assert [] + us == us;
    } else {
      TabsCostAppend(ts[1..], us);
      assert (ts + us)[1..] == ts[1..] + us;
    }
  }

  lemma TabRejected(start: bytes, n: nat, done: seq<Tab>, here: bytes, spent: nat)
    requires |done| < n
    requires GetTabs(start, n) == After(done, GetTabs(here, n - |done|))
    requires !TabAdmitted(here, spent + TabsCost(done))
    ensures !TabsAdmitted(start, n, spent)
  {
    hide GetTab, TabValid, TabCost, HeightWithin;
    var q := GetTabs(here, n - |done|);
    if q.Parsed? {
      var all := done + q.value;
      assert all[|done|] == GetTab(here).value;
      TabsCostAppend(done, q.value);
      assert TabsCost(q.value) >= TabCost(q.value[0]);
    }
  }

  method PreflightTabs(r: PayloadReader, n: nat, budget: Budget) returns (ok: bool)
    requires budget.Valid()
    modifies r, budget
    ensures budget.Valid()
    ensures ok <==> TabsAdmitted(old(r.b), n, old(budget.allocation))
    ensures ok ==>
              var p := GetTabs(old(r.b), n);
              && r.b == p.rest
              && budget.allocation == old(budget.allocation) + TabsCost(p.value)
              && budget.nodes == old(budget.nodes) + TabNodes(p.value)
  {
    hide GetTab, TabValid, TabCost, Count, HeightWithin;
    ghost var start, spent, counted := r.b, budget.allocation, budget.nodes;
    ghost var done: seq<Tab> := [];
    AfterNothing(GetTabs(r.b, n));
    for i := 0 to n
      invariant |done| == i && budget.Valid()
      invariant GetTabs(start, n) == After(done, GetTabs(r.b, n - i))
      invariant TabsValid(done) && HeightsWithin(done)
      invariant budget.allocation == spent + TabsCost(done)
      invariant budget.nodes == counted + TabNodes(done)
    {
      ghost var here := r.b;
      ok := PreflightTab(r, budget);
      if !ok {
        TabRejected(start, n, done, here, spent);
        return;
      }
      ghost var tab := GetTab(here).value;
      AfterOneMore(done, tab, GetTabs(r.b, n - i - 1));
      TabsCostAppend(done, [tab]);
      assert TabsCost([tab]) == TabCost(tab) + TabsCost([]);
      assert TabNodes([tab]) == Count(Root(tab)) + TabNodes([]);
      done := done + [tab];
    }
    AfterAll(done, r.b);
    return true;
  }

  // ----- The weight extension, shared with the decoder

  method ReadWeightExtension(r: PayloadReader, want: nat) returns (res: Outcome<Option<seq<u64>>>)
    modifies r
    ensures match GetWeights(old(r.b), want)
            case None => res == Failure
            case Some(ws) => res == Success(ws)
  {
    hide GetU32, GetU64;
    if |r.b| == 0 {
      return Success(None);
    }
    if |r.b| < 4 {
      return Failure;
    }
    if r.b[..4] != WEIGHT_TAG {
      return Failure;
    }
    r.b := r.b[4..];
    U32Length(r.b);
    var count :- r.GetUint32();
    if count != want {
      return Failure;
    }
    if count > |r.b| / 8 {
      return Failure;
    }
    if |r.b| != count as int * 8 {
      return Failure;
    }
    var ws :- ReadWeights(r, count);
    return Success(Some(ws));
  }

  method ReadWeights(r: PayloadReader, count: nat) returns (res: Outcome<seq<u64>>)
    requires |r.b| == 8 * count
    modifies r
    ensures WordsOf(old(r.b)).Some?
    ensures res == if AllValid(WordsOf(old(r.b)).value) then Success(WordsOf(old(r.b)).value) else Failure
  {
    hide GetU64;
    ghost var start := r.b;
    var ws: seq<u64> := [];
    for i := 0 to count
      invariant |ws| == i && |r.b| == 8 * (count - i)
      invariant WordsOf(start).Some? && WordsOf(r.b).Some?
      invariant WordsOf(start).value == ws + WordsOf(r.b).value
      invariant AllValid(ws)
    {
      U64Length(r.b);
      ghost var here := r.b;
      var bits := r.GetUint64();
      assert WordsOf(here).value == [bits.value] + WordsOf(r.b).value;
      assert WordsOf(start).value[i] == bits.value;
      if !ValidWeight(bits.value) {
        return Failure;
      }
      ws := ws + [bits.value];
    }
    assert r.b == [] && ws + [] == ws;
    return Success(ws);
  }

  // ----- The whole body

  method PreflightParent(r: PayloadReader) returns (res: Outcome<Option<Checkpoint>>)
    modifies r
    ensures Matches(GetParent(old(r.b)), res, r.b)
  {
    hide GetU64;
    var present :- r.GetUint8();
    if present == 0 {
      return Success(None);
    } else if present != 1 {
      return Failure;
    }
    var generation :- r.GetUint64();
    var digest :- r.GetRaw(32);
    return Success(Some(Checkpoint(generation, digest)));
  }

  ghost predicate HeaderAdmitted(b: bytes, spent: nat) {
    var p := GetHeader(b);
    p.Parsed? && HeaderValid(p.value) && spent + StringCost(p.value.name) <= MAX_ALLOCATION
  }

  method PreflightHeader(r: PayloadReader, budget: Budget) returns (res: Outcome<u16>)
    requires budget.Valid()
    modifies r, budget`allocation
    ensures budget.Valid()
    ensures res.Success? <==> HeaderAdmitted(old(r.b), old(budget.allocation))
    ensures res.Success? ==>
              var p := GetHeader(old(r.b));
              && r.b == p.rest && res.value == p.value.active
              && budget.allocation == old(budget.allocation) + StringCost(p.value.name)
  {
    hide GetU64, GetU16, GetString, GetParent;
    var generation :- r.GetUint64();
    if generation == 0 {
      return Failure;
    }
    var incarnation :- r.GetRaw(16);
    var zero := IsZeroDigest(incarnation);
    if zero {
      return Failure;
    }
    var parent :- PreflightParent(r);
    if parent.Some? {
      zero := IsZeroDigest(parent.value.digest);
      if parent.value.generation == 0 || parent.value.generation >= generation || zero {
        return Failure;
      }
    }
    var name :- PreflightString(r, budget);
    if |name| == 0 {
      return Failure;
    }
    var created :- r.GetUint64();
    var active :- r.GetUint16();
    return Success(active);
  }

  /**
   Preflight accepts a body exactly when decoding it succeeds and yields a
   manifest the budget covers.
   */
  method PreflightManifest(body: bytes) returns (ok: bool)
    ensures ok <==> DecodeManifest(body).Some? && Affordable(DecodeManifest(body).value)
  {
    hide DecodeManifest, GetHeader, GetU16, GetTabs, TabsValid, HeightsWithin;
    hide TabsCost, TabNodes, HeaderValid, GetWeights;
    AcceptanceBeforeWeights(body);
    var r := new PayloadReader(body);
    var budget := new Budget();
    var active := PreflightHeader(r, budget);
    if active.Failure? {
      return false;
    }
    var tabs := r.GetUint16();
    if tabs.Failure? {
      return false;
    }
    if !ActiveValid(active.value, tabs.value) {
      return false;
    }
    if tabs.value > |r.b| / 2 {
      return false;
    }
    ok := budget.Add(tabs.value as int * 128);
    if !ok {
      return;
    }
    ok := PreflightTabs(r, tabs.value, budget);
    if !ok {
      return;
    }
    var weights := ReadWeightExtension(r, budget.nodes);
    return weights.Success?;
  }
}
