/**
 The two checking passes that run before a session snapshot is decoded: one
 that only measures, and one that resolves pane references and validates blobs.
 */
module SessionPreflight {
  import opened Wire
  import opened Payload
  import opened LayoutTree
  import opened NodeCodec
  import opened SessionFormat
  import ManifestFormat

  const MAX_U64: u64 := 0xFFFF_FFFF_FFFF_FFFF

  class Budget {
    var nodes: u64
    var alloc: u64
    var totals: Stats
    var blobs: u64

    constructor ()
      ensures Valid() && Reading() == ZERO_METER
    {
      nodes, alloc, totals, blobs := 0, 0, Stats(0, 0, 0, 0), 0;
    }

    /** Keeps every subtraction and counter in range. */
    ghost predicate Valid()
      reads this
    {
      alloc <= MAX_ALLOCATION && nodes <= MAX_TREE_NODES && blobs <= MAX_OBJECTS
    }

    function Reading(): Meter
      reads this
    {
      Meter(nodes, alloc, totals, blobs)
    }

    method AddAllocation(amount: u64) returns (ok: bool)
      requires Valid()
      modifies this`alloc
      ensures Valid()
      ensures ok <==> old(alloc) + amount <= MAX_ALLOCATION
      ensures alloc == if ok then old(alloc) + amount else old(alloc)
    {
      if amount > MAX_ALLOCATION - alloc {
        return false;
      }
      alloc := alloc + amount;
      return true;
    }

    /** The guard keeps the 64-bit product from wrapping. */
    method AddProduct(count: u64, size: u64) returns (ok: bool)
      requires Valid()
      modifies this`alloc
      ensures Valid()
      ensures ok <==> old(alloc) + count as int * size <= MAX_ALLOCATION
      ensures alloc == if ok then old(alloc) + count as int * size else old(alloc)
    {
      if count != 0 && size > MAX_U64 / count {
        QuotientBound(count, size);
        return false;
      }
      ProductBound(count, size);
      ok := AddAllocation(count as int * size);
    }

    method AddNode() returns (ok: bool)
      requires Valid()
      modifies this`alloc, this`nodes
      ensures Valid()
      ensures ok <==> ChargeNodes(old(Reading()), 1).Some?
      ensures ok ==> Reading() == ChargeNodes(old(Reading()), 1).value
    {
      if nodes >= MAX_TREE_NODES {
        return false;
      }
      ok := AddAllocation(128);
      if ok {
        nodes := nodes + 1;
      }
    }
  }

  lemma QuotientBound(count: int, size: int)
    requires 0 < count && size > MAX_U64 / count
    ensures count * size > MAX_U64
  {
    var q := MAX_U64 / count;
    assert count * (q + 1) > MAX_U64;
    assert count * size >= count * (q + 1);
  }

  lemma ProductBound(count: int, size: int)
    requires 0 <= count && 0 <= size && (count == 0 || size <= MAX_U64 / count)
    ensures 0 <= count * size <= MAX_U64
  {
    if count != 0 {
      var q := MAX_U64 / count;
      assert count * size <= count * q;
    }
  }

  // ----- Skipping

  method SkipString(r: PayloadReader) returns (ok: bool)
    modifies r
    ensures ok <==> GetString(old(r.b)).Parsed?
    ensures ok ==> r.b == GetString(old(r.b)).rest
  {
    var n := r.GetUint16();
    if n.Failure? || n.value > |r.b| {
      return false;
    }
    r.b := r.b[n.value..];
    return true;
  }

  method SkipStrings(r: PayloadReader, n: nat) returns (ok: bool)
    modifies r
    ensures ok <==> GetStringItems(old(r.b), n).Parsed?
    ensures ok ==> r.b == GetStringItems(old(r.b), n).rest
  {
    hide GetString;
    ghost var start := r.b;
    ghost var done: seq<bytes> := [];
    AfterNothing(GetStringItems(r.b, n));
    for i := 0 to n
      invariant |done| == i
      invariant GetStringItems(start, n) == After(done, GetStringItems(r.b, n - i))
    {
      ghost var here := r.b;
      ok := SkipString(r);
      if !ok {
        return;
      }
      AfterOneMore(done, GetString(here).value, GetStringItems(r.b, n - i - 1));
      done := done + [GetString(here).value];
    }
    return true;
  }

  method PreflightProcess(r: PayloadReader) returns (ok: bool)
    modifies r
    ensures ok <==> ManifestFormat.GetProcess(old(r.b)).Parsed?
    ensures ok ==> r.b == ManifestFormat.GetProcess(old(r.b)).rest
  {
    hide GetString, GetStringItems, GetU16, GetByte;
    var present := r.GetUint8();
    if present.Failure? {
      return false;
    }
    if present.value == 0 {
      return true;
    }
    if present.value != 1 {
      return false;
    }
    var n := r.GetUint16();
    if n.Failure? || n.value == 0 {
      return false;
    }
    ok := SkipStrings(r, n.value);
    if !ok {
      return;
    }
    ok := SkipString(r);
    if !ok {
      return;
    }
    ok := SkipString(r);
  }

  // ----- The structural pass

  ghost predicate NodeMeasured(b: bytes, depth: nat, root: bool, m: Meter) {
    var p := GetNode(b);
    && p.Parsed?
    && WellShaped(p.value, root)
    && HeightWithin(p.value, MAX_DEPTH - depth)
    && ChargeNodes(m, Total(p.value)).Some?
  }

  /** A child count followed by that many children. */
  ghost predicate ContainerMeasured(b: bytes, depth: nat, m: Meter) {
    var n := GetU16(b);
    n.Parsed? && ChildrenMeasured(n.rest, n.value, depth, m)
  }

  ghost predicate ChildrenMeasured(b: bytes, n: nat, depth: nat, m: Meter) {
    var p := GetNodes(b, n);
    && p.Parsed?
    && AllShaped(p.value)
    && AllWithin(p.value, MAX_DEPTH - depth)
    && ChargeNodes(m, TotalAll(p.value)).Some?
  }

  method PreflightNodeStructure(r: PayloadReader, depth: nat, root: bool, budget: Budget) returns (ok: bool)
    requires budget.Valid()
    modifies r, budget`alloc, budget`nodes
    ensures budget.Valid()
    ensures ok <==> NodeMeasured(old(r.b), depth, root, old(budget.Reading()))
    ensures ok ==>
              var p := GetNode(old(r.b));
              r.b == p.rest && Some(budget.Reading()) == ChargeNodes(old(budget.Reading()), Total(p.value))
    decreases |r.b|, 0
  {
    hide GetByte, GetString, GetNodes, AllShaped, AllWithin, TotalAll;
    if depth > MAX_DEPTH {
      return false;
    }
    ok := budget.AddNode();
    if !ok {
      return;
    }
    var kind := r.GetUint8();
    if kind.Failure? {
      return false;
    }
    if kind.value == LEAF_TAG {
      ok := SkipString(r);
    } else if kind.value == SPLIT_TAG {
      var dir := r.GetUint8();
      if dir.Failure? || (dir.value != HORIZONTAL && dir.value != VERTICAL) {
        return false;
      }
      ok := PreflightChildrenStructure(r, depth + 1, budget);
    } else if kind.value == STACK_TAG {
      ok := SkipString(r);
      if !ok {
        return;
      }
      ok := PreflightChildrenStructure(r, depth + 1, budget);
    } else if kind.value == NIL_TAG {
      return root;
    } else {
      return false;
    }
  }

  method PreflightChildrenStructure(r: PayloadReader, depth: nat, budget: Budget) returns (ok: bool)
    requires budget.Valid()
    modifies r, budget`alloc, budget`nodes
    ensures budget.Valid()
    ensures ok <==> ContainerMeasured(old(r.b), depth, old(budget.Reading()))
    ensures ok ==>
              var n := GetU16(old(r.b));
              var p := GetNodes(n.rest, n.value);
              r.b == p.rest && Some(budget.Reading()) == ChargeNodes(old(budget.Reading()), TotalAll(p.value))
    decreases |r.b|, 1
  {
    hide GetNode, WellShaped, HeightWithin, Total;
    var n := r.GetUint16();
    if n.Failure? || n.value > |r.b| {
      return false;
    }
    ghost var start, m0 := r.b, budget.Reading();
    ghost var done: seq<Node> := [];
    AfterNothing(GetNodes(r.b, n.value));
    for i := 0 to n.value
      invariant |done| == i && |r.b| <= |start| && budget.Valid()
      invariant GetNodes(start, n.value) == After(done, GetNodes(r.b, n.value - i))
      invariant AllShaped(done) && AllWithin(done, MAX_DEPTH - depth)
      invariant ChargeNodes(m0, TotalAll(done)) == Some(budget.Reading())
    {
      ghost var here := r.b;
      ok := PreflightNodeStructure(r, depth, false, budget);
      if !ok {
        ChildUnmeasured(start, n.value, depth, done, here, m0);
        return;
      }
      ghost var c := GetNode(here).value;
      AfterOneMore(done, c, GetNodes(r.b, n.value - i - 1));
      TotalAppend(done, [c]);
      assert TotalAll([c]) == Total(c) + TotalAll([]);
      done := done + [c];
    }
    AfterAll(done, r.b);
    return true;
  }

  lemma ChildUnmeasured(start: bytes, n: nat, depth: nat, done: seq<Node>, here: bytes, m: Meter)
    requires |done| < n
    requires GetNodes(start, n) == After(done, GetNodes(here, n - |done|))
    requires ChargeNodes(m, TotalAll(done)).Some?
    requires !NodeMeasured(here, depth, false, ChargeNodes(m, TotalAll(done)).value)
    ensures !ChildrenMeasured(start, n, depth, m)
  {
    hide GetNode, WellShaped, HeightWithin, Total;
    var q := GetNodes(here, n - |done|);
    if q.Parsed? {
      var all := done + q.value;
      assert all[|done|] == GetNode(here).value;
      TotalAppend(done, q.value);
      assert TotalAll(q.value) >= Total(q.value[0]);
    }
  }

  /** `x` is the blob at the front of `b`, and the meter can take it. */
  ghost predicate BlobMeasured(lib: Library, b: bytes, m: Meter) {
    GetBlob(b).Parsed? && ChargeBlob(lib, GetBlob(b).value, m).Some?
  }

  method PreflightBlob(r: PayloadReader, lib: Library, budget: Budget) returns (res: Outcome<Stats>)
    requires budget.Valid()
    modifies r, budget
    ensures budget.Valid()
    ensures res.Success? <==> BlobMeasured(lib, old(r.b), old(budget.Reading()))
    ensures res.Success? ==>
              var x := GetBlob(old(r.b));
              && r.b == x.rest && lib.measure(x.value) == Some(res.value)
              && Some(budget.Reading()) == ChargeBlob(lib, x.value, old(budget.Reading()))
  {
    hide GetU32;
    U32Length(r.b);
    var n :- r.GetUint32();
    if n == 0 || n > |r.b| || n > MAX_BYTES {
      return Failure;
    }
    if budget.blobs >= MAX_OBJECTS {
      return Failure;
    }
    var blob := r.b[..n];
    r.b := r.b[n..];
    var stats := lib.measure(blob);
    if stats.None? {
      return Failure;
    }
    var totals := lib.sum(budget.totals, stats.value);
    if totals.None? {
      return Failure;
    }
    budget.totals := totals.value;
    var ok := budget.AddAllocation(n);
    if ok {
      ok := budget.AddProduct(stats.value.chunks, 64);
    }
    if ok {
      ok := budget.AddProduct(stats.value.rows, 32);
    }
    if ok {
      ok := budget.AddProduct(stats.value.cells, 64);
    }
    if !ok {
      return Failure;
    }
    budget.blobs := budget.blobs + 1;
    return Success(stats.value);
  }

  ghost predicate SealedMeasured(lib: Library, b: bytes, n: nat, m: Meter) {
    GetBlobs(b, n).Parsed? && ChargeSealed(lib, GetBlobs(b, n).value, m).Some?
  }

  /** The loop over the sealed chunks of one pane. */
  method PreflightSealed(r: PayloadReader, n: nat, lib: Library, budget: Budget) returns (ok: bool)
    requires budget.Valid()
    modifies r, budget
    ensures budget.Valid()
    ensures ok <==> SealedMeasured(lib, old(r.b), n, old(budget.Reading()))
    ensures ok ==>
              var p := GetBlobs(old(r.b), n);
              r.b == p.rest && Some(budget.Reading()) == ChargeSealed(lib, p.value, old(budget.Reading()))
  {
    hide GetBlob, ChargeBlob;
    ghost var start, m0 := r.b, budget.Reading();
    for i := 0 to n
      invariant budget.Valid()
      invariant GetBlobs(start, n).Parsed? <==> GetBlobs(r.b, n - i).Parsed?
      invariant GetBlobs(start, n).Parsed? ==>
                  && GetBlobs(start, n).rest == GetBlobs(r.b, n - i).rest
                  && ChargeSealed(lib, GetBlobs(start, n).value, m0)
                     == ChargeSealed(lib, GetBlobs(r.b, n - i).value, budget.Reading())
    {
      ghost var here := r.b;
      var stats := PreflightBlob(r, lib, budget);
      if GetBlobs(here, n - i).Parsed? {
        assert GetBlobs(here, n - i).value[1..] == GetBlobs(GetBlob(here).rest, n - i - 1).value;
      }
      if stats.Failure? || stats.value.chunks != 1 || stats.value.rows == 0 {
        return false;
      }
    }
    return true;
  }

  ghost predicate PaneMeasured(lib: Library, b: bytes, m: Meter) {
    GetPane(b).Parsed? && ChargePane(lib, GetPane(b).value, m).Some?
  }

  method PreflightPaneStructure(r: PayloadReader, lib: Library, budget: Budget) returns (ok: bool)
    requires budget.Valid()
    modifies r, budget
    ensures budget.Valid()
    ensures ok <==> PaneMeasured(lib, old(r.b), old(budget.Reading()))
    ensures ok ==>
              var p := GetPane(old(r.b));
              r.b == p.rest && Some(budget.Reading()) == ChargePane(lib, p.value, old(budget.Reading()))
  {
    hide GetString, GetU32, GetBlob, GetBlobs, ChargeBlob, ChargeSealed, ManifestFormat.GetProcess;
    ok := budget.AddAllocation(256);
    if !ok {
      return;
    }
    ok := SkipString(r);
    if !ok {
      return;
    }
    ok := SkipString(r);
    if !ok {
      return;
    }
    ok := SkipString(r);
    if !ok {
      return;
    }
    var n := r.GetUint32();
    if n.Failure? {
      return false;
    }
    if n.value > MAX_OBJECTS || n.value > |r.b| / 4 {
      return false;
    }
    ok := PreflightSealed(r, n.value, lib, budget);
    if !ok {
      return;
    }
    var tail := PreflightBlob(r, lib, budget);
    if tail.Failure? || tail.value.chunks > 1 {
      return false;
    }
    var transcript := PreflightBlob(r, lib, budget);
    if transcript.Failure? {
      return false;
    }
    ok := PreflightProcess(r);
  }

  ghost predicate PanesMeasured(lib: Library, b: bytes, n: nat, m: Meter) {
    GetPanes(b, n).Parsed? && ChargePanes(lib, GetPanes(b, n).value, m).Some?
  }

  method PreflightPanesStructure(r: PayloadReader, n: nat, lib: Library, budget: Budget) returns (ok: bool)
    requires budget.Valid()
    modifies r, budget
    ensures budget.Valid()
    ensures ok <==> PanesMeasured(lib, old(r.b), n, old(budget.Reading()))
    ensures ok ==>
              var p := GetPanes(old(r.b), n);
              r.b == p.rest && Some(budget.Reading()) == ChargePanes(lib, p.value, old(budget.Reading()))
  {
    hide GetPane, ChargePane;
    ghost var start, m0 := r.b, budget.Reading();
    for i := 0 to n
      invariant budget.Valid()
      invariant GetPanes(start, n).Parsed? <==> GetPanes(r.b, n - i).Parsed?
      invariant GetPanes(start, n).Parsed? ==>
                  && GetPanes(start, n).rest == GetPanes(r.b, n - i).rest
                  && ChargePanes(lib, GetPanes(start, n).value, m0)
                     == ChargePanes(lib, GetPanes(r.b, n - i).value, budget.Reading())
    {
      ghost var here := r.b;
      if GetPanes(here, n - i).Parsed? {
        assert GetPanes(here, n - i).value[1..] == GetPanes(GetPane(here).rest, n - i - 1).value;
      }
      ok := PreflightPaneStructure(r, lib, budget);
      if !ok {
        return;
      }
    }
    return true;
  }

  ghost predicate TabMeasured(lib: Library, b: bytes, m: Meter) {
    GetTab(b).Parsed? && TabStructured(GetTab(b).value) && ChargeTab(lib, GetTab(b).value, m).Some?
  }

  method PreflightTabStructure(r: PayloadReader, lib: Library, budget: Budget) returns (ok: bool)
    requires budget.Valid()
    modifies r, budget
    ensures budget.Valid()
    ensures ok <==> TabMeasured(lib, old(r.b), old(budget.Reading()))
    ensures ok ==>
              var p := GetTab(old(r.b));
              r.b == p.rest && Some(budget.Reading()) == ChargeTab(lib, p.value, old(budget.Reading()))
  {
    hide GetString, GetU16, GetU64, GetNode, GetPanes, ChargePanes, WellShaped, HeightWithin, Total;
    ok := budget.AddAllocation(256);
    if !ok {
      return;
    }
    ok := SkipString(r);
    if !ok {
      return;
    }
    var cols := r.GetUint16();
    if cols.Failure? {
      return false;
    }
    var rows := r.GetUint16();
    if rows.Failure? {
      return false;
    }
    var nextPane := r.GetUint64();
    if nextPane.Failure? {
      return false;
    }
    ok := SkipString(r);
    if !ok {
      return;
    }
    ok := PreflightNodeStructure(r, 0, true, budget);
    if !ok {
      return;
    }
    var panes := r.GetUint16();
    if panes.Failure? {
      return false;
    }
    if panes.value > |r.b| / 2 {
      return false;
    }
    ok := PreflightPanesStructure(r, panes.value, lib, budget);
  }

  ghost predicate TabsMeasured(lib: Library, b: bytes, n: nat, m: Meter) {
    var p := GetTabs(b, n);
    p.Parsed? && TabsStructured(p.value) && ChargeTabs(lib, p.value, m).Some?
  }

  method PreflightTabsStructure(r: PayloadReader, n: nat, lib: Library, budget: Budget) returns (ok: bool)
    requires budget.Valid()
    modifies r, budget
    ensures budget.Valid()
    ensures ok <==> TabsMeasured(lib, old(r.b), n, old(budget.Reading()))
    ensures ok ==>
              var p := GetTabs(old(r.b), n);
              r.b == p.rest && Some(budget.Reading()) == ChargeTabs(lib, p.value, old(budget.Reading()))
  {
    hide GetTab, ChargeTab, TabStructured;
    ghost var start, m0 := r.b, budget.Reading();
    for i := 0 to n
      invariant budget.Valid()
      invariant GetTabs(start, n).Parsed? <==> GetTabs(r.b, n - i).Parsed?
      invariant GetTabs(start, n).Parsed? ==>
                  var all, left := GetTabs(start, n), GetTabs(r.b, n - i);
                  && all.rest == left.rest
                  && (TabsStructured(all.value) <==> TabsStructured(left.value))
                  && ChargeTabs(lib, all.value, m0) == ChargeTabs(lib, left.value, budget.Reading())
    {
      ghost var here := r.b;
      if GetTabs(here, n - i).Parsed? {
        ghost var left := GetTabs(here, n - i).value;
        assert left[1..] == GetTabs(GetTab(here).rest, n - i - 1).value;
        assert TabsStructured(left) <==> TabStructured(left[0]) && TabsStructured(left[1..]);
      }
      ok := PreflightTabStructure(r, lib, budget);
      if !ok {
        return;
      }
    }
    return true;
  }

  /** The structural pass accepts exactly the well-structured, affordable sessions. */
  method PreflightStructure(body: bytes, lib: Library) returns (ok: bool)
    ensures ok <==>
              var p := GetSession(body);
              p.Parsed? && p.rest == [] && SessionStructured(lib, p.value)
  {
    hide GetString, GetU16, GetU64, GetTabs, ChargeTabs, TabsStructured;
    var r := new PayloadReader(body);
    ok := SkipString(r);
    if !ok {
      return;
    }
    var createdAt := r.GetUint64();
    if createdAt.Failure? {
      return false;
    }
    var active := r.GetUint16();
    if active.Failure? {
      return false;
    }
    var tabs := r.GetUint16();
    if tabs.Failure? {
      return false;
    }
    if !ManifestFormat.ActiveValid(active.value, tabs.value) {
      return false;
    }
    if tabs.value > |r.b| / 2 {
      return false;
    }
    var budget := new Budget();
    ok := PreflightTabsStructure(r, tabs.value, lib, budget);
    if !ok {
      return;
    }
    ok := r.Done();
    if !ok {
      return;
    }
    return budget.totals.rows <= MAX_ROWS && budget.totals.cells <= MAX_CELLS && budget.totals.bytes <= MAX_BYTES;
  }

  // ----- The reference pass
  // It runs on bytes the structural pass accepted, so parsing cannot fail here.

  method PreflightNodeReferences(r: PayloadReader, refs: References) returns (ok: bool)
    modifies r, refs
    ensures ok <==> GetNode(old(r.b)).Parsed?
    ensures ok ==> r.b == GetNode(old(r.b)).rest && refs.ids == old(refs.ids) + Refs(GetNode(old(r.b)).value)
    decreases |r.b|, 0
  {
    hide GetByte, GetString, GetNodes, RefsAll;
    var kind := r.GetUint8();
    if kind.Failure? {
      return false;
    }
    if kind.value == LEAF_TAG {
      var leaf := r.GetStr();
      if leaf.Failure? {
        return false;
      }
      refs.ids := refs.ids + [leaf.value];
      return true;
    } else if kind.value == SPLIT_TAG {
      var dir := r.GetUint8();
      if dir.Failure? {
        return false;
      }
      ok := PreflightChildrenReferences(r, refs);
    } else if kind.value == STACK_TAG {
      var expanded := r.GetStr();
      if expanded.Failure? {
        return false;
      }
      if expanded.value != [] {
        refs.ids := refs.ids + [expanded.value];
      }
      ok := PreflightChildrenReferences(r, refs);
    } else if kind.value == NIL_TAG {
      assert refs.ids + [] == refs.ids;
      return true;
    } else {
      return false;
    }
  }

  method PreflightChildrenReferences(r: PayloadReader, refs: References) returns (ok: bool)
    modifies r, refs
    ensures ok <==>
              var n := GetU16(old(r.b));
              n.Parsed? && GetNodes(n.rest, n.value).Parsed?
    ensures ok ==>
              var n := GetU16(old(r.b));
              var p := GetNodes(n.rest, n.value);
              r.b == p.rest && refs.ids == old(refs.ids) + RefsAll(p.value)
    decreases |r.b|, 1
  {
    hide GetNode, Refs;
    var n := r.GetUint16();
    if n.Failure? {
      return false;
    }
    ghost var start, cited := r.b, refs.ids;
    ghost var done: seq<Node> := [];
    AfterNothing(GetNodes(r.b, n.value));
    for i := 0 to n.value
      invariant |done| == i && |r.b| <= |start|
      invariant GetNodes(start, n.value) == After(done, GetNodes(r.b, n.value - i))
      invariant refs.ids == cited + RefsAll(done)
    {
      ghost var here := r.b;
      ok := PreflightNodeReferences(r, refs);
      if !ok {
        return;
      }
      ghost var c := GetNode(here).value;
      AfterOneMore(done, c, GetNodes(r.b, n.value - i - 1));
      Snoc(done, c);
      assert refs.ids == cited + (RefsAll(done) + Refs(c));
      done := done + [c];
    }
    AfterAll(done, r.b);
    return true;
  }

  method ValidateBlob(r: PayloadReader, blobOk: bytes -> bool) returns (ok: bool)
    modifies r
    ensures ok <==> GetBlob(old(r.b)).Parsed? && blobOk(GetBlob(old(r.b)).value)
    ensures ok ==> r.b == GetBlob(old(r.b)).rest
  {
    hide GetU32;
    var n := r.GetUint32();
    if n.Failure? || n.value > |r.b| {
      return false;
    }
    if !blobOk(r.b[..n.value]) {
      return false;
    }
    r.b := r.b[n.value..];
    return true;
  }

  method ValidateBlobs(r: PayloadReader, n: nat, blobOk: bytes -> bool) returns (ok: bool)
    modifies r
    ensures ok <==> GetBlobs(old(r.b), n).Parsed? && AllBlobs(GetBlobs(old(r.b), n).value, blobOk)
    ensures ok ==> r.b == GetBlobs(old(r.b), n).rest
  {
    hide GetBlob;
    ghost var start := r.b;
    ghost var done: seq<bytes> := [];
    AfterNothing(GetBlobs(r.b, n));
    for i := 0 to n
      invariant |done| == i
      invariant GetBlobs(start, n) == After(done, GetBlobs(r.b, n - i))
      invariant AllBlobs(done, blobOk)
    {
      ghost var here := r.b;
      ok := ValidateBlob(r, blobOk);
      if !ok {
        assert GetBlobs(start, n).Parsed? ==> GetBlobs(start, n).value[i] == GetBlob(here).value;
        return;
      }
      AfterOneMore(done, GetBlob(here).value, GetBlobs(r.b, n - i - 1));
      done := done + [GetBlob(here).value];
    }
    AfterAll(done, r.b);
    return true;
  }

  method PreflightPaneReferences(r: PayloadReader, blobOk: bytes -> bool) returns (res: Outcome<PaneID>)
    modifies r
    ensures GetPane(old(r.b)).Parsed? ==>
              var p := GetPane(old(r.b));
              && (res.Success? <==> p.value.id != [] && PaneBlobsOk(p.value, blobOk))
              && (res.Success? ==> r.b == p.rest && res.value == p.value.id)
  {
    hide GetString, GetU32, GetBlob, GetBlobs, AllBlobs, ManifestFormat.GetProcess;
    var id :- r.GetStr();
    if id == [] {
      return Failure;
    }
    var ok := SkipString(r);
    if !ok {
      return Failure;
    }
    ok := SkipString(r);
    if !ok {
      return Failure;
    }
    var n :- r.GetUint32();
    ok := ValidateBlobs(r, n, blobOk);
    if !ok {
      return Failure;
    }
    ok := ValidateBlob(r, blobOk);
    if !ok {
      return Failure;
    }
    ok := ValidateBlob(r, blobOk);
    if !ok {
      return Failure;
    }
    ok := PreflightProcess(r);
    if !ok {
      return Failure;
    }
    return Success(id);
  }

  lemma PaneIdsSnoc(ps: seq<Pane>, p: Pane)
    ensures PaneIds(ps + [p]) == PaneIds(ps) + {p.id}
  {
    var qs := ps + [p];
    forall id | id in PaneIds(ps) + {p.id} ensures id in PaneIds(qs) {
      if id == p.id {
        assert qs[|ps|].id == id;
      } else {
        var i :| 0 <= i < |ps| && ps[i].id == id;
        assert qs[i].id == id;
      }
    }
  }

  /** One unnamed, repeated or unreadable pane spoils the whole list. */
  lemma PaneUnreferable(done: seq<Pane>, pane: Pane, more: seq<Pane>, blobOk: bytes -> bool)
    requires pane.id == [] || !PaneBlobsOk(pane, blobOk) || pane.id in PaneIds(done)
    ensures !PanesReferable(done + ([pane] + more), blobOk)
  {
    hide PaneBlobsOk;
    var all := done + ([pane] + more);
    assert all[|done|] == pane;
    if pane.id in PaneIds(done) {
      var j :| 0 <= j < |done| && done[j].id == pane.id;
      assert all[j] == done[j];
    }
  }

  method PreflightPanesReferences(r: PayloadReader, n: nat, blobOk: bytes -> bool) returns (ok: bool, ids: set<PaneID>)
    modifies r
    ensures GetPanes(old(r.b), n).Parsed? ==>
              var p := GetPanes(old(r.b), n);
              && (ok <==> PanesReferable(p.value, blobOk))
              && (ok ==> r.b == p.rest && ids == PaneIds(p.value))
  {
    hide GetPane, PaneBlobsOk;
    ghost var start := r.b;
    ghost var done: seq<Pane> := [];
    ghost var parsed := GetPanes(start, n).Parsed?;
    ids := {};
    AfterNothing(GetPanes(r.b, n));
    for i := 0 to n
      invariant |done| == i
      invariant parsed ==> GetPanes(start, n) == After(done, GetPanes(r.b, n - i))
      invariant parsed ==> PanesReferable(done, blobOk) && ids == PaneIds(done)
    {
      ghost var here := r.b;
      ghost var next := GetPane(here);
      var id := PreflightPaneReferences(r, blobOk);
      if id.Failure? || id.value in ids {
        if parsed {
          PaneUnreferable(done, next.value, GetPanes(next.rest, n - i - 1).value, blobOk);
        }
        return false, ids;
      }
      ids := ids + {id.value};
      if parsed {
        AfterOneMore(done, next.value, GetPanes(r.b, n - i - 1));
        PaneIdsSnoc(done, next.value);
        done := done + [next.value];
      } else {
        done := done + [Pane([], [], [], [], [], [], None)];
      }
    }
    if parsed {
      AfterAll(done, r.b);
    }
    return true, ids;
  }

  method PreflightTabReferences(r: PayloadReader, blobOk: bytes -> bool) returns (ok: bool)
    modifies r
    ensures GetTab(old(r.b)).Parsed? ==>
              var p := GetTab(old(r.b));
              && (ok <==> TabReferable(p.value, blobOk))
              && (ok ==> r.b == p.rest)
  {
    hide GetString, GetU16, GetU64, GetNode, GetPanes, PanesReferable, Refs;
    ok := SkipString(r);
    if !ok {
      return;
    }
    var cols := r.GetUint16();
    if cols.Failure? {
      return false;
    }
    var rows := r.GetUint16();
    if rows.Failure? {
      return false;
    }
    var nextPane := r.GetUint64();
    if nextPane.Failure? {
      return false;
    }
    var focus := r.GetStr();
    if focus.Failure? {
      return false;
    }
    var refs := new References();
    ghost var tree := r.b;
    ok := PreflightNodeReferences(r, refs);
    if !ok {
      return;
    }
    ghost var root := GetNode(tree).value;
    assert refs.ids == Refs(root) by {
      assert [] + Refs(root) == Refs(root);
    }
    var panes := r.GetUint16();
    if panes.Failure? {
      return false;
    }
    var ids;
    ok, ids := PreflightPanesReferences(r, panes.value, blobOk);
    if !ok {
      return;
    }
    if focus.value != [] {
      refs.ids := refs.ids + [focus.value];
    }
    ok := AllDeclared(refs.ids, ids);
    AllInAppend(Refs(root), [focus.value], ids);
    assert AllIn([focus.value], ids) <==> focus.value in ids by {
      assert [focus.value][0] == focus.value;
    }
  }

  method PreflightTabsReferences(r: PayloadReader, n: nat, blobOk: bytes -> bool) returns (ok: bool)
    modifies r
    ensures GetTabs(old(r.b), n).Parsed? ==>
              var p := GetTabs(old(r.b), n);
              && (ok <==> TabsReferable(p.value, blobOk))
              && (ok ==> r.b == p.rest)
  {
    hide GetTab, TabReferable;
    ghost var start := r.b;
    ghost var parsed := GetTabs(start, n).Parsed?;
    for i := 0 to n
      invariant parsed ==>
                  var all, left := GetTabs(start, n), GetTabs(r.b, n - i);
                  && left.Parsed? && all.rest == left.rest
                  && (TabsReferable(all.value, blobOk) <==> TabsReferable(left.value, blobOk))
    {
      ghost var here := r.b;
      if parsed {
        ghost var left := GetTabs(here, n - i).value;
        assert left[1..] == GetTabs(GetTab(here).rest, n - i - 1).value;
        assert TabsReferable(left, blobOk) <==> TabReferable(left[0], blobOk) && TabsReferable(left[1..], blobOk);
      }
      ok := PreflightTabReferences(r, blobOk);
      if !ok {
        return;
      }
    }
    return true;
  }

  /** On a body that parses, the reference pass accepts exactly the referable sessions. */
  method PreflightReferences(body: bytes, blobOk: bytes -> bool) returns (ok: bool)
    ensures GetSession(body).Parsed? ==>
              var p := GetSession(body);
              ok <==> p.rest == [] && TabsReferable(p.value.tabs, blobOk)
  {
    hide GetString, GetU16, GetU64, GetTabs, TabsReferable;
    var r := new PayloadReader(body);
    ok := SkipString(r);
    if !ok {
      return;
    }
    var createdAt := r.GetUint64();
    if createdAt.Failure? {
      return false;
    }
    var active := r.GetUint16();
    if active.Failure? {
      return false;
    }
    var tabs := r.GetUint16();
    if tabs.Failure? {
      return false;
    }
    ok := PreflightTabsReferences(r, tabs.value, blobOk);
    if !ok {
      return;
    }
    ok := r.Done();
  }

  /** Both passes in order, as run before decoding. */
  method PreflightSession(body: bytes, lib: Library) returns (ok: bool)
    ensures ok <==>
              var p := GetSession(body);
              p.Parsed? && p.rest == [] && SessionStructured(lib, p.value) && TabsReferable(p.value.tabs, lib.blobOk)
  {
    hide GetSession, SessionStructured, TabsReferable;
    ok := PreflightStructure(body, lib);
    if !ok {
      return;
    }
    ok := PreflightReferences(body, lib.blobOk);
  }
}
