/**
 Which session snapshots are accepted, said in plain numbers over the list of
 everything that is charged for, independent of the order in which the
 structural pass runs its meters.
 */
module SessionLaws {
  import opened Wire
  import opened LayoutTree
  import opened TreeLaws
  import opened SessionFormat

  datatype Role = SealedChunk | Tail | Transcript

  /** One charge: bytes for a tab or pane slot, the nodes of a tree, or a history blob. */
  datatype Item = Slot | Nodes(count: nat) | History(blob: bytes, role: Role)

  function ChunkItems(xs: seq<bytes>): seq<Item> {
    if xs == [] then [] else [History(xs[0], SealedChunk)] + ChunkItems(xs[1..])
  }

  function PaneItems(p: Pane): seq<Item> {
    [Slot] + (ChunkItems(p.chunks) + [History(p.tail, Tail), History(p.transcript, Transcript)])
  }

  function PanesItems(ps: seq<Pane>): seq<Item> {
    if ps == [] then [] else PaneItems(ps[0]) + PanesItems(ps[1..])
  }

  function TabItems(t: Tab): seq<Item> {
    [Slot, Nodes(|Flat(t.root, 0)|)] + PanesItems(t.panes)
  }

  function TabsItems(ts: seq<Tab>): seq<Item> {
    if ts == [] then [] else TabItems(ts[0]) + TabsItems(ts[1..])
  }

  // ----- Totals

  function NodeCount(items: seq<Item>): nat {
    if items == [] then 0 else NodeCount(items[1..]) + if items[0].Nodes? then items[0].count else 0
  }

  function BlobCount(items: seq<Item>): nat {
    if items == [] then 0 else BlobCount(items[1..]) + if items[0].History? then 1 else 0
  }

  /** 256 bytes a slot, 128 a node; a blob is its bytes, 64 a chunk, 32 a row and 64 a cell. */
  function Allocation(lib: Library, items: seq<Item>): nat {
    if items == [] then 0
    else
      Allocation(lib, items[1..]) +
      match items[0]
      case Slot => 256
      case Nodes(n) => 128 * n
      case History(x, _) =>
        match lib.measure(x)
        case None => 0
        case Some(s) => |x| + 64 * s.chunks as nat + 32 * s.rows as nat + 64 * s.cells as nat
  }

  /** The sizes of all blobs, accumulated by the library from `from` on. */
  function Accumulated(lib: Library, items: seq<Item>, from: Stats): Option<Stats> {
    if items == [] then Some(from)
    else if !items[0].History? then Accumulated(lib, items[1..], from)
    else
      match lib.measure(items[0].blob)
      case None => None
      case Some(s) =>
        match lib.sum(from, s)
        case None => None
        case Some(t) => Accumulated(lib, items[1..], t)
  }

  /**
   A blob is not empty, at most 256 MiB and measurable; a sealed one is one chunk with rows, a
   tail at most one chunk.
   */
  predicate BlobOk(lib: Library, x: bytes, role: Role) {
    && 0 < |x| <= 268_435_456 && lib.measure(x).Some?
    && (role == SealedChunk ==> lib.measure(x).value.chunks == 1 && lib.measure(x).value.rows > 0)
    && (role == Tail ==> lib.measure(x).value.chunks <= 1)
  }

  predicate BlobsOk(lib: Library, items: seq<Item>) {
    forall i :: 0 <= i < |items| && items[i].History? ==> BlobOk(lib, items[i].blob, items[i].role)
  }

  // ----- The meters as one run over the list

  function ChargeItem(lib: Library, item: Item, m: Meter): Option<Meter> {
    match item
    case Slot => Charge(m, 256)
    case Nodes(n) => ChargeNodes(m, n)
    case History(x, role) => if BlobOk(lib, x, role) then ChargeBlob(lib, x, m) else None
  }

  function ChargeItems(lib: Library, items: seq<Item>, m: Meter): Option<Meter> {
    if items == [] then Some(m)
    else
      match ChargeItem(lib, items[0], m)
      case None => None
      case Some(m1) => ChargeItems(lib, items[1..], m1)
  }

  lemma {:induction false} ChargeAppend(lib: Library, xs: seq<Item>, ys: seq<Item>, m: Meter)
    ensures ChargeItems(lib, xs + ys, m) ==
            match ChargeItems(lib, xs, m)
            case None => None
            case Some(m1) => ChargeItems(lib, ys, m1)
    decreases |xs|
  {
    hide ChargeItem;
    if xs == [] {
      assert xs + ys == ys;
    } else {
      assert (xs + ys)[0] == xs[0] && (xs + ys)[1..] == xs[1..] + ys;
      var m1 := ChargeItem(lib, xs[0], m);
      if m1.Some? {
        ChargeAppend(lib, xs[1..], ys, m1.value);
      }
    }
  }

  lemma ChargeOne(lib: Library, item: Item, m: Meter)
    ensures ChargeItems(lib, [item], m) == ChargeItem(lib, item, m)
  {
    hide ChargeItem;
    assert [item][1..] == [];
    var m1 := ChargeItem(lib, item, m);
    if m1.Some? {
      assert ChargeItems(lib, [], m1.value) == m1;
    }
  }

  lemma {:induction false} SealedAsItems(lib: Library, xs: seq<bytes>, m: Meter)
    ensures ChargeSealed(lib, xs, m) == ChargeItems(lib, ChunkItems(xs), m)
    decreases |xs|
  {
    if xs == [] {
    } else {
      var items := ChunkItems(xs);
      assert items[0] == History(xs[0], SealedChunk) && items[1..] == ChunkItems(xs[1..]);
      var m1 := ChargeBlob(lib, xs[0], m);
      if m1.Some? {
        SealedAsItems(lib, xs[1..], m1.value);
      }
    }
  }

  lemma LastTwo(lib: Library, p: Pane, m: Meter)
    ensures ChargeItems(lib, [History(p.tail, Tail), History(p.transcript, Transcript)], m) ==
            match ChargeTail(lib, p.tail, m)
            case None => None
            case Some(m3) => ChargeBlob(lib, p.transcript, m3)
  {
    var a, b := History(p.tail, Tail), History(p.transcript, Transcript);
    assert [a, b][1..] == [b];
    var m1 := ChargeItem(lib, a, m);
    assert m1 == ChargeTail(lib, p.tail, m);
    if m1.Some? {
      ChargeOne(lib, b, m1.value);
    }
  }

  lemma PaneAsItems(lib: Library, p: Pane, m: Meter)
    ensures ChargePane(lib, p, m) == ChargeItems(lib, PaneItems(p), m)
  {
    hide ChargeItems, ChargeTail, ChargeBlob, ChargeSealed;
    var last := [History(p.tail, Tail), History(p.transcript, Transcript)];
    ChargeAppend(lib, [Slot], ChunkItems(p.chunks) + last, m);
    ChargeOne(lib, Slot, m);
    var m1 := Charge(m, 256);
    if m1.Some? {
      ChargeAppend(lib, ChunkItems(p.chunks), last, m1.value);
      SealedAsItems(lib, p.chunks, m1.value);
      var m2 := ChargeSealed(lib, p.chunks, m1.value);
      if m2.Some? {
        LastTwo(lib, p, m2.value);
      }
    }
  }

  lemma {:induction false} PanesAsItems(lib: Library, ps: seq<Pane>, m: Meter)
    ensures ChargePanes(lib, ps, m) == ChargeItems(lib, PanesItems(ps), m)
    decreases |ps|
  {
    hide ChargePane, PaneItems, ChargeItem;
    if ps == [] {
    } else {
      PaneAsItems(lib, ps[0], m);
      ChargeAppend(lib, PaneItems(ps[0]), PanesItems(ps[1..]), m);
      var m1 := ChargePane(lib, ps[0], m);
      if m1.Some? {
        PanesAsItems(lib, ps[1..], m1.value);
      }
    }
  }

  lemma {:induction false} TotalIsFlat(n: Node, depth: nat)
    ensures Total(n) == |Flat(n, depth)|
    decreases n, 1
  {
    if n.Split? || n.Stack? {
      TotalsAreFlat(n.children, depth + 1);
    }
  }

  lemma {:induction false} TotalsAreFlat(ns: seq<Node>, depth: nat)
    ensures TotalAll(ns) == |FlatAll(ns, depth)|
    decreases ns, 0
  {
    if ns != [] {
      TotalIsFlat(ns[0], depth);
      TotalsAreFlat(ns[1..], depth);
    }
  }

  lemma TabAsItems(lib: Library, t: Tab, m: Meter)
    ensures ChargeTab(lib, t, m) == ChargeItems(lib, TabItems(t), m)
  {
    hide ChargeItems, ChargePanes, PanesItems, Total, Flat;
    var nodes := Nodes(|Flat(t.root, 0)|);
    TotalIsFlat(t.root, 0);
    assert TabItems(t) == [Slot] + ([nodes] + PanesItems(t.panes));
    ChargeAppend(lib, [Slot], [nodes] + PanesItems(t.panes), m);
    ChargeOne(lib, Slot, m);
    var m1 := Charge(m, 256);
    if m1.Some? {
      ChargeAppend(lib, [nodes], PanesItems(t.panes), m1.value);
      ChargeOne(lib, nodes, m1.value);
      var m2 := ChargeNodes(m1.value, Total(t.root));
      if m2.Some? {
        PanesAsItems(lib, t.panes, m2.value);
      }
    }
  }

  lemma {:induction false} TabsAsItems(lib: Library, ts: seq<Tab>, m: Meter)
    ensures ChargeTabs(lib, ts, m) == ChargeItems(lib, TabsItems(ts), m)
    decreases |ts|
  {
    hide ChargeTab, TabItems, ChargeItem;
    if ts == [] {
    } else {
      TabAsItems(lib, ts[0], m);
      ChargeAppend(lib, TabItems(ts[0]), TabsItems(ts[1..]), m);
      var m1 := ChargeTab(lib, ts[0], m);
      if m1.Some? {
        TabsAsItems(lib, ts[1..], m1.value);
      }
    }
  }

  // ----- A run of the meters as its totals

  predicate WithinLimits(m: Meter) {
    m.nodes <= 32_768 && m.alloc <= 268_435_456 && m.blobs <= 65_536
  }

  /** The totals of the list on top of `m` stay within every limit. */
  predicate TotalsFit(lib: Library, items: seq<Item>, m: Meter) {
    && BlobsOk(lib, items)
    && m.nodes + NodeCount(items) <= 32_768
    && m.blobs + BlobCount(items) <= 65_536
    && m.alloc + Allocation(lib, items) <= 268_435_456
    && Accumulated(lib, items, m.totals).Some?
  }

  lemma BlobsOkCons(lib: Library, items: seq<Item>)
    requires items != []
    ensures BlobsOk(lib, items) <==>
            BlobsOk(lib, items[1..]) && (items[0].History? ==> BlobOk(lib, items[0].blob, items[0].role))
  {
    hide BlobOk;
    assert items == [items[0]] + items[1..];
  }

  /** What one charge does, and when it is refused. */
  lemma OneCharge(lib: Library, items: seq<Item>, m: Meter)
    requires items != [] && WithinLimits(m)
    ensures ChargeItem(lib, items[0], m).None? ==> !TotalsFit(lib, items, m)
    ensures ChargeItem(lib, items[0], m).Some? ==>
              var m1 := ChargeItem(lib, items[0], m).value;
              && WithinLimits(m1)
              && (TotalsFit(lib, items, m) <==> TotalsFit(lib, items[1..], m1))
              && Accumulated(lib, items, m.totals) == Accumulated(lib, items[1..], m1.totals)
  {
    BlobsOkCons(lib, items);
    hide BlobsOk;
  }

  /** The meters run through exactly when the totals fit, whatever the order of the charges. */
  lemma {:induction false} ChargesExactly(lib: Library, items: seq<Item>, m: Meter)
    requires WithinLimits(m)
    ensures ChargeItems(lib, items, m).Some? <==> TotalsFit(lib, items, m)
    ensures ChargeItems(lib, items, m).Some? ==>
              Some(ChargeItems(lib, items, m).value.totals) == Accumulated(lib, items, m.totals)
    decreases |items|
  {
    hide ChargeItem;
    if items == [] {
    } else {
      hide TotalsFit;
      OneCharge(lib, items, m);
      var m1 := ChargeItem(lib, items[0], m);
      if m1.Some? {
        ChargesExactly(lib, items[1..], m1.value);
      }
    }
  }

  // ----- Acceptance

  predicate PanesSound(ps: seq<Pane>, blobOk: bytes -> bool) {
    && (forall i :: 0 <= i < |ps| ==> |ps[i].id| > 0 && blobOk(ps[i].tail) && blobOk(ps[i].transcript))
    && (forall i, j :: 0 <= i < |ps| && 0 <= j < |ps[i].chunks| ==> blobOk(ps[i].chunks[j]))
    && (forall i, j :: 0 <= i < j < |ps| ==> ps[i].id != ps[j].id)
  }

  predicate TabSound(t: Tab, blobOk: bytes -> bool) {
    && PanesSound(t.panes, blobOk)
    && (t.focus == [] || exists i :: 0 <= i < |t.panes| && t.panes[i].id == t.focus)
    && (t.root.Nil? || AllOk(Flat(t.root, 0), PaneIds(t.panes)))
    && NoDeeper(Flat(t.root, 0), 64)
  }

  /** The library's accumulated sizes stay within 2^20 rows, 2^24 cells and 256 MiB. */
  predicate SizesSound(totals: Option<Stats>) {
    totals.Some? && totals.value.rows <= 1_048_576 && totals.value.cells <= 16_777_216
    && totals.value.bytes <= 268_435_456
  }

  predicate SessionSound(lib: Library, s: Session) {
    && (forall i :: 0 <= i < |s.tabs| ==> TabSound(s.tabs[i], lib.blobOk))
    && TotalsFit(lib, TabsItems(s.tabs), ZERO_METER)
    && SizesSound(Accumulated(lib, TabsItems(s.tabs), Stats(0, 0, 0, 0)))
  }

  lemma TabExactly(t: Tab, blobOk: bytes -> bool)
    ensures TabStructured(t) && TabReferable(t, blobOk) <==> TabSound(t, blobOk)
  {
    hide WellShaped, HeightWithin, NoDeeper, AllOk, NodeValid, AllIn, Refs, Flat;
    ShapeAndRefsAreValidity(t.root, PaneIds(t.panes), true);
    ValidExactly(t.root, 0, PaneIds(t.panes));
    HeightExactly(t.root, 0, 64);
    PanesExactly(t.panes, blobOk);
  }

  lemma PanesExactly(ps: seq<Pane>, blobOk: bytes -> bool)
    ensures PanesReferable(ps, blobOk) <==> PanesSound(ps, blobOk)
  {
  }

  /** Both preflight passes together accept exactly the sound sessions. */
  lemma AcceptanceExactly(lib: Library, s: Session)
    ensures SessionStructured(lib, s) && TabsReferable(s.tabs, lib.blobOk) <==> SessionSound(lib, s)
  {
    hide TabStructured, TabReferable, TabSound, ChargeTabs, ChargeItems, TabsItems, Accumulated, TotalsFit;
    forall i | 0 <= i < |s.tabs|
      ensures TabStructured(s.tabs[i]) && TabReferable(s.tabs[i], lib.blobOk) <==> TabSound(s.tabs[i], lib.blobOk)
    {
      TabExactly(s.tabs[i], lib.blobOk);
    }
    TabsAsItems(lib, s.tabs, ZERO_METER);
    ChargesExactly(lib, TabsItems(s.tabs), ZERO_METER);
  }
}
