/**
 The whole-session snapshot: its values and the parser that builds them, as
 functions. History blobs are opaque byte strings owned by the terminal library.
 */
module SessionFormat {
  import opened Wire
  import opened Payload
  import opened LayoutTree
  import ManifestFormat

  type Process = ManifestFormat.Process

  datatype Pane = Pane(
    id: PaneID, stableId: bytes, cwd: bytes,
    chunks: seq<bytes>, tail: bytes, transcript: bytes, process: Option<Process>)
  datatype Tab = Tab(
    stableId: bytes, cols: u16, rows: u16, nextPane: u64, focus: PaneID, root: Node, panes: seq<Pane>)
  datatype Session = Session(name: bytes, createdAt: u64, active: u16, tabs: seq<Tab>)

  const MAX_OBJECTS: nat := 0x1_0000
  const MAX_TREE_NODES: nat := 0x8000

  function GetBlob(b: bytes): (p: Parsed<bytes>)
    ensures p.Parsed? ==> |p.rest| + 4 + |p.value| == |b|
  {
    U32Length(b);
    var (n, b1) :- GetU32(b);
    GetBytes(b1, n)
  }

  function GetBlobs(b: bytes, n: nat): (p: Parsed<seq<bytes>>)
    ensures p.Parsed? ==> |p.value| == n && |p.rest| + 4 * n <= |b|
    decreases n
  {
    if n == 0 then Parsed([], b)
    else
      var (x, b1) :- GetBlob(b);
      After([x], GetBlobs(b1, n - 1))
  }

  /** The part of a pane after its three strings. */
  function GetPaneBlobs(b: bytes, id: bytes, stableId: bytes, cwd: bytes): (p: Parsed<Pane>)
    ensures p.Parsed? ==> p.value.id == id && |p.rest| <= |b|
  {
    U32Length(b);
    var (n, b1) :- GetU32(b);
    if n > MAX_OBJECTS || n > |b1| / 4 then Rejected
    else
      var (chunks, b2) :- GetBlobs(b1, n);
      var (tail, b3) :- GetBlob(b2);
      var (transcript, b4) :- GetBlob(b3);
      var (process, b5) :- ManifestFormat.GetProcess(b4);
      Parsed(Pane(id, stableId, cwd, chunks, tail, transcript, process), b5)
  }

  function GetPane(b: bytes): (p: Parsed<Pane>)
    ensures p.Parsed? ==> |p.rest| + 2 <= |b|
  {
    var (id, b1) :- GetString(b);
    var (stableId, b2) :- GetString(b1);
    var (cwd, b3) :- GetString(b2);
    GetPaneBlobs(b3, id, stableId, cwd)
  }

  function GetPanes(b: bytes, n: nat): (p: Parsed<seq<Pane>>)
    ensures p.Parsed? ==> |p.value| == n && |p.rest| + 2 * n <= |b|
    decreases n
  {
    if n == 0 then Parsed([], b)
    else
      var (p, b1) :- GetPane(b);
      After([p], GetPanes(b1, n - 1))
  }

  /** The part of a tab after its fixed-width fields. */
  function GetTabBody(b: bytes, stableId: bytes, cols: u16, rows: u16, nextPane: u64): (p: Parsed<Tab>)
    ensures p.Parsed? ==> |p.rest| <= |b|
  {
    var (focus, b1) :- GetString(b);
    var (root, b2) :- GetNode(b1);
    var (n, b3) :- GetU16(b2);
    var (panes, b4) :- GetPanes(b3, n);
    Parsed(Tab(stableId, cols, rows, nextPane, focus, root, panes), b4)
  }

  function GetTab(b: bytes): (p: Parsed<Tab>)
    ensures p.Parsed? ==> |p.rest| + 2 <= |b|
  {
    var (stableId, b1) :- GetString(b);
    var (cols, b2) :- GetU16(b1);
    var (rows, b3) :- GetU16(b2);
    U64Length(b3);
    var (nextPane, b4) :- GetU64(b3);
    GetTabBody(b4, stableId, cols, rows, nextPane)
  }

  function GetTabs(b: bytes, n: nat): (p: Parsed<seq<Tab>>)
    ensures p.Parsed? ==> |p.value| == n && |p.rest| + 2 * n <= |b|
    decreases n
  {
    if n == 0 then Parsed([], b)
    else
      var (t, b1) :- GetTab(b);
      After([t], GetTabs(b1, n - 1))
  }

  function GetSession(b: bytes): Parsed<Session> {
    var (name, b1) :- GetString(b);
    var (createdAt, b2) :- GetU64(b1);
    var (active, b3) :- GetU16(b2);
    var (n, b4) :- GetU16(b3);
    if !ManifestFormat.ActiveValid(active, n) then Rejected
    else
      var (tabs, b5) :- GetTabs(b4, n);
      Parsed(Session(name, createdAt, active, tabs), b5)
  }

  function PaneIds(ps: seq<Pane>): set<PaneID> {
    set i | 0 <= i < |ps| :: ps[i].id
  }

  /** The checks that follow decoding. */
  predicate TabResolves(t: Tab) {
    && (t.focus == [] || t.focus in PaneIds(t.panes))
    && TreeValid(t.root, PaneIds(t.panes))
  }

  predicate SessionResolves(s: Session) {
    forall i :: 0 <= i < |s.tabs| ==> TabResolves(s.tabs[i])
  }

  /** The snapshot a body holds, if it holds exactly one. */
  function DecodeSession(body: bytes): Option<Session> {
    var p := GetSession(body);
    if p.Parsed? && p.rest == [] && SessionResolves(p.value) then Some(p.value) else None
  }

  // ----- What the structural pass measures

  /** What the terminal library reports about one history blob. */
  datatype Stats = Stats(chunks: u64, rows: u64, cells: u64, bytes: u64)

  /** The terminal library: sizing, accumulation of sizes, and full validation. */
  datatype Library = Library(
    measure: bytes -> Option<Stats>,
    sum: (Stats, Stats) -> Option<Stats>,
    blobOk: bytes -> bool)

  /** The running totals of the structural pass. */
  datatype Meter = Meter(nodes: nat, alloc: nat, totals: Stats, blobs: nat)

  const MAX_ALLOCATION: nat := ManifestFormat.MAX_ALLOCATION
  const MAX_ROWS: nat := 0x10_0000
  const MAX_CELLS: nat := ManifestFormat.MAX_CELLS
  const MAX_BYTES: nat := 0x1000_0000
  const ZERO_METER: Meter := Meter(0, 0, Stats(0, 0, 0, 0), 0)

  function Charge(m: Meter, amount: nat): Option<Meter> {
    if m.alloc + amount <= MAX_ALLOCATION then Some(m.(alloc := m.alloc + amount)) else None
  }

  function ChargeNodes(m: Meter, n: nat): Option<Meter> {
    if m.nodes + n <= MAX_TREE_NODES && m.alloc + NODE_COST * n <= MAX_ALLOCATION then
      Some(m.(nodes := m.nodes + n, alloc := m.alloc + NODE_COST * n))
    else
      None
  }

  function BlobSize(x: bytes, stats: Stats): nat {
    |x| + stats.chunks as nat * 64 + stats.rows as nat * 32 + stats.cells as nat * 64
  }

  function ChargeBlob(lib: Library, x: bytes, m: Meter): Option<Meter> {
    if |x| == 0 || |x| > MAX_BYTES || m.blobs >= MAX_OBJECTS then None
    else
      match lib.measure(x)
      case None => None
      case Some(stats) =>
        match lib.sum(m.totals, stats)
        case None => None
        case Some(totals) =>
          match Charge(m, BlobSize(x, stats))
          case None => None
          case Some(m1) => Some(m1.(totals := totals, blobs := m.blobs + 1))
  }

  /** A sealed chunk is one nonempty chunk. */
  function ChargeSealed(lib: Library, xs: seq<bytes>, m: Meter): Option<Meter> {
    if xs == [] then Some(m)
    else
      match ChargeBlob(lib, xs[0], m)
      case None => None
      case Some(m1) =>
        var stats := lib.measure(xs[0]).value;
        if stats.chunks != 1 || stats.rows == 0 then None else ChargeSealed(lib, xs[1..], m1)
  }

  /** A tail is at most one chunk. */
  function ChargeTail(lib: Library, x: bytes, m: Meter): Option<Meter> {
    match ChargeBlob(lib, x, m)
    case None => None
    case Some(m1) => if lib.measure(x).value.chunks > 1 then None else Some(m1)
  }

  function ChargePane(lib: Library, p: Pane, m: Meter): Option<Meter> {
    match Charge(m, 256)
    case None => None
    case Some(m1) =>
      match ChargeSealed(lib, p.chunks, m1)
      case None => None
      case Some(m2) =>
        match ChargeTail(lib, p.tail, m2)
        case None => None
        case Some(m3) => ChargeBlob(lib, p.transcript, m3)
  }

  function ChargePanes(lib: Library, ps: seq<Pane>, m: Meter): Option<Meter> {
    if ps == [] then Some(m)
    else
      match ChargePane(lib, ps[0], m)
      case None => None
      case Some(m1) => ChargePanes(lib, ps[1..], m1)
  }

  /** All nodes, nil roots included. */
  function Total(n: Node): nat
    decreases n, 1
  {
    1 + match n
        case Nil => 0
        case Leaf(_, _) => 0
        case Split(_, cs, _) => TotalAll(cs)
        case Stack(_, cs, _) => TotalAll(cs)
  }

  function TotalAll(ns: seq<Node>): nat
    decreases ns, 0
  {
    if ns == [] then 0 else Total(ns[0]) + TotalAll(ns[1..])
  }

  lemma {:induction false} TotalAppend(ns: seq<Node>, ms: seq<Node>)
    ensures TotalAll(ns + ms) == TotalAll(ns) + TotalAll(ms)
  {
    hide Total;
    if ns == [] {
      assert [] + ms == ms;
    } else {
      TotalAppend(ns[1..], ms);
      assert (ns + ms)[1..] == ns[1..] + ms;
    }
  }

  function ChargeTab(lib: Library, t: Tab, m: Meter): Option<Meter> {
    match Charge(m, 256)
    case None => None
    case Some(m1) =>
      match ChargeNodes(m1, Total(t.root))
      case None => None
      case Some(m2) => ChargePanes(lib, t.panes, m2)
  }

  function ChargeTabs(lib: Library, ts: seq<Tab>, m: Meter): Option<Meter> {
    if ts == [] then Some(m)
    else
      match ChargeTab(lib, ts[0], m)
      case None => None
      case Some(m1) => ChargeTabs(lib, ts[1..], m1)
  }

  // ----- What the two preflight passes establish

  /** Trees are well shaped and not too deep. */
  predicate TabStructured(t: Tab) {
    WellShaped(t.root, true) && HeightWithin(t.root, MAX_DEPTH)
  }

  predicate TabsStructured(ts: seq<Tab>) {
    forall i :: 0 <= i < |ts| ==> TabStructured(ts[i])
  }

  /** The structural pass: shapes and depths are fine and every budget covers the session. */
  predicate SessionStructured(lib: Library, s: Session) {
    && TabsStructured(s.tabs)
    && match ChargeTabs(lib, s.tabs, ZERO_METER)
       case None => false
       case Some(m) => m.totals.rows <= MAX_ROWS && m.totals.cells <= MAX_CELLS && m.totals.bytes <= MAX_BYTES
  }

  predicate AllBlobs(bs: seq<bytes>, blobOk: bytes -> bool) {
    forall i :: 0 <= i < |bs| ==> blobOk(bs[i])
  }

  predicate PaneBlobsOk(p: Pane, blobOk: bytes -> bool) {
    AllBlobs(p.chunks, blobOk) && blobOk(p.tail) && blobOk(p.transcript)
  }

  predicate PanesReferable(ps: seq<Pane>, blobOk: bytes -> bool) {
    && (forall i :: 0 <= i < |ps| ==> ps[i].id != [] && PaneBlobsOk(ps[i], blobOk))
    && forall i, j :: 0 <= i < j < |ps| ==> ps[i].id != ps[j].id
  }

  /** The reference pass: panes are named and distinct, references and blobs check out. */
  predicate TabReferable(t: Tab, blobOk: bytes -> bool) {
    && PanesReferable(t.panes, blobOk)
    && (t.focus == [] || t.focus in PaneIds(t.panes))
    && AllIn(Refs(t.root), PaneIds(t.panes))
  }

  predicate TabsReferable(ts: seq<Tab>, blobOk: bytes -> bool) {
    forall i :: 0 <= i < |ts| ==> TabReferable(ts[i], blobOk)
  }

  /** Both passes together leave the post-decoding checks nothing to reject. */
  lemma PassesImplyResolution(s: Session, blobOk: bytes -> bool)
    requires TabsStructured(s.tabs) && TabsReferable(s.tabs, blobOk)
    ensures SessionResolves(s)
  {
    forall i | 0 <= i < |s.tabs| ensures TabResolves(s.tabs[i]) {
      ShapeAndRefsAreValidity(s.tabs[i].root, PaneIds(s.tabs[i].panes), true);
    }
  }
}
