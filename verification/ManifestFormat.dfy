/**
 The incremental checkpoint manifest: its values, wire form and validity, as
 functions. The readers and writers of `ManifestCodec` and the allocation-free
 checker of `ManifestPreflight` are proved against these.
 */
module ManifestFormat {
  import opened Wire
  import opened Payload
  import opened LayoutTree
  import opened Envelope

  type Digest = d: bytes | |d| == 32 witness seq(32, i => 0)
  type Incarnation = d: bytes | |d| == 16 witness seq(16, i => 0)

  datatype Checkpoint = Checkpoint(generation: u64, digest: Digest)
  datatype ObjectRef = ObjectRef(kind: byte, digest: Digest, size: u32)
  datatype Process = Process(argv: seq<bytes>, strategy: bytes, agentSession: bytes)
  datatype Pane = Pane(
    id: PaneID, stableId: bytes, cwd: bytes,
    sealedRefs: seq<ObjectRef>, tail: ObjectRef, transcript: ObjectRef, process: Option<Process>)
  datatype Tree = Tree(root: Node, focus: PaneID)
  datatype Tab = Tab(
    stableId: bytes, cols: u16, rows: u16, nextPane: u64, focus: PaneID,
    tree: Option<Tree>, panes: seq<Pane>)
  datatype Header = Header(
    generation: u64, incarnation: Incarnation, parent: Option<Checkpoint>,
    name: bytes, createdAt: u64, active: u16)
  datatype Manifest = Manifest(header: Header, tabs: seq<Tab>)

  const REF_SIZE: nat := 37
  const HISTORY_CHUNK: byte := 1
  const HISTORY_TAIL: byte := 2
  const RECOVERY_TRANSCRIPT: byte := 3

  const MIN_OBJECT_SIZE: nat := 22
  const MAX_OBJECT_SIZE: nat := 16 + MAX_BODY
  const MAX_CELLS: nat := 0x100_0000 // 16 Mi
  const MAX_ALLOCATION: nat := 0x1000_0000 // 256 MiB

  const WEIGHT_TAG: bytes := [0x57, 0x47, 0x54, 0x31] // "WGT1"
  const NEGATIVE_ZERO: u64 := 0x8000_0000_0000_0000
  const POSITIVE_INFINITY: u64 := 0x7FF0_0000_0000_0000

  // ----- Weights as IEEE-754 bit patterns

  /** Not negative, not NaN, not infinite; negative zero compares equal to zero. */
  predicate ValidWeight(w: u64) {
    w < POSITIVE_INFINITY || w == NEGATIVE_ZERO
  }

  predicate IsZero(w: u64) {
    w == 0 || w == NEGATIVE_ZERO
  }

  predicate AllValid(ws: seq<u64>) {
    forall i :: 0 <= i < |ws| ==> ValidWeight(ws[i])
  }

  predicate AllZeroWeights(ws: seq<u64>) {
    forall i :: 0 <= i < |ws| ==> IsZero(ws[i])
  }

  // ----- Lengths that fit their wire fields

  predicate ProcessFits(p: Option<Process>) {
    p.Some? ==>
      && 0 < |p.value.argv| <= MAX_U16 && StringsFit(p.value.argv)
      && |p.value.strategy| <= MAX_U16 && |p.value.agentSession| <= MAX_U16
  }

  predicate PaneFits(p: Pane) {
    && |p.id| <= MAX_U16 && |p.stableId| <= MAX_U16 && |p.cwd| <= MAX_U16
    && |p.sealedRefs| <= MAX_U16 && ProcessFits(p.process)
  }

  predicate PanesFit(ps: seq<Pane>) {
    forall i :: 0 <= i < |ps| ==> PaneFits(ps[i])
  }

  function Root(t: Tab): Node {
    if t.tree.Some? then t.tree.value.root else Nil
  }

  predicate TabFits(t: Tab) {
    && |t.stableId| <= MAX_U16 && |t.focus| <= MAX_U16 && NodeFits(Root(t))
    && |t.panes| <= MAX_U16 && PanesFit(t.panes)
  }

  predicate TabsFit(ts: seq<Tab>) {
    forall i :: 0 <= i < |ts| ==> TabFits(ts[i])
  }

  // ----- Printers

  function PutRef(r: ObjectRef, k: bytes): bytes {
    PutByte(r.kind, r.digest + PutU32(r.size, k))
  }

  function PutRefs(rs: seq<ObjectRef>, k: bytes): bytes {
    if rs == [] then k else PutRef(rs[0], PutRefs(rs[1..], k))
  }

  function PutProcess(p: Option<Process>, k: bytes): bytes
    requires ProcessFits(p)
  {
    match p
    case None => PutByte(0, k)
    case Some(v) =>
      PutByte(1, PutU16(|v.argv|, PutStringItems(v.argv, PutString(v.strategy, PutString(v.agentSession, k)))))
  }

  function PutPaneRefs(p: Pane, k: bytes): bytes
    requires PaneFits(p)
  {
    PutU16(|p.sealedRefs|, PutRefs(p.sealedRefs, PutRef(p.tail, PutRef(p.transcript, PutProcess(p.process, k)))))
  }

  function PutPane(p: Pane, k: bytes): bytes
    requires PaneFits(p)
  {
    PutString(p.id, PutString(p.stableId, PutString(p.cwd, PutPaneRefs(p, k))))
  }

  function PutPanes(ps: seq<Pane>, k: bytes): bytes
    requires PanesFit(ps)
  {
    if ps == [] then k else PutPane(ps[0], PutPanes(ps[1..], k))
  }

  function PutTabBody(t: Tab, k: bytes): bytes
    requires TabFits(t)
  {
    PutString(t.focus, PutNode(Root(t), PutU16(|t.panes|, PutPanes(t.panes, k))))
  }

  function PutTab(t: Tab, k: bytes): bytes
    requires TabFits(t)
  {
    PutString(t.stableId, PutU16(t.cols, PutU16(t.rows, PutU64(t.nextPane, PutTabBody(t, k)))))
  }

  function PutTabs(ts: seq<Tab>, k: bytes): bytes
    requires TabsFit(ts)
  {
    if ts == [] then k else PutTab(ts[0], PutTabs(ts[1..], k))
  }

  function PutParent(c: Option<Checkpoint>, k: bytes): bytes {
    match c
    case None => PutByte(0, k)
    case Some(v) => PutByte(1, PutU64(v.generation, v.digest + k))
  }

  function PutHeader(h: Header, k: bytes): bytes
    requires |h.name| <= MAX_U16
  {
    PutU64(h.generation, h.incarnation + PutParent(h.parent,
      PutString(h.name, PutU64(h.createdAt, PutU16(h.active, k)))))
  }

  function PutWeights(ws: seq<u64>): bytes {
    if ws == [] then [] else PutU64(ws[0], PutWeights(ws[1..]))
  }

  // ----- Parsers

  function GetRef(b: bytes): (p: Parsed<ObjectRef>)
    ensures p.Parsed? ==> |p.rest| + REF_SIZE == |b|
  {
    var (kind, b1) :- GetByte(b);
    var (digest, b2) :- GetBytes(b1, 32);
    var (size, b3) :- GetU32(b2);
    Parsed(ObjectRef(kind, digest, size), b3)
  }

  function GetRefs(b: bytes, n: nat): (p: Parsed<seq<ObjectRef>>)
    ensures p.Parsed? ==> |p.value| == n && |p.rest| + REF_SIZE * n == |b|
    decreases n
  {
    if n == 0 then Parsed([], b)
    else
      var (r, b1) :- GetRef(b);
      After([r], GetRefs(b1, n - 1))
  }

  function GetProcess(b: bytes): (p: Parsed<Option<Process>>)
    ensures p.Parsed? ==> ProcessFits(p.value) && |p.rest| < |b|
  {
    var (present, b1) :- GetByte(b);
    if present == 0 then Parsed(None, b1)
    else if present != 1 then Rejected
    else
      var (n, b2) :- GetU16(b1);
      var (argv, b3) :- GetStringItems(b2, n);
      if n == 0 then Rejected
      else
        var (strategy, b4) :- GetString(b3);
        var (agent, b5) :- GetString(b4);
        Parsed(Some(Process(argv, strategy, agent)), b5)
  }

  /** The part of a pane after its three strings. */
  function GetPaneRefs(b: bytes, id: bytes, stableId: bytes, cwd: bytes): (p: Parsed<Pane>)
    requires |id| <= MAX_U16 && |stableId| <= MAX_U16 && |cwd| <= MAX_U16
    ensures p.Parsed? ==> PaneFits(p.value) && |p.rest| < |b|
    ensures p.Parsed? ==> p.value.id == id && p.value.stableId == stableId && p.value.cwd == cwd
  {
    var (n, b1) :- GetU16(b);
    var (sealedRefs, b2) :- GetRefs(b1, n);
    var (tail, b3) :- GetRef(b2);
    var (transcript, b4) :- GetRef(b3);
    var (process, b5) :- GetProcess(b4);
    Parsed(Pane(id, stableId, cwd, sealedRefs, tail, transcript, process), b5)
  }

  function GetPane(b: bytes): (p: Parsed<Pane>)
    ensures p.Parsed? ==> PaneFits(p.value) && |p.rest| + 2 <= |b|
  {
    var (id, b1) :- GetString(b);
    var (stableId, b2) :- GetString(b1);
    var (cwd, b3) :- GetString(b2);
    GetPaneRefs(b3, id, stableId, cwd)
  }

  function GetPanes(b: bytes, n: nat): (p: Parsed<seq<Pane>>)
    ensures p.Parsed? ==> |p.value| == n && PanesFit(p.value) && |p.rest| + 2 * n <= |b|
    decreases n
  {
    if n == 0 then Parsed([], b)
    else
      var (p, b1) :- GetPane(b);
      After([p], GetPanes(b1, n - 1))
  }

  /** The part of a tab after its fixed-width fields. */
  function GetTabBody(b: bytes, stableId: bytes, cols: u16, rows: u16, nextPane: u64): (p: Parsed<Tab>)
    requires |stableId| <= MAX_U16
    ensures p.Parsed? ==> TabFits(p.value) && |p.rest| < |b|
    ensures p.Parsed? ==> p.value.stableId == stableId && p.value.nextPane == nextPane
    ensures p.Parsed? ==> p.value.cols == cols && p.value.rows == rows
  {
    var (focus, b1) :- GetString(b);
    var (root, b2) :- GetNode(b1);
    var (n, b3) :- GetU16(b2);
    var (panes, b4) :- GetPanes(b3, n);
    Parsed(Tab(stableId, cols, rows, nextPane, focus, Some(Tree(root, focus)), panes), b4)
  }

  function GetTab(b: bytes): (p: Parsed<Tab>)
    ensures p.Parsed? ==> TabFits(p.value) && |p.rest| + 2 <= |b|
  {
    var (stableId, b1) :- GetString(b);
    var (cols, b2) :- GetU16(b1);
    var (rows, b3) :- GetU16(b2);
    var (nextPane, b4) :- GetU64(b3);
    GetTabBody(b4, stableId, cols, rows, nextPane)
  }

  function GetTabs(b: bytes, n: nat): (p: Parsed<seq<Tab>>)
    ensures p.Parsed? ==> |p.value| == n && TabsFit(p.value) && |p.rest| + 2 * n <= |b|
    decreases n
  {
    if n == 0 then Parsed([], b)
    else
      var (t, b1) :- GetTab(b);
      After([t], GetTabs(b1, n - 1))
  }

  function GetParent(b: bytes): Parsed<Option<Checkpoint>> {
    var (present, b1) :- GetByte(b);
    if present == 0 then Parsed(None, b1)
    else if present != 1 then Rejected
    else
      var (generation, b2) :- GetU64(b1);
      var (digest, b3) :- GetBytes(b2, 32);
      Parsed(Some(Checkpoint(generation, digest)), b3)
  }

  function GetHeader(b: bytes): (p: Parsed<Header>)
    ensures p.Parsed? ==> |p.value.name| <= MAX_U16
  {
    var (generation, b1) :- GetU64(b);
    var (incarnation, b2) :- GetBytes(b1, 16);
    var (parent, b3) :- GetParent(b2);
    var (name, b4) :- GetString(b3);
    var (createdAt, b5) :- GetU64(b4);
    var (active, b6) :- GetU16(b5);
    Parsed(Header(generation, incarnation, parent, name, createdAt, active), b6)
  }

  /** Everything but the weight extension. */
  function GetUnweighted(b: bytes): (p: Parsed<Manifest>)
    ensures p.Parsed? ==> |p.value.header.name| <= MAX_U16 && |p.value.tabs| <= MAX_U16 && TabsFit(p.value.tabs)
  {
    var (header, b1) :- GetHeader(b);
    var (n, b2) :- GetU16(b1);
    var (tabs, b3) :- GetTabs(b2, n);
    Parsed(Manifest(header, tabs), b3)
  }

  /** All of `b` as 64-bit words; `None` when its length is not a multiple of eight. */
  function WordsOf(b: bytes): (r: Option<seq<u64>>)
    ensures r.Some? ==> |b| == 8 * |r.value|
    ensures r.None? ==> |b| % 8 != 0
    decreases |b|
  {
    U64Length(b);
    if b == [] then Some([])
    else if |b| < 8 then None
    else
      var p := GetU64(b);
      match WordsOf(p.rest)
      case None => None
      case Some(ws) => Some([p.value] + ws)
  }

  /** The optional trailing extension: nothing, or one valid weight per node. */
  function GetWeights(b: bytes, want: nat): (r: Option<Option<seq<u64>>>)
    ensures r.Some? && r.value.Some? ==> |r.value.value| == want && AllValid(r.value.value)
  {
    if b == [] then Some(None)
    else if |b| < 8 || b[..4] != WEIGHT_TAG then None
    else
      var count := GetU32(b[4..]);
      U32Length(b[4..]);
      if count.value != want || |count.rest| != 8 * want then None
      else
        var ws := WordsOf(count.rest);
        if AllValid(ws.value) then Some(Some(ws.value)) else None
  }

  // ----- Weights across all tabs

  function TabWeights(ts: seq<Tab>): (ws: seq<u64>)
    ensures |ws| == TabNodes(ts)
  {
    if ts == [] then [] else Weights(Root(ts[0])) + TabWeights(ts[1..])
  }

  function TabNodes(ts: seq<Tab>): nat {
    if ts == [] then 0 else Count(Root(ts[0])) + TabNodes(ts[1..])
  }

  /** A tab whose tree is present with the given root and the tab's focus. */
  function WithRoot(t: Tab, root: Node): Tab {
    t.(tree := Some(Tree(root, t.focus)))
  }

  function AssignTabs(ts: seq<Tab>, ws: seq<u64>): (r: seq<Tab>)
    requires |ws| == TabNodes(ts)
    ensures |r| == |ts|
  {
    if ts == [] then []
    else
      var c := Count(Root(ts[0]));
      [WithRoot(ts[0], Assign(Root(ts[0]), ws[..c]))] + AssignTabs(ts[1..], ws[c..])
  }

  // ----- Validity

  predicate SafeDimensions(cols: u16, rows: u16) {
    cols != 0 && rows != 0 && cols as int * rows <= MAX_CELLS
  }

  predicate ActiveValid(active: u16, tabs: nat) {
    if tabs == 0 then active == 0 else active < tabs
  }

  predicate RefValid(r: ObjectRef, want: byte) {
    r.kind == want && MIN_OBJECT_SIZE <= r.size <= MAX_OBJECT_SIZE && !AllZero(r.digest)
  }

  predicate SealedValid(rs: seq<ObjectRef>) {
    forall i :: 0 <= i < |rs| ==> RefValid(rs[i], HISTORY_CHUNK)
  }

  predicate PaneRefsValid(p: Pane) {
    && SealedValid(p.sealedRefs)
    && RefValid(p.tail, HISTORY_TAIL)
    && RefValid(p.transcript, RECOVERY_TRANSCRIPT)
  }

  function PaneIds(ps: seq<Pane>): set<PaneID> {
    set i | 0 <= i < |ps| :: ps[i].id
  }

  predicate PanesValid(ps: seq<Pane>) {
    && (forall i :: 0 <= i < |ps| ==> ps[i].id != [] && PaneRefsValid(ps[i]))
    && forall i, j :: 0 <= i < j < |ps| ==> ps[i].id != ps[j].id
  }

  predicate TabValid(t: Tab) {
    && SafeDimensions(t.cols, t.rows)
    && PanesValid(t.panes)
    && (t.focus == [] || t.focus in PaneIds(t.panes))
    && TreeValid(Root(t), PaneIds(t.panes))
  }

  predicate TabsValid(ts: seq<Tab>) {
    forall i :: 0 <= i < |ts| ==> TabValid(ts[i])
  }

  predicate HeaderValid(h: Header) {
    && h.generation != 0
    && !AllZero(h.incarnation)
    && (h.parent.Some? ==>
          && 0 < h.parent.value.generation < h.generation
          && !AllZero(h.parent.value.digest))
    && h.name != []
  }

  predicate ManifestValid(m: Manifest) {
    && HeaderValid(m.header)
    && ActiveValid(m.header.active, |m.tabs|)
    && AllValid(TabWeights(m.tabs))
    && TabsValid(m.tabs)
  }

  // ----- Decoding and encoding

  function DecodeManifest(b: bytes): Option<Manifest> {
    var p := GetUnweighted(b);
    if p.Rejected? then None
    else
      match GetWeights(p.rest, TabNodes(p.value.tabs))
      case None => None
      case Some(ws) =>
        var tabs := if ws.Some? then AssignTabs(p.value.tabs, ws.value) else p.value.tabs;
        var m := Manifest(p.value.header, tabs);
        if ManifestValid(m) then Some(m) else None
  }

  predicate HasWeights(m: Manifest) {
    !AllZeroWeights(TabWeights(m.tabs))
  }

  predicate ManifestFits(m: Manifest) {
    && |m.header.name| <= MAX_U16
    && |m.tabs| <= MAX_U16 && TabsFit(m.tabs)
    && (HasWeights(m) ==> TabNodes(m.tabs) <= 0xFFFF_FFFF)
  }

  function WeightExtension(m: Manifest): bytes
    requires ManifestFits(m)
  {
    if HasWeights(m) then WEIGHT_TAG + PutU32(TabNodes(m.tabs), PutWeights(TabWeights(m.tabs))) else []
  }

  function ManifestBody(m: Manifest): bytes
    requires ManifestFits(m)
  {
    PutHeader(m.header, PutU16(|m.tabs|, PutTabs(m.tabs, WeightExtension(m))))
  }

  function MarshalManifest(crc: Checksum, m: Manifest): Option<bytes> {
    if ManifestValid(m) && ManifestFits(m) && |ManifestBody(m)| <= MAX_BODY then
      Some(Sealed(crc, MANIFEST_MAGIC, MANIFEST_VERSION, ManifestBody(m)))
    else
      None
  }

  // ----- Decoded size

  function StringCost(s: bytes): nat {
    |s| + STRING_COST
  }

  function StringsCost(ss: seq<bytes>): nat {
    if ss == [] then 0 else StringCost(ss[0]) + StringsCost(ss[1..])
  }

  function ProcessCost(p: Option<Process>): nat {
    match p
    case None => 0
    case Some(v) =>
      16 * |v.argv| + StringsCost(v.argv) + StringCost(v.strategy) + StringCost(v.agentSession)
  }

  /** A pane beyond its slot in the pane slice. */
  function PaneCost(p: Pane): nat {
    StringCost(p.id) + StringCost(p.stableId) + StringCost(p.cwd) + 48 * |p.sealedRefs| + ProcessCost(p.process)
  }

  function PanesCost(ps: seq<Pane>): nat {
    if ps == [] then 0 else PaneCost(ps[0]) + PanesCost(ps[1..])
  }

  /** A tab beyond its slot in the tab slice. */
  function TabCost(t: Tab): nat {
    StringCost(t.stableId) + StringCost(t.focus) + Cost(Root(t)) + 256 * |t.panes| + PanesCost(t.panes)
  }

  function TabsCost(ts: seq<Tab>): nat {
    if ts == [] then 0 else TabCost(ts[0]) + TabsCost(ts[1..])
  }

  function ManifestCost(m: Manifest): nat {
    StringCost(m.header.name) + 128 * |m.tabs| + TabsCost(m.tabs)
  }

  predicate HeightsWithin(ts: seq<Tab>) {
    forall i :: 0 <= i < |ts| ==> HeightWithin(Root(ts[i]), MAX_DEPTH)
  }

  /** What a decoder is willing to allocate for a manifest. */
  predicate Affordable(m: Manifest) {
    HeightsWithin(m.tabs) && ManifestCost(m) <= MAX_ALLOCATION
  }

  /** Envelope, preflight, then decoding. */
  function UnmarshalManifest(crc: Checksum, encoded: bytes): Option<Manifest> {
    match Unsealed(crc, MANIFEST_MAGIC, MANIFEST_VERSION, encoded)
    case None => None
    case Some(body) =>
      match DecodeManifest(body)
      case None => None
      case Some(m) => if Affordable(m) then Some(m) else None
  }
}
