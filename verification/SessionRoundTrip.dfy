/**
 The whole-session snapshot as its writer lays it out, and the laws between that
 layout and the parser. The program itself only reads this format.
 */
module SessionRoundTrip {
  import opened Wire
  import opened Payload
  import opened LayoutTree
  import opened SessionFormat
  import ManifestFormat
  import ManifestRoundTrip

  // ----- Lengths that fit their wire fields

  predicate PaneFits(p: Pane) {
    && |p.id| <= 65535 && |p.stableId| <= 65535 && |p.cwd| <= 65535
    && |p.chunks| <= 65536 && BlobsFit(p.chunks)
    && |p.tail| < 0x1_0000_0000 && |p.transcript| < 0x1_0000_0000
    && ManifestFormat.ProcessFits(p.process)
  }

  predicate BlobsFit(xs: seq<bytes>) {
    forall i :: 0 <= i < |xs| ==> |xs[i]| < 0x1_0000_0000
  }

  predicate PanesFit(ps: seq<Pane>) {
    forall i :: 0 <= i < |ps| ==> PaneFits(ps[i])
  }

  predicate TabFits(t: Tab) {
    && |t.stableId| <= 65535 && |t.focus| <= 65535 && NodeFits(t.root)
    && |t.panes| <= 65535 && PanesFit(t.panes)
  }

  predicate TabsFit(ts: seq<Tab>) {
    forall i :: 0 <= i < |ts| ==> TabFits(ts[i])
  }

  /** The active tab exists; without tabs it is the first. */
  predicate SessionFits(s: Session) {
    && |s.name| <= 65535 && |s.tabs| <= 65535 && TabsFit(s.tabs)
    && (s.tabs == [] ==> s.active == 0)
    && (s.tabs != [] ==> s.active < |s.tabs|)
  }

  // ----- Printers

  function PutBlob(x: bytes, k: bytes): bytes
    requires |x| < 0x1_0000_0000
  {
    PutU32(|x|, x + k)
  }

  function PutBlobs(xs: seq<bytes>, k: bytes): bytes
    requires BlobsFit(xs)
  {
    if xs == [] then k else PutBlob(xs[0], PutBlobs(xs[1..], k))
  }

  function PutPaneBlobs(p: Pane, k: bytes): bytes
    requires PaneFits(p)
  {
    PutU32(|p.chunks|, PutBlobs(p.chunks, PutBlob(p.tail, PutBlob(p.transcript, ManifestFormat.PutProcess(p.process,
        k)))))
  }

  function PutPane(p: Pane, k: bytes): bytes
    requires PaneFits(p)
  {
    PutString(p.id, PutString(p.stableId, PutString(p.cwd, PutPaneBlobs(p, k))))
  }

  function PutPanes(ps: seq<Pane>, k: bytes): bytes
    requires PanesFit(ps)
  {
    if ps == [] then k else PutPane(ps[0], PutPanes(ps[1..], k))
  }

  function PutTab(t: Tab, k: bytes): bytes
    requires TabFits(t)
  {
    PutString(t.stableId, PutU16(t.cols, PutU16(t.rows, PutU64(t.nextPane,
      PutString(t.focus, PutNode(t.root, PutU16(|t.panes|, PutPanes(t.panes, k))))))))
  }

  function PutTabs(ts: seq<Tab>, k: bytes): bytes
    requires TabsFit(ts)
  {
    if ts == [] then k else PutTab(ts[0], PutTabs(ts[1..], k))
  }

  function PutSession(s: Session, k: bytes): bytes
    requires SessionFits(s)
  {
    PutString(s.name, PutU64(s.createdAt, PutU16(s.active, PutU16(|s.tabs|, PutTabs(s.tabs, k)))))
  }

  // ----- Weights do not travel in this format

  function WithoutWeights(t: Tab): Tab {
    t.(root := Strip(t.root))
  }

  function AllWithoutWeights(ts: seq<Tab>): seq<Tab> {
    seq(|ts|, i requires 0 <= i < |ts| => WithoutWeights(ts[i]))
  }

  // ----- Parsing what was printed

  lemma BlobRoundTrip(x: bytes, k: bytes)
    requires |x| < 0x1_0000_0000
    ensures GetBlob(PutBlob(x, k)) == Parsed(x, k)
  {
    hide GetU32, PutU32;
    U32RoundTrip(|x|, x + k);
    BytesRoundTrip(x, k);
  }

  lemma {:induction false} BlobsRoundTrip(xs: seq<bytes>, k: bytes)
    requires BlobsFit(xs)
    ensures GetBlobs(PutBlobs(xs, k), |xs|) == Parsed(xs, k)
    ensures |PutBlobs(xs, k)| >= 4 * |xs| + |k|
  {
    hide GetBlob, PutBlob;
    if xs == [] {
    } else {
      BlobsRoundTrip(xs[1..], k);
      BlobRoundTrip(xs[0], PutBlobs(xs[1..], k));
      assert xs == [xs[0]] + xs[1..];
    }
  }

  lemma PaneRoundTrip(p: Pane, k: bytes)
    requires PaneFits(p)
    ensures GetPane(PutPane(p, k)) == Parsed(p, k)
  {
    hide GetString, PutString, GetPaneBlobs, PutPaneBlobs;
    var k3 := PutPaneBlobs(p, k);
    PaneBlobsRoundTrip(p, k);
    StringRoundTrip(p.cwd, k3);
    StringRoundTrip(p.stableId, PutString(p.cwd, k3));
    StringRoundTrip(p.id, PutString(p.stableId, PutString(p.cwd, k3)));
  }

  lemma PaneBlobsRoundTrip(p: Pane, k: bytes)
    requires PaneFits(p)
    ensures GetPaneBlobs(PutPaneBlobs(p, k), p.id, p.stableId, p.cwd) == Parsed(p, k)
  {
    hide GetU32, PutU32, GetBlob, PutBlob, GetBlobs, PutBlobs;
    hide ManifestFormat.GetProcess, ManifestFormat.PutProcess;
    var k4 := ManifestFormat.PutProcess(p.process, k);
    var k3 := PutBlob(p.transcript, k4);
    var k2 := PutBlob(p.tail, k3);
    var k1 := PutBlobs(p.chunks, k2);
    ManifestRoundTrip.ProcessRoundTrip(p.process, k);
    BlobRoundTrip(p.transcript, k4);
    BlobRoundTrip(p.tail, k3);
    BlobsRoundTrip(p.chunks, k2);
    U32RoundTrip(|p.chunks|, k1);
  }

  lemma {:induction false} PanesRoundTrip(ps: seq<Pane>, k: bytes)
    requires PanesFit(ps)
    ensures GetPanes(PutPanes(ps, k), |ps|) == Parsed(ps, k)
  {
    hide GetPane, PutPane;
    if ps == [] {
    } else {
      PanesRoundTrip(ps[1..], k);
      PaneRoundTrip(ps[0], PutPanes(ps[1..], k));
      assert ps == [ps[0]] + ps[1..];
    }
  }

  lemma TabRoundTrip(t: Tab, k: bytes)
    requires TabFits(t)
    ensures GetTab(PutTab(t, k)) == Parsed(WithoutWeights(t), k)
  {
    hide GetString, PutString, GetU16, PutU16, GetU64, PutU64, GetNode, PutNode, GetPanes, PutPanes;
    var k6 := PutPanes(t.panes, k);
    var k5 := PutU16(|t.panes|, k6);
    var k4 := PutNode(t.root, k5);
    var k3 := PutString(t.focus, k4);
    var k2 := PutU64(t.nextPane, k3);
    var k1 := PutU16(t.rows, k2);
    var k0 := PutU16(t.cols, k1);
    PanesRoundTrip(t.panes, k);
    U16RoundTrip(|t.panes|, k6);
    NodeRoundTrip(t.root, k5);
    StringRoundTrip(t.focus, k4);
    U64RoundTrip(t.nextPane, k3);
    U16RoundTrip(t.rows, k2);
    U16RoundTrip(t.cols, k1);
    StringRoundTrip(t.stableId, k0);
  }

  lemma {:induction false} TabsRoundTrip(ts: seq<Tab>, k: bytes)
    requires TabsFit(ts)
    ensures GetTabs(PutTabs(ts, k), |ts|) == Parsed(AllWithoutWeights(ts), k)
  {
    hide GetTab, PutTab, WithoutWeights;
    if ts == [] {
    } else {
      TabsRoundTrip(ts[1..], k);
      TabRoundTrip(ts[0], PutTabs(ts[1..], k));
      assert AllWithoutWeights(ts) == [WithoutWeights(ts[0])] + AllWithoutWeights(ts[1..]);
    }
  }

  /** What the writer lays out is read back, every field in its place, but for weights. */
  lemma SessionRoundTrip(s: Session, k: bytes)
    requires SessionFits(s)
    ensures GetSession(PutSession(s, k)) == Parsed(s.(tabs := AllWithoutWeights(s.tabs)), k)
  {
    hide GetString, PutString, GetU16, PutU16, GetU64, PutU64, GetTabs, PutTabs;
    var k3 := PutTabs(s.tabs, k);
    var k2 := PutU16(|s.tabs|, k3);
    var k1 := PutU16(s.active, k2);
    var k0 := PutU64(s.createdAt, k1);
    TabsRoundTrip(s.tabs, k);
    U16RoundTrip(|s.tabs|, k3);
    U16RoundTrip(s.active, k2);
    U64RoundTrip(s.createdAt, k1);
    StringRoundTrip(s.name, k0);
  }

  // ----- Printing what was parsed

  lemma BlobCanonical(b: bytes)
    requires GetBlob(b).Parsed?
    ensures |GetBlob(b).value| < 0x1_0000_0000
    ensures PutBlob(GetBlob(b).value, GetBlob(b).rest) == b
  {
    hide GetU32, PutU32;
    U32Canonical(b);
    assert GetU32(b).rest == GetBlob(b).value + GetBlob(b).rest;
  }

  lemma {:induction false} BlobsCanonical(b: bytes, n: nat)
    requires GetBlobs(b, n).Parsed?
    ensures BlobsFit(GetBlobs(b, n).value)
    ensures PutBlobs(GetBlobs(b, n).value, GetBlobs(b, n).rest) == b
    decreases n
  {
    hide GetBlob, PutBlob;
    if n == 0 {
    } else {
      var x := GetBlob(b);
      BlobCanonical(b);
      BlobsCanonical(x.rest, n - 1);
      assert GetBlobs(b, n).value[1..] == GetBlobs(x.rest, n - 1).value;
    }
  }

  lemma PaneCanonical(b: bytes)
    requires GetPane(b).Parsed?
    ensures PaneFits(GetPane(b).value)
    ensures PutPane(GetPane(b).value, GetPane(b).rest) == b
  {
    hide GetString, PutString, GetPaneBlobs, PutPaneBlobs;
    var id := GetString(b);
    var stableId := GetString(id.rest);
    var cwd := GetString(stableId.rest);
    StringCanonical(b);
    StringCanonical(id.rest);
    StringCanonical(stableId.rest);
    PaneBlobsCanonical(cwd.rest, id.value, stableId.value, cwd.value);
  }

  lemma PaneBlobsCanonical(b: bytes, id: bytes, stableId: bytes, cwd: bytes)
    requires |id| <= 65535 && |stableId| <= 65535 && |cwd| <= 65535
    requires GetPaneBlobs(b, id, stableId, cwd).Parsed?
    ensures var p := GetPaneBlobs(b, id, stableId, cwd);
            && PaneFits(p.value) && PutPaneBlobs(p.value, p.rest) == b
            && p.value.id == id && p.value.stableId == stableId && p.value.cwd == cwd
  {
    hide GetU32, PutU32, GetBlob, PutBlob, GetBlobs, PutBlobs;
    hide ManifestFormat.GetProcess, ManifestFormat.PutProcess;
    var n := GetU32(b);
    U32Canonical(b);
    var chunks := GetBlobs(n.rest, n.value);
    BlobsCanonical(n.rest, n.value);
    var tail := GetBlob(chunks.rest);
    BlobCanonical(chunks.rest);
    var transcript := GetBlob(tail.rest);
    BlobCanonical(tail.rest);
    ManifestRoundTrip.ProcessCanonical(transcript.rest);
  }

  lemma {:induction false} PanesCanonical(b: bytes, n: nat)
    requires GetPanes(b, n).Parsed?
    ensures PanesFit(GetPanes(b, n).value)
    ensures PutPanes(GetPanes(b, n).value, GetPanes(b, n).rest) == b
    decreases n
  {
    hide GetPane, PutPane, PaneFits;
    if n == 0 {
    } else {
      var p := GetPane(b);
      PaneCanonical(b);
      PanesCanonical(p.rest, n - 1);
      assert GetPanes(b, n).value[1..] == GetPanes(p.rest, n - 1).value;
    }
  }

  lemma TabCanonical(b: bytes)
    requires GetTab(b).Parsed?
    ensures TabFits(GetTab(b).value) && WithoutWeights(GetTab(b).value) == GetTab(b).value
    ensures PutTab(GetTab(b).value, GetTab(b).rest) == b
  {
    hide GetString, PutString, GetU16, PutU16, GetU64, PutU64, GetNode, PutNode, GetPanes, PutPanes, PanesFit;
    var stableId := GetString(b);
    StringCanonical(b);
    var cols := GetU16(stableId.rest);
    U16Canonical(stableId.rest);
    var rows := GetU16(cols.rest);
    U16Canonical(cols.rest);
    var nextPane := GetU64(rows.rest);
    U64Canonical(rows.rest);
    var focus := GetString(nextPane.rest);
    StringCanonical(nextPane.rest);
    var root := GetNode(focus.rest);
    NodeCanonical(focus.rest);
    var n := GetU16(root.rest);
    U16Canonical(root.rest);
    PanesCanonical(n.rest, n.value);
  }

  lemma {:induction false} TabsCanonical(b: bytes, n: nat)
    requires GetTabs(b, n).Parsed?
    ensures TabsFit(GetTabs(b, n).value) && AllWithoutWeights(GetTabs(b, n).value) == GetTabs(b, n).value
    ensures PutTabs(GetTabs(b, n).value, GetTabs(b, n).rest) == b
    decreases n
  {
    hide GetTab, PutTab, TabFits, WithoutWeights;
    if n == 0 {
    } else {
      var t := GetTab(b);
      TabCanonical(b);
      TabsCanonical(t.rest, n - 1);
      assert GetTabs(b, n).value[1..] == GetTabs(t.rest, n - 1).value;
    }
  }

  /** Whatever is read is laid out as it was found: a readable session has one encoding. */
  lemma SessionCanonical(b: bytes)
    requires GetSession(b).Parsed?
    ensures SessionFits(GetSession(b).value)
    ensures PutSession(GetSession(b).value, GetSession(b).rest) == b
    ensures AllWithoutWeights(GetSession(b).value.tabs) == GetSession(b).value.tabs
  {
    hide GetString, PutString, GetU16, PutU16, GetU64, PutU64, GetTabs, PutTabs, TabsFit, WithoutWeights;
    var name := GetString(b);
    StringCanonical(b);
    var createdAt := GetU64(name.rest);
    U64Canonical(name.rest);
    var active := GetU16(createdAt.rest);
    U16Canonical(createdAt.rest);
    var n := GetU16(active.rest);
    U16Canonical(active.rest);
    TabsCanonical(n.rest, n.value);
  }
}
