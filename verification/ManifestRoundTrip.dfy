/**
 The two inverse laws of the manifest codec: what is marshalled is read back,
 and what is read back marshals to the same bytes, up to a redundant weight
 extension.
 */
module ManifestRoundTrip {
  import opened Wire
  import opened Payload
  import opened LayoutTree
  import opened Envelope
  import opened ManifestFormat

  // ----- What decoding makes of an encoded manifest

  /** The tab as parsed: its tree is present, focused on the tab's focus, unweighted. */
  function Unweighted(t: Tab): Tab {
    WithRoot(t, Strip(Root(t)))
  }

  function UnweightedTabs(ts: seq<Tab>): (r: seq<Tab>)
    ensures |r| == |ts|
    ensures forall i :: 0 <= i < |ts| ==> r[i] == Unweighted(ts[i])
  {
    if ts == [] then [] else [Unweighted(ts[0])] + UnweightedTabs(ts[1..])
  }

  function WeightedTabs(ts: seq<Tab>): (r: seq<Tab>)
    ensures |r| == |ts|
    ensures forall i :: 0 <= i < |ts| ==> r[i] == WithRoot(ts[i], Root(ts[i]))
  {
    if ts == [] then [] else [WithRoot(ts[0], Root(ts[0]))] + WeightedTabs(ts[1..])
  }

  /**
   The manifest a reader gets back: a missing tree becomes an empty one, tree
   focus becomes tab focus, and weights survive unless all of them are zero.
   */
  function ReadBack(m: Manifest): Manifest {
    Manifest(m.header, if HasWeights(m) then WeightedTabs(m.tabs) else UnweightedTabs(m.tabs))
  }

  /** All manifest fields followed by the bytes `k`. */
  function Printed(m: Manifest, k: bytes): bytes
    requires |m.header.name| <= MAX_U16 && |m.tabs| <= MAX_U16 && TabsFit(m.tabs)
  {
    PutHeader(m.header, PutU16(|m.tabs|, PutTabs(m.tabs, k)))
  }

  // ----- Parsing what was printed

  lemma RefRoundTrip(r: ObjectRef, k: bytes)
    ensures GetRef(PutRef(r, k)) == Parsed(r, k)
  {
    ByteRoundTrip(r.kind, r.digest + PutU32(r.size, k));
    BytesRoundTrip(r.digest, PutU32(r.size, k));
    U32RoundTrip(r.size, k);
  }

  lemma {:induction false} RefsRoundTrip(rs: seq<ObjectRef>, k: bytes)
    ensures GetRefs(PutRefs(rs, k), |rs|) == Parsed(rs, k)
  {
    if rs == [] {
    } else {
      RefRoundTrip(rs[0], PutRefs(rs[1..], k));
      RefsRoundTrip(rs[1..], k);
      assert rs == [rs[0]] + rs[1..];
    }
  }

  lemma ProcessRoundTrip(p: Option<Process>, k: bytes)
    requires ProcessFits(p)
    ensures GetProcess(PutProcess(p, k)) == Parsed(p, k)
  {
    match p
    case None =>
      ByteRoundTrip(0, k);
    case Some(v) =>
      var k3 := PutString(v.agentSession, k);
      var k2 := PutString(v.strategy, k3);
      var k1 := PutStringItems(v.argv, k2);
      ByteRoundTrip(1, PutU16(|v.argv|, k1));
      U16RoundTrip(|v.argv|, k1);
      StringItemsRoundTrip(v.argv, k2);
      StringRoundTrip(v.strategy, k3);
      StringRoundTrip(v.agentSession, k);
  }

  lemma PaneRefsRoundTrip(p: Pane, k: bytes)
    requires PaneFits(p)
    ensures GetPaneRefs(PutPaneRefs(p, k), p.id, p.stableId, p.cwd) == Parsed(p, k)
  {
    var k4 := PutProcess(p.process, k);
    var k3 := PutRef(p.transcript, k4);
    var k2 := PutRef(p.tail, k3);
    U16RoundTrip(|p.sealedRefs|, PutRefs(p.sealedRefs, k2));
    RefsRoundTrip(p.sealedRefs, k2);
    RefRoundTrip(p.tail, k3);
    RefRoundTrip(p.transcript, k4);
    ProcessRoundTrip(p.process, k);
  }

  lemma PaneRoundTrip(p: Pane, k: bytes)
    requires PaneFits(p)
    ensures GetPane(PutPane(p, k)) == Parsed(p, k)
  {
    hide GetPaneRefs, PutPaneRefs, GetString, PutString;
    var k3 := PutPaneRefs(p, k);
    var k2 := PutString(p.cwd, k3);
    StringRoundTrip(p.id, PutString(p.stableId, k2));
    StringRoundTrip(p.stableId, k2);
    StringRoundTrip(p.cwd, k3);
    PaneRefsRoundTrip(p, k);
  }

  lemma {:induction false} PanesRoundTrip(ps: seq<Pane>, k: bytes)
    requires PanesFit(ps)
    ensures GetPanes(PutPanes(ps, k), |ps|) == Parsed(ps, k)
  {
    hide GetPane, PutPane;
    if ps == [] {
    } else {
      PaneRoundTrip(ps[0], PutPanes(ps[1..], k));
      PanesRoundTrip(ps[1..], k);
      assert ps == [ps[0]] + ps[1..];
    }
  }

  lemma TabBodyRoundTrip(t: Tab, k: bytes)
    requires TabFits(t)
    ensures GetTabBody(PutTabBody(t, k), t.stableId, t.cols, t.rows, t.nextPane) == Parsed(Unweighted(t), k)
  {
    var k3 := PutPanes(t.panes, k);
    var k2 := PutU16(|t.panes|, k3);
    var k1 := PutNode(Root(t), k2);
    StringRoundTrip(t.focus, k1);
    NodeRoundTrip(Root(t), k2);
    U16RoundTrip(|t.panes|, k3);
    PanesRoundTrip(t.panes, k);
  }

  lemma TabRoundTrip(t: Tab, k: bytes)
    requires TabFits(t)
    ensures GetTab(PutTab(t, k)) == Parsed(Unweighted(t), k)
  {
    hide GetTabBody, PutTabBody, GetString, PutString, GetU16, PutU16, GetU64, PutU64;
    var k4 := PutTabBody(t, k);
    var k3 := PutU64(t.nextPane, k4);
    var k2 := PutU16(t.rows, k3);
    StringRoundTrip(t.stableId, PutU16(t.cols, k2));
    U16RoundTrip(t.cols, k2);
    U16RoundTrip(t.rows, k3);
    U64RoundTrip(t.nextPane, k4);
    TabBodyRoundTrip(t, k);
  }

  lemma {:induction false} TabsRoundTrip(ts: seq<Tab>, k: bytes)
    requires TabsFit(ts)
    ensures GetTabs(PutTabs(ts, k), |ts|) == Parsed(UnweightedTabs(ts), k)
  {
    hide GetTab, PutTab;
    if ts == [] {
    } else {
      TabRoundTrip(ts[0], PutTabs(ts[1..], k));
      TabsRoundTrip(ts[1..], k);
    }
  }

  lemma ParentRoundTrip(c: Option<Checkpoint>, k: bytes)
    ensures GetParent(PutParent(c, k)) == Parsed(c, k)
  {
    match c
    case None =>
      ByteRoundTrip(0, k);
    case Some(v) =>
      ByteRoundTrip(1, PutU64(v.generation, v.digest + k));
      U64RoundTrip(v.generation, v.digest + k);
      BytesRoundTrip(v.digest, k);
  }

  lemma HeaderRoundTrip(h: Header, k: bytes)
    requires |h.name| <= MAX_U16
    ensures GetHeader(PutHeader(h, k)) == Parsed(h, k)
  {
    var k5 := PutU16(h.active, k);
    var k4 := PutU64(h.createdAt, k5);
    var k3 := PutString(h.name, k4);
    var k2 := PutParent(h.parent, k3);
    U64RoundTrip(h.generation, h.incarnation + k2);
    BytesRoundTrip(h.incarnation, k2);
    ParentRoundTrip(h.parent, k3);
    StringRoundTrip(h.name, k4);
    U64RoundTrip(h.createdAt, k5);
    U16RoundTrip(h.active, k);
  }

  lemma PrintedRoundTrip(m: Manifest, k: bytes)
    requires |m.header.name| <= MAX_U16 && |m.tabs| <= MAX_U16 && TabsFit(m.tabs)
    ensures GetUnweighted(Printed(m, k)) == Parsed(Manifest(m.header, UnweightedTabs(m.tabs)), k)
  {
    var k1 := PutTabs(m.tabs, k);
    HeaderRoundTrip(m.header, PutU16(|m.tabs|, k1));
    U16RoundTrip(|m.tabs|, k1);
    TabsRoundTrip(m.tabs, k);
  }

  lemma {:induction false} WordsRoundTrip(ws: seq<u64>)
    ensures WordsOf(PutWeights(ws)) == Some(ws)
    ensures |PutWeights(ws)| == 8 * |ws|
  {
    if ws == [] {
    } else {
      WordsRoundTrip(ws[1..]);
      U64RoundTrip(ws[0], PutWeights(ws[1..]));
      U64Length(PutWeights(ws));
      assert ws == [ws[0]] + ws[1..];
    }
  }

  lemma ExtensionRoundTrip(m: Manifest)
    requires ManifestFits(m) && AllValid(TabWeights(m.tabs))
    ensures GetWeights(WeightExtension(m), TabNodes(m.tabs))
            == Some(if HasWeights(m) then Some(TabWeights(m.tabs)) else None)
  {
    if HasWeights(m) {
      var ws := TabWeights(m.tabs);
      var e := WeightExtension(m);
      WordsRoundTrip(ws);
      U32RoundTrip(TabNodes(m.tabs), PutWeights(ws));
      assert e[..4] == WEIGHT_TAG;
      assert e[4..] == PutU32(TabNodes(m.tabs), PutWeights(ws));
    }
  }

  // ----- Weights meet their nodes again

  lemma {:induction false} AssignTabsOwnWeights(ts: seq<Tab>)
    ensures TabNodes(UnweightedTabs(ts)) == TabNodes(ts)
    ensures AssignTabs(UnweightedTabs(ts), TabWeights(ts)) == WeightedTabs(ts)
  {
    if ts == [] {
    } else {
      AssignOwnWeights(Root(ts[0]));
      AssignTabsOwnWeights(ts[1..]);
      var c := Count(Root(ts[0]));
      assert UnweightedTabs(ts)[1..] == UnweightedTabs(ts[1..]);
      assert TabWeights(ts)[..c] == Weights(Root(ts[0]));
      assert TabWeights(ts)[c..] == TabWeights(ts[1..]);
    }
  }

  /** Positive zero, bit for bit. */
  predicate PositiveZeros(ws: seq<u64>) {
    forall i :: 0 <= i < |ws| ==> ws[i] == 0
  }

  lemma {:induction false} WeightsOfStripped(n: Node)
    ensures PositiveZeros(Weights(Strip(n)))
    decreases n, 1
  {
    match n
    case Nil =>
    case Leaf(_, _) =>
    case Split(_, cs, _) => WeightsOfAllStripped(cs);
    case Stack(_, cs, _) => WeightsOfAllStripped(cs);
  }

  lemma {:induction false} WeightsOfAllStripped(ns: seq<Node>)
    ensures PositiveZeros(WeightsAll(StripAll(ns)))
    decreases ns, 0
  {
    if ns == [] {
    } else {
      WeightsOfStripped(ns[0]);
      WeightsOfAllStripped(ns[1..]);
      assert StripAll(ns)[1..] == StripAll(ns[1..]);
    }
  }

  lemma {:induction false} WeightsOfUnweighted(ts: seq<Tab>)
    ensures PositiveZeros(TabWeights(UnweightedTabs(ts)))
  {
    if ts == [] {
    } else {
      WeightsOfStripped(Root(ts[0]));
      WeightsOfUnweighted(ts[1..]);
      assert UnweightedTabs(ts)[1..] == UnweightedTabs(ts[1..]);
    }
  }

  lemma {:induction false} WeightsOfWeighted(ts: seq<Tab>)
    ensures TabWeights(WeightedTabs(ts)) == TabWeights(ts)
  {
    if ts == [] {
    } else {
      WeightsOfWeighted(ts[1..]);
      assert WeightedTabs(ts)[1..] == WeightedTabs(ts[1..]);
    }
  }

  /**
   The weights come back bit for bit exactly when one of them is not a zero or
   none of them is a negative zero.
   */
  lemma WeightsReadBackExactly(m: Manifest)
    ensures TabWeights(ReadBack(m).tabs) == TabWeights(m.tabs) <==> HasWeights(m) || PositiveZeros(TabWeights(m.tabs))
  {
    hide TabWeights;
    if HasWeights(m) {
      WeightsOfWeighted(m.tabs);
    } else {
      WeightsOfUnweighted(m.tabs);
      AssignTabsOwnWeights(m.tabs);
    }
  }

  // ----- Validity, cost and height of what is read back

  /** `r` is `t` but for the presence, focus and weights of its tree. */
  ghost predicate SameButWeights(r: Tab, t: Tab) {
    r.(tree := t.tree) == t && Strip(Root(r)) == Strip(Root(t))
  }

  ghost predicate AllSameButWeights(rs: seq<Tab>, ts: seq<Tab>) {
    |rs| == |ts| && forall i :: 0 <= i < |ts| ==> SameButWeights(rs[i], ts[i])
  }

  lemma SameTab(r: Tab, t: Tab)
    requires SameButWeights(r, t)
    ensures TabValid(r) <==> TabValid(t)
    ensures TabFits(r) <==> TabFits(t)
    ensures TabCost(r) == TabCost(t)
    ensures HeightWithin(Root(r), MAX_DEPTH) <==> HeightWithin(Root(t), MAX_DEPTH)
    ensures Count(Root(r)) == Count(Root(t))
  {
    var ids := PaneIds(t.panes);
    StripChangesOnlyWeights(Root(r));
    StripChangesOnlyWeights(Root(t));
    StripKeepsShape(Root(r), true, ids);
    StripKeepsShape(Root(t), true, ids);
    StripKeepsHeight(Root(r), MAX_DEPTH);
    StripKeepsHeight(Root(t), MAX_DEPTH);
  }

  lemma {:induction false} SameTabs(rs: seq<Tab>, ts: seq<Tab>)
    requires AllSameButWeights(rs, ts)
    ensures TabsValid(rs) <==> TabsValid(ts)
    ensures TabsFit(rs) <==> TabsFit(ts)
    ensures TabsCost(rs) == TabsCost(ts)
    ensures HeightsWithin(rs) <==> HeightsWithin(ts)
    ensures TabNodes(rs) == TabNodes(ts)
  {
    hide TabValid, TabFits, TabCost, HeightWithin;
    forall i | 0 <= i < |ts| ensures
      && (TabValid(rs[i]) <==> TabValid(ts[i])) && (TabFits(rs[i]) <==> TabFits(ts[i]))
      && (HeightWithin(Root(rs[i]), MAX_DEPTH) <==> HeightWithin(Root(ts[i]), MAX_DEPTH))
    {
      SameTab(rs[i], ts[i]);
    }
    if ts == [] {
    } else {
      SameTab(rs[0], ts[0]);
      SameTabs(rs[1..], ts[1..]);
    }
  }

  lemma SamePutTab(r: Tab, t: Tab, k: bytes)
    requires SameButWeights(r, t) && TabFits(r) && TabFits(t)
    ensures PutTab(r, k) == PutTab(t, k)
  {
    StripChangesOnlyWeights(Root(t));
    var k1 := PutU16(|t.panes|, PutPanes(t.panes, k));
    PutIgnoresWeights(Root(r), k1);
    PutIgnoresWeights(Root(t), k1);
  }

  lemma {:induction false} SamePutTabs(rs: seq<Tab>, ts: seq<Tab>, k: bytes)
    requires AllSameButWeights(rs, ts) && TabsFit(rs) && TabsFit(ts)
    ensures PutTabs(rs, k) == PutTabs(ts, k)
  {
    if ts == [] {
    } else {
      SamePutTabs(rs[1..], ts[1..], k);
      SamePutTab(rs[0], ts[0], PutTabs(ts[1..], k));
    }
  }

  lemma StripIdempotent(n: Node)
    ensures Strip(Strip(n)) == Strip(n)
  {
    AssignOwnWeights(n);
    AssignOwnWeights(Strip(n));
    WeightsOfAssigned(Strip(n), Weights(n));
  }

  lemma ReadBackSame(m: Manifest)
    ensures AllSameButWeights(UnweightedTabs(m.tabs), m.tabs)
    ensures AllSameButWeights(WeightedTabs(m.tabs), m.tabs)
  {
    forall i | 0 <= i < |m.tabs| ensures SameButWeights(UnweightedTabs(m.tabs)[i], m.tabs[i]) {
      StripIdempotent(Root(m.tabs[i]));
    }
  }

  lemma ReadBackValid(m: Manifest)
    requires ManifestValid(m)
    ensures ManifestValid(ReadBack(m))
    ensures Affordable(ReadBack(m)) <==> Affordable(m)
  {
    hide TabWeights, TabsValid, TabsCost, HeightsWithin, WeightedTabs, UnweightedTabs, AllSameButWeights;
    ReadBackSame(m);
    SameTabs(ReadBack(m).tabs, m.tabs);
    WeightsOfUnweighted(m.tabs);
    WeightsOfWeighted(m.tabs);
  }

  lemma DecodeBody(m: Manifest)
    requires ManifestValid(m) && ManifestFits(m)
    ensures DecodeManifest(ManifestBody(m)) == Some(ReadBack(m))
  {
    hide GetUnweighted, AssignTabs, PutHeader, PutTabs, PutU16, PutU32, GetWeights, TabsValid;
    PrintedRoundTrip(m, WeightExtension(m));
    ReadBackSame(m);
    SameTabs(UnweightedTabs(m.tabs), m.tabs);
    ExtensionRoundTrip(m);
    AssignTabsOwnWeights(m.tabs);
    ReadBackValid(m);
  }

  /**
   Every manifest that marshals is read back, exactly when the decoder can
   afford it.
   */
  lemma MarshalledManifestIsReadBack(crc: Checksum, m: Manifest)
    requires MarshalManifest(crc, m).Some?
    ensures UnmarshalManifest(crc, MarshalManifest(crc, m).value)
            == if Affordable(m) then Some(ReadBack(m)) else None
  {
    hide DecodeManifest, Sealed, Unsealed, ManifestBody, Affordable;
    SealedRoundTrip(crc, MANIFEST_MAGIC, MANIFEST_VERSION, ManifestBody(m));
    DecodeBody(m);
    ReadBackValid(m);
  }

  // ----- Printing what was parsed

  lemma RefCanonical(b: bytes)
    requires GetRef(b).Parsed?
    ensures PutRef(GetRef(b).value, GetRef(b).rest) == b
  {
    ByteCanonical(b);
    var b1 := GetByte(b).rest;
    var b2 := GetBytes(b1, 32).rest;
    U32Canonical(b2);
    assert b1 == b1[..32] + b2;
  }

  lemma {:induction false} RefsCanonical(b: bytes, n: nat)
    requires GetRefs(b, n).Parsed?
    ensures PutRefs(GetRefs(b, n).value, GetRefs(b, n).rest) == b
    decreases n
  {
    if n == 0 {
    } else {
      var p := GetRef(b);
      RefCanonical(b);
      RefsCanonical(p.rest, n - 1);
      assert GetRefs(b, n).value[1..] == GetRefs(p.rest, n - 1).value;
    }
  }

  lemma ProcessCanonical(b: bytes)
    requires GetProcess(b).Parsed?
    ensures PutProcess(GetProcess(b).value, GetProcess(b).rest) == b
  {
    ByteCanonical(b);
    if GetProcess(b).value.Some? {
      var b1 := GetByte(b).rest;
      U16Canonical(b1);
      var n := GetU16(b1);
      StringItemsCanonical(n.rest, n.value);
      var b3 := GetStringItems(n.rest, n.value).rest;
      StringCanonical(b3);
      StringCanonical(GetString(b3).rest);
    }
  }

  lemma PaneRefsCanonical(b: bytes, id: bytes, stableId: bytes, cwd: bytes)
    requires |id| <= MAX_U16 && |stableId| <= MAX_U16 && |cwd| <= MAX_U16
    requires GetPaneRefs(b, id, stableId, cwd).Parsed?
    ensures PutPaneRefs(GetPaneRefs(b, id, stableId, cwd).value, GetPaneRefs(b, id, stableId, cwd).rest) == b
  {
    U16Canonical(b);
    var n := GetU16(b);
    RefsCanonical(n.rest, n.value);
    var b2 := GetRefs(n.rest, n.value).rest;
    RefCanonical(b2);
    var b3 := GetRef(b2).rest;
    RefCanonical(b3);
    ProcessCanonical(GetRef(b3).rest);
  }

  lemma PaneCanonical(b: bytes)
    requires GetPane(b).Parsed?
    ensures PutPane(GetPane(b).value, GetPane(b).rest) == b
  {
    hide GetPaneRefs, PutPaneRefs, GetString, PutString;
    var id := GetString(b);
    var stableId := GetString(id.rest);
    var cwd := GetString(stableId.rest);
    StringCanonical(b);
    StringCanonical(id.rest);
    StringCanonical(stableId.rest);
    PaneRefsCanonical(cwd.rest, id.value, stableId.value, cwd.value);
  }

  lemma {:induction false} PanesCanonical(b: bytes, n: nat)
    requires GetPanes(b, n).Parsed?
    ensures PutPanes(GetPanes(b, n).value, GetPanes(b, n).rest) == b
    decreases n
  {
    hide GetPane, PutPane;
    if n == 0 {
    } else {
      var p := GetPane(b);
      PaneCanonical(b);
      PanesCanonical(p.rest, n - 1);
      assert GetPanes(b, n).value[1..] == GetPanes(p.rest, n - 1).value;
    }
  }

  lemma TabBodyCanonical(b: bytes, stableId: bytes, cols: u16, rows: u16, nextPane: u64)
    requires |stableId| <= MAX_U16
    requires GetTabBody(b, stableId, cols, rows, nextPane).Parsed?
    ensures var p := GetTabBody(b, stableId, cols, rows, nextPane);
            PutTabBody(p.value, p.rest) == b && Unweighted(p.value) == p.value
  {
    StringCanonical(b);
    var b1 := GetString(b).rest;
    NodeCanonical(b1);
    var b2 := GetNode(b1).rest;
    U16Canonical(b2);
    PanesCanonical(GetU16(b2).rest, GetU16(b2).value);
  }

  lemma TabCanonical(b: bytes)
    requires GetTab(b).Parsed?
    ensures PutTab(GetTab(b).value, GetTab(b).rest) == b
    ensures Unweighted(GetTab(b).value) == GetTab(b).value
  {
    hide GetTabBody, PutTabBody, GetString, PutString, GetU16, PutU16, GetU64, PutU64;
    var stableId := GetString(b);
    var cols := GetU16(stableId.rest);
    var rows := GetU16(cols.rest);
    var nextPane := GetU64(rows.rest);
    StringCanonical(b);
    U16Canonical(stableId.rest);
    U16Canonical(cols.rest);
    U64Canonical(rows.rest);
    TabBodyCanonical(nextPane.rest, stableId.value, cols.value, rows.value, nextPane.value);
  }

  lemma {:induction false} TabsCanonical(b: bytes, n: nat)
    requires GetTabs(b, n).Parsed?
    ensures PutTabs(GetTabs(b, n).value, GetTabs(b, n).rest) == b
    ensures UnweightedTabs(GetTabs(b, n).value) == GetTabs(b, n).value
    decreases n
  {
    hide GetTab, PutTab;
    if n == 0 {
    } else {
      var p := GetTab(b);
      TabCanonical(b);
      TabsCanonical(p.rest, n - 1);
      assert GetTabs(b, n).value[1..] == GetTabs(p.rest, n - 1).value;
    }
  }

  lemma ParentCanonical(b: bytes)
    requires GetParent(b).Parsed?
    ensures PutParent(GetParent(b).value, GetParent(b).rest) == b
  {
    ByteCanonical(b);
    if GetParent(b).value.Some? {
      var b1 := GetByte(b).rest;
      U64Canonical(b1);
      var b2 := GetU64(b1).rest;
      assert b2 == b2[..32] + b2[32..];
    }
  }

  lemma HeaderCanonical(b: bytes)
    requires GetHeader(b).Parsed?
    ensures PutHeader(GetHeader(b).value, GetHeader(b).rest) == b
  {
    hide GetU64, PutU64, GetU16, PutU16, GetString, PutString, GetParent, PutParent;
    U64Canonical(b);
    var b1 := GetU64(b).rest;
    assert b1 == b1[..16] + b1[16..];
    ParentCanonical(b1[16..]);
    var b3 := GetParent(b1[16..]).rest;
    StringCanonical(b3);
    var b4 := GetString(b3).rest;
    U64Canonical(b4);
    U16Canonical(GetU64(b4).rest);
  }

  lemma PrintedCanonical(b: bytes)
    requires GetUnweighted(b).Parsed?
    ensures Printed(GetUnweighted(b).value, GetUnweighted(b).rest) == b
    ensures UnweightedTabs(GetUnweighted(b).value.tabs) == GetUnweighted(b).value.tabs
  {
    HeaderCanonical(b);
    var b1 := GetHeader(b).rest;
    U16Canonical(b1);
    TabsCanonical(GetU16(b1).rest, GetU16(b1).value);
  }

  lemma {:induction false} WordsCanonical(b: bytes)
    requires WordsOf(b).Some?
    ensures PutWeights(WordsOf(b).value) == b
    decreases |b|
  {
    if b == [] {
    } else {
      U64Length(b);
      U64Canonical(b);
      WordsCanonical(GetU64(b).rest);
      assert WordsOf(b).value[1..] == WordsOf(GetU64(b).rest).value;
    }
  }

  lemma ExtensionCanonical(b: bytes, want: nat)
    requires GetWeights(b, want).Some? && GetWeights(b, want).value.Some?
    ensures want <= 0xFFFF_FFFF
    ensures WEIGHT_TAG + PutU32(want, PutWeights(GetWeights(b, want).value.value)) == b
  {
    hide WordsOf, PutWeights, GetU32, PutU32;
    var b1 := b[4..];
    U32Length(b1);
    U32Canonical(b1);
    WordsCanonical(GetU32(b1).rest);
    assert b == b[..4] + b1;
  }

  lemma {:induction false} WeightsOfAssignedTabs(ts: seq<Tab>, ws: seq<u64>)
    requires |ws| == TabNodes(ts)
    ensures TabWeights(AssignTabs(ts, ws)) == ws
    ensures AllSameButWeights(AssignTabs(ts, ws), ts)
  {
    hide Assign, Weights, Strip, Count;
    if ts == [] {
    } else {
      var c := Count(Root(ts[0]));
      WeightsOfAssigned(Root(ts[0]), ws[..c]);
      WeightsOfAssignedTabs(ts[1..], ws[c..]);
      var rs := AssignTabs(ts, ws);
      assert rs[1..] == AssignTabs(ts[1..], ws[c..]);
      assert ws == ws[..c] + ws[c..];
      forall i | 0 <= i < |ts| ensures SameButWeights(rs[i], ts[i]) {
        if i > 0 {
          assert SameButWeights(rs[1..][i - 1], ts[1..][i - 1]);
        }
      }
    }
  }

  /** Decoding gives back the fields as printed; only the extension can differ. */
  lemma DecodedReprints(body: bytes)
    requires DecodeManifest(body).Some?
    ensures GetUnweighted(body).Parsed?
    ensures var m := DecodeManifest(body).value;
            var ext := GetUnweighted(body).rest;
            && ManifestValid(m) && ManifestFits(m)
            && Printed(m, ext) == body
            && (HasWeights(m) ==> WeightExtension(m) == ext)
            && (GetWeights(ext, TabNodes(m.tabs)).Some? && (ext != [] ==>
                  GetWeights(ext, TabNodes(m.tabs)).value == Some(TabWeights(m.tabs))))
  {
    hide GetUnweighted, AssignTabs, PutHeader, PutTabs, PutU16, PutU32, GetU32, WordsOf, TabsValid, TabsFit, TabWeights;
    PrintedCanonical(body);
    var p := GetUnweighted(body);
    var m := DecodeManifest(body).value;
    if p.rest == [] {
      WeightsOfUnweighted(p.value.tabs);
    } else {
      var ws := GetWeights(p.rest, TabNodes(p.value.tabs)).value.value;
      ExtensionCanonical(p.rest, TabNodes(p.value.tabs));
      WeightsOfAssignedTabs(p.value.tabs, ws);
      SameTabs(m.tabs, p.value.tabs);
      SamePutTabs(m.tabs, p.value.tabs, p.rest);
    }
  }

  /** Acceptance of a body, in terms of what is known before weights are assigned. */
  ghost predicate BodyAccepted(body: bytes) {
    var p := GetUnweighted(body);
    && p.Parsed?
    && HeaderValid(p.value.header)
    && ActiveValid(p.value.header.active, |p.value.tabs|)
    && TabsValid(p.value.tabs)
    && GetWeights(p.rest, TabNodes(p.value.tabs)).Some?
    && Affordable(p.value)
  }

  lemma AcceptanceBeforeWeights(body: bytes)
    ensures BodyAccepted(body) <==> DecodeManifest(body).Some? && Affordable(DecodeManifest(body).value)
  {
    hide GetUnweighted, AssignTabs, HeaderValid, TabsValid, TabWeights, HeightsWithin;
    hide TabsCost, TabNodes, GetU32, WordsOf;
    var p := GetUnweighted(body);
    if p.Parsed? && GetWeights(p.rest, TabNodes(p.value.tabs)).Some? {
      PrintedCanonical(body);
      var ws := GetWeights(p.rest, TabNodes(p.value.tabs)).value;
      if ws.None? {
        WeightsOfUnweighted(p.value.tabs);
      } else {
        WeightsOfAssignedTabs(p.value.tabs, ws.value);
        SameTabs(AssignTabs(p.value.tabs, ws.value), p.value.tabs);
      }
    }
  }

  // ----- A printer only prepends to its continuation

  lemma StringAppend(s: bytes, a: bytes, k: bytes)
    requires |s| <= MAX_U16
    ensures PutString(s, a + k) == PutString(s, a) + k
  {
    BytesAppend(s, a, k);
    U16Append(|s|, s + a, k);
  }

  lemma {:induction false} StringItemsAppend(ss: seq<bytes>, a: bytes, k: bytes)
    requires StringsFit(ss)
    ensures PutStringItems(ss, a + k) == PutStringItems(ss, a) + k
  {
    hide PutString;
    if ss == [] {
    } else {
      StringItemsAppend(ss[1..], a, k);
      StringAppend(ss[0], PutStringItems(ss[1..], a), k);
    }
  }

  lemma {:induction false} NodeAppend(n: Node, a: bytes, k: bytes)
    requires NodeFits(n)
    ensures PutNode(n, a + k) == PutNode(n, a) + k
    decreases n, 1
  {
    hide PutString, PutU16, PutByte;
    match n
    case Nil =>
      ByteAppend(NIL_TAG, a, k);
    case Leaf(p, _) =>
      StringAppend(p, a, k);
      ByteAppend(LEAF_TAG, PutString(p, a), k);
    case Split(d, cs, _) =>
      NodesAppend(cs, a, k);
      var a1 := PutNodes(cs, a);
      U16Append(|cs|, a1, k);
      ByteAppend(d, PutU16(|cs|, a1), k);
      ByteAppend(SPLIT_TAG, PutByte(d, PutU16(|cs|, a1)), k);
    case Stack(e, cs, _) =>
      NodesAppend(cs, a, k);
      var a1 := PutNodes(cs, a);
      U16Append(|cs|, a1, k);
      StringAppend(e, PutU16(|cs|, a1), k);
      ByteAppend(STACK_TAG, PutString(e, PutU16(|cs|, a1)), k);
  }

  lemma {:induction false} NodesAppend(ns: seq<Node>, a: bytes, k: bytes)
    requires NodesFit(ns)
    ensures PutNodes(ns, a + k) == PutNodes(ns, a) + k
    decreases ns, 0
  {
    if ns == [] {
    } else {
      NodesAppend(ns[1..], a, k);
      NodeAppend(ns[0], PutNodes(ns[1..], a), k);
    }
  }

  lemma RefAppend(r: ObjectRef, a: bytes, k: bytes)
    ensures PutRef(r, a + k) == PutRef(r, a) + k
  {
    U32Append(r.size, a, k);
    BytesAppend(r.digest, PutU32(r.size, a), k);
    ByteAppend(r.kind, r.digest + PutU32(r.size, a), k);
  }

  lemma {:induction false} RefsAppend(rs: seq<ObjectRef>, a: bytes, k: bytes)
    ensures PutRefs(rs, a + k) == PutRefs(rs, a) + k
  {
    hide PutRef;
    if rs == [] {
    } else {
      RefsAppend(rs[1..], a, k);
      RefAppend(rs[0], PutRefs(rs[1..], a), k);
    }
  }

  lemma ProcessAppend(p: Option<Process>, a: bytes, k: bytes)
    requires ProcessFits(p)
    ensures PutProcess(p, a + k) == PutProcess(p, a) + k
  {
    hide PutString, PutU16, PutByte, PutStringItems;
    match p
    case None =>
      ByteAppend(0, a, k);
    case Some(v) =>
      StringAppend(v.agentSession, a, k);
      var a1 := PutString(v.agentSession, a);
      StringAppend(v.strategy, a1, k);
      var a2 := PutString(v.strategy, a1);
      StringItemsAppend(v.argv, a2, k);
      var a3 := PutStringItems(v.argv, a2);
      U16Append(|v.argv|, a3, k);
      ByteAppend(1, PutU16(|v.argv|, a3), k);
  }

  lemma PaneAppend(p: Pane, a: bytes, k: bytes)
    requires PaneFits(p)
    ensures PutPane(p, a + k) == PutPane(p, a) + k
  {
    hide PutString, PutU16, PutRef, PutRefs, PutProcess;
    ProcessAppend(p.process, a, k);
    var a1 := PutProcess(p.process, a);
    RefAppend(p.transcript, a1, k);
    var a2 := PutRef(p.transcript, a1);
    RefAppend(p.tail, a2, k);
    var a3 := PutRef(p.tail, a2);
    RefsAppend(p.sealedRefs, a3, k);
    var a4 := PutRefs(p.sealedRefs, a3);
    U16Append(|p.sealedRefs|, a4, k);
    var a5 := PutU16(|p.sealedRefs|, a4);
    StringAppend(p.cwd, a5, k);
    StringAppend(p.stableId, PutString(p.cwd, a5), k);
    StringAppend(p.id, PutString(p.stableId, PutString(p.cwd, a5)), k);
  }

  lemma {:induction false} PanesAppend(ps: seq<Pane>, a: bytes, k: bytes)
    requires PanesFit(ps)
    ensures PutPanes(ps, a + k) == PutPanes(ps, a) + k
  {
    hide PutPane;
    if ps == [] {
    } else {
      PanesAppend(ps[1..], a, k);
      PaneAppend(ps[0], PutPanes(ps[1..], a), k);
    }
  }

  lemma TabAppend(t: Tab, a: bytes, k: bytes)
    requires TabFits(t)
    ensures PutTab(t, a + k) == PutTab(t, a) + k
  {
    hide PutString, PutU16, PutU64, PutNode, PutPanes;
    PanesAppend(t.panes, a, k);
    var a1 := PutPanes(t.panes, a);
    U16Append(|t.panes|, a1, k);
    var a2 := PutU16(|t.panes|, a1);
    NodeAppend(Root(t), a2, k);
    var a3 := PutNode(Root(t), a2);
    StringAppend(t.focus, a3, k);
    var a4 := PutString(t.focus, a3);
    U64Append(t.nextPane, a4, k);
    var a5 := PutU64(t.nextPane, a4);
    U16Append(t.rows, a5, k);
    U16Append(t.cols, PutU16(t.rows, a5), k);
    StringAppend(t.stableId, PutU16(t.cols, PutU16(t.rows, a5)), k);
  }

  lemma {:induction false} TabsAppend(ts: seq<Tab>, a: bytes, k: bytes)
    requires TabsFit(ts)
    ensures PutTabs(ts, a + k) == PutTabs(ts, a) + k
  {
    hide PutTab;
    if ts == [] {
    } else {
      TabsAppend(ts[1..], a, k);
      TabAppend(ts[0], PutTabs(ts[1..], a), k);
    }
  }

  lemma ParentAppend(c: Option<Checkpoint>, a: bytes, k: bytes)
    ensures PutParent(c, a + k) == PutParent(c, a) + k
  {
    hide PutU64;
    match c
    case None =>
      ByteAppend(0, a, k);
    case Some(v) =>
      BytesAppend(v.digest, a, k);
      U64Append(v.generation, v.digest + a, k);
      ByteAppend(1, PutU64(v.generation, v.digest + a), k);
  }

  lemma HeaderAppend(h: Header, a: bytes, k: bytes)
    requires |h.name| <= MAX_U16
    ensures PutHeader(h, a + k) == PutHeader(h, a) + k
  {
    hide PutString, PutU16, PutU64, PutParent;
    U16Append(h.active, a, k);
    var a1 := PutU16(h.active, a);
    U64Append(h.createdAt, a1, k);
    var a2 := PutU64(h.createdAt, a1);
    StringAppend(h.name, a2, k);
    var a3 := PutString(h.name, a2);
    ParentAppend(h.parent, a3, k);
    var a4 := PutParent(h.parent, a3);
    BytesAppend(h.incarnation, a4, k);
    U64Append(h.generation, h.incarnation + a4, k);
  }

  lemma PrintedAppend(m: Manifest, k: bytes)
    requires |m.header.name| <= MAX_U16 && |m.tabs| <= MAX_U16 && TabsFit(m.tabs)
    ensures Printed(m, k) == Printed(m, []) + k
  {
    hide PutHeader, PutU16, PutTabs;
    assert [] + k == k;
    TabsAppend(m.tabs, [], k);
    U16Append(|m.tabs|, PutTabs(m.tabs, []), k);
    HeaderAppend(m.header, PutU16(|m.tabs|, PutTabs(m.tabs, [])), k);
  }

  /** An extension whose weights are all (positive or negative) zero says nothing. */
  predicate RedundantExtension(body: bytes)
    requires DecodeManifest(body).Some?
  {
    GetUnweighted(body).rest != [] && !HasWeights(DecodeManifest(body).value)
  }

  lemma BodyReprints(body: bytes)
    requires DecodeManifest(body).Some?
    ensures var m := DecodeManifest(body).value;
            && ManifestValid(m) && ManifestFits(m)
            && |GetUnweighted(body).rest| <= |body|
            && ManifestBody(m) == if RedundantExtension(body) then body[..|body| - |GetUnweighted(body).rest|] else body
  {
    hide DecodeManifest, GetUnweighted, PutHeader, PutTabs, PutU16;
    DecodedReprints(body);
    var m := DecodeManifest(body).value;
    var ext := GetUnweighted(body).rest;
    PrintedAppend(m, ext);
    assert body[..|body| - |ext|] == Printed(m, []);
  }

  /**
   The encoding is unique up to a redundant weight extension: re-marshalling an
   accepted manifest always succeeds, and gives the accepted bytes exactly when
   they carry no redundant extension; otherwise that extension is dropped.
   */
  lemma AcceptedManifestRemarshals(crc: Checksum, encoded: bytes)
    requires UnmarshalManifest(crc, encoded).Some?
    ensures var m := UnmarshalManifest(crc, encoded).value;
            var body := Unsealed(crc, MANIFEST_MAGIC, MANIFEST_VERSION, encoded).value;
            && MarshalManifest(crc, m).Some?
            && (MarshalManifest(crc, m).value == encoded <==> !RedundantExtension(body))
            && (RedundantExtension(body) ==>
                  var kept := |body| - |GetUnweighted(body).rest|;
                  && 0 <= kept < |body| <= MAX_BODY
                  && MarshalManifest(crc, m).value == Sealed(crc, MANIFEST_MAGIC, MANIFEST_VERSION, body[..kept]))
  {
    hide DecodeManifest, GetUnweighted, Sealed, Unsealed, ManifestBody;
    hide Affordable, ManifestValid, ManifestFits, HasWeights;
    SealedCanonical(crc, MANIFEST_MAGIC, MANIFEST_VERSION, encoded);
    var body := Unsealed(crc, MANIFEST_MAGIC, MANIFEST_VERSION, encoded).value;
    BodyReprints(body);
    SealedRoundTrip(crc, MANIFEST_MAGIC, MANIFEST_VERSION, ManifestBody(DecodeManifest(body).value));
  }

  // ----- The exceptions exist

  function EmptyManifest(): Manifest {
    Manifest(Header(1, seq(16, i => 1), None, [0x61], 0, 0), [])
  }

  lemma EmptyManifestIsFine()
    ensures ManifestValid(EmptyManifest()) && ManifestFits(EmptyManifest()) && Affordable(EmptyManifest())
    ensures !HasWeights(EmptyManifest())
  {
    assert EmptyManifest().header.incarnation[0] == 1;
  }

  lemma EmptyExtension()
    ensures |WEIGHT_TAG + PutU32(0, [])| == 8
    ensures GetWeights(WEIGHT_TAG + PutU32(0, []), 0) == Some(Some([]))
  {
    U32Tail(0, []);
    U32RoundTrip(0, []);
    var ext := WEIGHT_TAG + PutU32(0, []);
    assert ext[..4] == WEIGHT_TAG && ext[4..] == PutU32(0, []);
  }

  lemma EmptyManifestSize(k: bytes)
    ensures |Printed(EmptyManifest(), k)| <= 100 + |k|
  {
  }

  /** An accepted manifest that marshals to other bytes: an empty one with an empty weight extension. */
  lemma RedundantExtensionIsAccepted(crc: Checksum) returns (encoded: bytes)
    ensures UnmarshalManifest(crc, encoded) == Some(EmptyManifest())
    ensures MarshalManifest(crc, EmptyManifest()).Some?
    ensures MarshalManifest(crc, EmptyManifest()).value != encoded
  {
    hide GetUnweighted, GetWeights, Sealed, Unsealed, PutHeader, ManifestValid, ManifestFits;
    hide Affordable, HasWeights, PutU32, Printed, ManifestBody;
    var m, ext := EmptyManifest(), WEIGHT_TAG + PutU32(0, []);
    EmptyManifestIsFine();
    EmptyExtension();
    EmptyManifestSize(ext);
    var body := Printed(m, ext);
    PrintedRoundTrip(m, ext);
    assert DecodeManifest(body) == Some(m);
    SealedRoundTrip(crc, MANIFEST_MAGIC, MANIFEST_VERSION, body);
    encoded := Sealed(crc, MANIFEST_MAGIC, MANIFEST_VERSION, body);
    AcceptedManifestRemarshals(crc, encoded);
  }

  /** One tab with one pane, whose leaf weighs negative zero. */
  function NegativeZeroTab(): Tab {
    var digest := seq(32, i => 1);
    var pane := Pane([0x61], [], [], [], ObjectRef(HISTORY_TAIL, digest, 22), ObjectRef(RECOVERY_TRANSCRIPT, digest,
        22), None);
    Tab([], 80, 24, 1, [], Some(Tree(Leaf([0x61], NEGATIVE_ZERO), [])), [pane])
  }

  function NegativeZeroManifest(): Manifest {
    Manifest(EmptyManifest().header, [NegativeZeroTab()])
  }

  lemma NegativeZeroTabIsFine()
    ensures TabValid(NegativeZeroTab()) && TabFits(NegativeZeroTab())
    ensures TabWeights([NegativeZeroTab()]) == [NEGATIVE_ZERO] && TabNodes([NegativeZeroTab()]) == 1
  {
    var t := NegativeZeroTab();
    assert t.panes[0].tail.digest[0] == 1 && t.panes[0].transcript.digest[0] == 1;
    assert PaneIds(t.panes) == {[0x61]} by {
      assert t.panes[0].id == [0x61];
    }
    assert [t][1..] == [];
  }

  lemma NegativeZeroTabSize(k: bytes)
    requires TabFits(NegativeZeroTab())
    ensures |PutTab(NegativeZeroTab(), k)| <= 200 + |k|
  {
    hide PutU64, PutU32;
    var p := NegativeZeroTab().panes[0];
    U32Tail(22, PutProcess(None, k));
    U32Tail(22, PutRef(p.transcript, PutProcess(None, k)));
    assert |PutPane(p, k)| <= 120 + |k|;
    var t := NegativeZeroTab();
    assert t.panes == [p] && t.panes[1..] == [];
    assert PutPanes(t.panes, k) == PutPane(p, PutPanes([], k));
    assert PutPanes([], k) == k;
    var rest := PutU16(1, PutPane(p, k));
    assert PutNode(Root(t), rest) == PutByte(LEAF_TAG, PutString([0x61], rest));
    var body := PutTabBody(t, k);
    assert |body| <= 140 + |k|;
    U64Tail(1, body);
  }

  /** A manifest that marshals and reads back with another weight: its negative zero returns as positive zero. */
  lemma NegativeZeroComesBackPositive(crc: Checksum)
    ensures MarshalManifest(crc, NegativeZeroManifest()).Some?
    ensures var m := UnmarshalManifest(crc, MarshalManifest(crc, NegativeZeroManifest()).value);
            m.Some? && TabWeights(m.value.tabs) != TabWeights(NegativeZeroManifest().tabs)
  {
    hide Sealed, Unsealed, DecodeManifest, PutHeader, PutTab, TabValid, TabFits, Printed, ReadBack;
    var m := NegativeZeroManifest();
    NegativeZeroManifestIsFine();
    MarshalledManifestIsReadBack(crc, m);
    WeightsReadBackExactly(m);
    NegativeZeroTabIsFine();
    assert TabWeights(m.tabs)[0] == NEGATIVE_ZERO;
  }

  lemma NegativeZeroManifestIsFine()
    ensures ManifestValid(NegativeZeroManifest()) && ManifestFits(NegativeZeroManifest())
              && Affordable(NegativeZeroManifest())
    ensures !HasWeights(NegativeZeroManifest()) && |ManifestBody(NegativeZeroManifest())| <= MAX_BODY
  {
    hide TabValid, TabFits, PutTab, PutU64, TabNodes;
    var m := NegativeZeroManifest();
    NegativeZeroTabIsFine();
    EmptyManifestIsFine();
    assert m.tabs[1..] == [];
    NegativeZeroTabSize([]);
    HeaderSize(PutU16(1, PutTab(NegativeZeroTab(), [])));
  }

  lemma HeaderSize(k: bytes)
    ensures |PutHeader(EmptyManifest().header, k)| <= 100 + |k|
  {
  }
}
