/** The manifest writer, reader and validator, and the two public entry points. */
module ManifestCodec {
  import opened Wire
  import opened Payload
  import opened LayoutTree
  import opened Envelope
  import opened NodeCodec
  import opened ManifestFormat
  import opened ManifestRoundTrip
  import opened ManifestPreflight

  // ----- Writing

  method WriteRef(w: PayloadWriter, ref: ObjectRef, ghost k: bytes)
    modifies w
    ensures w.b + k == old(w.b) + PutRef(ref, k)
  {
    hide PutU32, PutByte;
    w.PutUint8(ref.kind, ref.digest + PutU32(ref.size, k));
    w.PutRaw(ref.digest, PutU32(ref.size, k));
    w.PutUint32(ref.size, k);
  }

  method WriteProcess(w: PayloadWriter, p: Option<Process>, ghost k: bytes) returns (ok: bool)
    modifies w
    ensures ok <==> ProcessFits(p)
    ensures ok ==> w.b + k == old(w.b) + PutProcess(p, k)
  {
    hide PutString, PutStringItems, PutU16, PutByte;
    if p.None? {
      w.PutUint8(0, k);
      return true;
    }
    if |p.value.argv| == 0 {
      return false;
    }
    ghost var fits := ProcessFits(p);
    ghost var k2 := if fits then PutString(p.value.agentSession, k) else k;
    ghost var k1 := if fits then PutString(p.value.strategy, k2) else k;
    w.PutUint8(1, if fits then PutU16(|p.value.argv|, PutStringItems(p.value.argv, k1)) else k);
    ok := w.PutStrs(p.value.argv, k1);
    if !ok {
      return;
    }
    ok := w.PutStr(p.value.strategy, k2);
    if !ok {
      return;
    }
    ok := w.PutStr(p.value.agentSession, k);
  }

  method WritePane(w: PayloadWriter, p: Pane, ghost k: bytes) returns (ok: bool)
    modifies w
    ensures ok <==> PaneFits(p)
    ensures ok ==> w.b + k == old(w.b) + PutPane(p, k)
  {
    hide PutString, PutU16, PutRef, PutProcess, ProcessFits;
    ghost var fits := PaneFits(p);
    ghost var k6 := if fits then PutProcess(p.process, k) else k;
    ghost var k5 := PutRef(p.transcript, k6);
    ghost var k4 := PutRef(p.tail, k5);
    ghost var k3 := if fits then PutU16(|p.sealedRefs|, PutRefs(p.sealedRefs, k4)) else k;
    ghost var k2 := if fits then PutString(p.cwd, k3) else k;
    ghost var k1 := if fits then PutString(p.stableId, k2) else k;
    ghost var start := w.b;
    ok := w.PutStr(p.id, k1);
    if !ok {
      return;
    }
    ok := w.PutStr(p.stableId, k2);
    if !ok {
      return;
    }
    ok := w.PutStr(p.cwd, k3);
    if !ok {
      return;
    }
    if |p.sealedRefs| > MAX_U16 {
      return false;
    }
    w.PutUint16(|p.sealedRefs|, PutRefs(p.sealedRefs, k4));
    for i := 0 to |p.sealedRefs|
      invariant fits ==> w.b + PutRefs(p.sealedRefs[i..], k4) == start + PutPane(p, k)
    {
      assert p.sealedRefs[i..][1..] == p.sealedRefs[i + 1..];
      WriteRef(w, p.sealedRefs[i], PutRefs(p.sealedRefs[i + 1..], k4));
    }
    WriteRef(w, p.tail, k5);
    WriteRef(w, p.transcript, k6);
    ok := WriteProcess(w, p.process, k);
  }

  method WriteTab(w: PayloadWriter, t: Tab, ghost k: bytes) returns (ok: bool)
    modifies w
    ensures ok <==> TabFits(t)
    ensures ok ==> w.b + k == old(w.b) + PutTab(t, k)
  {
    hide PutString, PutU16, PutU64, PutNode, NodeFits, PutPane, PaneFits;
    ghost var fits := TabFits(t);
    ghost var k6 := if fits then PutU16(|t.panes|, PutPanes(t.panes, k)) else k;
    ghost var k5 := if fits then PutNode(Root(t), k6) else k;
    ghost var k4 := if fits then PutString(t.focus, k5) else k;
    ghost var k3 := PutU64(t.nextPane, k4);
    ghost var k2 := PutU16(t.rows, k3);
    ghost var start := w.b;
    ok := w.PutStr(t.stableId, PutU16(t.cols, k2));
    if !ok {
      return;
    }
    w.PutUint16(t.cols, k2);
    w.PutUint16(t.rows, k3);
    w.PutUint64(t.nextPane, k4);
    ok := w.PutStr(t.focus, k5);
    if !ok {
      return;
    }
    ok := WriteNode(w, Root(t), k6);
    if !ok {
      return;
    }
    if |t.panes| > MAX_U16 {
      return false;
    }
    w.PutUint16(|t.panes|, if fits then PutPanes(t.panes, k) else k);
    for i := 0 to |t.panes|
      invariant PanesFit(t.panes[..i])
      invariant fits ==> w.b + PutPanes(t.panes[i..], k) == start + PutTab(t, k)
    {
      assert t.panes[i..][1..] == t.panes[i + 1..];
      ok := WritePane(w, t.panes[i], if fits then PutPanes(t.panes[i + 1..], k) else k);
      if !ok {
        return;
      }
    }
    assert t.panes[..|t.panes|] == t.panes;
    return true;
  }

  method WriteWeights(w: PayloadWriter, nodes: seq<u64>) returns (ok: bool)
    modifies w
    ensures ok <==> AllZeroWeights(nodes) || |nodes| <= 0xFFFF_FFFF
    ensures ok ==>
              w.b == old(w.b) + if AllZeroWeights(nodes) then [] else WEIGHT_TAG + PutU32(|nodes|, PutWeights(nodes))
  {
    hide PutU32, PutU64;
    var hasWeights := false;
    for i := 0 to |nodes|
      invariant !hasWeights && AllZeroWeights(nodes[..i])
    {
      if !IsZero(nodes[i]) {
        hasWeights := true;
        break;
      }
    }
    if !hasWeights {
      assert nodes[..|nodes|] == nodes;
      assert w.b + [] == w.b;
      return true;
    }
    if |nodes| > 0xFFFF_FFFF {
      return false;
    }
    ghost var start := w.b;
    w.PutRaw(WEIGHT_TAG, PutU32(|nodes|, PutWeights(nodes)));
    w.PutUint32(|nodes|, PutWeights(nodes));
    for i := 0 to |nodes|
      invariant w.b + PutWeights(nodes[i..]) == start + (WEIGHT_TAG + PutU32(|nodes|, PutWeights(nodes)))
    {
      assert nodes[i..][1..] == nodes[i + 1..];
      w.PutUint64(nodes[i], PutWeights(nodes[i + 1..]));
    }
    assert nodes[|nodes|..] == [] && w.b + [] == w.b;
    return true;
  }

  method WriteHeader(w: PayloadWriter, h: Header, ghost k: bytes) returns (ok: bool)
    modifies w
    ensures ok <==> |h.name| <= MAX_U16
    ensures ok ==> w.b + k == old(w.b) + PutHeader(h, k)
  {
    hide PutString, PutU16, PutU64, PutByte;
    ghost var fits := |h.name| <= MAX_U16;
    ghost var k5 := PutU16(h.active, k);
    ghost var k4 := PutU64(h.createdAt, k5);
    ghost var k3 := if fits then PutString(h.name, k4) else k;
    ghost var k2 := PutParent(h.parent, k3);
    w.PutUint64(h.generation, h.incarnation + k2);
    w.PutRaw(h.incarnation, k2);
    if h.parent.None? {
      w.PutUint8(0, k3);
    } else {
      w.PutUint8(1, PutU64(h.parent.value.generation, h.parent.value.digest + k3));
      w.PutUint64(h.parent.value.generation, h.parent.value.digest + k3);
      w.PutRaw(h.parent.value.digest, k3);
    }
    ok := w.PutStr(h.name, k4);
    if !ok {
      return;
    }
    w.PutUint64(h.createdAt, k5);
    w.PutUint16(h.active, k);
  }

  method WriteManifest(w: PayloadWriter, m: Manifest) returns (ok: bool)
    requires w.b == []
    modifies w
    ensures ok <==> ManifestFits(m)
    ensures ok ==> w.b == ManifestBody(m)
  {
    hide PutHeader, PutU16, PutTab, TabFits, PutU32, PutWeights, TabWeights, TabNodes;
    ghost var fits := ManifestFits(m);
    ghost var k1 := if fits then WeightExtension(m) else [];
    ok := WriteHeader(w, m.header, if fits then PutU16(|m.tabs|, PutTabs(m.tabs, k1)) else []);
    if !ok {
      return;
    }
    if |m.tabs| > MAX_U16 {
      return false;
    }
    w.PutUint16(|m.tabs|, if fits then PutTabs(m.tabs, k1) else []);
    for i := 0 to |m.tabs|
      invariant TabsFit(m.tabs[..i])
      invariant fits ==> w.b + PutTabs(m.tabs[i..], k1) == [] + ManifestBody(m)
    {
      assert m.tabs[i..][1..] == m.tabs[i + 1..];
      ok := WriteTab(w, m.tabs[i], if fits then PutTabs(m.tabs[i + 1..], k1) else []);
      if !ok {
        return;
      }
    }
    assert m.tabs[..|m.tabs|] == m.tabs;
    ok := WriteWeights(w, TabWeights(m.tabs));
  }

  // ----- Reading

  method ReadRef(r: PayloadReader) returns (res: Outcome<ObjectRef>)
    modifies r
    ensures Matches(GetRef(old(r.b)), res, r.b)
  {
    hide GetByte, GetU32;
    var kind :- r.GetUint8();
    var digest :- r.GetRaw(32);
    var size :- r.GetUint32();
    return Success(ObjectRef(kind, digest, size));
  }

  method ReadProcess(r: PayloadReader) returns (res: Outcome<Option<Process>>)
    modifies r
    ensures Matches(GetProcess(old(r.b)), res, r.b)
  {
    hide GetByte, GetU16, GetString, GetStringItems;
    var present :- r.GetUint8();
    if present == 0 {
      return Success(None);
    }
    if present != 1 {
      return Failure;
    }
    var argv :- r.GetStrs();
    if |argv| == 0 {
      return Failure;
    }
    var strategy :- r.GetStr();
    var agentSession :- r.GetStr();
    return Success(Some(Process(argv, strategy, agentSession)));
  }

  method ReadPane(r: PayloadReader) returns (res: Outcome<Pane>)
    modifies r
    ensures Matches(GetPane(old(r.b)), res, r.b)
  {
    hide GetU16, GetString, GetRef, GetProcess;
    var id :- r.GetStr();
    var stableId :- r.GetStr();
    var cwd :- r.GetStr();
    var n :- r.GetUint16();
    ghost var start := r.b;
    var sealedRefs: seq<ObjectRef> := [];
    AfterNothing(GetRefs(r.b, n));
    for i := 0 to n
      invariant |sealedRefs| == i
      invariant GetRefs(start, n) == After(sealedRefs, GetRefs(r.b, n - i))
    {
      var ref :- ReadRef(r);
      AfterOneMore(sealedRefs, ref, GetRefs(r.b, n - i - 1));
      sealedRefs := sealedRefs + [ref];
    }
    AfterAll(sealedRefs, r.b);
    var tail :- ReadRef(r);
    var transcript :- ReadRef(r);
    var process :- ReadProcess(r);
    return Success(Pane(id, stableId, cwd, sealedRefs, tail, transcript, process));
  }

  method ReadTab(r: PayloadReader) returns (res: Outcome<Tab>)
    modifies r
    ensures Matches(GetTab(old(r.b)), res, r.b)
  {
    hide GetU16, GetU64, GetString, GetNode, GetPane;
    var stableId :- r.GetStr();
    var cols :- r.GetUint16();
    var rows :- r.GetUint16();
    var nextPane :- r.GetUint64();
    var focus :- r.GetStr();
    var root :- ReadNode(r);
    var n :- r.GetUint16();
    ghost var start := r.b;
    var panes: seq<Pane> := [];
    AfterNothing(GetPanes(r.b, n));
    for i := 0 to n
      invariant |panes| == i
      invariant GetPanes(start, n) == After(panes, GetPanes(r.b, n - i))
    {
      var pane :- ReadPane(r);
      AfterOneMore(panes, pane, GetPanes(r.b, n - i - 1));
      panes := panes + [pane];
    }
    AfterAll(panes, r.b);
    return Success(Tab(stableId, cols, rows, nextPane, focus, Some(Tree(root, focus)), panes));
  }

  method ReadHeader(r: PayloadReader) returns (res: Outcome<Header>)
    modifies r
    ensures Matches(GetHeader(old(r.b)), res, r.b)
  {
    hide GetU16, GetU64, GetString, GetByte;
    var generation :- r.GetUint64();
    var incarnation :- r.GetRaw(16);
    var parent: Option<Checkpoint> := None;
    var present :- r.GetUint8();
    if present == 1 {
      var parentGeneration :- r.GetUint64();
      var digest :- r.GetRaw(32);
      parent := Some(Checkpoint(parentGeneration, digest));
    } else if present != 0 {
      return Failure;
    }
    var name :- r.GetStr();
    var createdAt :- r.GetUint64();
    var active :- r.GetUint16();
    return Success(Header(generation, incarnation, parent, name, createdAt, active));
  }

  method Decode(body: bytes) returns (res: Outcome<Manifest>)
    ensures res == match DecodeManifest(body) case None => Failure case Some(m) => Success(m)
  {
    hide GetU16, GetHeader, GetTab, GetWeights, ManifestValid, TabNodes, AssignTabs;
    var r := new PayloadReader(body);
    var header :- ReadHeader(r);
    var n :- r.GetUint16();
    ghost var start := r.b;
    var tabs: seq<Tab> := [];
    AfterNothing(GetTabs(r.b, n));
    for i := 0 to n
      invariant |tabs| == i
      invariant GetTabs(start, n) == After(tabs, GetTabs(r.b, n - i))
    {
      var tab :- ReadTab(r);
      AfterOneMore(tabs, tab, GetTabs(r.b, n - i - 1));
      tabs := tabs + [tab];
    }
    AfterAll(tabs, r.b);
    var weights :- ReadWeightExtension(r, TabNodes(tabs));
    if weights.Some? {
      tabs := AssignTabs(tabs, weights.value);
    }
    var m := Manifest(header, tabs);
    var ok := ValidateManifest(m);
    if !ok {
      return Failure;
    }
    return Success(m);
  }

  // ----- Validation

  method ValidateRef(ref: ObjectRef, want: byte) returns (ok: bool)
    ensures ok <==> RefValid(ref, want)
  {
    var zero := IsZeroDigest(ref.digest);
    return ref.kind == want && MIN_OBJECT_SIZE <= ref.size <= MAX_OBJECT_SIZE && !zero;
  }

  method ValidatePaneRefs(p: Pane) returns (ok: bool)
    ensures ok <==> PaneRefsValid(p)
  {
    hide RefValid;
    for i := 0 to |p.sealedRefs|
      invariant forall j :: 0 <= j < i ==> RefValid(p.sealedRefs[j], HISTORY_CHUNK)
    {
      ok := ValidateRef(p.sealedRefs[i], HISTORY_CHUNK);
      if !ok {
        return;
      }
    }
    ok := ValidateRef(p.tail, HISTORY_TAIL);
    if !ok {
      return;
    }
    ok := ValidateRef(p.transcript, RECOVERY_TRANSCRIPT);
  }

  method ValidateTab(t: Tab) returns (ok: bool)
    ensures ok <==> TabValid(t)
  {
    hide PaneRefsValid, NodeValid;
    if !SafeDimensions(t.cols, t.rows) {
      return false;
    }
    var ids: set<PaneID> := {};
    for i := 0 to |t.panes|
      invariant PanesValid(t.panes[..i]) && ids == PaneIds(t.panes[..i])
    {
      var pane := t.panes[i];
      ghost var before := t.panes[..i];
      if pane.id == [] {
        return false;
      }
      if pane.id in ids {
        ghost var j :| 0 <= j < i && before[j].id == pane.id;
        assert t.panes[j].id == t.panes[i].id;
        return false;
      }
      ok := ValidatePaneRefs(pane);
      if !ok {
        return;
      }
      PaneIdsSnoc(before, pane);
      assert t.panes[..i + 1] == before + [pane];
      ids := ids + {pane.id};
    }
    assert t.panes[..|t.panes|] == t.panes;
    if t.focus != [] && t.focus !in ids {
      return false;
    }
    ok := ValidateTree(Root(t), ids);
  }

  method ValidateManifest(m: Manifest) returns (ok: bool)
    ensures ok <==> ManifestValid(m)
  {
    hide TabValid, TabWeights;
    if m.header.generation == 0 {
      return false;
    }
    var zero := IsZeroDigest(m.header.incarnation);
    if zero {
      return false;
    }
    if m.header.parent.Some? {
      var parent := m.header.parent.value;
      zero := IsZeroDigest(parent.digest);
      if parent.generation == 0 || parent.generation >= m.header.generation || zero {
        return false;
      }
    }
    if m.header.name == [] {
      return false;
    }
    if !ActiveValid(m.header.active, |m.tabs|) {
      return false;
    }
    var nodes := TabWeights(m.tabs);
    for i := 0 to |nodes|
      invariant forall j :: 0 <= j < i ==> ValidWeight(nodes[j])
    {
      if !ValidWeight(nodes[i]) {
        return false;
      }
    }
    for i := 0 to |m.tabs|
      invariant forall j :: 0 <= j < i ==> TabValid(m.tabs[j])
    {
      ok := ValidateTab(m.tabs[i]);
      if !ok {
        return;
      }
    }
    return true;
  }

  // ----- Entry points

  method Marshal(crc: Checksum, m: Manifest) returns (res: Outcome<bytes>)
    ensures res == match MarshalManifest(crc, m) case None => Failure case Some(e) => Success(e)
  {
    hide ManifestValid, ManifestFits, ManifestBody;
    var ok := ValidateManifest(m);
    if !ok {
      return Failure;
    }
    var w := new PayloadWriter();
    ok := WriteManifest(w, m);
    if !ok {
      return Failure;
    }
    if |w.b| > MAX_BODY {
      return Failure;
    }
    return Success(Sealed(crc, MANIFEST_MAGIC, EnvelopeVersion(MANIFEST_MAGIC), w.b));
  }

  method Unmarshal(crc: Checksum, encoded: bytes) returns (res: Outcome<Manifest>)
    ensures res == match UnmarshalManifest(crc, encoded) case None => Failure case Some(m) => Success(m)
  {
    hide Unsealed, DecodeManifest, Affordable;
    var body := Unsealed(crc, MANIFEST_MAGIC, EnvelopeVersion(MANIFEST_MAGIC), encoded);
    if body.None? {
      return Failure;
    }
    var ok := PreflightManifest(body.value);
    if !ok {
      return Failure;
    }
    res := Decode(body.value);
  }
}
