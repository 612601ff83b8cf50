/**
 Which manifests are written and read, said field by field in plain numbers, and
 what each limit means: independent of the predicates that the writer, the reader
 and the preflight share.
 */
module ManifestLaws {
  import opened Wire
  import opened Words
  import opened Payload
  import opened LayoutTree
  import opened TreeLaws
  import opened Envelope
  import opened ManifestFormat
  import opened ManifestRoundTrip

  // ----- Weights as numbers

  function ExponentOf(w: u64): nat {
    (w / 0x10_0000_0000_0000) % 0x800
  }

  function FractionOf(w: u64): nat {
    w % 0x10_0000_0000_0000
  }

  /** Neither an infinity nor not a number: section 3.4 of IEEE 754-2008. */
  predicate Finite(w: u64) {
    ExponentOf(w) != 0x7FF
  }

  /** The finite number that 64 bits stand for, in units of its smallest step, 2^-1074. */
  function ScaledValue(w: u64): int {
    var size := if ExponentOf(w) == 0 then FractionOf(w)
                else (0x10_0000_0000_0000 + FractionOf(w)) * Pow2(ExponentOf(w) - 1);
    if w >= 0x8000_0000_0000_0000 then -size else size
  }

  lemma ScaledSign(w: u64)
    ensures var rest := w % 0x8000_0000_0000_0000;
            && (rest == 0 <==> ScaledValue(w) == 0)
            && (w >= 0x8000_0000_0000_0000 && rest != 0 <==> ScaledValue(w) < 0)
  {
    var e, f := ExponentOf(w), FractionOf(w);
    SplitWord(w);
    if e != 0 {
      PowerIsPositive(e - 1);
      var a, p := 0x10_0000_0000_0000 + f, Pow2(e - 1);
      assert a * p >= 1;
    }
  }

  lemma SplitWord(w: u64)
    ensures w % 0x8000_0000_0000_0000 == ExponentOf(w) * 0x10_0000_0000_0000 + FractionOf(w)
  {
  }

  lemma {:induction false} PowerIsPositive(k: nat)
    ensures Pow2(k) >= 1
  {
    if k > 0 {
      PowerIsPositive(k - 1);
    }
  }

  /** A weight is accepted exactly when it is a finite number that is not below zero. */
  lemma WeightExactly(w: u64)
    ensures ValidWeight(w) <==> Finite(w) && ScaledValue(w) >= 0
    ensures IsZero(w) <==> Finite(w) && ScaledValue(w) == 0
  {
    hide ScaledValue;
    ScaledSign(w);
    SplitWord(w);
  }

  // ----- Validity in plain numbers

  predicate Nonzero(d: bytes) {
    exists i :: 0 <= i < |d| && d[i] != 0
  }

  predicate HeaderSound(h: Header, tabs: nat) {
    && h.generation > 0 && Nonzero(h.incarnation) && |h.name| > 0
    && (h.parent.Some? ==> 0 < h.parent.value.generation < h.generation && Nonzero(h.parent.value.digest))
    && (if tabs == 0 then h.active == 0 else h.active < tabs)
  }

  predicate RefSound(r: ObjectRef, kind: nat) {
    r.kind == kind && 22 <= r.size <= 268_435_472 && Nonzero(r.digest)
  }

  predicate PaneSound(p: Pane) {
    && |p.id| > 0 && RefSound(p.tail, 2) && RefSound(p.transcript, 3)
    && forall i :: 0 <= i < |p.sealedRefs| ==> RefSound(p.sealedRefs[i], 1)
  }

  predicate DeclaredIn(id: PaneID, panes: seq<Pane>) {
    exists i :: 0 <= i < |panes| && panes[i].id == id
  }

  predicate TabSound(t: Tab) {
    && t.cols > 0 && t.rows > 0 && t.cols as nat * t.rows as nat <= 16_777_216
    && (forall i :: 0 <= i < |t.panes| ==> PaneSound(t.panes[i]))
    && (forall i, j :: 0 <= i < j < |t.panes| ==> t.panes[i].id != t.panes[j].id)
    && (t.focus == [] || DeclaredIn(t.focus, t.panes))
    && (Root(t).Nil? || AllOk(Flat(Root(t), 0), PaneIds(t.panes)))
  }

  predicate WeightsSound(ws: seq<u64>) {
    forall i :: 0 <= i < |ws| ==> Finite(ws[i]) && ScaledValue(ws[i]) >= 0
  }

  predicate ManifestSound(m: Manifest) {
    && HeaderSound(m.header, |m.tabs|) && WeightsSound(TabWeights(m.tabs))
    && forall i :: 0 <= i < |m.tabs| ==> TabSound(m.tabs[i])
  }

  lemma RefExactly(r: ObjectRef, kind: byte)
    ensures RefValid(r, kind) <==> RefSound(r, kind)
  {
  }

  lemma PaneExactly(p: Pane)
    ensures p.id != [] && PaneRefsValid(p) <==> PaneSound(p)
  {
    hide RefValid, RefSound;
    RefExactly(p.tail, 2);
    RefExactly(p.transcript, 3);
    forall i | 0 <= i < |p.sealedRefs| ensures RefValid(p.sealedRefs[i], 1) <==> RefSound(p.sealedRefs[i], 1) {
      RefExactly(p.sealedRefs[i], 1);
    }
  }

  lemma TabExactly(t: Tab)
    ensures TabValid(t) <==> TabSound(t)
  {
    hide PaneRefsValid, PaneSound, NodeValid, AllOk;
    ValidExactly(Root(t), 0, PaneIds(t.panes));
    forall i | 0 <= i < |t.panes| ensures t.panes[i].id != [] && PaneRefsValid(t.panes[i]) <==> PaneSound(t.panes[i]) {
      PaneExactly(t.panes[i]);
    }
  }

  lemma WeightsExactly(ws: seq<u64>)
    ensures AllValid(ws) <==> WeightsSound(ws)
  {
    hide ValidWeight, Finite, ScaledValue;
    forall i | 0 <= i < |ws| ensures ValidWeight(ws[i]) <==> Finite(ws[i]) && ScaledValue(ws[i]) >= 0 {
      WeightExactly(ws[i]);
    }
  }

  /** The validator accepts exactly the sound manifests. */
  lemma ValidityExactly(m: Manifest)
    ensures ManifestValid(m) <==> ManifestSound(m)
  {
    hide TabValid, TabSound, AllValid, WeightsSound;
    WeightsExactly(TabWeights(m.tabs));
    forall i | 0 <= i < |m.tabs| ensures TabValid(m.tabs[i]) <==> TabSound(m.tabs[i]) {
      TabExactly(m.tabs[i]);
    }
  }

  /**
   A manifest marshals exactly when it is sound, its lengths fit their fields and
   its body stays within 256 MiB; what is read was written by a sound one.
   */
  lemma MarshalsExactly(crc: Checksum, m: Manifest)
    ensures MarshalManifest(crc, m).Some? <==> ManifestSound(m) && ManifestFits(m) && |ManifestBody(m)| <= 268_435_456
    ensures MarshalManifest(crc, m).Some? ==>
              |MarshalManifest(crc, m).value| >= 16
                  && MarshalManifest(crc, m).value[..8] == [0x56, 0x45, 0x56, 0x4D, 0, 5, 0, 0]
  {
    hide ManifestValid, ManifestSound, ManifestFits, ManifestBody;
    ValidityExactly(m);
    if MarshalManifest(crc, m).Some? {
      SealedPrefix(crc, ManifestBody(m));
    }
  }

  lemma SealedPrefix(crc: Checksum, body: bytes)
    requires |body| <= MAX_BODY
    ensures var e := Sealed(crc, MANIFEST_MAGIC, MANIFEST_VERSION, body);
            |e| >= 16 && e[..8] == [0x56, 0x45, 0x56, 0x4D, 0, 5, 0, 0]
  {
    U32Tail(crc(body), body);
    U32Tail(|body|, PutU32(crc(body), body));
  }

  // ----- Lengths in plain numbers

  predicate ProcessLengths(p: Process) {
    && 1 <= |p.argv| <= 65535 && |p.strategy| <= 65535 && |p.agentSession| <= 65535
    && forall i :: 0 <= i < |p.argv| ==> |p.argv[i]| <= 65535
  }

  predicate PaneLengths(p: Pane) {
    && |p.id| <= 65535 && |p.stableId| <= 65535 && |p.cwd| <= 65535 && |p.sealedRefs| <= 65535
    && (p.process.Some? ==> ProcessLengths(p.process.value))
  }

  /** A node holds at most 65535 children and a name of at most 65535 bytes. */
  predicate NodeLengths(n: Node) {
    match n
    case Nil => true
    case Leaf(p, _) => |p| <= 65535
    case Split(_, cs, _) => |cs| <= 65535
    case Stack(e, cs, _) => |e| <= 65535 && |cs| <= 65535
  }

  predicate NodesWithin(xs: seq<Placed>) {
    forall i :: 0 <= i < |xs| ==> NodeLengths(xs[i].node)
  }

  predicate TabLengths(t: Tab) {
    && |t.stableId| <= 65535 && |t.focus| <= 65535 && |t.panes| <= 65535 && NodesWithin(Flat(Root(t), 0))
    && forall i :: 0 <= i < |t.panes| ==> PaneLengths(t.panes[i])
  }

  predicate ManifestLengths(m: Manifest) {
    && |m.header.name| <= 65535 && |m.tabs| <= 65535
    && (HasWeights(m) ==> TabNodes(m.tabs) <= 4_294_967_295)
    && forall i :: 0 <= i < |m.tabs| ==> TabLengths(m.tabs[i])
  }

  lemma NodesWithinAppend(xs: seq<Placed>, ys: seq<Placed>)
    ensures NodesWithin(xs + ys) <==> NodesWithin(xs) && NodesWithin(ys)
  {
    hide NodeLengths;
    if NodesWithin(xs + ys) {
      forall i | 0 <= i < |xs| ensures NodeLengths(xs[i].node) {
        assert (xs + ys)[i] == xs[i];
      }
      forall i | 0 <= i < |ys| ensures NodeLengths(ys[i].node) {
        assert (xs + ys)[|xs| + i] == ys[i];
      }
    }
  }

  lemma {:induction false} NodeFitsExactly(n: Node, depth: nat)
    ensures NodeFits(n) <==> NodesWithin(Flat(n, depth))
    decreases n, 1
  {
    var here := [Placed(n, depth)];
    assert NodesWithin(here) <==> NodeLengths(n) by {
      assert here[0].node == n;
    }
    if n.Split? || n.Stack? {
      NodesFitExactly(n.children, depth + 1);
      NodesWithinAppend(here, FlatAll(n.children, depth + 1));
    } else {
      assert Flat(n, depth) == here;
    }
  }

  lemma {:induction false} NodesFitExactly(ns: seq<Node>, depth: nat)
    ensures NodesFit(ns) <==> NodesWithin(FlatAll(ns, depth))
    decreases ns, 0
  {
    if ns != [] {
      NodeFitsExactly(ns[0], depth);
      NodesFitExactly(ns[1..], depth);
      NodesWithinAppend(Flat(ns[0], depth), FlatAll(ns[1..], depth));
      assert NodesFit(ns) <==> NodeFits(ns[0]) && NodesFit(ns[1..]) by {
        assert ns == [ns[0]] + ns[1..];
      }
    }
  }

  lemma TabLengthsExactly(t: Tab)
    ensures TabFits(t) <==> TabLengths(t)
  {
    hide NodeFits, NodesWithin;
    NodeFitsExactly(Root(t), 0);
    forall i | 0 <= i < |t.panes| ensures PaneFits(t.panes[i]) <==> PaneLengths(t.panes[i]) {
    }
  }

  /** The fields fit exactly when every length does. */
  lemma FitsExactly(m: Manifest)
    ensures ManifestFits(m) <==> ManifestLengths(m)
  {
    hide TabFits, TabLengths, HasWeights;
    forall i | 0 <= i < |m.tabs| ensures TabFits(m.tabs[i]) <==> TabLengths(m.tabs[i]) {
      TabLengthsExactly(m.tabs[i]);
    }
  }

  lemma DecodedIsSound(body: bytes)
    requires DecodeManifest(body).Some?
    ensures ManifestSound(DecodeManifest(body).value) && ManifestLengths(DecodeManifest(body).value)
  {
    hide ManifestSound, GetUnweighted, GetWeights, ManifestFits, ManifestLengths, ManifestBody;
    ValidityExactly(DecodeManifest(body).value);
    FitsExactly(DecodeManifest(body).value);
    BodyReprints(body);
  }

  // ----- One field changed

  function WithActive(m: Manifest, active: u16): Manifest {
    m.(header := m.header.(active := active))
  }

  lemma ActiveKeepsSize(h: Header, active: u16, k: bytes)
    requires |h.name| <= MAX_U16
    ensures |PutHeader(h.(active := active), k)| == |PutHeader(h, k)|
  {
    hide PutU64, PutParent;
    var a, b := PutU16(h.active, k), PutU16(active, k);
    U64Tail(h.createdAt, a);
    U64Tail(h.createdAt, b);
    var a1, b1 := PutString(h.name, PutU64(h.createdAt, a)), PutString(h.name, PutU64(h.createdAt, b));
    assert |a1| == |b1|;
    ParentSize(h.parent, a1);
    ParentSize(h.parent, b1);
    U64Tail(h.generation, h.incarnation + PutParent(h.parent, a1));
    U64Tail(h.generation, h.incarnation + PutParent(h.parent, b1));
  }

  lemma ParentSize(c: Option<Checkpoint>, k: bytes)
    ensures |PutParent(c, k)| == |k| + if c.Some? then 41 else 1
  {
    hide PutU64;
    if c.Some? {
      U64Tail(c.value.generation, c.value.digest + k);
    }
  }

  /**
   A manifest that marshals goes on marshalling with another active tab exactly
   when that tab exists, and is then read back with it, all else being the same.
   */
  lemma ActiveExactly(crc: Checksum, m: Manifest, active: u16)
    requires MarshalManifest(crc, m).Some?
    ensures MarshalManifest(crc, WithActive(m, active)).Some?
            <==> if m.tabs == [] then active == 0 else active < |m.tabs|
    ensures MarshalManifest(crc, WithActive(m, active)).Some? && Affordable(m) ==>
              UnmarshalManifest(crc, MarshalManifest(crc, WithActive(m, active)).value)
              == Some(WithActive(ReadBack(m), active))
  {
    hide TabSound, WeightsSound, TabWeights, TabsFit, PutHeader, PutTabs, Sealed, Unsealed, DecodeManifest;
    var n := WithActive(m, active);
    MarshalsExactly(crc, m);
    MarshalsExactly(crc, n);
    assert ManifestFits(n) && WeightExtension(n) == WeightExtension(m);
    ActiveKeepsSize(m.header, active, PutU16(|m.tabs|, PutTabs(m.tabs, WeightExtension(m))));
    if MarshalManifest(crc, n).Some? {
      MarshalledManifestIsReadBack(crc, n);
    }
  }

  function WithSize(m: Manifest, i: nat, cols: u16, rows: u16): Manifest
    requires i < |m.tabs|
  {
    m.(tabs := m.tabs[i := m.tabs[i].(cols := cols, rows := rows)])
  }

  lemma SizeKeepsTabLength(t: Tab, cols: u16, rows: u16, k: bytes)
    requires TabFits(t)
    ensures |PutTab(t.(cols := cols, rows := rows), k)| == |PutTab(t, k)|
  {
    hide PutTabBody;
    assert PutTabBody(t.(cols := cols, rows := rows), k) == PutTabBody(t, k) by {
      SameBody(t, cols, rows, k);
    }
    U64Tail(t.nextPane, PutTabBody(t, k));
  }

  lemma SameBody(t: Tab, cols: u16, rows: u16, k: bytes)
    requires TabFits(t)
    ensures PutTabBody(t.(cols := cols, rows := rows), k) == PutTabBody(t, k)
  {
    hide PutNode, PutPanes;
  }

  lemma {:induction false} SizeKeepsLength(ts: seq<Tab>, i: nat, cols: u16, rows: u16, k: bytes)
    requires i < |ts| && TabsFit(ts)
    ensures var us := ts[i := ts[i].(cols := cols, rows := rows)];
            TabsFit(us) && |PutTabs(us, k)| == |PutTabs(ts, k)| && TabWeights(us) == TabWeights(ts)
    decreases i
  {
    hide PutTab, Weights;
    var us := ts[i := ts[i].(cols := cols, rows := rows)];
    if i == 0 {
      assert us[1..] == ts[1..];
      SizeKeepsTabLength(ts[0], cols, rows, PutTabs(ts[1..], k));
    } else {
      assert us[1..] == ts[1..][i - 1 := ts[i].(cols := cols, rows := rows)];
      SizeKeepsLength(ts[1..], i - 1, cols, rows, k);
      TabAppend(ts[0], [], PutTabs(ts[1..], k));
      TabAppend(ts[0], [], PutTabs(us[1..], k));
      assert [] + PutTabs(ts[1..], k) == PutTabs(ts[1..], k) && [] + PutTabs(us[1..], k) == PutTabs(us[1..], k);
    }
  }

  /** A manifest that marshals goes on marshalling with another size of a tab exactly when that size is safe. */
  lemma DimensionsExactly(crc: Checksum, m: Manifest, i: nat, cols: u16, rows: u16)
    requires MarshalManifest(crc, m).Some? && i < |m.tabs|
    ensures MarshalManifest(crc, WithSize(m, i, cols, rows)).Some?
            <==> cols > 0 && rows > 0 && cols as nat * rows as nat <= 16_777_216
  {
    hide TabSound, WeightsSound, TabWeights, PutHeader, PutTabs, TabFits;
    var n := WithSize(m, i, cols, rows);
    MarshalsExactly(crc, m);
    MarshalsExactly(crc, n);
    TabSizeSound(m.tabs[i], cols, rows);
    SizeKeepsLength(m.tabs, i, cols, rows, WeightExtension(m));
    SameNodes(m, n);
    SameHeaderSize(m.header, PutU16(|m.tabs|, PutTabs(m.tabs, WeightExtension(m))),
                   PutU16(|n.tabs|, PutTabs(n.tabs, WeightExtension(m))));
    SoundButForOne(m, i, cols, rows);
  }

  lemma SameNodes(m: Manifest, n: Manifest)
    requires TabWeights(m.tabs) == TabWeights(n.tabs)
    ensures TabNodes(m.tabs) == TabNodes(n.tabs) && HasWeights(m) == HasWeights(n)
  {
  }

  lemma SameHeaderSize(h: Header, k: bytes, l: bytes)
    requires |h.name| <= MAX_U16 && |k| == |l|
    ensures |PutHeader(h, k)| == |PutHeader(h, l)|
  {
    HeaderAppend(h, [], k);
    HeaderAppend(h, [], l);
    assert [] + k == k && [] + l == l;
  }

  lemma TabSizeSound(t: Tab, cols: u16, rows: u16)
    requires TabSound(t)
    ensures TabSound(t.(cols := cols, rows := rows))
            <==> cols > 0 && rows > 0 && cols as nat * rows as nat <= 16_777_216
  {
    hide PaneSound, AllOk;
  }

  lemma SoundButForOne(m: Manifest, i: nat, cols: u16, rows: u16)
    requires ManifestSound(m) && i < |m.tabs|
    requires TabWeights(WithSize(m, i, cols, rows).tabs) == TabWeights(m.tabs)
    ensures ManifestSound(WithSize(m, i, cols, rows)) <==> TabSound(m.tabs[i].(cols := cols, rows := rows))
  {
    hide TabSound, WeightsSound, TabWeights;
    var n := WithSize(m, i, cols, rows);
    assert forall j :: 0 <= j < |m.tabs| && j != i ==> n.tabs[j] == m.tabs[j];
    assert n.tabs[i] == m.tabs[i].(cols := cols, rows := rows);
  }

  // ----- What decoding may cost

  function BytesOf(ss: seq<bytes>): nat {
    if ss == [] then 0 else |ss[0]| + BytesOf(ss[1..])
  }

  function ArgsOf(p: Pane): seq<bytes> {
    if p.process.Some? then p.process.value.argv else []
  }

  /** Every string of a pane. */
  function PaneStrings(p: Pane): seq<bytes> {
    [p.id, p.stableId, p.cwd] + ArgsOf(p)
    + if p.process.Some? then [p.process.value.strategy, p.process.value.agentSession] else []
  }

  /** What a pane is charged: its slot, its strings, its sealed references and its arguments. */
  function PaneShare(p: Pane): nat {
    256 + 16 * |PaneStrings(p)| + BytesOf(PaneStrings(p)) + 48 * |p.sealedRefs| + 16 * |ArgsOf(p)|
  }

  function PaneShares(ps: seq<Pane>): nat {
    if ps == [] then 0 else PaneShare(ps[0]) + PaneShares(ps[1..])
  }

  /** What a tab is charged: its slot, its two strings, every node and node string, every pane. */
  function TabShare(t: Tab): nat {
    var nodes := Flat(Root(t), 0);
    128 + (16 * 2 + |t.stableId| + |t.focus|) + (128 * |nodes| + 16 * TextCount(nodes) + TextBytes(nodes))
    + PaneShares(t.panes)
  }

  function TabShares(ts: seq<Tab>): nat {
    if ts == [] then 0 else TabShare(ts[0]) + TabShares(ts[1..])
  }

  lemma {:induction false} StringsExactly(ss: seq<bytes>)
    ensures StringsCost(ss) == 16 * |ss| + BytesOf(ss)
  {
    if ss != [] {
      StringsExactly(ss[1..]);
    }
  }

  lemma {:induction false} BytesAppendExactly(ss: seq<bytes>, ts: seq<bytes>)
    ensures BytesOf(ss + ts) == BytesOf(ss) + BytesOf(ts)
  {
    if ss == [] {
      assert ss + ts == ts;
    } else {
      BytesAppendExactly(ss[1..], ts);
      assert (ss + ts)[1..] == ss[1..] + ts;
    }
  }

  lemma PaneCostExactly(p: Pane)
    ensures 256 + PaneCost(p) == PaneShare(p)
  {
    var own := [p.id, p.stableId, p.cwd];
    var tail := if p.process.Some? then [p.process.value.strategy, p.process.value.agentSession] else [];
    StringsExactly(ArgsOf(p));
    BytesAppendExactly(own, ArgsOf(p));
    BytesAppendExactly(own + ArgsOf(p), tail);
    ThreeBytes(p.id, p.stableId, p.cwd);
    if p.process.Some? {
      TwoBytes(tail[0], tail[1]);
    }
  }

  lemma TwoBytes(a: bytes, b: bytes)
    ensures BytesOf([a, b]) == |a| + |b|
  {
    assert [a, b][1..] == [b] && [b][1..] == [];
    assert BytesOf([b]) == |b| + BytesOf([]);
  }

  lemma ThreeBytes(a: bytes, b: bytes, c: bytes)
    ensures BytesOf([a, b, c]) == |a| + |b| + |c|
  {
    assert [a, b, c][1..] == [b, c];
    TwoBytes(b, c);
  }

  lemma {:induction false} PanesCostExactly(ps: seq<Pane>)
    ensures 256 * |ps| + PanesCost(ps) == PaneShares(ps)
  {
    hide PaneCost, PaneShare;
    if ps != [] {
      PaneCostExactly(ps[0]);
      PanesCostExactly(ps[1..]);
    }
  }

  lemma {:induction false} TabsCostExactly(ts: seq<Tab>)
    ensures 128 * |ts| + TabsCost(ts) == TabShares(ts)
  {
    hide Cost, PanesCost, PaneShares;
    if ts != [] {
      CostExactly(Root(ts[0]), 0);
      PanesCostExactly(ts[0].panes);
      TabsCostExactly(ts[1..]);
    }
  }

  /**
   Affordable means that no node lies more than 64 levels deep and that all the
   parts together are charged at most 256 MiB.
   */
  lemma AffordableExactly(m: Manifest)
    ensures Affordable(m) <==>
            && (forall i :: 0 <= i < |m.tabs| ==> NoDeeper(Flat(Root(m.tabs[i]), 0), 64))
            && 16 + |m.header.name| + TabShares(m.tabs) <= 268_435_456
  {
    hide HeightWithin, NoDeeper, TabsCost, TabShares;
    TabsCostExactly(m.tabs);
    forall i | 0 <= i < |m.tabs|
      ensures HeightWithin(Root(m.tabs[i]), MAX_DEPTH) <==> NoDeeper(Flat(Root(m.tabs[i]), 0), 64)
    {
      HeightExactly(Root(m.tabs[i]), 0, 64);
    }
  }
}
