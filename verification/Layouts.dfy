/**
 Every durable format as the plain list of its bytes, field after field, and the
 proof that this is what the printers print: where each field lies on disk.
 */
module Layouts {
  import opened Wire
  import opened Payload
  import opened LayoutTree
  import opened TreeLaws
  import opened Envelope
  import opened ManifestFormat
  import Catalogue
  import KvCodec
  import RecordFormat

  // ----- Numbers and strings

  function BE2(v: u16): bytes {
    [v / 0x100, v % 0x100]
  }

  function BE4(v: u32): bytes {
    [v / 0x100_0000, v / 0x1_0000 % 0x100, v / 0x100 % 0x100, v % 0x100]
  }

  function BE8(v: u64): bytes {
    BE4(v / 0x1_0000_0000) + BE4(v % 0x1_0000_0000)
  }

  lemma BE2Plain(v: u16, k: bytes)
    ensures PutU16(v, k) == BE2(v) + k
  {
  }

  lemma BE4Plain(v: u32, k: bytes)
    ensures PutU32(v, k) == BE4(v) + k
  {
    hide PutU16;
    var hi, lo := v / 0x1_0000, v % 0x1_0000;
    BE2Plain(lo, k);
    BE2Plain(hi, PutU16(lo, k));
    FourBytes(v);
    assert BE4(v) + k == BE2(hi) + (BE2(lo) + k);
  }

  lemma FourBytes(v: u32)
    ensures var hi, lo := v / 0x1_0000, v % 0x1_0000;
            && hi / 0x100 == v / 0x100_0000 && hi % 0x100 == v / 0x1_0000 % 0x100
            && lo / 0x100 == v / 0x100 % 0x100 && lo % 0x100 == v % 0x100
  {
    var hi, lo := v / 0x1_0000, v % 0x1_0000;
    var a, b, c, d := hi / 0x100, hi % 0x100, lo / 0x100, lo % 0x100;
    assert v == 0x100 * (0x1_0000 * a + 0x100 * b + c) + d && 0 <= d < 0x100;
    assert v / 0x100 == 0x100 * hi + c && 0 <= c < 0x100;
    assert v == 0x100_0000 * a + (0x1_0000 * b + lo) && 0 <= 0x1_0000 * b + lo < 0x100_0000;
  }

  lemma BE8Plain(v: u64, k: bytes)
    ensures PutU64(v, k) == BE8(v) + k
  {
    hide PutU32, BE4;
    var hi, lo := v / 0x1_0000_0000, v % 0x1_0000_0000;
    BE4Plain(lo, k);
    BE4Plain(hi, PutU32(lo, k));
    BytesAppend(BE4(hi), BE4(lo), k);
  }

  function Strs(ss: seq<bytes>): bytes
    requires StringsFit(ss)
  {
    if ss == [] then [] else StringBytes(ss[0]) + Strs(ss[1..])
  }

  lemma {:induction false} StrsPlain(ss: seq<bytes>, k: bytes)
    requires StringsFit(ss)
    ensures PutStringItems(ss, k) == Strs(ss) + k
  {
    hide PutString, StringBytes;
    if ss == [] {
    } else {
      StrsPlain(ss[1..], k);
      StringPlain(ss[0], PutStringItems(ss[1..], k));
      BytesAppend(StringBytes(ss[0]), Strs(ss[1..]), k);
    }
  }

  // ----- The envelope

  /** Magic, version, two zero bytes, the length and the checksum of the body, the body. */
  lemma SealedLayout(crc: Checksum, magic: bytes, version: u16, body: bytes)
    requires |body| <= MAX_BODY
    ensures Sealed(crc, magic, version, body)
            == magic + (BE2(version) + ([0, 0] + (BE4(|body|) + (BE4(crc(body)) + body))))
  {
    hide PutU32, BE4;
    BE4Plain(crc(body), body);
    BE4Plain(|body|, PutU32(crc(body), body));
  }

  // ----- The manifest

  function RefLayout(r: ObjectRef): bytes {
    [r.kind] + (r.digest + BE4(r.size))
  }

  function RefsLayout(rs: seq<ObjectRef>): bytes {
    if rs == [] then [] else RefLayout(rs[0]) + RefsLayout(rs[1..])
  }

  function ProcessLayout(p: Option<Process>): bytes
    requires ProcessFits(p)
  {
    match p
    case None => [0]
    case Some(v) => [1] + (BE2(|v.argv|) + (Strs(v.argv) + (StringBytes(v.strategy) + StringBytes(v.agentSession))))
  }

  function PaneLayout(p: Pane): bytes
    requires PaneFits(p)
  {
    StringBytes(p.id) + (StringBytes(p.stableId) + (StringBytes(p.cwd) + (BE2(|p.sealedRefs|)
    + (RefsLayout(p.sealedRefs) + (RefLayout(p.tail) + (RefLayout(p.transcript) + ProcessLayout(p.process)))))))
  }

  function PanesLayout(ps: seq<Pane>): bytes
    requires PanesFit(ps)
  {
    if ps == [] then [] else PaneLayout(ps[0]) + PanesLayout(ps[1..])
  }

  function TreeLayout(n: Node): bytes
    requires NodeFits(n)
  {
    FlatFits(n, 0);
    BytesOfNodes(Flat(n, 0))
  }

  function TabLayout(t: Tab): bytes
    requires TabFits(t)
  {
    StringBytes(t.stableId) + (BE2(t.cols) + (BE2(t.rows) + (BE8(t.nextPane) + (StringBytes(t.focus)
    + (TreeLayout(Root(t)) + (BE2(|t.panes|) + PanesLayout(t.panes)))))))
  }

  function TabsLayout(ts: seq<Tab>): bytes
    requires TabsFit(ts)
  {
    if ts == [] then [] else TabLayout(ts[0]) + TabsLayout(ts[1..])
  }

  function ParentLayout(c: Option<Checkpoint>): bytes {
    match c
    case None => [0]
    case Some(v) => [1] + (BE8(v.generation) + v.digest)
  }

  function HeaderLayout(h: Header): bytes
    requires |h.name| <= 65535
  {
    BE8(h.generation) + (h.incarnation + (ParentLayout(h.parent)
    + (StringBytes(h.name) + (BE8(h.createdAt) + BE2(h.active)))))
  }

  function WeightsLayout(ws: seq<u64>): bytes {
    if ws == [] then [] else BE8(ws[0]) + WeightsLayout(ws[1..])
  }

  /** The extension: "WGT1", how many nodes there are, and the weight of each; nothing when all weights are zero. */
  function ExtensionLayout(m: Manifest): bytes
    requires ManifestFits(m)
  {
    if !HasWeights(m) then []
    else [0x57, 0x47, 0x54, 0x31] + (BE4(TabNodes(m.tabs)) + WeightsLayout(TabWeights(m.tabs)))
  }

  lemma RefPlain(r: ObjectRef, k: bytes)
    ensures PutRef(r, k) == RefLayout(r) + k
  {
    hide PutU32, BE4;
    BE4Plain(r.size, k);
    BytesAppend(r.digest, BE4(r.size), k);
    BytesAppend([r.kind], r.digest + BE4(r.size), k);
  }

  lemma {:induction false} RefsPlain(rs: seq<ObjectRef>, k: bytes)
    ensures PutRefs(rs, k) == RefsLayout(rs) + k
  {
    hide PutRef, RefLayout;
    if rs == [] {
    } else {
      RefsPlain(rs[1..], k);
      RefPlain(rs[0], PutRefs(rs[1..], k));
      BytesAppend(RefLayout(rs[0]), RefsLayout(rs[1..]), k);
    }
  }

  lemma ProcessPlain(p: Option<Process>, k: bytes)
    requires ProcessFits(p)
    ensures PutProcess(p, k) == ProcessLayout(p) + k
  {
    hide PutU16, PutString, PutStringItems, BE2, StringBytes, Strs;
    if p.Some? {
      var v := p.value;
      var k1 := PutString(v.agentSession, k);
      var k2 := PutString(v.strategy, k1);
      var k3 := PutStringItems(v.argv, k2);
      StringPlain(v.agentSession, k);
      StringPlain(v.strategy, k1);
      StrsPlain(v.argv, k2);
      BE2Plain(|v.argv|, k3);
      var d1 := StringBytes(v.strategy) + StringBytes(v.agentSession);
      BytesAppend(StringBytes(v.strategy), StringBytes(v.agentSession), k);
      BytesAppend(Strs(v.argv), d1, k);
      BytesAppend(BE2(|v.argv|), Strs(v.argv) + d1, k);
      BytesAppend([1], BE2(|v.argv|) + (Strs(v.argv) + d1), k);
    }
  }

  lemma PanePlain(p: Pane, k: bytes)
    requires PaneFits(p)
    ensures PutPane(p, k) == PaneLayout(p) + k
  {
    hide PutU16, PutString, PutRef, PutRefs, PutProcess, BE2, StringBytes, RefLayout, RefsLayout, ProcessLayout;
    var k1 := PutProcess(p.process, k);
    var k2 := PutRef(p.transcript, k1);
    var k3 := PutRef(p.tail, k2);
    var k4 := PutRefs(p.sealedRefs, k3);
    var k5 := PutU16(|p.sealedRefs|, k4);
    var k6 := PutString(p.cwd, k5);
    var k7 := PutString(p.stableId, k6);
    ProcessPlain(p.process, k);
    RefPlain(p.transcript, k1);
    RefPlain(p.tail, k2);
    RefsPlain(p.sealedRefs, k3);
    BE2Plain(|p.sealedRefs|, k4);
    StringPlain(p.cwd, k5);
    StringPlain(p.stableId, k6);
    StringPlain(p.id, k7);
    var d1 := ProcessLayout(p.process);
    var d2 := RefLayout(p.transcript) + d1;
    var d3 := RefLayout(p.tail) + d2;
    var d4 := RefsLayout(p.sealedRefs) + d3;
    var d5 := BE2(|p.sealedRefs|) + d4;
    var d6 := StringBytes(p.cwd) + d5;
    var d7 := StringBytes(p.stableId) + d6;
    BytesAppend(RefLayout(p.transcript), d1, k);
    BytesAppend(RefLayout(p.tail), d2, k);
    BytesAppend(RefsLayout(p.sealedRefs), d3, k);
    BytesAppend(BE2(|p.sealedRefs|), d4, k);
    BytesAppend(StringBytes(p.cwd), d5, k);
    BytesAppend(StringBytes(p.stableId), d6, k);
    BytesAppend(StringBytes(p.id), d7, k);
  }

  lemma {:induction false} PanesPlain(ps: seq<Pane>, k: bytes)
    requires PanesFit(ps)
    ensures PutPanes(ps, k) == PanesLayout(ps) + k
  {
    hide PutPane, PaneLayout;
    if ps == [] {
    } else {
      PanesPlain(ps[1..], k);
      PanePlain(ps[0], PutPanes(ps[1..], k));
      BytesAppend(PaneLayout(ps[0]), PanesLayout(ps[1..]), k);
    }
  }

  lemma TabPlain(t: Tab, k: bytes)
    requires TabFits(t)
    ensures PutTab(t, k) == TabLayout(t) + k
  {
    hide PutU16, PutU64, PutString, PutNode, PutPanes, BE2, BE8, StringBytes, TreeLayout, PanesLayout;
    var k1 := PutPanes(t.panes, k);
    var k2 := PutU16(|t.panes|, k1);
    var k3 := PutNode(Root(t), k2);
    var k4 := PutString(t.focus, k3);
    var k5 := PutU64(t.nextPane, k4);
    var k6 := PutU16(t.rows, k5);
    var k7 := PutU16(t.cols, k6);
    PanesPlain(t.panes, k);
    BE2Plain(|t.panes|, k1);
    TreePlain(Root(t), k2);
    StringPlain(t.focus, k3);
    BE8Plain(t.nextPane, k4);
    BE2Plain(t.rows, k5);
    BE2Plain(t.cols, k6);
    StringPlain(t.stableId, k7);
    var d1 := PanesLayout(t.panes);
    var d2 := BE2(|t.panes|) + d1;
    var d3 := TreeLayout(Root(t)) + d2;
    var d4 := StringBytes(t.focus) + d3;
    var d5 := BE8(t.nextPane) + d4;
    var d6 := BE2(t.rows) + d5;
    var d7 := BE2(t.cols) + d6;
    BytesAppend(BE2(|t.panes|), d1, k);
    BytesAppend(TreeLayout(Root(t)), d2, k);
    BytesAppend(StringBytes(t.focus), d3, k);
    BytesAppend(BE8(t.nextPane), d4, k);
    BytesAppend(BE2(t.rows), d5, k);
    BytesAppend(BE2(t.cols), d6, k);
    BytesAppend(StringBytes(t.stableId), d7, k);
  }

  lemma TreePlain(n: Node, k: bytes)
    requires NodeFits(n)
    ensures PutNode(n, k) == TreeLayout(n) + k
  {
    hide PutNode, BytesOfNodes;
    WrittenInPreOrder(n, 0, k);
  }

  lemma {:induction false} TabsPlain(ts: seq<Tab>, k: bytes)
    requires TabsFit(ts)
    ensures PutTabs(ts, k) == TabsLayout(ts) + k
  {
    hide PutTab, TabLayout;
    if ts == [] {
    } else {
      TabsPlain(ts[1..], k);
      TabPlain(ts[0], PutTabs(ts[1..], k));
      BytesAppend(TabLayout(ts[0]), TabsLayout(ts[1..]), k);
    }
  }

  lemma ParentPlain(c: Option<Checkpoint>, k: bytes)
    ensures PutParent(c, k) == ParentLayout(c) + k
  {
    hide PutU64, BE8;
    if c.Some? {
      BE8Plain(c.value.generation, c.value.digest + k);
      BytesAppend(BE8(c.value.generation), c.value.digest, k);
      BytesAppend([1], BE8(c.value.generation) + c.value.digest, k);
    }
  }

  lemma HeaderPlain(h: Header, k: bytes)
    requires |h.name| <= 65535
    ensures PutHeader(h, k) == HeaderLayout(h) + k
  {
    hide PutU16, PutU64, PutString, PutParent, BE2, BE8, StringBytes, ParentLayout;
    var k1 := PutU16(h.active, k);
    var k2 := PutU64(h.createdAt, k1);
    var k3 := PutString(h.name, k2);
    var k4 := PutParent(h.parent, k3);
    BE2Plain(h.active, k);
    BE8Plain(h.createdAt, k1);
    StringPlain(h.name, k2);
    ParentPlain(h.parent, k3);
    BE8Plain(h.generation, h.incarnation + k4);
    var d2 := BE8(h.createdAt) + BE2(h.active);
    var d3 := StringBytes(h.name) + d2;
    var d4 := ParentLayout(h.parent) + d3;
    BytesAppend(BE8(h.createdAt), BE2(h.active), k);
    BytesAppend(StringBytes(h.name), d2, k);
    BytesAppend(ParentLayout(h.parent), d3, k);
    BytesAppend(h.incarnation, d4, k);
    BytesAppend(BE8(h.generation), h.incarnation + d4, k);
  }

  lemma {:induction false} WeightsPlain(ws: seq<u64>)
    ensures PutWeights(ws) == WeightsLayout(ws)
  {
    hide PutU64, BE8;
    if ws == [] {
    } else {
      WeightsPlain(ws[1..]);
      BE8Plain(ws[0], PutWeights(ws[1..]));
    }
  }

  /** The body of a manifest, byte for byte. */
  lemma ManifestLayout(m: Manifest)
    requires ManifestFits(m)
    ensures ManifestBody(m) == HeaderLayout(m.header) + (BE2(|m.tabs|) + (TabsLayout(m.tabs) + ExtensionLayout(m)))
  {
    hide PutHeader, PutU16, PutTabs, PutU32, BE2, BE4, HeaderLayout, TabsLayout, PutWeights, WeightsLayout, HasWeights;
    var ext := WeightExtension(m);
    WeightsPlain(TabWeights(m.tabs));
    if HasWeights(m) {
      BE4Plain(TabNodes(m.tabs), PutWeights(TabWeights(m.tabs)));
    }
    assert ext == ExtensionLayout(m);
    TabsPlain(m.tabs, ext);
    BE2Plain(|m.tabs|, PutTabs(m.tabs, ext));
    HeaderPlain(m.header, PutU16(|m.tabs|, PutTabs(m.tabs, ext)));
  }

  // ----- The catalogue record

  function Str32(s: bytes): bytes
    requires |s| < 0x1_0000_0000
  {
    BE4(|s|) + s
  }

  lemma Str32Plain(s: bytes, k: bytes)
    requires |s| < 0x1_0000_0000
    ensures RecordFormat.PutString32(s, k) == Str32(s) + k
  {
    hide PutU32, BE4;
    BE4Plain(|s|, s + k);
    BytesAppend(BE4(|s|), s, k);
  }

  function NamesLayout(ss: seq<bytes>): bytes
    requires RecordFormat.NamesFit(ss)
  {
    if ss == [] then [] else Str32(ss[0]) + NamesLayout(ss[1..])
  }

  function TabRecordsLayout(ts: seq<Catalogue.TabRecord>): bytes
    requires RecordFormat.TabsFit(ts)
  {
    if ts == [] then [] else Str32(ts[0].stableId) + (Str32(ts[0].name) + TabRecordsLayout(ts[1..]))
  }

  /** Two's complement in eight bytes. */
  function Signed8(x: i64): bytes {
    BE8(if x < 0 then x + 0x1_0000_0000_0000_0000 else x)
  }

  /** A record in the current format: "VEVC", 6, and its fields in this order. */
  function RecordLayout(r: Catalogue.Record): bytes
    requires RecordFormat.RecordFits(r, 6)
  {
    [0x56, 0x45, 0x56, 0x43, 0, 6] + (r.incarnation + (Str32(r.cwd) + (Signed8(r.createdAt)
    + (Signed8(r.updatedAt) + (BE8(r.lastUsedSeq) + EndLayout(r))))))
  }

  lemma {:induction false} NamesPlain(ss: seq<bytes>, k: bytes)
    requires RecordFormat.NamesFit(ss)
    ensures RecordFormat.PutNames(ss, k) == NamesLayout(ss) + k
  {
    hide RecordFormat.PutString32, Str32;
    if ss == [] {
    } else {
      NamesPlain(ss[1..], k);
      Str32Plain(ss[0], RecordFormat.PutNames(ss[1..], k));
      BytesAppend(Str32(ss[0]), NamesLayout(ss[1..]), k);
    }
  }

  lemma {:induction false} TabRecordsPlain(ts: seq<Catalogue.TabRecord>, k: bytes)
    requires RecordFormat.TabsFit(ts)
    ensures RecordFormat.PutTabs(ts, k) == TabRecordsLayout(ts) + k
  {
    hide RecordFormat.PutString32, Str32;
    if ts == [] {
    } else {
      var rest := RecordFormat.PutTabs(ts[1..], k);
      TabRecordsPlain(ts[1..], k);
      Str32Plain(ts[0].name, rest);
      Str32Plain(ts[0].stableId, RecordFormat.PutString32(ts[0].name, rest));
      var d := TabRecordsLayout(ts[1..]);
      BytesAppend(Str32(ts[0].name), d, k);
      BytesAppend(Str32(ts[0].stableId), Str32(ts[0].name) + d, k);
    }
  }

  /** Everything after the times and the use count of a record. */
  function EndLayout(r: Catalogue.Record): bytes
    requires RecordFormat.RecordFits(r, 6)
  {
    BE4(|r.tabNames|) + (NamesLayout(r.tabNames) + (BE4(|r.tabs|) + (TabRecordsLayout(r.tabs)
    + (ParentLayout(r.committed) + Str32(r.degradedReason)))))
  }

  lemma EndPlain(r: Catalogue.Record)
    requires RecordFormat.RecordFits(r, 6)
    ensures PutU32(|r.tabNames|, RecordFormat.PutNames(r.tabNames, PutU32(|r.tabs|, RecordFormat.PutTabs(r.tabs,
              PutParent(r.committed, RecordFormat.PutString32(r.degradedReason, [])))))) == EndLayout(r)
  {
    hide RecordFormat.PutString32, RecordFormat.PutNames, RecordFormat.PutTabs, PutParent, PutU32;
    hide Str32, NamesLayout, TabRecordsLayout, ParentLayout, BE4;
    var k1 := RecordFormat.PutString32(r.degradedReason, []);
    var k2 := PutParent(r.committed, k1);
    var k3 := RecordFormat.PutTabs(r.tabs, k2);
    var k4 := PutU32(|r.tabs|, k3);
    Str32Plain(r.degradedReason, []);
    assert Str32(r.degradedReason) + [] == Str32(r.degradedReason);
    ParentPlain(r.committed, k1);
    TabRecordsPlain(r.tabs, k2);
    BE4Plain(|r.tabs|, k3);
    NamesPlain(r.tabNames, k4);
    BE4Plain(|r.tabNames|, RecordFormat.PutNames(r.tabNames, k4));
  }

  /** What is stored for a record, byte for byte. */
  lemma RecordBytes(r: Catalogue.Record)
    requires RecordFormat.EncodeRecord(r, RecordFormat.CURRENT, 0).Some?
    ensures RecordFormat.RecordFits(r, 6)
    ensures RecordFormat.EncodeRecord(r, RecordFormat.CURRENT, 0) == Some(RecordLayout(r))
  {
    hide RecordFormat.PutString32, RecordFormat.PutNames, RecordFormat.PutTabs, PutParent, PutU32, PutU64;
    hide Str32, EndLayout, BE4, BE8, Catalogue.ValidRecord;
    var end := EndLayout(r);
    var k1 := PutU64(r.lastUsedSeq, end);
    var k2 := PutU64(RecordFormat.ToU64(r.updatedAt), k1);
    var k3 := PutU64(RecordFormat.ToU64(r.createdAt), k2);
    var k4 := RecordFormat.PutString32(r.cwd, k3);
    EndPlain(r);
    BE8Plain(r.lastUsedSeq, end);
    BE8Plain(RecordFormat.ToU64(r.updatedAt), k1);
    BE8Plain(RecordFormat.ToU64(r.createdAt), k2);
    Str32Plain(r.cwd, k3);
    BE2Plain(6, r.incarnation + k4);
    assert [0x56, 0x45, 0x56, 0x43] + (BE2(6) + (r.incarnation + k4))
        == [0x56, 0x45, 0x56, 0x43, 0, 6] + (r.incarnation + k4);
  }
}
