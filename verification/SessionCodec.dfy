/**
 Restoring a session snapshot. Decoding is total here: `DecodeBody` may fail at
 every step, and `Unmarshal` shows that it does not once preflight accepted.
 */
module SessionCodec {
  import opened Wire
  import opened Payload
  import opened LayoutTree
  import opened Envelope
  import opened NodeCodec
  import opened SessionFormat
  import opened SessionPreflight
  import SessionRoundTrip
  import Layouts
  import ManifestFormat
  import ManifestCodec

  const MAGIC: bytes := [0x56, 0x45, 0x56, 0x53] // "VEVS"
  const VERSION: u16 := 5

  method ReadBlob(r: PayloadReader) returns (res: Outcome<bytes>)
    modifies r
    ensures Matches(GetBlob(old(r.b)), res, r.b)
  {
    hide GetU32;
    var n :- r.GetUint32();
    res := r.GetRaw(n);
  }

  method ReadPane(r: PayloadReader) returns (res: Outcome<Pane>)
    modifies r
    ensures Matches(GetPane(old(r.b)), res, r.b)
  {
    hide GetString, GetU32, GetBlob, ManifestFormat.GetProcess;
    var id :- r.GetStr();
    var stableId :- r.GetStr();
    var cwd :- r.GetStr();
    var n :- r.GetUint32();
    if n > MAX_OBJECTS || n > |r.b| / 4 {
      return Failure;
    }
    ghost var start := r.b;
    var chunks: seq<bytes> := [];
    AfterNothing(GetBlobs(r.b, n));
    for i := 0 to n
      invariant |chunks| == i
      invariant GetBlobs(start, n) == After(chunks, GetBlobs(r.b, n - i))
    {
      var chunk :- ReadBlob(r);
      AfterOneMore(chunks, chunk, GetBlobs(r.b, n - i - 1));
      chunks := chunks + [chunk];
    }
    AfterAll(chunks, r.b);
    var tail :- ReadBlob(r);
    var transcript :- ReadBlob(r);
    var process :- ManifestCodec.ReadProcess(r);
    return Success(Pane(id, stableId, cwd, chunks, tail, transcript, process));
  }

  method ReadTab(r: PayloadReader) returns (res: Outcome<Tab>)
    modifies r
    ensures Matches(GetTab(old(r.b)), res, r.b)
  {
    hide GetU16, GetU64, GetString, GetNode, GetPane;
    var stableId :- r.GetStr();
    var cols :- r.GetUint16();
    var rows :- r.GetUint16();
    var nextPane :- r.GetUint64();
    var focus :- r.GetStr();
    var root :- ReadNode(r);
    var n :- r.GetUint16();
    ghost var start := r.b;
    var panes: seq<Pane> := [];
    AfterNothing(GetPanes(r.b, n));
    for i := 0 to n
      invariant |panes| == i
      invariant GetPanes(start, n) == After(panes, GetPanes(r.b, n - i))
    {
      var pane :- ReadPane(r);
      AfterOneMore(panes, pane, GetPanes(r.b, n - i - 1));
      panes := panes + [pane];
    }
    AfterAll(panes, r.b);
    return Success(Tab(stableId, cols, rows, nextPane, focus, root, panes));
  }

  method ReadSession(r: PayloadReader) returns (res: Outcome<Session>)
    modifies r
    ensures Matches(GetSession(old(r.b)), res, r.b)
  {
    hide GetU16, GetU64, GetString, GetTab;
    var name :- r.GetStr();
    var createdAt :- r.GetUint64();
    var active :- r.GetUint16();
    var n :- r.GetUint16();
    if !ManifestFormat.ActiveValid(active, n) {
      return Failure;
    }
    ghost var start := r.b;
    var tabs: seq<Tab> := [];
    AfterNothing(GetTabs(r.b, n));
    for i := 0 to n
      invariant |tabs| == i
      invariant GetTabs(start, n) == After(tabs, GetTabs(r.b, n - i))
    {
      var tab :- ReadTab(r);
      AfterOneMore(tabs, tab, GetTabs(r.b, n - i - 1));
      tabs := tabs + [tab];
    }
    AfterAll(tabs, r.b);
    return Success(Session(name, createdAt, active, tabs));
  }

  /** Reading, the trailing-bytes check, the focus check and tree validation. */
  method DecodeBody(body: bytes) returns (res: Outcome<Session>)
    ensures res == match DecodeSession(body) case None => Failure case Some(s) => Success(s)
  {
    hide GetSession, TreeValid;
    var r := new PayloadReader(body);
    var s :- ReadSession(r);
    var ok := r.Done();
    if !ok {
      return Failure;
    }
    for i := 0 to |s.tabs|
      invariant forall j :: 0 <= j < i ==> TabResolves(s.tabs[j])
    {
      var tab := s.tabs[i];
      var ids := PaneIds(tab.panes);
      if tab.focus != [] && tab.focus !in ids {
        return Failure;
      }
      ok := ValidateTree(tab.root, ids);
      if !ok {
        return Failure;
      }
    }
    return Success(s);
  }

  /**
   Once the envelope and both preflight passes accept, nothing later fails, for
   any behaviour of the terminal library; and a session is restored only then.
   */
  method Unmarshal(crc: Checksum, lib: Library, encoded: bytes) returns (res: Outcome<Session>)
    ensures res.Success? <==>
              var body := Unsealed(crc, MAGIC, VERSION, encoded);
              && body.Some?
              && var p := GetSession(body.value);
              p.Parsed? && p.rest == [] && SessionStructured(lib, p.value) && TabsReferable(p.value.tabs, lib.blobOk)
    ensures res.Success? ==>
              && GetSession(Unsealed(crc, MAGIC, VERSION, encoded).value) == Parsed(res.value, [])
              && SessionResolves(res.value)
              && SessionRoundTrip.SessionFits(res.value)
              && |SessionRoundTrip.PutSession(res.value, [])| <= MAX_BODY
              && encoded == Sealed(crc, MAGIC, VERSION, SessionRoundTrip.PutSession(res.value, []))
              && |encoded| >= 16 && encoded[..8] == [0x56, 0x45, 0x56, 0x53, 0, 5, 0, 0]
  {
    hide SessionRoundTrip.SessionFits, SessionRoundTrip.PutSession, Sealed;
    hide Unsealed, GetSession, ChargeTabs, TabsStructured, TabsReferable, SessionResolves;
    var body := Unsealed(crc, MAGIC, VERSION, encoded);
    if body.None? {
      return Failure;
    }
    var ok := PreflightSession(body.value, lib);
    if !ok {
      return Failure;
    }
    SealedCanonical(crc, MAGIC, VERSION, encoded);
    Layouts.SealedLayout(crc, MAGIC, VERSION, body.value);
    SessionRoundTrip.SessionCanonical(body.value);
    PassesImplyResolution(GetSession(body.value).value, lib.blobOk);
    res := DecodeBody(body.value);
  }
}
