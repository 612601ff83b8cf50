# A verified model of vev

vev keeps terminal sessions alive: it snapshots them, keeps a catalogue of them
on disk, elects a broker to serve them and shows remote hosts. This project
models the parts where a mistake would lose or corrupt something, in Dafny, and
proves what they promise for every input, every run or every interleaving.

- **Snapshot manifests** (`Wire`, `Payload`, `LayoutTree`, `NodeCodec`,
  `Envelope`, `ManifestFormat`, `ManifestRoundTrip`, `ManifestPreflight`,
  `ManifestCodec`). The format is given once as printers and parsers; the
  imperative writers, readers, validators and the budgeted preflight are each
  proved against it. The preflight is exact, the round trip is exact, and the
  encoding is unique up to one named case. `TreeLaws`, `ManifestLaws` and
  `Layouts` say the same in plain numbers and plain bytes: which manifests are
  accepted, and where each field lies.
- **Session snapshots** (`SessionFormat`, `SessionPreflight`, `SessionCodec`).
  Two preflight passes with a 64-bit budget; once they accept, no later step of
  reading can fail. `SessionRoundTrip` inverts the reader, `SessionLaws` says in
  plain numbers which sessions are accepted.
- **Replay window** (`Words`, `StreamWindow`). A 1024-bit window over 64-bit
  words refines a set of consumed identities.
- **Key/value file** (`Ordering`, `KvCodec`, `Disk`, `KvStore`). Writing a
  temporary file, syncing, renaming and syncing the directory, where each call
  may fail with or without effect and a crash may come at any step.
- **Catalogue** (`Catalogue`, `RecordFormat`, `RecordCodec`, `PersistModel`,
  `Persister`, `HalfWritten`, `CatalogueRun`, `CatalogueHistory`, `Migration`).
  Batches, the incarnation index, the durability fence and format migration over
  that file, for whole runs. `CatalogueLaws` says which records, names and updates
  are accepted, down to the characters of their text.
- **Broker election** (`BrokerElection`, `BrokerReady`). Any number of callers,
  interleaved, crashing at any point, and the loop that each of them runs.
- **Smaller loops**: exact-size reading (`Inflate`), shell environment scripts
  (`ShellEnvironment`), latency evidence (`Evidence`), host health notices
  (`RemoteNotice`) and preview style capping (`PreviewStyles`).

Checksums, the VT library, rune classification and cell styles are parameters:
the theorems hold whatever they compute. System calls and locks answer
arbitrarily. Lists and maps that the program mutates are fields of classes;
each mutating method states its whole new state against a function of the old.

## Findings

- The round trip of a manifest and the uniqueness of its encoding have one
  exception each, both from weights that are all zero. Such an extension is
  dropped on writing (`AcceptedManifestRemarshals`, `RedundantExtensionIsAccepted`),
  and negative zeros come back as positive zero (`WeightsReadBackExactly`,
  `NegativeZeroComesBackPositive`).
- Incarnations stay unique in memory through every failure but one: a batch that
  moves an incarnation between its names, as a swap or a rename does, whose writes
  fail and whose restoring writes fail too (`UniqueThroughout`,
  `GoodWhateverFailsExactly`, `HandOverReachesDuplicate`, `SwapMayDuplicate`).
  The fence reports whether memory was restored; the file is never affected.
- Format 3 records do not always read back: validation looks at the tab records
  only, while reading format 3 checks the tab names. `RecordRoundTrip` gives the
  exact condition and `LegacyNameMayNotReadBack` an example.
- The key/value file truncates lengths to 32 bits, so it reads back exactly when
  counts and lengths fit (`FileRoundTrip`, `LongKeyDoesNotReadBack`).
- A successful sync that had nothing to write says that the file holds the table,
  not that the file survives a crash: a store opened after an interrupted sync can
  be clean over a rename whose directory entry was never synced
  (`CleanFileMayNotSurvive`, `CleanSyncMayLoseTheFile`). `SettledExactly` says when it
  does; from a settled start, which a first creation and any crash leave, it
  always does (`LastSyncedOrBeingWritten`).
- Two calls can both spawn a broker (`TwoCallsCanSpawn`). What holds is that they
  take turns (`SpawnersTakeTurns`), each with a reason of its own
  (`SpawnIsJustified`), and while that reason lasts another spawn can always follow
  (`AnotherSpawnCanFollow`).
- Latencies and gaps are 64-bit differences: exact and non-negative exactly when
  the true ones are below 2^63 (`LatencyExactly`, `LongWaitWraps`).
- `readExact` never grows from an initial size of zero (`GrowthReachesSize`); its
  caller passes a positive one.

## Model

| member | source | states |
|---|---|---|
| ManifestPreflight.PreflightManifest | internal/snapshotcodec/manifest_preflight.go:12-82 | for every byte string, accepts exactly when the decoder accepts it and the decoded trees are at most 64 high and cost at most 256 MiB; the budget never underflows and the 32-bit node counter never wraps |
| ManifestRoundTrip.MarshalledManifestIsReadBack | internal/snapshotcodec/manifest.go:130-173 | what marshalling produces is read back as the same manifest (a nil tree becoming an empty one, the tree focus becoming the tab focus, weights of an all-zero manifest becoming positive zero) exactly when it is affordable, and refused otherwise |
| ManifestRoundTrip.AcceptedManifestRemarshals | internal/snapshotcodec/manifest.go:303-354 | uniqueness of the encoding: re-marshalling accepted bytes always succeeds and gives the same bytes if and only if they carry no all-zero weight extension, which is otherwise exactly what is dropped |
| ManifestRoundTrip.RedundantExtensionIsAccepted | internal/snapshotcodec/manifest.go:384-452 | the exception exists: an empty manifest with an empty weight extension is accepted and marshals to other bytes |
| ManifestRoundTrip.WeightsReadBackExactly | internal/snapshotcodec/manifest.go:384-404 | weights come back bit for bit if and only if one of them is not a zero or none of them is a negative zero |
| ManifestRoundTrip.NegativeZeroComesBackPositive | internal/snapshotcodec/manifest.go:384-404 | a concrete manifest, one leaf of weight negative zero, that marshals and reads back with another weight |
| ManifestRoundTrip.AcceptanceBeforeWeights | internal/snapshotcodec/manifest.go:177-239 | deciding on the manifest before its weights are assigned gives the same verdict as deciding on the finished one |
| ManifestRoundTrip.DecodeBody | internal/snapshotcodec/manifest.go:177-239 | the decoder inverts the printer on every valid manifest that fits, weights included |
| ManifestRoundTrip.BodyReprints | internal/snapshotcodec/manifest.go:384-452 | the body of any accepted manifest prints back to itself, minus a redundant extension |
| ManifestRoundTrip.DecodedReprints | internal/snapshotcodec/manifest.go:177-239 | whatever decodes is valid, fits its length fields and reprints to the bytes it came from |
| ManifestRoundTrip.ExtensionRoundTrip | internal/snapshotcodec/manifest.go:384-452 | the weight extension is read back weight for weight, and its absence means all weights are zero |
| ManifestRoundTrip.ExtensionCanonical | internal/snapshotcodec/manifest.go:414-452 | an accepted weight extension can only be the tag, the count and the weights it stands for |
| ManifestRoundTrip.AssignTabsOwnWeights | internal/snapshotcodec/manifest.go:454-472 | pre-order pairing across all tabs: stripping weights and giving back the collected ones restores every tree |
| ManifestRoundTrip.WeightsOfAssignedTabs | internal/snapshotcodec/manifest.go:454-472 | collecting after assigning gives the assigned weights, and assigning changes nothing else |
| ManifestRoundTrip.TabRoundTrip | internal/snapshotcodec/manifest.go:505-541 | a written tab is read back whole, up to its weights, with nothing consumed beyond it |
| ManifestRoundTrip.TabCanonical | internal/snapshotcodec/manifest.go:505-541 | a readable tab has only one encoding |
| ManifestRoundTrip.PaneRoundTrip | internal/snapshotcodec/manifest.go:542-573 | a written pane is read back whole |
| ManifestRoundTrip.PaneCanonical | internal/snapshotcodec/manifest.go:542-573 | a readable pane has only one encoding |
| ManifestRoundTrip.ProcessRoundTrip | internal/snapshotcodec/codec.go:447-474 | an optional process, argv included, is read back as written |
| ManifestRoundTrip.ProcessCanonical | internal/snapshotcodec/codec.go:447-474 | a readable process has only one encoding |
| ManifestRoundTrip.RefRoundTrip | internal/snapshotcodec/manifest.go:574-601 | an object reference is read back as written |
| ManifestRoundTrip.RefCanonical | internal/snapshotcodec/manifest.go:574-601 | a readable object reference has only one encoding |
| ManifestRoundTrip.HeaderRoundTrip | internal/snapshotcodec/manifest.go:177-239 | generation, incarnation, optional parent checkpoint, name, creation time and active tab are read back as written |
| ManifestRoundTrip.HeaderCanonical | internal/snapshotcodec/manifest.go:177-239 | a readable header has only one encoding |
| ManifestRoundTrip.ReadBackValid | internal/snapshotcodec/manifest.go:603-651 | what is read back is valid and costs what the original costs |
| Envelope.SealedRoundTrip | internal/snapshotcodec/manifest.go:303-354 | opening a sealed body within the size limit gives that body, for any checksum function |
| Envelope.SealedCanonical | internal/snapshotcodec/manifest.go:326-354 | a body that opens can only have come from sealing it |
| LayoutTree.NodeRoundTrip | internal/snapshotcodec/codec.go:136-171 | a written tree of any shape is read back as itself without weights |
| LayoutTree.NodeCanonical | internal/snapshotcodec/codec.go:351-404 | a readable tree has only one encoding |
| LayoutTree.ShapeAndRefsAreValidity | internal/snapshotcodec/codec.go:491-529 | recursive validity splits into a shape that needs no pane list and references that all lie in it |
| LayoutTree.AssignOwnWeights | internal/snapshotcodec/manifest.go:454-472 | stripping a tree and assigning its own pre-order weights restores it |
| LayoutTree.WeightsOfAssigned | internal/snapshotcodec/manifest.go:454-472 | weights come back in the order they were assigned |
| LayoutTree.CountWithinCost | internal/snapshotcodec/manifest_preflight.go:185-240 | 128 bytes are charged per node, so the 256 MiB budget keeps the node count below 2^32 |
| LayoutTree.StripKeepsShape | internal/snapshotcodec/codec.go:491-529 | validity does not depend on weights |
| NodeCodec.WriteNode | internal/snapshotcodec/codec.go:136-158 | succeeds exactly when every string and child count fits 16 bits, and then appends the tree's encoding and nothing else |
| NodeCodec.WriteChildren | internal/snapshotcodec/codec.go:160-171 | the same for a child list |
| NodeCodec.ReadNode | internal/snapshotcodec/codec.go:351-388 | agrees with the grammar of trees on every input, both in the value and in the bytes left |
| NodeCodec.ReadChildren | internal/snapshotcodec/codec.go:390-404 | the same for a counted child list |
| NodeCodec.ValidateNode | internal/snapshotcodec/codec.go:498-529 | accepts exactly the trees whose leaves are declared panes, whose splits have a known direction and whose stacks expand a declared pane or none, with nothing empty inside |
| NodeCodec.ValidateTree | internal/snapshotcodec/codec.go:491-496 | additionally allows an empty root |
| NodeCodec.AllDeclared | internal/snapshotcodec/manifest_preflight.go:127-183 | accepts exactly when every collected reference is a declared pane |
| Payload.PayloadWriter.PutStr | internal/snapshotcodec/codec.go:97-134 | writes the length-prefixed string exactly when its length fits 16 bits |
| Payload.PayloadWriter.PutStrs | internal/snapshotcodec/codec.go:123-134 | writes a counted string list exactly when the count and every length fit |
| Payload.PayloadReader.GetStr | internal/snapshotcodec/codec.go:191-278 | agrees with the string grammar on every input |
| Payload.PayloadReader.GetUint32 | internal/snapshotcodec/codec.go:191-278 | reads four bytes big-endian or fails without them |
| Payload.PayloadReader.GetUint64 | internal/snapshotcodec/codec.go:191-278 | reads eight bytes big-endian or fails without them |
| Payload.StringRoundTrip | internal/snapshotcodec/codec.go:97-134 | a string that fits is read back as written |
| Payload.StringCanonical | internal/snapshotcodec/codec.go:191-278 | a readable string has only one encoding |
| Payload.StringItemsRoundTrip | internal/snapshotcodec/codec.go:123-134 | a list of strings is read back as written |
| ManifestPreflight.Budget.Add | internal/snapshotcodec/manifest_preflight.go:84-95 | charges exactly when the total stays within 256 MiB, otherwise leaves the budget alone |
| ManifestPreflight.PreflightString | internal/snapshotcodec/manifest_preflight.go:97-111 | accepts exactly the readable strings that are affordable, and charges their cost |
| ManifestPreflight.PreflightNode | internal/snapshotcodec/manifest_preflight.go:185-240 | accepts exactly the readable, well-shaped trees within depth and budget; collects every pane reference in order and counts and charges every node |
| ManifestPreflight.PreflightContainer | internal/snapshotcodec/manifest_preflight.go:185-240 | the same for a counted list of children |
| ManifestPreflight.PreflightChildren | internal/snapshotcodec/manifest_preflight.go:185-240 | the same for the children one after another |
| ManifestPreflight.PreflightRef | internal/snapshotcodec/manifest_preflight.go:281-287 | accepts exactly the readable object references of the wanted kind with a size in range and a non-zero digest |
| ManifestPreflight.IsZeroDigest | internal/snapshotcodec/manifest.go:683-690 | recognises exactly the all-zero digests |
| ManifestPreflight.PreflightProcess | internal/snapshotcodec/manifest_preflight.go:288-315 | accepts exactly the readable, affordable processes and charges argv |
| ManifestPreflight.PreflightPane | internal/snapshotcodec/manifest_preflight.go:246-279 | accepts exactly the panes that decode, validate and are affordable |
| ManifestPreflight.PreflightPanes | internal/snapshotcodec/manifest_preflight.go:127-183 | additionally requires pane identities to be non-empty and distinct, and returns the set of them |
| ManifestPreflight.PreflightTab | internal/snapshotcodec/manifest_preflight.go:127-183 | accepts exactly the tabs that decode, validate (focus and tree references declared) and are affordable |
| ManifestPreflight.PreflightTabs | internal/snapshotcodec/manifest_preflight.go:12-82 | carries the verdict, the charge and the node total over all tabs |
| ManifestPreflight.PreflightHeader | internal/snapshotcodec/manifest_preflight.go:12-82 | accepts exactly the readable, affordable headers |
| ManifestPreflight.ReadWeightExtension | internal/snapshotcodec/manifest.go:414-452 | accepts no extension, or exactly one with the wanted count of valid weights and nothing after it |
| ManifestCodec.Marshal | internal/snapshotcodec/manifest.go:130-162 | computes the specified encoding for every manifest, failing exactly when it is invalid or too large for a field |
| ManifestCodec.Unmarshal | internal/snapshotcodec/manifest.go:164-173 | computes the specified decoding for every byte string |
| ManifestCodec.Decode | internal/snapshotcodec/manifest.go:177-239 | the reader, the weight extension and validation together compute the decoding specification |
| ManifestCodec.WriteManifest | internal/snapshotcodec/manifest.go:130-162 | fails exactly when a length does not fit; otherwise writes the whole body |
| ManifestCodec.WriteTab | internal/snapshotcodec/manifest.go:356-383 | appends one tab exactly when its fields fit |
| ManifestCodec.WriteWeights | internal/snapshotcodec/manifest.go:384-404 | writes nothing for all-zero weights (negative zero included), otherwise tag, count and every weight's bits |
| ManifestCodec.WritePane | internal/snapshotcodec/manifest.go:478-498 | appends one pane exactly when its fields fit |
| ManifestCodec.WriteRef | internal/snapshotcodec/manifest.go:499-503 | appends one object reference |
| ManifestCodec.WriteProcess | internal/snapshotcodec/codec.go:173-189 | appends an optional process exactly when its strings fit |
| ManifestCodec.ReadTab | internal/snapshotcodec/manifest.go:505-541 | agrees with the tab grammar on every input |
| ManifestCodec.ReadPane | internal/snapshotcodec/manifest.go:542-573 | agrees with the pane grammar on every input |
| ManifestCodec.ReadRef | internal/snapshotcodec/manifest.go:574-601 | agrees with the reference grammar on every input |
| ManifestCodec.ReadProcess | internal/snapshotcodec/codec.go:447-474 | agrees with the process grammar on every input |
| ManifestCodec.ValidateManifest | internal/snapshotcodec/manifest.go:603-651 | accepts exactly the valid manifests |
| ManifestCodec.ValidateTab | internal/snapshotcodec/manifest.go:603-651 | accepts exactly the tabs with safe dimensions, distinct panes, a declared focus and a valid tree |
| ManifestCodec.ValidatePaneRefs | internal/snapshotcodec/manifest.go:655-665 | accepts exactly the panes all of whose references are valid for their role |
| ManifestCodec.ValidateRef | internal/snapshotcodec/manifest.go:666-675 | accepts exactly the references valid for the wanted role |
| SessionPreflight.PreflightSession | internal/snapshotcodec/preflight.go:11-16 | accepts exactly when the body parses to its end, is structurally sound within budget and all references resolve, for any behaviour of the VT blob library |
| SessionCodec.Unmarshal | internal/snapshotcodec/codec.go:44-95 | succeeds exactly when the envelope opens and both passes accept, and then gives the parsed session: after preflight no later step can fail; what is accepted is the sealed printing of the session it gives, and starts with VEVS, version 5 and two zero bytes |
| SessionFormat.PassesImplyResolution | internal/snapshotcodec/codec.go:476-529 | what both passes accept satisfies the focus check and tree validation that follow |
| SessionCodec.DecodeBody | internal/snapshotcodec/codec.go:71-95 | the reader, trailing-bytes check, focus check and tree validation compute the decoding specification |
| SessionPreflight.PreflightStructure | internal/snapshotcodec/preflight.go:18-56 | first pass: accepts exactly the bodies that parse to the end and whose structure fits depth, node and allocation limits |
| SessionPreflight.PreflightReferences | internal/snapshotcodec/preflight.go:291-312 | second pass: on every parsed body, accepts exactly when pane identities are distinct and every reference is declared |
| SessionPreflight.PreflightNodeStructure | internal/snapshotcodec/preflight.go:135-182 | accepts exactly the trees within depth and budget, consuming exactly their bytes |
| SessionPreflight.PreflightBlob | internal/snapshotcodec/preflight.go:233-258 | charges exactly what the blob library reports and consumes exactly the blob |
| SessionPreflight.PreflightPaneStructure | internal/snapshotcodec/preflight.go:184-231 | accepts exactly the measurable panes |
| SessionPreflight.PreflightTabStructure | internal/snapshotcodec/preflight.go:98-133 | accepts exactly the measurable tabs |
| SessionPreflight.PreflightProcess | internal/snapshotcodec/preflight.go:260-287 | skips exactly the readable processes |
| SessionPreflight.SkipString | internal/snapshotcodec/preflight.go:58-68 | skips exactly the readable strings |
| SessionPreflight.Budget.AddAllocation | internal/snapshotcodec/preflight.go:70-96 | charges exactly when the total stays within the limit |
| SessionPreflight.Budget.AddProduct | internal/snapshotcodec/preflight.go:70-96 | the product is charged exactly when the true product fits, so the 64-bit multiplication guard loses nothing |
| SessionPreflight.Budget.AddNode | internal/snapshotcodec/preflight.go:70-96 | counts and charges a node exactly when both limits allow it |
| SessionPreflight.PreflightNodeReferences | internal/snapshotcodec/preflight.go:413-453 | walks the same bytes as the reader and collects the references in order |
| SessionPreflight.PreflightTabReferences | internal/snapshotcodec/preflight.go:314-387 | on every parsed tab, accepts exactly when its panes are distinct and its references declared |
| SessionPreflight.ValidateBlob | internal/snapshotcodec/preflight.go:392-405 | accepts exactly the readable blobs the library accepts |
| SessionCodec.ReadSession | internal/snapshotcodec/codec.go:280-309 | agrees with the session grammar on every input |
| SessionCodec.ReadTab | internal/snapshotcodec/codec.go:311-349 | agrees with the tab grammar on every input |
| SessionCodec.ReadPane | internal/snapshotcodec/codec.go:406-445 | agrees with the pane grammar on every input |
| StreamWindow.BrokerStreamWindow.Admit | internal/ports/broker_stream_window.go:52-92 | for every reachable window the bitset and its base behave as a set of consumed identities: admitted exactly when non-zero, never consumed and trailing the highest by less than 1024 |
| StreamWindow.NoIdentityAdmittedTwice | internal/ports/broker_stream_window.go:18-36 | over any run, from any state, an identity admitted once is stale ever after |
| StreamWindow.CloseIdentitiesAllAdmitted | internal/ports/broker_stream_window.go:18-36 | distinct non-zero identities whose spread stays below 1024 are all admitted, in any order |
| StreamWindow.StaleStaysStale | internal/ports/broker_stream_window.go:18-36 | no run makes a stale identity admissible again |
| StreamWindow.BrokerStreamWindow.SetLocked | internal/ports/broker_stream_window.go:104-106 | sets one bit of the window and disturbs no other |
| StreamWindow.BrokerStreamWindow.ShiftLocked | internal/ports/broker_stream_window.go:110-132 | every bit moves down by the shift, across word boundaries, and the vacated top is clear |
| StreamWindow.WindowBase | internal/ports/broker_stream_window.go:96-101 | the base puts the highest identity inside the window and never below identity 1 |
| StreamWindow.RecordKeepsWellFormed | internal/ports/broker_stream_window.go:52-92 | consuming an identity keeps every consumed identity non-zero and at most the highest |
| Words.JoinedShift | internal/ports/broker_stream_window.go:110-132 | joining two shifted 64-bit words gives, bit for bit, the 128-bit right shift |
| Words.MaskTest | internal/ports/broker_stream_window.go:52-92 | testing against a one-bit mask reads that bit |
| Words.MaskSet | internal/ports/broker_stream_window.go:104-106 | or-ing a one-bit mask sets that bit and keeps the others |
| KvCodec.FileRoundTrip | pkg/kv/codec.go:23-99 | a table is read back as itself if and only if its counts and lengths fit 32 bits |
| KvCodec.LongKeyDoesNotReadBack | pkg/kv/codec.go:23-46 | a concrete table that does not read back: one key of 2^32 bytes |
| KvCodec.Encode | pkg/kv/codec.go:23-46 | writes the file of the table with its keys in sorted order |
| KvCodec.Decode | pkg/kv/codec.go:54-99 | computes the decoding of every byte string: magic, version, checksum, lengths, repeated keys and trailing bytes; a table is given only when the last four bytes are the checksum of the rest |
| KvCodec.DecodeEntries | pkg/kv/codec.go:54-99 | reads the entries as the grammar does and refuses a repeated key or trailing bytes |
| KvCodec.DecodeLength | pkg/kv/codec.go:101-110 | reads a 32-bit length exactly when four bytes are left |
| Ordering.SortKeys | pkg/kv/codec.go:23-46 | gives the one sorted sequence of a key set |
| KvStore.CrashDuringSyncIsAtomic | pkg/kv/kv.go:120-147 | from any sound disk, first creation and retries included, a crash at any step of a sync leaves what could have survived before it or the whole next table; from a settled one, the whole previous table or the whole next one |
| KvStore.CleanFileMayNotSurvive | pkg/kv/kv.go:120-147 | after a rename without the directory sync the file holds the new table and the old one can still survive a crash; after the directory sync it cannot |
| KvStore.CleanSyncMayLoseTheFile | pkg/kv/kv.go:28-118 | a store opened there syncs with success, unless a call fails, and the old file may still be all that a crash leaves |
| KvStore.Store.SyncLocked | pkg/kv/kv.go:120-147 | every disk state it passes through replaces the old file cleanly; success leaves the file holding memory, and when it wrote, only that file can survive a crash; it fails only if a call failed |
| KvStore.Store.Stage | pkg/kv/kv.go:120-147 | until the rename, only the temporary file is touched; success leaves it complete and synced |
| KvStore.Store.WriteAll | pkg/kv/kv.go:173-185 | short writes are resumed until every byte is in the temporary file |
| KvStore.Store.Open | pkg/kv/kv.go:28-56 | starts empty and durable without a file, gives the decoded table with one, leaves an unreadable file untouched, never opens a file whose last four bytes are not the checksum of the rest, and fails only for that or a failing call |
| KvStore.Store.Sync | pkg/kv/kv.go:111-118 | refused on a closed store; otherwise as the locked sync, keeping `not dirty implies the file holds memory` |
| KvStore.Store.Set | pkg/kv/kv.go:65-74 | changes one key of an open store and keeps the file invariant |
| KvStore.Store.Delete | pkg/kv/kv.go:76-87 | removes one key of an open store and keeps the file invariant |
| KvStore.Store.Entries | pkg/kv/kv.go:89-106 | iterates the keys in their one sorted order |
| KvStore.Store.Close | pkg/kv/kv.go:150-159 | syncs, cleanly replacing the file, and closes |
| RecordFormat.RecordRoundTrip | internal/persist/record.go:40-194 | an encodable record is read back as itself in formats 4 to 6, and in format 3 with tab records rebuilt from names, if and only if (format 3) every tab name is valid UTF-8 |
| RecordFormat.LegacyNameMayNotReadBack | internal/persist/record.go:40-194 | a concrete valid record whose format 3 bytes are refused on reading |
| RecordFormat.RecordCanonical | internal/persist/record.go:100-194 | decodable bytes re-encode, in their own format, to the same bytes |
| RecordCodec.EncodeForFormat | internal/persist/record.go:40-88 | computes the record encoding, failing exactly when the record is invalid or a length too large |
| RecordCodec.Decode | internal/persist/record.go:100-194 | computes the record decoding for every name and byte string |
| RecordCodec.AppendCheckedString | internal/persist/record.go:196-202 | appends exactly when the length fits 32 bits |
| RecordCodec.AppendRef | internal/persist/record.go:204-211 | appends an optional checkpoint reference |
| RecordCodec.ValueReader.Str | internal/persist/record.go:213-285 | agrees with the string grammar from the reader's offset |
| RecordCodec.ValueReader.Ref | internal/persist/record.go:213-285 | agrees with the reference grammar from the reader's offset |
| Catalogue.Validate | internal/domain/recovery.go:128-158 | accepts exactly the valid records |
| PersistModel.DuplicateCheckIsExact | internal/persist/persist.go:186-272 | a well-formed batch, swaps and renames included, passes the duplicate check against the index if and only if the whole resulting table has unique incarnations |
| PersistModel.UpdateKeepsIdentity | internal/domain/recovery.go:63-85 | one update changes neither incarnation, creation time, committed checkpoint nor degraded reason of any record, and leaves the bytes of the others |
| PersistModel.UpdateAsBatch | internal/persist/persist.go:356-395 | an update is a one-record batch that cannot create a duplicate |
| PersistModel.MigrationIsLossless | internal/persist/migration.go:26-68 | re-encoding a good table in the current format keeps every key and every decoded record and leaves nothing legacy |
| PersistModel.StampDecodes | internal/persist/record.go:34-38 | what is stored for a record decodes to that record in the current format |
| PersistModel.IndexImpliesUnique | internal/persist/persist.go:303-335 | owner and name maps that are mutual inverses of the decoded store rule out duplicates |
| Persister.Persister.ApplyLocked | internal/persist/persist.go:186-272 | refuses exactly the unacceptable batches and changes nothing; applied means exactly the batch; a durability error fences and comes of a call that failed in this very operation; every touched key then holds its old or its new value, and memory is exactly as before if the restoring writes succeeded; a durable success that had something to write leaves only the new file to survive a crash |
| Persister.Persister.Commit | internal/persist/persist.go:238-272 | after any store failure the fence is up, the index dropped and every touched key old or new; after success the index again matches the store and, if durable and with something to write, only the new file can survive a crash |
| Persister.Persister.WriteBatch | internal/persist/persist.go:238-258 | all the changes and, for a durable batch, the sync: the disk passes only through clean replacements, and success that had something to write, exactly said, leaves only the new file |
| Persister.Persister.CheckBatch | internal/persist/persist.go:186-237 | accepts exactly when the resulting whole table is free of duplicate incarnations |
| Persister.Persister.EnsureIndex | internal/persist/persist.go:303-335 | builds the index exactly when every record decodes and incarnations are unique, and then it matches the store |
| Persister.Persister.Prepare | internal/persist/persist.go:186-237 | encodes a batch in key order exactly when every record is valid, filed under its own name and encodable |
| Persister.Persister.CheckDuplicates | internal/persist/persist.go:186-237 | decides the duplicate check of the model |
| Persister.Persister.Restore | internal/persist/persist.go:281-291 | puts every touched key back as it was if all its writes succeed, and otherwise leaves each old or new; it fails only on a closed store or for a call that failed |
| Persister.Persister.Reindex | internal/persist/persist.go:238-272 | updates the index incrementally to match the table after the batch |
| Persister.Persister.Apply | internal/persist/persist.go:172-185 | as the locked form, durably; behind the fence nothing changes, in memory or on disk, and on a closed store not on disk |
| Persister.Persister.Create | internal/persist/persist.go:131-147 | refuses a stored name, otherwise a one-record batch; success leaves only the new file to survive a crash |
| Persister.Persister.UpdateMetadata | internal/persist/persist.go:356-395 | refuses exactly when the table is not good, the stored incarnation does not match or the updated record cannot be stored; when applied, the stored record decodes with each of the five fields as given or, where none was given, as before, and everything else as before; all or nothing whatever fails, never touches the disk and never changes the identity of a record |
| Persister.Persister.Sync | internal/persist/persist.go:398-414 | success means the file holds memory and, if the store was dirty, that nothing else can survive a crash; failure fences |
| Persister.Persister.Close | internal/persist/persist.go:437-450 | behind the fence the file is not written |
| CatalogueRun.RunAll | internal/persist/persist.go:131-450 | every run of operations, with arbitrary store failures, is a history: snapshots from the first state to the last, each joined to the next by the step relation of its operation and answer |
| CatalogueRun.Do | internal/persist/persist.go:336-350 | one operation is one step: what it answers, what it does to memory, how the disk got there, what a success leaves to survive, and that a fence has a cause; renames, replacements and deletions are batches |
| CatalogueHistory.UniqueThroughout | internal/persist/persist.go:186-335 | over every history no two stored records share an incarnation, past a fence too, unless a batch that hands an incarnation over was left half written |
| CatalogueHistory.FenceFreezes | internal/persist/persist.go:293-301 | from the first durability error on, no later operation, closing included, changes memory or the disk, and each but a rename to the same name reports that error |
| CatalogueHistory.FencedWasReported | internal/persist/persist.go:293-301 | a persister is fenced only by a durability error it has reported |
| CatalogueHistory.LastSyncedOrBeingWritten | internal/persist/persist.go:238-301 | the crash theorem: from a start where one file could survive, at every moment of every operation, whatever fails, a crash leaves the last synced table or the whole one being written |
| CatalogueHistory.FrozenLeavesOneOf | internal/persist/persist.go:293-450 | behind a fence or a close, failed or not, the disk stays for ever at the last synced table or the one that the last operation able to write was writing |
| CatalogueHistory.AcknowledgedSurvives | internal/persist/persist.go:238-272 | from any disk state, an acknowledged operation that wrote leaves its own table as all that a crash can leave |
| CatalogueHistory.SettledExactly | internal/persist/persist.go:398-414 | while it can write, only the last synced file can survive if and only if that was so at the start or some operation has written since |
| CatalogueHistory.MainIsLastSynced | internal/persist/persist.go:398-414 | while it can write, the main file is that of the last operation that wrote, or the one found at the start |
| CatalogueHistory.LastSyncedIs | internal/persist/persist.go:398-414 | which operation that was, with none that wrote after it |
| CatalogueHistory.CrashFinds | internal/persist/persist.go:80-128 | what is found after a crash is the last synced file or holds the table being written |
| CatalogueHistory.OnlyWholeTablesSurvive | internal/persist/persist.go:238-301 | from any sound disk, unsettled ones included, a crash leaves a file from before the history or a whole table that some operation in front of the fence wrote |
| CatalogueHistory.FilesGoodThroughout | internal/persist/persist.go:238-301 | every file a crash could leave at any moment is readable and free of duplicate incarnations, while what is written fits the format |
| CatalogueHistory.UpdatesKeepIdentity | internal/persist/persist.go:356-395 | between batches every record keeps incarnation, creation time, committed checkpoint and degraded reason, and one that no update names keeps its bytes, whatever fails and whether or not it was put back |
| CatalogueHistory.AppliedIsOnDisk | internal/persist/persist.go:398-414 | a successful operation other than a buffered update leaves the file holding memory, and nothing else to survive if and only if it wrote or that was so before |
| CatalogueHistory.FaultFreeRunIsTheFold | internal/persist/persist.go:131-418 | when no call fails and nothing follows a close, no operation is fenced, each is refused exactly when it should be, and memory is the plain composition of the rest |
| CatalogueHistory.FaultFreeRunIsOnDisk | internal/persist/persist.go:131-414 | and when such a run ends in a sync the file decodes to that composition and, from a settled start, is all that can survive |
| HalfWritten.GoodWhateverFailsExactly | internal/persist/persist.go:238-291 | when neither the writes nor the restoring writes succeed, memory is sure to stay free of duplicates if and only if the batch moves no incarnation from one of its names to another |
| HalfWritten.HandOverReachesDuplicate | internal/persist/persist.go:238-291 | every acceptable batch of that kind reaches a duplicate: its writes take effect, the sync fails, one restoring write succeeds and the others fail |
| HalfWritten.SwapMayDuplicate | internal/persist/persist.go:238-291 | a concrete table, an acceptable swap and failing calls after which one incarnation is there twice |
| HalfWritten.RenameHandsOver | internal/persist/persist.go:336-347 | every rename that keeps the incarnation is such a batch |
| Migration.LoadCatalogue | internal/persist/persist.go:421-436 | gives the sorted decoded records exactly when not fenced and the whole table is good |
| Migration.ValidateUnique | internal/persist/persist.go:467-479 | accepts exactly the lists with distinct incarnations |
| Migration.MigrateLegacyRecords | internal/persist/migration.go:26-68 | not needed exactly when every value is current; otherwise success leaves every value current and decoding to the record read before, and the disk passes only through clean replacements by the migrated table |
| Migration.AnyLegacy | internal/persist/migration.go:70-91 | finds a legacy value exactly when there is one |
| Migration.UpdatesFor | internal/persist/migration.go:26-68 | collects the batch that re-encodes the whole table |
| Migration.OpenOrCreate | internal/persist/persist.go:80-128 | gives a good, current, clean catalogue with the records of the file, leaves a file that does not decode untouched, fails only for that or a failing call, and passes only through clean replacements of the file found |
| Migration.CrashDuringOpenKeepsRecords | internal/persist/migration.go:26-68 | a crash while opening and migrating leaves the file found or one with the very same records |
| Migration.OpenTwice | internal/persist/persist.go:80-96 | opening, closing and opening again migrates nothing and gives the very same table, unless a call fails |
| BrokerElection.SpawnIsJustified | internal/app/broker_offline_status.go:264-356 | in every interleaving with crashes, each spawn comes after a probe that found the endpoint absent and a look that found the lifetime lock free, all under one unbroken hold of the election |
| BrokerElection.SpawnsAtMostOnce | internal/app/broker_offline_status.go:264-356 | no call spawns twice |
| BrokerElection.SpawnersTakeTurns | internal/app/broker_offline_status.go:264-356 | of two spawns the first caller had let the election go before the second |
| BrokerElection.TwoCallsCanSpawn | internal/app/broker_offline_status.go:264-356 | a concrete run in which two callers both spawn, so a single spawner is not promised across calls |
| BrokerElection.AnotherSpawnCanFollow | internal/app/broker_offline_status.go:264-356 | while the endpoint is absent and the lifetime lock free, every run extends to one more spawn, at the worst after the election holder crashes |
| BrokerElection.OnlyTheElectedInspect | internal/app/broker_offline_status.go:299-330 | only the election holder, before it has spawned, looks at the lifetime lock |
| BrokerElection.NoSpawnWhileReady | internal/app/broker_offline_status.go:264-356 | once a holder finds the endpoint ready and it stays ready, nobody spawns |
| BrokerElection.RunKeepsInv | internal/app/broker_offline_status.go:264-356 | in every reachable world exactly the caller that believes so holds the election lock |
| BrokerElection.CallersFollowTheirEvents | internal/app/broker_offline_status.go:264-356 | every caller of a run is a run of the automaton that the loop is proved to follow |
| BrokerReady.EnsureBrokerReady | internal/app/broker_offline_status.go:250-356 | terminates whatever its dependencies answer, within timeout/50ms + 5 passes, as one complete run of the automaton, releasing the lock; ready exactly when the last probe answered ready; not ready only when the deadline has passed or an answer ended the call (cancellation, a probe cut short or not absent, a failed election, look, spawn or wait), with nothing done after that answer; waits double from 5 to 50 ms, probes get the smaller of 2 s and the time left, no election is entered after the deadline |
| BrokerReady.Pass | internal/app/broker_offline_status.go:273-340 | one pass up to its wait is a path of the automaton, and reaches the wait only before the deadline; it connects only on a ready answer and fails only with a reason |
| BrokerReady.ElectAndSpawn | internal/app/broker_offline_status.go:299-340 | one pass of electing, reprobing, inspecting and spawning is a path of the automaton that fails only with a reason |
| BrokerReady.ElapsedClosedForm | internal/app/broker_offline_status.go:64-69 | the first k backoffs, each twice the last up to 50 ms, add up to 75 ms + 50(k-4) ms |
| BrokerReady.WaitsAreBounded | internal/app/broker_offline_status.go:271-355 | as many waits as fit before the deadline stay below the pass bound |
| Inflate.ReadExact | internal/snapshotcodec/object_compress.go:86-104 | succeeds exactly when the stream has the declared bytes, returns exactly those without slack, and allocates in total less than four times the initial size or what the stream produced, even for a false declared size |
| Inflate.GrowthReachesSize | internal/snapshotcodec/object_compress.go:86-104 | the doubling ever reaches the declared size if and only if it starts above zero or the size is zero |
| Inflate.Stream.ReadFull | internal/snapshotcodec/object_compress.go:86-104 | fills the rest of the buffer with the next bytes, or consumes what is left and fails |
| ShellEnvironment.ScriptReadsBack | internal/app/env.go:86-117 | reading the whole generated script by the shell's own quoting rules gives exactly the exports and unsets, in order, whatever the values contain |
| ShellEnvironment.ReadQuoted | internal/app/env.go:132-138 | a quoted value is read as that value, for sh and for fish |
| ShellEnvironment.ReadLine | internal/app/env.go:86-117 | each generated line is exactly one command |
| ShellEnvironment.WriteShellEnvironment | internal/app/env.go:86-117 | refuses exactly when some name is not an environment name; otherwise writes the lines in sorted order, which the shell reads back as exactly the requested changes |
| ShellEnvironment.IsEnvironmentName | internal/app/env.go:119-130 | accepts exactly a letter or underscore followed by letters, digits and underscores |
| Evidence.MeasuredEventSamples | cmd/vev-perf-harness/evidence.go:15-57 | succeeds exactly on a non-negative interval and a trace whose marks are readable and alternate, closed, per sequence number; gives a sorted permutation of exactly the samples injected and flushed within the interval, latencies in 64-bit arithmetic |
| Evidence.SamplesArePairs | cmd/vev-perf-harness/evidence.go:15-57 | each sequence number's samples are its own marks taken two by two: nothing paired across sequences, dropped or counted twice |
| Evidence.TrackIsWellPaired | cmd/vev-perf-harness/evidence.go:15-57 | reading marks one at a time with one open input accepts exactly the well-paired sequences |
| Evidence.PairedSamples | cmd/vev-perf-harness/evidence.go:98-131 | succeeds exactly on a well-formed trace with a flush and gives every latency in flush order |
| Evidence.LatencyExactly | cmd/vev-perf-harness/evidence.go:15-57 | of a well-formed trace, a latency is the true one, and non-negative, if and only if that is below 2^63 |
| Evidence.LongWaitWraps | cmd/vev-perf-harness/evidence.go:15-57 | a concrete well-formed trace whose latency wraps to -1 |
| Evidence.EventCadenceSamples | cmd/vev-perf-harness/evidence.go:74-88 | gaps add up to last minus first injection modulo 2^64, their maximum is found; for sorted samples each is non-negative exactly when the true gap is below 2^63, and all is exact when the whole span is |
| RemoteNotice.RecoveryFollowsFailure | internal/domain/remote_notice.go:54-70 | over any run of observations every recovery is preceded by an announced failure with only silence in between |
| RemoteNotice.FailureBetweenRecoveries | internal/domain/remote_notice.go:54-70 | between two recoveries a failure was announced |
| RemoteNotice.UnsettledChangesNothing | internal/domain/remote_notice.go:32-70 | deleting every unsettled observation leaves the notices unchanged |
| RemoteNotice.FailedExactlyWhenNew | internal/domain/remote_notice.go:54-64 | a failure is announced exactly when the last settled observation was not a failure of the same episode and class |
| RemoteNotice.RecoveredExactlyAfterFailure | internal/domain/remote_notice.go:54-70 | a recovery is announced exactly when a healthy host was last settled in a failure other than a missing daemon |
| RemoteNotice.RememberedIsLastSettled | internal/domain/remote_notice.go:32-58 | what is remembered is the last settled observation |
| PreviewStyles.CapStyles | internal/protocol/preview.go:191-219 | in place, glyphs kept: each cell keeps its style if that style survives and otherwise takes the default |
| PreviewStyles.UnchangedExactlyWhenFits | internal/protocol/preview.go:191-219 | lossless if and only if there are at most 1024 distinct styles |
| PreviewStyles.CappedFits | internal/protocol/preview.go:191-219 | afterwards there are at most 1024 distinct styles |
| PreviewStyles.KeptUsesEveryPlace | internal/protocol/preview.go:191-219 | when styles must go, exactly 1024 are allowed to stay |
| PreviewStyles.FirstComeFirstKept | internal/protocol/preview.go:191-219 | once a style is turned away only styles met before it survive |
| PreviewStyles.CappingTwiceIsCappingOnce | internal/protocol/preview.go:191-219 | capping is idempotent |
| PreviewStyles.CappingKeepsRunValid | internal/protocol/preview.go:170-189 | a displayable cell run stays displayable |
| PreviewStyles.StylesFit | internal/protocol/preview.go:132-138 | the count that leaves at the first style too many decides whether there are at most 1024 |
| BrokerReady.Elect | internal/app/broker_offline_status.go:299-336 | an election won is followed by another probe, and only an absent endpoint goes on to the lifetime lock; nothing fails without a reason |
| BrokerReady.InspectAndSpawn | internal/app/broker_offline_status.go:337-348 | a free lifetime lock is followed by a spawn before the pass goes on; nothing fails without a reason |
| BrokerReady.WaitsHaveAReason | internal/app/broker_offline_status.go:299-349 | every wait of every call comes right after a busy election, a busy lifetime lock, a spawn, or an absent endpoint after an earlier spawn of this call |
| BrokerReady.FreeIsFollowedBySpawn | internal/app/broker_offline_status.go:337-348 | in every call a free lifetime lock is followed by a spawn unless the call ends there |
| BrokerReady.Dependencies.Probe | internal/app/broker_offline_status.go:358-371 | a probe is given the smaller of two seconds and the time left, and none is made when no time is left |
| ManifestLaws.ValidityExactly | internal/snapshotcodec/manifest.go:603-687 | in plain numbers and without the shared predicates: valid exactly when generation, incarnation, name, parent, active index, dimensions, references, identities, focus, every tree node and every weight are each as required |
| ManifestLaws.MarshalsExactly | internal/snapshotcodec/manifest.go:130-160 | a manifest marshals exactly when it is sound, its lengths fit and its body is at most 256 MiB, and the bytes start with VEVM, version 5 and two zero bytes |
| ManifestLaws.FitsExactly | internal/snapshotcodec/manifest.go:356-503 | the lengths fit exactly when every string, list and child count is at most 65535 and every process has an argument |
| ManifestLaws.DecodedIsSound | internal/snapshotcodec/manifest.go:177-239 | whatever decodes is sound and fits, without naming the validator |
| ManifestLaws.ActiveExactly | internal/snapshotcodec/codec.go:476-489 | changing the active index of a manifest that marshals marshals again exactly when the index is below the number of tabs (0 without tabs), and an affordable one then reads back with that index |
| ManifestLaws.DimensionsExactly | internal/snapshotcodec/manifest.go:652-654 | changing the size of a tab of a manifest that marshals marshals again exactly when neither side is zero and the cells are at most 16,777,216 |
| ManifestLaws.WeightExactly | internal/snapshotcodec/manifest.go:474-476 | the bit test accepts exactly the finite IEEE 754 values that are not below zero, and finds a zero exactly when the value is zero |
| ManifestLaws.AffordableExactly | internal/snapshotcodec/manifest_preflight.go:12-315 | affordable exactly when the sum of what each string, node, reference, pane and tab takes is at most 256 MiB and no node is deeper than 64 |
| TreeLaws.ValidExactly | internal/snapshotcodec/codec.go:498-529 | the recursive tree validator accepts exactly when every node of the flattened tree is acceptable |
| TreeLaws.HeightExactly | internal/snapshotcodec/manifest_preflight.go:185-240 | a tree is within a height exactly when no node of the flattened tree lies deeper |
| TreeLaws.CostExactly | internal/snapshotcodec/manifest_preflight.go:185-240 | a tree costs 128 bytes a node, 16 a string and one a byte of text |
| TreeLaws.WeightsInPreOrder | internal/snapshotcodec/manifest.go:454-472 | weights are collected in the order in which the nodes are written |
| TreeLaws.WrittenInPreOrder | internal/snapshotcodec/codec.go:136-171 | a tree is written as the concatenation of its nodes in pre-order, each by its own bytes |
| Layouts.ManifestLayout | internal/snapshotcodec/manifest.go:130-160 | the body of a manifest byte for byte: every field in its place, the numbers in explicit big-endian, then WGT1, the node count and the weights |
| Layouts.TabPlain | internal/snapshotcodec/manifest.go:356-382 | a tab is its identity, columns, rows, next pane, focus, tree and counted panes, in this order |
| Layouts.PanePlain | internal/snapshotcodec/manifest.go:478-497 | a pane is its three strings, counted chunk references, tail, transcript and process, in this order |
| Layouts.HeaderPlain | internal/snapshotcodec/manifest.go:130-147 | a header is generation, incarnation, parent, name, creation time and active index, in this order |
| Layouts.SealedLayout | internal/snapshotcodec/manifest.go:303-314 | the envelope is magic, version, two zero bytes, length, checksum and body |
| Layouts.RecordBytes | internal/persist/record.go:40-88 | the stored bytes of a record: VEVC, 6 and every field in its place |
| SessionRoundTrip.SessionRoundTrip | internal/snapshotcodec/codec_encoder_test.go:31-113 | a session printed in the order of the encoder of the tests parses back as itself, whatever follows |
| SessionRoundTrip.SessionCanonical | internal/snapshotcodec/codec.go:280-309 | a session that parses prints back to the bytes it was read from, so each field is read from its own place |
| SessionRoundTrip.TabRoundTrip | internal/snapshotcodec/codec_encoder_test.go:52-79 | a printed tab parses back: columns, rows, next pane and the rest each as printed |
| SessionRoundTrip.TabCanonical | internal/snapshotcodec/codec.go:311-349 | a tab that parses prints back to its bytes |
| SessionRoundTrip.PaneRoundTrip | internal/snapshotcodec/codec_encoder_test.go:81-113 | a printed pane parses back with its chunks, tail, transcript and process |
| SessionRoundTrip.PaneCanonical | internal/snapshotcodec/codec.go:406-445 | a pane that parses prints back to its bytes |
| SessionLaws.AcceptanceExactly | internal/snapshotcodec/preflight.go:11-407 | in plain numbers and without the shared predicates: both passes accept a session exactly when dimensions, identities, focus, tree nodes, depths, blobs, objects, rows and charges are each within their limit |
| SessionLaws.ChargesExactly | internal/snapshotcodec/preflight.go:58-289 | the charge of a list of items, stopped at the first limit passed, succeeds exactly when the plain totals stay within their limits, and gives these totals |
| KvCodec.AcceptedFileIsWritten | pkg/kv/codec.go:23-99 | every accepted file is the writer's encoding of the table it gives, with the keys in some order |
| KvCodec.AcceptedTrailer | pkg/kv/codec.go:54-70 | an accepted file ends in the checksum of everything before it, in explicit big-endian |
| KvCodec.AcceptedPrefix | pkg/kv/codec.go:54-70 | and starts with the magic and version bytes |
| PersistModel.UpdateIsSeen | internal/persist/persist.go:356-395 | an update that is carried out is seen in the decoded record: each of the five fields as given or as before, all else as before |
| PersistModel.CompleteUpdateCopies | internal/domain/recovery.go:77-86 | the complete update of a record, carried out, leaves stored under its name that record with only the creation time, checkpoint and degraded reason of the one stored before |
| CatalogueHistory.UpdateIsRead | internal/persist/persist.go:356-395 | in any run, the values of an applied update are still read later, as long as no operation since creates, replaces, renames or deletes and none updates the same name |
| CatalogueHistory.AppliedMeans | internal/persist/persist.go:131-418 | in any run, an applied operation means for each name what it says: stored and decoding to the record given, gone, updated field by field, and every other name as before |
| CatalogueLaws.UpdatesExactly | internal/persist/persist.go:356-395 | an update is carried out exactly when the stored record has its incarnation and what the update makes of it is sound and fits |
| CatalogueLaws.AcceptableExactly | internal/persist/persist.go:186-232 | a batch is carried out exactly when it is not empty and well formed, the catalogue is good, and afterwards no two names, kept or written, would hold one incarnation |
| CatalogueLaws.StoredExactly | internal/domain/recovery.go:128-158 | a record can be stored exactly when incarnation, tab identities, tab names, degraded reason and checkpoint are each as required, and it fits |
| CatalogueLaws.WellFormedExactly | internal/persist/persist.go:186-215 | a batch is well formed exactly when each name is a session name and each record is that name's and can be stored |
| CatalogueLaws.Utf8Exactly | internal/domain/recovery.go:137-145 | text is valid exactly when it is the encoding of a list of Unicode scalar values, each in its shortest form |
| CatalogueLaws.PrintableExactly | internal/domain/lifecycle.go:195-203 | a stable identity is accepted exactly when none of its characters is a control or a space |
| CatalogueLaws.SessionNameExactly | internal/domain/session_name.go:8-22 | a name is accepted exactly when it is one to 64 letters, digits, dots, underscores and dashes starting with a letter or digit |
| Ordering.LessExactly | pkg/kv/codec.go:23-46 | the byte order is decided at the first difference, or by length when there is none |
| StreamWindow.AdmittedExactly | internal/ports/broker_stream_window.go:52-94 | over every run of requests, an identity is admitted exactly when it is not zero, was not admitted before and lies less than 1024 below the highest admitted |
| StreamWindow.ConsumedIsAdmitted | internal/ports/broker_stream_window.go:52-94 | what counts as consumed is exactly what was admitted |
| Evidence.WellPairedExactly | cmd/vev-perf-harness/evidence.go:15-57 | a trace is well paired exactly when in every sequence number an injection is followed by its flush before the next and none stays open |
| RemoteNotice.ClassesExactly | internal/domain/remote_notice.go:4-36 | which observations are failures, healthy or unsettled, case by case |
| ShellEnvironment.CommandsChangeExactly | internal/app/env.go:86-117 | executing the commands of a script sets every given variable to its value, removes every removed one and leaves the others |
| ShellEnvironment.NameExactly | internal/app/env.go:119-130 | a name is accepted exactly when it is not empty, every byte is a letter, digit or underscore and the first is no digit |

## Left out

- Error identities: an operation is modelled as accepting or refusing; which error value it returns is not.
- Mutexes and nil receivers: methods are atomic and objects exist.
- File locks, backup files and directory creation: their outcome is an arbitrary success or failure.
- CRC-32, SHA-256, zlib, the VT library, Unicode tables and the JSON decoding of an environment: parameters or decoded inputs.
- Leaf nodes that carry children and node kinds outside the four: the datatype excludes them; a split direction is a byte.
- Assignment of weights through pointers: trees are values, and assignment rebuilds them.
- CatalogueHistory.FilesGoodThroughout: asks that the tables written fit the 32-bit lengths of the format, because they do not read back otherwise.
- CatalogueHistory.FaultFreeRunIsOnDisk: asks for the same, for the same reason.
- Migration.OpenTwice: asks for the same, for the same reason.
- Migration.CrashDuringOpenKeepsRecords: asks for the same, for the same reason.
- CatalogueHistory.LastSyncedOrBeingWritten: asks for a disk on which only one file could survive at the start, because otherwise older files survive until the first write (`SettledExactly`); `OnlyWholeTablesSurvive` covers the other starts.
- SessionPreflight.PreflightReferences: says nothing about bodies that do not parse, because the first pass has already refused them.
- SessionPreflight.PreflightTabReferences: the same for one tab.
- A writer of sessions: the program has none; `SessionRoundTrip` prints in the order of the encoder that its tests use.
- Inflate.ReadExact: an initial size of zero with bytes to read is excluded, because the source then never returns (`GrowthReachesSize`).
- BrokerReady.EnsureBrokerReady: assumes that a completed wait advances the clock by at least its length, which is what the timer promises.
- Evidence.MeasuredEventSamples: ties in the sort may come in any order, as in the source.
- ShellEnvironment.ScriptReadsBack: the reader knows spaces, newlines, single quotes and backslashes (sections 2.2.1 and 2.2.2 of the POSIX Shell Command Language, and fish's two escapes), which is all the script uses; anything else is rejected.
- PreviewStyles.CapStyles: the rest of the preview validation (version, dimensions, identities) is flat and not modelled.
- Head and object envelopes of the snapshot codec: the same envelope with flat bodies.
- The directory-based spawn lock of `internal/app/spawn.go`: it is taken over by age, which promises nothing without timing assumptions.
- Flat request and reply validators, the daemon, client, SSH, QUIC and web transports, rendering and process launching.
