# Bellatrix: models and proofs

This project models the logic of Bellatrix's hardest components in Dafny and
proves what they are meant to guarantee. It is the big-endian (m68k) build that
is modelled. `dafny verify dfyconfig.toml` checks everything.

Each component has the same shape: a specification (pure functions on values),
lemmas that say what the specification *means*, and, where the source updates
buffers, tables or objects in place, methods and classes that do the same and
are proved against the specification.

1. **VC4 command-list compiler.** `Packets`, `BinList`, `BinMeaning`,
   `BinSizing`, `BinExec` rewrite the binner list: packets are read with
   host-order fields and written little-endian, and the two readings are proved
   to mean the same; `HandleMeaning` says which buffer a draw reads and
   `DrawMeaning` which vertices it asks for. `QpuScan` finds texture samples and
   uniform streams in shader code, `QpuTrace` says what they are. `VertexSwap`,
   `ShaderRecs`, `RecordMeaning`, `RecordLayout`, `RecordSizing`, `AttrPrescan`,
   `ShaderExec`, `NarrowRecord` relocate shader records, uniforms and vertex
   attributes. `RenderList`, `RenderExec`, `BuildRcl` generate the render list;
   `RenderMeaning` and `RenderData` interpret it as the hardware would, one for
   tiles, waits and the end of the frame, one for what is loaded and stored.
   `SubmitLayout`, `Submission` and `SubmissionMeaning` put the passes together:
   sizes predicted by one pass are what the next one uses, and addresses
   announced by one are where another one writes. `ShortDraws` holds two
   submissions that are accepted and short of vertices.
2. **V3D job pipeline, buffer lifetime, overlay ring.** `Pipeline`,
   `PipelineRuns` are a step system of submitting task, waiting tasks, service
   task and GPU; `PipelineExec` is the driver on registers, whose waits and
   submissions are legal runs whatever the GPU does meanwhile. `BoTable`,
   `BoRuns`, `BoPins`, `BoExec` are reference counts, pins and memory
   accounting, and `BoWindow` takes creation apart where it releases the table lock.
   `OverlayRing`, `OverlayExec` are the windowed zero-copy present.
3. **Chipset clock and console rings.** `Clock`; `Console`, `ConsoleRuns`,
   `ConsoleLines`, `ConsoleExec` (four producers and one drainer, interleaved
   at single loads, byte copies and stores).
4. **Two parsers of one flattened devicetree** (Devicetree Specification,
   section 5.4). `Fdt` has the flattener as the specification and the tree
   builder; `FdtScan`, `FdtLookup` the depth-tracking scan and its agreement
   with lookup in the built tree; `FdtExec` the walkers.
5. **Boot image and 2D DMA.** `BootImage`, `BootPaint`; `Dma`, `DmaGet`.
6. **Machine map and command line.** `Regions`, `MachineMap`; `CmdLine`.

## Where the code does less than one would expect

Each of these is a result here: a lemma gives the input or the run that fails,
and another one says when the code does what is meant.

- A render list can be kicked before its own bin list has finished, when the
  drain loop leaves an old FLDONE latched (`PipelineRuns.EarlyKick`); exactly
  then (`ImmediateServiceKicks`, `KickAfterBin`). The semaphore packet still
  keeps rendering behind binning (`RenderAfterBin`).
- `bo_alloc_handle` never tries `bo_next_handle` itself, so 0 does not mean that
  the table is full (`BoRuns.SearchMissesFreeHandle`, `BoTable.FreeHandleExactly`).
- While a creation waits for pool memory to be given back, the table lock is
  released and the handle it has chosen is not marked; the search can come round
  to it and give it out again (`BoWindow.GivenTwice`). Counts stay exact if and
  only if that does not happen (`BoWindow.RunKeepsExactly`, `FreeHandleIs`).
- Releasing all buffers leaves the attribute pool buffers allocated
  (`BoRuns.ReleaseLeavesAttr`).
- A line on the console is cut when a core nearer to the preferred one, in scan
  order, than the core being sent has something by the time the drainer looks at
  it (`ConsoleLines.NextByteExactly`, `CutExactly`, and a run in `CutHappens`);
  publishes from behind leave lines whole (`LinesUncut`).
- A vertex stride below the whole words of the attribute makes the in-place
  swap overlap (`VertexSwap.ReadsExactly`, `NarrowRecord.NarrowIsLost`, and a
  record in `NarrowHappens`).
- An array draw whose `first + count` passes 2^32 is accepted with a maximum
  below what it asks for, and a record whose largest index is 2^32 - 1 has no
  vertex copied (`ShortDraws.WrappingHappens`, `FullHappens`). All vertices of a
  draw are copied if and only if neither is the case (`SubmissionMeaning.DrawnCopied`).
- A surface with bit 3 set in its address ends the frame early
  (`RenderMeaning.FrameEndsExactly`, and a frame in `SkewedEndsEarly`). That the
  V3D honours bit 3 of a general load as it does that of a store is assumed: the
  constant is named for both (vc4_drm_aros.c:211), but the driver sets it on
  stores only.
- Branch targets of different tiles coincide when the binned row is narrower
  than the rectangle (`SubmitLayout.TargetsDistinctExactly`).
- The exec buffer sections overlap when their total wraps 32 bits
  (`SubmitLayout.LayoutSoundExactly`).
- `vc4_dma_get` admits a row of 65536 bytes, which the 16-bit length field loses
  (`Dma.OneRowExactly`); it then delivers what the bounce buffer held (`DmaGet.Get`).
- A region that does not end below 2^32 passes the overlap test against itself
  (`Regions.OverlapsTrueExactly`, `SharedExactly`).
- The service task goes on servicing while a list is pending, but a kick deferred
  because CT1 was busy is never retried by servicing alone, since its FLDONE has
  been acknowledged; a poll has to do it (`PipelineRuns.DeferredKickNeedsPoll`,
  and a run in `DeferredHappens`).
- A binner list of nothing but GEM_HANDLES packets is refused, although each of
  its packets is accepted (`BinSizing.ListAcceptedExactly`).

## Model

| member | source | states |
|---|---|---|
| `Packets.DecodeEncode` | aros/arch/m68k-emu68/hidd/vc4gallium/vc4_drm_aros.c:161-201 | A packet written with little-endian fields is read back unchanged, and its size is the one the size table gives for its first byte |
| `Packets.WalkEncodeAll` | aros/arch/m68k-emu68/hidd/vc4gallium/vc4_drm_aros.c:161-201 | Walking a sequence of written packets by the size table alone finds exactly those packets, in order |
| `BinList.PatchedAddress` | aros/arch/m68k-emu68/hidd/vc4gallium/vc4_drm_aros.c:1596-1623 | Or-ing the low four bits into the record address never collides: the result is the sum, and its low nibble is the flag nibble |
| `BinList.PatchFlags` | aros/arch/m68k-emu68/hidd/vc4gallium/vc4_drm_aros.c:1807-1814 | Bit 2 of the configuration flags is set, bits 3 and 4 are clear, bits 5 and 6 hold 2, the others are the packet's |
| `BinMeaning.RewriteKeepsMeaning` | aros/arch/m68k-emu68/hidd/vc4gallium/vc4_drm_aros.c:1508-1830 | For every accepted list the output, walked little-endian, is the input packets in order without GEM_HANDLES, each with the same meaning: equal fields, handles replaced by bus addresses, 16-bit indices swapped into scratch (and the maximum covering every index), shader states pointing at their record, the binning configuration carrying our addresses |
| `Buffers.ResolveExactly` | aros/arch/m68k-emu68/hidd/vc4gallium/vc4_drm_aros.c:516-536 | Index i names a buffer if and only if i is inside the list, its entry is a handle from 1 to 1023 and that table entry is live; the buffer is that table entry, its bus address is the entry's, and 0 otherwise |
| `HandleMeaning.DrawReadsNamed` | aros/arch/m68k-emu68/hidd/vc4gallium/vc4_drm_aros.c:1565-1707 | The draw behind GEM_HANDLES(i, _) of an accepted list reads table[list[i]]: an 8-bit draw gets its bus address plus the draw's offset, a 16-bit draw the address of scratch bytes that are its index bytes, the two of every index exchanged |
| `BinMeaning.StepMeaning` | aros/arch/m68k-emu68/hidd/vc4gallium/vc4_drm_aros.c:1565-1822 | The same for one packet, and its meaning still holds after every later packet has used more scratch and slots |
| `BinMeaning.MaxIndexBounds` | aros/arch/m68k-emu68/hidd/vc4gallium/vc4_drm_aros.c:1680-1697 | The largest index found while swapping bounds every index of the draw and is one of them |
| `BinSizing.OutputLength` | aros/arch/m68k-emu68/hidd/vc4gallium/vc4_drm_aros.c:1544-1586 | Output length + 9 * (GEM_HANDLES seen) = input length, so no destination check can fire |
| `BinSizing.AcceptedExactly` | aros/arch/m68k-emu68/hidd/vc4gallium/vc4_drm_aros.c:1544-1707 | With scratch sized by the index need, the packet loop accepts a list if and only if its packets parse and every 16-bit index range resolves and lies inside its buffer |
| `BinSizing.ListAcceptedExactly` | aros/arch/m68k-emu68/hidd/vc4gallium/vc4_drm_aros.c:1544-1830 | So a list that is not empty is accepted if and only if besides some packet is not GEM_HANDLES: otherwise nothing is emitted and the length 0 counts as a refusal |
| `BinSizing.ShaderStatesBounded` | aros/arch/m68k-emu68/hidd/vc4gallium/vc4_drm_aros.c:2679-2700 | Five bytes of list for each GL_SHADER_STATE, so the count stays below `need` and the two halves of the scratch array never overlap |
| `BinSizing.IndexScratchPredicted` | aros/arch/m68k-emu68/hidd/vc4gallium/vc4_drm_aros.c:2539-2577 | The index scratch used by the rewriting pass is exactly what the prescan computed |
| `BinSizing.PrescanIsNeed` | aros/arch/m68k-emu68/hidd/vc4gallium/vc4_drm_aros.c:2539-2577 | The prescan's total is the sum over 16-bit draws of their word-aligned index bytes |
| `BinSizing.TilesWithinScan` | aros/arch/m68k-emu68/hidd/vc4gallium/vc4_drm_aros.c:2539-2577 | The tile counts left by the rewriting pass never exceed the ones the prescan sized the tile buffers for |
| `BinSizing.TilesOfLast` | aros/arch/m68k-emu68/hidd/vc4gallium/vc4_drm_aros.c:1792-1797 | The tile counts the pass leaves are those of the last configuration of the list, the given ones if there is none |
| `BinSizing.ScanTilesExactly` | aros/arch/m68k-emu68/hidd/vc4gallium/vc4_drm_aros.c:2539-2577 | The prescan finds the largest tile counts of any configuration and the given ones |
| `BinSizing.DrawRangesDisjoint` | aros/arch/m68k-emu68/hidd/vc4gallium/vc4_drm_aros.c:1648-1707 | The scratch ranges of different draws are disjoint and inside the total |
| `BinSizing.PrescanList` | aros/arch/m68k-emu68/hidd/vc4gallium/vc4_drm_aros.c:2539-2577 | The prescan loop computes its specification, the overflow refusals included |
| `BinExec.Exec.ProcessBinCl` | aros/arch/m68k-emu68/hidd/vc4gallium/vc4_drm_aros.c:1508-1830 | The in-place pass returns 0 exactly when the list is refused, comes out empty, or is empty with no room for the 19-byte list without draws; otherwise the output buffer holds exactly the encoding of the specified packets and the fields the specified state |
| `BinExec.Exec.RewritePacket` | aros/arch/m68k-emu68/hidd/vc4gallium/vc4_drm_aros.c:1561-1822 | One turn of the switch does the specified step; the room and slot checks are dead |
| `BinExec.SwapIndices` | aros/arch/m68k-emu68/hidd/vc4gallium/vc4_drm_aros.c:1680-1697 | Writes the byte-swapped indices and nothing else, and returns the maximum |
| `QpuTrace.ScanFollows` | aros/arch/m68k-emu68/hidd/vc4gallium/vc4_drm_aros.c:626-753 | Against the trace of a shader's effects, read from literal instruction bits: uniforms_size is four bytes a word taken; the samples are the first 32 submissions, each with the offsets, in order, of the words taken before its first four writes, direct when it has no parameters; uniform_addr_offsets are the words taken before the first 16 UNIFORMS_ADDRESS writes |
| `QpuTrace.PendingExactly` | aros/arch/m68k-emu68/hidd/vc4gallium/vc4_drm_aros.c:690-738 | The writes of a submission are exactly those to its unit since the last submission to it, in order |
| `QpuTrace.SampleOffsets` | aros/arch/m68k-emu68/hidd/vc4gallium/vc4_drm_aros.c:626-753 | Every sample has one to four offsets, a direct one exactly one; offsets are whole words of the stream, and rise in a sample with parameters |
| `QpuTrace.SampleOffsetsDistinct` | aros/arch/m68k-emu68/hidd/vc4gallium/vc4_drm_aros.c:626-753 | Offsets of different samples with parameters are different |
| `QpuScan.ScanPort` | aros/arch/m68k-emu68/hidd/vc4gallium/vc4_drm_aros.c:666-738 | The per-port branch, updating the TMU array in place, does the specified write, within the table limits |
| `QpuScan.ScanShader` | aros/arch/m68k-emu68/hidd/vc4gallium/vc4_drm_aros.c:626-753 | The instruction loop computes the specified scan; the tables never overflow their limits |
| `ShaderRecs.UntouchedWord` | aros/arch/m68k-emu68/hidd/vc4gallium/vc4_drm_aros.c:1962-2034 | A uniform word that is neither a texture P0 slot nor a UNIFORMS_ADDRESS slot is the source word |
| `ShaderRecs.TextureWord` | aros/arch/m68k-emu68/hidd/vc4gallium/vc4_drm_aros.c:1978-2022 | The P0 slot of a sample is the source word plus the bus address of its texture, the last sample naming a slot deciding |
| `ShaderRecs.AddressWord` | aros/arch/m68k-emu68/hidd/vc4gallium/vc4_drm_aros.c:2024-2033 | Every UNIFORMS_ADDRESS slot holds the bus address of its own stream |
| `ShaderExec.SerializedWord` | aros/arch/m68k-emu68/hidd/vc4gallium/vc4_drm_aros.c:1454-1461 | The d-th word of a written stream is read back little-endian |
| `ShaderExec.WriteStream` | aros/arch/m68k-emu68/hidd/vc4gallium/vc4_drm_aros.c:1962-2034 | Patching the stream in place in the uniform section gives the specified words, at its position, and touches nothing else |
| `ShaderExec.CopyVertices` | aros/arch/m68k-emu68/hidd/vc4gallium/vc4_drm_aros.c:2085-2098 | The copy and in-place swap of a range of vertices leaves the scratch as specified, for every stride |
| `ShaderExec.RelocExec.Relocate` | aros/arch/m68k-emu68/hidd/vc4gallium/vc4_drm_aros.c:1859-2117 | The in-place pass over records, uniforms and attributes succeeds exactly when the specification does, for any strides; then all three buffers hold the specified records, streams and vertex scratch; the destination-overflow branch is dead |
| `ShaderExec.RelocExec.RelocateRecord` | aros/arch/m68k-emu68/hidd/vc4gallium/vc4_drm_aros.c:1875-2112 | One record: the specified record appears at its place and earlier ones stay |
| `RecordMeaning.StageMeaning` | aros/arch/m68k-emu68/hidd/vc4gallium/vc4_drm_aros.c:1903-2038 | After a stage its code field is the bus address of the shader plus the source offset, its uniform field is where its stream starts, the stream follows the previous one, every other field is as it was |
| `RecordMeaning.StageShows` | aros/arch/m68k-emu68/hidd/vc4gallium/vc4_drm_aros.c:1903-2038 | The stream a stage field points at is the specified stream of that stage, at that place |
| `RecordMeaning.AttrMeaning` | aros/arch/m68k-emu68/hidd/vc4gallium/vc4_drm_aros.c:2040-2109 | After an attribute its base field is the bus address of its range (or what an unlisted handle gives), the range holds its copy with the words swapped, what the scratch held before it and every other field are as they were |
| `RecordMeaning.RecordsMeaning` | aros/arch/m68k-emu68/hidd/vc4gallium/vc4_drm_aros.c:1859-2117 | For every record of an accepted run: in the final output its three stage fields, every attribute field and every untouched field mean what the source record means, and streams and ranges are intact after all later records |
| `RecordLayout.ShaderWords` | aros/arch/m68k-emu68/hidd/vc4gallium/vc4_drm_aros.c:1856-2038 | In every record of an accepted run the words at 4, 16 and 28 are the addresses of the shaders of handles 0, 1 and 2 plus the source words there, and the words at 8, 20 and 32 are where their streams start, one behind the other from where the record before ended; each stream is the patched source stream |
| `RecordLayout.AttrWords` | aros/arch/m68k-emu68/hidd/vc4gallium/vc4_drm_aros.c:2040-2109 | Attribute i at 36 + 8 * i: with a handle outside the list the entry keeps its offset; otherwise the handle names a live buffer that holds the vertices, and where words fit the stride every word of every vertex is found little-endian behind the entry's address as the buffer has it big-endian behind the offset |
| `RecordLayout.OtherWords` | aros/arch/m68k-emu68/hidd/vc4gallium/vc4_drm_aros.c:1896-1898 | Every other word of the record is the source word |
| `RecordMeaning.VertexIsShown` | aros/arch/m68k-emu68/hidd/vc4gallium/vc4_drm_aros.c:2085-2108 | Where the words of an attribute fit its stride, every word of every vertex, as the CPU wrote it, is found little-endian where the attribute's address field points, also after all later records |
| `RecordMeaning.StepRecordMeaning` | aros/arch/m68k-emu68/hidd/vc4gallium/vc4_drm_aros.c:1875-2112 | One record step keeps all earlier records, streams and ranges and shows the new one |
| `RecordSizing.OutputBehindInput` | aros/arch/m68k-emu68/hidd/vc4gallium/vc4_drm_aros.c:1875-1901 | The output offset never passes the input offset, and records do not overlap |
| `RecordSizing.RecordsFit` | aros/arch/m68k-emu68/hidd/vc4gallium/vc4_drm_aros.c:2111-2112 | All records of an accepted run lie inside a section of shader_rec_size bytes |
| `RecordSizing.AttrScratchPredicted` | aros/arch/m68k-emu68/hidd/vc4gallium/vc4_drm_aros.c:2714-2773 | Attribute scratch used never exceeds the sizing pass, and equals it when every vertex buffer handle index is listed |
| `RecordSizing.AttrScratchSuffices` | aros/arch/m68k-emu68/hidd/vc4gallium/vc4_drm_aros.c:2055-2084 | With the sizing pass's size, an attribute is refused only because its handle or its range is bad, never for lack of scratch |
| `RecordSizing.AttrRangesApart` | aros/arch/m68k-emu68/hidd/vc4gallium/vc4_drm_aros.c:2055-2101 | Scratch ranges of different attributes, of one record or of two, are disjoint |
| `AttrPrescan.SizeRecords` | aros/arch/m68k-emu68/hidd/vc4gallium/vc4_drm_aros.c:2714-2773 | The sizing loops compute their specification, refusals included |
| `AttrPrescan.SizeAttr` | aros/arch/m68k-emu68/hidd/vc4gallium/vc4_drm_aros.c:2735-2768 | One attribute of the sizing pass, with its 32-bit overflow guards |
| `VertexSwap.ReadsExactly` | aros/arch/m68k-emu68/hidd/vc4gallium/vc4_drm_aros.c:2092-2097 | The copied and swapped words of a vertex range read back as the CPU wrote them for every memory and scratch content if and only if the words fit the stride |
| `VertexSwap.VertexByte` | aros/arch/m68k-emu68/hidd/vc4gallium/vc4_drm_aros.c:2092-2097 | When the words fit the stride, each byte of a word comes from the other end of its word |
| `VertexSwap.VertexTail` | aros/arch/m68k-emu68/hidd/vc4gallium/vc4_drm_aros.c:2092-2097 | And the bytes behind the whole words of a vertex are kept |
| `NarrowRecord.NarrowIsLost` | aros/arch/m68k-emu68/hidd/vc4gallium/vc4_drm_aros.c:2055-2108 | Any attribute wider than its stride of any accepted record: its last vertex is not what is found at its address in the final scratch, whenever the scratch byte the swap fetches for it differs from the buffer's and no later copy lands on that word |
| `NarrowRecord.NarrowHappens` | aros/arch/m68k-emu68/hidd/vc4gallium/vc4_drm_aros.c:2055-2108 | A concrete record that is accepted and meets those conditions |
| `RenderMeaning.RenderListRun` | aros/arch/m68k-emu68/hidd/vc4gallium/vc4_drm_aros.c:2193-2455 | For all surfaces, executing the render list visits the rows of tiles in the requested order and waits on the semaphore exactly once, before the first branch |
| `RenderMeaning.TileVisitedOnce` | aros/arch/m68k-emu68/hidd/vc4gallium/vc4_drm_aros.c:2203-2260 | Every visit is of a tile of the rectangle, at the position its coordinates give, with the sublist 32 * (y * bin_tiles_x + x) bytes into the tile-alloc region |
| `RenderMeaning.EveryTileVisited` | aros/arch/m68k-emu68/hidd/vc4gallium/vc4_drm_aros.c:2203-2260 | Every tile of the rectangle is visited, at the position the requested order gives it |
| `RenderMeaning.FullResEnds` | aros/arch/m68k-emu68/hidd/vc4gallium/vc4_drm_aros.c:2384-2416 | The or-ed flag bits of a full-resolution load or store end the frame exactly when they are to or the surface's address carries that bit |
| `RenderMeaning.FrameEndsExactly` | aros/arch/m68k-emu68/hidd/vc4gallium/vc4_drm_aros.c:2313-2443 | The frame ends exactly once, in the last packet and when some write surface exists, if and only if no surface used before that packet has bit 3 set in its address; for a single tile the surface written last is used in no earlier packet |
| `RenderMeaning.AlignedUnmarked` | aros/arch/m68k-emu68/hidd/vc4gallium/vc4_drm_aros.c:2418-2431 | A surface at a multiple of sixteen never ends the frame early |
| `RenderMeaning.SkewedEndsEarly` | aros/arch/m68k-emu68/hidd/vc4gallium/vc4_drm_aros.c:2418-2431 | A concrete two-tile frame with its depth buffer eight bytes off ends early |
| `RenderData.ListRun` | aros/arch/m68k-emu68/hidd/vc4gallium/vc4_drm_aros.c:2254-2443 | The render list configures the colour surface's address, width by height, in its bits, latches the clear values exactly when asked to, and transfers what is meant for every tile in visiting order |
| `RenderData.TileTransfers` | aros/arch/m68k-emu68/hidd/vc4gallium/vc4_drm_aros.c:2313-2443 | Under the coordinates of each tile of the rectangle, and under no others, exactly this happens in order: colour is loaded from its read surface and depth from its own, each write surface is stored to once, full-resolution blocks lie at 16384 * (ceil(width / 64) * y + x) of their own surface with the other half disabled, and only the last store lets the tile buffer be cleared |
| `RenderExec.RenderListBound` | aros/arch/m68k-emu68/hidd/vc4gallium/vc4_drm_aros.c:2193-2455 | At most 35 + 60 * tiles bytes |
| `RenderExec.WalkEncodeOps` | aros/arch/m68k-emu68/hidd/vc4gallium/vc4_drm_aros.c:2136-2191 | Walking the emitted bytes by opcode finds exactly the packets of the list, in order |
| `RenderExec.DecodeEncodeOp` | aros/arch/m68k-emu68/hidd/vc4gallium/vc4_drm_aros.c:2136-2191 | Every render packet is read back from its bytes |
| `RenderExec.OpFields` | aros/arch/m68k-emu68/hidd/vc4gallium/vc4_drm_aros.c:2136-2191 | Every field of every render packet is at its byte of the packet, little-endian |
| `BuildRcl.BuildRenderList` | aros/arch/m68k-emu68/hidd/vc4gallium/vc4_drm_aros.c:2193-2455 | The builder leaves exactly the encoding of the list in the buffer when the bound fits: the overflow branch is unreachable |
| `BuildRcl.RenderTile` | aros/arch/m68k-emu68/hidd/vc4gallium/vc4_drm_aros.c:2313-2443 | The loads, coordinates, wait, branch and stores of one tile, appended in order |
| `SubmitLayout.ExecSizeIsTotal` | aros/arch/m68k-emu68/hidd/vc4gallium/vc4_drm_aros.c:2624-2633 | The size computed in 32 bits is the unbounded total reduced once |
| `SubmitLayout.LayoutSoundExactly` | aros/arch/m68k-emu68/hidd/vc4gallium/vc4_drm_aros.c:2624-2652 | The four sections are aligned, in order, disjoint and inside exec_size if and only if the unbounded total is below 2^32 |
| `Submission.LayoutPlaced` | aros/arch/m68k-emu68/hidd/vc4gallium/vc4_drm_aros.c:2600-2652 | Wherever that total fits behind the exec buffer's address, the layout the driver computes meets all the passes ask of it |
| `SubmitLayout.CompileAnnounces` | aros/arch/m68k-emu68/hidd/vc4gallium/vc4_drm_aros.c:1588-1628 | The k-th address emitted in a GL_SHADER_STATE is the k-th record offset, plus its flag nibble, for every k |
| `SubmitLayout.RecordWhereAnnounced` | aros/arch/m68k-emu68/hidd/vc4gallium/vc4_drm_aros.c:1588-1628 | The address patched into the k-th GL_SHADER_STATE is exactly where the relocation pass writes the k-th record, inside the record section and clear of the uniforms |
| `SubmitLayout.BranchInTileAlloc` | aros/arch/m68k-emu68/hidd/vc4gallium/vc4_drm_aros.c:2600-2604 | Every branch target and its 32-byte block lie in the tile-alloc region, clear of the tile state |
| `SubmitLayout.TargetsDistinctExactly` | aros/arch/m68k-emu68/hidd/vc4gallium/vc4_drm_aros.c:2369-2382 | Targets of different tiles differ if and only if the binned row is as wide as the rectangle or the rectangle is one row high; bin_tiles_x > max_x_tile suffices |
| `SubmitLayout.ScanCoversRectangle` | aros/arch/m68k-emu68/hidd/vc4gallium/vc4_drm_aros.c:2539-2577 | The rectangle lies inside the tile counts the prescan sized for, and the binned width is at most the scanned one |
| `SubmitLayout.RenderListFits` | aros/arch/m68k-emu68/hidd/vc4gallium/vc4_drm_aros.c:2798-2824 | The list and 64 bytes of slack fit rcl_max_size, which does not wrap |
| `Submission.BinnerPass` | aros/arch/m68k-emu68/hidd/vc4gallium/vc4_drm_aros.c:2539-2710 | Across prescan, allocation and rewriting a list is accepted exactly when packets parse, index ranges are good and some packet is not GEM_HANDLES; then the scratch is used up exactly and slots stay below `need` |
| `Submission.CompileSubmission` | aros/arch/m68k-emu68/hidd/vc4gallium/vc4_drm_aros.c:2539-2828 | The passes run one after the other produce an image exactly when every pass accepts; it holds the encoded list, the placed records, streams and vertices and the render list |
| `SubmissionMeaning.ListMeaning` | aros/arch/m68k-emu68/hidd/vc4gallium/vc4_drm_aros.c:2702-2710 | The binner list of an accepted job's image means what the job's list means |
| `SubmissionMeaning.AddressesMeaning` | aros/arch/m68k-emu68/hidd/vc4gallium/vc4_drm_aros.c:2624-2796 | In an accepted job the k-th shader state of the emitted list names the exec buffer address of the k-th relocated record, inside its section |
| `SubmissionMeaning.TilesMeaning` | aros/arch/m68k-emu68/hidd/vc4gallium/vc4_drm_aros.c:2539-2604 | In an accepted job the tile buffer is laid out for the tiles the render list visits |
| `SubmissionMeaning.ConfigMeaning` | aros/arch/m68k-emu68/hidd/vc4gallium/vc4_drm_aros.c:1795-1805 | In an accepted job every configuration of the emitted list names the job's tile-alloc region, its size and the tile state |
| `SubmissionMeaning.BinnerFills` | aros/arch/m68k-emu68/hidd/vc4gallium/vc4_drm_aros.c:2539-2604 | The region the binner is told to fill is the one the render list branches into, behind the state of all tiles |
| `DrawMeaning.ArrayMaxExactly` | aros/arch/m68k-emu68/hidd/vc4gallium/vc4_drm_aros.c:1738-1756 | The maximum noted for an array draw bounds every vertex it asks for if and only if count is 0 or first + count is at most 2^32 |
| `DrawMeaning.CompileMaxed` | aros/arch/m68k-emu68/hidd/vc4gallium/vc4_drm_aros.c:1544-1860 | After every accepted list the maximum of a record bounds what is noted for the packets under it, and is 0 or noted for one of them |
| `SubmissionMeaning.DrawnCovered` | aros/arch/m68k-emu68/hidd/vc4gallium/vc4_drm_aros.c:1630-1756 | In an accepted job the record in force at a draw is sized for every vertex the draw asks for if and only if an array draw numbers its vertices within 32 bits; 16-bit indices are those in the image's index section, 8-bit ones as the packet bounds them |
| `SubmissionMeaning.DrawnCopied` | aros/arch/m68k-emu68/hidd/vc4gallium/vc4_drm_aros.c:1630-2068 | Every vertex a draw asks for is among those copied for its record if and only if the draw stays within 32 bits and no packet under the record has 2^32 - 1 noted as its largest index |
| `SubmissionMeaning.VertexInImage` | aros/arch/m68k-emu68/hidd/vc4gallium/vc4_drm_aros.c:2055-2108 | Every vertex copied for a record is found, all words of it little-endian, at the address field of each attribute whose words fit its stride |
| `SubmissionMeaning.DrawnVertexShown` | aros/arch/m68k-emu68/hidd/vc4gallium/vc4_drm_aros.c:2702-2796 | From the draw to the vertex, under that condition: every word of every such attribute of every vertex the draw asks for is found little-endian where the record's address field points in the image's vertex scratch |
| `ShortDraws.WrappingHappens` | aros/arch/m68k-emu68/hidd/vc4gallium/vc4_drm_aros.c:1738-1756 | A submission with an array draw of the vertices 2^32 - 1 and 2^32 that every pass accepts, with its record sized for vertex 0 alone |
| `ShortDraws.FullHappens` | aros/arch/m68k-emu68/hidd/vc4gallium/vc4_drm_aros.c:2055-2068 | A submission with a draw whose packet gives 2^32 - 1 as its largest index that every pass accepts, with no vertex copied |
| `SubmissionMeaning.UniformsShown` | aros/arch/m68k-emu68/hidd/vc4gallium/vc4_drm_aros.c:1962-2034 | In an accepted job every uniform word of every stage of every record is found in the image's uniform section where the record's uniform field points |
| `Submission.RecordPass` | aros/arch/m68k-emu68/hidd/vc4gallium/vc4_drm_aros.c:2714-2796 | Sizing, allocating and relocating: succeeds exactly when relocation with the predicted scratch does |
| `Pipeline.SampleIsExact` | aros/arch/m68k-emu68/hidd/vc4gallium/vc4_drm_aros.c:3134-3161 | Sampling the 8-bit counters at any reachable state gives exactly the number of jobs retired or reset, and the idle resync branch never fires |
| `Pipeline.AdvanceKeeps` | aros/arch/m68k-emu68/hidd/vc4gallium/vc4_v3d.c:102-149 | A poll keeps the invariant and finished_seqno becomes exactly the retired count |
| `Pipeline.ServiceKeeps` | aros/arch/m68k-emu68/hidd/vc4gallium/vc4_v3d.c:161-219 | Servicing interrupts at any moment, between stash and start included, keeps the invariant |
| `Pipeline.KickKeeps` | aros/arch/m68k-emu68/hidd/vc4gallium/vc4_v3d.c:37-89 | A kick keeps the invariant and starts CT1 once, when a list is pending and CT1 is idle |
| `Pipeline.TagKeeps` | aros/arch/m68k-emu68/hidd/vc4gallium/vc4_drm_aros.c:3134-3161 | Tagging a pool set with the new sequence number and rotating keeps ownership |
| `Pipeline.ResetKeeps` | aros/arch/m68k-emu68/hidd/vc4gallium/vc4_drm_aros.c:1253-1309 | Timeout recovery keeps the invariant: all jobs count as reset, pool ownership stays right |
| `Pipeline.StepKeeps` | aros/arch/m68k-emu68/hidd/vc4gallium/vc4_v3d.c:37-219 | Every step of driver, service task or GPU keeps the invariant |
| `PipelineRuns.PipelineSafety` | aros/arch/m68k-emu68/hidd/vc4gallium/vc4_v3d.c:37-149 | After any run from the start: render lists are kicked in submission order at most once each, a pending list is the newest and not yet kicked, finished_seqno <= retired jobs and <= seqno, at most three jobs in flight |
| `PipelineRuns.RunGrows` | aros/arch/m68k-emu68/hidd/vc4gallium/vc4_v3d.c:102-149 | finished_seqno, seqno, retired jobs and the kick history never shrink over any run |
| `PipelineRuns.ThreadsStartIdle` | aros/arch/m68k-emu68/hidd/vc4gallium/vc4_drm_aros.c:3108-3126 | CT1 is written only while idle and with the pending list, CT0 only while idle, and a pending list is never overwritten |
| `PipelineRuns.RenderAfterBin` | aros/arch/m68k-emu68/hidd/vc4gallium/vc4_v3d.c:37-89 | A render list finishes only after its own bin list, whatever moment it was kicked |
| `PipelineRuns.PoolSetsApart` | aros/arch/m68k-emu68/hidd/vc4gallium/vc4_drm_aros.c:2584-2598 | While a submission writes its pool set no unfinished job owns it, and unfinished jobs own distinct sets |
| `PipelineRuns.FlightsApart` | aros/arch/m68k-emu68/hidd/vc4gallium/vc4_drm_aros.c:3134-3161 | At every moment distinct unfinished jobs own distinct sets |
| `PipelineRuns.BeginWaitsForOwner` | aros/arch/m68k-emu68/hidd/vc4gallium/vc4_drm_aros.c:2584-2598 | A submission has to wait if and only if three jobs are unfinished, and what it waits for is the oldest |
| `PipelineRuns.EarlyKick` | aros/arch/m68k-emu68/hidd/vc4gallium/vc4_drm_aros.c:2986-3010 | A run in which the second render list is started before its bin list has finished: the drain loop leaves a latched FLDONE |
| `PipelineRuns.ImmediateServiceKicks` | aros/arch/m68k-emu68/hidd/vc4gallium/vc4_drm_aros.c:3108-3126 | Right after a start, servicing kicks this job's list early if and only if an FLDONE was still latched and CT1 idle |
| `PipelineRuns.KickAfterBin` | aros/arch/m68k-emu68/hidd/vc4gallium/vc4_drm_aros.c:2986-3010 | In every run whose starts see no latched FLDONE, CT1 is kicked only after the job's own bin |
| `PipelineRuns.DeferredKickNeedsPoll` | aros/arch/m68k-emu68/hidd/vc4gallium/vc4_v3d.c:57-68 | A service call that finds FLDONE latched leaves the list pending if and only if CT1 is busy; then no later service call alone starts it, and the next poll does |
| `PipelineRuns.DeferredHappens` | aros/arch/m68k-emu68/hidd/vc4gallium/vc4_v3d.c:57-68 | A run from the start that reaches such a state |
| `PipelineRuns.NothingStuck` | aros/arch/m68k-emu68/hidd/vc4gallium/vc4_drm_aros.c:1208-1252 | From every reachable quiet state, GPU completions and two polls finish every job |
| `PipelineRuns.ResyncSound` | aros/arch/m68k-emu68/hidd/vc4gallium/vc4_v3d.c:118-141 | Whatever the counters missed, when the idle resync fires every submitted job has been retired or reset |
| `PipelineExec.V3d.KickPendingRender` | aros/arch/m68k-emu68/hidd/vc4gallium/vc4_v3d.c:37-89 | The register-level kick is the specified step |
| `PipelineExec.V3d.ServiceInterrupts` | aros/arch/m68k-emu68/hidd/vc4gallium/vc4_v3d.c:161-219 | The register-level service routine is the specified step |
| `PipelineExec.V3d.AdvanceCounters` | aros/arch/m68k-emu68/hidd/vc4gallium/vc4_v3d.c:102-149 | The register-level poll is the specified step |
| `PipelineExec.V3d.WaitSeqno` | aros/arch/m68k-emu68/hidd/vc4gallium/vc4_drm_aros.c:1208-1320 | For any GPU behaviour during the wait: it polls once a tick and no more until the job has finished, and then returns true without a reset; it returns false, with everything reset, only when all ticks are used up and the job has not finished |
| `PipelineExec.TwoPollsFinish` | aros/arch/m68k-emu68/hidd/vc4gallium/vc4_drm_aros.c:1232-1238 | The first job, its two lists ending before the first two polls: the second poll finds it finished, the first does not |
| `PipelineExec.OneJobRun` | aros/arch/m68k-emu68/hidd/vc4gallium/vc4_drm_aros.c:2986-3161 | That state is reached by a run from the start |
| `PipelineExec.V3d.ClaimPoolSet` | aros/arch/m68k-emu68/hidd/vc4gallium/vc4_drm_aros.c:2584-2598 | Claiming a set polls only while its owner is unfinished, resets only when the ticks are used up, and ends in the writing phase |
| `PipelineExec.V3d.StartJob` | aros/arch/m68k-emu68/hidd/vc4gallium/vc4_drm_aros.c:2986-3161 | It polls only while something is running or pending, gives up only when the ticks are used up, and otherwise stashes, starts, services and tags in that order, whatever the GPU and the service task do in between; a failed drain does not advance the rotation |
| `BoTable.FreeHandleExactly` | aros/arch/m68k-emu68/hidd/vc4gallium/vc4_drm_aros.c:242-256 | The search returns 0 if and only if every handle other than bo_next_handle is used; otherwise a free handle different from it |
| `BoTable.CreateKeeps` | aros/arch/m68k-emu68/hidd/vc4gallium/vc4_drm_aros.c:829-993 | Creation, with every outcome of the allocator, keeps refcounts and gpu_mem_bytes exact when nobody is given the handle while the table lock is released for the reclaim (BoWindow has the other case) |
| `BoWindow.CreateSplits` | aros/arch/m68k-emu68/hidd/vc4gallium/vc4_drm_aros.c:860-876 | The two halves of a creation, before and after the reclaim, are the one call when nothing happens in between |
| `BoWindow.FreeHandleIs` | aros/arch/m68k-emu68/hidd/vc4gallium/vc4_drm_aros.c:242-256 | A handle is given out if and only if it is free, not the last one given, and every handle before it in scan order is used |
| `BoWindow.TakenExactly` | aros/arch/m68k-emu68/hidd/vc4gallium/vc4_drm_aros.c:242-256 | A free handle comes into use by a call if and only if that call takes it from the search |
| `BoWindow.FinishKeepsExactly` | aros/arch/m68k-emu68/hidd/vc4gallium/vc4_drm_aros.c:869-889 | The second half keeps refcounts and gpu_mem_bytes exact if and only if the handle chosen by the first is still free or memory is short again |
| `BoWindow.RunKeepsExactly` | aros/arch/m68k-emu68/hidd/vc4gallium/vc4_drm_aros.c:829-993 | All along any run with any number of waiting creations, refcounts and gpu_mem_bytes are exact if and only if every creation that resumes with memory finds its handle free |
| `BoWindow.GivenTwice` | aros/arch/m68k-emu68/hidd/vc4gallium/vc4_drm_aros.c:860-889 | A run from the start that gives one handle to two clients, whose entry then counts one reference |
| `BoTable.OpenKeeps` | aros/arch/m68k-emu68/hidd/vc4gallium/vc4_drm_aros.c:1057-1109 | Opening a page by name, new or already wrapped, keeps them exact |
| `BoTable.CloseKeeps` | aros/arch/m68k-emu68/hidd/vc4gallium/vc4_drm_aros.c:1111-1126 | Closing keeps them exact |
| `BoTable.UnrefKeeps` | aros/arch/m68k-emu68/hidd/vc4gallium/vc4_drm_aros.c:1017-1048 | Dropping a reference somebody holds keeps them exact for the remaining holders |
| `BoTable.BlitKeeps` | aros/arch/m68k-emu68/hidd/vc4gallium/vc4_galliumclass.c:909-945 | Pin at blit start; at its end the pin becomes the DMA pin and the previous one is dropped, or is dropped itself |
| `BoTable.BlitEndKeeps` | aros/arch/m68k-emu68/hidd/vc4gallium/vc4_galliumclass.c:1127-1139 | The end of a blit by DMA or CPU keeps the counts exact |
| `BoTable.SetBeginKeeps` | aros/arch/m68k-emu68/hidd/vc4gallium/vc4_galliumclass.c:736-826 | First half of retargeting the plane: pin the new buffer, remember the old one |
| `BoTable.SetEndKeeps` | aros/arch/m68k-emu68/hidd/vc4gallium/vc4_galliumclass.c:736-826 | Second half: the old buffer becomes the displaced pin, or the call is undone |
| `BoTable.LatchKeeps` | aros/arch/m68k-emu68/hidd/vc4gallium/vc4_galliumclass.c:828-852 | The latch wait drops the displaced pin, exactly once |
| `BoTable.ClearKeeps` | aros/arch/m68k-emu68/hidd/vc4gallium/vc4_galliumclass.c:854-883 | Clearing drops both overlay pins |
| `BoTable.FlipKeeps` | aros/arch/m68k-emu68/hidd/vc4gallium/vc4_galliumclass.c:703-719 | A page flip drops the DMA pin |
| `BoTable.PoolKeeps` | aros/arch/m68k-emu68/hidd/vc4gallium/vc4_drm_aros.c:1383-1417 | Growing a pool buffer keeps gpu_mem_bytes equal to buffers plus pools, with headroom, without, or on failure |
| `BoPins.CreateGives` | aros/arch/m68k-emu68/hidd/vc4gallium/vc4_drm_aros.c:829-993 | A created buffer has the memory it was given under a handle that was free, everything else stays; it fails exactly when no handle is found, both allocations fail, or a shader is no whole number of instructions |
| `BoPins.OpenGives` | aros/arch/m68k-emu68/hidd/vc4gallium/vc4_drm_aros.c:1057-1109 | An opened page is shared when some entry wraps it already, and gets a free entry of its own otherwise |
| `BoPins.PoolGives` | aros/arch/m68k-emu68/hidd/vc4gallium/vc4_drm_aros.c:1383-1417 | A large enough pool buffer is kept; a new one has whole pages, a quarter more than asked if possible, and none is left when both allocations fail |
| `BoPins.BlitEndNames` | aros/arch/m68k-emu68/hidd/vc4gallium/vc4_galliumclass.c:909-945 | After a DMA blit the engine's pin names the blitted buffer, which is live; after a CPU blit it is as before |
| `BoPins.SetNames` | aros/arch/m68k-emu68/hidd/vc4gallium/vc4_galliumclass.c:736-826 | After an accepted set the new page is pinned and the old one displaced and held; after a refused one no page is pinned |
| `BoPins.DisplacedStays` | aros/arch/m68k-emu68/hidd/vc4gallium/vc4_galliumclass.c:736-852 | A displaced page stays displaced, live and the same buffer until the latch or until the plane is cleared |
| `BoRuns.RunKeeps` | aros/arch/m68k-emu68/hidd/vc4gallium/vc4_drm_aros.c:829-1126 | Over any sequence of operations every refcount equals client references plus the pins naming the buffer, and gpu_mem_bytes equals the live firmware-backed buffers plus all pool buffers |
| `BoRuns.PinnedStays` | aros/arch/m68k-emu68/hidd/vc4gallium/vc4_drm_aros.c:1017-1048 | No operation frees or changes a buffer that still has a holder, and one whose last holder left is free |
| `BoRuns.PinsAreLive` | aros/arch/m68k-emu68/hidd/vc4gallium/vc4_galliumclass.c:736-883 | Every pin names a live buffer at every reachable state |
| `BoRuns.SearchMissesFreeHandle` | aros/arch/m68k-emu68/hidd/vc4gallium/vc4_drm_aros.c:242-256 | A client creates as many buffers as there are handles and closes the last one: that handle is free and the search returns 0 |
| `BoRuns.ReleaseLeavesAttr` | aros/arch/m68k-emu68/hidd/vc4gallium/vc4_drm_aros.c:3475-3560 | Releasing everything leaves gpu_mem_bytes at exactly the attr pool buffers, zero if and only if there are none |
| `BoExec.Bos.AllocHandle` | aros/arch/m68k-emu68/hidd/vc4gallium/vc4_drm_aros.c:242-256 | The search loop finds the specified handle and moves bo_next_handle only when it finds one |
| `BoExec.Bos.UnrefLocked` | aros/arch/m68k-emu68/hidd/vc4gallium/vc4_drm_aros.c:1017-1048 | The in-place release is the specified step |
| `BoExec.Bos.CreateBuffer` | aros/arch/m68k-emu68/hidd/vc4gallium/vc4_drm_aros.c:829-993 | Creation on the table array is the specified step |
| `BoExec.Bos.GemOpen` | aros/arch/m68k-emu68/hidd/vc4gallium/vc4_drm_aros.c:1057-1109 | Open on the table array is the specified step |
| `BoExec.Bos.GemClose` | aros/arch/m68k-emu68/hidd/vc4gallium/vc4_drm_aros.c:1111-1126 | Close on the table array is the specified step; it fails exactly on a dead handle |
| `BoExec.Bos.EndBlit` | aros/arch/m68k-emu68/hidd/vc4gallium/vc4_galliumclass.c:1127-1139 | The end of a blit on the table array is the specified step |
| `BoExec.Bos.SetOverlay` | aros/arch/m68k-emu68/hidd/vc4gallium/vc4_galliumclass.c:736-826 | Retargeting is latch wait, pin, switch and displace, and is refused exactly for a buffer that is not mapped or too small or when the plane is unavailable |
| `BoExec.Bos.ClearPlane` | aros/arch/m68k-emu68/hidd/vc4gallium/vc4_galliumclass.c:854-883 | Clearing on the table array is the specified step |
| `BoExec.Bos.PoolBuffer` | aros/arch/m68k-emu68/hidd/vc4gallium/vc4_drm_aros.c:1383-1417 | The pool buffer is at least as large as asked unless allocation fails with headroom and without |
| `OverlayRing.OverlaySafety` | aros/arch/m68k-emu68/hidd/vc4gallium/aros_drm_vc4.c:464-618 | After any run of submits, retirements, presents and reallocations: the plane shows strictly increasing frame numbers, each retired before it is shown, no submit colours a page on the plane or not yet latched off it, and the ring keeps three distinct pages |
| `OverlayRing.StepKeeps` | aros/arch/m68k-emu68/hidd/vc4gallium/aros_drm_vc4.c:464-618 | Every step keeps the ring invariant |
| `OverlayRing.RotatedKeeps` | aros/arch/m68k-emu68/hidd/vc4gallium/aros_drm_vc4.c:524-548 | Rotation, or teardown when the present is refused, keeps it |
| `OverlayRing.EnteredKeeps` | aros/arch/m68k-emu68/hidd/vc4gallium/aros_drm_vc4.c:564-618 | Entering overlay mode, or being refused, keeps it |
| `OverlayRing.OneFrameLatency` | aros/arch/m68k-emu68/hidd/vc4gallium/aros_drm_vc4.c:486-542 | In steady state each present shows exactly the previous frame and queues the new one, and the state stays steady |
| `OverlayExec.Overlay.PresentWindowed` | aros/arch/m68k-emu68/hidd/vc4gallium/aros_drm_vc4.c:464-618 | The imperative present is the specified step and keeps the invariant |
| `OverlayExec.Overlay.PresentObscured` | aros/arch/m68k-emu68/hidd/vc4gallium/aros_drm_vc4.c:549-556 | Hiding the plane is the specified step and keeps the invariant |
| `OverlayExec.Overlay.Submit` | aros/arch/m68k-emu68/hidd/vc4gallium/vc4_drm_aros.c:2495-2524 | A submit that writes the displaced page first waits for the latch |
| `Clock.PollsExact` | src/amiga/bus.c:396-430 | However elapsed time is split into polls, the converted total with its remainder is that of one conversion |
| `Clock.ConvertExact` | src/amiga/bus.c:409-426 | One conversion with the carried remainder extends the exact total |
| `Clock.Chipset.AdvanceWall` | src/amiga/bus.c:396-430 | A poll keeps the account exact; ticks are forgiven only when pending is at its cap of 80000 |
| `Clock.Chipset.Quantum` | src/amiga/bus.c:283-294 | The step is the distance to a future deadline when that is below 512, otherwise 512, and 1 when the deadline has passed |
| `Clock.Chipset.Consume` | src/amiga/bus.c:330-341 | Terminates with nothing pending, all of it stepped, every step within pending, 512 and the deadline of its moment |
| `Clock.Chipset.RunOnce` | src/amiga/bus.c:1183-1211 | One lock hold steps at most 4096; with the floor on, held-back time is below the quantum; otherwise pending is used up or the budget is |
| `Clock.Chipset.Account` | src/amiga/bus.c:396-430 | Stepped + pending + forgiven = floor(ticks * 3546895 / (freq * divisor)), the remainder stays below freq * divisor, pending <= 80000 |
| `Console.CopyMissesUnread` | src/amiga/console.c:48-75 | A producer never writes a cell the drainer has yet to read |
| `Console.LoadKeeps` | src/amiga/console.c:48-66 | A chunk is dropped only if it would not fit even against the tail of that moment |
| `Console.PublishKeeps` | src/amiga/console.c:66-75 | Publishing the head makes exactly the copied chunk readable |
| `ConsoleRuns.ConsoleConserves` | src/amiga/console.c:48-154 | Under every interleaving of four producers and the drainer, for each core: characters put are its chunks in order plus its partial line; the chunks not counted as dropped are exactly what was sent plus what is in the ring, in order, without duplication |
| `ConsoleRuns.RunKeeps` | src/amiga/console.c:48-154 | Every interleaving keeps the ring, producer and drainer invariants |
| `ConsoleLines.LinesUncut` | src/amiga/console.c:109-154 | Over any run in which cores publish only while the scan has not passed them and behind the core being served, no line is cut: a turn that starts with a line open and more of it ready sends a byte of that line |
| `ConsoleLines.NextByteExactly` | src/amiga/console.c:120-151 | Under any interleaving, with core x ready and still ahead of the scan, the next byte comes from another core if and only if the scan comes upon a ready core before x |
| `ConsoleLines.QuietTurnExactly` | src/amiga/console.c:120-151 | With no nearer core publishing during the turn: if and only if a core nearer to next_core in scan order is ready |
| `ConsoleLines.CutExactly` | src/amiga/console.c:109-154 | A run cuts a line if and only if some turn starts with a line open and more of it ready, and its scan comes upon another ready core |
| `ConsoleLines.CutHappens` | src/amiga/console.c:109-154 | A run from the start in which core 0's byte is sent between the two bytes of core 1's line |
| `ConsoleExec.Ring.Push` | src/amiga/console.c:48-75 | The chunk is appended whole when it fits and otherwise only counted as dropped |
| `ConsoleExec.Ring.Pop` | src/amiga/console.c:141-148 | The oldest unsent byte, exactly once |
| `ConsoleExec.Producer.Putc` | src/amiga/console.c:77-90 | One more character put; the line goes to the ring at a newline or when full |
| `ConsoleExec.Drain` | src/amiga/console.c:109-154 | At most the budget; per core the bytes sent are exactly the next published ones in order; below the budget all rings are empty |
| `Fdt.ParseUndoesFlatten` | aros/arch/m68k-emu68/platform/fdt.c:77-171 | For every well-formed tree (properties before, between or after children, NOPs anywhere) parsing the flattened block gives the tree back, with its order |
| `Fdt.ParseFlat` | aros/arch/m68k-emu68/platform/fdt.c:77-140 | The item loop on flattened items appends exactly their properties and children and ends behind them |
| `FdtScan.ScanFlat` | aros/arch/m68k-emu68/boot/boot.c:295-466 | The depth-tracking scan over a flattened node does what the recursion over its items does |
| `FdtScan.DeepNothing` | aros/arch/m68k-emu68/boot/boot.c:295-466 | Nothing below the second level is ever recorded |
| `FdtLookup.ScanFindsWhatLookupFinds` | aros/arch/m68k-emu68/boot/boot.c:295-466 | On one block with at most one memory and one chosen node the scan reports the memory range and bootargs that parsing and tree lookup find |
| `FdtLookup.ScanFindsHostMem` | aros/arch/m68k-emu68/boot/boot.c:343-420 | The scan reports the end of host memory that lookup of host-mem in the one /emu68 node gives |
| `FdtScan.StringExactly` | aros/arch/m68k-emu68/boot/boot.c:234-275 | A property name is the bytes of the strings block up to the first zero behind its offset |
| `FdtScan.MatchesExactly` | aros/arch/m68k-emu68/boot/boot.c:234-275 | A component matches a node of that name or of that name with a unit address behind an at sign |
| `FdtScan.MemoryExactly` | aros/arch/m68k-emu68/boot/boot.c:276-293 | A reg property that holds both numbers gives base and size as the big-endian numbers of their cells; none when the size is 0 or above 32 bits |
| `FdtExec.Walker.BuildNode` | aros/arch/m68k-emu68/platform/fdt.c:77-140 | The recursive cursor walk builds the specified node and leaves the specified cursor |
| `FdtExec.DtParse` | aros/arch/m68k-emu68/platform/fdt.c:142-171 | Skips leading NOPs and parses the root, or nothing without one |
| `FdtExec.ParseFdt` | aros/arch/m68k-emu68/boot/boot.c:295-466 | The scan loop computes its specification |
| `BootImage.EncodeRuns` | scripts/make-boot-image.py:31-41 | The runs expand to exactly the pixels, every count is in 1..65535, and a run is only followed by its own colour when full |
| `BootImage.ColourSurvives` | scripts/make-boot-image.py:10-12 | Each channel drawn at 32 bits is within 8 (4 for green) of the source pixel |
| `BootImage.RunPixels` | scripts/make-boot-image.py:35-41 | The i-th pixel of the k-th run is at the position the earlier counts add up to |
| `BootPaint.Screen.PutPixel` | aros/arch/m68k-emu68/boot/bootui.c:309-334 | The pixel holds its colour at 16 or 32 bits and every other pixel is unchanged |
| `BootPaint.Screen.FillRect` | aros/arch/m68k-emu68/boot/bootui.c:336-352 | Exactly the pixels of the rectangle change |
| `BootPaint.PieceIsRect` | aros/arch/m68k-emu68/boot/bootui.c:272-300 | The rectangle drawn for a piece of a run is exactly the screen pixels that show its source pixels |
| `BootPaint.DrawBootImage` | aros/arch/m68k-emu68/boot/bootui.c:255-307 | Draws exactly when the image fits at this scale; then every screen pixel of the centred area shows its source pixel's colour and every other is unchanged; otherwise nothing changes |
| `Dma.EncodingExact` | aros/arch/m68k-emu68/hidd/vcgfx/vcgfx_dma.c:54-62 | The 16-bit length, row and signed stride fields read back as width, height and strides |
| `Dma.OneRowExactly` | aros/arch/m68k-emu68/hidd/vcgfx/vcgfx_dma.c:342-349 | A row admitted by the read path is encoded faithfully if and only if it is at most 65535 bytes; 65536 is not |
| `Dma.BottomUpCopies` | aros/arch/m68k-emu68/hidd/vcgfx/vcgfx_dma.c:211-264 | For rectangles of equal pitch whose destination starts at least one row after the source, the bottom-up copy leaves the destination equal to the original source and every other byte unchanged |
| `Dma.CopyCopies` | aros/arch/m68k-emu68/hidd/vcgfx/vcgfx_dma.c:211-264 | The same for the control block the driver programs, executed with its encoded fields |
| `DmaGet.Get` | aros/arch/m68k-emu68/hidd/vcgfx/vcgfx_dma.c:330-404 | The chunk loop terminates for every row admitted; on success each row is the source row when it is at most 65535 bytes, and the old bounce buffer when it is 65536; on failure that holds of the first rows; no byte between rows changes |
| `DmaGet.ChunkRow` | aros/arch/m68k-emu68/hidd/vcgfx/vcgfx_dma.c:362-388 | A chunk packs its rows into the bounce buffer and leaves each row of the source as it was |
| `DmaGet.RowsPerChunk` | aros/arch/m68k-emu68/hidd/vcgfx/vcgfx_dma.c:349-361 | At least one row, and never more than the bounce buffer or the row counter holds |
| `CmdLine.GuestMissesRigel` | src/machine/options.c:191-239 | After striking, the guest's whole-word search for `rigel` fails on every command line |
| `CmdLine.NothingLeft` | src/machine/options.c:215-232 | No word the host would strike is left |
| `CmdLine.StruckTwice` | src/machine/options.c:191-239 | Striking twice equals striking once |
| `CmdLine.StruckBytes` | src/machine/options.c:215-232 | Only bytes of struck words change, to spaces |
| `CmdLine.OtherWordsKept` | aros/arch/m68k-emu68/boot/boot.c:475-502 | Every other separator-free word is found at a position exactly when it was before |
| `CmdLine.OtherWordsFound` | aros/arch/m68k-emu68/boot/boot.c:475-502 | Every other separator-free word is found exactly when it was before |
| `CmdLine.BootargPresent` | aros/arch/m68k-emu68/boot/boot.c:475-502 | The nested loop decides the guest's whole-word search |
| `CmdLine.StrikeRigel` | src/machine/options.c:191-239 | The in-place loop gives the struck line and reports exactly whether a word was there |
| `Regions.OverlapsExactly` | src/machine/region.c:60-63 | For regions that do not wrap the 32-bit test is exactly sharing a byte |
| `Regions.OverlapsTrueExactly` | src/machine/region.c:60-63 | A region's overlap tests are all right if and only if its end is an address |
| `Regions.SharedExactly` | src/machine/region.c:65-119 | Accepted regions share bytes only where one of them does not end below 2^32, and such a region, and no other, can be installed twice |
| `Regions.InstallsKeep` | src/machine/region.c:65-119 | After any sequence of accepted and refused installs regions are whole pages, pairwise disjoint and matched by the MMU entries |
| `Regions.FindUnique` | src/machine/region.c:121-133 | Lookup finds a region if and only if it contains the address, and no other does |
| `Regions.ClassifyExactly` | src/machine/region.c:135-166 | Inside exactly when the access is not empty and every byte lies in one region |
| `Regions.MmuAgrees` | src/machine/region.c:50-58 | The MMU grants direct access exactly where lookup says direct, translated to host_phys + offset, and nowhere else |
| `MachineMap.BootMapTiles` | src/machine/machine.c:43-170 | Both boot maps with either vector page: every entry is accepted, regions are disjoint and cover exactly the 24-bit domain |
| `MachineMap.BootMapKinds` | src/machine/machine.c:43-170 | What every address of the domain is: with the chipset chip memory is direct and lies where its address says, CIA, clock and custom registers are external, the rest is unmapped; without it only the vector page is not |
| `MachineMap.RegionTable.InstallRegion` | src/machine/region.c:65-119 | The table method accepts exactly when specified and keeps soundness |
| `MachineMap.RegionTable.ClassifyAccess` | src/machine/region.c:135-166 | The loop computes the specified classification |
| `MachineMap.RegionTable.SetupMemory` | src/machine/machine.c:175-227 | Installing one by one ends in exactly the boot regions, soundly |

## Left out

Whole parts of the repository:

- Rigel, Emu68, Mesa, AROS exec, OOP and firmware calls: unseen code. They appear as parameters, outcomes or environment steps.
- Cache maintenance, barriers, memory attributes, weak memory: acquire and release publications are atomic steps.
- Logging, profiling, self-tests, display class glue, boot text and clock, scheduler and trap assembly, `usage_Ratio`: single branches, instruments and thin plumbing with little state to reason about.

Contracts and conditions weaker than the whole truth:

- ShaderExec.RelocExec.Relocate: a vertex wider than its stride makes the swap reach up to 252 bytes behind the scratch; those bytes are handed to the pass with it, as memory of its own.
- RecordMeaning.VertexIsShown: for attributes whose words fit their stride, `VertexSwap.ReadsExactly` shows why. The indices of an 8-bit draw are not looked at, here as in the source: the packet's largest index is believed.
- BuildRcl.BuildRenderList: surfaces come with the bus address of their handle already looked up (`Buffers.ResolveExactly` says what that is).
- RenderData.TileTransfers: that a load happens at the next tile coordinates, that a store uses them up, and that the low four bits of an address are flags, is how the hardware is taken to work.
- RenderMeaning.RenderListRun: tile rectangles have min <= max and at most 255 tiles a side, because the source counts tiles in bytes.
- Submission.CompileSubmission: allocation is assumed to succeed, inside the 32-bit bus space and page-aligned. The sections of the exec buffer are separate arrays here; that their ranges do not overlap in the one buffer is `SubmitLayout.LayoutSoundExactly`. Index and vertex scratch start as zeroes. The drain, flush and start of the job are in `Pipeline`.
- BinExec.Exec.ProcessBinCl: the slot limit and the destination size are those `do_submit_cl` passes; `VC4_CACHED_BO` is off, as in the source.
- QpuScan.ScanShader: the stream size must fit 32 bits, which a shader inside the 1 GB address space does.
- Pipeline.StepKeeps: the end of a bin list (flush count, FLDONE, idle thread) is one step; every render list holds an end-of-frame; giving pool memory back (gpu_mem_reclaim and release clear the tags of the pool sets), feeding overflow memory to the binner, a timeout of the drain loop that leaves CT0 running, and the wrap of the 32-bit sequence number are not modelled. Timeout recovery is one step.
- PipelineRuns.NothingStuck: assumes that the GPU finishes what it was given, in finite time.
- PipelineExec.V3d.WaitSeqno: a wait polls as often as the sequence of GPU events given to it; sleeping is not modelled.
- BoRuns.RunKeeps: every call is one step; the one place where the source releases the table lock inside a call, creation waiting for the reclaim, is in `BoWindow`. Clients close only handles they opened, overlay calls come one at a time, and reclaim never races a submission. gpu_mem_bytes is unbounded here.
- BoExec.Bos.SetOverlay: whether the display driver accepts the plane is a parameter.
- OverlayRing.OverlaySafety: a wait ends with the awaited job retired, the display driver shows the page of the last accepted call after its latch; the page-flip branch for full-screen surfaces is modelled only by its effect on pins (`BoTable.FlipKeeps`).
- Clock.Chipset.AdvanceWall: the product of elapsed ticks and the clock rate must fit 64 bits; Rigel's deadlines are a parameter, one for every time.
- ConsoleRuns.ConsoleConserves: the drainer's count of bytes per call is in `ConsoleExec.Drain` and not in the interleaved model, where a call may end at any byte.
- Fdt.ParseUndoesFlatten: failing allocations, header validation and reads behind the end of a truncated block are not modelled; a malformed block parses to what the bytes inside it say.
- FdtLookup.ScanFindsWhatLookupFinds: needs properties before children, unique property names and one memory and one chosen node, the latter named exactly; splitting a path into components is left out. With several such nodes the two parsers choose differently. Cells outside a reg value read as 0 in the scan; the source reads on behind the property when address_cells + size_cells wraps.
- BootImage.EncodeRuns: the image converter and the text of the generated header are left out.
- BootPaint.DrawBootImage: says nothing about the padding bytes between rows, and the title drawn on top of the image is left out.
- Dma.CopyCopies: the engine is a row-by-row copy with the strides read from the block; the macros of hardware/bcm2708.h are not part of this model, field widths are those stated at vcgfx_dma.c:54-58. Upload and fill are left out.
- DmaGet.Get: what a failed transfer leaves in the bounce buffer is not modelled, it is not copied out.
- Regions.InstallsKeep: base + size must stay below 2^32 (`SharedExactly` says what happens otherwise); MMU attributes other than the access flag are left out.
- CmdLine.OtherWordsFound: for words without separators, as every word the guest asks for is.
