# libdrmtap: verified models of the capture, conversion and helper paths

libdrmtap reads a display's scanout framebuffer out of the kernel and turns it into pixels. This project
models the parts of it where state or arithmetic has to hold over whole runs, and proves what they are for.
`dafny verify dfyconfig.toml` checks everything.

| files | what they model |
|---|---|
| `Kernel.dfy`, `Scanout.dfy`, `Capture.dfy` | the capture resource machine: GEM handles, dma-buf descriptors, mappings and CPU-access windows moving between the call in progress, frames and the four-slot fast cache; the width that is scanned out |
| `GlErrors.dfy`, `EglImageCache.dfy`, `SkipCache.dfy`, `OutputBuffers.dfy`, `EglThread.dfy`, `BlockHash.dfy` | one capture thread's GL state: the import-once image cache, the skip-unchanged cache over grow-once buffers in a heap that reuses addresses, and the block hash |
| `TileLayout.dfy`, `Deswizzle.dfy`, `Reduce.dfy`, `Buffers.dfy`, `FrameDiff.dfy` | address maps, the CPU deswizzle and reductions over arrays, and frame differencing |
| `AutoProcess.dfy`, `SplitConvert.dfy`, `Geometry.dfy` | the order of conversions and the unprivileged convert of a supplied buffer |
| `Wire.dfy`, `HelperProtocol.dfy`, `HelperServer.dfy`, `Negotiation.dfy`, `PrivilegeHelper.dfy` | exact-length framing, descriptor passing, the helper's replies and command loop, and the client's negotiation with old and new helpers |
| `Enumerate.dfy` | exact refresh rates and the topology hash |
| `Words.dfy`, `Arith.dfy`, `Options.dfy` | 32- and 64-bit words (explicit wrap-around), exclusive-or, non-linear arithmetic, and optional values |

How the models are built:

- C structures that are updated in place are classes; buffers are arrays where the code indexes them.
- Calls into the kernel, GL, the allocator and the peer are methods with nondeterministic outcomes over
  ledgers. Closing something that is not live, ending a window that is not open, freeing a record that
  still holds something, mapping past the end of a buffer or comparing unwritten memory is ruled out by
  their preconditions, so a verified body is a proof that it does not happen.
- A kernel resource names its holder in the ledger; this bookkeeping argument has no counterpart in C.
- Sockets play back a script of transfers of any size, interruptions, closes and ancillary data; a contract
  over every script is one over every splitting. The helper link keeps a ledger of the replies
  served; which helpers are found is scripted too, and the machine logs spawns, sends and exchanges, so that
  "unanswered" is a fact about a script and the bytes sent, not a note of the client's.
- The kernel ledger logs STARTs, ENDs and host transfers, so contracts can say what was issued and when.
- Kernel, GL, heap and supplied buffer count the steps that failed (`faults`) and the refusals of privilege
  (`denials`), so that "it fails only for these reasons" can be said of calls in which nothing else went wrong.
- Next to each specification function that a body follows there is a lemma in plain numbers: offsets, format
  codes, limits, words of a reply, bytes of a command.

What the code does where its comments or documentation say otherwise, each proved as the code has it:

- The topology hash starts from 1469598103934665603, one digit short of the FNV-1a offset basis its comment names.
- `find_or_alloc_slot` evicts slot 0, which is neither the oldest nor the least recently used.
- A helper-descriptor grab of a linear scanout that cannot be mapped succeeds with `data` NULL (`DoGrab`
  states the exact condition).
- The CPU deswizzle zero-fills visible pixels of images whose last pixel lies, tiled, past stride * height, the
  source size passed (`ZeroFillExactly`). For unpadded whole-tile rows that is every height that is not a whole
  number of tiles, such as 1080 rows of Y tiling, X-tiled images one tile wide excepted (`UnpaddedZeroFill`);
  with padding it depends on width and stride too (`PaddedRowsGoBothWays`).
- Yf tiling goes through the Y map. Pixels are copied four bytes at a time whatever the format.
- The split convert documents a LINEAR image of stride width * 4, but a frame decoded on the CPU keeps the
  source stride and modifier: it is as documented exactly when the descriptor was LINEAR (`DocumentedExactly`,
  `TiledFrameIsNotAsDocumented`).
- `drmtap_grab_desc` falls back to the frame's stride for a missing main pitch, which never happens; on the
  helper route the planes are of the framebuffer looked up locally, the rest of the helper's report.
- On virtio the dumb mapping starts at the buffer, not at the plane's offset; the helper's descriptor is mapped
  from 0 likewise (`Readable`).
- The minimum pixel size used on descriptors is 4 for half-float formats; a row too narrow for 8-byte pixels
  is refused only by the converter itself (`ReduceInto`).
- The oversized cursor drain subtracts what it asked for, not what it received (`CursorDrainExactly`); the
  helper here never sends such a payload.
- `out_gen` is 32 bits wide: a skip trusts it after any positive multiple of 2^32 destinations
  (`UntouchedIsExact`), and can then return old bytes (`OldBytesAfterWrap`).
- `wire_recv_fd` does not retry an interrupted `recvmsg`, and refused control data after a short read leaves
  metadata unread; a retried command send that is cut short leaves part of a frame; the cursor payload stays
  unread when its buffer cannot be allocated, or when an oversized one is drained by halves. `Grab` and
  `GetCursor` state when exactly the connection is aligned afterwards, and each of these has its failing input.

## Model

| member | source | states |
|---|---|---|
| `Kernel.Kernel.NothingLive` | src/drm_grab.c:1937-1963 | Every live handle, descriptor and mapping has exactly one holder, so when no holder has anything left the three ledgers are empty. |
| `Kernel.Kernel.GetFB2` | src/drm_grab.c:967-991 | A fresh handle per plane (planes may share one), or zeroes for an unprivileged caller; nothing already live is touched. |
| `Kernel.Kernel.Adopt` | src/drm_grab.c:1280-1282 | Ownership of everything in flight moves to one record; no resource is lost, duplicated or reopened. |
| `Kernel.Kernel.Retire` | src/drm_grab.c:1417 | A private record can be freed only when it holds nothing, so a leak through `free` cannot be written. |
| `Kernel.WindowsAfter` | src/drm_grab.c:468-480 | A successful START and each END move the balance of their descriptor by one, so at every moment exactly the open windows owe one END each and nothing else owes any. |
| `Scanout.NarrowsExactly` | src/drm_grab.c:742-768 | A first decision reports less than the framebuffer's width exactly for a row-addressed layout on a narrower mode whose plane shows it one to one from the origin, and then it reports the plane's source width. |
| `Scanout.RememberedExactly` | src/drm_grab.c:839-937 | A decision is served from memory exactly for the mode, framebuffer width and modifier it was made for; any other key is decided anew and replaces it; nothing is remembered when there was nothing to decide. |
| `Scanout.KeptSound` | src/drm_grab.c:839-937 | Whatever was remembered before, the width reported is positive, never more than the framebuffer's, and less only for row-addressed layouts. |
| `Capture.Capture.CloseAuxiliary` | src/drm_grab.c:84-101 | After GetFB2 every minted handle but the first is closed exactly once, however many planes share a buffer, and the first stays live. |
| `Capture.Capture.StagePlanes` | src/drm_grab.c:1006-1013 | The staged plane count is one past the last plane with a handle or a pitch, which for a privileged answer is the layout of the framebuffer itself. |
| `Capture.PlanesCounted` | src/drm_grab.c:1006-1013 | The plane count of a layout is one past the last plane that has a buffer or a pitch. |
| `Capture.Capture.CheckAndStage` | src/drm_grab.c:993-1013 | Geometry is accepted exactly when both validators pass; refused geometry gives the handle back. |
| `Capture.Capture.TryExport` | src/drm_grab.c:1018-1037 | Export, denial (the grab goes to the helper, the handle is closed) or failure (closed too): what stays live afterwards in each case. |
| `Capture.Capture.MapScanout` | src/drm_grab.c:1307-1372 | virtio's transfer and dumb mapping are tried first, then the descriptor's mapping at the plane's offset; a mapped frame reads its own buffer and got exactly one START, after the mapping, whose outcome the frame records; an unmapped one got none. |
| `Capture.Capture.MapAndConvert` | src/drm_grab.c:1305-1391 | The conversions get that mapping, or none; a grab that produced no pixels releases mapping, window, descriptor, handle and record. |
| `Capture.Capture.GrabDirect` | src/drm_grab.c:1273-1396 | On success one new frame record; geometry, format and modifier are the framebuffer's, at the decided width, its descriptor is the record's and of that framebuffer's buffer (`Exported`); a mapped one is what the conversions made (`Finished`) of the framebuffer as it is now and a mapping made current by the one START of this call (`DirectServed`); on failure nothing is left behind. |
| `Capture.Capture.GrabHelperFd` | src/drm_grab.c:1157-1231 | The helper-descriptor branch: checked geometry, a mapping from offset 0 with its one START, and the GPU readback forced exactly for host-side scanouts; unmapped, linear and not forced it does succeed with NULL data, and no other success lacks pixels. |
| `Capture.Capture.GrabHelperPixels` | src/drm_grab.c:1233-1270 | The pixel branch: a payload that is not exactly one frame is refused before any conversion, an exact one always serves an unconverted grab, so no byte of an earlier frame shows behind the advertised geometry. |
| `Capture.Capture.ReportVerdict` | src/drm_grab.c:1122-1152 | A report is accepted exactly when both validators pass and the stride covers its row of pixels. |
| `Capture.Capture.GrabHelper` | src/drm_grab.c:1039-1271 | All exits of the helper branch: a received descriptor is either the new frame's or closed, a record survives only in a frame that is handed out, and whatever the conversions or the caller got is the helper's own report at the decided width, checked, with its HDR state, backed by a mapping or by a payload of exactly that size (`HelperServed`). It fails only if some step did, or the report was not usable. |
| `Capture.Capture.DoGrab` | src/drm_grab.c:939-1424 | The slow grab conserves handles, descriptors, mappings and windows on every exit. On the direct route the frame has the height, format and modifier (INVALID without modifiers) of the framebuffer now on the plane, the width decided from the CRTC, and a descriptor of its buffer; on the helper route, the report's; a mapped frame has the data, stride and format the conversions made of that (`Finished`) and a tiled or forced one never its raw mapping. It fails only for the stated reasons, and has NULL data exactly in the one helper case. |
| `Capture.Capture.Process` | src/drm_grab.c:1514-1536 | Every call into the conversions, fast, slow or through the helper, passes geometry both validators accept and a source of at least stride * height bytes: the preconditions under which `AutoProcess` is proved. What was passed, what was made of it and which buffer was behind the descriptor are recorded. |
| `Capture.Capture.GrabDesc` | src/drm_grab.c:1820-1874 | Succeeds only with a transferable descriptor; a frame that has only pixels is released and the plane name restored. On the direct route the exported width, height, format, modifier, pitches, offsets and plane count are the framebuffer's (the width as decided) and the descriptor is of its buffer; on the helper route they are the report's. The HDR state is the connector's or the report's. It fails only for the stated reasons. |
| `Capture.Capture.FrameRelease` | src/drm_grab.c:1883-1922 | Exactly this frame's resources are given back, its window before its descriptor, and the frame is blanked. |
| `Capture.Capture.FastSyncClose` | src/drm_grab.c:494-501 | Every window a slot owes is closed once, and only such windows: the ENDs issued are listed. |
| `Capture.Capture.FastSyncBegin` | src/drm_grab.c:508-514 | After those ENDs exactly one START is issued, on this slot's descriptor, and its flag is that START's outcome. |
| `Capture.Capture.FastCleanup` | src/drm_grab.c:1937-1961 | All four slots end unused and everything they held is given back. |
| `Capture.Capture.FindOrAllocSlot` | src/drm_grab.c:1965-1997 | A slot of this framebuffer, else an unused one, else slot 0 whatever its age, released first; no other slot changes. |
| `Capture.Capture.MapImport` | src/drm_grab.c:2255-2301 | The virtio mapping after a transfer, else one recorded START then the mapping at the plane's offset; the sticky flag is set exactly when no mapping came. |
| `Capture.Capture.StoreSlot` | src/drm_grab.c:2376-2411 | The import becomes the slot's, with its open window; fb_ids stay pairwise distinct and at most one window is open. |
| `Capture.Capture.MakeCoherent` | src/drm_grab.c:2073-2083 | Exactly what is issued before a cached slot is read: the ENDs owed and a START on its descriptor, or on virtio a transfer into its own buffer; a failed transfer issues nothing. |
| `Capture.Capture.ServeSlot` | src/drm_grab.c:2071-2108 | A hit passes the conversions the slot's own mapping, descriptor, geometry and restaged planes, whatever slow grabs staged in between, only after its pixels were made current by this call, and hands out what the conversions made of it. |
| `Capture.Capture.ServedLiterally` | src/drm_grab.c:2085-2096 | Field by field, what a slot passes to the conversions is its framebuffer's height, pitch, format, effective modifier, pitches and offsets. |
| `Capture.Capture.FrameLiterally` | src/drm_grab.c:2085-2104 | The frame handed out has the height and effective modifier of the framebuffer it was served from and no more than its width. |
| `Capture.Capture.ServeFd` | src/drm_grab.c:2303-2373 | The unmapped route caches nothing, reads the framebuffer's own buffer through the export, gives that back with its window closed on every exit, and never succeeds without pixels. |
| `Capture.Capture.Miss` | src/drm_grab.c:2169-2439 | A miss fills the slot from the framebuffer the id names now, or leaves nothing live; losing privilege empties the cache. |
| `Capture.Capture.GrabMappedFast` | src/drm_grab.c:2012-2440 | The fast grab keeps every invariant on every exit and hands out what the conversions made of the framebuffer now on its plane: the height and modifier of the framebuffer it was served from, the width decided now or when the slot was filled (`Widths`), converted data that for a tiled scanout is never the raw mapping. What came from a slot was described by `SlotServed` and made current since the call began; what the GPU read was that framebuffer's buffer. A cached framebuffer is served from the cache. It names the plane only on success, and fails only for the stated reasons. |
| `Capture.Capture.CacheRefinesAcquire` | src/drm_grab.c:1999-2010 | While no fb_id is recycled, what a slot passed to the conversions equals what an uncached acquire passes now, and mapping and descriptor are of the framebuffer's buffer; only the width is as of the fill. |
| `Capture.Capture.Close` | src/drm_grab.c:1937-1963 | Emptying the cache with no frame outstanding leaves no handle, descriptor or mapping. |
| `Capture.Capture.AnyRun` | src/drm_grab.c:1813-2440 | Any interleaving of grabs, descriptor grabs, fast grabs, releases, resets and compositor changes, with any call failing anywhere, ends with empty ledgers and no window owing an END once the remaining frames are released and the context closed. |
| `OutputBuffers.EnsureBuf` | src/drm_grab.c:523-541 | Zero, oversized and out-of-memory requests are told apart; a buffer that is large enough is returned untouched; no other block changes. |
| `OutputBuffers.Outputs.EnsureOut` | src/drm_grab.c:564-600 | Every sized request is counted, refused ones included; a caller's buffer is used or refused, never grown; all other contexts keep their blocks. |
| `OutputBuffers.RefusedExactly` | src/drm_grab.c:564-600 | The codes: -22 for nothing, -27 beyond 132,710,400 bytes, -28 when a caller's buffer is too short. |
| `OutputBuffers.UntouchedIsExact` | src/gpu_egl.c:1533-1533 | The 32-bit counter says "untouched" exactly when no destination was handed out since, or a positive multiple of 2^32 were. |
| `SkipCache.ImageSize` | src/gpu_egl.c:1553-1553 | A readback writes 4 * width * height bytes. |
| `SkipCache.TexelBytes` | src/gpu_egl.c:1575-1575 | Byte for byte, bytes 4 * (y * width + x) and the three after it are red, green, blue and alpha of texel (x, y): rows from the top, texels from the left. |
| `SkipCache.BytesShowImage` | src/gpu_egl.c:1575-1575 | Those bytes determine the image: a readback shows every texel. |
| `SkipCache.HashCache.Check` | src/gpu_egl.c:588-652 | The hash pass reports "same" exactly when the record was valid, every key field matches and the grids are equal; it completes for every grid within the limit unless a step fails; each memcmp reads only entries that were written; otherwise the record is invalid. |
| `SkipCache.HashCache.Commit` | src/gpu_egl.c:655-661 | After a full convert the swapped grid is the whole hash of that image. |
| `SkipCache.HashImage` | src/gpu_egl.c:637-638 | The pass yields one entry per 32x32 block, row by row. |
| `EglThread.EglThread.Convert` | src/gpu_egl.c:1294-1620 | A convert that succeeds rendered without a GL error, on the context's own device, the buffer it was given unless the image cache mistook another for it (exactly `Mistaken`); a cached import that stands for the frame is used and nothing is imported. Full, it returns that buffer's image, each texel in its place (`Displays`); skipped, the last full convert's, of the same size, format, modifier and hash, unless the counter went round exactly (`tainted`). Where skipping is opted into, the hash pass completes from 1080p to its grid's limit, and it does skip when nothing the record looks at moved. While no step fails, it is refused only for its dimensions (EINVAL, EFBIG), for want of both a descriptor and a cached import (EINVAL), or for a caller's buffer that is too short (ENOSPC). |
| `EglThread.TexelOf` | src/gpu_egl.c:1575-1575 | Of an image on display, the four bytes at 4 * (y * width + x) are r, g, b, a of texel (x, y). |
| `EglThread.EglThread.Resolve` | src/gpu_egl.c:1533-1564 | If the output's counter stands where the record has it and did not go round, taking the destination again returns the same block with the recorded bytes still in it. |
| `EglThread.EglThread.TrySkip` | src/gpu_egl.c:1565-1572 | A skip re-arms the record for the destination it returned. |
| `EglThread.EglThread.Prepare` | src/gpu_egl.c:1303-1352 | On success the GL state is the context's device's; a device switch drops the record and every image and texture, and otherwise nothing of the cache or record moves. It fails only for the dimensions or a step of the driver. |
| `EglThread.EglThread.Produce` | src/gpu_egl.c:1533-1601 | No frame is handed out, full or skipped, whose render raised a GL error, although the hash pass clears the error flag in between; while no step fails, only a caller's buffer that is too short is refused. |
| `EglThread.EglThread.Cleanup` | src/gpu_egl.c:897-934 | Tear-down leaves no image, no texture and no hash record. |
| `EglThread.EglThread.Close` | src/drmtap.c:752-788 | Closing a context on its thread drops the record, so a new context at the same address cannot match it. |
| `EglThread.EglThread.CpuConvert` | src/drm_grab.c:1464-1476 | A CPU conversion disarms the record of its own context and leaves other contexts' recorded bytes alone. |
| `EglThread.EglThread.Flip` | src/gpu_egl.c:1359-1366 | The thread's invariant survives the compositor freeing buffers and reusing their inodes. |
| `EglThread.EglThread.AnyRun` | src/gpu_egl.c:1354-1422 | Any run of converts, CPU conversions, opens, closes and compositor changes that recycle framebuffer ids and inodes: while fstat answers, every convert samples the very buffer it was given; at the end no context, image or texture is left. |
| `EglThread.EglThread.OldBytesAfterWrap` | src/gpu_egl.c:1533-1572 | A run in which the skip returns old bytes: 2^32 CPU conversions between two converts of an unchanging screen, and the second, when its hash pass completes, hands out theirs. |
| `EglThread.SkipIsExact` | src/gpu_egl.c:582-587 | A skipped convert holds exactly the bytes a full readback would have written if and only if the image did not change; hash-equal images being equal is enough. |
| `EglThread.OneTexelIsNeverSkipped` | src/gpu_egl.c:524-527 | With no collision assumption: an image in which some block changed in exactly one texel is never skipped. |
| `EglImageCache.ImageCache.Lookup` | src/gpu_egl.c:1384-1422 | The sweep returns the slot that stands for the frame, or drops the stale one under its key and names a free slot; other slots are untouched. |
| `EglImageCache.ImageCache.Acquire` | src/gpu_egl.c:1354-1475 | At most one slot per (owner, fb_id), and the slot served was imported with this frame's layout; the buffer sampled is the one supplied if and only if no cached import of another buffer stood in, which needs an unknown inode; a cached import that stands for the frame is used and nothing is imported or released; it fails only for a failed step, or without both a descriptor and a cached import. |
| `EglImageCache.ImageCache.HitsExactly` | src/gpu_egl.c:1384-1410 | When a cached import stands for a frame: same context, framebuffer id and layout, and no two known inodes that differ. |
| `EglImageCache.ImageCache.KnownIdentityIsExact` | src/gpu_egl.c:1370-1375 | With both inodes known a recycled fb_id is always re-imported, because a cached image pins its buffer and so its inode. |
| `EglImageCache.ImageCache.ReleaseAll` | src/gpu_egl.c:903-908 | All slots released: no image or texture is left. |
| `EglImageCache.ImageCache.Finish` | src/gpu_egl.c:1603-1613 | An uncached import is gone when the call ends; a cached one stays in its slot. |
| `EglImageCache.ImageCache.AtMostSlots` | src/gpu_egl.c:1447-1472 | Live images and textures are exactly the slots' and never more than four. |
| `BlockHash.HashBlock` | src/gpu_egl.c:532-553 | The shader loops compute the fold over exactly the texels of the block that lie in the image. |
| `BlockHash.MixInjectiveInHash` | src/gpu_egl.c:544-545 | For any texel the h1 step is injective in the running hash. |
| `BlockHash.MixInjectiveInTexel` | src/gpu_egl.c:544-545 | For any running hash the h1 step is injective in the texel. |
| `BlockHash.AvalancheInjective` | src/gpu_egl.c:551-551 | The final mixing is injective in the hash, for any count. |
| `BlockHash.BlocksPartition` | src/gpu_egl.c:594-594 | Every texel lies in exactly one block of the grid. |
| `BlockHash.OneTexelMovesBlock` | src/gpu_egl.c:535-552 | One changed texel in a block always changes the h1 of that block: the difference survives every later step. |
| `BlockHash.OneTexelMovesGrid` | src/gpu_egl.c:645-647 | Two same-size images in which some block differs in exactly one texel have different grids. |
| `TileLayout.AddressInvertible` | src/pixel_convert.c:62-76 | X and Y tiling: the address gives column and row back, so distinct bytes have distinct addresses. |
| `TileLayout.AddressOnto` | src/pixel_convert.c:114-133 | Every address is the image of a byte inside the tile row: the map is a bijection. |
| `TileLayout.PixelContiguous` | src/pixel_convert.c:135-136 | The four bytes of a pixel are contiguous in the tiled source. |
| `TileLayout.AddressMonotone` | src/pixel_convert.c:62-76 | Addresses never fall along a row or down a column. |
| `TileLayout.FootprintBound` | src/pixel_convert.c:77-82 | For geometry both validators pass, the footprint rounded up to whole tiles is at most tile height * MAX_FB_BYTES, below 2^32. |
| `TileLayout.FootprintBoundAttained` | src/pixel_convert.c:94-97 | That bound, 4,246,732,800 bytes for Y tiling, is attained. |
| `TileLayout.OffsetsDoNotWrap` | src/pixel_convert.c:64-75 | No 32-bit offset of either loop wraps, and the whole pixel lies in the footprint. |
| `Deswizzle.DeswizzleIntelX` | src/pixel_convert.c:48-88 | The in-place loop writes exactly the decoded image: every visible pixel, zero where the source ends, nothing else. |
| `Deswizzle.DeswizzleIntelY` | src/pixel_convert.c:100-147 | The same for Y tiling. |
| `Deswizzle.CopyRows` | src/pixel_convert.c:270-284 | The row-addressed copy writes whole rows, or zeros for rows the source does not back. |
| `Deswizzle.DeswizzleFrame` | src/pixel_convert.c:243-320 | Which layout a modifier selects, which error it gets, and what the destination holds afterwards. |
| `Deswizzle.XTiledPixel` | src/pixel_convert.c:48-88 | Byte for byte what modifier 0x0100_0000_0000_0001 means: pixel (x, y) is stored at ((y / 8 * tiles + 4x / 512) * 4096 + y % 8 * 512 + 4x % 512) modulo 2^32, and zero when that is not backed. |
| `Deswizzle.YTiledPixel` | src/pixel_convert.c:100-147 | The same for modifiers 2 and 3 of that vendor: 128-byte by 32-row tiles in sixteen-byte columns. |
| `Deswizzle.LinearPixel` | src/pixel_convert.c:266-290 | LINEAR and INVALID are addressed by rows, each whole or not at all. |
| `Deswizzle.DecodesExactly` | src/pixel_convert.c:286-345 | No other modifier is decoded than 0, INVALID, and the three low bytes 1, 2, 3 of vendor 1. |
| `Deswizzle.PaddingKept` | src/pixel_convert.c:78-82 | Destination bytes right of the visible row keep their value. |
| `Deswizzle.DeswizzleInvertsTiling` | src/pixel_convert.c:48-147 | Tile then deswizzle is the identity on every visible byte when stride and height are whole tiles, for any destination stride. |
| `Deswizzle.ZeroFillExactly` | src/pixel_convert.c:73-82 | For every accepted geometry, padded or not, and any source size: no visible pixel is zero-filled if and only if the last pixel of the last row is backed. |
| `Deswizzle.UnpaddedZeroFill` | src/pixel_convert.c:73-82 | On unpadded whole-tile rows at the size the capture path passes, that is when the height is a whole number of tiles or the X-tiled image is one tile wide. |
| `Deswizzle.PaddedRowsGoBothWays` | src/pixel_convert.c:73-82 | Height alone does not decide it: X-tiled 1680x1050 at stride 7168 loses pixels, 1x9 at stride 51200 does not. |
| `Deswizzle.FullHdYTiledZeroFills` | src/pixel_convert.c:130-140 | 1920x1080 Y-tiled loses visible pixels; X-tiled does not. |
| `Reduce.MapPixels` | src/pixel_convert.c:189-212 | A reduction over a buffer, also onto itself, equals the reduction of what the buffer held before. |
| `Reduce.OutsideKept` | src/pixel_convert.c:189-212 | Destination bytes right of the visible row or below the last one keep their value. |
| `Reduce.TenBitIsQuarter` | src/pixel_convert.c:202-210 | Each output channel is a quarter of the matching 10-bit channel, in the order the format names. |
| `Reduce.TenBitBytes` | src/pixel_convert.c:202-210 | From the four source bytes to the four output bytes: which ten bits become which channel for both orders, and opaque alpha. |
| `Reduce.SixteenIsHighByte` | src/pixel_convert.c:547-598 | Each output channel is the high byte of its 16-bit channel, in the order the format names. |
| `Reduce.SwapSwaps` | src/pixel_convert.c:217-237 | Red and blue change places, green and alpha stay; twice is nothing. |
| `Reduce.ConvertFormat` | src/pixel_convert.c:679-744 | The supported pairs, the refused strides and formats, and the exact destination. |
| `Reduce.SupportedPairs` | src/pixel_convert.c:700-744 | Which pairs of formats convert, by code, and with which conversion. |
| `Reduce.TonemapHdr10` | src/pixel_convert.c:501-545 | The order of the refusals, and the exact destination for an arbitrary tone curve. |
| `Reduce.ConvertWide` | src/pixel_convert.c:547-598 | Eight-byte sources: refused exactly when a row does not fit, else reduced. |
| `Reduce.InPlaceEqualsSeparate` | src/drm_grab.c:1738-1763 | Reducing the deswizzled buffer onto itself shows the same pixels as reducing it into any other. |
| `FrameDiff.DiffFrames` | src/pixel_convert.c:751-796 | The count is the number of dirty tiles, and the array holds the first of them in scan order, the rest of it untouched. |
| `FrameDiff.DirtyExactly` | src/pixel_convert.c:771-782 | A tile is dirty if and only if one of its visible pixels changed. |
| `FrameDiff.TilesPartition` | src/pixel_convert.c:759-770 | Every visible pixel lies in exactly one tile. |
| `FrameDiff.ReportsDirtyTiles` | src/pixel_convert.c:784-792 | The list holds exactly the dirty tiles. |
| `FrameDiff.ListedExactly` | src/pixel_convert.c:759-793 | By bytes: a rectangle is listed if and only if it is a square of the grid, cut off at the edges, and one of the four bytes of some pixel inside it differs. |
| `FrameDiff.RowsOrdered` | src/pixel_convert.c:762-793 | The list is in scan order, from the top and from the left, so no tile is in it twice. |
| `FrameDiff.DiffThenPatch` | src/pixel_convert.c:751-796 | Copying the listed rectangles from frame b over frame a shows b on the whole visible area. |
| `FrameDiff.TruncatedPatchIsStale` | src/pixel_convert.c:785-791 | When the array is too short, patching what it holds leaves a changed pixel stale. |
| `FrameDiff.PaddingIrrelevant` | src/pixel_convert.c:773-781 | The list depends on visible bytes alone. |
| `AutoProcess.Converter.EnsureOut` | src/drm_grab.c:564-600 | Refused exactly as `Refusal` says, or out of memory when the buffer has to grow; otherwise a destination at least as long as asked for, the caller's if it set one. |
| `AutoProcess.Converter.ReduceLinear` | src/drm_grab.c:1451-1512 | A high-depth linear frame becomes width * 4 XRGB8888 with every pixel reduced; others are left alone; it is refused only for want of room or memory or for a row too narrow, and errors change nothing. |
| `AutoProcess.Converter.CpuDeswizzle` | src/drm_grab.c:1657-1769 | Only a known driver and decodable modifier succeed, and then every pixel is the (reduced) decoded one in the resolved destination; it is refused for nothing else but want of room or memory or a narrow row. |
| `AutoProcess.Converter.AutoProcess` | src/drm_grab.c:1514-1807 | The order of attempts: the GPU is asked exactly when it can help, its image is final and so is its refusal of a too small destination; a tiled scanout never comes back as its raw mapping; a forced readback is the GPU's or fails; what comes back raw is relabelled in nothing; all reads stay in the mapping and all writes in the destination; it fails only for the stated reasons. |
| `AutoProcess.Converter.TiledFrame` | src/drm_grab.c:1657-1769 | Without the GPU a tiled 8-bit frame is its source so decoded, at the source's own stride. |
| `AutoProcess.Converter.ReducedFrame` | src/drm_grab.c:1451-1512 | A deep row-addressed frame byte by byte: pixel (x, y) at y * width * 4 + 4x is the reduction of the source pixel at y * stride + x * bytes per pixel. |
| `AutoProcess.Converter.ReductionsByCode` | src/drm_grab.c:1451-1512 | Which format code is reduced how, in SDR and under PQ, and that no other format is. |
| `AutoProcess.LayoutsByCode` | src/drm_grab.c:1514-1560 | Which modifiers count as row-addressed, with and without a GPU, and which as tiled. |
| `AutoProcess.XTiledBytes` | src/pixel_convert.c:48-88 | In a decoded X-tiled buffer the byte at y * stride + 4x + b is source byte o + b, with the offset o spelled out in numbers, or zero. |
| `AutoProcess.YTiledBytes` | src/pixel_convert.c:100-147 | The same for both Y tilings. |
| `AutoProcess.DecodedThenReduced` | src/drm_grab.c:1730-1763 | Deswizzle followed by the in-place reduction shows the reduction of every decoded pixel. |
| `SplitConvert.Probe` | src/drm_grab.c:2531-2568 | A supplied descriptor passes only if it is a dma-buf and covers the image and a row of each further plane; its window is closed again; while no call fails, nothing else is refused. |
| `SplitConvert.AcceptedExactly` | src/drm_grab.c:2465-2530 | Which descriptors are accepted, in numbers: at most 4 planes, 1 to 32,768 pixels a side, 33,177,600 pixels, 132,710,400 bytes, rows that hold their pixels; and the codes of the others. |
| `SplitConvert.InsideExactly` | src/drm_grab.c:2531-2568 | The extent check plane by plane; a descriptor that counts no planes has one. |
| `SplitConvert.ConvertOnCpu` | src/drm_grab.c:2621-2706 | The mapping is exactly the image, inside the buffer; window and result, with its geometry and format, on every exit; and what it fails for. |
| `SplitConvert.ConvertDmabuf` | src/drm_grab.c:2465-2706 | Rejections by the numbers alone change nothing; windows end as they were; the HDR state is the descriptor's; a frame comes back only as the GPU's image or as the source decoded, reduced or packed pixel by pixel, in the descriptor's geometry and the format that says so; without a GPU it is the documented linear image if and only if the descriptor is LINEAR. While no call fails, it fails only for the stated reasons. |
| `SplitConvert.DocumentedExactly` | src/drm_grab.c:2656-2706 | Whatever a converted frame shows, it is laid out as documented exactly when the descriptor's modifier is LINEAR. |
| `SplitConvert.TiledFrameIsNotAsDocumented` | src/drm_grab.c:2656-2706 | An accepted X-tiled descriptor whose CPU-converted frame is not as documented. |
| `SplitConvert.PackedPixel` | src/drm_grab.c:2671-2693 | The packed copy shows the source's own pixels without its padding. |
| `SplitConvert.LinearFrame` | src/drm_grab.c:2671-2693 | A linear 8-bit frame byte by byte: the byte at y * width * 4 + 4x + b is the supplied buffer's at offset + y * pitch + 4x + b. |
| `SplitConvert.TiledFrom` | src/drm_grab.c:2671-2693 | A tiled 8-bit frame is the supplied bytes decoded at their own stride, as `AutoProcess.XTiledBytes` and `AutoProcess.YTiledBytes` spell out. |
| `SplitConvert.OffGpu` | src/drm_grab.c:2621-2706 | Off the GPU a converted frame is made of exactly the stride * height bytes from the descriptor's offset. |
| `Geometry.SizeBound` | src/drm_grab.c:669-677 | The division in the size check bounds stride * height exactly at the cap. |
| `Geometry.AcceptedExactly` | src/drm_grab.c:547-562 | Which dimensions and sizes pass the two validators, in numbers, and with what codes the others are refused. |
| `Geometry.AcceptedBounds` | src/drm_grab.c:547-562 | What the two validators and the row check together give every later multiply. |
| `Wire.RecvAll` | src/wire.h:115-130 | Success is exactly the next len bytes however transfers split; failure means the connection is dead; which of the two is decided by the script (`RecvRun`). |
| `Wire.PatienceSuffices` | src/wire.h:115-130 | As many transfers as bytes are enough for an exact-length receive, wherever they split. |
| `Wire.SendAll` | src/wire.h:95-110 | All bytes, in order and once, or the connection is dead. |
| `Wire.SendFd` | src/wire.h:136-168 | The ledger of descriptors passed grows by exactly this one, riding on the first byte of the metadata, however that is split or interrupted; if no byte was taken it does not grow. Success delivers all of the metadata. |
| `Wire.RecvFd` | src/wire.h:176-244 | Every descriptor installed is the one returned or closed; on failure none is kept; how the call ends and what it leaves unread is the stated function of the transfers and ancillary data (`FdRun`). |
| `Wire.CollectFds` | src/wire.h:204-225 | Over any control blocks exactly the first descriptor survives, and the count is the number installed. |
| `HelperProtocol.CmdRoundTrip` | src/wire.h:69-93 | A command frame decodes to itself. |
| `HelperProtocol.CmdFrame` | src/wire.h:61-79 | The sixteen bytes of a command: magic, version 1, the kind, length 16 and the display that was asked for, little-endian. |
| `HelperProtocol.ServedExactly` | src/wire.h:86-93 | Which frames pass the gate, in numbers; an older helper does not know kind 3. |
| `HelperProtocol.DecodeEncode` | src/wire.h:246-280 | Reply words survive the wire. |
| `HelperServer.PickScanout` | helper/drmtap-helper.c:678-714 | The plane grabbed is the first active primary plane of the target display, else its first active plane; none only if none is active. |
| `HelperServer.PickPointer` | helper/drmtap-helper.c:393-410 | The cursor plane is the target's first active one of that kind; none only if there is none. |
| `HelperServer.GrabAndSend` | helper/drmtap-helper.c:669-943 | From what the kernel answers about the target's scanout plane: a descriptor exactly when the export is wanted and succeeds, every byte of the mapping exactly when one is there and neither was exported nor belongs to the host, otherwise the error reply; and word by word, that framebuffer's width, height, pitch, format, id and modifier, the stamp, and the HDR state of that plane's display. |
| `HelperServer.PackedFits` | helper/drmtap-helper.c:440-449 | Under the geometry cap the packed rows fit the fixed 256 * 256 * 4 buffer. |
| `HelperServer.Pack` | helper/drmtap-helper.c:493-497 | The row loop packs exactly the visible rows into that buffer. |
| `HelperServer.CursorAndSend` | helper/drmtap-helper.c:384-517 | Of the target's cursor plane: position, hotspot (unknown coordinates zero) and size word by word; visible exactly when every step succeeded, and then the payload shows every pixel of it, packed; the extended reply says whether the hotspot was measured. |
| `HelperServer.CursorByte` | helper/drmtap-helper.c:493-497 | The payload byte at y * width * 4 + 4x + b is the mapped one at y * pitch + 4x + b. |
| `HelperServer.Link.Serve` | helper/drmtap-helper.c:1080-1122 | A frame the helper knows gets one reply of its shape that describes what the kernel showed on the display the command names (`Truthful`), put on the ledger of what was served, whole or as far as a dying helper got, and cursor payloads within the cap; any other frame closes the connection unanswered. The exchange is logged with the command as it was decoded. |
| `HelperServer.Link.QuietMeansConsumed` | src/wire.h:115-130 | On a live connection with nothing in flight, every byte of every reply served has been read. |
| `PrivilegeHelper.HelperClient.Grab` | src/privilege_helper.c:227-323 | The command the helper read has magic, version, kind 1, length 16 and this display. What the call returns is a function of the last thing the machine did: a failed spawn, a refused send, or a reply (`GrabVerdict`); a success hands out the last reply served, whole, and that is of the framebuffer the helper found on this display (`Told`). The connection is aligned afterwards if and only if its script and the reply served satisfy `GrabReplyKept` (or `FirstUseKept` for a connection this call made); at most the one descriptor returned stays open. |
| `PrivilegeHelper.HelperClient.GrabReply` | src/privilege_helper.c:251-323 | For any reply, script and ancillary data: which return code (`GrabRet`), what is drained or closed, and exactly when bytes of the reply stay behind. |
| `PrivilegeHelper.WholeGrabReply` | src/privilege_helper.c:251-323 | For a reply that arrives whole on a lasting connection, in numbers: 0 with a descriptor when word 12 is odd, -5 without one, -5 for size 0, -28 for a payload beyond the buffer, else 0. |
| `PrivilegeHelper.InterruptedRecvmsgMisaligns` | src/wire.h:192-195 | An interrupted recvmsg leaves any reply unread for the next command to misread. |
| `PrivilegeHelper.ShortRefusalMisaligns` | src/wire.h:226-231 | Refused control data after one byte leaves the rest of the reply; after all of it, nothing. |
| `PrivilegeHelper.CutCommandMisaligns` | src/privilege_helper.c:236-252 | A retried command that is cut short leaves part of a frame before the next one, whatever is answered. |
| `PrivilegeHelper.RefusedBufferMisaligns` | src/privilege_helper.c:427-430 | A cursor whose buffer cannot be allocated leaves its pixels unread; granted, it leaves none. |
| `PrivilegeHelper.DrainFrame` | src/privilege_helper.c:300-315 | The oversized frame drain counts what it received: it succeeds exactly when `FrameDrained` says, and then consumes exactly the payload. |
| `PrivilegeHelper.CursorDrainExactly` | src/privilege_helper.c:416-425 | The oversized cursor drain consumes exactly the payload if and only if every chunk arrives whole. |
| `PrivilegeHelper.OversizedKeptExactly` | src/privilege_helper.c:416-425 | With its whole payload in flight an oversized cursor is consumed if and only if the connection dies or every chunk arrives whole. |
| `PrivilegeHelper.InterruptedDrainMisaligns` | src/privilege_helper.c:416-425 | An oversized cursor whose drain is interrupted stays unread on a connection that lives on. |
| `PrivilegeHelper.SplitDrainDesynchronises` | src/privilege_helper.c:416-425 | A split transfer leaves payload bytes where the next reply is read. |
| `PrivilegeHelper.DrainCursor` | src/privilege_helper.c:416-425 | How many bytes the cursor drain takes, and whether the connection survives it, for any splitting. |
| `PrivilegeHelper.HelperClient.GetCursor` | src/privilege_helper.c:325-439 | The command it ends on asks for this display, with kind 2 or 3 as the fallback is latched or not, and the cursor is that reply's, of the plane the helper found on this display (`Told`). Negotiation terminates and its latches agree with the machine's log (`Agreed`): set exactly by extended commands that were answered, or met with silence and a fresh helper, and the legacy command is asked exactly after two strikes. No poll ends on a silence where the extended command was never answered. What it returns, and whether provenance is recorded, is decided by the command it ends on (`Outcome`); with obliging helpers it succeeds, old ones included (`Helped`); and the connection is aligned afterwards if and only if `CursorReplyKept` (or `FirstUseKept`) holds. |
| `PrivilegeHelper.HelperClient.CursorReply` | src/privilege_helper.c:346-439 | The same from the command on: the reply's metadata decides between the latch, the retry and the pixels. |
| `PrivilegeHelper.WholeCursorReply` | src/privilege_helper.c:389-439 | For a cursor reply that arrives whole, in numbers: 0 when word 6 or word 7 is zero or the size is beyond 262,144, else 0 or -12 as memory is granted or not. |
| `PrivilegeHelper.HelperClient.AnyRun` | src/privilege_helper.c:227-439 | Any sequence of grabs and cursor polls, over any helpers dying anywhere: while nothing is interrupted, refused, cut short or out of memory, every call leaves the connection aligned or gone, every reply on it consumed, the latches in agreement with the log, and no descriptor open. |
| `PrivilegeHelper.WillingAnswers` | src/privilege_helper.c:350-439 | A whole reply on a connection that lasts is read, metadata and pixels, when there is memory. |
| `Negotiation.AgreedAsked` | src/privilege_helper.c:336-352 | Latches that agree with the log still do after a cursor command of the kind they call for, once an extended answer is noted. |
| `Negotiation.AgreedStrike` | src/privilege_helper.c:353-387 | One silence met with a fresh helper is exactly what sets the retry latch, and a second one, with no answer ever, exactly what sets the fallback. |
| `PrivilegeHelper.HelperClient.Unanswered` | src/privilege_helper.c:353-387 | After a silence on a context that never had an answer: one strike is counted, and with obliging helpers left the poll still succeeds. |
| `PrivilegeHelper.HelperClient.CursorPixels` | src/privilege_helper.c:413-438 | The pixels that follow the metadata: which return code (`PixelsRet`), and exactly when some of them stay unread (`PayloadKept`). |
| `Enumerate.RefreshGcd` | src/drm_enumerate.c:68-75 | The loop computes the greatest common divisor. |
| `Enumerate.FnvStep` | src/drm_enumerate.c:151-151 | One fold is an exclusive-or and a multiplication by 1,099,511,628,211 modulo 2^64. |
| `Enumerate.RawRate` | src/drm_enumerate.c:85-95 | Rate numerator and denominator fit in 64 bits for every mode. |
| `Enumerate.ModeRefresh` | src/drm_enumerate.c:81-100 | For any mode with timings the pair is, in lowest terms and with a positive denominator, exactly clock * 1000 (twice that interlaced) over htotal * vtotal (twice that doublescanned, times vscan above one). |
| `Enumerate.SameRateSamePair` | src/drm_enumerate.c:77-80 | Two modes are reported alike if and only if they run at the same rate. |
| `Enumerate.TopologyHash` | src/drm_enumerate.c:149-181 | The sweep from 1,469,598,103,934,665,603: the two counts, then connector by connector its id, connection and CRTC, and the four mode values of a bound one whose CRTC can be read (`Adds`). |
| `Enumerate.DetectableChangesHash` | src/drm_enumerate.c:150-151 | Equal-length folds that differ in one value, or in an adjacent 16-bit pair, hash differently. |
| `Enumerate.PairInjective` | src/drm_enumerate.c:172-173 | The two resolution folds together are injective in (hdisplay, vdisplay). |
| `Enumerate.ConnectorEditDetected` | src/drm_enumerate.c:154-178 | One connector edited detectably moves the topology hash. |
| `Enumerate.PlugDetected` | src/drm_enumerate.c:142-148 | A monitor plugged in or out of an existing connector moves it. |
| `Enumerate.ResolutionChangeDetected` | src/drm_enumerate.c:166-175 | A modeset to another resolution at the same refresh figure moves it. |
| `Enumerate.HotplugWatch.DisplaysChanged` | src/drm_enumerate.c:301-324 | A poll reports a change exactly when the hash moved, hence for every detectable change, never for an identical topology. |

## Left out

Hypotheses and scope of what is stated:

- EglThread.EglThread.Close: closing happens on the thread that converts, as the header requires; closing on
  another thread is not modelled, and neither are several threads on one heap.
- Capture.Capture.CacheRefinesAcquire: stated for framebuffer ids that were not recycled since their slot was
  filled, which is what the fast path documents.
- Capture.Capture.FrameRelease: the caller releases a frame at most once and does not overwrite an unreleased
  one; an overwritten frame stays live in the model, as in C.
- FrameDiff.DiffFrames: rows of width * 4 bytes fit the stride and frames are at most 2^32 bytes, the range in
  which the code's 32-bit row offsets are exact.
- Deswizzle.DeswizzleFrame: the destination image ends within 2^32 bytes, for the same reason.
- PrivilegeHelper.HelperClient.Grab: stated for an aligned connection; what a misaligned one makes of the bytes
  it misreads is not followed.
- The image-level claims about tiled frames are about formats of four bytes a pixel; for wider ones only bounds
  and fail-closed behaviour are covered.

Not modelled:

- Real ioctls, DRM properties, EGL and GL calls, dlopen and thread keys: nondeterministic outcomes only. What
  the GPU renders is an arbitrary image of the buffer it samples.
- The tone curve, sRGB tables, gamut matrix and half-float decode: arbitrary functions of the source pixel.
- The retry variants inside the EGL import: they end in an image or in none.
- The errno of a failed helper spawn: it is EACCES here.
- Interrupted system calls are retried as long as the script interrupts; an endless run of interruptions is
  not a run of the model.
- The helper's own GEM bookkeeping, CPU-access windows and device checks, and `src/cursor.c`.
- Device and render-node discovery, connector naming, display listing, capabilities, seccomp, peer
  credentials, fork and exec.
- The Nvidia and AMD layouts: the code refuses them on the CPU.
- The copies under `bindings/` and the examples.
