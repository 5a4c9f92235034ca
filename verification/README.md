# Verified models of a NetSurf port

The stateful cores of this NetSurf port, modelled in Dafny and proved to agree with the simple things they stand
for. Code that updates fields, arrays and linked structures is modelled as classes and methods with loops; each
method is proved against a specification function or an invariant, and lemmas about those state what the program
is for. `dafny verify dfyconfig.toml` checks everything.

| part | files | what is proved |
|---|---|---|
| GIF decoder (`lzw.c`, `gif.c`) | BitString, LzwReader, SubBlocks, LzwSpec, LzwEncoder, LzwDecoder, LzwRuns, Interlace, GifDraw, GifMovie, GifDisposal, GifCanvas, GifAnimation | the code reader reads a flat bit string however it is cut into sub-blocks; decoding what an Appendix F encoder wrote gives back the values, in any sequence of calls; the fast and the general pixel path draw the same; what every pixel shows after drawing and disposal; random access equals sequential play exactly in files without a certain kind of frame; the trace of an animation |
| resource-fork writer | ResourceFork | reading back what was written recovers the records if and only if their data and names lie where the offsets lead |
| fetch scheduler (`fetch.c`) | FetchScheduler | limits, work conservation, order per host, and the life of a fetch and its fetcher |
| disk cache (`fs_backing_store.c`) | BlockMap, BlockDisk, StoreIndex, BackingStore | blocks are never shared, sizes add up, held entries stay, eviction takes a shortest run of the least used, and what was stored is fetched |
| string interner (`libwapcaplet.c`) | StringHash, InternTable, Interning | one object for equal bytes, one companion for strings equal ignoring case, and destruction exactly when nothing needs a string |
| high-level cache (`hlcache.c`, user lists of `content.c`) | ContentCache, HighLevelCache | no handle leads to a destroyed content, cleaning takes exactly what is unused, the drain loops end |
| stylesheet (`stylesheet.c`, chains of `hash.c`) | SelectorChain, SelectorHash, RuleTree, Stylesheet | the selector hash holds exactly the selectors of the rules linked in, sorted; when failures roll back completely, and when filters stay right |

## How the source is modelled

- Objects that the C code allocates and frees and that point to each other (interned strings, cache entries,
  contents and handles, rules and selectors) live in maps from address to record; freeing removes the address, so
  a dangling pointer would be a key that is missing. An address to allocate at is a parameter: any that is not in
  use. The fetch rings are sequences, in ring order from the head, with insertion at the tail.
- `ops.start` of a fetcher, and whether there is memory for another hash entry, are arbitrary functions of how
  often they were asked, so results hold for every sequence of answers. The answers of a fetcher's `setup` and `initialise`, of `content_clone`, of the content factory and the type check,
  and the clock are parameters.
- The order in which the disk cache's hash map is iterated and in which `qsort` leaves equal entries is
  unspecified: the eviction results hold for every order sorted by the comparison.
- Integers are unbounded except where wrap-around is written out: the 16-bit use count, the 8-bit reference
  count and its wrap, the 32-bit string hash with sign-extended characters, and the 32-bit frame numbers.
- Contents of the disk are byte sequences; an address stands for the file named after its hash.
- A bitmap row is as long as the image is wide, and allocation and disk I/O succeed unless said otherwise.

## Where the code does less than promised

Each of these is a proved result about the code as it is, with the exact condition or the whole failing family.

- The general pixel path reports success when bad data comes right after a full decoder buffer, where the fast path
  reports the error (`GifDraw.ResultsDiffer`).
- A code that ends flush with the last data byte is reported as the end of the data (`LzwReader.ReadContext.ReadCode`).
- The local colour table keeps entries of larger palettes seen earlier, so a frame that uses a value beyond every
  palette so far can look different after going back (`GifCanvas.Gif.GoBack`; exact by `GifCanvas.Gif.Play`).
- An interlaced frame that reaches below the image is deinterlaced over its visible height only
  (`Interlace.ClippedOrder`).
- The resource-fork writer cuts data offsets to 24 bits and lets a name stand at the offset that marks no name,
  without an error (`ResourceFork.RoundTrip`, `ResourceFork.DataTooFar`, `ResourceFork.NameAtMark`).
- `fetcher_quit` with live fetches leaves reference counts that no longer match (`FetchScheduler.Scheduler.FetcherQuit`).
- Storing more than 8 KiB over an element that is kept in a small block overwrites the next block
  (`BackingStore.NeighbourLost`, `BackingStore.OverflowRun`, `BlockDisk.SparesBlock`).
- The disk cache's documentation says that an invalidated entry must no longer be returned by a fetch; while
  something holds it, it is (`BackingStore.InvalidateThenFetch`).
- Interning compares with `strncmp`, which stops at a NUL: strings with NULs and equal hashes can be taken for one
  (`Interning.Context.InternString`, `StringHash.NulCollision`).
- Removing the head of a selector chain moves the next selector up but not its filter, so removing a rule, or
  failing to add one, can leave a filter wrong (`Stylesheet.Sheet.RemoveRule`, `Stylesheet.Sheet.AddRule`,
  `Stylesheet.StaleAfterRemoval`, `Stylesheet.StaleAfterRollBack`).

## Model

| member | source | states |
|---|---|---|
| `LzwReader.ReadContext.Init` | browser/libnsgif/src/lzw.c:275-281 | the bits to come are those of all data sub-blocks from the given position, joined as `SubBlocks.FlattenLaid` and `SubBlocks.FlattenTruncated` say, up to the terminator or the point where the data is cut short |
| `LzwReader.ReadContext.BlockAdvance` | browser/libnsgif/src/lzw.c:123-151 | succeeds exactly when a non-empty sub-block follows (`SubBlocks.LaidOut` names the cases), without changing what is left to read; otherwise it says whether the terminator or the end of the buffer came first |
| `LzwReader.ReadContext.ReadCode` | browser/libnsgif/src/lzw.c:163-220 | on both paths and, with `SubBlocks.ReadLaid`, however the data is cut into sub-blocks: succeeds exactly when strictly more than codeSize bits are left, gives the next codeSize bits least significant first, and leaves the rest |
| `LzwReader.ReadContext.ReadFast` | browser/libnsgif/src/lzw.c:171-178 | the three bytes at the current bit, and an advance by codeSize bits |
| `LzwReader.ReadContext.ReadSlow` | browser/libnsgif/src/lzw.c:178-216 | gathers the bytes that hold the code across sub-blocks; succeeds exactly when the byte after the last full one exists |
| `LzwReader.TakeBits` | browser/libnsgif/src/lzw.c:218-219 | shifting and masking the gathered bytes gives the value of the next bits of the flat bit string, and dropping whole bytes leaves the bits after them |
| `SubBlocks.FlattenLaid` | browser/libnsgif/src/lzw.c:123-151 | any bytes cut in any way into sub-blocks of 1 to 255 bytes, each written after its length and closed by a terminator, are what is joined together again, wherever in a file they lie |
| `SubBlocks.FlattenTruncated` | browser/libnsgif/src/lzw.c:129-137 | without a terminator the whole sub-blocks still count, a part of one does not, and the end is want of data |
| `SubBlocks.LaidOut` | browser/libnsgif/src/lzw.c:123-151 | every file is, from every position, sub-blocks followed by a terminator or by less than a whole sub-block |
| `SubBlocks.ReadLaid` | browser/libnsgif/src/lzw.c:163-220 | a reader of codes of any widths gets them from the joined bytes, so where the data is cut makes no difference; the result says whether all were there, or else how the data ended |
| `LzwEncoder.BitsRoundTrip` | browser/libnsgif/src/lzw.c:386-440 | for every minimum code size from 2 on, all values and clear codes written anywhere: decoding what an Appendix F encoder of GIF89a (greedy, with its own dictionary of strings) wrote gives back exactly the values, whatever follows |
| `LzwEncoder.SameString` | browser/libnsgif/src/lzw.c:416-421 | a code of the encoder's dictionary stands for the same string at the decoder, one string behind, also if it is the one the decoder does not have yet; the string the decoder then adds is the one it was behind |
| `LzwEncoder.WidthWidens` | browser/libnsgif/src/lzw.c:423-427 | the decoder's code width keeps up with the width of the codes in use |
| `LzwEncoder.LaidRoundTrip` | browser/libnsgif/src/lzw.c:259-317 | the round trip on bytes: however they are cut into sub-blocks, and terminated or truncated after them |
| `LzwEncoder.ImageRoundTrip` | browser/libnsgif/src/lzw.c:259-317 | whole image data as section 22 of GIF89a lays it out decodes to the values it was made from |
| `LzwEncoder.CutAnywhere` | browser/libnsgif/src/lzw.c:123-151 | two ways to cut the same bytes into sub-blocks decode alike |
| `LzwDecoder.RecordShape` | browser/libnsgif/src/lzw.c:354-366 | walking back from a live code gives a string whose length is its count, whose first value is its first and which is its base's string with its value appended |
| `LzwDecoder.Dict.WalkStep` | browser/libnsgif/src/lzw.c:458-495 | every step of a backward walk stays in live entries and meets the string's values in reverse |
| `LzwDecoder.Dict.CountIs` | browser/libnsgif/src/lzw.c:354-440 | the count of a live entry is the length of its string and fits the 4096-value buffer |
| `LzwDecoder.Dict.WidthIsBitLength` | browser/libnsgif/src/lzw.c:421-431 | for minimum code sizes from 2 on the code width is min(12, bit length of the table size) in every state |
| `LzwDecoder.Dict.ClearedOk` | browser/libnsgif/src/lzw.c:229-256 | after a clear code the table is the initial string table again |
| `LzwDecoder.Dict.AddedOk` | browser/libnsgif/src/lzw.c:386-440 | one ordinary code keeps the table invariant and corresponds to one code of the textbook string-table decoder, including the code that is not in the table yet; `LzwEncoder.SameString` says which strings those are |
| `LzwDecoder.LzwContext.HandleClear` | browser/libnsgif/src/lzw.c:229-256 | the first code after any run of clear codes is what the textbook decoder starts with, or the same error |
| `LzwDecoder.LzwContext.TableAddEntry` | browser/libnsgif/src/lzw.c:354-366 | the new entry extends the previous code by one value, with its first value and one more than its count |
| `LzwDecoder.LzwContext.NextCode` | browser/libnsgif/src/lzw.c:386-440 | the next code to write and the updated table, or the result with which the textbook decoder, the inverse of `LzwEncoder`, ends |
| `LzwDecoder.LzwContext.DecodeInit` | browser/libnsgif/src/lzw.c:259-317 | all of the textbook decoder's output is still to come, or the call gives the error the textbook decoder gives at once; minimum code sizes from 12 on are refused |
| `LzwDecoder.LzwContext.DecodeInitMap` | browser/libnsgif/src/lzw.c:320-346 | the same with a colour map; a transparency index above 255 makes nothing transparent; a missing map is refused |
| `LzwDecoder.LzwContext.Write` | browser/libnsgif/src/lzw.c:458-495 | writing backwards puts the next values of a code in order, as many as fit, and remembers how many are left |
| `LzwDecoder.LzwContext.MapWrite` | browser/libnsgif/src/lzw.c:540-587 | the same through the colour map, leaving pixels under the transparent value alone |
| `LzwDecoder.LzwContext.Resume` | browser/libnsgif/src/lzw.c:506-510 | a partly written code goes on at its exact next value |
| `LzwDecoder.LzwContext.Decode` | browser/libnsgif/src/lzw.c:498-522 | the buffer receives the next values of the textbook output, which inverts encoding (`LzwRuns.DecodeImage`), as many as there are up to its length; the result is OK exactly when it was filled; what is still to come is the rest |
| `LzwDecoder.LzwContext.DecodeMap` | browser/libnsgif/src/lzw.c:590-616 | the same, painting into the caller's pixels |
| `LzwRuns.DecodeInCalls` | browser/libnsgif/src/lzw.c:590-616 | for every sequence of call lengths the calls together paint exactly what the textbook decoder writes, and all succeed exactly when there are enough values |
| `LzwRuns.DecodeAll` | browser/libnsgif/src/lzw.c:498-522 | calling the decoder until it stops gives all values of the textbook decoder and its result |
| `LzwRuns.DecodeImage` | browser/libnsgif/src/lzw.c:498-522 | the resumable decoder gives back what an Appendix F encoder was given |
| `Interlace.PlaceOfRow` | browser/libnsgif/src/gif.c:364-382 | the place of a row in the interlaced order is in range and leads back to the row |
| `Interlace.RowOfPlace` | browser/libnsgif/src/gif.c:364-382 | the row at a place is in range and leads back to the place |
| `Interlace.NextRow` | browser/libnsgif/src/gif.c:364-382 | what the step arithmetic reaches is the row at the next place, also when whole passes are empty |
| `Interlace.Deinterlace` | browser/libnsgif/src/gif.c:364-382 | one call goes from the row at a place to the row at the next place and stops after the last |
| `Interlace.VisitRows` | browser/libnsgif/src/gif.c:364-401 | for every height from 1 on, repeated calls from row 0 with step 24 visit every row exactly once, in the order of Appendix E of GIF89a |
| `Interlace.ClippedOrder` | browser/libnsgif/src/gif.c:445-543 | deinterlacing over the clipped height gives every visible row its own data if and only if nothing is clipped, one row is left, or exactly one row is clipped and an odd number is left |
| `GifDraw.Clip` | browser/libnsgif/src/gif.c:412-424 | nothing is clipped from what fits, and what is left of anything else that begins inside ends exactly at the edge of the image |
| `GifDraw.Area.DrawPixel` | browser/libnsgif/src/gif.c:445-543 | in the drawing both paths are proved to leave, a visible pixel shows the value of its own column in the data row of its row, if there is that much data and it is not transparent |
| `GifDraw.Area.DrawElsewhere` | browser/libnsgif/src/gif.c:445-543 | pixels outside the visible part of the frame do not change |
| `GifDraw.DecodeSimple` | browser/libnsgif/src/gif.c:545-602 | for a non-interlaced full-width frame at column 0 the pixels are the drawing of the frame's values, for every LZW data including truncated or bad data, and the result is exact |
| `GifDraw.PaintPixels` | browser/libnsgif/src/gif.c:581-599 | the loop paints as many pixels as there are values; if they are too few the result is that of how the data ends |
| `GifDraw.DecodeComplex` | browser/libnsgif/src/gif.c:445-543 | for any frame the pixels are the same drawing, so the fast path leaves what the general path leaves; the result is exact |
| `GifDraw.ResultsDiffer` | browser/libnsgif/src/gif.c:508-513 | the two paths return different results exactly when an error comes right after a full decoder buffer, with pixels left: the general path then reports success |
| `GifDraw.DecodeRow` | browser/libnsgif/src/gif.c:488-536 | one row takes the next values of the data whatever the sizes of the decoder's buffers; if it ends early the result is exact |
| `GifDraw.Refill` | browser/libnsgif/src/gif.c:497-515 | values stay in order from one decoder buffer to the next, and the result when there are no more is exact |
| `GifDraw.JumpData` | browser/libnsgif/src/gif.c:433-443 | skipping clipped values passes over exactly as many values as asked for, as far as available |
| `GifDraw.FullWidthDraw` | browser/libnsgif/src/gif.c:545-602 | painting one contiguous run of pixels is drawing all rows of a full-width frame |
| `GifMovie.Movie.TableEntry` | browser/libnsgif/src/gif.c:1148-1187 | entries of the local colour table that some palette so far has set do not depend on what was there before; the others stay |
| `GifMovie.Movie.LastPalette` | browser/libnsgif/src/gif.c:1148-1187 | an entry of the local colour table has the colour of the last palette that sets it |
| `GifMovie.Movie.DrawIndependent` | browser/libnsgif/src/gif.c:1148-1187 | a frame that draws no value beyond every palette seen so far looks the same in every run |
| `GifMovie.HazardShows` | browser/libnsgif/src/gif.c:1148-1187 | a frame that draws a value only a later palette sets looks different when decoding starts over |
| `GifMovie.FirstHazard` | browser/libnsgif/src/gif.c:1940-1975 | a file that is not free of such frames has a first one |
| `GifMovie.HazardExample` | browser/libnsgif/src/gif.c:1148-1187 | a concrete file of two one-pixel frames, each with its own data, with that property |
| `GifDisposal.PixelShows` | browser/libnsgif/src/gif.c:694-745 | for every file, frame and pixel: it shows the colour the frame puts there, or else the last mark an earlier frame left after its disposal (its colour; 0 or the background if restored to background; none if restored to previous), or else transparency |
| `GifDisposal.DisposedPixel` | browser/libnsgif/src/gif.c:710-726 | over one frame and its disposal a pixel takes the frame's mark, if it leaves one, and else stays as it was before the frame |
| `GifDisposal.ClearedPixel` | browser/libnsgif/src/gif.c:646-692 | restoring to background makes every pixel of the visible rectangle 0 or the background colour, by the transparency flag, and leaves the others |
| `GifDisposal.DrawnPixel` | browser/libnsgif/src/gif.c:445-594 | a frame changes exactly the pixels in its rectangle for which there is data that is not transparent, to the colour of their value |
| `GifDisposal.NoTrace` | browser/libnsgif/src/gif.c:721-731 | a frame that is restored to previous and uses the global palette can be taken out of the file: every later frame looks the same |
| `GifDisposal.WrittenPixel` | browser/libnsgif/src/gif.c:694-745 | a frame whose image data an Appendix F encoder wrote shows the encoded values: the pixel under a transparent one stays, any other takes its colour |
| `GifCanvas.Gif.RecordFrame` | browser/libnsgif/src/gif.c:294-335 | the saved canvas is the one that stood before the frame it is saved for, also when it was saved already |
| `GifCanvas.Gif.RecoverFrame` | browser/libnsgif/src/gif.c:337-349 | the bitmap is the saved canvas again |
| `GifCanvas.Gif.RestoreFrame` | browser/libnsgif/src/gif.c:646-692 | exactly the visible rows of the frame take the background colour, or transparent black if the frame has transparency |
| `GifCanvas.Gif.PrepareCanvas` | browser/libnsgif/src/gif.c:710-731 | under every disposal method of the frame before, the bitmap is then the canvas of sequential play just before this frame, each pixel of which `GifDisposal.DisposedPixel` gives |
| `GifCanvas.Gif.ParseColourTable` | browser/libnsgif/src/gif.c:1148-1187 | a local palette overwrites the front of the local colour table and leaves the rest |
| `GifCanvas.Gif.DecodeFrame` | browser/libnsgif/src/gif.c:604-637 | whichever path is taken, the frame is drawn over the bitmap, and the result is that path's, or success if the data is complete and merely ends early |
| `GifCanvas.Gif.UpdateBitmap` | browser/libnsgif/src/gif.c:694-745 | the frame drawn over the canvas of sequential play (`GifDisposal.DisposedPixel`, `GifDisposal.NoTrace`), with the saved canvas right and the result of the frame |
| `GifCanvas.Gif.ProcessFrame` | browser/libnsgif/src/gif.c:1319-1388 | on the decode side: going on from the frame before, or starting over at frame 0, keeps the invariant that ties bitmap, saved canvas and colour table to sequential play; a frame that is there already succeeds, any other gives its own result |
| `GifCanvas.Gif.FrameDecode` | browser/libnsgif/src/gif.c:1940-1975 | any frame may be asked for; decoding goes on from the frame that is there or starts over, stops at the first frame whose result is an error, and returns that; in a file without hazards the bitmap is then the composite of frames 0 up to the one it holds |
| `GifCanvas.Gif.Play` | browser/libnsgif/src/gif.c:1940-1975 | random access equals sequential play: after every sequence of requests the bitmap is the composite whose every pixel `GifDisposal.PixelShows` gives, and the saved canvas is the one before its frame |
| `GifCanvas.Gif.GoBack` | browser/libnsgif/src/gif.c:1940-1975 | the condition is exact: in every file with a hazard, playing to the end and going back to the first hazard gives different pixels |
| `GifAnimation.Animation.ScanFrame` | browser/libnsgif/src/gif.c:1200-1309 | after every step of a scan each counted frame can be displayed; only a frame whose data is all there is counted; delay, data length and partial count are exact |
| `GifAnimation.Animation.DataComplete` | browser/libnsgif/src/gif.c:1757-1781 | a started last frame is added, and can then be displayed, exactly if it has data and the file was not complete before |
| `GifAnimation.Animation.NextDisplayable` | browser/libnsgif/src/gif.c:1822-1847 | the search ends with the very next frame, or says why there is none |
| `GifAnimation.Animation.LastDelay` | browser/libnsgif/src/gif.c:1903-1922 | the delay becomes infinite exactly for a single frame, or for the last frame of the last loop |
| `GifAnimation.Animation.FramePrepare` | browser/libnsgif/src/gif.c:1868-1937 | the result, the next frame, the loop count and the delay are exact: infinite at the end, the default if too short, the frame's own otherwise; an error changes nothing |
| `GifAnimation.Animation.Watch` | browser/libnsgif/src/gif.c:1858-1937 | for every number of calls after a reset, with complete data and n >= 2 frames: call i (from 0) shows frame i mod n, with a limit of N loops the delay is infinite exactly at call N*n-1, call N*n wraps once more, and from then on the animation has ended |
| `ResourceFork.RoundTrip` | tools/png_to_mac_icon_rez.py:387-493 | for all records the format can pack: following header, map, type list, reference lists and name list recovers exactly the inserted (type, id, attributes, name, data), by first-seen type and sorted by id, if and only if each record's length and bytes lie where the low 24 bits of its offset lead and no name is at offset 0xFFFF |
| `ResourceFork.DataAt` | tools/png_to_mac_icon_rez.py:389-393 | data is read back exactly from where its length and bytes lie |
| `ResourceFork.ForkRegions` | tools/png_to_mac_icon_rez.py:476-493 | header, padding, data area and map follow each other without overlap and have exactly the lengths and offsets the header says |
| `ResourceFork.GroupIs` | tools/png_to_mac_icon_rez.py:398-409 | a group holds exactly the records of its type, sorted by id, equal ids in insertion order |
| `ResourceFork.TypesFirstSeen` | tools/png_to_mac_icon_rez.py:398-407 | types are listed in the order in which they are first seen |
| `ResourceFork.DataTooFar` | tools/png_to_mac_icon_rez.py:466-472 | two resources, the first of 16 MiB and the second empty: the records are recovered exactly when the first begins with four zero bytes |
| `ResourceFork.NameAtMark` | tools/png_to_mac_icon_rez.py:411-422 | names that fill 65535 bytes make the next name look like no name, and the records are not recovered |
| `ResourceFork.Builder.Add` | tools/png_to_mac_icon_rez.py:368-385 | a record is appended with its id in two's complement and its attributes cut to a byte, or refused for a type that is not four bytes or an id out of range |
| `ResourceFork.Builder.PackData` | tools/png_to_mac_icon_rez.py:389-393 | the data area is the records' lengths and bytes in order, and the offsets are where each begins |
| `ResourceFork.Builder.PackNames` | tools/png_to_mac_icon_rez.py:411-422 | the name list holds the non-empty names, and the offsets are where each begins or the mark for no name |
| `ResourceFork.Builder.GroupByType` | tools/png_to_mac_icon_rez.py:398-409 | the types in first-seen order and the sorted group of each |
| `ResourceFork.Builder.Build` | tools/png_to_mac_icon_rez.py:387-493 | the bytes built step by step are the file whose round trip is proved; an error exactly when a name is too long or a field does not fit |
| `FetchScheduler.Scheduler.DispatchJob` | browser/netsurf/content/fetch.c:148-164 | a fetch answered true moves to the active ring and is marked, one answered false goes to the end of the queue; both limits and all ring invariants hold |
| `FetchScheduler.Scheduler.ChooseAndDispatch` | browser/netsurf/content/fetch.c:173-201 | although the scan steps over runs of one host, it tries the first queued fetch whose host is below its limit, if there is one |
| `FetchScheduler.Scheduler.DispatchJobs` | browser/netsurf/content/fetch.c:231-260 | for every sequence of answers to the starts the rings become what serving the queue one fetch at a time gives |
| `FetchScheduler.DispatchConserves` | browser/netsurf/content/fetch.c:231-260 | the fetches begun are exactly those answered true; serving ends with no fetch that may start (none queued, the overall limit, or every queued host at its limit) unless one that might have started was answered false, and that one is then last in the queue |
| `FetchScheduler.DispatchInOrder` | browser/netsurf/content/fetch.c:173-201 | the fetches of every host are tried in queue order, the refused one included |
| `FetchScheduler.DispatchKeepsAll` | browser/netsurf/content/fetch.c:231-260 | no fetch is lost or doubled |
| `FetchScheduler.DispatchKeepsOrder` | browser/netsurf/content/fetch.c:148-164 | the fetches that were not tried wait in their old order |
| `FetchScheduler.CountByHost` | browser/netsurf/utils/ring.h:98-112 | counts the fetches of a host |
| `FetchScheduler.Scheduler.GetFetcherForScheme` | browser/netsurf/content/fetch.c:129-143 | the first registered fetcher of the scheme, if there is one |
| `FetchScheduler.Scheduler.FetcherAdd` | browser/netsurf/content/fetch.c:376-400 | takes the first place that is not registered, if there is one and the fetcher starts up |
| `FetchScheduler.Scheduler.FetchStart` | browser/netsurf/content/fetch.c:468-551 | refused exactly if there is no fetcher for the scheme or its setup rejects the address, and then nothing changes; otherwise the fetch is queued last, its fetcher gains a reference, and the queue is served |
| `FetchScheduler.Scheduler.FetchAbort` | browser/netsurf/content/fetch.c:554-562 | an aborted fetch counts as finished |
| `FetchScheduler.Scheduler.SendCallback` | browser/netsurf/content/fetch.c:772-778 | the last message only rises, so a finished fetch stays finished |
| `FetchScheduler.Scheduler.RemoveFromQueues` | browser/netsurf/content/fetch.c:782-805 | the fetch leaves the one ring its flag says, and the order of the others stands |
| `FetchScheduler.Scheduler.FetchFree` | browser/netsurf/content/fetch.c:565-596 | no fetch goes before a finishing message was sent or it was aborted; its fetcher loses one reference and stays registered |
| `FetchScheduler.Scheduler.FetcherQuit` | browser/netsurf/content/fetch.c:341-372 | every fetcher goes; the reference counts stay right exactly when no fetch is live |
| `FetchScheduler.StartHeld` | browser/netsurf/content/fetch.c:112-115 | a fetcher's count is one for its registration and one for each live fetch, also after a start |
| `FetchScheduler.FreeHeld` | browser/netsurf/content/fetch.c:117-124 | the same after a fetch is freed, which never takes a registered fetcher's last reference |
| `BlockMap.AllocBlock` | browser/netsurf/content/fs_backing_store.c:933-959 | the lowest free block is taken and marked and no other bit changes; 0 exactly when every block is in use |
| `BlockMap.FreeBlock` | browser/netsurf/content/fs_backing_store.c:422-434 | clears the bit of the block and no other |
| `BlockDisk.SparesBlock` | browser/netsurf/content/fs_backing_store.c:1586-1635 | a write of n bytes at one block leaves the bytes at another as they were, whatever is written, if and only if it does not reach that block |
| `StoreIndex.WriteSpills` | browser/netsurf/content/fs_backing_store.c:1586-1635 | a write of more than a block shows in the block after it |
| `StoreIndex.Disk.WriteRead` | browser/netsurf/content/fs_backing_store.c:1586-1682 | what is written for an element is read back, from its block or its file |
| `StoreIndex.Disk.WriteReadOther` | browser/netsurf/content/fs_backing_store.c:1586-1635 | a write that stays within its block leaves every other element's bytes as they were |
| `StoreIndex.EvictionOrder` | browser/netsurf/content/fs_backing_store.c:504-561 | every entry once: unheld before held, and among equals the less used, then the longer unused first; any order the iteration and sort may leave is allowed |
| `StoreIndex.SweptStalest` | browser/netsurf/content/fs_backing_store.c:504-561 | after any sweep in that order, no entry that went and was not held was used more than one that stayed and is not held, or as often and later |
| `StoreIndex.ComparOrders` | browser/netsurf/content/fs_backing_store.c:504-544 | the comparison is a total preorder |
| `StoreIndex.PinnedLast` | browser/netsurf/content/fs_backing_store.c:577-646 | if eviction touches an entry that something holds, every entry that nothing holds is gone |
| `StoreIndex.SweptKeepsPins` | browser/netsurf/content/fs_backing_store.c:460-498 | a sweep never removes a held entry and changes nothing of it but its mark |
| `StoreIndex.TotalSet` | browser/netsurf/content/fs_backing_store.c:1027-1030 | replacing an entry changes the sum of sizes by the difference of its sizes |
| `StoreIndex.StoreKept` | browser/netsurf/content/fs_backing_store.c:976-1044 | a store that does not leave more than a block's worth in a block keeps the bytes of every other element and makes the new bytes readable |
| `BackingStore.Store.InvalidateElement` | browser/netsurf/content/fs_backing_store.c:418-450 | the block is given back or the file unlinked, and the size is taken off the total |
| `BackingStore.Store.InvalidateEntry` | browser/netsurf/content/fs_backing_store.c:460-498 | a held entry is only marked, any other goes with its blocks and files; blocks, total and the bytes of all other entries stay right |
| `BackingStore.Store.Touch` | browser/netsurf/content/fs_backing_store.c:908-928 | only the time and the 16-bit use count change |
| `BackingStore.Store.Evict` | browser/netsurf/content/fs_backing_store.c:577-646 | below the limit nothing happens; otherwise, of the entries nothing holds, those that went were used less than those that stayed, or as often and no later; they are the shortest run in that order whose sizes exceed the hysteresis, or all, and exactly the blocks of those that went are given back |
| `BackingStore.Store.StoreElement` | browser/netsurf/content/fs_backing_store.c:976-1044 | refused exactly when something holds the element; otherwise it holds the new bytes, in the lowest free block if they fit in one, in none if none is free, and in the block it had if they do not fit; no two elements of a kind share a block, every block held is marked, the total is the sum of sizes, and all stored bytes stay readable unless the element sat in a block that the new bytes overflow |
| `BackingStore.Store.Fetch` | browser/netsurf/content/fs_backing_store.c:1871-1950 | gives the bytes last stored for the element, adds a reference or reads from disk, and undoes the allocation if reading fails |
| `BackingStore.Store.Release` | browser/netsurf/content/fs_backing_store.c:1960-1996 | the last reference frees the allocation, and an invalidated entry goes exactly when nothing holds it any more |
| `BackingStore.Store.Invalidate` | browser/netsurf/content/fs_backing_store.c:2009-2025 | the entry goes, or is marked if something holds it |
| `BackingStore.NeighbourLost` | browser/netsurf/content/fs_backing_store.c:1032-1035 | when an element in a block is stored anew with more than 8192 bytes without eviction, and the next block of the same file holds an element that nothing holds and whose first byte differs from the one written there, the next fetch of that neighbour succeeds with other bytes than were stored |
| `BackingStore.OverflowRun` | browser/netsurf/content/fs_backing_store.c:976-1044 | a run from an empty cache that ends so: store, store, release, release, store 8193 bytes, fetch |
| `BackingStore.InvalidateThenFetch` | browser/netsurf/content/fs_backing_store.c:2009-2025 | after an invalidation a fetch finds the entry exactly when something held it |
| `StringHash.CalculateHash` | browser/libwapcaplet/src/libwapcaplet.c:20-31 | the 32-bit hash of the bytes |
| `StringHash.FnvValue` | browser/libwapcaplet/src/libwapcaplet.c:20-31 | the hash has the published FNV-1 value of a known string |
| `StringHash.LowerSame` | browser/libwapcaplet/src/libwapcaplet.c:208-239 | lower-case forms are equal exactly if the strings are equal but for the two cases of ASCII letters |
| `StringHash.CalculateLcaseHash` | browser/libwapcaplet/src/libwapcaplet.c:217-228 | the hash of the lower-case string, without making it |
| `StringHash.StrnEqualNulFree` | browser/libwapcaplet/src/libwapcaplet.c:106-115 | for bytes without a NUL the comparison finds equal exactly what is equal |
| `StringHash.LcaseStrncmp` | browser/libwapcaplet/src/libwapcaplet.c:231-239 | equal exactly when the first is the lower-case form of the second, NULs included |
| `StringHash.NulCollision` | browser/libwapcaplet/src/libwapcaplet.c:106-115 | two different five-byte strings with the same hash that the comparison calls equal |
| `InternTable.PushChains` | browser/libwapcaplet/src/libwapcaplet.c:123-132 | a string put at the head of its bucket leaves every chain linked both ways |
| `InternTable.UnlinkChains` | browser/libwapcaplet/src/libwapcaplet.c:187-194 | taking a string out through the pointer that leads to it leaves every other string on its chain |
| `Interning.InternBoth` | browser/libwapcaplet/src/libwapcaplet.c:80-149 | interning two byte strings without NULs, in any state, gives one object exactly when they are equal |
| `Interning.SameCompanion` | browser/libwapcaplet/src/libwapcaplet.c:255-265 | two caseless companions are one object exactly when the strings match ignoring case |
| `Interning.CompanionOfCompanion` | browser/libwapcaplet/src/libwapcaplet.c:255-265 | a companion has no companion but itself, so destruction goes at most one step on |
| `Interning.OnChain` | browser/libwapcaplet/src/libwapcaplet.c:102-115 | searching one chain finds any matching string there is |
| `Interning.GoneIff` | browser/libwapcaplet/include/libwapcaplet/libwapcaplet.h:159-168 | the count reaches the value at which a string is destroyed exactly when no reference is given out and no other string has it as companion |
| `Interning.Context.Lookup` | browser/libwapcaplet/src/libwapcaplet.c:102-115 | finds a matching string exactly when there is one |
| `Interning.Context.Intern` | browser/libwapcaplet/src/libwapcaplet.c:80-140 | the matching string with one more reference, or a new one |
| `Interning.Context.InternString` | browser/libwapcaplet/src/libwapcaplet.c:143-149 | bytes without a NUL always give the string of exactly those bytes; others do unless a string of other bytes has the same length and hash and agrees up to the NUL |
| `Interning.Context.InternCaseless` | browser/libwapcaplet/src/libwapcaplet.c:255-265 | the companion is the lower-case string, shared if it is there already; no other string changes |
| `Interning.Context.CaselessIsEqual` | browser/libwapcaplet/include/libwapcaplet/libwapcaplet.h:242-255 | true exactly when the strings are equal but for the two cases of ASCII letters |
| `Interning.Context.Unref` | browser/libwapcaplet/include/libwapcaplet/libwapcaplet.h:159-168 | the string goes exactly when nothing else needs it, and its companion with it exactly when that was its last need; every other string, companion and count stays |
| `Interning.Context.Destroy` | browser/libwapcaplet/src/libwapcaplet.c:187-204 | the string leaves its chain, its hold on its companion is handed back, and no companion pointer is left dangling |
| `ContentCache.HandleReaches` | browser/netsurf/content/hlcache.c:762-879 | a handle with an entry is registered with that entry's content and with no other, and the content exists |
| `ContentCache.UnlinkList` | browser/netsurf/content/hlcache.c:142-149 | taking an entry out keeps the others doubly linked in their order |
| `ContentCache.PushList` | browser/netsurf/content/hlcache.c:284-289 | putting an entry first keeps the list doubly linked |
| `ContentCache.JoinedOk` | browser/netsurf/content/content.c:660-688 | adding a user keeps every handle registered once and nowhere else |
| `ContentCache.LeftOk` | browser/netsurf/content/content.c:693-726 | so does removing one |
| `ContentCache.DropEntryOk` | browser/netsurf/content/hlcache.c:142-155 | so does destroying a content without users |
| `HighLevelCache.CountUsers` | browser/netsurf/content/content.c:730-743 | the number of users, without the sentinel |
| `HighLevelCache.FindUser` | browser/netsurf/content/content.c:710-713 | the first registration of the user |
| `HighLevelCache.CleanedTwice` | browser/netsurf/content/hlcache.c:601-643 | a later cleaning that is not milder leaves what it would have left at once |
| `HighLevelCache.Cache.Retrieve` | browser/netsurf/content/hlcache.c:701-759 | a new handle has no entry and one retrieval, last in the ring |
| `HighLevelCache.Cache.Search` | browser/netsurf/content/hlcache.c:237-265 | the first entry that serves the retrieval: it has the retrieval's own source, is not in error, may be shared and fits the quirks mode |
| `HighLevelCache.Cache.FindContent` | browser/netsurf/content/hlcache.c:230-312 | the handle becomes a user of the first suitable content, or of a new one put first in the list; if none can be made nothing changes |
| `HighLevelCache.Cache.Migrate` | browser/netsurf/content/hlcache.c:357-433 | the retrieval ends; the handle has an entry exactly when the type was acceptable and a content was found or made |
| `HighLevelCache.Cache.Release` | browser/netsurf/content/hlcache.c:762-795 | the handle leaves the users of its content, or its retrieval ends with the others in order; nothing else changes |
| `HighLevelCache.Cache.Abort` | browser/netsurf/content/hlcache.c:808-879 | a handle that shares its content gets an entry with a copy of its own, equal but for the users, and leaves the shared one; a handle without an entry loses its retrieval; nothing else changes |
| `HighLevelCache.Cache.Clean` | browser/netsurf/content/hlcache.c:113-163 | exactly the entries without users go, but for those still loading unless forced; the others keep their order and contents |
| `HighLevelCache.Cache.CountContents` | browser/netsurf/content/hlcache.c:607-611 | the length of the list |
| `HighLevelCache.Cache.Drain` | browser/netsurf/content/hlcache.c:617-627 | a drain loop ends, and comes to one cleaning |
| `HighLevelCache.Cache.Finalise` | browser/netsurf/content/hlcache.c:601-643 | after both drain loops exactly the entries that still have users are left |
| `SelectorChain.InsertIntoChain` | browser/libcss/src/select/hash.c:792-847 | the selector goes to the one place that `SelectorChain.PlaceSplits` names; only a non-empty chain can fail, and is then unchanged |
| `SelectorChain.RemoveFromChain` | browser/libcss/src/select/hash.c:858-894 | succeeds exactly when the selector is there; the others keep their order |
| `SelectorChain.PurgedBlooms` | browser/libcss/src/select/hash.c:877-891 | after any removals from a chain every filter is still that of its selector if and only if the head did not pass to a selector with another filter |
| `SelectorChain.InsertedOk` | browser/libcss/src/select/hash.c:792-847 | insertion keeps a chain sorted: less specific selectors first, and of equally specific ones those of earlier rules |
| `SelectorChain.PlaceSplits` | browser/libcss/src/select/hash.c:806-823 | a new selector goes behind exactly those that are less specific, or as specific and of no later rule |
| `Stylesheet.HashOrder` | browser/libcss/src/select/hash.c:792-847 | in every chain, specificity does not fall, and where it is equal the rule index does not |
| `SelectorChain.RemovedIsPurged` | browser/libcss/src/select/hash.c:858-894 | one removal leaves the head of the chain the filter it had, whichever selector it gets |
| `RuleTree.AppendTop` | browser/libcss/src/stylesheet.c:1492-1507 | a rule added last keeps every sibling list doubly linked with strictly increasing indexes |
| `RuleTree.AppendKid` | browser/libcss/src/stylesheet.c:1472-1491 | the same under an @media rule |
| `RuleTree.DetachTop` | browser/libcss/src/stylesheet.c:1535-1548 | the same after a top-level rule is taken out |
| `RuleTree.UnderChild` | browser/libcss/src/stylesheet.c:1659-1670 | what is below an @media rule is what is below its children |
| `RuleTree.SiblingsApart` | browser/libcss/src/stylesheet.c:1659-1670 | what is below one sibling is not below another |
| `RuleTree.DetachLinked` | browser/libcss/src/stylesheet.c:1521-1558 | taking a rule out of its list takes out of the sheet exactly what is below it |
| `SelectorHash.RollBack` | browser/libcss/src/stylesheet.c:1592-1603 | taking back the selectors put in leaves every chain as it was but for the filter of its head, which is that of the last selector put before it |
| `SelectorHash.RolledBackSame` | browser/libcss/src/stylesheet.c:1592-1603 | a roll-back restores the selectors of every chain in order, and restores the hash if and only if, for each chain that was not empty, the selector left at its head before the roll-back has the filter of the head it had |
| `SelectorHash.HeadIs` | browser/libcss/src/select/hash.c:827-835 | the head of a chain after several insertions is the last selector put before the head there was |
| `SelectorHash.PurgeFilters` | browser/libcss/src/select/hash.c:877-891 | removals keep every filter of the hash right if and only if no head passes to a selector with another filter |
| `SelectorHash.RoomNeeded` | browser/libcss/src/select/hash.c:795-807 | putting in a selector needs memory exactly when its chain is not empty or an earlier selector of the rule went there |
| `Stylesheet.Sheet.HashInsert` | browser/libcss/src/select/hash.c:232-271 | the selector is put into its chain with its filter, exactly if the chain is empty or there is memory; otherwise nothing changes |
| `Stylesheet.Sheet.HashRemove` | browser/libcss/src/select/hash.c:280-319 | succeeds exactly when the hash holds the selector, which is then taken out; the head of its chain keeps its filter |
| `Stylesheet.Sheet.TakeBack` | browser/libcss/src/stylesheet.c:1592-1603 | the selectors put in are taken out again, with what that does to filters |
| `Stylesheet.Sheet.AddSelectors` | browser/libcss/src/stylesheet.c:1571-1628 | for a rule without children: all of its selectors go in exactly if there is memory for each that needs some; otherwise those put in are taken back |
| `Stylesheet.Sheet.RemoveSelectors` | browser/libcss/src/stylesheet.c:1637-1674 | exactly the selectors of the rule and of all rules below it leave the hash, at any depth, with what that does to filters |
| `Stylesheet.Sheet.CreateRule` | browser/libcss/src/stylesheet.c:1093-1140 | a rule made outside the sheet, with its selectors, changes neither what is linked nor what the hash holds |
| `Stylesheet.Sheet.AddRule` | browser/libcss/src/stylesheet.c:1451-1512 | succeeds exactly if there is memory for each selector that needs some; the hash holds exactly the selectors of the rules linked in, before and after, each chain by specificity and then rule index; the rule becomes the last of its list with the highest index; on failure the lists are unchanged, and the hash is unchanged if and only if the heads of its chains keep their filters |
| `Stylesheet.Sheet.RemoveRule` | browser/libcss/src/stylesheet.c:1521-1558 | for a top-level rule: it and all below it leave sheet and hash, and nothing else does; the filters stay right if and only if no chain's head passes to a selector with another filter |
| `Stylesheet.StaleAfterRemoval` | browser/libcss/src/stylesheet.c:1521-1558 | a run of two rules after which a filter is wrong: both added, the first removed |
| `Stylesheet.StaleAfterRollBack` | browser/libcss/src/stylesheet.c:1571-1628 | a run of two rules after which a filter is wrong: one added, the other refused for want of memory |

## Left out

- GIF parsing: headers, extensions and image descriptors are not parsed; frames carry what a scan found, and incremental re-scanning of partial data is not modelled beyond which frames are counted.
- LzwEncoder.BitsRoundTrip: minimum code sizes 0 and 1, which Appendix F of GIF89a rules out, are left out; the decoder takes them but never widens its codes.
- GIF client concerns: bitmap callbacks, colour layouts, custom row spans, the opaque flag and the redraw rectangle.
- GifAnimation.Animation.FramePrepare: the loop counter is unbounded, and the redraw rectangle is not modelled.
- Fetch polling, the file-descriptor sets, timers and callbacks that call back into the scheduler; the limits are taken as fixed and not negative.
- FetchScheduler.Scheduler.FetcherQuit: does not model what fetches freed after it do to the counts.
- Persistence of the disk cache (entries, blocks and control files), two addresses with the same 32-bit file name, failing disk I/O, sizes of 4 GiB and more, and the hit statistics.
- lwc_intern_substring, lwc_string_tolower and lwc_iterate_strings: thin wrappers around what is modelled. The string reference count is unbounded.
- Events sent to clients of the high-level cache, callbacks that release other handles while a content is destroyed, and the low-level cache, whose handles are opaque. User lists are sequences without the sentinel's pointers.
- HighLevelCache.Cache.Abort: the new user is registered with the copy after it has left the shared content, not before, with the same state after the call; stopping the content's handler and its low-level fetch is not modelled.
- HighLevelCache.Cache.Finalise: the drain loops only; freeing the remaining retrieval contexts is not modelled.
- How a selector is assigned its hash chain, matching with the hash, and the size accounting of stylesheets.
- Stylesheet.Sheet.AddRule: rules are added without children, under no rule or under an @media rule that is in the sheet, as the parser does.
- Stylesheet.Sheet.RemoveRule: top-level rules only; for a nested rule the code would take it off the sheet's own list.
- The stylesheet's string vector, simple getters and parser set-up.
- libnsbmp, MIME sniffing, the Duktape configuration, the hubbub and libdom drivers, the Go proxy and the Open Transport code: copying, tables, foreign calls or thin wrappers.
