# Verified models of the display, logging and connection code

The repository is firmware for a pair of ESP8266 devices: a client that measures, shows the readings on a small OLED, logs
them to flash and uploads them, and a server that keeps one ring file for each client and answers queries. This project
models the parts with real algorithms and proves what they are for.

- **Drawing** (`Bits`, `Framebuffer`, `Circle`, `FilledCircle`, `Line`, `Triangle`, `Glyphs`, `ScaledText`). A screen is the page-packed
  byte array of the driver. `Painted(before, after, colour, region)` says that exactly the on-screen pixels of a region have
  been recoloured, and every routine is proved to paint a region that is defined without reference to its loops.
- **Logs and replication** (`Ring`, `DataStore`, `Aggregation`, `ClientLog`, `BatchHistory`, `UploadBody`, `ReadingText`, `FieldText`,
  `UploadHandler`, `Replication`, `Sync`). A file is a header and the records behind it. Each server file refines an unbounded history, the client's
  ring refines its window of unsynced records, and a link of both ends refines a state machine of what was taken, what arrived
  and what is confirmed. The link replicates the client's log at least once under an exact condition on its run.
- **Registry** (`ClientRegistry`). Parallel arrays with compaction refine an insertion-ordered map keyed by id.
- **Queries** (`Query`). In-place percent-decoding and parameter lookup.
- **Shared** (`Arith`, `Sequences`, `Wrappers`). Linear stand-ins for products and quotients, sequence facts, optional values.
- **Step machines** (`WifiRetry`, `WifiNetworks`, `Button`). The reconnect handshake as interleaved shared accesses of two threads, the
  choice of network, and the debouncer over whole traces.

Behaviour a caller may not expect, each stated by a member of the table below, with its exact condition where there is one:

- `fill_circle` with INVERT returns `-EINVAL` after drawing the whole disc exactly for radii with a pixel on the diagonal.
- A rectangle with a negative `x` draws nothing and reports success; one that runs off the right edge is drawn up to the edge and
  then reports an error.
- `read_since` returns the oldest records first. Its header comment in `apps/server/main/data_store.h` line 67 says newest
  first; the model follows the code.
- `read_unsynced` returns the front of the unsynced window exactly while the window is no longer than the ring: the counter
  is not clamped.
- An upload from a new client at a known address stores the batch first and then moves the old client's file over it, so the
  batch is lost although the reply accepts it.
- Refused uploads are answered with status 200, so the client marks the batch as synced.
- Ids of 32 characters and more can make two registry rows equal; the condition is exact. It concerns the registry's interface:
  the HTTP handlers hold ids in 32-byte buffers.
- Filling a triangle divides by zero exactly when its two upper corners lie in row -32768 and the third lies below.
- Looking up `id` in a query finds it inside `new_id`.
- A request to switch networks is lost exactly when its decision has been cleared, is about to be cleared, or was read too early
  by the retry task taking an older request; a request that arrives during the wait is served.
- The retry task reconnects after one second at most, whatever delay was asked for, unless a newer request is pending: its wait loop
  leaves when nothing is, although the comment there says the opposite.
- A temperature above -1 and at or below -0.1 degrees loses its sign in the upload text, and exactly those.
- Outside basic mode a build without the air-quality sensor uploads only commas: in exactly that mode a batch prints no reading. The
  server stores nothing and replies, and the client takes the batch as synced: it is lost. Replication is at least once exactly in the
  runs where no reply comes for a body in which the server did not find a batch that it did not have already.

The upload timestamps, the flash's success or failure, the radio scan, the tick counter and the conversion of a parsed
reading into a stored record are parameters. So are, for each upload, the mode in which its body is printed and whether the server's
parser takes a body with readings in it; a list of bare commas is taken not to parse. One scan is one list of access points: the driver's list is taken not to change
while the configured networks are looked up in it. The two C tasks on the client are sequential: no append falls between reading a
batch and marking it.

## Model

| member | source | states |
|---|---|---|
| Framebuffer.Screen.DrawPixel | components/display/ssd1306.c:410-431 | Recolours exactly the pixel named by the arguments narrowed to int8_t; off screen it fails and leaves every byte as it was. |
| Framebuffer.Screen.DrawHLine | components/display/ssd1306.c:433-473 | The mask loop is the one-row rectangle cut at the right edge, for every colour; a zero width or an off-screen start is an error that changes nothing. |
| Framebuffer.Screen.DrawVLine | components/display/ssd1306.c:475-566 | Top mask, whole bytes and bottom mask together recolour exactly the rows from y to the cut end of that column, in all four colours, and no other bit. |
| Framebuffer.Screen.FillRectangle | components/display/ssd1306.c:580-589 | Exact rectangle, with the cases of a negative x (nothing drawn, success), zero height, and running off the right edge (drawn, then an error). |
| Framebuffer.Screen.IndexFormula | components/display/ssd1306.c:416 | The address used in the proofs is the driver's x + (y / 8) * width. |
| Framebuffer.Screen.IndexUnique | components/display/ssd1306.c:416 | Two on-screen pixels share a byte only in the same column and page. |
| Framebuffer.Screen.PaintedUnique | components/display/ssd1306.c:410-431 | The painting specification fixes the whole buffer, byte for byte. |
| Framebuffer.Screen.PaintedMeans | components/display/ssd1306.c:416-429 | In the driver's own terms: white sets bit y & 7 of byte x + (y / 8) * width, black clears it, invert flips it; all other pixels keep theirs. |
| Framebuffer.Narrowed | components/display/ssd1306.c:410-416 | The conversions to int8_t and uint8_t change a value by a multiple of 256 only. |
| Framebuffer.Screen.PaintedUnion | components/display/ssd1306.c:580-589 | Painting two regions in turn paints their union; for INVERT only if they do not meet. |
| Framebuffer.Screen.InvertedTwice | components/display/ssd1306.c:646-710 | Inverting the same region twice restores every byte; with `FillCircle` this covers filled circles. |
| Bits.PremaskBits | components/display/ssd1306.c:495 | Each premask entry selects exactly the lowest rows its index says, from the bottom of a page. |
| Bits.PostmaskBits | components/display/ssd1306.c:549 | Each postmask entry selects exactly the first rows of a page. |
| Bits.BitMaskIsShift | components/display/ssd1306.c:419 | The bit of a row used in the proofs is the driver's shift of 1 by y & 7. |
| Bits.LowMaskIsShift | components/display/ssd1306.c:498 | The mask of the lowest rows used in the proofs is the driver's 0xFF shifted right. |
| Bits.TopMask | components/display/ssd1306.c:493-515 | Premask cut to a short line selects exactly the rows from the start row, at most t of them. |
| Circle.MidpointStep | components/display/ssd1306.c:611-642 | The error term stays (y+1)^2 + (x-1)^2 - r^2 + r - 4 and the loop pixel stays the leftmost one at or beyond the threshold. |
| Circle.ErrorFits | components/display/ssd1306.c:594-640 | The error term never overflows its int16_t for radii below 128. |
| Circle.OctantUnique | components/display/ssd1306.c:611-642 | One octant pixel for each row: none is visited twice. |
| Circle.OctantEnds | components/display/ssd1306.c:611-642 | When the loop stops it has visited every octant row. |
| Circle.OctantNearCircle | components/display/ssd1306.c:611-642 | For r >= 3 each loop pixel satisfies r^2 - r + 4 <= x^2 + y^2 <= r^2 + r + 2. |
| Circle.RingBelowGrows | components/display/ssd1306.c:611-642 | One turn adds exactly the eight mirror images, and none of them was drawn before. |
| Circle.DrawCircle | components/display/ssd1306.c:591-644 | For radii below 128 it succeeds exactly when the four extreme pixels are on screen, and then paints exactly the ring, each pixel once even under INVERT; radius 0 is an error. |
| FilledCircle.RingIsRim | components/display/ssd1306.c:591-710 | The outline of `draw_circle` is exactly the rim of the disc of `fill_circle`. |
| FilledCircle.DiscBelowOctant | components/display/ssd1306.c:646-710 | The disc, defined by the threshold alone, is what the octant encloses. |
| FilledCircle.SweptGrows | components/display/ssd1306.c:659-678 | One turn of the column sweep adds exactly its bars, and under INVERT nothing twice. |
| FilledCircle.CappedGrows | components/display/ssd1306.c:680-708 | One turn of the row caps adds exactly its four pieces, and nothing twice. |
| FilledCircle.DiagonalIsLast | components/display/ssd1306.c:680-708 | A circle has a diagonal pixel exactly when the column sweep ends on it. |
| FilledCircle.SomeHaveDiagonal | components/display/ssd1306.c:680-708 | Radius 2 has a diagonal pixel and radius 3 has none, so both results of INVERT occur. |
| FilledCircle.LastPiece | components/display/ssd1306.c:680-708 | A row piece of width zero is met only in circles with a diagonal pixel. |
| FilledCircle.FillCircle | components/display/ssd1306.c:646-710 | On screen, all four colours paint exactly the same disc; the result is -EINVAL exactly for INVERT with a diagonal pixel, after everything is drawn. |
| FilledCircle.FillTwice | components/display/ssd1306.c:646-710 | Two INVERT calls restore every byte, even when both report the error. |
| Line.StandsNext | components/display/ssd1306.c:745-759 | One turn of the error term keeps the line on the nearest pixel. |
| Line.StandsAtUnique | components/display/ssd1306.c:745-759 | One pixel for each step of the longer axis, inside the segment. |
| Line.StandsSomewhere | components/display/ssd1306.c:745-759 | Every step of the longer axis has a pixel. |
| Line.WithinHalfAPixel | components/display/ssd1306.c:712-761 | Each pixel is within half a pixel of the ideal line: 2 * abs(j * dx - k * dy) <= dx. |
| Line.EndsOnEndPoints | components/display/ssd1306.c:712-761 | Both end points are drawn exactly. |
| Line.LineSymmetric | components/display/ssd1306.c:720-729 | Exchanging the end points draws the same pixels. |
| Line.LineInBox | components/display/ssd1306.c:712-761 | No pixel leaves the box of the end points. |
| Line.DrawLine | components/display/ssd1306.c:712-761 | Succeeds exactly for on-screen end points and then paints exactly the line; otherwise nothing changes. |
| Triangle.VertexOrderIrrelevant | components/display/ssd1306.c:780-789 | Any order of the vertices fills the same pixels. |
| Triangle.CrossingRounds | components/display/ssd1306.c:821-851 | A scanline's end is the edge crossing rounded by less than a pixel, on the right side of the edge. |
| Triangle.CrossingInRange | components/display/ssd1306.c:821-851 | A crossing stays between the columns of its edge. |
| Triangle.SpanInBox | components/display/ssd1306.c:821-851 | No span leaves the vertices' columns, so no row call fails. |
| Triangle.TriangleCovered | components/display/ssd1306.c:774-853 | Every pixel of the closed triangle is filled. |
| Triangle.FlatIsRow | components/display/ssd1306.c:792-804 | A flat triangle is exactly the row from its leftmost to its rightmost corner. |
| Triangle.HardlyOverfilled | components/display/ssd1306.c:774-853 | A filled pixel lies in the closed triangle or less than a pixel from one of the two edges of its scanline. |
| Triangle.AlongIsProduct | components/display/ssd1306.c:821-847 | The running sums equal the longhand products of the comments. |
| Triangle.AlongFits | components/display/ssd1306.c:821-847 | The running sums fit their int16_t on screen. |
| Triangle.FillTriangle | components/display/ssd1306.c:774-853 | For any int16_t corners, in any order, but those of the next row no divisor is zero; on screen it succeeds and paints each scanline exactly once. |
| Triangle.DividesByZeroCondition | components/display/ssd1306.c:818-851 | A loop is entered with a zero divisor if and only if the two upper corners lie in row -32768 and the third below it. |
| Triangle.DividesByZeroAt | components/display/ssd1306.c:818-823 | One such triangle. |
| Arith.QuotientBounds | components/display/ssd1306.c:822-823 | C division toward zero lies on the same side of any integer as the exact quotient. |
| Arith.TowardZero | apps/server/main/data_store.c:351-355 | The quotient is exact or cut toward zero, for either sign. |
| Glyphs.GenChar | components/fonts/tools/create_font.py:11-43 | Packs every image row into whole bytes, most significant bit first, padding unlit. |
| Glyphs.PackByte | components/fonts/tools/create_font.py:27-39 | Bit 7 - k of a packed byte is the k-th pixel, after eight shifts and the shift back. |
| Glyphs.PackedGlyph | components/fonts/tools/create_font.py:11-43 | Round trip: a font that holds the packed bytes shows exactly the image's pixels. |
| Glyphs.GlyphIsImage | components/display/Display.c:95-114 | Drawn from the packed bytes at any scale, a glyph covers exactly the blocks of the image's set pixels. |
| Glyphs.CharIsImage | components/display/ssd1306.c:855-899 | Drawn from the packed bytes on a transparent background, a character is the image painted in the foreground colour. |
| Glyphs.ByteNumbersFit | components/display/Display.c:103 | Byte numbers survive the uint8_t exactly for glyphs of at most 256 bytes. |
| Glyphs.DrawChar | components/display/ssd1306.c:855-899 | Draws the glyph of table entry c - char_start and nothing outside the table. On screen, each inked pixel gets the foreground and each other one the background if that is white or black; returns the width. |
| Glyphs.DrawCharScaled | components/display/Display.c:95-114 | Draws the glyph of table entry c - char_start and nothing outside the table: exactly one scale-by-scale block for each inked pixel, also when partly off screen. |
| Glyphs.ShowScaled | components/display/Display.c:95-114 | Round trip over the character code: in a font whose k-th entry holds the packed bytes of the k-th image, drawing charStart + k lights a pixel if and only if it was lit or the image's pixel at its quotient by the scale is set. |
| Glyphs.ShowPlain | components/display/ssd1306.c:855-899 | The same for the plain renderer: the image's set pixels take the foreground, its others a white or black background, and every pixel outside the cell stays. |
| Glyphs.Plot | components/display/Display.c:80-83 | A pixel off the screen but within -128..255 is ignored. |
| ScaledText.DrawStringScaled | components/display/Display.c:116-126 | Lights exactly the characters' blocks, each at the cursor position the widths and gaps before it give. |
| ScaledText.CursorIsSum | components/display/Display.c:118-125 | A character stands at x0 plus the scaled sum of the widths before it and one gap for each of them; one the font lacks counts as one pixel. |
| Ring.LastNSlides | apps/server/main/data_store.c:102-114 | The last n elements of a history slide by one when it grows. |
| DataStore.RingSlides | apps/server/main/data_store.c:102-114 | Writing at the cursor keeps the ring in order and slides its window by one record. |
| DataStore.SlotOfWindow | apps/server/main/data_store.c:162-178 | The slot computed for an offset holds that record of the window, wrapped or not. |
| DataStore.Store.Append | apps/server/main/data_store.c:66-125 | The window grows by the record, and loses its oldest one when the ring is full; a new file, or one without the magic number, has room for the configured number of records and holds just this one. The history grows by this record, other files and histories are untouched, and a file that cannot be opened changes nothing. |
| DataStore.Store.GetCount | apps/server/main/data_store.c:207-229 | The number of records in the window. |
| DataStore.Store.ReadRange | apps/server/main/data_store.c:127-182 | The window from offset on, oldest first, as many records as it has there up to limit and capacity; nothing beyond its end. |
| DataStore.Store.FindCut | apps/server/main/data_store.c:190-199 | The binary search ends at a smaller left and a not smaller right neighbour, on any data. |
| DataStore.Store.ReadSince | apps/server/main/data_store.c:184-205 | Terminates; the answer is as many records as fit from a cut on. On non-decreasing timestamps the cut has exactly the records before the time in front of it; so the answer is the first capacity records at or after the time, oldest first. |
| DataStore.CutIsFilter | apps/server/main/data_store.c:184-205 | On non-decreasing timestamps, the records from any cut on are exactly those at or after the time asked for. |
| DataStore.Store.DeleteClient | apps/server/main/data_store.c:231-242 | Removes that client's file and history only; fails if there was none. |
| DataStore.Store.RenameClient | apps/server/main/data_store.c:244-304 | A rename that happens moves window and history unchanged to the new id, over what was there; every other case changes nothing, with the exact result. |
| DataStore.ReadBack | apps/server/main/data_store.c:66-182 | The ring round trip: what is appended for a new client reads back in order, all of it, or the last records if they are more than the ring has room for. |
| Aggregation.AverageBetween | apps/server/main/data_store.c:351-355 | Every average lies between its bucket's smallest and largest value, so no cast loses anything. |
| Aggregation.BucketsAverage | apps/server/main/data_store.c:339-355 | Each field of a bucket is the mean of that same field of the bucket's records, cut toward zero and between their smallest and largest, and the count is theirs. |
| Aggregation.InBucketMeans | apps/server/main/data_store.c:326-337 | A bucket's records are exactly those with (ts / bucket) * bucket equal to its time, as often as they occur. |
| Aggregation.BucketOfIsFloor | apps/server/main/data_store.c:326-337 | The bucket of a time is (ts / bucket) * bucket. |
| Aggregation.BucketMonotone | apps/server/main/data_store.c:326-337 | Later times are in the same or a later bucket. |
| Aggregation.RunsAreGroupBy | apps/server/main/data_store.c:306-362 | On non-decreasing timestamps the runs are the mathematical group-by: strictly increasing bucket times, each summarising exactly its records, none missing. |
| Aggregation.CountsAddUp | apps/server/main/data_store.c:306-362 | The counts add up to the number of records. |
| Aggregation.OneBucket | apps/server/main/data_store.c:326-353 | One run is summed and averaged in the code's widths, and the rest is left for the next turn. |
| Aggregation.AddRecord | apps/server/main/data_store.c:339-344 | With at most 2000 records no 32-bit sum overflows. |
| Aggregation.Summarise | apps/server/main/data_store.c:323-358 | The loops yield the first capacity buckets of the whole answer. |
| Aggregation.ReadAggregated | apps/server/main/data_store.c:306-362 | On non-decreasing timestamps the answer is the first capacity buckets of the mathematical group-by of the first 2000 records at or after the time, with each field the mean of its own; on any data, the runs from a cut on; nothing for a zero bucket, a failed allocation or a capacity of 2^31 or more. |
| ClientLog.Log.Append | apps/client/main/data_storage.c:161-183 | Adds the record, unsynced, at the cursor and to the end of the window; a failed write changes neither record, cursor nor counters. |
| ClientLog.Log.ReadUnsynced | apps/client/main/data_storage.c:185-202 | Within capacity, the front of the window; for distinct records exactly within capacity. |
| ClientLog.Log.MarkSynced | apps/client/main/data_storage.c:204-230 | Only flags are ever set, only on unsynced records in the first count slots of the scan, and the window shrinks by as many; within capacity exactly the first count records of the window are marked and leave it, and every other slot is unchanged. |
| ClientLog.OnlyReadIsFlagged | apps/client/main/data_storage.c:185-230 | For any state of the log, also with a window longer than the ring: marking as many records as were just read sets no flag on a record outside the batch read. |
| ClientLog.RingHoldsAppended | apps/client/main/data_storage.c:161-183 | Appending keeps every slot from write_idx back holding its record of the window. |
| ClientLog.SlotIsLate | apps/client/main/data_storage.c:188-192 | Once the window is longer than the ring, no slot holds its first record. |
| ClientLog.MarkNext | apps/client/main/data_storage.c:210-222 | The next slot marked is the next record of the window, it was unsynced, and all other slots stay as they were. |
| ClientLog.WindowShortened | apps/client/main/data_storage.c:224-227 | After marking, the ring holds the shortened window. |
| ClientRegistry.Registry.Get | apps/server/main/client_registry.c:145-152 | The first row whose id agrees in the first 32 characters, or none. |
| ClientRegistry.Registry.ResolveId | apps/server/main/client_registry.c:28-36 | The new id of the one mapping for this id, else the id itself. |
| ClientRegistry.ResolvedMeans | apps/server/main/client_registry.c:28-36 | The first mapping for the id is followed once; an id without one leads to itself. |
| ClientRegistry.Registry.RenameId | apps/server/main/client_registry.c:38-76 | Result, rows and mappings together, for every refusal and for the rename. |
| ClientRegistry.RenameRoutes | apps/server/main/client_registry.c:38-76 | After a rename the row keeps its place and basic mode under the new id, the old id resolves to it, and all other rows and routes are unchanged. |
| ClientRegistry.RenameRefused | apps/server/main/client_registry.c:38-76 | A rename is refused, and changes nothing, exactly for an empty id, an unknown old or a known new one, or no room for the mapping. |
| ClientRegistry.Registry.ClearIdMapping | apps/server/main/client_registry.c:78-91 | Removes the id's mapping and closes the gap. |
| ClientRegistry.MappingCleared | apps/server/main/client_registry.c:78-91 | Exactly the cleared id resolves to itself again; mapping keys stay unique. |
| ClientRegistry.Registry.Update | apps/server/main/client_registry.c:93-143 | Rows, mappings, stored files and result together, with the eviction by address. |
| ClientRegistry.NewAtKnownAddress | apps/server/main/client_registry.c:96-132 | A new client at a known address takes the place of the first client there, however full the registry: that row goes, and a fresh one in basic mode comes last. |
| ClientRegistry.NobodyEvicted | apps/server/main/client_registry.c:94-99 | A known client, one without an address or one at a new address evicts nobody. |
| ClientRegistry.NewAtNewAddress | apps/server/main/client_registry.c:119-132 | Such a new client is added last with all its fields, if there are fewer than 16 rows. |
| ClientRegistry.KnownIsRefreshed | apps/server/main/client_registry.c:131-142 | A known client keeps place, id and flag, is online and seen now; its name and address change exactly when the call gives one and, for a name, there was none or the caller overwrites. |
| ClientRegistry.TakeOver | apps/server/main/client_registry.c:93-143 | On the objects: a new client at a known address has the old client's window, and the old id is gone from the registry and the files. |
| ClientRegistry.UpdateIsMapUpdate | apps/server/main/client_registry.c:93-143 | For ids of up to 31 characters an update is a map update: ids stay distinct, at most 16 rows, every other row and its basic mode untouched. |
| ClientRegistry.LongIdCondition | apps/server/main/client_registry.c:129-134 | A property of the interface, whose callers here hold ids in 32-byte buffers: a longer id keeps the ids distinct if and only if it is refused or its stored part is free. |
| ClientRegistry.Registry.GetBasicMode | apps/server/main/client_registry.c:154-161 | The client's own flag; an unknown client is in basic mode. |
| ClientRegistry.Registry.SetBasicMode | apps/server/main/client_registry.c:163-174 | Changes that client's flag only; an unknown client is an error. |
| ClientRegistry.Registry.Delete | apps/server/main/client_registry.c:312-330 | Removes the row from both arrays, clears the freed slot, keeps the order. |
| ClientRegistry.DeleteIsMapRemoval | apps/server/main/client_registry.c:312-330 | Every other client keeps its row and its basic mode through the compaction. |
| ClientRegistry.RunKeepsOrder | apps/server/main/client_registry.c:28-174 | Over any run of updates, renames, mode changes, deletions and cleared mappings with ids that fit, client ids and mapping keys stay distinct and both tables within 16 entries. |
| ClientRegistry.PerformAll | apps/server/main/client_registry.c:28-174 | The registry driven by such a run of calls ends in the tables of that run, in order, whatever the data store answers. |
| ClientRegistry.CloseGap | apps/server/main/client_registry.c:319-326 | Moves everything behind the gap forward in place and clears the last slot. |
| UploadHandler.AppendAll | apps/server/main/http_server.c:303-346 | Appends the accepted readings in order under their stamps to this client's history only, and counts them. |
| UploadHandler.AcceptedIsKept | apps/server/main/http_server.c:312-345 | Each accepted reading stands at its place among the accepted ones: with its own time if that is after the start of 2020, and otherwise with the server's. |
| UploadHandler.BatchFate | apps/server/main/http_server.c:341-358 | A batch stored before an eviction survives unless another client's file is moved to this id; then that client's history replaces it. |
| UploadHandler.HandleUpload | apps/server/main/http_server.c:229-387 | Histories, rows, mappings and reply for every upload; a refused one changes nothing, a moved file displaces the batch, no third client's history changes, and where no file is moved the history grows by exactly the accepted readings, each with its own time or the server's. The reply has their number, the id after mapping, and the mode in that id's row. |
| Sync.UploadUnsynced | apps/client/main/wifi_sync.c:430-523 | For any state of the log and any mode: only a connected exchange with a reply marks anything, and then only records of the batch; a request that is not delivered leaves the server as it was; one that is, with a body that parses and has readings, adds each record of the batch to the history. Within capacity the batch is the first 50 records of the window, and a reply takes exactly it off, whatever the server did. |
| Sync.Link.Take | apps/client/main/data_storage.c:161-183 | A reading goes into the abstract state exactly if it is written, and the state keeps describing the ring slot for slot. |
| Sync.Link.Upload | apps/client/main/wifi_sync.c:430-523 | Lost requests, lost replies, bodies that do not parse or carry no readings, and successes move the abstract state exactly as the protocol says; an accepted request updates the registry. |
| Sync.StaysRegistered | apps/server/main/client_registry.c:93-143 | Uploads of a registered client evict nobody and keep it registered. |
| Sync.BecomesRegistered | apps/server/main/client_registry.c:93-143 | The first accepted upload registers a client with an id that fits, if there is room. |
| Sync.EmptyRegistryCanJoin | apps/server/main/client_registry.c:19-26 | A new client of a server with an empty registry may start any run. |
| Sync.Run | apps/client/main/wifi_sync.c:430-523 | From a client the server knows, or has room for and first hears from undisturbed, or that stays outside a full registry: after any events in any modes, what was taken, which batches arrived, what is confirmed, what the server has and what the client's ring shows are exactly the replay of those events; it stops only at a reading for which the window fills the ring. |
| Sync.AtLeastOnce | apps/client/main/wifi_sync.c:441-522 | After any such run, everything the client takes to have arrived has arrived if and only if no reply came for a body in which the server did not find a batch that it did not have already. Then each record in the client's ring whose synced flag is set has a copy in the server's history, and that history without re-sends is the client's log in order without gaps. |
| Sync.LoseReading | apps/client/main/wifi_sync.c:464-506 | The condition fails in a documented build: one reading and one answered upload outside basic mode without the sensor leave the reading flagged and the server without it. |
| Sync.RunBacked | apps/client/main/wifi_sync.c:430-523 | Where each answered body carries its batch, every flag in the client's ring is on a record the server has a copy of, over any run and however far the unsynced window outgrows the ring. |
| Replication.DeliveredAll | apps/server/main/http_server.c:303-346 | A whole batch is stored if and only if every append succeeds. |
| Replication.ReadingMeans | apps/client/main/data_storage.c:161-183 | A reading that is written is taken, unsynced, and changes nothing else. |
| Replication.ExchangeMeans | apps/client/main/wifi_sync.c:492-513 | Only an exchange with a reply moves the confirmed position, by at most 50 records; one that is not delivered leaves the server as it is. |
| Replication.CarriedMeans | apps/client/main/wifi_sync.c:441-506 | A delivered body that parses and has readings adds each record of the batch to the server's history, in order, reply or not. |
| Replication.CarriedKeepsStep | apps/client/main/wifi_sync.c:492-513 | A batch that gets into the server's history extends it by copies; confirmed, it moves the confirmed position behind it, and with its reply lost it will be sent again from the same position. |
| Replication.InStepMeans | apps/client/main/wifi_sync.c:441-522 | In step, the server's history without re-sends is the client's log in order without gaps, and everything confirmed is in it. |
| Replication.ReplayInStep | apps/client/main/wifi_sync.c:430-523 | Both ends stay in step over every run in which nothing is lost. |
| Replication.ArrivedUnlessLost | apps/client/main/wifi_sync.c:492-506 | Over every run, everything confirmed has arrived if and only if no event was answered without the server having the batch. |
| Replication.LostForGood | apps/client/main/wifi_sync.c:498-506 | A confirmed record that has not arrived never will: no later event sends it. |
| Replication.CarriedIsSafe | apps/client/main/wifi_sync.c:464-477 | Nothing is lost where every answered body carries its batch. |
| Replication.LostWithoutReadings | apps/client/main/wifi_sync.c:464-506 | Where no readings are printed, one reading and one answered upload lose it. |
| Replication.ShowsAfterTake | apps/client/main/data_storage.c:161-183 | After an append the ring holds exactly the client's last records, each flagged if and only if its position is confirmed. |
| Replication.ShowsAfterMark | apps/client/main/data_storage.c:204-230 | The same after a batch is marked: the flags are exactly those before the new confirmed position. |
| Replication.BackedAfterExchange | apps/client/main/data_storage.c:204-230 | A batch that arrives leaves a copy behind each flag set on its records, with no bound on the window. |
| BatchHistory.ArrivalsInOrder | apps/client/main/wifi_sync.c:441-522 | First arrivals of a chain of batches are the positions 0, 1, 2, ... in order. |
| BatchHistory.FlattenCovers | apps/client/main/wifi_sync.c:441-522 | Every confirmed position has arrived. |
| BatchHistory.ChainExtends | apps/client/main/wifi_sync.c:441-522 | A batch sent from the confirmed position extends the chain, heard or not. |
| UploadBody.BuildBody | apps/client/main/wifi_sync.c:451-480 | For up to 50 records in range the buffer holds exactly the whole body and its NUL, no print is cut short, and it takes at most 4095 bytes, below the server's limit. |
| UploadBody.ReadingFits | apps/client/main/wifi_sync.c:464-477 | A reading takes at most 51 characters in basic mode and 79 otherwise. |
| UploadBody.BoundIsTight | apps/client/main/wifi_sync.c:451-480 | Some batch within all limits takes all 4095 bytes. |
| UploadBody.DecimalFits | apps/client/main/wifi_sync.c:464-477 | A number below 10^k prints in at most k digits. |
| UploadBody.DecimalReadsBack | apps/client/main/wifi_sync.c:464-477 | The printed digits read back as the number. |
| UploadBody.ShownIsCut | apps/client/main/wifi_sync.c:461-463 | The printed temperature is the reading cut to tenths if and only if it is not above -1 and at or below -0.1. |
| UploadBody.NothingButCommas | apps/client/main/wifi_sync.c:464-477 | The printed readings consist of commas only if and only if the batch is empty or the mode is not basic and the build has no sensor. |
| UploadBody.CommasBetween | apps/client/main/wifi_sync.c:456-477 | In that mode they are one comma fewer than there are records. |
| ReadingText.ReadingDetermines | apps/client/main/wifi_sync.c:459-477 | The text of a reading determines every field printed in it. |
| ReadingText.BodyDetermines | apps/client/main/wifi_sync.c:451-480 | Two bodies of a client with the same text carry as many readings, with the same printed fields in the same order. |
| FieldText.BodyTells | apps/client/main/wifi_sync.c:451-480 | Read by its keys: in the k-th object of the body, the number behind each key is that field of the k-th record, with the tenths behind the point. |
| FieldText.BodyCounts | apps/client/main/wifi_sync.c:451-480 | The body has one object for each record besides its own. |
| FieldText.HeaderTells | apps/client/main/wifi_sync.c:453-455 | The quoted text behind the id key is the id, and behind the name key the name. |
| UploadBody.ExampleReading | apps/client/main/wifi_sync.c:459-477 | One reading written out, below zero. |
| UploadBody.TwoReadings | apps/client/main/wifi_sync.c:451-480 | A body of two readings written out around them. |
| Query.UrlDecode | apps/server/main/http_server.c:44-58 | In place, the buffer ends up holding the decoded text and its NUL; nothing past the old NUL changes, and no unread byte is overwritten. |
| Query.GetQueryVal | apps/server/main/http_server.c:60-74 | The decoded value, cut to the buffer, of the key's first occurrence, or nothing and an unchanged buffer. |
| Query.PercentEncode | apps/server/main/http_server.c:44-58 | The usual encoder of section 2.1 of RFC 3986 is one of the encodings the round trip covers. |
| Query.DecodeEncoded | apps/server/main/http_server.c:44-58 | Decoding undoes any percent-encoding, with digits of either case and spaces as plus signs or escapes, and no encoding holds an ampersand or a NUL. |
| Query.FirstOccurrence | apps/server/main/http_server.c:62 | The search finds a position if and only if the text occurs there and nowhere before. |
| Query.FirstIsRead | apps/server/main/http_server.c:62-66 | An occurrence of the key is the one read if and only if it is the first, whatever follows it; without any, nothing is found. |
| Query.QueryRoundTrip | apps/server/main/http_server.c:60-74 | The value comes back whole when its encoding fits the buffer and the key text does not occur earlier. |
| Query.QueryCut | apps/server/main/http_server.c:69-72 | A value whose encoding does not fit is cut to one byte less than the buffer and then decoded. |
| Query.NoValue | apps/server/main/http_server.c:62-66 | A key whose first occurrence has no equals sign behind it has no value, even if a later one has. |
| Query.CutEscape | apps/server/main/http_server.c:46-55 | An escape that the text ends in is left as it stands. |
| Query.KeyFoundInsideAnother | apps/server/main/http_server.c:578-584 | With new_id first, looking up id returns the new id, for every value. |
| WifiRetry.InvHolds | components/wifi/wifi_manager.c:246-330 | In every interleaving a pending request has a notification on its way or is being taken. |
| WifiRetry.NoLostWakeup | components/wifi/wifi_manager.c:246-330 | No reachable state has a request pending with the task blocked, no notification queued and the handler idle. |
| WifiRetry.RequestTaken | components/wifi/wifi_manager.c:301-312 | Within seven steps of waking up the task has read both flags, cleared all three, and started the wait that was asked for. |
| WifiRetry.ConnectsAtOnce | components/wifi/wifi_manager.c:314-330 | With nothing new pending it connects after one second at most, however long a wait was asked for, applying the settings exactly for a switch. |
| WifiRetry.WaitsItOut | components/wifi/wifi_manager.c:314-323 | With a newer request pending it waits the whole time and then leaves the older one. |
| WifiRetry.EveryRequestConnects | components/wifi/wifi_manager.c:301-330 | Without further disconnects, whatever is outstanding has been connected and nothing is pending any more within an explicit number of task steps, also for a request behind the connect of an older one. |
| WifiRetry.CountsKept | components/wifi/wifi_manager.c:250-330 | How many connects and applied settings there will have been is fixed once the flags are written: no later step of either thread changes it. |
| WifiRetry.SwitchAppliedUnlessLost | components/wifi/wifi_manager.c:250-330 | In every interleaving that comes to rest without a further disconnect, the new settings are applied if and only if, when the handler had set the pending flag, its decision was not already cleared, about to be cleared, or read too early. |
| WifiRetry.SwitchCanBeLost | components/wifi/wifi_manager.c:307-311 | A reachable run in which a request to switch is cleared unseen and everything comes to rest. |
| WifiNetworks.FindRssi | components/wifi/wifi_manager.c:98-126 | The strongest signal among the access points of that name; 0 when there is none. |
| WifiNetworks.Station.Rescan | components/wifi/wifi_manager.c:147-165 | Refreshes exactly the configured entries and finds the strongest visible one, the first on a tie. |
| WifiNetworks.Station.ScanAndSelectBest | components/wifi/wifi_manager.c:129-182 | Afterwards the active network is the best visible one if any is; true exactly when it changed, with its failure count cleared. |
| WifiNetworks.Station.OnDisconnect | components/wifi/wifi_manager.c:198-249 | Switches exactly at the failure threshold with a better network visible, never leaves the threshold reached, asks for 5, 60 or 3600 seconds accordingly, and leaves every other table entry as the scan or the count left it. |
| WifiNetworks.DisconnectTwice | components/wifi/wifi_manager.c:198-249 | Of two disconnects in a row without a wrong password the second one looks for the best network and the first does not; a wrong password in between starts the count over. |
| Button.Button.IsPressedDebounced | apps/client/main/button.c:92-130 | One sample's report and the whole new state. |
| Button.Button.WasPressed | apps/client/main/button.c:67-76 | Hands over the pending press and re-arms a held button. |
| Button.FieldsMean | apps/client/main/button.c:92-130 | What each field says about the trace so far. |
| Button.ElapsedIsShort | apps/client/main/button.c:110 | Tick differences across a wrap of the counter never exceed the real time. |
| Button.ReportIsDebounced | apps/client/main/button.c:92-130 | A report means that every sample since a change seen at least 50 ms earlier, or since start-up, was pressed. |
| Button.ReportsFirstSteady | apps/client/main/button.c:92-130 | Without button_was_pressed a sample reports if and only if it is the first steady one of its press. |
| Button.AtMostOneReportPerPress | apps/client/main/button.c:67-130 | At most one report for each press edge seen, one for a button held at start-up, and one for each question. |
| Button.AnswerMeans | apps/client/main/button.c:67-76 | button_was_pressed answers yes if and only if a press was reported since it was last asked. |
| Button.AnsweredOnce | apps/client/main/button.c:67-76 | There are never more yeses than reports. |
| Button.AskRearms | apps/client/main/button.c:67-130 | Asking during a steady press of less than 5 s makes the next steady sample report it again. |
| Button.SilentAfterLongHold | apps/client/main/button.c:67-130 | After a 5 s hold nothing is reported until the level changes, even with questions in between. |

## Left out

- Circle.DrawCircle: nothing is claimed for radii of 128 and more, whose narrowed coordinates alias, nor about what a circle that does not fit leaves drawn.
- FilledCircle.FillCircle: discs that are partly off screen stop half-way in the code; nothing is claimed about them.
- Triangle.FillTriangle: triangles that are partly off screen stop half-way; nothing is claimed about what they leave drawn.
- Framebuffer.Screen.Combine: the switch on the colour is called once for each byte, where some source functions put one loop into each branch of the switch.
- Glyphs.DrawChar: a character that leaves the screen is drawn up to there and fails; only characters on screen are specified.
- ScaledText.DrawStringScaled: strings whose blocks reach beyond column or row 255 alias onto the screen and are not specified; a negative scale draws nothing, like scale 0.
- DataStore.Store.Append: flash failures after the file is open (a seek or write that fails, a header left unwritten) and the flash file system's limit on file names are not modelled.
- DataStore.Store.ReadRange: the caller's buffer is the returned sequence, here and in the other read functions.
- ClientLog.Log.Append: the case of a record written with a header write that fails, and the wrap of the unsynced counter at 2^32, are not modelled.
- ClientLog.Log.MarkSynced: while the window is longer than the ring, the slots flagged are among those of the batch read, but which of them is not stated.
- ClientRegistry.Registry.Update: saving to and loading from flash, and the stale check, are not modelled.
- ClientRegistry.RenameRoutes: chained renames do not resolve, because one mapping is followed; only the latest rename is claimed.
- UploadHandler.HandleUpload: parsing the body and converting temperature and humidity are an arbitrary function of each reading.
- Sync.Link.Upload: a change of the client's own id by the server's reply, and an upload that takes over another client's file, are outside the invariant; `HandleUpload` states what the latter does.
- Sync.Run: the server's flash is taken to accept every record of the run; `Replication.DeliveredAll` states what becomes of a batch otherwise.
- UploadBody.BuildBody: characters in the id or name that would need escaping are copied as they are.
- ReadingText.BodyDetermines: reads the text back as characters; the server's JSON parser itself is not modelled.
- WifiRetry.EveryRequestConnects: task steps, not seconds.
- WifiNetworks.Station.OnDisconnect: starting the retry task, and the fallback when it is missing, are not modelled.
- Drawing of outlined rectangles and triangles, unscaled strings and bitmaps: compositions of the routines here.
- The I2C transport, scrolling and display commands.
- Opening and re-creating the client's data file, clearing it, and computing the ring capacities.
- Sockets, discovery, the HTTP routing, JSON parsing, time synchronisation and the web pages.
- The client's main loop, the sensors and the display layout.
