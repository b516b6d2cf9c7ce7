# SSD1306 monochrome display core in Dafny

This project models the display core of a SAMD21 firmware collection that
drives SSD1306 OLED panels over I2C:

- the tile-organised 1-bit framebuffer with dirty-tile tracking, in both of
  its copies (`Framebuffer_1bit.c` and `Framebuffer_SSD1306.c`);
- the SSD1306 driver: command and data sequence writes, the initialisation
  sequence, display on/off, the column and page range commands, and the full
  and differential display updates;
- the self-growing `uint16_t` stack;
- the rasterisers of `Draw.c`: line, rectangle, circle, ellipse in a
  rectangle, and the scanline flood fill;
- the 6-pixel proportional font;
- the fill test pattern.

The I2C transport is an abstract bus (module `Bus`). It has a send-stop flag,
a trace of the writes and stop conditions asked of it, and an oracle that
supplies the outcome of every write. Memory allocation is modelled as
success/failure flags the caller supplies. The drawing code only calls a
pixel-write function, so it is modelled as the sequence of calls it makes.
`Canvas.Paint` plays such a sequence into the framebuffer.

Modules, one per file:

- `Common`: status codes and C's `||` on statuses.
- `Bits`: byte and bit helpers.
- `Arith`: arithmetic lemmas.
- `Framebuffer`: the framebuffer.
- `Bus`: the abstract bus.
- `Ssd1306`: command encoding, sequence writes, init, ranges and tile selection.
- `Ssd1306Update`: the full update as written, and corrected.
- `Ssd1306Plan`: update steps and what they do to the controller RAM.
- `Ssd1306Diff`: the corrected differential update.
- `Ssd1306Retry`: the differential retry loop as written.
- `Stacks`: the stack.
- `Canvas`: the pixel sink.
- `Raster`: line, rectangle and circle.
- `Ellipse`: the ellipse.
- `Fill`: the flood fill.
- `Font`: the font.
- `TestPattern`: the fill test pattern.

Where the source has a defect, the model keeps an "as written" member next to
a corrected one (see "## Findings"). The rest of the model builds on the
corrected members.

## Model

| member | source | states |
|---|---|---|
| Framebuffer.Locate | Framebuffer_1bit.c:80-96 | Only in-bounds pixels have a location. That location is a valid tile and a bit below 8, and decoding it gives back the same (x, y). |
| Framebuffer.LocateRoundTrip | Framebuffer_SSD1306.c:166-168 | Pixel (x, y) is in tile `(y/8)*columns + x` at bit `y%8`, and mapping that tile and bit back gives (x, y). |
| Framebuffer.LocateInjective | Framebuffer_1bit.c:91-93 | Two distinct in-bounds pixels never share a tile and bit. |
| Framebuffer.Pixel | Framebuffer_1bit.c:225-230 | A pixel reads as 0 or 1. |
| Framebuffer.DirtyBitIndex | Framebuffer_1bit.c:189-196 | The dirty flag of tile t sits in byte t/8 at a bit below 8, and byte and bit together give back t. |
| Framebuffer.DirtyBitIndexAsWrittenAgrees | Framebuffer_1bit.c:190 | The source's `t % ((t>>3)<<3)` gives the same bit as `t % 8` for every tile from 8 on, and divides by zero for tiles 0 to 7. |
| Framebuffer.DirtyBitIndexAsWritten | Framebuffer_1bit.c:190 | The source's bit position is defined exactly for tiles from 8 on, and is then below the divisor `(t/8)*8`. |
| Framebuffer.DirtyIndexAsWrittenTooSmall | Framebuffer_1bit.c:115 | A dirty index of `bytes >> 3` bytes has no byte for the last tile when the tile count is not a multiple of 8. |
| Framebuffer.DirtyIndexSize | Framebuffer_1bit.c:115 | A dirty index rounded up to whole bytes has a byte for every tile and wastes less than one byte. |
| Framebuffer.Init | Framebuffer_1bit.c:105-125 | Geometry is columns = width and pages = height/8, with the dirty counter at 0. The status is NO_MEMORY exactly when an allocation fails. The result is consistent only if the fresh dirty memory holds no set flag. |
| Framebuffer.Clear | Framebuffer_SSD1306.c:52-68 | Every pixel reads 0, every tile is dirty, the counter equals the tile count, the geometry is kept and the invariant holds. |
| Framebuffer.Clear1bit | Framebuffer_1bit.c:130-142 | A NULL framebuffer is left alone. Otherwise the result is cleared, consistent and fully dirty. |
| Framebuffer.SetPixel | Framebuffer_SSD1306.c:215-269 | Out of bounds: INVALID_ARG and nothing changes. Writing the stored value is a no-op. Otherwise only that tile's flag is raised, and the counter grows by one iff the tile was clean. |
| Framebuffer.SetPixelReadsBack | Framebuffer_1bit.c:182-186 | After a write, the pixel reads back 1 for a non-zero value and 0 for zero. |
| Framebuffer.SetPixelFrame | Framebuffer_1bit.c:182-186 | A write changes no other pixel. |
| Framebuffer.SetPixelKeepsValid | Framebuffer_1bit.c:189-196 | A write keeps the counter equal to the number of dirty flags. |
| Framebuffer.DrawPixel1bit | Framebuffer_1bit.c:147-199 | A NULL framebuffer gives INVALID_ARG. Otherwise it behaves as the shared pixel write. |
| Framebuffer.GetPixel1bit | Framebuffer_1bit.c:204-233 | In bounds: OK and the stored bit. Out of bounds: INVALID_ARG, and the out-parameter keeps its previous value. |
| Framebuffer.GetPixelSsd1306 | Framebuffer_SSD1306.c:182-207 | In bounds: OK and the stored bit. Out of bounds: INVALID_ARG, and the out-parameter becomes 0. |
| Framebuffer.MarkAllClean | SSD1306.c:396-397 | Every flag is cleared and the counter is 0, while the tiles and geometry are kept. |
| Framebuffer.MarkAllCleanIdempotent | SSD1306.c:396-397 | Clearing all flags twice is the same as clearing them once. |
| Framebuffer.MarkClean | SSD1306.c:322-323 | Clearing one dirty tile's flag lowers the counter by one and touches no other flag. |
| Bits.CountTrueSet | Framebuffer_SSD1306.c:256-263 | Raising a clear flag adds exactly one to the number of raised flags. |
| Bits.CountTrueClear | SSD1306.c:322-323 | Clearing a raised flag removes exactly one from the number of raised flags. |
| Bits.CountTrueZero | SSD1306.c:258-260 | A zero count means that no flag is raised, and the converse. |
| Bits.WithBitReads | Framebuffer_1bit.c:182-186 | Setting or clearing bit k makes bit k read as asked and leaves the other seven bits as they were. |
| Bus.WriteWait | Com_Driver.h:18-21 | A write returns the oracle's next outcome and records one write carrying the current send-stop flag. |
| Bus.SendStop | Com_Driver.h:18-21 | A stop condition is appended and nothing else changes. |
| Bus.FirstFailureUnique | SSD1306.c:69-75 | The first failing write in a run is unique: everything before it succeeded. |
| Ssd1306.KindByte | SSD1306.h:45-46 | The control byte is 0x00 exactly for commands and 0x40 exactly for data. |
| Ssd1306.ParseSerialize | SSD1306.h:55-200 | The controller reads a stream of well-formed commands back as exactly those commands. |
| Ssd1306.SerializeParse | SSD1306.h:55-200 | Any stream the controller accepts is exactly the bytes of the commands it reads. |
| Ssd1306.ParseWellFormed | SSD1306.h:55-200 | Every command the controller reads from a stream has the operand count of its opcode. |
| Ssd1306.SequenceWrite | SSD1306.c:44-81 | An empty sequence is OK with no bus traffic. The status is OK iff every write succeeds, and the send-stop flag is restored. On a clean bus it sends one `[kind, byte]` write per byte and then a stop. |
| Ssd1306.SequenceWriteSent | SSD1306.c:60-78 | Writes are made with the bus held, up to and including the first failure. Then a stop is sent. The status is that of the last write. |
| Ssd1306.SequenceSentOk | SSD1306.c:69-75 | The sequence status is OK iff each of the byte writes succeeded. |
| Ssd1306.FirstWriteFails | SSD1306.c:69-75 | A failing first write ends the sequence at once with its status. Only that write and the stop reach the bus. |
| Ssd1306.SingleByteSent | SSD1306.c:86-103 | A one-byte command or data sequence is one two-byte write followed by a stop. |
| Ssd1306.Pages | SSD1306.c:118-125 | 32 rows are 4 pages and 64 rows are 8 pages. |
| Ssd1306.MultiplexRatio | SSD1306.c:137-158 | The multiplex-ratio operand is the row count minus one. |
| Ssd1306.LastPage | SSD1306.c:137-158 | The page-end operand is the page count minus one. |
| Ssd1306.InitBytes | SSD1306.c:137-158 | The initialisation sequence is 25 bytes long. |
| Ssd1306.InitBytesCommands | SSD1306.c:137-158 | The 25 init bytes read as 13 well-formed commands, in order: display off, charge pump, multiplex, COM pins, clock, precharge, VCOMH, horizontal addressing, page range, column range, resume RAM, normal display, contrast. They serialise back to the same bytes. |
| Ssd1306.InitSequenceCommands | SSD1306.c:118-135 | The hardware settings (COM pins by row count, precharge and contrast by pump source) are placed in that command list. |
| Ssd1306.Init | SSD1306.c:105-192 | On a clean bus: the init sequence, then `[0xC8]` iff horizontal flip, then `[0xA1]` iff vertical flip, all OK. On any bus, the horizontal flip is tried only after the init sequence went through, and the vertical flip only after both. The first failing write's status is returned, with the bus as that write left it, and OK only if all went through. The send-stop flag is always restored. |
| Ssd1306.InitWrites | SSD1306.c:160-189 | Each flip command is sent only if everything before it succeeded. A failure in the init sequence or in either flip is returned at once with the bus as it left that write. |
| Ssd1306.Flip | SSD1306.c:165-189 | An unset flip sends nothing and is OK. A set flip is a one-byte command sequence. |
| Ssd1306.DisplayOn | SSD1306.c:194-209 | Sends `[0xAF]` for on and `[0xAE]` for off as a single command write followed by a stop, and returns that write's outcome. |
| Ssd1306.RangeCommandSent | SSD1306.c:407-433 | A range command reads as one command with two operands. When it succeeds, exactly its three-byte transmission was sent. |
| Ssd1306.SetColumnRange | SSD1306.c:407-419 | Sends `[0x21, first, last]` as one command sequence. |
| Ssd1306.SetPageRange | SSD1306.c:421-433 | Sends `[0x22, first, last]` as one command sequence. |
| Ssd1306.AddressCommandsParse | SSD1306.c:216-228 | Tile selection is the page range [page, pages-1] followed by the column range [column, 127]. |
| Ssd1306.SetTileNext | SSD1306.c:216-228 | The result is 0 iff all six byte writes succeed, and otherwise the `||` value 1. |
| Ssd1306.TileNextSent | SSD1306.c:216-228 | On success exactly the two range transmissions are sent. On a clean bus it succeeds. |
| Ssd1306.SelectTileNext | SSD1306.c:223-227 | The column range is attempted only after the page range succeeded. A failure consumes at least one bus outcome. |
| Ssd1306Update.Threshold | SSD1306.c:262-272 | The full-update threshold is 147/512 of the tile count: 147 tiles on 128x32 and 294 on 128x64. |
| Ssd1306Update.SendTiles | SSD1306.c:387-395 | It is OK iff every tile's data write succeeds. Then it has sent every tile in page-major order as one data write each. |
| Ssd1306Update.UpdateAllAsWritten | SSD1306.c:357-405 | update_all as written returns 0 or 1 and restores the caller's send-stop flag. |
| Ssd1306Update.UpdateAllAsWrittenAllOk | SSD1306.c:357-405 | On a clean bus, update_all as written selects tile (0,0) and sends every tile. Then it stops, clears all flags and returns OK. |
| Ssd1306Update.UpdateAllAsWrittenHidesFailure | SSD1306.c:387-395 | A failing first tile write is overwritten by the next page's status. update_all then reports OK and clears all flags with a tile missing. |
| Ssd1306Update.FirstPageFailureHidden | SSD1306.c:391-393 | The `break` leaves only the inner loop, so a failed page is followed by the next one and its status is lost. |
| Ssd1306Update.FullPass | SSD1306.c:382-395 | A full pass selects (0,0) and sends every tile. A failure consumes bus outcomes. |
| Ssd1306Update.FullPasses | SSD1306.c:380 | The retry loop ends with the full-pass traffic last on the bus. On a clean bus it is the only traffic. |
| Ssd1306Update.UpdateAll | SSD1306.c:357-405 | Corrected update_all. It is OK only once every tile went out; it then clears all flags and sends a stop. On failure the flags are kept. The send-stop flag is restored. |
| Ssd1306Plan.Selection | SSD1306.c:307-316 | An address selection precedes a dirty tile exactly when the addressing rule asks for it, and it selects that tile's page and column. |
| Ssd1306Plan.DiffSteps | SSD1306.c:299-335 | The differential update sends one data byte per dirty tile. |
| Ssd1306Plan.DiffStepsClean | SSD1306.c:301-305 | Clean tiles send nothing. |
| Ssd1306Plan.DiffStepsFrame | SSD1306.c:301-305 | The steps depend only on the dirty flags from the current tile on. |
| Ssd1306Plan.Apply | SSD1306.c:317-321 | A data byte lands at the controller's pointer and changes no other RAM byte. A selection changes no RAM. |
| Ssd1306Plan.Advance | SSD1306.c:317-321 | After a data byte the pointer moves to the next RAM cell, within a page. |
| Ssd1306Plan.RunDataFills | SSD1306.c:387-395 | Data bytes sent one after another fill consecutive RAM cells, wrapping from one page to the next. |
| Ssd1306Plan.FullStepsRefreshPanel | SSD1306.c:382-395 | The full update leaves the controller RAM equal to the framebuffer, whatever it held before. |
| Ssd1306Plan.SelectLands | SSD1306.c:216-228 | After a tile selection the controller pointer is at that tile, with the column end at 127 and the page end at the last page. |
| Ssd1306Plan.DataLands | SSD1306.c:317-321 | A data byte sent after selecting tile t is written into RAM cell t, and the pointer is then just past t. |
| Ssd1306Plan.CorrectedUpdateRefreshesPanel | SSD1306.c:242-343 | When the clean tiles already match, the corrected differential update leaves the controller RAM equal to the framebuffer. |
| Ssd1306Plan.AsWrittenSkipsFirstAddress | SSD1306.c:290 | With only tile 1 dirty, the update as written sends its byte without selecting it, because `tile_idx_prev` starts at 0. The byte lands in the wrong cell. |
| Ssd1306Plan.AsWrittenStepsAcrossPages | SSD1306.c:307-316 | Tiles 127 and 128 as written are sent with a single selection. |
| Ssd1306Plan.AsWrittenBreaksAcrossPages | SSD1306.c:307-316 | Tile 128 is then written at the pointer left after the page wrap, not at page 1 column 0, so the panel misses it. |
| Ssd1306Diff.SelectIfNeeded | SSD1306.c:307-316 | The tile is selected exactly when the corrected rule asks for it. Failure consumes bus outcomes. |
| Ssd1306Diff.DiffTile | SSD1306.c:317-323 | A dirty tile's flag is cleared only after its data write succeeded. |
| Ssd1306Diff.DiffPass | SSD1306.c:297-335 | A successful pass sends the corrected steps and clears every flag. A failed pass clears only the tiles it sent. |
| Ssd1306Diff.ClearedAll | SSD1306.c:324-326 | When the counter reaches 0, every flag of the original framebuffer has been cleared. |
| Ssd1306Diff.DiffPasses | SSD1306.c:297 | The corrected retry restarts from the tiles still dirty and ends with all flags clear. On a clean bus it sends exactly one pass. |
| Ssd1306Diff.UpdateRefreshesPanel | SSD1306.c:258-277 | Whichever path display_update picks, the panel ends up showing the framebuffer. |
| Ssd1306Diff.Update | SSD1306.c:242-343 | With count 0: OK and no bus traffic. Above the threshold it delegates to the full update, otherwise it runs the differential update. On OK every flag is clear. The send-stop flag is restored. |
| Ssd1306Retry.PassAsWritten | SSD1306.c:297-335 | A pass as written leaves the image unchanged, only adds bus traffic, keeps the send-stop flag, and never clears an `error` flag once set. |
| Ssd1306Retry.RetryAsWritten | SSD1306.c:297 | Any number of passes as written leaves the image unchanged, only adds bus traffic, and keeps a set `error` flag. |
| Ssd1306Retry.CleanRowUntouched | SSD1306.c:299-305 | A page with no dirty tile sends nothing. |
| Ssd1306Retry.StuckForever | SSD1306.c:297 | Once the error flag is set and page 0 is clean, every later pass changes nothing. |
| Ssd1306Retry.FirstPassFails | SSD1306.c:307-326 | With only page 1 column 0 dirty, a failed first write leaves the error set and the tile dirty. |
| Ssd1306Retry.AsWrittenRetrySpins | SSD1306.c:284-297 | Then no number of retries brings the status to OK, even with a healthy bus. |
| Stacks.Allocate | Stack.c:48-70 | NULL gives INVALID_ARG. A failed allocation gives NO_MEMORY. Success gives an empty stack of capacity max(initial, 1). |
| Stacks.Deallocate | Stack.c:75-88 | NULL gives INVALID_ARG. Otherwise the stack is released. |
| Stacks.Pop | Stack.c:93-111 | NULL gives INVALID_ARG and an empty stack gives NOT_FOUND, both unchanged. Otherwise the top entry is returned and removed, with the capacity kept. |
| Stacks.Realloc | Stack.c:142-163 | NULL gives INVALID_ARG. Capacity 0 releases the stack. A failure gives NO_MEMORY and leaves it unchanged. Success keeps the entries that fit. |
| Stacks.Push | Stack.c:116-137 | Corrected push: OK iff there is room or growth succeeds. The contents gain the entry on top, and a full stack grows to at least double. On failure nothing changes. |
| Stacks.PushAsWritten | Stack.c:116-137 | The push as written gives INVALID_ARG exactly for NULL. When it returns OK with a live stack, the entry is on top of the old contents. |
| Stacks.PushThenPop | Stack.c:107-108 | A pop right after a push returns the pushed entry and restores the contents. |
| Stacks.PushAll | Stack.c:116-137 | Pushes with growth available append their entries in order. |
| Stacks.AsWrittenPushWithRoom | Stack.c:126-134 | With room, the push as written agrees with the corrected push. |
| Stacks.AsWrittenPushGrowing | Stack.c:127-133 | When doubling fits in a byte and succeeds, the push as written agrees with the corrected push. |
| Stacks.AsWrittenFailedGrowthOvercounts | Stack.c:126-131 | A failed growth as written returns NO_MEMORY with the count one past the capacity, so the invariant is broken. |
| Stacks.AsWrittenGrowthWraps | Stack.c:129 | Doubling a capacity of 128 or more wraps the byte to 0, so the stack is released and then written through. The corrected push grows it. |
| Canvas.PaintReads | Framebuffer_1bit.c:182-186 | After a sequence of pixel writes, each pixel shows the last value written to it, or its old value if none was. |
| Canvas.PaintKeepsValid | Framebuffer_1bit.c:189-196 | Any sequence of pixel writes keeps the framebuffer consistent. |
| Canvas.PaintUniform | Framebuffer_1bit.c:182-186 | When all writes carry one value, the pixels hit show it and the others are unchanged. |
| Raster.DrawLine | Draw.c:298-328 | NULL gives INVALID_ARG and no calls. Otherwise it is OK with the line's calls. |
| Raster.LineCalls | Draw.c:315-325 | The line starts at (x0, y0) and ends at (x1, y1). Consecutive pixels are 8-neighbours, each coordinate moves monotonically toward its end, and the end pixel appears only last. |
| Raster.WalkIsPath | Draw.c:319-325 | The Bresenham loop from any consistent error state produces such a path. |
| Raster.StepTracks | Draw.c:319-325 | The error term keeps tracking the steps made in x and y. |
| Raster.StepInside | Draw.c:319-325 | Each iteration steps in x, in y or both, and never beyond an endpoint. |
| Raster.LineLength | Draw.c:319-325 | A line makes max(dx, dy) + 1 calls. |
| Raster.AxisLineCovers | Draw.c:319-325 | A horizontal or vertical line draws every pixel between its endpoints. |
| Raster.DrawRect | Draw.c:333-350 | NULL gives INVALID_ARG. Otherwise it draws four lines in order, starting and ending at (x0, y0). |
| Raster.RectCalls | Draw.c:344-349 | Every rectangle call lies on the rectangle's border. |
| Raster.RectCovers | Draw.c:344-349 | Every border pixel of the rectangle is drawn. |
| Raster.Octant | Draw.c:62-81 | The midpoint loop walks y up by one per step and x down by at most one, staying in the first octant. |
| Raster.OctantNear | Draw.c:73-80 | Every octant point lies within one of the radius, measured by the error term. |
| Raster.ReflectionsSymmetric | Draw.c:64-71 | The eight points of an iteration are closed under swapping x and y and under negating either. |
| Raster.CircleShape | Draw.c:58-81 | The circle's offsets are symmetric under all eight reflections and all lie near the radius. |
| Raster.DrawCircle | Draw.c:42-84 | NULL gives INVALID_ARG. Otherwise it is OK with one call per offset, about (x0, y0). |
| Raster.CircleExtremes | Draw.c:58-71 | (x0±r, y0) and (x0, y0±r) are always drawn, with coordinates as `uint16_t`. |
| Ellipse.Fit | Draw.c:107-124 | Wrapped coordinates agree with the value modulo 65536, and values already in range are unchanged. |
| Ellipse.ToCalls | Draw.c:126-152 | Each ellipse point is drawn once, in order, with coordinates truncated to `uint16_t`. |
| Ellipse.DrawEllipse | Draw.c:89-155 | NULL gives INVALID_ARG. Otherwise it is OK. |
| Ellipse.DrawEllipseAsWritten | Draw.c:89-155 | As written: NULL gives INVALID_ARG with no calls. Otherwise it is OK. |
| Ellipse.StepMoves | Draw.c:126-144 | One main-loop step moves x0 right by at most one and keeps x0+x1 and y0+y1 constant. |
| Ellipse.EllipseQuads | Draw.c:117-152 | The ellipse's points come in groups of four that mirror each other about the box centre, and all lie between the box's columns. |
| Ellipse.EllipseShape | Draw.c:126-152 | For each drawn point, its two mirror images about the box centre are drawn too. |
| Ellipse.EllipseStart | Draw.c:117-128 | After the x swap, the first group is at the right and left columns of the box. |
| Ellipse.EllipseAtOrigin | Draw.c:89-155 | The corrected algorithm draws a degenerate box at the origin as its one pixel and stops. |
| Ellipse.AsWrittenEllipseEscapes | Draw.c:139-141 | As written, `x1--` wraps from 0 to 65535, so a box at the origin draws (1, 1) outside itself and keeps running. |
| Fill.ReadsView | Framebuffer_1bit.c:204-233 | Reading the fill's surface is the framebuffer's get_pixel. |
| Fill.WritesView | Framebuffer_1bit.c:147-199 | Writing the fill's surface is the framebuffer's draw_pixel. |
| Fill.DrawMatching | Draw.c:225-228 | Painting a pixel that matches the target value shrinks the set of matching pixels. |
| Fill.RecoloredTrans | Draw.c:221-266 | Recolouring, which only turns matching pixels into the paint colour, composes. |
| Fill.Neighbour | Draw.c:231-260 | A pixel above or below is pushed only if it is in bounds, matches, and starts a new run. |
| Fill.LeftStop | Draw.c:210-218 | The left scan ends at a non-matching pixel or at the left edge, wrapping to 65535 below column 0. |
| Fill.LeftStopRun | Draw.c:210-218 | The scan start is the left end of the matching run that contains the seed. |
| Fill.RightRun | Draw.c:221-266 | The right scan changes only matching pixels, and each recoloured pixel reduces the number of matching pixels. |
| Fill.RightRunCovers | Draw.c:221-228 | The whole matching run to the right of the scan start is painted. |
| Fill.Fill | Draw.c:208-286 | The fill loop ends OK, having changed only matching pixels and only to the paint colour. A new bit equal to the target value changes nothing. |
| Fill.DrawFill | Draw.c:160-293 | NULL or an out-of-bounds seed gives INVALID_ARG before anything is drawn. A failed stack allocation gives NO_MEMORY. A non-matching seed is OK with nothing painted. Only matching pixels ever change, and none does when the new bit equals the target value. |
| Fill.DrawFillAsWritten | Draw.c:160-293 | As written, within a budget of rounds: NULL or an out-of-bounds seed gives INVALID_ARG and a failed allocation NO_MEMORY, both with nothing drawn. A run that ends with a stack is OK, and only matching pixels change, to the paint colour. |
| Fill.RoundsAsWrittenEnd | Draw.c:208-286 | When the new bit differs from the target value, the outer loop as written ends within some budget, with the corrected loop's result. |
| Fill.AsWrittenAgrees | Draw.c:160-293 | When the seed matches (or is out of bounds) and the new bit differs, draw_fill as written ends within some budget with the corrected fill's status and surface. |
| Fill.RoundsSpin | Draw.c:208-286 | With a new bit equal to the target value, rounds started at a matching pixel with a matching pixel above or below never end as written, whatever the budget, when every push succeeds. |
| Fill.AsWrittenSameValueSpins | Draw.c:221-262 | As written, a new bit equal to the target value with the seed and the pixel below it matching never ends, whatever the budget. The corrected fill returns OK with the surface unchanged. |
| Fill.DrawFillFillsSeed | Draw.c:197-228 | With a matching seed, the seed pixel is painted, and it lies in the run the fill starts from. |
| Fill.AsWrittenFillsBesideSeed | Draw.c:210-228 | As written, a non-matching seed next to a matching pixel paints that neighbour, within a budget the lemma gives. The corrected fill paints nothing. |
| Font.Select | Font_06px.c:124-132 | A printable character selects its pair's row, the left glyph for even offsets. Any other character selects the space glyph. |
| Font.SelectCharOf | Font_06px.c:124-127 | Every glyph in the table belongs to exactly one printable character. |
| Font.CharOfSelect | Font_06px.c:124-127 | Every printable character is recovered from its glyph. |
| Font.SelectAsWritten | Font_06px.c:124-132 | The selection as written always picks a row of the glyph table. |
| Font.Width | Font_06px.c:134-137 | A glyph is less than 16 pixels wide. |
| Font.ScanlineBits | Font_06px.c:136-145 | Bit k of the shifted scanline is pixel k of the glyph, counting from the right. |
| Font.Image | Font_06px.c:142-159 | A glyph's bitmap has its width and six scanlines. |
| Font.DrawCharacter | Font_06px.c:99-162 | It is OK and reports the selected glyph's width. For printable characters it agrees with the source. |
| Font.DrawLength | Font_06px.c:142-159 | Opaque drawing makes exactly width × 6 calls. |
| Font.DrawSolid | Font_06px.c:142-159 | Call y·width + k goes to column x0+width-1-k of row y0+y. It carries the pixel value if bit k is set and 0 otherwise. |
| Font.DrawTransparent | Font_06px.c:148-153 | Transparent drawing makes exactly the opaque calls whose bit is set, all with the pixel value. |
| Font.DrawCharacterAsWritten | Font_06px.c:99-162 | As written it is OK and reports the width of the glyph it selects, below 16. |
| Font.AsWrittenUnknownDrawsQuote | Font_06px.c:128-132 | As written, an unknown character picks row 1 left, which is the `"` glyph: 3 wide, 18 calls, first pixel lit. |
| Font.UnknownDrawsSpace | Font_06px.c:128-132 | The corrected fallback draws the space glyph: 2 wide, 12 calls, all clearing. |
| Font.Text | Font_06px.c:186-190 | The string drawn is the prefix before the first NUL, at most 256 characters. |
| Font.StopsAtNul | Font_06px.c:187-189 | Nothing after the first NUL is drawn. |
| Font.Layout | Font_06px.c:191-192 | There is one placement per character. |
| Font.LayoutAt | Font_06px.c:191-192 | Character i is placed at x0 plus the sum of (width + 1) of the characters before it. |
| Font.StringWidth | Font_06px.c:193-197 | The reported width is the total advance minus one, or 0 for an empty string. |
| Font.StringWidthAsWritten | Font_06px.c:193-197 | The `uint8_t` width is below 256. It is the advance minus one for advances 1 to 255, and 0 for an advance of 0. |
| Font.AsWrittenWidthWraps | Font_06px.c:193-197 | As written, a total advance of 256 wraps the byte, giving a width of 0 instead of 255. |
| Font.DrawString | Font_06px.c:168-200 | It is OK. It makes width × 6 calls per character of the text. An empty string draws nothing with width 0, and otherwise the width is the sum of widths plus gaps. |
| Font.StringPlacement | Font_06px.c:180-197 | The string's calls are the opaque drawings of its characters at their layout positions. |
| Font.DrawStringStopsAtNul | Font_06px.c:187-191 | What follows the NUL has no effect, and the background argument is ignored. |
| TestPattern.OrChain | Draw_Fill_TestPattern.c:54-99 | The `||` chain yields 0 or 1. |
| TestPattern.OrChainOk | Draw_Fill_TestPattern.c:54-99 | The chain is 0 iff every line returned OK. |
| TestPattern.OrChainStops | Draw_Fill_TestPattern.c:54-99 | After the first failing line, no later line is drawn and the result is 1. |
| TestPattern.OrChainAllOk | Draw_Fill_TestPattern.c:54-99 | When all lines succeed, every line is drawn in order. |
| TestPattern.DrawFillTestPattern | Draw_Fill_TestPattern.c:41-99 | NULL gives INVALID_ARG and no calls. Otherwise the result is the `||` value 0 or 1. |
| TestPattern.PatternDrawn | Draw_Fill_TestPattern.c:41-99 | NULL gives INVALID_ARG and no calls. Otherwise it is OK with the 28 lines drawn in order. |
| TestPattern.StrokesFit | Draw_Fill_TestPattern.c:56-99 | Every segment endpoint lies in [0, 29] × [0, 15] relative to the origin. |
| TestPattern.PatternInBox | Draw_Fill_TestPattern.c:56-99 | Every pixel of the pattern lies inside the 30 × 16 box, and none is the fill seed (x0+14, y0+7). |
| TestPattern.PatternHitsEndpoints | Draw_Fill_TestPattern.c:56-99 | Both endpoints of every segment are drawn. |

## Left out

- The I2C transport (`Com_Driver_i2c_master.c`) is not part of this model. The bus is abstract: outcomes come from an oracle, and an exhausted oracle answers OK.
- Memory is not modelled: every `malloc`/`realloc` outcome is a flag the caller supplies. `framebuffer_SSD1306_create`/`_destroy` and the `free` calls are not part of this model. Fresh stack memory is taken as zeroes, since it is never read before being written.
- `Framebuffer_1bit.c`'s static `draw_testpattern` debug helper is not modelled.
- The dirty bitmap is a sequence of flags, one per tile. Its packing into bytes is modelled only by `Framebuffer.DirtyByteIndex`/`DirtyBitIndex` and the two findings about them.
- Framebuffer.Init: gives no guarantee about the dirty flags, because the source does not clear fresh memory. Callers clear first.
- Framebuffer.SetPixel and the other pixel operations require a consistent geometry (`Shape`). The source cannot check its own struct.
- Ssd1306Update.UpdateAll, Ssd1306Diff.Update: their panel guarantee (`UpdateRefreshesPanel`) is stated about the steps of a successful pass. The controller's state after a failed write is not modelled.
- Ssd1306Update.FullPasses, Ssd1306Diff.DiffPasses: the `while (status != OK)` retry is modelled as recursion over a finite outcome oracle. A healthy bus and a bus that fails forever are not distinguished beyond that.
- Ellipse.DrawEllipse: neither ellipse loop is proved to terminate, so each runs on an iteration budget `fuel` and reports whether it finished. The row bounds of the points and the overflow of the `long` error terms for huge boxes are not modelled.
- Fill.DrawFill: states that only matching pixels change, to the paint colour, and that the seed's run is painted. That the whole 4-connected region is painted is not proved.
- Fill.DrawFill, Fill.Fill: a new bit equal to the target value returns the surface unchanged without running the loop. The source runs the loop, which never ends on a region of two or more rows (see Findings), so the corrected members do not follow it there.
- Fill.DrawFillAsWritten: uses the corrected stack; the stack's own defects (Stack.c:126-131 and Stack.c:129, see Findings) are modelled in `Stacks` and are not composed into the fill.
- Fill.DrawFillAsWritten: the outer `do … while` loop runs on an iteration budget `fuel`, and `None` says it had not ended. Agreement with the corrected fill is proved for one budget within which it ends (`AsWrittenAgrees`), not for every budget.
- Fill.Fill: the branch where a pixel write fails right after an in-bounds read is unreachable and is not modelled. The source ignores push results, and so does the model, through the `mem` oracle.
- Font.DrawString: `*string_width` is `uint8_t` and wraps (see Findings); `idx` and `x_pos` are taken wider than 8 bits, as on the ARM target.
- Font.DrawCharacter: the `Assert` checks for NULL pointers are not modelled as statuses; a NULL cannot be expressed.
- Font.DrawString: requires a NUL within the first 256 characters or a string of at least 256, the memory the source reads.
- Font_08px.c and Font.h are not part of this model.
- TestPattern: `draw_line` fails only on NULL, which `draw_fill_testpattern` has already ruled out, so the failing short-circuit paths are proved for the general `||` chain (`OrChainStops`) only. The total number of calls is not computed.
- Draw_Line_TestPattern.c, Adafruit_FeatherWing_OLED.c and the example programs are not part of this model.

## Findings

| source | as written | input that shows it | evidently intended | confidence | as-written member | corrected member |
|---|---|---|---|---|---|---|
| Framebuffer_1bit.c:190 (also Framebuffer_SSD1306.c:257, SSD1306.c:303) | dirty bit at `t % ((t>>3)<<3)` | any tile t < 8, e.g. pixel (0, 0): modulus 0 | `t % 8` | high, not executed | Framebuffer.DirtyBitIndexAsWrittenAgrees | Framebuffer.DirtyBitIndex |
| Framebuffer_1bit.c:115 | dirty index of `bytes >> 3` bytes | 12 tiles: 1 byte, tile 11 needs byte 1 | `(bytes + 7) >> 3` bytes | high, not executed | Framebuffer.DirtyIndexAsWrittenTooSmall | Framebuffer.DirtyIndexSize |
| SSD1306.c:290 | `tile_idx_prev = 0` before the first tile | only tile 1 dirty: sent without address selection | start with no previous tile | high, not executed | Ssd1306Plan.AsWrittenSkipsFirstAddress | Ssd1306Plan.CorrectedUpdateRefreshesPanel |
| SSD1306.c:307-316 | consecutive index means no selection, even across a page | tiles 127 and 128 dirty: tile 128 lands after the page wrap | select again at each page start | medium, not executed | Ssd1306Plan.AsWrittenBreaksAcrossPages | Ssd1306Plan.CorrectedUpdateRefreshesPanel |
| SSD1306.c:387-395 | inner `break` then the next page overwrites `status` | first tile write fails, the rest succeed: OK, flags cleared | retry the whole update | high, not executed | Ssd1306Update.UpdateAllAsWrittenHidesFailure | Ssd1306Update.UpdateAll |
| SSD1306.c:284-326 | `error` and `tile_idx_prev` never reset between passes | only page 1 column 0 dirty, first write fails: spins forever | reset per pass | high, not executed | Ssd1306Retry.AsWrittenRetrySpins | Ssd1306Diff.DiffPasses |
| Stack.c:126-131 | `count++` before the growth that fails | full stack, realloc fails: count = capacity + 1 | increment after growth | high, not executed | Stacks.AsWrittenFailedGrowthOvercounts | Stacks.Push |
| Stack.c:129 | `uint8_t` doubled capacity | capacity 128: new capacity 0, stack freed then written | a wider capacity | high, not executed | Stacks.AsWrittenGrowthWraps | Stacks.Push |
| Draw.c:139-141 | `uint16_t` `x1--` wraps at 0 | box (0,0)-(0,0): draws (1,1) and keeps going | signed loop coordinates | high, not executed | Ellipse.AsWrittenEllipseEscapes | Ellipse.EllipseAtOrigin |
| Draw.c:221-262 | new value equal to `pixel_value` | new bit equal to the target value, seed and the pixel below it matching: the two rows keep pushing each other | nothing to change, return at once | high, not executed | Fill.AsWrittenSameValueSpins | Fill.DrawFill |
| Draw.c:197-218 | no check that the seed matches | seed not matching, right neighbour matching: neighbour painted | nothing painted | medium, not executed | Fill.AsWrittenFillsBesideSeed | Fill.DrawFill |
| Font_06px.c:128-132 | unknown character uses row 1 | character 0x01: draws `"` | row 0, the space | high, not executed | Font.AsWrittenUnknownDrawsQuote | Font.UnknownDrawsSpace |
| Font_06px.c:193-197 | `uint8_t` width accumulator | advance exactly 256: width 0 | width 255 | medium, not executed | Font.AsWrittenWidthWraps | Font.StringWidth |
