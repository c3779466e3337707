# Windows 3.11 in a browser: a verified model of its algorithms

The repository runs Windows 3.11 in a browser tab: a page that composes the guest's windows for a phone,
guest programs that lay those windows out, play video and fetch documents, and tools that build and unpack
the guest's files. This project models the parts whose correctness is not visible in any one function and
proves what they promise, over every input, every interleaving and every run.

| modules | what they model |
|---|---|
| `CinepakSpec`, `Cinepak`, `CinepakFacts`, `CinepakStreams`, `CinepakFrames` | the Cinepak decoder: a reference decoder over flat bytes, the imperative decoder with segmented cursors that refines it, where every pixel comes from, that written chunks read back, and frames followed from their bytes to their pixels |
| `Dirty`, `Screen`, `Compositor`, `Chrome`, `Frames`, `NarrowWindow` | the ring of painted rectangles, the colour cache, windows as layers, and the compositor that redraws only damage yet always shows the whole picture |
| `Commands` | the host-to-guest command channel under any interleaving |
| `Registers` | index/data register access raced by a mouse interrupt |
| `Szdd` | SZDD expansion through a ring window, against plain LZ77 |
| `Video`, `VideoTight`, `VideoCoder`, `VideoPlayer` | the delta video format: the coder, the uniqueness of what it writes, the guest's player, and a clip from one end to the other |
| `GroupFile`, `GroupAdd` | Program Manager group files: parser, builder, checksum, and the add step |
| `Rle` | BI_RLE4 and BI_RLE8 bitmaps |
| `Fetch` | the data register, the reply splitter and the pump of PVFETCH |
| `Pointing` | absolute pointing and the measurement of the guest's pointer base |
| `Slots`, `Placement`, `Reflow` | application columns, dialog placement and dialog reflow |
| `Marshall` | the 9P marshaller |
| `Arith`, `Bytes`, `Rects` | shared arithmetic, bytes and rectangles |

State that the source changes in place is modelled as arrays and class fields changed in place: the codebooks,
the output picture, the rings, the register pair, the slot table, the reply buffers. Each such method is
proved against a specification function or a history kept beside the fields, and the theorems are about
those. What the specification functions themselves mean is stated in numbers: formats by the bytes at their
offsets, pictures by their pixels, queues by what is in them.

Results that say something a reader might not expect of the code:

- Cinepak rows of a picture whose height is not a multiple of four: the last picture row shows the fourth row
  of its blocks, not the row that belongs there (`CinepakFacts.RowsShownInPlace` gives the exact condition).
- The damage planner never looks at more than the newest rectangle in full; that is enough only because every
  animation frame notes at most one rectangle and plans at once (`Dirty.AllCoveredExactly`,
  `Dirty.NewestIsCovered`, `Frames.Host.PresentOnce`).
- On the desktop, where nothing covers the letterbox, its colour is the one sampled on the last full frame
  (`Frames.Play`) and can be stale (`Frames.StaleFill`; `Frames.ShownIsFullRedraw` says at exactly which
  pixels).
- A menu bar can be drawn past its band by a rounding pixel. The right border hides that; a window with no left
  border has no right one drawn either, and then the pixel stays outside the window (`Chrome.BareMenuPasses`).
- Redrawing only the damage needs room in every window: one narrower than the boxes of its caption shows guest
  pixels that planning does not count as its own, and a paint there can leave the canvas wrong
  (`Chrome.WindowIsGoodExactly`, `NarrowWindow.StaleCaption`).
- The colour cache's key `(x << 12) ^ y` tells all points of a screen apart exactly when the screen has at
  most 4096 rows and 2^20 columns, or a single column (`Screen.KeysDistinctExactly`).
- A command that has been in the register for two seconds is overwritten by the next one. Everything arrives
  exactly when that never happens (`Commands.Play`); when it does, the guest may lose the old command or the
  new one, or take the old command with the new one's argument (`Commands.OverrunLoses`).
- The checked register access cannot be used for the cursor registers themselves
  (`Registers.CursorWriteLost`), and four interrupts are one too many (`Registers.FourAreTooMany`).
- The group-file tool calls itself idempotent; adding an item without an icon of its own need not be, when it
  replaces the first item (`GroupAdd.Idempotent` gives the exact condition).
- A screen 65536 wide is the first on which a placed pointer misses (`Pointing.ExactPlacement`).
- A dialog control without height lets the next one pass the right margin (`Reflow.FlatControlsOverflow`), and a
  control that stays can end under the right border of the narrower dialog (`Reflow.KeptPastBorder`).
- For the dialog of a minimised application the hook chooses the shell column and PVMON the application's, and for
  that of an application not parked yet the hook takes the column it stands in (`Placement.SpotsAgreeExactly`,
  `Placement.UnparkedOwner`); for a dialog of the shell the one centres on the owner and the other on the
  column (`Placement.ShellSpotsAgreeExactly`).
- A Cinepak strip that does not start on a block boundary can be written behind the picture, although the
  decoder says it never is (`CinepakFacts.StaysInsideExactly`, `CinepakFacts.MisalignedStripPasses`).
- A text of 64 KB or more does not survive the marshaller (`Marshall.RoundTrip`).

## Model

| member | source | states |
|---|---|---|
| `Cinepak.Reader.Seek` | guest/reader/cinepak.c:64-69 | the cursor becomes the far form of base plus position, for any segment size, and its room is what is left of the segment |
| `Cinepak.Reader.U8` | guest/reader/cinepak.c:74-80 | reads the byte a flat pointer would, moves on one, and keeps the cursor exact across segment ends |
| `Cinepak.Reader.ReadBe24` | guest/reader/cinepak.c:86-90 | three bytes, most significant first, across segment ends too |
| `Cinepak.Reader.ReadBe32` | guest/reader/cinepak.c:91-97 | four bytes, most significant first, across segment ends too |
| `Cinepak.DrawFlag` | guest/reader/cinepak.c:118-126 | shifting a one-bit mask and refilling the word takes the next flag of the reference stream, and fails exactly when it does |
| `Cinepak.FlagsOfWord` | guest/reader/cinepak.c:118-126 | the bits a mask has still to visit are the flags of the four bytes, in order |
| `Cinepak.Codebook` | guest/reader/cinepak.c:108-151 | a codebook chunk, partial or whole, colour or grey, leaves the reference codebook, the entries it does not reach untouched |
| `Cinepak.RowCursor.Put4` | guest/reader/cinepak.c:173-181 | four pixels land where a flat pointer would put them, whether or not they cross a segment end, and nothing else changes |
| `Cinepak.RowCursor.Next` | guest/reader/cinepak.c:182-187 | the row cursor stays the far form of base plus offset, renormalised only when its room runs out |
| `Cinepak.Vectors` | guest/reader/cinepak.c:193-262 | drawing a block chunk as it is read leaves the picture that reading all its blocks and then painting them gives, and the same return code |
| `Cinepak.BookChunk` | guest/reader/cinepak.c:282-288 | a codebook chunk changes the one codebook of the one strip it names |
| `Cinepak.Strip` | guest/reader/cinepak.c:267-299 | the chunks of a strip up to its first block chunk: codebooks, picture and code of the reference decoder |
| `Cinepak.InheritBooks` | guest/reader/cinepak.c:361-371 | a strip after the first starts from the books of the strip above unless the frame says otherwise |
| `Cinepak.Reset` | guest/reader/cinepak.c:303-308 | forgets every codebook |
| `Cinepak.OneStrip` | guest/reader/cinepak.c:335-378 | one strip: header, geometry errors, inherited books and what is left of the frame, as the reference decoder has them |
| `Cinepak.Strips` | guest/reader/cinepak.c:335-380 | all strips of a frame, stopping at the first that fails |
| `Cinepak.Decode` | guest/reader/cinepak.c:310-382 | for any segment size and any placement in memory, a frame leaves the codebooks, picture and return code of the reference decoder over the flat bytes |
| `CinepakSpec.ReadBlocks` | guest/reader/cinepak.c:215-258 | a chunk yields at most the blocks asked for, and all of them exactly when it is complete |
| `CinepakSpec.StripGridFits` | guest/reader/cinepak.c:203-213 | every write of every block stays inside the buffer, for arbitrary bytes and any height |
| `CinepakFacts.StaysInsideExactly` | guest/reader/cinepak.c:359 | a strip that passes the decoder's checks stays inside a buffer of just the picture's rows exactly when its last block does |
| `CinepakFacts.AlignedStaysInside` | guest/reader/cinepak.c:359 | a strip on block boundaries always does |
| `CinepakFacts.MisalignedStripPasses` | guest/reader/cinepak.c:28-30 | one that is not can be written behind the buffer: a strip that is |
| `CinepakFacts.PaintedPixel` | guest/reader/cinepak.c:203-260 | every pixel of a painted strip is the block over it if that block was coded, at the row it shows, and else what was there |
| `CinepakFacts.StripIsTidy` | guest/reader/cinepak.c:203-213 | the blocks of a strip on block boundaries stay inside the picture's rows and columns, as that asks |
| `CinepakFacts.RowsShownInPlace` | guest/reader/cinepak.c:208-213 | a block shows each row where it belongs exactly when it does not hang off the bottom; never with a height divisible by 4 |
| `CinepakFacts.StripKeeps` | guest/reader/cinepak.c:267-299 | a strip leaves every place that no block of it is written over |
| `CinepakFacts.FrameKeeps` | guest/reader/cinepak.c:335-380 | a place that no block of a frame is written over keeps its value, whatever the frame holds and wherever decoding stops |
| `CinepakFacts.AlignedTouchesUnder` | guest/reader/cinepak.c:203-213 | a strip on block boundaries is written over no pixels but those under it |
| `CinepakStreams.ChunkReadBack` | guest/reader/cinepak.c:189-192 | blocks written with flag words interleaved ahead of their payload are read back exactly, both flags of chunk 0x31 from one stream |
| `CinepakStreams.BookReadBack` | guest/reader/cinepak.c:105-107 | a written partial codebook chunk updates exactly the entries it flags |
| `CinepakFrames.StepBooks` | guest/reader/cinepak.c:339-378 | a strip is decoded from one slot of the state, leaves what it made of it in its own, and touches no other; strips from the twelfth on share the last |
| `CinepakFrames.PaintedFrom` | guest/reader/cinepak.c:361-371 | a strip with no codebook of its own is painted from those of the strip above when the frame's low flag bit is clear, and from its own when it is set |
| `CinepakFrames.CarriesOn` | guest/reader/cinepak.c:361-371 | over two strips: what the first made of its codebooks is what such a second strip shows, or not, by that bit |
| `CinepakFrames.TwoStripsShown` | guest/reader/cinepak.c:310-382 | a whole frame from its bytes to its pixels: two strips, an entry in colour, a second strip below that shows it or its own old one; for all flags, entries, tables and states |
| `CinepakFrames.HeadSays` | guest/reader/cinepak.c:346-353 | a zero top edge goes on under the strip above, and the bottom edge is then a height |
| `CinepakFrames.ChunksSay` | guest/reader/cinepak.c:282-295 | which chunks draw, which change which codebook, and what an entry costs, by the bits of the id |
| `CinepakFrames.EntriesSay` | guest/reader/cinepak.c:127-151 | the colours of an entry by their five-bit channels: v in red, u in blue, both in green, clipped |
| `CinepakFrames.FlagsSay` | guest/reader/cinepak.c:118-126 | a byte is its flags weighted from 128 down, and a word its bytes in order |
| `CinepakFrames.BlocksSay` | guest/reader/cinepak.c:217-255 | what one block costs in each kind of block chunk, and what it is |
| `CinepakFrames.BlockSays` | guest/reader/cinepak.c:241-257 | which of a codebook entry's places each of a block's sixteen pixels is |
| `CinepakFrames.StripPixel` | guest/reader/cinepak.c:203-260 | the pixel at any place of an aligned strip, in numbers; the picture's last row always shows the fourth row of its blocks |
| `CinepakFrames.FrameCodes` | guest/reader/cinepak.c:322-334 | why a frame is not decoded, and that one without strips is |
| `CinepakFrames.StripCodes` | guest/reader/cinepak.c:343-359 | why a strip ends the frame before it is drawn |
| `CinepakFrames.LongChunk` | guest/reader/cinepak.c:279 | a chunk longer than its strip ends with it, whatever length it gives |
| `CinepakFrames.PaddingIgnored` | guest/reader/cinepak.c:335 | what stands behind a frame changes nothing |
| `Dirty.DirtyLog.NoteDirty` | web/app.js:2454-2462 | the ring of 256 keeps the newest rectangles of the whole history with their generations |
| `Dirty.DirtyLog.RectDirtySince` | web/app.js:2465-2474 | answers exactly for 256 generations, and "changed" for anything older |
| `Dirty.HitsExactly` | web/app.js:2465-2474 | two rectangles touch exactly when they share a pixel |
| `Dirty.DirtyLog.DirtyRectsSince` | web/app.js:2480-2495 | nothing, everything, the rectangles newest first, or the least box around the 25 newest |
| `Dirty.NewestIsCovered` | web/app.js:2480-2495 | whatever is new, the answer covers the newest rectangle |
| `Dirty.FewAreAllCovered` | web/app.js:2480-2495 | when at most 25 are new, the answer covers all of them |
| `Dirty.ManyAreNotAllCovered` | web/app.js:2488-2492 | for every larger number the ring remembers, a history whose answer leaves one out |
| `Dirty.AllCoveredExactly` | web/app.js:2480-2495 | the answer is sure to cover everything new exactly when at most 25 rectangles are |
| `Screen.Untouched` | web/app.js:2465-2474 | a pixel that no rectangle since a generation holds is what it was then |
| `Screen.KeysDistinctExactly` | web/app.js:2513 | the cache key tells all points of a screen apart exactly for the screens named by a simple bound |
| `Screen.GuestScreen.SampleColour` | web/app.js:2510-2524 | a cached sample is the pixel on the screen now, however long ago it was taken; paints, samples and drops of the cache keep that so |
| `Compositor.AxisRule` | web/app.js:2830-2836 | the one-pixel rule: a host pixel that samples a guest line is within half a pixel of where planning maps that line |
| `Compositor.ScaledDamage` | web/app.js:2828-2836 | what a scaled blit shows of a painted rectangle lies inside that rectangle as planning maps and rounds it |
| `Compositor.BandDamage` | web/app.js:2884-2888 | a chrome band that shows anything of a painted rectangle inside its own place is hit by it, and the band is damaged |
| `Compositor.TopmostShows` | web/app.js:3129-3146 | back to front: where a copy draws and none after it in its piece, its layer or the layers does, the pixel is the guest pixel that copy samples |
| `Compositor.ColumnShows` | web/app.js:3129-3146 | where no layer draws, the desktop column shows; and where that does not draw, the fill |
| `Compositor.Magnified` | web/app.js:3125-3129 | a copy to m times the size shows each guest pixel on m by m host pixels |
| `Chrome.MenuFits` | web/app.js:2197-2201 | the menu bar's copy passes the inside of the frame by no more than the left border is wide |
| `Chrome.MenuHidden` | web/app.js:2212-2218 | where it does, the right border is drawn over it |
| `Chrome.CaptionGood` | web/app.js:2173-2196 | the copies a caption is put together from stay inside its band |
| `Chrome.ClientInside` | web/app.js:2064-2070 | what is seen of a client stays inside its place |
| `Chrome.OwnSizeShows` | web/app.js:2164-2256 | a window at its own size shows itself: every pixel of caption, menu bar, borders and client is the guest's |
| `Chrome.PannedShows` | web/app.js:2199-2201 | a panned client and menu bar show the guest's pixels that much further on |
| `Chrome.WindowIsGoodExactly` | web/app.js:2164-2256 | a window makes a layer that can be redrawn by its damage exactly when a caption it draws has room for its boxes in the guest and on the host, and a menu bar it draws is padded with two columns of its own and passes only under the right border |
| `Chrome.SceneIsGoodExactly` | web/app.js:1901-2083 | a screen put together from windows, menus, dialogs and the desktop can be redrawn by its damage exactly when each of its windows can |
| `Chrome.BareMenuPasses` | web/app.js:2197-2201 | without a left border a menu bar that rounds up is drawn outside its window |
| `Chrome.OddWidthPasses` | web/app.js:2199 | as at twice the size for every odd width |
| `Chrome.NarrowCaptionStrays` | web/app.js:2178-2180 | a caption narrower than its boxes is put together from guest pixels outside its band |
| `Chrome.CaptionOutside` | web/app.js:2178-2180 | one narrower than them on the host is drawn outside the window, where nothing hides it |
| `Chrome.PadStrays` | web/app.js:2202-2211 | a menu bar that shows less than two columns is padded from guest pixels outside it |
| `Chrome.MenuOutside` | web/app.js:2197-2201 | a menu bar that passes a frame without a left border, or one with a wider left border than right, stays visible there |
| `NarrowWindow.StaleCaption` | web/app.js:2820-2896 | a run of two frames, the second of which plans no damage for a paint that the caption of a narrow window shows, and leaves the canvas wrong |
| `Frames.UndamagedSame` | web/app.js:2820-2896 | where nothing is damaged the whole picture is the same before and after a paint |
| `Frames.PiecesAgree` | web/app.js:2164-2256 | outside the damage a layer shows the same before and after a paint, pieces that later ones cover included |
| `Frames.DrawWindow` | web/app.js:2164-2256 | drawing a layer piece by piece, skipping pieces the damage misses, is drawing all of it inside the clip |
| `Frames.Host.PlanLayer` | web/app.js:2867-2886 | the damage added for a layer covers everything it shows of the newest paint, for fresh, stale and up-to-date layers |
| `Frames.Host.PlanDamage` | web/app.js:2820-2896 | exactly when a frame is a full one; and otherwise its damage, boxed or not, covers everything the newest paint can have changed |
| `Frames.Host.DrawAll` | web/app.js:3125-3148 | column and layers drawn back to front inside the clip are the composition inside it and the old canvas outside |
| `Frames.Host.FullFrame` | web/app.js:3108-3148 | a full frame is the composition over the fill |
| `Frames.PartialShown` | web/app.js:3100-3155 | redrawing the damage over the previous picture gives the whole new picture |
| `Frames.Host.ComposeDesktop` | web/app.js:3100-3159 | from a canvas right before the newest paint to a canvas right after it, over the colour of the last full frame |
| `Frames.Host.PresentOnce` | web/app.js:3011-3165 | after every desktop frame the canvas is the full back-to-front composition of the guest pixels as they are now; when its fill colour is sampled anew and when it stays |
| `Frames.ShownIsFullRedraw` | web/app.js:3104-3111 | the canvas is what a full redraw would give at exactly the pixels that are covered or whose fill has not changed since |
| `Frames.Play` | web/app.js:3011-3165 | the same over every run of paints, layouts, resizes and overlays; the fill is that of the last full frame, which the run names |
| `Frames.StaleFill` | web/app.js:3104-3111 | a run whose last frame shows a fill that is no longer the guest's |
| `Commands.FateKeeps` | web/app.js:1770-1794 | a request keeps the other commands in order, at most three scrolls queued and no two alike adjacent, and every line is queued, saturated or dropped |
| `Commands.RequestWaits` | web/app.js:1770-1792 | a request is folded into a twin at the tail and nowhere else, a scroll is dropped only behind three, and any other request waits |
| `Commands.DropsNeedThree` | web/app.js:1787-1790 | a run drops nothing unless a scroll is asked for while three wait |
| `Commands.NoneSaturates` | web/app.js:1774 | and saturates nothing unless fifteen lines are passed |
| `Commands.TimerSends` | web/app.js:1761-1768 | what the timer and a request send, and when: the first that waits, once the register is empty or two seconds are up |
| `Commands.AllDelivered` | web/app.js:1753-1768 | a guest that keeps polling gets everything that waits, once and in order, at whatever times |
| `Commands.Channel.PumpCommands` | web/app.js:1761-1768 | when a command goes out and what the line is afterwards |
| `Commands.PumpedKeeps` | web/app.js:1761-1768 | nothing leaves queue and register but an overdue command |
| `Commands.OverrunLoses` | web/app.js:1761-1768 | what sending over an overdue command costs: the old one if the guest has read nothing, the new one if it has read both, and otherwise the new one, with its argument taken under the old command |
| `Commands.MixedRun` | web/app.js:1761-1768 | a run in which the guest takes a command nobody asked for |
| `Commands.LostRun` | web/app.js:1761-1768 | a run in which the command sent is the one lost |
| `Commands.Channel.Enqueue` | web/app.js:1770-1792 | folds, drops or queues a request as its fate says |
| `Commands.Channel.SendCommand` | web/app.js:1770-1794 | what goes out, what is queued, and how many lines are saturated or dropped, as the request's fate says |
| `Commands.Channel.Acknowledge` | guest/pvmon/pvmon.c:1988-1994 | in time, the guest has taken the very command that was sent |
| `Commands.Channel.Delivery` | web/app.js:1753-1794 | in time, taken, in flight and queued commands are those requested, one for one and in order |
| `Commands.Play` | web/app.js:1753-1794 | for every interleaving, what went out and what is queued is what was asked for, and every line of scroll went out, is queued, was saturated or was dropped, each count a function of the run; and what went out is what was taken or is still before the guest exactly when nothing was sent over an overdue command |
| `Registers.Adapter.Rd` | guest/pvmon/pvmon.c:74-79 | the read loop is the specified sequence of tries |
| `Registers.Adapter.Wr` | guest/pvmon/pvmon.c:80-84 | the write loop is the specified sequence of tries |
| `Registers.RdExactly` | guest/pvmon/pvmon.c:66-79 | a read leaves all but the cursor registers alone and is right when its last try was not broken in two |
| `Registers.RdRightExactly` | guest/pvmon/pvmon.c:74-79 | a read is right whatever the registers hold exactly when its last try was not broken in two |
| `Registers.WrExactly` | guest/pvmon/pvmon.c:80-84 | a write stores exactly when some try was not broken in two, and touches only cursor registers besides |
| `Registers.FewStrikes` | guest/pvmon/pvmon.c:74-84 | three interrupts cannot break a call |
| `Registers.FourAreTooMany` | guest/pvmon/pvmon.c:74-84 | four can |
| `Registers.CursorWriteLost` | guest/pvmon/pvmon.c:80-84 | a write to a cursor register can be undone unseen by one interrupt |
| `Registers.RunIsPlain` | guest/fetch/fetch.c:85-101 | with at most three interrupts a call, any program of such accesses sees plain registers |
| `Szdd.CopyRepeats` | tools/msexpand.py:19-22 | an overlapping copy repeats the bytes it starts from |
| `Szdd.RingStep` | tools/msexpand.py:17 | the ring keeps holding the last 4096 bytes of the spaces and the output |
| `Szdd.PutMatch` | tools/msexpand.py:19-22 | copying through the ring is copying from so many bytes back, overlaps included |
| `Szdd.ExpandFile` | tools/msexpand.py:5-23 | expansion through the ring is the LZ77 meaning of the file, its errors included |
| `Szdd.FileBack` | tools/msexpand.py:5-23 | expanding the serialisation of any legal tokens gives their meaning |
| `Szdd.CopyIs` | tools/msexpand.py:19-22 | every byte of a copy is the one so many places before it, spaces in front of the output included |
| `Szdd.MatchIs` | tools/msexpand.py:19 | two bytes as distance and length, in numbers |
| `Szdd.ThreeAgain` | tools/msexpand.py:5-23 | for any three bytes, the file that says them and then "again" expands to them twice, up to the size in its header |
| `Szdd.SpacesFirst` | tools/msexpand.py:10 | a copy from where nothing was written yet is of spaces |
| `Szdd.NinthToken` | tools/msexpand.py:11-14 | the ninth token has a byte of kinds of its own |
| `Szdd.Refused` | tools/msexpand.py:5-9 | which files do not expand |
| `Video.DeltaReproduces` | tools/mkpage.py:188-191 | applying a frame's segments to the frame before gives the frame; with none before, applying them to anything does |
| `Video.SegsReadBack` | tools/mkpage.py:211 | packed segments are read back by the guest's rule, whatever follows them |
| `Video.FrameReproduced` | guest/reader/page.c:524-542 | a frame's bytes, read and applied by the guest, give the frame |
| `Video.RowsRounded` | guest/reader/page.c:462 | rows are rounded up to four bytes and by no more |
| `Video.PackedSays` | tools/mkpage.py:211-215 | the fields of a packed segment and of a frame |
| `VideoTight.TightUnique` | tools/mkpage.py:189-191 | there is only one list of segments with these spacings: a tight delta is unique |
| `VideoTight.GapOfFour` | tools/mkpage.py:189-191 | three unchanged pixels between two changed ones are carried, four are not |
| `VideoCoder.RunEnd` | tools/mkpage.py:202-207 | from a changed pixel, the run ends on a changed pixel, holds no four unchanged pixels in a row, and stops after four or at the end of the row |
| `VideoCoder.EmitRun` | tools/mkpage.py:208-214 | a run is packed in pieces of at most 65535 pixels, and refused exactly when a piece does not fit its fields |
| `VideoCoder.CodeRow` | tools/mkpage.py:195-214 | a row adds segments that cover its changed pixels, tight, and at most one for five columns |
| `VideoCoder.DeltaFrame` | tools/mkpage.py:188-215 | the frame's bytes are a delta; up to 65535 columns it is tight, has at most h*((w+4)/5) segments, and coding succeeds exactly when they number under 65536; so it always does when h*((w+4)/5) is |
| `VideoCoder.VideoBlock` | tools/mkpage.py:236-245 | header, and each frame coded against the one before |
| `VideoPlayer.Player.VideoNext` | guest/reader/page.c:500-521 | which frame comes next, rounding back at the end and stopping at a truncated one |
| `VideoPlayer.Player.PlayCut` | guest/reader/page.c:495-521 | a clip cut short loops over the frames it has whole, one turn lost at the cut |
| `VideoPlayer.Player.VideoDelta` | guest/reader/page.c:524-542 | the working frame after a frame's segments, those that do not fit passed over |
| `VideoPlayer.BlockOpens` | guest/reader/page.c:823-842 | a built block opens as its clip, unless the guest's signed sizes refuse it |
| `VideoPlayer.OpensExactly` | guest/reader/page.c:823-842 | which blocks open as a delta clip |
| `VideoPlayer.Player.VideoFrameOf` | guest/reader/page.c:545-556 | one more frame shows the next picture, and the first again after the last |
| `VideoPlayer.Player.Play` | guest/reader/page.c:499-556 | after any number of frames the picture due is in the working frame |
| `VideoPlayer.ShowClip` | tools/mkpage.py:236-245 | from the builder's frames to the guest's screen, anywhere in a bundle, once round or many times, and a size for which it never refuses |
| `GroupFile.Parse` | tools/grpadd.py:37-58 | reading a file slot by slot is the specified reading, empty slots and failures included |
| `GroupFile.Build` | tools/grpadd.py:61-85 | growing a body and packing into it gives the specified file, or nothing when a number does not fit its field |
| `GroupFile.WordsSumToZero` | tools/grpadd.py:83-84 | the 16-bit words of a built file sum to 0 modulo 65536 |
| `GroupFile.OffsetsApart` | tools/grpadd.py:63-70 | no item stands at offset 0, and each ends before the next starts |
| `GroupFile.ItemReadsBack` | tools/grpadd.py:54-57 | one item's numbers, texts and icon read back from where it stands |
| `GroupFile.RoundTrip` | tools/grpadd.py:37-85 | parsing a built file gives the group back exactly when no text of it holds a zero byte |
| `GroupFile.FileSaid` | tools/grpadd.py:61-85 | a built file field by field: its length, its checksum, every number, and every text and icon where its pointer says |
| `GroupFile.BuildsExactly` | tools/grpadd.py:61-85 | building succeeds exactly when every number fits its field and the file is under 64 KB |
| `GroupFile.SlotsRead` | tools/grpadd.py:44-56 | an empty slot holds no item, and a file is read exactly when every other slot holds one |
| `GroupFile.ReadsExactly` | tools/grpadd.py:37-58 | which files are read at all |
| `GroupAdd.AddItem` | tools/grpadd.py:163-200 | the add step from file to file |
| `GroupAdd.AddedOnce` | tools/grpadd.py:181-191 | afterwards exactly one item, the last, has the command; the others keep their order; each stands in the cell of its number |
| `GroupAdd.AddedSays` | tools/grpadd.py:163-196 | when the step gives up, and everything it writes: state, size, cells, and the new item; the rest stays |
| `GroupAdd.KeptJoined` | tools/grpadd.py:181 | what is kept of two lists is what is kept of each |
| `GroupAdd.CellsApart` | tools/grpadd.py:187-188 | no two numbers have the same cell |
| `GroupAdd.Idempotent` | tools/grpadd.py:23-24 | adding twice is adding once exactly when the icon is the same both times: always with an icon of one's own |
| `GroupAdd.BorrowedTwice` | tools/grpadd.py:178-179 | a family of files and entries for which it is not |
| `GroupAdd.BorrowedTwiceHere` | tools/grpadd.py:178-179 | one of them, written out |
| `Rle.PutAllIs` | tools/ne-icons.py:66-75 | a run paints its colours on one row as far as the picture goes, and fails exactly when it starts above the picture |
| `Rle.OnePixel` | tools/ne-icons.py:66-75 | writing one pixel changes no other, the other half of its byte included |
| `Rle.Canvas.Put` | tools/ne-icons.py:66-75 | the packed rows keep showing the painted grid, with zeros right of it |
| `Rle.RleDecode` | tools/ne-icons.py:60-96 | the packed rows and end position are those of painting what the bytes say, and failure is failure |
| `Rle.ProgramPaints` | tools/ne-icons.py:60-96 | decoding any written program is painting it, and ends just past its end marker |
| `Rle.RowsSay` | tools/ne-icons.py:60-62 | rows are whole four-byte words, as few as hold their pixels |
| `Rle.PixelsSay` | tools/ne-icons.py:66-75 | where in the packed rows a pixel is, the left of two in the high half |
| `Rle.TwoRows` | tools/ne-icons.py:77-83 | two runs on two rows, from their bytes to every pixel and the end position |
| `Rle.MovedPixel` | tools/ne-icons.py:86-89 | a move and a pixel, likewise |
| `Rle.WrittenOut` | tools/ne-icons.py:90-95 | colours written out, their padding, and what is cut off |
| `Rle.EndsOrFails` | tools/ne-icons.py:77-95 | where a picture without an end marker ends, and what fails |
| `Fetch.BodyStartsExactly` | guest/fetch/fetch.c:262-283 | the body starts after the first blank line within 600 bytes, or after 600 bytes without one |
| `Fetch.Reply.TakeHeader` | guest/fetch/fetch.c:264-283 | header bytes across any number of blocks, the give-up case included |
| `Fetch.Reply.TakeBody` | guest/fetch/fetch.c:250-261 | file, count and the first 30000 bytes grow by what came |
| `Fetch.Reply.Consume` | guest/fetch/fetch.c:284-289 | after any block the fields say what the whole stream so far says, wherever the blocks were cut |
| `Fetch.Device.Drain` | guest/fetch/fetch.c:145-162 | bursts of words hand over exactly the staged bytes, odd counts included |
| `Fetch.TakeBlock` | guest/fetch/fetch.c:363-368 | chunks of 8 KB hand one staged block over whole |
| `Fetch.Pump` | guest/fetch/fetch.c:346-379 | a tick takes the blocks that are ready, up to 32, in order, and no other |
| `Fetch.Transfer` | guest/fetch/fetch.c:346-379 | what is saved, counted, shown and reported depends only on the bytes that came |
| `Fetch.StartSays` | guest/fetch/fetch.c:264-283 | the start of the body in bytes: the first blank line in six hundred |
| `Fetch.HeldKept` | guest/fetch/fetch.c:250-289 | what a reply comes down to, in numbers: header and file are the stream, the count is 32-bit, thirty thousand bytes are shown, the status line has at most sixty-three characters |
| `Pointing.ExactPlacement` | web/app.js:3926-3928 | every pixel lands on itself exactly when the screen is at most 65535 wide |
| `Pointing.NearPlacement` | web/app.js:3926-3928 | with a base at most 2 off, every pixel lands within 2 of itself |
| `Pointing.BaseIsNear` | web/app.js:3879-3886 | the two-probe base is within 2 of the size, and exact exactly when 4 divides it |
| `Pointing.CheckLands` | web/app.js:3894-3899 | how far from its target the check pixel lands, for every size |
| `Pointing.MeasuredIs` | web/app.js:3869-3908 | the base is independent of a fixed offset; a guest is accepted exactly for sizes 318 to 8194 by 198 to 8194 and offsets that leave the check within 2 of its target |
| `Pointing.ProbesNeeded` | web/app.js:3869-3886 | a probe answered from left of the screen measures nothing |
| `Pointing.Aim.CalibratePointer` | web/app.js:3869-3908 | measures, checks, and keeps the old base when the check fails |
| `Pointing.Aim.PlacePointer` | web/app.js:3917-3929 | clamped to the screen and scaled by the base in use; with no base measured the guest lands on the target itself |
| `Pointing.MeasureAndPlace` | web/app.js:3869-3929 | after measuring, every pixel lands within 2 of itself, and on itself when 4 divides the side |
| `Slots.AssignedFacts` | guest/pvmon/pvmon.c:1172-1206 | a window has no slot, one, or two adjacent; it gets the first there are, never takes the slot of a window that can be seen, and is refused only when none is free |
| `Slots.Agent.SlotOf` | guest/pvmon/pvmon.c:1179-1205 | the search loops give the specified slot and table |
| `Slots.Agent.Park` | guest/pvmon/pvmon.c:1408-1453 | parking moves the one window to its specified place |
| `Slots.ParkedInside` | guest/pvmon/pvmon.c:1408-1453 | a parked window is inside its own columns, unless it may be as wide as the shell column and that is set wider than an application's; and nothing but its place and size has changed |
| `Slots.ParksInsideExactly` | guest/pvmon/pvmon.c:1408-1453 | every window is parked inside its columns exactly when the shell column is set no wider than an application's |
| `Slots.ParkedSize` | guest/pvmon/pvmon.c:1419-1453 | its size is its own cut to its limits, or its restored size when it was maximised past them |
| `Slots.ParkedTwice` | guest/pvmon/pvmon.c:1408-1453 | parking again changes nothing |
| `Slots.ParkSays` | guest/pvmon/pvmon.c:1408-1453 | exactly which windows stay, and where and how large any other is put, in numbers |
| `Slots.ColumnsDisjoint` | guest/pvmon/pvmon.c:1408-1453 | windows inside their columns do not overlap |
| `Slots.Agent.ParkAll` | guest/pvmon/pvmon.c:1629-1633 | after a look every listed window has a slot unless all four are those of windows that can be seen; every application with one is parked in it, inside its columns unless a wider shell column lets it pass them; and no other window has moved |
| `Slots.ApplicationsDisjoint` | guest/pvmon/pvmon.c:1629-1633 | so no two of those inside overlap: under a shell column no wider than an application's, no two at all |
| `Slots.Agent.Watch` | guest/pvmon/pvmon.c:1629-1633 | over any run of looks with anything in between, the table stays tidy and a window seen throughout keeps its slots |
| `Placement.ClampInto` | guest/pvhook/pvhook.c:271-279 | a rectangle that fits ends inside the column, and one inside is not moved |
| `Placement.PlaceOwned` | guest/pvhook/pvhook.c:492-526 | the hook's placement, desktop mode and minimised owners included |
| `Placement.PlaceFallback` | guest/pvmon/pvmon.c:1690-1733 | PVMON's placement, and what it leaves alone |
| `Placement.SpotInside` | guest/pvhook/pvhook.c:516-525 | a dialog that fits stays in its owner's column |
| `Placement.SpotSays` | guest/pvhook/pvhook.c:516-525 | under the owner at its left edge, beside it at its height, or over its middle to within rounding |
| `Placement.HookSays` | guest/pvhook/pvhook.c:492-517 | which column the hook keeps a dialog in |
| `Placement.FallbackSays` | guest/pvmon/pvmon.c:1690-1733 | which dialogs PVMON leaves, and where it puts the others |
| `Placement.MissesExactly` | guest/pvhook/pvhook.c:516-525 | it misses its owner, one that holds two columns or hangs off the top or bottom included, exactly when there is room below or beside, and below is tried first |
| `Placement.RoomMisses` | guest/pvhook/pvhook.c:516-525 | with room below or beside it misses an owner anywhere |
| `Placement.SpotsAgreeExactly` | guest/pvmon/pvmon.c:1711-1733 | for an application's dialog the hook and PVMON compute the same spot exactly when the owner is not minimised and its left edge is in its own column |
| `Placement.PlacedStaysExactly` | guest/pvmon/pvmon.c:1711-1733 | what the hook placed PVMON leaves there exactly when the owner is not minimised and its left edge is in its own column |
| `Placement.UnparkedOwner` | guest/pvhook/pvhook.c:512-517 | so they differ for the dialog of an application not parked yet |
| `Placement.ShellSpotsAgreeExactly` | guest/pvmon/pvmon.c:1701-1709 | in the shell column they agree for a minimised owner, and for another exactly when clamping or rounding makes the owner's centre the column's |
| `Reflow.Reflowed` | guest/pvmon/pvmon.c:1027-1046 | controls that stay do; those moved keep order and size, and none overlaps another or one that stayed; all end above the last row's end |
| `Reflow.MovedPastExactly` | guest/pvmon/pvmon.c:1030-1043 | a moved control passes the margin exactly when it is too wide for a row, or would pass it in a row in which nothing has height |
| `Reflow.MovedInside` | guest/pvmon/pvmon.c:1030-1043 | so none does when each has some height and fits a row |
| `Reflow.FlatControlsOverflow` | guest/pvmon/pvmon.c:1032 | without height one can pass it |
| `Reflow.RowsAreFull` | guest/pvmon/pvmon.c:1032-1036 | a new row is started only when the control would have passed the margin |
| `Reflow.TwoButtons` | guest/pvmon/pvmon.c:1018-1046 | one control that stays and two that move: their places and the size they need, in numbers |
| `Reflow.EnclosedByKept` | guest/pvmon/pvmon.c:1018-1053 | when each control fits a row, the width given takes in every one exactly when it takes in those that stay, which can be asked beforehand |
| `Reflow.EnclosedExactly` | guest/pvmon/pvmon.c:1018-1053 | for any controls, exactly when the widest mark is not cut or all end left of the cut |
| `Reflow.KeptPastBorder` | guest/pvmon/pvmon.c:1018-1053 | a control that stays can end under the right border |
| `Reflow.FillRows` | guest/pvmon/pvmon.c:1024-1046 | the filling loop is the specified layout |
| `Reflow.Dialog.ReflowDialog` | guest/pvmon/pvmon.c:980-1064 | which dialogs are reflowed, where their controls go, and a frame that encloses the last row |
| `Marshall.WordIsLe` | v86/lib/marshall.js:19-25 | a word is its four bytes, least first, whatever its sign or size |
| `Marshall.Marshall` | v86/lib/marshall.js:12-71 | writes the values from an offset on and nothing else, nested identities by recursion, and returns the bytes written |
| `Marshall.Unmarshall` | v86/lib/marshall.js:75-128 | reads them and moves the offset past them |
| `Marshall.AllBack` | v86/lib/marshall.js:12-128 | what was written comes back cut to its types' widths, and reading ends where writing did |
| `Marshall.RoundTrip` | v86/lib/marshall.js:12-128 | a list of values comes back as itself exactly when every type is known, every number is in its type's range and every text is under 64 KB |
| `Marshall.LongTextShortened` | v86/lib/marshall.js:43-59 | a text of 64 KB or more comes back with the length its count leaves in sixteen bits |
| `Marshall.Through` | v86/lib/marshall.js:12-128 | the same through the methods; size returned, bytes written and bytes read agree |
| `Marshall.TypesSay` | v86/lib/marshall.js:12-71 | the bytes of every type, for any number |
| `Marshall.BytesSay` | v86/lib/marshall.js:75-128 | what any bytes are read as |

## Left out

- Integer widths: C `int`, `unsigned` and `DWORD` arithmetic is unbounded here except where a width is named
  (16- and 32-bit fields, the body count, the marshaller, the screen-relative row distance in Cinepak).
  In particular a strip edge that only overflows 16 bits, a clip wider than 32764 pixels and a bundle near
  4 GB are outside the model.
- Cinepak.Decode: the picture buffer must hold the picture, and either every strip's last block stays inside it
  or there are four rows to spare below the padded height; the source checks only the far edges and the order
  of a strip.
- Frames.Host.PresentOnce: the hash of a layout is replaced by the layout itself, scaling is over reals, and
  the device pixel ratio is 1.
- Frames.Host.PlanDamage: holds for closing windows, dialog hole colours, the shell-dialog mask and its row
  colour, and the finger overlay are not modelled; a hole's colour depends on a pixel outside the damage.
- Screen.GuestScreen.SampleColour: the point is already rounded and on the screen.
- Chrome.WindowIsGoodExactly: how placing chooses a window's scale and place is not modelled, only what it
  guarantees of them: positive scales, a frame around the client's bottom, a menu bar panned no further than its
  end.
- Reflow.EnclosedExactly: for a dialog whose borders leave it some width.
- Placement.SpotsAgreeExactly: for a shell column no wider than an application's, and a dialog that has some width.
- Commands.Channel.SendCommand: commands with an argument only. String commands, which are acknowledged before
  the string is read, are left out, and so is what the guest does with a command; a scroll of 0 lines counts
  as 0 here although the guest scrolls 3.
- Registers.RunIsPlain: registers are plain cells; a register that advances when read is not read this way by
  the source either (it is drained in a burst with interrupts off).
- VideoPlayer.Player.VideoNext: the Cinepak codec's reset at the start of a round, the tick schedule and the
  failure of an allocation are left out; a read is always inside the bundle here, as the bounds prove.
- VideoCoder.VideoBlock: palette conversion and dithering are foreign calls; frames arrive as indices.
- GroupFile.Build: texts are the bytes the file holds, so characters outside the code page do not arise, and
  the order in which two errors would be raised is not kept.
- GroupAdd.AddItem: case folding is any function of the text; taking an icon out of an executable is left out,
  and so are the relayout and list commands, which add nothing to the add step.
- Rle.RleDecode: sizes are not negative; the errors of an index past either buffer are one result.
- Fetch.Transfer: the window, the timers and the text shown (line breaks, tabs) are left out; the file can be
  written; the device stages what it announces.
- Pointing.Aim.CalibratePointer: rational arithmetic in place of floating point, and an answer to a probe in
  place of waiting for one.
- Slots.Agent.ParkAll: window positions are field updates, so what a hook or USER does to a SetWindowPos call is
  not modelled, and the size a program starts with is whatever its rectangle says.
- Placement.PlaceOwned: the optional tiles below the visible rows, off by default, are left out.
- Reflow.Dialog.ReflowDialog: at most 40 controls are collected by the source; the ones here are those. The
  left edge of a dialog parked in a tile, and painting, are left out.
- Marshall.Unmarshall: values that run off the end of the buffer are one result here; the source returns
  values that are not numbers. Texts are their encoded bytes. Reading and writing stay inside the buffer.
- Windows calls, the DOM, touch, sound, snapshots, the service worker and the emulator itself are not part of
  this model.
