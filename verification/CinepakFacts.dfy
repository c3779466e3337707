/**
 What the reference decoder promises about pictures and streams: where every pixel of a painted
 strip comes from, what a frame leaves alone, and that an encoder which writes flag words ahead of
 the payload they govern is read back exactly.
 */
module CinepakFacts {
  import opened Arith
  import opened Bytes
  import opened CinepakSpec

  // ---------------------------------------------------------------- pixels

  /** The row of a block that ends up on picture row `y`. Several rows of a block that hangs off
      the bottom are written to the last picture row, and the last of them stays. */
  function ShownRow(top: nat, y: nat, height: nat): nat
    requires top <= y < height
  {
    if y == height - 1 && top + 3 >= y then 3 else y - top
  }

  lemma PutRowPixel(pic: seq<byte>, row: nat, left: nat, b: Block, books: Books, r: nat, x: nat, y: nat, stride: nat)
    requires !b.Skip? && r < 4 && left + 4 <= stride && x < stride
    requires row * stride + left + 4 <= |pic| && y * stride + x < |pic|
    ensures PutRow(pic, row * stride + left, b, books, r)[y * stride + x]
         == if row == y && left <= x < left + 4 then BlockPixel(b, books, r, x - left) else pic[y * stride + x]
  {
    hide BlockPixel;
    SamePlace(row, left, y, x, stride);
    SamePlace(row, left + 1, y, x, stride);
    SamePlace(row, left + 2, y, x, stride);
    SamePlace(row, left + 3, y, x, stride);
  }

  lemma PutBlockPixel(pic: seq<byte>, g: Grid, left: nat, top: nat, b: Block, books: Books, x: nat, y: nat, at: nat)
    requires !b.Skip? && left + 4 <= g.stride && top < g.height && x < g.stride && y < g.height
    requires BlockFits(g, left, top, |pic|) && at == y * g.stride + x < |pic|
    ensures PutBlock(pic, g, left, top, b, books)[at]
         == if left <= x < left + 4 && top <= y < top + 4
            then BlockPixel(b, books, ShownRow(top, y, g.height), x - left)
            else pic[at]
  {
    hide BlockPixel, PutRow;
    var p0 := PutRow(pic, RowAt(g, top, 0, left), b, books, 0);
    var p1 := PutRow(p0, RowAt(g, top, 1, left), b, books, 1);
    var p2 := PutRow(p1, RowAt(g, top, 2, left), b, books, 2);
    PutRowPixel(pic, TargetRow(top, 0, g.height), left, b, books, 0, x, y, g.stride);
    PutRowPixel(p0, TargetRow(top, 1, g.height), left, b, books, 1, x, y, g.stride);
    PutRowPixel(p1, TargetRow(top, 2, g.height), left, b, books, 2, x, y, g.stride);
    PutRowPixel(p2, TargetRow(top, 3, g.height), left, b, books, 3, x, y, g.stride);
  }

  /** The blocks of a strip stay inside the rows and columns of the picture. */
  ghost predicate Tidy(g: Grid, n: nat)
    requires g.cols > 0
  {
    forall k :: 0 <= k < n ==> BlockX(g, k) + 4 <= g.stride && BlockY(g, k) < g.height
  }

  /** The number of the block over a pixel. */
  function BlockOver(g: Grid, x: nat, y: nat): nat
    requires g.x0 <= x && g.y0 <= y
  {
    (y - g.y0) / 4 * g.cols + (x - g.x0) / 4
  }

  ghost predicate Drawn(g: Grid, blocks: seq<Block>, x: nat, y: nat) {
    && g.x0 <= x < g.x0 + 4 * g.cols
    && g.y0 <= y
    && BlockOver(g, x, y) < |blocks|
    && !blocks[BlockOver(g, x, y)].Skip?
  }

  lemma OverBlock(g: Grid, k: nat, x: nat, y: nat)
    requires g.cols > 0
    ensures (BlockX(g, k) <= x < BlockX(g, k) + 4 && BlockY(g, k) <= y < BlockY(g, k) + 4)
       <==> (g.x0 <= x < g.x0 + 4 * g.cols && g.y0 <= y && BlockOver(g, x, y) == k)
  {
    var row, col := k / g.cols, k % g.cols;
    assert k == row * g.cols + col;
    if g.x0 <= x < g.x0 + 4 * g.cols && g.y0 <= y {
      SamePlace(row, col, (y - g.y0) / 4, (x - g.x0) / 4, g.cols);
    }
  }

  /** Every pixel of a painted strip: the block over it if that block was coded, else what was there. */
  lemma {:induction false} PaintedPixel(pic: seq<byte>, g: Grid, blocks: seq<Block>, books: Books, x: nat, y: nat,
                                        at: nat)
    requires GridFits(g, |blocks|, |pic|) && Tidy(g, |blocks|)
    requires x < g.stride && y < g.height && at == y * g.stride + x < |pic|
    ensures Paint(pic, g, blocks, books)[at]
         == if Drawn(g, blocks, x, y) then
              var k := BlockOver(g, x, y);
              OverBlock(g, k, x, y);
              BlockPixel(blocks[k], books, ShownRow(BlockY(g, k), y, g.height), x - BlockX(g, k))
            else pic[at]
    decreases |blocks|
  {
    hide PutBlock, BlockFits, BlockPixel, ShownRow, BlockX, BlockY, BlockOver;
    if blocks == [] { return; }
    var k := |blocks| - 1;
    var before := Paint(pic, g, blocks[..k], books);
    assert BlockFits(g, BlockX(g, k), BlockY(g, k), |pic|);
    PaintedPixel(pic, g, blocks[..k], books, x, y, at);
    OverBlock(g, k, x, y);
    if blocks[k].Skip? {
      SkipLeaves(before, g, BlockX(g, k), BlockY(g, k), blocks[k], books);
    } else {
      PutBlockPixel(before, g, BlockX(g, k), BlockY(g, k), blocks[k], books, x, y, at);
    }
  }

  lemma SkipLeaves(pic: seq<byte>, g: Grid, x: nat, y: nat, b: Block, books: Books)
    requires b.Skip? && BlockFits(g, x, y, |pic|)
    ensures PutBlock(pic, g, x, y, b, books) == pic
  {}

  lemma StripIsTidy(rc: Rect, pg: Page, size: nat)
    requires StripFits(rc, pg, size) && rc.x0 % 4 == 0 && rc.y0 % 4 == 0
    ensures Tidy(GridOf(rc, pg), BlockCount(rc))
  {
    var g := GridOf(rc, pg);
    assert OnPage(rc, pg) && Pad4(pg.width) <= pg.stride;
    hide StripFits, BlockX, BlockY, BlockCount, CeilDiv4;
    forall k | 0 <= k < BlockCount(rc)
      ensures BlockX(g, k) + 4 <= g.stride && BlockY(g, k) < g.height
    {
      var row, col := BlockCorner(rc, pg, k);
      InStrip(col, rc.x0, rc.x1);
      InStrip(row, rc.y0, rc.y1);
      AlignedBelowPad(rc.x0, col, pg.width);
      AlignedBelowPad(rc.y0, row, pg.height);
    }
  }

  /** A block shows each of its rows where it belongs exactly when it does not hang off the bottom
      of the picture; a picture whose height is a multiple of four has no other kind. */
  lemma RowsShownInPlace(top: nat, height: nat)
    requires top < height && top % 4 == 0
    ensures (forall y :: top <= y < top + 4 && y < height ==> ShownRow(top, y, height) == y - top)
       <==> top + 4 <= height
    ensures height % 4 == 0 ==> top + 4 <= height
  {
    if top + 4 > height {
      assert ShownRow(top, height - 1, height) == 3;
    }
  }

  // ---------------------------------------------------------------- what stays inside

  /** The place of one block in its row and column is a place in the strip's order of blocks. */
  lemma BlockAt(rc: Rect, pg: Page, row: nat, col: nat) returns (k: nat)
    requires rc.x0 < rc.x1 && rc.y0 < rc.y1
    requires row < CeilDiv4(rc.y1 - rc.y0) && col < CeilDiv4(rc.x1 - rc.x0)
    ensures k < BlockCount(rc)
    ensures BlockX(GridOf(rc, pg), k) == rc.x0 + 4 * col && BlockY(GridOf(rc, pg), k) == rc.y0 + 4 * row
  {
    var cols, rows := CeilDiv4(rc.x1 - rc.x0), CeilDiv4(rc.y1 - rc.y0);
    k := row * cols + col;
    LessRow(row, rows, cols);
    QuotientIs(k, cols, row, col);
  }

  lemma PastLast(row: nat, height: nat, stride: nat, x: nat)
    requires row >= height || (row == height - 1 && x + 4 > stride)
    ensures row * stride + x + 4 > stride * height
  {
    if row >= height {
      assert row * stride == height * stride + (row - height) * stride;
      assert (row - height) * stride >= 0;
    } else {
      assert (height - 1) * stride + stride == stride * height;
    }
  }

  /** Every block of a strip stays inside a buffer of just the picture's rows exactly when the strip's last
      block does. */
  lemma StaysInsideExactly(rc: Rect, pg: Page)
    requires OnPage(rc, pg) && Drawable(pg)
    ensures GridFits(GridOf(rc, pg), BlockCount(rc), pg.stride * pg.height) <==> StaysInside(rc, pg)
  {
    hide BlockX, BlockY, BlockCount, CeilDiv4;
    if StaysInside(rc, pg) {
      StripGridFits(rc, pg, pg.stride * pg.height);
    } else {
      LastBlockOut(rc, pg);
    }
  }

  lemma LastBlockOut(rc: Rect, pg: Page)
    requires OnPage(rc, pg) && Drawable(pg) && !StaysInside(rc, pg)
    ensures !GridFits(GridOf(rc, pg), BlockCount(rc), pg.stride * pg.height)
  {
    hide BlockX, BlockY, BlockCount, BlockFits;
    var rows, cols := CeilDiv4(rc.y1 - rc.y0), CeilDiv4(rc.x1 - rc.x0);
    assert rows > 0 && cols > 0 && LastX(rc) == rc.x0 + 4 * (cols - 1) && LastY(rc) == rc.y0 + 4 * (rows - 1);
    var k := BlockAt(rc, pg, rows - 1, cols - 1);
    BlockOut(GridOf(rc, pg), LastX(rc), LastY(rc));
  }

  lemma BlockOut(g: Grid, x: nat, y: nat)
    requires g.height > 0 && (y >= g.height || (x + 4 > g.stride && y + 4 >= g.height))
    ensures !BlockFits(g, x, y, g.stride * g.height)
  {
    var r := if y >= g.height then 0 else 3;
    PastLast(TargetRow(y, r, g.height), g.height, g.stride, x);
  }

  /** A strip that starts on a block boundary stays inside. */
  lemma AlignedStaysInside(rc: Rect, pg: Page)
    requires OnPage(rc, pg) && Drawable(pg) && rc.x0 % 4 == 0 && rc.y0 % 4 == 0
    ensures StaysInside(rc, pg)
  {
    var rows, cols := CeilDiv4(rc.y1 - rc.y0), CeilDiv4(rc.x1 - rc.x0);
    InStrip(cols - 1, rc.x0, rc.x1);
    InStrip(rows - 1, rc.y0, rc.y1);
    AlignedBelowPad(rc.x0, cols - 1, pg.width);
    AlignedBelowPad(rc.y0, rows - 1, pg.height);
  }

  /** One that does not need not: it passes every check of the decoder, and its last row of pixels ends
      behind the buffer. */
  lemma MisalignedStripPasses()
    ensures var pg, rc := Page(4, 4, 4), Rect(1, 0, 4, 4);
      Drawable(pg) && OnPage(rc, pg) && !GridFits(GridOf(rc, pg), BlockCount(rc), pg.stride * pg.height)
  {
    var pg, rc := Page(4, 4, 4), Rect(1, 0, 4, 4);
    StaysInsideExactly(rc, pg);
  }

  // ---------------------------------------------------------------- what a frame leaves alone

  /** Some row of a block is written over a place of the picture. */
  predicate Writes(g: Grid, x: nat, y: nat, at: nat) {
    || RowAt(g, y, 0, x) <= at < RowAt(g, y, 0, x) + 4
    || RowAt(g, y, 1, x) <= at < RowAt(g, y, 1, x) + 4
    || RowAt(g, y, 2, x) <= at < RowAt(g, y, 2, x) + 4
    || RowAt(g, y, 3, x) <= at < RowAt(g, y, 3, x) + 4
  }

  /** Some block of a strip is. */
  ghost predicate Touches(rc: Rect, pg: Page, at: nat) {
    && rc.x0 < rc.x1 && rc.y0 < rc.y1
    && exists k ::
         0 <= k < BlockCount(rc) && Writes(GridOf(rc, pg), BlockX(GridOf(rc, pg), k), BlockY(GridOf(rc, pg), k), at)
  }

  lemma PutBlockKeeps(pic: seq<byte>, g: Grid, x: nat, y: nat, b: Block, books: Books, at: nat)
    requires BlockFits(g, x, y, |pic|) && at < |pic| && !Writes(g, x, y, at)
    ensures PutBlock(pic, g, x, y, b, books)[at] == pic[at]
  {
    hide RowAt, BlockPixel;
  }

  lemma {:induction false} PaintKeeps(pic: seq<byte>, g: Grid, blocks: seq<Block>, books: Books, at: nat)
    requires GridFits(g, |blocks|, |pic|) && at < |pic|
    requires forall k :: 0 <= k < |blocks| ==> !Writes(g, BlockX(g, k), BlockY(g, k), at)
    ensures Paint(pic, g, blocks, books)[at] == pic[at]
    decreases |blocks|
  {
    hide Writes, BlockFits, BlockX, BlockY, PutBlock;
    if blocks != [] {
      var k := |blocks| - 1;
      PaintKeeps(pic, g, blocks[..k], books, at);
      assert BlockFits(g, BlockX(g, k), BlockY(g, k), |pic|);
      PutBlockKeeps(Paint(pic, g, blocks[..k], books), g, BlockX(g, k), BlockY(g, k), blocks[k], books, at);
    }
  }

  /** A strip leaves every place that none of its blocks is written over. */
  lemma {:induction false} StripKeeps(books: Books, bytes: seq<byte>, lut: Lut, pic: seq<byte>, rc: Rect, pg: Page,
                                      at: nat)
    requires StripFits(rc, pg, |pic|) && at < |pic| && !Touches(rc, pg, at)
    ensures DecodeStrip(books, bytes, lut, pic, rc, pg).pic[at] == pic[at]
    decreases |bytes|
  {
    assert rc.x0 < rc.x1 && rc.y0 < rc.y1;
    hide GridFits, Paint, ChunkBooks, ReadBlocks, Writes, StripFits;
    if |bytes| < 4 || Be24(bytes[1], bytes[2], bytes[3]) < 4 { return; }
    var id, n := bytes[0], Min(Be24(bytes[1], bytes[2], bytes[3]), |bytes|);
    var chunk := Source(bytes[4..n], []);
    if id in BLOCK_CHUNKS {
      var run := ReadBlocks(id, chunk, BlockCount(rc));
      StripGridFits(rc, pg, |pic|);
      FewerFit(GridOf(rc, pg), |run.blocks|, BlockCount(rc), |pic|);
      PaintKeeps(pic, GridOf(rc, pg), run.blocks, books, at);
    } else {
      StripKeeps(ChunkBooks(id, chunk, books, lut), bytes[n..], lut, pic, rc, pg, at);
    }
  }

  lemma FewerFit(g: Grid, m: nat, n: nat, size: nat)
    requires m <= n && GridFits(g, n, size)
    ensures GridFits(g, m, size)
  {}

  ghost predicate NoneTouch(rects: seq<Rect>, pg: Page, at: nat) {
    forall rc :: rc in rects ==> !Touches(rc, pg, at)
  }

  lemma StepKeeps(st: State, bytes: seq<byte>, i: nat, left: nat, flags: byte, y0: nat, lut: Lut,
                  pic: seq<byte>, pg: Page, at: nat)
    requires left > 0 && at < |pic|
    requires PageFits(StripRects(bytes, left, y0, pg), pg, |pic|)
    requires NoneTouch(StripRects(bytes, left, y0, pg), pg, at)
    ensures match StripStep(st, bytes, i, left, flags, y0, lut, pic, pg)
      case Stop(res) => res.pic[at] == pic[at]
      case Go(_, pic', rest, y1) => pic'[at] == pic[at] && NoneTouch(StripRects(rest, left - 1, y1, pg), pg, at)
  {
    hide StripFits, PageFits, Touches, Inherit, DecodeStrip;
    if |bytes| < 12 { return; }
    var head := ReadHead(bytes, y0);
    var m := Min(head.size, |bytes|);
    if m <= 12 || !OnPage(head.rc, pg) { return; }
    var rects := StripRects(bytes, left, y0, pg);
    assert rects[0] == head.rc && rects[1..] == StripRects(bytes[m..], left - 1, head.rc.y1, pg);
    hide StripRects, ReadHead, OnPage;
    StripFitsPage(bytes, left, y0, pg, |pic|);
    StripKeeps(Inherit(st, i, flags)[SlotOf(i)], bytes[12..m], lut, pic, head.rc, pg, at);
  }

  /** A place that no block of a frame's strips is written over keeps the value the frame before left there,
      whatever the frame holds and wherever its decoding stops. */
  lemma {:induction false} FrameKeeps(st: State, bytes: seq<byte>, i: nat, left: nat, flags: byte, y0: nat, lut: Lut,
                                      pic: seq<byte>, pg: Page, at: nat)
    requires PageFits(StripRects(bytes, left, y0, pg), pg, |pic|) && at < |pic|
    requires NoneTouch(StripRects(bytes, left, y0, pg), pg, at)
    ensures DecodeStrips(st, bytes, i, left, flags, y0, lut, pic, pg).pic[at] == pic[at]
    decreases left
  {
    hide StripRects, PageFits, NoneTouch, StripStep;
    if left == 0 { return; }
    StepKeeps(st, bytes, i, left, flags, y0, lut, pic, pg, at);
    match StripStep(st, bytes, i, left, flags, y0, lut, pic, pg)
    case Stop(_) =>
    case Go(st', pic', rest, y1) => FrameKeeps(st', rest, i + 1, left - 1, flags, y1, lut, pic', pg, at);
  }

  /** A pixel under one of a strip's blocks, the last column and row of blocks rounded up. */
  predicate Under(rc: Rect, x: nat, y: nat) {
    && rc.x0 <= rc.x1 && rc.x0 <= x < rc.x0 + Pad4(rc.x1 - rc.x0)
    && rc.y0 <= rc.y1 && rc.y0 <= y < rc.y0 + Pad4(rc.y1 - rc.y0)
  }

  /** A strip on block boundaries is written over no pixels but those under it. */
  lemma AlignedTouchesUnder(rc: Rect, pg: Page, x: nat, y: nat)
    requires OnPage(rc, pg) && Drawable(pg) && rc.x0 % 4 == 0 && rc.y0 % 4 == 0
    requires x < pg.stride && y < pg.height && Touches(rc, pg, y * pg.stride + x)
    ensures Under(rc, x, y)
  {
    hide BlockX, BlockY, BlockCount, Writes;
    var g := GridOf(rc, pg);
    var k :| 0 <= k < BlockCount(rc) && Writes(g, BlockX(g, k), BlockY(g, k), y * pg.stride + x);
    var row, col := BlockCorner(rc, pg, k);
    BlockUnder(rc, pg, row, col, x, y);
  }

  lemma BlockUnder(rc: Rect, pg: Page, row: nat, col: nat, x: nat, y: nat)
    requires OnPage(rc, pg) && Drawable(pg) && rc.x0 % 4 == 0 && rc.y0 % 4 == 0
    requires row < CeilDiv4(rc.y1 - rc.y0) && col < CeilDiv4(rc.x1 - rc.x0)
    requires x < pg.stride && y < pg.height
    requires Writes(GridOf(rc, pg), rc.x0 + 4 * col, rc.y0 + 4 * row, y * pg.stride + x)
    ensures Under(rc, x, y)
  {
    InStrip(col, rc.x0, rc.x1);
    InStrip(row, rc.y0, rc.y1);
    AlignedBelowPad(rc.x0, col, pg.width);
    AlignedBelowPad(rc.y0, row, pg.height);
    var left, top := rc.x0 + 4 * col, rc.y0 + 4 * row;
    hide CeilDiv4;
    RowPixel(left, TargetRow(top, 0, pg.height), pg.stride, x, y);
    RowPixel(left, TargetRow(top, 1, pg.height), pg.stride, x, y);
    RowPixel(left, TargetRow(top, 2, pg.height), pg.stride, x, y);
    RowPixel(left, TargetRow(top, 3, pg.height), pg.stride, x, y);
  }

  lemma RowPixel(left: nat, row: nat, stride: nat, x: nat, y: nat)
    requires left + 4 <= stride && x < stride
    ensures row * stride + left <= y * stride + x < row * stride + left + 4 ==> row == y && left <= x < left + 4
  {
    if row < y { LessRow(row, y, stride); }
    if y < row { LessRow(y, row, stride); }
  }
}
