/**
 The meaning of a Cinepak frame, with no cursors, masks or segments in it: a frame is a flat byte
 sequence, a chunk's flag words are a stream of booleans, a block chunk is first read into a list
 of block commands and then painted, and a picture is a flat sequence of palette indices.
 */
module CinepakSpec {
  import opened Arith
  import opened Bytes

  const MAX_STRIPS: nat := 12

  const CV_OK: int := 0
  const CV_E_SHORT: int := -1
  const CV_E_GEOM: int := -2
  const CV_E_DATA: int := -3

  // ---------------------------------------------------------------- codebooks and the state

  /** A 2x2 vector of palette indices in raster order. */
  datatype Entry = Entry(tl: byte, tr: byte, bl: byte, br: byte) {
    function At(row: nat, col: nat): byte
      requires row < 2 && col < 2
    {
      if row == 0 then (if col == 0 then tl else tr) else (if col == 0 then bl else br)
    }
  }

  const BLANK: Entry := Entry(0, 0, 0, 0)

  type Book = b: seq<Entry> | |b| == 256 witness seq(256, _ => BLANK)

  datatype Books = Books(v4: Book, v1: Book)

  type State = s: seq<Books> | |s| == MAX_STRIPS
    witness seq(MAX_STRIPS, _ => Books(seq(256, _ => BLANK), seq(256, _ => BLANK)))

  type Lut = s: seq<byte> | |s| == 32768 witness seq(32768, _ => 0)

  // ---------------------------------------------------------------- flag words

  /** What is left of a chunk: its payload bytes and the flags already drawn from a flag word. */
  datatype Source = Source(bytes: seq<byte>, flags: seq<bool>)

  /** A byte's bits, most significant first. */
  function ByteFlags(b: byte): (s: seq<bool>)
    ensures |s| == 8
  {
    [b / 128 % 2 == 1, b / 64 % 2 == 1, b / 32 % 2 == 1, b / 16 % 2 == 1,
     b / 8 % 2 == 1, b / 4 % 2 == 1, b / 2 % 2 == 1, b % 2 == 1]
  }

  function WordFlags(b0: byte, b1: byte, b2: byte, b3: byte): (s: seq<bool>)
    ensures |s| == 32
  {
    ByteFlags(b0) + ByteFlags(b1) + ByteFlags(b2) + ByteFlags(b3)
  }

  datatype Drawn = Drawn(flag: bool, rest: Source)

  /** The next flag; the four bytes of a new word are taken at the moment they are needed. */
  function NextFlag(src: Source): (r: Option<Drawn>)
    ensures r.Some? ==> |r.value.rest.bytes| <= |src.bytes|
  {
    if src.flags != [] then
      Some(Drawn(src.flags[0], Source(src.bytes, src.flags[1..])))
    else if |src.bytes| < 4 then
      None
    else
      var word := WordFlags(src.bytes[0], src.bytes[1], src.bytes[2], src.bytes[3]);
      Some(Drawn(word[0], Source(src.bytes[4..], word[1..])))
  }

  // ---------------------------------------------------------------- codebook chunks

  predicate Partial(id: byte) { id % 2 == 1 }

  predicate Monochrome(id: byte) { id / 4 % 2 == 1 }

  function EntrySize(id: byte): nat { if Monochrome(id) then 4 else 6 }

  function Signed(b: byte): int { if b < 128 then b else b - 256 }

  /** Division by two, truncating toward zero. */
  function Halved(u: int): int { if u >= 0 then u / 2 else -((-u) / 2) }

  function Clip(v: int): byte { if v < 0 then 0 else if v > 255 then 255 else v }

  /** The index of a colour in a table over RGB555. */
  function Rgb555(r: byte, g: byte, b: byte): (i: nat)
    ensures i < 32768
  {
    r / 8 * 1024 + g / 8 * 32 + b / 8
  }

  function Colour(y: byte, u: int, v: int, lut: Lut): byte {
    lut[Rgb555(Clip(y + 2 * v), Clip(y - Halved(u) - v), Clip(y + 2 * u))]
  }

  function Grey(y: byte, lut: Lut): byte {
    lut[Rgb555(y, y, y)]
  }

  /** The entry at the head of the payload. */
  function ReadEntry(id: byte, bytes: seq<byte>, lut: Lut): Entry
    requires |bytes| >= EntrySize(id)
  {
    if Monochrome(id) then
      Entry(Grey(bytes[0], lut), Grey(bytes[1], lut), Grey(bytes[2], lut), Grey(bytes[3], lut))
    else
      var u, v := Signed(bytes[4]), Signed(bytes[5]);
      Entry(Colour(bytes[0], u, v, lut), Colour(bytes[1], u, v, lut),
            Colour(bytes[2], u, v, lut), Colour(bytes[3], u, v, lut))
  }

  /** Entries `i` and up of a codebook after a codebook chunk: a partial chunk replaces only the
      flagged ones, and a chunk that runs dry leaves the rest as they were. */
  function UpdateBook(id: byte, src: Source, i: nat, book: Book, lut: Lut): Book
    requires i <= 256
    decreases 256 - i
  {
    if i == 256 then
      book
    else if Partial(id) then
      match NextFlag(src)
      case None => book
      case Some(d) =>
        if d.flag then LoadEntry(id, d.rest, i, book, lut) else UpdateBook(id, d.rest, i + 1, book, lut)
    else
      LoadEntry(id, src, i, book, lut)
  }

  function LoadEntry(id: byte, src: Source, i: nat, book: Book, lut: Lut): Book
    requires i < 256
    decreases 256 - i, 0
  {
    var n := EntrySize(id);
    if |src.bytes| < n then
      book
    else
      UpdateBook(id, Source(src.bytes[n..], src.flags), i + 1, book[i := ReadEntry(id, src.bytes, lut)], lut)
  }

  // ---------------------------------------------------------------- block chunks, read

  datatype Block = Skip | V1(index: byte) | V4(tl: byte, tr: byte, bl: byte, br: byte)

  /** Chunk 0x31 says of each block whether it is coded; chunk 0x32 never uses the V4 book. */
  predicate MayskipBlocks(id: byte) { id % 2 == 1 }

  predicate OnlyV1(id: byte) { id / 2 % 2 == 1 }

  datatype BlockRead = BlockRead(block: Block, rest: Source)

  function ReadBlock(id: byte, src: Source): Option<BlockRead> {
    if MayskipBlocks(id) then
      match NextFlag(src)
      case None => None
      case Some(d) => if d.flag then ReadCoded(id, d.rest) else Some(BlockRead(Skip, d.rest))
    else
      ReadCoded(id, src)
  }

  function ReadCoded(id: byte, src: Source): Option<BlockRead> {
    if OnlyV1(id) then
      ReadV1(src)
    else
      match NextFlag(src)
      case None => None
      case Some(d) => if d.flag then ReadV4(d.rest) else ReadV1(d.rest)
  }

  function ReadV1(src: Source): Option<BlockRead> {
    if |src.bytes| < 1 then None
    else Some(BlockRead(V1(src.bytes[0]), Source(src.bytes[1..], src.flags)))
  }

  function ReadV4(src: Source): Option<BlockRead> {
    if |src.bytes| < 4 then None
    else Some(BlockRead(V4(src.bytes[0], src.bytes[1], src.bytes[2], src.bytes[3]),
                        Source(src.bytes[4..], src.flags)))
  }

  /** The blocks read and whether the chunk held as many as were asked for. */
  datatype Run = Run(blocks: seq<Block>, complete: bool)

  function ReadBlocks(id: byte, src: Source, n: nat): (run: Run)
    ensures |run.blocks| <= n
    ensures run.complete <==> |run.blocks| == n
    decreases n
  {
    if n == 0 then
      Run([], true)
    else
      match ReadBlock(id, src)
      case None => Run([], false)
      case Some(b) =>
        var rest := ReadBlocks(id, b.rest, n - 1);
        Run([b.block] + rest.blocks, rest.complete)
  }

  // ---------------------------------------------------------------- block chunks, painted

  /** A strip's blocks on the picture: `cols` to a row of blocks, from (x0, y0) down. */
  datatype Grid = Grid(x0: nat, y0: nat, cols: nat, stride: nat, height: nat)

  function CeilDiv4(n: nat): nat { (n + 3) / 4 }

  /** The palette index a block puts at one of its sixteen places. */
  function BlockPixel(b: Block, books: Books, row: nat, col: nat): byte
    requires !b.Skip? && row < 4 && col < 4
  {
    match b
    case V1(i) => books.v1[i].At(row / 2, col / 2)
    case V4(tl, tr, bl, br) =>
      var i := if row < 2 then (if col < 2 then tl else tr) else (if col < 2 then bl else br);
      books.v4[i].At(row % 2, col % 2)
  }

  /** The picture row that row `r` of a block with its top at `y` is written to. In a block that hangs over the
      picture's lower edge every row below the edge goes to the last row above it. A block that starts at
      the edge or under it, as only a strip off the block boundaries has one, is not held back: how far the
      edge is below its top is an unsigned number. */
  function TargetRow(y: nat, r: nat, height: nat): nat {
    if y + r < height || y > height then y + r else Max(y, height - 1)
  }

  /** Four pixels of a block's row `r`, at offset `at`. */
  function PutRow(pic: seq<byte>, at: nat, b: Block, books: Books, r: nat): (p: seq<byte>)
    requires !b.Skip? && r < 4 && at + 4 <= |pic|
    ensures |p| == |pic|
  {
    pic[at := BlockPixel(b, books, r, 0)][at + 1 := BlockPixel(b, books, r, 1)]
       [at + 2 := BlockPixel(b, books, r, 2)][at + 3 := BlockPixel(b, books, r, 3)]
  }

  function RowAt(g: Grid, y: nat, r: nat, x: nat): nat {
    TargetRow(y, r, g.height) * g.stride + x
  }

  predicate BlockFits(g: Grid, x: nat, y: nat, size: nat) {
    && RowAt(g, y, 0, x) + 4 <= size
    && RowAt(g, y, 1, x) + 4 <= size
    && RowAt(g, y, 2, x) + 4 <= size
    && RowAt(g, y, 3, x) + 4 <= size
  }

  function PutBlock(pic: seq<byte>, g: Grid, x: nat, y: nat, b: Block, books: Books): (p: seq<byte>)
    requires BlockFits(g, x, y, |pic|)
    ensures |p| == |pic|
  {
    if b.Skip? then pic
    else
      var p0 := PutRow(pic, RowAt(g, y, 0, x), b, books, 0);
      var p1 := PutRow(p0, RowAt(g, y, 1, x), b, books, 1);
      var p2 := PutRow(p1, RowAt(g, y, 2, x), b, books, 2);
      PutRow(p2, RowAt(g, y, 3, x), b, books, 3)
  }

  function BlockX(g: Grid, k: nat): nat
    requires g.cols > 0
  {
    g.x0 + 4 * (k % g.cols)
  }

  function BlockY(g: Grid, k: nat): nat
    requires g.cols > 0
  {
    g.y0 + 4 * (k / g.cols)
  }

  ghost predicate GridFits(g: Grid, n: nat, size: nat) {
    && g.cols > 0
    && forall k :: 0 <= k < n ==> BlockFits(g, BlockX(g, k), BlockY(g, k), size)
  }

  /** The blocks painted one after the other, left to right and top to bottom. */
  ghost function Paint(pic: seq<byte>, g: Grid, blocks: seq<Block>, books: Books): (p: seq<byte>)
    requires GridFits(g, |blocks|, |pic|)
    ensures |p| == |pic|
  {
    if blocks == [] then
      pic
    else
      var k := |blocks| - 1;
      PutBlock(Paint(pic, g, blocks[..k], books), g, BlockX(g, k), BlockY(g, k), blocks[k], books)
  }

  // ---------------------------------------------------------------- strips

  datatype Rect = Rect(x0: nat, y0: nat, x1: nat, y1: nat)

  /** The picture being drawn into. */
  datatype Page = Page(stride: nat, width: nat, height: nat)

  function Pad4(n: nat): nat { (n + 3) / 4 * 4 }

  function GridOf(rc: Rect, pg: Page): Grid
    requires rc.x0 < rc.x1
  {
    Grid(rc.x0, rc.y0, CeilDiv4(rc.x1 - rc.x0), pg.stride, pg.height)
  }

  function BlockCount(rc: Rect): nat
    requires rc.x0 < rc.x1 && rc.y0 < rc.y1
  {
    CeilDiv4(rc.y1 - rc.y0) * CeilDiv4(rc.x1 - rc.x0)
  }

  /** Where the last column and the last row of a strip's blocks start. */
  function LastX(rc: Rect): int { rc.x0 + 4 * (CeilDiv4(Max(0, rc.x1 - rc.x0)) - 1) }

  function LastY(rc: Rect): int { rc.y0 + 4 * (CeilDiv4(Max(0, rc.y1 - rc.y0)) - 1) }

  /** A strip's last block starts in the picture, and where it hangs off the right of the picture's rows it
      does not reach the last of them. */
  predicate StaysInside(rc: Rect, pg: Page) {
    LastY(rc) < pg.height && (LastX(rc) + 4 <= pg.stride || LastY(rc) + 4 < pg.height)
  }

  /** The buffer is big enough for a strip: either the strip's blocks stay inside the picture and the buffer
      holds that, or the buffer holds four rows of blocks below it as well. */
  predicate StripFits(rc: Rect, pg: Page, size: nat) {
    && Pad4(pg.width) <= pg.stride
    && rc.x0 < rc.x1 <= Pad4(pg.width)
    && rc.y0 < rc.y1 <= Pad4(pg.height)
    && (|| (StaysInside(rc, pg) && pg.stride * pg.height <= size)
        || pg.stride * (Pad4(pg.height) + 4) <= size)
  }

  const V4_CHUNKS: set<int> := {0x20, 0x21, 0x24, 0x25}
  const V1_CHUNKS: set<int> := {0x22, 0x23, 0x26, 0x27}
  const BLOCK_CHUNKS: set<int> := {0x30, 0x31, 0x32}

  /** The codebooks after a chunk that draws nothing; chunks of no known kind are passed over. */
  function ChunkBooks(id: byte, chunk: Source, books: Books, lut: Lut): Books {
    if id in V4_CHUNKS then books.(v4 := UpdateBook(id, chunk, 0, books.v4, lut))
    else if id in V1_CHUNKS then books.(v1 := UpdateBook(id, chunk, 0, books.v1, lut))
    else books
  }

  datatype StripResult = StripResult(books: Books, pic: seq<byte>, code: int)

  ghost function DecodeStrip(books: Books, bytes: seq<byte>, lut: Lut, pic: seq<byte>, rc: Rect, pg: Page)
    : (res: StripResult)
    requires StripFits(rc, pg, |pic|)
    ensures |res.pic| == |pic|
    decreases |bytes|
  {
    if |bytes| < 4 then
      StripResult(books, pic, CV_E_DATA)
    else
      var id := bytes[0];
      var size := Be24(bytes[1], bytes[2], bytes[3]);
      if size < 4 then
        StripResult(books, pic, CV_E_DATA)
      else
        var n := Min(size, |bytes|);
        var chunk := Source(bytes[4..n], []);
        if id in BLOCK_CHUNKS then
          var run := ReadBlocks(id, chunk, BlockCount(rc));
          StripGridFits(rc, pg, |pic|);
          StripResult(books, Paint(pic, GridOf(rc, pg), run.blocks, books),
                      if run.complete then CV_OK else CV_E_DATA)
        else
          DecodeStrip(ChunkBooks(id, chunk, books, lut), bytes[n..], lut, pic, rc, pg)
  }

  // ---------------------------------------------------------------- frames

  /** A strip's header: its whole length and where it goes. A zero top edge carries on under the
      strip before, and then the bottom edge is a height. */
  datatype Head = Head(size: nat, rc: Rect)

  function ReadHead(bytes: seq<byte>, y0: nat): Head
    requires |bytes| >= 12
  {
    var top := Be16(bytes[4], bytes[5]);
    var left := Be16(bytes[6], bytes[7]);
    var bottom := Be16(bytes[8], bytes[9]);
    var right := Be16(bytes[10], bytes[11]);
    Head(Be24(bytes[1], bytes[2], bytes[3]),
         if top == 0 then Rect(left, y0, right, y0 + bottom) else Rect(left, top, right, bottom))
  }

  predicate OnPage(rc: Rect, pg: Page) {
    rc.x0 < rc.x1 <= Pad4(pg.width) && rc.y0 < rc.y1 <= Pad4(pg.height)
  }

  /** The rectangles of the strips of a frame that a decoder would draw if every strip were whole. */
  function StripRects(bytes: seq<byte>, n: nat, y0: nat, pg: Page): seq<Rect>
    decreases n
  {
    if n == 0 || |bytes| < 12 then []
    else
      var head := ReadHead(bytes, y0);
      var m := Min(head.size, |bytes|);
      if m <= 12 || !OnPage(head.rc, pg) then []
      else [head.rc] + StripRects(bytes[m..], n - 1, head.rc.y1, pg)
  }

  ghost predicate AllInside(rects: seq<Rect>, pg: Page) {
    forall rc :: rc in rects ==> StaysInside(rc, pg)
  }

  ghost predicate PageFits(rects: seq<Rect>, pg: Page, size: nat) {
    && Pad4(pg.width) <= pg.stride
    && (|| (AllInside(rects, pg) && pg.stride * pg.height <= size)
        || pg.stride * (Pad4(pg.height) + 4) <= size)
  }

  datatype FrameResult = FrameResult(st: State, pic: seq<byte>, code: int)

  function SlotOf(i: nat): nat { if i < MAX_STRIPS then i else MAX_STRIPS - 1 }

  /** The codebooks a strip starts from: its own of the frame before, or those of the strip above. */
  function Inherit(st: State, i: nat, flags: byte): State {
    if 0 < i < MAX_STRIPS && flags % 2 == 0 then st[i := st[i - 1]] else st
  }

  /** What one strip does: the frame ends here, or goes on below with what is left of it. */
  datatype Step =
    | Stop(result: FrameResult)
    | Go(st: State, pic: seq<byte>, rest: seq<byte>, y0: nat)

  ghost function StripStep(st: State, bytes: seq<byte>, i: nat, left: nat, flags: byte, y0: nat,
                           lut: Lut, pic: seq<byte>, pg: Page): (step: Step)
    requires left > 0 && PageFits(StripRects(bytes, left, y0, pg), pg, |pic|)
    ensures step.Stop? ==> |step.result.pic| == |pic|
    ensures step.Go? ==> |step.pic| == |pic| && PageFits(StripRects(step.rest, left - 1, step.y0, pg), pg, |pic|)
  {
    if |bytes| < 12 then Stop(FrameResult(st, pic, CV_E_SHORT))
    else
      var head := ReadHead(bytes, y0);
      var m := Min(head.size, |bytes|);
      if m <= 12 then Stop(FrameResult(st, pic, CV_E_DATA))
      else if !OnPage(head.rc, pg) then Stop(FrameResult(st, pic, CV_E_GEOM))
      else
        StripFitsPage(bytes, left, y0, pg, |pic|);
        var from := Inherit(st, i, flags);
        var strip := DecodeStrip(from[SlotOf(i)], bytes[12..m], lut, pic, head.rc, pg);
        var after := from[SlotOf(i) := strip.books];
        if strip.code != CV_OK then Stop(FrameResult(after, strip.pic, strip.code))
        else Go(after, strip.pic, bytes[m..], head.rc.y1)
  }

  lemma StripFitsPage(bytes: seq<byte>, left: nat, y0: nat, pg: Page, size: nat)
    requires left > 0 && |bytes| >= 12 && PageFits(StripRects(bytes, left, y0, pg), pg, size)
    requires Min(ReadHead(bytes, y0).size, |bytes|) > 12 && OnPage(ReadHead(bytes, y0).rc, pg)
    ensures var head := ReadHead(bytes, y0);
      && StripFits(head.rc, pg, size)
      && PageFits(StripRects(bytes[Min(head.size, |bytes|)..], left - 1, head.rc.y1, pg), pg, size)
  {
    var rects := StripRects(bytes, left, y0, pg);
    var head := ReadHead(bytes, y0);
    assert rects[0] == head.rc;
    assert rects[1..] == StripRects(bytes[Min(head.size, |bytes|)..], left - 1, head.rc.y1, pg);
  }

  ghost function DecodeStrips(st: State, bytes: seq<byte>, i: nat, left: nat, flags: byte, y0: nat,
                              lut: Lut, pic: seq<byte>, pg: Page): (res: FrameResult)
    requires PageFits(StripRects(bytes, left, y0, pg), pg, |pic|)
    ensures |res.pic| == |pic|
    decreases left
  {
    hide PageFits, StripRects;
    if left == 0 then FrameResult(st, pic, CV_OK)
    else
      match StripStep(st, bytes, i, left, flags, y0, lut, pic, pg)
      case Stop(result) => result
      case Go(st', pic', rest, y0') => DecodeStrips(st', rest, i + 1, left - 1, flags, y0', lut, pic', pg)
  }

  /** The strips of a frame: what lies between its ten-byte header and its own length. */
  function FrameBody(data: seq<byte>): seq<byte>
    requires |data| >= 10
  {
    var size := Be24(data[1], data[2], data[3]);
    if size < 10 then [] else data[10..Min(size, |data|)]
  }

  function FrameRects(data: seq<byte>, pg: Page): seq<Rect> {
    if |data| < 10 then []
    else StripRects(FrameBody(data), Be16(data[8], data[9]), 0, pg)
  }

  predicate Drawable(pg: Page) {
    pg.width > 0 && pg.height > 0 && Pad4(pg.width) <= pg.stride
  }

  /** One frame decoded over the picture of the frame before. */
  ghost function DecodeFrame(st: State, data: seq<byte>, lut: Lut, pic: seq<byte>, pg: Page)
    : (res: FrameResult)
    requires Drawable(pg) ==> PageFits(FrameRects(data, pg), pg, |pic|)
    ensures |res.pic| == |pic|
  {
    if |data| < 10 then FrameResult(st, pic, CV_E_SHORT)
    else if !Drawable(pg) then FrameResult(st, pic, CV_E_GEOM)
    else if Be24(data[1], data[2], data[3]) < 10 then FrameResult(st, pic, CV_E_SHORT)
    else DecodeStrips(st, FrameBody(data), 0, Be16(data[8], data[9]), data[0], 0, lut, pic, pg)
  }

  // ---------------------------------------------------------------- bounds

  lemma StripGridFits(rc: Rect, pg: Page, size: nat)
    requires StripFits(rc, pg, size)
    ensures GridFits(GridOf(rc, pg), BlockCount(rc), size)
  {
    assert rc.x0 < rc.x1 && rc.y0 < rc.y1;
    hide StripFits, RowAt, BlockX, BlockY, BlockCount;
    forall k | 0 <= k < BlockCount(rc)
      ensures BlockFits(GridOf(rc, pg), BlockX(GridOf(rc, pg), k), BlockY(GridOf(rc, pg), k), size)
    {
      var row, col := BlockCorner(rc, pg, k);
      BlockRowFits(rc, pg, size, col, row, 0);
      BlockRowFits(rc, pg, size, col, row, 1);
      BlockRowFits(rc, pg, size, col, row, 2);
      BlockRowFits(rc, pg, size, col, row, 3);
    }
  }

  /** The row and column of blocks that a block is in. */
  lemma BlockCorner(rc: Rect, pg: Page, k: nat) returns (row: nat, col: nat)
    requires rc.x0 < rc.x1 && rc.y0 < rc.y1 && k < BlockCount(rc)
    ensures col < CeilDiv4(rc.x1 - rc.x0) && row < CeilDiv4(rc.y1 - rc.y0)
    ensures BlockX(GridOf(rc, pg), k) == rc.x0 + 4 * col && BlockY(GridOf(rc, pg), k) == rc.y0 + 4 * row
  {
    var cols := CeilDiv4(rc.x1 - rc.x0);
    RowIndexBound(k, CeilDiv4(rc.y1 - rc.y0), cols);
    row, col := k / cols, k % cols;
  }

  /** The block in a column and row of a strip's blocks starts inside the strip. */
  lemma InStrip(n: nat, lo: nat, hi: nat)
    requires lo < hi && n < CeilDiv4(hi - lo)
    ensures lo + 4 * n < hi
  {
    var len := hi - lo;
    assert 4 * ((len + 3) / 4) <= len + 3;
  }

  lemma BlockRowFits(rc: Rect, pg: Page, size: nat, col: nat, row: nat, r: nat)
    requires StripFits(rc, pg, size) && r < 4
    requires col < CeilDiv4(rc.x1 - rc.x0) && row < CeilDiv4(rc.y1 - rc.y0)
    ensures RowAt(GridOf(rc, pg), rc.y0 + 4 * row, r, rc.x0 + 4 * col) + 4 <= size
  {
    InStrip(col, rc.x0, rc.x1);
    InStrip(row, rc.y0, rc.y1);
    var x, y := rc.x0 + 4 * col, rc.y0 + 4 * row;
    TargetBound(y, r, pg.height);
    if StaysInside(rc, pg) && pg.stride * pg.height <= size {
      if x + 4 <= pg.stride {
        RowEnd(TargetRow(y, r, pg.height), pg.height, pg.stride, x, 0, size);
      } else {
        ShortOfLast(pg.stride, pg.height, size);
        RowEnd(TargetRow(y, r, pg.height), pg.height - 1, pg.stride, x, 3, size);
      }
    } else {
      SpareRows(pg, size);
      RowEnd(TargetRow(y, r, pg.height), Pad4(pg.height) + 3, pg.stride, x, 3, size);
    }
  }

  lemma ShortOfLast(stride: nat, height: nat, size: nat)
    requires height > 0 && stride >= 3 && stride * height <= size
    ensures stride * (height - 1) + 3 <= size
  {
    LessRow(height - 1, height, stride);
  }

  lemma TargetBound(y: nat, r: nat, height: nat)
    requires y < Pad4(height) && r < 4
    ensures TargetRow(y, r, height) < Pad4(height) + 3
    ensures y < height ==> TargetRow(y, r, height) < height
  {}

  lemma SpareRows(pg: Page, size: nat)
    requires 3 <= pg.stride && pg.stride * (Pad4(pg.height) + 4) <= size
    ensures pg.stride * (Pad4(pg.height) + 3) + 3 <= size
  {
    LessRow(Pad4(pg.height) + 3, Pad4(pg.height) + 4, pg.stride);
  }

  lemma RowEnd(row: nat, rows: nat, stride: nat, x: nat, over: nat, size: nat)
    requires row < rows && x + 4 <= stride + over && stride * rows + over <= size
    ensures row * stride + x + 4 <= size
  {
    LessRow(row, rows, stride);
  }

  lemma AlignedBelowPad(lo: nat, n: nat, size: nat)
    requires lo % 4 == 0 && lo + 4 * n < Pad4(size)
    ensures lo + 4 * n < size && lo + 4 * n + 4 <= Pad4(size)
  {
    var q := lo / 4;
    assert lo == 4 * q;
    var p := (size + 3) / 4;
    assert 4 * (q + n) < 4 * p;
    assert size > 4 * p - 4;
  }

}
