/**
 A Cinepak frame in numbers: which codebooks a strip is painted from, what the bytes of a strip, a codebook and
 a block say, and one frame followed from its bytes to its pixels.
 */
module CinepakFrames {
  import opened Arith
  import opened Bytes
  import opened CinepakSpec
  import opened CinepakFacts

  /** Numbers out of bytes, the highest first. */
  function Two(hi: nat, lo: nat): nat { 256 * hi + lo }

  function Three(b0: nat, b1: nat, b2: nat): nat { 65536 * b0 + 256 * b1 + b2 }

  // ---------------------------------------------------------------- which codebooks

  /** The slot whose codebooks a strip starts from. Those of the strip above, unless the frame's low flag says that
      each has its own; and every strip from the twelfth on has the last. */
  function From(i: nat, flags: byte): nat {
    if i >= 12 then 11 else if i > 0 && flags % 2 == 0 then i - 1 else i
  }

  /** A strip is painted from one slot's codebooks, leaves what it made of them in its own, and touches no
      other slot. */
  lemma StepBooks(st: State, bytes: seq<byte>, i: nat, left: nat, flags: byte, y0: nat,
                  lut: Lut, pic: seq<byte>, pg: Page)
    requires left > 0 && PageFits(StripRects(bytes, left, y0, pg), pg, |pic|)
    requires |bytes| >= 12 && Min(ReadHead(bytes, y0).size, |bytes|) > 12 && OnPage(ReadHead(bytes, y0).rc, pg)
    ensures var head := ReadHead(bytes, y0);
      var m := Min(head.size, |bytes|);
      && StripFits(head.rc, pg, |pic|)
      && (var strip := DecodeStrip(st[From(i, flags)], bytes[12..m], lut, pic, head.rc, pg);
          var after := st[Min(i, 11) := strip.books];
          StripStep(st, bytes, i, left, flags, y0, lut, pic, pg)
          == if strip.code == 0 then Go(after, strip.pic, bytes[m..], head.rc.y1)
             else Stop(FrameResult(after, strip.pic, strip.code)))
  {
    hide ReadHead, PageFits, StripRects, OnPage, StripFits, DecodeStrip;
    StripFitsPage(bytes, left, y0, pg, |pic|);
    Inherited(st, i, flags);
    var from := Inherit(st, i, flags);
    var m := Min(ReadHead(bytes, y0).size, |bytes|);
    var strip := DecodeStrip(st[From(i, flags)], bytes[12..m], lut, pic, ReadHead(bytes, y0).rc, pg);
    assert from[SlotOf(i) := strip.books] == st[Min(i, 11) := strip.books];
  }

  lemma Inherited(st: State, i: nat, flags: byte)
    ensures Inherit(st, i, flags)[SlotOf(i)] == st[From(i, flags)] && SlotOf(i) == Min(i, 11)
    ensures forall k :: 0 <= k < 12 && k != Min(i, 11) ==> Inherit(st, i, flags)[k] == st[k]
  {}

  /** A strip without a codebook of its own. */
  predicate OnlyBlocks(chunks: seq<byte>) {
    && |chunks| >= 4 && (chunks[0] == 0x30 || chunks[0] == 0x31 || chunks[0] == 0x32)
    && Three(chunks[1], chunks[2], chunks[3]) >= 4
  }

  /** The blocks of such a strip. */
  function BlocksOf(chunks: seq<byte>, rc: Rect): Run
    requires OnlyBlocks(chunks) && rc.x0 < rc.x1 && rc.y0 < rc.y1
  {
    var n := Min(Three(chunks[1], chunks[2], chunks[3]), |chunks|);
    ReadBlocks(chunks[0], Source(chunks[4..n], []), (rc.y1 - rc.y0 + 3) / 4 * ((rc.x1 - rc.x0 + 3) / 4))
  }

  lemma BlocksAlone(books: Books, chunks: seq<byte>, lut: Lut, pic: seq<byte>, rc: Rect, pg: Page)
    requires StripFits(rc, pg, |pic|) && OnlyBlocks(chunks)
    ensures rc.x0 < rc.x1 && rc.y0 < rc.y1 && GridFits(GridOf(rc, pg), |BlocksOf(chunks, rc).blocks|, |pic|)
    ensures DecodeStrip(books, chunks, lut, pic, rc, pg)
         == StripResult(books, Paint(pic, GridOf(rc, pg), BlocksOf(chunks, rc).blocks, books),
                        if BlocksOf(chunks, rc).complete then 0 else -3)
  {
    assert rc.x0 < rc.x1 && rc.y0 < rc.y1;
    hide ReadBlocks, Paint, StripFits, GridFits, GridOf;
    StripGridFits(rc, pg, |pic|);
    FewerFit(GridOf(rc, pg), |BlocksOf(chunks, rc).blocks|, BlockCount(rc), |pic|);
  }

  /** A strip with no codebook of its own is painted from the codebooks the strip above ended with when the
      frame's low flag is clear, and from its own when it is set. */
  lemma PaintedFrom(st: State, bytes: seq<byte>, i: nat, left: nat, flags: byte, y0: nat,
                    lut: Lut, pic: seq<byte>, pg: Page)
    requires left > 0 && PageFits(StripRects(bytes, left, y0, pg), pg, |pic|)
    requires |bytes| >= 12 && Min(ReadHead(bytes, y0).size, |bytes|) > 12 && OnPage(ReadHead(bytes, y0).rc, pg)
    requires OnlyBlocks(bytes[12..Min(ReadHead(bytes, y0).size, |bytes|)])
    ensures var rc := ReadHead(bytes, y0).rc;
      var run := BlocksOf(bytes[12..Min(ReadHead(bytes, y0).size, |bytes|)], rc);
      && GridFits(GridOf(rc, pg), |run.blocks|, |pic|)
      && (var books := st[if i >= 12 then 11 else if i > 0 && flags % 2 == 0 then i - 1 else i];
          var painted := Paint(pic, GridOf(rc, pg), run.blocks, books);
          match StripStep(st, bytes, i, left, flags, y0, lut, pic, pg)
          case Go(after, now, _, _) => run.complete && now == painted && after == st[Min(i, 11) := books]
          case Stop(res) => !run.complete && res.pic == painted && res.code == -3 && res.st == st[Min(i, 11) := books])
  {
    hide ReadHead, PageFits, StripRects, OnPage, StripFits, DecodeStrip, StripStep, GridFits, Paint;
    hide ReadBlocks, OnlyBlocks;
    StepBooks(st, bytes, i, left, flags, y0, lut, pic, pg);
    var rc, m := ReadHead(bytes, y0).rc, Min(ReadHead(bytes, y0).size, |bytes|);
    BlocksAlone(st[From(i, flags)], bytes[12..m], lut, pic, rc, pg);
  }

  /** A strip's rectangle, and the chunks between its header and its end. */
  function PlaceOf(bytes: seq<byte>, y0: nat): Rect
    requires |bytes| >= 12
  {
    ReadHead(bytes, y0).rc
  }

  function ChunksOf(bytes: seq<byte>): seq<byte>
    requires |bytes| >= 12
  {
    var m := Min(Three(bytes[1], bytes[2], bytes[3]), |bytes|);
    if m < 12 then [] else bytes[12..m]
  }

  /** One strip after another in a frame. What the first made of its codebooks is what the second is painted from
      if the frame's low flag is clear; if it is set, the second's are as they were before the first. */
  lemma CarriesOn(st: State, bytes: seq<byte>, i: nat, left: nat, flags: byte, y0: nat,
                  lut: Lut, pic: seq<byte>, pg: Page,
                  below: Step)
    requires left > 1 && PageFits(StripRects(bytes, left, y0, pg), pg, |pic|) && i < 11
    requires below == StripStep(st, bytes, i, left, flags, y0, lut, pic, pg) && below.Go?
    requires |below.rest| >= 12 && OnlyBlocks(ChunksOf(below.rest)) && OnPage(PlaceOf(below.rest, below.y0), pg)
    ensures |bytes| >= 12 && StripFits(PlaceOf(bytes, y0), pg, |pic|)
    ensures var rc := PlaceOf(below.rest, below.y0);
      var blocks := BlocksOf(ChunksOf(below.rest), rc).blocks;
      var above := if i > 0 && flags % 2 == 0 then st[i - 1] else st[i];
      var ended := DecodeStrip(above, ChunksOf(bytes), lut, pic, PlaceOf(bytes, y0), pg).books;
      var now := StripStep(below.st, below.rest, i + 1, left - 1, flags, below.y0, lut, below.pic, pg);
      && GridFits(GridOf(rc, pg), |blocks|, |below.pic|)
      && (if now.Go? then now.pic else now.result.pic)
         == Paint(below.pic, GridOf(rc, pg), blocks, if flags % 2 == 0 then ended else st[i + 1])
  {
    hide ReadHead, PageFits, StripRects, OnPage, StripFits, DecodeStrip, StripStep, GridFits, Paint;
    hide ReadBlocks, OnlyBlocks;
    GoneOn(st, bytes, i, left, flags, y0, lut, pic, pg);
    SizeOf(bytes, y0);
    SizeOf(below.rest, below.y0);
    StepBooks(st, bytes, i, left, flags, y0, lut, pic, pg);
    OnlyBlocksLong(ChunksOf(below.rest));
    PaintedFrom(below.st, below.rest, i + 1, left - 1, flags, below.y0, lut, below.pic, pg);
  }

  lemma OnlyBlocksLong(chunks: seq<byte>)
    requires OnlyBlocks(chunks)
    ensures |chunks| >= 4
  {}

  lemma SizeOf(bytes: seq<byte>, y0: nat)
    requires |bytes| >= 12
    ensures ReadHead(bytes, y0).size == Three(bytes[1], bytes[2], bytes[3])
  {}

  lemma GoneOn(st: State, bytes: seq<byte>, i: nat, left: nat, flags: byte, y0: nat, lut: Lut, pic: seq<byte>, pg: Page)
    requires left > 0 && PageFits(StripRects(bytes, left, y0, pg), pg, |pic|)
    requires StripStep(st, bytes, i, left, flags, y0, lut, pic, pg).Go?
    ensures |bytes| >= 12 && Min(ReadHead(bytes, y0).size, |bytes|) > 12 && OnPage(ReadHead(bytes, y0).rc, pg)
  {
    hide ReadHead, PageFits, StripRects, OnPage, DecodeStrip, Inherit;
  }

  // ---------------------------------------------------------------- what bytes say

  /** A strip's header: its length, and its edges, big-endian. A top edge of 0 says to go on where the strip
      above ended, and its bottom edge is then how far. */
  lemma HeadSays(bytes: seq<byte>, y0: nat)
    requires |bytes| >= 12
    ensures var head := ReadHead(bytes, y0);
      && head.size == Three(bytes[1], bytes[2], bytes[3])
      && head.rc.x0 == Two(bytes[6], bytes[7]) && head.rc.x1 == Two(bytes[10], bytes[11])
      && (bytes[4] == 0 && bytes[5] == 0 ==> head.rc.y0 == y0 && head.rc.y1 == y0 + Two(bytes[8], bytes[9]))
      && (bytes[4] != 0 || bytes[5] != 0 ==>
            head.rc.y0 == Two(bytes[4], bytes[5]) && head.rc.y1 == Two(bytes[8], bytes[9]))
  {}

  /** A byte's flags are its bits, the highest first, and a word's those of its bytes in turn. */
  lemma FlagsSay(b: byte, c: byte, d: byte, e: byte)
    ensures var f := WordFlags(b, c, d, e);
      && (forall k :: 0 <= k < 8 ==> f[k] == ByteFlags(b)[k] && f[8 + k] == ByteFlags(c)[k])
      && (forall k :: 0 <= k < 8 ==> f[16 + k] == ByteFlags(d)[k] && f[24 + k] == ByteFlags(e)[k])
    ensures var f := ByteFlags(b);
      b == Bit(f[0], 128) + Bit(f[1], 64) + Bit(f[2], 32) + Bit(f[3], 16)
           + Bit(f[4], 8) + Bit(f[5], 4) + Bit(f[6], 2) + Bit(f[7], 1)
  {
    ByteSays(b);
  }

  function Bit(f: bool, n: nat): nat { if f then n else 0 }

  lemma ByteSays(b: byte)
    ensures var f := ByteFlags(b);
      b == Bit(f[0], 128) + Bit(f[1], 64) + Bit(f[2], 32) + Bit(f[3], 16)
           + Bit(f[4], 8) + Bit(f[5], 4) + Bit(f[6], 2) + Bit(f[7], 1)
  {
    FlagsAre(b);
    Bits(b);
    hide ByteFlags;
  }

  lemma FlagsAre(b: byte)
    ensures var f, n: nat := ByteFlags(b), b;
      && Bit(f[7], 1) == n % 2 && Bit(f[6], 2) == 2 * (n / 2 % 2) && Bit(f[5], 4) == 4 * (n / 4 % 2)
      && Bit(f[4], 8) == 8 * (n / 8 % 2) && Bit(f[3], 16) == 16 * (n / 16 % 2) && Bit(f[2], 32) == 32 * (n / 32 % 2)
      && Bit(f[1], 64) == 64 * (n / 64 % 2) && Bit(f[0], 128) == 128 * (n / 128 % 2)
  {}

  lemma Bits(n: nat)
    requires n < 256
    ensures n == n % 2 + 2 * (n / 2 % 2) + 4 * (n / 4 % 2) + 8 * (n / 8 % 2) + 16 * (n / 16 % 2) + 32 * (n / 32 % 2)
                 + 64 * (n / 64 % 2) + 128 * (n / 128 % 2)
  {
    LowBits(n);
    HighBits(n / 16);
  }

  lemma LowBits(n: nat)
    ensures n == n % 2 + 2 * (n / 2 % 2) + 4 * (n / 4 % 2) + 8 * (n / 8 % 2) + 16 * (n / 16)
    ensures n / 16 / 2 == n / 32 && n / 16 / 4 == n / 64 && n / 16 / 8 == n / 128
  {
    Halving(n, 1);
    Halving(n / 2, 2);
    Halving(n / 4, 4);
    Halving(n / 8, 8);
    Quarters(n);
  }

  lemma Halving(n: nat, w: nat)
    ensures w * n == w * (n % 2) + 2 * w * (n / 2)
  {
    assert n == n % 2 + 2 * (n / 2);
  }

  lemma Quarters(n: nat)
    ensures n / 2 / 2 == n / 4 && n / 4 / 2 == n / 8 && n / 8 / 2 == n / 16
    ensures n / 16 / 2 == n / 32 && n / 16 / 4 == n / 64 && n / 16 / 8 == n / 128
  {}

  lemma HighBits(n: nat)
    requires n < 16
    ensures n == n % 2 + 2 * (n / 2 % 2) + 4 * (n / 4 % 2) + 8 * (n / 8 % 2)
  {}

  /** What a block costs in each kind of chunk: one index in 0x32; in 0x30 a flag that says whether one index
      follows or four; and in 0x31 a flag before that one that says whether anything does. */
  lemma BlocksSay(b: byte, c: byte, d: byte, e: byte, i: byte, j: byte, k: byte, l: byte)
    ensures ReadBlocks(0x32, Source([i], []), 1) == Run([V1(i)], true)
    ensures ReadBlocks(0x30, Source([b, c, d, e, i, j, k, l], []), 1)
         == Run([if b / 128 == 1 then V4(i, j, k, l) else V1(i)], true)
    ensures ReadBlocks(0x31, Source([b, c, d, e, i, j, k, l], []), 1)
         == Run([if b / 128 == 0 then Skip else if b / 64 == 3 then V4(i, j, k, l) else V1(i)], true)
    ensures ReadBlocks(0x31, Source([b, c, d, e], []), 1)
         == if b / 128 == 0 then Run([Skip], true) else Run([], b / 128 == 0)
  {
    hide ReadBlocks, WordFlags, ReadBlock;
    OneRead(0x32, [i]);
    OneRead(0x30, [b, c, d, e, i, j, k, l]);
    OneRead(0x31, [b, c, d, e, i, j, k, l]);
    OneRead(0x31, [b, c, d, e]);
    PlainBlock(i);
    ChosenBlock(b, c, d, e, i, j, k, l);
    assert [b, c, d, e] + [i, j, k, l] == [b, c, d, e, i, j, k, l] && [b, c, d, e] + [] == [b, c, d, e];
    CodedBlock(b, c, d, e, [i, j, k, l]);
    CodedBlock(b, c, d, e, []);
    CodedCosts(b, c, d, e, [i, j, k, l]);
    CodedCosts(b, c, d, e, []);
  }

  lemma PlainBlock(i: byte)
    ensures ReadBlock(0x32, Source([i], [])) == Some(BlockRead(V1(i), Source([], [])))
  {
    assert [i][1..] == [];
  }

  lemma FirstFlags(b: byte, c: byte, d: byte, e: byte)
    ensures WordFlags(b, c, d, e)[0] == (b / 128 == 1) && WordFlags(b, c, d, e)[1..][0] == (b / 64 % 2 == 1)
    ensures WordFlags(b, c, d, e)[1..] != []
  {}

  lemma ChosenBlock(b: byte, c: byte, d: byte, e: byte, i: byte, j: byte, k: byte, l: byte)
    ensures var r := ReadBlock(0x30, Source([b, c, d, e, i, j, k, l], []));
      r.Some? && r.value.block == if b / 128 == 1 then V4(i, j, k, l) else V1(i)
  {
    hide WordFlags;
    FirstFlags(b, c, d, e);
    assert [b, c, d, e, i, j, k, l][4..] == [i, j, k, l];
  }

  lemma CodedBlock(b: byte, c: byte, d: byte, e: byte, tail: seq<byte>)
    ensures ReadBlock(0x31, Source([b, c, d, e] + tail, []))
         == if b / 128 == 0 then Some(BlockRead(Skip, Source(tail, WordFlags(b, c, d, e)[1..])))
            else ReadCoded(0x31, Source(tail, WordFlags(b, c, d, e)[1..]))
  {
    hide WordFlags, ReadCoded;
    FirstFlags(b, c, d, e);
    assert ([b, c, d, e] + tail)[4..] == tail;
  }

  lemma CodedCosts(b: byte, c: byte, d: byte, e: byte, tail: seq<byte>)
    ensures var r := ReadCoded(0x31, Source(tail, WordFlags(b, c, d, e)[1..]));
      && (|tail| >= 4 ==>
            r.Some? && r.value.block == if b / 64 % 2 == 1 then V4(tail[0], tail[1], tail[2], tail[3]) else V1(tail[0]))
      && (tail == [] ==> r.None?)
  {
    hide WordFlags;
    FirstFlags(b, c, d, e);
  }

  lemma OneRead(id: byte, bytes: seq<byte>)
    ensures ReadBlocks(id, Source(bytes, []), 1)
         == match ReadBlock(id, Source(bytes, []))
            case None => Run([], false)
            case Some(r) => Run([r.block], true)
  {
    hide ReadBlock;
    match ReadBlock(id, Source(bytes, []))
    case None =>
    case Some(r) => assert ReadBlocks(id, r.rest, 0) == Run([], true);
  }

  /** The chunks that draw, those that change one of the codebooks, and how many bytes an entry of it takes. */
  lemma ChunksSay(id: byte, chunk: Source, books: Books, lut: Lut)
    ensures id in BLOCK_CHUNKS <==> 48 <= id <= 50
    ensures var after := ChunkBooks(id, chunk, books, lut);
      && after.v4 == (if id / 8 == 4 && id / 2 % 2 == 0 then UpdateBook(id, chunk, 0, books.v4, lut) else books.v4)
      && after.v1 == (if id / 8 == 4 && id / 2 % 2 == 1 then UpdateBook(id, chunk, 0, books.v1, lut) else books.v1)
    ensures id / 8 == 4 ==>
      EntrySize(id) == (if id % 8 >= 4 then 4 else 6) && (Partial(id) <==> id == 33 || id == 35 || id == 37 || id == 39)
  {
    hide UpdateBook;
  }

  /** One of five bits of a colour, from a value that may lie outside a byte. */
  function Five(v: int): nat { Min(31, Max(0, v / 8)) }

  /** The table's entry for a brightness and two signed colour differences. */
  function Shade(y: byte, u: byte, v: byte, lut: Lut): byte {
    var us, vs := (u + 128) % 256 - 128, (v + 128) % 256 - 128;
    var half := (us + (if us < 0 then 1 else 0)) / 2;
    lut[1024 * Five(y + 2 * vs) + 32 * Five(y - half - vs) + Five(y + 2 * us)]
  }

  /** An entry's four places in raster order: greys, or brightnesses that share two colour differences. */
  lemma EntriesSay(id: byte, bytes: seq<byte>, lut: Lut)
    requires |bytes| >= 6
    ensures id / 4 % 2 == 0 ==>
      ReadEntry(id, bytes, lut)
      == Entry(Shade(bytes[0], bytes[4], bytes[5], lut), Shade(bytes[1], bytes[4], bytes[5], lut),
               Shade(bytes[2], bytes[4], bytes[5], lut), Shade(bytes[3], bytes[4], bytes[5], lut))
    ensures id / 4 % 2 == 1 ==>
      ReadEntry(id, bytes, lut)
      == Entry(lut[bytes[0] / 8 * 1057], lut[bytes[1] / 8 * 1057], lut[bytes[2] / 8 * 1057], lut[bytes[3] / 8 * 1057])
  {
    hide Shade, Colour, Signed;
    ShadeIs(bytes[0], bytes[4], bytes[5], lut);
    ShadeIs(bytes[1], bytes[4], bytes[5], lut);
    ShadeIs(bytes[2], bytes[4], bytes[5], lut);
    ShadeIs(bytes[3], bytes[4], bytes[5], lut);
  }

  lemma ShadeIs(y: byte, u: byte, v: byte, lut: Lut)
    ensures Colour(y, Signed(u), Signed(v), lut) == Shade(y, u, v, lut)
  {
    SignedIs(u);
    SignedIs(v);
    hide Clip, Five, Signed, Halved;
    FiveIs(y + 2 * Signed(v));
    FiveIs(y - Halved(Signed(u)) - Signed(v));
    FiveIs(y + 2 * Signed(u));
  }

  lemma SignedIs(u: byte)
    ensures var us := (u + 128) % 256 - 128;
      Signed(u) == us && Halved(Signed(u)) == (us + (if us < 0 then 1 else 0)) / 2
  {}

  lemma FiveIs(v: int)
    ensures Clip(v) / 8 == Five(v)
  {}

  /** A block is four by four pixels: an entry with each of its places doubled, or four entries. */
  lemma BlockSays(books: Books, i: byte, tl: byte, tr: byte, bl: byte, br: byte, row: nat, col: nat)
    requires row < 4 && col < 4
    ensures var e := books.v1[i];
      BlockPixel(V1(i), books, row, col)
      == if row < 2 then (if col < 2 then e.tl else e.tr) else (if col < 2 then e.bl else e.br)
    ensures var e := books.v4[if row < 2 then (if col < 2 then tl else tr) else (if col < 2 then bl else br)];
      BlockPixel(V4(tl, tr, bl, br), books, row, col)
      == if row == 0 || row == 2 then (if col == 0 || col == 2 then e.tl else e.tr)
         else (if col == 0 || col == 2 then e.bl else e.br)
  {}

  /** The number of the block over a pixel of a strip. */
  function BlockNumber(rc: Rect, x: nat, y: nat): nat
    requires rc.x0 <= x && rc.y0 <= y && rc.x0 < rc.x1
  {
    (y - rc.y0) / 4 * ((rc.x1 - rc.x0 + 3) / 4) + (x - rc.x0) / 4
  }

  predicate InBlocks(rc: Rect, pg: Page, x: nat, y: nat) {
    && rc.x0 < rc.x1 && rc.x0 <= x < rc.x0 + 4 * ((rc.x1 - rc.x0 + 3) / 4)
    && rc.y0 <= y < pg.height && x < pg.stride
  }

  /** The pixel at a place of a painted strip is one of its block's, the block's last row standing for the
      picture's last row where the block hangs over the edge. */
  lemma StripPixel(pic: seq<byte>, rc: Rect, pg: Page, blocks: seq<Block>, books: Books, x: nat, y: nat, at: nat)
    requires InBlocks(rc, pg, x, y) && at == y * pg.stride + x < |pic|
    requires GridFits(GridOf(rc, pg), |blocks|, |pic|) && Tidy(GridOf(rc, pg), |blocks|)
    ensures var k := BlockNumber(rc, x, y);
      Paint(pic, GridOf(rc, pg), blocks, books)[at]
      == if k < |blocks| && !blocks[k].Skip? then
           BlockPixel(blocks[k], books, RowOver(rc.y0, y, pg.height), (x - rc.x0) % 4)
         else pic[at]
  {
    hide GridFits, Tidy, Paint, BlockPixel, BlockX, BlockY, BlockOver;
    var g := GridOf(rc, pg);
    BlockPlace(g, x, y);
    OverIs(g, x, y);
    RowIs(rc.y0, y, pg.height);
    PaintedPixel(pic, g, blocks, books, x, y, at);
  }

  /** Which row of its block a picture row shows. */
  function RowOver(y0: nat, y: nat, height: nat): (r: nat)
    requires y0 <= y < height
    ensures r < 4
  {
    if y == height - 1 then 3 else (y - y0) % 4
  }

  lemma RowIs(y0: nat, y: nat, height: nat)
    requires y0 <= y < height
    ensures y0 + (y - y0) / 4 * 4 <= y < y0 + (y - y0) / 4 * 4 + 4
    ensures ShownRow(y0 + (y - y0) / 4 * 4, y, height) == RowOver(y0, y, height)
  {}

  lemma OverIs(g: Grid, x: nat, y: nat)
    requires g.x0 <= x && g.y0 <= y
    ensures BlockOver(g, x, y) == (y - g.y0) / 4 * g.cols + (x - g.x0) / 4
  {}

  lemma BlockPlace(g: Grid, x: nat, y: nat)
    requires g.cols > 0 && g.x0 <= x < g.x0 + 4 * g.cols && g.y0 <= y
    ensures BlockX(g, BlockOver(g, x, y)) == g.x0 + (x - g.x0) / 4 * 4
    ensures BlockY(g, BlockOver(g, x, y)) == g.y0 + (y - g.y0) / 4 * 4
  {
    var row, col := (y - g.y0) / 4, (x - g.x0) / 4;
    QuotientIs(BlockOver(g, x, y), g.cols, row, col);
  }

  /** Which picture row a block's row is written to: its own, or the last row above the edge for one that hangs
      over it; of a block on the edge all are written there, and of one below it each to its own. */
  lemma RowsSay(y: nat, r: nat, height: nat)
    requires r < 4 && height > 0
    ensures y + r < height ==> TargetRow(y, r, height) == y + r
    ensures y < height <= y + r ==> TargetRow(y, r, height) == height - 1
    ensures y == height ==> TargetRow(y, r, height) == y
    ensures y > height ==> TargetRow(y, r, height) == y + r
  {}

  // ---------------------------------------------------------------- codes

  /** Why a frame is not decoded at all, and that one without strips is. */
  lemma FrameCodes(st: State, data: seq<byte>, lut: Lut, pic: seq<byte>, pg: Page)
    requires Drawable(pg) ==> PageFits(FrameRects(data, pg), pg, |pic|)
    ensures var res := DecodeFrame(st, data, lut, pic, pg);
      var whole := pg.width > 0 && pg.height > 0 && (pg.width + 3) / 4 * 4 <= pg.stride;
      && (|data| < 10 ==> res == FrameResult(st, pic, -1))
      && (|data| >= 10 && !whole ==> res == FrameResult(st, pic, -2))
      && (|data| >= 10 && whole && data[1] == 0 && data[2] == 0 && data[3] < 10 ==> res == FrameResult(st, pic, -1))
      && (|data| >= 10 && whole && (data[1] > 0 || data[2] > 0 || data[3] >= 10) && data[8] == 0 && data[9] == 0 ==>
            res == FrameResult(st, pic, 0))
  {
    hide PageFits, StripRects, StripStep;
  }

  /** Why a strip ends the frame before it is drawn. */
  lemma StripCodes(st: State, bytes: seq<byte>, i: nat, left: nat, flags: byte, y0: nat,
                   lut: Lut, pic: seq<byte>, pg: Page)
    requires left > 0 && PageFits(StripRects(bytes, left, y0, pg), pg, |pic|)
    ensures var step := StripStep(st, bytes, i, left, flags, y0, lut, pic, pg);
      && (|bytes| < 12 ==> step == Stop(FrameResult(st, pic, -1)))
      && (|bytes| >= 12 ==>
            var rc, size := ReadHead(bytes, y0).rc, ReadHead(bytes, y0).size;
            var inside := rc.x0 < rc.x1 <= (pg.width + 3) / 4 * 4 && rc.y0 < rc.y1 <= (pg.height + 3) / 4 * 4;
            && (size <= 12 || |bytes| == 12 ==> step == Stop(FrameResult(st, pic, -3)))
            && (size > 12 && |bytes| > 12 && !inside ==> step == Stop(FrameResult(st, pic, -2))))
  {
    hide PageFits, StripRects, ReadHead, DecodeStrip, Inherit;
  }

  /** A strip ends with its block chunk, and one that has none, or a chunk shorter than its own header, has failed. */
  lemma ChunkCodes(books: Books, bytes: seq<byte>, lut: Lut, pic: seq<byte>, rc: Rect, pg: Page)
    requires StripFits(rc, pg, |pic|)
    requires |bytes| < 4 || Three(bytes[1], bytes[2], bytes[3]) < 4
    ensures DecodeStrip(books, bytes, lut, pic, rc, pg) == StripResult(books, pic, -3)
  {
    hide StripFits;
  }

  /** A chunk that is longer than what is left of its strip ends with the strip. */
  lemma LongChunk(books: Books, a: seq<byte>, b: seq<byte>, lut: Lut, pic: seq<byte>, rc: Rect, pg: Page)
    requires StripFits(rc, pg, |pic|) && |a| >= 4 && |b| >= 4 && a[0] == b[0] && a[4..] == b[4..]
    requires Three(a[1], a[2], a[3]) >= |a| && Three(b[1], b[2], b[3]) >= |b|
    ensures DecodeStrip(books, a, lut, pic, rc, pg) == DecodeStrip(books, b, lut, pic, rc, pg)
  {
    hide StripFits, ReadBlocks, ChunkBooks, Paint, GridFits;
    assert |a| == |a[4..]| + 4 && |b| == |b[4..]| + 4;
    assert a[4..|a|] == a[4..] && b[4..|b|] == b[4..];
    assert a[|a|..] == [] && b[|b|..] == [];
  }

  /** What a container has put behind a frame is not the frame's. */
  lemma PaddingIgnored(st: State, data: seq<byte>, padding: seq<byte>, lut: Lut, pic: seq<byte>, pg: Page)
    requires |data| >= 10 && Three(data[1], data[2], data[3]) <= |data|
    requires Drawable(pg) ==> PageFits(FrameRects(data, pg), pg, |pic|)
    ensures FrameRects(data + padding, pg) == FrameRects(data, pg)
    ensures DecodeFrame(st, data + padding, lut, pic, pg) == DecodeFrame(st, data, lut, pic, pg)
  {
    hide PageFits, StripRects, DecodeStrips;
    assert FrameBody(data + padding) == FrameBody(data);
  }

  // ---------------------------------------------------------------- one frame, from its bytes to its pixels

  const PAGE := Page(4, 4, 8)

  /** A strip's header, four wide and four high, below the strip before it. */
  function StripHead(id: byte, size: byte): (h: seq<byte>)
    ensures |h| == 12
  {
    [id, 0, 0, size, 0, 0, 0, 0, 0, 4, 0, 4]
  }

  /** A codebook chunk with one entry in colour, and a chunk of one block that names it. */
  function BookChunk(entry: seq<byte>): (c: seq<byte>)
    requires |entry| == 6
    ensures |c| == 10
  {
    [0x22, 0, 0, 10] + entry
  }

  const BLOCK: seq<byte> := [0x32, 0, 0, 5, 0]

  function FirstStrip(entry: seq<byte>): (s: seq<byte>)
    requires |entry| == 6
    ensures |s| == 27
  {
    StripHead(0x10, 27) + (BookChunk(entry) + BLOCK)
  }

  function SecondStrip(): (s: seq<byte>)
    ensures |s| == 17
  {
    StripHead(0x11, 17) + BLOCK
  }

  function TwoStrips(flags: byte, entry: seq<byte>): (f: seq<byte>)
    requires |entry| == 6
    ensures |f| == 54
  {
    [flags, 0, 0, 54, 0, 4, 0, 8, 0, 2] + (FirstStrip(entry) + SecondStrip())
  }

  /** The colours an entry's bytes say. */
  function Shown(entry: seq<byte>, lut: Lut): Entry
    requires |entry| == 6
  {
    Entry(Shade(entry[0], entry[4], entry[5], lut), Shade(entry[1], entry[4], entry[5], lut),
          Shade(entry[2], entry[4], entry[5], lut), Shade(entry[3], entry[4], entry[5], lut))
  }

  lemma OneBlockStrip(books: Books, lut: Lut, pic: seq<byte>, rc: Rect, pg: Page)
    requires StripFits(rc, pg, |pic|) && BlockCount(rc) == 1
    ensures rc.x0 < rc.x1 && GridFits(GridOf(rc, pg), 1, |pic|)
    ensures DecodeStrip(books, BLOCK, lut, pic, rc, pg)
         == StripResult(books, Paint(pic, GridOf(rc, pg), [V1(0)], books), 0)
  {
    hide Paint, StripFits, GridFits, ReadBlocks, GridOf, DecodeStrip, BlocksOf, BlockCount;
    BlocksAlone(books, BLOCK, lut, pic, rc, pg);
    OneBlockRead(rc);
  }

  lemma OneBlockRead(rc: Rect)
    requires rc.x0 < rc.x1 && rc.y0 < rc.y1 && BlockCount(rc) == 1
    ensures BlocksOf(BLOCK, rc) == Run([V1(0)], true)
  {
    hide ReadBlocks, ReadBlock;
    assert BLOCK[4..5] == [0];
    OneRead(0x32, [0]);
    PlainBlock(0);
  }

  lemma BookStrip(books: Books, entry: seq<byte>, lut: Lut, pic: seq<byte>, rc: Rect, pg: Page)
    requires |entry| == 6 && StripFits(rc, pg, |pic|) && BlockCount(rc) == 1
    ensures rc.x0 < rc.x1 && GridFits(GridOf(rc, pg), 1, |pic|)
    ensures var after := books.(v1 := books.v1[0 := Shown(entry, lut)]);
      DecodeStrip(books, BookChunk(entry) + BLOCK, lut, pic, rc, pg)
      == StripResult(after, Paint(pic, GridOf(rc, pg), [V1(0)], after), 0)
  {
    hide Paint, StripFits, GridFits, ReadBlocks, GridOf, UpdateBook, Shown, BlockCount, ChunkBooks;
    var bytes := BookChunk(entry) + BLOCK;
    assert bytes[0] == 0x22 && bytes[1] == 0 && bytes[2] == 0 && bytes[3] == 10 && bytes[4..10] == entry;
    assert bytes[10..] == BLOCK;
    ChunksSay(0x22, Source(entry, []), books, lut);
    OneEntry(entry, books.v1, lut);
    var after := books.(v1 := books.v1[0 := Shown(entry, lut)]);
    assert ChunkBooks(0x22, Source(entry, []), books, lut) == after;
    assert DecodeStrip(books, bytes, lut, pic, rc, pg) == DecodeStrip(after, BLOCK, lut, pic, rc, pg);
    OneBlockStrip(after, lut, pic, rc, pg);
  }

  lemma OneEntry(entry: seq<byte>, book: Book, lut: Lut)
    requires |entry| == 6
    ensures UpdateBook(0x22, Source(entry, []), 0, book, lut) == book[0 := Shown(entry, lut)]
  {
    hide ReadEntry, Shade;
    EntriesSay(0x22, entry, lut);
    assert entry[6..] == [];
  }

  lemma PageRoom(pic: seq<byte>, rects: seq<Rect>)
    requires |pic| == 32 && forall rc :: rc in rects ==> rc == Rect(0, 0, 4, 4) || rc == Rect(0, 4, 4, 8)
    ensures PageFits(rects, PAGE, 32)
  {}

  lemma HeadsRead(entry: seq<byte>, rest: seq<byte>, y0: nat)
    requires |entry| == 6
    ensures ReadHead(FirstStrip(entry) + rest, y0) == Head(27, Rect(0, y0, 4, y0 + 4))
    ensures ReadHead(SecondStrip(), y0) == Head(17, Rect(0, y0, 4, y0 + 4))
  {}

  lemma RectsRead(entry: seq<byte>)
    requires |entry| == 6
    ensures StripRects(FirstStrip(entry) + SecondStrip(), 2, 0, PAGE) == [Rect(0, 0, 4, 4), Rect(0, 4, 4, 8)]
    ensures StripRects(SecondStrip(), 1, 4, PAGE) == [Rect(0, 4, 4, 8)]
  {
    hide ReadHead, FirstStrip, SecondStrip;
    var both := FirstStrip(entry) + SecondStrip();
    HeadsRead(entry, SecondStrip(), 0);
    HeadsRead(entry, SecondStrip(), 4);
    assert both[27..] == SecondStrip();
    NoRects(both, 8);
  }

  lemma NoRects(bytes: seq<byte>, y0: nat)
    ensures forall b: seq<byte> :: StripRects(b, 0, y0, PAGE) == []
  {}

  /** The frame's strips, and the room they have. */
  lemma FrameOpens(st: State, flags: byte, entry: seq<byte>, both: seq<byte>, lut: Lut, pic: seq<byte>)
    requires |entry| == 6 && |pic| == 32 && both == FirstStrip(entry) + SecondStrip()
    ensures PageFits(StripRects(both, 2, 0, PAGE), PAGE, |pic|)
    ensures PageFits(FrameRects(TwoStrips(flags, entry), PAGE), PAGE, |pic|)
    ensures DecodeFrame(st, TwoStrips(flags, entry), lut, pic, PAGE)
         == DecodeStrips(st, both, 0, 2, flags, 0, lut, pic, PAGE)
  {
    hide StripRects, PageFits, FirstStrip, SecondStrip, DecodeStrips;
    var data := TwoStrips(flags, entry);
    assert data[10..54] == both;
    assert data[0] == flags && data[3] == 54 && data[9] == 2;
    RectsRead(entry);
    PageRoom(pic, [Rect(0, 0, 4, 4), Rect(0, 4, 4, 8)]);
  }

  lemma GridsFit()
    ensures GridFits(TOP, 1, 32) && GridFits(BOTTOM, 1, 32)
  {}

  /** The first block of two books, one under the other. */
  ghost function BothPainted(pic: seq<byte>, first: Books, second: Books): (p: seq<byte>)
    requires |pic| == 32
    ensures |p| == 32
  {
    GridsFit();
    Paint(Paint(pic, TOP, [V1(0)], first), BOTTOM, [V1(0)], second)
  }

  /** What they paint, and the codebooks they leave. */
  lemma BothStrips(st: State, flags: byte, entry: seq<byte>, both: seq<byte>, last: seq<byte>, lut: Lut,
                   pic: seq<byte>, first: Books, second: Books)
    requires |entry| == 6 && |pic| == 32 && |both| > 27
    requires both[12..27] == BookChunk(entry) + BLOCK && both[27..] == last
    requires |last| == 17 && last[12..17] == BLOCK
    requires ReadHead(both, 0) == Head(27, Rect(0, 0, 4, 4)) && ReadHead(last, 4) == Head(17, Rect(0, 4, 4, 8))
    requires PageFits(StripRects(both, 2, 0, PAGE), PAGE, |pic|) && PageFits(StripRects(last, 1, 4, PAGE), PAGE, |pic|)
    requires first == st[0].(v1 := st[0].v1[0 := Shown(entry, lut)])
    requires second == if flags % 2 == 0 then first else st[1]
    ensures DecodeStrips(st, both, 0, 2, flags, 0, lut, pic, PAGE)
         == FrameResult(st[0 := first][1 := second], BothPainted(pic, first, second), 0)
  {
    hide Paint, GridFits, Shown, StripStep, StripRects, PageFits, DecodeStrips, ReadHead, BookChunk;
    TopStrip(st, both, flags, entry, lut, pic, first);
    var now := Paint(pic, TOP, [V1(0)], first);
    BottomStrip(st[0 := first], last, flags, lut, now, second);
    TwoSteps(st, both, flags, lut, pic, st[0 := first], now, last, 4);
  }

  lemma StripParts(entry: seq<byte>)
    requires |entry| == 6
    ensures var both := FirstStrip(entry) + SecondStrip();
      both[12..27] == BookChunk(entry) + BLOCK && both[27..] == SecondStrip()
  {}

  lemma LastPart()
    ensures SecondStrip()[12..17] == BLOCK
  {}

  const TOP := Grid(0, 0, 1, 4, 8)

  lemma TopStrip(st: State, both: seq<byte>, flags: byte, entry: seq<byte>, lut: Lut, pic: seq<byte>, first: Books)
    requires |entry| == 6 && |both| > 27 && both[12..27] == BookChunk(entry) + BLOCK
    requires ReadHead(both, 0) == Head(27, Rect(0, 0, 4, 4))
    requires PageFits(StripRects(both, 2, 0, PAGE), PAGE, |pic|)
    requires first == st[0].(v1 := st[0].v1[0 := Shown(entry, lut)])
    ensures GridFits(TOP, 1, |pic|)
    ensures StripStep(st, both, 0, 2, flags, 0, lut, pic, PAGE)
         == Go(st[0 := first], Paint(pic, TOP, [V1(0)], first), both[27..], 4)
  {
    hide Paint, GridFits, Shown, StripStep, StripRects, PageFits, ReadHead, DecodeStrip, StripFits, BookChunk;
    StepBooks(st, both, 0, 2, flags, 0, lut, pic, PAGE);
    BookStrip(st[0], entry, lut, pic, Rect(0, 0, 4, 4), PAGE);
  }

  const BOTTOM := Grid(0, 4, 1, 4, 8)

  lemma BottomStrip(st: State, last: seq<byte>, flags: byte, lut: Lut, pic: seq<byte>, second: Books)
    requires |last| == 17 && last[12..17] == BLOCK && ReadHead(last, 4) == Head(17, Rect(0, 4, 4, 8))
    requires PageFits(StripRects(last, 1, 4, PAGE), PAGE, |pic|)
    requires second == if flags % 2 == 0 then st[0] else st[1]
    ensures GridFits(BOTTOM, 1, |pic|)
    ensures StripStep(st, last, 1, 1, flags, 4, lut, pic, PAGE)
         == Go(st[1 := second], Paint(pic, BOTTOM, [V1(0)], second), last[17..], 8)
  {
    hide Paint, GridFits, StripStep, StripRects, PageFits, ReadHead, DecodeStrip, StripFits;
    StepBooks(st, last, 1, 1, flags, 4, lut, pic, PAGE);
    OneBlockStrip(second, lut, pic, Rect(0, 4, 4, 8), PAGE);
  }

  lemma TwoSteps(st: State, bytes: seq<byte>, flags: byte, lut: Lut, pic: seq<byte>, after: State, now: seq<byte>,
                 rest: seq<byte>, y1: nat)
    requires PageFits(StripRects(bytes, 2, 0, PAGE), PAGE, |pic|)
    requires StripStep(st, bytes, 0, 2, flags, 0, lut, pic, PAGE) == Go(after, now, rest, y1)
    ensures |now| == |pic| && PageFits(StripRects(rest, 1, y1, PAGE), PAGE, |pic|)
    ensures var step := StripStep(after, rest, 1, 1, flags, y1, lut, now, PAGE);
      DecodeStrips(st, bytes, 0, 2, flags, 0, lut, pic, PAGE)
      == match step case Stop(res) => res case Go(st', pic', _, _) => FrameResult(st', pic', 0)
  {
    hide StripStep, StripRects, PageFits;
  }

  /** A frame of two strips, the second without a codebook of its own. Where the frame's low flag is clear the
      entry the first brings is what both show; where it is set the second shows the entry its own slot had. */
  lemma TwoStripsShown(st: State, flags: byte, entry: seq<byte>, lut: Lut, pic: seq<byte>, x: nat, y: nat)
    requires |entry| == 6 && |pic| == 32 && x < 4 && y < 8
    ensures PageFits(FrameRects(TwoStrips(flags, entry), PAGE), PAGE, 32)
    ensures var res := DecodeFrame(st, TwoStrips(flags, entry), lut, pic, PAGE);
      var e := if y < 4 || flags % 2 == 0 then Shown(entry, lut) else st[1].v1[0];
      && res.code == 0
      && res.pic[4 * y + x]
         == if y % 4 < 2 then (if x < 2 then e.tl else e.tr) else (if x < 2 then e.bl else e.br)
  {
    hide Paint, GridFits, Shown, DecodeStrips, StripRects, PageFits, TwoStrips, DecodeFrame, BlockPixel, FrameRects;
    hide FirstStrip, SecondStrip, ReadHead, BookChunk;
    var both := FirstStrip(entry) + SecondStrip();
    var first := st[0].(v1 := st[0].v1[0 := Shown(entry, lut)]);
    var second := if flags % 2 == 0 then first else st[1];
    FrameOpens(st, flags, entry, both, lut, pic);
    RectsRead(entry);
    PageRoom(pic, [Rect(0, 4, 4, 8)]);
    HeadsRead(entry, SecondStrip(), 0);
    HeadsRead(entry, [], 4);
    StripParts(entry);
    LastPart();
    BothStrips(st, flags, entry, both, SecondStrip(), lut, pic, first, second);
    GridsFit();
    BlockPainted(pic, 0, first, x, y);
    BlockPainted(Paint(pic, TOP, [V1(0)], first), 4, second, x, y);
    BlockSays(first, 0, 0, 0, 0, 0, y % 4, x);
    BlockSays(second, 0, 0, 0, 0, 0, y % 4, x);
  }

  /** One block on four rows of the page. */
  lemma BlockPainted(pic: seq<byte>, y0: nat, books: Books, x: nat, y: nat)
    requires (y0 == 0 || y0 == 4) && |pic| == 32 && x < 4 && y < 8 && GridFits(Grid(0, y0, 1, 4, 8), 1, 32)
    ensures Paint(pic, Grid(0, y0, 1, 4, 8), [V1(0)], books)[4 * y + x]
         == if y0 <= y < y0 + 4 then BlockPixel(V1(0), books, y % 4, x) else pic[4 * y + x]
  {
    hide Paint, GridFits, BlockPixel, Tidy, CinepakFacts.Drawn, BlockX, BlockY, BlockOver, ShownRow;
    var g := Grid(0, y0, 1, 4, 8);
    OneTidy(g);
    OneDrawn(g, x, y);
    if y0 <= y < y0 + 4 {
      RowIs(y0, y, 8);
    }
    PaintedPixel(pic, g, [V1(0)], books, x, y, 4 * y + x);
  }

  lemma OneTidy(g: Grid)
    requires g.cols == 1 && g.x0 == 0 && g.stride == 4 && g.y0 < g.height
    ensures Tidy(g, 1) && BlockX(g, 0) == 0 && BlockY(g, 0) == g.y0
  {}

  lemma OneDrawn(g: Grid, x: nat, y: nat)
    requires g.cols == 1 && g.x0 == 0 && x < 4
    ensures CinepakFacts.Drawn(g, [V1(0)], x, y) <==> g.y0 <= y < g.y0 + 4
    ensures g.y0 <= y < g.y0 + 4 ==> BlockOver(g, x, y) == 0
  {
    hide BlockOver;
    if g.y0 <= y {
      OverIs(g, x, y);
      assert (y - g.y0) / 4 * 1 == (y - g.y0) / 4 && x / 4 == 0;
    }
  }
}
