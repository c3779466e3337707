/**
 The other side of the flag stream: an encoder that writes a 32-bit flag word, most significant bit
 first, just ahead of the first flag it carries, with the payload bytes interleaved. Whatever it
 writes, the decoder reads back, through both flag readers of chunk 0x31 drawing on one stream.
 */
module CinepakStreams {
  import opened Bytes
  import opened CinepakSpec

  datatype Item = Flag(flag: bool) | Payload(bytes: seq<byte>)

  // ---------------------------------------------------------------- words of flags

  function Bit(f: bool): nat { if f then 1 else 0 }

  function FlagByte(f: seq<bool>): byte
    requires |f| == 8
  {
    128 * Bit(f[0]) + 64 * Bit(f[1]) + 32 * Bit(f[2]) + 16 * Bit(f[3])
    + 8 * Bit(f[4]) + 4 * Bit(f[5]) + 2 * Bit(f[6]) + Bit(f[7])
  }

  lemma FlagByteFlags(f: seq<bool>)
    requires |f| == 8
    ensures ByteFlags(FlagByte(f)) == f
  {
    var h1 := Bit(f[0]);
    var h2 := 2 * h1 + Bit(f[1]);
    var h3 := 2 * h2 + Bit(f[2]);
    var h4 := 2 * h3 + Bit(f[3]);
    var h5 := 2 * h4 + Bit(f[4]);
    var h6 := 2 * h5 + Bit(f[5]);
    var h7 := 2 * h6 + Bit(f[6]);
    assert FlagByte(f) == 2 * h7 + Bit(f[7]);
    var b := FlagByte(f);
    hide Bit, FlagByte, ByteFlags;
    LastBit(0, f[0]);
    LastBit(h1, f[1]);
    LastBit(h2, f[2]);
    LastBit(h3, f[3]);
    LastBit(h4, f[4]);
    LastBit(h5, f[5]);
    LastBit(h6, f[6]);
    LastBit(h7, f[7]);
    HalvedBytes(b, h1, h2, h3, h4, h5, h6, h7);
    FlagsAre(b, f, h1, h2, h3, h4, h5, h6, h7);
  }

  lemma FlagsAre(b: byte, f: seq<bool>, h1: nat, h2: nat, h3: nat, h4: nat, h5: nat, h6: nat, h7: nat)
    requires |f| == 8
    requires b / 128 == h1 && b / 64 == h2 && b / 32 == h3 && b / 16 == h4
    requires b / 8 == h5 && b / 4 == h6 && b / 2 == h7
    requires (h1 % 2 == 1) == f[0] && (h2 % 2 == 1) == f[1] && (h3 % 2 == 1) == f[2] && (h4 % 2 == 1) == f[3]
    requires (h5 % 2 == 1) == f[4] && (h6 % 2 == 1) == f[5] && (h7 % 2 == 1) == f[6] && (b % 2 == 1) == f[7]
    ensures ByteFlags(b) == f
  {}

  lemma LastBit(n: nat, f: bool)
    ensures (2 * n + Bit(f)) % 2 == 1 <==> f
    ensures Bit(f) <= 1
  {}

  lemma HalvedBytes(b: byte, h1: nat, h2: nat, h3: nat, h4: nat, h5: nat, h6: nat, h7: nat)
    requires 2 * h1 <= h2 <= 2 * h1 + 1 && 2 * h2 <= h3 <= 2 * h2 + 1 && 2 * h3 <= h4 <= 2 * h3 + 1
    requires 2 * h4 <= h5 <= 2 * h4 + 1 && 2 * h5 <= h6 <= 2 * h5 + 1 && 2 * h6 <= h7 <= 2 * h6 + 1
    requires 2 * h7 <= b <= 2 * h7 + 1
    ensures b / 128 == h1 && b / 64 == h2 && b / 32 == h3 && b / 16 == h4
    ensures b / 8 == h5 && b / 4 == h6 && b / 2 == h7
  {}

  function WordBytes(f: seq<bool>): (s: seq<byte>)
    requires |f| == 32
    ensures |s| == 4
  {
    [FlagByte(f[..8]), FlagByte(f[8..16]), FlagByte(f[16..24]), FlagByte(f[24..])]
  }

  lemma WordBytesFlags(f: seq<bool>)
    requires |f| == 32
    ensures var w := WordBytes(f); WordFlags(w[0], w[1], w[2], w[3]) == f
  {
    hide FlagByte, ByteFlags;
    FlagByteFlags(f[..8]);
    FlagByteFlags(f[8..16]);
    FlagByteFlags(f[16..24]);
    FlagByteFlags(f[24..]);
    assert f == f[..8] + f[8..16] + f[16..24] + f[24..];
  }

  // ---------------------------------------------------------------- emitting and drawing

  /** The next `n` flags of a list of items; past the last one the word is filled with zeros. */
  function Upcoming(items: seq<Item>, n: nat): (f: seq<bool>)
    ensures |f| == n
    decreases |items|, n
  {
    if n == 0 then []
    else if items == [] then seq(n, _ => false)
    else
      match items[0]
      case Flag(b) => [b] + Upcoming(items[1..], n - 1)
      case Payload(_) => Upcoming(items[1..], n)
  }

  /** The bytes of a list of items when `left` flags of the word before are still unused, with
      anything at all behind them. */
  function Emit(items: seq<Item>, left: nat, tail: seq<byte>): seq<byte>
    decreases |items|
  {
    if items == [] then tail
    else
      match items[0]
      case Payload(bytes) => bytes + Emit(items[1..], left, tail)
      case Flag(_) =>
        if left == 0 then WordBytes(Upcoming(items, 32)) + Emit(items[1..], 31, tail)
        else Emit(items[1..], left - 1, tail)
  }

  /** What a decoder holds at that point. */
  function SourceOf(items: seq<Item>, left: nat, tail: seq<byte>): Source {
    Source(Emit(items, left, tail), Upcoming(items, left))
  }

  function LeftAfterFlag(left: nat): nat { if left == 0 then 31 else left - 1 }

  lemma DrawFlag(b: bool, items: seq<Item>, left: nat, tail: seq<byte>)
    ensures NextFlag(SourceOf([Flag(b)] + items, left, tail))
         == Some(Drawn(b, SourceOf(items, LeftAfterFlag(left), tail)))
  {
    var all := [Flag(b)] + items;
    assert all[1..] == items;
    if left == 0 {
      hide WordBytes, WordFlags, Upcoming;
      var f := Upcoming(all, 32);
      UpcomingFlag(b, items, 32);
      UpcomingNone(all);
      WordBytesFlags(f);
      assert Emit(all, 0, tail)[..4] == WordBytes(f);
      assert Emit(all, 0, tail)[4..] == Emit(items, 31, tail);
    } else {
      UpcomingFlag(b, items, left);
    }
  }

  lemma UpcomingFlag(b: bool, items: seq<Item>, n: nat)
    requires n > 0
    ensures Upcoming([Flag(b)] + items, n) == [b] + Upcoming(items, n - 1)
  {
    assert ([Flag(b)] + items)[1..] == items;
  }

  lemma UpcomingNone(items: seq<Item>)
    ensures Upcoming(items, 0) == []
  {}

  lemma TakePayload(bytes: seq<byte>, items: seq<Item>, left: nat, tail: seq<byte>)
    ensures var src := SourceOf([Payload(bytes)] + items, left, tail);
      && |src.bytes| >= |bytes|
      && src.bytes[..|bytes|] == bytes
      && Source(src.bytes[|bytes|..], src.flags) == SourceOf(items, left, tail)
  {
    assert ([Payload(bytes)] + items)[1..] == items;
  }

  // ---------------------------------------------------------------- block chunks

  /** A block chunk of a kind can say what it has to say of a block. */
  predicate Sayable(id: byte, b: Block) {
    match b
    case Skip => MayskipBlocks(id)
    case V1(_) => true
    case V4(_, _, _, _) => !OnlyV1(id)
  }

  function BlockItems(id: byte, b: Block): seq<Item> {
    match b
    case Skip => [Flag(false)]
    case V1(i) => CodedFlag(id) + BookFlag(id, false) + [Payload([i])]
    case V4(tl, tr, bl, br) => CodedFlag(id) + BookFlag(id, true) + [Payload([tl, tr, bl, br])]
  }

  function CodedFlag(id: byte): seq<Item> { if MayskipBlocks(id) then [Flag(true)] else [] }

  function BookFlag(id: byte, v4: bool): seq<Item> { if OnlyV1(id) then [] else [Flag(v4)] }

  function ChunkItems(id: byte, blocks: seq<Block>): seq<Item> {
    if blocks == [] then [] else BlockItems(id, blocks[0]) + ChunkItems(id, blocks[1..])
  }

  /** How much of the current flag word is left after a block. */
  function LeftAfter(id: byte, b: Block, left: nat): nat {
    if b.Skip? then LeftAfterFlag(left)
    else
      var l := if MayskipBlocks(id) then LeftAfterFlag(left) else left;
      if OnlyV1(id) then l else LeftAfterFlag(l)
  }

  lemma ReadBackBlock(id: byte, b: Block, items: seq<Item>, left: nat, tail: seq<byte>)
    requires Sayable(id, b)
    ensures ReadBlock(id, SourceOf(BlockItems(id, b) + items, left, tail))
         == Some(BlockRead(b, SourceOf(items, LeftAfter(id, b, left), tail)))
  {
    hide SourceOf;
    if b.Skip? {
      DrawFlag(false, items, left, tail);
    } else {
      var v4 := b.V4?;
      var bytes := if v4 then [b.tl, b.tr, b.bl, b.br] else [b.index];
      var coded := BookFlag(id, v4) + ([Payload(bytes)] + items);
      var l := if MayskipBlocks(id) then LeftAfterFlag(left) else left;
      ReadBackCoded(id, b, bytes, items, l, tail);
      if MayskipBlocks(id) {
        assert BlockItems(id, b) + items == [Flag(true)] + coded;
        DrawFlag(true, coded, left, tail);
      } else {
        assert BlockItems(id, b) + items == coded;
      }
    }
  }

  lemma ReadBackCoded(id: byte, b: Block, bytes: seq<byte>, items: seq<Item>, left: nat, tail: seq<byte>)
    requires Sayable(id, b) && !b.Skip?
    requires bytes == if b.V4? then [b.tl, b.tr, b.bl, b.br] else [b.index]
    ensures ReadCoded(id, SourceOf(BookFlag(id, b.V4?) + ([Payload(bytes)] + items), left, tail))
         == Some(BlockRead(b, SourceOf(items, if OnlyV1(id) then left else LeftAfterFlag(left), tail)))
  {
    hide SourceOf;
    var rest := [Payload(bytes)] + items;
    if OnlyV1(id) {
      assert BookFlag(id, false) + rest == rest;
      TakePayload(bytes, items, left, tail);
      assert SourceOf(rest, left, tail).bytes[0] == bytes[0];
    } else {
      var src := SourceOf(rest, LeftAfterFlag(left), tail);
      DrawFlag(b.V4?, rest, left, tail);
      TakePayload(bytes, items, LeftAfterFlag(left), tail);
      assert src.bytes[0] == bytes[0];
      assert b.V4? ==> src.bytes[1] == bytes[1] && src.bytes[2] == bytes[2] && src.bytes[3] == bytes[3];
    }
  }

  /** A block chunk written from a list of blocks is read back as that list. */
  lemma {:induction false} BlocksReadBack(id: byte, blocks: seq<Block>, left: nat, tail: seq<byte>)
    requires forall b :: b in blocks ==> Sayable(id, b)
    ensures ReadBlocks(id, SourceOf(ChunkItems(id, blocks), left, tail), |blocks|) == Run(blocks, true)
    decreases |blocks|
  {
    if blocks != [] {
      hide SourceOf;
      ReadBackBlock(id, blocks[0], ChunkItems(id, blocks[1..]), left, tail);
      BlocksReadBack(id, blocks[1..], LeftAfter(id, blocks[0], left), tail);
      assert blocks == [blocks[0]] + blocks[1..];
    }
  }

  /** The chunk as a decoder meets it, before any flag word has been drawn. */
  lemma ChunkReadBack(id: byte, blocks: seq<Block>, tail: seq<byte>)
    requires forall b :: b in blocks ==> Sayable(id, b)
    ensures ReadBlocks(id, Source(Emit(ChunkItems(id, blocks), 0, tail), []), |blocks|) == Run(blocks, true)
  {
    BlocksReadBack(id, blocks, 0, tail);
    UpcomingNone(ChunkItems(id, blocks));
  }

  // ---------------------------------------------------------------- codebook chunks

  /** The new payload of each entry, for the entries that change. */
  type Updates = seq<Option<seq<byte>>>

  ghost predicate WellFormed(id: byte, ups: Updates) {
    forall u :: u in ups ==> (u.Some? ==> |u.value| == EntrySize(id)) && (!Partial(id) ==> u.Some?)
  }

  function UpdateItems(id: byte, ups: Updates): seq<Item> {
    if ups == [] then [] else EntryItems(id, ups[0]) + UpdateItems(id, ups[1..])
  }

  function EntryItems(id: byte, u: Option<seq<byte>>): seq<Item> {
    (if Partial(id) then [Flag(u.Some?)] else []) + (if u.Some? then [Payload(u.value)] else [])
  }

  ghost predicate Updated(id: byte, ups: Updates, from: nat, before: Book, after: Book, lut: Lut)
    requires from + |ups| == 256 && WellFormed(id, ups)
  {
    && (forall e :: 0 <= e < from ==> after[e] == before[e])
    && (forall e {:trigger after[e]} :: from <= e < 256 ==>
          after[e] == if ups[e - from].Some? then ReadEntry(id, ups[e - from].value, lut) else before[e])
  }

  lemma OneEntryBack(id: byte, u: Option<seq<byte>>, rest: seq<Item>, i: nat, book: Book, left: nat, tail: seq<byte>,
                     lut: Lut)
    requires i < 256 && WellFormed(id, [u])
    ensures UpdateBook(id, SourceOf(EntryItems(id, u) + rest, left, tail), i, book, lut)
         == UpdateBook(id, SourceOf(rest, if Partial(id) then LeftAfterFlag(left) else left, tail), i + 1,
                       if u.Some? then assert u in [u]; book[i := ReadEntry(id, u.value, lut)] else book, lut)
  {
    assert u in [u];
    hide SourceOf, ReadEntry, WellFormed;
    var l := if Partial(id) then LeftAfterFlag(left) else left;
    var payload := if u.Some? then [Payload(u.value)] + rest else rest;
    if Partial(id) {
      assert EntryItems(id, u) + rest == [Flag(u.Some?)] + payload;
      DrawFlag(u.Some?, payload, left, tail);
    } else {
      assert EntryItems(id, u) + rest == payload;
    }
    if u.Some? {
      TakePayload(u.value, rest, l, tail);
      SameEntry(id, SourceOf(payload, l, tail).bytes, u.value, lut);
    }
  }

  /** A codebook chunk written from a list of updates makes those updates and no others, whether it
      is a full chunk or a partial one that flags the entries it carries. */
  lemma {:induction false} BookReadBack(id: byte, ups: Updates, i: nat, book: Book, left: nat, tail: seq<byte>,
                                        lut: Lut)
    requires i + |ups| == 256 && WellFormed(id, ups)
    ensures Updated(id, ups, i, book, UpdateBook(id, SourceOf(UpdateItems(id, ups), left, tail), i, book, lut), lut)
    decreases |ups|
  {
    hide SourceOf, ReadEntry, EntryItems, UpdateBook, Partial, EntrySize, LeftAfterFlag, Updated;
    if ups == [] {
      NothingLeft(id, SourceOf([], left, tail), book, lut);
      return;
    }
    var u, rest := ups[0], ups[1..];
    assert u in ups && forall v :: v in rest ==> v in ups;
    var next := if u.Some? then book[i := ReadEntry(id, u.value, lut)] else book;
    var l := if Partial(id) then LeftAfterFlag(left) else left;
    assert UpdateItems(id, ups) == EntryItems(id, u) + UpdateItems(id, rest);
    hide UpdateItems;
    OneEntryBack(id, u, UpdateItems(id, rest), i, book, left, tail, lut);
    BookReadBack(id, rest, i + 1, next, l, tail, lut);
    UpdatedOneMore(id, ups, i, book, UpdateBook(id, SourceOf(UpdateItems(id, rest), l, tail), i + 1, next, lut), lut);
  }

  lemma NothingLeft(id: byte, src: Source, book: Book, lut: Lut)
    ensures Updated(id, [], 256, book, UpdateBook(id, src, 256, book, lut), lut)
  {}

  lemma UpdatedOneMore(id: byte, ups: Updates, i: nat, before: Book, after: Book, lut: Lut)
    requires |ups| > 0 && i + |ups| == 256 && WellFormed(id, ups) && WellFormed(id, ups[1..])
    requires ups[0] in ups
    requires Updated(id, ups[1..], i + 1,
                     if ups[0].Some? then before[i := ReadEntry(id, ups[0].value, lut)] else before, after, lut)
    ensures Updated(id, ups, i, before, after, lut)
  {
    hide ReadEntry;
    assert after[i] == if ups[0].Some? then ReadEntry(id, ups[0].value, lut) else before[i];
    forall e | i < e < 256
      ensures after[e] == if ups[e - i].Some? then ReadEntry(id, ups[e - i].value, lut) else before[e]
    {
      assert ups[e - i] == ups[1..][e - (i + 1)];
    }
  }

  lemma SameEntry(id: byte, bytes: seq<byte>, payload: seq<byte>, lut: Lut)
    requires |payload| == EntrySize(id) <= |bytes| && bytes[..|payload|] == payload
    ensures ReadEntry(id, bytes, lut) == ReadEntry(id, payload, lut)
  {
    assert forall k :: 0 <= k < |payload| ==> bytes[k] == payload[k];
  }
}
