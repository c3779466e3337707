/**
 The Cinepak decoder as it runs: cursors that walk one memory segment at a time, flags masked out
 of 32-bit words, codebooks and picture written in place. Every method is tied to the reference
 decoder in `CinepakSpec`.
 */
module Cinepak {
  import opened Arith
  import opened Bytes
  import opened CinepakSpec

  // ---------------------------------------------------------------- segmented memory

  /** A far pointer: a segment and an offset into it. */
  datatype Far = Far(sel: nat, off: nat)

  function Linear(p: Far, seg: nat): nat { p.sel * seg + p.off }

  /** The far form of a linear address; this is where an offset carries into the selector. */
  function FarOf(linear: nat, seg: nat): (p: Far)
    requires seg > 0
    ensures Linear(p, seg) == linear && p.off < seg
  {
    DivModExact(linear, seg);
    Far(linear / seg, linear % seg)
  }

  /** The bytes from a far pointer to the end of its segment. */
  function RoomOf(p: Far, seg: nat): nat
    requires p.off <= seg
  {
    seg - p.off
  }

  // ---------------------------------------------------------------- reading the frame

  class Reader {
    const data: seq<byte>
    const addr: nat
    const seg: nat
    var pos: nat
    var end: nat
    var p: Far
    var win: nat

    /** The cursor is the far form of base + pos for as long as it has any room, and the room is
        exactly what is left of its segment. */
    ghost predicate Valid()
      reads this
    {
      && seg > 0
      && end <= |data|
      && win <= seg
      && (win > 0 ==> p.off < seg && Linear(p, seg) == addr + pos && win == RoomOf(p, seg))
    }

    /** The bytes a flat pointer would still have to read. */
    ghost function Rest(): seq<byte>
      reads this
      requires Valid()
    {
      if pos <= end then data[pos..end] else []
    }

    constructor (data: seq<byte>, addr: nat, seg: nat)
      requires seg > 0
      ensures Valid() && this.data == data && this.addr == addr && this.seg == seg
      ensures pos == 0 && end == |data|
    {
      this.data, this.addr, this.seg := data, addr, seg;
      this.pos, this.end := 0, |data|;
      var at := FarOf(addr, seg);
      this.p, this.win := at, RoomOf(at, seg);
    }

    method Seek(to: nat)
      requires Valid()
      modifies this`pos, this`p, this`win
      ensures Valid() && pos == to && win > 0
    {
      pos := to;
      p := FarOf(addr + to, seg);
      win := RoomOf(p, seg);
    }

    function Left(): nat
      reads this
    {
      if pos < end then end - pos else 0
    }

    /** The far pointer read through and stepped within its segment only: at the end of a segment
        the offset wraps to the start of the same one. */
    method U8() returns (b: byte)
      requires Valid() && pos < end
      modifies this`pos, this`p, this`win
      ensures Valid() && pos == old(pos) + 1
      ensures b == data[old(pos)]
    {
      if win == 0 {
        Seek(pos);
      }
      assert Linear(p, seg) - addr == pos;
      b := data[Linear(p, seg) - addr];
      pos := pos + 1;
      win := win - 1;
      p := if p.off + 1 == seg then Far(p.sel, 0) else Far(p.sel, p.off + 1);
    }

    method ReadBe16() returns (n: nat)
      requires Valid() && pos + 2 <= end
      modifies this`pos, this`p, this`win
      ensures Valid() && pos == old(pos) + 2
      ensures n == Be16(data[old(pos)], data[old(pos) + 1])
    {
      var hi: nat := U8();
      var lo := U8();
      n := hi * 256 + lo;
    }

    method ReadBe24() returns (n: nat)
      requires Valid() && pos + 3 <= end
      modifies this`pos, this`p, this`win
      ensures Valid() && pos == old(pos) + 3
      ensures n == Be24(data[old(pos)], data[old(pos) + 1], data[old(pos) + 2])
    {
      var hi: nat := ReadBe16();
      var lo := U8();
      n := hi * 256 + lo;
    }

    method ReadBe32() returns (n: nat)
      requires Valid() && pos + 4 <= end
      modifies this`pos, this`p, this`win
      ensures Valid() && pos == old(pos) + 4
      ensures n == Be32(data[old(pos)], data[old(pos) + 1], data[old(pos) + 2], data[old(pos) + 3])
    {
      var hi: nat := ReadBe16();
      var lo := ReadBe16();
      n := hi * 65536 + lo;
    }
  }

  // ---------------------------------------------------------------- flag words

  /** Whether a word has the one bit of a one-bit mask set. */
  predicate Masked(flag: nat, mask: nat)
    requires mask > 0
  {
    flag / mask % 2 == 1
  }

  /** The flags below a mask's bit: what the word still holds. */
  ghost function FlagsBelow(flag: nat, mask: nat): (s: seq<bool>)
  {
    if mask <= 1 then [] else [Masked(flag, mask / 2)] + FlagsBelow(flag, mask / 2)
  }

  const TOP_BIT: nat := 0x8000_0000

  /** Below the top bit of a word lie its other thirty-one flags, in the order of its bytes. */
  lemma {:induction false} FlagsOfWord(b0: byte, b1: byte, b2: byte, b3: byte)
    ensures [Masked(Be32(b0, b1, b2, b3), TOP_BIT)] + FlagsBelow(Be32(b0, b1, b2, b3), TOP_BIT)
            == WordFlags(b0, b1, b2, b3)
  {
    var w := Be32(b0, b1, b2, b3);
    BytesOfWord(w, b0, b1, b2, b3);
    FlagsOfByte(w, b0, 0x100_0000);
    FlagsOfByte(w, b1, 0x1_0000);
    FlagsOfByte(w, b2, 0x100);
    FlagsOfByte(w, b3, 1);
    NextFlagBelow(w, TOP_BIT);
    LastFlagBelow(w);
    JoinFour(w, ByteFlags(b0), ByteFlags(b1), ByteFlags(b2), ByteFlags(b3));
  }

  lemma {:induction false} JoinFour(w: nat, f0: seq<bool>, f1: seq<bool>, f2: seq<bool>, f3: seq<bool>)
    requires FlagsBelow(w, 0x1_0000_0000) == f0 + FlagsBelow(w, 0x100_0000)
    requires FlagsBelow(w, 0x100_0000) == f1 + FlagsBelow(w, 0x1_0000)
    requires FlagsBelow(w, 0x1_0000) == f2 + FlagsBelow(w, 0x100)
    requires FlagsBelow(w, 0x100) == f3 + FlagsBelow(w, 1)
    requires FlagsBelow(w, 1) == []
    ensures FlagsBelow(w, 0x1_0000_0000) == f0 + f1 + f2 + f3
  {
    assert FlagsBelow(w, 0x100) == f3;
  }

  lemma BytesOfWord(w: nat, b0: byte, b1: byte, b2: byte, b3: byte)
    requires w == Be32(b0, b1, b2, b3)
    ensures w / 0x100_0000 % 256 == b0 && w / 0x1_0000 % 256 == b1
    ensures w / 0x100 % 256 == b2 && w / 1 % 256 == b3
  {
    assert w / 0x1_0000 == b0 * 256 + b1;
    assert w / 0x100 == (b0 * 256 + b1) * 256 + b2;
    assert w == ((b0 * 256 + b1) * 256 + b2) * 256 + b3;
  }

  lemma {:induction false} NextFlagBelow(w: nat, mask: nat)
    requires mask > 0
    ensures FlagsBelow(w, 2 * mask) == [Masked(w, mask)] + FlagsBelow(w, mask)
  {}

  lemma {:induction false} NoFlagsBelow(w: nat)
    ensures FlagsBelow(w, 0) == []
  {}

  lemma {:induction false} LastFlagBelow(w: nat)
    ensures FlagsBelow(w, 1) == []
  {}

  lemma {:induction false} FlagsOfByte(w: nat, b: byte, unit: nat)
    requires unit > 0 && w / unit % 256 == b
    ensures FlagsBelow(w, 256 * unit) == ByteFlags(b) + FlagsBelow(w, unit)
  {
    FlagsOfShifted(w, unit, b);
    EightFlags(w, unit, ByteFlags(b));
  }

  lemma {:induction false} EightFlags(w: nat, unit: nat, f: seq<bool>)
    requires unit > 0 && |f| == 8
    requires Masked(w, 128 * unit) == f[0] && Masked(w, 64 * unit) == f[1]
    requires Masked(w, 32 * unit) == f[2] && Masked(w, 16 * unit) == f[3]
    requires Masked(w, 8 * unit) == f[4] && Masked(w, 4 * unit) == f[5]
    requires Masked(w, 2 * unit) == f[6] && Masked(w, unit) == f[7]
    ensures FlagsBelow(w, 256 * unit) == f + FlagsBelow(w, unit)
  {
    FourFlags(w, unit, f[4..]);
    FourFlags(w, 16 * unit, f[..4]);
    assert 16 * (16 * unit) == 256 * unit;
    assert f == f[..4] + f[4..];
  }

  lemma {:induction false} FourFlags(w: nat, unit: nat, f: seq<bool>)
    requires unit > 0 && |f| == 4
    requires Masked(w, 8 * unit) == f[0] && Masked(w, 4 * unit) == f[1]
    requires Masked(w, 2 * unit) == f[2] && Masked(w, unit) == f[3]
    ensures FlagsBelow(w, 16 * unit) == f + FlagsBelow(w, unit)
  {
    TwoFlags(w, unit, 2 * unit, 4 * unit, f[2..]);
    TwoFlags(w, 4 * unit, 8 * unit, 16 * unit, f[..2]);
    assert f == f[..2] + f[2..];
  }

  lemma {:induction false} TwoFlags(w: nat, m0: nat, m1: nat, m2: nat, f: seq<bool>)
    requires m0 > 0 && m1 == 2 * m0 && m2 == 2 * m1 && |f| == 2
    requires Masked(w, m1) == f[0] && Masked(w, m0) == f[1]
    ensures FlagsBelow(w, m2) == f + FlagsBelow(w, m0)
  {
    NextFlagBelow(w, m0);
    NextFlagBelow(w, m1);
  }

  lemma {:induction false} FlagsOfShifted(w: nat, unit: nat, b: byte)
    requires unit > 0 && w / unit % 256 == b
    ensures Masked(w, 128 * unit) == ByteFlags(b)[0] && Masked(w, 64 * unit) == ByteFlags(b)[1]
    ensures Masked(w, 32 * unit) == ByteFlags(b)[2] && Masked(w, 16 * unit) == ByteFlags(b)[3]
    ensures Masked(w, 8 * unit) == ByteFlags(b)[4] && Masked(w, 4 * unit) == ByteFlags(b)[5]
    ensures Masked(w, 2 * unit) == ByteFlags(b)[6] && Masked(w, unit) == ByteFlags(b)[7]
  {
    hide Masked;
    HighFlagsShifted(w, unit, w / unit, b);
    LowFlagsShifted(w, unit, w / unit, b);
  }

  ghost predicate Shifted(w: nat, unit: nat, x: nat) { unit > 0 && w / unit == x }

  lemma {:induction false} HighFlagsShifted(w: nat, unit: nat, x: nat, b: byte)
    requires Shifted(w, unit, x) && x % 256 == b
    ensures Masked(w, 128 * unit) == ByteFlags(b)[0] && Masked(w, 64 * unit) == ByteFlags(b)[1]
    ensures Masked(w, 32 * unit) == ByteFlags(b)[2] && Masked(w, 16 * unit) == ByteFlags(b)[3]
  {
    ByteFlagsAt(b);
    assert unit > 0;
    hide ByteFlags, Masked, Shifted;
    var q := x / 256;
    QuotientsOfLowByte(x, q, b);
    MaskedShift(w, unit, x, 128, b, q);
    MaskedShift(w, unit, x, 64, b, 2 * q);
    MaskedShift(w, unit, x, 32, b, 4 * q);
    MaskedShift(w, unit, x, 16, b, 8 * q);
  }

  lemma {:induction false} LowFlagsShifted(w: nat, unit: nat, x: nat, b: byte)
    requires Shifted(w, unit, x) && x % 256 == b
    ensures Masked(w, 8 * unit) == ByteFlags(b)[4] && Masked(w, 4 * unit) == ByteFlags(b)[5]
    ensures Masked(w, 2 * unit) == ByteFlags(b)[6] && Masked(w, unit) == ByteFlags(b)[7]
  {
    ByteFlagsAt(b);
    assert unit > 0;
    hide ByteFlags, Masked, Shifted;
    var q := x / 256;
    QuotientsOfLowByte(x, q, b);
    MaskedShift(w, unit, x, 8, b, 16 * q);
    MaskedShift(w, unit, x, 4, b, 32 * q);
    MaskedShift(w, unit, x, 2, b, 64 * q);
    MaskedShift(w, unit, x, 1, b, 128 * q);
  }

  lemma ByteFlagsAt(b: byte)
    ensures var f := ByteFlags(b);
      && f[0] == (b / 128 % 2 == 1) && f[1] == (b / 64 % 2 == 1) && f[2] == (b / 32 % 2 == 1)
      && f[3] == (b / 16 % 2 == 1) && f[4] == (b / 8 % 2 == 1) && f[5] == (b / 4 % 2 == 1)
      && f[6] == (b / 2 % 2 == 1) && f[7] == (b / 1 % 2 == 1)
  {}

  lemma QuotientsOfLowByte(x: nat, q: nat, r: byte)
    requires x == 256 * q + r
    ensures x / 128 == 2 * q + r / 128 && x / 64 == 2 * (2 * q) + r / 64
    ensures x / 32 == 2 * (4 * q) + r / 32 && x / 16 == 2 * (8 * q) + r / 16
    ensures x / 8 == 2 * (16 * q) + r / 8 && x / 4 == 2 * (32 * q) + r / 4
    ensures x / 2 == 2 * (64 * q) + r / 2 && x / 1 == 2 * (128 * q) + r / 1
  {}

  lemma MaskedShift(w: nat, unit: nat, x: nat, k: nat, b: byte, n: nat)
    requires Shifted(w, unit, x) && k > 0 && x / k == 2 * n + b / k
    ensures k * unit > 0 && Masked(w, k * unit) == (b / k % 2 == 1)
  {
    DivDiv(w, unit, k);
    EvenPlus(n, b / k);
  }

  lemma EvenPlus(n: nat, r: nat)
    ensures (2 * n + r) % 2 == r % 2
  {}

  /** The step both flag readers share: move to the next bit, and take a new word when there is none. */
  method DrawFlag(r: Reader, flag: nat, mask: nat) returns (ok: bool, flag': nat, mask': nat)
    requires r.Valid()
    modifies r`pos, r`p, r`win
    ensures r.Valid()
    ensures ok == NextFlag(Source(old(r.Rest()), FlagsBelow(flag, mask))).Some?
    ensures ok ==>
      var d := NextFlag(Source(old(r.Rest()), FlagsBelow(flag, mask))).value;
      && mask' > 0 && Masked(flag', mask') == d.flag
      && Source(r.Rest(), FlagsBelow(flag', mask')) == d.rest
  {
    flag', mask' := flag, mask / 2;
    if mask' == 0 {
      if r.Left() < 4 {
        return false, flag', mask';
      }
      ghost var bytes := r.Rest();
      flag' := r.ReadBe32();
      mask' := TOP_BIT;
      FlagsOfWord(bytes[0], bytes[1], bytes[2], bytes[3]);
    }
    ok := true;
  }

  // ---------------------------------------------------------------- codebooks

  /** A codebook is a kilobyte, four indices to an entry; there is one of each kind for every strip. */
  const BOOK_BYTES: nat := 1024

  ghost function EntryAt(cb: seq<byte>, at: nat): Entry
    requires at + 4 <= |cb|
  {
    Entry(cb[at], cb[at + 1], cb[at + 2], cb[at + 3])
  }

  ghost function BookAt(cb: seq<byte>, at: nat): Book
    requires at + BOOK_BYTES <= |cb|
  {
    seq(256, i requires 0 <= i < 256 => EntryAt(cb, at + 4 * i))
  }

  method ClipByte(v: int) returns (c: byte)
    ensures c == Clip(v)
  {
    if v < 0 { return 0; }
    if v > 255 { return 255; }
    return v;
  }

  /** One pixel of a colour entry, through the table. */
  method PixelColour(y: byte, u: int, v: int, uh: int, lut: Lut) returns (c: byte)
    requires uh == Halved(u)
    ensures c == Colour(y, u, v, lut)
  {
    var rr: nat := ClipByte(y + 2 * v);
    var gg: nat := ClipByte(y - uh - v);
    var bb: nat := ClipByte(y + 2 * u);
    c := lut[rr / 8 * 1024 + gg / 8 * 32 + bb / 8];
  }

  method ReadVector(r: Reader) returns (ys: seq<byte>, u: int, v: int)
    requires r.Valid() && r.Left() >= 6
    modifies r`pos, r`p, r`win
    ensures r.Valid() && r.pos == old(r.pos) + 6
    ensures ys == r.data[old(r.pos)..old(r.pos) + 4]
    ensures u == Signed(r.data[old(r.pos) + 4]) && v == Signed(r.data[old(r.pos) + 5])
  {
    var y0 := r.U8();
    var y1 := r.U8();
    var y2 := r.U8();
    var y3 := r.U8();
    ys := [y0, y1, y2, y3];
    var ub := r.U8();
    u := Signed(ub);
    var vb := r.U8();
    v := Signed(vb);
  }

  method LoadColour(cb: array<byte>, at: nat, id: byte, r: Reader, lut: Lut)
    requires at + 4 <= cb.Length && r.Valid() && r.Left() >= 6 && !Monochrome(id)
    modifies cb, r`pos, r`p, r`win
    ensures r.Valid() && r.Rest() == old(r.Rest())[6..]
    ensures forall j :: 0 <= j < cb.Length && !(at <= j < at + 4) ==> cb[j] == old(cb[j])
    ensures EntryAt(cb[..], at) == ReadEntry(id, old(r.Rest()), lut)
  {
    hide Colour, ReadEntry, EntryAt, Halved;
    ghost var bytes := r.Rest();
    var ys, u, v := ReadVector(r);
    assert ys == bytes[..4] && r.Rest() == bytes[6..];
    var uh := HalveTowardZero(u);
    var k := 0;
    while k < 4
      modifies cb
      invariant 0 <= k <= 4
      invariant forall j :: 0 <= j < k ==> cb[at + j] == Colour(ys[j], u, v, lut)
      invariant forall j :: 0 <= j < cb.Length && !(at <= j < at + 4) ==> cb[j] == old(cb[j])
    {
      cb[at + k] := PixelColour(ys[k], u, v, uh, lut);
      k := k + 1;
    }
    ColourEntry(cb[..], at, id, bytes, lut);
  }

  /** Division by two of a number of either sign by shifting its magnitude. */
  method HalveTowardZero(u: int) returns (uh: int)
    ensures uh == Halved(u)
  {
    uh := if u >= 0 then u / 2 else -((-u) / 2);
  }

  lemma ColourEntry(cb: seq<byte>, at: nat, id: byte, bytes: seq<byte>, lut: Lut)
    requires at + 4 <= |cb| && |bytes| >= 6 && !Monochrome(id)
    requires forall j :: 0 <= j < 4 ==> cb[at + j] == Colour(bytes[j], Signed(bytes[4]), Signed(bytes[5]), lut)
    ensures EntryAt(cb, at) == ReadEntry(id, bytes, lut)
  {
    hide Colour, Signed;
    assert cb[at + 0] == Colour(bytes[0], Signed(bytes[4]), Signed(bytes[5]), lut);
    assert cb[at + 1] == Colour(bytes[1], Signed(bytes[4]), Signed(bytes[5]), lut);
  }

  /** A monochrome entry: four greys, five bits of each in all three fields. */
  method LoadGrey(cb: array<byte>, at: nat, id: byte, r: Reader, lut: Lut)
    requires at + 4 <= cb.Length && r.Valid() && r.Left() >= 4 && Monochrome(id)
    modifies cb, r`pos, r`p, r`win
    ensures r.Valid() && r.Rest() == old(r.Rest())[4..]
    ensures forall j :: 0 <= j < cb.Length && !(at <= j < at + 4) ==> cb[j] == old(cb[j])
    ensures EntryAt(cb[..], at) == ReadEntry(id, old(r.Rest()), lut)
  {
    hide Grey, ReadEntry, EntryAt;
    ghost var bytes := r.Rest();
    var k := 0;
    while k < 4
      invariant 0 <= k <= 4 && r.Valid() && r.pos == old(r.pos) + k
      invariant forall j :: 0 <= j < k ==> cb[at + j] == Grey(bytes[j], lut)
      invariant forall j :: 0 <= j < cb.Length && !(at <= j < at + 4) ==> cb[j] == old(cb[j])
    {
      var b: nat := r.U8();
      var g5 := b / 8;
      GreyIndex(b, lut);
      cb[at + k] := lut[g5 * 0x421];
      k := k + 1;
    }
    GreyEntry(cb[..], at, id, bytes, lut);
  }

  lemma GreyIndex(b: byte, lut: Lut)
    ensures Grey(b, lut) == lut[b / 8 * 0x421]
  {}

  lemma GreyEntry(cb: seq<byte>, at: nat, id: byte, bytes: seq<byte>, lut: Lut)
    requires at + 4 <= |cb| && |bytes| >= 4 && Monochrome(id)
    requires forall j :: 0 <= j < 4 ==> cb[at + j] == Grey(bytes[j], lut)
    ensures EntryAt(cb, at) == ReadEntry(id, bytes, lut)
  {
    hide Grey;
    assert cb[at + 0] == Grey(bytes[0], lut);
    assert cb[at + 1] == Grey(bytes[1], lut);
  }

  /** Writing one entry's four bytes changes that entry of the codebook and nothing else. */
  lemma BookAfterEntry(was: seq<byte>, now: seq<byte>, at: nat, i: nat)
    requires |was| == |now| && at + BOOK_BYTES <= |was| && i < 256
    requires forall j :: 0 <= j < |was| && !(at + 4 * i <= j < at + 4 * i + 4) ==> now[j] == was[j]
    ensures BookAt(now, at) == BookAt(was, at)[i := EntryAt(now, at + 4 * i)]
  {}

  /** Entry `i` of the codebook at `at`, taken from the reader if it is all there. */
  method TakeEntry(cb: array<byte>, at: nat, i: nat, id: byte, r: Reader, lut: Lut) returns (ok: bool)
    requires at + BOOK_BYTES <= cb.Length && i < 256 && r.Valid()
    modifies cb, r`pos, r`p, r`win
    ensures r.Valid()
    ensures ok == (|old(r.Rest())| >= EntrySize(id))
    ensures forall j :: 0 <= j < cb.Length && !(at <= j < at + BOOK_BYTES) ==> cb[j] == old(cb[j])
    ensures !ok ==> BookAt(cb[..], at) == BookAt(old(cb[..]), at)
    ensures ok ==>
      && r.Rest() == old(r.Rest())[EntrySize(id)..]
      && BookAt(cb[..], at) == BookAt(old(cb[..]), at)[i := ReadEntry(id, old(r.Rest()), lut)]
  {
    if r.Left() < EntrySize(id) {
      return false;
    }
    ok := true;
    ghost var was := cb[..];
    if Monochrome(id) {
      LoadGrey(cb, at + 4 * i, id, r, lut);
    } else {
      LoadColour(cb, at + 4 * i, id, r, lut);
    }
    BookAfterEntry(was, cb[..], at, i);
  }

  /** One codebook chunk, drawn over the 1024 bytes at `at`. */
  method Codebook(cb: array<byte>, at: nat, id: byte, r: Reader, lut: Lut)
    requires at + BOOK_BYTES <= cb.Length && r.Valid()
    modifies cb, r`pos, r`p, r`win
    ensures r.Valid()
    ensures forall j :: 0 <= j < cb.Length && !(at <= j < at + BOOK_BYTES) ==> cb[j] == old(cb[j])
    ensures BookAt(cb[..], at) == UpdateBook(id, Source(old(r.Rest()), []), 0, BookAt(old(cb[..]), at), lut)
  {
    hide BookAt, ReadEntry, FlagsBelow, NextFlag, EntrySize, Reader.Valid, Reader.Rest;
    NoFlagsBelow(0);
    ghost var goal := UpdateBook(id, Source(r.Rest(), []), 0, BookAt(cb[..], at), lut);
    var flag, mask := 0, 0;
    var i := 0;
    while i < 256
      invariant 0 <= i <= 256 && r.Valid()
      invariant forall j :: 0 <= j < cb.Length && !(at <= j < at + BOOK_BYTES) ==> cb[j] == old(cb[j])
      invariant UpdateBook(id, Source(r.Rest(), FlagsBelow(flag, mask)), i, BookAt(cb[..], at), lut) == goal
    {
      var present := true;
      if Partial(id) {
        var ok;
        ok, flag, mask := DrawFlag(r, flag, mask);
        if !ok { return; }
        present := Masked(flag, mask);
      }
      if present {
        var ok := TakeEntry(cb, at, i, id, r, lut);
        if !ok { return; }
      }
      i := i + 1;
    }
  }

  // ---------------------------------------------------------------- drawing blocks

  /** One of the four rows of the current row of blocks. */
  class RowCursor {
    const out: array<byte>
    const addr: nat
    const seg: nat
    var off: nat
    var p: Far
    var room: nat

    ghost predicate Valid()
      reads this
    {
      && seg > 0
      && p.off < seg
      && Linear(p, seg) == addr + off
      && room == RoomOf(p, seg)
    }

    constructor (out: array<byte>, addr: nat, seg: nat, off: nat)
      requires seg > 0
      ensures Valid() && this.out == out && this.addr == addr && this.seg == seg && this.off == off
    {
      this.out, this.addr, this.seg := out, addr, seg;
      this.off := off;
      var at := FarOf(addr + off, seg);
      this.p, this.room := at, RoomOf(at, seg);
    }

    /** Four bytes through the cursor when they fit in its segment, and one at a time through the
        huge pointer when they do not. */
    method Put4(a: byte, b: byte, c: byte, d: byte)
      requires Valid() && off + 4 <= out.Length
      modifies out
      ensures out[..] == old(out[..])[off := a][off + 1 := b][off + 2 := c][off + 3 := d]
    {
      if room >= 4 {
        var to := Linear(p, seg) - addr;
        out[to] := a;
        out[to + 1] := b;
        out[to + 2] := c;
        out[to + 3] := d;
      } else {
        out[Linear(FarOf(addr + off, seg), seg) - addr] := a;
        out[Linear(FarOf(addr + off + 1, seg), seg) - addr] := b;
        out[Linear(FarOf(addr + off + 2, seg), seg) - addr] := c;
        out[Linear(FarOf(addr + off + 3, seg), seg) - addr] := d;
      }
    }

    method Next()
      requires Valid()
      modifies this
      ensures Valid() && off == old(off) + 4
    {
      off := off + 4;
      if room >= 8 {
        room := room - 4;
        p := Far(p.sel, p.off + 4);
      } else {
        p := FarOf(addr + off, seg);
        room := RoomOf(p, seg);
      }
    }
  }

  /** The four row cursors stand at the four rows of the block with its corner at (x, y). */
  ghost predicate RowsAt(w0: RowCursor, w1: RowCursor, w2: RowCursor, w3: RowCursor,
                         out: array<byte>, g: Grid, x: nat, y: nat)
    reads w0, w1, w2, w3
  {
    && w0.Valid() && w1.Valid() && w2.Valid() && w3.Valid()
    && w0 != w1 && w0 != w2 && w0 != w3 && w1 != w2 && w1 != w3 && w2 != w3
    && w0.out == out && w1.out == out && w2.out == out && w3.out == out
    && w0.off == RowAt(g, y, 0, x) && w1.off == RowAt(g, y, 1, x)
    && w2.off == RowAt(g, y, 2, x) && w3.off == RowAt(g, y, 3, x)
  }

  /** An unsigned 16-bit difference. */
  function Below(height: nat, y: nat): int {
    if y <= height then height - y else 0x1_0000 + height - y
  }

  method StartRows(out: array<byte>, addr: nat, seg: nat, g: Grid, y: nat)
    returns (w0: RowCursor, w1: RowCursor, w2: RowCursor, w3: RowCursor)
    requires seg > 0 && y < g.height + 4
    ensures RowsAt(w0, w1, w2, w3, out, g, g.x0, y)
    ensures fresh(w0) && fresh(w1) && fresh(w2) && fresh(w3)
  {
    var base := y * g.stride + g.x0;
    RowOffsets(g, y);
    w0 := new RowCursor(out, addr, seg, base);
    w1 := new RowCursor(out, addr, seg, if Below(g.height, y) > 1 then base + g.stride else base);
    w2 := new RowCursor(out, addr, seg, if Below(g.height, y) > 2 then base + 2 * g.stride else w1.off);
    w3 := new RowCursor(out, addr, seg, if Below(g.height, y) > 3 then base + 3 * g.stride else w2.off);
  }

  method NextRows(w0: RowCursor, w1: RowCursor, w2: RowCursor, w3: RowCursor,
                  ghost out: array<byte>, ghost g: Grid, ghost x: nat, ghost y: nat)
    requires RowsAt(w0, w1, w2, w3, out, g, x, y)
    modifies w0, w1, w2, w3
    ensures RowsAt(w0, w1, w2, w3, out, g, x + 4, y)
  {
    w0.Next();
    w1.Next();
    w2.Next();
    w3.Next();
  }

  lemma RowOffsets(g: Grid, y: nat)
    requires y < g.height + 4
    ensures var base := y * g.stride + g.x0;
      && RowAt(g, y, 0, g.x0) == base
      && RowAt(g, y, 1, g.x0) == (if Below(g.height, y) > 1 then base + g.stride else base)
      && RowAt(g, y, 2, g.x0)
         == (if Below(g.height, y) > 2 then base + 2 * g.stride else RowAt(g, y, 1, g.x0))
      && RowAt(g, y, 3, g.x0)
         == (if Below(g.height, y) > 3 then base + 3 * g.stride else RowAt(g, y, 2, g.x0))
  {
    var h := g.height;
    assert TargetRow(y, 0, h) == y;
    assert TargetRow(y, 1, h) == if Below(h, y) > 1 then y + 1 else y;
    assert TargetRow(y, 2, h) == if Below(h, y) > 2 then y + 2 else TargetRow(y, 1, h);
    assert TargetRow(y, 3, h) == if Below(h, y) > 3 then y + 3 else TargetRow(y, 2, h);
    StepRows(y, g.stride);
  }

  lemma StepRows(y: nat, stride: nat)
    ensures (y + 1) * stride == y * stride + stride
    ensures (y + 2) * stride == y * stride + 2 * stride
    ensures (y + 3) * stride == y * stride + 3 * stride
  {}

  lemma BookEntry(cb: seq<byte>, at: nat, index: byte)
    requires at + BOOK_BYTES <= |cb|
    ensures BookAt(cb, at)[index] == EntryAt(cb, at + 4 * index)
  {}

  lemma FourRowsFit(g: Grid, x: nat, y: nat, size: nat)
    requires BlockFits(g, x, y, size)
    ensures RowAt(g, y, 0, x) + 4 <= size && RowAt(g, y, 1, x) + 4 <= size
    ensures RowAt(g, y, 2, x) + 4 <= size && RowAt(g, y, 3, x) + 4 <= size
  {}

  /** Four pixels of row `r` of a block, where one row cursor stands. */
  method DrawRow(w: RowCursor, ghost b: Block, ghost books: Books, ghost r: nat, p0: byte, p1: byte, p2: byte, p3: byte)
    requires w.Valid() && w.off + 4 <= w.out.Length && !b.Skip? && r < 4
    requires p0 == BlockPixel(b, books, r, 0) && p1 == BlockPixel(b, books, r, 1)
    requires p2 == BlockPixel(b, books, r, 2) && p3 == BlockPixel(b, books, r, 3)
    modifies w.out
    ensures w.out[..] == PutRow(old(w.out[..]), w.off, b, books, r)
  {
    hide BlockPixel;
    w.Put4(p0, p1, p2, p3);
  }

  method DrawV1(w0: RowCursor, w1: RowCursor, w2: RowCursor, w3: RowCursor, ghost g: Grid, ghost x: nat, ghost y: nat,
                out: array<byte>, v1: array<byte>, at: nat, index: byte, ghost books: Books)
    requires RowsAt(w0, w1, w2, w3, out, g, x, y) && BlockFits(g, x, y, out.Length)
    requires v1 != out && at + BOOK_BYTES <= v1.Length && BookAt(v1[..], at) == books.v1
    modifies out
    ensures out[..] == PutBlock(old(out[..]), g, x, y, V1(index), books)
  {
    hide BookAt, BlockFits, RowAt, RowCursor.Valid, BlockPixel, PutRow;
    var p := at + 4 * index;
    BookEntry(v1[..], at, index);
    FourRowsFit(g, x, y, out.Length);
    ghost var b := V1(index);
    V1Pixels(index, books);
    DrawRow(w0, b, books, 0, v1[p], v1[p], v1[p + 1], v1[p + 1]);
    DrawRow(w1, b, books, 1, v1[p], v1[p], v1[p + 1], v1[p + 1]);
    DrawRow(w2, b, books, 2, v1[p + 2], v1[p + 2], v1[p + 3], v1[p + 3]);
    DrawRow(w3, b, books, 3, v1[p + 2], v1[p + 2], v1[p + 3], v1[p + 3]);
  }

  /** A V1 block: each pixel of one 2x2 vector doubled both ways. */
  lemma V1Pixels(index: byte, books: Books)
    ensures var b, e := V1(index), books.v1[index];
      forall r, c :: 0 <= r < 4 && 0 <= c < 4 ==>
        BlockPixel(b, books, r, c)
        == if r < 2 then (if c < 2 then e.tl else e.tr) else (if c < 2 then e.bl else e.br)
  {}

  method DrawV4(w0: RowCursor, w1: RowCursor, w2: RowCursor, w3: RowCursor, ghost g: Grid, ghost x: nat, ghost y: nat,
                out: array<byte>, v4: array<byte>, at: nat, tl: byte, tr: byte, bl: byte, br: byte, ghost books: Books)
    requires RowsAt(w0, w1, w2, w3, out, g, x, y) && BlockFits(g, x, y, out.Length)
    requires v4 != out && at + BOOK_BYTES <= v4.Length && BookAt(v4[..], at) == books.v4
    modifies out
    ensures out[..] == PutBlock(old(out[..]), g, x, y, V4(tl, tr, bl, br), books)
  {
    hide BookAt, BlockFits, RowAt, RowCursor.Valid, BlockPixel, PutRow;
    var a, b, c, d := at + 4 * tl, at + 4 * tr, at + 4 * bl, at + 4 * br;
    BookEntry(v4[..], at, tl);
    BookEntry(v4[..], at, tr);
    BookEntry(v4[..], at, bl);
    BookEntry(v4[..], at, br);
    FourRowsFit(g, x, y, out.Length);
    ghost var blk := V4(tl, tr, bl, br);
    V4Pixels(tl, tr, bl, br, books);
    DrawRow(w0, blk, books, 0, v4[a], v4[a + 1], v4[b], v4[b + 1]);
    DrawRow(w1, blk, books, 1, v4[a + 2], v4[a + 3], v4[b + 2], v4[b + 3]);
    DrawRow(w2, blk, books, 2, v4[c], v4[c + 1], v4[d], v4[d + 1]);
    DrawRow(w3, blk, books, 3, v4[c + 2], v4[c + 3], v4[d + 2], v4[d + 3]);
  }

  /** A V4 block: four 2x2 vectors, one to a quarter. */
  lemma V4Pixels(tl: byte, tr: byte, bl: byte, br: byte, books: Books)
    ensures var b, v := V4(tl, tr, bl, br), books.v4;
      && BlockPixel(b, books, 0, 0) == v[tl].tl && BlockPixel(b, books, 0, 1) == v[tl].tr
      && BlockPixel(b, books, 1, 0) == v[tl].bl && BlockPixel(b, books, 1, 1) == v[tl].br
      && BlockPixel(b, books, 0, 2) == v[tr].tl && BlockPixel(b, books, 0, 3) == v[tr].tr
      && BlockPixel(b, books, 1, 2) == v[tr].bl && BlockPixel(b, books, 1, 3) == v[tr].br
      && BlockPixel(b, books, 2, 0) == v[bl].tl && BlockPixel(b, books, 2, 1) == v[bl].tr
      && BlockPixel(b, books, 3, 0) == v[bl].bl && BlockPixel(b, books, 3, 1) == v[bl].br
      && BlockPixel(b, books, 2, 2) == v[br].tl && BlockPixel(b, books, 2, 3) == v[br].tr
      && BlockPixel(b, books, 3, 2) == v[br].bl && BlockPixel(b, books, 3, 3) == v[br].br
  {}

  /** The command of the next block: coded or not, which book, and its indices. */
  method ReadCommand(id: byte, r: Reader, flag: nat, mask: nat)
    returns (ok: bool, b: Block, flag': nat, mask': nat)
    requires r.Valid()
    modifies r`pos, r`p, r`win
    ensures r.Valid()
    ensures ReadBlock(id, Source(old(r.Rest()), FlagsBelow(flag, mask)))
         == if ok then Some(BlockRead(b, Source(r.Rest(), FlagsBelow(flag', mask')))) else None
  {
    flag', mask', b := flag, mask, Skip;
    if MayskipBlocks(id) {
      ok, flag', mask' := DrawFlag(r, flag', mask');
      if !ok || !Masked(flag', mask') { return; }
    }
    ok, b, flag', mask' := ReadCodedCommand(id, r, flag', mask');
  }

  method ReadCodedCommand(id: byte, r: Reader, flag: nat, mask: nat)
    returns (ok: bool, b: Block, flag': nat, mask': nat)
    requires r.Valid()
    modifies r`pos, r`p, r`win
    ensures r.Valid()
    ensures ReadCoded(id, Source(old(r.Rest()), FlagsBelow(flag, mask)))
         == if ok then Some(BlockRead(b, Source(r.Rest(), FlagsBelow(flag', mask')))) else None
  {
    flag', mask', b := flag, mask, Skip;
    if !OnlyV1(id) {
      ok, flag', mask' := DrawFlag(r, flag', mask');
      if !ok { return; }
      if Masked(flag', mask') {
        ok, b := ReadFour(r);
        return;
      }
    }
    if r.Left() == 0 {
      ok := false;
    } else {
      var index := r.U8();
      ok, b := true, V1(index);
    }
  }

  method ReadFour(r: Reader) returns (ok: bool, b: Block)
    requires r.Valid()
    modifies r`pos, r`p, r`win
    ensures r.Valid()
    ensures forall flags :: ReadV4(Source(old(r.Rest()), flags))
                            == if ok then Some(BlockRead(b, Source(r.Rest(), flags))) else None
  {
    if r.Left() < 4 {
      return false, Skip;
    }
    var tl := r.U8();
    var tr := r.U8();
    var bl := r.U8();
    var br := r.U8();
    ok, b := true, V4(tl, tr, bl, br);
  }

  method DrawBlock(b: Block, w0: RowCursor, w1: RowCursor, w2: RowCursor, w3: RowCursor,
                   ghost g: Grid, ghost x: nat, ghost y: nat,
                   out: array<byte>, v1: array<byte>, v4: array<byte>, at: nat, ghost books: Books)
    requires RowsAt(w0, w1, w2, w3, out, g, x, y) && BlockFits(g, x, y, out.Length)
    requires v1 != out && at + BOOK_BYTES <= v1.Length && BookAt(v1[..], at) == books.v1
    requires v4 != out && at + BOOK_BYTES <= v4.Length && BookAt(v4[..], at) == books.v4
    modifies out
    ensures out[..] == PutBlock(old(out[..]), g, x, y, b, books)
  {
    match b
    case Skip =>
    case V1(index) => DrawV1(w0, w1, w2, w3, g, x, y, out, v1, at, index, books);
    case V4(tl, tr, bl, br) => DrawV4(w0, w1, w2, w3, g, x, y, out, v4, at, tl, tr, bl, br, books);
  }

  /** The number of the block in a row and column of blocks. */
  ghost function Cell(row: nat, col: nat, cols: nat): nat { row * cols + col }

  lemma CellSteps(row: nat, col: nat, cols: nat)
    ensures Cell(row, col + 1, cols) == Cell(row, col, cols) + 1
    ensures Cell(row, cols, cols) == Cell(row + 1, 0, cols)
    ensures Cell(0, 0, cols) == 0
  {
    StepRows(row, cols);
  }

  /** One row of blocks, from the left edge of the strip to the right. */
  method BlockRow(id: byte, r: Reader, flag: nat, mask: nat, out: array<byte>, addr: nat, seg: nat,
                  rc: Rect, pg: Page, y: nat, ghost row: nat, ghost pic: seq<byte>, ghost done: seq<Block>,
                  v1: array<byte>, v4: array<byte>, at: nat, ghost books: Books)
    returns (ok: bool, flag': nat, mask': nat, ghost done': seq<Block>)
    requires r.Valid() && seg > 0 && rc.x0 < rc.x1 && rc.y0 < rc.y1
    requires v1 != out && at + BOOK_BYTES <= v1.Length && BookAt(v1[..], at) == books.v1
    requires v4 != out && at + BOOK_BYTES <= v4.Length && BookAt(v4[..], at) == books.v4
    requires y == rc.y0 + 4 * row && y < rc.y1 && y < pg.height + 4
    requires GridFits(GridOf(rc, pg), BlockCount(rc), out.Length)
    requires |done| <= BlockCount(rc) && |done| == Cell(row, 0, GridOf(rc, pg).cols)
    requires |pic| == out.Length && out[..] == Paint(pic, GridOf(rc, pg), done, books)
    modifies out, r`pos, r`p, r`win
    ensures r.Valid()
    ensures |done'| <= BlockCount(rc) && out[..] == Paint(pic, GridOf(rc, pg), done', books)
    ensures After(done, ReadBlocks(id, Source(old(r.Rest()), FlagsBelow(flag, mask)), BlockCount(rc) - |done|))
         == if ok then
              After(done', ReadBlocks(id, Source(r.Rest(), FlagsBelow(flag', mask')), BlockCount(rc) - |done'|))
            else Run(done', false)
    ensures ok ==> |done'| == Cell(row + 1, 0, GridOf(rc, pg).cols)
  {
    hide PutBlock, Paint, BlockFits, ReadBlocks, ReadBlock, FlagsBelow, After, RowsAt, BookAt, Cell, BlockCount;
    hide Reader.Valid, Reader.Rest;
    ghost var g, total := GridOf(rc, pg), BlockCount(rc);
    ghost var goal := After(done, ReadBlocks(id, Source(r.Rest(), FlagsBelow(flag, mask)), total - |done|));
    ok, flag', mask', done' := true, flag, mask, done;
    var w0, w1, w2, w3 := StartRows(out, addr, seg, GridOf(rc, pg), y);
    var x := rc.x0;
    ghost var col := 0;
    while x < rc.x1
      invariant x == rc.x0 + 4 * col && col <= g.cols && r.Valid()
      invariant |done'| == Cell(row, col, g.cols) && |done'| <= total
      invariant fresh(w0) && fresh(w1) && fresh(w2) && fresh(w3)
      invariant RowsAt(w0, w1, w2, w3, out, g, x, y)
      invariant out[..] == Paint(pic, g, done', books)
      invariant goal == After(done', ReadBlocks(id, Source(r.Rest(), FlagsBelow(flag', mask')), total - |done'|))
      decreases rc.x1 - x
    {
      BlockPlace(rc, pg, row, col, |done'|, out.Length);
      var b;
      ghost var src := Source(r.Rest(), FlagsBelow(flag', mask'));
      ok, b, flag', mask' := ReadCommand(id, r, flag', mask');
      NextBlock(done', id, src, total - |done'|);
      if !ok { return; }
      DrawBlock(b, w0, w1, w2, w3, g, x, y, out, v1, v4, at, books);
      PaintOne(pic, g, done', b, books, out.Length);
      done' := done' + [b];
      NextRows(w0, w1, w2, w3, out, g, x, y);
      CellSteps(row, col, g.cols);
      x := x + 4;
      col := col + 1;
    }
    CellSteps(row, col, g.cols);
  }

  lemma PaintOne(pic: seq<byte>, g: Grid, done: seq<Block>, b: Block, books: Books, size: nat)
    requires |pic| == size && GridFits(g, |done| + 1, size)
    ensures Paint(pic, g, done + [b], books)
         == PutBlock(Paint(pic, g, done, books), g, BlockX(g, |done|), BlockY(g, |done|), b, books)
  {
    assert (done + [b])[..|done|] == done;
  }

  lemma PaintNone(pic: seq<byte>, g: Grid, books: Books)
    requires g.cols > 0
    ensures Paint(pic, g, [], books) == pic
  {}

  /** One block chunk: the blocks it holds are painted, and a chunk that runs dry is an error after
      the blocks that were whole. */
  method Vectors(id: byte, r: Reader, out: array<byte>, addr: nat, seg: nat, rc: Rect, pg: Page,
                 v1: array<byte>, v4: array<byte>, at: nat, ghost books: Books)
    returns (code: int)
    requires r.Valid() && seg > 0
    requires StripFits(rc, pg, out.Length)
    requires v1 != out && at + BOOK_BYTES <= v1.Length && BookAt(v1[..], at) == books.v1
    requires v4 != out && at + BOOK_BYTES <= v4.Length && BookAt(v4[..], at) == books.v4
    modifies out, r`pos, r`p, r`win
    ensures r.Valid()
    ensures GridFits(GridOf(rc, pg), BlockCount(rc), out.Length)
    ensures var run := ReadBlocks(id, Source(old(r.Rest()), []), BlockCount(rc));
      && out[..] == Paint(old(out[..]), GridOf(rc, pg), run.blocks, books)
      && code == if run.complete then CV_OK else CV_E_DATA
  {
    hide PutBlock, Paint, BlockFits, ReadBlocks, BookAt, Cell, BlockCount, Reader.Valid, Reader.Rest, StripFits;
    StripOrder(rc, pg, out.Length);
    ghost var g, total := GridOf(rc, pg), BlockCount(rc);
    ghost var goal := ReadBlocks(id, Source(r.Rest(), []), total);
    ghost var pic, done := out[..], [];
    StripGridFits(rc, pg, out.Length);
    PaintNone(pic, g, books);
    CellSteps(0, 0, g.cols);
    CellCount(rc);
    var flag, mask := 0, 0;
    var y := rc.y0;
    ghost var row := 0;
    while y < rc.y1
      invariant y == rc.y0 + 4 * row && row <= CeilDiv4(rc.y1 - rc.y0) && r.Valid()
      invariant |done| == Cell(row, 0, g.cols) && |done| <= total
      invariant out[..] == Paint(pic, g, done, books)
      invariant goal == After(done, ReadBlocks(id, Source(r.Rest(), FlagsBelow(flag, mask)), total - |done|))
      decreases rc.y1 - y
    {
      var ok;
      ok, flag, mask, done := BlockRow(id, r, flag, mask, out, addr, seg, rc, pg, y, row, pic, done, v1, v4, at, books);
      if !ok {
        assert goal == Run(done, false);
        return CV_E_DATA;
      }
      y := y + 4;
      row := row + 1;
    }
    ReadNone(id, Source(r.Rest(), FlagsBelow(flag, mask)));
    assert goal.blocks == done;
    code := CV_OK;
  }

  lemma StripOrder(rc: Rect, pg: Page, size: nat)
    requires StripFits(rc, pg, size)
    ensures rc.x0 < rc.x1 && rc.y0 < rc.y1 < pg.height + 4
  {}

  lemma ReadNone(id: byte, src: Source)
    ensures ReadBlocks(id, src, 0) == Run([], true)
  {}

  lemma CellCount(rc: Rect)
    requires rc.x0 < rc.x1 && rc.y0 < rc.y1
    ensures BlockCount(rc) == Cell(CeilDiv4(rc.y1 - rc.y0), 0, CeilDiv4(rc.x1 - rc.x0))
  {}

  ghost function After(done: seq<Block>, rest: Run): Run {
    Run(done + rest.blocks, rest.complete)
  }

  lemma {:induction false} NextBlock(done: seq<Block>, id: byte, src: Source, n: nat)
    requires n > 0
    ensures match ReadBlock(id, src)
      case None => After(done, ReadBlocks(id, src, n)) == Run(done, false)
      case Some(b) => After(done, ReadBlocks(id, src, n)) == After(done + [b.block], ReadBlocks(id, b.rest, n - 1))
  {
    match ReadBlock(id, src)
    case None =>
    case Some(b) =>
      var rest := ReadBlocks(id, b.rest, n - 1);
      assert done + ([b.block] + rest.blocks) == done + [b.block] + rest.blocks;
  }

  /** Where the block in a row and column of blocks goes, and that it fits there. */
  lemma BlockPlace(rc: Rect, pg: Page, row: nat, col: nat, k: nat, size: nat)
    requires rc.x0 < rc.x1 && rc.y0 < rc.y1
    requires row < CeilDiv4(rc.y1 - rc.y0) && col < GridOf(rc, pg).cols && k == Cell(row, col, GridOf(rc, pg).cols)
    requires GridFits(GridOf(rc, pg), BlockCount(rc), size)
    ensures var g := GridOf(rc, pg);
      && k < BlockCount(rc)
      && BlockX(g, k) == g.x0 + 4 * col && BlockY(g, k) == g.y0 + 4 * row
      && BlockFits(g, g.x0 + 4 * col, g.y0 + 4 * row, size)
  {
    var g := GridOf(rc, pg);
    LessRow(row, CeilDiv4(rc.y1 - rc.y0), g.cols);
    QuotientIs(k, g.cols, row, col);
    DivModExact(k, g.cols);
    assert BlockFits(g, BlockX(g, k), BlockY(g, k), size);
  }

  // ---------------------------------------------------------------- strips and frames

  const STATE_BYTES: nat := MAX_STRIPS * BOOK_BYTES

  ghost function BooksAt(v4: seq<byte>, v1: seq<byte>, si: nat): Books
    requires |v4| == STATE_BYTES && |v1| == STATE_BYTES && si < MAX_STRIPS
  {
    Books(BookAt(v4, si * BOOK_BYTES), BookAt(v1, si * BOOK_BYTES))
  }

  ghost function StateOf(v4: seq<byte>, v1: seq<byte>): State
    requires |v4| == STATE_BYTES && |v1| == STATE_BYTES
  {
    seq(MAX_STRIPS, si requires 0 <= si < MAX_STRIPS => BooksAt(v4, v1, si))
  }

  lemma StateSlot(v4: seq<byte>, v1: seq<byte>, si: nat)
    requires |v4| == STATE_BYTES && |v1| == STATE_BYTES && si < MAX_STRIPS
    ensures StateOf(v4, v1)[si] == Books(BookAt(v4, si * BOOK_BYTES), BookAt(v1, si * BOOK_BYTES))
  {}

  /** Bytes that differ only inside one strip's codebook leave every other codebook as it was. */
  lemma OtherBooks(was: seq<byte>, now: seq<byte>, si: nat)
    requires |was| == STATE_BYTES && |now| == STATE_BYTES && si < MAX_STRIPS
    requires forall j :: 0 <= j < |was| && !(si * BOOK_BYTES <= j < (si + 1) * BOOK_BYTES) ==> now[j] == was[j]
    ensures forall k :: 0 <= k < MAX_STRIPS && k != si ==> BookAt(now, k * BOOK_BYTES) == BookAt(was, k * BOOK_BYTES)
  {
    forall k | 0 <= k < MAX_STRIPS && k != si
      ensures BookAt(now, k * BOOK_BYTES) == BookAt(was, k * BOOK_BYTES)
    {
      forall i | 0 <= i < 256
        ensures EntryAt(now, k * BOOK_BYTES + 4 * i) == EntryAt(was, k * BOOK_BYTES + 4 * i)
      {}
    }
  }

  lemma StateAfterV4(was: seq<byte>, now: seq<byte>, v1: seq<byte>, si: nat)
    requires |was| == STATE_BYTES && |now| == STATE_BYTES && |v1| == STATE_BYTES && si < MAX_STRIPS
    requires forall j :: 0 <= j < |was| && !(si * BOOK_BYTES <= j < (si + 1) * BOOK_BYTES) ==> now[j] == was[j]
    ensures StateOf(now, v1)
         == StateOf(was, v1)[si := StateOf(was, v1)[si].(v4 := BookAt(now, si * BOOK_BYTES))]
  {
    OtherBooks(was, now, si);
  }

  lemma StateAfterV1(v4: seq<byte>, was: seq<byte>, now: seq<byte>, si: nat)
    requires |was| == STATE_BYTES && |now| == STATE_BYTES && |v4| == STATE_BYTES && si < MAX_STRIPS
    requires forall j :: 0 <= j < |was| && !(si * BOOK_BYTES <= j < (si + 1) * BOOK_BYTES) ==> now[j] == was[j]
    ensures StateOf(v4, now)
         == StateOf(v4, was)[si := StateOf(v4, was)[si].(v1 := BookAt(now, si * BOOK_BYTES))]
  {
    OtherBooks(was, now, si);
  }

  /** A chunk's header. A chunk may not run past the end of its strip: the reader is left with the
      chunk's body and no more, unless the size is too small for a chunk at all. */
  method EnterChunk(r: Reader) returns (id: byte, size: nat)
    requires r.Valid() && r.Left() >= 4
    modifies r
    ensures r.Valid()
    ensures id == old(r.Rest())[0]
    ensures var bytes := old(r.Rest());
      var claimed := Be24(bytes[1], bytes[2], bytes[3]);
      if claimed < 4 then size == claimed && r.end == old(r.end)
      else size == Min(claimed, |bytes|) && r.Rest() == bytes[4..size]
  {
    ghost var bytes := r.Rest();
    var here, stripEnd := r.pos, r.end;
    id := r.U8();
    size := r.ReadBe24();
    if size < 4 { return; }
    if here + size > stripEnd {
      size := stripEnd - here;
    }
    r.end := here + size;
    SubSlice(r.data, here, stripEnd, 4, size - 4);
    assert r.Rest() == r.data[here + 4..here + size];
    assert bytes == r.data[here..stripEnd];
  }

  /** On to the chunk behind one that started at `here`. */
  method LeaveChunk(r: Reader, here: nat, size: nat, stripEnd: nat)
    requires r.Valid() && here + size <= stripEnd <= |r.data|
    modifies r
    ensures r.Valid() && r.end == stripEnd
    ensures r.Rest() == r.data[here..stripEnd][size..]
  {
    r.end := stripEnd;
    r.Seek(here + size);
  }

  method BookChunk(v4: array<byte>, v1: array<byte>, si: nat, id: byte, r: Reader, lut: Lut)
    requires v4.Length == STATE_BYTES && v1.Length == STATE_BYTES && si < MAX_STRIPS && v4 != v1
    requires r.Valid()
    modifies v4, v1, r`pos, r`p, r`win
    ensures r.Valid()
    ensures var was := StateOf(old(v4[..]), old(v1[..]));
      StateOf(v4[..], v1[..]) == was[si := ChunkBooks(id, Source(old(r.Rest()), []), was[si], lut)]
  {
    hide UpdateBook, BookAt, StateOf;
    StateSlot(v4[..], v1[..], si);
    if id in V4_CHUNKS {
      ghost var before := v4[..];
      Codebook(v4, si * BOOK_BYTES, id, r, lut);
      StateAfterV4(before, v4[..], v1[..], si);
    } else if id in V1_CHUNKS {
      ghost var before := v1[..];
      Codebook(v1, si * BOOK_BYTES, id, r, lut);
      StateAfterV1(v4[..], before, v1[..], si);
    }
  }

  /** The chunks of one strip, up to and including its first block chunk. */
  method Strip(v4: array<byte>, v1: array<byte>, si: nat, r: Reader, lut: Lut,
               out: array<byte>, addr: nat, seg: nat, rc: Rect, pg: Page)
    returns (code: int)
    requires v4.Length == STATE_BYTES && v1.Length == STATE_BYTES && si < MAX_STRIPS
    requires v4 != v1 && v4 != out && v1 != out
    requires r.Valid() && seg > 0 && StripFits(rc, pg, out.Length)
    modifies v4, v1, out, r
    ensures r.Valid() && r.end == old(r.end)
    ensures var was := StateOf(old(v4[..]), old(v1[..]));
      var res := DecodeStrip(was[si], old(r.Rest()), lut, old(out[..]), rc, pg);
      && StateOf(v4[..], v1[..]) == was[si := res.books]
      && out[..] == res.pic
      && code == res.code
  {
    hide Paint, GridFits, ChunkBooks, ReadBlocks, BookAt, StateOf, StripFits;
    ghost var was := StateOf(v4[..], v1[..]);
    ghost var goal := DecodeStrip(was[si], r.Rest(), lut, out[..], rc, pg);
    ghost var books := was[si];
    var stripEnd := r.end;
    while r.Left() >= 4
      invariant r.Valid() && r.end == stripEnd
      invariant StateOf(v4[..], v1[..]) == was[si := books]
      invariant DecodeStrip(books, r.Rest(), lut, out[..], rc, pg) == goal
      decreases r.Left()
    {
      ghost var bytes := r.Rest();
      StateSlot(v4[..], v1[..], si);
      var here := r.pos;
      var id, size := EnterChunk(r);
      if size < 4 {
        return CV_E_DATA;
      }
      if id in BLOCK_CHUNKS {
        code := Vectors(id, r, out, addr, seg, rc, pg, v1, v4, si * BOOK_BYTES, books);
        LeaveChunk(r, here, size, stripEnd);
        return;
      }
      BookChunk(v4, v1, si, id, r, lut);
      books := ChunkBooks(id, Source(bytes[4..size], []), books, lut);
      LeaveChunk(r, here, size, stripEnd);
    }
    code := CV_E_DATA;
  }

  /** A strip's codebook of one kind is started from the strip above it. */
  method CopyBook(cb: array<byte>, si: nat)
    requires cb.Length == STATE_BYTES && 0 < si < MAX_STRIPS
    modifies cb
    ensures forall j :: 0 <= j < cb.Length && !(si * BOOK_BYTES <= j < (si + 1) * BOOK_BYTES) ==> cb[j] == old(cb[j])
    ensures BookAt(cb[..], si * BOOK_BYTES) == BookAt(old(cb[..]), (si - 1) * BOOK_BYTES)
  {
    var at, from, k := si * BOOK_BYTES, (si - 1) * BOOK_BYTES, 0;
    while k < BOOK_BYTES
      invariant 0 <= k <= BOOK_BYTES
      invariant forall j :: 0 <= j < cb.Length && !(at <= j < at + BOOK_BYTES) ==> cb[j] == old(cb[j])
      invariant forall j :: at <= j < at + k ==> cb[j] == old(cb[j - BOOK_BYTES])
    {
      cb[at + k] := cb[from + k];
      k := k + 1;
    }
    forall i | 0 <= i < 256
      ensures EntryAt(cb[..], at + 4 * i) == EntryAt(old(cb[..]), from + 4 * i)
    {}
  }

  method InheritBooks(v4: array<byte>, v1: array<byte>, i: nat, flags: byte)
    requires v4.Length == STATE_BYTES && v1.Length == STATE_BYTES && v4 != v1
    modifies v4, v1
    ensures StateOf(v4[..], v1[..]) == Inherit(StateOf(old(v4[..]), old(v1[..])), i, flags)
  {
    hide BookAt, StateOf;
    if 0 < i < MAX_STRIPS && flags % 2 == 0 {
      ghost var a, b := v4[..], v1[..];
      StateSlot(a, b, i - 1);
      CopyBook(v4, i);
      StateAfterV4(a, v4[..], b, i);
      CopyBook(v1, i);
      StateAfterV1(v4[..], b, v1[..], i);
    }
  }

  lemma RestAt(data: seq<byte>, from: nat, to: nat, rest: seq<byte>)
    requires from <= to <= |data| && rest == data[from..to]
    ensures forall k :: 0 <= k < |rest| ==> rest[k] == data[from + k]
  {}

  method ReadStripHead(r: Reader, y0: nat) returns (head: Head)
    requires r.Valid() && r.Left() >= 12
    modifies r`pos, r`p, r`win
    ensures r.Valid() && r.pos == old(r.pos) + 12
    ensures head == ReadHead(old(r.Rest()), y0)
  {
    ghost var bytes, from := r.Rest(), r.pos;
    assert |bytes| >= 12 && bytes == r.data[from..r.end];
    RestAt(r.data, from, r.end, bytes);
    hide Be16, Be24, Reader.Valid, Reader.Rest;
    var id := r.U8();
    var size := r.ReadBe24();
    var top := r.ReadBe16();
    var left := r.ReadBe16();
    var bottom := r.ReadBe16();
    var right := r.ReadBe16();
    if top == 0 {
      top, bottom := y0, y0 + bottom;
    }
    head := Head(size, Rect(left, top, right, bottom));
  }

  /** Forget every codebook. */
  method Reset(v4: array<byte>, v1: array<byte>)
    requires v4.Length == STATE_BYTES && v1.Length == STATE_BYTES && v4 != v1
    modifies v4, v1
    ensures StateOf(v4[..], v1[..]) == seq(MAX_STRIPS, _ => Books(seq(256, _ => BLANK), seq(256, _ => BLANK)))
  {
    var n := 0;
    while n < STATE_BYTES
      invariant 0 <= n <= STATE_BYTES
      invariant forall j :: 0 <= j < n ==> v4[j] == 0 && v1[j] == 0
    {
      v4[n] := 0;
      v1[n] := 0;
      n := n + 1;
    }
    forall si | 0 <= si < MAX_STRIPS
      ensures BooksAt(v4[..], v1[..], si) == Books(seq(256, _ => BLANK), seq(256, _ => BLANK))
    {
      assert BookAt(v4[..], si * BOOK_BYTES) == seq(256, _ => BLANK);
      assert BookAt(v1[..], si * BOOK_BYTES) == seq(256, _ => BLANK);
    }
  }

  /** One strip: its header, the codebooks it starts from, its chunks. */
  method OneStrip(v4: array<byte>, v1: array<byte>, i: nat, ghost left: nat, flags: byte, y0: nat, r: Reader, lut: Lut,
                  out: array<byte>, addr: nat, seg: nat, pg: Page)
    returns (code: int, y1: nat)
    requires v4.Length == STATE_BYTES && v1.Length == STATE_BYTES
    requires v4 != v1 && v4 != out && v1 != out && seg > 0 && r.Valid()
    requires left > 0 && PageFits(StripRects(r.Rest(), left, y0, pg), pg, out.Length)
    modifies v4, v1, out, r
    ensures r.Valid() && r.end == old(r.end)
    ensures StripStep(StateOf(old(v4[..]), old(v1[..])), old(r.Rest()), i, left, flags, y0, lut, old(out[..]), pg)
         == if code == CV_OK then Go(StateOf(v4[..], v1[..]), out[..], r.Rest(), y1)
            else Stop(FrameResult(StateOf(v4[..], v1[..]), out[..], code))
  {
    hide StateOf, StripFits, DecodeStrip, Inherit, OnPage, StripRects, PageFits, ReadHead;
    y1 := 0;
    if r.Left() < 12 { return CV_E_SHORT, y1; }
    ghost var bytes := r.Rest();
    var here, end := r.pos, r.end;
    var head := ReadStripHead(r, y0);
    if head.size < 12 { return CV_E_DATA, y1; }
    var stripEnd := if here + head.size > end then end else here + head.size;
    if stripEnd <= r.pos { return CV_E_DATA, y1; }
    if !OnPage(head.rc, pg) { return CV_E_GEOM, y1; }
    StripFitsPage(bytes, left, y0, pg, out.Length);
    var m := stripEnd - here;
    InheritBooks(v4, v1, i, flags);
    r.end := stripEnd;
    SubSlice(r.data, here, end, 12, m - 12);
    assert r.Rest() == r.data[here + 12..here + m];
    code := Strip(v4, v1, SlotOf(i), r, lut, out, addr, seg, head.rc, pg);
    r.end := end;
    if code != CV_OK { return; }
    LeaveChunk(r, here, m, end);
    y1 := head.rc.y1;
  }

  method Strips(v4: array<byte>, v1: array<byte>, n: nat, flags: byte, r: Reader, lut: Lut,
                out: array<byte>, addr: nat, seg: nat, pg: Page)
    returns (code: int)
    requires v4.Length == STATE_BYTES && v1.Length == STATE_BYTES
    requires v4 != v1 && v4 != out && v1 != out && seg > 0 && r.Valid()
    requires PageFits(StripRects(r.Rest(), n, 0, pg), pg, out.Length)
    modifies v4, v1, out, r
    ensures FrameResult(StateOf(v4[..], v1[..]), out[..], code)
         == DecodeStrips(StateOf(old(v4[..]), old(v1[..])), old(r.Rest()), 0, n, flags, 0, lut, old(out[..]), pg)
  {
    hide StateOf, StripRects, PageFits, StripStep, Reader.Rest, Reader.Valid;
    ghost var goal := DecodeStrips(StateOf(v4[..], v1[..]), r.Rest(), 0, n, flags, 0, lut, out[..], pg);
    var y0, i := 0, 0;
    while i < n
      invariant i <= n && r.Valid()
      invariant PageFits(StripRects(r.Rest(), n - i, y0, pg), pg, out.Length)
      invariant DecodeStrips(StateOf(v4[..], v1[..]), r.Rest(), i, n - i, flags, y0, lut, out[..], pg) == goal
    {
      code, y0 := OneStrip(v4, v1, i, n - i, flags, y0, r, lut, out, addr, seg, pg);
      if code != CV_OK { return; }
      i := i + 1;
    }
    code := CV_OK;
  }

  method ReadFrameHead(r: Reader) returns (flags: byte, size: nat, strips: nat)
    requires r.Valid() && r.pos == 0 && r.end == |r.data| && r.end >= 10
    modifies r`pos, r`p, r`win
    ensures r.Valid() && r.pos == 10
    ensures flags == r.data[0] && size == Be24(r.data[1], r.data[2], r.data[3])
    ensures strips == Be16(r.data[8], r.data[9])
  {
    flags := r.U8();
    size := r.ReadBe24();
    var frameWidth := r.ReadBe16();
    var frameHeight := r.ReadBe16();
    strips := r.ReadBe16();
  }

  /** One frame decoded over the top of `out`. Frames are read and blocks are written through
      segments of any size, starting anywhere in memory. */
  method Decode(v4: array<byte>, v1: array<byte>, data: seq<byte>, addr: nat, lut: Lut,
                out: array<byte>, outAddr: nat, seg: nat, pg: Page)
    returns (code: int)
    requires v4.Length == STATE_BYTES && v1.Length == STATE_BYTES
    requires v4 != v1 && v4 != out && v1 != out && seg > 0
    requires Drawable(pg) ==> PageFits(FrameRects(data, pg), pg, out.Length)
    modifies v4, v1, out
    ensures FrameResult(StateOf(v4[..], v1[..]), out[..], code)
         == DecodeFrame(StateOf(old(v4[..]), old(v1[..])), data, lut, old(out[..]), pg)
  {
    hide StateOf, StripRects, PageFits, DecodeStrips;
    if |data| < 10 { return CV_E_SHORT; }
    if pg.width == 0 || pg.height == 0 || pg.stride < Pad4(pg.width) { return CV_E_GEOM; }
    var r := new Reader(data, addr, seg);
    var flags, flen, strips := ReadFrameHead(r);
    if flen < 10 { return CV_E_SHORT; }
    if flen < |data| { r.end := flen; }
    assert r.Rest() == FrameBody(data);
    code := Strips(v4, v1, strips, flags, r, lut, out, outAddr, seg, pg);
  }
}
