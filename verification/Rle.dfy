/**
 Run-length coded bitmaps (tools/ne-icons.py; BI_RLE8 and BI_RLE4, section 2.1.1.7 of [MS-WMF]): decoding
 bytes into packed rows is painting a program of runs on a grid of pixels.
 */
module Rle {
  import opened Arith
  import opened Bytes

  /** A bitmap's size, and whether a pixel is a byte or half of one. */
  datatype Shape = Shape(w: nat, h: nat, wide: bool)

  // ---------------------------------------------------------------- painting

  /** Pixels by row and column; those never painted are 0. */
  type Grid = map<(nat, nat), nat>

  function Pixel(grid: Grid, y: nat, x: nat): nat { if (y, x) in grid then grid[(y, x)] else 0 }

  datatype Pen = Pen(grid: Grid, x: nat, y: nat)

  /** One pixel: right of the picture it goes nowhere, above it there is no row for it. */
  function Dotted(pen: Pen, v: nat, s: Shape): Option<Pen> {
    if pen.x >= s.w then Some(pen.(x := pen.x + 1))
    else if pen.y >= s.h then None
    else Some(Pen(pen.grid[(pen.y, pen.x) := v], pen.x + 1, pen.y))
  }

  function PutAll(pen: Pen, vs: seq<nat>, s: Shape): Option<Pen> {
    if vs == [] then Some(pen)
    else
      var before := PutAll(pen, vs[..|vs| - 1], s);
      if before == None then None else Dotted(before.value, vs[|vs| - 1], s)
  }

  datatype Op = Run(n: nat, v: byte) | Literal(vs: seq<nat>) | Eol | Skip(dx: nat, dy: nat) | Eob

  /** The colours of a coded byte: itself, or its halves in turn. */
  function Shade(v: byte, i: nat, wide: bool): nat {
    if wide then v else if i % 2 == 0 then v / 16 else v % 16
  }

  function Shades(v: byte, n: nat, wide: bool): (vs: seq<nat>)
    ensures |vs| == n
  {
    seq(n, i requires 0 <= i < n => Shade(v, i, wide))
  }

  function Step(pen: Pen, op: Op, s: Shape): Option<Pen> {
    match op
    case Run(n, v) => PutAll(pen, Shades(v, n, s.wide), s)
    case Literal(vs) => PutAll(pen, vs, s)
    case Eol => Some(Pen(pen.grid, 0, pen.y + 1))
    case Skip(dx, dy) => Some(Pen(pen.grid, pen.x + dx, pen.y + dy))
    case Eob => Some(pen)
  }

  function Paint(pen: Pen, ops: seq<Op>, s: Shape): Option<Pen>
    decreases |ops|
  {
    if ops == [] then Some(pen)
    else
      var next := Step(pen, ops[0], s);
      if next == None then None else Paint(next.value, ops[1..], s)
  }

  /** What a pixel is after a run of colours from `x0` on row `y0`. */
  function AfterRun(grid: Grid, y0: nat, x0: nat, vs: seq<nat>, s: Shape, y: nat, x: nat): nat {
    if y == y0 && x0 <= x < x0 + |vs| && x < s.w then vs[x - x0] else Pixel(grid, y, x)
  }

  /** A run paints its colours on one row, as far as the picture goes, and nothing else; it fails exactly
      when its first pixel stands above the picture. */
  lemma {:induction false} PutAllIs(pen: Pen, vs: seq<nat>, s: Shape)
    ensures PutAll(pen, vs, s).None? <==> vs != [] && pen.x < s.w && pen.y >= s.h
    ensures PutAll(pen, vs, s).Some? ==>
      var end := PutAll(pen, vs, s).value;
      && end.x == pen.x + |vs| && end.y == pen.y
      && forall y: nat, x: nat :: Pixel(end.grid, y, x) == AfterRun(pen.grid, pen.y, pen.x, vs, s, y, x)
    decreases |vs|
  {
    if vs != [] {
      var n := |vs| - 1;
      PutAllIs(pen, vs[..n], s);
      if PutAll(pen, vs, s).Some? {
        var before, end := PutAll(pen, vs[..n], s).value, PutAll(pen, vs, s).value;
        forall y: nat, x: nat
          ensures Pixel(end.grid, y, x) == AfterRun(pen.grid, pen.y, pen.x, vs, s, y, x)
        {
          DotIs(before, vs[n], s, y, x);
          assert Pixel(before.grid, y, x) == AfterRun(pen.grid, pen.y, pen.x, vs[..n], s, y, x);
        }
      }
    }
  }

  lemma DotIs(pen: Pen, v: nat, s: Shape, y: nat, x: nat)
    requires Dotted(pen, v, s).Some?
    ensures Dotted(pen, v, s).value.x == pen.x + 1 && Dotted(pen, v, s).value.y == pen.y
    ensures Pixel(Dotted(pen, v, s).value.grid, y, x)
         == if y == pen.y && x == pen.x && x < s.w then v else Pixel(pen.grid, y, x)
  {}

  // ---------------------------------------------------------------- the coded form

  datatype Token = Ended | Broken | Token(op: Op, next: nat)

  function LiteralSize(n: nat, wide: bool): nat { if wide then n else (n + 1) / 2 }

  function LiteralAt(blob: seq<byte>, p: nat, i: nat, wide: bool): nat
    requires wide ==> p + i < |blob|
    requires !wide ==> p + i / 2 < |blob|
  {
    if wide then blob[p + i] else Shade(blob[p + i / 2], i, false)
  }

  lemma LiteralIn(n: nat, i: nat, wide: bool)
    requires i < n
    ensures (if wide then i else i / 2) < LiteralSize(n, wide)
  {}

  function Literals(blob: seq<byte>, p: nat, n: nat, wide: bool): (vs: seq<nat>)
    requires p + LiteralSize(n, wide) <= |blob|
    ensures |vs| == n
  {
    seq(n, i requires 0 <= i < n => LiteralIn(n, i, wide); LiteralAt(blob, p, i, wide))
  }

  /** The piece of the coded form at a place. */
  function Next(blob: seq<byte>, p: nat, wide: bool): Token {
    if p + 1 >= |blob| then Ended
    else if blob[p] > 0 then Token(Run(blob[p], blob[p + 1]), p + 2)
    else if blob[p + 1] == 0 then Token(Eol, p + 2)
    else if blob[p + 1] == 1 then Token(Eob, p + 2)
    else if blob[p + 1] == 2 then
      if p + 3 >= |blob| then Broken else Token(Skip(blob[p + 2], blob[p + 3]), p + 4)
    else
      var size := LiteralSize(blob[p + 1], wide);
      if p + 2 + size > |blob| then Broken
      else Token(Literal(Literals(blob, p + 2, blob[p + 1], wide)), p + 2 + size + size % 2)
  }

  /** What some bytes paint, and where their end is: after the end marker, or where there are no two bytes
      left. */
  function Decode(pen: Pen, blob: seq<byte>, p: nat, s: Shape): Option<(Pen, nat)>
    decreases |blob| - p
  {
    match Next(blob, p, s.wide)
    case Ended => Some((pen, p))
    case Broken => None
    case Token(op, next) =>
      if op == Eob then Some((pen, next))
      else
        var after := Step(pen, op, s);
        if after == None then None else Decode(after.value, blob, next, s)
  }

  // ---------------------------------------------------------------- packed rows

  function Stride(s: Shape): nat { (s.w * (if s.wide then 8 else 4) + 31) / 32 * 4 }

  /** How many pixels a stored row has room for. */
  function Cols(s: Shape): nat { if s.wide then Stride(s) else Stride(s) * 2 }

  lemma RowHolds(s: Shape)
    ensures s.w <= Cols(s)
  {}

  function Place(y: nat, x: nat, s: Shape): nat { y * Stride(s) + (if s.wide then x else x / 2) }

  lemma PlaceIn(y: nat, x: nat, s: Shape)
    requires y < s.h && x < Cols(s)
    ensures Place(y, x, s) < Stride(s) * s.h
  {
    LessRow(y, s.h, Stride(s));
  }

  lemma PlaceOut(y: nat, x: nat, s: Shape)
    requires y >= s.h
    ensures Place(y, x, s) >= Stride(s) * s.h
  {
    assert y * Stride(s) == s.h * Stride(s) + (y - s.h) * Stride(s);
  }

  function StoredAt(out: seq<byte>, y: nat, x: nat, s: Shape): nat
    requires Place(y, x, s) < |out|
  {
    Shade(out[Place(y, x, s)], x, s.wide)
  }

  /** The byte with one of its pixels replaced. */
  function Replaced(b: byte, x: nat, v: nat, wide: bool): (r: byte)
    requires v < if wide then 256 else 16
    ensures Shade(r, x, wide) == v
    ensures forall i: nat :: !wide && i % 2 != x % 2 ==> Shade(r, i, wide) == Shade(b, i, wide)
  {
    if wide then v else if x % 2 == 0 then b % 16 + v * 16 else b / 16 * 16 + v
  }

  lemma OtherPlace(y: nat, x: nat, y': nat, x': nat, s: Shape)
    requires x < Cols(s) && x' < Cols(s)
    ensures Place(y, x, s) == Place(y', x', s) <==> y == y' && (if s.wide then x == x' else x / 2 == x' / 2)
  {
    SamePlace(y, if s.wide then x else x / 2, y', if s.wide then x' else x' / 2, Stride(s));
  }

  /** Writing one pixel changes that pixel alone, its neighbour in the same byte included. */
  lemma OnePixel(out: seq<byte>, y: nat, x: nat, v: nat, s: Shape, y': nat, x': nat)
    requires y < s.h && x < Cols(s) && y' < s.h && x' < Cols(s)
    requires |out| == Stride(s) * s.h && v < if s.wide then 256 else 16
    ensures Place(y, x, s) < |out| && Place(y', x', s) < |out|
    ensures var i := Place(y, x, s);
      StoredAt(out[i := Replaced(out[i], x, v, s.wide)], y', x', s)
      == if y == y' && x == x' then v else StoredAt(out, y', x', s)
  {
    PlaceIn(y, x, s);
    PlaceIn(y', x', s);
    OtherPlace(y, x, y', x', s);
    hide Place, Stride, Replaced, Cols;
  }

  /** The rows hold the picture, and nothing but zeros to the right of it. */
  ghost predicate Shows(out: seq<byte>, grid: Grid, s: Shape) {
    && |out| == Stride(s) * s.h
    && forall y: nat, x: nat :: y < s.h && x < Cols(s) ==> ShownAt(out, grid, y, x, s)
  }

  ghost predicate ShownAt(out: seq<byte>, grid: Grid, y: nat, x: nat, s: Shape) {
    Place(y, x, s) < |out| && StoredAt(out, y, x, s) == if x < s.w then Pixel(grid, y, x) else 0
  }

  lemma ShowsAfter(out: seq<byte>, pen: Pen, v: nat, s: Shape)
    requires Shows(out, pen.grid, s) && v < if s.wide then 256 else 16
    requires pen.x < s.w && pen.y < s.h
    ensures Place(pen.y, pen.x, s) < |out|
    ensures var i := Place(pen.y, pen.x, s);
      Shows(out[i := Replaced(out[i], pen.x, v, s.wide)], pen.grid[(pen.y, pen.x) := v], s)
  {
    hide Place, Stride, Replaced, Cols, StoredAt;
    RowHolds(s);
    PlaceIn(pen.y, pen.x, s);
    var i := Place(pen.y, pen.x, s);
    var out', grid' := out[i := Replaced(out[i], pen.x, v, s.wide)], pen.grid[(pen.y, pen.x) := v];
    forall y: nat, x: nat | y < s.h && x < Cols(s)
      ensures ShownAt(out', grid', y, x, s)
    {
      assert ShownAt(out, pen.grid, y, x, s);
      OnePixel(out, pen.y, pen.x, v, s, y, x);
    }
  }

  lemma BlankShows(out: seq<byte>, s: Shape)
    requires |out| == Stride(s) * s.h && forall i :: 0 <= i < |out| ==> out[i] == 0
    ensures Shows(out, map[], s)
  {
    hide Place, Stride;
    forall y: nat, x: nat | y < s.h && x < Cols(s)
      ensures ShownAt(out, map[], y, x, s)
    {
      PlaceIn(y, x, s);
    }
  }

  // ---------------------------------------------------------------- the decoder

  class Canvas {
    const s: Shape
    const out: array<byte>
    var x: nat
    var y: nat
    ghost var grid: Grid

    ghost predicate Valid()
      reads this, out
    {
      Shows(out[..], grid, s)
    }

    ghost function Now(): Pen
      reads this
    {
      Pen(grid, x, y)
    }

    constructor (s: Shape)
      ensures Valid() && this.s == s && fresh(out) && Now() == Pen(map[], 0, 0)
    {
      this.s := s;
      out := new byte[Stride(s) * s.h](_ => 0);
      x, y, grid := 0, 0, map[];
      new;
      BlankShows(out[..], s);
    }

    /** Stores one pixel; fails when it has no row. */
    method Put(v: nat) returns (ok: bool)
      requires Valid() && v < if s.wide then 256 else 16
      modifies this, out
      ensures Valid()
      ensures Dotted(old(Now()), v, s) == if ok then Some(Now()) else None
    {
      hide Shows, Place, Replaced, Stride;
      if x < s.w {
        if y >= s.h {
          PlaceOut(y, x, s);
          return false;
        }
        ShowsAfter(out[..], Now(), v, s);
        SizeOf(out[..], grid, s);
        ghost var was := out[..];
        var i := Place(y, x, s);
        out[i] := Replaced(out[i], x, v, s.wide);
        assert out[..] == was[i := Replaced(was[i], x, v, s.wide)];
        grid := grid[(y, x) := v];
      }
      x := x + 1;
      ok := true;
    }

    /** A coded run. */
    method PutRun(n: nat, v: byte) returns (ok: bool)
      requires Valid()
      modifies this, out
      ensures Valid()
      ensures PutAll(old(Now()), Shades(v, n, s.wide), s) == if ok then Some(Now()) else None
    {
      hide Shows;
      ghost var vs, i := Shades(v, n, s.wide), 0;
      ok := true;
      var k: nat := 0;
      while k < n
        invariant k <= n && Valid()
        invariant PutAll(old(Now()), vs[..k], s) == Some(Now())
      {
        assert vs[..k + 1][..k] == vs[..k];
        ok := Put(Shade(v, k, s.wide));
        if !ok {
          FailsOn(old(Now()), vs, k + 1, s);
          return;
        }
        k := k + 1;
      }
      assert vs[..n] == vs;
    }

    /** A run of pixels of their own. */
    method PutLiteral(blob: seq<byte>, p: nat, n: nat) returns (ok: bool)
      requires Valid() && p + LiteralSize(n, s.wide) <= |blob|
      modifies this, out
      ensures Valid()
      ensures PutAll(old(Now()), Literals(blob, p, n, s.wide), s) == if ok then Some(Now()) else None
    {
      hide Shows;
      ghost var vs := Literals(blob, p, n, s.wide);
      ok := true;
      var k: nat := 0;
      while k < n
        invariant k <= n && Valid()
        invariant PutAll(old(Now()), vs[..k], s) == Some(Now())
      {
        assert vs[..k + 1][..k] == vs[..k];
        LiteralIn(n, k, s.wide);
        ok := Put(LiteralAt(blob, p, k, s.wide));
        if !ok {
          FailsOn(old(Now()), vs, k + 1, s);
          return;
        }
        k := k + 1;
      }
      assert vs[..n] == vs;
    }
  }

  lemma SizeOf(out: seq<byte>, grid: Grid, s: Shape)
    requires Shows(out, grid, s)
    ensures |out| == Stride(s) * s.h
  {}

  lemma {:induction false} FailsOn(pen: Pen, vs: seq<nat>, k: nat, s: Shape)
    requires k <= |vs| && PutAll(pen, vs[..k], s) == None
    ensures PutAll(pen, vs, s) == None
    decreases |vs| - k
  {
    if k < |vs| {
      assert vs[..k + 1][..k] == vs[..k];
      FailsOn(pen, vs, k + 1, s);
    } else {
      assert vs[..k] == vs;
    }
  }

  /** Rows of packed pixels and the position after the coded data; nothing for data that ends inside a
      piece or paints above the picture. */
  method RleDecode(blob: seq<byte>, p: nat, s: Shape) returns (r: Option<(seq<byte>, nat)>)
    ensures var painted := Decode(Pen(map[], 0, 0), blob, p, s);
      && (r.None? <==> painted.None?)
      && (r.Some? ==> r.value.1 == painted.value.1 && Shows(r.value.0, painted.value.0.grid, s))
  {
    hide Shows, PutAll;
    var c := new Canvas(s);
    var at := p;
    ghost var all := Decode(Pen(map[], 0, 0), blob, p, s);
    while at + 1 < |blob|
      invariant c.Valid() && c.s == s && fresh(c) && fresh(c.out)
      invariant Decode(c.Now(), blob, at, s) == all
      decreases |blob| - at
    {
      var n: nat, v: nat := blob[at], blob[at + 1];
      at := at + 2;
      var ok := true;
      if n > 0 {
        ok := c.PutRun(n, v);
      } else if v == 0 {
        c.x, c.y := 0, c.y + 1;
      } else if v == 1 {
        return Some((c.out[..], at));
      } else if v == 2 {
        if at + 1 >= |blob| {
          return None;
        }
        c.x, c.y, at := c.x + blob[at], c.y + blob[at + 1], at + 2;
      } else {
        var size := LiteralSize(v, s.wide);
        if at + size > |blob| {
          return None;
        }
        ok := c.PutLiteral(blob, at, v);
        at := at + size + size % 2;
      }
      if !ok {
        return None;
      }
    }
    r := Some((c.out[..], at));
  }

  // ---------------------------------------------------------------- writing a program down

  predicate Writable(op: Op, wide: bool) {
    match op
    case Run(n, v) => 0 < n < 256
    case Literal(vs) => 3 <= |vs| < 256 && forall i :: 0 <= i < |vs| ==> vs[i] < if wide then 256 else 16
    case Eol => true
    case Skip(dx, dy) => dx < 256 && dy < 256
    case Eob => false
  }

  function LiteralByte(vs: seq<nat>, i: nat, wide: bool): (b: byte)
    requires forall k :: 0 <= k < |vs| ==> vs[k] < if wide then 256 else 16
  {
    if wide then (if i < |vs| then vs[i] else 0)
    else (if 2 * i < |vs| then vs[2 * i] else 0) * 16 + (if 2 * i + 1 < |vs| then vs[2 * i + 1] else 0)
  }

  function LiteralBytes(vs: seq<nat>, wide: bool): (s: seq<byte>)
    requires forall k :: 0 <= k < |vs| ==> vs[k] < if wide then 256 else 16
    ensures |s| == LiteralSize(|vs|, wide)
  {
    seq(LiteralSize(|vs|, wide), i requires 0 <= i => LiteralByte(vs, i, wide))
  }

  function Written(op: Op, wide: bool): seq<byte>
    requires Writable(op, wide)
  {
    match op
    case Run(n, v) => [n, v]
    case Literal(vs) =>
      [0, |vs|] + LiteralBytes(vs, wide) + (if LiteralSize(|vs|, wide) % 2 == 1 then [0] else [])
    case Eol => [0, 0]
    case Skip(dx, dy) => [0, 2, dx, dy]
  }

  /** A whole program, its end marker last. */
  function WrittenAll(ops: seq<Op>, wide: bool): seq<byte>
    requires forall i :: 0 <= i < |ops| ==> Writable(ops[i], wide)
    decreases |ops|
  {
    if ops == [] then [0, 1] else Written(ops[0], wide) + WrittenAll(ops[1..], wide)
  }

  lemma HalfBack(vs: seq<nat>, i: nat)
    requires (forall k :: 0 <= k < |vs| ==> vs[k] < 16) && i < |vs|
    ensures Shade(LiteralByte(vs, i / 2, false), i, false) == vs[i]
  {
    if i % 2 == 0 {
      assert 2 * (i / 2) == i;
    } else {
      assert 2 * (i / 2) + 1 == i;
    }
  }

  lemma LiteralsBack(blob: seq<byte>, p: nat, vs: seq<nat>, wide: bool)
    requires forall k :: 0 <= k < |vs| ==> vs[k] < if wide then 256 else 16
    requires HeldAt(blob, p, LiteralBytes(vs, wide))
    ensures Literals(blob, p, |vs|, wide) == vs
  {
    hide Shade;
    var bytes := LiteralBytes(vs, wide);
    forall i | 0 <= i < |vs|
      ensures Literals(blob, p, |vs|, wide)[i] == vs[i]
    {
      LiteralIn(|vs|, i, wide);
      var k := if wide then i else i / 2;
      assert blob[p + k] == blob[p..p + |bytes|][k] == LiteralByte(vs, k, wide);
      if !wide {
        HalfBack(vs, i);
      }
    }
  }

  lemma ShortBack(blob: seq<byte>, p: nat, op: Op, wide: bool)
    requires Writable(op, wide) && !op.Literal? && HeldAt(blob, p, Written(op, wide))
    ensures Next(blob, p, wide) == Token(op, p + |Written(op, wide)|)
  {
    hide LiteralBytes, Literals, LiteralSize;
    var bytes := Written(op, wide);
    assert blob[p] == blob[p..p + |bytes|][0] == bytes[0];
    assert blob[p + 1] == blob[p..p + |bytes|][1] == bytes[1];
    if op.Skip? {
      assert blob[p + 2] == blob[p..p + |bytes|][2] == op.dx;
      assert blob[p + 3] == blob[p..p + |bytes|][3] == op.dy;
    }
  }

  lemma LiteralBack(blob: seq<byte>, p: nat, vs: seq<nat>, wide: bool)
    requires Writable(Literal(vs), wide) && HeldAt(blob, p, Written(Literal(vs), wide))
    ensures Next(blob, p, wide) == Token(Literal(vs), p + |Written(Literal(vs), wide)|)
  {
    hide LiteralBytes, Literals, Next;
    var bytes, size := Written(Literal(vs), wide), LiteralSize(|vs|, wide);
    LiteralLength(vs, wide);
    Parts(blob, p, [0, |vs|] + LiteralBytes(vs, wide), if size % 2 == 1 then [0] else []);
    Parts(blob, p, [0, |vs|], LiteralBytes(vs, wide));
    assert blob[p] == blob[p..p + 2][0] && blob[p + 1] == blob[p..p + 2][1];
    LiteralsBack(blob, p + 2, vs, wide);
    NextLiteral(blob, p, |vs|, wide);
    assert |bytes| == 2 + size + size % 2;
  }

  lemma NextLiteral(blob: seq<byte>, p: nat, n: nat, wide: bool)
    requires 3 <= n && p + 2 + LiteralSize(n, wide) <= |blob| && blob[p] == 0 && blob[p + 1] == n
    ensures Next(blob, p, wide)
         == Token(Literal(Literals(blob, p + 2, n, wide)), p + 2 + LiteralSize(n, wide) + LiteralSize(n, wide) % 2)
  {
    hide Literals;
  }

  lemma NextBack(blob: seq<byte>, p: nat, op: Op, wide: bool)
    requires Writable(op, wide) && HeldAt(blob, p, Written(op, wide))
    ensures Next(blob, p, wide) == Token(op, p + |Written(op, wide)|)
  {
    hide HeldAt, Next, Written, Writable;
    if op.Literal? {
      LiteralBack(blob, p, op.vs, wide);
    } else {
      ShortBack(blob, p, op, wide);
    }
  }

  lemma LiteralLength(vs: seq<nat>, wide: bool)
    requires forall k :: 0 <= k < |vs| ==> vs[k] < if wide then 256 else 16
    ensures |LiteralBytes(vs, wide)| == LiteralSize(|vs|, wide)
  {
    var bytes := LiteralBytes(vs, wide);
  }

  lemma NotEob(op: Op, wide: bool)
    requires Writable(op, wide)
    ensures op != Eob
  {}

  lemma DecodeStep(pen: Pen, blob: seq<byte>, p: nat, s: Shape, op: Op, next: nat)
    requires Next(blob, p, s.wide) == Token(op, next)
    ensures p < next && p < |blob|
    ensures Decode(pen, blob, p, s)
         == if op == Eob then Some((pen, next))
            else (var after := Step(pen, op, s); if after == None then None else Decode(after.value, blob, next, s))
  {
    hide Step;
  }

  /** Decoding a program's bytes, wherever they stand, is painting the program, and ends just past its end
      marker. */
  lemma {:induction false} ProgramPaints(pen: Pen, blob: seq<byte>, p: nat, ops: seq<Op>, s: Shape)
    requires forall i :: 0 <= i < |ops| ==> Writable(ops[i], s.wide)
    requires p + |WrittenAll(ops, s.wide)| <= |blob|
    requires blob[p..p + |WrittenAll(ops, s.wide)|] == WrittenAll(ops, s.wide)
    ensures Decode(pen, blob, p, s) == (
      var end := Paint(pen, ops, s);
      if end == None then None else Some((end.value, p + |WrittenAll(ops, s.wide)|)))
    decreases |ops|
  {
    hide Written, Next, Step, Decode, Writable;
    if ops == [] {
      EndBack(blob, p, s.wide);
      DecodeStep(pen, blob, p, s, Eob, p + 2);
    } else {
      var op, one, rest := ops[0], Written(ops[0], s.wide), WrittenAll(ops[1..], s.wide);
      Parts(blob, p, one, rest);
      NextBack(blob, p, op, s.wide);
      NotEob(op, s.wide);
      DecodeStep(pen, blob, p, s, op, p + |one|);
      var after := Step(pen, op, s);
      if after.Some? {
        ProgramPaints(after.value, blob, p + |one|, ops[1..], s);
      }
    }
  }

  lemma EndBack(blob: seq<byte>, p: nat, wide: bool)
    requires p + 2 <= |blob| && blob[p..p + 2] == [0, 1]
    ensures Next(blob, p, wide) == Token(Eob, p + 2)
  {
    assert blob[p] == blob[p..p + 2][0] && blob[p + 1] == blob[p..p + 2][1];
  }

  // ---------------------------------------------------------------- in numbers

  /** Rows are whole words of four bytes, as few as hold their pixels. */
  lemma RowsSay(s: Shape)
    ensures Stride(s) % 4 == 0
    ensures s.wide ==> s.w <= Stride(s) < s.w + 4
    ensures !s.wide ==> s.w <= 2 * Stride(s) < s.w + 8
  {}

  /** A pixel's place in the packed rows: a byte each, or the two halves of one, the left pixel's the high half. */
  lemma PixelsSay(out: seq<byte>, grid: Grid, s: Shape, y: nat, x: nat)
    requires Shows(out, grid, s) && y < s.h && x < s.w
    ensures s.wide ==> y * Stride(s) + x < |out| && out[y * Stride(s) + x] == Pixel(grid, y, x)
    ensures !s.wide ==>
      && y * Stride(s) + x / 2 < |out|
      && Pixel(grid, y, x) == if x % 2 == 0 then out[y * Stride(s) + x / 2] / 16 else out[y * Stride(s) + x / 2] % 16
  {
    RowHolds(s);
    hide Stride, Cols, Pixel;
    assert ShownAt(out, grid, y, x, s);
  }

  /** The colour of one pixel of a run. */
  function RunColour(v: byte, i: nat, wide: bool): nat {
    if wide then v else if i % 2 == 1 then v - v / 16 * 16 else v / 16
  }

  lemma RunSays(pen: Pen, n: byte, v: byte, s: Shape)
    requires pen.y < s.h
    ensures var r := Step(pen, Run(n, v), s);
      && r.Some? && r.value.x == pen.x + n && r.value.y == pen.y
      && forall y: nat, x: nat ::
         Pixel(r.value.grid, y, x)
         == if y == pen.y && pen.x <= x < pen.x + n && x < s.w then RunColour(v, x - pen.x, s.wide)
            else Pixel(pen.grid, y, x)
  {
    hide Pixel;
    PutAllIs(pen, Shades(v, n, s.wide), s);
    forall y: nat, x: nat
      ensures AfterRun(pen.grid, pen.y, pen.x, Shades(v, n, s.wide), s, y, x)
           == if y == pen.y && pen.x <= x < pen.x + n && x < s.w then RunColour(v, x - pen.x, s.wide)
              else Pixel(pen.grid, y, x)
    {}
  }

  /** Two runs, the second on the next row, and the end. */
  lemma TwoRows(n: byte, v: byte, m: byte, u: byte, s: Shape)
    requires n > 0 && m > 0 && s.h >= 2
    ensures var r := Decode(Pen(map[], 0, 0), [n, v, 0, 0, m, u, 0, 1], 0, s);
      && r.Some? && r.value.1 == 8
      && forall y: nat, x: nat ::
         Pixel(r.value.0.grid, y, x)
         == if y == 0 && x < n && x < s.w then RunColour(v, x, s.wide)
            else if y == 1 && x < m && x < s.w then RunColour(u, x, s.wide) else 0
  {
    hide Step, Decode, Pixel, RunColour;
    var blob, pen := [n, v, 0, 0, m, u, 0, 1], Pen(map[], 0, 0);
    RunSays(pen, n, v, s);
    DecodeStep(pen, blob, 0, s, Run(n, v), 2);
    var one := Step(pen, Run(n, v), s).value;
    EolSays(one, s);
    DecodeStep(one, blob, 2, s, Eol, 4);
    var two := Pen(one.grid, 0, 1);
    RunSays(two, m, u, s);
    DecodeStep(two, blob, 4, s, Run(m, u), 6);
    DecodeStep(Step(two, Run(m, u), s).value, blob, 6, s, Eob, 8);
    NothingPainted();
  }

  lemma NothingPainted()
    ensures forall y: nat, x: nat :: Pixel(map[], y, x) == 0
  {}

  lemma EolSays(pen: Pen, s: Shape)
    ensures Step(pen, Eol, s) == Some(Pen(pen.grid, 0, pen.y + 1))
  {}

  /** A move right and up, one pixel, and the end. */
  lemma MovedPixel(dx: byte, dy: byte, v: byte, s: Shape)
    requires dx < s.w && dy < s.h
    ensures var r := Decode(Pen(map[], 0, 0), [0, 2, dx, dy, 1, v, 0, 1], 0, s);
      && r.Some? && r.value.1 == 8
      && forall y: nat, x: nat ::
         Pixel(r.value.0.grid, y, x) == if y == dy && x == dx then RunColour(v, 0, s.wide) else 0
  {
    hide Step, Decode, Pixel, RunColour;
    var blob, pen := [0, 2, dx, dy, 1, v, 0, 1], Pen(map[], 0, 0);
    SkipSays(pen, dx, dy, s);
    DecodeStep(pen, blob, 0, s, Skip(dx, dy), 4);
    var there := Pen(map[], dx, dy);
    RunSays(there, 1, v, s);
    DecodeStep(there, blob, 4, s, Run(1, v), 6);
    DecodeStep(Step(there, Run(1, v), s).value, blob, 6, s, Eob, 8);
    NothingPainted();
  }

  lemma SkipSays(pen: Pen, dx: nat, dy: nat, s: Shape)
    ensures Step(pen, Skip(dx, dy), s) == Some(Pen(pen.grid, pen.x + dx, pen.y + dy))
  {}

  /** Colours written out: a byte each and one to make the count even, or two to a byte. */
  lemma WrittenOut(a: byte, b: byte, c: byte, pad: byte)
    ensures Next([0, 3, a, b, c, pad], 0, true) == Token(Literal([a, b, c]), 6)
    ensures Next([0, 3, a, b], 0, false) == Token(Literal([a / 16, a % 16, b / 16]), 4)
    ensures Next([0, 5, a, b, c, pad], 0, false) == Token(Literal([a / 16, a % 16, b / 16, b % 16, c / 16]), 6)
    ensures Next([0, 3, a, b], 0, true) == Broken && Next([0, 3, a], 0, false) == Broken
    ensures Next([0, 2, a], 0, true) == Broken && Next([a], 0, true) == Ended
  {
    assert Literals([0, 3, a, b, c, pad], 2, 3, true) == [a, b, c];
    assert Literals([0, 3, a, b], 2, 3, false) == [a / 16, a % 16, b / 16];
    assert Literals([0, 5, a, b, c, pad], 2, 5, false) == [a / 16, a % 16, b / 16, b % 16, c / 16];
  }

  lemma LiteralSays(pen: Pen, vs: seq<nat>, s: Shape)
    requires pen.y < s.h
    ensures var r := Step(pen, Literal(vs), s);
      && r.Some? && r.value.x == pen.x + |vs| && r.value.y == pen.y
      && forall y: nat, x: nat ::
         Pixel(r.value.grid, y, x)
         == if y == pen.y && pen.x <= x < pen.x + |vs| && x < s.w then vs[x - pen.x] else Pixel(pen.grid, y, x)
  {
    hide Pixel;
    PutAllIs(pen, vs, s);
    forall y: nat, x: nat
      ensures AfterRun(pen.grid, pen.y, pen.x, vs, s, y, x)
           == if y == pen.y && pen.x <= x < pen.x + |vs| && x < s.w then vs[x - pen.x] else Pixel(pen.grid, y, x)
    {}
  }

  /** Without an end marker the picture ends where there are no two bytes left; a move or colours that are cut off,
      and a pixel above the picture, fail. */
  lemma EndsOrFails(pen: Pen, a: byte, v: byte, s: Shape)
    ensures Decode(pen, [], 0, s) == Some((pen, 0)) && Decode(pen, [a], 0, s) == Some((pen, 0))
    ensures Decode(pen, [0, 2, a], 0, s) == None && Decode(pen, [0, 3, a], 0, s) == None
    ensures pen.y >= s.h && pen.x < s.w && a > 0 ==> Decode(pen, [a, v], 0, s) == None
  {
    hide Step, Literals;
    if pen.y >= s.h && pen.x < s.w && a > 0 {
      RunFails(pen, a, v, s);
    }
  }

  lemma RunFails(pen: Pen, n: byte, v: byte, s: Shape)
    requires pen.y >= s.h && pen.x < s.w && n > 0
    ensures Step(pen, Run(n, v), s) == None
  {
    PutAllIs(pen, Shades(v, n, s.wide), s);
  }
}
