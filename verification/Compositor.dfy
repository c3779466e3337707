/**
 The damage-driven compositor: a frame redraws only what the guest's newest paint can have changed,
 and what is on the canvas afterwards is what drawing everything would have put there.
 */
module Compositor {
  import opened Bytes
  import opened Dirty
  import opened Screen

  // ---------------------------------------------------------------- layers

  /** A rectangle whose sides need not be whole pixels. */
  datatype Area = Area(x: real, y: real, w: real, h: real)

  /** A host pixel is drawn by a rectangle that holds its centre. */
  predicate Covers(a: Area, px: int, py: int) {
    && a.x <= px as real + 0.5 < a.x + a.w
    && a.y <= py as real + 0.5 < a.y + a.h
  }

  predicate Within(inner: Area, outer: Area) {
    && outer.x <= inner.x && inner.x + inner.w <= outer.x + outer.w
    && outer.y <= inner.y && inner.y + inner.h <= outer.y + outer.h
  }

  /** One opaque copy of guest pixels to the host, nearest neighbour. */
  datatype Blit = Blit(src: Area, dst: Area)

  /** A copy of nothing draws nothing. */
  predicate Draws(b: Blit, px: int, py: int) {
    b.src.w > 0.0 && b.src.h > 0.0 && Covers(b.dst, px, py)
  }

  /** Where along one axis of its source a copy samples for a host pixel. */
  function SampleAlong(px: int, dst: real, dstLen: real, src: real, srcLen: real): real
    requires dstLen > 0.0
  {
    src + (px as real + 0.5 - dst) / dstLen * srcLen
  }

  /** The guest pixel a copy shows at a host pixel. */
  function SampleAt(b: Blit, px: int, py: int): (int, int)
    requires Draws(b, px, py)
  {
    (SampleAlong(px, b.dst.x, b.dst.w, b.src.x, b.src.w).Floor,
     SampleAlong(py, b.dst.y, b.dst.h, b.src.y, b.src.h).Floor)
  }

  /** A band of window chrome is put together from copies out of one strip of the window's frame. A
      scaled piece is one copy; `kx` and `ky` are the scales the layer was placed with. */
  datatype Piece =
    | Band(src: Area, dst: Area, copies: seq<Blit>)
    | Scaled(copy: Blit, kx: real, ky: real)
  {
    function Blits(): seq<Blit> {
      match this
      case Band(_, _, copies) => copies
      case Scaled(copy, _, _) => [copy]
    }

    function Dst(): Area {
      match this
      case Band(_, dst, _) => dst
      case Scaled(copy, _, _) => copy.dst
    }
  }

  datatype Layer = Layer(key: int, bounds: Area, pieces: seq<Piece>)

  /** Everything a frame's picture depends on besides the guest's pixels. Layers are back to front and
      already panned; the guest's screen, or the desktop's column of it, is drawn first. Where it is the
      screen, what nothing covers takes the colour of one guest pixel. */
  datatype Layout = Layout(vw: int, vh: int, column: Piece, layers: seq<Layer>, corner: Option<(int, int)>)

  /** The destination is the source at the placed scale, rounded to whole pixels or not. */
  predicate GoodScale(src: real, dst: real, k: real) {
    k >= 0.0 && src * k - 0.5 <= dst <= src * k + 0.5
  }

  predicate Extends(a: Area) { a.w > 0.0 && a.h > 0.0 }

  /** What a band's copies take comes out of the band's strip. */
  ghost predicate GoodPiece(p: Piece) {
    match p
    case Band(src, dst, copies) => forall b :: b in copies && Extends(b.src) && Extends(b.dst) ==> Within(b.src, src)
    case Scaled(copy, kx, ky) => GoodScale(copy.src.w, copy.dst.w, kx) && GoodScale(copy.src.h, copy.dst.h, ky)
  }

  predicate AnyDraws(bs: seq<Blit>, px: int, py: int) {
    exists i :: 0 <= i < |bs| && Draws(bs[i], px, py)
  }

  /** A piece draws a pixel only inside its own destination. */
  ghost predicate Tight(p: Piece, px: int, py: int) {
    forall b :: b in p.Blits() && Draws(b, px, py) ==> Covers(p.Dst(), px, py)
  }

  /** A pixel is drawn again, inside its own destination, by one of the pieces from `k` on. */
  ghost predicate HiddenBy(ps: seq<Piece>, k: nat, px: int, py: int) {
    exists j :: k <= j < |ps| && Tight(ps[j], px, py) && AnyDraws(ps[j].Blits(), px, py)
  }

  /** Pieces stay inside the layer, and where one draws outside its own destination, as rounding lets the
      menu bar do by a pixel, a later piece draws over it. */
  ghost predicate GoodLayer(l: Layer) {
    forall i :: 0 <= i < |l.pieces| ==>
      && GoodPiece(l.pieces[i])
      && (Extends(l.pieces[i].Dst()) ==> Within(l.pieces[i].Dst(), l.bounds))
      && Kept(l.pieces, i)
  }

  ghost predicate Kept(ps: seq<Piece>, i: nat)
    requires i < |ps|
  {
    forall px, py :: Tight(ps[i], px, py) || HiddenBy(ps, i + 1, px, py)
  }

  ghost predicate GoodLayout(lay: Layout) {
    && lay.column.Scaled? && GoodPiece(lay.column)
    && forall l :: l in lay.layers ==> GoodLayer(l)
  }

  // ---------------------------------------------------------------- what a frame should show

  /** One more copy over what is there. */
  function Over(b: Blit, guest: Pixels, px: int, py: int, under: Colour): Colour {
    if Draws(b, px, py) then guest(SampleAt(b, px, py).0, SampleAt(b, px, py).1) else under
  }

  function OverBlits(bs: seq<Blit>, guest: Pixels, px: int, py: int, under: Colour): Colour {
    if bs == [] then under else Over(bs[|bs| - 1], guest, px, py, OverBlits(bs[..|bs| - 1], guest, px, py, under))
  }

  function OverPieces(ps: seq<Piece>, guest: Pixels, px: int, py: int, under: Colour): Colour {
    if ps == [] then under
    else OverBlits(ps[|ps| - 1].Blits(), guest, px, py, OverPieces(ps[..|ps| - 1], guest, px, py, under))
  }

  function OverLayers(ls: seq<Layer>, guest: Pixels, px: int, py: int, under: Colour): Colour {
    if ls == [] then under
    else OverPieces(ls[|ls| - 1].pieces, guest, px, py, OverLayers(ls[..|ls| - 1], guest, px, py, under))
  }

  /** The whole picture, composed back to front over a fill colour. */
  function Composed(lay: Layout, guest: Pixels, fill: Colour, px: int, py: int): Colour {
    OverLayers(lay.layers, guest, px, py, OverBlits(lay.column.Blits(), guest, px, py, fill))
  }

  const BLACK: Colour := 0

  function FillOf(lay: Layout, guest: Pixels): Colour {
    if lay.corner.Some? then guest(lay.corner.value.0, lay.corner.value.1) else BLACK
  }

  // ---------------------------------------------------------------- which copy shows

  /** No copy from number `from` on draws a pixel. */
  predicate NoneDraws(bs: seq<Blit>, from: nat, px: int, py: int) {
    forall k :: from <= k < |bs| ==> !Draws(bs[k], px, py)
  }

  predicate NoPieceDraws(ps: seq<Piece>, from: nat, px: int, py: int) {
    forall j :: from <= j < |ps| ==> NoneDraws(ps[j].Blits(), 0, px, py)
  }

  predicate NoLayerDraws(ls: seq<Layer>, from: nat, px: int, py: int) {
    forall i :: from <= i < |ls| ==> NoPieceDraws(ls[i].pieces, 0, px, py)
  }

  lemma {:induction false} LastBlit(bs: seq<Blit>, k: nat, guest: Pixels, px: int, py: int, under: Colour)
    requires k <= |bs| && NoneDraws(bs, k, px, py)
    ensures k == 0 ==> OverBlits(bs, guest, px, py, under) == under
    ensures k > 0 && Draws(bs[k - 1], px, py) ==>
      var (x, y) := SampleAt(bs[k - 1], px, py);
      OverBlits(bs, guest, px, py, under) == guest(x, y)
    decreases |bs|
  {
    hide Draws, SampleAt;
    if |bs| > k {
      LastBlit(bs[..|bs| - 1], k, guest, px, py, under);
    }
  }

  lemma {:induction false} LastPiece(ps: seq<Piece>, j: nat, guest: Pixels, px: int, py: int, under: Colour)
    requires j <= |ps| && NoPieceDraws(ps, j, px, py)
    ensures OverPieces(ps, guest, px, py, under) == OverPieces(ps[..j], guest, px, py, under)
    decreases |ps|
  {
    hide NoneDraws, OverBlits;
    if |ps| > j {
      var n := |ps| - 1;
      LastBlit(ps[n].Blits(), 0, guest, px, py, OverPieces(ps[..n], guest, px, py, under));
      LastPiece(ps[..n], j, guest, px, py, under);
      assert ps[..n][..j] == ps[..j];
    } else {
      assert ps[..j] == ps;
    }
  }

  lemma {:induction false} LastLayer(ls: seq<Layer>, i: nat, guest: Pixels, px: int, py: int, under: Colour)
    requires i <= |ls| && NoLayerDraws(ls, i, px, py)
    ensures OverLayers(ls, guest, px, py, under) == OverLayers(ls[..i], guest, px, py, under)
    decreases |ls|
  {
    hide NoPieceDraws, OverPieces;
    if |ls| > i {
      var n := |ls| - 1;
      LastPiece(ls[n].pieces, 0, guest, px, py, OverLayers(ls[..n], guest, px, py, under));
      NoPieces(ls[n].pieces, guest, px, py, OverLayers(ls[..n], guest, px, py, under));
      LastLayer(ls[..n], i, guest, px, py, under);
      assert ls[..n][..i] == ls[..i];
    } else {
      assert ls[..i] == ls;
    }
  }

  lemma NoPieces(ps: seq<Piece>, guest: Pixels, px: int, py: int, under: Colour)
    ensures OverPieces(ps[..0], guest, px, py, under) == under
  {}

  /** Layers lie over each other, the last on top; so do a layer's pieces, and a piece's copies. What shows of
      a pixel is the guest pixel sampled by the last copy that draws it. */
  lemma TopmostShows(lay: Layout, i: nat, j: nat, k: nat, guest: Pixels, fill: Colour, px: int, py: int)
    requires i < |lay.layers| && j < |lay.layers[i].pieces| && k < |lay.layers[i].pieces[j].Blits()|
    requires Draws(lay.layers[i].pieces[j].Blits()[k], px, py)
    requires NoneDraws(lay.layers[i].pieces[j].Blits(), k + 1, px, py)
    requires NoPieceDraws(lay.layers[i].pieces, j + 1, px, py) && NoLayerDraws(lay.layers, i + 1, px, py)
    ensures var (x, y) := SampleAt(lay.layers[i].pieces[j].Blits()[k], px, py);
      Composed(lay, guest, fill, px, py) == guest(x, y)
  {
    hide Draws, SampleAt, NoneDraws, NoPieceDraws, NoLayerDraws, OverBlits;
    var ls, ps := lay.layers, lay.layers[i].pieces;
    var under := OverBlits(lay.column.Blits(), guest, px, py, fill);
    LastLayer(ls, i + 1, guest, px, py, under);
    assert ls[..i + 1][..i] == ls[..i];
    var below := OverLayers(ls[..i], guest, px, py, under);
    LastPiece(ps, j + 1, guest, px, py, below);
    assert ps[..j + 1][..j] == ps[..j];
    LastBlit(ps[j].Blits(), k + 1, guest, px, py, OverPieces(ps[..j], guest, px, py, below));
  }

  /** Where no layer draws, the column shows; and where that does not draw either, the fill. */
  lemma ColumnShows(lay: Layout, k: nat, guest: Pixels, fill: Colour, px: int, py: int)
    requires NoLayerDraws(lay.layers, 0, px, py)
    requires k <= |lay.column.Blits()| && NoneDraws(lay.column.Blits(), k, px, py)
    ensures k == 0 ==> Composed(lay, guest, fill, px, py) == fill
    ensures k > 0 && Draws(lay.column.Blits()[k - 1], px, py) ==>
      var (x, y) := SampleAt(lay.column.Blits()[k - 1], px, py);
      Composed(lay, guest, fill, px, py) == guest(x, y)
  {
    hide Draws, SampleAt, NoneDraws, NoLayerDraws, OverBlits;
    LastLayer(lay.layers, 0, guest, px, py, OverBlits(lay.column.Blits(), guest, px, py, fill));
    LastBlit(lay.column.Blits(), k, guest, px, py, fill);
  }

  /** A copy of whole pixels to `m` times their size shows each guest pixel on `m` by `m` host pixels. */
  lemma Magnified(sx: int, sy: int, sw: nat, sh: nat, dx: int, dy: int, m: nat, px: int, py: int)
    requires m > 0
    ensures var b := Blit(Area(sx as real, sy as real, sw as real, sh as real),
                          Area(dx as real, dy as real, (m * sw) as real, (m * sh) as real));
      && (Draws(b, px, py) <==> dx <= px < dx + m * sw && dy <= py < dy + m * sh)
      && (Draws(b, px, py) ==> SampleAt(b, px, py) == (sx + (px - dx) / m, sy + (py - dy) / m))
  {
    if dx <= px < dx + m * sw && dy <= py < dy + m * sh {
      SampleWhole(sx, sw, dx, m, px);
      SampleWhole(sy, sh, dy, m, py);
    } else {
      NoneOfNone(m, sw);
      NoneOfNone(m, sh);
    }
  }

  lemma NoneOfNone(m: nat, n: nat)
    ensures n == 0 ==> m * n == 0
  {}

  lemma SampleWhole(s: int, n: nat, d: int, m: nat, p: int)
    requires m > 0 && d <= p < d + m * n
    ensures n > 0 && m * n > 0
    ensures SampleAlong(p, d as real, (m * n) as real, s as real, n as real).Floor == s + (p - d) / m
  {
    NoneOfNone(m, n);
    var t: nat := p - d;
    TimesReals(m, n);
    Cancel(t as real + 0.5, m as real, n as real);
    Steps(t, m);
    Whole(s, (t as real + 0.5) / m as real, t / m);
    AlongIs(p, d, m * n, s, n, (t as real + 0.5) / m as real);
  }

  lemma AlongIs(p: int, d: int, len: nat, s: int, n: nat, u: real)
    requires len > 0 && (p - d) as real + 0.5 >= 0.0 && ((p - d) as real + 0.5) / len as real * n as real == u
    ensures SampleAlong(p, d as real, len as real, s as real, n as real) == s as real + u
  {
    assert p as real + 0.5 - d as real == (p - d) as real + 0.5;
  }

  lemma Whole(s: int, u: real, q: int)
    requires q as real <= u < q as real + 1.0
    ensures (s as real + u).Floor == s + q
  {}

  // ---------------------------------------------------------------- damage

  predicate OnScreen(lay: Layout, px: int, py: int) {
    0 <= px < lay.vw && 0 <= py < lay.vh
  }

  predicate Damaged(rects: seq<Rect>, px: int, py: int) {
    exists i :: 0 <= i < |rects| && Inside(rects[i], px, py)
  }

  function Ceil(r: real): int { -((-r).Floor) }

  /** An area rounded outward by at least one pixel and clipped to the viewport. */
  function Outward(a: Area, lay: Layout): Rect {
    var x0, y0 := Max(0, a.x.Floor - 1), Max(0, a.y.Floor - 1);
    var x1, y1 := Min(lay.vw, Ceil(a.x + a.w) + 1), Min(lay.vh, Ceil(a.y + a.h) + 1);
    Rect(x0, y0, x1 - x0, y1 - y0)
  }

  function RealMax(a: real, b: real): real { if a >= b then a else b }

  function RealMin(a: real, b: real): real { if a <= b then a else b }

  /** Where a guest line falls on the host, and how far it is from one to another. */
  function Start(dst: real, src: real, at: real, k: real): real { dst + (at - src) * k }

  function Length(from: real, to: real, k: real): real { (to - from) * k }

  /** The part of a copy's source that a guest rectangle meets, mapped to the host. */
  function Mapped(b: Blit, r: Rect, kx: real, ky: real): Option<Area> {
    var x0, y0 := RealMax(b.src.x, r.x as real), RealMax(b.src.y, r.y as real);
    var x1 := RealMin(b.src.x + b.src.w, (r.x + r.w) as real);
    var y1 := RealMin(b.src.y + b.src.h, (r.y + r.h) as real);
    if x1 > x0 && y1 > y0 then
      Some(Area(Start(b.dst.x, b.src.x, x0, kx), Start(b.dst.y, b.src.y, y0, ky),
                Length(x0, x1, kx), Length(y0, y1, ky)))
    else None
  }

  predicate HitsArea(r: Rect, a: Area) {
    && r.x as real < a.x + a.w && a.x < (r.x + r.w) as real
    && r.y as real < a.y + a.h && a.y < (r.y + r.h) as real
  }

  /** A copy shows a pixel of a guest rectangle at a host pixel. */
  predicate Shows(b: Blit, r: Rect, px: int, py: int) {
    Draws(b, px, py) && Inside(r, SampleAt(b, px, py).0, SampleAt(b, px, py).1)
  }

  /** Everything on screen that a piece shows of a guest rectangle inside its own destination is damaged. */
  ghost predicate PieceDamaged(p: Piece, r: Rect, rects: seq<Rect>, lay: Layout) {
    forall b, px, py :: b in p.Blits() && OnScreen(lay, px, py) && Tight(p, px, py) && Shows(b, r, px, py) ==>
      Damaged(rects, px, py)
  }

  ghost predicate LayerDamaged(l: Layer, r: Rect, rects: seq<Rect>, lay: Layout) {
    forall p :: p in l.pieces ==> PieceDamaged(p, r, rects, lay)
  }

  ghost predicate LayoutDamaged(lay: Layout, r: Rect, rects: seq<Rect>) {
    && PieceDamaged(lay.column, r, rects, lay)
    && forall l :: l in lay.layers ==> LayerDamaged(l, r, rects, lay)
  }

  /** The one-pixel rule along one axis: a host pixel whose sample lies between two guest lines is no
      more than half a pixel outside the span those lines are mapped to. */
  lemma AxisRule(px: int, dst: real, dstLen: real, src: real, srcLen: real, k: real, lo: real, hi: real)
    requires GoodScale(srcLen, dstLen, k) && srcLen > 0.0 && dst <= px as real + 0.5 < dst + dstLen
    requires var u := SampleAlong(px, dst, dstLen, src, srcLen); src <= lo <= u < hi
    ensures dst + (lo - src) * k - 0.5 <= px as real + 0.5
    ensures px as real + 0.5 < dst + (lo - src) * k + (hi - lo) * k + 0.5
  {
    var t := px as real + 0.5 - dst;
    var r := t / dstLen;
    Fraction(t, dstLen);
    HalfPixelOff(r, srcLen, dstLen, k);
    TimesOrder(k, lo - src, r * srcLen);
    TimesOrder(k, r * srcLen, hi - src);
    Spread(k, lo - src, hi - lo);
  }

  lemma SampleInSource(px: int, dst: real, dstLen: real, src: real, srcLen: real)
    requires srcLen > 0.0 && dst <= px as real + 0.5 < dst + dstLen
    ensures src <= SampleAlong(px, dst, dstLen, src, srcLen) < src + srcLen
  {
    var r := (px as real + 0.5 - dst) / dstLen;
    Fraction(px as real + 0.5 - dst, dstLen);
    TimesOrder(srcLen, 0.0, r);
    TimesStrict(srcLen, r, 1.0);
    Swap(r, srcLen);
  }

  lemma Swap(a: real, b: real)
    ensures a * b == b * a
  {}

  /** A pixel less than a pixel outside an area is inside the area rounded outward. */
  lemma InOutward(a: Area, lay: Layout, px: int, py: int)
    requires OnScreen(lay, px, py)
    requires a.x - 1.0 <= px as real < a.x + a.w && a.y - 1.0 <= py as real < a.y + a.h
    ensures Inside(Outward(a, lay), px, py)
  {}

  /** One axis of the mapped rectangle, to within a pixel. */
  lemma AxisDamage(px: int, dst: real, dstLen: real, src: real, srcLen: real, k: real, first: int, count: int)
    requires GoodScale(srcLen, dstLen, k) && srcLen > 0.0 && dst <= px as real + 0.5 < dst + dstLen
    requires first <= SampleAlong(px, dst, dstLen, src, srcLen).Floor < first + count
    ensures var lo, hi := RealMax(src, first as real), RealMin(src + srcLen, (first + count) as real);
      && lo < hi
      && Start(dst, src, lo, k) - 1.0 <= px as real < Start(dst, src, lo, k) + Length(lo, hi, k)
  {
    SampleInSource(px, dst, dstLen, src, srcLen);
    FloorBetween(SampleAlong(px, dst, dstLen, src, srcLen), first, count);
    hide SampleAlong;
    var lo, hi := RealMax(src, first as real), RealMin(src + srcLen, (first + count) as real);
    AxisRule(px, dst, dstLen, src, srcLen, k, lo, hi);
  }

  /** What a scaled piece shows of a guest rectangle lies inside that rectangle as planning maps it. */
  lemma ScaledDamage(b: Blit, kx: real, ky: real, r: Rect, lay: Layout, px: int, py: int)
    requires GoodScale(b.src.w, b.dst.w, kx) && GoodScale(b.src.h, b.dst.h, ky)
    requires OnScreen(lay, px, py) && Shows(b, r, px, py)
    ensures Mapped(b, r, kx, ky).Some? && Inside(Outward(Mapped(b, r, kx, ky).value, lay), px, py)
  {
    hide SampleAlong, Outward, GoodScale, RealMax, RealMin, OnScreen, Shows, Start, Length;
    ShownParts(b, r, px, py);
    AxisDamage(px, b.dst.x, b.dst.w, b.src.x, b.src.w, kx, r.x, r.w);
    AxisDamage(py, b.dst.y, b.dst.h, b.src.y, b.src.h, ky, r.y, r.h);
    InOutward(Mapped(b, r, kx, ky).value, lay, px, py);
  }

  lemma ShownParts(b: Blit, r: Rect, px: int, py: int)
    requires Shows(b, r, px, py)
    ensures b.src.w > 0.0 && b.dst.x <= px as real + 0.5 < b.dst.x + b.dst.w
    ensures b.src.h > 0.0 && b.dst.y <= py as real + 0.5 < b.dst.y + b.dst.h
    ensures r.x <= SampleAlong(px, b.dst.x, b.dst.w, b.src.x, b.src.w).Floor < r.x + r.w
    ensures r.y <= SampleAlong(py, b.dst.y, b.dst.h, b.src.y, b.src.h).Floor < r.y + r.h
  {
    hide SampleAlong;
  }

  lemma FloorBetween(u: real, lo: int, len: int)
    requires lo <= u.Floor < lo + len
    ensures lo as real <= u < (lo + len) as real
  {}

  /** A band of chrome that shows anything of a guest rectangle has that rectangle in its source. */
  lemma BandDamage(src: Area, dst: Area, b: Blit, r: Rect, lay: Layout, px: int, py: int)
    requires Within(b.src, src) && Covers(dst, px, py) && OnScreen(lay, px, py) && Shows(b, r, px, py)
    ensures HitsArea(r, src) && Inside(Outward(dst, lay), px, py)
  {
    var u := SampleAlong(px, b.dst.x, b.dst.w, b.src.x, b.src.w);
    var v := SampleAlong(py, b.dst.y, b.dst.h, b.src.y, b.src.h);
    SampleInSource(px, b.dst.x, b.dst.w, b.src.x, b.src.w);
    SampleInSource(py, b.dst.y, b.dst.h, b.src.y, b.src.h);
    FloorBetween(u, r.x, r.w);
    FloorBetween(v, r.y, r.h);
    hide SampleAlong, Outward;
    InOutward(dst, lay, px, py);
  }

  /** A layer whose area misses a damaged rectangle draws nothing in it. */
  lemma AreaMissed(a: Area, r: Rect, px: int, py: int)
    requires Covers(a, px, py) && Inside(r, px, py)
    ensures HitsArea(r, a)
  {}

  lemma Fraction(t: real, d: real)
    requires d > 0.0 && 0.0 <= t < d
    ensures 0.0 <= t / d < 1.0 && t / d * d == t
  {
    var q := t / d;
    assert q * d == t;
    if q < 0.0 { TimesStrict(d, q, 0.0); }
    if q >= 1.0 { TimesOrder(d, 1.0, q); }
  }

  lemma HalfPixelOff(r: real, srcLen: real, dstLen: real, k: real)
    requires 0.0 <= r < 1.0 && srcLen * k - 0.5 <= dstLen <= srcLen * k + 0.5
    ensures k * (r * srcLen) - 0.5 <= r * dstLen < k * (r * srcLen) + 0.5
  {
    var a := srcLen * k;
    var e := dstLen - a;
    TimesOrder(r, -0.5, e);
    TimesOrder(r, e, 0.5);
    Spread(r, a, e);
    Regroup(r, srcLen, k);
  }

  lemma Spread(r: real, a: real, e: real)
    ensures r * (a + e) == r * a + r * e
  {}

  lemma Regroup(r: real, s: real, k: real)
    ensures r * (s * k) == k * (r * s)
  {}

  lemma TimesOrder(c: real, a: real, b: real)
    requires c >= 0.0 && a <= b
    ensures c * a <= c * b
  {
    assert c * (b - a) >= 0.0;
  }

  lemma TimesStrict(c: real, a: real, b: real)
    requires c > 0.0 && a < b
    ensures c * a < c * b
  {
    assert c * (b - a) > 0.0;
  }

  lemma TimesReals(m: int, n: int)
    ensures (m * n) as real == m as real * n as real
  {}

  lemma Cancel(t: real, m: real, n: real)
    requires m > 0.0 && n > 0.0
    ensures m * n > 0.0 && t / (m * n) * n == t / m
  {
    var q := t / (m * n);
    assert q * (m * n) == t;
    assert q * n * m == t;
  }

  lemma Steps(t: int, m: nat)
    requires m > 0 && t >= 0
    ensures (t / m) as real <= (t as real + 0.5) / m as real < (t / m) as real + 1.0
  {
    var q, d := t / m, m as real;
    var u := (t as real + 0.5) / d;
    assert u * d == t as real + 0.5;
    TimesReals(q, m);
    TimesReals(q + 1, m);
    assert q * m <= t < (q + 1) * m by {
      assert t == q * m + t % m;
    }
    if u < q as real { TimesStrict(d, u, q as real); }
    if u >= q as real + 1.0 { TimesOrder(d, q as real + 1.0, u); }
  }
}
