/**
 Animation frames: the damage planned for one, what is drawn for it, and why the canvas afterwards
 is the full picture.
 */
module Frames {
  import opened Bytes
  import opened Dirty
  import opened Screen
  import opened Compositor

  type Canvas = (int, int) -> Colour

  // ---------------------------------------------------------------- what damage leaves out

  ghost predicate Wider(more: seq<Rect>, rects: seq<Rect>) {
    forall px, py :: Damaged(rects, px, py) ==> Damaged(more, px, py)
  }

  lemma LongerIsWider(rects: seq<Rect>, more: seq<Rect>)
    requires rects <= more
    ensures Wider(more, rects)
  {
    forall px, py | Damaged(rects, px, py)
      ensures Damaged(more, px, py)
    {
      var i :| 0 <= i < |rects| && Inside(rects[i], px, py);
      assert more[i] == rects[i];
    }
  }

  lemma LayerDamageGrows(l: Layer, r: Rect, rects: seq<Rect>, more: seq<Rect>, lay: Layout)
    requires Wider(more, rects) && LayerDamaged(l, r, rects, lay)
    ensures LayerDamaged(l, r, more, lay)
  {
    hide Damaged, Shows, OnScreen;
    forall p | p in l.pieces
      ensures PieceDamaged(p, r, more, lay)
    {
      assert PieceDamaged(p, r, rects, lay);
    }
  }

  lemma LayoutDamageGrows(lay: Layout, r: Rect, rects: seq<Rect>, more: seq<Rect>)
    requires Wider(more, rects) && LayoutDamaged(lay, r, rects)
    ensures LayoutDamaged(lay, r, more)
  {
    hide Damaged, Shows, OnScreen;
    forall l | l in lay.layers
      ensures LayerDamaged(l, r, more, lay)
    {
      LayerDamageGrows(l, r, rects, more, lay);
    }
  }

  /** Outside the damage a piece shows the same before and after a paint. */
  lemma {:induction false} BlitsSame(bs: seq<Blit>, before: Pixels, after: Pixels, d: Rect, px: int, py: int,
                                     under: Colour)
    requires Painted(before, after, d)
    requires forall b :: b in bs ==> !Shows(b, d, px, py)
    ensures OverBlits(bs, after, px, py, under) == OverBlits(bs, before, px, py, under)
    decreases |bs|
  {
    if bs != [] {
      var b := bs[|bs| - 1];
      assert b in bs;
      BlitsSame(bs[..|bs| - 1], before, after, d, px, py, under);
    }
  }

  lemma {:induction false} BlitsThrough(bs: seq<Blit>, guest: Pixels, px: int, py: int, u: Colour, v: Colour)
    ensures AnyDraws(bs, px, py) ==> OverBlits(bs, guest, px, py, u) == OverBlits(bs, guest, px, py, v)
    ensures !AnyDraws(bs, px, py) ==> OverBlits(bs, guest, px, py, u) == u
    decreases |bs|
  {
    if bs != [] {
      var n := |bs| - 1;
      BlitsThrough(bs[..n], guest, px, py, u, v);
      if !Draws(bs[n], px, py) {
        assert AnyDraws(bs, px, py) ==> AnyDraws(bs[..n], px, py) by {
          if AnyDraws(bs, px, py) {
            var i :| 0 <= i < |bs| && Draws(bs[i], px, py);
            assert bs[..n][i] == bs[i];
          }
        }
        assert AnyDraws(bs[..n], px, py) ==> AnyDraws(bs, px, py);
      }
    }
  }

  /** Going through a layer's pieces one by one, the pictures before and after a paint agree at a pixel
      outside the damage, unless a later piece is still to draw it. */
  lemma {:induction false} PiecesAgree(l: Layer, k: nat, before: Pixels, after: Pixels, d: Rect, rects: seq<Rect>,
                                       lay: Layout, px: int, py: int, under: Colour)
    requires GoodLayer(l) && k <= |l.pieces|
    requires Painted(before, after, d) && OnScreen(lay, px, py) && !Damaged(rects, px, py)
             && LayerDamaged(l, d, rects, lay)
    ensures || OverPieces(l.pieces[..k], after, px, py, under) == OverPieces(l.pieces[..k], before, px, py, under)
            || HiddenBy(l.pieces, k, px, py)
    decreases k
  {
    hide GoodPiece, Tight, AnyDraws, Painted, OnScreen, Damaged, Draws, PieceDamaged;
    if k > 0 {
      var ps, n := l.pieces, k - 1;
      var p := ps[n];
      assert p in ps && ps[..k][..n] == ps[..n] && ps[..k][n] == p;
      PiecesAgree(l, n, before, after, d, rects, lay, px, py, under);
      var u, v := OverPieces(ps[..n], after, px, py, under), OverPieces(ps[..n], before, px, py, under);
      if !HiddenBy(ps, k, px, py) {
        assert Kept(ps, n);
        NoShow(p, d, rects, lay, px, py);
        BlitsSame(p.Blits(), before, after, d, px, py, u);
        BlitsThrough(p.Blits(), before, px, py, u, v);
        HiddenHere(ps, n, px, py);
      }
    }
  }

  lemma NoShow(p: Piece, d: Rect, rects: seq<Rect>, lay: Layout, px: int, py: int)
    requires PieceDamaged(p, d, rects, lay) && OnScreen(lay, px, py) && !Damaged(rects, px, py) && Tight(p, px, py)
    ensures forall b :: b in p.Blits() ==> !Shows(b, d, px, py)
  {
    hide Tight, Shows, Damaged, OnScreen;
  }

  /** What hides from one piece on and not from the next on is that piece. */
  lemma HiddenHere(ps: seq<Piece>, k: nat, px: int, py: int)
    requires k < |ps|
    ensures HiddenBy(ps, k, px, py) ==>
      HiddenBy(ps, k + 1, px, py) || (Tight(ps[k], px, py) && AnyDraws(ps[k].Blits(), px, py))
  {
    hide Tight, AnyDraws;
  }

  lemma PiecesSame(l: Layer, before: Pixels, after: Pixels, d: Rect, rects: seq<Rect>, lay: Layout,
                   px: int, py: int, under: Colour)
    requires GoodLayer(l)
    requires Painted(before, after, d) && OnScreen(lay, px, py) && !Damaged(rects, px, py)
             && LayerDamaged(l, d, rects, lay)
    ensures OverPieces(l.pieces, after, px, py, under) == OverPieces(l.pieces, before, px, py, under)
  {
    hide GoodLayer, Painted, LayerDamaged, Damaged, OnScreen;
    var n := |l.pieces|;
    PiecesAgree(l, n, before, after, d, rects, lay, px, py, under);
    assert l.pieces[..n] == l.pieces;
  }

  lemma {:induction false} LayersSame(ls: seq<Layer>, before: Pixels, after: Pixels, d: Rect, rects: seq<Rect>,
                                      lay: Layout, px: int, py: int, under: Colour)
    requires Painted(before, after, d) && OnScreen(lay, px, py) && !Damaged(rects, px, py)
    requires forall l :: l in ls ==> GoodLayer(l) && LayerDamaged(l, d, rects, lay)
    ensures OverLayers(ls, after, px, py, under) == OverLayers(ls, before, px, py, under)
    decreases |ls|
  {
    hide GoodLayer, LayerDamaged, Painted, Damaged, OnScreen;
    if ls != [] {
      var l := ls[|ls| - 1];
      assert l in ls;
      LayersSame(ls[..|ls| - 1], before, after, d, rects, lay, px, py, under);
      PiecesSame(l, before, after, d, rects, lay, px, py, OverLayers(ls[..|ls| - 1], before, px, py, under));
    }
  }

  /** The desktop column is one scaled copy. */
  lemma ColumnTight(p: Piece, px: int, py: int)
    requires p.Scaled?
    ensures Tight(p, px, py)
  {}

  /** Where nothing is damaged the whole picture is the same before and after a paint. */
  lemma UndamagedSame(lay: Layout, before: Pixels, after: Pixels, d: Rect, rects: seq<Rect>, fill: Colour, px: int,
                      py: int)
    requires GoodLayout(lay) && Painted(before, after, d) && LayoutDamaged(lay, d, rects)
    requires OnScreen(lay, px, py) && !Damaged(rects, px, py)
    ensures Composed(lay, after, fill, px, py) == Composed(lay, before, fill, px, py)
  {
    hide GoodLayer, LayerDamaged, Painted;
    ColumnTight(lay.column, px, py);
    NoShow(lay.column, d, rects, lay, px, py);
    BlitsSame(lay.column.Blits(), before, after, d, px, py, fill);
    LayersSame(lay.layers, before, after, d, rects, lay, px, py, OverBlits(lay.column.Blits(), before, px, py, fill));
  }

  // ---------------------------------------------------------------- drawing

  /** Where drawing is allowed: everywhere on a full frame, inside the damage on any other. */
  predicate InClip(clip: Option<seq<Rect>>, px: int, py: int) {
    clip.None? || Damaged(clip.value, px, py)
  }

  function DrawBlit(canvas: Canvas, clip: Option<seq<Rect>>, b: Blit, guest: Pixels): Canvas {
    (px, py) => if InClip(clip, px, py) then Over(b, guest, px, py, canvas(px, py)) else canvas(px, py)
  }

  method DrawBlits(canvas: Canvas, clip: Option<seq<Rect>>, bs: seq<Blit>, guest: Pixels) returns (out: Canvas)
    ensures forall px, py :: out(px, py)
                             == if InClip(clip, px, py) then OverBlits(bs, guest, px, py, canvas(px, py))
                                else canvas(px, py)
  {
    out := canvas;
    for i := 0 to |bs|
      invariant forall px, py :: out(px, py)
                                 == if InClip(clip, px, py) then OverBlits(bs[..i], guest, px, py, canvas(px, py))
                                    else canvas(px, py)
    {
      out := DrawBlit(out, clip, bs[i], guest);
      assert bs[..i + 1][..i] == bs[..i];
    }
    assert bs[..|bs|] == bs;
  }

  /** Whether an area meets the damage being repainted. */
  predicate Meets(clip: Option<seq<Rect>>, a: Area) {
    clip.None? || exists i :: 0 <= i < |clip.value| && HitsArea(clip.value[i], a)
  }

  lemma MeetsAll(clip: Option<seq<Rect>>, a: Area)
    ensures clip.None? ==> Meets(clip, a)
  {}

  lemma MissedArea(clip: Option<seq<Rect>>, a: Area, px: int, py: int)
    requires !Meets(clip, a) && InClip(clip, px, py)
    ensures !Covers(a, px, py)
  {
    var i :| 0 <= i < |clip.value| && Inside(clip.value[i], px, py);
    if Covers(a, px, py) { AreaMissed(a, clip.value[i], px, py); }
  }

  lemma {:induction false} UndrawnBlits(bs: seq<Blit>, guest: Pixels, px: int, py: int, under: Colour)
    requires !AnyDraws(bs, px, py)
    ensures OverBlits(bs, guest, px, py, under) == under
    decreases |bs|
  {
    BlitsThrough(bs, guest, px, py, under, under);
  }

  lemma TightUndrawn(p: Piece, px: int, py: int)
    requires Tight(p, px, py) && !Covers(p.Dst(), px, py)
    ensures !AnyDraws(p.Blits(), px, py)
  {
    hide Covers, Draws;
  }

  /** A layer draws nothing outside its bounds. */
  lemma {:induction false} UncoveredPieces(l: Layer, k: nat, guest: Pixels, px: int, py: int, under: Colour)
    requires GoodLayer(l) && !Covers(l.bounds, px, py) && k <= |l.pieces|
    ensures OverPieces(l.pieces[..k], guest, px, py, under) == under
    decreases k
  {
    hide AnyDraws, GoodPiece, Tight;
    if k > 0 {
      var ps, n := l.pieces, k - 1;
      assert ps[..k][..n] == ps[..n] && ps[..k][n] == ps[n];
      UncoveredPieces(l, n, guest, px, py, under);
      assert Kept(ps, n);
      forall j | 0 <= j < |ps| && Tight(ps[j], px, py)
        ensures !AnyDraws(ps[j].Blits(), px, py)
      {
        InsideCovers(ps[j].Dst(), l.bounds, px, py);
        TightUndrawn(ps[j], px, py);
      }
      UndrawnBlits(ps[n].Blits(), guest, px, py, under);
    }
  }

  lemma InsideCovers(inner: Area, outer: Area, px: int, py: int)
    requires Extends(inner) ==> Within(inner, outer)
    ensures Covers(inner, px, py) ==> Covers(outer, px, py)
  {}

  /** Where drawing stands at a pixel: it is as if every piece so far had been drawn, unless a later piece is
      still to draw it. */
  ghost predicate DrawnSo(out: Colour, l: Layer, k: nat, guest: Pixels, px: int, py: int, under: Colour)
    requires k <= |l.pieces|
  {
    out == OverPieces(l.pieces[..k], guest, px, py, under) || HiddenBy(l.pieces, k, px, py)
  }

  lemma PieceDrawn(out: Colour, l: Layer, k: nat, guest: Pixels, px: int, py: int, under: Colour)
    requires k < |l.pieces| && DrawnSo(out, l, k, guest, px, py, under)
    ensures DrawnSo(OverBlits(l.pieces[k].Blits(), guest, px, py, out), l, k + 1, guest, px, py, under)
  {
    hide Tight, AnyDraws, HiddenBy;
    var ps := l.pieces;
    assert ps[..k + 1][..k] == ps[..k] && ps[..k + 1][k] == ps[k];
    HiddenHere(ps, k, px, py);
    BlitsThrough(ps[k].Blits(), guest, px, py, out, OverPieces(ps[..k], guest, px, py, under));
  }

  lemma PiecePassed(out: Colour, l: Layer, k: nat, guest: Pixels, px: int, py: int, under: Colour)
    requires GoodLayer(l) && k < |l.pieces| && DrawnSo(out, l, k, guest, px, py, under)
    requires !Covers(l.pieces[k].Dst(), px, py)
    ensures DrawnSo(out, l, k + 1, guest, px, py, under)
  {
    hide Tight, AnyDraws, HiddenBy, GoodPiece, Covers;
    var ps := l.pieces;
    assert Kept(ps, k);
    assert ps[..k + 1][..k] == ps[..k] && ps[..k + 1][k] == ps[k];
    if !HiddenBy(ps, k + 1, px, py) {
      TightUndrawn(ps[k], px, py);
      HiddenHere(ps, k, px, py);
      UndrawnBlits(ps[k].Blits(), guest, px, py, out);
    }
  }

  lemma DrawnStart(l: Layer, guest: Pixels, px: int, py: int, under: Colour)
    ensures DrawnSo(under, l, 0, guest, px, py, under)
  {}

  lemma DrawnEnd(out: Colour, l: Layer, guest: Pixels, px: int, py: int, under: Colour)
    requires DrawnSo(out, l, |l.pieces|, guest, px, py, under)
    ensures out == OverPieces(l.pieces, guest, px, py, under)
  {
    assert l.pieces[..|l.pieces|] == l.pieces;
  }

  /** One layer, piece by piece; a piece outside the damage is not drawn at all. */
  method DrawWindow(canvas: Canvas, clip: Option<seq<Rect>>, l: Layer, guest: Pixels) returns (out: Canvas)
    requires clip.Some? ==> GoodLayer(l)
    ensures forall px, py :: out(px, py)
                             == if InClip(clip, px, py) then OverPieces(l.pieces, guest, px, py, canvas(px, py))
                                else canvas(px, py)
  {
    hide GoodLayer, DrawnSo, InClip, Meets;
    out := canvas;
    forall px, py
      ensures DrawnSo(out(px, py), l, 0, guest, px, py, canvas(px, py))
    {
      DrawnStart(l, guest, px, py, canvas(px, py));
    }
    for i := 0 to |l.pieces|
      invariant forall px, py :: if InClip(clip, px, py) then DrawnSo(out(px, py), l, i, guest, px, py, canvas(px, py))
                                 else out(px, py) == canvas(px, py)
    {
      var p := l.pieces[i];
      var was := out;
      MeetsAll(clip, p.Dst());
      if Meets(clip, p.Dst()) {
        out := DrawBlits(out, clip, p.Blits(), guest);
        forall px, py | InClip(clip, px, py)
          ensures DrawnSo(out(px, py), l, i + 1, guest, px, py, canvas(px, py))
        {
          PieceDrawn(was(px, py), l, i, guest, px, py, canvas(px, py));
        }
      } else {
        forall px, py | InClip(clip, px, py)
          ensures DrawnSo(out(px, py), l, i + 1, guest, px, py, canvas(px, py))
        {
          MissedArea(clip, p.Dst(), px, py);
          PiecePassed(out(px, py), l, i, guest, px, py, canvas(px, py));
        }
      }
    }
    forall px, py | InClip(clip, px, py)
      ensures out(px, py) == OverPieces(l.pieces, guest, px, py, canvas(px, py))
    {
      DrawnEnd(out(px, py), l, guest, px, py, canvas(px, py));
    }
  }

  // ---------------------------------------------------------------- what shows through

  predicate PieceDraws(ps: seq<Piece>, px: int, py: int) {
    exists i :: 0 <= i < |ps| && AnyDraws(ps[i].Blits(), px, py)
  }

  /** Some copy of the layout draws a pixel. */
  predicate Covered(lay: Layout, px: int, py: int) {
    || AnyDraws(lay.column.Blits(), px, py)
    || exists i :: 0 <= i < |lay.layers| && PieceDraws(lay.layers[i].pieces, px, py)
  }

  lemma {:induction false} PiecesThrough(ps: seq<Piece>, guest: Pixels, px: int, py: int, u: Colour, v: Colour)
    ensures PieceDraws(ps, px, py) ==> OverPieces(ps, guest, px, py, u) == OverPieces(ps, guest, px, py, v)
    ensures !PieceDraws(ps, px, py) ==> OverPieces(ps, guest, px, py, u) == u
    decreases |ps|
  {
    hide AnyDraws;
    if ps != [] {
      var n := |ps| - 1;
      PiecesThrough(ps[..n], guest, px, py, u, v);
      BlitsThrough(ps[n].Blits(), guest, px, py, OverPieces(ps[..n], guest, px, py, u),
                   OverPieces(ps[..n], guest, px, py, v));
      if !AnyDraws(ps[n].Blits(), px, py) {
        assert PieceDraws(ps, px, py) ==> PieceDraws(ps[..n], px, py) by {
          if PieceDraws(ps, px, py) {
            var i :| 0 <= i < |ps| && AnyDraws(ps[i].Blits(), px, py);
            assert ps[..n][i] == ps[i];
          }
        }
        assert PieceDraws(ps[..n], px, py) ==> PieceDraws(ps, px, py);
      }
    }
  }

  lemma {:induction false} LayersThrough(ls: seq<Layer>, guest: Pixels, px: int, py: int, u: Colour, v: Colour)
    ensures (exists i :: 0 <= i < |ls| && PieceDraws(ls[i].pieces, px, py)) ==>
              OverLayers(ls, guest, px, py, u) == OverLayers(ls, guest, px, py, v)
    ensures !(exists i :: 0 <= i < |ls| && PieceDraws(ls[i].pieces, px, py)) ==> OverLayers(ls, guest, px, py, u) == u
    decreases |ls|
  {
    hide PieceDraws;
    if ls != [] {
      var n := |ls| - 1;
      LayersThrough(ls[..n], guest, px, py, u, v);
      PiecesThrough(ls[n].pieces, guest, px, py, OverLayers(ls[..n], guest, px, py, u),
                    OverLayers(ls[..n], guest, px, py, v));
      if !PieceDraws(ls[n].pieces, px, py) {
        if i :| 0 <= i < |ls| && PieceDraws(ls[i].pieces, px, py) {
          assert ls[..n][i] == ls[i];
        }
      }
    }
  }

  /** What covers a pixel hides the fill; where nothing covers it the fill is all there is. */
  lemma FillShowsThrough(lay: Layout, guest: Pixels, px: int, py: int, u: Colour, v: Colour)
    ensures Covered(lay, px, py) ==> Composed(lay, guest, u, px, py) == Composed(lay, guest, v, px, py)
    ensures !Covered(lay, px, py) ==> Composed(lay, guest, u, px, py) == u
  {
    hide AnyDraws, PieceDraws;
    var bs := lay.column.Blits();
    BlitsThrough(bs, guest, px, py, u, v);
    LayersThrough(lay.layers, guest, px, py, OverBlits(bs, guest, px, py, u), OverBlits(bs, guest, px, py, v));
  }

  /** Drawing everything over an old picture is drawing everything over the fill the old one had. */
  lemma DrawnOverOld(lay: Layout, before: Pixels, after: Pixels, fill: Colour, px: int, py: int)
    ensures Composed(lay, after, Composed(lay, before, fill, px, py), px, py) == Composed(lay, after, fill, px, py)
  {
    hide Composed, Covered;
    FillShowsThrough(lay, after, px, py, Composed(lay, before, fill, px, py), fill);
    FillShowsThrough(lay, after, px, py, fill, fill);
    FillShowsThrough(lay, before, px, py, fill, fill);
  }

  // ---------------------------------------------------------------- planning

  /** What a frame is to do: nothing, the whole screen, or some rectangles. */
  datatype Plan = Quiet | Full | Partial(rects: seq<Rect>)

  /** A layout without the layers' keys: where everything is, whoever it belongs to. */
  function Geometry(lay: Layout): Layout {
    lay.(layers := Unkeyed(lay.layers))
  }

  function Unkeyed(ls: seq<Layer>): (ms: seq<Layer>)
    ensures |ms| == |ls|
  {
    if ls == [] then [] else [ls[0].(key := 0)] + Unkeyed(ls[1..])
  }

  /** Layers that differ only in their keys make the same picture. */
  lemma {:induction false} SameGeometrySamePicture(ls: seq<Layer>, ms: seq<Layer>, guest: Pixels, px: int, py: int,
                                                   under: Colour)
    requires Unkeyed(ls) == Unkeyed(ms)
    ensures OverLayers(ls, guest, px, py, under) == OverLayers(ms, guest, px, py, under)
    decreases |ls|
  {
    UnkeyedAt(ls);
    UnkeyedAt(ms);
    if ls != [] {
      var n := |ls| - 1;
      assert Unkeyed(ls)[n] == Unkeyed(ms)[n];
      UnkeyedInit(ls);
      UnkeyedInit(ms);
      SameGeometrySamePicture(ls[..n], ms[..n], guest, px, py, under);
    }
  }

  lemma {:induction false} UnkeyedAt(ls: seq<Layer>)
    ensures |Unkeyed(ls)| == |ls|
    ensures forall i :: 0 <= i < |ls| ==> Unkeyed(ls)[i] == ls[i].(key := 0)
  {
    if ls != [] { UnkeyedAt(ls[1..]); }
  }

  lemma UnkeyedInit(ls: seq<Layer>)
    requires ls != []
    ensures Unkeyed(ls[..|ls| - 1]) == Unkeyed(ls)[..|ls| - 1]
  {
    UnkeyedAt(ls);
    UnkeyedAt(ls[..|ls| - 1]);
  }

  /** Add an area to the damage, rounded outward; what is off the screen is not added. */
  method AddArea(rects: seq<Rect>, a: Area, lay: Layout) returns (more: seq<Rect>)
    ensures rects <= more
    ensures forall px, py :: Inside(Outward(a, lay), px, py) ==> Damaged(more, px, py)
  {
    var r := Outward(a, lay);
    if r.w > 0 && r.h > 0 {
      more := rects + [r];
      assert more[|rects|] == r;
    } else {
      more := rects;
    }
  }

  /** Map guest rectangles through a scaled piece. */
  method MapInto(rects: seq<Rect>, src: seq<Rect>, b: Blit, kx: real, ky: real, lay: Layout) returns (more: seq<Rect>)
    ensures rects <= more
    ensures GoodScale(b.src.w, b.dst.w, kx) && GoodScale(b.src.h, b.dst.h, ky) ==>
      forall i, px, py :: 0 <= i < |src| && OnScreen(lay, px, py) && Shows(b, src[i], px, py) ==> Damaged(more, px, py)
    ensures (forall i :: 0 <= i < |src| ==> Mapped(b, src[i], kx, ky).None?) ==> more == rects
  {
    hide GoodScale, Mapped, Outward, Shows, OnScreen;
    ghost var good := GoodScale(b.src.w, b.dst.w, kx) && GoodScale(b.src.h, b.dst.h, ky);
    more := rects;
    for i := 0 to |src|
      invariant rects <= more
      invariant good ==> forall j, px, py :: 0 <= j < i && OnScreen(lay, px, py) && Shows(b, src[j], px, py) ==>
        Damaged(more, px, py)
      invariant (forall j :: 0 <= j < i ==> Mapped(b, src[j], kx, ky).None?) ==> more == rects
    {
      var before := more;
      var a := Mapped(b, src[i], kx, ky);
      if a.Some? {
        more := AddArea(more, a.value, lay);
      }
      LongerIsWider(before, more);
      forall j, px, py | good && 0 <= j <= i && OnScreen(lay, px, py) && Shows(b, src[j], px, py)
        ensures Damaged(more, px, py)
      {
        if j == i { ScaledDamage(b, kx, ky, src[i], lay, px, py); }
      }
    }
  }

  /** The answer covers everything the newest rectangle holds. */
  ghost predicate CoversNewest(src: seq<Rect>, newest: Rect) {
    forall x, y :: Inside(newest, x, y) ==> exists i :: 0 <= i < |src| && Inside(src[i], x, y)
  }

  /** Planning takes no notice of a guest rectangle for a piece. */
  predicate PieceMissed(p: Piece, r: Rect) {
    match p
    case Band(band, _, _) => !HitsArea(r, band)
    case Scaled(copy, kx, ky) => Mapped(copy, r, kx, ky).None?
  }

  predicate LayerMissed(l: Layer, r: Rect) { forall i :: 0 <= i < |l.pieces| ==> PieceMissed(l.pieces[i], r) }

  predicate LayoutMissed(lay: Layout, r: Rect) {
    PieceMissed(lay.column, r) && forall i :: 0 <= i < |lay.layers| ==> LayerMissed(lay.layers[i], r)
  }

  /** The damage of one piece: a band whole if anything of its source was painted, a scaled copy only
      where it was. */
  method PlanPiece(rects: seq<Rect>, src: seq<Rect>, p: Piece, lay: Layout, ghost newest: Rect)
    returns (more: seq<Rect>)
    requires CoversNewest(src, newest)
    ensures rects <= more && (GoodPiece(p) ==> PieceDamaged(p, newest, more, lay))
    ensures (forall i :: 0 <= i < |src| ==> PieceMissed(p, src[i])) ==> more == rects
  {
    hide Outward, GoodScale, Mapped, HitsArea;
    match p
    case Scaled(copy, kx, ky) =>
      more := MapInto(rects, src, copy, kx, ky, lay);
      assert (forall i :: 0 <= i < |src| ==> PieceMissed(p, src[i])) ==>
          forall i :: 0 <= i < |src| ==> Mapped(copy, src[i], kx, ky).None?;
      forall px, py | GoodPiece(p) && OnScreen(lay, px, py) && Shows(copy, newest, px, py)
        ensures Damaged(more, px, py)
      {
        var i := NewestShown(src, copy, newest, px, py);
      }
    case Band(band, dst, copies) =>
      more := rects;
      if exists i :: 0 <= i < |src| && HitsArea(src[i], band) {
        more := AddArea(rects, dst, lay);
        var i :| 0 <= i < |src| && HitsArea(src[i], band);
        assert !PieceMissed(p, src[i]);
      }
      forall b, px, py |
          GoodPiece(p) && b in copies && OnScreen(lay, px, py) && Tight(p, px, py) && Shows(b, newest, px, py)
        ensures Damaged(more, px, py)
      {
        var i := NewestShown(src, b, newest, px, py);
        BandDamage(band, dst, b, src[i], lay, px, py);
      }
  }

  lemma NewestShown(src: seq<Rect>, b: Blit, newest: Rect, px: int, py: int) returns (i: int)
    requires CoversNewest(src, newest) && Shows(b, newest, px, py)
    ensures 0 <= i < |src| && Shows(b, src[i], px, py)
  {
    var s := SampleAt(b, px, py);
    assert Inside(newest, s.0, s.1);
    i :| 0 <= i < |src| && Inside(src[i], s.0, s.1);
  }

  /** A whole layer added: everything it draws is inside its bounds. */
  lemma WholeLayerDamaged(l: Layer, r: Rect, rects: seq<Rect>, lay: Layout)
    requires GoodLayer(l)
    requires forall px, py :: Inside(Outward(l.bounds, lay), px, py) ==> Damaged(rects, px, py)
    ensures LayerDamaged(l, r, rects, lay)
  {
    hide Outward, Tight, Damaged, GoodPiece, Kept;
    forall p, b, px, py |
        p in l.pieces && b in p.Blits() && OnScreen(lay, px, py) && Tight(p, px, py) && Shows(b, r, px, py)
      ensures Damaged(rects, px, py)
    {
      TightCovers(p, b, px, py);
      InsideCovers(p.Dst(), l.bounds, px, py);
      CoveredInside(l.bounds, lay, px, py);
    }
  }

  lemma TightCovers(p: Piece, b: Blit, px: int, py: int)
    requires b in p.Blits() && Tight(p, px, py) && Draws(b, px, py)
    ensures Covers(p.Dst(), px, py)
  {}

  lemma CoveredInside(a: Area, lay: Layout, px: int, py: int)
    requires OnScreen(lay, px, py) && Covers(a, px, py)
    ensures Inside(Outward(a, lay), px, py)
  {
    InOutward(a, lay, px, py);
  }

  /** When one rectangle is new, it is the answer. */
  lemma OneNew(a: Answer, history: seq<Rect>, gen: nat)
    requires IsAnswer(a, history, gen) && gen < |history|
    ensures gen == |history| - 1 ==> a == Rects([history[gen]])
  {
    if gen == |history| - 1 {
      assert Newest(history, 1) == [history[gen]];
    }
  }

  lemma AnswerCoversNewest(a: Answer, history: seq<Rect>, gen: nat)
    requires IsAnswer(a, history, gen) && gen < |history| && a.Rects?
    ensures CoversNewest(a.rects, history[|history| - 1])
  {
    hide IsAnswer;
    var newest := history[|history| - 1];
    forall x, y | Inside(newest, x, y)
      ensures exists i :: 0 <= i < |a.rects| && Inside(a.rects[i], x, y)
    {
      NewestIsCovered(a, history, gen, x, y);
    }
  }

  lemma BoxIsWider(box: Rect, rects: seq<Rect>)
    requires IsBox(box, rects)
    ensures Wider([box], rects)
  {
    forall px, py | Damaged(rects, px, py)
      ensures Damaged([box], px, py)
    {
      var i :| 0 <= i < |rects| && Inside(rects[i], px, py);
      assert Inside([box][0], px, py);
    }
  }

  // ---------------------------------------------------------------- the host

  datatype Paint = Paint(d: Rect, after: Pixels)

  /** What a frame is for: the boot screen or the switcher, which own the whole canvas, or the desktop. */
  datatype Scene = Overlay(picture: Canvas) | Desktop(layout: Layout)

  /** `renewed`: the guest published a new layout since the frame before. */
  datatype Frame = Frame(paint: Option<Paint>, cleared: Option<Canvas>, renewed: bool, scene: Scene)

  ghost predicate Shown(canvas: Canvas, lay: Layout, guest: Pixels, fill: Colour) {
    forall px, py :: OnScreen(lay, px, py) ==> canvas(px, py) == Composed(lay, guest, fill, px, py)
  }

  class Host {
    const screen: GuestScreen
    var canvas: Canvas
    var layerGen: map<int, nat>
    var lastBgGen: int
    var needFull: bool
    var lastPlan: Option<Layout>
    ghost var fill: Colour

    /** What planning relies on, whatever is on the canvas. */
    ghost predicate Booked()
      reads this, screen, screen.log, screen.log.log
    {
      && screen.Valid()
      && lastBgGen <= |screen.log.history|
      && (!needFull ==> lastBgGen >= 0 && lastPlan.Some? && (lastPlan.value.corner.None? ==> fill == BLACK))
      && Stamped(layerGen, lastBgGen)
    }

    /** Between frames, unless the next one is to be a full one, the canvas is the whole picture. */
    ghost predicate Valid()
      reads this, screen, screen.log, screen.log.log
    {
      && Booked()
      && (!needFull ==> Shown(canvas, lastPlan.value, screen.px, fill))
    }

    constructor (screen: GuestScreen, canvas: Canvas)
      requires screen.Valid()
      ensures Valid() && this.screen == screen && needFull
    {
      this.screen, this.canvas := screen, canvas;
      layerGen, lastBgGen, needFull, lastPlan := map[], -1, true, None;
      fill := BLACK;
    }

    /** The next frame is to be a full one, for a reason that planning has no way to notice. */
    method Invalidate()
      requires Valid()
      modifies this`needFull
      ensures Valid() && needFull
    {
      needFull := true;
    }

    /** The layer of this key was drawn at the paint before the newest. */
    ghost predicate Current(key: int)
      reads this, screen, screen.log
    {
      key in layerGen && layerGen[key] == |screen.log.history| - 1
    }

    /** The damage of one layer: all of it if it was never drawn or its generation is forgotten. */
    method PlanLayer(rects: seq<Rect>, l: Layer, lay: Layout) returns (more: seq<Rect>)
      requires Booked() && 0 <= lastBgGen < |screen.log.history|
      ensures rects <= more
      ensures GoodLayer(l) ==> LayerDamaged(l, screen.log.history[|screen.log.history| - 1], more, lay)
      ensures Current(l.key) && LayerMissed(l, screen.log.history[|screen.log.history| - 1]) ==> more == rects
    {
      hide Outward, GoodPiece, PieceDamaged, IsAnswer, CoversNewest, Wider, Kept, PieceMissed;
      ghost var newest := screen.log.history[|screen.log.history| - 1];
      var a := All;
      if l.key in layerGen {
        a := screen.log.DirtyRectsSince(layerGen[l.key]);
        SomethingNew(a, screen.log.history, layerGen[l.key]);
      }
      if a.All? {
        more := AddArea(rects, l.bounds, lay);
        if GoodLayer(l) {
          WholeLayerDamaged(l, newest, more, lay);
        }
        if l.key in layerGen {
          OneNew(a, screen.log.history, layerGen[l.key]);
        }
      } else {
        OneNew(a, screen.log.history, layerGen[l.key]);
        AnswerCoversNewest(a, screen.log.history, layerGen[l.key]);
        more := rects;
        for j := 0 to |l.pieces|
          invariant rects <= more
          invariant GoodLayer(l) ==> forall k :: 0 <= k < j ==> PieceDamaged(l.pieces[k], newest, more, lay)
          invariant a.rects == [newest] && LayerMissed(l, newest) ==> more == rects
        {
          ghost var before := more;
          more := PlanPiece(more, a.rects, l.pieces[j], lay, newest);
          LongerIsWider(before, more);
          if GoodLayer(l) {
            PiecesDamageGrows(l.pieces[..j], newest, before, more, lay);
          }
        }
      }
    }

    /** A frame redraws everything when it must, when anything moved, and when the ring has forgotten where
        the last one left off. */
    ghost predicate FullDue(lay: Layout)
      reads this, screen, screen.log
    {
      || needFull || lastPlan != Some(Geometry(lay))
      || (lastBgGen < |screen.log.history| && |screen.log.history| - lastBgGen > DIRTY_LOG)
    }

    /** All has been drawn but one paint, and no piece of the layout shows any of that one. */
    ghost predicate OnlyMissed(lay: Layout)
      reads this, screen, screen.log
    {
      && 0 <= lastBgGen == |screen.log.history| - 1 && UpToDate(lay, layerGen, lastBgGen)
      && LayoutMissed(lay, screen.log.history[lastBgGen])
    }

    /** The damage of a frame: everything the newest paint can have changed on the screen. */
    method PlanDamage(lay: Layout) returns (plan: Plan)
      requires Booked()
      modifies this`lastPlan
      ensures lastPlan == Some(Geometry(lay))
      ensures plan.Full? <==> old(FullDue(lay))
      ensures plan.Partial? && |plan.rects| != 1 ==>
        |plan.rects| <= 12 && AreaOf(plan.rects) * 10 <= 6 * lay.vw * lay.vh
      ensures !plan.Full? && OnlyMissed(lay) ==> plan.Quiet?
      ensures GoodLayout(lay) && !plan.Full? && lastBgGen < |screen.log.history| ==>
        LayoutDamaged(lay, screen.log.history[|screen.log.history| - 1], if plan.Partial? then plan.rects else [])
    {
      hide GoodLayer, GoodPiece, LayerDamaged, PieceDamaged, IsAnswer, CoversNewest, Wider, Geometry;
      hide PieceMissed, LayerMissed, UpToDate, Stamped, Shown;
      var moved := lastPlan != Some(Geometry(lay));
      lastPlan := Some(Geometry(lay));
      if needFull || moved { return Full; }
      if screen.log.dirtyGen == lastBgGen { return Quiet; }
      var rects, bg := PlanColumn(lay);
      if bg { return Full; }
      rects := PlanLayers(rects, lay);
      if rects == [] { return Quiet; }
      if |rects| > 12 || AreaOf(rects) * 10 > 6 * lay.vw * lay.vh {
        var box := screen.log.BoxOf(rects);
        BoxIsWider(box, rects);
        if GoodLayout(lay) {
          LayoutDamageGrows(lay, screen.log.history[|screen.log.history| - 1], rects, [box]);
        }
        return Partial([box]);
      }
      plan := Partial(rects);
    }

    method PlanColumn(lay: Layout) returns (rects: seq<Rect>, all: bool)
      requires Booked() && 0 <= lastBgGen < |screen.log.history|
      ensures lastBgGen == |screen.log.history| - 1 && PieceMissed(lay.column, screen.log.history[lastBgGen]) ==>
        rects == []
      ensures all <==> |screen.log.history| - lastBgGen > DIRTY_LOG
      ensures !all && GoodPiece(lay.column) ==>
        PieceDamaged(lay.column, screen.log.history[|screen.log.history| - 1], rects, lay)
    {
      hide GoodPiece, PieceDamaged, IsAnswer, CoversNewest, PieceMissed;
      var a := screen.log.DirtyRectsSince(lastBgGen);
      SomethingNew(a, screen.log.history, lastBgGen);
      OneNew(a, screen.log.history, lastBgGen);
      AllIsOld(a, screen.log.history, lastBgGen);
      rects, all := [], a.All?;
      if a.Rects? {
        AnswerCoversNewest(a, screen.log.history, lastBgGen);
        rects := PlanPiece(rects, a.rects, lay.column, lay, screen.log.history[|screen.log.history| - 1]);
      }
    }

    method PlanLayers(rects: seq<Rect>, lay: Layout) returns (more: seq<Rect>)
      requires Booked() && 0 <= lastBgGen < |screen.log.history|
      requires GoodLayout(lay) ==> PieceDamaged(lay.column, screen.log.history[|screen.log.history| - 1], rects, lay)
      ensures GoodLayout(lay) ==> LayoutDamaged(lay, screen.log.history[|screen.log.history| - 1], more)
      ensures OnlyMissed(lay) ==> more == rects
    {
      hide GoodLayer, GoodPiece, LayerDamaged, PieceDamaged, Wider, LayerMissed;
      ghost var newest := screen.log.history[|screen.log.history| - 1];
      more := rects;
      for i := 0 to |lay.layers|
        invariant rects <= more
        invariant GoodLayout(lay) ==> forall k :: 0 <= k < i ==> LayerDamaged(lay.layers[k], newest, more, lay)
        invariant OnlyMissed(lay) ==> more == rects
      {
        ghost var before := more;
        more := PlanLayer(more, lay.layers[i], lay);
        LongerIsWider(before, more);
        forall k | GoodLayout(lay) && 0 <= k < i
          ensures LayerDamaged(lay.layers[k], newest, more, lay)
        {
          LayerDamageGrows(lay.layers[k], newest, before, more, lay);
        }
      }
      LongerIsWider(rects, more);
      if GoodLayout(lay) {
        PieceDamageGrows(lay.column, newest, rects, more, lay);
      }
    }

    /** The column and then the layers, back to front, inside the clip; each layer drawn is up to date
        with everything the guest has painted. */
    method DrawAll(lay: Layout, clip: Option<seq<Rect>>)
      requires screen.Valid() && (clip.Some? ==> GoodLayout(lay)) && Stamped(layerGen, screen.log.dirtyGen)
      modifies this`canvas, this`layerGen
      ensures Redrawn(canvas, old(canvas), clip, lay, screen.px)
      ensures Stamped(layerGen, screen.log.dirtyGen)
      ensures clip.None? ==> UpToDate(lay, layerGen, screen.log.dirtyGen)
    {
      hide GoodLayer, GoodPiece, InClip, Meets;
      var under := canvas;
      canvas := DrawBlits(canvas, clip, lay.column.Blits(), screen.px);
      ghost var column := canvas;
      for i := 0 to |lay.layers|
        invariant forall px, py :: canvas(px, py)
                                   == if InClip(clip, px, py)
                                      then OverLayers(lay.layers[..i], screen.px, px, py, column(px, py))
                                      else column(px, py)
        invariant Stamped(layerGen, screen.log.dirtyGen)
        invariant clip.None? ==>
          forall k :: 0 <= k < i ==> lay.layers[k].key in layerGen && layerGen[lay.layers[k].key] == screen.log.dirtyGen
      {
        MeetsAll(clip, lay.layers[i].bounds);
        var l := lay.layers[i];
        ghost var before := canvas;
        assert lay.layers[..i + 1][..i] == lay.layers[..i];
        if Meets(clip, l.bounds) {
          canvas := DrawWindow(canvas, clip, l, screen.px);
          layerGen := layerGen[l.key := screen.log.dirtyGen];
        } else {
          forall px, py | InClip(clip, px, py)
            ensures OverPieces(l.pieces, screen.px, px, py, before(px, py)) == before(px, py)
          {
            MissedLayer(clip, l, screen.px, px, py, before(px, py));
          }
        }
      }
      assert lay.layers[..|lay.layers|] == lay.layers;
    }

    /** Everything, over a canvas cleared to the fill colour. */
    method FullFrame(lay: Layout)
      requires screen.Valid() && GoodCorner(lay) && Stamped(layerGen, screen.log.dirtyGen)
      modifies this`canvas, this`layerGen, this`fill, screen`cache
      ensures screen.Valid() && Stamped(layerGen, screen.log.dirtyGen) && UpToDate(lay, layerGen, screen.log.dirtyGen)
      ensures fill == FillOf(lay, screen.px)
      ensures fill == match lay.corner case None => 0 case Some((x, y)) => screen.px(x, y)
      ensures Shown(canvas, lay, screen.px, fill)
    {
      var colour := BLACK;
      if lay.corner.Some? {
        colour := screen.SampleColour(lay.corner.value.0, lay.corner.value.1);
      }
      fill := colour;
      canvas := (px, py) => colour;
      DrawAll(lay, None);
    }

    /** The pixel that stands for the desktop's colour is on the guest's screen. */
    predicate GoodCorner(lay: Layout) {
      lay.corner.Some? ==> 0 <= lay.corner.value.0 < screen.width && 0 <= lay.corner.value.1 < screen.height
    }

    /** A frame of the desktop. The canvas shows the picture as it was before the guest's newest paint;
        afterwards it shows the picture as it is, or what it did where planning missed all of the paint. */
    method ComposeDesktop(lay: Layout, ghost before: Pixels)
      requires Booked() && (FullDue(lay) || GoodLayout(lay) || OnlyMissed(lay)) && GoodCorner(lay)
      requires !needFull ==> Shown(canvas, lastPlan.value, before, fill)
      requires !needFull ==> NewestPaint(before, screen.px, screen.log.history, lastBgGen)
      modifies this, screen`cache
      ensures old(FullDue(lay)) || GoodLayout(lay) ==> Valid() && Shown(canvas, lay, screen.px, fill)
      ensures !old(FullDue(lay)) && old(OnlyMissed(lay)) ==> canvas == old(canvas)
      ensures Booked() && !needFull && lastPlan == Some(Geometry(lay))
      ensures fill == if old(FullDue(lay)) then FillOf(lay, screen.px) else old(fill)
      ensures old(FullDue(lay)) ==> lastBgGen == |screen.log.history| && UpToDate(lay, layerGen, lastBgGen)
      ensures lay.corner.None? ==> fill == BLACK
    {
      hide GoodLayout, Geometry, Shown, LayoutDamaged, GoodCorner, NewestPaint, GuestScreen.Valid, FillOf, Stamped;
      hide FullDue, OnlyMissed;
      CornerKept(lay);
      DueUnlessPlanned(lay);
      BooksStamped();
      var plan := PlanDamage(lay);
      if !plan.Full? {
        ShownAlike(canvas, lay, before, fill);
      }
      DrawPlanned(lay, plan, before);
      if plan.Full? || GoodLayout(lay) {
        ShownAlike(canvas, lay, screen.px, fill);
      }
      FillBlack(lay, screen.px);
      Settle(lay, plan);
    }

    lemma BooksStamped()
      requires Booked()
      ensures Stamped(layerGen, screen.log.dirtyGen) && screen.log.dirtyGen == |screen.log.history|
    {
      hide KeyedScreen, CacheRight, Recorded;
    }

    lemma DueUnlessPlanned(lay: Layout)
      ensures !FullDue(lay) ==> !needFull && lastPlan == Some(Geometry(lay))
    {
      hide Geometry;
    }

    /** What a plan says, drawn. */
    method DrawPlanned(lay: Layout, plan: Plan, ghost before: Pixels)
      requires screen.Valid() && GoodCorner(lay) && Stamped(layerGen, screen.log.dirtyGen)
      requires plan.Partial? ==> GoodLayout(lay)
      requires !plan.Full? && GoodLayout(lay) ==>
        && Shown(canvas, lay, before, fill)
        && NewestPaint(before, screen.px, screen.log.history, lastBgGen)
        && (lastBgGen < |screen.log.history| && |screen.log.history| > 0 ==>
              LayoutDamaged(lay, screen.log.history[|screen.log.history| - 1],
                            if plan.Partial? then plan.rects else []))
      modifies this`canvas, this`layerGen, this`fill, screen`cache
      ensures screen.Valid() && Stamped(layerGen, screen.log.dirtyGen)
      ensures plan.Full? || GoodLayout(lay) ==> Shown(canvas, lay, screen.px, fill)
      ensures fill == if plan.Full? then FillOf(lay, screen.px) else old(fill)
      ensures plan.Quiet? ==> layerGen == old(layerGen) && canvas == old(canvas)
      ensures plan.Full? ==> UpToDate(lay, layerGen, screen.log.dirtyGen)
    {
      hide GoodLayout, KeyedScreen, Shown, LayoutDamaged, GoodCorner, CacheRight, Recorded, NewestPaint, Redrawn;
      hide Stamped, FillOf;
      if plan.Full? {
        FullFrame(lay);
      } else {
        var clip := if plan.Partial? then plan.rects else [];
        ghost var was := canvas;
        if plan.Partial? {
          DrawAll(lay, Some(clip));
        }
        if GoodLayout(lay) {
          PartialShown(was, canvas, lay, before, screen.px, screen.log.history, lastBgGen, clip, fill);
        }
      }
    }

    /** The books after a frame: what it left off at, and the layers that are still there. */
    method Settle(lay: Layout, plan: Plan)
      requires screen.Valid() && lastPlan == Some(Geometry(lay)) && (lay.corner.None? ==> fill == BLACK)
      requires lastBgGen <= |screen.log.history|
      requires if plan.Quiet? then Stamped(layerGen, lastBgGen) && !needFull && lastBgGen >= 0
               else Stamped(layerGen, screen.log.dirtyGen)
      modifies this`lastBgGen, this`needFull, this`layerGen
      ensures Booked() && !needFull
      ensures !plan.Quiet? ==> lastBgGen == |screen.log.history|
      ensures !plan.Quiet? && old(UpToDate(lay, layerGen, screen.log.dirtyGen)) ==> UpToDate(lay, layerGen, lastBgGen)
    {
      hide Geometry, KeyedScreen, CacheRight, Recorded;
      CornerKept(lay);
      if !plan.Quiet? {
        lastBgGen := screen.log.dirtyGen;
        needFull := false;
        layerGen := map k | k in layerGen && exists i :: 0 <= i < |lay.layers| && lay.layers[i].key == k :: layerGen[k];
      }
    }

    /** One animation frame. Whatever it draws, the canvas of a desktop frame is afterwards the whole
        picture of the guest's pixels as they are now. */
    method PresentOnce(frame: Frame)
      requires Valid()
      requires frame.paint.Some? ==> Painted(screen.px, frame.paint.value.after, frame.paint.value.d)
      requires frame.scene.Desktop? ==>
        && GoodCorner(frame.scene.layout)
        && (GoodLayout(frame.scene.layout) || needFull || frame.cleared.Some? || frame.renewed
            || lastPlan != Some(Geometry(frame.scene.layout)))
      modifies this, screen, screen.log, screen.log.log
      ensures Valid()
      ensures screen.px == (if frame.paint.Some? then frame.paint.value.after else old(screen.px))
      ensures |screen.log.history| == |old(screen.log.history)| + if frame.paint.Some? then 1 else 0
      ensures frame.scene.Desktop? ==> Shown(canvas, frame.scene.layout, screen.px, fill)
      ensures frame.scene.Desktop? ==> !needFull && lastPlan == Some(Geometry(frame.scene.layout))
      ensures frame.scene.Desktop? ==>
        fill == if old(needFull) || frame.cleared.Some? || frame.renewed
                   || old(lastPlan) != Some(Geometry(frame.scene.layout))
                   || |screen.log.history| - old(lastBgGen) > 256
                then FillOf(frame.scene.layout, screen.px)
                else old(fill)
      ensures frame.scene.Desktop? && (old(needFull) || frame.cleared.Some? || frame.renewed) ==>
        lastBgGen == |screen.log.history| && UpToDate(frame.scene.layout, layerGen, lastBgGen)
      ensures frame.scene.Overlay? ==> needFull && lastPlan == old(lastPlan) && fill == old(fill)
      ensures frame.scene.Desktop? && frame.scene.layout.corner.None? ==> fill == BLACK
    {
      hide GoodLayout, Geometry, Shown, GoodCorner, Booked, Valid, FillOf, GuestScreen.Valid, NewestPaint;
      ghost var before := screen.px;
      Begin(frame);
      match frame.scene
      case Overlay(picture) =>
        Cover(picture);
      case Desktop(lay) =>
        DueIs(lay);
        ComposeDesktop(lay, before);
    }

    /** Something else takes the canvas over, and the next desktop frame is a full one. */
    method Cover(picture: Canvas)
      requires Booked()
      modifies this`canvas, this`needFull
      ensures Valid() && needFull && canvas == picture
    {
      hide KeyedScreen, CacheRight, Recorded;
      canvas := picture;
      needFull := true;
    }

    lemma DueIs(lay: Layout)
      ensures FullDue(lay) <==>
              needFull || lastPlan != Some(Geometry(lay)) || |screen.log.history| - lastBgGen > DIRTY_LOG
    {
      hide Geometry;
    }

    /** What has happened since the frame before: a layout published, pixels painted, the canvas cleared. */
    method Begin(frame: Frame)
      requires Valid()
      requires frame.paint.Some? ==> Painted(screen.px, frame.paint.value.after, frame.paint.value.d)
      modifies this`canvas, this`needFull, screen, screen.log, screen.log.log
      ensures Booked()
      ensures screen.px == (if frame.paint.Some? then frame.paint.value.after else old(screen.px))
      ensures screen.log.history == old(screen.log.history) + if frame.paint.Some? then [frame.paint.value.d] else []
      ensures needFull == (old(needFull) || frame.renewed || frame.cleared.Some?)
      ensures !needFull ==> lastPlan.Some? && Shown(canvas, lastPlan.value, old(screen.px), fill)
      ensures !needFull ==> NewestPaint(old(screen.px), screen.px, screen.log.history, lastBgGen)
    {
      hide Painted, KeyedScreen, Shown, CacheRight, Recorded;
      if frame.renewed {
        screen.DropSampleCache();
        Invalidate();
      }
      if frame.paint.Some? {
        screen.Paint(frame.paint.value.d, frame.paint.value.after);
      }
      if frame.cleared.Some? {
        canvas := frame.cleared.value;
        needFull := true;
      }
    }
  }

  /** A canvas with the whole picture drawn over it inside a clip. */
  ghost predicate Redrawn(now: Canvas, was: Canvas, clip: Option<seq<Rect>>, lay: Layout, guest: Pixels) {
    forall px, py :: now(px, py)
                     == if InClip(clip, px, py) then Composed(lay, guest, was(px, py), px, py) else was(px, py)
  }

  /** Every layer of a layout was drawn at a generation. */
  ghost predicate UpToDate(lay: Layout, layerGen: map<int, nat>, gen: int) {
    forall i :: 0 <= i < |lay.layers| ==> lay.layers[i].key in layerGen && layerGen[lay.layers[i].key] == gen
  }

  /** No layer claims to be newer than the newest paint. */
  ghost predicate Stamped(layerGen: map<int, nat>, gen: int) {
    forall k :: k in layerGen ==> layerGen[k] <= gen
  }

  /** Since the canvas was last right either nothing was painted or just the newest rectangle was. */
  ghost predicate NewestPaint(before: Pixels, after: Pixels, history: seq<Rect>, since: int) {
    || before == after
    || (since < |history| && |history| > 0 && Painted(before, after, history[|history| - 1]))
  }

  lemma {:induction false} UnkeyedTwice(ls: seq<Layer>)
    ensures Unkeyed(Unkeyed(ls)) == Unkeyed(ls)
  {
    UnkeyedAt(ls);
    UnkeyedAt(Unkeyed(ls));
  }

  lemma ShownAlike(canvas: Canvas, lay: Layout, guest: Pixels, fill: Colour)
    ensures Shown(canvas, lay, guest, fill) <==> Shown(canvas, Geometry(lay), guest, fill)
  {
    forall px, py
      ensures Composed(lay, guest, fill, px, py) == Composed(Geometry(lay), guest, fill, px, py)
    {
      UnkeyedTwice(lay.layers);
      SameGeometrySamePicture(lay.layers, Unkeyed(lay.layers), guest, px, py,
                              OverBlits(lay.column.Blits(), guest, px, py, fill));
    }
  }

  lemma FillBlack(lay: Layout, guest: Pixels)
    ensures lay.corner.None? ==> FillOf(lay, guest) == BLACK
  {}

  lemma CornerKept(lay: Layout)
    ensures Geometry(lay).corner == lay.corner
  {}

  /** Redrawing just the damage leaves the whole picture. */
  lemma PartialShown(was: Canvas, now: Canvas, lay: Layout, before: Pixels, after: Pixels, history: seq<Rect>,
                     since: int, rects: seq<Rect>, fill: Colour)
    requires GoodLayout(lay) && Shown(was, lay, before, fill) && NewestPaint(before, after, history, since)
    requires since < |history| && |history| > 0 ==> LayoutDamaged(lay, history[|history| - 1], rects)
    requires Redrawn(now, was, Some(rects), lay, after) || (now == was && rects == [])
    ensures Shown(now, lay, after, fill)
  {
    assert rects == [] ==> forall px, py :: !Damaged(rects, px, py);
    hide Composed, LayoutDamaged, OnScreen, Painted, Damaged, GoodLayout;
    forall px, py | OnScreen(lay, px, py)
      ensures now(px, py) == Composed(lay, after, fill, px, py)
    {
      if InClip(Some(rects), px, py) {
        DrawnOverOld(lay, before, after, fill, px, py);
      } else if before != after {
        UndamagedSame(lay, before, after, history[|history| - 1], rects, fill, px, py);
      }
    }
  }

  /** What the canvas shows is the picture a full redraw would make at exactly the pixels that some
      layer covers or whose fill has not changed since the last full frame. With the column up the
      fill is always black, so there it is the whole screen. */
  lemma ShownIsFullRedraw(canvas: Canvas, lay: Layout, guest: Pixels, fill: Colour, px: int, py: int)
    requires Shown(canvas, lay, guest, fill) && OnScreen(lay, px, py)
    ensures canvas(px, py) == Composed(lay, guest, FillOf(lay, guest), px, py)
       <==> Covered(lay, px, py) || fill == FillOf(lay, guest)
  {
    hide Covered, Composed;
    FillShowsThrough(lay, guest, px, py, fill, FillOf(lay, guest));
    FillShowsThrough(lay, guest, px, py, FillOf(lay, guest), fill);
  }

  // ---------------------------------------------------------------- whole runs

  function PixelsAfter(px: Pixels, frames: seq<Frame>): Pixels {
    if frames == [] then px
    else
      var paint := frames[|frames| - 1].paint;
      if paint.Some? then paint.value.after else PixelsAfter(px, frames[..|frames| - 1])
  }

  /** A run of frames: every paint is reported with a rectangle around what it changed. */
  ghost predicate GoodRun(host: Host, px: Pixels, frames: seq<Frame>) {
    forall i :: 0 <= i < |frames| ==>
      && (frames[i].paint.Some? ==>
            Painted(PixelsAfter(px, frames[..i]), frames[i].paint.value.after, frames[i].paint.value.d))
      && (frames[i].scene.Desktop? ==> GoodLayout(frames[i].scene.layout) && host.GoodCorner(frames[i].scene.layout))
  }

  /** A desktop frame for which nothing was cleared, published or moved. */
  predicate Steady(frame: Frame, plan: Option<Layout>) {
    frame.scene.Desktop? && frame.cleared.None? && !frame.renewed && plan == Some(Geometry(frame.scene.layout))
  }

  /** The fill colour is that of the frame drawn in full at `full`, after which there was no reason for another
      but the ring's forgetting; or, where there was none, what it was. */
  ghost predicate FilledAt(full: int, frames: seq<Frame>, px: Pixels, plan: Option<Layout>, was: Colour, fill: Colour) {
    && -1 <= full < |frames|
    && (full < 0 ==> fill == was && forall k :: 0 <= k < |frames| ==> Steady(frames[k], plan))
    && (full >= 0 ==>
          && frames[full].scene.Desktop?
          && fill == FillOf(frames[full].scene.layout, PixelsAfter(px, frames[..full + 1]))
          && forall k :: full < k < |frames| ==> Steady(frames[k], Some(Geometry(frames[full].scene.layout))))
  }

  lemma FilledMore(full: int, frames: seq<Frame>, px: Pixels, plan: Option<Layout>, was: Colour, fill: Colour,
                   next: Frame)
    requires FilledAt(full, frames, px, plan, was, fill)
    requires Steady(next, if full < 0 then plan else Some(Geometry(frames[full].scene.layout)))
    ensures FilledAt(full, frames + [next], px, plan, was, fill)
  {
    hide Steady, PixelsAfter;
    if full >= 0 {
      assert (frames + [next])[..full + 1] == frames[..full + 1];
    }
  }

  lemma FilledHere(frames: seq<Frame>, px: Pixels, plan: Option<Layout>, was: Colour, fill: Colour, next: Frame)
    requires next.scene.Desktop? && fill == FillOf(next.scene.layout, PixelsAfter(px, frames + [next]))
    ensures FilledAt(|frames|, frames + [next], px, plan, was, fill)
  {
    assert (frames + [next])[..|frames| + 1] == frames + [next];
  }

  /** On every run of paints, layouts published and moved, cleared canvases and interludes, a desktop frame
      ends with the whole picture of the pixels painted so far, over the colour of the last frame drawn in
      full. */
  method Play(host: Host, frames: seq<Frame>) returns (ghost full: int)
    requires host.Valid() && GoodRun(host, host.screen.px, frames)
    modifies host, host.screen, host.screen.log, host.screen.log.log
    ensures host.Valid() && host.screen.px == PixelsAfter(old(host.screen.px), frames)
    ensures frames != [] && frames[|frames| - 1].scene.Desktop? ==>
      var lay := frames[|frames| - 1].scene.layout;
      && Shown(host.canvas, lay, host.screen.px, host.fill)
      && FilledAt(full, frames, old(host.screen.px), old(host.lastPlan), old(host.fill), host.fill)
      && (old(host.needFull) ==> full >= 0)
      && (lay.corner.None? ==> host.fill == BLACK)
  {
    hide GoodLayout, Painted, Shown, GuestScreen.Valid, DirtyLog.Valid, Host.Valid, Host.GoodCorner;
    hide FilledAt, Geometry, FillOf, UpToDate, PixelsAfter;
    ghost var px, plan, was := host.screen.px, host.lastPlan, host.fill;
    ghost var must := host.needFull;
    full := -1;
    FilledNone(px, plan, was);
    for i := 0 to |frames|
      invariant host.Valid() && host.screen.px == PixelsAfter(px, frames[..i])
      invariant i > 0 && frames[i - 1].scene.Desktop? ==>
        var lay := frames[i - 1].scene.layout;
        && Shown(host.canvas, lay, host.screen.px, host.fill)
        && (lay.corner.None? ==> host.fill == BLACK)
      invariant -1 <= full < i
      invariant host.needFull || FilledAt(full, frames[..i], px, plan, was, host.fill)
      invariant !host.needFull ==> host.lastPlan == PlanAt(full, frames, plan) && (must ==> full >= 0)
      invariant i > 0 && frames[i - 1].scene.Desktop? ==> !host.needFull
    {
      ghost var before, filled := host.lastPlan, host.fill;
      ghost var due := host.needFull;
      host.PresentOnce(frames[i]);
      assert frames[..i + 1] == frames[..i] + [frames[i]];
      PixelsNext(px, frames[..i], frames[i]);
      if frames[i].scene.Desktop? {
        if !due && Steady(frames[i], before) && host.fill == filled {
          FilledMore(full, frames[..i], px, plan, was, filled, frames[i]);
        } else {
          FilledHere(frames[..i], px, plan, was, host.fill, frames[i]);
          full := i;
        }
      }
    }
    assert frames[..|frames|] == frames;
  }

  ghost function PlanAt(full: int, frames: seq<Frame>, plan: Option<Layout>): Option<Layout>
    requires full < |frames|
  {
    if full < 0 then plan
    else if frames[full].scene.Desktop? then Some(Geometry(frames[full].scene.layout))
    else None
  }

  lemma PixelsNext(px: Pixels, frames: seq<Frame>, next: Frame)
    ensures PixelsAfter(px, frames + [next])
            == if next.paint.Some? then next.paint.value.after else PixelsAfter(px, frames)
  {
    assert (frames + [next])[..|frames|] == frames;
  }

  lemma FilledNone(px: Pixels, plan: Option<Layout>, was: Colour)
    ensures PixelsAfter(px, []) == px
    ensures FilledAt(-1, [], px, plan, was, was)
  {}

  const PIXEL := Dirty.Rect(0, 0, 1, 1)

  /** Nothing on the screen but what shows through to the colour of its only pixel. */
  const BARE := Layout(1, 1, Scaled(Blit(Area(0.0, 0.0, 0.0, 0.0), Area(0.0, 0.0, 0.0, 0.0)), 0.0, 0.0), [],
                       Some((0, 0)))

  /** A run whose last frame shows a fill colour that is no longer the guest's. */
  method StaleFill() returns (host: Host)
    ensures fresh(host) && host.Valid() && host.lastPlan == Some(Geometry(BARE))
    ensures Shown(host.canvas, BARE, host.screen.px, host.fill)
    ensures host.fill != FillOf(BARE, host.screen.px)
    ensures host.canvas(0, 0) != Composed(BARE, host.screen.px, FillOf(BARE, host.screen.px), 0, 0)
  {
    var white: Pixels := (x, y) => 255;
    var grey: Pixels := (x, y) => if x == 0 && y == 0 then 128 else 255;
    var screen := new GuestScreen(1, 1, white);
    host := new Host(screen, white);
    host.PresentOnce(Frame(None, None, false, Desktop(BARE)));
    assert host.fill == 255 && !host.needFull;
    host.PresentOnce(Frame(Some(Paint(PIXEL, grey)), None, false, Desktop(BARE)));
    assert FillOf(BARE, grey) == 128;
    FillShowsThrough(BARE, grey, 0, 0, 255, 128);
    FillShowsThrough(BARE, grey, 0, 0, 128, 128);
    assert !Covered(BARE, 0, 0);
  }

  lemma MissedLayer(clip: Option<seq<Rect>>, l: Layer, guest: Pixels, px: int, py: int, under: Colour)
    requires GoodLayer(l) && !Meets(clip, l.bounds) && InClip(clip, px, py)
    ensures OverPieces(l.pieces, guest, px, py, under) == under
  {
    MissedArea(clip, l.bounds, px, py);
    UncoveredPieces(l, |l.pieces|, guest, px, py, under);
    assert l.pieces[..|l.pieces|] == l.pieces;
  }

  lemma PieceDamageGrows(p: Piece, r: Rect, rects: seq<Rect>, more: seq<Rect>, lay: Layout)
    requires Wider(more, rects) && PieceDamaged(p, r, rects, lay)
    ensures PieceDamaged(p, r, more, lay)
  {
    hide Damaged, Shows, OnScreen;
  }

  function AreaOf(rects: seq<Rect>): int {
    if rects == [] then 0 else rects[0].w * rects[0].h + AreaOf(rects[1..])
  }

  lemma AllIsOld(a: Answer, history: seq<Rect>, gen: nat)
    requires IsAnswer(a, history, gen) && gen < |history|
    ensures a.All? <==> |history| - gen > DIRTY_LOG
  {}

  lemma SomethingNew(a: Answer, history: seq<Rect>, gen: nat)
    requires IsAnswer(a, history, gen) && gen < |history|
    ensures !a.Nothing?
  {}

  lemma PiecesDamageGrows(ps: seq<Piece>, r: Rect, rects: seq<Rect>, more: seq<Rect>, lay: Layout)
    requires Wider(more, rects) && forall k :: 0 <= k < |ps| ==> PieceDamaged(ps[k], r, rects, lay)
    ensures forall k :: 0 <= k < |ps| ==> PieceDamaged(ps[k], r, more, lay)
  {
    hide Damaged, Shows, OnScreen;
  }
}
