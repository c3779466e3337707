/**
 A window narrower than the boxes of its caption: the right end of the caption is copied from outside the
 window, and when the guest paints there the frame after it is planned as if nothing had changed.
 */
module NarrowWindow {
  import opened Bytes
  import opened Dirty
  import opened Screen
  import opened Compositor
  import opened Frames
  import opened Chrome

  /** Twenty pixels wide, all caption but for the client, at the guest's own size. */
  const NARROW := Placed(0, Win(100, 0, 20, 60, 100, 20, 20, 40), 20, 1.0, 1.0, 50.0, 0.0, 20, 40, 0.0, 0.0, 0.0)

  /** A screen with nothing but the window. */
  const ALONE := Layout(200, 100, BARE.column, [LayerOf(NARROW)], None)

  /** A guest pixel to the left of the window, and the host pixel that shows it. */
  const STRAY := Dirty.Rect(85, 5, 1, 1)
  const SHOWN_X := 35
  const SHOWN_Y := 5

  lemma NarrowInsets()
    ensures NARROW.InsetL() == 0 && NARROW.InsetT() == 20 && NARROW.InsetB() == 0 && NARROW.InsetR() == 0
    ensures NARROW.Box() == 20 && NARROW.CapRow() == 20 && NARROW.MenuRow() == 0
  {}

  lemma NarrowSizes()
    ensures NARROW.InsetL() == 0 && NARROW.Box() == 20 && NARROW.CapRow() == 20 && NARROW.MenuRow() == 0
    ensures NARROW.CapH() == 20 && NARROW.CornerL() == 20 && NARROW.CornerR() == 40 && NARROW.Hw() == 20
    ensures NARROW.Hb() == 0 && NARROW.Hl() == 0
  {
    hide Scale, Placed.InsetL, Placed.InsetT, Placed.InsetB, Placed.InsetR, Placed.Box, Placed.CapRow, Placed.MenuRow;
    NarrowInsets();
    ScaleOne(0);
    ScaleOne(20);
    ScaleOne(40);
  }

  /** It has a caption and no room for its boxes. */
  lemma NarrowIsBad()
    ensures Sane(NARROW) && !GoodLayer(LayerOf(NARROW))
  {
    hide GoodLayer, LayerOf, HasMenu, RoomForMenu, Placed.InsetL, Placed.Box, Placed.CapRow, Placed.CapH, Placed.Hw;
    hide Placed.CornerR, Placed.MenuG;
    NarrowSizes();
    WindowIsGoodExactly(NARROW);
  }

  lemma NarrowBare()
    ensures !HasMenu(NARROW) && NARROW.Hl() == 0 && NARROW.Hb() == 0
  {
    hide Scale;
    NarrowSizes();
  }

  lemma NarrowPieces()
    ensures LayerOf(NARROW).pieces == [Caption(NARROW), Client(NARROW)]
  {
    hide Caption, Client, LayerOf, HasMenu, Placed.Hl, Placed.Hb;
    NarrowBare();
    JustTwo(NARROW);
  }

  lemma JustTwo(w: Placed)
    requires w.c > 0.0 && w.zs > 0.0 && !HasMenu(w) && w.Hl() == 0 && w.Hb() == 0
    ensures LayerOf(w).pieces == [Caption(w), Client(w)]
  {
    hide Caption, Client, HasMenu;
  }

  lemma NarrowEnds()
    ensures Caption(NARROW) == Band(Box4(100.0, 0.0, 20, 20), Box4(50.0, 0.0, 20, 20), ENDS)
  {
    hide Scale, Round, Placed.InsetL, Placed.Box, Placed.CapRow, Placed.CapH, Placed.CornerL, Placed.CornerR, Placed.Hw;
    NarrowSizes();
  }

  const ENDS := [Copy(100.0, 0, 20, 20, 50.0, 0.0, 20, 20), Copy(80.0, 0, 40, 20, 30.0, 0.0, 40, 20)]

  lemma NarrowClient()
    ensures Client(NARROW) == Scaled(Blit(Box4(100.0, 20.0, 20, 40), Box4(50.0, 20.0, 20, 40)), 1.0, 1.0)
  {}

  /** No strip of the window's frame and no copy holds the pixel. */
  lemma StrayMissed()
    ensures LayoutMissed(ALONE, STRAY)
  {
    hide Caption, Client, LayerOf;
    NarrowPieces();
    NarrowEnds();
    NarrowClient();
    var ps := LayerOf(NARROW).pieces;
    assert PieceMissed(ps[0], STRAY) && PieceMissed(ps[1], STRAY);
  }

  lemma EndsShow(guest: Pixels)
    ensures OverBlits(ENDS, guest, SHOWN_X, SHOWN_Y, BLACK) == guest(85, 5)
  {
    assert ENDS[..1] == [ENDS[0]];
    assert SampleAlong(SHOWN_X, 30.0, 40.0, 80.0, 40.0) == 85.5;
    assert SampleAlong(SHOWN_Y, 0.0, 20.0, 0.0, 20.0) == 5.5;
  }

  lemma ClientUndrawn(guest: Pixels, under: Colour)
    ensures OverBlits(Client(NARROW).Blits(), guest, SHOWN_X, SHOWN_Y, under) == under
  {
    hide Client;
    NarrowClient();
    assert Client(NARROW).Blits()[..0] == [];
  }

  /** The right end of the caption shows it all the same. */
  lemma StrayShown(guest: Pixels)
    ensures Composed(ALONE, guest, BLACK, SHOWN_X, SHOWN_Y) == guest(85, 5)
  {
    hide Caption, Client, LayerOf;
    NarrowPieces();
    NarrowEnds();
    NarrowClient();
    EndsShow(guest);
    var ps := LayerOf(NARROW).pieces;
    assert ps[..1] == [ps[0]];
    assert OverBlits(ALONE.column.Blits(), guest, SHOWN_X, SHOWN_Y, BLACK) == BLACK;
    assert OverPieces(ps[..1], guest, SHOWN_X, SHOWN_Y, BLACK) == guest(85, 5) by {
      assert ps[..1][..0] == [];
    }
    ClientUndrawn(guest, guest(85, 5));
    assert OverPieces(ps, guest, SHOWN_X, SHOWN_Y, BLACK) == guest(85, 5);
    var ls := ALONE.layers;
    assert ls[0] == LayerOf(NARROW) && |ls| == 1 && ls[..0] == [];
    assert OverLayers(ls, guest, SHOWN_X, SHOWN_Y, BLACK) == OverPieces(ps, guest, SHOWN_X, SHOWN_Y, BLACK);
  }

  /** A run whose second frame leaves a picture on the canvas that is not the guest's. */
  method StaleCaption() returns (host: Host)
    ensures fresh(host) && !host.needFull && host.lastPlan == Some(Geometry(ALONE)) && host.fill == BLACK
    ensures host.canvas(SHOWN_X, SHOWN_Y) == 255
            && Composed(ALONE, host.screen.px, host.fill, SHOWN_X, SHOWN_Y) == 128
  {
    hide LayerOf, Geometry, LayoutMissed, Composed, Caption, Client, KeyedScreen, GoodLayout, NewestPaint;
    hide Stamped, UpToDate;
    var white: Pixels := (x, y) => 255;
    var dot: Pixels := (x, y) => if x == 85 && y == 5 then 128 else 255;
    var screen := new GuestScreen(200, 100, white);
    host := new Host(screen, white);
    host.PresentOnce(Frame(None, None, false, Desktop(ALONE)));
    StrayShown(white);
    host.Begin(Frame(Some(Paint(STRAY, dot)), None, false, Desktop(ALONE)));
    ShownAlike(host.canvas, ALONE, white, host.fill);
    assert host.canvas(SHOWN_X, SHOWN_Y) == 255;
    StrayMissed();
    assert !host.FullDue(ALONE) && host.OnlyMissed(ALONE);
    host.ComposeDesktop(ALONE, white);
    StrayShown(dot);
  }
}
