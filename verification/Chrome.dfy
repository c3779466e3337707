/**
 Windows as layers: how a placed window's caption, menu bar, borders and client are put together from copies
 of guest pixels, and when that makes a layer the compositor can redraw by its damage.
 */
module Chrome {
  import opened Bytes
  import opened Dirty
  import opened Screen
  import opened Compositor

  // ---------------------------------------------------------------- numbers

  /** To the nearest whole number, halves up. */
  function Round(r: real): int { (r + 0.5).Floor }

  /** A whole number of guest pixels on the host. */
  function Scale(n: int, c: real): int { Round(n as real * c) }

  lemma RoundNear(r: real)
    ensures r - 0.5 < Round(r) as real <= r + 0.5
  {}

  lemma RoundUp(r: real, n: int)
    requires r <= n as real
    ensures Round(r) <= n
  {}

  lemma RoundDown(r: real, n: int)
    requires r >= n as real
    ensures Round(r) >= n
  {}

  lemma RoundOrder(a: real, b: real)
    requires a <= b
    ensures Round(a) <= Round(b)
  {}

  // ---------------------------------------------------------------- a placed window

  /** A window of the guest, by its frame and its client area. */
  datatype Win = Win(wx: int, wy: int, ww: nat, wh: nat, gx: int, gy: int, gw: nat, gh: nat)

  /** Where and how it is shown: the scale of its chrome and of its client, its place, the client's size in
      host pixels and the pan of client and menu bar in guest pixels. */
  datatype Placed = Placed(
    key: int, win: Win, cap: nat, c: real, zs: real, x: real, y: real, cw: nat, ch: nat,
    px: real, py: real, mpan: real)
  {
    function InsetL(): nat { Max(0, win.gx - win.wx) }
    function InsetT(): nat { Max(0, win.gy - win.wy) }
    function InsetB(): nat { Max(0, win.wy + win.wh - (win.gy + win.gh)) }
    function InsetR(): nat { Max(0, win.wx + win.ww - (win.gx + win.gw)) }
    function CapRow(): nat { Min(InsetT(), InsetL() + cap) }
    function MenuRow(): nat { InsetT() - CapRow() }
    function Box(): nat { Max(12, cap) }
    function Hl(): int { Scale(InsetL(), c) }
    function Ht(): int { Scale(InsetT(), c) }
    function Hb(): int { Scale(InsetB(), c) }
    function Hr(): int { Scale(InsetR(), c) }
    function Hw(): int { cw + Hl() + Hr() }
    function Hh(): int { ch + Ht() + Hb() }
    function CapH(): int { Scale(CapRow(), c) }
    function CornerL(): int { Scale(InsetL() + Box(), c) }
    function CornerR(): int { Scale(InsetL() + 2 * Box(), c) }
    /** How much of the client is seen, in guest pixels. */
    function Vw(): real requires zs > 0.0 { RealMin(win.gw as real, cw as real / zs) }
    function Vh(): real requires zs > 0.0 { RealMin(win.gh as real, ch as real / zs) }
    /** And on the host. */
    function ClientW(): int requires zs > 0.0 { Round(Vw() * zs) }
    function ClientH(): int requires zs > 0.0 { Round(Vh() * zs) }
    function InnerW(): int { Hw() - 2 * Hl() }
    /** The menu bar's part that is shown, in guest pixels and on the host. */
    function MenuG(): int requires c > 0.0 { Min(win.ww - 2 * InsetL(), Round(InnerW() as real / c)) }
    function MenuH(): int requires c > 0.0 { Scale(MenuG(), c) }
  }

  /** Scales are positive, the frame goes round the client, and the menu bar is panned no further than its
      end. */
  predicate Sane(w: Placed) {
    && w.c > 0.0 && w.zs > 0.0
    && w.win.gy + w.win.gh <= w.win.wy + w.win.wh
    && 0.0 <= w.mpan <= RealMax(0.0, (w.win.ww - 2 * w.InsetL() - w.MenuG()) as real)
  }

  function Box4(x: real, y: real, w: int, h: int): Area { Area(x, y, w as real, h as real) }

  function Copy(sx: real, sy: int, sw: int, sh: int, x: real, y: real, w: int, h: int): Blit {
    Blit(Area(sx, sy as real, sw as real, sh as real), Box4(x, y, w, h))
  }

  /** The caption: its two ends as they are, and what is between them cropped on both sides or padded. */
  function CaptionCopies(w: Placed): seq<Blit>
    requires w.c > 0.0
  {
    var l, box, capRow, capH := w.InsetL(), w.Box(), w.CapRow(), w.CapH();
    var ends := [
      Copy(w.win.wx as real, w.win.wy, l + box, capRow, w.x, w.y, w.CornerL(), capH),
      Copy((w.win.wx + w.win.ww - l - 2 * box) as real, w.win.wy, l + 2 * box, capRow,
           w.x + (w.Hw() - w.CornerR()) as real, w.y, w.CornerR(), capH)];
    var midSrc, midDst := w.win.ww - 2 * l - 3 * box, w.Hw() - w.CornerL() - w.CornerR();
    if midSrc <= 0 || midDst <= 0 then ends
    else
      var from, at, need := w.win.wx + l + box, w.x + w.CornerL() as real, midDst as real / w.c;
      if need <= midSrc as real then
        var cut := ((midSrc as real - need) / 2.0).Floor;
        ends + [Copy((from + cut) as real, w.win.wy, Round(need), capRow, at, w.y, midDst, capH)]
      else
        var midH := Scale(midSrc, w.c);
        ends + [Copy(from as real, w.win.wy, 2, capRow, at, w.y, midDst - midH, capH),
                Copy(from as real, w.win.wy, midSrc, capRow, at + (midDst - midH) as real, w.y, midH, capH)]
  }

  function Caption(w: Placed): Piece
    requires w.c > 0.0
  {
    Band(Box4(w.win.wx as real, w.win.wy as real, w.win.ww, w.CapRow()), Box4(w.x, w.y, w.Hw(), w.CapH()),
         CaptionCopies(w))
  }

  /** The menu bar: as much of it as fits, and its own background for the rest. */
  function Menu(w: Placed): Piece
    requires w.c > 0.0
  {
    var l, sy, y, h := w.InsetL(), w.win.wy + w.CapRow(), w.y + w.CapH() as real, w.Ht() - w.CapH();
    var at := w.x + w.Hl() as real;
    var bar := Copy((w.win.wx + l) as real + w.mpan, sy, w.MenuG(), w.MenuRow(), at, y, w.MenuH(), h);
    Band(Box4((w.win.wx + l) as real, sy as real, Max(1, w.win.ww - 2 * l), w.MenuRow()), Box4(at, y, w.InnerW(), h),
         if w.InnerW() > w.MenuH()
         then [bar, Copy((w.win.wx + l + w.MenuG() - 2) as real, sy, 2, w.MenuRow(), at + w.MenuH() as real, y,
                         w.InnerW() - w.MenuH(), h)]
         else [bar])
  }

  function SideH(w: Placed): int { w.Hh() - w.CapH() - w.Hb() }

  function SideSrcH(w: Placed): int { w.win.wh - w.CapRow() - w.InsetB() }

  function LeftSide(w: Placed): Piece {
    var sy, y := w.win.wy + w.CapRow(), w.y + w.CapH() as real;
    Band(Box4(w.win.wx as real, sy as real, w.InsetL(), Max(1, SideSrcH(w))), Box4(w.x, y, w.Hl(), SideH(w)),
         [Copy(w.win.wx as real, sy, w.InsetL(), SideSrcH(w), w.x, y, w.Hl(), SideH(w))])
  }

  function RightSide(w: Placed): Piece {
    var sx, sy := w.win.wx + w.win.ww - w.InsetR(), w.win.wy + w.CapRow();
    var x, y := w.x + (w.Hw() - w.Hr()) as real, w.y + w.CapH() as real;
    Band(Box4(sx as real, sy as real, Max(1, w.InsetR()), Max(1, SideSrcH(w))), Box4(x, y, w.Hr(), SideH(w)),
         [Copy(sx as real, sy, w.InsetR(), SideSrcH(w), x, y, w.Hr(), SideH(w))])
  }

  function Bottom(w: Placed): Piece
    requires w.c > 0.0
  {
    var sy, y := w.win.gy + w.win.gh, w.y + (w.Ht() + w.ch) as real;
    Band(Box4(w.win.wx as real, sy as real, w.win.ww, Max(1, w.InsetB())), Box4(w.x, y, w.Hw(), w.Hb()),
         [Copy(w.win.wx as real, sy, Min(w.win.ww, Round(w.Hw() as real / w.c)), w.InsetB(), w.x, y, w.Hw(), w.Hb())])
  }

  /** What is seen of the client, at its own scale. */
  function Client(w: Placed): Piece
    requires w.zs > 0.0
  {
    Scaled(Blit(Area(w.win.gx as real + w.px, w.win.gy as real + w.py, w.Vw(), w.Vh()),
                Box4(w.x + w.Hl() as real, w.y + w.Ht() as real, w.ClientW(), w.ClientH())),
           w.zs, w.zs)
  }

  function HasMenu(w: Placed): bool { w.MenuRow() > 0 && w.Ht() - w.CapH() > 0 }

  function Pieces(w: Placed): seq<Piece>
    requires w.c > 0.0 && w.zs > 0.0
  {
    [Caption(w)] + (if HasMenu(w) then [Menu(w)] else []) + (if w.Hl() > 0 then [LeftSide(w), RightSide(w)] else [])
      + (if w.Hb() > 0 then [Bottom(w)] else []) + [Client(w)]
  }

  function LayerOf(w: Placed): Layer
    requires w.c > 0.0 && w.zs > 0.0
  {
    Layer(w.key, Box4(w.x, w.y, w.Hw(), w.Hh()), Pieces(w))
  }

  // ---------------------------------------------------------------- windows the damage fits

  predicate HasCaption(w: Placed) { w.CapRow() > 0 && w.CapH() > 0 }

  /** The window is wide enough for the boxes of its caption, in the guest and on the host. */
  predicate RoomForBoxes(w: Placed) {
    w.InsetL() + 2 * w.Box() <= w.win.ww && w.CornerR() <= w.Hw()
  }

  /** What pads the menu bar is some of it; and where the bar passes the inside of the frame, the right border
      is there to cover what does. */
  predicate RoomForMenu(w: Placed)
    requires w.c > 0.0
  {
    && (w.InnerW() > w.MenuH() ==> w.MenuG() >= 2)
    && (MenuPasses(w) ==> 0 < w.Hl() <= w.Hr())
  }

  predicate MenuPasses(w: Placed)
    requires w.c > 0.0
  {
    w.MenuG() > 0 && w.MenuH() > w.InnerW()
  }

  predicate Roomy(w: Placed)
    requires w.c > 0.0
  {
    (HasCaption(w) ==> RoomForBoxes(w)) && (HasMenu(w) ==> RoomForMenu(w))
  }

  // ---------------------------------------------------------------- bands and what they copy

  lemma TimesReal(a: real, b: real, c: real)
    requires c > 0.0 && a <= b
    ensures a * c <= b * c
  {
    TimesOrder(c, a, b);
  }

  lemma Quotient(a: real, c: real)
    requires c > 0.0
    ensures a / c * c == a
  {}

  /** Scaled whole numbers keep their order. */
  lemma ScaleOrder(m: int, n: int, c: real)
    requires c > 0.0 && m <= n
    ensures Scale(m, c) <= Scale(n, c)
  {
    TimesReal(m as real, n as real, c);
    RoundOrder(m as real * c, n as real * c);
  }

  lemma ScalePositive(n: int, c: real)
    requires c > 0.0 && n >= 0
    ensures Scale(n, c) >= 0
  {
    TimesReal(0.0, n as real, c);
    RoundDown(n as real * c, 0);
  }

  /** The scaled insets are no larger than what they are parts of. */
  lemma InsetsScaled(w: Placed)
    requires w.c > 0.0
    ensures 0 <= w.CapH() <= w.Ht() && 0 <= w.Hl() && 0 <= w.Hb() && 0 <= w.Hr()
    ensures w.InsetL() <= w.InsetR() ==> w.Hl() <= w.Hr()
    ensures 0 <= w.CornerL() <= w.CornerR()
  {
    hide Scale;
    ScaleOrder(w.InsetL() + w.Box(), w.InsetL() + 2 * w.Box(), w.c);
    ScalePositive(w.CapRow(), w.c);
    ScaleOrder(w.CapRow(), w.InsetT(), w.c);
    ScalePositive(w.InsetL(), w.c);
    ScalePositive(w.InsetB(), w.c);
    ScalePositive(w.InsetR(), w.c);
    ScalePositive(w.InsetL() + w.Box(), w.c);
    ScalePositive(w.InsetL() + 2 * w.Box(), w.c);
    if w.InsetL() <= w.InsetR() {
      ScaleOrder(w.InsetL(), w.InsetR(), w.c);
    }
  }

  /** Whole numbers inside whole numbers, as areas. */
  lemma StripWithin(x: real, y: real, w: int, h: int, at: real, len: int, rows: int)
    requires x <= at && at + len as real <= x + w as real && rows <= h
    ensures Within(Area(at, y, len as real, rows as real), Area(x, y, w as real, h as real))
  {}

  /** The part of a caption that is cropped is inside what it is cropped from. */
  lemma CropInside(mid: int, need: real)
    requires mid > 0 && 0.0 <= need <= mid as real
    ensures var cut := ((mid as real - need) / 2.0).Floor;
      0 <= cut && 0 <= Round(need) && cut + Round(need) <= mid
  {
    var half := (mid as real - need) / 2.0;
    var cut := half.Floor;
    RoundDown(need, 0);
    RoundUp(need, mid);
    RoundNear(need);
    if cut >= 1 {
      assert cut as real <= half;
      assert need <= mid as real - 2.0 * cut as real;
      assert (cut + Round(need)) as real <= mid as real - cut as real + 0.5;
    }
  }

  ghost predicate StripCopies(p: Piece, src: Area, dst: Area) {
    p.Band? && forall b :: b in p.copies && Extends(b.src) && Extends(b.dst) ==>
      Within(b.src, src) && Within(b.dst, dst)
  }

  /** A band whose copies stay inside it is tight everywhere. */
  lemma StripTight(p: Piece, px: int, py: int)
    requires p.Band? && StripCopies(p, p.src, p.dst)
    ensures GoodPiece(p) && Tight(p, px, py)
  {}

  lemma CaptionGood(w: Placed)
    requires w.c > 0.0 && RoomForBoxes(w)
    ensures StripCopies(Caption(w), Caption(w).src, Caption(w).dst)
  {
    hide Within;
    InsetsScaled(w);
    var p := Caption(w);
    var l, box, capRow, capH := w.InsetL(), w.Box(), w.CapRow(), w.CapH();
    var sx, sy := w.win.wx as real, w.win.wy as real;
    StripWithin(sx, sy, w.win.ww, capRow, sx, l + box, capRow);
    StripWithin(sx, sy, w.win.ww, capRow, (w.win.wx + w.win.ww - l - 2 * box) as real, l + 2 * box, capRow);
    StripWithin(w.x, w.y, w.Hw(), capH, w.x, w.CornerL(), capH);
    StripWithin(w.x, w.y, w.Hw(), capH, w.x + (w.Hw() - w.CornerR()) as real, w.CornerR(), capH);
    var midSrc, midDst := w.win.ww - 2 * l - 3 * box, w.Hw() - w.CornerL() - w.CornerR();
    if midSrc > 0 && midDst > 0 {
      MiddleGood(w, midSrc, midDst);
    }
  }

  lemma MiddleGood(w: Placed, midSrc: int, midDst: int)
    requires w.c > 0.0 && RoomForBoxes(w) && midSrc > 0 && midDst > 0
    requires midSrc == w.win.ww - 2 * w.InsetL() - 3 * w.Box() && midDst == w.Hw() - w.CornerL() - w.CornerR()
    ensures forall i :: 2 <= i < |CaptionCopies(w)| ==>
      && Within(CaptionCopies(w)[i].src, Caption(w).src) && Within(CaptionCopies(w)[i].dst, Caption(w).dst)
  {
    hide Within, Round, Scale;
    InsetsScaled(w);
    var capRow, capH := w.CapRow(), w.CapH();
    var from, at, need := w.win.wx + w.InsetL() + w.Box(), w.x + w.CornerL() as real, midDst as real / w.c;
    if need <= midSrc as real {
      CropWithin(w.win.wx, w.win.wy as real, w.win.ww, capRow, from, midSrc, midDst, w.c);
      StripWithin(w.x, w.y, w.Hw(), capH, at, midDst, capH);
    } else {
      PadWithin(w.win.wx, w.win.wy as real, w.win.ww, capRow, from, midSrc);
      MidFits(midSrc, midDst, w.c);
      var midH := Scale(midSrc, w.c);
      StripWithin(w.x, w.y, w.Hw(), capH, at, midDst - midH, capH);
      StripWithin(w.x, w.y, w.Hw(), capH, at + (midDst - midH) as real, midH, capH);
    }
  }

  lemma CropWithin(wx: int, sy: real, ww: nat, rows: int, from: int, midSrc: int, midDst: int, c: real)
    requires wx <= from && from + midSrc <= wx + ww && midSrc > 0 && midDst > 0 && c > 0.0
    requires midDst as real / c <= midSrc as real
    ensures var need := midDst as real / c;
      var cut := ((midSrc as real - need) / 2.0).Floor;
      Within(Area((from + cut) as real, sy, Round(need) as real, rows as real),
             Area(wx as real, sy, ww as real, rows as real))
  {
    hide Round, Within;
    var need := midDst as real / c;
    QuotientPositive(midDst as real, c);
    CropInside(midSrc, need);
    var cut := ((midSrc as real - need) / 2.0).Floor;
    StripWithin(wx as real, sy, ww, rows, (from + cut) as real, Round(need), rows);
  }

  lemma QuotientPositive(a: real, c: real)
    requires c > 0.0 && a >= 0.0
    ensures a / c >= 0.0
  {}

  lemma PadWithin(wx: int, sy: real, ww: nat, rows: int, from: int, midSrc: int)
    requires wx <= from && from + midSrc <= wx + ww && from + 2 <= wx + ww && midSrc > 0
    ensures Within(Area(from as real, sy, 2 as real, rows as real), Area(wx as real, sy, ww as real, rows as real))
    ensures Within(Area(from as real, sy, midSrc as real, rows as real), Area(wx as real, sy, ww as real, rows as real))
  {}

  /** What is padded takes no more of the host than there is. */
  lemma MidFits(midSrc: int, midDst: int, c: real)
    requires c > 0.0 && midSrc > 0 && midDst as real / c > midSrc as real
    ensures 0 <= Scale(midSrc, c) <= midDst
  {
    Quotient(midDst as real, c);
    TimesReal(midSrc as real, midDst as real / c, c);
    RoundUp(midSrc as real * c, midDst);
    TimesReal(0.0, midSrc as real, c);
    RoundDown(midSrc as real * c, 0);
  }

  // ---------------------------------------------------------------- the menu bar

  /** Rounding lets the menu bar pass the inside of the frame, but never by more than the left border. */
  lemma MenuFits(w: Placed)
    requires w.c > 0.0 && 1 <= w.InsetL()
    ensures w.MenuH() <= w.InnerW() + w.Hl()
  {
    hide Scale, Round;
    PassesByLess(w.InnerW(), w.MenuG(), w.c);
    ScaleOrder(1, w.InsetL(), w.c);
  }

  lemma PassesByLess(inner: int, g: int, c: real)
    requires c > 0.0 && g <= Round(inner as real / c)
    ensures Scale(g, c) <= inner + Scale(1, c)
  {
    var q := inner as real / c;
    Quotient(inner as real, c);
    RoundNear(q);
    TimesReal(g as real, q + 0.5, c);
    PlusHalf(q, c);
    hide Round;
    RoundOrder(g as real * c, inner as real + 0.5 * c);
    RoundShift(inner, 0.5 * c);
    RoundOrder(0.5 * c, 1 as real * c);
  }

  lemma PlusHalf(q: real, c: real)
    ensures (q + 0.5) * c == q * c + 0.5 * c
  {}

  lemma RoundShift(n: int, r: real)
    ensures Round(n as real + r) == n + Round(r)
  {}

  /** What the menu bar's copies take comes out of the menu bar. */
  lemma MenuSource(w: Placed)
    requires Sane(w) && RoomForMenu(w)
    ensures GoodPiece(Menu(w))
  {
    hide Within, Scale, Round;
    var sx, rows := w.win.wx + w.InsetL(), w.MenuRow();
    var wide := Max(1, w.win.ww - 2 * w.InsetL());
    var sy := (w.win.wy + w.CapRow()) as real;
    if w.MenuG() > 0 {
      StripWithin(sx as real, sy, wide, rows, sx as real + w.mpan, w.MenuG(), rows);
    }
    if w.InnerW() > w.MenuH() {
      StripWithin(sx as real, sy, wide, rows, (sx + w.MenuG() - 2) as real, 2, rows);
    }
  }

  /** What passes the frame. */
  function Overhang(w: Placed): Area
    requires w.c > 0.0
  {
    Area(w.x + (w.Hl() + w.InnerW()) as real, w.y + w.CapH() as real,
         (w.MenuH() - w.InnerW()) as real, (w.Ht() - w.CapH()) as real)
  }

  /** The menu bar draws inside its band but for that. */
  lemma MenuDrawn(w: Placed, px: int, py: int)
    requires Sane(w) && RoomForMenu(w)
    ensures Tight(Menu(w), px, py) || (MenuPasses(w) && Covers(Overhang(w), px, py))
  {
    hide Round;
    InsetsScaled(w);
    if w.InnerW() > w.MenuH() {
      ScalePositive(w.MenuG(), w.c);
    }
    hide Scale;
  }

  /** Where there are borders, and the right one is no narrower, it is drawn over that. */
  lemma MenuHidden(w: Placed, px: int, py: int)
    requires Sane(w) && HasMenu(w) && 0 < w.Hl() <= w.Hr() && Covers(Overhang(w), px, py)
    ensures AnyDraws(RightSide(w).Blits(), px, py)
  {
    hide Scale, Round;
    NoInset(w.c);
    MenuFits(w);
    InsetsScaled(w);
    var b := RightSide(w).Blits()[0];
    assert SideSrcH(w) > 0;
    assert Draws(b, px, py);
  }

  lemma NoInset(c: real)
    ensures Scale(0, c) == 0
  {}

  // ---------------------------------------------------------------- borders and client

  lemma SidesGood(w: Placed)
    requires Sane(w)
    ensures StripCopies(LeftSide(w), LeftSide(w).src, LeftSide(w).dst)
    ensures StripCopies(RightSide(w), RightSide(w).src, RightSide(w).dst)
  {
    hide Scale, Round;
  }

  lemma BottomGood(w: Placed)
    requires Sane(w)
    ensures StripCopies(Bottom(w), Bottom(w).src, Bottom(w).dst)
  {
    hide Scale, Round;
  }

  lemma ClientGood(w: Placed, px: int, py: int)
    requires Sane(w)
    ensures GoodPiece(Client(w)) && Tight(Client(w), px, py)
  {
    hide Scale, Placed.Vw, Placed.Vh;
    RoundNear(w.Vw() * w.zs);
    RoundNear(w.Vh() * w.zs);
  }

  /** What is seen of the client is no larger than its place. */
  lemma ClientFits(w: Placed)
    requires Sane(w)
    ensures w.ClientW() <= w.cw && w.ClientH() <= w.ch
  {
    SeenFits(w.win.gw as real, w.cw, w.zs);
    SeenFits(w.win.gh as real, w.ch, w.zs);
    hide Round;
  }

  lemma SeenFits(all: real, n: nat, k: real)
    requires k > 0.0
    ensures Round(RealMin(all, n as real / k) * k) <= n
  {
    hide Round;
    Quotient(n as real, k);
    TimesReal(RealMin(all, n as real / k), n as real / k, k);
    RoundUp(RealMin(all, n as real / k) * k, n);
  }

  lemma BoxWithin(x: real, y: real, w: int, h: int, dx: int, dy: int, w2: int, h2: int)
    requires 0 <= dx && dx + w2 <= w && 0 <= dy && dy + h2 <= h
    ensures Within(Box4(x + dx as real, y + dy as real, w2, h2), Box4(x, y, w, h))
  {}

  // Every piece lies inside the window's place.

  lemma CaptionInside(w: Placed)
    requires w.c > 0.0
    ensures Within(Caption(w).Dst(), Box4(w.x, w.y, w.Hw(), w.Hh()))
  {
    hide Scale, Round, CaptionCopies, Within;
    InsetsScaled(w);
    BoxWithin(w.x, w.y, w.Hw(), w.Hh(), 0, 0, w.Hw(), w.CapH());
  }

  lemma MenuInside(w: Placed)
    requires w.c > 0.0 && HasMenu(w)
    ensures Within(Menu(w).Dst(), Box4(w.x, w.y, w.Hw(), w.Hh()))
  {
    hide Scale, Round, CaptionCopies, Within;
    InsetsScaled(w);
    BoxWithin(w.x, w.y, w.Hw(), w.Hh(), w.Hl(), w.CapH(), w.InnerW(), w.Ht() - w.CapH());
  }

  lemma LeftInside(w: Placed)
    requires w.c > 0.0
    ensures Within(LeftSide(w).Dst(), Box4(w.x, w.y, w.Hw(), w.Hh()))
  {
    hide Scale, Round, CaptionCopies, Within;
    InsetsScaled(w);
    BoxWithin(w.x, w.y, w.Hw(), w.Hh(), 0, w.CapH(), w.Hl(), SideH(w));
  }

  lemma RightInside(w: Placed)
    requires w.c > 0.0
    ensures Within(RightSide(w).Dst(), Box4(w.x, w.y, w.Hw(), w.Hh()))
  {
    hide Scale, Round, CaptionCopies, Within;
    InsetsScaled(w);
    BoxWithin(w.x, w.y, w.Hw(), w.Hh(), w.Hw() - w.Hr(), w.CapH(), w.Hr(), SideH(w));
  }

  lemma BottomInside(w: Placed)
    requires w.c > 0.0
    ensures Within(Bottom(w).Dst(), Box4(w.x, w.y, w.Hw(), w.Hh()))
  {
    hide Scale, Round, CaptionCopies, Within;
    InsetsScaled(w);
    BoxWithin(w.x, w.y, w.Hw(), w.Hh(), 0, w.Ht() + w.ch, w.Hw(), w.Hb());
  }

  lemma ClientInside(w: Placed)
    requires Sane(w)
    ensures Within(Client(w).Dst(), Box4(w.x, w.y, w.Hw(), w.Hh()))
  {
    hide Scale, Round, CaptionCopies, Within, Placed.ClientW, Placed.ClientH, Placed.Vw, Placed.Vh;
    InsetsScaled(w);
    ClientFits(w);
    BoxWithin(w.x, w.y, w.Hw(), w.Hh(), w.Hl(), w.Ht(), w.ClientW(), w.ClientH());
  }

  // ---------------------------------------------------------------- windows make good layers

  /** What the pieces of a window are, and which is the menu bar. */
  lemma PiecesAre(w: Placed, i: nat)
    requires Sane(w) && i < |Pieces(w)|
    ensures var p := Pieces(w)[i];
      || p == Caption(w)
      || (p == Menu(w) && HasMenu(w) && (w.Hl() > 0 ==> i + 2 < |Pieces(w)| && Pieces(w)[i + 2] == RightSide(w)))
      || p == LeftSide(w) || p == RightSide(w) || p == Bottom(w) || p == Client(w)
  {
    hide Caption, Menu, LeftSide, RightSide, Bottom, Client;
  }

  lemma SideTight(w: Placed, px: int, py: int)
    requires Sane(w)
    ensures Tight(RightSide(w), px, py)
  {
    SidesGood(w);
    StripTight(RightSide(w), px, py);
  }

  lemma MenuKept(w: Placed, i: nat)
    requires Sane(w) && RoomForMenu(w) && HasMenu(w) && i < |Pieces(w)| && Pieces(w)[i] == Menu(w)
    requires w.Hl() > 0 ==> i + 2 < |Pieces(w)| && Pieces(w)[i + 2] == RightSide(w)
    ensures Kept(Pieces(w), i)
  {
    hide Pieces, Menu, RightSide, Tight, Covers, AnyDraws, Scale, Round, Overhang;
    forall px, py
      ensures Tight(Menu(w), px, py) || HiddenBy(Pieces(w), i + 1, px, py)
    {
      MenuDrawn(w, px, py);
      if !Tight(Menu(w), px, py) {
        MenuHidden(w, px, py);
        SideTight(w, px, py);
      }
    }
  }

  /** A caption without height draws nothing. */
  lemma CaptionBlank(w: Placed, px: int, py: int)
    requires w.c > 0.0 && !HasCaption(w)
    ensures GoodPiece(Caption(w)) && Tight(Caption(w), px, py)
  {
    hide Scale, Round;
    forall b | b in Caption(w).copies
      ensures b.src.h == w.CapRow() as real && b.dst.h == w.CapH() as real
    {}
  }

  lemma PieceGood(w: Placed, i: nat)
    requires Sane(w) && Roomy(w) && i < |Pieces(w)|
    ensures GoodPiece(Pieces(w)[i]) && Kept(Pieces(w), i)
  {
    hide Pieces, Caption, Menu, LeftSide, RightSide, Bottom, Client, GoodPiece, Tight, Scale, Round, Within, HiddenBy;
    PiecesAre(w, i);
    var p := Pieces(w)[i];
    if p == Menu(w) && HasMenu(w) && (w.Hl() > 0 ==> i + 2 < |Pieces(w)| && Pieces(w)[i + 2] == RightSide(w)) {
      MenuSource(w);
      MenuKept(w, i);
    } else {
      OtherTight(w, p, 0, 0);
      forall px, py
        ensures Tight(p, px, py)
      {
        OtherTight(w, p, px, py);
      }
    }
  }

  /** Pieces lie inside the window's place, room or no room. */
  lemma PieceInside(w: Placed, i: nat)
    requires Sane(w) && i < |Pieces(w)|
    ensures Within(Pieces(w)[i].Dst(), Box4(w.x, w.y, w.Hw(), w.Hh()))
  {
    hide Pieces, Caption, Menu, LeftSide, RightSide, Bottom, Client, Within, Scale, Round;
    PiecesAre(w, i);
    CaptionInside(w);
    LeftInside(w);
    RightInside(w);
    BottomInside(w);
    ClientInside(w);
    if HasMenu(w) {
      MenuInside(w);
    }
  }

  lemma OtherTight(w: Placed, p: Piece, px: int, py: int)
    requires Sane(w) && (HasCaption(w) ==> RoomForBoxes(w))
    requires p == Caption(w) || p == LeftSide(w) || p == RightSide(w) || p == Bottom(w) || p == Client(w)
    ensures GoodPiece(p) && Tight(p, px, py)
  {
    hide GoodPiece, Tight, Scale, Round, StripCopies, CaptionCopies;
    SidesGood(w);
    BottomGood(w);
    if p == Client(w) {
      ClientGood(w, px, py);
    } else if p == Caption(w) && !HasCaption(w) {
      CaptionBlank(w, px, py);
    } else if p == Caption(w) {
      CaptionGood(w);
      StripTight(p, px, py);
    } else {
      StripTight(p, px, py);
    }
  }

  /** A window with room for its boxes and its menu bar is a layer that can be redrawn by its damage. */
  lemma WindowIsGood(w: Placed)
    requires Sane(w) && Roomy(w)
    ensures GoodLayer(LayerOf(w))
  {
    hide GoodPiece, Kept, Within, Pieces, Roomy, Scale, Round;
    forall i | 0 <= i < |Pieces(w)|
      ensures GoodPiece(Pieces(w)[i]) && Kept(Pieces(w), i)
      ensures Within(Pieces(w)[i].Dst(), Box4(w.x, w.y, w.Hw(), w.Hh()))
    {
      PieceGood(w, i);
      PieceInside(w, i);
    }
  }

  // ---------------------------------------------------------------- and no others

  /** The host pixel whose centre is the first at or after a place. */
  function PixelAt(a: real): int { -((0.5 - a).Floor) }

  lemma PixelNear(a: real)
    ensures a <= PixelAt(a) as real + 0.5 < a + 1.0
  {}

  /** Nothing of a window hides a pixel outside the window. */
  lemma OutsideUnhidden(w: Placed, k: nat, px: int, py: int)
    requires Sane(w) && !Covers(LayerOf(w).bounds, px, py)
    ensures !HiddenBy(Pieces(w), k, px, py)
  {
    hide Pieces, Covers, Within, Scale, Round, HiddenBy;
    forall j | 0 <= j < |Pieces(w)|
      ensures Within(Pieces(w)[j].Dst(), LayerOf(w).bounds)
    {
      PieceInside(w, j);
    }
    BoundedUnhidden(Pieces(w), LayerOf(w).bounds, k, px, py);
  }

  lemma BoundedUnhidden(ps: seq<Piece>, bounds: Area, k: nat, px: int, py: int)
    requires !Covers(bounds, px, py) && forall j :: 0 <= j < |ps| ==> Within(ps[j].Dst(), bounds)
    ensures !HiddenBy(ps, k, px, py)
  {
    hide Covers, Within, Tight, AnyDraws;
    forall j | k <= j < |ps| && Tight(ps[j], px, py)
      ensures !AnyDraws(ps[j].Blits(), px, py)
    {
      WithinCovers(ps[j].Dst(), bounds, px, py);
      if AnyDraws(ps[j].Blits(), px, py) {
        TightDraws(ps[j], px, py);
        assert false;
      }
    }
  }

  lemma WithinCovers(inner: Area, outer: Area, px: int, py: int)
    requires Within(inner, outer)
    ensures Covers(inner, px, py) ==> Covers(outer, px, py)
  {}

  lemma TightDraws(p: Piece, px: int, py: int)
    requires Tight(p, px, py) && AnyDraws(p.Blits(), px, py)
    ensures Covers(p.Dst(), px, py)
  {}

  /** A caption whose right end starts left of the window, in the guest or on the host. */
  lemma CaptionBad(w: Placed)
    requires Sane(w) && HasCaption(w) && !RoomForBoxes(w)
    ensures !GoodLayer(LayerOf(w))
  {
    hide Pieces, GoodPiece, Kept, Caption, Scale, Round, LayerOf;
    FirstIsCaption(w);
    if w.InsetL() + 2 * w.Box() > w.win.ww {
      NarrowCaptionStrays(w);
    } else {
      CaptionOutside(w);
    }
  }

  lemma FirstIsCaption(w: Placed)
    requires Sane(w)
    ensures |Pieces(w)| > 0 && Pieces(w)[0] == Caption(w) && LayerOf(w).pieces == Pieces(w)
    ensures !GoodPiece(Caption(w)) || !Kept(Pieces(w), 0) ==> !GoodLayer(LayerOf(w))
  {
    hide Caption, Menu, LeftSide, RightSide, Bottom, Client, GoodPiece, Kept, Within;
  }

  /** A caption is no taller than its ends are wide. */
  lemma CornerWide(w: Placed)
    requires w.c > 0.0
    ensures w.CapH() <= w.CornerR()
  {
    hide Scale;
    ScaleOrder(w.CapRow(), w.InsetL() + 2 * w.Box(), w.c);
  }

  /** A window narrower than two boxes and its border: the right end of its caption is copied from guest
      pixels left of the window, where a paint does not count as the caption's. */
  lemma NarrowCaptionStrays(w: Placed)
    requires Sane(w) && HasCaption(w) && w.InsetL() + 2 * w.Box() > w.win.ww
    ensures Caption(w).copies[1].src.x < Caption(w).src.x && !GoodPiece(Caption(w))
  {
    hide Scale, Round;
    CornerWide(w);
    var b := Caption(w).copies[1];
    assert b in Caption(w).copies && Extends(b.src) && Extends(b.dst);
  }

  /** And one narrower than that on the host: it is drawn left of the window. */
  lemma CaptionOutside(w: Placed)
    requires Sane(w) && HasCaption(w) && w.CornerR() > w.Hw()
    ensures !Kept(Pieces(w), 0)
  {
    hide Pieces, Scale, Round, HiddenBy, LayerOf;
    var px, py := PixelAt(w.x + (w.Hw() - w.CornerR()) as real), PixelAt(w.y);
    PixelNear(w.x + (w.Hw() - w.CornerR()) as real);
    PixelNear(w.y);
    hide PixelAt;
    RightEndDrawn(w, px, py);
    FirstIsCaption(w);
    BoundsAre(w);
    OutsideUnhidden(w, 1, px, py);
  }

  lemma BoundsAre(w: Placed)
    requires Sane(w)
    ensures LayerOf(w).bounds == Box4(w.x, w.y, w.Hw(), w.Hh())
  {}

  lemma RightEndDrawn(w: Placed, px: int, py: int)
    requires w.c > 0.0 && HasCaption(w) && w.CornerR() > w.Hw()
    requires w.x + (w.Hw() - w.CornerR()) as real <= px as real + 0.5 < w.x + (w.Hw() - w.CornerR()) as real + 1.0
    requires w.y <= py as real + 0.5 < w.y + 1.0
    ensures !Tight(Caption(w), px, py) && px as real + 0.5 < w.x
  {
    hide Scale, Round;
    InsetsScaled(w);
    var b := Caption(w).copies[1];
    assert b in Caption(w).Blits();
    assert Draws(b, px, py);
  }

  /** A menu bar that is padded with less than there is, or passes where no border hides it. */
  lemma MenuBad(w: Placed)
    requires Sane(w) && HasMenu(w) && !RoomForMenu(w)
    ensures !GoodLayer(LayerOf(w))
  {
    hide Pieces, GoodPiece, Kept, Menu, Scale, Round, LayerOf;
    SecondIsMenu(w);
    if w.InnerW() > w.MenuH() && w.MenuG() < 2 {
      PadStrays(w);
    } else {
      MenuOutside(w);
    }
  }

  lemma SecondIsMenu(w: Placed)
    requires Sane(w) && HasMenu(w)
    ensures |Pieces(w)| > 1 && Pieces(w)[1] == Menu(w) && LayerOf(w).pieces == Pieces(w)
    ensures !GoodPiece(Menu(w)) || !Kept(Pieces(w), 1) ==> !GoodLayer(LayerOf(w))
    ensures forall j :: 2 <= j < |Pieces(w)| ==>
      || (w.Hl() > 0 && (Pieces(w)[j] == LeftSide(w) || Pieces(w)[j] == RightSide(w)))
      || Pieces(w)[j] == Bottom(w) || Pieces(w)[j] == Client(w)
  {
    hide Caption, Menu, LeftSide, RightSide, Bottom, Client, GoodPiece, Kept, Within;
  }

  lemma PadStrays(w: Placed)
    requires Sane(w) && HasMenu(w) && w.InnerW() > w.MenuH() && w.MenuG() < 2
    ensures !GoodPiece(Menu(w))
  {
    hide Scale, Round;
    var b := Menu(w).copies[1];
    assert b in Menu(w).copies && Extends(b.src) && Extends(b.dst);
  }

  /** The first pixel that passes the frame is no border's. */
  lemma MenuOutside(w: Placed)
    requires Sane(w) && HasMenu(w) && MenuPasses(w) && !(0 < w.Hl() <= w.Hr())
    ensures !Kept(Pieces(w), 1)
  {
    hide Pieces, Scale, Round, Menu;
    var px, py := PixelAt(w.x + (w.Hl() + w.InnerW()) as real), PixelAt(w.y + w.CapH() as real);
    PixelNear(w.x + (w.Hl() + w.InnerW()) as real);
    PixelNear(w.y + w.CapH() as real);
    hide PixelAt;
    BarDrawn(w, px, py);
    SecondIsMenu(w);
    forall j | 2 <= j < |Pieces(w)| && Tight(Pieces(w)[j], px, py)
      ensures !AnyDraws(Pieces(w)[j].Blits(), px, py)
    {
      OthersMiss(w, Pieces(w)[j], px, py);
      if AnyDraws(Pieces(w)[j].Blits(), px, py) {
        TightDraws(Pieces(w)[j], px, py);
        assert false;
      }
    }
  }

  ghost predicate FirstPast(w: Placed, px: int, py: int)
    requires w.c > 0.0
  {
    && w.x + (w.Hl() + w.InnerW()) as real <= px as real + 0.5 < w.x + (w.Hl() + w.InnerW()) as real + 1.0
    && w.y + w.CapH() as real <= py as real + 0.5 < w.y + w.CapH() as real + 1.0
  }

  lemma BarDrawn(w: Placed, px: int, py: int)
    requires Sane(w) && HasMenu(w) && MenuPasses(w) && FirstPast(w, px, py)
    ensures !Tight(Menu(w), px, py) && w.InnerW() > 0
  {
    InnerPositive(w);
    hide Scale, Round;
    var b := Menu(w).copies[0];
    assert b in Menu(w).Blits() && Draws(b, px, py);
  }

  /** Some of the menu bar is shown only where there is room inside the frame. */
  lemma InnerPositive(w: Placed)
    requires w.c > 0.0
    ensures w.InnerW() <= 0 ==> w.MenuG() <= 0
  {
    hide Scale, Round;
    if w.InnerW() <= 0 {
      RatioNotPositive(w.InnerW() as real, w.c);
      RoundUp(w.InnerW() as real / w.c, 0);
    }
  }

  lemma RatioNotPositive(a: real, c: real)
    requires c > 0.0 && a <= 0.0
    ensures a / c <= 0.0
  {}

  lemma OthersMiss(w: Placed, p: Piece, px: int, py: int)
    requires Sane(w) && HasMenu(w) && MenuPasses(w) && !(0 < w.Hl() <= w.Hr()) && FirstPast(w, px, py) && w.InnerW() > 0
    requires || (w.Hl() > 0 && (p == LeftSide(w) || p == RightSide(w))) || p == Bottom(w) || p == Client(w)
    ensures !Covers(p.Dst(), px, py)
  {
    hide Scale, Round;
  }

  /** A window is a layer that can be redrawn by its damage exactly when its caption, if it has one, has room
      for its boxes, and its menu bar, if it has one, is padded with what it has and passes only under a
      border. */
  lemma WindowIsGoodExactly(w: Placed)
    requires Sane(w)
    ensures GoodLayer(LayerOf(w)) <==> Roomy(w)
  {
    hide GoodLayer, LayerOf, RoomForBoxes, RoomForMenu, Scale, Round;
    if Roomy(w) {
      WindowIsGood(w);
    } else if HasCaption(w) && !RoomForBoxes(w) {
      CaptionBad(w);
    } else {
      MenuBad(w);
    }
  }

  // ---------------------------------------------------------------- whole screens

  /** The part of the guest's screen that is the desktop, and where it goes. */
  datatype View = View(x: int, y: int, w: nat, h: nat, ox: int, scale: real)

  /** A layer: a window with its chrome, or a menu, a dialog or the shell's own copy, in one piece. */
  datatype Item =
    | Framed(w: Placed)
    | Whole(key: int, wx: int, wy: int, ww: nat, wh: nat, x: real, y: real, hw: nat, hh: nat)

  function Column(view: View): Piece {
    Scaled(Blit(Box4(view.x as real, view.y as real, view.w, view.h),
                Box4(view.ox as real, 0.0, Scale(view.w, view.scale), Scale(view.h, view.scale))),
           view.scale, view.scale)
  }

  /** A window is placed as placing places it, and what goes in one piece is something. */
  predicate PlacedItem(it: Item) {
    match it
    case Framed(w) => Sane(w)
    case Whole(_, _, _, ww, wh, _, _, _, _) => ww > 0 && wh > 0
  }

  predicate PlacedItems(items: seq<Item>) { forall i :: 0 <= i < |items| ==> PlacedItem(items[i]) }

  predicate RoomyItem(it: Item)
    requires PlacedItem(it)
  {
    it.Framed? ==> Roomy(it.w)
  }

  function ItemLayer(it: Item): Layer
    requires PlacedItem(it)
  {
    match it
    case Framed(w) => LayerOf(w)
    case Whole(key, wx, wy, ww, wh, x, y, hw, hh) =>
      Layer(key, Box4(x, y, hw, hh),
            [Scaled(Blit(Box4(wx as real, wy as real, ww, wh), Box4(x, y, hw, hh)),
                    hw as real / Max(1, ww) as real, hh as real / Max(1, wh) as real)])
  }

  function ItemLayers(items: seq<Item>): (ls: seq<Layer>)
    requires PlacedItems(items)
    ensures |ls| == |items|
  {
    if items == [] then [] else ItemLayers(items[..|items| - 1]) + [ItemLayer(items[|items| - 1])]
  }

  function Scene(view: View, vw: int, vh: int, items: seq<Item>, corner: Option<(int, int)>): Layout
    requires PlacedItems(items)
  {
    Layout(vw, vh, Column(view), ItemLayers(items), corner)
  }

  lemma ColumnGood(view: View)
    requires view.scale >= 0.0
    ensures GoodPiece(Column(view))
  {
    RoundNear(view.w as real * view.scale);
    RoundNear(view.h as real * view.scale);
  }

  /** One whole copy is shown at exactly its own scale. */
  lemma WholeGood(it: Item)
    requires it.Whole? && it.ww > 0 && it.wh > 0
    ensures GoodLayer(ItemLayer(it))
  {
    WholeScale(it.ww, it.hw);
    WholeScale(it.wh, it.hh);
    var p := ItemLayer(it).pieces[0];
    forall px, py
      ensures Tight(p, px, py)
    {
      OneTight(p, px, py);
    }
  }

  lemma WholeScale(n: nat, host: nat)
    requires n > 0
    ensures GoodScale(n as real, host as real, host as real / Max(1, n) as real)
  {
    Quotient(host as real, n as real);
    QuotientPositive(host as real, n as real);
  }

  lemma OneTight(p: Piece, px: int, py: int)
    requires p.Scaled?
    ensures Tight(p, px, py)
  {}

  /** A screen put together from windows, menus, dialogs and the desktop can be redrawn by its damage exactly
      when every window has room for its chrome. */
  lemma {:induction false} SceneIsGoodExactly(view: View, vw: int, vh: int, items: seq<Item>,
                                               corner: Option<(int, int)>)
    requires view.scale >= 0.0 && PlacedItems(items)
    ensures GoodLayout(Scene(view, vw, vh, items, corner)) <==> forall i :: 0 <= i < |items| ==> RoomyItem(items[i])
    decreases |items|
  {
    hide GoodLayer, GoodPiece, PlacedItem, RoomyItem, ItemLayer;
    ColumnGood(view);
    if items != [] {
      var n := |items| - 1;
      SceneIsGoodExactly(view, vw, vh, items[..n], corner);
      ItemIsGoodExactly(items[n]);
      var fewer, ls := ItemLayers(items[..n]), ItemLayers(items);
      assert ls == fewer + [ItemLayer(items[n])];
      assert ls[n] == ItemLayer(items[n]) && forall l :: l in fewer ==> l in ls;
    }
  }

  lemma ItemIsGoodExactly(it: Item)
    requires PlacedItem(it)
    ensures GoodLayer(ItemLayer(it)) <==> RoomyItem(it)
  {
    hide GoodLayer, Roomy;
    if it.Framed? {
      WindowIsGoodExactly(it.w);
    } else {
      WholeGood(it);
    }
  }

  // ---------------------------------------------------------------- windows it does not fit

  /** A window without a left border whose menu bar rounds up past it: the bar is drawn outside the window,
      where no border of the window comes after it. */
  lemma BareMenuPasses(w: Placed)
    requires Sane(w) && HasMenu(w) && w.InsetL() == 0 && w.MenuH() > w.InnerW()
    ensures w.Hl() == 0 && w.InnerW() == w.Hw()
    ensures var bar, bounds := Menu(w).copies[0].dst, LayerOf(w).bounds;
      bar.x == bounds.x && bar.w > bounds.w
  {
    hide CaptionCopies, Pieces;
    NoInset(w.c);
  }

  /** As at twice its size and an odd width. */
  lemma OddWidthPasses(n: nat)
    ensures Scale(Round((2 * n + 1) as real / 2.0), 2.0) == 2 * n + 2
  {
    var half := (2 * n + 1) as real / 2.0;
    assert half == n as real + 0.5;
    assert Round(half) == n + 1;
  }

  // ---------------------------------------------------------------- a window at its own size

  lemma ScaleOne(n: int)
    ensures Scale(n, 1.0) == n
  {}

  /** A window shown at its own size, whole and unpanned, with borders of one width around its client. */
  predicate OwnSize(w: Placed, x: int, y: int) {
    && w.c == 1.0 && w.zs == 1.0 && w.px == 0.0 && w.py == 0.0 && w.mpan == 0.0
    && w.x == x as real && w.y == y as real && w.cw == w.win.gw && w.ch == w.win.gh
    && w.win.gx >= w.win.wx && w.win.gy >= w.win.wy
    && w.win.gy + w.win.gh <= w.win.wy + w.win.wh
    && w.win.wx + w.win.ww - (w.win.gx + w.win.gw) == w.win.gx - w.win.wx
  }

  /** The sizes such a window has on the host: those of the guest. */
  lemma OwnSizes(w: Placed, x: int, y: int)
    requires OwnSize(w, x, y)
    ensures w.Hl() == w.InsetL() && w.Hr() == w.InsetR() == w.InsetL() && w.Ht() == w.InsetT() && w.Hb() == w.InsetB()
    ensures w.CapH() == w.CapRow() && w.CornerL() == w.InsetL() + w.Box() && w.CornerR() == w.InsetL() + 2 * w.Box()
    ensures w.Hw() == w.win.ww && w.Hh() == w.win.wh && w.InnerW() == w.win.ww - 2 * w.InsetL()
    ensures w.win.gx == w.win.wx + w.InsetL() && w.win.gy == w.win.wy + w.InsetT()
    ensures w.win.gw == w.win.ww - 2 * w.InsetL() && w.win.gh == w.win.wh - w.InsetT() - w.InsetB()
  {
    hide Scale;
    ScaleOne(w.InsetL());
    ScaleOne(w.InsetR());
    ScaleOne(w.InsetT());
    ScaleOne(w.InsetB());
    ScaleOne(w.CapRow());
    ScaleOne(w.InsetL() + w.Box());
    ScaleOne(w.InsetL() + 2 * w.Box());
  }

  lemma OwnMenu(w: Placed, x: int, y: int)
    requires OwnSize(w, x, y)
    ensures w.MenuG() == w.MenuH() == w.InnerW()
    ensures w.Vw() == w.win.gw as real && w.Vh() == w.win.gh as real
    ensures w.ClientW() == w.win.gw && w.ClientH() == w.win.gh
  {
    hide Scale, Round, Placed.InnerW, Placed.InsetL;
    OwnSizes(w, x, y);
    RoundWhole(w.InnerW());
    ScaleOne(w.MenuG());
    RoundWhole(w.win.gw);
    RoundWhole(w.win.gh);
  }

  lemma RoundWhole(n: int)
    ensures Round(n as real) == n && Round(n as real / 1.0) == n && Round(n as real * 1.0) == n
  {}

  /** A copy that moves pixels and does nothing else to them. */
  predicate Moves(b: Blit, dx: int, dy: int) {
    && b.src.w == b.dst.w && b.src.h == b.dst.h
    && b.src.x == b.dst.x + dx as real && b.src.y == b.dst.y + dy as real
  }

  lemma MovedSample(b: Blit, dx: int, dy: int, px: int, py: int)
    requires Moves(b, dx, dy) && Draws(b, px, py)
    ensures SampleAt(b, px, py) == (px + dx, py + dy)
  {
    MovedAlong(px, b.dst.x, b.dst.w, dx);
    MovedAlong(py, b.dst.y, b.dst.h, dy);
  }

  lemma MovedAlong(p: int, at: real, len: real, d: int)
    requires len > 0.0
    ensures SampleAlong(p, at, len, at + d as real, len).Floor == p + d
  {
    var t := p as real + 0.5 - at;
    assert t / len * len == t;
  }

  predicate AllMove(bs: seq<Blit>, dx: int, dy: int) { forall k :: 0 <= k < |bs| ==> Moves(bs[k], dx, dy) }

  lemma CaptionMoves(w: Placed, x: int, y: int)
    requires OwnSize(w, x, y)
    ensures AllMove(Caption(w).Blits(), w.win.wx - x, w.win.wy - y)
  {
    hide Scale, Round, Placed.InsetL, Placed.InsetR, Placed.InsetT, Placed.InsetB, Placed.Box, Placed.CapRow;
    hide Placed.CapH, Placed.CornerL, Placed.CornerR, Placed.Hw;
    OwnSizes(w, x, y);
    RoundWhole(w.win.ww - 2 * w.InsetL() - 3 * w.Box());
    NoCut(w.win.ww - 2 * w.InsetL() - 3 * w.Box());
  }

  lemma NoCut(n: int)
    ensures n as real / 1.0 == n as real && ((n as real - n as real / 1.0) / 2.0).Floor == 0
  {}

  lemma OthersMove(w: Placed, x: int, y: int)
    requires OwnSize(w, x, y)
    ensures AllMove(Menu(w).Blits(), w.win.wx - x, w.win.wy - y)
    ensures AllMove(LeftSide(w).Blits(), w.win.wx - x, w.win.wy - y)
    ensures AllMove(RightSide(w).Blits(), w.win.wx - x, w.win.wy - y)
    ensures AllMove(Bottom(w).Blits(), w.win.wx - x, w.win.wy - y)
    ensures AllMove(Client(w).Blits(), w.win.wx - x, w.win.wy - y)
  {
    hide Scale, Round, Placed.InsetL, Placed.InsetR, Placed.InsetT, Placed.InsetB, Placed.CapRow, Placed.CapH;
    hide Placed.Hl, Placed.Hr, Placed.Ht, Placed.Hb, Placed.Hw, Placed.Hh, Placed.InnerW, Placed.MenuG, Placed.MenuH;
    hide Placed.ClientW, Placed.ClientH, Placed.Vw, Placed.Vh;
    OwnSizes(w, x, y);
    OwnMenu(w, x, y);
    RoundWhole(w.win.ww);
  }

  lemma {:induction false} BlitsMove(bs: seq<Blit>, dx: int, dy: int, guest: Pixels, px: int, py: int, under: Colour)
    requires AllMove(bs, dx, dy)
    ensures OverBlits(bs, guest, px, py, under) == if AnyDraws(bs, px, py) then guest(px + dx, py + dy) else under
    decreases |bs|
  {
    hide Moves, Draws, SampleAt;
    if bs != [] {
      var n := |bs| - 1;
      BlitsMove(bs[..n], dx, dy, guest, px, py, under);
      if Draws(bs[n], px, py) {
        MovedSample(bs[n], dx, dy, px, py);
      } else {
        assert AnyDraws(bs, px, py) <==> AnyDraws(bs[..n], px, py) by {
          if k :| 0 <= k < |bs| && Draws(bs[k], px, py) {
            assert bs[..n][k] == bs[k];
          }
        }
      }
    }
  }

  lemma {:induction false} PiecesMove(ps: seq<Piece>, dx: int, dy: int, guest: Pixels, px: int, py: int, under: Colour)
    requires forall j :: 0 <= j < |ps| ==> AllMove(ps[j].Blits(), dx, dy)
    ensures OverPieces(ps, guest, px, py, under)
         == if exists j :: 0 <= j < |ps| && AnyDraws(ps[j].Blits(), px, py) then guest(px + dx, py + dy) else under
    decreases |ps|
  {
    hide AllMove, AnyDraws, OverBlits;
    if ps != [] {
      var n := |ps| - 1;
      PiecesMove(ps[..n], dx, dy, guest, px, py, under);
      BlitsMove(ps[n].Blits(), dx, dy, guest, px, py, OverPieces(ps[..n], guest, px, py, under));
      assert forall j :: 0 <= j < n ==> ps[..n][j] == ps[j];
    }
  }

  /** Where in the window each of its pieces draws. */
  lemma CaptionCovers(w: Placed, x: int, y: int, i: nat, j: nat)
    requires OwnSize(w, x, y) && i < w.win.ww && j < w.CapRow()
    ensures AnyDraws(Caption(w).Blits(), x + i, y + j)
  {
    hide Scale, Round, Placed.InsetL, Placed.InsetR, Placed.InsetT, Placed.InsetB, Placed.Box, Placed.CapRow;
    hide Placed.CapH, Placed.CornerL, Placed.CornerR, Placed.Hw;
    OwnSizes(w, x, y);
    var l, box := w.InsetL(), w.Box();
    var bs := Caption(w).copies;
    var mid := w.win.ww - 2 * l - 3 * box;
    RoundWhole(mid);
    NoCut(mid);
    BoxSize(w);
    if i < l + box {
      assert Draws(bs[0], x + i, y + j);
    } else if i >= w.win.ww - l - 2 * box {
      assert Draws(bs[1], x + i, y + j);
    } else {
      assert mid > 0 && Draws(bs[2], x + i, y + j);
    }
  }

  lemma BoxSize(w: Placed)
    ensures w.Box() >= 12
  {}

  lemma OthersCover(w: Placed, x: int, y: int, i: nat, j: nat)
    requires OwnSize(w, x, y) && i < w.win.ww && w.CapRow() <= j < w.win.wh
    ensures var l, t, b := w.InsetL(), w.InsetT(), w.InsetB();
      && (l <= i < w.win.ww - l && j < t ==> AnyDraws(Menu(w).Blits(), x + i, y + j))
      && (i < l && j < w.win.wh - b ==> AnyDraws(LeftSide(w).Blits(), x + i, y + j))
      && (i >= w.win.ww - l && j < w.win.wh - b ==> AnyDraws(RightSide(w).Blits(), x + i, y + j))
      && (j >= w.win.wh - b ==> AnyDraws(Bottom(w).Blits(), x + i, y + j))
      && (l <= i < w.win.ww - l && t <= j < w.win.wh - b ==> AnyDraws(Client(w).Blits(), x + i, y + j))
  {
    hide Scale, Round, Placed.InsetL, Placed.InsetR, Placed.InsetT, Placed.InsetB, Placed.CapRow, Placed.CapH;
    hide Placed.Hl, Placed.Hr, Placed.Ht, Placed.Hb, Placed.Hw, Placed.Hh, Placed.InnerW, Placed.MenuG, Placed.MenuH;
    hide Placed.ClientW, Placed.ClientH, Placed.Vw, Placed.Vh, AnyDraws;
    OwnSizes(w, x, y);
    OwnMenu(w, x, y);
    RoundWhole(w.win.ww);
    OneDraws(Menu(w).Blits(), x + i, y + j);
    OneDraws(LeftSide(w).Blits(), x + i, y + j);
    OneDraws(RightSide(w).Blits(), x + i, y + j);
    OneDraws(Bottom(w).Blits(), x + i, y + j);
    OneDraws(Client(w).Blits(), x + i, y + j);
  }

  lemma OneDraws(bs: seq<Blit>, px: int, py: int)
    ensures bs != [] && Draws(bs[0], px, py) ==> AnyDraws(bs, px, py)
  {}

  /** A window shown at its own size shows itself: every pixel of it, caption, menu bar, borders and client, is the
      guest's. */
  lemma OwnSizeShows(w: Placed, x: int, y: int, guest: Pixels, i: nat, j: nat, under: Colour)
    requires OwnSize(w, x, y) && w.c > 0.0 && w.zs > 0.0 && i < w.win.ww && j < w.win.wh
    ensures OverPieces(LayerOf(w).pieces, guest, x + i, y + j, under) == guest(w.win.wx + i, w.win.wy + j)
  {
    hide *;
    PiecesAllMove(w, x, y);
    SomePieceDraws(w, x, y, i, j);
    PiecesMove(LayerOf(w).pieces, w.win.wx - x, w.win.wy - y, guest, x + i, y + j, under);
  }

  lemma PiecesAllMove(w: Placed, x: int, y: int)
    requires OwnSize(w, x, y) && w.c > 0.0 && w.zs > 0.0
    ensures forall k :: 0 <= k < |LayerOf(w).pieces| ==>
      AllMove(LayerOf(w).pieces[k].Blits(), w.win.wx - x, w.win.wy - y)
  {
    hide *;
    CaptionMoves(w, x, y);
    OthersMove(w, x, y);
    PiecesListed(w);
  }

  lemma SomePieceDraws(w: Placed, x: int, y: int, i: nat, j: nat)
    requires OwnSize(w, x, y) && w.c > 0.0 && w.zs > 0.0 && i < w.win.ww && j < w.win.wh
    ensures exists k :: 0 <= k < |LayerOf(w).pieces| && AnyDraws(LayerOf(w).pieces[k].Blits(), x + i, y + j)
  {
    hide *;
    OwnSizes(w, x, y);
    RowsAre(w);
    PiecesListed(w);
    if j < w.CapRow() {
      CaptionCovers(w, x, y, i, j);
    } else {
      OthersCover(w, x, y, i, j);
    }
  }

  lemma RowsAre(w: Placed)
    ensures w.MenuRow() == w.InsetT() - w.CapRow() && w.CapRow() <= w.InsetT()
  {}

  lemma PiecesListed(w: Placed)
    requires w.c > 0.0 && w.zs > 0.0
    ensures var ps := LayerOf(w).pieces;
      && (forall k :: 0 <= k < |ps| ==>
            || ps[k] == Caption(w) || ps[k] == Menu(w) || ps[k] == LeftSide(w) || ps[k] == RightSide(w)
            || ps[k] == Bottom(w) || ps[k] == Client(w))
      && Caption(w) in ps && Client(w) in ps && (w.MenuRow() > 0 && w.Ht() - w.CapH() > 0 ==> Menu(w) in ps)
      && (w.Hl() > 0 ==> LeftSide(w) in ps && RightSide(w) in ps) && (w.Hb() > 0 ==> Bottom(w) in ps)
  {
    hide Caption, Menu, LeftSide, RightSide, Bottom, Client;
    hide Placed.MenuRow, Placed.Ht, Placed.CapH, Placed.Hl, Placed.Hb;
  }

  /** A client shown at its own size and panned shows the guest's pixels as far on as it is panned, and a menu bar
      whose chrome is at its own size likewise. */
  lemma PannedShows(w: Placed, x: int, y: int, right: int, down: int, along: int, guest: Pixels, px: int, py: int,
                    under: Colour)
    requires w.x == x as real && w.y == y as real && w.px == right as real && w.py == down as real
    requires w.mpan == along as real
    ensures w.zs == 1.0 && AnyDraws(Client(w).Blits(), px, py) ==>
      OverBlits(Client(w).Blits(), guest, px, py, under)
      == guest(w.win.gx + right + px - (x + w.Hl()), w.win.gy + down + py - (y + w.Ht()))
    ensures w.c == 1.0 && AnyDraws([Menu(w).copies[0]], px, py) ==>
      OverBlits([Menu(w).copies[0]], guest, px, py, under)
      == guest(w.win.wx + w.InsetL() + along + px - (x + w.Hl()), w.win.wy + w.CapRow() + py - (y + w.CapH()))
  {
    hide AnyDraws, OverBlits;
    if w.zs == 1.0 {
      ClientMoves(w, x, y, right, down);
      BlitsMove(Client(w).Blits(), w.win.gx + right - (x + w.Hl()), w.win.gy + down - (y + w.Ht()), guest, px, py,
                under);
    }
    if w.c == 1.0 {
      BarMoves(w, x, y, along);
      BlitsMove([Menu(w).copies[0]], w.win.wx + w.InsetL() + along - (x + w.Hl()),
                w.win.wy + w.CapRow() - (y + w.CapH()), guest, px, py, under);
    }
  }

  lemma ClientMoves(w: Placed, x: int, y: int, right: int, down: int)
    requires w.x == x as real && w.y == y as real && w.px == right as real && w.py == down as real && w.zs == 1.0
    ensures AllMove(Client(w).Blits(), w.win.gx + right - (x + w.Hl()), w.win.gy + down - (y + w.Ht()))
  {
    hide Placed.Hl, Placed.Ht, Round;
    SmallerWhole(w.win.gw, w.cw);
    SmallerWhole(w.win.gh, w.ch);
    RoundWhole(Min(w.win.gw, w.cw));
    RoundWhole(Min(w.win.gh, w.ch));
  }

  lemma SmallerWhole(a: nat, b: nat)
    ensures RealMin(a as real, b as real / 1.0) == Min(a, b) as real
  {}

  lemma BarMoves(w: Placed, x: int, y: int, along: int)
    requires w.x == x as real && w.y == y as real && w.mpan == along as real && w.c == 1.0
    ensures AllMove([Menu(w).copies[0]], w.win.wx + w.InsetL() + along - (x + w.Hl()),
                    w.win.wy + w.CapRow() - (y + w.CapH()))
  {
    hide Placed.Hl, Placed.InsetL, Placed.CapRow, Placed.InsetT, Scale, Round, Placed.InnerW;
    ScaleOne(w.MenuG());
    ScaleOne(w.CapRow());
    ScaleOne(w.InsetT());
  }

  /** What is above a client is its caption, as high as the border and the caption together are, and under that
      its menu bar. */
  lemma AboveClient(w: Placed)
    ensures w.CapRow() + w.MenuRow() == w.InsetT()
    ensures w.InsetT() >= w.InsetL() + w.cap ==> w.CapRow() == w.InsetL() + w.cap
    ensures w.InsetT() < w.InsetL() + w.cap ==> w.MenuRow() == 0
  {}
}
