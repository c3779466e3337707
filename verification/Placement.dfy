/**
 Where an owned window goes (guest/pvhook/pvhook.c at its birth, guest/pvmon/pvmon.c afterwards): below its
 owner, beside it, or over it, inside the owner's column.
 */
module Placement {
  import opened Bytes
  import opened Rects

  /** The shell column, the screen's height behind it, and the screen as desktop mode has it. */
  datatype Screen = Screen(shellW: nat, shellH: nat, realH: nat, deskW: nat, deskH: nat)

  /** A column: its edges and how far down it goes. */
  datatype Column = Column(left: int, right: int, height: int)

  /** Half of a number, toward zero. */
  function Half(n: int): int { if n >= 0 then n / 2 else -((-n) / 2) }

  lemma HalfIs(n: int)
    ensures n - 1 <= 2 * Half(n) <= n + 1
  {}

  /** A rectangle kept inside a column. */
  function ClampX(x: int, w: int, c: Column): int { Max(c.left, Min(x, c.right - w)) }

  function ClampY(y: int, h: int, c: Column): int { Max(0, Min(y, c.height - h)) }

  method ClampInto(x: int, y: int, w: int, h: int, c: Column) returns (nx: int, ny: int, moved: bool)
    ensures nx == ClampX(x, w, c) && ny == ClampY(y, h, c)
    ensures moved <==> nx != x || ny != y
    ensures w <= c.right - c.left ==> c.left <= nx && nx + w <= c.right
    ensures h <= c.height ==> 0 <= ny && ny + h <= c.height
    ensures c.left <= x && x + w <= c.right && 0 <= y && y + h <= c.height ==> !moved
  {
    nx, ny := KeepInside(x, y, w, h, c);
    moved := nx != x || ny != y;
  }

  /** The four corrections both placements end with. */
  method KeepInside(x: int, y: int, w: int, h: int, c: Column) returns (nx: int, ny: int)
    ensures nx == ClampX(x, w, c) && ny == ClampY(y, h, c)
  {
    nx, ny := x, y;
    if nx + w > c.right { nx := c.right - w; }
    if nx < c.left { nx := c.left; }
    if ny + h > c.height { ny := c.height - h; }
    if ny < 0 { ny := 0; }
  }

  // ---------------------------------------------------------------- in an application's column

  predicate RoomBelow(o: Rect, h: int, c: Column) { o.bottom + h <= c.height }

  predicate RoomBeside(o: Rect, w: int, c: Column) { o.right + w <= c.right }

  /** Below the owner, else to its right, else centred on it, and then inside the column. */
  function Spot(o: Rect, w: int, h: int, c: Column): (int, int) {
    var x := if RoomBelow(o, h, c) then o.left else if RoomBeside(o, w, c) then o.right else Half(o.left + o.right - w);
    var y := if RoomBelow(o, h, c) then o.bottom else if RoomBeside(o, w, c) then o.top else Half(o.top + o.bottom - h);
    (ClampX(x, w, c), ClampY(y, h, c))
  }

  predicate Overlap(a: Rect, b: Rect) {
    a.left < b.right && b.left < a.right && a.top < b.bottom && b.top < a.bottom
  }

  /** A dialog that fits its owner's column is inside it, wherever the owner is. */
  lemma SpotInside(o: Rect, w: int, h: int, c: Column)
    ensures w <= c.right - c.left ==> c.left <= Spot(o, w, h, c).0 && Spot(o, w, h, c).0 + w <= c.right
    ensures h <= c.height ==> 0 <= Spot(o, w, h, c).1 && Spot(o, w, h, c).1 + h <= c.height
  {}

  /** A dialog with room below its owner, or beside it, misses it, wherever the owner is. */
  lemma RoomMisses(o: Rect, w: int, h: int, c: Column)
    requires RoomBelow(o, h, c) || RoomBeside(o, w, c)
    ensures !Overlap(At(Spot(o, w, h, c).0, Spot(o, w, h, c).1, w, h), o)
  {}

  /** Some of the owner is in the column: it may go on into the next, where the dialog fits, and hang off the
      top or the bottom. The dialog misses it exactly when there is room below or beside; below is tried
      first, and touches what shows of it. */
  lemma MissesExactly(o: Rect, w: int, h: int, c: Column)
    requires w > 0 && h > 0 && c.left <= o.left < o.right && o.left < c.right
    requires o.top < o.bottom && o.top < c.height && 0 < o.bottom
    requires o.right <= c.right || w <= c.right - c.left
    ensures !Overlap(At(Spot(o, w, h, c).0, Spot(o, w, h, c).1, w, h), o)
       <==> RoomBelow(o, h, c) || RoomBeside(o, w, c)
    ensures RoomBelow(o, h, c) ==> Spot(o, w, h, c).1 == o.bottom
    ensures !RoomBelow(o, h, c) && RoomBeside(o, w, c) ==> Spot(o, w, h, c).0 == o.right
  {
    HalfIs(o.left + o.right - w);
    HalfIs(o.top + o.bottom - h);
    hide Half;
  }

  // ---------------------------------------------------------------- the hook

  function Centre(o: Rect, w: int, h: int, c: Column): (int, int) {
    (ClampX(Half(o.left + o.right - w), w, c), ClampY(Half(o.top + o.bottom - h), h, c))
  }

  function ShellColumn(s: Screen): Column { Column(0, s.shellW, s.shellH) }

  /** The column an application's window starts in. */
  function ColumnAt(x: int, s: Screen): Column
  {
    Column(x / SLOT_W * SLOT_W, x / SLOT_W * SLOT_W + SLOT_W, s.realH)
  }

  /** A minimised owner counts as the whole shell column. */
  function OwnerRect(o: Rect, iconic: bool, s: Screen): Rect {
    if iconic then Rect(0, 0, s.shellW, s.shellH) else o
  }

  function HookSpot(o: Rect, iconic: bool, desktop: bool, w: int, h: int, s: Screen): (int, int) {
    if desktop then Centre(o, w, h, Column(0, s.deskW, s.deskH))
    else
      var r := OwnerRect(o, iconic, s);
      if r.left < SLOT_W then Centre(r, w, h, ShellColumn(s)) else Spot(r, w, h, ColumnAt(r.left, s))
  }

  method PlaceOwned(o: Rect, iconic: bool, desktop: bool, w: int, h: int, s: Screen) returns (px: int, py: int)
    ensures (px, py) == HookSpot(o, iconic, desktop, w, h, s)
  {
    hide Half, ClampX, ClampY;
    if desktop {
      var cx, cy := Half(o.left + o.right - w), Half(o.top + o.bottom - h);
      px, py := KeepInside(cx, cy, w, h, Column(0, s.deskW, s.deskH));
      return;
    }
    var r := if iconic then Rect(0, 0, s.shellW, s.shellH) else o;
    var colX: int, colR: int, frameH: int := 0, s.shellW, s.shellH;
    var x, y := 0, 0;
    if r.left < SLOT_W {
      x, y := Half(r.left + r.right - w), Half(r.top + r.bottom - h);
    } else {
      colX := r.left / SLOT_W * SLOT_W;
      colR, frameH := colX + SLOT_W, s.realH;
      if r.bottom + h <= frameH {
        x, y := r.left, r.bottom;
      } else if r.right + w <= colR {
        x, y := r.right, r.top;
      } else {
        x, y := Half(r.left + r.right - w), Half(r.top + r.bottom - h);
      }
    }
    px, py := KeepInside(x, y, w, h, Column(colX, colR, frameH));
  }

  // ---------------------------------------------------------------- the fallback

  /** Where a dialog is and who owns it; `slot` is the owner's, or -1. */
  datatype Owned = Owned(at: Rect, owner: Rect, iconic: bool, slot: int, isNew: bool)

  function SlotColumn(slot: int, s: Screen): Column {
    Column(SLOT_W * (slot + 1), SLOT_W * (slot + 1) + SLOT_W, s.realH)
  }

  /** Whether a dialog is left where it is. */
  predicate LeftAlone(d: Owned, s: Screen) {
    if d.slot < 0 then
      || (d.at.left >= 0 && d.at.right <= s.shellW && d.at.top >= 0 && d.at.bottom <= s.shellH)
      || d.owner.left >= SLOT_W
    else !d.isNew && d.at.left >= SlotColumn(d.slot, s).left && d.at.right <= SlotColumn(d.slot, s).right
  }

  function MonSpot(d: Owned, s: Screen): (int, int) {
    var w, h := Width(d.at), Height(d.at);
    if LeftAlone(d, s) then (d.at.left, d.at.top)
    else if d.slot < 0 then
      var y := if d.iconic then Half(s.shellH - h) else Half(d.owner.top + d.owner.bottom - h);
      (ClampX(Half(s.shellW - w), w, ShellColumn(s)), ClampY(y, h, ShellColumn(s)))
    else Spot(d.owner, w, h, SlotColumn(d.slot, s))
  }

  method PlaceFallback(d: Owned, s: Screen) returns (x: int, y: int)
    ensures (x, y) == MonSpot(d, s)
  {
    hide Half, ClampX, ClampY;
    var rc, orc := d.at, d.owner;
    var w, h := rc.right - rc.left, rc.bottom - rc.top;
    var slotX: int, colR: int, frameH: int := 0, s.shellW, s.shellH;
    x, y := rc.left, rc.top;
    if d.slot < 0 {
      if rc.left >= 0 && rc.right <= s.shellW && rc.top >= 0 && rc.bottom <= s.shellH {
        return;
      }
      if orc.left >= SLOT_W {
        return;
      }
      x := Half(s.shellW - w);
      y := if d.iconic then Half(s.shellH - h) else Half(orc.top + orc.bottom - h);
    } else {
      slotX := SLOT_W * (d.slot + 1);
      colR, frameH := slotX + SLOT_W, s.realH;
      if !d.isNew && rc.left >= slotX && rc.right <= colR {
        return;
      }
      if orc.bottom + h <= frameH {
        x, y := orc.left, orc.bottom;
      } else if orc.right + w <= colR {
        x, y := orc.right, orc.top;
      } else {
        x, y := Half(orc.left + orc.right - w), Half(orc.top + orc.bottom - h);
      }
    }
    x, y := KeepInside(x, y, w, h, Column(slotX, colR, frameH));
  }

  // ---------------------------------------------------------------- the two agree

  lemma SameColumn(x: int, slot: int, s: Screen)
    requires slot >= 0
    ensures ColumnAt(x, s) == SlotColumn(slot, s) <==> SLOT_W * (slot + 1) <= x < SLOT_W * (slot + 1) + SLOT_W
  {}

  /** The owner shows, and its left edge is in its own column. */
  predicate InItsSlot(d: Owned) {
    !d.iconic && SLOT_W * (d.slot + 1) <= d.owner.left < SLOT_W * (d.slot + 1) + SLOT_W
  }

  /** The hook looks at where an application's owner is, and the fallback at the slot it has: for a dialog the
      two compute one spot exactly when those name one column. */
  lemma SpotsAgreeExactly(d: Owned, s: Screen)
    requires d.slot >= 0 && !LeftAlone(d, s) && s.shellW <= SLOT_W && Width(d.at) > 0
    ensures MonSpot(d, s) == HookSpot(d.owner, d.iconic, false, Width(d.at), Height(d.at), s) <==> InItsSlot(d)
  {
    if InItsSlot(d) {
      SameColumn(d.owner.left, d.slot, s);
      hide Spot, ColumnAt, SlotColumn;
    } else {
      ColumnsDiffer(d, s);
      hide Spot, HookSpot;
    }
  }

  /** A spot of some width stands in its own column. */
  lemma SpotColumn(o: Rect, w: int, h: int, c: Column)
    requires w > 0 && c.left < c.right
    ensures c.left <= Spot(o, w, h, c).0 < c.right
  {}

  lemma ShellSpotColumn(o: Rect, w: int, h: int, s: Screen)
    requires w > 0
    ensures 0 <= Centre(o, w, h, ShellColumn(s)).0 && Centre(o, w, h, ShellColumn(s)).0 <= s.shellW
    ensures s.shellW > 0 ==> Centre(o, w, h, ShellColumn(s)).0 < s.shellW
  {}

  /** For any other owner the hook's spot is in another column than the fallback's. */
  lemma ColumnsDiffer(d: Owned, s: Screen)
    requires d.slot >= 0 && !InItsSlot(d) && s.shellW <= SLOT_W && Width(d.at) > 0
    ensures var x := HookSpot(d.owner, d.iconic, false, Width(d.at), Height(d.at), s).0;
      x < SlotColumn(d.slot, s).left || SlotColumn(d.slot, s).right <= x
    ensures SlotColumn(d.slot, s).left <= Spot(d.owner, Width(d.at), Height(d.at), SlotColumn(d.slot, s)).0
    ensures Spot(d.owner, Width(d.at), Height(d.at), SlotColumn(d.slot, s)).0 < SlotColumn(d.slot, s).right
  {
    hide Spot, Centre;
    var w, h := Width(d.at), Height(d.at);
    var r := OwnerRect(d.owner, d.iconic, s);
    SpotColumn(d.owner, w, h, SlotColumn(d.slot, s));
    ShellSpotColumn(r, w, h, s);
    if r.left >= SLOT_W {
      SpotColumn(r, w, h, ColumnAt(r.left, s));
    }
  }

  /** What the hook placed the fallback leaves there, or puts there again, exactly then. */
  lemma PlacedStaysExactly(d: Owned, s: Screen)
    requires d.slot >= 0 && s.shellW <= SLOT_W && Width(d.at) > 0
    ensures var w, h := Width(d.at), Height(d.at);
      var p := HookSpot(d.owner, d.iconic, false, w, h, s);
      MonSpot(d.(at := At(p.0, p.1, w, h)), s) == p <==> InItsSlot(d)
  {
    if InItsSlot(d) {
      SameColumn(d.owner.left, d.slot, s);
      hide Spot, ColumnAt;
    } else {
      ColumnsDiffer(d, s);
      hide Spot, HookSpot;
    }
  }

  /** An application that has slot 0 and has not been parked there yet, and the dialog it opens. */
  lemma UnparkedOwner()
    ensures var s := Screen(352, 600, 970, 2560, 970);
      var d := Owned(Rect(0, 0, 200, 100), Rect(1280, 0, 1500, 300), false, 0, true);
      MonSpot(d, s) != HookSpot(d.owner, d.iconic, false, Width(d.at), Height(d.at), s)
  {
    var s := Screen(352, 600, 970, 2560, 970);
    var d := Owned(Rect(0, 0, 200, 100), Rect(1280, 0, 1500, 300), false, 0, true);
    assert !InItsSlot(d);
    SpotsAgreeExactly(d, s);
  }

  /** In the shell column the hook centres on the owner and the fallback on the column. They agree for a
      minimised owner, and for another exactly when the clamping or the rounding makes the two centres
      one. */
  lemma ShellSpotsAgreeExactly(d: Owned, s: Screen)
    requires d.slot < 0 && !LeftAlone(d, s)
    ensures MonSpot(d, s) == HookSpot(d.owner, d.iconic, false, Width(d.at), Height(d.at), s)
       <==> || d.iconic
            || s.shellW <= Width(d.at)
            || Half(d.owner.left + d.owner.right - Width(d.at)) == Half(s.shellW - Width(d.at))
            || (s.shellW - Width(d.at) == 1 && d.owner.left + d.owner.right < s.shellW)
  {}

  // ---------------------------------------------------------------- in numbers

  /** A number is the middle of two edges, to within rounding. */
  predicate Middle(x: int, size: int, from: int, to: int) { -1 <= 2 * x + size - (from + to) <= 1 }

  /** Where a dialog that fits its column goes, wherever there is room for it: under its owner at the same left
      edge, beside it at the same height, or over its middle. */
  lemma SpotSays(o: Rect, w: int, h: int, c: Column)
    ensures var (x, y) := Spot(o, w, h, c);
      && (o.bottom + h <= c.height && 0 <= o.bottom ==> y == o.bottom)
      && (o.bottom + h <= c.height && c.left <= o.left <= c.right - w ==> x == o.left)
      && (o.bottom + h > c.height && o.right + w <= c.right && c.left <= o.right ==> x == o.right)
      && (o.bottom + h > c.height && o.right + w <= c.right && 0 <= o.top <= c.height - h ==> y == o.top)
      && (o.bottom + h > c.height && o.right + w > c.right ==>
            && (Middle(x, w, o.left, o.right) || x == c.left || x == c.right - w)
            && (Middle(y, h, o.top, o.bottom) || y == 0 || y == c.height - h))
  {
    HalfIs(o.left + o.right - w);
    HalfIs(o.top + o.bottom - h);
    hide Half;
  }

  lemma CentreSays(o: Rect, w: int, h: int, c: Column)
    ensures var (x, y) := Centre(o, w, h, c);
      && (Middle(x, w, o.left, o.right) || x == c.left || x == c.right - w)
      && (Middle(y, h, o.top, o.bottom) || y == 0 || y == c.height - h)
      && (c.left <= x || w > c.right - c.left) && (x + w <= c.right || x == c.left)
  {
    HalfIs(o.left + o.right - w);
    HalfIs(o.top + o.bottom - h);
    hide Half;
  }

  /** Which column the hook keeps a dialog in: the desktop's, the shell's for an owner in the first 640 or minimised,
      and otherwise the 640 its owner starts in. */
  lemma HookSays(o: Rect, iconic: bool, desktop: bool, w: int, h: int, s: Screen)
    ensures HookSpot(o, iconic, desktop, w, h, s)
         == if desktop then Centre(o, w, h, Column(0, s.deskW, s.deskH))
            else if iconic then Centre(Rect(0, 0, s.shellW, s.shellH), w, h, Column(0, s.shellW, s.shellH))
            else if o.left < 640 then Centre(o, w, h, Column(0, s.shellW, s.shellH))
            else Spot(o, w, h, Column(o.left - o.left % 640, o.left - o.left % 640 + 640, s.realH))
  {
    hide Centre, Spot;
    assert 0 < SLOT_W;
  }

  /** And the fallback: where it is, in the shell's column for an owner without a slot, and otherwise in the slot's. */
  lemma FallbackSays(d: Owned, s: Screen)
    ensures var w, h := d.at.right - d.at.left, d.at.bottom - d.at.top;
      var left := 640 * d.slot + 640;
      var inShell := 0 <= d.at.left && d.at.right <= s.shellW && 0 <= d.at.top && d.at.bottom <= s.shellH;
      && (d.slot < 0 && (inShell || d.owner.left >= 640) ==> MonSpot(d, s) == (d.at.left, d.at.top))
      && (d.slot >= 0 && !d.isNew && left <= d.at.left && d.at.right <= left + 640 ==>
            MonSpot(d, s) == (d.at.left, d.at.top))
      && (d.slot >= 0 && (d.isNew || d.at.left < left || d.at.right > left + 640) ==>
            MonSpot(d, s) == Spot(d.owner, w, h, Column(left, left + 640, s.realH)))
      && (d.slot < 0 && !inShell && d.owner.left < 640 ==>
            var (x, y) := MonSpot(d, s);
            && (Middle(x, w, 0, s.shellW) || x == 0 || x == s.shellW - w)
            && (Middle(y, h, if d.iconic then 0 else d.owner.top, if d.iconic then s.shellH else d.owner.bottom)
                || y == 0 || y == s.shellH - h))
  {
    HalfIs(s.shellW - (d.at.right - d.at.left));
    HalfIs(s.shellH - (d.at.bottom - d.at.top));
    HalfIs(d.owner.top + d.owner.bottom - (d.at.bottom - d.at.top));
    hide Half, Spot;
  }
}
