/**
 Reflowing a dialog that is too wide (guest/pvmon/pvmon.c): buttons that fall off its right edge go into
 rows underneath what fits.
 */
module Reflow {
  import opened Bytes

  const DLG_MARGIN := 8
  const DLG_GAP := 6

  /** A control: where it is on the screen, and whether it is a button. */
  datatype Kid = Kid(x: int, y: int, cx: nat, cy: nat, button: bool)

  /** The dialog's left and top edge, its client area's, and the width there is for it. */
  datatype Frame = Frame(left: int, top: int, orgX: int, orgY: int, avail: int)

  predicate Off(k: Kid, f: Frame) { k.x + k.cx > f.left + f.avail }

  /** The row being filled. */
  datatype Row = Row(x: int, y: int, h: nat, widest: int, moved: nat)

  /** The lowest edge of the controls that stay, and how far right they reach. */
  function FitBottom(kids: seq<Kid>, f: Frame): int {
    if kids == [] then f.orgY
    else
      var n := |kids| - 1;
      var b := FitBottom(kids[..n], f);
      if Off(kids[n], f) then b else Max(b, kids[n].y + kids[n].cy)
  }

  function Widest(kids: seq<Kid>, f: Frame): int {
    if kids == [] then 0
    else
      var n := |kids| - 1;
      var b := Widest(kids[..n], f);
      if Off(kids[n], f) then b else Max(b, kids[n].x + kids[n].cx - f.orgX)
  }

  function FirstRow(kids: seq<Kid>, f: Frame): Row {
    Row(f.orgX + DLG_MARGIN, FitBottom(kids, f) + DLG_GAP, 0, Widest(kids, f), 0)
  }

  /** The row a control goes into: the next one when it would pass the edge of a row with anything in it. */
  function Turned(r: Row, k: Kid, f: Frame): Row {
    if r.h != 0 && r.x - f.orgX + k.cx > f.avail - DLG_MARGIN
    then r.(x := f.orgX + DLG_MARGIN, y := r.y + r.h + DLG_GAP, h := 0)
    else r
  }

  function Filled(r: Row, k: Kid, f: Frame): Row {
    var x := r.x + k.cx + DLG_GAP;
    r.(x := x, h := Max(r.h, k.cy), widest := Max(r.widest, x - f.orgX), moved := r.moved + 1)
  }

  /** The controls that have been gone through, and the row after them. */
  function Flow(kids: seq<Kid>, f: Frame, first: Row): (fl: (seq<Kid>, Row))
    ensures |fl.0| == |kids|
  {
    if kids == [] then ([], first)
    else
      var n := |kids| - 1;
      var (done, r) := Flow(kids[..n], f, first);
      if !Off(kids[n], f) then (done + [kids[n]], r)
      else
        var t := Turned(r, kids[n], f);
        (done + [kids[n].(x := t.x, y := t.y)], Filled(t, kids[n], f))
  }

  function Flowed(kids: seq<Kid>, f: Frame): (seq<Kid>, Row) { Flow(kids, f, FirstRow(kids, f)) }

  /** Whether the dialog can be reflowed: something falls off, and nothing but buttons does. */
  predicate Movable(kids: seq<Kid>, f: Frame) {
    && (exists i :: 0 <= i < |kids| && Off(kids[i], f))
    && (forall i :: 0 <= i < |kids| && Off(kids[i], f) ==> kids[i].button)
  }

  // ---------------------------------------------------------------- what the layout is like

  /** One control ends before another starts, with a gap, in reading order. */
  predicate Before(a: Kid, b: Kid) {
    a.y + a.cy + DLG_GAP <= b.y || (a.y == b.y && a.x + a.cx + DLG_GAP <= b.x)
  }

  predicate Apart(a: Kid, b: Kid) {
    a.x + a.cx <= b.x || b.x + b.cx <= a.x || a.y + a.cy <= b.y || b.y + b.cy <= a.y
  }

  /** Where moved controls stand against the row being filled. */
  predicate InRows(k: Kid, r: Row) {
    k.y + k.cy + DLG_GAP <= r.y || (k.y == r.y && k.x + k.cx + DLG_GAP <= r.x && k.cy <= r.h)
  }

  predicate Placed(kids: seq<Kid>, done: seq<Kid>, r: Row, f: Frame, low: int) {
    && |done| == |kids|
    && r.y >= low && r.x >= f.orgX + DLG_MARGIN
    && (forall i :: 0 <= i < |kids| && !Off(kids[i], f) ==> done[i] == kids[i])
    && (forall i :: 0 <= i < |kids| && Off(kids[i], f) ==>
          && done[i].(x := kids[i].x, y := kids[i].y) == kids[i]
          && done[i].y >= low && done[i].x >= f.orgX + DLG_MARGIN && InRows(done[i], r))
    && (forall i, j :: 0 <= i < j < |kids| && Off(kids[i], f) && Off(kids[j], f) ==> Before(done[i], done[j]))
  }

  lemma FlowStep(kids: seq<Kid>, f: Frame, first: Row)
    requires kids != []
    ensures var n := |kids| - 1;
      var (done, r) := Flow(kids[..n], f, first);
      var t := Turned(r, kids[n], f);
      Flow(kids, f, first)
      == if Off(kids[n], f) then (done + [kids[n].(x := t.x, y := t.y)], Filled(t, kids[n], f))
         else (done + [kids[n]], r)
  {
    hide Off, Turned, Filled;
  }

  /** Filling a row leaves what stood in the rows so far in them, before the control that was added. */
  lemma RowGrows(k: Kid, r: Row, next: Kid, f: Frame)
    requires InRows(k, r)
    ensures var t := Turned(r, next, f);
      InRows(k, Filled(t, next, f)) && Before(k, next.(x := t.x, y := t.y))
  {}

  lemma RowTakes(r: Row, next: Kid, f: Frame, low: int)
    requires r.y >= low && r.x >= f.orgX + DLG_MARGIN
    ensures var t := Turned(r, next, f);
      var r' := Filled(t, next, f);
      && r'.y >= low && r'.x >= f.orgX + DLG_MARGIN && t.y >= low && t.x >= f.orgX + DLG_MARGIN
      && InRows(next.(x := t.x, y := t.y), r')
  {}

  lemma {:induction false} FlowPlaced(kids: seq<Kid>, f: Frame, first: Row)
    requires first.x >= f.orgX + DLG_MARGIN
    ensures Placed(kids, Flow(kids, f, first).0, Flow(kids, f, first).1, f, first.y)
    decreases |kids|
  {
    hide Off, Turned, Filled, InRows, Before, Flow;
    if kids == [] {
      FlowNone(f, first);
    } else {
      var n := |kids| - 1;
      FlowPlaced(kids[..n], f, first);
      FlowStep(kids, f, first);
      var (done, r) := Flow(kids[..n], f, first);
      assert forall i :: 0 <= i < n ==> kids[..n][i] == kids[i];
      if Off(kids[n], f) {
        RowTakes(r, kids[n], f, first.y);
        forall i | 0 <= i < n && Off(kids[i], f)
          ensures InRows(done[i], Filled(Turned(r, kids[n], f), kids[n], f))
          ensures Before(done[i], kids[n].(x := Turned(r, kids[n], f).x, y := Turned(r, kids[n], f).y))
        {
          RowGrows(done[i], r, kids[n], f);
        }
      }
    }
  }

  lemma FlowNone(f: Frame, first: Row)
    ensures Flow([], f, first) == ([], first)
  {}

  lemma {:induction false} KeptAbove(kids: seq<Kid>, f: Frame, i: nat)
    requires i < |kids| && !Off(kids[i], f)
    ensures kids[i].y + kids[i].cy <= FitBottom(kids, f)
    decreases |kids|
  {
    var n := |kids| - 1;
    if i < n {
      KeptAbove(kids[..n], f, i);
    }
  }

  /** Controls that stay do; those that move keep their order and size, are apart from one another and from
      every one that stayed, by at least a gap among themselves. */
  lemma Reflowed(kids: seq<Kid>, f: Frame)
    ensures var (done, r) := Flowed(kids, f);
      && |done| == |kids|
      && (forall i :: 0 <= i < |kids| && !Off(kids[i], f) ==> done[i] == kids[i])
      && (forall i :: 0 <= i < |kids| && Off(kids[i], f) ==> done[i].(x := kids[i].x, y := kids[i].y) == kids[i])
      && (forall i, j :: 0 <= i < j < |kids| && Off(kids[i], f) && Off(kids[j], f) ==> Before(done[i], done[j]))
      && (forall i, j :: 0 <= i < |kids| && 0 <= j < |kids| && Off(kids[i], f) && i != j ==> Apart(done[i], done[j]))
      && (forall i :: 0 <= i < |kids| ==> done[i].y + done[i].cy <= r.y + r.h)
  {
    hide Off, FitBottom, Widest, Flow;
    var (done, r) := Flowed(kids, f);
    var low := FitBottom(kids, f);
    FlowPlaced(kids, f, FirstRow(kids, f));
    forall i | 0 <= i < |kids| && !Off(kids[i], f)
      ensures done[i] == kids[i] && done[i].y + done[i].cy <= low
    {
      KeptAbove(kids, f, i);
    }
  }

  lemma {:induction false} KeptWithin(kids: seq<Kid>, f: Frame, i: nat)
    requires i < |kids| && !Off(kids[i], f)
    ensures kids[i].x + kids[i].cx - f.orgX <= Widest(kids, f)
    decreases |kids|
  {
    var n := |kids| - 1;
    if i < n {
      KeptWithin(kids[..n], f, i);
    }
  }

  lemma {:induction false} FlowWithin(kids: seq<Kid>, f: Frame, first: Row)
    ensures var (done, r) := Flow(kids, f, first);
      && first.widest <= r.widest
      && forall i :: 0 <= i < |kids| && Off(kids[i], f) ==> done[i].x + done[i].cx - f.orgX <= r.widest
    decreases |kids|
  {
    hide Off, Flow;
    if kids == [] {
      FlowNone(f, first);
    } else {
      var n := |kids| - 1;
      assert forall i :: 0 <= i < n ==> kids[..n][i] == kids[i];
      FlowStep(kids, f, first);
      FlowWithin(kids[..n], f, first);
    }
  }

  /** Every control ends left of the widest mark. */
  lemma WidestBounds(kids: seq<Kid>, f: Frame, i: nat)
    requires i < |kids|
    ensures Flowed(kids, f).0[i].x + Flowed(kids, f).0[i].cx - f.orgX <= Flowed(kids, f).1.widest
  {
    hide Off, Flow, Widest, FitBottom;
    FlowWithin(kids, f, FirstRow(kids, f));
    if !Off(kids[i], f) {
      KeptWithin(kids, f, i);
      FlowPlaced(kids, f, FirstRow(kids, f));
    }
  }

  /** How much of the width a reflowed dialog is given is inside its borders. */
  function InnerWidth(kids: seq<Kid>, f: Frame): int {
    Min(f.avail, Flowed(kids, f).1.widest + DLG_MARGIN + 2 * (f.orgX - f.left)) - 2 * (f.orgX - f.left)
  }

  predicate Enclosed(kids: seq<Kid>, f: Frame) {
    forall i :: 0 <= i < |kids| ==> Flowed(kids, f).0[i].x + Flowed(kids, f).0[i].cx - f.orgX <= InnerWidth(kids, f)
  }

  /** How far right the controls that move end up. */
  function MovedReach(kids: seq<Kid>, done: seq<Kid>, f: Frame): (reach: int)
    requires |done| == |kids|
    decreases |kids|
  {
    if kids == [] then 0
    else
      var n := |kids| - 1;
      var before := MovedReach(kids[..n], done[..n], f);
      if Off(kids[n], f) then Max(before, done[n].x + done[n].cx - f.orgX) else before
  }

  lemma {:induction false} ReachIs(kids: seq<Kid>, done: seq<Kid>, f: Frame, most: int)
    requires |done| == |kids| && most >= 0
    requires forall i :: 0 <= i < |kids| && !Off(kids[i], f) ==> done[i] == kids[i]
    ensures Max(Widest(kids, f), MovedReach(kids, done, f)) <= most
       <==> forall i :: 0 <= i < |kids| ==> done[i].x + done[i].cx - f.orgX <= most
    decreases |kids|
  {
    hide Off;
    if kids != [] {
      var n := |kids| - 1;
      assert forall i :: 0 <= i < n ==> kids[..n][i] == kids[i] && done[..n][i] == done[i];
      ReachIs(kids[..n], done[..n], f, most);
    }
  }

  /** The width the dialog is given takes in every control exactly when the widest mark is not cut to the
      width there is, or the controls end left of the cut all the same. */
  lemma EnclosedExactly(kids: seq<Kid>, f: Frame)
    requires 2 * (f.orgX - f.left) <= f.avail
    ensures var border := 2 * (f.orgX - f.left);
      var (done, r) := Flowed(kids, f);
      Enclosed(kids, f)
      <==> r.widest + border <= f.avail || Max(Widest(kids, f), MovedReach(kids, done, f)) + border <= f.avail
  {
    hide Off, Flow, Widest, FitBottom, MovedReach, Enclosed;
    var (done, r) := Flowed(kids, f);
    var border := 2 * (f.orgX - f.left);
    FlowPlaced(kids, f, FirstRow(kids, f));
    FlowWithin(kids, f, FirstRow(kids, f));
    WidestPositive(kids, f);
    forall i | 0 <= i < |kids|
      ensures done[i].x + done[i].cx - f.orgX <= r.widest
    {
      WidestBounds(kids, f, i);
    }
    EnclosedIs(kids, f);
    ReachIs(kids, done, f, f.avail - border);
  }

  lemma EnclosedIs(kids: seq<Kid>, f: Frame)
    ensures var (done, r) := Flowed(kids, f);
      Enclosed(kids, f) <==> forall i :: 0 <= i < |kids| ==> done[i].x + done[i].cx - f.orgX <= InnerWidth(kids, f)
  {
    hide Flow, FirstRow;
  }

  lemma {:induction false} WidestPositive(kids: seq<Kid>, f: Frame)
    ensures Widest(kids, f) >= 0
    decreases |kids|
  {
    if kids != [] {
      WidestPositive(kids[..|kids| - 1], f);
    }
  }

  /** For a border of at most half a margin and controls that fit a row, only the controls that stay
      decide, and they can be asked before anything moves. */
  lemma EnclosedByKept(kids: seq<Kid>, f: Frame)
    requires Fitting(kids, f) && 0 <= 2 * (f.orgX - f.left) <= DLG_MARGIN && 2 * (f.orgX - f.left) <= f.avail
    ensures Enclosed(kids, f) <==> Widest(kids, f) + 2 * (f.orgX - f.left) <= f.avail
  {
    hide Off, Flow, Widest, FitBottom, Enclosed, Fitting, MovedReach;
    var first, border := FirstRow(kids, f), 2 * (f.orgX - f.left);
    var (done, r) := Flowed(kids, f);
    FlowPlaced(kids, f, first);
    FlowWithin(kids, f, first);
    WidestPositive(kids, f);
    MovedInside(kids, f, first);
    EnclosedIs(kids, f);
    forall i | 0 <= i < |kids| && !Off(kids[i], f)
      ensures done[i].x + done[i].cx - f.orgX <= Widest(kids, f)
    {
      KeptWithin(kids, f, i);
    }
    WidestReached(kids, f, f.avail - border);
  }

  /** The widest mark of the controls that stay is one of them. */
  lemma {:induction false} WidestReached(kids: seq<Kid>, f: Frame, most: int)
    requires most >= 0
    ensures Widest(kids, f) > most ==>
      exists i :: 0 <= i < |kids| && !Off(kids[i], f) && kids[i].x + kids[i].cx - f.orgX > most
    decreases |kids|
  {
    hide Off;
    if kids != [] && Widest(kids, f) > most {
      var n := |kids| - 1;
      WidestReached(kids[..n], f, most);
      if Widest(kids[..n], f) > most {
        var i :| 0 <= i < n && !Off(kids[..n][i], f) && kids[..n][i].x + kids[..n][i].cx - f.orgX > most;
        assert kids[i] == kids[..n][i];
      }
    }
  }

  /** A control that stays can end under the right border of the dialog it is left in. */
  lemma KeptPastBorder()
    ensures var f := Frame(0, 0, 4, 20, 336);
      var kids := [Kid(300, 30, 36, 20, false), Kid(340, 30, 50, 20, true)];
      Movable(kids, f) && !Off(kids[0], f) && !Enclosed(kids, f)
  {
    var f := Frame(0, 0, 4, 20, 336);
    var kids := [Kid(300, 30, 36, 20, false), Kid(340, 30, 50, 20, true)];
    assert Off(kids[1], f);
    assert Fitting(kids, f);
    EnclosedByKept(kids, f);
    KeptWithin(kids, f, 0);
  }

  /** Each control that moves has some height and is no wider than a row. */
  predicate Fitting(kids: seq<Kid>, f: Frame) {
    forall i :: 0 <= i < |kids| && Off(kids[i], f) ==> kids[i].cy > 0 && kids[i].cx <= f.avail - 2 * DLG_MARGIN
  }

  /** A control goes into the row as it stands after those before it, or starts the next. */
  lemma {:induction false} PlaceOf(kids: seq<Kid>, f: Frame, first: Row, j: nat)
    requires j < |kids| && Off(kids[j], f)
    ensures var t := Turned(Flow(kids[..j], f, first).1, kids[j], f);
      Flow(kids, f, first).0[j] == kids[j].(x := t.x, y := t.y)
    decreases |kids|
  {
    hide Off, Turned, Filled, Flow;
    FlowStep(kids, f, first);
    var n := |kids| - 1;
    if j < n {
      PlaceOf(kids[..n], f, first, j);
      assert kids[..n][..j] == kids[..j];
    }
  }

  /** A control that moves passes the right margin exactly when it is too wide for any row, or would pass
      it in the row being filled and does not start the next because nothing in that row has height. */
  lemma MovedPastExactly(kids: seq<Kid>, f: Frame, j: nat)
    requires j < |kids| && Off(kids[j], f)
    ensures var r := Flow(kids[..j], f, FirstRow(kids, f)).1;
      Flowed(kids, f).0[j].x - f.orgX + kids[j].cx > f.avail - DLG_MARGIN
      <==> || kids[j].cx > f.avail - 2 * DLG_MARGIN
           || (r.h == 0 && r.x - f.orgX + kids[j].cx > f.avail - DLG_MARGIN)
  {
    hide Off, Flow, FitBottom, Widest, Placed;
    var first := FirstRow(kids, f);
    PlaceOf(kids, f, first, j);
    FlowPlaced(kids[..j], f, first);
    RowStarts(kids[..j], f, first);
  }

  lemma RowStarts(kids: seq<Kid>, f: Frame, first: Row)
    requires Placed(kids, Flow(kids, f, first).0, Flow(kids, f, first).1, f, first.y)
    ensures Flow(kids, f, first).1.x >= f.orgX + DLG_MARGIN
  {}

  predicate RowInside(r: Row, f: Frame) {
    if r.h == 0 then r.x == f.orgX + DLG_MARGIN else r.x - DLG_GAP - f.orgX <= f.avail - DLG_MARGIN
  }

  /** So none does when each has some height and fits a row. */
  lemma {:induction false} MovedInside(kids: seq<Kid>, f: Frame, first: Row)
    requires Fitting(kids, f) && RowInside(first, f)
    ensures var (done, r) := Flow(kids, f, first);
      && RowInside(r, f)
      && forall i :: 0 <= i < |kids| && Off(kids[i], f) ==> done[i].x - f.orgX + done[i].cx <= f.avail - DLG_MARGIN
    decreases |kids|
  {
    hide Off, Flow;
    if kids == [] {
      FlowNone(f, first);
    } else {
      var n := |kids| - 1;
      assert forall i :: 0 <= i < n ==> kids[..n][i] == kids[i];
      FlowStep(kids, f, first);
      MovedInside(kids[..n], f, first);
    }
  }

  /** A control without height does not count as filling its row, and the next can pass the margin. */
  lemma FlatControlsOverflow()
    ensures var f := Frame(0, 0, 0, 0, 100);
      var kids := [Kid(200, 0, 60, 0, true), Kid(300, 0, 60, 20, true)];
      var done := Flowed(kids, f).0;
      && (forall i :: 0 <= i < |kids| ==> kids[i].cx <= f.avail - 2 * DLG_MARGIN)
      && done[1].x - f.orgX + done[1].cx > f.avail - DLG_MARGIN
  {
    var f := Frame(0, 0, 0, 0, 100);
    var a, b := Kid(200, 0, 60, 0, true), Kid(300, 0, 60, 20, true);
    var kids := [a, b];
    assert kids[..1] == [a] && [a][..0] == [];
    var first := FirstRow(kids, f);
    FlowNone(f, first);
    FlowStep([a], f, first);
    FlowStep(kids, f, first);
    assert first.x == 8 && first.h == 0;
  }

  /** A control starts a new row only when it would have passed the margin. */
  lemma {:induction false} RowsAreFull(kids: seq<Kid>, f: Frame, first: Row, j: nat)
    requires j < |kids| && Off(kids[j], f)
    ensures var (before, r) := Flow(kids[..j], f, first);
      var done := Flow(kids, f, first).0;
      && ((done[j].y == r.y && done[j].x == r.x)
          || (done[j].y == r.y + r.h + DLG_GAP && done[j].x == f.orgX + DLG_MARGIN
              && r.h != 0 && r.x - f.orgX + kids[j].cx > f.avail - DLG_MARGIN))
    decreases |kids|
  {
    var n := |kids| - 1;
    if j < n {
      RowsAreFull(kids[..n], f, first, j);
      assert kids[..n][..j] == kids[..j];
    }
  }

  // ---------------------------------------------------------------- the dialog

  class Dialog {
    /** The frame: left and top edge, width and height. */
    var left: int
    var top: int
    var width: int
    var height: int
    const orgX: int
    const orgY: int
    var kids: seq<Kid>

    function FrameFor(screenW: int): Frame
      reads this
    {
      Frame(left, top, orgX, orgY, screenW - 2 * DLG_MARGIN)
    }

    constructor (left: int, top: int, width: int, height: int, orgX: int, orgY: int, kids: seq<Kid>)
      ensures this.left == left && this.top == top && this.width == width && this.height == height
      ensures this.orgX == orgX && this.orgY == orgY && this.kids == kids
    {
      this.left, this.top, this.width, this.height := left, top, width, height;
      this.orgX, this.orgY, this.kids := orgX, orgY, kids;
    }

    /** Moves what falls off the edge into rows underneath, and grows the dialog around it. A dialog that
        fits, or that something other than a button falls off, stays as it is. */
    method ReflowDialog(screenW: int) returns (done: bool)
      modifies this
      ensures done <==> old(width) > screenW - 16 && Movable(old(kids), old(FrameFor(screenW)))
      ensures !done ==>
        kids == old(kids) && left == old(left) && top == old(top) && width == old(width) && height == old(height)
      ensures done ==>
        var f := old(FrameFor(screenW));
        var (placed, r) := Flowed(old(kids), f);
        && kids == placed && top == old(top) && left == 8
        && width == Min(screenW - 16, r.widest + 8 + 2 * (orgX - old(left)))
        && top + height == r.y + r.h + 8 + (orgX - old(left))
    {
      hide Off, Flow, FitBottom, Widest;
      var avail := screenW - 2 * DLG_MARGIN;
      if width <= avail {
        return false;
      }
      var f := Frame(left, top, orgX, orgY, avail);
      var ok := OnlyButtons(kids, f);
      if !ok {
        return false;
      }
      var now, r := FillRows(kids, f);
      if r.moved == 0 {
        return false;
      }
      var newW := r.widest + DLG_MARGIN + 2 * (orgX - left);
      var newH := (r.y + r.h - orgY) + DLG_MARGIN + (orgY - top) + (orgX - left);
      if newW > avail {
        newW := avail;
      }
      kids, left, width, height := now, DLG_MARGIN, newW, newH;
      done := true;
    }
  }

  /** Whether nothing but buttons falls off. */
  method OnlyButtons(kids: seq<Kid>, f: Frame) returns (ok: bool)
    ensures ok <==> forall i :: 0 <= i < |kids| && Off(kids[i], f) ==> kids[i].button
  {
    hide Off;
    var i := 0;
    while i < |kids|
      invariant 0 <= i <= |kids| && forall k :: 0 <= k < i && Off(kids[k], f) ==> kids[k].button
    {
      if Off(kids[i], f) && !kids[i].button {
        return false;
      }
      i := i + 1;
    }
    ok := true;
  }

  /** The rows underneath, filled in order. */
  method FillRows(kids: seq<Kid>, f: Frame) returns (now: seq<Kid>, r: Row)
    ensures (now, r) == Flowed(kids, f)
    ensures r.moved > 0 <==> exists k :: 0 <= k < |kids| && Off(kids[k], f)
  {
    hide Off, Turned, Filled, Flow, FitBottom, Widest;
    var fitBottom, widest := Fitted(kids, f);
    r := Row(f.orgX + DLG_MARGIN, fitBottom + DLG_GAP, 0, widest, 0);
    ghost var first := r;
    now := [];
    var i := 0;
    FlowNone(f, first);
    assert kids[..0] == [];
    while i < |kids|
      invariant 0 <= i <= |kids|
      invariant (now, r) == Flow(kids[..i], f, first)
      invariant r.moved > 0 <==> exists k :: 0 <= k < i && Off(kids[k], f)
    {
      assert kids[..i + 1][..i] == kids[..i] && kids[..i + 1][i] == kids[i];
      FlowStep(kids[..i + 1], f, first);
      if Off(kids[i], f) {
        FilledMoves(r, kids[i], f);
        r := Turned(r, kids[i], f);
        now := now + [kids[i].(x := r.x, y := r.y)];
        r := Filled(r, kids[i], f);
      } else {
        now := now + [kids[i]];
      }
      i := i + 1;
    }
    assert kids[..i] == kids;
  }

  lemma FilledMoves(r: Row, k: Kid, f: Frame)
    ensures Turned(r, k, f).moved == r.moved && Filled(Turned(r, k, f), k, f).moved == r.moved + 1
  {}

  /** What the controls that stay need. */
  method Fitted(kids: seq<Kid>, f: Frame) returns (bottom: int, widest: int)
    ensures bottom == FitBottom(kids, f) && widest == Widest(kids, f)
  {
    bottom, widest := f.orgY, 0;
    var i := 0;
    while i < |kids|
      invariant 0 <= i <= |kids| && bottom == FitBottom(kids[..i], f) && widest == Widest(kids[..i], f)
    {
      assert kids[..i + 1][..i] == kids[..i];
      if !Off(kids[i], f) {
        if kids[i].y + kids[i].cy > bottom { bottom := kids[i].y + kids[i].cy; }
        if kids[i].x + kids[i].cx - f.orgX > widest { widest := kids[i].x + kids[i].cx - f.orgX; }
      }
      i := i + 1;
    }
    assert kids[..i] == kids;
  }

  // ---------------------------------------------------------------- in numbers

  /** One control that stays and two that fall off: they go under it, eight from the edge and six apart, the
      second next to the first if it ends eight from the other edge, and else six under it. */
  lemma TwoButtons(f: Frame, k: Kid, a: Kid, b: Kid)
    requires k.x + k.cx <= f.left + f.avail && a.x + a.cx > f.left + f.avail && b.x + b.cx > f.left + f.avail
    requires a.cy > 0 && f.orgY <= k.y + k.cy && f.orgX <= k.x + k.cx
    ensures var fits := 8 + a.cx + 6 + b.cx <= f.avail - 8;
      var under := k.y + k.cy + 6;
      var (done, r) := Flowed([k, a, b], f);
      && done == [k, a.(x := f.orgX + 8, y := under),
                  if fits then b.(x := f.orgX + 8 + a.cx + 6, y := under)
                  else b.(x := f.orgX + 8, y := under + a.cy + 6)]
      && r.moved == 2
      && r.y + r.h == (if fits then under + Max(a.cy, b.cy) else under + a.cy + 6 + b.cy)
      && r.widest == Max(k.x + k.cx - f.orgX,
                         if fits then 8 + a.cx + 6 + b.cx + 6 else Max(8 + a.cx + 6, 8 + b.cx + 6))
  {
    var ks := [k, a, b];
    assert ks[..2] == [k, a] && ks[..2][..1] == [k] && [k, a][..1] == [k] && [k][..0] == [];
    LowestOf(f, k, a, b);
    var first := FirstRow(ks, f);
    hide FirstRow, FitBottom, Widest;
    FlowStep([k], f, first);
    FlowStep([k, a], f, first);
    FlowStep(ks, f, first);
    FlowNone(f, first);
  }

  lemma LowestOf(f: Frame, k: Kid, a: Kid, b: Kid)
    requires k.x + k.cx <= f.left + f.avail && a.x + a.cx > f.left + f.avail && b.x + b.cx > f.left + f.avail
    requires f.orgY <= k.y + k.cy && f.orgX <= k.x + k.cx
    ensures FirstRow([k, a, b], f) == Row(f.orgX + 8, k.y + k.cy + 6, 0, k.x + k.cx - f.orgX, 0)
  {
    var ks := [k, a, b];
    assert ks[..2] == [k, a] && [k, a][..1] == [k] && [k][..0] == [];
    assert FitBottom([k], f) == k.y + k.cy && Widest([k], f) == k.x + k.cx - f.orgX;
    assert FitBottom([k, a], f) == FitBottom([k], f) && Widest([k, a], f) == Widest([k], f);
  }
}
