/**
 Application columns (guest/pvmon/pvmon.c): the slot table over births and deaths of windows, and parking
 each application inside the columns its slot names.
 */
module Slots {
  import opened Bytes
  import opened Rects

  const MAX_SLOTS := 4

  /** 0 is no window. */
  type Handle = nat

  /** A top-level window: whether it can be seen, how it may be sized, and where it is. `restored` is
      where it goes when it stops being maximised; `maxH` is how tall its program may be. */
  datatype Window = Window(
    dead: bool, visible: bool, fixed: bool, keepList: bool, zoomed: bool,
    rect: Rect, restored: Rect, maxH: int)

  /** The windows there are. */
  type World = map<Handle, Window>

  /** The sizes of the phone's shell column and of the screen behind it. */
  datatype Metrics = Metrics(shellW: nat, shellH: nat, realH: nat)

  // ---------------------------------------------------------------- slots

  type Table = t: seq<Handle> | |t| == MAX_SLOTS witness [0, 0, 0, 0]

  predicate Gone(ws: World, h: Handle) { h == 0 || h !in ws || ws[h].dead || !ws[h].visible }

  /** A window holds no slot, one, or two next to each other. */
  predicate Tidy(t: Table) {
    forall i, j :: 0 <= i < j < MAX_SLOTS && t[i] == t[j] && t[i] != 0 ==> j == i + 1
  }

  function Index(t: Table, h: Handle, from: nat): int
    decreases MAX_SLOTS - from
  {
    if from >= MAX_SLOTS then -1 else if t[from] == h then from else Index(t, h, from + 1)
  }

  function FreeFrom(t: Table, ws: World, from: nat): int
    decreases MAX_SLOTS - from
  {
    if from >= MAX_SLOTS then -1 else if Gone(ws, t[from]) then from else FreeFrom(t, ws, from + 1)
  }

  function PairFrom(t: Table, ws: World, from: nat): int
    decreases MAX_SLOTS - from
  {
    if from + 1 >= MAX_SLOTS then -1
    else if Gone(ws, t[from]) && Gone(ws, t[from + 1]) then from
    else PairFrom(t, ws, from + 1)
  }

  /** A window that is laid out once and is wider than a column. */
  predicate Wide(ws: World, h: Handle) {
    h in ws && ws[h].rect.right - ws[h].rect.left > SLOT_W && ws[h].fixed
  }

  /** The slot a window has or is given, and the table afterwards. */
  function Assigned(t: Table, ws: World, h: Handle): (r: (int, Table)) {
    var have := Index(t, h, 0);
    if have >= 0 then (have, t)
    else
      var pair := PairFrom(t, ws, 0);
      IndexIs(t, h, 0);
      PairIs(t, ws, 0);
      FreeIs(t, ws, 0);
      if Wide(ws, h) && pair >= 0 then (pair, t[pair := h][pair + 1 := h])
      else
        var free := FreeFrom(t, ws, 0);
        if free < 0 then (-1, t) else (free, t[free := h])
  }

  lemma {:induction false} IndexIs(t: Table, h: Handle, from: nat)
    requires from <= MAX_SLOTS
    ensures var i := Index(t, h, from);
      if i < 0 then i == -1 && forall k :: from <= k < MAX_SLOTS ==> t[k] != h
      else from <= i < MAX_SLOTS && t[i] == h && forall k :: from <= k < i ==> t[k] != h
    decreases MAX_SLOTS - from
  {
    if from < MAX_SLOTS && t[from] != h {
      IndexIs(t, h, from + 1);
    }
  }

  lemma {:induction false} FreeIs(t: Table, ws: World, from: nat)
    requires from <= MAX_SLOTS
    ensures var i := FreeFrom(t, ws, from);
      if i < 0 then i == -1 && forall k :: from <= k < MAX_SLOTS ==> !Gone(ws, t[k])
      else from <= i < MAX_SLOTS && Gone(ws, t[i]) && forall k :: from <= k < i ==> !Gone(ws, t[k])
    decreases MAX_SLOTS - from
  {
    if from < MAX_SLOTS && !Gone(ws, t[from]) {
      FreeIs(t, ws, from + 1);
    }
  }

  lemma {:induction false} PairIs(t: Table, ws: World, from: nat)
    requires from < MAX_SLOTS
    ensures var i := PairFrom(t, ws, from);
      if i < 0 then i == -1 && forall k :: from <= k < MAX_SLOTS - 1 ==> !Gone(ws, t[k]) || !Gone(ws, t[k + 1])
      else from <= i < MAX_SLOTS - 1 && Gone(ws, t[i]) && Gone(ws, t[i + 1])
    ensures forall k :: from <= k < PairFrom(t, ws, from) ==> !Gone(ws, t[k]) || !Gone(ws, t[k + 1])
    decreases MAX_SLOTS - from
  {
    if from + 1 < MAX_SLOTS && !(Gone(ws, t[from]) && Gone(ws, t[from + 1])) {
      PairIs(t, ws, from + 1);
    }
  }

  ghost predicate PairFree(t: Table, ws: World) {
    exists k :: 0 <= k < MAX_SLOTS - 1 && Gone(ws, t[k]) && Gone(ws, t[k + 1])
  }

  /** Giving out a slot: a window is refused only when it has none and none is free; it never takes a slot
      from a window that can be seen; it gets two only next to each other; it gets the first there are; and
      nobody else's slots move. */
  lemma AssignedFacts(t: Table, ws: World, h: Handle)
    requires Tidy(t) && h != 0
    ensures var (slot, t') := Assigned(t, ws, h);
      && Tidy(t')
      && (slot < 0 <==> h !in t && forall k :: 0 <= k < MAX_SLOTS ==> !Gone(ws, t[k]))
      && (slot < 0 ==> t' == t)
      && (slot >= 0 ==> slot < MAX_SLOTS && t'[slot] == h && forall k :: 0 <= k < slot ==> t'[k] != h)
      && (forall k :: 0 <= k < MAX_SLOTS ==> t'[k] == t[k] || (t'[k] == h && Gone(ws, t[k])))
      && (h in t ==> t' == t)
      && (slot >= 0 && h !in t && Wide(ws, h) && PairFree(t, ws) ==>
            Double(t', h, slot) && forall k :: 0 <= k < slot ==> !Gone(ws, t[k]) || !Gone(ws, t[k + 1]))
      && (slot >= 0 && h !in t && !(Wide(ws, h) && PairFree(t, ws)) ==> forall k :: 0 <= k < slot ==> !Gone(ws, t[k]))
  {
    hide Index, PairFrom, FreeFrom, Gone, Wide;
    IndexIs(t, h, 0);
    PairIs(t, ws, 0);
    FreeIs(t, ws, 0);
  }

  predicate Double(t: Table, h: Handle, slot: int) {
    slot >= 0 && slot + 1 < MAX_SLOTS && t[slot + 1] == h
  }

  // ---------------------------------------------------------------- parking

  function Left(slot: int): int { SLOT_W * (slot + 1) }

  /** How many columns' width a window has to itself. */
  function ColumnW(w: Window, double: bool): nat { if w.fixed && double then 2 * SLOT_W else SLOT_W }

  function MaxW(w: Window, double: bool, m: Metrics): nat {
    if w.fixed then ColumnW(w, double) else if w.keepList then SLOT_W else m.shellW
  }

  function MaxH(w: Window, m: Metrics): int { if w.fixed then m.realH else Min(m.shellH, w.maxH) }

  /** Where a window with a slot goes. */
  function Parked(w: Window, slot: int, double: bool, m: Metrics): Window {
    var x, colW, maxW, maxH := Left(slot), ColumnW(w, double), MaxW(w, double, m), MaxH(w, m);
    if w.zoomed then
      if Width(w.rect) <= maxW && Height(w.rect) <= maxH && w.rect.left >= x && w.rect.right <= x + colW then w
      else
        var own := w.fixed || w.keepList;
        w.(zoomed := false,
           rect := At(x, 0, if own then Min(Width(w.restored), maxW) else maxW,
                            if own then Min(Height(w.restored), maxH) else maxH))
    else if Width(w.rect) > maxW || Height(w.rect) > maxH then
      w.(rect := At(x, 0, Min(Width(w.rect), maxW), Min(Height(w.rect), maxH)))
    else if w.rect.left != x || w.rect.top < 0 then
      w.(rect := At(x, 0, Width(w.rect), Height(w.rect)))
    else w
  }

  /** Parking makes the window no wider than its columns: always one that keeps its width or the list's, and
      any other only under a shell column, whose width is a setting, that is no wider either. */
  predicate Narrow(w: Window, m: Metrics) { w.fixed || w.keepList || m.shellW <= SLOT_W }

  predicate InColumn(r: Rect, slot: int, w: Window, double: bool) {
    Left(slot) <= r.left && r.right <= Left(slot) + ColumnW(w, double)
  }

  /** A parked window is inside its own columns if it may be no wider, and only its place and size have
      changed. */
  lemma ParkedInside(w: Window, slot: int, double: bool, m: Metrics)
    ensures var p := Parked(w, slot, double, m);
      && (Narrow(w, m) ==> InColumn(p.rect, slot, w, double))
      && (InColumn(p.rect, slot, w, double) <==> Width(p.rect) <= ColumnW(w, double))
      && p.fixed == w.fixed && p.keepList == w.keepList && p.dead == w.dead && p.visible == w.visible
  {}

  /** Every window is parked inside its columns exactly when the shell column is set no wider than one of
      theirs. */
  lemma ParksInsideExactly(m: Metrics)
    ensures (forall w: Window, slot: int, double: bool :: InColumn(Parked(w, slot, double, m).rect, slot, w, double))
       <==> m.shellW <= SLOT_W
  {
    hide Parked, InColumn;
    if m.shellW <= SLOT_W {
      forall w: Window, slot: int, double: bool
        ensures InColumn(Parked(w, slot, double, m).rect, slot, w, double)
      {
        ParkedInside(w, slot, double, m);
      }
    } else {
      var w := Window(false, true, false, false, true, At(0, 0, 0, 0), At(0, 0, 0, 0), 0);
      WidePasses(w, m);
      assert !InColumn(Parked(w, 0, false, m).rect, 0, w, false);
    }
  }

  /** A maximised window in the shell's corner is brought to its column as wide as the shell's. */
  lemma WidePasses(w: Window, m: Metrics)
    requires m.shellW > SLOT_W && w.zoomed && !w.fixed && !w.keepList && w.rect == At(0, 0, 0, 0)
    ensures !InColumn(Parked(w, 0, false, m).rect, 0, w, false)
  {}

  /** A window is never left larger than it may be, and never made any other size than its own cut to what
      it may be; one that is maximised past its limits gets its size from where it is restored to. */
  lemma ParkedSize(w: Window, slot: int, double: bool, m: Metrics)
    ensures var p, maxW, maxH := Parked(w, slot, double, m), MaxW(w, double, m), MaxH(w, m);
      && Width(p.rect) <= maxW && Height(p.rect) <= maxH
      && (!w.zoomed ==> Width(p.rect) == Min(Width(w.rect), maxW) && Height(p.rect) == Min(Height(w.rect), maxH))
      && (w.zoomed && p != w ==> !p.zoomed)
      && (w.zoomed && p != w && (w.fixed || w.keepList) ==>
            Width(p.rect) == Min(Width(w.restored), maxW) && Height(p.rect) == Min(Height(w.restored), maxH))
      && (w.zoomed && p != w && !(w.fixed || w.keepList) ==> Width(p.rect) == maxW && Height(p.rect) == maxH)
      && (p != w ==> p.rect.left == Left(slot) && p.rect.top == 0)
  {}

  /** Parking a parked window leaves it where it is. */
  lemma ParkedTwice(w: Window, slot: int, double: bool, m: Metrics)
    ensures Parked(Parked(w, slot, double, m), slot, double, m) == Parked(w, slot, double, m)
  {}

  /** The window is inside the columns the table gives it. */
  predicate InColumns(t: Table, ws: World, h: Handle) {
    h in ws && (
      var slot := Index(t, h, 0);
      slot >= 0 ==>
        && Left(slot) <= ws[h].rect.left
        && ws[h].rect.right <= Left(slot) + ColumnW(ws[h], Double(t, h, slot)))
  }

  /** It is, unless it may be wider than they are. */
  predicate Fits(t: Table, ws: World, h: Handle, m: Metrics) {
    h in ws && (Narrow(ws[h], m) ==> InColumns(t, ws, h))
  }

  /** Windows inside their columns do not overlap. */
  lemma ColumnsDisjoint(t: Table, ws: World, a: Handle, b: Handle)
    requires Tidy(t) && a != b && a in t && b in t && a != 0 && b != 0
    requires InColumns(t, ws, a) && InColumns(t, ws, b)
    ensures ws[a].rect.right <= ws[b].rect.left || ws[b].rect.right <= ws[a].rect.left
  {
    hide Index;
    IndexIs(t, a, 0);
    IndexIs(t, b, 0);
  }

  // ---------------------------------------------------------------- the guest agent

  /** A window of the layer list, and whether it is an application that is not minimised. */
  datatype Listed = Listed(h: Handle, app: bool)

  predicate Listing(ls: seq<Listed>, ws: World) {
    && (forall i :: 0 <= i < |ls| ==> !Gone(ws, ls[i].h))
    && forall i, j :: 0 <= i < j < |ls| ==> ls[i].h != ls[j].h
  }

  class Agent {
    const slots: array<Handle>
    var windows: World
    const m: Metrics

    ghost predicate Valid()
      reads this, slots
    {
      slots.Length == MAX_SLOTS && Tidy(slots[..])
    }

    constructor (m: Metrics)
      ensures Valid() && this.m == m && fresh(slots) && windows == map[]
      ensures slots[..] == [0, 0, 0, 0]
    {
      this.m := m;
      slots := new Handle[MAX_SLOTS](_ => 0);
      windows := map[];
      new;
      assert slots[..] == [0, 0, 0, 0];
    }

    method SlotOf(h: Handle) returns (slot: int)
      requires Valid() && h != 0
      modifies slots
      ensures Valid()
      ensures (slot, slots[..]) == Assigned(old(slots[..]), windows, h)
    {
      hide Gone, Tidy, Wide;
      ghost var t: Table := slots[..];
      AssignedFacts(t, windows, h);
      var i := 0;
      while i < MAX_SLOTS
        invariant 0 <= i <= MAX_SLOTS && Index(t, h, 0) == Index(t, h, i)
      {
        if slots[i] == h {
          return i;
        }
        i := i + 1;
      }
      if Wide(windows, h) {
        i := 0;
        while i < MAX_SLOTS - 1
          invariant 0 <= i <= MAX_SLOTS - 1 && PairFrom(t, windows, 0) == PairFrom(t, windows, i)
        {
          if Gone(windows, slots[i]) && Gone(windows, slots[i + 1]) {
            slots[i], slots[i + 1] := h, h;
            assert slots[..] == t[i := h][i + 1 := h];
            return i;
          }
          i := i + 1;
        }
      }
      slot, i := -1, 0;
      while i < MAX_SLOTS
        invariant 0 <= i <= MAX_SLOTS
        invariant slot == -1 ==> FreeFrom(t, windows, 0) == FreeFrom(t, windows, i)
        invariant slot != -1 ==> slot >= 0 && slot == FreeFrom(t, windows, 0)
      {
        if slot < 0 && Gone(windows, slots[i]) {
          slot := i;
        }
        i := i + 1;
      }
      if slot >= 0 {
        FreeIs(t, windows, 0);
        slots[slot] := h;
        assert slots[..] == t[slot := h];
      }
    }

    method Park(h: Handle, slot: int)
      requires Valid() && h in windows && 0 <= slot < MAX_SLOTS
      modifies this`windows
      ensures windows == old(windows)[h := Parked(old(windows)[h], slot, Double(slots[..], h, slot), m)]
    {
      var w := windows[h];
      var slotX := SLOT_W * (slot + 1);
      var double := slot + 1 < MAX_SLOTS && slots[slot + 1] == h;
      var colW := if w.fixed && double then 2 * SLOT_W else SLOT_W;
      var maxW := if w.fixed then colW else if w.keepList then SLOT_W else m.shellW;
      var maxH := if w.fixed then m.realH else Min(m.shellH, w.maxH);
      var rc := w.rect;
      if w.zoomed {
        if !(Width(rc) <= maxW && Height(rc) <= maxH && rc.left >= slotX && rc.right <= slotX + colW) {
          rc := w.restored;
          var own := w.fixed || w.keepList;
          var width := if own then Min(Width(rc), maxW) else maxW;
          var height := if own then Min(Height(rc), maxH) else maxH;
          w := w.(zoomed := false, rect := At(slotX, 0, width, height));
        }
      } else if Width(rc) > maxW || Height(rc) > maxH {
        w := w.(rect := At(slotX, 0, Min(Width(rc), maxW), Min(Height(rc), maxH)));
      } else if rc.left != slotX || rc.top < 0 {
        w := w.(rect := At(slotX, 0, Width(rc), Height(rc)));
      }
      windows := windows[h := w];
    }

    /** One look at the layer list: every window is given its slot, and every application is parked in it. */
    method ParkAll(ls: seq<Listed>)
      requires Valid() && Listing(ls, windows)
      modifies this`windows, slots
      ensures Valid() && SameLife(old(windows), windows)
      ensures Kept(old(slots[..]), slots[..], old(windows))
      ensures forall i :: 0 <= i < |ls| && ls[i].app ==> Fits(slots[..], windows, ls[i].h, m)
      ensures forall i :: 0 <= i < |ls| ==> Housed(slots[..], windows, ls[i].h)
      ensures forall i :: 0 <= i < |ls| && ls[i].app ==> Settled(slots[..], old(windows), windows, ls[i].h, m)
      ensures windows.Keys == old(windows).Keys
      ensures forall h :: h in windows && windows[h] != old(windows)[h] ==>
        exists i :: 0 <= i < |ls| && ls[i].app && ls[i].h == h
    {
      hide Gone, Fits, Assigned, Parked, Tidy, Housed, Settled, SameLife, Kept, Listing;
      ListingIs(ls, windows);
      ghost var t0: Table, ws0 := slots[..], windows;
      KeptItself(t0, ws0);
      var i := 0;
      while i < |ls|
        invariant 0 <= i <= |ls| && Valid() && SameLife(ws0, windows) && Listing(ls, windows)
        invariant Kept(t0, slots[..], ws0)
        invariant forall k :: 0 <= k < i && ls[k].app ==> Fits(slots[..], windows, ls[k].h, m)
        invariant windows.Keys == ws0.Keys
        invariant forall k :: 0 <= k < i ==> Housed(slots[..], windows, ls[k].h)
        invariant forall k :: 0 <= k < i && ls[k].app ==> Settled(slots[..], ws0, windows, ls[k].h, m)
        invariant forall h :: h in windows && windows[h] != ws0[h] ==>
          exists k :: 0 <= k < i && ls[k].app && ls[k].h == h
      {
        var h := ls[i].h;
        ghost var t: Table, ws := slots[..], windows;
        ListingIs(ls, ws);
        LiveHandle(ws, h);
        AssignedFacts(t, ws, h);
        var slot := SlotOf(h);
        ghost var t': Table := slots[..];
        forall k | 0 <= k < i && ls[k].app
          ensures Fits(t', ws, ls[k].h, m) && Settled(t', ws0, ws, ls[k].h, m)
        {
          assert !Gone(ws, ls[k].h);
          ColumnsStay(t, t', ws, ls[k].h, h, m);
          SettledStays(t, t', ws0, ws, ls[k].h, h, m);
        }
        forall k | 0 <= k < i
          ensures Housed(t', ws, ls[k].h)
        {
          HousedStays(t, t', ws, ls[k].h, h);
        }
        HousedHere(t, t', ws, h, slot);
        KeptMore(t0, t, t', ws0, ws, h);
        if ls[i].app {
          if slot >= 0 {
            ParkedHere(t', ws, h, slot, m);
            Park(h, slot);
            LifeKept(ws0, ws, windows, ls, h);
            SettledHere(t', ws0, ws, windows, h, slot, m);
            forall k | 0 <= k < i && ls[k].app
              ensures Fits(t', windows, ls[k].h, m) && Settled(t', ws0, windows, ls[k].h, m)
            {
              LiveHandle(ws, ls[k].h);
              OthersStay(t', ws, windows, ls[k].h, h, m);
              OthersSettled(t', ws0, ws, windows, ls[k].h, m);
            }
            forall k | 0 <= k < i + 1
              ensures Housed(t', windows, ls[k].h)
            {
              HousedStill(t', ws, windows, ls[k].h);
            }
          } else {
            NoColumns(t', ws, h, m);
            NotSettled(t', ws0, ws, h, m);
          }
        }
        i := i + 1;
      }
    }

    /** Over any number of looks, with anything happening to the windows in between: no window ever holds
        slots that are not next to each other, and one that can be seen at every look keeps its slots. */
    method Watch(looks: seq<(World, seq<Listed>)>, ghost h: Handle)
      requires Valid()
      requires forall i :: 0 <= i < |looks| ==> Listing(looks[i].1, looks[i].0)
      modifies this`windows, slots
      ensures Valid()
      ensures h in old(slots[..]) && (forall i :: 0 <= i < |looks| ==> !Gone(looks[i].0, h)) ==>
        forall k :: 0 <= k < MAX_SLOTS && old(slots[..])[k] == h ==> slots[..][k] == h
    {
      hide Gone, Fits, Tidy, Listing;
      ghost var t0 := slots[..];
      var i := 0;
      while i < |looks|
        invariant 0 <= i <= |looks| && Valid()
        invariant (forall i :: 0 <= i < |looks| ==> !Gone(looks[i].0, h)) ==>
          forall k :: 0 <= k < MAX_SLOTS && t0[k] == h ==> slots[..][k] == h
      {
        windows := looks[i].0;
        ParkAll(looks[i].1);
        i := i + 1;
      }
    }
  }

  // ---------------------------------------------------------------- one look, step by step

  /** The same windows can be seen. */
  ghost predicate SameLife(ws: World, ws': World) {
    forall h :: Gone(ws, h) == Gone(ws', h)
  }

  /** Slots of windows that can be seen do not move. */
  ghost predicate Kept(t: Table, t': Table, ws: World) {
    forall k :: 0 <= k < MAX_SLOTS && !Gone(ws, t[k]) ==> t'[k] == t[k]
  }

  lemma KeptItself(t: Table, ws: World)
    ensures Kept(t, t, ws) && SameLife(ws, ws)
  {}

  lemma LiveHandle(ws: World, h: Handle)
    requires !Gone(ws, h)
    ensures h != 0 && h in ws
  {}

  /** A window has a slot, unless every slot is that of a window that can be seen. */
  ghost predicate Housed(t: Table, ws: World, h: Handle) {
    h in t || forall k :: 0 <= k < MAX_SLOTS ==> !Gone(ws, t[k])
  }

  /** A window is parked as it was found, in the slot it ended up with; or left as it was found. */
  predicate Settled(t: Table, ws0: World, ws: World, h: Handle, m: Metrics) {
    h in ws0 && h in ws && (
      var slot := Index(t, h, 0);
      ws[h] == if slot >= 0 then Parked(ws0[h], slot, Double(t, h, slot), m) else ws0[h])
  }

  lemma ListingIs(ls: seq<Listed>, ws: World)
    requires Listing(ls, ws)
    ensures forall i :: 0 <= i < |ls| ==> !Gone(ws, ls[i].h)
    ensures forall i, j :: 0 <= i < j < |ls| ==> ls[i].h != ls[j].h
  {
    hide Gone;
  }

  lemma IndexStays(t: Table, t': Table, ws: World, a: Handle, h: Handle)
    requires !Gone(ws, a) && a != h
    requires forall k :: 0 <= k < MAX_SLOTS ==> t'[k] == t[k] || (t'[k] == h && Gone(ws, t[k]))
    ensures Index(t', a, 0) == Index(t, a, 0) && (a in t ==> a in t')
    ensures Double(t', a, Index(t', a, 0)) == Double(t, a, Index(t, a, 0))
  {
    hide Index, Gone;
    IndexIs(t, a, 0);
    IndexIs(t', a, 0);
    assert forall k :: 0 <= k < MAX_SLOTS ==> (t'[k] == a <==> t[k] == a);
  }

  lemma SettledStays(t: Table, t': Table, ws0: World, ws: World, a: Handle, h: Handle, m: Metrics)
    requires !Gone(ws, a) && a != h && Settled(t, ws0, ws, a, m)
    requires forall k :: 0 <= k < MAX_SLOTS ==> t'[k] == t[k] || (t'[k] == h && Gone(ws, t[k]))
    ensures Settled(t', ws0, ws, a, m)
  {
    hide Index, Gone, Parked, Double;
    IndexStays(t, t', ws, a, h);
  }

  lemma OthersSettled(t: Table, ws0: World, ws: World, ws': World, a: Handle, m: Metrics)
    requires Settled(t, ws0, ws, a, m) && a in ws' && ws'[a] == ws[a]
    ensures Settled(t, ws0, ws', a, m)
  {
    hide Index, Parked, Double;
  }

  lemma SettledHere(t: Table, ws0: World, ws: World, ws': World, h: Handle, slot: int, m: Metrics)
    requires h in ws0 && h in ws && ws[h] == ws0[h] && 0 <= slot < MAX_SLOTS && t[slot] == h
    requires forall k :: 0 <= k < slot ==> t[k] != h
    requires ws' == ws[h := Parked(ws[h], slot, Double(t, h, slot), m)]
    ensures Settled(t, ws0, ws', h, m)
  {
    hide Index, Parked, Double;
    IndexIs(t, h, 0);
  }

  lemma NotSettled(t: Table, ws0: World, ws: World, h: Handle, m: Metrics)
    requires h in ws0 && h in ws && ws[h] == ws0[h] && forall k :: 0 <= k < MAX_SLOTS ==> t[k] != h
    ensures Settled(t, ws0, ws, h, m)
  {
    hide Index, Parked, Double;
    IndexIs(t, h, 0);
  }

  lemma HousedHere(t: Table, t': Table, ws: World, h: Handle, slot: int)
    requires slot >= 0 ==> slot < MAX_SLOTS && t'[slot] == h
    requires slot < 0 ==> t' == t && forall k :: 0 <= k < MAX_SLOTS ==> !Gone(ws, t[k])
    ensures Housed(t', ws, h)
  {
    hide Gone;
  }

  lemma HousedStays(t: Table, t': Table, ws: World, a: Handle, h: Handle)
    requires Housed(t, ws, a) && !Gone(ws, a)
    requires forall k :: 0 <= k < MAX_SLOTS ==> t'[k] == t[k] || (t'[k] == h && Gone(ws, t[k]))
    ensures Housed(t', ws, a)
  {
    hide Gone;
    if a in t {
      var k :| 0 <= k < MAX_SLOTS && t[k] == a;
      assert t'[k] == a;
    } else {
      assert forall k :: 0 <= k < MAX_SLOTS ==> t'[k] == t[k];
    }
  }

  lemma HousedStill(t: Table, ws: World, ws': World, a: Handle)
    requires Housed(t, ws, a) && SameLife(ws, ws')
    ensures Housed(t, ws', a)
  {
    hide Gone;
  }

  lemma KeptMore(t0: Table, t: Table, t': Table, ws0: World, ws: World, h: Handle)
    requires Kept(t0, t, ws0) && SameLife(ws0, ws)
    requires forall k :: 0 <= k < MAX_SLOTS ==> t'[k] == t[k] || (t'[k] == h && Gone(ws, t[k]))
    ensures Kept(t0, t', ws0)
  {
    hide Gone;
  }

  lemma ColumnsStay(t: Table, t': Table, ws: World, a: Handle, h: Handle, m: Metrics)
    requires !Gone(ws, a) && a != h && Fits(t, ws, a, m)
    requires forall k :: 0 <= k < MAX_SLOTS ==> t'[k] == t[k] || (t'[k] == h && Gone(ws, t[k]))
    ensures Fits(t', ws, a, m)
  {
    hide Index, Gone;
    IndexIs(t, a, 0);
    IndexIs(t', a, 0);
    assert forall k :: 0 <= k < MAX_SLOTS ==> (t'[k] == a <==> t[k] == a);
  }

  lemma ParkedHere(t: Table, ws: World, h: Handle, slot: int, m: Metrics)
    requires h in ws && 0 <= slot < MAX_SLOTS && t[slot] == h && forall k :: 0 <= k < slot ==> t[k] != h
    ensures Fits(t, ws[h := Parked(ws[h], slot, Double(t, h, slot), m)], h, m)
    ensures SameLife(ws, ws[h := Parked(ws[h], slot, Double(t, h, slot), m)])
  {
    hide Index, Parked;
    IndexIs(t, h, 0);
    ParkedInside(ws[h], slot, Double(t, h, slot), m);
  }

  lemma NoColumns(t: Table, ws: World, h: Handle, m: Metrics)
    requires h in ws && forall k :: 0 <= k < MAX_SLOTS ==> t[k] != h
    ensures Fits(t, ws, h, m)
  {
    hide Index;
    IndexIs(t, h, 0);
  }

  lemma OthersStay(t: Table, ws: World, ws': World, a: Handle, h: Handle, m: Metrics)
    requires Fits(t, ws, a, m) && a != h && a in ws' && ws'[a] == ws[a]
    ensures Fits(t, ws', a, m)
  {
    hide Index;
  }

  lemma LifeKept(ws0: World, ws: World, ws': World, ls: seq<Listed>, h: Handle)
    requires SameLife(ws0, ws) && SameLife(ws, ws') && Listing(ls, ws)
    ensures SameLife(ws0, ws') && Listing(ls, ws')
  {
    hide Gone;
  }

  /** After a look, no two applications with columns overlap, of those that may be no wider. */
  lemma ApplicationsDisjoint(t: Table, ws: World, ls: seq<Listed>, m: Metrics, i: nat, j: nat)
    requires Tidy(t) && Listing(ls, ws) && i < j < |ls| && ls[i].app && ls[j].app && ls[i].h in t && ls[j].h in t
    requires forall k :: 0 <= k < |ls| && ls[k].app ==> Fits(t, ws, ls[k].h, m)
    ensures var a, b := ls[i].h, ls[j].h;
      && a in ws && b in ws
      && (Narrow(ws[a], m) && Narrow(ws[b], m) ==>
            ws[a].rect.right <= ws[b].rect.left || ws[b].rect.right <= ws[a].rect.left)
  {
    hide InColumns, Gone, Tidy;
    var a, b := ls[i].h, ls[j].h;
    assert Fits(t, ws, a, m) && Fits(t, ws, b, m);
    LiveHandle(ws, a);
    LiveHandle(ws, b);
    if Narrow(ws[a], m) && Narrow(ws[b], m) {
      ColumnsDisjoint(t, ws, a, b);
    }
  }

  // ---------------------------------------------------------------- in numbers

  /** Who may take a slot, and who is given two. */
  lemma SlotsSay(t: Table, ws: World, h: Handle)
    ensures |t| == 4
    ensures Gone(ws, h) <==> h == 0 || h !in ws || ws[h].dead || !ws[h].visible
    ensures Wide(ws, h) <==> h in ws && ws[h].fixed && ws[h].rect.right - ws[h].rect.left > 640
  {}

  /** Where a parked window stands and how large it is. Columns are 640 wide, the first one right of the shell's
      640. A window of one size may be as large as its columns and the screen, one on the list as wide as a
      column, and any other as the shell. */
  lemma ParkSays(w: Window, slot: int, double: bool, m: Metrics)
    ensures var p := Parked(w, slot, double, m);
      var x := 640 * slot + 640;
      var most := if w.fixed && double then 1280 else if w.fixed || w.keepList then 640 else m.shellW;
      var tall := if w.fixed then m.realH else if w.maxH < m.shellH then w.maxH else m.shellH;
      var wide, high := w.rect.right - w.rect.left, w.rect.bottom - w.rect.top;
      var end := x + if w.fixed && double then 1280 else 640;
      var stays := wide <= most && high <= tall
                   && if w.zoomed then x <= w.rect.left && w.rect.right <= end else w.rect.left == x && w.rect.top >= 0;
      var from := if w.zoomed then w.restored else w.rect;
      var own := !w.zoomed || w.fixed || w.keepList;
      var width := if own && from.right - from.left < most then from.right - from.left else most;
      var height := if own && from.bottom - from.top < tall then from.bottom - from.top else tall;
      && (stays <==> p == w)
      && (!stays ==> p == w.(zoomed := false, rect := Rect(x, 0, x + width, height)))
  {}
}
