/**
 Absolute pointing (web/app.js): a pixel is sent as a fraction of the screen that the guest scales back,
 and the size the guest scales by is measured with two probes and then checked.
 */
module Pointing {
  import opened Arith
  import opened Bytes

  /** The guest's side: a fraction of 65536 scaled by its own idea of the screen, rounded down. */
  function GuestPlace(n: nat, size: nat): nat { n * size / 65536 }

  /** The middle of a pixel as a fraction, to the nearest 65536th, halves up. */
  function Nearest(p: int, size: nat): int
    requires size > 0
  {
    ((2 * p + 1) * 65536 + size) / (2 * size)
  }

  function Norm(p: int, size: nat): (n: nat)
    requires size > 0
    ensures n <= 65535
  {
    Max(0, Min(65535, Nearest(p, size)))
  }

  // ---------------------------------------------------------------- placing

  lemma NearestBounds(p: int, size: nat)
    requires size > 0
    ensures 2 * (Nearest(p, size) * size) <= (2 * p + 1) * 65536 + size
    ensures (2 * p + 1) * 65536 + size < 2 * (Nearest(p, size) * size) + 2 * size
  {
    var a, d := (2 * p + 1) * 65536 + size, 2 * size;
    assert a == a / d * d + a % d;
    assert Nearest(p, size) * d == 2 * (Nearest(p, size) * size);
  }

  lemma PlaceBounds(n: nat, size: nat)
    ensures 65536 * GuestPlace(n, size) <= n * size < 65536 * GuestPlace(n, size) + 65536
  {}

  lemma TimesLess(n: int, m: int, size: nat)
    requires size > 0
    ensures n * size < m * size <==> n < m
  {
    if n < m {
      assert (m - n) * size > 0;
    } else {
      assert (n - m) * size >= 0;
    }
  }

  lemma NearestInside(p: nat, size: nat)
    requires p < size <= 65535
    ensures 0 <= Nearest(p, size) <= 65535 && Norm(p, size) == Nearest(p, size)
  {
    NearestBounds(p, size);
    TimesLess(Nearest(p, size), 65536, size);
    TimesLess(-1, Nearest(p, size), size);
    hide Nearest;
  }

  lemma LandsOn(p: nat, size: nat)
    requires p < size <= 65535
    ensures GuestPlace(Norm(p, size), size) == p
  {
    hide Nearest, Norm, GuestPlace;
    NearestInside(p, size);
    NearestBounds(p, size);
    PlaceBounds(Norm(p, size), size);
  }

  lemma MissesWide(size: nat)
    requires size > 65535
    ensures exists p: nat :: p < size && GuestPlace(Norm(p, size), size) != p
  {
    if size == 65536 {
      assert Norm(0, size) == 1 && GuestPlace(1, size) == 1;
    } else {
      var n := Norm(size - 1, size);
      PlaceBounds(n, size);
      assert n * size <= 65535 * size by {
        TimesLess(65535, n, size);
      }
      assert GuestPlace(n, size) != size - 1;
    }
  }

  /** Every pixel of a screen lands on itself exactly when the screen is at most 65535 wide. */
  lemma ExactPlacement(size: nat)
    requires size > 0
    ensures size <= 65535 <==> (forall p: nat :: p < size ==> GuestPlace(Norm(p, size), size) == p)
  {
    hide Norm, GuestPlace;
    if size <= 65535 {
      forall p: nat | p < size
        ensures GuestPlace(Norm(p, size), size) == p
      {
        LandsOn(p, size);
      }
    } else {
      MissesWide(size);
    }
  }

  lemma TimesSum(n: int, a: int, b: int)
    ensures n * (a + b) == n * a + n * b
  {}

  lemma TimesSmall(n: nat, d: int, most: nat)
    requires -2 <= d <= 2 && n <= most
    ensures -2 * most <= n * d <= 2 * most
  {}

  /** With a base at most 2 off the guest's own size, every pixel lands within 2 of itself. */
  lemma NearPlacement(p: nat, base: nat, size: nat)
    requires 0 < base <= 65535 && p < size <= 65535 && -2 <= size - base <= 2
    ensures -2 <= GuestPlace(Norm(p, base), size) - p <= 2
  {
    hide Nearest, Norm, GuestPlace;
    var n := Norm(p, base);
    PlaceBounds(n, size);
    NearestBounds(p, base);
    NormIs(p, base);
    var near := Nearest(p, base);
    TimesSum(n, base, size - base);
    TimesSmall(n, size - base, 65535);
    if near > 65535 {
      TimesLess(65535, near, base);
      TimesSum(65535, base, size - base);
    }
  }

  lemma NormIs(p: nat, base: nat)
    requires base > 0
    ensures Norm(p, base) == Min(65535, Nearest(p, base)) && Nearest(p, base) >= 0
  {}

  // ---------------------------------------------------------------- measuring

  /** A third of the way across, halves up. */
  function Third(size: int): int { (2 * size + 3) / 6 }

  /** What a probe at two fractions is answered, if it is: the probe's number, then the fractions. */
  type Answers = (nat, int, int) -> Option<(int, int)>

  /** A probe whose report is to the left of the screen counts as none. */
  function Probed(answer: Answers, k: nat, n: int): Option<(int, int)> {
    var a := answer(k, n, n);
    if a.None? || a.value.0 < 0 then None else a
  }

  predicate Sensible(w: int, h: int) { 320 <= w <= 8192 && 200 <= h <= 8192 }

  /** The base the two probes and the check agree on. */
  function Measured(answer: Answers): Option<(nat, nat)> {
    var a, b := Probed(answer, 0, 0x2000), Probed(answer, 1, 0x6000);
    if a.None? || b.None? then None
    else
      var w, h := 4 * (b.value.0 - a.value.0), 4 * (b.value.1 - a.value.1);
      if !Sensible(w, h) || !Lands(answer, w, h) then None else Some((w, h))
  }

  predicate Close(got: int, asked: int) { -2 <= got - asked <= 2 }

  /** Whether the check pixel, a third of the way across and down, is reported within 2 of itself. */
  predicate Lands(answer: Answers, w: nat, h: nat)
    requires w > 0 && h > 0
  {
    var x, y := Third(w), Third(h);
    var got := answer(2, Nearest(x, w), Nearest(y, h));
    got.Some? && Close(got.value.0, x) && Close(got.value.1, y)
  }

  method CheckLanding(answer: Answers, w: nat, h: nat) returns (lands: bool)
    requires w > 0 && h > 0
    ensures lands == Lands(answer, w, h)
  {
    hide Rounded, Third;
    RoundedThird(w);
    RoundedThird(h);
    var x: nat, y: nat := Rounded(w, 3), Rounded(h, 3);
    var nx, ny := Rounded((2 * x + 1) * 65536, 2 * w), Rounded((2 * y + 1) * 65536, 2 * h);
    Halved((2 * x + 1) * 65536, w);
    Halved((2 * y + 1) * 65536, h);
    var got := answer(2, nx, ny);
    lands := got.Some? && got.value.0 - x <= 2 && x - got.value.0 <= 2 && got.value.1 - y <= 2 && y - got.value.1 <= 2;
  }

  class Aim {
    /** The base in use, once one has been measured. */
    var base: Option<(nat, nat)>
    const screen: (nat, nat)

    ghost predicate Valid()
      reads this
    {
      screen.0 > 0 && screen.1 > 0 && (base.Some? ==> Sensible(base.value.0, base.value.1))
    }

    constructor (screen: (nat, nat))
      requires screen.0 > 0 && screen.1 > 0
      ensures Valid() && this.screen == screen && base == None
    {
      this.screen := screen;
      base := None;
    }

    /** Puts the pointer at two known fractions, divides, and checks the base before it is trusted; a base
        that fails leaves the one before in use. */
    method CalibratePointer(answer: Answers) returns (r: Option<(nat, nat)>)
      requires Valid()
      modifies this
      ensures Valid() && r == Measured(answer)
      ensures base == if r.Some? then r else old(base)
    {
      hide Rounded, Lands;
      var lo, hi := 0x2000, 0x6000;
      var a := Probed(answer, 0, lo);
      var b := Probed(answer, 1, hi);
      if a.None? || b.None? {
        return None;
      }
      var w := Rounded((b.value.0 - a.value.0) * 65536, hi - lo);
      var h := Rounded((b.value.1 - a.value.1) * 65536, hi - lo);
      RoundedFours(b.value.0 - a.value.0);
      RoundedFours(b.value.1 - a.value.1);
      if w < 320 || h < 200 || w > 8192 || h > 8192 {
        return None;
      }
      var was := base;
      base := Some((w, h));
      var lands := CheckLanding(answer, w, h);
      if !lands {
        base := was;
        return None;
      }
      r := base;
    }

    function PointerBase(): (b: (nat, nat))
      requires Valid()
      reads this
      ensures b.0 > 0 && b.1 > 0
    {
      if base.Some? then base.value else screen
    }

    /** The fractions a target is sent as: kept on the screen, then scaled by the base. With no base
        measured they bring a guest with this screen exactly to the target. */
    method PlacePointer(x: int, y: int) returns (nx: nat, ny: nat)
      requires Valid()
      ensures nx <= 65535 && ny <= 65535
      ensures nx == Norm(Max(0, Min(screen.0 - 1, x)), PointerBase().0)
      ensures ny == Norm(Max(0, Min(screen.1 - 1, y)), PointerBase().1)
      ensures base == None && screen.0 <= 65535 && screen.1 <= 65535 && 0 <= x < screen.0 && 0 <= y < screen.1 ==>
        GuestPlace(nx, screen.0) == x && GuestPlace(ny, screen.1) == y
    {
      var px, py := Max(0, Min(screen.0 - 1, x)), Max(0, Min(screen.1 - 1, y));
      var b := PointerBase();
      nx := Max(0, Min(65535, Rounded((2 * px + 1) * 65536, 2 * b.0)));
      ny := Max(0, Min(65535, Rounded((2 * py + 1) * 65536, 2 * b.1)));
      Halved((2 * px + 1) * 65536, b.0);
      Halved((2 * py + 1) * 65536, b.1);
      if base == None && screen.0 <= 65535 && screen.1 <= 65535 && 0 <= x < screen.0 && 0 <= y < screen.1 {
        LandsOn(x, screen.0);
        LandsOn(y, screen.1);
      }
    }
  }

  /** A quotient to the nearest whole number, halves up. */
  function Rounded(a: int, b: nat): int
    requires b > 0
  {
    (2 * a + b) / (2 * b)
  }

  lemma RoundedFours(d: int)
    ensures Rounded(d * 65536, 0x4000) == 4 * d
  {}

  lemma RoundedThird(size: nat)
    ensures Rounded(size, 3) == Third(size) >= 0
  {}

  /** Rounding with the denominator doubled is how a pixel's middle comes out whole. */
  lemma Halved(a: nat, size: nat)
    requires size > 0
    ensures Rounded(a, 2 * size) == (a + size) / (2 * size)
  {
    var d := 2 * size;
    var q, r := (a + size) / d, (a + size) % d;
    DivModExact(a + size, d);
    assert 2 * a + d == q * (2 * d) + 2 * r;
    QuotientIs(2 * a + d, 2 * d, q, 2 * r);
  }

  // ---------------------------------------------------------------- what is measured

  /** A guest that scales by its own size and adds offsets of its own. */
  ghost predicate Truthful(answer: Answers, w: nat, h: nat, ox: int, oy: int) {
    forall k: nat, nx: nat, ny: nat {:trigger answer(k, nx, ny)} ::
      answer(k, nx, ny) == Some((GuestPlace(nx, w) + ox, GuestPlace(ny, h) + oy))
  }

  /** What the probes make of a size. */
  function Base(size: nat): nat { 4 * (3 * size / 8 - size / 8) }

  /** The base is within 2 of the size, and the size itself exactly when 4 divides it. */
  lemma BaseIsNear(size: nat)
    ensures -2 <= Base(size) - size <= 2
    ensures Base(size) == size <==> size % 4 == 0
  {
    hide Base;
    var q, r := size / 8, size % 8;
    assert size == 8 * q + r;
    BaseByEights(q, r);
    FourDivides(q, r);
  }

  lemma FourDivides(q: nat, r: nat)
    requires r < 8
    ensures (8 * q + r) % 4 == 0 <==> r == 0 || r == 4
  {
    var k := if r < 4 then 0 else 1;
    QuotientIs(8 * q + r, 4, 2 * q + k, r - 4 * k);
  }

  lemma EighthIs(n: nat, q: nat, r: nat)
    requires r < 8 && n == 8 * q + r
    ensures n / 8 == q
  {}

  lemma BaseByEights(q: nat, r: nat)
    requires r < 8
    ensures Base(8 * q + r) == 8 * q + (if r < 3 then 0 else if r < 6 then 4 else 8)
  {
    var k := if r < 3 then 0 else if r < 6 then 1 else 2;
    EighthIs(8 * q + r, q, r);
    EighthIs(3 * (8 * q + r), 3 * q + k, 3 * r - 8 * k);
  }

  lemma ProbePlaces(size: nat)
    ensures GuestPlace(0x2000, size) == size / 8 && GuestPlace(0x6000, size) == 3 * size / 8
  {}

  /** How far the check pixel lands from where it was asked for. */
  function Stray(size: nat): int { if size % 8 == 2 then 1 else if size % 8 == 6 then -1 else 0 }

  lemma CheckLands(size: nat)
    requires 200 <= Base(size) <= 8192
    ensures var w := Base(size);
      0 <= Nearest(Third(w), w) && GuestPlace(Nearest(Third(w), w), size) - Third(w) == Stray(size)
  {
    hide Base;
    var w := Base(size);
    OffByEights(size);
    CheckBounds(size, w);
  }

  /** The size is 2 off its base exactly when the check strays. */
  lemma OffByEights(size: nat)
    ensures -2 <= size - Base(size) <= 2
    ensures Stray(size) == if size - Base(size) == 2 then 1 else if size - Base(size) == -2 then -1 else 0
  {
    hide Base;
    var q, r := size / 8, size % 8;
    BaseByEights(q, r);
    assert size == 8 * q + r;
  }

  lemma CheckBounds(size: nat, w: nat)
    requires 200 <= w <= 8192 && -2 <= size - w <= 2
    ensures 0 <= Nearest(Third(w), w)
    ensures GuestPlace(Nearest(Third(w), w), size) - Third(w)
            == if size - w == 2 then 1 else if size - w == -2 then -1 else 0
  {
    hide Nearest, GuestPlace;
    var t := Third(w);
    var n := Nearest(t, w);
    NearestBounds(t, w);
    TimesLess(n, 22400, w);
    TimesLess(21500, n, w);
    PlaceBounds(n, size);
    TimesSum(n, w, size - w);
    TimesFew(n, size - w);
  }

  lemma TimesFew(n: int, d: int)
    requires -2 <= d <= 2
    ensures n * d
            == if d == 2 then n + n else if d == 1 then n else if d == 0 then 0 else if d == -1 then -n else -n - n
  {}

  lemma SensibleSizes(w: nat, h: nat)
    ensures Sensible(Base(w), Base(h)) <==> 318 <= w <= 8194 && 198 <= h <= 8194
  {
    hide Base;
    BaseRange(w);
    BaseRange(h);
  }

  lemma BaseRange(size: nat)
    ensures Base(size) >= 320 <==> size >= 318
    ensures Base(size) >= 200 <==> size >= 198
    ensures Base(size) <= 8192 <==> size <= 8194
  {
    hide Base;
    BaseByEights(size / 8, size % 8);
  }

  /** Measuring a truthful guest: the base does not depend on the guest's offsets, and it is accepted
      exactly when the size is a sensible one and the offset leaves the check within 2 of its target. */
  lemma MeasuredIs(answer: Answers, w: nat, h: nat, ox: int, oy: int)
    requires Truthful(answer, w, h, ox, oy)
    ensures Measured(answer)
         == if 318 <= w <= 8194 && 198 <= h <= 8194 && -2 <= Stray(w) + ox <= 2 && -2 <= Stray(h) + oy <= 2
            then Some((Base(w), Base(h))) else None
  {
    hide GuestPlace, Nearest, Third, Base, Stray;
    StraySmall(w);
    ProbePlaces(w);
    ProbePlaces(h);
    assert answer(0, 0x2000, 0x2000) == Some((w / 8 + ox, h / 8 + oy));
    assert answer(1, 0x6000, 0x6000) == Some((3 * w / 8 + ox, 3 * h / 8 + oy));
    BaseOf(w);
    BaseOf(h);
    SensibleSizes(w, h);
    if Sensible(Base(w), Base(h)) {
      CheckLands(w);
      CheckLands(h);
      var nx: nat, ny: nat := Nearest(Third(Base(w)), Base(w)), Nearest(Third(Base(h)), Base(h));
      assert answer(2, nx, ny) == Some((GuestPlace(nx, w) + ox, GuestPlace(ny, h) + oy));
    }
  }

  /** A probe that is answered from left of the screen counts as unanswered, and without both answers nothing
      is measured. */
  lemma ProbesNeeded(answer: Answers)
    requires forall x, y :: answer(0, 0x2000, 0x2000) == Some((x, y)) ==> x < 0
    ensures Measured(answer) == None
  {
    hide Lands, Sensible;
    var a := answer(0, 0x2000, 0x2000);
    if a.Some? {
      assert a == Some((a.value.0, a.value.1));
    }
  }

  lemma StraySmall(size: nat)
    ensures -1 <= Stray(size) <= 1
  {}

  lemma BaseOf(size: nat)
    ensures Base(size) == 4 * (3 * size / 8 - size / 8)
  {}

  /** Once a truthful guest has been measured, every pixel of its screen lands within 2 of itself, and on
      itself when 4 divides the screen's sides. */
  method MeasureAndPlace(aim: Aim, answer: Answers, w: nat, h: nat, x: nat, y: nat) returns (nx: nat, ny: nat)
    requires aim.Valid() && aim.screen == (w, h) && x < w && y < h
    requires Truthful(answer, w, h, 0, 0) && 318 <= w <= 8194 && 198 <= h <= 8194
    modifies aim
    ensures aim.Valid() && aim.base == Some((Base(w), Base(h)))
    ensures Close(GuestPlace(nx, w), x) && Close(GuestPlace(ny, h), y)
    ensures w % 4 == 0 ==> GuestPlace(nx, w) == x
    ensures h % 4 == 0 ==> GuestPlace(ny, h) == y
  {
    hide GuestPlace, Norm, Measured;
    MeasuredIs(answer, w, h, 0, 0);
    BaseIsNear(w);
    BaseIsNear(h);
    var r := aim.CalibratePointer(answer);
    nx, ny := aim.PlacePointer(x, y);
    NearPlacement(x, Base(w), w);
    NearPlacement(y, Base(h), h);
    if w % 4 == 0 {
      LandsOn(x, w);
    }
    if h % 4 == 0 {
      LandsOn(y, h);
    }
  }
}
