/**
 What the guest painted: the ring of the last 256 dirty rectangles, and the questions asked of it.
 The ring is proved against the whole history of rectangles, which it has mostly forgotten.
 */
module Dirty {
  import opened Bytes

  /** A rectangle of guest pixels. */
  datatype Rect = Rect(x: int, y: int, w: int, h: int)

  predicate Hits(r: Rect, q: Rect) {
    r.x < q.x + q.w && q.x < r.x + r.w && r.y < q.y + q.h && q.y < r.y + r.h
  }

  predicate Inside(r: Rect, x: int, y: int) {
    r.x <= x < r.x + r.w && r.y <= y < r.y + r.h
  }

  /** Rectangles that hold anything touch exactly when they share a pixel. */
  lemma HitsExactly(r: Rect, q: Rect)
    requires r.w > 0 && r.h > 0 && q.w > 0 && q.h > 0
    ensures Hits(r, q) <==> exists x, y :: Inside(r, x, y) && Inside(q, x, y)
  {
    if Hits(r, q) {
      var x, y := Max(r.x, q.x), Max(r.y, q.y);
      assert Inside(r, x, y) && Inside(q, x, y);
    }
  }

  const DIRTY_LOG: nat := 256
  const DIRTY_MAX_RECTS: nat := 24

  datatype Stamp = Stamp(gen: nat, rect: Rect)

  // ---------------------------------------------------------------- answers about a history

  /** Whether any rectangle painted after generation `gen` touches `q`. */
  ghost predicate TouchedSince(history: seq<Rect>, gen: nat, q: Rect) {
    exists k :: gen <= k < |history| && Hits(history[k], q)
  }

  /** What a caller is told: nothing new, the whole screen, or some rectangles. */
  datatype Answer = Nothing | All | Rects(rects: seq<Rect>)

  /** The `n` newest rectangles of a history, newest first. */
  function Newest(history: seq<Rect>, n: nat): (s: seq<Rect>)
    requires n <= |history|
    ensures |s| == n
    ensures forall i :: 0 <= i < n ==> s[i] == history[|history| - 1 - i]
  {
    if n == 0 then [] else Newest(history, n - 1) + [history[|history| - n]]
  }

  lemma NewestNone(history: seq<Rect>)
    ensures Newest(history, 0) == []
  {}

  lemma NewestStep(history: seq<Rect>, n: nat)
    requires 0 < n <= |history|
    ensures Newest(history, n) == Newest(history, n - 1) + [history[|history| - n]]
  {}

  /** The least rectangle around some rectangles. */
  ghost predicate IsBox(box: Rect, rects: seq<Rect>) {
    && (forall i :: 0 <= i < |rects| ==>
          && box.x <= rects[i].x && rects[i].x + rects[i].w <= box.x + box.w
          && box.y <= rects[i].y && rects[i].y + rects[i].h <= box.y + box.h)
    && (exists i :: 0 <= i < |rects| && rects[i].x == box.x)
    && (exists i :: 0 <= i < |rects| && rects[i].y == box.y)
    && (exists i :: 0 <= i < |rects| && rects[i].x + rects[i].w == box.x + box.w)
    && (exists i :: 0 <= i < |rects| && rects[i].y + rects[i].h == box.y + box.h)
  }

  ghost predicate IsAnswer(a: Answer, history: seq<Rect>, gen: nat) {
    var n := |history|;
    if gen >= n then a == Nothing
    else if n - gen > DIRTY_LOG then a == All
    else if n - gen <= DIRTY_MAX_RECTS then a == Rects(Newest(history, n - gen))
    else a.Rects? && |a.rects| == 1 && IsBox(a.rects[0], Newest(history, DIRTY_MAX_RECTS + 1))
  }

  /** Whatever is new, the newest rectangle is covered by the answer. */
  lemma NewestIsCovered(a: Answer, history: seq<Rect>, gen: nat, x: int, y: int)
    requires IsAnswer(a, history, gen) && gen < |history| && a.Rects?
    requires Inside(history[|history| - 1], x, y)
    ensures exists i :: 0 <= i < |a.rects| && Inside(a.rects[i], x, y)
  {
    var n := |history|;
    if n - gen <= DIRTY_MAX_RECTS {
      assert a.rects[0] == history[n - 1];
    } else {
      assert Newest(history, DIRTY_MAX_RECTS + 1)[0] == history[n - 1];
      assert Inside(a.rects[0], x, y);
    }
  }

  /** All of them are, when at most twenty-five are new. */
  lemma FewAreAllCovered(a: Answer, history: seq<Rect>, gen: nat, k: nat, x: int, y: int)
    requires IsAnswer(a, history, gen) && gen <= k < |history| && |history| - gen <= 25
    requires Inside(history[k], x, y)
    ensures a.Rects? && exists i :: 0 <= i < |a.rects| && Inside(a.rects[i], x, y)
  {
    var n := |history|;
    if n - gen <= DIRTY_MAX_RECTS {
      assert a.rects[n - 1 - k] == history[k];
    } else {
      assert Newest(history, DIRTY_MAX_RECTS + 1)[n - 1 - k] == history[k];
      assert Inside(a.rects[0], x, y);
    }
  }

  /** With more than that, however many, there is a history whose answer leaves one out. */
  lemma ManyAreNotAllCovered(n: nat)
    requires 25 < n <= 256
    ensures var history := [Rect(100, 0, 1, 1)] + seq(n - 1, _ => Rect(0, 0, 1, 1));
      var a := Rects([Rect(0, 0, 1, 1)]);
      && IsAnswer(a, history, 0)
      && Inside(history[0], 100, 0)
      && !Inside(a.rects[0], 100, 0)
  {
    var history := [Rect(100, 0, 1, 1)] + seq(n - 1, _ => Rect(0, 0, 1, 1));
    var newest := Newest(history, DIRTY_MAX_RECTS + 1);
    assert forall i :: 0 <= i < |newest| ==> newest[i] == Rect(0, 0, 1, 1);
    assert newest[0].x == 0;
  }

  /** An answer covers whatever is new. */
  ghost predicate AllCovered(a: Answer, history: seq<Rect>, gen: nat)
    requires a.Rects?
  {
    forall k, x, y :: gen <= k < |history| && Inside(history[k], x, y) ==>
      exists i :: 0 <= i < |a.rects| && Inside(a.rects[i], x, y)
  }

  /** While the ring remembers, the answer is sure to cover everything new exactly when at most twenty-five
      rectangles are. */
  lemma AllCoveredExactly(n: nat)
    requires 0 < n <= 256
    ensures n <= 25 <==>
      forall a: Answer, history: seq<Rect>, gen: nat ::
        |history| == gen + n && IsAnswer(a, history, gen) ==> a.Rects? && AllCovered(a, history, gen)
  {
    hide IsAnswer, Inside;
    if n <= DIRTY_MAX_RECTS + 1 {
      forall a: Answer, history: seq<Rect>, gen: nat | |history| == gen + n && IsAnswer(a, history, gen)
        ensures a.Rects? && AllCovered(a, history, gen)
      {
        KnownAnswer(a, history, gen);
        forall k, x, y | gen <= k < |history| && Inside(history[k], x, y)
          ensures exists i :: 0 <= i < |a.rects| && Inside(a.rects[i], x, y)
        {
          FewAreAllCovered(a, history, gen, k, x, y);
        }
      }
    } else {
      ManyAreNotAllCovered(n);
      var history := [Rect(100, 0, 1, 1)] + seq(n - 1, _ => Rect(0, 0, 1, 1));
      var a := Rects([Rect(0, 0, 1, 1)]);
      assert |history| == 0 + n && !AllCovered(a, history, 0);
    }
  }

  lemma KnownAnswer(a: Answer, history: seq<Rect>, gen: nat)
    requires IsAnswer(a, history, gen) && 0 < |history| - gen <= DIRTY_LOG
    ensures a.Rects?
  {}

  // ---------------------------------------------------------------- the ring

  class DirtyLog {
    var dirtyGen: nat
    var guestDirty: Option<Rect>
    const log: array<Option<Stamp>>
    var at: nat
    ghost var history: seq<Rect>

    ghost predicate Valid()
      reads this, log
    {
      && log.Length == DIRTY_LOG
      && dirtyGen == |history| == at
      && (forall k :: 0 <= k < at && at - k <= DIRTY_LOG ==>
            log[k % DIRTY_LOG] == Some(Stamp(k + 1, history[k])))
      && (forall k :: at <= k < DIRTY_LOG ==> log[k] == None)
    }

    constructor ()
      ensures Valid() && history == [] && fresh(log)
    {
      dirtyGen, guestDirty, at := 0, None, 0;
      log := new Option<Stamp>[DIRTY_LOG](_ => None);
      history := [];
    }

    method NoteDirty(d: Rect)
      requires Valid()
      modifies this, log
      ensures Valid() && history == old(history) + [d] && guestDirty == Some(d)
    {
      dirtyGen := dirtyGen + 1;
      guestDirty := Some(d);
      log[at % DIRTY_LOG] := Some(Stamp(dirtyGen, d));
      SlotsDiffer(at);
      at := at + 1;
      history := history + [d];
    }

    lemma SlotsDiffer(at: nat)
      ensures forall k: nat :: k < at && at + 1 - k <= DIRTY_LOG ==> k % DIRTY_LOG != at % DIRTY_LOG
    {}

    /** The `i`th newest slot, as the loops below reach it. */
    method Back(i: nat) returns (r: Option<Stamp>)
      requires Valid() && 1 <= i <= DIRTY_LOG
      ensures r == if i <= at then Some(Stamp(at + 1 - i, history[at - i])) else None
    {
      r := log[(at - i + DIRTY_LOG * 2) % DIRTY_LOG];
      BackSlot(at, i);
      if i <= at {
        assert log[(at - i) % DIRTY_LOG] == Some(Stamp(at - i + 1, history[at - i]));
      }
    }

    lemma BackSlot(at: nat, i: nat)
      requires 1 <= i <= DIRTY_LOG
      ensures i <= at ==> (at - i + DIRTY_LOG * 2) % DIRTY_LOG == (at - i) % DIRTY_LOG
      ensures i > at ==> at <= (at - i + DIRTY_LOG * 2) % DIRTY_LOG < DIRTY_LOG
    {}

    /** Exact for as long as the ring remembers, and "changed" for anything older. */
    method RectDirtySince(gen: nat, x: int, y: int, w: int, h: int) returns (dirty: bool)
      requires Valid()
      ensures dirty <==> gen < |history| && (|history| - gen > 256
                                             || TouchedSince(history, gen, Rect(x, y, w, h)))
    {
      if gen >= dirtyGen { return false; }
      if dirtyGen - gen > DIRTY_LOG { return true; }
      for i := 1 to DIRTY_LOG + 1
        invariant i - 1 <= dirtyGen - gen
        invariant forall k :: dirtyGen - i < k < dirtyGen ==> !Hits(history[k], Rect(x, y, w, h))
      {
        var r := Back(i);
        if r.None? || r.value.gen <= gen { break; }
        if Hits(r.value.rect, Rect(x, y, w, h)) { return true; }
      }
      dirty := false;
    }

    /** The newest rectangles since a generation, and no more than one too many of them. */
    method Collect(gen: nat) returns (out: seq<Rect>)
      requires Valid() && gen < |history| && |history| - gen <= DIRTY_LOG
      ensures out == Newest(history, Min(|history| - gen, DIRTY_MAX_RECTS + 1))
    {
      assert dirtyGen == |history| == at;
      hide Valid, Newest;
      out := [];
      NewestNone(history);
      for i := 1 to DIRTY_LOG + 1
        invariant i - 1 <= |history| - gen && i - 1 <= DIRTY_MAX_RECTS
        invariant out == Newest(history, i - 1)
      {
        var r := Back(i);
        if r.None? || r.value.gen <= gen { break; }
        out := out + [r.value.rect];
        NewestStep(history, i);
        if |out| > DIRTY_MAX_RECTS { break; }
      }
    }

    /** The rectangles themselves, newest first; one box once there are too many of them. */
    method DirtyRectsSince(gen: nat) returns (a: Answer)
      requires Valid()
      ensures IsAnswer(a, history, gen)
    {
      if gen >= dirtyGen { return Nothing; }
      if dirtyGen - gen > DIRTY_LOG { return All; }
      var out := Collect(gen);
      if |out| > DIRTY_MAX_RECTS {
        var box := BoxOf(out);
        return Rects([box]);
      }
      a := if out != [] then Rects(out) else Nothing;
    }

    method BoxOf(rects: seq<Rect>) returns (box: Rect)
      requires rects != []
      ensures IsBox(box, rects)
    {
      var x0, y0 := rects[0].x, rects[0].y;
      var x1, y1 := x0 + rects[0].w, y0 + rects[0].h;
      for i := 0 to |rects|
        invariant forall j :: 0 <= j < i ==> x0 <= rects[j].x && y0 <= rects[j].y
        invariant forall j :: 0 <= j < i ==> rects[j].x + rects[j].w <= x1 && rects[j].y + rects[j].h <= y1
        invariant exists j :: 0 <= j < |rects| && rects[j].x == x0
        invariant exists j :: 0 <= j < |rects| && rects[j].y == y0
        invariant exists j :: 0 <= j < |rects| && rects[j].x + rects[j].w == x1
        invariant exists j :: 0 <= j < |rects| && rects[j].y + rects[j].h == y1
      {
        var q := rects[i];
        x0, y0 := Min(x0, q.x), Min(y0, q.y);
        x1, y1 := Max(x1, q.x + q.w), Max(y1, q.y + q.h);
      }
      box := Rect(x0, y0, x1 - x0, y1 - y0);
    }
  }
}
