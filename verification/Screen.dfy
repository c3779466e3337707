/**
 The guest's pixels as the host sees them change, and the cache of single sampled pixels that rides
 on the dirty log.
 */
module Screen {
  import opened Bytes
  import opened Dirty

  type Colour = int
  type Pixels = (int, int) -> Colour

  /** A paint changes nothing outside the rectangle it is reported with. */
  ghost predicate Painted(before: Pixels, after: Pixels, d: Rect) {
    forall x, y :: !Inside(d, x, y) ==> after(x, y) == before(x, y)
  }

  /** frames[g] is the screen at generation g. */
  ghost predicate Recorded(frames: seq<Pixels>, history: seq<Rect>) {
    && |frames| == |history| + 1
    && forall k :: 0 <= k < |history| ==> Painted(frames[k], frames[k + 1], history[k])
  }

  /** A pixel no rectangle has touched since a generation is what it was then. */
  lemma {:induction false} Untouched(frames: seq<Pixels>, history: seq<Rect>, gen: nat, x: int, y: int)
    requires Recorded(frames, history) && gen <= |history|
    requires !TouchedSince(history, gen, Rect(x, y, 1, 1))
    ensures frames[|history|](x, y) == frames[gen](x, y)
    decreases |history| - gen
  {
    if gen < |history| {
      assert !Hits(history[gen], Rect(x, y, 1, 1));
      assert !Inside(history[gen], x, y);
      Untouched(frames, history, gen + 1, x, y);
    }
  }

  // ---------------------------------------------------------------- the key of a cached pixel

  /** Exclusive or, bit by bit. */
  function Xor(a: nat, b: nat): nat {
    if a == 0 && b == 0 then 0 else (a % 2 + b % 2) % 2 + 2 * Xor(a / 2, b / 2)
  }

  const WORD: nat := 0x1_0000_0000

  /** The key of a point: (x << 12) ^ y on 32-bit words. */
  function Key(x: nat, y: nat): nat { Xor(x * 4096 % WORD, y % WORD) }

  /** A screen whose points all have keys of their own. */
  predicate KeyedScreen(w: nat, h: nat) {
    w == 0 || h == 0 || (w == 1 && h <= WORD) || (w <= 0x10_0000 && h <= 4096)
  }

  ghost predicate KeysDistinct(w: nat, h: nat) {
    forall x: nat, y: nat, x': nat, y': nat {:trigger Key(x, y), Key(x', y')} ::
      x < w && x' < w && y < h && y' < h && Key(x, y) == Key(x', y') ==> x == x' && y == y'
  }

  lemma {:induction false} XorZero(b: nat)
    ensures Xor(0, b) == b && Xor(b, 0) == b
  {
    if b > 0 { XorZero(b / 2); }
  }

  function Pow2(n: nat): (p: nat)
    ensures p > 0
  {
    if n == 0 then 1 else 2 * Pow2(n - 1)
  }

  /** Bits that do not meet are added. */
  lemma {:induction false} XorApart(a: nat, b: nat, n: nat)
    requires b < Pow2(n)
    ensures Xor(a * Pow2(n), b) == a * Pow2(n) + b
  {
    if n == 0 {
      XorZero(a);
    } else {
      var p := Pow2(n - 1);
      assert a * Pow2(n) == 2 * (a * p);
      XorApart(a, b / 2, n - 1);
      XorStep(a * p, b);
    }
  }

  lemma {:induction false} XorStep(c: nat, b: nat)
    ensures Xor(2 * c, b) == b % 2 + 2 * Xor(c, b / 2)
  {
    Halves(c);
    Mod2(b % 2);
    if c == 0 && b == 0 { XorZero(0); }
  }

  lemma Halves(c: nat)
    ensures 2 * c / 2 == c && 2 * c % 2 == 0
  {}

  lemma Mod2(r: nat)
    requires r < 2
    ensures (0 + r) % 2 == r
  {}

  lemma TwelveBits()
    ensures Pow2(12) == 4096
  {
    assert Pow2(4) == 16;
    assert Pow2(8) == 256;
  }

  lemma KeyIsSum(x: nat, y: nat)
    requires x < 0x10_0000 && y < 4096
    ensures Key(x, y) == x * 4096 + y
  {
    hide Xor, Pow2;
    TwelveBits();
    XorApart(x, y, 12);
    SmallMod(x * 4096, WORD);
    SmallMod(y, WORD);
  }

  lemma SmallMod(a: nat, m: nat)
    requires a < m
    ensures a % m == a
  {}

  lemma KeyOfColumnZero(y: nat)
    requires y < WORD
    ensures Key(0, y) == y
  {
    hide Xor;
    XorZero(y);
    SmallMod(y, WORD);
  }

  lemma SameKeySamePoint(w: nat, h: nat, x: nat, y: nat, x': nat, y': nat)
    requires KeyedScreen(w, h) && x < w && x' < w && y < h && y' < h && Key(x, y) == Key(x', y')
    ensures x == x' && y == y'
  {
    hide Key;
    if w == 1 && h > 4096 {
      KeyOfColumnZero(y);
      KeyOfColumnZero(y');
    } else if h <= 4096 && w <= 0x10_0000 {
      KeyIsSum(x, y);
      KeyIsSum(x', y');
    }
  }

  /** Where keys meet: row 4096 runs into the next column, and the word's end into its start. */
  lemma KeysThatMeet()
    ensures Key(0, 4096) == Key(1, 0) && Key(0x10_0000, 0) == Key(0, 0) && Key(0, WORD) == Key(0, 0)
  {
    hide Xor;
    KeyOfColumnZero(4096);
    KeyOfColumnZero(0);
    XorZero(4096);
  }

  /** Points have keys of their own on a keyed screen and on no other. */
  lemma KeysDistinctExactly(w: nat, h: nat)
    ensures KeysDistinct(w, h) <==> KeyedScreen(w, h)
  {
    hide Key;
    if KeyedScreen(w, h) {
      forall x: nat, y: nat, x': nat, y': nat | x < w && x' < w && y < h && y' < h && Key(x, y) == Key(x', y')
        ensures x == x' && y == y'
      {
        SameKeySamePoint(w, h, x, y, x', y');
      }
    } else {
      KeysThatMeet();
    }
  }

  // ---------------------------------------------------------------- the screen and its cache

  datatype Sample = Sample(colour: Colour, gen: nat)

  ghost predicate SampleRight(s: Sample, frames: seq<Pixels>, x: nat, y: nat) {
    s.gen < |frames| && s.colour == frames[s.gen](x, y)
  }

  /** Every cached sample of a point is what the point was at the sample's generation. */
  ghost predicate CacheRight(cache: map<nat, Sample>, frames: seq<Pixels>, w: nat, h: nat) {
    forall x: nat, y: nat :: x < w && y < h && Key(x, y) in cache ==> SampleRight(cache[Key(x, y)], frames, x, y)
  }

  lemma CacheAdd(cache: map<nat, Sample>, frames: seq<Pixels>, w: nat, h: nat, x: nat, y: nat, s: Sample)
    requires CacheRight(cache, frames, w, h) && KeyedScreen(w, h)
    requires x < w && y < h && SampleRight(s, frames, x, y)
    ensures CacheRight(cache[Key(x, y) := s], frames, w, h)
  {
    KeysDistinctExactly(w, h);
    hide Key, SampleRight;
    forall x': nat, y': nat | x' < w && y' < h && Key(x', y') in cache[Key(x, y) := s]
      ensures SampleRight(cache[Key(x, y) := s][Key(x', y')], frames, x', y')
    {
      if Key(x', y') == Key(x, y) {
        assert x' == x && y' == y;
        assert cache[Key(x, y) := s][Key(x', y')] == s;
      } else {
        assert Key(x', y') in cache;
        assert cache[Key(x, y) := s][Key(x', y')] == cache[Key(x', y')];
      }
    }
  }

  /** A cached sample that no paint has touched since is still right. */
  lemma CacheHit(cache: map<nat, Sample>, frames: seq<Pixels>, history: seq<Rect>, w: nat, h: nat, x: nat, y: nat)
    requires CacheRight(cache, frames, w, h) && Recorded(frames, history)
    requires x < w && y < h && Key(x, y) in cache
    requires !(cache[Key(x, y)].gen < |history|
               && (|history| - cache[Key(x, y)].gen > DIRTY_LOG
                   || TouchedSince(history, cache[Key(x, y)].gen, Rect(x, y, 1, 1))))
    ensures cache[Key(x, y)].colour == frames[|history|](x, y)
  {
    hide Key, Recorded;
    var s := cache[Key(x, y)];
    assert SampleRight(s, frames, x, y);
    if s.gen < |history| {
      Untouched(frames, history, s.gen, x, y);
    } else {
      FramesCount(frames, history);
    }
  }

  lemma FramesCount(frames: seq<Pixels>, history: seq<Rect>)
    requires Recorded(frames, history)
    ensures |frames| == |history| + 1
  {}

  lemma NoCache(frames: seq<Pixels>, w: nat, h: nat)
    ensures CacheRight(map[], frames, w, h)
  {}

  class GuestScreen {
    const log: DirtyLog
    const width: nat
    const height: nat
    var px: Pixels
    var cache: map<nat, Sample>
    ghost var frames: seq<Pixels>

    ghost predicate Valid()
      reads this, log, log.log
    {
      && log.Valid()
      && Recorded(frames, log.history)
      && px == frames[|log.history|]
      && KeyedScreen(width, height)
      && CacheRight(cache, frames, width, height)
    }

    constructor (width: nat, height: nat, px: Pixels)
      requires KeyedScreen(width, height)
      ensures Valid() && fresh(log) && fresh(log.log) && log.history == []
      ensures this.px == px && this.width == width && this.height == height
    {
      log := new DirtyLog();
      this.width, this.height := width, height;
      this.px := px;
      cache := map[];
      frames := [px];
    }

    /** The guest painted: the new pixels are copied in and their rectangle is noted. */
    method Paint(d: Rect, after: Pixels)
      requires Valid() && Painted(px, after, d)
      modifies this`px, this`frames, log, log.log
      ensures Valid() && px == after && log.history == old(log.history) + [d]
    {
      px := after;
      frames := frames + [after];
      log.NoteDirty(d);
    }

    method DropSampleCache()
      requires Valid()
      modifies this`cache
      ensures Valid() && cache == map[]
    {
      cache := map[];
    }

    /** A cached sample is the pixel that is on the screen now, however long ago it was taken. */
    method SampleColour(x: nat, y: nat) returns (c: Colour)
      requires Valid() && x < width && y < height
      modifies this`cache
      ensures Valid() && c == px(x, y)
    {
      hide Key, KeyedScreen, CacheRight, Recorded, TouchedSince;
      FramesCount(frames, log.history);
      var key := Key(x, y);
      if key in cache {
        var had := cache[key];
        var dirty := log.RectDirtySince(had.gen, x, y, 1, 1);
        if !dirty {
          CacheHit(cache, frames, log.history, width, height, x, y);
          return had.colour;
        }
      }
      c := px(x, y);
      if |cache| > 512 {
        cache := map[];
        NoCache(frames, width, height);
      }
      CacheAdd(cache, frames, width, height, x, y, Sample(c, log.dirtyGen));
      cache := cache[key := Sample(c, log.dirtyGen)];
    }
  }
}
