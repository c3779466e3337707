/**
 The checked register access of PVMON and PVFETCH (guest/pvmon/pvmon.c, guest/fetch/fetch.c): an index
 write and a data access that a mouse interrupt can come between, read back and repeated.
 */
module Registers {

  /** The cursor registers, the only ones the interrupt handler touches. */
  predicate Cursor(i: nat) { 0x1D <= i <= 0x1F }

  datatype Blow = Blow(writes: map<nat, nat>, index: nat)

  predicate FromHandler(b: Blow) { Cursor(b.index) && forall i :: i in b.writes ==> Cursor(i) }

  /** One interrupt: cursor registers written, and the index left at one of them. */
  type Strike = b: Blow | FromHandler(b) witness Blow(map[], 0x1D)

  /** The adapter: the index register and the registers behind it; those never written hold 0. */
  datatype Cells = Cells(index: nat, regs: map<nat, nat>)

  function At(regs: map<nat, nat>, i: nat): nat { if i in regs then regs[i] else 0 }

  function Struck(a: Cells, ss: seq<Strike>): Cells {
    if ss == [] then a
    else
      var n := |ss| - 1;
      Cells(ss[n].index, Struck(a, ss[..n]).regs + ss[n].writes)
  }

  /** The handler may leave any of the three cursor registers written and pointed at, and no other. */
  lemma HandlerSays(b: Blow)
    ensures FromHandler(b) <==> (b.index == 0x1D || b.index == 0x1E || b.index == 0x1F)
                                && forall i :: i in b.writes ==> i == 0x1D || i == 0x1E || i == 0x1F
  {}

  /** The interrupts that come before each step of a call: three steps a try. */
  type Timing = seq<seq<Strike>>

  function Before(env: Timing, k: nat): seq<Strike> { if k < |env| then env[k] else [] }

  function InTry(env: Timing, t: nat): nat {
    |Before(env, 3 * t)| + |Before(env, 3 * t + 1)| + |Before(env, 3 * t + 2)|
  }

  /** How many interrupts strike a call. */
  function Strikes(env: Timing): nat {
    InTry(env, 0) + InTry(env, 1) + InTry(env, 2) + InTry(env, 3)
  }

  // ---------------------------------------------------------------- one try

  function Pointed(a: Cells, idx: nat, env: Timing, t: nat): Cells {
    Struck(Struck(a, Before(env, 3 * t)).(index := idx), Before(env, 3 * t + 1))
  }

  function Stored(a: Cells, v: nat): Cells { a.(regs := a.regs[a.index := v]) }

  // ---------------------------------------------------------------- the calls

  /** What `rd` returns, and the adapter afterwards, when `t` tries have gone. */
  function RdFrom(a: Cells, idx: nat, env: Timing, t: nat): (nat, Cells)
    requires t < 4
    decreases 4 - t
  {
    var p := Pointed(a, idx, env, t);
    var v, end := At(p.regs, p.index), Struck(p, Before(env, 3 * t + 2));
    if end.index != idx && t < 3 then RdFrom(end, idx, env, t + 1) else (v, end)
  }

  function WrFrom(a: Cells, idx: nat, v: nat, env: Timing, t: nat): Cells
    requires t < 4
    decreases 4 - t
  {
    var end := Struck(Stored(Pointed(a, idx, env, t), v), Before(env, 3 * t + 2));
    if end.index != idx && t < 3 then WrFrom(end, idx, v, env, t + 1) else end
  }

  class Adapter {
    var index: nat
    var regs: map<nat, nat>

    function Now(): Cells
      reads this
    {
      Cells(index, regs)
    }

    /** Interrupts strike. */
    method Interrupt(ss: seq<Strike>)
      modifies this
      ensures Now() == Struck(old(Now()), ss)
    {
      var i := 0;
      while i < |ss|
        invariant i <= |ss| && Now() == Struck(old(Now()), ss[..i])
      {
        assert ss[..i + 1][..i] == ss[..i];
        regs := regs + ss[i].writes;
        index := ss[i].index;
        i := i + 1;
      }
      assert ss[..i] == ss;
    }

    method OutIndex(idx: nat, ss: seq<Strike>)
      modifies this
      ensures Now() == Struck(old(Now()), ss).(index := idx)
    {
      Interrupt(ss);
      index := idx;
    }

    method OutData(v: nat, ss: seq<Strike>)
      modifies this
      ensures Now() == Stored(Struck(old(Now()), ss), v)
    {
      Interrupt(ss);
      regs := regs[index := v];
    }

    method InData(ss: seq<Strike>) returns (v: nat)
      modifies this
      ensures Now() == Struck(old(Now()), ss) && v == At(regs, index)
    {
      Interrupt(ss);
      v := At(regs, index);
    }

    method InIndex(ss: seq<Strike>) returns (i: nat)
      modifies this
      ensures Now() == Struck(old(Now()), ss) && i == index
    {
      Interrupt(ss);
      i := index;
    }

    method Rd(idx: nat, env: Timing) returns (v: nat)
      modifies this
      ensures (v, Now()) == RdFrom(old(Now()), idx, env, 0)
    {
      hide Struck, At, Before;
      var tries, back := 4, 0;
      var t: nat := 0;
      OutIndex(idx, Before(env, 0));
      v := InData(Before(env, 1));
      back := InIndex(Before(env, 2));
      while back != idx && tries > 1
        invariant t == 4 - tries && 1 <= tries <= 4 && back == index
        invariant RdFrom(old(Now()), idx, env, 0)
               == if back != idx && tries > 1 then RdFrom(Now(), idx, env, t + 1) else (v, Now())
        decreases tries
      {
        tries := tries - 1;
        t := t + 1;
        OutIndex(idx, Before(env, 3 * t));
        v := InData(Before(env, 3 * t + 1));
        back := InIndex(Before(env, 3 * t + 2));
      }
    }

    method Wr(idx: nat, v: nat, env: Timing)
      modifies this
      ensures Now() == WrFrom(old(Now()), idx, v, env, 0)
    {
      hide Struck, At, Before;
      var tries, back := 4, 0;
      var t: nat := 0;
      OutIndex(idx, Before(env, 0));
      OutData(v, Before(env, 1));
      back := InIndex(Before(env, 2));
      while back != idx && tries > 1
        invariant t == 4 - tries && 1 <= tries <= 4 && back == index
        invariant WrFrom(old(Now()), idx, v, env, 0)
               == if back != idx && tries > 1 then WrFrom(Now(), idx, v, env, t + 1) else Now()
        decreases tries
      {
        tries := tries - 1;
        t := t + 1;
        OutIndex(idx, Before(env, 3 * t));
        OutData(v, Before(env, 3 * t + 1));
        back := InIndex(Before(env, 3 * t + 2));
      }
    }
  }

  // ---------------------------------------------------------------- what strikes do

  lemma {:induction false} StruckFacts(a: Cells, ss: seq<Strike>)
    ensures ss == [] ==> Struck(a, ss) == a
    ensures ss != [] ==> Cursor(Struck(a, ss).index)
    ensures forall i :: !Cursor(i) ==> At(Struck(a, ss).regs, i) == At(a.regs, i)
  {
    if ss != [] {
      StruckFacts(a, ss[..|ss| - 1]);
    }
  }

  /** Every register but the cursor's and `idx` holds what it held. */
  ghost predicate Untouched(a: Cells, b: Cells, idx: nat) {
    forall i :: !Cursor(i) && i != idx ==> At(a.regs, i) == At(b.regs, i)
  }

  /** Nothing came between the index write and the data access of a try. */
  predicate Paired(env: Timing, t: nat) { Before(env, 3 * t + 1) == [] }

  predicate Confirmed(env: Timing, t: nat) { Paired(env, t) && Before(env, 3 * t + 2) == [] }

  /** The try a call ends on. */
  function LastTry(env: Timing, t: nat): (n: nat)
    requires t < 4
    ensures t <= n < 4
    decreases 4 - t
  {
    if Confirmed(env, t) || t == 3 then t else LastTry(env, t + 1)
  }

  lemma TryFacts(a: Cells, idx: nat, env: Timing, t: nat)
    requires !Cursor(idx)
    ensures var p := Pointed(a, idx, env, t);
      && (p.index == idx <==> Paired(env, t)) && (!Paired(env, t) ==> Cursor(p.index))
      && forall i :: !Cursor(i) ==> At(p.regs, i) == At(a.regs, i)
  {
    StruckFacts(a, Before(env, 3 * t));
    StruckFacts(Struck(a, Before(env, 3 * t)).(index := idx), Before(env, 3 * t + 1));
    hide Struck, Before;
  }

  /** `rd` leaves every register but the cursor's alone, and returns the register asked for when its last try
      was not broken in two. */
  lemma {:induction false} RdExactly(a: Cells, idx: nat, env: Timing, t: nat)
    requires !Cursor(idx) && t < 4
    ensures var (v, end) := RdFrom(a, idx, env, t);
      && (forall i :: !Cursor(i) ==> At(end.regs, i) == At(a.regs, i))
      && (Paired(env, LastTry(env, t)) ==> v == At(a.regs, idx))
    decreases 4 - t
  {
    hide Struck, Before, At, Pointed;
    TryFacts(a, idx, env, t);
    var p := Pointed(a, idx, env, t);
    StruckFacts(p, Before(env, 3 * t + 2));
    if !Confirmed(env, t) && t < 3 {
      RdExactly(Struck(p, Before(env, 3 * t + 2)), idx, env, t + 1);
    }
  }

  /** Some try from `t` on kept its index and data together. */
  predicate SomePaired(env: Timing, t: nat)
    requires t < 4
    decreases 4 - t
  {
    Paired(env, t) || (t < 3 && SomePaired(env, t + 1))
  }

  /** `wr` stores exactly when some try was not broken in two, and otherwise touches the register not at
      all; either way only cursor registers change besides. */
  lemma {:induction false} WrExactly(a: Cells, idx: nat, v: nat, env: Timing, t: nat)
    requires !Cursor(idx) && t < 4
    ensures var end := WrFrom(a, idx, v, env, t);
      && Untouched(a, end, idx)
      && At(end.regs, idx) == if SomePaired(env, t) then v else At(a.regs, idx)
    decreases 4 - t
  {
    hide Struck, Before, Pointed, At;
    TryFacts(a, idx, env, t);
    var p := Pointed(a, idx, env, t);
    StoredFacts(p, v);
    StruckFacts(Stored(p, v), Before(env, 3 * t + 2));
    if !Confirmed(env, t) && t < 3 {
      WrExactly(Struck(Stored(p, v), Before(env, 3 * t + 2)), idx, v, env, t + 1);
    }
  }

  lemma StoredFacts(p: Cells, v: nat)
    ensures Stored(p, v).index == p.index && At(Stored(p, v).regs, p.index) == v
    ensures forall i :: i != p.index ==> At(Stored(p, v).regs, i) == At(p.regs, i)
  {}

  /** Three interrupts cannot break every try. */
  lemma FewStrikes(env: Timing)
    requires Strikes(env) <= 3
    ensures Paired(env, LastTry(env, 0)) && SomePaired(env, 0)
  {
    hide Before;
    Clean(env, 0);
    Clean(env, 1);
    Clean(env, 2);
    Clean(env, 3);
    assert Confirmed(env, 0) || Confirmed(env, 1) || Confirmed(env, 2) || Paired(env, 3);
    if Confirmed(env, 0) {
      assert LastTry(env, 0) == 0;
    } else if Confirmed(env, 1) {
      assert LastTry(env, 0) == LastTry(env, 1) == 1 && SomePaired(env, 1);
    } else if Confirmed(env, 2) {
      assert LastTry(env, 0) == LastTry(env, 1) == LastTry(env, 2) == 2 && SomePaired(env, 2) && SomePaired(env, 1);
    } else {
      assert LastTry(env, 0) == LastTry(env, 1) == LastTry(env, 2) == LastTry(env, 3) == 3;
      assert SomePaired(env, 3) && SomePaired(env, 2) && SomePaired(env, 1);
    }
  }

  lemma Clean(env: Timing, t: nat)
    ensures InTry(env, t) == 0 ==> Confirmed(env, t)
    ensures !Paired(env, t) ==> InTry(env, t) > 0
  {}

  // ---------------------------------------------------------------- the bound is sharp

  ghost predicate SameCursor(a: Cells, b: Cells) {
    forall i :: Cursor(i) ==> At(a.regs, i) == At(b.regs, i)
  }

  lemma {:induction false} StruckSame(a: Cells, b: Cells, ss: seq<Strike>)
    requires SameCursor(a, b)
    ensures SameCursor(Struck(a, ss), Struck(b, ss))
    ensures ss != [] || a.index == b.index ==> Struck(a, ss).index == Struck(b, ss).index
  {
    if ss != [] {
      StruckSame(a, b, ss[..|ss| - 1]);
    }
  }

  lemma PointedSame(a: Cells, b: Cells, idx: nat, env: Timing, t: nat)
    requires SameCursor(a, b)
    ensures SameCursor(Pointed(a, idx, env, t), Pointed(b, idx, env, t))
    ensures Pointed(a, idx, env, t).index == Pointed(b, idx, env, t).index
  {
    hide Struck, Before, At;
    StruckSame(a, b, Before(env, 3 * t));
    StruckSame(Struck(a, Before(env, 3 * t)).(index := idx), Struck(b, Before(env, 3 * t)).(index := idx),
               Before(env, 3 * t + 1));
  }

  /** A call whose last try was broken returns the same whatever the register asked for holds. */
  lemma {:induction false} RdBlind(a: Cells, b: Cells, idx: nat, env: Timing, t: nat)
    requires !Cursor(idx) && t < 4 && SameCursor(a, b) && !Paired(env, LastTry(env, t))
    ensures RdFrom(a, idx, env, t).0 == RdFrom(b, idx, env, t).0
    decreases 4 - t
  {
    hide Struck, Before, At, Pointed;
    var p, q := Pointed(a, idx, env, t), Pointed(b, idx, env, t);
    PointedSame(a, b, idx, env, t);
    TryFacts(a, idx, env, t);
    StruckFacts(p, Before(env, 3 * t + 2));
    StruckFacts(q, Before(env, 3 * t + 2));
    StruckSame(p, q, Before(env, 3 * t + 2));
    if !Confirmed(env, t) && t < 3 {
      RdBlind(Struck(p, Before(env, 3 * t + 2)), Struck(q, Before(env, 3 * t + 2)), idx, env, t + 1);
    }
  }

  /** A read is right whatever the registers hold exactly when its last try was not broken in two. */
  lemma RdRightExactly(idx: nat, env: Timing)
    requires !Cursor(idx)
    ensures Paired(env, LastTry(env, 0)) <==> (forall a: Cells :: RdFrom(a, idx, env, 0).0 == At(a.regs, idx))
  {
    hide RdFrom, Paired, LastTry;
    forall a: Cells | Paired(env, LastTry(env, 0))
      ensures RdFrom(a, idx, env, 0).0 == At(a.regs, idx)
    {
      RdExactly(a, idx, env, 0);
    }
    if !Paired(env, LastTry(env, 0)) {
      var v := RdFrom(Cells(0, map[]), idx, env, 0).0;
      var other := Cells(0, map[idx := v + 1]);
      RdBlind(Cells(0, map[]), other, idx, env, 0);
      assert RdFrom(other, idx, env, 0).0 != At(other.regs, idx);
    }
  }

  /** Four interrupts, one in the middle of each try, do break both calls. */
  lemma FourAreTooMany(idx: nat)
    requires !Cursor(idx)
    ensures var s: seq<Strike> := [Blow(map[], 0x1D)];
      var env: Timing := [[], s, [], [], s, [], [], s, [], [], s, []];
      Strikes(env) == 4 && !Paired(env, LastTry(env, 0)) && !SomePaired(env, 0)
  {
    var s: seq<Strike> := [Blow(map[], 0x1D)];
    var env: Timing := [[], s, [], [], s, [], [], s, [], [], s, []];
    assert Before(env, 1) == s && Before(env, 4) == s && Before(env, 7) == s && Before(env, 10) == s;
    assert LastTry(env, 0) == LastTry(env, 1) == LastTry(env, 2) == LastTry(env, 3) == 3;
    assert !SomePaired(env, 3) && !SomePaired(env, 2) && !SomePaired(env, 1);
  }

  /** A cursor register cannot be written this way: one interrupt after the write undoes it unseen. */
  lemma CursorWriteLost(idx: nat, v: nat)
    requires Cursor(idx)
    ensures var env: Timing := [[], [], [Blow(map[idx := v + 1], idx)]];
      Strikes(env) == 1 && forall a: Cells :: At(WrFrom(a, idx, v, env, 0).regs, idx) == v + 1
  {
    var s: Strike := Blow(map[idx := v + 1], idx);
    var env: Timing := [[], [], [s]];
    forall a: Cells
      ensures At(WrFrom(a, idx, v, env, 0).regs, idx) == v + 1
    {
      assert Before(env, 0) == [] && Before(env, 1) == [] && Before(env, 2) == [s];
      var p := Stored(a.(index := idx), v);
      assert Struck(p, [s]) == Cells(idx, p.regs + s.writes) by {
        assert [s][..0] == [];
      }
    }
  }

  // ---------------------------------------------------------------- whole runs

  datatype Access = Get(idx: nat) | Put(idx: nat, v: nat)

  /** Accesses with interrupts: what the reads returned, and the adapter. */
  function Run(a: Cells, calls: seq<Access>, envs: seq<Timing>): (seq<nat>, Cells)
    requires |envs| == |calls|
  {
    if calls == [] then ([], a)
    else
      var n := |calls| - 1;
      var (got, b) := Run(a, calls[..n], envs[..n]);
      match calls[n]
      case Get(idx) => (var (v, c) := RdFrom(b, idx, envs[n], 0); (got + [v], c))
      case Put(idx, v) => (got, WrFrom(b, idx, v, envs[n], 0))
  }

  /** The same accesses to plain registers. */
  function PlainRun(regs: map<nat, nat>, calls: seq<Access>): (seq<nat>, map<nat, nat>) {
    if calls == [] then ([], regs)
    else
      var n := |calls| - 1;
      var (got, now) := PlainRun(regs, calls[..n]);
      match calls[n]
      case Get(idx) => (got + [At(now, idx)], now)
      case Put(idx, v) => (got, now[idx := v])
  }

  /** With at most three interrupts a call, a program that keeps off the cursor registers sees plain
      registers, however many calls it makes. */
  lemma {:induction false} RunIsPlain(a: Cells, calls: seq<Access>, envs: seq<Timing>)
    requires |envs| == |calls|
    requires forall i :: 0 <= i < |calls| ==> calls[i].idx < 0x1D || 0x1F < calls[i].idx
    requires forall i :: 0 <= i < |envs| ==> Strikes(envs[i]) <= 3
    ensures Run(a, calls, envs).0 == PlainRun(a.regs, calls).0
    ensures forall i: nat :: i < 0x1D || 0x1F < i ==>
      At(Run(a, calls, envs).1.regs, i) == At(PlainRun(a.regs, calls).1, i)
    decreases |calls|
  {
    hide RdFrom, WrFrom, Strikes;
    if calls != [] {
      var n := |calls| - 1;
      RunIsPlain(a, calls[..n], envs[..n]);
      var b := Run(a, calls[..n], envs[..n]).1;
      FewStrikes(envs[n]);
      match calls[n]
      case Get(idx) => RdExactly(b, idx, envs[n], 0);
      case Put(idx, v) => WrExactly(b, idx, v, envs[n], 0);
    }
  }
}
