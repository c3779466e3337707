/**
 The host-to-guest command channel: a queue in the page, one register pair in the adapter, and a
 guest that polls it, takes a command in three separate accesses and clears it. Host and guest steps
 interleave in any order.
 */
module Commands {
  import opened Bytes

  const CMD_SCROLL: nat := 7
  const PATIENCE: int := 2000
  const MAX_SCROLLS: nat := 3
  const MAX_LINES: nat := 15

  /** A command and its 16-bit argument. A scroll's argument is what to scroll and which way in the
      low twelve bits and a number of lines above them. */
  datatype Command = Command(cmd: nat, arg: nat)

  function Way(c: Command): nat { c.arg % 4096 }

  function Lines(c: Command): nat { c.arg / 4096 }

  predicate IsScroll(c: Command) { c.cmd == CMD_SCROLL }

  predicate SameScroll(a: Command, b: Command) { IsScroll(a) && IsScroll(b) && Way(a) == Way(b) }

  // ---------------------------------------------------------------- sequences of commands

  function Others(s: seq<Command>): seq<Command> {
    if s == [] then []
    else Others(s[..|s| - 1]) + if IsScroll(s[|s| - 1]) then [] else [s[|s| - 1]]
  }

  function Scrolls(s: seq<Command>): nat {
    if s == [] then 0
    else Scrolls(s[..|s| - 1]) + if IsScroll(s[|s| - 1]) then 1 else 0
  }

  function SumLines(s: seq<Command>): nat {
    if s == [] then 0
    else SumLines(s[..|s| - 1]) + if IsScroll(s[|s| - 1]) then Lines(s[|s| - 1]) else 0
  }

  /** No two scrolls of the same thing the same way wait one behind the other. */
  ghost predicate NoTwins(s: seq<Command>) {
    forall i :: 0 <= i < |s| - 1 ==> !SameScroll(s[i], s[i + 1])
  }

  lemma Snoc(s: seq<Command>, c: Command)
    ensures Others(s + [c]) == Others(s) + (if c.cmd == 7 then [] else [c])
    ensures Scrolls(s + [c]) == Scrolls(s) + (if c.cmd == 7 then 1 else 0)
    ensures SumLines(s + [c]) == SumLines(s) + (if c.cmd == 7 then c.arg / 4096 else 0)
  {
    assert (s + [c])[..|s|] == s;
  }

  lemma {:induction false} Joined(s: seq<Command>, t: seq<Command>)
    ensures Others(s + t) == Others(s) + Others(t)
    ensures Scrolls(s + t) == Scrolls(s) + Scrolls(t)
    ensures SumLines(s + t) == SumLines(s) + SumLines(t)
    decreases |t|
  {
    if t == [] {
      assert s + t == s;
    } else {
      var n := |t| - 1;
      assert s + t == s + t[..n] + [t[n]];
      Joined(s, t[..n]);
      Snoc(s + t[..n], t[n]);
    }
  }

  /** Two scrolls merged into one. */
  function Merged(last: Command, c: Command): Command
  {
    Command(last.cmd, Way(c) + 4096 * Min(MAX_LINES, Lines(last) + Lines(c)))
  }

  lemma MergedScroll(last: Command, c: Command)
    requires SameScroll(last, c)
    ensures IsScroll(Merged(last, c)) && Way(Merged(last, c)) == Way(last)
    ensures Lines(Merged(last, c)) == Min(MAX_LINES, Lines(last) + Lines(c))
  {
    var n := Min(MAX_LINES, Lines(last) + Lines(c));
    assert (Way(c) + 4096 * n) / 4096 == n;
  }

  // ---------------------------------------------------------------- what a request does

  /** What becomes of a request: it is put in the queue, folded into the last one there, or dropped. */
  datatype Fate = Queued | Folded | Dropped

  function FateOf(queue: seq<Command>, c: Command): Fate {
    if IsScroll(c) && queue != [] && SameScroll(queue[|queue| - 1], c) then Folded
    else if IsScroll(c) && queue != [] && Scrolls(queue) >= MAX_SCROLLS then Dropped
    else Queued
  }

  /** A sequence of commands after a request, given its fate. */
  function After(s: seq<Command>, c: Command, fate: Fate): seq<Command>
    requires fate.Folded? ==> s != []
  {
    match fate
    case Queued => s + [c]
    case Folded => s[|s| - 1 := Merged(s[|s| - 1], c)]
    case Dropped => s
  }

  /** The lines a fold cannot carry. */
  function Excess(last: Command, c: Command): nat {
    if Lines(last) + Lines(c) > MAX_LINES then Lines(last) + Lines(c) - MAX_LINES else 0
  }

  /** Whatever a request's fate, commands that do not scroll are kept one for one and in order, the
      queue holds at most three scrolls and no twins, and every line asked for is accounted for. */
  lemma FateKeeps(queue: seq<Command>, c: Command)
    requires NoTwins(queue) && Scrolls(queue) <= MAX_SCROLLS
    ensures var fate := FateOf(queue, c);
      var now := After(queue, c, fate);
      && Others(now) == Others(queue) + Others([c])
      && NoTwins(now)
      && Scrolls(now) <= MAX_SCROLLS
      && SumLines(queue) + SumLines([c])
         == SumLines(now) + (if fate.Folded? then Excess(queue[|queue| - 1], c) else 0)
            + (if fate.Dropped? then Lines(c) else 0)
  {
    hide Others, Scrolls, SumLines, Merged, Way, NoTwins, Excess;
    var fate := FateOf(queue, c);
    Single(c);
    match fate
    case Queued =>
      Empty();
      Snoc(queue, c);
      TwinsQueued(queue, c);
    case Folded =>
      FoldKeeps(queue, c);
    case Dropped =>
  }

  lemma Single(c: Command)
    ensures Others([c]) == (if IsScroll(c) then [] else [c])
    ensures SumLines([c]) == (if IsScroll(c) then Lines(c) else 0)
  {
    assert [c][..0] == [];
  }

  lemma Empty()
    ensures Others([]) == [] && Scrolls([]) == 0 && SumLines([]) == 0
  {}

  lemma TwinsQueued(queue: seq<Command>, c: Command)
    requires NoTwins(queue) && (queue != [] ==> !SameScroll(queue[|queue| - 1], c))
    ensures NoTwins(queue + [c])
  {}

  lemma FoldKeeps(queue: seq<Command>, c: Command)
    requires queue != [] && SameScroll(queue[|queue| - 1], c) && NoTwins(queue)
    ensures var now := queue[|queue| - 1 := Merged(queue[|queue| - 1], c)];
      && Others(now) == Others(queue)
      && NoTwins(now)
      && Scrolls(now) == Scrolls(queue)
      && SumLines(queue) + Lines(c) == SumLines(now) + Excess(queue[|queue| - 1], c)
  {
    hide Others, Scrolls, SumLines, Merged, Way;
    var n := |queue| - 1;
    var front, last := queue[..n], queue[n];
    var now := queue[n := Merged(last, c)];
    MergedScroll(last, c);
    assert queue == front + [last] && now == front + [Merged(last, c)];
    Snoc(front, last);
    Snoc(front, Merged(last, c));
    forall i | 0 <= i < n
      ensures !SameScroll(now[i], now[i + 1])
    {
      assert !SameScroll(queue[i], queue[i + 1]);
    }
  }

  // ---------------------------------------------------------------- a request, in numbers

  /** How many scrolls wait in a queue. */
  function Waiting(q: seq<Command>): nat { |set i | 0 <= i < |q| && q[i].cmd == 7| }

  lemma {:induction false} ScrollsWait(q: seq<Command>)
    ensures Scrolls(q) == Waiting(q)
    decreases |q|
  {
    if q != [] {
      var n := |q| - 1;
      ScrollsWait(q[..n]);
      var before, now := set i | 0 <= i < n && q[..n][i].cmd == 7, set i | 0 <= i < |q| && q[i].cmd == 7;
      assert now == before + if q[n].cmd == 7 then {n} else {};
    }
  }

  /** The last in the queue scrolls the same thing the same way. */
  predicate Twin(q: seq<Command>, c: Command) {
    c.cmd == 7 && q != [] && q[|q| - 1].cmd == 7 && q[|q| - 1].arg % 4096 == c.arg % 4096
  }

  /** The lines past fifteen, which is what one scroll can carry. */
  function PastFifteen(q: seq<Command>, c: Command): nat
    requires Twin(q, c)
  {
    Max(0, q[|q| - 1].arg / 4096 + c.arg / 4096 - 15)
  }

  /** A request is folded into a twin at the tail of the queue and nowhere else; behind three scrolls a scroll
      with no twin is dropped; and any other request waits behind the others. */
  lemma RequestWaits(q: seq<Command>, c: Command)
    ensures var after, n := After(q, c, FateOf(q, c)), |q| - 1;
      && (Twin(q, c) ==>
            after == q[..n] + [Command(7, c.arg % 4096 + 4096 * Min(15, q[n].arg / 4096 + c.arg / 4096))])
      && (!Twin(q, c) && c.cmd == 7 && Waiting(q) >= 3 ==> after == q)
      && (!Twin(q, c) && (c.cmd != 7 || Waiting(q) < 3) ==> after == q + [c])
    ensures SaturatedBy(q, c) == if Twin(q, c) then PastFifteen(q, c) else 0
    ensures DroppedBy(q, c) == if !Twin(q, c) && c.cmd == 7 && Waiting(q) >= 3 then c.arg / 4096 else 0
    ensures FateOf(q, c).Folded? == Twin(q, c) && (FateOf(q, c).Dropped? ==> c.cmd == 7 && Waiting(q) >= 3)
  {
    hide Scrolls, Waiting;
    ScrollsWait(q);
    if Waiting(q) >= 3 {
      SomeWait(q);
    }
  }

  /** What a request adds to all that was asked for before, sent or waiting. */
  lemma RequestAdds(sent: seq<Command>, q: seq<Command>, c: Command)
    requires NoTwins(q) && Scrolls(q) <= MAX_SCROLLS
    ensures var now := sent + After(q, c, FateOf(q, c));
      && (Waiting(q) < 3 ==> DroppedBy(q, c) == 0)
      && (Waiting(q) < 3 || Twin(q, c) ==>
            SumLines(now) == SumLines(sent + q) + SumLines([c]) - if Twin(q, c) then PastFifteen(q, c) else 0)
      && (!Twin(q, c) && (c.cmd != 7 || Waiting(q) < 3) ==> |now| == |sent + q| + 1)
  {
    hide Others, SumLines, Scrolls, NoTwins, Merged, Waiting, Twin, PastFifteen, Excess;
    FateKeeps(q, c);
    RequestWaits(q, c);
    Joined(sent, q);
    Joined(sent, After(q, c, FateOf(q, c)));
  }

  lemma SomeWait(q: seq<Command>)
    ensures Waiting(q) > 0 ==> q != []
  {
    var waiting := set i | 0 <= i < |q| && q[i].cmd == 7;
    if waiting != {} {
      var i :| i in waiting;
    }
  }

  // ---------------------------------------------------------------- the channel

  /** How far the guest has got with a command: it reads the command, then the argument, and then
      writes zero over the command. */
  datatype Guest = Idle | HasCommand(cmd: nat) | HasBoth(taken: Command)

  /** The page's side: what is queued, when something was last sent, and the register pair. */
  datatype Line = Line(queue: seq<Command>, sentAt: int, reg: Command)

  /** The next command goes out once the last was taken, or once the guest has had two seconds. */
  function Pumped(l: Line, now: int): Line {
    if l.queue == [] || (l.reg.cmd != 0 && now - l.sentAt < PATIENCE) then l
    else Line(l.queue[1..], now, l.queue[0])
  }

  function Sent(l: Line, c: Command, now: int): Line {
    var fate := FateOf(l.queue, c);
    var queued := l.(queue := After(l.queue, c, fate));
    if fate.Queued? then Pumped(queued, now) else queued
  }

  /** What goes out to the register when a line with this queue is pumped, if it is pumped at all. */
  function Out(l: Line, queue: seq<Command>, pumps: bool, now: int): seq<Command> {
    if !pumps || queue == [] || (l.reg.cmd != 0 && now - l.sentAt < PATIENCE) then [] else [queue[0]]
  }

  /** The lines of a request that a full scroll cannot take, and those of one that is dropped. */
  function SaturatedBy(queue: seq<Command>, c: Command): nat {
    if FateOf(queue, c).Folded? then Excess(queue[|queue| - 1], c) else 0
  }

  function DroppedBy(queue: seq<Command>, c: Command): nat {
    if FateOf(queue, c).Dropped? then Lines(c) else 0
  }

  class Channel {
    var queue: seq<Command>
    var sentAt: int
    var reg: Command
    var guest: Guest
    ghost var requested: seq<Command>
    ghost var sent: seq<Command>
    ghost var taken: seq<Command>
    ghost var saturated: nat
    ghost var dropped: nat
    ghost var inTime: bool
    ghost var overruns: nat

    ghost function Now(): Line
      reads this
    {
      Line(queue, sentAt, reg)
    }

    ghost function InFlight(): seq<Command>
      reads this
    {
      if reg.cmd != 0 then [reg] else []
    }

    /** Nothing is lost, doubled, mixed up or reordered for as long as no command was overdue when
        another was sent over it. */
    ghost predicate InOrder()
      reads this
    {
      && sent == taken + InFlight()
      && (guest.HasCommand? ==> reg.cmd == guest.cmd)
      && (guest.HasBoth? ==> reg == guest.taken)
    }

    ghost predicate Valid()
      reads this
    {
      && (forall c :: c in queue ==> c.cmd != 0)
      && NoTwins(queue)
      && Scrolls(queue) <= MAX_SCROLLS
      && Others(sent + queue) == Others(requested)
      && SumLines(requested) == SumLines(sent + queue) + saturated + dropped
      && (inTime ==> InOrder())
      && (!guest.Idle? ==> reg.cmd != 0)
      && |sent| == |taken| + |InFlight()| + overruns
      && (inTime <==> overruns == 0)
    }

    constructor ()
      ensures Valid() && inTime && requested == [] && taken == [] && sent == [] && saturated == 0 && dropped == 0
      ensures Now() == Line([], 0, Command(0, 0)) && guest == Idle
    {
      queue, sentAt, reg, guest := [], 0, Command(0, 0), Idle;
      requested, sent, taken, saturated, dropped, inTime, overruns := [], [], [], 0, 0, true, 0;
    }

    /** Everything that arrived and everything still on its way, against everything asked for. */
    lemma Delivery()
      requires Valid() && inTime
      ensures Others(taken) + Others(InFlight()) + Others(queue) == Others(requested)
      ensures SumLines(requested)
           == SumLines(taken) + SumLines(InFlight()) + SumLines(queue) + saturated + dropped
    {
      hide Others, SumLines, Scrolls;
      Joined(taken, InFlight());
      Joined(sent, queue);
    }

    predicate Overdue(now: int)
      reads this
    {
      queue != [] && reg.cmd != 0 && now - sentAt >= PATIENCE
    }

    /** The next command goes out once the last was taken, or once the guest has had two seconds; in
        that case one of the two is gone, and which depends on how far the guest has got. */
    method PumpCommands(now: int)
      requires Valid()
      modifies this`queue, this`sentAt, this`reg, this`inTime, this`overruns, this`sent
      ensures Valid() && inTime == (old(inTime) && !old(Overdue(now)))
      ensures Now() == Pumped(old(Now()), now)
      ensures sent == old(sent) + Out(old(Now()), old(queue), true, now)
      ensures requested == old(requested) && taken == old(taken)
      ensures saturated == old(saturated) && dropped == old(dropped)
      ensures sent + queue == old(sent + queue)
    {
      hide Others, SumLines, NoTwins, Scrolls;
      if queue == [] { return; }
      if reg.cmd != 0 && now - sentAt < PATIENCE { return; }
      if Overdue(now) {
        inTime, overruns := false, overruns + 1;
      }
      TailKeeps(queue);
      HeadSent(sent, queue);
      sent := sent + [queue[0]];
      reg, queue, sentAt := queue[0], queue[1..], now;
    }

    method CountScrolls() returns (n: nat)
      ensures n == Scrolls(queue)
    {
      n := 0;
      for i := 0 to |queue|
        invariant n == Scrolls(queue[..i])
      {
        assert queue[..i + 1][..i] == queue[..i];
        if queue[i].cmd == CMD_SCROLL { n := n + 1; }
      }
      assert queue[..|queue|] == queue;
    }

    /** The queue after a request, before anything is sent. */
    method Enqueue(c: Command) returns (fate: Fate)
      modifies this`queue
      ensures fate == FateOf(old(queue), c) && queue == After(old(queue), c, fate)
    {
      hide Scrolls, Merged;
      if c.cmd == CMD_SCROLL && queue != [] {
        var n := |queue| - 1;
        var last := queue[n];
        if last.cmd == CMD_SCROLL && Way(last) == Way(c) {
          queue := queue[n := Merged(last, c)];
          return Folded;
        }
        var queued := CountScrolls();
        if queued >= MAX_SCROLLS {
          return Dropped;
        }
      }
      queue := queue + [c];
      fate := Queued;
    }

    /** A request: folded into a waiting scroll, dropped behind three of them, or queued and pumped. */
    method SendCommand(c: Command, now: int)
      requires Valid() && c.cmd != 0
      modifies this
      ensures Valid() && requested == old(requested) + [c] && taken == old(taken) && guest == old(guest)
      ensures Now() == Sent(old(Now()), c, now)
      ensures sent == old(sent)
                      + Out(old(Now()), After(old(queue), c, FateOf(old(queue), c)), FateOf(old(queue), c).Queued?, now)
      ensures saturated == old(saturated) + SaturatedBy(old(queue), c)
      ensures dropped == old(dropped) + DroppedBy(old(queue), c)
      ensures Waiting(old(queue)) < 3 ==> dropped == old(dropped)
      ensures Waiting(old(queue)) < 3 || Twin(old(queue), c) ==>
        SumLines(sent + queue) == old(SumLines(sent + queue)) + SumLines([c])
                                  - if Twin(old(queue), c) then PastFifteen(old(queue), c) else 0
      ensures !Twin(old(queue), c) && (c.cmd != 7 || Waiting(old(queue)) < 3) ==>
        |sent + queue| == |old(sent + queue)| + 1
      ensures sent + queue == old(sent) + After(old(queue), c, FateOf(old(queue), c))
      ensures inTime == (old(inTime) && !(FateOf(old(queue), c).Queued? && old(reg.cmd) != 0
                                          && now - old(sentAt) >= PATIENCE))
    {
      hide Others, SumLines, Scrolls, NoTwins, Merged, Lines, Way, Excess, Waiting, Twin, PastFifteen;
      ghost var was := queue;
      FateKeeps(queue, c);
      RequestAdds(sent, queue, c);
      Joined(sent, was);
      Joined(requested, [c]);
      var fate := Enqueue(c);
      Joined(sent, queue);
      AfterNonzero(was, c, fate);
      requested := requested + [c];
      saturated := saturated + SaturatedBy(was, c);
      dropped := dropped + DroppedBy(was, c);
      if fate.Queued? {
        PumpCommands(now);
      }
    }

    // The guest's side, one register access at a time.

    method ReadCommand()
      requires Valid() && guest.Idle?
      modifies this`guest
      ensures Valid()
      ensures guest == if reg.cmd != 0 then HasCommand(reg.cmd) else Idle
    {
      if reg.cmd != 0 { guest := HasCommand(reg.cmd); }
    }

    method ReadArgument()
      requires Valid() && guest.HasCommand?
      modifies this`guest
      ensures Valid() && guest == HasBoth(Command(old(guest).cmd, reg.arg))
    {
      guest := HasBoth(Command(guest.cmd, reg.arg));
    }

    /** The guest clears the command and has it; in time, it is the very command that was sent. */
    method Acknowledge()
      requires Valid() && guest.HasBoth?
      modifies this`guest, this`reg, this`taken
      ensures Valid() && guest.Idle? && InFlight() == []
      ensures Now() == old(Now()).(reg := old(reg).(cmd := 0))
      ensures taken == old(taken) + [old(guest).taken]
      ensures inTime ==> [old(guest).taken] == old(InFlight())
    {
      taken := taken + [guest.taken];
      reg := reg.(cmd := 0);
      guest := Idle;
    }
  }

  lemma AfterNonzero(queue: seq<Command>, c: Command, fate: Fate)
    requires (forall d :: d in queue ==> d.cmd != 0) && c.cmd != 0 && (fate.Folded? ==> queue != [])
    ensures forall d :: d in After(queue, c, fate) ==> d.cmd != 0
  {
    if fate.Folded? { assert queue[|queue| - 1] in queue; }
  }

  lemma HeadSent(sent: seq<Command>, queue: seq<Command>)
    requires queue != []
    ensures queue[0] in queue && forall c :: c in queue[1..] ==> c in queue
    ensures sent + queue == (sent + [queue[0]]) + queue[1..]
  {
    assert queue == [queue[0]] + queue[1..];
  }

  lemma TailKeeps(queue: seq<Command>)
    requires queue != []
    ensures NoTwins(queue) ==> NoTwins(queue[1..])
    ensures Scrolls(queue[1..]) <= Scrolls(queue)
  {
    assert queue == [queue[0]] + queue[1..];
    Joined([queue[0]], queue[1..]);
    if NoTwins(queue) {
      forall i | 0 <= i < |queue[1..]| - 1
        ensures !SameScroll(queue[1..][i], queue[1..][i + 1])
      {
        assert !SameScroll(queue[i + 1], queue[i + 1 + 1]);
      }
    }
  }

  // ---------------------------------------------------------------- whole runs

  datatype Step = Send(c: Command) | Pump | GuestStep

  /** Requests, the page's timer and the guest's accesses, at the times they happen. */
  datatype Event = Event(at: int, step: Step)

  function Requests(run: seq<Event>): seq<Command> {
    if run == [] then []
    else Requests(run[..|run| - 1]) + if run[|run| - 1].step.Send? then [run[|run| - 1].step.c] else []
  }

  /** Both sides: the line, how far the guest has got, and what it has taken. */
  datatype Sides = Sides(line: Line, guest: Guest, taken: seq<Command>)

  function GuestMoves(s: Sides): Sides {
    match s.guest
    case Idle => if s.line.reg.cmd != 0 then s.(guest := HasCommand(s.line.reg.cmd)) else s
    case HasCommand(cmd) => s.(guest := HasBoth(Command(cmd, s.line.reg.arg)))
    case HasBoth(c) => Sides(s.line.(reg := s.line.reg.(cmd := 0)), Idle, s.taken + [c])
  }

  function Moved(s: Sides, e: Event): Sides {
    match e.step
    case Send(c) => s.(line := Sent(s.line, c, e.at))
    case Pump => s.(line := Pumped(s.line, e.at))
    case GuestStep => GuestMoves(s)
  }

  /** Where an interleaving ends. */
  function RunOf(run: seq<Event>): Sides {
    if run == [] then Sides(Line([], 0, Command(0, 0)), Idle, [])
    else Moved(RunOf(run[..|run| - 1]), run[|run| - 1])
  }

  /** An event that sends over a command the guest has had for two seconds and not taken. */
  predicate Overruns(l: Line, e: Event) {
    && l.reg.cmd != 0 && e.at - l.sentAt >= PATIENCE
    && (match e.step
        case Send(c) => FateOf(l.queue, c).Queued?
        case Pump => l.queue != []
        case GuestStep => false)
  }

  /** The guest takes every command within two seconds of its being sent, or nothing is sent over it. */
  predicate OnTime(run: seq<Event>) {
    run == [] || (OnTime(run[..|run| - 1]) && !Overruns(RunOf(run[..|run| - 1]).line, run[|run| - 1]))
  }

  function InRegister(l: Line): seq<Command> { if l.reg.cmd != 0 then [l.reg] else [] }

  /** What one event puts into the register. */
  function OutBy(l: Line, e: Event): seq<Command> {
    match e.step
    case Send(c) => Out(l, After(l.queue, c, FateOf(l.queue, c)), FateOf(l.queue, c).Queued?, e.at)
    case Pump => Out(l, l.queue, true, e.at)
    case GuestStep => []
  }

  /** Everything a run put into the register, in order. */
  function SentBy(run: seq<Event>): seq<Command> {
    if run == [] then []
    else SentBy(run[..|run| - 1]) + OutBy(RunOf(run[..|run| - 1]).line, run[|run| - 1])
  }

  /** The lines a run's folds could not carry. */
  function SaturatedIn(run: seq<Event>): nat {
    if run == [] then 0
    else
      var n := |run| - 1;
      SaturatedIn(run[..n]) + if run[n].step.Send? then SaturatedBy(RunOf(run[..n]).line.queue, run[n].step.c) else 0
  }

  /** The lines a run's drops threw away. */
  function DroppedIn(run: seq<Event>): nat {
    if run == [] then 0
    else
      var n := |run| - 1;
      DroppedIn(run[..n]) + if run[n].step.Send? then DroppedBy(RunOf(run[..n]).line.queue, run[n].step.c) else 0
  }

  /** How many commands were sent over another. */
  function Overrun(run: seq<Event>): nat {
    if run == [] then 0
    else Overrun(run[..|run| - 1]) + if Overruns(RunOf(run[..|run| - 1]).line, run[|run| - 1]) then 1 else 0
  }

  predicate Sane(run: seq<Event>) {
    forall i :: 0 <= i < |run| && run[i].step.Send? ==> run[i].step.c.cmd != 0
  }

  /** One event. */
  method Happen(ch: Channel, e: Event)
    requires ch.Valid() && (e.step.Send? ==> e.step.c.cmd != 0)
    modifies ch
    ensures ch.Valid() && ch.requested == old(ch.requested) + (if e.step.Send? then [e.step.c] else [])
    ensures Sides(ch.Now(), ch.guest, ch.taken) == Moved(Sides(old(ch.Now()), old(ch.guest), old(ch.taken)), e)
    ensures ch.sent == old(ch.sent) + OutBy(old(ch.Now()), e)
    ensures ch.inTime == (old(ch.inTime) && !Overruns(old(ch.Now()), e))
    ensures ch.saturated == old(ch.saturated) + (if e.step.Send? then SaturatedBy(old(ch.queue), e.step.c) else 0)
    ensures ch.dropped == old(ch.dropped) + (if e.step.Send? then DroppedBy(old(ch.queue), e.step.c) else 0)
  {
    hide Channel.Valid, Pumped, Sent, FateOf, After, Out, SaturatedBy, DroppedBy;
    match e.step
    case Send(c) => ch.SendCommand(c, e.at);
    case Pump => ch.PumpCommands(e.at);
    case GuestStep =>
      match ch.guest
      case Idle => ch.ReadCommand();
      case HasCommand(_) => ch.ReadArgument();
      case HasBoth(_) => ch.Acknowledge();
  }

  /** Any interleaving, from the start. Whatever was sent over what, the commands that went out and those
      queued are those asked for, one for one and in order but for scrolls, and every line of scroll asked
      for went out, is queued, was more than a full scroll takes, or was dropped. What went out is what
      the guest has taken or still has before it exactly when nothing was sent over an overdue command. */
  method Play(run: seq<Event>) returns (ch: Channel)
    requires Sane(run)
    ensures fresh(ch) && ch.Valid() && ch.requested == Requests(run)
    ensures Sides(ch.Now(), ch.guest, ch.taken) == RunOf(run) && ch.inTime == OnTime(run)
    ensures ch.sent == SentBy(run) && ch.saturated == SaturatedIn(run) && ch.dropped == DroppedIn(run)
    ensures Others(SentBy(run)) + Others(RunOf(run).line.queue) == Others(Requests(run))
    ensures SumLines(Requests(run))
         == SumLines(SentBy(run)) + SumLines(RunOf(run).line.queue) + SaturatedIn(run) + DroppedIn(run)
    ensures OnTime(run) <==> SentBy(run) == RunOf(run).taken + InRegister(RunOf(run).line)
  {
    hide Others, SumLines, Moved, OutBy, SaturatedBy, DroppedBy, Overruns, Scrolls, NoTwins;
    ch := new Channel();
    for i := 0 to |run|
      invariant fresh(ch) && ch.Valid() && ch.requested == Requests(run[..i])
      invariant Sides(ch.Now(), ch.guest, ch.taken) == RunOf(run[..i]) && ch.inTime == OnTime(run[..i])
      invariant ch.sent == SentBy(run[..i])
      invariant ch.saturated == SaturatedIn(run[..i]) && ch.dropped == DroppedIn(run[..i])
    {
      hide Channel.Valid;
      assert run[..i + 1][..i] == run[..i];
      Happen(ch, run[i]);
    }
    assert run[..|run|] == run;
    Joined(ch.sent, ch.queue);
  }

  /** A run drops nothing unless a scroll is asked for while three of them wait. */
  lemma {:induction false} DropsNeedThree(run: seq<Event>)
    requires forall i :: 0 <= i < |run| && run[i].step.Send? && run[i].step.c.cmd == 7 ==>
               Waiting(RunOf(run[..i]).line.queue) < 3
    ensures DroppedIn(run) == 0
    decreases |run|
  {
    hide RunOf, Waiting, DroppedBy;
    if run != [] {
      var n := |run| - 1;
      forall i | 0 <= i < n && run[..n][i].step.Send? && run[..n][i].step.c.cmd == 7
        ensures Waiting(RunOf(run[..n][..i]).line.queue) < 3
      {
        assert run[..n][..i] == run[..i];
      }
      DropsNeedThree(run[..n]);
      if run[n].step.Send? {
        RequestWaits(RunOf(run[..n]).line.queue, run[n].step.c);
      }
    }
  }

  /** And saturates nothing unless fifteen lines are passed. */
  lemma {:induction false} NoneSaturates(run: seq<Event>)
    requires forall i :: 0 <= i < |run| && run[i].step.Send? && Twin(RunOf(run[..i]).line.queue, run[i].step.c) ==>
               PastFifteen(RunOf(run[..i]).line.queue, run[i].step.c) == 0
    ensures SaturatedIn(run) == 0
    decreases |run|
  {
    hide RunOf, Waiting, SaturatedBy, Twin, PastFifteen;
    if run != [] {
      var n := |run| - 1;
      forall i | 0 <= i < n && run[..n][i].step.Send? && Twin(RunOf(run[..n][..i]).line.queue, run[..n][i].step.c)
        ensures PastFifteen(RunOf(run[..n][..i]).line.queue, run[..n][i].step.c) == 0
      {
        assert run[..n][..i] == run[..i];
      }
      NoneSaturates(run[..n]);
      if run[n].step.Send? {
        RequestWaits(RunOf(run[..n]).line.queue, run[n].step.c);
      }
    }
  }

  /** The timer sends the first that waits when the register is empty or two seconds are up, and otherwise
      nothing at all. A request that waits is pumped at once, and any other sends nothing. */
  lemma TimerSends(l: Line, c: Command, now: int)
    ensures var sends := l.queue != [] && (l.reg.cmd == 0 || now - l.sentAt >= 2000);
      && Pumped(l, now) == (if sends then Line(l.queue[1..], now, l.queue[0]) else l)
      && OutBy(l, Event(now, Pump)) == if sends then [l.queue[0]] else []
    ensures var waits := l.(queue := After(l.queue, c, FateOf(l.queue, c)));
      && OutBy(l, Event(now, Send(c))) + Sent(l, c, now).queue == waits.queue
      && Sent(l, c, now) == if waits.queue == l.queue + [c] then Pumped(waits, now) else waits
  {
    hide Scrolls, Merged;
    var fate := FateOf(l.queue, c);
    if fate.Folded? {
      assert |After(l.queue, c, fate)| == |l.queue|;
    }
  }

  /** The guest takes one command between two of the page's timers. */
  function Round(s: Sides, at: int): Sides {
    Steps(Moved(s, Event(at, Pump)), 3)
  }

  function Rounds(s: Sides, ats: seq<int>): Sides
    decreases |ats|
  {
    if ats == [] then s else Rounds(Round(s, ats[0]), ats[1..])
  }

  /** A guest that keeps polling gets everything that waits, once and in order, whatever the times. */
  lemma {:induction false} AllDelivered(s: Sides, ats: seq<int>)
    requires s.guest.Idle? && s.line.reg.cmd == 0 && (forall c :: c in s.line.queue ==> c.cmd != 0)
    requires |ats| == |s.line.queue|
    ensures var end := Rounds(s, ats);
      end.taken == s.taken + s.line.queue && end.line.queue == [] && end.line.reg.cmd == 0 && end.guest.Idle?
    decreases |ats|
  {
    if ats != [] {
      var c := s.line.queue[0];
      var one := Moved(s, Event(ats[0], Pump));
      assert c in s.line.queue;
      TakenIn3(one, c);
      hide Round, Moved;
      var next := Round(s, ats[0]);
      assert next.line.queue == s.line.queue[1..] && next.taken == s.taken + [c];
      assert s.line.queue == [c] + s.line.queue[1..];
      AllDelivered(next, ats[1..]);
    }
  }

  lemma TakenIn3(s: Sides, c: Command)
    requires s.guest.Idle? && s.line.reg == c && c.cmd != 0
    ensures Steps(s, 3) == Sides(s.line.(reg := c.(cmd := 0)), Idle, s.taken + [c])
  {
    var one := GuestMoves(s);
    var two := GuestMoves(one);
    assert Steps(s, 3) == Steps(one, 2) == Steps(two, 1) == Steps(GuestMoves(two), 0) == GuestMoves(two);
  }

  /** The guest alone, so many steps. */
  function Steps(s: Sides, n: nat): Sides
    decreases n
  {
    if n == 0 then s else Steps(GuestMoves(s), n - 1)
  }

  /** The line after pumping: nothing leaves it but a command that was overdue, and then exactly the one in
      the register, though the guest may have read it by then. */
  lemma PumpedKeeps(l: Line, now: int)
    requires forall c :: c in l.queue ==> c.cmd != 0
    ensures var overdue := l.queue != [] && l.reg.cmd != 0 && now - l.sentAt >= PATIENCE;
      InRegister(Pumped(l, now)) + Pumped(l, now).queue == (if overdue then [] else InRegister(l)) + l.queue
    ensures Out(l, l.queue, true, now) + Pumped(l, now).queue == l.queue
  {
    if l.queue != [] {
      assert l.queue[0] in l.queue;
    }
  }

  /** What an overrun costs depends on how far the guest has got with the command in the register. If it
      has read nothing, that command is gone and the new one is taken. If it has read the command, it takes
      that command with the new one's argument, and the new one is gone. If it has read both, the old one
      is taken and the new one is gone. */
  lemma OverrunLoses(s: Sides, e: Event)
    requires Overruns(s.line, e)
    requires forall c :: c in s.line.queue ==> c.cmd != 0
    requires e.step.Send? ==> e.step.c.cmd != 0
    ensures var after := Moved(s, e);
      var next := after.line.reg;
      && OutBy(s.line, e) == [next] && next.cmd != 0 && after.guest == s.guest && after.taken == s.taken
      && (match s.guest
         case Idle => Steps(after, 3).taken == s.taken + [next] && Steps(after, 3).line.reg.cmd == 0
         case HasCommand(cmd) =>
           Steps(after, 2).taken == s.taken + [Command(cmd, next.arg)] && Steps(after, 2).line.reg.cmd == 0
         case HasBoth(held) => Steps(after, 1).taken == s.taken + [held] && Steps(after, 1).line.reg.cmd == 0)
  {
    hide Scrolls, Merged;
    var after := Moved(s, e);
    var one := GuestMoves(after);
    var two := GuestMoves(one);
    assert Steps(after, 1) == Steps(one, 0) == one;
    assert Steps(after, 2) == Steps(one, 1) == Steps(two, 0) == two;
    assert Steps(after, 3) == Steps(one, 2) == Steps(two, 1) == Steps(GuestMoves(two), 0) == GuestMoves(two);
  }

  lemma RunMore(run: seq<Event>, e: Event)
    ensures RunOf(run + [e]) == Moved(RunOf(run), e)
    ensures OnTime(run + [e]) == (OnTime(run) && !Overruns(RunOf(run).line, e))
  {
    assert (run + [e])[..|run|] == run;
    hide Moved, Overruns;
  }

  function Asked(e: Event): seq<Command> { if e.step.Send? then [e.step.c] else [] }

  lemma RequestsMore(run: seq<Event>, e: Event)
    ensures Requests(run + [e]) == Requests(run) + Asked(e)
  {
    assert (run + [e])[..|run|] == run;
  }

  /** A run of five events, one after the other. */
  lemma FiveEvents(a: Event, b: Event, c: Event, d: Event, e: Event)
    ensures var two := Moved(Moved(RunOf([]), a), b);
      && RunOf([a, b, c, d, e]) == Moved(Moved(Moved(two, c), d), e)
      && Requests([a, b, c, d, e]) == Asked(a) + Asked(b) + Asked(c) + Asked(d) + Asked(e)
      && (Overruns(two.line, c) || Overruns(Moved(two, c).line, d) ==> !OnTime([a, b, c, d, e]))
  {
    hide RunOf, Requests, OnTime, Moved, Overruns;
    assert [] + [a] == [a] && [a] + [b] == [a, b] && [a, b] + [c] == [a, b, c];
    assert [a, b, c] + [d] == [a, b, c, d] && [a, b, c, d] + [e] == [a, b, c, d, e];
    NoRequests();
    RunMore([], a);
    RunMore([a], b);
    RunMore([a, b], c);
    RunMore([a, b, c], d);
    RunMore([a, b, c, d], e);
    RequestsMore([], a);
    RequestsMore([a], b);
    RequestsMore([a, b], c);
    RequestsMore([a, b, c], d);
    RequestsMore([a, b, c, d], e);
  }

  lemma NoRequests()
    ensures Requests([]) == []
  {}

  /** A run in which the guest takes a command nobody asked for. */
  lemma MixedRun(a: Command, b: Command)
    requires a.cmd != 0 && b.cmd != 0 && !IsScroll(a) && !IsScroll(b)
    ensures var g := Event(0, GuestStep);
      var run := [Event(0, Send(a)), g, Event(PATIENCE, Send(b)), g, g];
      && Sane(run) && Requests(run) == [a, b] && !OnTime(run)
      && RunOf(run).taken == [Command(a.cmd, b.arg)] && InRegister(RunOf(run).line) == []
  {
    hide Requests, OnTime, Scrolls;
    var g, first, second := Event(0, GuestStep), Event(0, Send(a)), Event(PATIENCE, Send(b));
    FiveEvents(first, g, second, g, g);
    var one := Moved(RunOf([]), first);
    assert one == Sides(Line([], 0, a), Idle, []);
    assert Moved(Moved(one, g), second) == Sides(Line([], PATIENCE, b), HasCommand(a.cmd), []);
  }

  /** A run in which a command is taken and the one sent over it never is. */
  lemma LostRun(a: Command, b: Command)
    requires a.cmd != 0 && b.cmd != 0 && !IsScroll(a) && !IsScroll(b)
    ensures var g := Event(0, GuestStep);
      var run := [Event(0, Send(a)), g, g, Event(PATIENCE, Send(b)), g];
      && Sane(run) && Requests(run) == [a, b] && !OnTime(run)
      && RunOf(run).taken == [a] && InRegister(RunOf(run).line) == []
  {
    hide Requests, OnTime, Scrolls;
    var g, first, second := Event(0, GuestStep), Event(0, Send(a)), Event(PATIENCE, Send(b));
    FiveEvents(first, g, g, second, g);
    var one := Moved(RunOf([]), first);
    assert one == Sides(Line([], 0, a), Idle, []);
    assert Moved(Moved(Moved(one, g), g), second) == Sides(Line([], PATIENCE, b), HasBoth(a), []);
  }
}
