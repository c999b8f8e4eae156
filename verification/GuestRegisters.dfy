/**
  The registers a guest goes on with, told by the events alone: what native code
  wrote into a trap frame, what a fault handler resumed with, and what a fiber
  had when it switched away (dlls/ntdll/unix/loader.c, dlls/ntdll/signal_ppc64.c).
 */
module GuestRegisters {
  import opened GuestRun

  /** What a guest is doing at one nesting level, and the registers it would go on with. */
  datatype Level = Executing(regs: Regs) | Resting(regs: Regs) | Calling(leaf: bool, regs: Regs)

  /** The levels, outermost first, what each fiber was parked with, and the current fiber, -1 for none. */
  datatype Story = Story(levels: seq<Level>, parked: seq<Regs>, current: int) {
    predicate Native() { levels == [] || Last().Resting? || (Last().Calling? && !Last().leaf) }

    /** In a call that native code serves whole. */
    predicate Serving() { levels != [] && Last().Calling? && !Last().leaf }

    function Last(): Level
      requires levels != []
    {
      levels[|levels| - 1]
    }

    function Becomes(level: Level): Story
      requires levels != []
    {
      this.(levels := levels[..|levels| - 1] + [level])
    }
  }

  const START: Story := Story([], [], -1)

  /**
    A run starts with the registers it is given; guest code, native code with
    the trap frame in hand, and a resumed fault each leave others; a call starts
    from its run's registers and ends into them.  A fiber that switches away is
    parked as if its call had returned, and the call goes on as the other fiber.
   */
  function Tell(h: Story, e: Event): Story {
    var n := |h.levels|;
    match e
    case Start(_, regs) => if h.Native() then h.(levels := h.levels + [Executing(regs)]) else h
    case Compute(regs) => if n > 0 && h.Last().Executing? then h.Becomes(Executing(regs)) else h
    case Enter(leaf) => if n > 0 && h.Last().Executing? then h.(levels := h.levels + [Calling(leaf, h.Last().regs)]) else h
    case Edit(regs) => if n > 0 && h.Last().Calling? then h.Becomes(Calling(h.Last().leaf, regs)) else h
    case Leave => if n > 1 && h.Last().Calling? then h.(levels := h.levels[..n - 2] + [Executing(h.Last().regs)]) else h
    case Stop(_) => if n > 0 && h.Last().Executing? then h.Becomes(Resting(h.Last().regs)) else h
    case Resume(regs) => if n > 0 && h.Last().Resting? then h.Becomes(Executing(regs)) else h
    case Close(_) => if n > 0 && h.Last().Resting? then h.(levels := h.levels[..n - 1]) else h
    case Convert => if h.Serving() && h.current == -1 then h.(parked := h.parked + [ZEROS], current := |h.parked|) else h
    case Create(_, regs) => if h.Serving() then h.(parked := h.parked + [regs]) else h
    case Switch(f, ret) =>
      if h.Serving() && 0 <= h.current < |h.parked| && f < |h.parked| && f != h.current
      then h.Becomes(Calling(false, h.parked[f])).(parked := h.parked[h.current := Back(h.Last().regs, ret)], current := f)
      else h
    case Grow(_) => h
    case Release => h
  }

  function TellAll(h: Story, events: seq<Event>): Story
    decreases |events|
  {
    if events == [] then h else TellAll(Tell(h, events[0]), events[1..])
  }

  function LevelOf(a: Act): Level {
    match a
    case Trap(leaf, regs) => Calling(leaf, regs)
    case Run(jit, regs, _, _, _, _, _, _) => if jit then Executing(regs) else Resting(regs)
  }

  ghost predicate TellsActs(h: Story, acts: seq<Act>) {
    |h.levels| == |acts| && forall i :: 0 <= i < |acts| ==> h.levels[i] == LevelOf(acts[i])
  }

  ghost predicate TellsFibers(h: Story, t: Thread) {
    h.current == t.current && |h.parked| == |t.fibers| && forall f :: 0 <= f < |t.fibers| ==> h.parked[f] == t.fibers[f].regs
  }

  lemma {:induction false} StepTellsActs(h: Story, t: Thread, e: Event)
    requires Inv(t) && TellsActs(h, t.acts) && TellsFibers(h, t)
    ensures TellsActs(Tell(h, e), Step(t, e).acts)
  {
    if e.Switch? || e.Enter? || e.Edit? || e.Leave? { CallTellsActs(h, t, e); } else { RunTellsActs(h, t, e); }
  }

  lemma {:induction false} RunTellsActs(h: Story, t: Thread, e: Event)
    requires Nested(t.acts) && TellsActs(h, t.acts) && !e.Switch? && !e.Enter? && !e.Edit? && !e.Leave?
    ensures TellsActs(Tell(h, e), Step(t, e).acts)
  {
    assert t.acts != [] ==> h.Last() == LevelOf(Top(t));
  }

  lemma {:induction false} CallTellsActs(h: Story, t: Thread, e: Event)
    requires Nested(t.acts) && TellsActs(h, t.acts) && TellsFibers(h, t) && (e.Switch? || e.Enter? || e.Edit? || e.Leave?)
    ensures TellsActs(Tell(h, e), Step(t, e).acts)
  {
    assert t.acts != [] ==> FitsAt(t.acts, |t.acts| - 1) && h.Last() == LevelOf(Top(t));
  }

  lemma {:induction false} StepTellsFibers(h: Story, t: Thread, e: Event)
    requires Inv(t) && TellsActs(h, t.acts) && TellsFibers(h, t)
    ensures TellsFibers(Tell(h, e), Step(t, e))
  {
    assert t.acts != [] ==> FitsAt(t.acts, |t.acts| - 1) && h.Last() == LevelOf(Top(t));
  }

  lemma {:induction false} PlayTells(h: Story, t: Thread, events: seq<Event>)
    requires Inv(t) && TellsActs(h, t.acts) && TellsFibers(h, t) && PossiblePlay(t, events)
    ensures TellsActs(TellAll(h, events), Play(t, events).acts)
    decreases |events|
  {
    if events != [] {
      StepKeepsInv(t, events[0]);
      StepTellsActs(h, t, events[0]);
      StepTellsFibers(h, t, events[0]);
      PlayTells(Tell(h, events[0]), Step(t, events[0]), events[1..]);
    }
  }

  /** The registers that the events leave a guest standing still with, if it does. */
  function Told(h: Story): Answer {
    if h.levels == [] || h.Last().Executing? then NoContext else Registers(h.Last().regs)
  }

  /**
    In every run that can happen, each level of a thread has the registers that
    the events say, and a debugger reads those of the innermost one, unless a run
    that closed on an exception has left its own there.
   */
  lemma {:induction false} RegistersFollowTheEvents(native: Bounds, events: seq<Event>)
    requires native.Proper() && PossiblePlay(Fresh(native), events)
    ensures TellsActs(TellAll(START, events), Play(Fresh(native), events).acts)
    ensures LeftNow(native, events).Clear? ==> Query(Play(Fresh(native), events)) == Told(TellAll(START, events))
  {
    FreshIsRight(native);
    PlayTells(START, Fresh(native), events);
    QueriesAreExact(native, events);
    var t := Play(Fresh(native), events);
    assert t.acts != [] ==> TellAll(START, events).Last() == LevelOf(Top(t));
  }

  // ----- fibers -----

  lemma {:induction false} ParkedStays(t: Thread, e: Event, c: nat)
    requires c < |t.fibers| && t.current != c && forall ret :: e != Switch(c, ret)
    ensures var u := Step(t, e); c < |u.fibers| && u.current != c && u.fibers[c].regs == t.fibers[c].regs
  {
  }

  lemma {:induction false} ParkedThroughout(t: Thread, events: seq<Event>, c: nat)
    requires c < |t.fibers| && t.current != c && forall ret :: Switch(c, ret) !in events
    ensures var u := Play(t, events); c < |u.fibers| && u.current != c && u.fibers[c].regs == t.fibers[c].regs
    decreases |events|
  {
    if events != [] {
      ParkedStays(t, events[0], c);
      ParkedThroughout(Step(t, events[0]), events[1..], c);
    }
  }

  /**
    A fiber goes on where it left: whatever other fibers, runs and calls do in
    the meantime, and whichever run switches to it, its SwitchToFiber returns, 0,
    to its own caller, with every other register as it was.
   */
  lemma {:induction false} FiberGoesOnWhereItLeft(t: Thread, f: nat, ret: nat, events: seq<Event>, later: nat)
    requires Switches(t, f) && forall r :: Switch(t.current, r) !in events
    requires Switches(Play(Step(t, Switch(f, ret)), events), t.current)
    ensures var w := Step(Play(Step(t, Switch(f, ret)), events), Switch(t.current, later));
            InCall(w) && w.current == t.current && Top(w).frameRegs == Back(Top(t).frameRegs, ret)
    ensures var w := Step(Play(Step(t, Switch(f, ret)), events), Switch(t.current, later));
            InGuest(Step(w, Leave)) ==> Top(Step(w, Leave)).regs == Back(Top(t).frameRegs, ret)
  {
    ParkedThroughout(Step(t, Switch(f, ret)), events, t.current);
  }
}
