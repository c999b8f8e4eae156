/**
  One thread that runs guest code: the stack bounds its TEB shows and the guest
  registers it publishes, over guest runs, traps out of them, nested runs and
  fiber switches (dlls/ntdll/unix/loader.c, dlls/ntdll/signal_ppc64.c).
 */
module GuestRun {

  /** A stack as the TEB describes one: its top, its lowest committed address, its lowest reserved one. */
  datatype Bounds = Bounds(base: nat, limit: nat, dealloc: nat) {
    predicate Proper() { base != 0 && limit != 0 && dealloc != 0 }
  }

  /** A guest register file; `rest` stands for the registers that are not named. */
  datatype Regs = Regs(rip: nat, rsp: nat, rax: nat, rest: nat)

  const ZEROS: Regs := Regs(0, 0, 0, 0)

  datatype State = None | Running | InTrap | Fault | Ended

  /** What a debugger can read: the state, the copied registers, and the trap frame that InTrap points into. */
  datatype Published = Published(state: State, copy: Regs, frame: nat)

  /** A stack that exists: its name, and how far it is really committed and reserved.  Addresses are used again, names are not. */
  datatype Mapping = Mapping(name: nat, commit: nat, reserve: nat)

  const NATIVE: nat := 0   // the name of the thread's native stack

  /** What the thread is in the middle of. */
  datatype Act =
    // emu_run_loop: guest code executes, on the stack named `stack`, while `jit`; `own` is the stack made for the
    // run, with its top at `at`; what to restore on the way out
    | Run(jit: bool, regs: Regs, own: nat, at: nat, stack: nat, saved: Bounds, prevGuest: Bounds, prevPub: Published)
    // emu_trap_dispatch_common; a leaf call leaves the TEB alone
    | Trap(leaf: bool, frameRegs: Regs)

  /** The bounds and the parked registers in a fiber's record, and the stack that those are on. */
  datatype Fiber = Fiber(bounds: Bounds, on: nat, regs: Regs)

  /**
    The TEB's bounds, emu_native_teb_stack (base 0 before the first run),
    emu_guest_teb_stack, the published registers, the activations, outermost
    first, the fibers and guest_current_fiber (-1 for none), the tops of the
    stacks kept after their run; and, beside what the code keeps, the stacks
    that exist, by their tops, where the native one is, and the next name.
   */
  datatype Thread = Thread(teb: Bounds, native: Bounds, guest: Bounds, pub: Published, acts: seq<Act>,
                           fibers: seq<Fiber>, current: int, kept: set<nat>,
                           live: map<nat, Mapping>, nativeAt: nat, next: nat)

  datatype Event =
    | Start(stack: Bounds, regs: Regs)   // a run opens on a guest stack made for it
    | Compute(regs: Regs)                // guest code executes
    | Grow(limit: nat)                   // a guard page of the stack that the TEB describes is hit
    | Enter(leaf: bool)                  // the guest traps
    | Edit(regs: Regs)                   // native code writes the trap frame
    | Convert                            // ConvertThreadToFiber: the running guest becomes a fiber
    | Create(stack: Bounds, regs: Regs)  // CreateFiber, with a stack of its own, to start with these registers
    | Switch(f: nat, ret: nat)           // SwitchToFiber, to return to `ret`; all three inside a trap
    | Leave                              // the trap returns to the guest
    | Stop(fault: bool)                  // the emulator returns to the run loop
    | Resume(regs: Regs)                 // a fault was handled: the loop goes round
    | Close(exception: bool)             // the run ends, on STATUS_EMU_GUEST_EXCEPTION or not
    | Release                            // the stacks kept for a pending unwind are freed

  predicate InGuest(t: Thread) { t.acts != [] && t.acts[|t.acts| - 1].Run? && t.acts[|t.acts| - 1].jit }

  predicate InLeaf(t: Thread) { t.acts != [] && t.acts[|t.acts| - 1].Trap? && t.acts[|t.acts| - 1].leaf }

  predicate Stopped(t: Thread) { t.acts != [] && t.acts[|t.acts| - 1].Run? && !t.acts[|t.acts| - 1].jit }

  predicate InCall(t: Thread) { t.acts != [] && t.acts[|t.acts| - 1].Trap? && !t.acts[|t.acts| - 1].leaf }

  function Top(t: Thread): Act
    requires t.acts != []
  {
    t.acts[|t.acts| - 1]
  }

  function Pop(t: Thread): seq<Act>
    requires t.acts != []
  {
    t.acts[..|t.acts| - 1]
  }

  /** emu_teb_stack_install: nothing to install means leave the TEB alone. */
  function Install(teb: Bounds, b: Bounds): Bounds { if b.base == 0 then teb else b }

  /** EMU_FIBER_SET_STACK: refused without a base or a limit. */
  function InstallRun(guest: Bounds, b: Bounds): Bounds {
    if b.base == 0 || b.limit == 0 then guest else b.(dealloc := if b.dealloc != 0 then b.dealloc else b.limit)
  }

  /** The stack that the innermost run executes on, the native one if there is none. */
  function InnerStack(acts: seq<Act>): nat {
    if acts == [] then NATIVE
    else if acts[|acts| - 1].Run? then acts[|acts| - 1].stack
    else InnerStack(acts[..|acts| - 1])
  }

  /** A switch away from the current fiber, to another one, by the run the thread has trapped out of. */
  predicate Switches(t: Thread, f: nat) {
    && InCall(t) && |t.acts| >= 2 && t.acts[|t.acts| - 2].Run?
    && 0 <= t.current < |t.fibers| && f < |t.fibers| && f != t.current
  }

  /** A trapped call as it looks when it has returned 0. */
  function Back(regs: Regs, ret: nat): Regs { regs.(rip := ret, rsp := regs.rsp + 8, rax := 0) }

  /** The current fiber keeps its bounds, with the innermost run's limit, and takes that run's registers. */
  function Park(t: Thread, ret: nat): Fiber
    requires 0 <= t.current < |t.fibers| && InCall(t)
  {
    var b := t.fibers[t.current].bounds;
    Fiber(if t.guest.limit == 0 then b else b.(limit := t.guest.limit), InnerStack(t.acts), Back(Top(t).frameRegs, ret))
  }

  function Step(t: Thread, e: Event): Thread {
    match e
    case Start(stack, regs) =>
      if InGuest(t) || InLeaf(t) then t
      else t.(native := if t.native.base == 0 then t.teb else t.native,
              guest := stack, teb := Install(t.teb, stack),
              acts := t.acts + [Run(true, regs, t.next, stack.base, t.next, t.teb, t.guest, t.pub)],
              pub := Published(Running, regs, t.pub.frame),
              live := t.live[stack.base := Mapping(t.next, stack.limit, stack.dealloc)], next := t.next + 1)
    case Compute(regs) => if InGuest(t) then t.(acts := Pop(t) + [Top(t).(regs := regs)]) else t
    case Grow(limit) =>
      if InLeaf(t) || t.teb.base !in t.live then t
      else t.(teb := t.teb.(limit := limit), live := t.live[t.teb.base := t.live[t.teb.base].(commit := limit)])
    case Enter(leaf) =>
      if !InGuest(t) then t
      else t.(acts := t.acts + [Trap(leaf, Top(t).regs)],
              pub := t.pub.(state := InTrap, frame := |t.acts|),
              teb := if leaf then t.teb else Install(t.teb, t.native))
    case Edit(regs) =>
      if InCall(t) || InLeaf(t) then t.(acts := Pop(t) + [Top(t).(frameRegs := regs)]) else t
    case Convert =>
      if InCall(t) && t.current == -1 && t.guest.base != 0
      then t.(fibers := t.fibers + [Fiber(t.guest, InnerStack(t.acts), ZEROS)], current := |t.fibers|) else t
    case Create(stack, regs) =>
      if !InCall(t) then t
      else t.(fibers := t.fibers + [Fiber(stack, t.next, regs)],
              live := t.live[stack.base := Mapping(t.next, stack.limit, stack.dealloc)], next := t.next + 1)
    case Switch(f, ret) =>
      if !Switches(t, f) then t
      else
        var run := t.acts[|t.acts| - 2].(stack := t.fibers[f].on);
        t.(fibers := t.fibers[t.current := Park(t, ret)], current := f, guest := InstallRun(t.guest, t.fibers[f].bounds),
           acts := t.acts[..|t.acts| - 2] + [run, Top(t).(frameRegs := t.fibers[f].regs)])
    case Leave =>
      if (InCall(t) || InLeaf(t)) && |t.acts| >= 2 && t.acts[|t.acts| - 2].Run?
      then
        var run := t.acts[|t.acts| - 2].(regs := Top(t).frameRegs);
        t.(acts := t.acts[..|t.acts| - 2] + [run], pub := t.pub.(state := Running),
           teb := if Top(t).leaf then t.teb else Install(t.teb, t.guest))
      else t
    case Stop(fault) =>
      if !InGuest(t) then t
      else t.(acts := Pop(t) + [Top(t).(jit := false)],
              guest := t.teb, teb := Install(t.teb, Top(t).saved),
              pub := t.pub.(state := if fault then Fault else Ended, copy := Top(t).regs))
    case Resume(regs) =>
      if !Stopped(t) then t
      else t.(acts := Pop(t) + [Top(t).(jit := true, regs := regs, saved := t.teb)],
              teb := Install(t.teb, t.guest),
              pub := t.pub.(state := Running, copy := regs))
    case Close(exception) =>
      if !Stopped(t) then t
      else
        var run := Top(t);
        t.(acts := Pop(t), guest := run.prevGuest,
           pub := if exception then t.pub
                  else if run.prevPub.state == InTrap then t.pub.(state := InTrap, frame := run.prevPub.frame)
                  else t.pub.(state := run.prevPub.state, copy := run.prevPub.copy),
           live := if exception then t.live else t.live - {run.at},
           kept := if exception then t.kept + {run.at} else t.kept)
    case Release => t.(live := t.live - t.kept, kept := {})
  }

  /** What the surroundings guarantee of an event: a new stack is where none is, and a stack grows downwards. */
  ghost predicate Possible(t: Thread, e: Event) {
    match e
    case Start(stack, _) => New(t, stack)
    case Create(stack, _) => New(t, stack)
    case Grow(limit) => limit > 0 && (t.teb.base in t.live ==> limit <= t.live[t.teb.base].commit)
    case _ => true
  }

  ghost predicate New(t: Thread, stack: Bounds) { stack.Proper() && stack.base !in t.live }

  /** The top and the reservation are those of the stack named s. */
  predicate Names(t: Thread, b: Bounds, s: nat) {
    b.base in t.live && t.live[b.base].name == s && b.dealloc == t.live[b.base].reserve
  }

  /** And no more is claimed to be committed than is. */
  predicate Describes(t: Thread, b: Bounds, s: nat) { Names(t, b, s) && t.live[b.base].commit <= b.limit }

  function Play(t: Thread, events: seq<Event>): Thread
    decreases |events|
  {
    if events == [] then t else Play(Step(t, events[0]), events[1..])
  }

  ghost predicate PossiblePlay(t: Thread, events: seq<Event>)
    decreases |events|
  {
    events != [] ==> Possible(t, events[0]) && PossiblePlay(Step(t, events[0]), events[1..])
  }

  /** A thread as it is created, on a native stack with these bounds. */
  function Fresh(native: Bounds): Thread {
    Thread(native, Bounds(0, 0, 0), Bounds(0, 0, 0), Published(None, ZEROS, 0), [], [], -1, {},
           map[native.base := Mapping(NATIVE, native.limit, native.dealloc)], native.base, 1)
  }

  // ----- the nesting -----

  /** A trap is out of guest code, a run is entered from native code, and a leaf call enters nothing. */
  ghost predicate Nested(acts: seq<Act>) {
    forall i :: 0 <= i < |acts| ==> FitsAt(acts, i)
  }

  ghost predicate FitsAt(acts: seq<Act>, i: nat)
    requires i < |acts|
  {
    if acts[i].Trap? then i > 0 && acts[i - 1].Run? && acts[i - 1].jit
    else i > 0 ==> (if acts[i - 1].Trap? then !acts[i - 1].leaf else !acts[i - 1].jit)
  }

  /** The nesting is kept by every event, whether or not it is one that can happen. */
  lemma {:induction false} StepKeepsNested(t: Thread, e: Event)
    requires Nested(t.acts)
    ensures Nested(Step(t, e).acts)
  {
    var u := Step(t, e);
    var n := |t.acts|;
    assert n > 0 ==> FitsAt(t.acts, n - 1);
    assert n > 1 ==> FitsAt(t.acts, n - 2);
    forall i | 0 <= i < |u.acts| ensures FitsAt(u.acts, i) {
      if i < n { assert FitsAt(t.acts, i); }
    }
  }

  /** A trap stands on the run it came out of. */
  lemma {:induction false} TrapOnRun(t: Thread)
    requires Nested(t.acts) && (InCall(t) || InLeaf(t))
    ensures |t.acts| >= 2 && t.acts[|t.acts| - 2].Run? && t.acts[|t.acts| - 2].jit
    ensures InnerStack(t.acts) == t.acts[|t.acts| - 2].stack
  {
    var n := |t.acts| - 1;
    assert FitsAt(t.acts, n);
    assert t.acts[..n][n - 1] == t.acts[n - 1];
  }

  // ----- the native stack -----

  /** Every stack that exists has a name of its own, and the native one is among them. */
  ghost predicate Mapped(t: Thread) {
    && t.nativeAt in t.live && t.live[t.nativeAt].name == NATIVE && t.nativeAt !in t.kept && NATIVE < t.next
    && (forall b :: b in t.live ==> b != 0 && t.live[b].commit > 0 && t.live[b].reserve > 0 && t.live[b].name < t.next)
    && (forall b, c :: b in t.live && c in t.live && t.live[b].name == t.live[c].name ==> b == c)
  }

  /** What a run will put back describes the native stack; the guest bounds that are kept are bounds of something. */
  ghost predicate SavedAt(t: Thread, i: nat)
    requires i < |t.acts|
  {
    t.acts[i].Run? ==> t.acts[i].at != t.nativeAt && Describes(t, t.acts[i].saved, NATIVE) && (i > 0 ==> t.acts[i].prevGuest.Proper())
  }

  /** The TEB shows the native stack, or, in guest code and leaf calls, the bounds on record, with whatever limit. */
  ghost predicate Shown(t: Thread) {
    && (t.acts != [] ==> t.native.base != 0 && t.guest.Proper())
    && (if InGuest(t) || InLeaf(t) then t.teb == t.guest.(limit := t.teb.limit) && t.teb.limit != 0 else Describes(t, t.teb, NATIVE))
    && (t.native.base != 0 ==> Describes(t, t.native, NATIVE))
  }

  ghost predicate Inv(t: Thread) {
    && Nested(t.acts) && Mapped(t)
    && Shown(t)
    && (forall i :: 0 <= i < |t.acts| ==> SavedAt(t, i))
    && (forall f :: 0 <= f < |t.fibers| ==> t.fibers[f].bounds.Proper())
    && Named(t)
  }

  /** The stacks that are executed on, or were when a fiber was parked, have been made. */
  ghost predicate Named(t: Thread) {
    && (forall i :: 0 <= i < |t.acts| && t.acts[i].Run? ==> NATIVE < t.acts[i].stack < t.next)
    && (forall f :: 0 <= f < |t.fibers| ==> NATIVE < t.fibers[f].on < t.next)
  }

  /** The native stack stays where it is, and only grows. */
  ghost predicate NativeKept(t: Thread, u: Thread) {
    && u.nativeAt == t.nativeAt && t.nativeAt in t.live && t.nativeAt in u.live
    && u.live[t.nativeAt].name == t.live[t.nativeAt].name && u.live[t.nativeAt].reserve == t.live[t.nativeAt].reserve
    && u.live[t.nativeAt].commit <= t.live[t.nativeAt].commit
  }

  lemma {:induction false} NativeStays(t: Thread, u: Thread, b: Bounds)
    requires Mapped(t) && NativeKept(t, u) && Describes(t, b, NATIVE)
    ensures Describes(u, b, NATIVE) && b.base == t.nativeAt
  {
  }

  lemma {:induction false} NewKeepsMapped(t: Thread, u: Thread, stack: Bounds)
    requires Mapped(t) && New(t, stack) && u.nativeAt == t.nativeAt && u.kept == t.kept && u.next == t.next + 1
    requires u.live == t.live[stack.base := Mapping(t.next, stack.limit, stack.dealloc)]
    ensures Mapped(u) && NativeKept(t, u)
  {
  }

  lemma {:induction false} FreeKeepsMapped(t: Thread, u: Thread, gone: set<nat>)
    requires Mapped(t) && t.nativeAt !in gone && u.nativeAt == t.nativeAt && t.nativeAt !in u.kept && u.next == t.next
    requires u.live == t.live - gone
    ensures Mapped(u) && NativeKept(t, u)
  {
  }

  lemma {:induction false} GrowKeepsMapped(t: Thread, limit: nat)
    requires Mapped(t) && Possible(t, Grow(limit))
    ensures Mapped(Step(t, Grow(limit))) && NativeKept(t, Step(t, Grow(limit)))
  {
  }

  lemma {:induction false} StepKeepsMapped(t: Thread, e: Event)
    requires Mapped(t) && Possible(t, e) && forall i :: 0 <= i < |t.acts| ==> SavedAt(t, i)
    ensures Mapped(Step(t, e)) && NativeKept(t, Step(t, e))
  {
    var u := Step(t, e);
    match e
    case Start(stack, _) => if u != t { NewKeepsMapped(t, u, stack); }
    case Create(stack, _) => if u != t { NewKeepsMapped(t, u, stack); }
    case Grow(limit) => GrowKeepsMapped(t, limit);
    case Close(exception) =>
      if Stopped(t) {
        assert SavedAt(t, |t.acts| - 1);
        FreeKeepsMapped(t, u, if exception then {} else {Top(t).at});
      }
    case Release => FreeKeepsMapped(t, u, t.kept);
    case _ =>
  }

  /** Every run that is open after an event was open before it, with the same things to put back. */
  ghost predicate SameSaved(t: Thread, u: Thread) {
    forall i :: 0 <= i < |u.acts| && u.acts[i].Run? ==>
      && i < |t.acts| && t.acts[i].Run? && u.acts[i].saved == t.acts[i].saved
      && u.acts[i].prevGuest == t.acts[i].prevGuest && u.acts[i].at == t.acts[i].at
  }

  lemma {:induction false} StepSameSaved(t: Thread, e: Event)
    requires !e.Start? && !e.Resume?
    ensures SameSaved(t, Step(t, e))
  {
  }

  lemma {:induction false} SameSavedKept(t: Thread, u: Thread)
    requires Mapped(t) && NativeKept(t, u) && SameSaved(t, u) && forall i :: 0 <= i < |t.acts| ==> SavedAt(t, i)
    ensures forall i :: 0 <= i < |u.acts| ==> SavedAt(u, i)
  {
    forall i | 0 <= i < |u.acts| && u.acts[i].Run? ensures SavedAt(u, i) {
      assert SavedAt(t, i);
      NativeStays(t, u, t.acts[i].saved);
    }
  }

  lemma {:induction false} StartKeepsSaved(t: Thread, stack: Bounds, regs: Regs)
    requires Inv(t) && New(t, stack) && !InGuest(t) && !InLeaf(t)
    ensures var u := Step(t, Start(stack, regs)); forall i :: 0 <= i < |u.acts| ==> SavedAt(u, i)
  {
    var u := Step(t, Start(stack, regs));
    NewKeepsMapped(t, u, stack);
    NativeStays(t, u, t.teb);
    SameSavedKept(t, u.(acts := t.acts));
    forall i | 0 <= i < |u.acts| ensures SavedAt(u, i) {
      if i < |t.acts| { assert SavedAt(u.(acts := t.acts), i); }
    }
  }

  lemma {:induction false} ResumeKeepsSaved(t: Thread, regs: Regs)
    requires Inv(t) && Stopped(t)
    ensures var u := Step(t, Resume(regs)); forall i :: 0 <= i < |u.acts| ==> SavedAt(u, i)
  {
    var u := Step(t, Resume(regs));
    forall i | 0 <= i < |u.acts| ensures SavedAt(u, i) {
      assert SavedAt(t, i);
    }
  }

  lemma {:induction false} StepKeepsSaved(t: Thread, e: Event)
    requires Inv(t) && Possible(t, e)
    ensures var u := Step(t, e); forall i :: 0 <= i < |u.acts| ==> SavedAt(u, i)
  {
    if e.Start? {
      if !InGuest(t) && !InLeaf(t) { StartKeepsSaved(t, e.stack, e.regs); }
    } else if e.Resume? {
      if Stopped(t) { ResumeKeepsSaved(t, e.regs); }
    } else {
      StepKeepsMapped(t, e);
      StepSameSaved(t, e);
      SameSavedKept(t, Step(t, e));
    }
  }

  lemma {:induction false} StepKeepsFibers(t: Thread, e: Event)
    requires Inv(t) && Possible(t, e)
    ensures var u := Step(t, e); forall f :: 0 <= f < |u.fibers| ==> u.fibers[f].bounds.Proper()
  {
  }

  lemma {:induction false} StartKeepsShown(t: Thread, stack: Bounds, regs: Regs)
    requires Inv(t) && New(t, stack) && !InGuest(t) && !InLeaf(t)
    ensures Shown(Step(t, Start(stack, regs)))
  {
    var u := Step(t, Start(stack, regs));
    NewKeepsMapped(t, u, stack);
    NativeStays(t, u, t.teb);
    if t.native.base != 0 { NativeStays(t, u, t.native); }
  }

  lemma {:induction false} EnterKeepsShown(t: Thread, leaf: bool)
    requires Inv(t) && InGuest(t)
    ensures Shown(Step(t, Enter(leaf)))
  {
  }

  lemma {:induction false} LeaveKeepsShown(t: Thread)
    requires Inv(t) && (InCall(t) || InLeaf(t))
    ensures Shown(Step(t, Leave))
  {
    TrapOnRun(t);
  }

  lemma {:induction false} StopKeepsShown(t: Thread, fault: bool)
    requires Inv(t) && InGuest(t)
    ensures Shown(Step(t, Stop(fault)))
  {
    assert SavedAt(t, |t.acts| - 1);
  }

  lemma {:induction false} ResumeKeepsShown(t: Thread, regs: Regs)
    requires Inv(t) && Stopped(t)
    ensures Shown(Step(t, Resume(regs)))
  {
  }

  lemma {:induction false} CloseKeepsShown(t: Thread, exception: bool)
    requires Inv(t)
    ensures Shown(Step(t, Close(exception)))
  {
    var u := Step(t, Close(exception));
    StepKeepsMapped(t, Close(exception));
    if Stopped(t) {
      var n := |t.acts| - 1;
      assert SavedAt(t, n) && FitsAt(t.acts, n);
      assert n > 0 ==> u.acts[n - 1] == t.acts[n - 1];
      NativeStays(t, u, t.native);
      NativeStays(t, u, t.teb);
    }
  }

  /** The TEB is as it was, on the side it was. */
  lemma {:induction false} SameKeepsShown(t: Thread, u: Thread)
    requires Inv(t) && NativeKept(t, u) && u.teb == t.teb && u.native == t.native && |u.acts| == |t.acts|
    requires InGuest(u) == InGuest(t) && InLeaf(u) == InLeaf(t)
    requires u.guest == t.guest || (!InGuest(t) && !InLeaf(t) && u.guest.Proper())
    ensures Shown(u)
  {
    if t.native.base != 0 { NativeStays(t, u, t.native); }
    if !InGuest(t) && !InLeaf(t) { NativeStays(t, u, t.teb); }
  }

  lemma {:induction false} GrowKeepsShown(t: Thread, limit: nat)
    requires Inv(t) && Possible(t, Grow(limit))
    ensures Shown(Step(t, Grow(limit)))
  {
    var u := Step(t, Grow(limit));
    GrowKeepsMapped(t, limit);
    if t.native.base != 0 { NativeStays(t, u, t.native); }
    if !InGuest(t) && !InLeaf(t) { NativeStays(t, t, t.teb); }
  }

  lemma {:induction false} SwitchKeepsShown(t: Thread, f: nat, ret: nat)
    requires Inv(t) && Switches(t, f)
    ensures Shown(Step(t, Switch(f, ret)))
  {
    SameKeepsShown(t, Step(t, Switch(f, ret)));
  }

  lemma {:induction false} OtherKeepsShown(t: Thread, e: Event)
    requires Inv(t) && Possible(t, e) && (e.Compute? || e.Edit? || e.Convert? || e.Create? || e.Release?)
    ensures Shown(Step(t, e))
  {
    StepKeepsMapped(t, e);
    SameKeepsShown(t, Step(t, e));
  }

  lemma {:induction false} StepKeepsShown(t: Thread, e: Event)
    requires Inv(t) && Possible(t, e)
    ensures Shown(Step(t, e))
  {
    match e
    case Start(stack, regs) => if !InGuest(t) && !InLeaf(t) { StartKeepsShown(t, stack, regs); }
    case Grow(limit) => GrowKeepsShown(t, limit);
    case Enter(leaf) => if InGuest(t) { EnterKeepsShown(t, leaf); }
    case Switch(f, ret) => if Switches(t, f) { SwitchKeepsShown(t, f, ret); }
    case Leave => if InCall(t) || InLeaf(t) { LeaveKeepsShown(t); }
    case Stop(fault) => if InGuest(t) { StopKeepsShown(t, fault); }
    case Resume(regs) => if Stopped(t) { ResumeKeepsShown(t, regs); }
    case Close(exception) => CloseKeepsShown(t, exception);
    case _ => OtherKeepsShown(t, e);
  }

  lemma {:induction false} InnerIsNamed(t: Thread, n: nat)
    requires Named(t) && Nested(t.acts) && 0 < n <= |t.acts|
    ensures NATIVE < InnerStack(t.acts[..n]) < t.next
  {
    assert FitsAt(t.acts, n - 1) && t.acts[..n][n - 1] == t.acts[n - 1];
    if t.acts[n - 1].Trap? { assert t.acts[..n][..n - 1] == t.acts[..n - 1] && t.acts[..n - 1][n - 2] == t.acts[n - 2]; }
  }

  lemma {:induction false} StepKeepsNamed(t: Thread, e: Event)
    requires Named(t) && Nested(t.acts) && NATIVE < t.next
    ensures Named(Step(t, e))
  {
    if t.acts != [] {
      InnerIsNamed(t, |t.acts|);
      assert t.acts[..|t.acts|] == t.acts;
    }
  }

  lemma {:induction false} StepKeepsInv(t: Thread, e: Event)
    requires Inv(t) && Possible(t, e)
    ensures Inv(Step(t, e))
  {
    StepKeepsNamed(t, e);
    StepKeepsNested(t, e);
    StepKeepsMapped(t, e);
    StepKeepsSaved(t, e);
    StepKeepsFibers(t, e);
    StepKeepsShown(t, e);
  }

  lemma {:induction false} PlayKeepsInv(t: Thread, events: seq<Event>)
    requires Inv(t) && PossiblePlay(t, events)
    ensures Inv(Play(t, events))
    decreases |events|
  {
    if events != [] {
      StepKeepsInv(t, events[0]);
      PlayKeepsInv(Step(t, events[0]), events[1..]);
    }
  }

  // ----- the guest's stack -----

  /** The guest bounds on record at each level: a run keeps those of the level below it to put them back. */
  function Records(acts: seq<Act>, guest: Bounds): (r: seq<Bounds>)
    ensures |r| == |acts|
  {
    if acts == [] then []
    else
      var last := acts[|acts| - 1];
      Records(acts[..|acts| - 1], if last.Run? then last.prevGuest else guest) + [guest]
  }

  function StackAt(acts: seq<Act>, i: nat): nat
    requires i < |acts|
  {
    if acts[i].Run? then acts[i].stack else NATIVE
  }

  /**
    Which bounds are wrong about the stack they are used for: the TEB's, in
    guest code, those on record at each level, and each fiber's.
   */
  datatype Marks = Marks(teb: bool, runs: seq<bool>, fibers: seq<bool>)

  /** The current fiber's record is of the stack that is executed on, and the innermost run's limit will do for it. */
  predicate Suits(t: Thread)
    requires 0 <= t.current < |t.fibers|
  {
    var b := t.fibers[t.current].bounds;
    Names(t, b, InnerStack(t.acts)) && t.live[b.base].commit <= t.guest.limit
  }

  predicate Freed(t: Thread, gone: set<nat>, s: nat) { exists b :: b in gone && b in t.live && t.live[b].name == s }

  /** Bounds with too low a limit come right when their stack has grown that far. */
  predicate Mended(t: Thread, b: Bounds, s: nat, limit: nat) { b.base == t.teb.base && Names(t, b, s) && limit <= b.limit }

  /**
    What an event makes of it.  Wrong bounds come from a switch that does not
    suit, by a run other than the one its fiber executes in, and from a stack
    that is freed; they go where a switch, a stop or the end of a trap takes them.
   */
  function MarksBy(t: Thread, m: Marks, e: Event): Marks
    requires |m.runs| == |t.acts| && |m.fibers| == |t.fibers|
  {
    var n := |t.acts|;
    match e
    case Start(_, _) => if InGuest(t) || InLeaf(t) then m else m.(teb := false, runs := m.runs + [false])
    case Grow(limit) =>
      if InLeaf(t) || t.teb.base !in t.live then m
      else Marks(if InGuest(t) then !Names(t, t.teb, InnerStack(t.acts)) else m.teb,
                 seq(n, i requires 0 <= i < n => m.runs[i] && !Mended(t, Records(t.acts, t.guest)[i], StackAt(t.acts, i), limit)),
                 seq(|t.fibers|, j requires 0 <= j < |t.fibers| => m.fibers[j] && !Mended(t, t.fibers[j].bounds, t.fibers[j].on, limit)))
    case Enter(_) => if InGuest(t) then m.(runs := m.runs + [false]) else m
    case Leave =>
      if (InCall(t) || InLeaf(t)) && n >= 2 && t.acts[n - 2].Run?
      then m.(teb := if Top(t).leaf then m.teb else m.runs[n - 2], runs := m.runs[..n - 1])
      else m
    case Convert =>
      if InCall(t) && t.current == -1 && t.guest.base != 0 then m.(fibers := m.fibers + [n >= 2 && m.runs[n - 2]]) else m
    case Create(_, _) => if InCall(t) then m.(fibers := m.fibers + [false]) else m
    case Switch(f, _) =>
      if Switches(t, f) then m.(runs := m.runs[n - 2 := m.fibers[f]], fibers := m.fibers[t.current := !Suits(t)]) else m
    case Stop(_) => if InGuest(t) then m.(runs := m.runs[n - 1 := m.teb]) else m
    case Resume(_) => if Stopped(t) then m.(teb := m.runs[n - 1]) else m
    case Close(exception) => if Stopped(t) then Lose(t, m, if exception then {} else {Top(t).at}, n - 1) else m
    case Release => Lose(t, m, t.kept, n)
    case _ => m
  }

  /** The stacks with these tops are freed, and the first n levels are left. */
  function Lose(t: Thread, m: Marks, gone: set<nat>, n: nat): Marks
    requires |m.runs| == |t.acts| && |m.fibers| == |t.fibers| && n <= |t.acts|
  {
    Marks(m.teb || Freed(t, gone, InnerStack(t.acts)),
          seq(n, i requires 0 <= i < n => m.runs[i] || Freed(t, gone, StackAt(t.acts, i))),
          seq(|t.fibers|, j requires 0 <= j < |t.fibers| => m.fibers[j] || Freed(t, gone, t.fibers[j].on)))
  }

  lemma {:induction false} MarksFit(t: Thread, m: Marks, e: Event)
    requires |m.runs| == |t.acts| && |m.fibers| == |t.fibers|
    ensures var r := MarksBy(t, m, e); |r.runs| == |Step(t, e).acts| && |r.fibers| == |Step(t, e).fibers|
  {
  }

  function MarksOver(t: Thread, m: Marks, events: seq<Event>): Marks
    requires |m.runs| == |t.acts| && |m.fibers| == |t.fibers|
    decreases |events|
  {
    if events == [] then m
    else
      MarksFit(t, m, events[0]);
      MarksOver(Step(t, events[0]), MarksBy(t, m, events[0]), events[1..])
  }

  /** Exactly the marked bounds are wrong. */
  ghost predicate Marked(t: Thread, m: Marks) {
    && |m.runs| == |t.acts| && |m.fibers| == |t.fibers|
    && (InGuest(t) || InLeaf(t) ==> (m.teb <==> !Describes(t, t.teb, InnerStack(t.acts))))
    && RunsMarked(t, m) && FibersMarked(t, m)
  }

  ghost predicate RunsMarked(t: Thread, m: Marks)
    requires |m.runs| == |t.acts|
  {
    forall i :: 0 <= i < |t.acts| && t.acts[i].Run? ==> (m.runs[i] <==> !Describes(t, Records(t.acts, t.guest)[i], t.acts[i].stack))
  }

  ghost predicate FibersMarked(t: Thread, m: Marks)
    requires |m.fibers| == |t.fibers|
  {
    forall j :: 0 <= j < |t.fibers| ==> (m.fibers[j] <==> !Describes(t, t.fibers[j].bounds, t.fibers[j].on))
  }

  // what becomes of a description

  lemma {:induction false} NewStays(t: Thread, u: Thread, stack: Bounds, b: Bounds, s: nat)
    requires New(t, stack) && u.live == t.live[stack.base := Mapping(t.next, stack.limit, stack.dealloc)] && s < t.next
    ensures Describes(u, b, s) <==> Describes(t, b, s)
  {
  }

  lemma {:induction false} FreeStays(t: Thread, u: Thread, gone: set<nat>, b: Bounds, s: nat)
    requires Mapped(t) && u.live == t.live - gone
    ensures Describes(u, b, s) <==> Describes(t, b, s) && !Freed(t, gone, s)
  {
    if Describes(t, b, s) && b.base in gone { assert Freed(t, gone, s); }
  }

  lemma {:induction false} GrownStays(t: Thread, u: Thread, limit: nat, b: Bounds, s: nat)
    requires t.teb.base in t.live && limit <= t.live[t.teb.base].commit
    requires u.live == t.live[t.teb.base := t.live[t.teb.base].(commit := limit)]
    ensures Describes(u, b, s) <==> Describes(t, b, s) || Mended(t, b, s, limit)
  {
  }

  lemma {:induction false} RecordsBelow(acts: seq<Act>, guest: Bounds)
    requires acts != []
    ensures var n := |acts| - 1; var last := acts[n];
            Records(acts, guest)[n] == guest && Records(acts, guest)[..n] == Records(acts[..n], if last.Run? then last.prevGuest else guest)
  {
  }

  lemma {:induction false} StartKeepsMarked(t: Thread, m: Marks, stack: Bounds, regs: Regs)
    requires Inv(t) && New(t, stack) && !InGuest(t) && !InLeaf(t) && Marked(t, m)
    ensures Marked(Step(t, Start(stack, regs)), MarksBy(t, m, Start(stack, regs)))
  {
    var u := Step(t, Start(stack, regs));
    var n := |t.acts|;
    assert u.acts[..n] == t.acts;
    RecordsBelow(u.acts, u.guest);
    forall i | 0 <= i < n && t.acts[i].Run?
      ensures Describes(u, Records(u.acts, u.guest)[i], t.acts[i].stack) <==> Describes(t, Records(t.acts, t.guest)[i], t.acts[i].stack)
    {
      assert Records(u.acts, u.guest)[..n][i] == Records(t.acts, t.guest)[i];
      NewStays(t, u, stack, Records(t.acts, t.guest)[i], t.acts[i].stack);
    }
    forall j | 0 <= j < |t.fibers| ensures Describes(u, t.fibers[j].bounds, t.fibers[j].on) <==> Describes(t, t.fibers[j].bounds, t.fibers[j].on) {
      NewStays(t, u, stack, t.fibers[j].bounds, t.fibers[j].on);
    }
  }

  lemma {:induction false} CreateKeepsMarked(t: Thread, m: Marks, stack: Bounds, regs: Regs)
    requires Inv(t) && New(t, stack) && InCall(t) && Marked(t, m)
    ensures Marked(Step(t, Create(stack, regs)), MarksBy(t, m, Create(stack, regs)))
  {
    var u := Step(t, Create(stack, regs));
    forall i | 0 <= i < |t.acts| && t.acts[i].Run?
      ensures Describes(u, Records(t.acts, t.guest)[i], t.acts[i].stack) <==> Describes(t, Records(t.acts, t.guest)[i], t.acts[i].stack)
    {
      NewStays(t, u, stack, Records(t.acts, t.guest)[i], t.acts[i].stack);
    }
    forall j | 0 <= j < |t.fibers| ensures Describes(u, t.fibers[j].bounds, t.fibers[j].on) <==> Describes(t, t.fibers[j].bounds, t.fibers[j].on) {
      NewStays(t, u, stack, t.fibers[j].bounds, t.fibers[j].on);
    }
  }

  lemma {:induction false} GrowKeepsMarked(t: Thread, m: Marks, limit: nat)
    requires Inv(t) && Possible(t, Grow(limit)) && !InLeaf(t) && t.teb.base in t.live && Marked(t, m)
    ensures Marked(Step(t, Grow(limit)), MarksBy(t, m, Grow(limit)))
  {
    var u, r := Step(t, Grow(limit)), MarksBy(t, m, Grow(limit));
    forall i | 0 <= i < |t.acts| && t.acts[i].Run?
      ensures r.runs[i] <==> !Describes(u, Records(t.acts, t.guest)[i], t.acts[i].stack)
    {
      GrownStays(t, u, limit, Records(t.acts, t.guest)[i], t.acts[i].stack);
    }
    forall j | 0 <= j < |t.fibers| ensures r.fibers[j] <==> !Describes(u, t.fibers[j].bounds, t.fibers[j].on) {
      GrownStays(t, u, limit, t.fibers[j].bounds, t.fibers[j].on);
    }
  }

  lemma {:induction false} EnterKeepsMarked(t: Thread, m: Marks, leaf: bool)
    requires Inv(t) && InGuest(t) && Marked(t, m)
    ensures Marked(Step(t, Enter(leaf)), MarksBy(t, m, Enter(leaf)))
  {
    var u := Step(t, Enter(leaf));
    var n := |t.acts|;
    assert u.acts[..n] == t.acts;
    RecordsBelow(u.acts, u.guest);
    forall i | 0 <= i < n ensures Records(u.acts, u.guest)[i] == Records(t.acts, t.guest)[i] {
      assert Records(u.acts, u.guest)[..n][i] == Records(t.acts, t.guest)[i];
    }
  }

  /** Two lists of activations that agree below n, where each has a run with the same bounds to put back. */
  lemma {:induction false} SameRecords(t: Thread, u: Thread, n: nat)
    requires n < |t.acts| <= n + 2 && n < |u.acts| <= n + 2 && t.acts[..n] == u.acts[..n]
    requires t.acts[n].Run? && u.acts[n].Run? && u.acts[n].prevGuest == t.acts[n].prevGuest
    requires (|t.acts| == n + 2 ==> t.acts[n + 1].Trap?) && (|u.acts| == n + 2 ==> u.acts[n + 1].Trap?)
    ensures Records(t.acts, t.guest)[n] == t.guest && Records(u.acts, u.guest)[n] == u.guest
    ensures forall i :: 0 <= i < n ==> Records(u.acts, u.guest)[i] == Records(t.acts, t.guest)[i]
  {
    RecordsOfTop(t.acts, t.guest, n);
    RecordsOfTop(u.acts, u.guest, n);
  }

  lemma {:induction false} RecordsOfTop(acts: seq<Act>, guest: Bounds, n: nat)
    requires n < |acts| <= n + 2 && acts[n].Run? && (|acts| == n + 2 ==> acts[n + 1].Trap?)
    ensures Records(acts, guest)[n] == guest
    ensures forall i :: 0 <= i < n ==> Records(acts, guest)[i] == Records(acts[..n], acts[n].prevGuest)[i]
  {
    var r := Records(acts, guest);
    RecordsBelow(acts, guest);
    if |acts| == n + 2 {
      var q := Records(acts[..n + 1], guest);
      assert acts[..n + 1][..n] == acts[..n];
      RecordsBelow(acts[..n + 1], guest);
      assert forall i :: 0 <= i <= n ==> r[..n + 1][i] == r[i];
      assert forall i :: 0 <= i < n ==> q[..n][i] == q[i];
    } else {
      assert forall i :: 0 <= i < n ==> r[..n][i] == r[i];
    }
  }

  /** The stacks and the levels below n are as they were; what is on record at level n and its mark are looked at apart. */
  lemma {:induction false} TopKeepsRuns(t: Thread, u: Thread, m: Marks, r: Marks, n: nat)
    requires |m.runs| == |t.acts| && |r.runs| == |u.acts| && RunsMarked(t, m) && u.live == t.live
    requires n < |t.acts| <= n + 2 && n < |u.acts| <= n + 2 && t.acts[..n] == u.acts[..n] && m.runs[..n] == r.runs[..n]
    requires t.acts[n].Run? && u.acts[n].Run? && u.acts[n].prevGuest == t.acts[n].prevGuest
    requires (|t.acts| == n + 2 ==> t.acts[n + 1].Trap?) && (|u.acts| == n + 2 ==> u.acts[n + 1].Trap?)
    requires r.runs[n] <==> !Describes(u, u.guest, u.acts[n].stack)
    ensures RunsMarked(u, r)
  {
    SameRecords(t, u, n);
    forall i | 0 <= i < |u.acts| && u.acts[i].Run? ensures r.runs[i] <==> !Describes(u, Records(u.acts, u.guest)[i], u.acts[i].stack) {
      if i < n {
        assert u.acts[i] == u.acts[..n][i] == t.acts[..n][i] == t.acts[i];
        assert r.runs[i] == r.runs[..n][i] == m.runs[..n][i] == m.runs[i];
      }
    }
  }

  lemma {:induction false} TopMark(t: Thread, m: Marks, n: nat)
    requires |m.runs| == |t.acts| && RunsMarked(t, m) && n < |t.acts| <= n + 2 && t.acts[n].Run? && (|t.acts| == n + 2 ==> t.acts[n + 1].Trap?)
    ensures m.runs[n] <==> !Describes(t, t.guest, t.acts[n].stack)
  {
    RecordsOfTop(t.acts, t.guest, n);
  }

  lemma {:induction false} LeaveKeepsMarked(t: Thread, m: Marks)
    requires Inv(t) && (InCall(t) || InLeaf(t)) && Marked(t, m)
    ensures Marked(Step(t, Leave), MarksBy(t, m, Leave))
  {
    TrapOnRun(t);
    var u, n := Step(t, Leave), |t.acts| - 2;
    TopMark(t, m, n);
    TopKeepsRuns(t, u, m, MarksBy(t, m, Leave), n);
  }

  lemma {:induction false} ComputeKeepsMarked(t: Thread, m: Marks, regs: Regs)
    requires Inv(t) && InGuest(t) && Marked(t, m)
    ensures Marked(Step(t, Compute(regs)), m)
  {
    TopMark(t, m, |t.acts| - 1);
    TopKeepsRuns(t, Step(t, Compute(regs)), m, m, |t.acts| - 1);
  }

  lemma {:induction false} StopKeepsMarked(t: Thread, m: Marks, fault: bool)
    requires Inv(t) && InGuest(t) && Marked(t, m)
    ensures Marked(Step(t, Stop(fault)), MarksBy(t, m, Stop(fault)))
  {
    TopKeepsRuns(t, Step(t, Stop(fault)), m, MarksBy(t, m, Stop(fault)), |t.acts| - 1);
  }

  lemma {:induction false} ResumeKeepsMarked(t: Thread, m: Marks, regs: Regs)
    requires Inv(t) && Stopped(t) && Marked(t, m)
    ensures Marked(Step(t, Resume(regs)), MarksBy(t, m, Resume(regs)))
  {
    TopMark(t, m, |t.acts| - 1);
    TopKeepsRuns(t, Step(t, Resume(regs)), m, MarksBy(t, m, Resume(regs)), |t.acts| - 1);
  }

  lemma {:induction false} EditKeepsMarked(t: Thread, m: Marks, regs: Regs)
    requires Inv(t) && Marked(t, m) && (InCall(t) || InLeaf(t))
    ensures Marked(Step(t, Edit(regs)), m)
  {
    TrapOnRun(t);
    var u, n := Step(t, Edit(regs)), |t.acts| - 2;
    assert u.acts[..n + 1] == t.acts[..n + 1] && u.acts[..n] == t.acts[..n];
    TopMark(t, m, n);
    TopKeepsRuns(t, u, m, m, n);
    StepKeepsNested(t, Edit(regs));
    TrapOnRun(u);
  }

  lemma {:induction false} ConvertKeepsMarked(t: Thread, m: Marks)
    requires Inv(t) && Marked(t, m) && InCall(t)
    ensures Marked(Step(t, Convert), MarksBy(t, m, Convert))
  {
    TrapOnRun(t);
    RecordsOfTop(t.acts, t.guest, |t.acts| - 2);
  }

  lemma {:induction false} SwitchKeepsMarked(t: Thread, m: Marks, f: nat, ret: nat)
    requires Inv(t) && Marked(t, m) && Switches(t, f)
    ensures Marked(Step(t, Switch(f, ret)), MarksBy(t, m, Switch(f, ret)))
  {
    var u, n := Step(t, Switch(f, ret)), |t.acts| - 2;
    assert t.fibers[f].bounds.Proper() && t.guest.Proper();
    TopKeepsRuns(t, u, m, MarksBy(t, m, Switch(f, ret)), n);
    SwitchKeepsFibers(t, m, f, ret);
  }

  lemma {:induction false} SwitchKeepsFibers(t: Thread, m: Marks, f: nat, ret: nat)
    requires |m.runs| == |t.acts| && |m.fibers| == |t.fibers| && FibersMarked(t, m) && Switches(t, f) && t.guest.limit != 0
    ensures FibersMarked(Step(t, Switch(f, ret)), MarksBy(t, m, Switch(f, ret)))
  {
  }

  lemma {:induction false} CloseKeepsMarked(t: Thread, m: Marks, exception: bool)
    requires Inv(t) && Marked(t, m) && Stopped(t)
    ensures Marked(Step(t, Close(exception)), MarksBy(t, m, Close(exception)))
  {
    var u := Step(t, Close(exception));
    var gone := if exception then {} else {Top(t).at};
    var n := |t.acts| - 1;
    assert u.live == t.live - gone;
    assert FitsAt(t.acts, n);
    assert n > 0 ==> u.acts[n - 1] == t.acts[n - 1];
    RunsLose(t, u, m, gone);
    FibersLose(t, u, m, gone);
  }

  lemma {:induction false} RunsLose(t: Thread, u: Thread, m: Marks, gone: set<nat>)
    requires Mapped(t) && t.acts != [] && Top(t).Run? && |m.runs| == |t.acts| && RunsMarked(t, m) && u.live == t.live - gone
    requires u.acts == Pop(t) && u.guest == Top(t).prevGuest
    ensures forall i :: 0 <= i < |u.acts| && u.acts[i].Run? ==>
              ((m.runs[i] || Freed(t, gone, u.acts[i].stack)) <==> !Describes(u, Records(u.acts, u.guest)[i], u.acts[i].stack))
  {
    var n := |t.acts| - 1;
    RecordsBelow(t.acts, t.guest);
    forall i | 0 <= i < |u.acts| && u.acts[i].Run?
      ensures (m.runs[i] || Freed(t, gone, u.acts[i].stack)) <==> !Describes(u, Records(u.acts, u.guest)[i], u.acts[i].stack)
    {
      assert Records(t.acts, t.guest)[..n][i] == Records(u.acts, u.guest)[i];
      FreeStays(t, u, gone, Records(t.acts, t.guest)[i], t.acts[i].stack);
    }
  }

  lemma {:induction false} FibersLose(t: Thread, u: Thread, m: Marks, gone: set<nat>)
    requires Mapped(t) && |m.runs| == |t.acts| && |m.fibers| == |t.fibers| && FibersMarked(t, m) && u.live == t.live - gone
    ensures forall j :: 0 <= j < |t.fibers| ==>
              ((m.fibers[j] || Freed(t, gone, t.fibers[j].on)) <==> !Describes(u, t.fibers[j].bounds, t.fibers[j].on))
  {
    forall j | 0 <= j < |t.fibers|
      ensures (m.fibers[j] || Freed(t, gone, t.fibers[j].on)) <==> !Describes(u, t.fibers[j].bounds, t.fibers[j].on)
    {
      FreeStays(t, u, gone, t.fibers[j].bounds, t.fibers[j].on);
    }
  }

  lemma {:induction false} ReleaseKeepsMarked(t: Thread, m: Marks)
    requires Inv(t) && Marked(t, m)
    ensures Marked(Step(t, Release), MarksBy(t, m, Release))
  {
    var u := Step(t, Release);
    forall i | 0 <= i < |t.acts| && t.acts[i].Run?
      ensures Describes(u, Records(t.acts, t.guest)[i], t.acts[i].stack)
         <==> Describes(t, Records(t.acts, t.guest)[i], t.acts[i].stack) && !Freed(t, t.kept, t.acts[i].stack)
    {
      FreeStays(t, u, t.kept, Records(t.acts, t.guest)[i], t.acts[i].stack);
    }
    FibersLose(t, u, m, t.kept);
    FreeStays(t, u, t.kept, t.teb, InnerStack(t.acts));
  }

  /** Every event keeps the marks exact. */
  lemma {:induction false} StepKeepsMarked(t: Thread, m: Marks, e: Event)
    requires Inv(t) && Possible(t, e) && Marked(t, m)
    ensures Marked(Step(t, e), MarksBy(t, m, e))
  {
    match e
    case Start(stack, regs) => if !InGuest(t) && !InLeaf(t) { StartKeepsMarked(t, m, stack, regs); }
    case Compute(regs) => if InGuest(t) { ComputeKeepsMarked(t, m, regs); }
    case Grow(limit) => if !InLeaf(t) && t.teb.base in t.live { GrowKeepsMarked(t, m, limit); }
    case Enter(leaf) => if InGuest(t) { EnterKeepsMarked(t, m, leaf); }
    case Edit(regs) => if InCall(t) || InLeaf(t) { EditKeepsMarked(t, m, regs); }
    case Convert => if InCall(t) { ConvertKeepsMarked(t, m); }
    case Create(stack, regs) => if InCall(t) { CreateKeepsMarked(t, m, stack, regs); }
    case Switch(f, ret) => if Switches(t, f) { SwitchKeepsMarked(t, m, f, ret); }
    case Leave => if InCall(t) || InLeaf(t) { LeaveKeepsMarked(t, m); }
    case Stop(fault) => if InGuest(t) { StopKeepsMarked(t, m, fault); }
    case Resume(regs) => if Stopped(t) { ResumeKeepsMarked(t, m, regs); }
    case Close(exception) => if Stopped(t) { CloseKeepsMarked(t, m, exception); }
    case Release => ReleaseKeepsMarked(t, m);
  }

  lemma {:induction false} PlayKeepsMarked(t: Thread, m: Marks, events: seq<Event>)
    requires Inv(t) && PossiblePlay(t, events) && Marked(t, m)
    ensures Marked(Play(t, events), MarksOver(t, m, events))
    decreases |events|
  {
    if events != [] {
      StepKeepsInv(t, events[0]);
      StepKeepsMarked(t, m, events[0]);
      PlayKeepsMarked(Step(t, events[0]), MarksBy(t, m, events[0]), events[1..]);
    }
  }

  /** The stack that the executing machine is on: the guest's strictly inside the emulator, the native one elsewhere. */
  function Executing(t: Thread): nat { if InGuest(t) then InnerStack(t.acts) else NATIVE }

  const CLEAR: Marks := Marks(false, [], [])

  lemma {:induction false} FreshIsRight(native: Bounds)
    requires native.Proper()
    ensures Inv(Fresh(native)) && Marked(Fresh(native), CLEAR)
  {
  }

  /**
    Over every nesting of runs, traps, fiber switches, and stacks that grow, are
    freed and made again at the same address: while native code executes, the
    TEB describes the native stack, claiming no more to be committed than is.
    While guest code does, it describes the stack that code is on, exactly
    unless its bounds have been marked wrong.  A leaf call is served with the
    TEB on the guest's stack.
   */
  lemma {:induction false} TebDescribesTheExecutingMachine(native: Bounds, events: seq<Event>)
    requires native.Proper() && PossiblePlay(Fresh(native), events)
    ensures var t := Play(Fresh(native), events); var m := MarksOver(Fresh(native), CLEAR, events);
            && (!InGuest(t) && !InLeaf(t) ==> Describes(t, t.teb, Executing(t)))
            && (InGuest(t) ==> (Describes(t, t.teb, Executing(t)) <==> !m.teb))
            && (InLeaf(t) && !m.teb ==> Describes(t, t.teb, InnerStack(t.acts)) && !Describes(t, t.teb, Executing(t)))
  {
    FreshIsRight(native);
    PlayKeepsInv(Fresh(native), events);
    PlayKeepsMarked(Fresh(native), CLEAR, events);
    var t := Play(Fresh(native), events);
    if InLeaf(t) {
      assert t.acts[..|t.acts|] == t.acts;
      InnerIsNamed(t, |t.acts|);
    }
  }

  // ----- when nothing is marked -----

  /** A switch is made by the run that its fiber executes in; what is freed, nobody is on. */
  ghost predicate Orderly(t: Thread, e: Event) {
    match e
    case Switch(f, _) => Switches(t, f) ==> Names(t, t.fibers[t.current].bounds, InnerStack(t.acts))
    case Close(exception) => Stopped(t) && !exception ==> Deserted(t, {Top(t).at}, |t.acts| - 1)
    case Release => Deserted(t, t.kept, |t.acts|)
    case _ => true
  }

  ghost predicate Deserted(t: Thread, gone: set<nat>, n: nat)
    requires n <= |t.acts|
  {
    && (forall i :: 0 <= i < n && t.acts[i].Run? ==> !Freed(t, gone, t.acts[i].stack))
    && (forall f :: 0 <= f < |t.fibers| ==> !Freed(t, gone, t.fibers[f].on))
  }

  ghost predicate OrderlyPlay(t: Thread, events: seq<Event>)
    decreases |events|
  {
    events != [] ==> Orderly(t, events[0]) && OrderlyPlay(Step(t, events[0]), events[1..])
  }

  /** Nothing is wrong. */
  ghost predicate AllRight(t: Thread) {
    && (InGuest(t) || InLeaf(t) ==> Describes(t, t.teb, InnerStack(t.acts)))
    && (forall i :: 0 <= i < |t.acts| && t.acts[i].Run? ==> Describes(t, Records(t.acts, t.guest)[i], t.acts[i].stack))
    && (forall f :: 0 <= f < |t.fibers| ==> Describes(t, t.fibers[f].bounds, t.fibers[f].on))
  }

  function AllClear(t: Thread): Marks { Marks(false, seq(|t.acts|, _ => false), seq(|t.fibers|, _ => false)) }

  lemma {:induction false} OrderlyStep(t: Thread, e: Event)
    requires Inv(t) && Possible(t, e) && AllRight(t) && Orderly(t, e)
    ensures AllRight(Step(t, e))
  {
    StepKeepsMarked(t, AllClear(t), e);
    if e.Switch? && Switches(t, e.f) {
      TrapOnRun(t);
      RecordsOfTop(t.acts, t.guest, |t.acts| - 2);
      SuitsInOrder(t, e.f);
    }
    OrderlyMarks(t, e);
  }

  lemma {:induction false} SuitsInOrder(t: Thread, f: nat)
    requires Inv(t) && Switches(t, f) && Names(t, t.fibers[t.current].bounds, InnerStack(t.acts))
    requires Describes(t, t.guest, InnerStack(t.acts))
    ensures Suits(t)
  {
  }

  /** Clear marks stay clear. */
  ghost predicate NoneMarked(u: Thread, r: Marks) {
    && |r.runs| == |u.acts| && |r.fibers| == |u.fibers|
    && (InGuest(u) || InLeaf(u) ==> !r.teb)
    && (forall i :: 0 <= i < |r.runs| && u.acts[i].Run? ==> !r.runs[i]) && (forall f :: 0 <= f < |r.fibers| ==> !r.fibers[f])
  }

  lemma {:induction false} OrderlyLoses(t: Thread, e: Event)
    requires Inv(t) && Orderly(t, e) && ((e.Close? && Stopped(t)) || e.Release?)
    ensures NoneMarked(Step(t, e), MarksBy(t, AllClear(t), e))
  {
    MarksFit(t, AllClear(t), e);
    assert t.acts != [] ==> FitsAt(t.acts, |t.acts| - 1);
    if e.Release? && t.acts != [] {
      var i := InnerIsARun(t);
    }
  }

  lemma {:induction false} OrderlyGrows(t: Thread, limit: nat)
    requires Inv(t) && AllRight(t)
    ensures NoneMarked(Step(t, Grow(limit)), MarksBy(t, AllClear(t), Grow(limit)))
  {
  }

  lemma {:induction false} OrderlyMarks(t: Thread, e: Event)
    requires Inv(t) && Possible(t, e) && AllRight(t) && Orderly(t, e) && (e.Switch? && Switches(t, e.f) ==> Suits(t))
    ensures NoneMarked(Step(t, e), MarksBy(t, AllClear(t), e))
  {
    if (e.Close? && Stopped(t)) || e.Release? {
      OrderlyLoses(t, e);
    } else if e.Grow? {
      OrderlyGrows(t, e.limit);
    } else {
      MarksFit(t, AllClear(t), e);
    }
  }

  lemma {:induction false} InnerIsARun(t: Thread) returns (i: nat)
    requires Nested(t.acts) && t.acts != []
    ensures i < |t.acts| && t.acts[i].Run? && t.acts[i].stack == InnerStack(t.acts)
  {
    i := |t.acts| - 1;
    if t.acts[i].Trap? {
      assert FitsAt(t.acts, i) && t.acts[..i][i - 1] == t.acts[i - 1];
      i := i - 1;
    }
  }

  /** In every orderly run the TEB is right about the stack of whichever machine executes, leaf calls apart. */
  lemma {:induction false} OrderlyRunsAreRight(t: Thread, events: seq<Event>)
    requires Inv(t) && AllRight(t) && PossiblePlay(t, events) && OrderlyPlay(t, events)
    ensures var u := Play(t, events); AllRight(u) && (!InLeaf(u) ==> Describes(u, u.teb, Executing(u)))
    decreases |events|
  {
    if events != [] {
      StepKeepsInv(t, events[0]);
      OrderlyStep(t, events[0]);
      OrderlyRunsAreRight(Step(t, events[0]), events[1..]);
    }
  }

  /**
    guest_current_fiber is the thread's, the bounds on record are the innermost
    run's.  A guest is a fiber; in a callback that it makes, a second run makes
    a fiber, goes over to it and comes back.  What it comes back to is its own
    code on its own stack, under the first fiber's name: the TEB then has that
    fiber's stack, and claims pages of it that are not committed.
   */
  lemma {:induction false} StraySwitchMisleads(native: Bounds, a: Bounds, b: Bounds, c: Bounds, regs: Regs, ret: nat)
    requires native.Proper() && New(Fresh(native), a) && New(Fresh(native), b) && New(Fresh(native), c)
    requires a.base != b.base && a.base != c.base && b.base != c.base && b.limit < a.limit
    ensures var s := Step(Step(Step(Fresh(native), Start(a, regs)), Enter(false)), Convert);
            var t := Step(Step(Step(s, Start(b, regs)), Enter(false)), Create(c, regs));
            var u := Step(Step(Step(t, Switch(1, ret)), Switch(0, ret)), Leave);
            && Possible(s, Start(b, regs)) && Possible(Step(Step(s, Start(b, regs)), Enter(false)), Create(c, regs))
            && InGuest(u) && Names(u, b, Executing(u)) && Names(u, a, 1) && Executing(u) == 2
            && Names(u, u.teb, 1) && u.teb.limit < u.live[a.base].commit
  {
    var s := Step(Step(Step(Fresh(native), Start(a, regs)), Enter(false)), Convert);
    FirstFiber(native, a, regs);
    var t := Step(Step(Step(s, Start(b, regs)), Enter(false)), Create(c, regs));
    NestedFiber(s, b, c, regs);
    ThereAndBack(t, a, b, c, ret);
  }

  lemma {:induction false} FirstFiber(native: Bounds, a: Bounds, regs: Regs)
    requires native.Proper() && New(Fresh(native), a)
    ensures var s := Step(Step(Step(Fresh(native), Start(a, regs)), Enter(false)), Convert);
            s.fibers == [Fiber(a, 1, ZEROS)] && s.current == 0 && InCall(s) && s.next == 2
            && s.live == Fresh(native).live[a.base := Mapping(1, a.limit, a.dealloc)]
  {
    var r := Step(Fresh(native), Start(a, regs));
    var q := Step(r, Enter(false));
    assert r.acts[0].stack == 1 && q.acts[..1] == r.acts && InnerStack(r.acts) == 1;
  }

  lemma {:induction false} NestedFiber(s: Thread, b: Bounds, c: Bounds, regs: Regs)
    requires InCall(s) && |s.fibers| == 1 && s.next == 2
    ensures var t := Step(Step(Step(s, Start(b, regs)), Enter(false)), Create(c, regs));
            && t.fibers == s.fibers + [Fiber(c, 3, regs)] && t.guest == b && t.current == s.current
            && |t.acts| == |s.acts| + 2 && InCall(t) && t.acts[|s.acts|].Run? && t.acts[|s.acts|].jit && t.acts[|s.acts|].stack == 2 && InnerStack(t.acts) == 2
            && t.live == s.live[b.base := Mapping(2, b.limit, b.dealloc)][c.base := Mapping(3, c.limit, c.dealloc)]
  {
    var r := Step(s, Start(b, regs));
    var q := Step(r, Enter(false));
    assert q.acts[..|q.acts| - 1] == r.acts;
  }

  lemma {:induction false} ThereAndBack(t: Thread, a: Bounds, b: Bounds, c: Bounds, ret: nat)
    requires InCall(t) && |t.acts| >= 2 && t.acts[|t.acts| - 2].Run? && t.acts[|t.acts| - 2].stack == 2 && InnerStack(t.acts) == 2
    requires |t.fibers| == 2 && t.fibers[0].bounds == a && t.fibers[1].bounds == c
    requires t.current == 0 && t.guest == b && a.Proper() && b.Proper() && c.Proper()
    ensures var u := Step(Step(Step(t, Switch(1, ret)), Switch(0, ret)), Leave);
            |u.acts| == |t.acts| - 1 && u.acts[|u.acts| - 1].Run? && u.acts[|u.acts| - 1].stack == 2
            && u.acts[|u.acts| - 1].jit == t.acts[|t.acts| - 2].jit && u.live == t.live && u.teb == a.(limit := b.limit)
  {
    SwitchesOver(t, 1, ret);
    var v := Step(t, Switch(1, ret));
    SwitchesOver(v, 0, ret);
    LeavesOver(Step(v, Switch(0, ret)));
  }

  /** What a switch to fiber f leaves, for a fiber with proper bounds and a run with a limit. */
  lemma {:induction false} SwitchesOver(t: Thread, f: nat, ret: nat)
    requires Switches(t, f) && t.fibers[f].bounds.Proper() && t.guest.limit != 0
    ensures var u := Step(t, Switch(f, ret)); var n := |t.acts|;
            && |u.acts| == n && InCall(u) && u.acts[n - 2] == t.acts[n - 2].(stack := t.fibers[f].on)
            && u.live == t.live && u.current == f && u.guest == t.fibers[f].bounds && |u.fibers| == |t.fibers|
            && u.fibers[t.current].bounds == t.fibers[t.current].bounds.(limit := t.guest.limit)
            && u.fibers[t.current].on == InnerStack(t.acts)
  {
  }

  lemma {:induction false} LeavesOver(t: Thread)
    requires InCall(t) && |t.acts| >= 2 && t.acts[|t.acts| - 2].Run? && t.guest.base != 0
    ensures var u := Step(t, Leave); var n := |t.acts|;
            && |u.acts| == n - 1 && u.acts[n - 2] == t.acts[n - 2].(regs := Top(t).frameRegs) && u.live == t.live && u.teb == t.guest
  {
  }

  /** From a new thread: a guest becomes a fiber, makes another one, and goes over to it; the TEB goes along. */
  lemma {:induction false} FiberSwitchIsReachable(native: Bounds, a: Bounds, b: Bounds, regs: Regs, ret: nat)
    requires native.Proper() && New(Fresh(native), a) && New(Fresh(native), b) && a.base != b.base
    ensures var t := Step(Step(Fresh(native), Start(a, regs)), Enter(false));
            var u := Step(Step(Step(Step(t, Convert), Create(b, regs)), Switch(1, ret)), Leave);
            PossiblePlay(t, [Convert, Create(b, regs), Switch(1, ret), Leave])
            && InGuest(u) && Names(u, b, Executing(u)) && u.teb == b && u.fibers[0].bounds == a && u.current == 1
  {
    var t := Step(Step(Fresh(native), Start(a, regs)), Enter(false));
    PlayFour(t, Convert, Create(b, regs), Switch(1, ret), Leave);
  }

  /** When a run is over its stack is free again: the next one can have the same address. */
  lemma {:induction false} StackIsUsedAgain(t: Thread, a: Bounds, regs: Regs)
    requires !InGuest(t) && !InLeaf(t) && New(t, a)
    ensures var u := Step(Step(Step(t, Start(a, regs)), Stop(false)), Close(false)); u.acts == t.acts && New(u, a)
  {
    var q := Step(Step(t, Start(a, regs)), Stop(false));
    assert Stopped(q) && Top(q).at == a.base;
  }

  lemma {:induction false} PlayFour(t: Thread, a: Event, b: Event, c: Event, d: Event)
    ensures Play(t, [a, b, c, d]) == Step(Step(Step(Step(t, a), b), c), d)
    ensures PossiblePlay(t, [a, b, c, d]) <==>
            && Possible(t, a) && Possible(Step(t, a), b) && Possible(Step(Step(t, a), b), c)
            && Possible(Step(Step(Step(t, a), b), c), d)
  {
    assert [a, b, c, d][1..] == [b, c, d] && [b, c, d][1..] == [c, d] && [c, d][1..] == [d] && [d][1..] == [];
    var t1, t2, t3 := Step(t, a), Step(Step(t, a), b), Step(Step(Step(t, a), b), c);
    assert Play(t, [a, b, c, d]) == Play(t1, [b, c, d]) == Play(t2, [c, d]) == Play(t3, [d]) == Play(Step(t3, d), []);
    assert PossiblePlay(t3, [d]) <==> Possible(t3, d);
    assert PossiblePlay(t2, [c, d]) <==> Possible(t2, c) && PossiblePlay(t3, [d]);
    assert PossiblePlay(t1, [b, c, d]) <==> Possible(t1, b) && PossiblePlay(t2, [c, d]);
  }

  // ----- the end of a run -----

  /** The activations below the first n are untouched by an event, as long as it does not leave them. */
  ghost predicate Within(t: Thread, events: seq<Event>, n: nat)
    decreases |events|
  {
    |t.acts| > n && (events != [] ==> Within(Step(t, events[0]), events[1..], n))
  }

  lemma {:induction false} StepAbove(t: Thread, e: Event, n: nat)
    requires Nested(t.acts) && |t.acts| > n && |Step(t, e).acts| > n && t.acts[n].Run?
    ensures var u := Step(t, e);
            u.acts[..n] == t.acts[..n] && u.acts[n].Run? && u.acts[n].prevGuest == t.acts[n].prevGuest
            && u.acts[n].prevPub == t.acts[n].prevPub
  {
  }

  lemma {:induction false} PlayAbove(t: Thread, events: seq<Event>, n: nat)
    requires Nested(t.acts) && Within(t, events, n) && t.acts[n].Run?
    ensures var u := Play(t, events);
            |u.acts| > n && u.acts[..n] == t.acts[..n] && u.acts[n].Run?
            && u.acts[n].prevGuest == t.acts[n].prevGuest && u.acts[n].prevPub == t.acts[n].prevPub
    decreases |events|
  {
    if events != [] {
      StepKeepsNested(t, events[0]);
      StepAbove(t, events[0], n);
      PlayAbove(Step(t, events[0]), events[1..], n);
    }
  }

  lemma {:induction false} NativeKeptThroughout(t: Thread, events: seq<Event>)
    requires Inv(t) && PossiblePlay(t, events)
    ensures NativeKept(t, Play(t, events))
    decreases |events|
  {
    if events != [] {
      StepKeepsInv(t, events[0]);
      StepKeepsMapped(t, events[0]);
      NativeKeptThroughout(Step(t, events[0]), events[1..]);
    }
  }

  /**
    Whatever happens inside a run, closing it puts back the guest bounds in
    force when it was opened, and a TEB that describes the same native stack.
   */
  lemma {:induction false} ClosingRestores(t: Thread, stack: Bounds, regs: Regs, events: seq<Event>, exception: bool)
    requires Inv(t) && !InGuest(t) && !InLeaf(t) && Possible(t, Start(stack, regs))
    requires PossiblePlay(Step(t, Start(stack, regs)), events) && Within(Step(t, Start(stack, regs)), events, |t.acts|)
    requires var u := Play(Step(t, Start(stack, regs)), events); Stopped(u) && |u.acts| == |t.acts| + 1
    ensures var v := Step(Play(Step(t, Start(stack, regs)), events), Close(exception));
            v.acts == t.acts && v.guest == t.guest && v.teb.base == t.teb.base && v.teb.dealloc == t.teb.dealloc
  {
    var s := Step(t, Start(stack, regs));
    StepKeepsInv(t, Start(stack, regs));
    StepKeepsMapped(t, Start(stack, regs));
    assert s.acts[..|t.acts|] == t.acts;
    PlayAbove(s, events, |t.acts|);
    PlayKeepsInv(s, events);
    NativeKeptThroughout(s, events);
    var u := Play(s, events);
    StepKeepsInv(u, Close(exception));
    StepKeepsMapped(u, Close(exception));
    SameNativeBounds(t, s, u, Step(u, Close(exception)));
  }

  lemma {:induction false} SameNativeBounds(t: Thread, s: Thread, u: Thread, v: Thread)
    requires Mapped(t) && Mapped(v) && NativeKept(t, s) && NativeKept(s, u) && NativeKept(u, v)
    requires Describes(t, t.teb, NATIVE) && Describes(v, v.teb, NATIVE)
    ensures v.teb.base == t.teb.base && v.teb.dealloc == t.teb.dealloc
  {
  }

  // ----- growth -----

  /**
    Over a run of events: has the guest stack that the TEB shows been moved by a
    guard page since its bounds were last put there?  They are put there when a
    run opens or goes round, and when a trap returns, except a leaf call's.
   */
  function Grown(t: Thread, grown: bool, events: seq<Event>): bool
    decreases |events|
  {
    if events == [] then grown else Grown(Step(t, events[0]), GrownBy(t, grown, events[0]), events[1..])
  }

  function GrownBy(t: Thread, grown: bool, e: Event): bool {
    match e
    case Grow(limit) => if InGuest(t) && t.teb.base in t.live then limit != t.guest.limit else grown
    case Start(_, _) => grown && (InGuest(t) || InLeaf(t))
    case Leave => grown && !InCall(t)
    case Resume(_) => grown && !Stopped(t)
    case _ => grown
  }

  /** In guest code the TEB's limit is off the recorded one exactly if it was moved, and then it is where it was moved to. */
  ghost predicate Ahead(t: Thread, grown: bool) {
    InGuest(t) || InLeaf(t) ==>
      && (grown <==> t.teb.limit != t.guest.limit)
      && (grown && t.teb.base in t.live ==> t.teb.limit == t.live[t.teb.base].commit)
  }

  lemma {:induction false} StepKeepsAhead(t: Thread, grown: bool, e: Event)
    requires Inv(t) && Possible(t, e) && Ahead(t, grown)
    ensures Ahead(Step(t, e), GrownBy(t, grown, e))
  {
    assert t.acts != [] ==> FitsAt(t.acts, |t.acts| - 1);
    if InCall(t) || InLeaf(t) { TrapOnRun(t); }
  }

  lemma {:induction false} PlayKeepsAhead(t: Thread, grown: bool, events: seq<Event>)
    requires Inv(t) && PossiblePlay(t, events) && Ahead(t, grown)
    ensures Ahead(Play(t, events), Grown(t, grown, events))
    decreases |events|
  {
    if events != [] {
      StepKeepsInv(t, events[0]);
      StepKeepsAhead(t, grown, events[0]);
      PlayKeepsAhead(Step(t, events[0]), GrownBy(t, grown, events[0]), events[1..]);
    }
  }

  /**
    The limit is not read back at a trap: in every run, a call out of guest
    code and back leaves the TEB's limit as it was exactly if the stack has
    not grown since its bounds were last put there.  If it has, the bounds on
    record, which come back, leave out pages that are committed, unless they
    are wrong altogether.
   */
  lemma {:induction false} TrapForgetsGrowth(native: Bounds, events: seq<Event>)
    requires native.Proper() && PossiblePlay(Fresh(native), events) && InGuest(Play(Fresh(native), events))
    ensures var t := Play(Fresh(native), events); var u := Step(Step(t, Enter(false)), Leave);
            var grown := Grown(Fresh(native), false, events); var m := MarksOver(Fresh(native), CLEAR, events);
            && u.acts == t.acts && u.live == t.live && u.teb.base == t.teb.base && |m.runs| == |t.acts|
            && (u.teb.limit == t.teb.limit <==> !grown)
            && (grown && !m.runs[|t.acts| - 1] ==> u.teb.base in u.live && u.teb.limit > u.live[u.teb.base].commit)
  {
    FreshIsRight(native);
    PlayKeepsInv(Fresh(native), events);
    PlayKeepsAhead(Fresh(native), false, events);
    PlayKeepsMarked(Fresh(native), CLEAR, events);
    var t := Play(Fresh(native), events);
    OutAndBack(t);
    RecordsBelow(t.acts, t.guest);
  }

  lemma {:induction false} OutAndBack(t: Thread)
    requires Shown(t) && InGuest(t)
    ensures var u := Step(Step(t, Enter(false)), Leave); u.acts == t.acts && u.live == t.live && u.teb == t.guest
  {
  }

  /** Such a run: the guest stack grows by a page, and one call later the TEB says that it has not. */
  lemma {:induction false} GrowthIsForgotten()
    ensures var events := [Start(Bounds(0x8000, 0x7000, 0x1000), ZEROS), Grow(0x6000), Enter(false), Leave];
            var n := Bounds(0x20000, 0x1f000, 0x10000); var t := Play(Fresh(n), events);
            PossiblePlay(Fresh(n), events) && 0x8000 in t.live && t.live[0x8000].commit == 0x6000 && t.teb == Bounds(0x8000, 0x7000, 0x1000)
  {
    var n := Bounds(0x20000, 0x1f000, 0x10000);
    var a, b, c, d := Start(Bounds(0x8000, 0x7000, 0x1000), ZEROS), Grow(0x6000), Enter(false), Leave;
    PlayFour(Fresh(n), a, b, c, d);
    var t1 := Step(Fresh(n), a);
    var t2 := Step(t1, b);
    assert t2.live[0x8000].commit == 0x6000 && t2.guest == Bounds(0x8000, 0x7000, 0x1000) && InGuest(t2);
    OutAndBack(t2);
  }

  /** Stopping does read it back: the next entry into guest code shows the grown limit. */
  lemma {:induction false} StopKeepsGrowth(t: Thread, fault: bool, regs: Regs)
    requires Inv(t) && InGuest(t)
    ensures Step(Step(t, Stop(fault)), Resume(regs)).teb == t.teb
  {
  }

  /** SwitchToFiber parks the limit that the run recorded, which a trap does not bring up to date. */
  lemma {:induction false} ParkedLimitIsTheRecordedOne(t: Thread, limit: nat, f: nat, ret: nat)
    requires Inv(t) && InGuest(t) && Possible(t, Grow(limit)) && 0 <= t.current < |t.fibers| && f < |t.fibers| && f != t.current
    requires Names(t, t.fibers[t.current].bounds, Executing(t)) && Describes(t, t.guest, Executing(t))
    ensures var u := Step(Step(Step(t, Grow(limit)), Enter(false)), Switch(f, ret));
            && |u.fibers| == |t.fibers| && u.current == f && u.guest == t.fibers[f].bounds
            && u.fibers[t.current].bounds == t.guest && t.guest.base in u.live
            && (u.fibers[t.current].bounds.limit == u.live[t.guest.base].commit <==> t.guest.limit == limit)
  {
    var g := Step(t, Grow(limit));
    var v := Step(g, Enter(false));
    assert g.acts == t.acts && v.acts[..|t.acts|] == t.acts && InnerStack(v.acts) == InnerStack(t.acts);
    assert t.fibers[t.current].bounds.base == t.guest.base;
    assert Switches(v, f) && t.fibers[f].bounds.Proper();
  }

  // ----- the published registers -----

  datatype Answer = NoContext | Registers(regs: Regs)

  /** emu_get_guest_context; the frame that InTrap names is read in place. */
  function Query(t: Thread): Answer {
    match t.pub.state
    case InTrap => if t.pub.frame < |t.acts| && t.acts[t.pub.frame].Trap? then Registers(t.acts[t.pub.frame].frameRegs) else NoContext
    case Fault => Registers(t.pub.copy)
    case Ended => Registers(t.pub.copy)
    case _ => NoContext
  }

  /** The guest's registers where the guest stands still: at the trap it is in, or where its run stopped. */
  function Actual(t: Thread): Answer {
    if t.acts == [] || InGuest(t) then NoContext
    else if Top(t).Trap? then Registers(Top(t).frameRegs)
    else Registers(Top(t).regs)
  }

  /** A publication that fits what the thread is in the middle of. */
  ghost predicate Right(pub: Published, acts: seq<Act>) {
    if acts == [] then pub.state == None
    else
      var last := acts[|acts| - 1];
      if last.Trap? then pub.state == InTrap && pub.frame == |acts| - 1
      else if last.jit then pub.state == Running
      else (pub.state == Fault || pub.state == Ended) && pub.copy == last.regs
  }

  lemma {:induction false} RightIsExact(t: Thread)
    requires Right(t.pub, t.acts)
    ensures Query(t) == Actual(t)
  {
  }

  /** After an event, each run either was there, on the same activations, or was just opened on all of them. */
  lemma {:induction false} RunAfter(t: Thread, e: Event, i: nat)
    requires Nested(t.acts) && i < |Step(t, e).acts| && Step(t, e).acts[i].Run?
    ensures var u := Step(t, e);
            || (i < |t.acts| && t.acts[i].Run? && u.acts[i].prevPub == t.acts[i].prevPub && u.acts[..i] == t.acts[..i])
            || (u.acts[..i] == t.acts && u.acts[i].prevPub == t.pub)
  {
  }

  /** What a closed run left published, if anything. */
  datatype Left = Clear | Stale(regs: Regs)

  /**
    One for each nesting level, the level of no activation first: a run that
    closes on an exception leaves its registers to the level it returns to;
    there they stay until that level's guest executes again or is stopped.
   */
  function LeftBy(t: Thread, left: seq<Left>, e: Event): seq<Left>
    requires |left| == |t.acts| + 1
  {
    var n := |t.acts|;
    match e
    case Start(_, _) => if InGuest(t) || InLeaf(t) then left else left + [Clear]
    case Enter(_) => if InGuest(t) then left + [Clear] else left
    case Leave => if (InCall(t) || InLeaf(t)) && n >= 2 && t.acts[n - 2].Run? then left[..n - 1] + [Clear] else left
    case Stop(_) => if InGuest(t) then left[..n] + [Clear] else left
    case Resume(_) => if Stopped(t) then left[..n] + [Clear] else left
    case Close(exception) =>
      if !Stopped(t) then left
      else if !exception then left[..n]
      else left[..n - 1] + [if left[n].Stale? then left[n] else Stale(Top(t).regs)]
    case _ => left
  }

  function LeftOver(t: Thread, left: seq<Left>, events: seq<Event>): seq<Left>
    requires |left| == |t.acts| + 1
    decreases |events|
  {
    if events == [] then left
    else
      LeftLevels(t, left, events[0]);
      LeftOver(Step(t, events[0]), LeftBy(t, left, events[0]), events[1..])
  }

  lemma {:induction false} LeftLevels(t: Thread, left: seq<Left>, e: Event)
    requires |left| == |t.acts| + 1
    ensures |LeftBy(t, left, e)| == |Step(t, e).acts| + 1
  {
  }

  /** The publication is right, or it is the leftover. */
  ghost predicate Fits(pub: Published, acts: seq<Act>, left: Left) {
    match left
    case Clear => Right(pub, acts)
    case Stale(regs) =>
      && (acts != [] ==> acts[|acts| - 1].Trap? || !acts[|acts| - 1].jit)
      && (pub.state == Fault || pub.state == Ended) && pub.copy == regs
  }

  /** Also the publications kept for later. */
  ghost predicate FitsThroughout(t: Thread, left: seq<Left>) {
    && |left| == |t.acts| + 1
    && Fits(t.pub, t.acts, left[|t.acts|])
    && forall i :: 0 <= i < |t.acts| && t.acts[i].Run? ==> Fits(t.acts[i].prevPub, t.acts[..i], left[i])
  }

  lemma {:induction false} PlayKeepsNested(t: Thread, events: seq<Event>)
    requires Nested(t.acts)
    ensures Nested(Play(t, events).acts)
    decreases |events|
  {
    if events != [] {
      StepKeepsNested(t, events[0]);
      PlayKeepsNested(Step(t, events[0]), events[1..]);
    }
  }

  lemma {:induction false} NowFits(t: Thread, left: seq<Left>, e: Event)
    requires Nested(t.acts) && FitsThroughout(t, left)
    ensures |LeftBy(t, left, e)| == |Step(t, e).acts| + 1
    ensures Fits(Step(t, e).pub, Step(t, e).acts, LeftBy(t, left, e)[|Step(t, e).acts|])
  {
    LeftLevels(t, left, e);
    assert t.acts != [] ==> FitsAt(t.acts, |t.acts| - 1);
    if e.Close? && Stopped(t) {
      assert Fits(Top(t).prevPub, t.acts[..|t.acts| - 1], left[|t.acts| - 1]);
    }
  }

  lemma {:induction false} StepKeepsFits(t: Thread, left: seq<Left>, e: Event)
    requires Nested(t.acts) && FitsThroughout(t, left)
    ensures FitsThroughout(Step(t, e), LeftBy(t, left, e))
  {
    NowFits(t, left, e);
    forall i | 0 <= i < |Step(t, e).acts| && Step(t, e).acts[i].Run?
      ensures Fits(Step(t, e).acts[i].prevPub, Step(t, e).acts[..i], LeftBy(t, left, e)[i])
    {
      RunAfter(t, e, i);
    }
  }

  lemma {:induction false} PlayKeepsFits(t: Thread, left: seq<Left>, events: seq<Event>)
    requires Nested(t.acts) && FitsThroughout(t, left)
    ensures FitsThroughout(Play(t, events), LeftOver(t, left, events))
    decreases |events|
  {
    if events != [] {
      StepKeepsNested(t, events[0]);
      StepKeepsFits(t, left, events[0]);
      PlayKeepsFits(Step(t, events[0]), LeftBy(t, left, events[0]), events[1..]);
    }
  }

  /** The leftover of the level a thread stands at, after a run of events from its creation. */
  function LeftNow(native: Bounds, events: seq<Event>): Left {
    var left := LeftOver(Fresh(native), [Clear], events);
    if left == [] then Clear else left[|left| - 1]
  }

  /**
    What a debugger reads, in every run of events whatever: the guest's actual registers
    or none, unless a run closed on an exception has left its own at this level.
    Then it reads those.
   */
  lemma {:induction false} QueriesAreExact(native: Bounds, events: seq<Event>)
    ensures var t := Play(Fresh(native), events);
            Query(t) == match LeftNow(native, events) { case Clear => Actual(t) case Stale(regs) => Registers(regs) }
  {
    PlayKeepsFits(Fresh(native), [Clear], events);
    var t := Play(Fresh(native), events);
    if LeftNow(native, events).Clear? { RightIsExact(t); }
  }

  lemma {:induction false} PlayAppend(t: Thread, events: seq<Event>, left: seq<Left>, e: Event)
    requires |left| == |t.acts| + 1
    ensures Play(t, events + [e]) == Step(Play(t, events), e)
    ensures |LeftOver(t, left, events)| == |Play(t, events).acts| + 1
    ensures LeftOver(t, left, events + [e]) == LeftBy(Play(t, events), LeftOver(t, left, events), e)
    decreases |events|
  {
    var all := events + [e];
    if events == [] {
      LeftLevels(t, left, e);
      assert all == [e] && all[1..] == [];
    } else {
      LeftLevels(t, left, events[0]);
      assert all[0] == events[0] && all[1..] == events[1..] + [e];
      PlayAppend(Step(t, events[0]), events[1..], LeftBy(t, left, events[0]), e);
    }
  }

  /**
    The end of a run, after any others: what is read then is exact if and only
    if it ends without an exception where nothing stale was left, or what is
    left there equals the enclosing guest's registers.
   */
  lemma {:induction false} CloseOnExceptionIsExactIff(native: Bounds, events: seq<Event>, exception: bool)
    requires Stopped(Play(Fresh(native), events))
    ensures var t := Play(Fresh(native), events); var u := Step(t, Close(exception));
            var left := LeftOver(Fresh(native), [Clear], events);
            && |left| == |t.acts| + 1
            && (Query(u) == Actual(u) <==>
                  if exception then Actual(u) == Registers(if left[|t.acts|].Stale? then left[|t.acts|].regs else Top(t).regs)
                  else left[|t.acts| - 1].Clear? || Actual(u) == Registers(left[|t.acts| - 1].regs))
  {
    var t := Play(Fresh(native), events);
    PlayKeepsNested(Fresh(native), events);
    PlayKeepsFits(Fresh(native), [Clear], events);
    PlayAppend(Fresh(native), events, [Clear], Close(exception));
    QueriesAreExact(native, events + [Close(exception)]);
  }

  /** What holds of the publication in every run: it says `Running` exactly in guest code, and names only a live frame. */
  ghost predicate Sane(pub: Published, acts: seq<Act>) {
    && (pub.state == Running <==> acts != [] && acts[|acts| - 1].Run? && acts[|acts| - 1].jit)
    && (pub.state == InTrap ==> acts != [] && acts[|acts| - 1].Trap? && pub.frame == |acts| - 1)
  }

  ghost predicate SaneThroughout(t: Thread) {
    Sane(t.pub, t.acts) && forall i :: 0 <= i < |t.acts| && t.acts[i].Run? ==> Sane(t.acts[i].prevPub, t.acts[..i])
  }

  lemma {:induction false} NowSane(t: Thread, e: Event)
    requires Nested(t.acts) && SaneThroughout(t)
    ensures Sane(Step(t, e).pub, Step(t, e).acts)
  {
    assert t.acts != [] ==> FitsAt(t.acts, |t.acts| - 1);
    if e.Close? && Stopped(t) {
      assert Sane(Top(t).prevPub, t.acts[..|t.acts| - 1]);
    }
  }

  lemma {:induction false} StepKeepsSane(t: Thread, e: Event)
    requires Nested(t.acts) && SaneThroughout(t)
    ensures SaneThroughout(Step(t, e))
  {
    NowSane(t, e);
    forall i | 0 <= i < |Step(t, e).acts| && Step(t, e).acts[i].Run?
      ensures Sane(Step(t, e).acts[i].prevPub, Step(t, e).acts[..i])
    {
      RunAfter(t, e, i);
    }
  }

  lemma {:induction false} PlayKeepsSane(t: Thread, events: seq<Event>)
    requires Nested(t.acts) && SaneThroughout(t)
    ensures SaneThroughout(Play(t, events))
    decreases |events|
  {
    if events != [] {
      StepKeepsNested(t, events[0]);
      StepKeepsSane(t, events[0]);
      PlayKeepsSane(Step(t, events[0]), events[1..]);
    }
  }

  /** In every run whatever, nothing is answered while the thread executes in the emulator, and no dead frame is read. */
  lemma {:induction false} NothingIsAnsweredInTheEmulator(native: Bounds, events: seq<Event>)
    ensures var t := Play(Fresh(native), events);
            && (InGuest(t) ==> Query(t) == NoContext)
            && (t.pub.state == InTrap ==> Query(t) == Actual(t) != NoContext)
  {
    PlayKeepsNested(Fresh(native), events);
    PlayKeepsSane(Fresh(native), events);
  }

  /** A nested run that ends in an unwind request, inside any trap: the debugger reads the nested run's registers. */
  lemma {:induction false} NestedRunLeavesItsRegisters(t: Thread, stack: Bounds, regs: Regs)
    requires Nested(t.acts) && InCall(t)
    ensures var u := Step(Step(Step(t, Start(stack, regs)), Stop(false)), Close(true));
            InCall(u) && Actual(u) == Actual(t) && Query(u) == Registers(regs)
  {
  }
}
