/**
  Structured exception handling over a guest stack (dlls/ntdll/signal_ppc64.c):
  the unwind that runs the __finally blocks between a fault and the frame that
  took it, the second unwind a __finally may start from inside the first (a
  collided unwind), and the consolidating unwind that MSVC spells `catch` with.

  Guest code is whatever it likes to be: every funclet, handler and routine is
  answered by a function of all that has been run so far, and the results hold
  for every such guest.
 */
module GuestUnwind {

  datatype Option<+T> = None | Some(value: T)

  const MAX_FRAMES: nat := 256                // GUEST_SEH_MAX_FRAMES
  const EXECUTE_HANDLER: nat := 1             // a scope's "no filter, always take it"
  const UNWIND_CONSOLIDATE: nat := 0x80000029 // STATUS_UNWIND_CONSOLIDATE

  datatype Status =
    | Success | NotImplemented | BadStack | InvalidUnwindTarget | InvalidDisposition
    | InvalidParameter | Unhandled | NoncontinuableException | UnwindFailed

  /** One SCOPE_RECORD; addresses are relative to the image base. */
  datatype Scope = Scope(begin: nat, end: nat, handler: nat, jump: nat)

  /**
    What a frame's .xdata names: nothing, the guest ntdll's own
    __C_specific_handler with its scope table (a missing table is an empty one),
    guest code of its own, or an address in no guest image.
   */
  datatype LanguageHandler = NoHandler | CSpecific(table: seq<Scope>) | Personality | Foreign

  /**
    `handler` is what an unwind is given, `asked` what a search is: the flags
    beside the handler in .xdata say for which of the two it is there, and where
    it is not there is none.
   */
  datatype Frame = Frame(establisher: nat, base: nat, pc: nat, handler: LanguageHandler, asked: LanguageHandler) {
    function Count(): nat { if handler.CSpecific? then |handler.table| else 0 }
    function Tries(): nat { if asked.CSpecific? then |asked.table| else 0 }
  }

  /** The register file; `rest` stands for every register the unwind does not name. */
  datatype Context = Context(rip: nat, rsp: nat, rax: nat, rest: nat)

  /** An EXCEPTION_RECORD: its code and as many ExceptionInformation slots as it has parameters. */
  datatype Record = Record(code: nat, info: seq<nat>)

  /** RtlUnwindEx's request, carried by value; contextOut 0 means no ContextRecord. */
  datatype Target = Target(frame: nat, ip: nat, value: nat, contextOut: nat, rec: Record)

  /**
    A stack as the x86-64 unwinder sees it, innermost frame first.  regs[k] is
    the register file in frame k, so unwinding frame k yields regs[k + 1].
    Past the last frame the unwinder fails or leaves the stack, with `end`.
   */
  datatype Stack = Stack(frames: seq<Frame>, regs: seq<Context>, end: Status) {
    predicate Valid() { |regs| == |frames| + 1 && end != Success }
  }

  /** What has been run as guest code, in order. */
  datatype Event =
    | Filter(k: nat, i: nat)                     // the filter of scope i of frame k
    | Consulted(k: nat)                          // frame k's own handler, looking for a taker
    | Finally(k: nat, i: nat)                    // the __finally of scope i of frame k
    | Entered(k: nat, scope: nat, target: bool)  // frame k's own handler, unwinding
    | Routine(address: nat, rec: Record)         // the consolidation routine

  datatype FinallyReply = Returned | Unwinds(t: Target)
  datatype SearchReply = KeepSearching | ContinueExecution | NestedException | Takes(t: Target) | Unspoken
  datatype HandlerReply = ContinueSearch | Accepts(t: Target, scope: nat) | Other

  /** `image` follows jump thunks and answers only for addresses inside a guest image. */
  datatype Guest = Guest(
    onFilter: seq<Event> -> int,
    onConsulted: seq<Event> -> SearchReply,
    onFinally: seq<Event> -> FinallyReply,
    onEntered: seq<Event> -> HandlerReply,
    onRoutine: seq<Event> -> nat,
    image: nat -> Option<nat>)

  datatype Outcome = Outcome(status: Status, regs: Context, ran: seq<Event>, write: Option<Context>)

  // ----- the unwind half of __C_specific_handler -----

  predicate Covers(f: Frame, s: Scope, address: nat) {
    f.base + s.begin <= address < f.base + s.end
  }

  /** A __finally whose __try the frame is inside. */
  predicate Live(f: Frame, i: nat) {
    i < f.Count() && Covers(f, f.handler.table[i], f.pc) && f.handler.table[i].jump == 0
  }

  /** The __try that the unwind is heading into; its __finally must not run. */
  predicate Into(f: Frame, i: nat, ip: nat)
    requires i < f.Count()
  {
    Covers(f, f.handler.table[i], ip)
  }

  datatype Searched = Through(ran: seq<Event>) | Collided(ran: seq<Event>, scope: nat, t: Target)

  function RunFinallys(g: Guest, f: Frame, k: nat, i: nat, target: bool, ip: nat, ran: seq<Event>): Searched
    decreases f.Count() - i
  {
    if i >= f.Count() then Through(ran)
    else if !Live(f, i) then RunFinallys(g, f, k, i + 1, target, ip, ran)
    else if target && Into(f, i, ip) then Through(ran)
    else
      var ran' := ran + [Finally(k, i)];
      match g.onFinally(ran')
      case Unwinds(t) => Collided(ran', i + 1, t)
      case Returned => RunFinallys(g, f, k, i + 1, target, ip, ran')
  }

  // ----- guest_unwind_to_target -----

  /** The loop's variables; `again` is the frame and scope of the last adopted collision. */
  datatype Walk = Walk(k: nat, scope: nat, want: Target, depth: nat, again: (nat, nat), ran: seq<Event>)

  function Fail(stack: Stack, w: Walk, status: Status): Outcome
    requires stack.Valid() && w.k <= |stack.frames|
  {
    Outcome(status, stack.regs[w.k], w.ran, None)
  }

  function Adopt(f: Frame, w: Walk, scope: nat, t: Target, ran: seq<Event>): Walk {
    w.(scope := scope, want := t, again := (f.establisher, scope), depth := w.depth + 1, ran := ran)
  }

  /** Where a collision is refused: the frame it names is gone, or it has not advanced. */
  function Refusal(f: Frame, w: Walk, scope: nat, t: Target): Option<Status> {
    if t.frame < f.establisher then Some(InvalidUnwindTarget)
    else if (f.establisher, scope) == w.again then Some(NotImplemented)
    else None
  }

  function UnwindFrom(g: Guest, stack: Stack, w: Walk): Outcome
    requires stack.Valid() && w.k <= |stack.frames|
    decreases MAX_FRAMES - w.depth
  {
    if w.k == |stack.frames| then Fail(stack, w, stack.end)
    else if w.depth >= MAX_FRAMES then Fail(stack, w, BadStack)
    else
      var f := stack.frames[w.k];
      if f.establisher > w.want.frame then Fail(stack, w, InvalidUnwindTarget)
      else
        var target := f.establisher == w.want.frame;
        match f.handler
        case NoHandler => Onward(g, stack, w, w.ran)
        case Foreign => Fail(stack, w, NotImplemented)
        case Personality =>
          (var ran' := w.ran + [Entered(w.k, w.scope, target)];
          match g.onEntered(ran')
          case ContinueSearch => Onward(g, stack, w, ran')
          case Accepts(t, scope) => Again(g, stack, w, scope, t, ran')
          case Other => Fail(stack, w.(ran := ran'), InvalidDisposition))
        case CSpecific(_) =>
          match RunFinallys(g, f, w.k, w.scope, target, w.want.ip, w.ran)
          case Through(ran') => Onward(g, stack, w, ran')
          case Collided(ran', scope, t) => Again(g, stack, w, scope, t, ran')
  }

  /** The frame's handler continued the search: resume here if this is the target, else one frame out. */
  function Onward(g: Guest, stack: Stack, w: Walk, ran: seq<Event>): Outcome
    requires stack.Valid() && w.k < |stack.frames| && w.depth < MAX_FRAMES
    decreases MAX_FRAMES - w.depth, 0
  {
    if stack.frames[w.k].establisher == w.want.frame then Resume(g, w.want, stack.regs[w.k], ran)
    else UnwindFrom(g, stack, Next(w, ran))
  }

  function Next(w: Walk, ran: seq<Event>): Walk { w.(k := w.k + 1, scope := 0, depth := w.depth + 1, ran := ran) }

  /** A second unwind was started from inside this one: adopt it where it collided. */
  function Again(g: Guest, stack: Stack, w: Walk, scope: nat, t: Target, ran: seq<Event>): Outcome
    requires stack.Valid() && w.k < |stack.frames| && w.depth < MAX_FRAMES
    decreases MAX_FRAMES - w.depth, 0
  {
    var f := stack.frames[w.k];
    match Refusal(f, w, scope, t)
    case Some(status) => Fail(stack, w.(ran := ran), status)
    case None => UnwindFrom(g, stack, Adopt(f, w, scope, t, ran))
  }

  /** Everything is unwound: the return value, the caller's ContextRecord, then the resume address. */
  function Resume(g: Guest, want: Target, regs: Context, ran: seq<Event>): Outcome {
    var regs' := regs.(rax := want.value);
    var write := if want.contextOut == 0 then None else Some(regs');
    if want.rec.code == UNWIND_CONSOLIDATE then
      match Consolidate(g, want.rec, ran)
      case (status, ran', rip) =>
        Outcome(status, if status == Success then regs'.(rip := rip) else regs', ran', write)
    else Outcome(Success, regs'.(rip := want.ip), ran, write)
  }

  function Consolidate(g: Guest, rec: Record, ran: seq<Event>): (Status, seq<Event>, nat) {
    if |rec.info| < 1 || rec.info[0] == 0 then (InvalidParameter, ran, 0)
    else
      match g.image(rec.info[0])
      case None => (NotImplemented, ran, 0)
      case Some(routine) =>
        var ran' := ran + [Routine(routine, rec)];
        var rip := g.onRoutine(ran');
        if rip == 0 then (NotImplemented, ran', 0) else (Success, ran', rip)
  }

  /** `before` is what the search phase ran. */
  function Unwind(g: Guest, stack: Stack, t: Target, before: seq<Event>): Outcome
    requires stack.Valid()
  {
    UnwindFrom(g, stack, Walk(0, 0, t, 0, (0, 0), before))
  }

  // ----- what is owed -----

  /** The live __finally scopes of frame k with index in [s, e), in table order. */
  function LiveIn(f: Frame, k: nat, s: nat, e: nat): seq<(nat, nat)>
    decreases e
  {
    if e <= s then []
    else LiveIn(f, k, s, e - 1) + if Live(f, e - 1) then [(k, e - 1)] else []
  }

  /** All live scopes of the frames inside frame k, innermost frame first. */
  function Below(frames: seq<Frame>, k: nat): seq<(nat, nat)>
    requires k <= |frames|
  {
    if k == 0 then [] else Below(frames, k - 1) + LiveIn(frames[k - 1], k - 1, 0, frames[k - 1].Count())
  }

  /** Everything up to, and not including, scope `scope` of frame k. */
  function UpTo(frames: seq<Frame>, k: nat, scope: nat): seq<(nat, nat)>
    requires k <= |frames|
  {
    Below(frames, k) + if k < |frames| then LiveIn(frames[k], k, 0, scope) else []
  }

  /** In the target frame, the first live scope from s on that the resume address is inside, else the end. */
  function StopAt(f: Frame, s: nat, ip: nat): (stop: nat)
    ensures s <= stop
    decreases f.Count() - s
  {
    if s >= f.Count() || (Live(f, s) && Into(f, s, ip)) then s else StopAt(f, s + 1, ip)
  }

  function Finallys(ran: seq<Event>): seq<(nat, nat)> {
    if ran == [] then []
    else
      var last := ran[|ran| - 1];
      Finallys(ran[..|ran| - 1]) + if last.Finally? then [(last.k, last.i)] else []
  }

  datatype Ask = Ask(k: nat, scope: nat, t: Target)

  /** The unwind that the last thing run asked for, and where its frame is to be re-entered. */
  function Asked(g: Guest, ran: seq<Event>): Option<Ask> {
    if ran == [] then None
    else
      match ran[|ran| - 1]
      case Finally(k, i) => (match g.onFinally(ran) case Returned => None case Unwinds(t) => Some(Ask(k, i + 1, t)))
      case Entered(k, _, _) =>
        (match g.onEntered(ran) case Accepts(t, scope) => Some(Ask(k, scope, t)) case _ => None)
      case _ => None
  }

  function LastAsk(g: Guest, ran: seq<Event>): Option<Ask> {
    if ran == [] || Asked(g, ran).Some? then Asked(g, ran) else LastAsk(g, ran[..|ran| - 1])
  }

  /** The unwind that wins: the last one asked for. */
  function Wanted(g: Guest, t: Target, ran: seq<Event>): Target {
    match LastAsk(g, ran) case None => t case Some(a) => a.t
  }

  /** Where frame k's scope table was last entered: at zero, or past the scope that collided. */
  function EnteredAt(g: Guest, ran: seq<Event>, k: nat): nat {
    match LastAsk(g, ran) case None => 0 case Some(a) => if a.k == k then a.scope else 0
  }

  ghost predicate NoRoutine(ran: seq<Event>) { forall n :: 0 <= n < |ran| ==> !ran[n].Routine? }

  lemma {:induction false} FinallysPush(ran: seq<Event>, e: Event)
    ensures Finallys(ran + [e]) == Finallys(ran) + if e.Finally? then [(e.k, e.i)] else []
  {
  }

  lemma {:induction false} LastAskPush(g: Guest, ran: seq<Event>, e: Event)
    ensures LastAsk(g, ran + [e]) == if Asked(g, ran + [e]).Some? then Asked(g, ran + [e]) else LastAsk(g, ran)
  {
  }

  /** One live scope run: the record and the last request one step on. */
  lemma {:induction false} FinallyRun(g: Guest, f: Frame, k: nat, i: nat, ran: seq<Event>, done: seq<(nat, nat)>)
    requires NoRoutine(ran) && i < f.Count() && Live(f, i) && Finallys(ran) == done + LiveIn(f, k, 0, i)
    ensures var ran' := ran + [Finally(k, i)];
            && NoRoutine(ran') && Finallys(ran') == done + LiveIn(f, k, 0, i + 1)
            && LastAsk(g, ran') == match g.onFinally(ran') { case Returned => LastAsk(g, ran) case Unwinds(t) => Some(Ask(k, i + 1, t)) }
  {
    FinallysPush(ran, Finally(k, i));
    LastAskPush(g, ran, Finally(k, i));
  }

  /** One pass over a frame's scope table, from scope i, with `done` run before this frame. */
  lemma {:induction false} FinallysOfFrame(
      g: Guest, f: Frame, k: nat, i: nat, target: bool, ip: nat, ran: seq<Event>, done: seq<(nat, nat)>)
    requires NoRoutine(ran) && i <= f.Count() && Finallys(ran) == done + LiveIn(f, k, 0, i)
    ensures var r := RunFinallys(g, f, k, i, target, ip, ran);
            && NoRoutine(r.ran)
            && match r {
                 case Through(ran') =>
                   && Finallys(ran') == done + LiveIn(f, k, 0, if target then StopAt(f, i, ip) else f.Count())
                   && LastAsk(g, ran') == LastAsk(g, ran)
                 case Collided(ran', scope, t) =>
                   && Finallys(ran') == done + LiveIn(f, k, 0, scope)
                   && LastAsk(g, ran') == Some(Ask(k, scope, t))
                   && i < scope <= f.Count()
               }
    decreases f.Count() - i
  {
    if i < f.Count() {
      if !Live(f, i) {
        FinallysOfFrame(g, f, k, i + 1, target, ip, ran, done);
      } else if !(target && Into(f, i, ip)) {
        var ran' := ran + [Finally(k, i)];
        FinallyRun(g, f, k, i, ran, done);
        if g.onFinally(ran').Returned? {
          FinallysOfFrame(g, f, k, i + 1, target, ip, ran', done);
        }
      }
    }
  }

  /** What an unwind standing at w has done so far. */
  ghost predicate Standing(g: Guest, stack: Stack, t: Target, w: Walk) {
    && stack.Valid() && w.k <= |stack.frames|
    && NoRoutine(w.ran)
    && Finallys(w.ran) == UpTo(stack.frames, w.k, w.scope)
    && w.want == Wanted(g, t, w.ran)
    && w.scope == EnteredAt(g, w.ran, w.k)
    && (LastAsk(g, w.ran).Some? ==> LastAsk(g, w.ran).value.k <= w.k)
    && (w.k < |stack.frames| && stack.frames[w.k].handler.CSpecific? ==> w.scope <= stack.frames[w.k].Count())
  }

  /** The state in which an unwind to `want` that ended in frame k leaves the guest. */
  ghost predicate Resumed(g: Guest, want: Target, regs: Context, o: Outcome) {
    && o.write == (if want.contextOut == 0 then None else Some(regs.(rax := want.value)))
    && if want.rec.code != UNWIND_CONSOLIDATE then
         NoRoutine(o.ran) && o.regs == regs.(rax := want.value, rip := want.ip)
       else
         && |want.rec.info| > 0 && want.rec.info[0] != 0
         && o.ran != [] && NoRoutine(o.ran[..|o.ran| - 1])
         && (match g.image(want.rec.info[0]) {
               case None => false
               case Some(routine) => o.ran[|o.ran| - 1] == Routine(routine, want.rec)
             })
         && o.regs == regs.(rax := want.value, rip := g.onRoutine(o.ran)) && o.regs.rip != 0
  }

  /** The unwind stopped at scope `scope` of frame k, having run everything before it and nothing else. */
  ghost predicate Ended(g: Guest, stack: Stack, t: Target, o: Outcome, k: nat, scope: nat) {
    && stack.Valid() && k <= |stack.frames|
    && Finallys(o.ran) == UpTo(stack.frames, k, scope)
    && (o.status == Success ==>
          var want := Wanted(g, t, o.ran);
          && k < |stack.frames| && stack.frames[k].establisher == want.frame
          && scope == StopAt(stack.frames[k], EnteredAt(g, o.ran, k), want.ip)
          && Resumed(g, want, stack.regs[k], o))
  }

  /** Resuming runs no __finally and asks for no unwind; the routine is all it may run. */
  lemma {:induction false} ResumeRan(g: Guest, want: Target, regs: Context, ran: seq<Event>)
    ensures var o := Resume(g, want, regs, ran); Finallys(o.ran) == Finallys(ran) && LastAsk(g, o.ran) == LastAsk(g, ran)
  {
    var o := Resume(g, want, regs, ran);
    if o.ran != ran {
      var e := o.ran[|o.ran| - 1];
      assert o.ran == ran + [e] && e.Routine?;
      FinallysPush(ran, e);
      LastAskPush(g, ran, e);
    }
  }

  lemma {:induction false} ResumeResumed(g: Guest, want: Target, regs: Context, ran: seq<Event>)
    requires NoRoutine(ran)
    ensures var o := Resume(g, want, regs, ran); o.status == Success ==> Resumed(g, want, regs, o)
  {
    var o := Resume(g, want, regs, ran);
    if o.ran != ran { assert o.ran[..|ran|] == ran; }
  }

  /** In the target frame, entered last at `from`: the unwind ends at the scope where the pass stopped. */
  lemma {:induction false} ResumeEnds(g: Guest, stack: Stack, t: Target, want: Target, k: nat, from: nat, ran: seq<Event>)
    requires stack.Valid() && k < |stack.frames| && NoRoutine(ran) && stack.frames[k].establisher == want.frame
    requires want == Wanted(g, t, ran) && from == EnteredAt(g, ran, k)
    requires Finallys(ran) == UpTo(stack.frames, k, StopAt(stack.frames[k], from, want.ip))
    ensures Ended(g, stack, t, Resume(g, want, stack.regs[k], ran), k, StopAt(stack.frames[k], from, want.ip))
  {
    ResumeRan(g, want, stack.regs[k], ran);
    ResumeResumed(g, want, stack.regs[k], ran);
  }

  lemma {:induction false} LiveInNone(f: Frame, k: nat, e: nat)
    requires f.Count() == 0
    ensures LiveIn(f, k, 0, e) == []
  {
    if e > 0 { LiveInNone(f, k, e - 1); }
  }

  /** An unwind standing anywhere goes on to run exactly what is owed from there. */
  lemma {:induction false} UnwindFromEnds(g: Guest, stack: Stack, t: Target, w: Walk) returns (k: nat, scope: nat)
    requires Standing(g, stack, t, w)
    ensures Ended(g, stack, t, UnwindFrom(g, stack, w), k, scope)
    decreases MAX_FRAMES - w.depth, 3
  {
    k, scope := w.k, w.scope;
    if w.k < |stack.frames| && w.depth < MAX_FRAMES && stack.frames[w.k].establisher <= w.want.frame {
      match stack.frames[w.k].handler
      case NoHandler =>
        NoScopes(stack.frames, w.k, w.scope);
        k, scope := OnwardEnds(g, stack, t, w, w.ran);
      case Foreign =>
      case Personality => k, scope := HandlerEnds(g, stack, t, w);
      case CSpecific(_) => k, scope := ScopesEnd(g, stack, t, w);
    }
  }

  /** A frame without a scope table owes nothing. */
  lemma {:induction false} NoScopes(frames: seq<Frame>, k: nat, scope: nat)
    requires k < |frames| && frames[k].Count() == 0
    ensures UpTo(frames, k, scope) == Below(frames, k) && forall e: nat :: Below(frames, k) + LiveIn(frames[k], k, 0, e) == Below(frames, k)
  {
    LiveInNone(frames[k], k, scope);
    forall e: nat ensures Below(frames, k) + LiveIn(frames[k], k, 0, e) == Below(frames, k) {
      LiveInNone(frames[k], k, e);
    }
  }

  lemma {:induction false} HandlerEnds(g: Guest, stack: Stack, t: Target, w: Walk) returns (k: nat, scope: nat)
    requires Standing(g, stack, t, w) && w.k < |stack.frames| && w.depth < MAX_FRAMES
    requires stack.frames[w.k].establisher <= w.want.frame && stack.frames[w.k].handler.Personality?
    ensures Ended(g, stack, t, UnwindFrom(g, stack, w), k, scope)
    decreases MAX_FRAMES - w.depth, 2
  {
    var e := Entered(w.k, w.scope, stack.frames[w.k].establisher == w.want.frame);
    var ran' := w.ran + [e];
    FinallysPush(w.ran, e);
    LastAskPush(g, w.ran, e);
    NoScopes(stack.frames, w.k, w.scope);
    match g.onEntered(ran') {
      case ContinueSearch => k, scope := OnwardEnds(g, stack, t, w, ran');
      case Accepts(t', scope') =>
        NoScopes(stack.frames, w.k, scope');
        k, scope := AgainEnds(g, stack, t, w, scope', t', ran');
      case Other => k, scope := w.k, w.scope;
    }
  }

  lemma {:induction false} ScopesEnd(g: Guest, stack: Stack, t: Target, w: Walk) returns (k: nat, scope: nat)
    requires Standing(g, stack, t, w) && w.k < |stack.frames| && w.depth < MAX_FRAMES
    requires stack.frames[w.k].establisher <= w.want.frame && stack.frames[w.k].handler.CSpecific?
    ensures Ended(g, stack, t, UnwindFrom(g, stack, w), k, scope)
    decreases MAX_FRAMES - w.depth, 2
  {
    var f := stack.frames[w.k];
    var target := f.establisher == w.want.frame;
    FinallysOfFrame(g, f, w.k, w.scope, target, w.want.ip, w.ran, Below(stack.frames, w.k));
    match RunFinallys(g, f, w.k, w.scope, target, w.want.ip, w.ran) {
      case Through(ran') => k, scope := OnwardEnds(g, stack, t, w, ran');
      case Collided(ran', scope', t') => k, scope := AgainEnds(g, stack, t, w, scope', t', ran');
    }
  }

  lemma {:induction false} OnwardEnds(g: Guest, stack: Stack, t: Target, w: Walk, ran: seq<Event>)
    returns (k: nat, scope: nat)
    requires Standing(g, stack, t, w) && w.k < |stack.frames| && w.depth < MAX_FRAMES && NoRoutine(ran)
    requires LastAsk(g, ran) == LastAsk(g, w.ran)
    requires var f := stack.frames[w.k];
             var end := if f.establisher == w.want.frame then StopAt(f, w.scope, w.want.ip) else f.Count();
             Finallys(ran) == Below(stack.frames, w.k) + LiveIn(f, w.k, 0, end)
    ensures Ended(g, stack, t, Onward(g, stack, w, ran), k, scope)
    decreases MAX_FRAMES - w.depth, 1
  {
    if stack.frames[w.k].establisher == w.want.frame {
      k, scope := w.k, StopAt(stack.frames[w.k], w.scope, w.want.ip);
      ResumeEnds(g, stack, t, w.want, w.k, w.scope, ran);
    } else {
      StandsNext(g, stack, t, w, ran);
      k, scope := UnwindFromEnds(g, stack, t, Next(w, ran));
    }
  }

  lemma {:induction false} StandsNext(g: Guest, stack: Stack, t: Target, w: Walk, ran: seq<Event>)
    requires stack.Valid() && w.k < |stack.frames| && NoRoutine(ran) && w.want == Wanted(g, t, ran)
    requires LastAsk(g, ran).Some? ==> LastAsk(g, ran).value.k <= w.k
    requires Finallys(ran) == Below(stack.frames, w.k) + LiveIn(stack.frames[w.k], w.k, 0, stack.frames[w.k].Count())
    ensures Standing(g, stack, t, Next(w, ran))
  {
    var w' := Next(w, ran);
    assert w'.scope == EnteredAt(g, ran, w'.k);
    assert Finallys(w'.ran) == UpTo(stack.frames, w'.k, w'.scope) by { NextOwes(stack.frames, w.k); }
  }

  lemma {:induction false} NextOwes(frames: seq<Frame>, k: nat)
    requires k < |frames|
    ensures UpTo(frames, k + 1, 0) == Below(frames, k) + LiveIn(frames[k], k, 0, frames[k].Count())
  {
    assert UpTo(frames, k + 1, 0) == Below(frames, k + 1);
  }

  lemma {:induction false} AgainEnds(g: Guest, stack: Stack, t: Target, w: Walk, scope': nat, t': Target, ran: seq<Event>)
    returns (k: nat, scope: nat)
    requires stack.Valid() && w.k < |stack.frames| && w.depth < MAX_FRAMES && NoRoutine(ran)
    requires Finallys(ran) == UpTo(stack.frames, w.k, scope')
    requires LastAsk(g, ran) == Some(Ask(w.k, scope', t'))
    requires stack.frames[w.k].handler.CSpecific? ==> scope' <= stack.frames[w.k].Count()
    ensures Ended(g, stack, t, Again(g, stack, w, scope', t', ran), k, scope)
    decreases MAX_FRAMES - w.depth, 0
  {
    var f := stack.frames[w.k];
    if Refusal(f, w, scope', t').Some? {
      k, scope := w.k, scope';
    } else {
      k, scope := UnwindFromEnds(g, stack, t, Adopt(f, w, scope', t', ran));
    }
  }

  /** Only filters and consulted handlers: what a search runs. */
  ghost predicate SearchOnly(ran: seq<Event>) {
    forall n :: 0 <= n < |ran| ==> ran[n].Filter? || ran[n].Consulted?
  }

  lemma {:induction false} SearchOnlyAsksNothing(g: Guest, ran: seq<Event>)
    requires SearchOnly(ran)
    ensures Finallys(ran) == [] && LastAsk(g, ran) == None && NoRoutine(ran)
  {
    if ran != [] { SearchOnlyAsksNothing(g, ran[..|ran| - 1]); }
  }

  /**
    Whatever the guest does, an unwind runs the live __finally scopes of the
    frames it passed, all of them, in one sweep from the innermost outwards, up
    to the point where it stopped.  When it succeeds that point is in the frame
    that the last unwind asked for names, and the guest resumes there.
   */
  lemma {:induction false} UnwindRunsWhatIsOwed(g: Guest, stack: Stack, t: Target, before: seq<Event>) returns (k: nat, scope: nat)
    requires stack.Valid() && SearchOnly(before)
    ensures Ended(g, stack, t, Unwind(g, stack, t, before), k, scope)
  {
    SearchOnlyAsksNothing(g, before);
    assert UpTo(stack.frames, 0, 0) == [];
    k, scope := UnwindFromEnds(g, stack, t, Walk(0, 0, t, 0, (0, 0), before));
  }

  // ----- exactly once, innermost first -----

  ghost predicate Sooner(a: (nat, nat), b: (nat, nat)) { a.0 < b.0 || (a.0 == b.0 && a.1 < b.1) }

  /** In this order, so none of them twice. */
  ghost predicate Ordered(s: seq<(nat, nat)>) {
    forall a, b :: 0 <= a < b < |s| ==> Sooner(s[a], s[b])
  }

  lemma {:induction false} LiveInFacts(f: Frame, k: nat, e: nat)
    ensures Ordered(LiveIn(f, k, 0, e))
    ensures forall j: nat, i: nat :: (j, i) in LiveIn(f, k, 0, e) <==> j == k && Live(f, i) && i < e
    decreases e
  {
    if e > 0 { LiveInFacts(f, k, e - 1); }
  }

  lemma {:induction false} BelowFacts(frames: seq<Frame>, k: nat)
    requires k <= |frames|
    ensures Ordered(Below(frames, k))
    ensures forall j: nat, i: nat :: (j, i) in Below(frames, k) <==> j < k && Live(frames[j], i)
    decreases k
  {
    if k > 0 {
      BelowFacts(frames, k - 1);
      LiveInFacts(frames[k - 1], k - 1, frames[k - 1].Count());
      AppendOrdered(Below(frames, k - 1), LiveIn(frames[k - 1], k - 1, 0, frames[k - 1].Count()), k - 1);
    }
  }

  lemma {:induction false} AppendOrdered(a: seq<(nat, nat)>, b: seq<(nat, nat)>, k: nat)
    requires Ordered(a) && Ordered(b)
    requires forall p :: p in a ==> p.0 < k
    requires forall p :: p in b ==> p.0 == k
    ensures Ordered(a + b)
  {
  }

  /** UpTo lists a __finally exactly when it is live and lies before the given point, and each once. */
  lemma {:induction false} UpToFacts(frames: seq<Frame>, k: nat, scope: nat)
    requires k <= |frames|
    ensures Ordered(UpTo(frames, k, scope))
    ensures forall j: nat, i: nat :: (j, i) in UpTo(frames, k, scope) <==>
              j < |frames| && Live(frames[j], i) && Sooner((j, i), (k, scope))
  {
    BelowFacts(frames, k);
    if k < |frames| {
      LiveInFacts(frames[k], k, scope);
      AppendOrdered(Below(frames, k), LiveIn(frames[k], k, 0, scope), k);
    }
  }

  lemma {:induction false} StopAtStops(f: Frame, s: nat, ip: nat)
    ensures var p := StopAt(f, s, ip);
            && (p < f.Count() ==> Live(f, p) && Into(f, p, ip))
            && (forall i: nat :: s <= i < p && Live(f, i) ==> !Into(f, i, ip))
    decreases f.Count() - s
  {
    if s < f.Count() && !(Live(f, s) && Into(f, s, ip)) { StopAtStops(f, s + 1, ip); }
  }

  /**
    Every __finally between the fault and the frame the guest resumes in has
    run exactly once, innermost first, and nothing else has: every scope with no
    jump target, that is, that the frame's pc lies in, up to the first one, at or
    past where the target's table was last entered, that the resume address lies in.
   */
  lemma {:induction false} EachFinallyExactlyOnce(g: Guest, stack: Stack, t: Target, before: seq<Event>) returns (k: nat, scope: nat)
    requires stack.Valid() && SearchOnly(before)
    ensures var o := Unwind(g, stack, t, before);
            && Ordered(Finallys(o.ran))
            && (forall j: nat, i: nat :: (j, i) in Finallys(o.ran) <==>
                  && j < |stack.frames| && i < stack.frames[j].Count() && Sooner((j, i), (k, scope))
                  && var f, s := stack.frames[j], stack.frames[j].handler.table[i];
                     s.jump == 0 && f.base + s.begin <= f.pc < f.base + s.end)
            && (o.status == Success ==>
                  var want := Wanted(g, t, o.ran);
                  && k < |stack.frames| && stack.frames[k].establisher == want.frame
                  && scope == StopAt(stack.frames[k], EnteredAt(g, o.ran, k), want.ip)
                  && (forall i: nat :: EnteredAt(g, o.ran, k) <= i < scope && Live(stack.frames[k], i) ==>
                        var f, s := stack.frames[k], stack.frames[k].handler.table[i];
                        !(f.base + s.begin <= want.ip < f.base + s.end))
                  && (scope < stack.frames[k].Count() ==>
                        var f, s := stack.frames[k], stack.frames[k].handler.table[scope];
                        Live(f, scope) && f.base + s.begin <= want.ip < f.base + s.end))
  {
    k, scope := UnwindRunsWhatIsOwed(g, stack, t, before);
    UpToFacts(stack.frames, k, scope);
    var o := Unwind(g, stack, t, before);
    if o.status == Success { StopAtStops(stack.frames[k], EnteredAt(g, o.ran, k), Wanted(g, t, o.ran).ip); }
  }

  // ----- a collision changes the target and nothing else -----

  ghost predicate Rising(frames: seq<Frame>) {
    forall a, b :: 0 <= a < b < |frames| ==> frames[a].establisher < frames[b].establisher
  }

  /** What an unwind to this frame and address runs when nothing collides. */
  function Owed(frames: seq<Frame>, k: nat, ip: nat): seq<(nat, nat)>
    requires k < |frames|
  {
    UpTo(frames, k, StopAt(frames[k], 0, ip))
  }

  lemma {:induction false} StopAtSkips(f: Frame, s: nat, ip: nat, from: nat)
    requires from <= s <= StopAt(f, from, ip)
    ensures StopAt(f, s, ip) == StopAt(f, from, ip)
    decreases s - from
  {
    if from < s { StopAtSkips(f, s, ip, from + 1); }
  }

  /**
    A chain of collided unwinds that ends well runs what one undisturbed unwind
    to its last target would have run, exactly when the last collision did not
    come from a scope past the one that undisturbed unwind stops at.
   */
  lemma {:induction false} CollisionsRunWhatOneUnwindWould(g: Guest, stack: Stack, t: Target, before: seq<Event>) returns (k: nat)
    requires stack.Valid() && SearchOnly(before)
    requires Unwind(g, stack, t, before).status == Success
    ensures var o := Unwind(g, stack, t, before);
            var want := Wanted(g, t, o.ran);
            && k < |stack.frames| && stack.frames[k].establisher == want.frame
            && (Finallys(o.ran) == Owed(stack.frames, k, want.ip) <==>
                  EnteredAt(g, o.ran, k) <= StopAt(stack.frames[k], 0, want.ip)
                  || stack.frames[k].Count() <= StopAt(stack.frames[k], 0, want.ip))
  {
    var scope;
    k, scope := UnwindRunsWhatIsOwed(g, stack, t, before);
    var o := Unwind(g, stack, t, before);
    var f := stack.frames[k];
    var ip := Wanted(g, t, o.ran).ip;
    var s := EnteredAt(g, o.ran, k);
    var p := StopAt(f, 0, ip);
    if s <= p {
      StopAtSkips(f, s, ip, 0);
    } else if p < f.Count() {
      StopAtStops(f, 0, ip);
      UpToFacts(stack.frames, k, scope);
      UpToFacts(stack.frames, k, p);
      assert (k, p) in UpTo(stack.frames, k, scope) && (k, p) !in UpTo(stack.frames, k, p);
    } else {
      LiveInTail(f, k, p, scope);
    }
  }

  lemma {:induction false} LiveInTail(f: Frame, k: nat, a: nat, b: nat)
    requires f.Count() <= a <= b
    ensures LiveIn(f, k, 0, a) == LiveIn(f, k, 0, b)
    decreases b - a
  {
    if a < b { LiveInTail(f, k, a, b - 1); }
  }

  /** The scope of frame k at which an unwind of this record came to stop. */
  function Stopped(g: Guest, frames: seq<Frame>, t: Target, ran: seq<Event>, k: nat): nat
    requires k < |frames|
  {
    StopAt(frames[k], EnteredAt(g, ran, k), Wanted(g, t, ran).ip)
  }

  /**
    So the road there does not show: two guests whose unwinds of the same stack
    come to the same last target resume in the same frame, with the same
    registers and the same record written back, except that each consolidation
    routine names its own address.  They have run the same __finally blocks
    exactly if they stopped at the same scope of that frame, or past its last.
   */
  lemma {:induction false} OnlyTheLastTargetCounts(g: Guest, t: Target, h: Guest, u: Target, stack: Stack, before: seq<Event>)
    returns (k: nat)
    requires stack.Valid() && SearchOnly(before) && Rising(stack.frames)
    requires var a, b := Unwind(g, stack, t, before), Unwind(h, stack, u, before);
             a.status == Success == b.status && Wanted(g, t, a.ran) == Wanted(h, u, b.ran)
    ensures var a, b := Unwind(g, stack, t, before), Unwind(h, stack, u, before);
            var want := Wanted(g, t, a.ran);
            && k < |stack.frames| && stack.frames[k].establisher == want.frame
            && a.write == b.write && a.regs.(rip := 0) == b.regs.(rip := 0)
            && (want.rec.code == UNWIND_CONSOLIDATE ==> a.regs.rip == g.onRoutine(a.ran) && b.regs.rip == h.onRoutine(b.ran))
            && (want.rec.code != UNWIND_CONSOLIDATE ==> a.regs == b.regs)
            && var p, q := Stopped(g, stack.frames, t, a.ran, k), Stopped(h, stack.frames, u, b.ran, k);
               Finallys(a.ran) == Finallys(b.ran) <==>
                 p == q || (p >= stack.frames[k].Count() && q >= stack.frames[k].Count())
  {
    var p, j, q;
    k, p := UnwindRunsWhatIsOwed(g, stack, t, before);
    j, q := UnwindRunsWhatIsOwed(h, stack, u, before);
    assert k == j;
    var f := stack.frames[k];
    var a, b := Unwind(g, stack, t, before), Unwind(h, stack, u, before);
    var ip := Wanted(g, t, a.ran).ip;
    StopAtStops(f, EnteredAt(g, a.ran, k), ip);
    StopAtStops(f, EnteredAt(h, b.ran, k), ip);
    if p < q { StopsDiffer(stack.frames, k, p, q); }
    if q < p { StopsDiffer(stack.frames, k, q, p); }
  }

  lemma {:induction false} StopsDiffer(frames: seq<Frame>, k: nat, p: nat, q: nat)
    requires k < |frames| && p < q && (p < frames[k].Count() ==> Live(frames[k], p))
    ensures UpTo(frames, k, p) == UpTo(frames, k, q) <==> p >= frames[k].Count()
  {
    if p < frames[k].Count() {
      UpToFacts(frames, k, p);
      UpToFacts(frames, k, q);
      assert (k, p) in UpTo(frames, k, q) && (k, p) !in UpTo(frames, k, p);
    } else {
      LiveInTail(frames[k], k, p, q);
    }
  }

  // ----- when an unwind goes through -----

  /** A guest whose funclets return and whose handlers keep searching. */
  ghost predicate Calm(g: Guest) {
    && (forall ran :: g.onFinally(ran) == Returned)
    && (forall ran :: g.onEntered(ran) == ContinueSearch)
  }

  /** Frame n is the target, with fewer than 256 frames inside it, and no frame up to it has a handler in no guest image. */
  ghost predicate InReach(frames: seq<Frame>, t: Target, n: nat) {
    && n < |frames| && frames[n].establisher == t.frame && n < MAX_FRAMES
    && forall j :: 0 <= j <= n ==> !frames[j].handler.Foreign?
  }

  // ----- who performs an unwind -----

  datatype Bounds = Bounds(limit: nat, base: nat) {
    predicate Has(address: nat) { limit != 0 && limit < address <= base }
  }

  /** The emulator run a funclet of the unwind in progress runs at, and the stack it is tearing down. */
  datatype Unwinding = Unwinding(funcletDepth: nat, torn: Bounds)

  /** What guest_request_unwind reads of its thread. */
  datatype Thread = Thread(depth: nat, handlerDepth: Option<nat>, runStack: Bounds, unwinding: Option<Unwinding>)

  datatype Road = InPlace(t: Target) | Deferred(t: Target) | Collides(t: Target) | Refused(status: Status)

  /** A ContextRecord on the stack of the run that is about to end is not written back. */
  function Kept(th: Thread, t: Target): Target {
    if t.contextOut != 0 && th.runStack.limit < t.contextOut <= th.runStack.base then t.(contextOut := 0) else t
  }

  function RequestUnwind(th: Thread, t: Target): Road {
    if th.handlerDepth == Some(th.depth) then
      if th.runStack.Has(t.frame) then InPlace(t) else Deferred(Kept(th, t))
    else if th.unwinding.Some? && th.unwinding.value.torn.Has(t.frame) then
      if th.depth != th.unwinding.value.funcletDepth then Refused(NotImplemented) else Collides(Kept(th, t))
    else InPlace(t)
  }

  /** The run that asks is the one a language handler was entered in. */
  predicate AsHandler(th: Thread) { th.handlerDepth == Some(th.depth) }

  /** The frame is on the stack that an unwind in progress is tearing down. */
  predicate OnTorn(th: Thread, frame: nat) { th.unwinding.Some? && th.unwinding.value.torn.Has(frame) }

  /**
    Which of the roads an unwind takes: a handler's goes to the frame walk
    exactly if its frame is not on the handler's own stack; anybody else's
    collides exactly if its frame is on the stack being torn down, and is refused
    then if it comes from a run below the funclet's; every other is served in place.
   */
  lemma {:induction false} RoadIff(th: Thread, t: Target)
    ensures var r := RequestUnwind(th, t);
            && (r.Deferred? <==> AsHandler(th) && !th.runStack.Has(t.frame))
            && (r.Collides? <==> !AsHandler(th) && OnTorn(th, t.frame) && th.depth == th.unwinding.value.funcletDepth)
            && (r == Refused(NotImplemented) <==> !AsHandler(th) && OnTorn(th, t.frame) && th.depth != th.unwinding.value.funcletDepth)
            && (r == InPlace(t) <==> if AsHandler(th) then th.runStack.Has(t.frame) else !OnTorn(th, t.frame))
  {
  }

  /**
    An unwind that names a frame of the run that asks for it is served there and
    then. One that is handed on keeps its frame, address, value and record, and
    its ContextRecord unless that lies on the stack of the run that now ends.
   */
  lemma {:induction false} LocalUnwindsStayLocal(th: Thread, t: Target)
    requires th.unwinding.Some? ==> var torn := th.unwinding.value.torn;
                                    torn.base <= th.runStack.limit || th.runStack.base <= torn.limit
    ensures th.runStack.limit != 0 && th.runStack.limit < t.frame <= th.runStack.base ==> RequestUnwind(th, t) == InPlace(t)
    ensures var r := RequestUnwind(th, t);
            r.Deferred? || r.Collides? ==>
              && !th.runStack.Has(t.frame) && r.t.(contextOut := t.contextOut) == t
              && r.t.contextOut in {0, t.contextOut}
              && (r.t.contextOut != t.contextOut <==> t.contextOut != 0 && th.runStack.limit < t.contextOut <= th.runStack.base)
  {
  }

  lemma {:induction false} ContextOutFrom(g: Guest, stack: Stack, w: Walk)
    requires stack.Valid() && w.k <= |stack.frames|
    ensures var a, b := UnwindFrom(g, stack, w), UnwindFrom(g, stack, w.(want := w.want.(contextOut := 0)));
            a.status == b.status && a.regs == b.regs && a.ran == b.ran && (b.write == a.write || b.write == None)
    decreases MAX_FRAMES - w.depth
  {
    if w.k < |stack.frames| && w.depth < MAX_FRAMES {
      var f := stack.frames[w.k];
      var target := f.establisher == w.want.frame;
      var ran' := match f.handler {
        case Personality => w.ran + [Entered(w.k, w.scope, target)]
        case CSpecific(_) => RunFinallys(g, f, w.k, w.scope, target, w.want.ip, w.ran).ran
        case _ => w.ran
      };
      ContextOutFrom(g, stack, Next(w, ran'));
    }
  }

  /** A walk that starts nearer to the bound is the same walk, or stops at the bound. */
  lemma {:induction false} DeeperFrom(g: Guest, stack: Stack, w: Walk, d: nat)
    requires stack.Valid() && w.k <= |stack.frames| && w.depth <= d
    ensures var a, b := UnwindFrom(g, stack, w), UnwindFrom(g, stack, w.(depth := d));
            b == a || b.status == BadStack
    decreases MAX_FRAMES - w.depth
  {
    if w.k < |stack.frames| && d < MAX_FRAMES && stack.frames[w.k].establisher <= w.want.frame {
      var f := stack.frames[w.k];
      var target := f.establisher == w.want.frame;
      match f.handler {
        case NoHandler => DeeperOnward(g, stack, w, w.ran, d);
        case Foreign =>
        case Personality =>
          var ran' := w.ran + [Entered(w.k, w.scope, target)];
          match g.onEntered(ran') {
            case ContinueSearch => DeeperOnward(g, stack, w, ran', d);
            case Accepts(t, scope) => DeeperAgain(g, stack, w, scope, t, ran', d);
            case Other =>
          }
        case CSpecific(_) =>
          match RunFinallys(g, f, w.k, w.scope, target, w.want.ip, w.ran) {
            case Through(ran') => DeeperOnward(g, stack, w, ran', d);
            case Collided(ran', scope, t) => DeeperAgain(g, stack, w, scope, t, ran', d);
          }
      }
    }
  }

  lemma {:induction false} DeeperOnward(g: Guest, stack: Stack, w: Walk, ran: seq<Event>, d: nat)
    requires stack.Valid() && w.k < |stack.frames| && w.depth <= d < MAX_FRAMES
    ensures var a, b := Onward(g, stack, w, ran), Onward(g, stack, w.(depth := d), ran);
            b == a || b.status == BadStack
    decreases MAX_FRAMES - w.depth, 0
  {
    if stack.frames[w.k].establisher != w.want.frame {
      DeeperFrom(g, stack, Next(w, ran), d + 1);
    }
  }

  lemma {:induction false} DeeperAgain(g: Guest, stack: Stack, w: Walk, scope: nat, t: Target, ran: seq<Event>, d: nat)
    requires stack.Valid() && w.k < |stack.frames| && w.depth <= d < MAX_FRAMES
    ensures var a, b := Again(g, stack, w, scope, t, ran), Again(g, stack, w.(depth := d), scope, t, ran);
            b == a || b.status == BadStack
    decreases MAX_FRAMES - w.depth, 0
  {
    var f := stack.frames[w.k];
    if Refusal(f, w, scope, t).None? { DeeperFrom(g, stack, Adopt(f, w, scope, t, ran), d + 1); }
  }

  // ----- one stack and two -----

  /** The same things run with n more frames inside theirs. */
  function ShiftOne(e: Event, n: nat): Event {
    match e
    case Filter(k, i) => Filter(k + n, i)
    case Consulted(k) => Consulted(k + n)
    case Finally(k, i) => Finally(k + n, i)
    case Entered(k, scope, target) => Entered(k + n, scope, target)
    case Routine(_, _) => e
  }

  function Shift(ran: seq<Event>, n: nat): (r: seq<Event>)
    ensures |r| == |ran| && forall i :: 0 <= i < |ran| ==> r[i] == ShiftOne(ran[i], n)
  {
    seq(|ran|, i requires 0 <= i < |ran| => ShiftOne(ran[i], n))
  }

  function ShiftPairs(s: seq<(nat, nat)>, n: nat): seq<(nat, nat)> {
    seq(|s|, i requires 0 <= i < |s| => (s[i].0 + n, s[i].1))
  }

  /** The stack as it would be if the handler's own frames lay on it. */
  function Joined(h: seq<Frame>, regs: seq<Context>, stack: Stack): Stack { Stack(h + stack.frames, regs + stack.regs, stack.end) }

  /** What guest g does after `pre` on the joined stack is what `later` does after `before` on the lone one. */
  ghost predicate Follows(g: Guest, pre: seq<Event>, later: Guest, before: seq<Event>, n: nat) {
    && g.image == later.image
    && forall rest: seq<Event> {:trigger Shift(rest, n)} ::
         && g.onFinally(pre + Shift(rest, n)) == later.onFinally(before + rest)
         && g.onEntered(pre + Shift(rest, n)) == later.onEntered(before + rest)
         && g.onRoutine(pre + Shift(rest, n)) == later.onRoutine(before + rest)
  }

  /** There is always such a guest: g itself, seen from the lone stack. */
  function Seen(g: Guest, pre: seq<Event>, before: seq<Event>, n: nat): Guest {
    var at := (ran: seq<Event>) => pre + Shift(if before <= ran then ran[|before|..] else [], n);
    Guest(g.onFilter, g.onConsulted, ran => g.onFinally(at(ran)), ran => g.onEntered(at(ran)), ran => g.onRoutine(at(ran)), g.image)
  }

  lemma {:induction false} SeenFollows(g: Guest, pre: seq<Event>, before: seq<Event>, n: nat)
    ensures Follows(g, pre, Seen(g, pre, before, n), before, n)
  {
    forall rest: seq<Event>
      ensures g.onFinally(pre + Shift(rest, n)) == Seen(g, pre, before, n).onFinally(before + rest)
      ensures g.onEntered(pre + Shift(rest, n)) == Seen(g, pre, before, n).onEntered(before + rest)
      ensures g.onRoutine(pre + Shift(rest, n)) == Seen(g, pre, before, n).onRoutine(before + rest)
    {
      assert (before + rest)[|before|..] == rest;
    }
  }

  /** Two records of what was run: the same since `pre` and `before`. */
  ghost predicate Alike(a: seq<Event>, pre: seq<Event>, b: seq<Event>, before: seq<Event>, n: nat) {
    before <= b && a == pre + Shift(b[|before|..], n)
  }

  lemma {:induction false} AlikePush(g: Guest, a: seq<Event>, pre: seq<Event>, later: Guest, b: seq<Event>, before: seq<Event>, n: nat, e: Event)
    requires Follows(g, pre, later, before, n) && Alike(a, pre, b, before, n)
    ensures var a', b' := a + [ShiftOne(e, n)], b + [e];
            && Alike(a', pre, b', before, n)
            && g.onFinally(a') == later.onFinally(b') && g.onEntered(a') == later.onEntered(b') && g.onRoutine(a') == later.onRoutine(b')
  {
    var rest := b[|before|..] + [e];
    assert (b + [e])[|before|..] == rest && before + rest == b + [e];
    assert Shift(rest, n) == Shift(b[|before|..], n) + [ShiftOne(e, n)];
    assert pre + Shift(rest, n) == a + [ShiftOne(e, n)];
  }

  lemma {:induction false} SameFinallys(g: Guest, a: seq<Event>, pre: seq<Event>, later: Guest, b: seq<Event>, before: seq<Event>, n: nat,
                                        f: Frame, k: nat, i: nat, target: bool, ip: nat)
    requires Follows(g, pre, later, before, n) && Alike(a, pre, b, before, n)
    ensures var r, q := RunFinallys(g, f, k + n, i, target, ip, a), RunFinallys(later, f, k, i, target, ip, b);
            && Alike(r.ran, pre, q.ran, before, n) && r.Through? == q.Through?
            && (r.Collided? ==> r.scope == q.scope && r.t == q.t)
    decreases f.Count() - i
  {
    if i < f.Count() {
      if !Live(f, i) {
        SameFinallys(g, a, pre, later, b, before, n, f, k, i + 1, target, ip);
      } else if !(target && Into(f, i, ip)) {
        AlikePush(g, a, pre, later, b, before, n, Finally(k, i));
        SameFinallys(g, a + [Finally(k + n, i)], pre, later, b + [Finally(k, i)], before, n, f, k, i + 1, target, ip);
      }
    }
  }

  ghost predicate SameOutcome(a: Outcome, pre: seq<Event>, b: Outcome, before: seq<Event>, n: nat) {
    a.status == b.status && a.regs == b.regs && a.write == b.write && Alike(a.ran, pre, b.ran, before, n)
  }

  /** The walk w of the lone stack, on the joined one. */
  function Moved(w: Walk, n: nat, ran: seq<Event>): Walk { w.(k := w.k + n, ran := ran) }

  /** Past the handler's own frames, an unwind of the joined stack is the unwind of the lone one. */
  lemma {:induction false} SameWalk(g: Guest, pre: seq<Event>, later: Guest, before: seq<Event>,
                                    h: seq<Frame>, regs: seq<Context>, stack: Stack, w: Walk, ran: seq<Event>)
    requires stack.Valid() && |regs| == |h| && w.k <= |stack.frames|
    requires Follows(g, pre, later, before, |h|) && Alike(ran, pre, w.ran, before, |h|)
    ensures SameOutcome(UnwindFrom(g, Joined(h, regs, stack), Moved(w, |h|, ran)), pre, UnwindFrom(later, stack, w), before, |h|)
    decreases MAX_FRAMES - w.depth
  {
    var n := |h|;
    if w.k < |stack.frames| && w.depth < MAX_FRAMES && stack.frames[w.k].establisher <= w.want.frame {
      var f := stack.frames[w.k];
      assert Joined(h, regs, stack).frames[w.k + n] == f;
      var target := f.establisher == w.want.frame;
      match f.handler {
        case NoHandler => SameOnward(g, pre, later, before, h, regs, stack, w, ran, w.ran);
        case Foreign =>
        case Personality =>
          var e := Entered(w.k, w.scope, target);
          AlikePush(g, ran, pre, later, w.ran, before, n, e);
          match later.onEntered(w.ran + [e]) {
            case ContinueSearch => SameOnward(g, pre, later, before, h, regs, stack, w, ran + [ShiftOne(e, n)], w.ran + [e]);
            case Accepts(t, scope) => SameAgain(g, pre, later, before, h, regs, stack, w, scope, t, ran + [ShiftOne(e, n)], w.ran + [e]);
            case Other =>
          }
        case CSpecific(_) =>
          SameFinallys(g, ran, pre, later, w.ran, before, n, f, w.k, w.scope, target, w.want.ip);
          var r := RunFinallys(g, f, w.k + n, w.scope, target, w.want.ip, ran);
          match RunFinallys(later, f, w.k, w.scope, target, w.want.ip, w.ran) {
            case Through(ran') => SameOnward(g, pre, later, before, h, regs, stack, w, r.ran, ran');
            case Collided(ran', scope, t) => SameAgain(g, pre, later, before, h, regs, stack, w, scope, t, r.ran, ran');
          }
      }
    }
  }

  lemma {:induction false} SameOnward(g: Guest, pre: seq<Event>, later: Guest, before: seq<Event>,
                                      h: seq<Frame>, regs: seq<Context>, stack: Stack, w: Walk, ran: seq<Event>, ran': seq<Event>)
    requires stack.Valid() && |regs| == |h| && w.k < |stack.frames| && w.depth < MAX_FRAMES
    requires Follows(g, pre, later, before, |h|) && Alike(ran, pre, ran', before, |h|)
    ensures forall r :: SameOutcome(Onward(g, Joined(h, regs, stack), Moved(w, |h|, r), ran), pre, Onward(later, stack, w, ran'), before, |h|)
    decreases MAX_FRAMES - w.depth, 0
  {
    if stack.frames[w.k].establisher == w.want.frame {
      SameResume(g, pre, later, before, |h|, w.want, stack.regs[w.k], ran, ran');
    } else {
      SameWalk(g, pre, later, before, h, regs, stack, Next(w, ran'), ran);
    }
  }

  lemma {:induction false} SameAgain(g: Guest, pre: seq<Event>, later: Guest, before: seq<Event>,
                                     h: seq<Frame>, regs: seq<Context>, stack: Stack, w: Walk, scope: nat, t: Target, ran: seq<Event>, ran': seq<Event>)
    requires stack.Valid() && |regs| == |h| && w.k < |stack.frames| && w.depth < MAX_FRAMES
    requires Follows(g, pre, later, before, |h|) && Alike(ran, pre, ran', before, |h|)
    ensures forall r :: SameOutcome(Again(g, Joined(h, regs, stack), Moved(w, |h|, r), scope, t, ran), pre, Again(later, stack, w, scope, t, ran'), before, |h|)
    decreases MAX_FRAMES - w.depth, 0
  {
    var f := stack.frames[w.k];
    if Refusal(f, w, scope, t).None? {
      SameWalk(g, pre, later, before, h, regs, stack, Adopt(f, w, scope, t, ran'), ran);
    }
  }

  lemma {:induction false} SameResume(g: Guest, pre: seq<Event>, later: Guest, before: seq<Event>, n: nat, want: Target, regs: Context,
                                      ran: seq<Event>, ran': seq<Event>)
    requires Follows(g, pre, later, before, n) && Alike(ran, pre, ran', before, n)
    ensures SameOutcome(Resume(g, want, regs, ran), pre, Resume(later, want, regs, ran'), before, n)
  {
    if want.rec.code == UNWIND_CONSOLIDATE && |want.rec.info| > 0 && g.image(want.rec.info[0]).Some? {
      AlikePush(g, ran, pre, later, ran', before, n, Routine(g.image(want.rec.info[0]).value, want.rec));
    }
  }

  /** A guest that starts no unwind from the innermost n frames. */
  ghost predicate Quiet(g: Guest, n: nat) {
    forall ran: seq<Event> {:trigger g.onFinally(ran)} {:trigger g.onEntered(ran)} :: ran != [] ==>
      var last := ran[|ran| - 1];
      && (last.Finally? && last.k < n ==> g.onFinally(ran) == Returned)
      && (last.Entered? && last.k < n ==> g.onEntered(ran) == ContinueSearch)
  }

  /** What has been run when an unwind has passed all of the frames h, from frame j on. */
  function Inside(g: Guest, h: seq<Frame>, ip: nat, ran: seq<Event>, j: nat): seq<Event>
    requires j <= |h|
    decreases |h| - j
  {
    if j == |h| then ran
    else
      match h[j].handler
      case CSpecific(_) => Inside(g, h, ip, RunFinallys(g, h[j], j, 0, false, ip, ran).ran, j + 1)
      case Personality => Inside(g, h, ip, ran + [Entered(j, 0, false)], j + 1)
      case _ => Inside(g, h, ip, ran, j + 1)
  }

  lemma {:induction false} QuietThrough(g: Guest, f: Frame, k: nat, i: nat, ip: nat, ran: seq<Event>, n: nat)
    requires Quiet(g, n) && k < n
    ensures RunFinallys(g, f, k, i, false, ip, ran).Through?
    decreases f.Count() - i
  {
    if i < f.Count() {
      QuietThrough(g, f, k, i + 1, ip, ran, n);
      QuietThrough(g, f, k, i + 1, ip, ran + [Finally(k, i)], n);
    }
  }

  /** What has been run when an unwind has passed frame j of h. */
  function Passed(g: Guest, f: Frame, ip: nat, ran: seq<Event>, j: nat): seq<Event> {
    match f.handler
    case CSpecific(_) => RunFinallys(g, f, j, 0, false, ip, ran).ran
    case Personality => ran + [Entered(j, 0, false)]
    case _ => ran
  }

  lemma {:induction false} PassesOne(g: Guest, stack: Stack, t: Target, ran: seq<Event>, j: nat, n: nat)
    requires stack.Valid() && j < |stack.frames| && j < n && j < MAX_FRAMES && Quiet(g, n)
    requires stack.frames[j].establisher < t.frame && !stack.frames[j].handler.Foreign?
    ensures UnwindFrom(g, stack, Walk(j, 0, t, j, (0, 0), ran))
            == UnwindFrom(g, stack, Walk(j + 1, 0, t, j + 1, (0, 0), Passed(g, stack.frames[j], t.ip, ran, j)))
  {
    QuietThrough(g, stack.frames[j], j, 0, t.ip, ran, n);
    var ran' := ran + [Entered(j, 0, false)];
    assert ran'[|ran|] == Entered(j, 0, false);
  }

  lemma {:induction false} PassesInside(g: Guest, h: seq<Frame>, regs: seq<Context>, stack: Stack, t: Target, ran: seq<Event>, j: nat)
    requires stack.Valid() && |regs| == |h| <= MAX_FRAMES && j <= |h| && Quiet(g, |h|)
    requires forall i :: 0 <= i < |h| ==> h[i].establisher < t.frame && !h[i].handler.Foreign?
    ensures UnwindFrom(g, Joined(h, regs, stack), Walk(j, 0, t, j, (0, 0), ran))
            == UnwindFrom(g, Joined(h, regs, stack), Walk(|h|, 0, t, |h|, (0, 0), Inside(g, h, t.ip, ran, j)))
    decreases |h| - j
  {
    if j < |h| {
      assert Joined(h, regs, stack).frames[j] == h[j];
      PassesOne(g, Joined(h, regs, stack), t, ran, j, |h|);
      PassesInside(g, h, regs, stack, t, Passed(g, h[j], t.ip, ran, j), j + 1);
    }
  }

  lemma {:induction false} FinallysInside(g: Guest, h: seq<Frame>, ip: nat, ran: seq<Event>, j: nat)
    requires j <= |h| && Quiet(g, |h|) && NoRoutine(ran) && Finallys(ran) == Below(h, j)
    ensures Finallys(Inside(g, h, ip, ran, j)) == Below(h, |h|)
    decreases |h| - j
  {
    if j < |h| {
      FinallysPassed(g, h, ip, ran, j);
      FinallysInside(g, h, ip, Passed(g, h[j], ip, ran, j), j + 1);
    }
  }

  lemma {:induction false} FinallysPassed(g: Guest, h: seq<Frame>, ip: nat, ran: seq<Event>, j: nat)
    requires j < |h| && Quiet(g, |h|) && NoRoutine(ran) && Finallys(ran) == Below(h, j)
    ensures var ran' := Passed(g, h[j], ip, ran, j); NoRoutine(ran') && Finallys(ran') == Below(h, j + 1)
  {
    var f := h[j];
    assert Below(h, j + 1) == Below(h, j) + LiveIn(f, j, 0, f.Count());
    if f.handler.CSpecific? {
      ScopesPassed(g, f, ip, ran, j, Below(h, j), |h|);
    } else {
      LiveInNone(f, j, 0);
      assert Below(h, j + 1) == Below(h, j);
      FinallysPush(ran, Entered(j, 0, false));
    }
  }

  lemma {:induction false} ScopesPassed(g: Guest, f: Frame, ip: nat, ran: seq<Event>, j: nat, done: seq<(nat, nat)>, n: nat)
    requires j < n && Quiet(g, n) && NoRoutine(ran) && Finallys(ran) == done
    ensures var r := RunFinallys(g, f, j, 0, false, ip, ran); NoRoutine(r.ran) && Finallys(r.ran) == done + LiveIn(f, j, 0, f.Count())
  {
    assert done + LiveIn(f, j, 0, 0) == done;
    QuietThrough(g, f, j, 0, ip, ran, n);
    FinallysOfFrame(g, f, j, 0, false, ip, ran, done);
  }

  lemma {:induction false} CalmIsQuiet(g: Guest, n: nat)
    requires Calm(g)
    ensures Quiet(g, n)
  {
  }

  lemma {:induction false} ShiftSnoc(pre: seq<Event>, rest: seq<Event>, n: nat)
    requires rest != []
    ensures var m := |rest| - 1; pre + Shift(rest, n) == pre + Shift(rest[..m], n) + [ShiftOne(rest[m], n)]
  {
  }

  lemma {:induction false} ShiftPairsSnoc(s: seq<(nat, nat)>, tail: seq<(nat, nat)>, n: nat)
    ensures ShiftPairs(s + tail, n) == ShiftPairs(s, n) + ShiftPairs(tail, n)
  {
  }

  lemma {:induction false} FinallysOfShift(pre: seq<Event>, rest: seq<Event>, n: nat)
    ensures Finallys(pre + Shift(rest, n)) == Finallys(pre) + ShiftPairs(Finallys(rest), n)
    decreases |rest|
  {
    if rest == [] {
      assert pre + Shift(rest, n) == pre;
    } else {
      var m := |rest| - 1;
      var e := rest[m];
      FinallysOfShift(pre, rest[..m], n);
      ShiftSnoc(pre, rest, n);
      FinallysPush(pre + Shift(rest[..m], n), ShiftOne(e, n));
      ShiftPairsSnoc(Finallys(rest[..m]), if e.Finally? then [(e.k, e.i)] else [], n);
    }
  }

  lemma {:induction false} FinallysAppend(a: seq<Event>, b: seq<Event>)
    ensures Finallys(a + b) == Finallys(a) + Finallys(b)
    decreases |b|
  {
    if b == [] {
      assert a + b == a;
    } else {
      var m := |b| - 1;
      FinallysAppend(a, b[..m]);
      assert a + b == a + b[..m] + [b[m]];
      FinallysPush(a + b[..m], b[m]);
    }
  }

  /**
    A handler's own unwind, handed to the frame walk, against the unwind that
    would have been if the handler ran on the stack it was called for, as on
    x86-64: its run is ended, so the live __finally blocks of its own frames
    `h` do not run.  All else is alike, whatever the guest does further out: the
    rest of what is run, the status, the registers and the record written back,
    if that lay on no stack that went.  The bound of 256 frames is the one
    thing that the single stack would meet sooner.
   */
  lemma {:induction false} DeferralDropsTheHandlersFrames(
      g: Guest, later: Guest, h: seq<Frame>, regs: seq<Context>, stack: Stack, th: Thread, t: Target, before: seq<Event>)
    requires stack.Valid() && SearchOnly(before) && RequestUnwind(th, t).Deferred?
    requires |regs| == |h| <= MAX_FRAMES && Quiet(g, |h|)
    requires forall i :: 0 <= i < |h| ==> h[i].establisher < t.frame && !h[i].handler.Foreign?
    requires Follows(g, Inside(g, h, t.ip, Shift(before, |h|), 0), later, before, |h|)
    ensures var one := Unwind(g, Joined(h, regs, stack), t, Shift(before, |h|));
            var two := Unwind(later, stack, RequestUnwind(th, t).t, before);
            one.status != BadStack ==>
              && one.status == two.status && one.regs == two.regs
              && (two.write == one.write || (two.write == None && RequestUnwind(th, t).t != t))
              && Finallys(one.ran) == Below(h, |h|) + ShiftPairs(Finallys(two.ran), |h|)
              && (Finallys(one.ran) == ShiftPairs(Finallys(two.ran), |h|) <==>
                    forall j: nat, i: nat :: j < |h| ==> !Live(h[j], i))
  {
    var n := |h|;
    var pre := Inside(g, h, t.ip, Shift(before, n), 0);
    var one, mid := Unwind(g, Joined(h, regs, stack), t, Shift(before, n)), Unwind(later, stack, t, before);
    OneStackIsTwo(g, later, h, regs, stack, t, before);
    ContextOutFrom(later, stack, Walk(0, 0, t, 0, (0, 0), before));
    if one.status != BadStack {
      FinallysOfOne(g, h, t.ip, before, mid.ran);
      NoneLive(h, ShiftPairs(Finallys(mid.ran), n));
    }
  }

  lemma {:induction false} OneStackIsTwo(g: Guest, later: Guest, h: seq<Frame>, regs: seq<Context>, stack: Stack, t: Target, before: seq<Event>)
    requires stack.Valid() && |regs| == |h| <= MAX_FRAMES && Quiet(g, |h|)
    requires forall i :: 0 <= i < |h| ==> h[i].establisher < t.frame && !h[i].handler.Foreign?
    requires Follows(g, Inside(g, h, t.ip, Shift(before, |h|), 0), later, before, |h|)
    ensures var one := Unwind(g, Joined(h, regs, stack), t, Shift(before, |h|));
            one.status == BadStack
            || SameOutcome(one, Inside(g, h, t.ip, Shift(before, |h|), 0), Unwind(later, stack, t, before), before, |h|)
  {
    var n := |h|;
    PassesInside(g, h, regs, stack, t, Shift(before, n), 0);
    var pre := Inside(g, h, t.ip, Shift(before, n), 0);
    assert before[|before|..] == [] && pre + Shift([], n) == pre;
    SameWalk(g, pre, later, before, h, regs, stack, Walk(0, 0, t, n, (0, 0), before), pre);
    DeeperFrom(later, stack, Walk(0, 0, t, 0, (0, 0), before), n);
  }

  lemma {:induction false} FinallysOfOne(g: Guest, h: seq<Frame>, ip: nat, before: seq<Event>, ran: seq<Event>)
    requires SearchOnly(before) && Quiet(g, |h|) && before <= ran
    ensures Finallys(Inside(g, h, ip, Shift(before, |h|), 0) + Shift(ran[|before|..], |h|))
            == Below(h, |h|) + ShiftPairs(Finallys(ran), |h|)
  {
    var n := |h|;
    var rest := ran[|before|..];
    InsideAfterSearch(g, h, ip, before);
    FinallysOfShift(Inside(g, h, ip, Shift(before, n), 0), rest, n);
    FinallysSince(g, before, ran);
  }

  lemma {:induction false} InsideAfterSearch(g: Guest, h: seq<Frame>, ip: nat, before: seq<Event>)
    requires SearchOnly(before) && Quiet(g, |h|)
    ensures Finallys(Inside(g, h, ip, Shift(before, |h|), 0)) == Below(h, |h|)
  {
    SearchOnlyAsksNothing(g, Shift(before, |h|));
    FinallysInside(g, h, ip, Shift(before, |h|), 0);
  }

  lemma {:induction false} FinallysSince(g: Guest, before: seq<Event>, ran: seq<Event>)
    requires SearchOnly(before) && before <= ran
    ensures Finallys(ran[|before|..]) == Finallys(ran)
  {
    SearchOnlyAsksNothing(g, before);
    FinallysAppend(before, ran[|before|..]);
    assert before + ran[|before|..] == ran;
  }

  lemma {:induction false} NoneLive(h: seq<Frame>, rest: seq<(nat, nat)>)
    ensures Below(h, |h|) + rest == rest <==> forall j: nat, i: nat :: j < |h| ==> !Live(h[j], i)
  {
    BelowFacts(h, |h|);
    assert |Below(h, |h|) + rest| == |Below(h, |h|)| + |rest|;
    if Below(h, |h|) != [] {
      var p := Below(h, |h|)[0];
      assert (p.0, p.1) in Below(h, |h|);
    }
  }

  /**
    A catch: when a consolidating unwind goes through, the last thing run is the
    routine its record names, once, after every __finally, with that record whole;
    and the guest resumes where the routine said, in the unwound frame.
   */
  lemma {:induction false} CatchResumesWhereItsRoutineSays(g: Guest, stack: Stack, t: Target, before: seq<Event>) returns (k: nat)
    requires stack.Valid() && SearchOnly(before)
    requires var o := Unwind(g, stack, t, before);
             o.status == Success && Wanted(g, t, o.ran).rec.code == UNWIND_CONSOLIDATE
    ensures var o := Unwind(g, stack, t, before);
            var want := Wanted(g, t, o.ran);
            && k < |stack.frames| && stack.frames[k].establisher == want.frame
            && |want.rec.info| > 0 && want.rec.info[0] != 0 && o.ran != []
            && o.ran[|o.ran| - 1].Routine? && o.ran[|o.ran| - 1].rec == want.rec
            && g.image(want.rec.info[0]) == Some(o.ran[|o.ran| - 1].address)
            && (forall n :: 0 <= n < |o.ran| - 1 ==> !o.ran[n].Routine?)
            && o.regs == stack.regs[k].(rax := want.value, rip := g.onRoutine(o.ran))
  {
    var scope;
    k, scope := UnwindRunsWhatIsOwed(g, stack, t, before);
    var o := Unwind(g, stack, t, before);
    forall n | 0 <= n < |o.ran| - 1 ensures !o.ran[n].Routine? {
      assert o.ran[..|o.ran| - 1][n] == o.ran[n];
    }
  }

  // ----- the loops the source runs -----

  /** The unwind arm of guest_c_specific_handler. */
  method RunScopeTable(g: Guest, f: Frame, k: nat, scope: nat, target: bool, ip: nat, before: seq<Event>)
    returns (r: Searched)
    ensures r == RunFinallys(g, f, k, scope, target, ip, before)
  {
    var i, ran := scope, before;
    while i < f.Count()
      invariant RunFinallys(g, f, k, i, target, ip, ran) == RunFinallys(g, f, k, scope, target, ip, before)
      decreases f.Count() - i
    {
      if Live(f, i) {
        if target && Into(f, i, ip) { break; }
        ran := ran + [Finally(k, i)];
        match g.onFinally(ran) {
          case Unwinds(t) => return Collided(ran, i + 1, t);
          case Returned =>
        }
      }
      i := i + 1;
    }
    r := Through(ran);
  }

  /** guest_unwind_to_target: one pass of the loop per frame, and one more per adopted collision. */
  method GuestUnwindToTarget(g: Guest, stack: Stack, target: Target, before: seq<Event>) returns (o: Outcome)
    requires stack.Valid()
    ensures o == Unwind(g, stack, target, before)
  {
    var k, scope, want, depth, ran := 0, 0, target, 0, before;
    var collidedFrame, collidedScope := 0, 0;
    while true
      invariant k <= |stack.frames|
      invariant UnwindFrom(g, stack, Walk(k, scope, want, depth, (collidedFrame, collidedScope), ran))
             == Unwind(g, stack, target, before)
      decreases MAX_FRAMES - depth
    {
      if k == |stack.frames| { return Outcome(stack.end, stack.regs[k], ran, None); }
      if depth >= MAX_FRAMES { return Outcome(BadStack, stack.regs[k], ran, None); }
      depth := depth + 1;
      var f := stack.frames[k];
      if f.establisher > want.frame { return Outcome(InvalidUnwindTarget, stack.regs[k], ran, None); }
      var again: Option<Target> := None;
      match f.handler {
        case NoHandler =>
        case Foreign => return Outcome(NotImplemented, stack.regs[k], ran, None);
        case Personality =>
          ran := ran + [Entered(k, scope, f.establisher == want.frame)];
          match g.onEntered(ran) {
            case ContinueSearch =>
            case Accepts(t, left) => again, scope := Some(t), left;
            case Other => return Outcome(InvalidDisposition, stack.regs[k], ran, None);
          }
        case CSpecific(_) =>
          var r := RunScopeTable(g, f, k, scope, f.establisher == want.frame, want.ip, ran);
          ran := r.ran;
          if r.Collided? { again, scope := Some(r.t), r.scope; }
      }
      if again.Some? {
        if again.value.frame < f.establisher { return Outcome(InvalidUnwindTarget, stack.regs[k], ran, None); }
        if f.establisher == collidedFrame && scope == collidedScope {
          return Outcome(NotImplemented, stack.regs[k], ran, None);
        }
        collidedFrame, collidedScope, want := f.establisher, scope, again.value;
      } else {
        if f.establisher == want.frame { return Resume(g, want, stack.regs[k], ran); }
        k, scope := k + 1, 0;
      }
    }
  }
}
