/**
  The search for a handler over a guest stack (dispatch_guest_frames in
  dlls/ntdll/signal_ppc64.c), and the two phases together: find the first
  __except that takes the exception, then unwind to it.
 */
module GuestDispatch {
  import opened GuestUnwind
  import UnwindFate

  /** An __except whose __try the frame is inside. */
  predicate LiveExcept(f: Frame, i: nat) {
    i < f.Tries() && Covers(f, f.asked.table[i], f.pc) && f.asked.table[i].jump != 0
  }

  datatype Verdict =
    | Nobody(ran: seq<Event>)
    | Continues(ran: seq<Event>)
    | Taken(ran: seq<Event>, i: nat, t: Target)
    | Refuses(ran: seq<Event>, status: Status)

  function Taker(f: Frame, i: nat, rec: Record): Target
    requires i < f.Tries()
  {
    Target(f.establisher, f.base + f.asked.table[i].jump, rec.code, 0, rec)
  }

  /** The search half of __C_specific_handler over one frame. */
  function SearchScopes(g: Guest, f: Frame, k: nat, i: nat, rec: Record, ran: seq<Event>): Verdict
    decreases f.Tries() - i
  {
    if i >= f.Tries() then Nobody(ran)
    else if !LiveExcept(f, i) then SearchScopes(g, f, k, i + 1, rec, ran)
    else if f.asked.table[i].handler == EXECUTE_HANDLER then Taken(ran, i, Taker(f, i, rec))
    else
      var ran' := ran + [Filter(k, i)];
      var res := g.onFilter(ran');
      if res < 0 then Continues(ran')
      else if res == 0 then SearchScopes(g, f, k, i + 1, rec, ran')
      else Taken(ran', i, Taker(f, i, rec))
  }

  /** Resume where the fault was, unless the exception says it must not. */
  function Carry(stack: Stack, noncontinuable: bool, ran: seq<Event>): Outcome
    requires stack.Valid()
  {
    Outcome(if noncontinuable then NoncontinuableException else Success, stack.regs[0], ran, None)
  }

  /** What frame k's language handler says about the exception. */
  function Consult(g: Guest, f: Frame, k: nat, rec: Record, ran: seq<Event>): Verdict {
    match f.asked
    case NoHandler => Nobody(ran)
    case Foreign => Refuses(ran, NotImplemented)
    case CSpecific(_) => SearchScopes(g, f, k, 0, rec, ran)
    case Personality =>
      var ran' := ran + [Consulted(k)];
      match g.onConsulted(ran')
      case KeepSearching => Nobody(ran')
      case NestedException => Nobody(ran')
      case ContinueExecution => Continues(ran')
      case Takes(t) => Taken(ran', 0, t)
      case Unspoken => Refuses(ran', InvalidDisposition)
  }

  /**
    The frame walk from frame k on.  `end` is how the walk ends past the last
    frame; frame k may be followed by another while k is below the bound
    (guest_frame_walk_can_continue).
   */
  function Dispatch(g: Guest, stack: Stack, end: Status, rec: Record, noncontinuable: bool, k: nat, ran: seq<Event>): Outcome
    requires stack.Valid() && k <= |stack.frames|
    decreases |stack.frames| - k
  {
    if k == |stack.frames| then Outcome(end, stack.regs[0], ran, None)
    else
      match Consult(g, stack.frames[k], k, rec, ran)
      case Nobody(ran') =>
        if k >= MAX_FRAMES then Outcome(Unhandled, stack.regs[0], ran', None)
        else Dispatch(g, stack, end, rec, noncontinuable, k + 1, ran')
      case Continues(ran') => Carry(stack, noncontinuable, ran')
      case Taken(ran', _, t) => Unwind(g, stack, t, ran')
      case Refuses(ran', status) => Outcome(status, stack.regs[0], ran', None)
  }

  /** A handler that says the search is to go on; after a nested exception it does, too. */
  predicate Passes(r: SearchReply) { r.KeepSearching? || r.NestedException? }

  /** Nobody asked so far has taken the exception: no filter, and no handler of the guest's own. */
  ghost predicate Declined(g: Guest, ran: seq<Event>) {
    forall n :: 0 <= n < |ran| ==>
      && (ran[n].Filter? ==> g.onFilter(ran[..n + 1]) == 0)
      && (ran[n].Consulted? ==> Passes(g.onConsulted(ran[..n + 1])))
  }

  /** This scope takes every exception, or its filter has just said so. */
  ghost predicate Accepting(g: Guest, f: Frame, k: nat, i: nat, ran: seq<Event>)
  {
    LiveExcept(f, i) &&
    if f.asked.table[i].handler == EXECUTE_HANDLER then Declined(g, ran)
    else ran != [] && ran[|ran| - 1] == Filter(k, i) && g.onFilter(ran) > 0 && Declined(g, ran[..|ran| - 1])
  }

  /** The filters of frame k's live __except scopes with index below e. */
  function FiltersIn(f: Frame, k: nat, e: nat): seq<(nat, nat)> {
    if e == 0 then []
    else FiltersIn(f, k, e - 1) +
         if LiveExcept(f, e - 1) && f.asked.table[e - 1].handler != EXECUTE_HANDLER then [(k, e - 1)] else []
  }

  /** Everybody to be asked in frame k: its filters, or its own handler. */
  function AsksIn(f: Frame, k: nat): seq<(nat, nat)> {
    if f.asked.Personality? then [(k, 0)] else FiltersIn(f, k, f.Tries())
  }

  function AsksBelow(frames: seq<Frame>, k: nat): seq<(nat, nat)>
    requires k <= |frames|
  {
    if k == 0 then [] else AsksBelow(frames, k - 1) + AsksIn(frames[k - 1], k - 1)
  }

  function AskOf(e: Event): seq<(nat, nat)> {
    match e
    case Filter(k, i) => [(k, i)]
    case Consulted(k) => [(k, 0)]
    case _ => []
  }

  /** Who was asked, in order. */
  function Asks(ran: seq<Event>): seq<(nat, nat)> {
    if ran == [] then [] else Asks(ran[..|ran| - 1]) + AskOf(ran[|ran| - 1])
  }

  /** No live __except of this frame with index below e takes every exception. */
  ghost predicate NoAlways(f: Frame, e: nat) {
    forall m :: 0 <= m < e && LiveExcept(f, m) ==> f.asked.table[m].handler != EXECUTE_HANDLER
  }

  ghost predicate NoneUnconditional(frames: seq<Frame>, k: nat, i: nat)
    requires k <= |frames|
  {
    && (forall j :: 0 <= j < k ==> NoAlways(frames[j], frames[j].Tries()))
    && (k < |frames| ==> NoAlways(frames[k], i))
  }

  lemma {:induction false} AsksPush(ran: seq<Event>, e: Event)
    ensures Asks(ran + [e]) == Asks(ran) + AskOf(e)
  {
  }

  lemma {:induction false} DeclinedPush(g: Guest, ran: seq<Event>, e: Event)
    requires Declined(g, ran)
    requires (e.Filter? ==> g.onFilter(ran + [e]) == 0) && (e.Consulted? ==> Passes(g.onConsulted(ran + [e])))
    ensures Declined(g, ran + [e])
  {
    var ran' := ran + [e];
    forall n | 0 <= n < |ran'|
      ensures ran'[n].Filter? ==> g.onFilter(ran'[..n + 1]) == 0
      ensures ran'[n].Consulted? ==> Passes(g.onConsulted(ran'[..n + 1]))
    {
      if n < |ran| { assert ran'[..n + 1] == ran[..n + 1]; } else { assert ran'[..n + 1] == ran'; }
    }
  }

  lemma {:induction false} AsksOne(f: Frame, k: nat, i: nat, ran: seq<Event>, done: seq<(nat, nat)>)
    requires LiveExcept(f, i) && f.asked.table[i].handler != EXECUTE_HANDLER && Asks(ran) == done + FiltersIn(f, k, i)
    ensures Asks(ran + [Filter(k, i)]) == done + FiltersIn(f, k, i + 1)
  {
    AsksPush(ran, Filter(k, i));
  }

  lemma {:induction false} AsksNone(f: Frame, k: nat, i: nat)
    requires !LiveExcept(f, i) || f.asked.table[i].handler == EXECUTE_HANDLER
    ensures FiltersIn(f, k, i + 1) == FiltersIn(f, k, i)
  {
  }

  /** The filters of one frame are asked in table order, up to the scope that ends the pass. */
  ghost predicate Asked(f: Frame, k: nat, v: Verdict, done: seq<(nat, nat)>) {
    SearchOnly(v.ran) &&
    match v
    case Nobody(ran) => Asks(ran) == done + FiltersIn(f, k, f.Tries())
    case Continues(ran) => ran != [] && ran[|ran| - 1].Filter? && Asks(ran) == done + FiltersIn(f, k, ran[|ran| - 1].i + 1)
    case Refuses(_, _) => false
    case Taken(ran, n, t) => Asks(ran) == done + FiltersIn(f, k, n + 1)
  }

  lemma {:induction false} ScopesAsk(
      g: Guest, f: Frame, k: nat, i: nat, rec: Record, ran: seq<Event>, done: seq<(nat, nat)>)
    requires i <= f.Tries() && SearchOnly(ran) && Asks(ran) == done + FiltersIn(f, k, i)
    ensures Asked(f, k, SearchScopes(g, f, k, i, rec, ran), done)
    decreases f.Tries() - i
  {
    if i < f.Tries() {
      if !LiveExcept(f, i) {
        AsksNone(f, k, i);
        ScopesAsk(g, f, k, i + 1, rec, ran, done);
      } else if f.asked.table[i].handler == EXECUTE_HANDLER {
        AsksNone(f, k, i);
      } else {
        FilterAsks(g, f, k, i, rec, ran, done);
      }
    }
  }

  lemma {:induction false} FilterAsks(
      g: Guest, f: Frame, k: nat, i: nat, rec: Record, ran: seq<Event>, done: seq<(nat, nat)>)
    requires i < f.Tries() && SearchOnly(ran) && Asks(ran) == done + FiltersIn(f, k, i)
    requires LiveExcept(f, i) && f.asked.table[i].handler != EXECUTE_HANDLER
    ensures Asked(f, k, SearchScopes(g, f, k, i, rec, ran), done)
    decreases f.Tries() - i, 0
  {
    var ran' := ran + [Filter(k, i)];
    AsksOne(f, k, i, ran, done);
    assert SearchOnly(ran') && ran'[|ran|] == Filter(k, i);
    if g.onFilter(ran') == 0 { ScopesAsk(g, f, k, i + 1, rec, ran', done); }
  }

  /** The pass ends at the first live __except whose filter does not decline. */
  ghost predicate Judged(g: Guest, f: Frame, k: nat, rec: Record, v: Verdict) {
    match v
    case Nobody(ran) => Declined(g, ran) && NoAlways(f, f.Tries())
    case Continues(ran) =>
      && ran != [] && ran[|ran| - 1].Filter? && ran[|ran| - 1].k == k && g.onFilter(ran) < 0
      && Declined(g, ran[..|ran| - 1])
    case Refuses(_, _) => false
    case Taken(ran, n, t) => Accepting(g, f, k, n, ran) && NoAlways(f, n) && t == Taker(f, n, rec)
  }

  lemma {:induction false} ScopesJudge(g: Guest, f: Frame, k: nat, i: nat, rec: Record, ran: seq<Event>)
    requires i <= f.Tries() && Declined(g, ran) && NoAlways(f, i)
    ensures Judged(g, f, k, rec, SearchScopes(g, f, k, i, rec, ran))
    decreases f.Tries() - i
  {
    if i < f.Tries() {
      if !LiveExcept(f, i) {
        ScopesJudge(g, f, k, i + 1, rec, ran);
      } else if f.asked.table[i].handler != EXECUTE_HANDLER {
        var ran' := ran + [Filter(k, i)];
        assert ran'[..|ran|] == ran;
        if g.onFilter(ran') == 0 {
          DeclinedPush(g, ran, Filter(k, i));
          ScopesJudge(g, f, k, i + 1, rec, ran');
        }
      }
    }
  }

  /**
    How a search ended: with a scope that took the exception, with a guest's
    own handler that took it and asked for an unwind, with a filter or handler
    that resumed it, with a handler that cannot be served, or with nobody.
   */
  datatype Ending =
    | Took(k: nat, i: nat, ran: seq<Event>)
    | Handed(k: nat, t: Target, ran: seq<Event>)
    | Carried(k: nat, ran: seq<Event>)
    | Balked(k: nat, status: Status, ran: seq<Event>)
    | Neither(ran: seq<Event>)

  /** Up to frame n everybody has been asked, once, in order, and has declined. */
  ghost predicate AllDeclined(g: Guest, frames: seq<Frame>, n: nat, ran: seq<Event>) {
    && n <= |frames|
    && SearchOnly(ran) && Declined(g, ran) && NoneUnconditional(frames, n, 0)
    && (forall j :: 0 <= j < n ==> !frames[j].asked.Foreign?)
    && Asks(ran) == AsksBelow(frames, n)
  }

  /** Scope i of frame k is the first, innermost frame first, that takes the exception. */
  ghost predicate FirstTaker(g: Guest, frames: seq<Frame>, k: nat, i: nat, ran: seq<Event>) {
    && k < |frames|
    && SearchOnly(ran) && Accepting(g, frames[k], k, i, ran) && NoneUnconditional(frames, k, i)
    && (forall j :: 0 <= j <= k ==> !frames[j].asked.Foreign?)
    && Asks(ran) == AsksBelow(frames, k) + FiltersIn(frames[k], k, i + 1)
  }

  /** Frame k's own handler was the last to be asked, everybody before it having declined. */
  ghost predicate LastAsked(g: Guest, frames: seq<Frame>, k: nat, ran: seq<Event>) {
    && k < |frames| && frames[k].asked.Personality?
    && ran != [] && ran[|ran| - 1] == Consulted(k) && AllDeclined(g, frames, k, ran[..|ran| - 1])
  }

  /** A filter of frame k has just said to resume, everybody before it having declined. */
  ghost predicate Resuming(g: Guest, frames: seq<Frame>, k: nat, ran: seq<Event>) {
    && k < |frames| && SearchOnly(ran) && ran != [] && Declined(g, ran[..|ran| - 1])
    && ran[|ran| - 1].Filter? && ran[|ran| - 1].k == k && g.onFilter(ran) < 0
    && Asks(ran) == AsksBelow(frames, k) + FiltersIn(frames[k], k, ran[|ran| - 1].i + 1)
  }

  /** Frame k's handler cannot be served: it is in no guest image, or it answered nothing known. */
  ghost predicate BalksAt(g: Guest, frames: seq<Frame>, k: nat, status: Status, ran: seq<Event>) {
    && k < |frames|
    && if frames[k].asked.Foreign? then status == NotImplemented && AllDeclined(g, frames, k, ran)
       else status == InvalidDisposition && LastAsked(g, frames, k, ran) && g.onConsulted(ran) == Unspoken
  }

  /** What frame k's verdict means, everybody before that frame having declined. */
  ghost predicate Found(g: Guest, frames: seq<Frame>, k: nat, rec: Record, v: Verdict)
    requires k < |frames|
  {
    var own := frames[k].asked.Personality?;
    match v
    case Nobody(ran) => AllDeclined(g, frames, k + 1, ran)
    case Continues(ran) =>
      if own then LastAsked(g, frames, k, ran) && g.onConsulted(ran) == ContinueExecution else Resuming(g, frames, k, ran)
    case Taken(ran, i, t) =>
      if own then LastAsked(g, frames, k, ran) && g.onConsulted(ran) == Takes(t)
      else FirstTaker(g, frames, k, i, ran) && t == Taker(frames[k], i, rec)
    case Refuses(ran, status) => BalksAt(g, frames, k, status, ran)
  }

  lemma {:induction false} ScopesFind(g: Guest, frames: seq<Frame>, k: nat, rec: Record, ran: seq<Event>)
    requires k < |frames| && AllDeclined(g, frames, k, ran) && frames[k].asked.CSpecific?
    ensures Found(g, frames, k, rec, Consult(g, frames[k], k, rec, ran))
  {
    var f := frames[k];
    ScopesAsk(g, f, k, 0, rec, ran, AsksBelow(frames, k));
    ScopesJudge(g, f, k, 0, rec, ran);
  }

  lemma {:induction false} HandlerFinds(g: Guest, frames: seq<Frame>, k: nat, rec: Record, ran: seq<Event>)
    requires k < |frames| && AllDeclined(g, frames, k, ran) && frames[k].asked.Personality?
    ensures Found(g, frames, k, rec, Consult(g, frames[k], k, rec, ran))
  {
    var ran' := ran + [Consulted(k)];
    assert ran'[..|ran|] == ran && ran'[|ran|] == Consulted(k);
    if Passes(g.onConsulted(ran')) { HandlerPasses(g, frames, k, ran); }
  }

  lemma {:induction false} HandlerPasses(g: Guest, frames: seq<Frame>, k: nat, ran: seq<Event>)
    requires k < |frames| && AllDeclined(g, frames, k, ran) && frames[k].asked.Personality?
    requires Passes(g.onConsulted(ran + [Consulted(k)]))
    ensures AllDeclined(g, frames, k + 1, ran + [Consulted(k)])
  {
    var ran' := ran + [Consulted(k)];
    assert Declined(g, ran') by { DeclinedPush(g, ran, Consulted(k)); }
    assert Asks(ran') == AsksBelow(frames, k + 1) by { AsksPush(ran, Consulted(k)); }
    assert NoneUnconditional(frames, k + 1, 0) by { assert NoAlways(frames[k], frames[k].Tries()); }
  }

  lemma {:induction false} ConsultFinds(g: Guest, frames: seq<Frame>, k: nat, rec: Record, ran: seq<Event>)
    requires k < |frames| && AllDeclined(g, frames, k, ran)
    ensures Found(g, frames, k, rec, Consult(g, frames[k], k, rec, ran))
  {
    match frames[k].asked
    case NoHandler => assert FiltersIn(frames[k], k, 0) == [];
    case Foreign =>
    case CSpecific(_) => ScopesFind(g, frames, k, rec, ran);
    case Personality => HandlerFinds(g, frames, k, rec, ran);
  }

  lemma {:induction false} LastAskedSearches(g: Guest, frames: seq<Frame>, k: nat, ran: seq<Event>)
    requires LastAsked(g, frames, k, ran)
    ensures SearchOnly(ran)
  {
    var n := |ran| - 1;
    assert ran == ran[..n] + [ran[n]];
  }

  lemma {:induction false} FoundSearches(g: Guest, frames: seq<Frame>, k: nat, rec: Record, v: Verdict)
    requires k < |frames| && Found(g, frames, k, rec, v)
    ensures SearchOnly(v.ran)
  {
    if LastAsked(g, frames, k, v.ran) { LastAskedSearches(g, frames, k, v.ran); }
  }

  function Last(frames: seq<Frame>): nat { if |frames| <= MAX_FRAMES then |frames| else MAX_FRAMES + 1 }

  /** What the dispatch comes to, by how its search ended. */
  ghost predicate EndsAs(g: Guest, stack: Stack, end: Status, rec: Record, noncontinuable: bool, d: Outcome, e: Ending)
    requires stack.Valid()
  {
    && SearchOnly(e.ran)
    && match e
    case Took(k, i, ran) =>
      && k <= MAX_FRAMES && FirstTaker(g, stack.frames, k, i, ran)
      && d == Unwind(g, stack, Taker(stack.frames[k], i, rec), ran)
    case Handed(k, t, ran) =>
      && k <= MAX_FRAMES && LastAsked(g, stack.frames, k, ran) && g.onConsulted(ran) == Takes(t)
      && d == Unwind(g, stack, t, ran)
    case Carried(k, ran) =>
      && k <= MAX_FRAMES && d.status == (if noncontinuable then NoncontinuableException else Success)
      && d.regs == stack.regs[0] && d.ran == ran && d.write == None
      && (Resuming(g, stack.frames, k, ran) || (LastAsked(g, stack.frames, k, ran) && g.onConsulted(ran) == ContinueExecution))
    case Balked(k, status, ran) =>
      k <= MAX_FRAMES && BalksAt(g, stack.frames, k, status, ran) && d == Outcome(status, stack.regs[0], ran, None)
    case Neither(ran) =>
      && AllDeclined(g, stack.frames, Last(stack.frames), ran)
      && d == Outcome(if |stack.frames| <= MAX_FRAMES then end else Unhandled, stack.regs[0], ran, None)
  }

  /** The ending that a verdict of frame k is, if it is not to go on. */
  function EndingOf(frames: seq<Frame>, k: nat, v: Verdict): Ending
    requires k < |frames|
  {
    match v
    case Nobody(ran) => Neither(ran)
    case Continues(ran) => Carried(k, ran)
    case Taken(ran, i, t) => if frames[k].asked.Personality? then Handed(k, t, ran) else Took(k, i, ran)
    case Refuses(ran, status) => Balked(k, status, ran)
  }

  lemma {:induction false} VerdictEnds(g: Guest, stack: Stack, end: Status, rec: Record, noncontinuable: bool, k: nat, ran: seq<Event>)
    requires stack.Valid() && k < |stack.frames| && k <= MAX_FRAMES
    requires var v := Consult(g, stack.frames[k], k, rec, ran);
             Found(g, stack.frames, k, rec, v) && (v.Nobody? ==> k == MAX_FRAMES)
    ensures EndsAs(g, stack, end, rec, noncontinuable, Dispatch(g, stack, end, rec, noncontinuable, k, ran),
                   EndingOf(stack.frames, k, Consult(g, stack.frames[k], k, rec, ran)))
  {
    FoundSearches(g, stack.frames, k, rec, Consult(g, stack.frames[k], k, rec, ran));
  }

  /**
    Whatever the guest: the search asks everybody once, innermost frame first,
    and ends with the first that does not decline.
   */
  lemma {:induction false} DispatchFinds(
      g: Guest, stack: Stack, end: Status, rec: Record, noncontinuable: bool, k: nat, ran: seq<Event>)
    returns (e: Ending)
    requires stack.Valid() && k <= |stack.frames| && k <= MAX_FRAMES
    requires AllDeclined(g, stack.frames, k, ran)
    ensures EndsAs(g, stack, end, rec, noncontinuable, Dispatch(g, stack, end, rec, noncontinuable, k, ran), e)
    decreases |stack.frames| - k
  {
    if k == |stack.frames| {
      e := Neither(ran);
    } else {
      ConsultFinds(g, stack.frames, k, rec, ran);
      e := VerdictFinds(g, stack, end, rec, noncontinuable, k, ran);
    }
  }

  lemma {:induction false} VerdictFinds(
      g: Guest, stack: Stack, end: Status, rec: Record, noncontinuable: bool, k: nat, ran: seq<Event>)
    returns (e: Ending)
    requires stack.Valid() && k < |stack.frames| && k <= MAX_FRAMES
    requires Found(g, stack.frames, k, rec, Consult(g, stack.frames[k], k, rec, ran))
    ensures EndsAs(g, stack, end, rec, noncontinuable, Dispatch(g, stack, end, rec, noncontinuable, k, ran), e)
    decreases |stack.frames| - k, 0
  {
    var v := Consult(g, stack.frames[k], k, rec, ran);
    if v.Nobody? && k < MAX_FRAMES {
      e := DispatchFinds(g, stack, end, rec, noncontinuable, k + 1, v.ran);
    } else {
      VerdictEnds(g, stack, end, rec, noncontinuable, k, ran);
      e := EndingOf(stack.frames, k, v);
    }
  }

  /** The unwind that a search asks for, by a scope or by a handler of the guest's own. */
  function Accepted(stack: Stack, rec: Record, e: Ending): Target
    requires e.Handed? || (e.Took? && e.k < |stack.frames| && e.i < stack.frames[e.k].Tries())
  {
    if e.Handed? then e.t else Taker(stack.frames[e.k], e.i, rec)
  }

  /**
    Both phases, whatever the guest: whoever takes the exception, the unwind
    that follows runs every live __finally before the point it comes to exactly
    once, innermost first; if it goes through, that point is in the frame that
    the taker, or the last unwind started on the way, named.
   */
  lemma {:induction false} DispatchUnwinds(g: Guest, stack: Stack, end: Status, rec: Record, noncontinuable: bool)
    returns (e: Ending, k: nat, scope: nat)
    requires stack.Valid()
    ensures var d := Dispatch(g, stack, end, rec, noncontinuable, 0, []);
            && EndsAs(g, stack, end, rec, noncontinuable, d, e)
            && (!e.Took? && !e.Handed? ==> Finallys(d.ran) == [])
            && (e.Took? || e.Handed? ==>
                  && Ordered(Finallys(d.ran))
                  && (forall j: nat, i: nat :: (j, i) in Finallys(d.ran) <==>
                        j < |stack.frames| && Live(stack.frames[j], i) && Sooner((j, i), (k, scope)))
                  && (d.status == Success ==>
                        var want := Wanted(g, Accepted(stack, rec, e), d.ran);
                        && k < |stack.frames| && stack.frames[k].establisher == want.frame
                        && scope == StopAt(stack.frames[k], EnteredAt(g, d.ran, k), want.ip)))
  {
    e := DispatchFinds(g, stack, end, rec, noncontinuable, 0, []);
    k, scope := 0, 0;
    if e.Took? || e.Handed? {
      k, scope := EachFinallyExactlyOnce(g, stack, Accepted(stack, rec, e), e.ran);
    } else {
      SearchOnlyAsksNothing(g, e.ran);
    }
  }

  lemma {:induction false} CalmNeverAsks(g: Guest, ran: seq<Event>)
    requires Calm(g)
    ensures LastAsk(g, ran) == None
  {
    if ran != [] { CalmNeverAsks(g, ran[..|ran| - 1]); }
  }

  /** With the bound's worth of frames still inside the target, the unwind stops at the bound, its work half done. */
  lemma {:induction false} CalmStopsAtBound(g: Guest, stack: Stack, t: Target, ran: seq<Event>, k: nat)
    requires stack.Valid() && Calm(g) && k <= MAX_FRAMES < |stack.frames|
    requires forall j :: 0 <= j < MAX_FRAMES ==> stack.frames[j].establisher < t.frame && !stack.frames[j].handler.Foreign?
    requires NoRoutine(ran) && Finallys(ran) == Below(stack.frames, k)
    ensures var o := UnwindFrom(g, stack, Walk(k, 0, t, k, (0, 0), ran));
            o.status == BadStack && Finallys(o.ran) == Below(stack.frames, MAX_FRAMES)
    decreases MAX_FRAMES - k
  {
    if k < MAX_FRAMES {
      CalmIsQuiet(g, |stack.frames|);
      PassesOne(g, stack, t, ran, k, |stack.frames|);
      FinallysPassed(g, stack.frames, t.ip, ran, k);
      CalmStopsAtBound(g, stack, t, Passed(g, stack.frames[k], t.ip, ran, k), k + 1);
    }
  }

  /** The handlers that an unwind to frame k is given can all be served. */
  ghost predicate Served(frames: seq<Frame>, k: nat)
    requires k < |frames|
  {
    forall j :: 0 <= j <= k ==> !frames[j].handler.Foreign?
  }

  /** The __except body of scope i of frame n, whose __try the frame is inside, entered with the exception's code in rax. */
  ghost predicate InExceptBody(stack: Stack, n: nat, i: nat, rec: Record, o: Outcome)
    requires stack.Valid() && n < |stack.frames| && i < stack.frames[n].Tries()
  {
    var f := stack.frames[n];
    && f.base + f.asked.table[i].begin <= f.pc < f.base + f.asked.table[i].end && f.asked.table[i].jump != 0
    && o.regs == stack.regs[n].(rip := f.base + f.asked.table[i].jump, rax := rec.code) && o.write == None
    && Finallys(o.ran) == Owed(stack.frames, n, f.base + f.asked.table[i].jump)
  }

  /**
    Both phases, for a guest whose funclets return: if fewer than 256 frames lie
    inside the first __except that takes the exception, and none of those frames
    names a handler for unwinding that lies in no guest image, every __finally
    owed has run exactly once and the guest is in the __except body.  The search
    looks one frame further than the unwind can reach: an __except taken in the
    257th frame is not entered, although every __finally inside it has been run.
    An unwind that a handler of the guest's own asks for goes through exactly if
    its target is within reach.
   */
  lemma {:induction false} FirstTakerIsEnteredIffInReach(g: Guest, stack: Stack, end: Status, rec: Record, noncontinuable: bool)
    returns (e: Ending)
    requires stack.Valid() && Calm(g) && Rising(stack.frames)
    ensures var d := Dispatch(g, stack, end, rec, noncontinuable, 0, []);
            && EndsAs(g, stack, end, rec, noncontinuable, d, e)
            && (e.Took? && rec.code != UNWIND_CONSOLIDATE ==>
                  && (d.status == Success <==> e.k < MAX_FRAMES && Served(stack.frames, e.k))
                  && (e.k < MAX_FRAMES && Served(stack.frames, e.k) ==> InExceptBody(stack, e.k, e.i, rec, d)))
            && (e.Took? && e.k == MAX_FRAMES && Served(stack.frames, MAX_FRAMES - 1) ==>
                  d.status == BadStack && Finallys(d.ran) == Below(stack.frames, MAX_FRAMES))
            && (e.Handed? && e.t.rec.code != UNWIND_CONSOLIDATE ==>
                  && (d.status == Success <==> exists n: nat :: InReach(stack.frames, e.t, n))
                  && (forall n: nat :: InReach(stack.frames, e.t, n) ==> InTarget(stack, e.t, n, d)))
  {
    e := DispatchFinds(g, stack, end, rec, noncontinuable, 0, []);
    if e.Took? {
      if rec.code != UNWIND_CONSOLIDATE { TakenUnwinds(g, stack, rec, e.k, e.i, e.ran); }
      if e.k == MAX_FRAMES && Served(stack.frames, MAX_FRAMES - 1) { TakenAtBound(g, stack, rec, e.i, e.ran); }
    } else if e.Handed? && e.t.rec.code != UNWIND_CONSOLIDATE {
      HandedUnwinds(g, stack, e.t, e.ran);
    }
  }

  /** Frame n, resumed as an unwind to t asked, with every __finally owed run once. */
  ghost predicate InTarget(stack: Stack, t: Target, n: nat, o: Outcome)
    requires stack.Valid() && n < |stack.frames|
  {
    && o.regs == stack.regs[n].(rip := t.ip, rax := t.value)
    && o.write == (if t.contextOut == 0 then None else Some(stack.regs[n].(rax := t.value)))
    && Finallys(o.ran) == Owed(stack.frames, n, t.ip)
  }

  lemma {:induction false} HandedUnwinds(g: Guest, stack: Stack, t: Target, ran: seq<Event>)
    requires stack.Valid() && Calm(g) && Rising(stack.frames) && t.rec.code != UNWIND_CONSOLIDATE && SearchOnly(ran)
    ensures var d := Unwind(g, stack, t, ran);
            && (d.status == Success <==> exists n: nat :: InReach(stack.frames, t, n))
            && (forall n: nat :: InReach(stack.frames, t, n) ==> InTarget(stack, t, n, d))
  {
    var r := UnwindFate.CalmUnwindSucceedsIff(g, stack, t, ran);
    var k, scope := UnwindRunsWhatIsOwed(g, stack, t, ran);
    CalmNeverAsks(g, Unwind(g, stack, t, ran).ran);
  }

  lemma {:induction false} TakenUnwinds(g: Guest, stack: Stack, rec: Record, n: nat, i: nat, ran: seq<Event>)
    requires stack.Valid() && Calm(g) && Rising(stack.frames) && n < |stack.frames| && SearchOnly(ran)
    requires LiveExcept(stack.frames[n], i) && rec.code != UNWIND_CONSOLIDATE
    ensures var d := Unwind(g, stack, Taker(stack.frames[n], i, rec), ran);
            && (d.status == Success <==> n < MAX_FRAMES && Served(stack.frames, n))
            && (n < MAX_FRAMES && Served(stack.frames, n) ==> InExceptBody(stack, n, i, rec, d))
  {
    var t := Taker(stack.frames[n], i, rec);
    HandedUnwinds(g, stack, t, ran);
    assert InReach(stack.frames, t, n) <==> n < MAX_FRAMES && Served(stack.frames, n);
    forall m: nat | InReach(stack.frames, t, m) ensures m == n {}
  }

  lemma {:induction false} TakenAtBound(g: Guest, stack: Stack, rec: Record, i: nat, ran: seq<Event>)
    requires stack.Valid() && Calm(g) && Rising(stack.frames) && MAX_FRAMES < |stack.frames| && SearchOnly(ran)
    requires i < stack.frames[MAX_FRAMES].Tries() && Served(stack.frames, MAX_FRAMES - 1)
    ensures var d := Unwind(g, stack, Taker(stack.frames[MAX_FRAMES], i, rec), ran);
            d.status == BadStack && Finallys(d.ran) == Below(stack.frames, MAX_FRAMES)
  {
    SearchOnlyAsksNothing(g, ran);
    CalmStopsAtBound(g, stack, Taker(stack.frames[MAX_FRAMES], i, rec), ran, 0);
  }

  /** A frame whose handler is for unwinding only and lies in no guest image, inside one that takes everything. */
  const HIDDEN: Stack :=
    Stack([Frame(1, 0, 5, Foreign, NoHandler), Frame(2, 0, 5, NoHandler, CSpecific([Scope(0, 10, 1, 20)]))],
          [Context(0, 0, 0, 0), Context(0, 0, 0, 0), Context(0, 0, 0, 0)], BadStack)

  /** The search does not see that handler: the __except is taken, and then cannot be unwound to. */
  lemma {:induction false} ForeignUnwindHandlerLosesTheExcept(g: Guest, end: Status, rec: Record)
    ensures Consult(g, HIDDEN.frames[0], 0, rec, []) == Nobody([])
    ensures Consult(g, HIDDEN.frames[1], 1, rec, []) == Taken([], 0, Taker(HIDDEN.frames[1], 0, rec))
    ensures Dispatch(g, HIDDEN, end, rec, false, 0, []).status == NotImplemented
  {
    assert LiveExcept(HIDDEN.frames[1], 0);
    assert Dispatch(g, HIDDEN, end, rec, false, 0, []) == Dispatch(g, HIDDEN, end, rec, false, 1, []);
  }

  /** 257 frames of which only the outermost has a __try, and it takes everything. */
  function DeepStack(): Stack {
    Stack(seq(MAX_FRAMES + 1, (n: nat) => Frame(n + 1, 0, 5, NoHandler, if n == MAX_FRAMES then CSpecific([Scope(0, 10, 1, 20)]) else NoHandler)),
          seq(MAX_FRAMES + 2, _ => Context(0, 0, 0, 0)), BadStack)
  }

  lemma {:induction false} PlainFramesPass(g: Guest, end: Status, rec: Record, k: nat)
    requires k <= MAX_FRAMES
    ensures Dispatch(g, DeepStack(), end, rec, false, k, []) == Dispatch(g, DeepStack(), end, rec, false, MAX_FRAMES, [])
    decreases MAX_FRAMES - k
  {
    if k < MAX_FRAMES { PlainFramesPass(g, end, rec, k + 1); }
  }

  lemma {:induction false} PlainFramesUnwind(g: Guest, w: Walk)
    requires w.depth == w.k <= MAX_FRAMES && w.want.frame == MAX_FRAMES + 1
    ensures UnwindFrom(g, DeepStack(), w).status == BadStack
    decreases MAX_FRAMES - w.k
  {
    if w.k < MAX_FRAMES { PlainFramesUnwind(g, w.(k := w.k + 1, scope := 0, depth := w.depth + 1)); }
  }

  /** Whatever the guest, an __except that always takes the exception is found on this stack and not entered. */
  lemma {:induction false} DeepExceptIsFoundAndLost(g: Guest, end: Status, rec: Record)
    ensures Consult(g, DeepStack().frames[MAX_FRAMES], MAX_FRAMES, rec, []).Taken?
    ensures Dispatch(g, DeepStack(), end, rec, false, 0, []).status == BadStack
  {
    var f := DeepStack().frames[MAX_FRAMES];
    PlainFramesPass(g, end, rec, 0);
    assert LiveExcept(f, 0);
    PlainFramesUnwind(g, Walk(0, 0, Taker(f, 0, rec), 0, (0, 0), []));
  }

  /** dispatch_guest_frames as the source runs it: a loop over the frames. */
  method DispatchGuestFrames(g: Guest, stack: Stack, end: Status, rec: Record, noncontinuable: bool) returns (o: Outcome)
    requires stack.Valid()
    ensures o == Dispatch(g, stack, end, rec, noncontinuable, 0, [])
  {
    var k, ran := 0, [];
    while k < |stack.frames|
      invariant k <= |stack.frames|
      invariant Dispatch(g, stack, end, rec, noncontinuable, k, ran) == Dispatch(g, stack, end, rec, noncontinuable, 0, [])
    {
      match Consult(g, stack.frames[k], k, rec, ran) {
        case Nobody(ran') => ran := ran';
        case Continues(ran') => return Carry(stack, noncontinuable, ran');
        case Refuses(ran', status) => return Outcome(status, stack.regs[0], ran', None);
        case Taken(ran', _, t) =>
          o := GuestUnwindToTarget(g, stack, t, ran');
          return;
      }
      if k >= MAX_FRAMES { return Outcome(Unhandled, stack.regs[0], ran, None); }
      k := k + 1;
    }
    o := Outcome(end, stack.regs[0], ran, None);
  }
}
