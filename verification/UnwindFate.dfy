/**
  Where and why an unwind over a guest stack ends (guest_unwind_to_target in
  dlls/ntdll/signal_ppc64.c), said of the frames and of what the guest asked
  for on the way: for every guest, and for one that starts a single second
  unwind, which is adopted where it collides.
 */
module UnwindFate {
  import opened GuestUnwind

  /** Every unwind that was started from inside, in order. */
  function Requests(g: Guest, ran: seq<Event>): seq<Ask> {
    if ran == [] then []
    else Requests(g, ran[..|ran| - 1]) + match Asked(g, ran) { case None => [] case Some(a) => [a] }
  }

  lemma {:induction false} RequestsPush(g: Guest, ran: seq<Event>, e: Event)
    ensures Requests(g, ran + [e]) == Requests(g, ran) + match Asked(g, ran + [e]) { case None => [] case Some(a) => [a] }
  {
    assert (ran + [e])[..|ran|] == ran;
  }

  /** The one that counts is the last. */
  lemma {:induction false} LastRequest(g: Guest, ran: seq<Event>)
    ensures var rs := Requests(g, ran); LastAsk(g, ran) == if rs == [] then None else Some(rs[|rs| - 1])
  {
    if ran != [] { LastRequest(g, ran[..|ran| - 1]); }
  }

  /** The frame, by its address, and the scope at which a request came; zeros before the first. */
  function Place(frames: seq<Frame>, rs: seq<Ask>): (nat, nat) {
    if rs == [] then (0, 0)
    else
      var last := rs[|rs| - 1];
      (if last.k < |frames| then frames[last.k].establisher else 0, last.scope)
  }

  /** The last request came from where the one before it did: nothing has advanced. */
  predicate Repeats(frames: seq<Frame>, rs: seq<Ask>) {
    rs != [] && Place(frames, rs) == Place(frames, rs[..|rs| - 1])
  }

  /** The frame that the walk to the last target set out from. */
  function From(rs: seq<Ask>): nat { if rs == [] then 0 else rs[|rs| - 1].k }

  /** The last thing run is a handler of the guest's own that answered nothing known. */
  predicate Balks(g: Guest, ran: seq<Event>) {
    ran != [] && ran[|ran| - 1].Entered? && g.onEntered(ran) == Other
  }

  /** Frame j is left behind on the way to `want`, with n requests adopted. */
  predicate Passable(f: Frame, j: nat, want: Target, n: nat) {
    f.establisher < want.frame && !f.handler.Foreign? && j + n < MAX_FRAMES
  }

  /** A consolidating unwind that has come to its frame names a routine in a guest image that answers an address. */
  predicate CatchGoes(g: Guest, want: Target, ran: seq<Event>) {
    want.rec.code == UNWIND_CONSOLIDATE ==>
      && |want.rec.info| > 0 && want.rec.info[0] != 0
      && (match g.image(want.rec.info[0]) {
            case None => false
            case Some(routine) => g.onRoutine(ran + [Routine(routine, want.rec)]) != 0
          })
  }

  /** It has come to its target frame, s. */
  predicate Arrives(g: Guest, frames: seq<Frame>, want: Target, rs: seq<Ask>, ran: seq<Event>, s: nat) {
    && s < |frames| && frames[s].establisher == want.frame && !frames[s].handler.Foreign?
    && s + |rs| < MAX_FRAMES && !Repeats(frames, rs) && !Balks(g, ran)
  }

  /** What stops an unwind that does not arrive, standing in frame s. */
  function Obstacle(g: Guest, stack: Stack, want: Target, rs: seq<Ask>, ran: seq<Event>, s: nat): Status {
    if s >= |stack.frames| then stack.end
    else if want.frame < stack.frames[s].establisher && ((rs != [] && s == From(rs)) || s + |rs| < MAX_FRAMES)
    then InvalidUnwindTarget
    else if Repeats(stack.frames, rs) then NotImplemented
    else if s + |rs| >= MAX_FRAMES then BadStack
    else if stack.frames[s].handler.Foreign? then NotImplemented
    else InvalidDisposition
  }

  /** The end of an unwind that ran `ran`, a consolidation routine apart, and stands in frame s. */
  ghost predicate Concludes(g: Guest, stack: Stack, t: Target, ran: seq<Event>, s: nat, o: Outcome)
    requires stack.Valid()
  {
    StandsIn(g, stack, Requests(g, ran), Wanted(g, t, ran), ran, s, o)
  }

  ghost predicate StandsIn(g: Guest, stack: Stack, rs: seq<Ask>, want: Target, ran: seq<Event>, s: nat, o: Outcome)
    requires stack.Valid()
  {
    && From(rs) <= s <= |stack.frames|
    && (forall j :: From(rs) <= j < s ==> Passable(stack.frames[j], j, want, |rs|))
    && (Repeats(stack.frames, rs) ==> s == From(rs))
    && (Balks(g, ran) ==> s == ran[|ran| - 1].k)
    && if Arrives(g, stack.frames, want, rs, ran, s) then
         && (o.ran == ran || (ran < o.ran && |o.ran| == |ran| + 1 && o.ran[|ran|].Routine?))
         && (o.status == Success <==> CatchGoes(g, want, ran))
         && (o.status == Success ==> Resumed(g, want, stack.regs[s], o))
       else
         && (s < |stack.frames| && Passable(stack.frames[s], s, want, |rs|) ==> Repeats(stack.frames, rs) || Balks(g, ran))
         && o == Outcome(Obstacle(g, stack, want, rs, ran, s), stack.regs[s], ran, None)
  }

  /** A walk under way, nothing having stopped it yet. */
  ghost predicate Going(g: Guest, stack: Stack, t: Target, w: Walk) {
    stack.Valid() && NoRoutine(w.ran) && w.want == Wanted(g, t, w.ran) && GoesOn(stack, Requests(g, w.ran), w)
  }

  ghost predicate GoesOn(stack: Stack, rs: seq<Ask>, w: Walk) {
    && From(rs) <= w.k <= |stack.frames| && w.depth == w.k + |rs| && w.again == Place(stack.frames, rs)
    && !Repeats(stack.frames, rs)
    && (forall j :: From(rs) <= j < w.k ==> Passable(stack.frames[j], j, w.want, |rs|))
    && (rs != [] && w.k == From(rs) ==> w.k < |stack.frames| && stack.frames[w.k].establisher <= w.want.frame)
  }

  lemma {:induction false} ScopesOnlyRun(g: Guest, f: Frame, k: nat, i: nat, target: bool, ip: nat, ran: seq<Event>)
    requires NoRoutine(ran)
    ensures var r := RunFinallys(g, f, k, i, target, ip, ran).ran;
            NoRoutine(r) && ran <= r && (r == ran || (r != [] && r[|r| - 1].Finally?))
    decreases f.Count() - i
  {
    if i < f.Count() {
      if !Live(f, i) {
        ScopesOnlyRun(g, f, k, i + 1, target, ip, ran);
      } else if !(target && Into(f, i, ip)) {
        ScopesOnlyRun(g, f, k, i + 1, target, ip, ran + [Finally(k, i)]);
      }
    }
  }

  /** One pass over a scope table makes no request, or one, as its last act. */
  lemma {:induction false} RequestsOfFrame(g: Guest, f: Frame, k: nat, i: nat, target: bool, ip: nat, ran: seq<Event>)
    ensures var r := RunFinallys(g, f, k, i, target, ip, ran);
            Requests(g, r.ran) == Requests(g, ran) + if r.Collided? then [Ask(k, r.scope, r.t)] else []
    decreases f.Count() - i
  {
    if i < f.Count() {
      if !Live(f, i) {
        RequestsOfFrame(g, f, k, i + 1, target, ip, ran);
      } else if !(target && Into(f, i, ip)) {
        RequestsPush(g, ran, Finally(k, i));
        if g.onFinally(ran + [Finally(k, i)]).Returned? {
          RequestsOfFrame(g, f, k, i + 1, target, ip, ran + [Finally(k, i)]);
        }
      }
    }
  }

  lemma {:induction false} WalkConcludes(g: Guest, stack: Stack, t: Target, w: Walk) returns (s: nat, ran: seq<Event>)
    requires Going(g, stack, t, w) && (w.ran != [] ==> !Balks(g, w.ran))
    ensures w.ran <= ran && Concludes(g, stack, t, ran, s, UnwindFrom(g, stack, w))
    decreases MAX_FRAMES - w.depth, 3
  {
    s, ran := w.k, w.ran;
    if w.k < |stack.frames| && w.depth < MAX_FRAMES && stack.frames[w.k].establisher <= w.want.frame {
      match stack.frames[w.k].handler
      case NoHandler => s, ran := OnwardConcludes(g, stack, t, w, w.ran);
      case Foreign =>
      case Personality => s, ran := HandlerConcludes(g, stack, t, w);
      case CSpecific(_) => s, ran := ScopesConclude(g, stack, t, w);
    }
  }

  lemma {:induction false} EnteredRequests(g: Guest, ran: seq<Event>, e: Event)
    requires e.Entered? && NoRoutine(ran)
    ensures NoRoutine(ran + [e]) && (Balks(g, ran + [e]) <==> g.onEntered(ran + [e]) == Other)
    ensures Requests(g, ran + [e]) == match g.onEntered(ran + [e]) {
              case Accepts(t', scope') => Requests(g, ran) + [Ask(e.k, scope', t')]
              case _ => Requests(g, ran)
            }
  {
    RequestsPush(g, ran, e);
  }

  lemma {:induction false} HandlerConcludes(g: Guest, stack: Stack, t: Target, w: Walk) returns (s: nat, ran: seq<Event>)
    requires Going(g, stack, t, w) && w.k < |stack.frames| && w.depth < MAX_FRAMES
    requires stack.frames[w.k].establisher <= w.want.frame && stack.frames[w.k].handler.Personality?
    ensures w.ran <= ran && Concludes(g, stack, t, ran, s, UnwindFrom(g, stack, w))
    decreases MAX_FRAMES - w.depth, 2
  {
    var e := Entered(w.k, w.scope, stack.frames[w.k].establisher == w.want.frame);
    EnteredRequests(g, w.ran, e);
    s, ran := ReplyConcludes(g, stack, t, w, w.ran + [e]);
  }

  /** What the handler of frame k replied, `ran'` being everything run up to then. */
  lemma {:induction false} ReplyConcludes(g: Guest, stack: Stack, t: Target, w: Walk, ran': seq<Event>)
    returns (s: nat, ran: seq<Event>)
    requires Going(g, stack, t, w) && w.k < |stack.frames| && w.depth < MAX_FRAMES && stack.frames[w.k].handler.Personality?
    requires stack.frames[w.k].establisher <= w.want.frame && NoRoutine(ran') && ran' != [] && ran'[|ran'| - 1].Entered? && ran'[|ran'| - 1].k == w.k
    requires (Balks(g, ran') <==> g.onEntered(ran') == Other)
    requires Requests(g, ran') == match g.onEntered(ran') {
               case Accepts(t', scope') => Requests(g, w.ran) + [Ask(w.k, scope', t')]
               case _ => Requests(g, w.ran)
             }
    ensures ran' <= ran
    ensures Concludes(g, stack, t, ran, s, match g.onEntered(ran') {
              case ContinueSearch => Onward(g, stack, w, ran')
              case Accepts(t', scope') => Again(g, stack, w, scope', t', ran')
              case Other => Fail(stack, w.(ran := ran'), InvalidDisposition)
            })
    decreases MAX_FRAMES - w.depth, 1
  {
    match g.onEntered(ran') {
      case ContinueSearch => s, ran := OnwardConcludes(g, stack, t, w, ran');
      case Accepts(t', scope') => s, ran := AgainConcludes(g, stack, t, w, scope', t', ran');
      case Other =>
        s, ran := w.k, ran';
        SameWanted(g, t, w.ran, ran');
        BalkConcludes(g, stack, Requests(g, w.ran), w, ran');
    }
  }

  lemma {:induction false} SameWanted(g: Guest, t: Target, a: seq<Event>, b: seq<Event>)
    requires Requests(g, a) == Requests(g, b)
    ensures Wanted(g, t, a) == Wanted(g, t, b)
  {
    LastRequest(g, a);
    LastRequest(g, b);
  }

  lemma {:induction false} BalkConcludes(g: Guest, stack: Stack, rs: seq<Ask>, w: Walk, ran: seq<Event>)
    requires stack.Valid() && GoesOn(stack, rs, w) && w.k < |stack.frames| && w.depth < MAX_FRAMES
    requires !stack.frames[w.k].handler.Foreign? && stack.frames[w.k].establisher <= w.want.frame
    requires Balks(g, ran) && ran[|ran| - 1].k == w.k
    ensures StandsIn(g, stack, rs, w.want, ran, w.k, Outcome(InvalidDisposition, stack.regs[w.k], ran, None))
  {
  }

  lemma {:induction false} ScopesConclude(g: Guest, stack: Stack, t: Target, w: Walk) returns (s: nat, ran: seq<Event>)
    requires Going(g, stack, t, w) && (w.ran != [] ==> !Balks(g, w.ran)) && w.k < |stack.frames| && w.depth < MAX_FRAMES
    requires stack.frames[w.k].establisher <= w.want.frame && stack.frames[w.k].handler.CSpecific?
    ensures w.ran <= ran && Concludes(g, stack, t, ran, s, UnwindFrom(g, stack, w))
    decreases MAX_FRAMES - w.depth, 1
  {
    var f := stack.frames[w.k];
    var target := f.establisher == w.want.frame;
    RequestsOfFrame(g, f, w.k, w.scope, target, w.want.ip, w.ran);
    ScopesOnlyRun(g, f, w.k, w.scope, target, w.want.ip, w.ran);
    match RunFinallys(g, f, w.k, w.scope, target, w.want.ip, w.ran) {
      case Through(ran') => s, ran := OnwardConcludes(g, stack, t, w, ran');
      case Collided(ran', scope', t') => s, ran := AgainConcludes(g, stack, t, w, scope', t', ran');
    }
  }

  lemma {:induction false} OnwardConcludes(g: Guest, stack: Stack, t: Target, w: Walk, ran': seq<Event>)
    returns (s: nat, ran: seq<Event>)
    requires Going(g, stack, t, w) && w.k < |stack.frames| && w.depth < MAX_FRAMES && !stack.frames[w.k].handler.Foreign?
    requires stack.frames[w.k].establisher <= w.want.frame && NoRoutine(ran') && !Balks(g, ran')
    requires Requests(g, ran') == Requests(g, w.ran)
    ensures ran' <= ran && Concludes(g, stack, t, ran, s, Onward(g, stack, w, ran'))
    decreases MAX_FRAMES - w.depth, 0
  {
    SameWanted(g, t, w.ran, ran');
    if stack.frames[w.k].establisher == w.want.frame {
      s, ran := w.k, ran';
      TargetConcludes(g, stack, Requests(g, ran'), w, ran');
    } else {
      GoesNext(stack, Requests(g, ran'), w, ran');
      s, ran := WalkConcludes(g, stack, t, Next(w, ran'));
    }
  }

  lemma {:induction false} TargetConcludes(g: Guest, stack: Stack, rs: seq<Ask>, w: Walk, ran: seq<Event>)
    requires stack.Valid() && GoesOn(stack, rs, w) && w.k < |stack.frames| && w.depth < MAX_FRAMES
    requires !stack.frames[w.k].handler.Foreign? && stack.frames[w.k].establisher == w.want.frame
    requires NoRoutine(ran) && !Balks(g, ran)
    ensures StandsIn(g, stack, rs, w.want, ran, w.k, Resume(g, w.want, stack.regs[w.k], ran))
  {
    ResumeResumed(g, w.want, stack.regs[w.k], ran);
  }

  lemma {:induction false} GoesNext(stack: Stack, rs: seq<Ask>, w: Walk, ran: seq<Event>)
    requires GoesOn(stack, rs, w) && w.k < |stack.frames| && w.depth < MAX_FRAMES
    requires !stack.frames[w.k].handler.Foreign? && stack.frames[w.k].establisher < w.want.frame
    ensures GoesOn(stack, rs, Next(w, ran))
  {
  }

  lemma {:induction false} AgainConcludes(g: Guest, stack: Stack, t: Target, w: Walk, scope': nat, t': Target, ran': seq<Event>)
    returns (s: nat, ran: seq<Event>)
    requires Going(g, stack, t, w) && w.k < |stack.frames| && w.depth < MAX_FRAMES && NoRoutine(ran') && !Balks(g, ran')
    requires Requests(g, ran') == Requests(g, w.ran) + [Ask(w.k, scope', t')]
    ensures ran' <= ran && Concludes(g, stack, t, ran, s, Again(g, stack, w, scope', t', ran'))
    decreases MAX_FRAMES - w.depth, 0
  {
    var rs := Requests(g, ran');
    assert rs[..|rs| - 1] == Requests(g, w.ran);
    LastRequest(g, ran');
    var f := stack.frames[w.k];
    if t'.frame < f.establisher || (f.establisher, scope') == w.again {
      s, ran := w.k, ran';
    } else {
      s, ran := WalkConcludes(g, stack, t, Adopt(f, w, scope', t', ran'));
    }
  }

  /**
    Whatever the guest does: an unwind stands, in the end, in the first frame
    from where its last request was made that is the target or cannot be passed,
    having spent one turn on each frame and one on each request.  There it
    resumes, or fails for the reason that frame is.  A request is adopted if it
    names the frame it comes from or one further out, unless it comes from the
    same frame and scope as the one before.
   */
  lemma {:induction false} EveryUnwindConcludes(g: Guest, stack: Stack, t: Target, before: seq<Event>)
    returns (s: nat, ran: seq<Event>)
    requires stack.Valid() && SearchOnly(before)
    ensures Concludes(g, stack, t, ran, s, Unwind(g, stack, t, before))
  {
    SearchOnlyAsksNothing(g, before);
    LastRequest(g, before);
    s, ran := WalkConcludes(g, stack, t, Walk(0, 0, t, 0, (0, 0), before));
  }

  // ----- when nobody starts another unwind -----

  lemma {:induction false} CalmRequestsNothing(g: Guest, ran: seq<Event>)
    requires Calm(g)
    ensures Requests(g, ran) == [] && !Balks(g, ran)
  {
    if ran != [] { CalmRequestsNothing(g, ran[..|ran| - 1]); }
  }

  /**
    With a guest that starts no unwind of its own, an unwind goes through if and
    only if its target frame is on the stack, within reach, and, if it is a
    consolidating one, its routine can be entered and answers an address.
   */
  lemma {:induction false} CalmUnwindSucceedsIff(g: Guest, stack: Stack, t: Target, before: seq<Event>) returns (ran: seq<Event>)
    requires stack.Valid() && Calm(g) && Rising(stack.frames) && SearchOnly(before)
    ensures var o := Unwind(g, stack, t, before);
            && (o.status == Success <==> CatchGoes(g, t, ran) && exists n: nat :: InReach(stack.frames, t, n))
            && (forall n: nat :: InReach(stack.frames, t, n) && o.status == Success ==> Resumed(g, t, stack.regs[n], o))
            && (o.ran == ran || (ran < o.ran && |o.ran| == |ran| + 1 && o.ran[|ran|].Routine?))
  {
    var s;
    s, ran := EveryUnwindConcludes(g, stack, t, before);
    CalmRequestsNothing(g, ran);
    LastRequest(g, ran);
    assert InReach(stack.frames, t, s) <==> Arrives(g, stack.frames, t, [], ran, s);
    forall n: nat | InReach(stack.frames, t, n) ensures n == s {}
  }

  // ----- when one funclet does -----

  /** A guest whose __finally of scope i of frame k starts an unwind to t', and which is calm otherwise. */
  ghost predicate CalmBut(g: Guest, k: nat, i: nat, t': Target) {
    && (forall ran :: g.onFinally(ran) == if ran != [] && ran[|ran| - 1] == Finally(k, i) then Unwinds(t') else Returned)
    && (forall ran :: g.onEntered(ran) == ContinueSearch)
  }

  /** An unwind to t comes to run that __finally. */
  ghost predicate Reaches(frames: seq<Frame>, t: Target, k: nat, i: nat) {
    && k < |frames| && k < MAX_FRAMES && Live(frames[k], i)
    && (forall j :: 0 <= j < k ==> frames[j].establisher < t.frame)
    && (forall j :: 0 <= j <= k ==> !frames[j].handler.Foreign?)
    && frames[k].establisher <= t.frame && (frames[k].establisher == t.frame ==> i < StopAt(frames[k], 0, t.ip))
  }

  lemma {:induction false} ComesToScope(g: Guest, f: Frame, k: nat, from: nat, i: nat, target: bool, ip: nat, ran: seq<Event>, t': Target)
    requires CalmBut(g, k, i, t') && from <= i && Live(f, i) && (target ==> i < StopAt(f, from, ip))
    ensures var r := RunFinallys(g, f, k, from, target, ip, ran);
            r.Collided? && r.scope == i + 1 && r.t == t'
    decreases i - from
  {
    if from < i {
      ComesToScope(g, f, k, from + 1, i, target, ip, ran, t');
      ComesToScope(g, f, k, from + 1, i, target, ip, ran + [Finally(k, from)], t');
    }
  }

  /** Nothing asked for in a frame inside frame k. */
  lemma {:induction false} PassedRequestsNothing(g: Guest, f: Frame, ip: nat, ran: seq<Event>, j: nat, k: nat)
    requires Quiet(g, k) && j < k && NoRoutine(ran) && Requests(g, ran) == []
    ensures var r := Passed(g, f, ip, ran, j); NoRoutine(r) && Requests(g, r) == []
  {
    if f.handler.CSpecific? {
      ScopesOnlyRun(g, f, j, 0, false, ip, ran);
      RequestsOfFrame(g, f, j, 0, false, ip, ran);
      QuietThrough(g, f, j, 0, ip, ran, k);
    } else {
      RequestsPush(g, ran, Entered(j, 0, false));
    }
  }

  /** From frame j on, nobody having asked for anything so far. */
  lemma {:induction false} ComesToFrame(g: Guest, stack: Stack, t: Target, k: nat, i: nat, t': Target, j: nat, ran: seq<Event>)
    returns (r: seq<Event>)
    requires stack.Valid() && CalmBut(g, k, i, t') && Quiet(g, k) && Reaches(stack.frames, t, k, i) && j <= k
    requires NoRoutine(ran) && Requests(g, ran) == []
    ensures NoRoutine(r) && Requests(g, r) == []
    ensures UnwindFrom(g, stack, Walk(j, 0, t, j, (0, 0), ran)) == UnwindFrom(g, stack, Walk(k, 0, t, k, (0, 0), r))
    decreases k - j
  {
    r := ran;
    if j < k {
      PassesOne(g, stack, t, ran, j, k);
      PassedRequestsNothing(g, stack.frames[j], t.ip, ran, j, k);
      r := ComesToFrame(g, stack, t, k, i, t', j + 1, Passed(g, stack.frames[j], t.ip, ran, j));
    }
  }

  lemma {:induction false} Collides(g: Guest, stack: Stack, t: Target, k: nat, i: nat, t': Target, ran: seq<Event>)
    returns (r: seq<Event>)
    requires stack.Valid() && CalmBut(g, k, i, t') && Reaches(stack.frames, t, k, i)
    requires NoRoutine(ran) && Requests(g, ran) == []
    ensures NoRoutine(r) && Requests(g, r) == [Ask(k, i + 1, t')] && !Balks(g, r)
    ensures var w := Walk(k, 0, t, k, (0, 0), ran); UnwindFrom(g, stack, w) == Again(g, stack, w, i + 1, t', r)
  {
    var f := stack.frames[k];
    var target := f.establisher == t.frame;
    ComesToScope(g, f, k, 0, i, target, t.ip, ran, t');
    r := RunFinallys(g, f, k, 0, target, t.ip, ran).ran;
    assert NoRoutine(r) && Requests(g, r) == [Ask(k, i + 1, t')] by {
      ScopesOnlyRun(g, f, k, 0, target, t.ip, ran);
      RequestsOfFrame(g, f, k, 0, target, t.ip, ran);
    }
  }

  lemma {:induction false} OrderedPush(a: seq<(nat, nat)>, x: (nat, nat))
    requires Ordered(a + [x])
    ensures Ordered(a) && x !in a
  {
    assert (a + [x])[|a|] == x;
    forall j | 0 <= j < |a| ensures a[j] != x { assert (a + [x])[j] == a[j]; }
    forall j, m | 0 <= j < m < |a| ensures Sooner(a[j], a[m]) { assert (a + [x])[j] == a[j] && (a + [x])[m] == a[m]; }
  }

  /** A __finally that runs once asks once. */
  lemma {:induction false} OneRequest(g: Guest, ran: seq<Event>, k: nat, i: nat, t': Target)
    requires CalmBut(g, k, i, t') && Ordered(Finallys(ran))
    ensures Requests(g, ran) == if (k, i) in Finallys(ran) then [Ask(k, i + 1, t')] else []
  {
    if ran != [] {
      var r, e := ran[..|ran| - 1], ran[|ran| - 1];
      assert ran == r + [e];
      FinallysPush(r, e);
      if e.Finally? { OrderedPush(Finallys(r), (e.k, e.i)); } else { assert Finallys(ran) == Finallys(r); }
      OneRequest(g, r, k, i, t');
      RequestsPush(g, r, e);
    }
  }

  lemma {:induction false} RequestsPrefix(g: Guest, a: seq<Event>, b: seq<Event>)
    requires a <= b
    ensures Requests(g, a) <= Requests(g, b)
    decreases |b|
  {
    if a != b { RequestsPrefix(g, a, b[..|b| - 1]); } else { assert a == b; }
  }

  /** Frame n is the frame of t', frame k or one further out, in reach with one more turn taken. */
  ghost predicate InReachFrom(frames: seq<Frame>, t': Target, k: nat, n: nat) {
    && k <= n < |frames| && frames[n].establisher == t'.frame && n + 1 < MAX_FRAMES
    && forall j :: 0 <= j <= n ==> !frames[j].handler.Foreign?
  }

  lemma {:induction false} CollisionConcludes(
      g: Guest, stack: Stack, t: Target, before: seq<Event>, k: nat, i: nat, t': Target) returns (s: nat, ran: seq<Event>)
    requires stack.Valid() && SearchOnly(before) && CalmBut(g, k, i, t') && Reaches(stack.frames, t, k, i)
    ensures Concludes(g, stack, t, ran, s, Unwind(g, stack, t, before)) && Requests(g, ran) == [Ask(k, i + 1, t')]
  {
    SearchOnlyAsksNothing(g, before);
    LastRequest(g, before);
    assert Quiet(g, k);
    var r := ComesToFrame(g, stack, t, k, i, t', 0, before);
    var w := Walk(k, 0, t, k, (0, 0), r);
    LastRequest(g, r);
    var r' := Collides(g, stack, t, k, i, t', r);
    s, ran := AgainConcludes(g, stack, t, w, i + 1, t', r');
    var _, _ := EachFinallyExactlyOnce(g, stack, t, before);
    AskedOnce(g, Unwind(g, stack, t, before).ran, k, i, t', r', ran);
  }

  /**
    A collision that an unwind comes to: the second unwind is adopted and goes
    through if and only if its frame is that of the __finally that started it or
    one further out, in reach with one more turn taken, and its routine, if it is
    a consolidating one, can be entered and answers an address.
   */
  lemma {:induction false} CollisionGoesThroughIff(
      g: Guest, stack: Stack, t: Target, before: seq<Event>, k: nat, i: nat, t': Target) returns (ran: seq<Event>)
    requires stack.Valid() && SearchOnly(before) && Rising(stack.frames)
    requires CalmBut(g, k, i, t') && Reaches(stack.frames, t, k, i)
    ensures var o := Unwind(g, stack, t, before);
            && (o.status == Success <==> CatchGoes(g, t', ran) && exists n: nat :: InReachFrom(stack.frames, t', k, n))
            && (forall n: nat :: InReachFrom(stack.frames, t', k, n) && o.status == Success ==> Resumed(g, t', stack.regs[n], o))
            && (o.ran == ran || (ran < o.ran && |o.ran| == |ran| + 1 && o.ran[|ran|].Routine?))
  {
    var s;
    s, ran := CollisionConcludes(g, stack, t, before, k, i, t');
    LastRequest(g, ran);
    ConcludesFrom(g, stack, t, t', k, i + 1, ran, s, Unwind(g, stack, t, before));
  }

  /** Whatever else is run, that __finally is not run again, so that it asks once. */
  lemma {:induction false} AskedOnce(g: Guest, o: seq<Event>, k: nat, i: nat, t': Target, r: seq<Event>, ran: seq<Event>)
    requires CalmBut(g, k, i, t') && Ordered(Finallys(o)) && r <= ran && Requests(g, r) != []
    requires o == ran || (ran < o && |o| == |ran| + 1 && o[|ran|].Routine?)
    ensures Requests(g, ran) == [Ask(k, i + 1, t')]
  {
    if o != ran {
      assert o == ran + [o[|ran|]];
      FinallysPush(ran, o[|ran|]);
      assert Finallys(o) == Finallys(ran);
    }
    OneRequest(g, ran, k, i, t');
    RequestsPrefix(g, r, ran);
  }

  lemma {:induction false} ConcludesFrom(
      g: Guest, stack: Stack, t: Target, t': Target, k: nat, scope: nat, ran: seq<Event>, s: nat, o: Outcome)
    requires stack.Valid() && Rising(stack.frames) && scope > 0 && k < |stack.frames|
    requires forall j :: 0 <= j <= k ==> !stack.frames[j].handler.Foreign?
    requires Requests(g, ran) == [Ask(k, scope, t')] && Wanted(g, t, ran) == t' && !Balks(g, ran)
    requires Concludes(g, stack, t, ran, s, o)
    ensures o.status == Success <==> CatchGoes(g, t', ran) && exists n: nat :: InReachFrom(stack.frames, t', k, n)
    ensures forall n: nat :: InReachFrom(stack.frames, t', k, n) && o.status == Success ==> Resumed(g, t', stack.regs[n], o)
  {
    assert InReachFrom(stack.frames, t', k, s) <==> Arrives(g, stack.frames, t', [Ask(k, scope, t')], ran, s);
    forall n: nat | InReachFrom(stack.frames, t', k, n) ensures n == s {}
  }
}
