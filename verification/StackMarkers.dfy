/**
  What a thread leaves behind when a native handler unwinds past the code that
  would have tidied up (dlls/ntdll/signal_ppc64.c): the mark of an unhandled
  report, the list of unwinds in progress, and the exception nesting depth.
  The stack grows downwards: a deeper frame has a lower address.
 */
module StackMarkers {

  const STACK_FLOOR: nat := 64 * 1024   // GUEST_EXC_STACK_FLOOR
  const MAX_DEPTH: nat := 8             // GUEST_SEH_MAX_DEPTH

  /** A native frame, by what it must undo when it returns in the ordinary way. */
  datatype Frame =
    | Plain(at: nat)
    | Report(at: nat, outer: nat)            // raise_pending_guest_exception: the mark it replaced
    | Unwind(at: nat, prev: seq<nat>)        // guest_unwind_to_target: the list it was put in front of
    | Dispatch(at: nat)                      // dispatch_guest_exception, past its depth check

  /**
    One thread: its native frames, outermost first; guest_exc_raising (0 for
    none); the addresses of the unwind records, head first; guest_seh_depth;
    whether the process was ended; whether a record was ever put at the address
    of one still listed, from when on `records` is not what the links say.
   */
  datatype Thread = Thread(frames: seq<Frame>, mark: nat, records: seq<nat>, depth: nat, ended: bool, looped: bool)

  datatype Event =
    | Call(at: nat)                  // any other native call
    | Raise(at: nat, limit: nat)     // an unhandled guest exception is re-raised, with this stack limit
    | Resume(k: nat)                 // a handler resumes the context that report k captured
    | Begin(at: nat)                 // guest_unwind_to_target: an unwind starts, in front of the list as it stands
    | Look(here: nat)                // guest_unwind_current
    | Enter(here: nat, at: nat)      // a guest exception is dispatched; guest_unwind_current is called first
    | Return                         // the innermost frame returns
    | Swallow(k: nat)                // a native handler unwinds to k frames, and nothing runs on the way

  /** guest_unwind_current: drop records until one is above this frame. */
  function Prune(records: seq<nat>, here: nat): seq<nat> {
    if records != [] && records[0] <= here then Prune(records[1..], here) else records
  }

  /** The loop that does it. */
  method Current(records: seq<nat>, here: nat) returns (kept: seq<nat>)
    ensures kept == Prune(records, here)
  {
    kept := records;
    while kept != [] && kept[0] <= here
      invariant Prune(kept, here) == Prune(records, here)
      decreases |kept|
    {
      kept := kept[1..];
    }
  }

  function Step(t: Thread, e: Event): Thread {
    if t.ended then t else
    match e
    case Call(at) => t.(frames := t.frames + [Plain(at)])
    case Raise(at, limit) =>
      if (t.mark != 0 && at < t.mark) || at < limit + STACK_FLOOR then t.(ended := true)
      else t.(frames := t.frames + [Report(at, t.mark)], mark := at)
    case Resume(k) =>
      if k < |t.frames| && t.frames[k].Report? then t.(frames := t.frames[..k], mark := t.frames[k].outer) else t
    case Begin(at) =>
      t.(frames := t.frames + [Unwind(at, t.records)], records := [at] + t.records, looped := t.looped || at in t.records)
    case Look(here) => t.(records := Prune(t.records, here))
    case Enter(here, at) =>
      var u := t.(records := Prune(t.records, here));
      if t.depth >= MAX_DEPTH then u else u.(frames := t.frames + [Dispatch(at)], depth := t.depth + 1)
    case Return =>
      if t.frames == [] then t
      else
        var n := |t.frames| - 1;
        var u := t.(frames := t.frames[..n]);
        (match t.frames[n]
         case Plain(_) => u
         case Report(_, _) => t    // never returns but by Resume
         case Unwind(_, prev) => u.(records := prev)
         case Dispatch(_) => u.(depth := if t.depth == 0 then 0 else t.depth - 1))
    case Swallow(k) => if k <= |t.frames| then t.(frames := t.frames[..k]) else t
  }

  /** Frames are pushed below the frames that are there. */
  ghost predicate Below(t: Thread, at: nat) { at > 0 && Under(t.frames, at) }

  ghost predicate Under(frames: seq<Frame>, at: nat) { forall i :: 0 <= i < |frames| ==> at < frames[i].at }

  ghost predicate Possible(t: Thread, e: Event) {
    match e
    case Call(at) => Below(t, at)
    case Raise(at, _) => Below(t, at)
    case Begin(at) => Below(t, at)
    case Look(here) => Below(t, here)
    case Enter(here, at) => Below(t, at) && 0 < here < at
    case _ => true
  }

  // ----- what every run keeps -----

  ghost predicate Descending(frames: seq<Frame>) {
    forall i, j :: 0 <= i < j < |frames| ==> frames[i].at > frames[j].at > 0
  }

  /** The mark is the address of the report that is running, if one is. */
  ghost predicate Marked(frames: seq<Frame>, mark: nat) {
    forall i :: 0 <= i < |frames| && frames[i].Report? ==> mark == frames[i].at
  }

  ghost predicate Distinct(records: seq<nat>) {
    forall i, j :: 0 <= i < j < |records| ==> records[i] != records[j]
  }

  predicate EndsIn(s: seq<nat>, tail: seq<nat>) { |tail| <= |s| && s[|s| - |tail|..] == tail }

  /** The list from an unwind's own record on. */
  function From(f: Frame): seq<nat>
    requires f.Unwind?
  {
    [f.at] + f.prev
  }

  /** Every unwind in progress is in the list, with the list it was put in front of behind it. */
  ghost predicate Listed(frames: seq<Frame>, records: seq<nat>) {
    && Distinct(records)
    && (forall i :: 0 <= i < |frames| && frames[i].Unwind? ==> EndsIn(records, From(frames[i])))
    && (forall i, j :: 0 <= i < j < |frames| && frames[i].Unwind? && frames[j].Unwind? ==>
          EndsIn(frames[j].prev, From(frames[i])))
  }

  function Dispatches(frames: seq<Frame>): nat {
    if frames == [] then 0
    else Dispatches(frames[..|frames| - 1]) + if frames[|frames| - 1].Dispatch? then 1 else 0
  }

  ghost predicate Inv(t: Thread) {
    && Descending(t.frames) && Marked(t.frames, t.mark) && (!t.looped ==> Listed(t.frames, t.records))
    && Dispatches(t.frames) <= t.depth <= MAX_DEPTH
  }

  /** Pruning cuts the list before its first record above this frame, and looks no further. */
  lemma {:induction false} PruneCuts(records: seq<nat>, here: nat) returns (d: nat)
    ensures d <= |records| && Prune(records, here) == records[d..]
    ensures forall m :: 0 <= m < d ==> records[m] <= here
    ensures d < |records| ==> records[d] > here
  {
    d := 0;
    if records != [] && records[0] <= here {
      var n := PruneCuts(records[1..], here);
      d := n + 1;
      forall m | 0 <= m < d ensures records[m] <= here {
        if m > 0 { assert records[m] == records[1..][m - 1]; }
      }
    }
  }

  lemma {:induction false} DispatchesOfPrefix(frames: seq<Frame>, k: nat)
    requires k <= |frames|
    ensures Dispatches(frames[..k]) <= Dispatches(frames)
    decreases |frames|
  {
    var n := |frames| - 1;
    if k <= n {
      assert frames[..n][..k] == frames[..k];
      DispatchesOfPrefix(frames[..n], k);
    } else {
      assert frames[..k] == frames;
    }
  }

  lemma {:induction false} DispatchesOfPush(frames: seq<Frame>, f: Frame)
    ensures Dispatches(frames + [f]) == Dispatches(frames) + if f.Dispatch? then 1 else 0
  {
  }

  lemma {:induction false} PushKeepsDescending(frames: seq<Frame>, f: Frame)
    requires Descending(frames) && f.at > 0 && Under(frames, f.at)
    ensures Descending(frames + [f])
  {
    var all := frames + [f];
    forall i, j | 0 <= i < j < |all| ensures all[i].at > all[j].at > 0 {
      if j < |frames| { assert frames[i].at > frames[j].at; }
    }
  }

  lemma {:induction false} StepKeepsDescending(t: Thread, e: Event)
    requires Descending(t.frames) && Possible(t, e)
    ensures Descending(Step(t, e).frames)
  {
    if !t.ended {
      match e
      case Call(at) => PushKeepsDescending(t.frames, Plain(at));
      case Raise(at, _) => PushKeepsDescending(t.frames, Report(at, t.mark));
      case Begin(at) => PushKeepsDescending(t.frames, Unwind(at, t.records));
      case Enter(_, at) => PushKeepsDescending(t.frames, Dispatch(at));
      case _ =>
    }
  }

  lemma {:induction false} PushKeepsMarked(frames: seq<Frame>, mark: nat, f: Frame)
    requires Marked(frames, mark) && !f.Report?
    ensures Marked(frames + [f], mark)
  {
    var all := frames + [f];
    forall i | 0 <= i < |all| && all[i].Report? ensures mark == all[i].at { assert i < |frames| && all[i] == frames[i]; }
  }

  /** No report is running below a mark that lets another one begin. */
  lemma {:induction false} RaiseKeepsMarked(frames: seq<Frame>, mark: nat, at: nat)
    requires Marked(frames, mark) && Under(frames, at) && !(mark != 0 && at < mark)
    ensures Marked(frames + [Report(at, mark)], at)
  {
    forall i | 0 <= i < |frames| ensures !frames[i].Report? { assert at < frames[i].at; }
  }

  lemma {:induction false} ResumeKeepsMarked(frames: seq<Frame>, mark: nat, k: nat, outer: nat)
    requires Descending(frames) && Marked(frames, mark) && k < |frames| && frames[k].Report?
    ensures Marked(frames[..k], outer)
  {
    forall i | 0 <= i < k ensures !frames[i].Report? { assert frames[i].at > frames[k].at; }
  }

  lemma {:induction false} StepKeepsMarked(t: Thread, e: Event)
    requires Descending(t.frames) && Marked(t.frames, t.mark) && Possible(t, e)
    ensures Marked(Step(t, e).frames, Step(t, e).mark)
  {
    if !t.ended {
      match e
      case Call(at) => PushKeepsMarked(t.frames, t.mark, Plain(at));
      case Raise(at, limit) =>
        if !((t.mark != 0 && at < t.mark) || at < limit + STACK_FLOOR) { RaiseKeepsMarked(t.frames, t.mark, at); }
      case Resume(k) => if k < |t.frames| && t.frames[k].Report? { ResumeKeepsMarked(t.frames, t.mark, k, t.frames[k].outer); }
      case Begin(at) => PushKeepsMarked(t.frames, t.mark, Unwind(at, t.records));
      case Enter(_, at) => PushKeepsMarked(t.frames, t.mark, Dispatch(at));
      case _ =>
    }
  }

  /** A frame that is no unwind's leaves the list of unwinds in progress alone. */
  lemma {:induction false} PushKeepsListed(frames: seq<Frame>, records: seq<nat>, f: Frame)
    requires Listed(frames, records) && !f.Unwind?
    ensures Listed(frames + [f], records)
  {
    var all := frames + [f];
    assert forall i :: 0 <= i < |all| && all[i].Unwind? ==> i < |frames| && all[i] == frames[i];
  }

  lemma {:induction false} CutKeepsListed(frames: seq<Frame>, records: seq<nat>, k: nat)
    requires Listed(frames, records) && k <= |frames|
    ensures Listed(frames[..k], records)
  {
  }

  /** Pruning keeps a record above this frame, and everything behind it. */
  lemma {:induction false} PruneKeeps(records: seq<nat>, here: nat, tail: seq<nat>)
    requires EndsIn(records, tail) && tail != [] && tail[0] > here
    ensures EndsIn(Prune(records, here), tail)
  {
    var d := PruneCuts(records, here);
    var at := |records| - |tail|;
    assert records[at] == records[at..][0] == tail[0];
    assert d <= at;
    assert records[d..][at - d..] == records[at..];
  }

  lemma {:induction false} LookKeepsListed(frames: seq<Frame>, records: seq<nat>, here: nat)
    requires Listed(frames, records) && Under(frames, here)
    ensures Listed(frames, Prune(records, here))
  {
    var d := PruneCuts(records, here);
    forall i | 0 <= i < |frames| && frames[i].Unwind? ensures EndsIn(Prune(records, here), From(frames[i])) {
      PruneKeeps(records, here, From(frames[i]));
    }
  }

  lemma {:induction false} EndsInPush(s: seq<nat>, tail: seq<nat>, at: nat)
    requires EndsIn(s, tail)
    ensures EndsIn([at] + s, tail)
  {
    assert ([at] + s)[|s| + 1 - |tail|..] == s[|s| - |tail|..];
  }

  lemma {:induction false} BeginKeepsListed(frames: seq<Frame>, records: seq<nat>, at: nat)
    requires Listed(frames, records) && at !in records
    ensures Listed(frames + [Unwind(at, records)], [at] + records)
  {
    var all := frames + [Unwind(at, records)];
    forall i | 0 <= i < |all| && all[i].Unwind? ensures EndsIn([at] + records, From(all[i])) {
      if i < |frames| { EndsInPush(records, From(frames[i]), at); }
    }
    forall i, j | 0 <= i < j < |all| && all[i].Unwind? && all[j].Unwind? ensures EndsIn(all[j].prev, From(all[i])) {
      assert all[i] == frames[i];
    }
  }

  lemma {:induction false} ReturnKeepsListed(frames: seq<Frame>, records: seq<nat>)
    requires Listed(frames, records) && frames != []
    ensures var n := |frames| - 1; Listed(frames[..n], if frames[n].Unwind? then frames[n].prev else records)
  {
    var f := frames[|frames| - 1];
    if f.Unwind? { assert f.prev == records[|records| - |From(f)|..][1..]; }
  }

  lemma {:induction false} StepKeepsListed(t: Thread, e: Event)
    requires Possible(t, e) && (!t.looped ==> Listed(t.frames, t.records)) && Descending(t.frames)
    ensures var u := Step(t, e); !u.looped ==> Listed(u.frames, u.records)
  {
    if !t.ended && !t.looped {
      match e
      case Call(at) => PushKeepsListed(t.frames, t.records, Plain(at));
      case Raise(at, _) => PushKeepsListed(t.frames, t.records, Report(at, t.mark));
      case Resume(k) => if k < |t.frames| { CutKeepsListed(t.frames, t.records, k); }
      case Begin(at) => if at !in t.records { BeginKeepsListed(t.frames, t.records, at); }
      case Look(here) => LookKeepsListed(t.frames, t.records, here);
      case Enter(here, at) =>
        LookKeepsListed(t.frames, t.records, here);
        PushKeepsListed(t.frames, Prune(t.records, here), Dispatch(at));
      case Return => if t.frames != [] { ReturnKeepsListed(t.frames, t.records); }
      case Swallow(k) => if k <= |t.frames| { CutKeepsListed(t.frames, t.records, k); }
    }
  }

  lemma {:induction false} StepKeepsDepth(t: Thread, e: Event)
    requires Dispatches(t.frames) <= t.depth <= MAX_DEPTH
    ensures var u := Step(t, e); Dispatches(u.frames) <= u.depth <= MAX_DEPTH
  {
    StepLosesBalance(t, e);
  }

  lemma {:induction false} StepKeepsInv(t: Thread, e: Event)
    requires Inv(t) && Possible(t, e)
    ensures Inv(Step(t, e))
  {
    StepKeepsDescending(t, e);
    StepKeepsMarked(t, e);
    StepKeepsListed(t, e);
    StepKeepsDepth(t, e);
  }

  function Run(t: Thread, events: seq<Event>): Thread
    decreases |events|
  {
    if events == [] then t else Run(Step(t, events[0]), events[1..])
  }

  ghost predicate PossibleRun(t: Thread, events: seq<Event>)
    decreases |events|
  {
    events != [] ==> Possible(t, events[0]) && PossibleRun(Step(t, events[0]), events[1..])
  }

  const NEW: Thread := Thread([], 0, [], 0, false, false)

  lemma {:induction false} RunKeepsInv(t: Thread, events: seq<Event>)
    requires Inv(t) && PossibleRun(t, events)
    ensures Inv(Run(t, events))
    decreases |events|
  {
    if events != [] {
      StepKeepsInv(t, events[0]);
      RunKeepsInv(Step(t, events[0]), events[1..]);
    }
  }

  // ----- the report's mark -----

  /** A report whose frame is still on the stack. */
  ghost predicate Reporting(t: Thread) { exists i :: 0 <= i < |t.frames| && t.frames[i].Report? }

  /** In every run of a thread there is never a second live report. */
  lemma {:induction false} NeverTwoReports(events: seq<Event>, i: nat, j: nat)
    requires PossibleRun(NEW, events)
    requires var t := Run(NEW, events); i < |t.frames| && j < |t.frames| && t.frames[i].Report? && t.frames[j].Report?
    ensures i == j
  {
    RunKeepsInv(NEW, events);
    var t := Run(NEW, events);
    assert t.frames[i].at == t.mark == t.frames[j].at;
  }

  /** The address of a report among the frames from k on, 0 if there is none. */
  function ReportIn(frames: seq<Frame>, k: nat): nat
    decreases |frames|
  {
    if |frames| <= k then 0
    else if frames[|frames| - 1].Report? then frames[|frames| - 1].at
    else ReportIn(frames[..|frames| - 1], k)
  }

  lemma {:induction false} ReportInFinds(frames: seq<Frame>, k: nat)
    requires Descending(frames) && forall i :: 0 <= i < |frames| ==> frames[i].at > 0
    ensures ReportIn(frames, k) != 0 <==> exists i :: k <= i < |frames| && frames[i].Report?
    ensures ReportIn(frames, k) != 0 ==> exists i :: k <= i < |frames| && frames[i].Report? && frames[i].at == ReportIn(frames, k)
    decreases |frames|
  {
    if |frames| > k {
      var n := |frames| - 1;
      if !frames[n].Report? {
        ReportInFinds(frames[..n], k);
        assert forall i :: k <= i < n ==> frames[i] == frames[..n][i];
      }
    }
  }

  /** The report that was last unwound past over a run, 0 if none has been; `last` is the one before the run. */
  function LastSwallowed(t: Thread, last: nat, events: seq<Event>): nat
    decreases |events|
  {
    if events == [] then last else LastSwallowed(Step(t, events[0]), SwallowedBy(t, last, events[0]), events[1..])
  }

  function SwallowedBy(t: Thread, last: nat, e: Event): nat {
    if !t.ended && e.Swallow? && e.k <= |t.frames| && ReportIn(t.frames, e.k) != 0 then ReportIn(t.frames, e.k) else last
  }

  /** The mark is the running report's, which put aside the last one swallowed; with none running, that one. */
  ghost predicate MarkIs(t: Thread, last: nat) {
    && (forall i :: 0 <= i < |t.frames| ==> t.frames[i].at > 0)
    && (forall i :: 0 <= i < |t.frames| && t.frames[i].Report? ==> t.frames[i].outer == last)
    && (!Reporting(t) ==> t.mark == last)
  }

  lemma {:induction false} CutMark(t: Thread, last: nat, k: nat)
    requires Inv(t) && MarkIs(t, last) && !t.ended && k <= |t.frames|
    ensures MarkIs(Step(t, Swallow(k)), SwallowedBy(t, last, Swallow(k)))
  {
    var u := Step(t, Swallow(k));
    ReportInFinds(t.frames, k);
    if ReportIn(t.frames, k) != 0 {
      var i :| k <= i < |t.frames| && t.frames[i].Report? && t.frames[i].at == ReportIn(t.frames, k);
      forall j | 0 <= j < k ensures !t.frames[j].Report? { assert t.frames[j].at > t.frames[i].at; }
    } else if Reporting(t) {
      var i :| 0 <= i < |t.frames| && t.frames[i].Report?;
      assert i < k && u.frames[i] == t.frames[i];
    }
  }

  lemma {:induction false} ResumeMark(t: Thread, last: nat, k: nat)
    requires Inv(t) && MarkIs(t, last) && !t.ended && k < |t.frames| && t.frames[k].Report?
    ensures MarkIs(Step(t, Resume(k)), last)
  {
    forall j | 0 <= j < k ensures !t.frames[j].Report? { assert t.frames[j].at > t.frames[k].at; }
  }

  lemma {:induction false} PushMark(t: Thread, u: Thread, last: nat, f: Frame)
    requires MarkIs(t, last) && f.at > 0 && u.frames == t.frames + [f]
    requires if f.Report? then f.outer == last else u.mark == t.mark
    ensures MarkIs(u, last)
  {
    if Reporting(t) {
      var i :| 0 <= i < |t.frames| && t.frames[i].Report?;
      assert u.frames[i] == t.frames[i];
    }
    assert u.frames[|t.frames|] == f;
  }

  lemma {:induction false} ReturnMark(t: Thread, last: nat)
    requires MarkIs(t, last)
    ensures MarkIs(Step(t, Return), last)
  {
    var u := Step(t, Return);
    if Reporting(t) && u.frames != t.frames {
      var i :| 0 <= i < |t.frames| && t.frames[i].Report?;
      assert u.frames[i] == t.frames[i];
    }
  }

  lemma {:induction false} StepKeepsMark(t: Thread, last: nat, e: Event)
    requires Inv(t) && MarkIs(t, last) && Possible(t, e)
    ensures MarkIs(Step(t, e), SwallowedBy(t, last, e))
  {
    if !t.ended {
      var u := Step(t, e);
      match e
      case Call(at) => PushMark(t, u, last, Plain(at));
      case Raise(at, _) =>
        if !u.ended {
          assert !Reporting(t);
          PushMark(t, u, last, Report(at, t.mark));
        }
      case Resume(k) => if k < |t.frames| && t.frames[k].Report? { ResumeMark(t, last, k); }
      case Begin(at) => PushMark(t, u, last, Unwind(at, t.records));
      case Look(_) =>
      case Enter(_, at) => if t.depth < MAX_DEPTH { PushMark(t, u, last, Dispatch(at)); }
      case Return => ReturnMark(t, last);
      case Swallow(k) => if k <= |t.frames| { CutMark(t, last, k); }
    }
  }

  lemma {:induction false} RunKeepsMark(t: Thread, last: nat, events: seq<Event>)
    requires Inv(t) && MarkIs(t, last) && PossibleRun(t, events)
    ensures MarkIs(Run(t, events), LastSwallowed(t, last, events))
    decreases |events|
  {
    if events != [] {
      StepKeepsInv(t, events[0]);
      StepKeepsMark(t, last, events[0]);
      RunKeepsMark(Step(t, events[0]), SwallowedBy(t, last, events[0]), events[1..]);
    }
  }

  /**
    After every run, a re-raise ends the process exactly when a report is
    running, when the report that was last swallowed had begun above this
    frame, or when less than 64 KiB of stack is left.
   */
  lemma {:induction false} RaiseRefusedIff(events: seq<Event>, at: nat, limit: nat)
    requires PossibleRun(NEW, events)
    requires var t := Run(NEW, events); !t.ended && Below(t, at)
    ensures var t := Run(NEW, events); var u := Step(t, Raise(at, limit));
            && (u.ended <==> Reporting(t) || LastSwallowed(NEW, 0, events) > at || at < limit + STACK_FLOOR)
            && (!u.ended ==> Reporting(u))
  {
    RunKeepsInv(NEW, events);
    RunKeepsMark(NEW, 0, events);
    var t := Run(NEW, events);
    if Reporting(t) {
      var i :| 0 <= i < |t.frames| && t.frames[i].Report?;
      assert t.mark == t.frames[i].at > at;
    }
    var u := Step(t, Raise(at, limit));
    assert !u.ended ==> u.frames[|t.frames|].Report?;
  }

  /**
    The mark alone does not tell a running report from one that is over: here a
    report is swallowed, the thread goes deeper than it was, and the next
    unhandled exception ends the process with no report running.
   */
  lemma {:induction false} StaleMarkEndsTheProcess()
    ensures var before := Run(NEW, [Call(2000000), Raise(1000000, 0), Swallow(1), Call(900000)]);
            var after := Step(before, Raise(800000, 0));
            PossibleRun(NEW, [Call(2000000), Raise(1000000, 0), Swallow(1), Call(900000), Raise(800000, 0)])
            && !before.ended && !Reporting(before) && after.ended
  {
  }

  // ----- a counter in the mark's place -----

  /** The same thread with a count of reports instead of the mark: up on a raise, down on a resume. */
  function CountStep(frames: seq<Frame>, count: nat, e: Event): (seq<Frame>, nat) {
    match e
    case Raise(at, _) => if count > 0 then (frames, count) else (frames + [Report(at, 0)], count + 1)
    case Resume(k) =>
      if k < |frames| && frames[k].Report? then (frames[..k], if count == 0 then 0 else count - 1) else (frames, count)
    case Swallow(k) => (if k <= |frames| then frames[..k] else frames, count)
    case Call(at) => (frames + [Plain(at)], count)
    case Return => (if frames != [] && frames[|frames| - 1].Plain? then frames[..|frames| - 1] else frames, count)
    case _ => (frames, count)
  }

  function CountRun(frames: seq<Frame>, count: nat, events: seq<Event>): (seq<Frame>, nat)
    decreases |events|
  {
    if events == [] then (frames, count)
    else
      var (f, c) := CountStep(frames, count, events[0]);
      CountRun(f, c, events[1..])
  }

  function Reports(frames: seq<Frame>): nat {
    if frames == [] then 0 else Reports(frames[..|frames| - 1]) + if frames[|frames| - 1].Report? then 1 else 0
  }

  lemma {:induction false} ReportsCut(frames: seq<Frame>, k: nat)
    requires k < |frames|
    ensures Reports(frames[..k]) + (if frames[k].Report? then 1 else 0) <= Reports(frames)
  {
    var n := |frames| - 1;
    if k < n {
      ReportsCut(frames[..n], k);
      assert frames[..n][..k] == frames[..k] && frames[..n][k] == frames[k];
    }
  }

  /**
    As long as nothing is unwound past, the counter is exact: it counts the
    reports that are running, and a raise is served exactly if there is none.
   */
  lemma {:induction false} CounterIsExactUnlessSwallowed(frames: seq<Frame>, count: nat, events: seq<Event>, at: nat, limit: nat)
    requires count == Reports(frames) <= 1 && forall k: nat :: Swallow(k) !in events
    ensures var (f, c) := CountRun(frames, count, events);
            c == Reports(f) <= 1 && (CountStep(f, c, Raise(at, limit)) == (f + [Report(at, 0)], c + 1) <==> Reports(f) == 0)
    decreases |events|
  {
    if events != [] {
      CountStepIsExact(frames, count, events[0]);
      var (f, c) := CountStep(frames, count, events[0]);
      CounterIsExactUnlessSwallowed(f, c, events[1..], at, limit);
    }
  }

  lemma {:induction false} CountStepIsExact(frames: seq<Frame>, count: nat, e: Event)
    requires count == Reports(frames) <= 1 && !e.Swallow?
    ensures var (f, c) := CountStep(frames, count, e); c == Reports(f) <= 1
  {
    match e
    case Raise(at, _) => assert (frames + [Report(at, 0)])[..|frames|] == frames;
    case Call(at) => assert (frames + [Plain(at)])[..|frames|] == frames;
    case Resume(k) => if k < |frames| { ReportsCut(frames, k); }
    case _ =>
  }

  /** Once a counted report is unwound past, no report is ever made again: every later raise is refused. */
  lemma {:induction false} CounterNeverRecovers(frames: seq<Frame>, count: nat, events: seq<Event>)
    requires count > 0 && forall i :: 0 <= i < |frames| ==> !frames[i].Report?
    ensures var (f, c) := CountRun(frames, count, events);
            c == count && forall i :: 0 <= i < |f| ==> !f[i].Report?
    decreases |events|
  {
    if events != [] {
      var (f, c) := CountStep(frames, count, events[0]);
      CounterNeverRecovers(f, c, events[1..]);
    }
  }

  // ----- the list of unwinds in progress -----

  ghost predicate Live(t: Thread, r: nat) { exists i :: 0 <= i < |t.frames| && t.frames[i].Unwind? && t.frames[i].at == r }

  /**
    guest_unwind_current, called below every frame of the thread, keeps every
    unwind in progress with all that is behind it in the list.  A record goes
    exactly if neither it nor any in front of it is above this frame: an
    abandoned one stays while the thread is deeper, and behind an unwind in
    progress however shallow the thread has become.
   */
  lemma {:induction false} CurrentKeepsTheLive(t: Thread, here: nat)
    requires Inv(t) && !t.looped && Below(t, here)
    ensures forall i :: 0 <= i < |t.frames| && t.frames[i].Unwind? ==> EndsIn(Prune(t.records, here), From(t.frames[i]))
    ensures forall j :: 0 <= j < |t.records| ==>
              (t.records[j] in Prune(t.records, here) <==> exists m :: 0 <= m <= j && t.records[m] > here)
  {
    LookKeepsListed(t.frames, t.records, here);
    var d := PruneCuts(t.records, here);
    forall j | 0 <= j < |t.records|
      ensures t.records[j] in Prune(t.records, here) <==> exists m :: 0 <= m <= j && t.records[m] > here
    {
      if j >= d {
        assert t.records[d..][j - d] == t.records[j];
        assert t.records[d] > here;
      }
    }
  }

  /**
    The thread is taken to be inside an unwind exactly when it is, or when it
    has come to stand deeper than the frame of one that was abandoned.
   */
  lemma {:induction false} InsideUnwindIff(t: Thread, here: nat)
    requires Inv(t) && !t.looped && Below(t, here)
    ensures Prune(t.records, here) != [] <==>
            (exists r :: Live(t, r)) || (exists r :: r in t.records && !Live(t, r) && r > here)
  {
    var d := PruneCuts(t.records, here);
    if d < |t.records| {
      var r := t.records[d];
      assert Live(t, r) || (r in t.records && !Live(t, r) && r > here);
    } else {
      assert forall r: nat :: r in t.records ==> r <= here;
      forall r | Live(t, r) ensures false { LiveIsListed(t, here, r); }
    }
  }

  lemma {:induction false} LiveIsListed(t: Thread, here: nat, r: nat)
    requires Inv(t) && !t.looped && Below(t, here) && Live(t, r)
    ensures Prune(t.records, here) != []
  {
    var i :| 0 <= i < |t.frames| && t.frames[i].Unwind? && t.frames[i].at == r;
    PruneKeeps(t.records, here, From(t.frames[i]));
  }

  /** A dispatch looks before it begins, so that the same holds of the list that it goes on with. */
  lemma {:induction false} DispatchInsideUnwindIff(t: Thread, here: nat, at: nat)
    requires Inv(t) && !t.looped && !t.ended && Below(t, here)
    ensures Step(t, Enter(here, at)).records != [] <==>
            (exists r :: Live(t, r)) || (exists r :: r in t.records && !Live(t, r) && r > here)
  {
    InsideUnwindIff(t, here);
  }

  /**
    The unwind it is taken to be inside is the innermost one in progress
    exactly if every unwind begun inside that one and abandoned was deeper.
   */
  lemma {:induction false} CurrentIsTheInnermostIff(t: Thread, here: nat, i: nat)
    requires Inv(t) && !t.looped && Below(t, here) && i < |t.frames| && t.frames[i].Unwind?
    ensures EndsIn(t.records, From(t.frames[i]))
    ensures var inside := |t.records| - |From(t.frames[i])|;
            Prune(t.records, here) == From(t.frames[i]) <==> forall m :: 0 <= m < inside ==> t.records[m] <= here
  {
    var d := PruneCuts(t.records, here);
    var inside := |t.records| - |From(t.frames[i])|;
    assert t.records[inside] == t.records[inside..][0] == t.frames[i].at > here;
    assert |t.records[d..]| == |t.records| - d;
  }

  ghost predicate Within(t: Thread, events: seq<Event>, n: nat)
    decreases |events|
  {
    |t.frames| > n && (events != [] ==> Within(Step(t, events[0]), events[1..], n))
  }

  lemma {:induction false} RunAbove(t: Thread, events: seq<Event>, n: nat)
    requires Within(t, events, n)
    ensures |Run(t, events).frames| > n && Run(t, events).frames[n] == t.frames[n]
    decreases |events|
  {
    if events != [] { RunAbove(Step(t, events[0]), events[1..], n); }
  }

  /**
    An unwind that returns leaves the list exactly as it found it, whatever was
    begun, abandoned and pruned inside it: no record behind it goes meanwhile.
   */
  lemma {:induction false} ReturnRestoresTheList(t: Thread, at: nat, events: seq<Event>)
    requires Inv(t) && !t.ended && !t.looped && at !in t.records && PossibleRun(t, [Begin(at)] + events)
    requires Within(Step(t, Begin(at)), events, |t.frames|)
    requires var u := Run(Step(t, Begin(at)), events); !u.ended && !u.looped && |u.frames| == |t.frames| + 1
    ensures var u := Run(Step(t, Begin(at)), events);
            EndsIn(u.records, [at] + t.records) && Step(u, Return).records == t.records
  {
    var all := [Begin(at)] + events;
    assert all[0] == Begin(at) && all[1..] == events;
    StepKeepsInv(t, Begin(at));
    var s := Step(t, Begin(at));
    RunKeepsInv(s, events);
    RunAbove(s, events, |t.frames|);
    var u := Run(s, events);
    assert u.frames[|t.frames|] == Unwind(at, t.records);
  }

  /**
    So a record is not always gone when the thread stands above it: here an
    abandoned one outlives a look from above, and is the head of the list again
    when the unwind in front of it returns.
   */
  lemma {:induction false} AbandonedRecordOutlivesALook()
    ensures var events := [Begin(1000000), Swallow(0), Begin(2500000), Look(1200000), Return];
            PossibleRun(NEW, events) && Run(NEW, events).records == [1000000] && Run(NEW, events).frames == []
  {
    var a, b, c, d, e := Begin(1000000), Swallow(0), Begin(2500000), Look(1200000), Return;
    RunFive(NEW, a, b, c, d, e);
    var t3 := Step(Step(Step(NEW, a), b), c);
    assert t3.records == [2500000, 1000000];
    assert Step(t3, d) == t3;
  }

  lemma {:induction false} RunFive(t: Thread, a: Event, b: Event, c: Event, d: Event, e: Event)
    ensures Run(t, [a, b, c, d, e]) == Step(Step(Step(Step(Step(t, a), b), c), d), e)
    ensures PossibleRun(t, [a, b, c, d, e]) <==>
            && Possible(t, a) && Possible(Step(t, a), b) && Possible(Step(Step(t, a), b), c)
            && Possible(Step(Step(Step(t, a), b), c), d) && Possible(Step(Step(Step(Step(t, a), b), c), d), e)
  {
    assert [a, b, c, d, e][1..] == [b, c, d, e] && [b, c, d, e][1..] == [c, d, e] && [c, d, e][1..] == [d, e];
    assert [d, e][1..] == [e] && [e][1..] == [];
    var t1, t2, t3 := Step(t, a), Step(Step(t, a), b), Step(Step(Step(t, a), b), c);
    var t4 := Step(t3, d);
    assert Run(t, [a, b, c, d, e]) == Run(t1, [b, c, d, e]) == Run(t2, [c, d, e]) == Run(t3, [d, e]) == Run(t4, [e]) == Run(Step(t4, e), []);
    assert PossibleRun(t4, [e]) <==> Possible(t4, e) && PossibleRun(Step(t4, e), []);
    assert PossibleRun(t3, [d, e]) <==> Possible(t3, d) && PossibleRun(t4, [e]);
    assert PossibleRun(t2, [c, d, e]) <==> Possible(t2, c) && PossibleRun(t3, [d, e]);
    assert PossibleRun(t1, [b, c, d, e]) <==> Possible(t1, b) && PossibleRun(t2, [c, d, e]);
  }

  // ----- the list as it is linked -----

  /** Following the links from `head` visits these records and ends. */
  ghost predicate Chain(link: nat -> nat, head: nat, records: seq<nat>)
    decreases |records|
  {
    if records == [] then head == 0 else head == records[0] != 0 && Chain(link, link(head), records[1..])
  }

  function Relink(link: nat -> nat, at: nat, to: nat): nat -> nat { (a: nat) => if a == at then to else link(a) }

  lemma {:induction false} ChainElsewhere(link: nat -> nat, head: nat, records: seq<nat>, at: nat, to: nat)
    requires Chain(link, head, records) && at !in records
    ensures Chain(Relink(link, at, to), head, records)
    decreases |records|
  {
    if records != [] { ChainElsewhere(link, link(head), records[1..], at, to); }
  }

  /** A chain that comes by `at` goes on from there. */
  lemma {:induction false} ChainFrom(link: nat -> nat, head: nat, records: seq<nat>, at: nat, to: nat, rest: seq<nat>)
    requires Chain(link, head, records) && at in records && Chain(Relink(link, at, to), head, rest)
    ensures exists n: nat :: n <= |rest| && Chain(Relink(link, at, to), at, rest[n..])
    decreases |records|
  {
    if head == at {
      assert rest[0..] == rest;
    } else {
      assert records == [head] + records[1..];
      ChainFrom(link, link(head), records[1..], at, to, rest[1..]);
      var n: nat :| n <= |rest[1..]| && Chain(Relink(link, at, to), at, rest[1..][n..]);
      assert rest[1..][n..] == rest[n + 1..];
    }
  }

  lemma {:induction false} NoChain(link: nat -> nat, head: nat, records: seq<nat>, at: nat, rest: seq<nat>)
    requires Chain(link, head, records) && at in records && at != 0
    ensures !Chain(Relink(link, at, head), at, rest)
    decreases |rest|
  {
    if Chain(Relink(link, at, head), at, rest) {
      ChainFrom(link, head, records, at, head, rest[1..]);
      var n: nat :| n <= |rest[1..]| && Chain(Relink(link, at, head), at, rest[1..][n..]);
      NoChain(link, head, records, at, rest[1..][n..]);
    }
  }

  ghost predicate Ends(link: nat -> nat, head: nat) { exists records: seq<nat> :: Chain(link, head, records) }

  /**
    A record is linked in at the head with its own memory: the list still ends
    exactly if the address is not that of a record still in it.  Otherwise
    following it comes round to the new record again and again.
   */
  lemma {:induction false} ListEndsIff(link: nat -> nat, head: nat, records: seq<nat>, at: nat)
    requires Chain(link, head, records) && at != 0
    ensures Ends(Relink(link, at, head), at) <==> at !in records
    ensures at !in records ==> Chain(Relink(link, at, head), at, [at] + records)
  {
    if at !in records {
      ChainElsewhere(link, head, records, at, head);
      var all: seq<nat> := [at] + records;
      assert all[1..] == records;
      assert Chain(Relink(link, at, head), at, all);
    } else {
      forall rest: seq<nat> ensures !Chain(Relink(link, at, head), at, rest) { NoChain(link, head, records, at, rest); }
    }
  }

  /**
    When an unwind's record does meet an old one: never that of an unwind in
    progress, and, if the list was pruned on the way, only one that an unwind
    in progress or an abandoned deeper one has kept in the list.
   */
  lemma {:induction false} NoRecordLinksToItself(t: Thread, here: nat, at: nat)
    requires Inv(t) && !t.ended && !t.looped && Below(t, here) && 0 < at < here
    ensures var s := Step(t, Look(here));
            && (Step(s, Begin(at)).looped <==> at in s.records)
            && (at in s.records ==> !Live(t, at) && s.records[0] > here)
  {
    var d := PruneCuts(t.records, here);
    var s := Step(t, Look(here));
    if at in s.records {
      assert s.records[0] == t.records[d];
    }
  }

  /** Abandoned in one place and begun again in the same one, with no look between: the record is its own successor. */
  lemma {:induction false} RecordMeetsItself()
    ensures var events := [Enter(2900000, 3000000), Call(2000000), Begin(1000000), Swallow(2), Begin(1000000)];
            PossibleRun(NEW, events) && Run(NEW, events).looped
  {
    var a, b, c, d, e := Enter(2900000, 3000000), Call(2000000), Begin(1000000), Swallow(2), Begin(1000000);
    RunFive(NEW, a, b, c, d, e);
  }

  // ----- the nesting depth -----

  /** Dispatches that were unwound past, over a run. */
  function Abandoned(t: Thread, events: seq<Event>): nat
    decreases |events|
  {
    if events == [] then 0
    else
      var u := Step(t, events[0]);
      Lost(t, events[0]) + Abandoned(u, events[1..])
  }

  /** The dispatches one event unwinds past. */
  function Lost(t: Thread, e: Event): nat {
    if t.ended then 0
    else if e.Resume? && e.k < |t.frames| && t.frames[e.k].Report? then Difference(t.frames, e.k)
    else if e.Swallow? && e.k <= |t.frames| then Difference(t.frames, e.k)
    else 0
  }

  function Difference(frames: seq<Frame>, k: nat): nat
    requires k <= |frames|
  {
    DispatchesOfPrefix(frames, k);
    Dispatches(frames) - Dispatches(frames[..k])
  }

  ghost predicate Balanced(t: Thread, u: Thread, lost: nat) {
    Dispatches(u.frames) <= u.depth && u.depth - Dispatches(u.frames) == t.depth - Dispatches(t.frames) + lost
  }

  lemma {:induction false} PushBalances(t: Thread, u: Thread, f: Frame)
    requires Dispatches(t.frames) <= t.depth && u.frames == t.frames + [f] && u.depth == t.depth + if f.Dispatch? then 1 else 0
    ensures Balanced(t, u, 0)
  {
    DispatchesOfPush(t.frames, f);
  }

  lemma {:induction false} CutBalances(t: Thread, u: Thread, k: nat)
    requires Dispatches(t.frames) <= t.depth && k <= |t.frames| && u.frames == t.frames[..k] && u.depth == t.depth
    ensures Balanced(t, u, Difference(t.frames, k))
  {
    DispatchesOfPrefix(t.frames, k);
  }

  lemma {:induction false} ReturnBalances(t: Thread)
    requires Dispatches(t.frames) <= t.depth
    ensures Balanced(t, Step(t, Return), 0)
  {
    if t.frames != [] {
      var n := |t.frames| - 1;
      assert t.frames == t.frames[..n] + [t.frames[n]];
      DispatchesOfPush(t.frames[..n], t.frames[n]);
    }
  }

  lemma {:induction false} StepLosesBalance(t: Thread, e: Event)
    requires Dispatches(t.frames) <= t.depth
    ensures Balanced(t, Step(t, e), Lost(t, e))
  {
    var u := Step(t, e);
    if u.frames != t.frames || u.depth != t.depth {
      match e
      case Call(at) => PushBalances(t, u, Plain(at));
      case Raise(at, _) => PushBalances(t, u, Report(at, t.mark));
      case Resume(k) => CutBalances(t, u, k);
      case Begin(at) => PushBalances(t, u, Unwind(at, t.records));
      case Enter(_, at) => PushBalances(t, u, Dispatch(at));
      case Return => ReturnBalances(t);
      case Swallow(k) => CutBalances(t, u, k);
    }
  }

  /**
    The nesting depth is a counter, and loses its balance as one: over every
    run it exceeds the dispatches in progress by exactly those unwound past.
   */
  lemma {:induction false} DepthCountsTheAbandoned(t: Thread, events: seq<Event>)
    requires Dispatches(t.frames) <= t.depth
    ensures var u := Run(t, events);
            Dispatches(u.frames) <= u.depth
            && u.depth == Dispatches(u.frames) + (t.depth - Dispatches(t.frames)) + Abandoned(t, events)
    decreases |events|
  {
    if events != [] {
      StepLosesBalance(t, events[0]);
      DepthCountsTheAbandoned(Step(t, events[0]), events[1..]);
    }
  }

  /** A guest exception is refused as nested too deep exactly when those in progress and those abandoned make eight. */
  lemma {:induction false} DispatchRefusedIff(events: seq<Event>, here: nat, at: nat)
    requires PossibleRun(NEW, events)
    ensures var t := Run(NEW, events);
            !t.ended ==>
              (Step(t, Enter(here, at)).frames == t.frames <==> Dispatches(t.frames) + Abandoned(NEW, events) == MAX_DEPTH)
  {
    RunKeepsInv(NEW, events);
    DepthCountsTheAbandoned(NEW, events);
  }

  /** Dispatch, swallow, eight times over: from then on the thread has no exception in progress and serves none. */
  function EnterAndSwallow(n: nat): seq<Event> {
    if n == 0 then [] else [Enter(900, 1000), Swallow(0)] + EnterAndSwallow(n - 1)
  }

  lemma {:induction false} SwallowedDispatchesAddUp(t: Thread, n: nat)
    requires t.frames == [] && t.records == [] && !t.ended && !t.looped && t.depth + n <= MAX_DEPTH
    ensures Run(t, EnterAndSwallow(n)) == t.(depth := t.depth + n)
    ensures PossibleRun(t, EnterAndSwallow(n))
    decreases n
  {
    if n > 0 {
      var es := EnterAndSwallow(n);
      var a, b := Step(t, Enter(900, 1000)), Step(Step(t, Enter(900, 1000)), Swallow(0));
      assert es[0] == Enter(900, 1000) && es[1..][0] == Swallow(0) && es[1..][1..] == EnterAndSwallow(n - 1);
      assert b == t.(depth := t.depth + 1);
      SwallowedDispatchesAddUp(b, n - 1);
      assert Run(t, es) == Run(a, es[1..]) == Run(b, es[1..][1..]);
    }
  }

  lemma {:induction false} EightSwallowedDispatchesEndDispatching(here: nat, at: nat)
    ensures var t := Run(NEW, EnterAndSwallow(8));
            PossibleRun(NEW, EnterAndSwallow(8)) && t.frames == [] && !t.ended && !t.looped && Step(t, Enter(here, at)) == t
  {
    SwallowedDispatchesAddUp(NEW, 8);
  }
}
