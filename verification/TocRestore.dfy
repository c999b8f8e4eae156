/**
  r2, the TOC pointer, across unwound frames (libs/unwind/src/DwarfInstructions.hpp):
  call-frame information has no rule for it, so an unwind step decides from one
  instruction whether to reload it.  Each module has a TOC of its own; section
  2.2.1 of the OpenPOWER 64-Bit ELF V2 ABI has a caller that may lose its TOC
  save it at 24(r1) and reload it right after the call.
 */
module TocRestore {

  const LOAD_R2_ELFV1: nat := 0xe841_0028   // ld r2,40(r1)
  const LOAD_R2_ELFV2: nat := 0xe841_0018   // ld r2,24(r1)

  const LR: nat := 65   // the return-address register of the call-frame information

  datatype Regs = Regs(sp: nat, ip: nat, r2: nat, others: nat -> nat)

  /** Where the prologue of a function left one of its caller's registers, if it saved it. */
  datatype Saved = Unused | AtCfa(offset: int)

  /** What the call-frame information says of a pc: the CFA's distance from the stack pointer, and each saved register. */
  datatype Prolog = Prolog(cfaOffset: nat, saved: seq<Saved>)

  /** Memory by doublewords, code by instruction words. */
  datatype Space = Space(get64: int -> nat, get32: nat -> nat)

  /** Register i of the caller, the return-address register and r2 apart. */
  function CallerRegister(p: Prolog, s: Space, others: nat -> nat, cfa: nat, i: nat): nat {
    if i < |p.saved| && i != LR && p.saved[i].AtCfa? then s.get64(cfa + p.saved[i].offset) else others(i)
  }

  /** The loop over the saved registers; the return address is set aside. */
  method RestoreSaved(p: Prolog, s: Space, others: nat -> nat, cfa: nat) returns (restored: nat -> nat, ra: nat)
    ensures forall i: nat :: restored(i) == CallerRegister(p, s, others, cfa, i)
    ensures ra == ReturnAddress(p, s, cfa)
  {
    restored, ra := others, 0;
    var i := 0;
    while i < |p.saved|
      invariant 0 <= i <= |p.saved|
      invariant forall j: nat :: restored(j) == if j < i then CallerRegister(p, s, others, cfa, j) else others(j)
      invariant ra == if i > LR then ReturnAddress(p, s, cfa) else 0
    {
      if p.saved[i].AtCfa? {
        var v := s.get64(cfa + p.saved[i].offset);
        if i == LR {
          ra := v;
        } else {
          var before, at := restored, i;
          restored := (j: nat) => if j == at then v else before(j);
        }
      }
      i := i + 1;
    }
  }

  function ReturnAddress(p: Prolog, s: Space, cfa: nat): nat {
    if LR < |p.saved| && p.saved[LR].AtCfa? then s.get64(cfa + p.saved[LR].offset) else 0
  }

  /** r2 of the frame that resumes at `resume` with stack pointer sp, r2 being the register's value so far. */
  function RestoredR2(s: Space, resume: nat, sp: nat, r2: nat): nat {
    if resume == 0 then r2
    else
      var word := s.get32(resume);
      var loaded := if word == LOAD_R2_ELFV1 then s.get64(sp + 40) else if word == LOAD_R2_ELFV2 then s.get64(sp + 24) else 0;
      if loaded != 0 then loaded else r2
  }

  /** stepWithDwarf */
  function StepWithDwarf(p: Prolog, s: Space, r: Regs): Regs {
    var cfa := r.sp + p.cfaOffset;
    var ra := ReturnAddress(p, s, cfa);
    Regs(cfa, ra, RestoredR2(s, ra, cfa, r.r2), (i: nat) => CallerRegister(p, s, r.others, cfa, i))
  }

  // ----- a stack of calls -----

  /** An active call, as it will resume: its stack pointer, its resume address, and the TOC of the module it is in. */
  datatype Frame = Frame(sp: nat, resume: nat, toc: nat)

  /**
    The rule of either ABI between a frame and the one it called: where the
    resume address holds a reload, the frame's TOC is in the slot that it names;
    where it does not, caller and callee share a TOC.
   */
  ghost predicate Linked(s: Space, caller: Frame, callee: Frame) {
    && caller.resume != 0 && caller.toc != 0
    && if s.get32(caller.resume) == LOAD_R2_ELFV1 then s.get64(caller.sp + 40) == caller.toc
       else if s.get32(caller.resume) == LOAD_R2_ELFV2 then s.get64(caller.sp + 24) == caller.toc
       else caller.toc == callee.toc
  }

  /** No frame resumes at the older ABI's reload. */
  ghost predicate ElfV2(s: Space, frames: seq<Frame>) {
    forall i :: 0 <= i < |frames| ==> s.get32(frames[i].resume) != LOAD_R2_ELFV1
  }

  /** Innermost first. */
  ghost predicate Stack(s: Space, frames: seq<Frame>) {
    forall i :: 0 <= i < |frames| - 1 ==> Linked(s, frames[i + 1], frames[i])
  }

  /** The call-frame information is right: it leads from each frame to its caller's stack pointer and resume address. */
  ghost predicate Informed(s: Space, frames: seq<Frame>, info: nat -> Prolog) {
    forall i :: 0 <= i < |frames| - 1 ==>
      var p := info(frames[i].resume);
      frames[i].sp + p.cfaOffset == frames[i + 1].sp && ReturnAddress(p, s, frames[i + 1].sp) == frames[i + 1].resume
  }

  ghost predicate At(r: Regs, f: Frame) { r.sp == f.sp && r.ip == f.resume && r.r2 == f.toc }

  function Unwind(s: Space, info: nat -> Prolog, r: Regs, steps: nat): Regs {
    if steps == 0 then r
    else
      var q := Unwind(s, info, r, steps - 1);
      StepWithDwarf(info(q.ip), s, q)
  }

  /** After any number of steps r2 is the TOC of the module whose frame was reached. */
  lemma {:induction false} R2FollowsTheFrames(s: Space, info: nat -> Prolog, frames: seq<Frame>, r: Regs, steps: nat)
    requires Stack(s, frames) && Informed(s, frames, info) && steps < |frames| && At(r, frames[0])
    ensures At(Unwind(s, info, r, steps), frames[steps])
  {
    if steps > 0 {
      R2FollowsTheFrames(s, info, frames, r, steps - 1);
      var i := steps - 1;
      assert Linked(s, frames[i + 1], frames[i]);
    }
  }

  /** A callee leaves its caller's register x in the slot that its call-frame information names, or in the register. */
  ghost predicate Keeps(s: Space, p: Prolog, cfa: nat, x: nat, callee: nat, caller: nat) {
    match if x < |p.saved| && x != LR then p.saved[x] else Unused
    case AtCfa(offset) => s.get64(cfa + offset) == caller
    case Unused => callee == caller
  }

  /** And so does every register that the callees keep, values[i] being what frame i has in it. */
  lemma {:induction false} RegistersFollowTheFrames(
      s: Space, info: nat -> Prolog, frames: seq<Frame>, r: Regs, x: nat, values: seq<nat>, steps: nat)
    requires Stack(s, frames) && Informed(s, frames, info) && steps < |frames| == |values| && At(r, frames[0])
    requires r.others(x) == values[0]
    requires forall i :: 0 <= i < |frames| - 1 ==> Keeps(s, info(frames[i].resume), frames[i + 1].sp, x, values[i], values[i + 1])
    ensures Unwind(s, info, r, steps).others(x) == values[steps]
  {
    if steps > 0 {
      var i := steps - 1;
      R2FollowsTheFrames(s, info, frames, r, i);
      RegistersFollowTheFrames(s, info, frames, r, x, values, i);
      assert Keeps(s, info(frames[i].resume), frames[i + 1].sp, x, values[i], values[i + 1]);
    }
  }

  /** A function whose return address was not saved ends the walk: it leads to address 0, and r2 stays. */
  lemma {:induction false} UnsavedReturnEndsTheWalk(p: Prolog, s: Space, r: Regs)
    requires LR < |p.saved| ==> p.saved[LR].Unused?
    ensures StepWithDwarf(p, s, r).ip == 0 && StepWithDwarf(p, s, r).r2 == r.r2
  {
  }

  /** One step is right about r2 exactly under the ABI's rule, for a caller whose frame it reaches. */
  lemma {:induction false} StepIsRightIff(s: Space, caller: Frame, callee: Frame)
    requires caller.resume != 0 && caller.toc != 0
    ensures RestoredR2(s, caller.resume, caller.sp, callee.toc) == caller.toc <==>
            || Linked(s, caller, callee)
            || (s.get32(caller.resume) == LOAD_R2_ELFV1 && s.get64(caller.sp + 40) == 0 && caller.toc == callee.toc)
            || (s.get32(caller.resume) == LOAD_R2_ELFV2 && s.get64(caller.sp + 24) == 0 && caller.toc == callee.toc)
  {
  }

  /** The marker read through the pc of the frame being left, instead of its caller's resume address. */
  function RestoredByPc(s: Space, pc: nat, sp: nat, r2: nat): nat { RestoredR2(s, pc, sp, r2) }

  function UnwindByPc(s: Space, info: nat -> Prolog, r: Regs, steps: nat): Regs {
    if steps == 0 then r
    else
      var q := UnwindByPc(s, info, r, steps - 1);
      var n := StepWithDwarf(info(q.ip), s, q);
      n.(r2 := RestoredByPc(s, q.ip, n.sp, q.r2))
  }

  predicate Reloads(s: Space, f: Frame) { s.get32(f.resume) == LOAD_R2_ELFV2 }

  /**
    The marker of frame i used for frame i + 1 does no harm: both have one or
    neither has; or the caller never wrote its save slot, or wrote its TOC
    there without reloading it; or the caller reloads what it would keep anyway.
   */
  ghost predicate Harmless(s: Space, caller: Frame, callee: Frame) {
    || Reloads(s, callee) == Reloads(s, caller)
    || (Reloads(s, callee) && s.get64(caller.sp + 24) in {0, caller.toc})
    || (Reloads(s, caller) && caller.toc == callee.toc)
  }

  /**
    Read through the pc, the marker comes one frame late: over a whole stack
    that keeps the ABI's rule, r2 is right at every frame exactly if no two
    neighbours differ in their marker where it matters.
   */
  lemma {:induction false} ByPcFollowsTheFramesIff(s: Space, info: nat -> Prolog, frames: seq<Frame>, r: Regs, steps: nat)
    requires Stack(s, frames) && Informed(s, frames, info) && steps < |frames| && At(r, frames[0])
    requires frames[0].resume != 0 && ElfV2(s, frames)
    ensures (forall j :: 0 <= j <= steps ==> At(UnwindByPc(s, info, r, j), frames[j])) <==>
            forall i :: 0 <= i < steps ==> Harmless(s, frames[i + 1], frames[i])
  {
    if steps > 0 {
      var i := steps - 1;
      ByPcFollowsTheFramesIff(s, info, frames, r, i);
      var q := UnwindByPc(s, info, r, i);
      if At(q, frames[i]) {
        OneStepByPc(s, info, frames, q, i);
        assert At(UnwindByPc(s, info, r, steps), frames[steps]) <==> Harmless(s, frames[i + 1], frames[i]);
      }
    }
  }

  lemma {:induction false} OneStepByPc(s: Space, info: nat -> Prolog, frames: seq<Frame>, q: Regs, i: nat)
    requires Stack(s, frames) && Informed(s, frames, info) && i + 1 < |frames| && At(q, frames[i])
    requires frames[0].resume != 0 && ElfV2(s, frames)
    ensures var n := StepWithDwarf(info(q.ip), s, q);
            At(n.(r2 := RestoredByPc(s, q.ip, n.sp, q.r2)), frames[i + 1]) <==> Harmless(s, frames[i + 1], frames[i])
  {
    assert Linked(s, frames[i + 1], frames[i]);
    if i > 0 { assert Linked(s, frames[i - 1 + 1], frames[i - 1]); }
  }

  /** A stack on which it goes wrong: the callee resumes at a reload, its caller's save slot was never written. */
  lemma {:induction false} ByPcLoadsGarbage()
    ensures exists s: Space, caller: Frame, callee: Frame ::
              && Linked(s, caller, callee)
              && RestoredR2(s, caller.resume, caller.sp, callee.toc) == caller.toc
              && RestoredByPc(s, callee.resume, caller.sp, callee.toc) != caller.toc
  {
    var s := Space(a => 0xdead, a => if a == 8 then LOAD_R2_ELFV2 else 0x6000_0000);
    var caller, callee := Frame(1000, 4, 77), Frame(900, 8, 77);
    assert Linked(s, caller, callee);
    assert RestoredR2(s, caller.resume, caller.sp, callee.toc) == caller.toc;
    assert RestoredByPc(s, callee.resume, caller.sp, callee.toc) == 0xdead;
  }
}
