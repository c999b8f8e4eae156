/**
  The assembly that makes a floating-point native call (call_native_thunk_fp in
  dlls/ntdll/signal_ppc64.c), executed, and what the whole path from guest
  argument to native parameter delivers.
 */
module NativeCall {
  import opened Ppc
  import opened Marshal

  // ----- call_native_thunk_fp( proc in r3, gpr[] in r4, fpr[] in r5, fp_ret in r6 ) -----

  /** mflr, std of LR in the caller's frame, stdu of a new one. */
  function MakeFrame(m: Machine): Machine { Exec(Exec(Exec(m, Mflr(0)), Std(0, 16, 1)), Stdu(1, -176, 1)) }

  /** r2 and fp_ret above the parameter save area, the function's entry in CTR and r12. */
  function SaveAndMove(m: Machine): Machine {
    Exec(Exec(Exec(Exec(m, Std(2, 160, 1)), Std(6, 168, 1)), Mtctr(3)), Mr(12, 3))
  }

  /** The first k of the eight FPR loads. */
  function Lfds(m: Machine, k: nat): Machine {
    if k == 0 then m else Exec(Lfds(m, k - 1), Lfd(k, 8 * (k - 1), 5))
  }

  /** The first k of the eight doublewords copied, through r0, to the parameter save area. */
  function Spills(m: Machine, k: nat): Machine {
    if k == 0 then m else Exec(Exec(Spills(m, k - 1), Ld(0, 56 + 8 * k, 4)), Std(0, 88 + 8 * k, 1))
  }

  /** The first k of the six GPR loads from r10 down to r5. */
  function Lds(m: Machine, k: nat): Machine
    requires k <= 6
  {
    if k == 0 then m else Exec(Lds(m, k - 1), Ld(11 - k, 64 - 8 * k, 4))
  }

  /** All eight: r3 after those six, and r4 last because it is the base. */
  function Loads(m: Machine): Machine { Exec(Exec(Lds(m, 6), Ld(3, 0, 4)), Ld(4, 8, 4)) }

  /** The machine at the branch to the native function. */
  function AtCall(m: Machine): Machine { Loads(Spills(Lfds(SaveAndMove(MakeFrame(m)), 8), 8)) }

  /** r2 and fp_ret come back, and f1 goes where fp_ret points. */
  function StoreResult(m: Machine): Machine { Exec(Exec(Exec(m, Ld(2, 160, 1)), Ld(11, 168, 1)), Stfd(1, 0, 11)) }

  function PopFrame(m: Machine): Machine { Exec(Exec(Exec(m, Addi(1, 1, 176)), Ld(0, 16, 1)), Mtlr(0)) }

  /** From the branch's return to blr. */
  function AfterCall(back: Machine): Machine { PopFrame(StoreResult(back)) }

  /** The two arrays and the result cell are locals of the caller, above its own frame header. */
  ghost predicate CalledWith(m: Machine, gprs: seq<nat>, fprs: seq<nat>) {
    && |gprs| == 16 && |fprs| == 8
    && 4096 <= m.gpr(1) && m.gpr(1) + 32 <= m.gpr(4) < TWO64 - 4096 && m.gpr(1) + 32 <= m.gpr(5) < TWO64 - 4096
    && m.gpr(1) + 32 <= m.gpr(6) < TWO64 - 4096
    && (forall i: nat :: i < 16 ==> m.mem(m.gpr(4) + 8 * i) == gprs[i])
    && (forall i: nat :: i < 8 ==> m.mem(m.gpr(5) + 8 * i) == fprs[i])
  }

  ghost predicate AfterEntry(m: Machine, r: Machine)
    requires m.gpr(1) >= 4096
  {
    var sp := m.gpr(1);
    && r.gpr(1) == sp - 176 && r.gpr(12) == m.gpr(3) && r.ctr == m.gpr(3) && r.fpr == m.fpr
    && (forall x: nat :: x !in {0, 1, 12} ==> r.gpr(x) == m.gpr(x))
    && r.mem(sp + 16) == m.lr && r.mem(sp - 16) == m.gpr(2) && r.mem(sp - 8) == m.gpr(6) && r.mem(sp - 176) == sp
    && (forall a: nat :: a >= sp && a != sp + 16 ==> r.mem(a) == m.mem(a))
  }

  ghost predicate FrameMade(m: Machine, r: Machine)
    requires m.gpr(1) >= 4096
  {
    var sp := m.gpr(1);
    && r.gpr(1) == sp - 176 && r.fpr == m.fpr
    && (forall x: nat :: x != 0 && x != 1 ==> r.gpr(x) == m.gpr(x))
    && r.mem(sp + 16) == m.lr && r.mem(sp - 176) == sp && (forall a: nat :: a >= sp && a != sp + 16 ==> r.mem(a) == m.mem(a))
  }

  lemma {:induction false} MakesFrame(m: Machine)
    requires 4096 <= m.gpr(1) < TWO64 - 4096
    ensures FrameMade(m, MakeFrame(m))
  {
  }

  ghost predicate SavedAndMoved(m: Machine, r: Machine) {
    var low := m.gpr(1);
    && r.gpr(12) == m.gpr(3) && r.ctr == m.gpr(3) && r.fpr == m.fpr
    && (forall x: nat :: x != 12 ==> r.gpr(x) == m.gpr(x))
    && r.mem(low + 160) == m.gpr(2) && r.mem(low + 168) == m.gpr(6) && r.mem(low) == m.mem(low)
    && (forall a: nat :: a >= low + 176 ==> r.mem(a) == m.mem(a))
  }

  lemma {:induction false} SavesAndMoves(m: Machine)
    requires m.gpr(1) + 176 < TWO64
    ensures SavedAndMoved(m, SaveAndMove(m))
  {
  }

  lemma {:induction false} EntryDone(m: Machine, f: Machine, r: Machine)
    requires m.gpr(1) >= 4096 && FrameMade(m, f) && SavedAndMoved(f, r)
    ensures AfterEntry(m, r)
  {
  }

  /** f1 to fk hold the first k entries of the array at r5, and nothing else moved. */
  lemma {:induction false} LfdsRun(m: Machine, k: nat)
    requires k <= 8 && m.gpr(5) + 64 <= TWO64
    ensures var r := Lfds(m, k);
            && r == m.(fpr := r.fpr)
            && (forall j: nat :: 1 <= j <= k ==> r.fpr(j) == m.mem(m.gpr(5) + 8 * (j - 1)))
            && (forall j: nat :: j == 0 || j > k ==> r.fpr(j) == m.fpr(j))
    decreases k
  {
    if k > 0 {
      LfdsRun(m, k - 1);
    }
  }

  ghost predicate Loaded(m: Machine, r: Machine, t: nat, at: nat) {
    r == m.(gpr := r.gpr) && r.gpr(t) == m.mem(m.gpr(4) + at) && forall x: nat :: x != t ==> r.gpr(x) == m.gpr(x)
  }

  lemma {:induction false} LoadOne(m: Machine, t: nat, at: nat)
    requires m.gpr(4) + at < TWO64
    ensures Loaded(m, Exec(m, Ld(t, at, 4)), t, at)
  {
  }

  lemma {:induction false} SpillOne(m: Machine, from: nat, to: nat)
    requires m.gpr(4) + from < TWO64 && m.gpr(1) + to < TWO64
    ensures var r := Exec(Exec(m, Ld(0, from, 4)), Std(0, to, 1));
            && r == m.(gpr := r.gpr, mem := r.mem)
            && (forall x: nat :: x != 0 ==> r.gpr(x) == m.gpr(x))
            && r.mem(m.gpr(1) + to) == m.mem(m.gpr(4) + from)
            && (forall a: nat :: a != m.gpr(1) + to ==> r.mem(a) == m.mem(a))
  {
  }

  ghost predicate Spilled(m: Machine, r: Machine, k: nat) {
    && r == m.(gpr := r.gpr, mem := r.mem)
    && (forall x: nat :: x != 0 ==> r.gpr(x) == m.gpr(x))
    && (forall j: nat :: 8 <= j < 8 + k ==> r.mem(m.gpr(1) + 32 + 8 * j) == m.mem(m.gpr(4) + 8 * j))
    && (forall a: nat :: a == m.gpr(1) || a >= m.gpr(1) + 160 ==> r.mem(a) == m.mem(a))
  }

  lemma {:induction false} SpilledOneMore(m: Machine, p: Machine, r: Machine, k: nat)
    requires 0 < k <= 8 && m.gpr(1) + 160 <= m.gpr(4) && Spilled(m, p, k - 1)
    requires r == p.(gpr := r.gpr, mem := r.mem) && forall x: nat :: x != 0 ==> r.gpr(x) == p.gpr(x)
    requires r.mem(p.gpr(1) + (88 + 8 * k)) == p.mem(p.gpr(4) + (56 + 8 * k))
    requires forall a: nat :: a != p.gpr(1) + (88 + 8 * k) ==> r.mem(a) == p.mem(a)
    ensures Spilled(m, r, k)
  {
  }

  /** The save area's slots from the ninth hold the array's entries from the ninth. */
  lemma {:induction false} SpillsRun(m: Machine, k: nat)
    requires k <= 8 && m.gpr(1) + 160 <= m.gpr(4) && m.gpr(4) + 128 <= TWO64
    ensures Spilled(m, Spills(m, k), k)
    decreases k
  {
    if k > 0 {
      SpillsRun(m, k - 1);
      SpillNext(m, Spills(m, k - 1), k);
    }
  }

  lemma {:induction false} SpillNext(m: Machine, p: Machine, k: nat)
    requires 0 < k <= 8 && m.gpr(1) + 160 <= m.gpr(4) && m.gpr(4) + 128 <= TWO64 && Spilled(m, p, k - 1)
    ensures Spilled(m, Exec(Exec(p, Ld(0, 56 + 8 * k, 4)), Std(0, 88 + 8 * k, 1)), k)
  {
    SpillOne(p, 56 + 8 * k, 88 + 8 * k);
    SpilledOneMore(m, p, Exec(Exec(p, Ld(0, 56 + 8 * k, 4)), Std(0, 88 + 8 * k, 1)), k);
  }

  ghost predicate DownTo(m: Machine, r: Machine, k: nat) {
    && r == m.(gpr := r.gpr)
    && (forall j: nat :: 8 - k <= j < 8 ==> r.gpr(3 + j) == m.mem(m.gpr(4) + 8 * j))
    && (forall x: nat :: x <= 10 - k || x > 10 ==> r.gpr(x) == m.gpr(x))
  }

  lemma {:induction false} DownOneMore(m: Machine, p: Machine, r: Machine, k: nat)
    requires 0 < k <= 6 && DownTo(m, p, k - 1) && Loaded(p, r, 11 - k, 64 - 8 * k)
    ensures DownTo(m, r, k)
  {
  }

  lemma {:induction false} LdsRun(m: Machine, k: nat)
    requires k <= 6 && m.gpr(4) + 64 <= TWO64
    ensures DownTo(m, Lds(m, k), k)
    decreases k
  {
    if k > 0 {
      LdsRun(m, k - 1);
      LoadOne(Lds(m, k - 1), 11 - k, 64 - 8 * k);
      DownOneMore(m, Lds(m, k - 1), Lds(m, k), k);
    }
  }

  ghost predicate AllLoaded(m: Machine, r: Machine) {
    && r == m.(gpr := r.gpr)
    && (forall j: nat :: j < 8 ==> r.gpr(3 + j) == m.mem(m.gpr(4) + 8 * j))
    && (forall x: nat :: x < 3 || x > 10 ==> r.gpr(x) == m.gpr(x))
  }

  lemma {:induction false} TwoMore(m: Machine, p: Machine, q: Machine, r: Machine)
    requires DownTo(m, p, 6) && Loaded(p, q, 3, 0) && Loaded(q, r, 4, 8)
    ensures AllLoaded(m, r)
  {
  }

  lemma {:induction false} LoadsRun(m: Machine)
    requires m.gpr(4) + 64 <= TWO64
    ensures AllLoaded(m, Loads(m))
  {
    LdsRun(m, 6);
    var p := Lds(m, 6);
    var q := Exec(p, Ld(3, 0, 4));
    LoadOne(p, 3, 0);
    LoadOne(q, 4, 8);
    TwoMore(m, p, q, Loads(m));
  }

  ghost predicate Filled(m: Machine, r: Machine) {
    && r == m.(fpr := r.fpr)
    && (forall j: nat :: 1 <= j <= 8 ==> r.fpr(j) == m.mem(m.gpr(5) + 8 * (j - 1)))
  }

  /** What the callee and, after it, the epilogue find. */
  ghost predicate Ready(m: Machine, r: Machine, gprs: seq<nat>, fprs: seq<nat>)
    requires CalledWith(m, gprs, fprs)
  {
    var sp := m.gpr(1);
    && r.ctr == m.gpr(3) == r.gpr(12) && r.gpr(1) == sp - 176
    && (forall j: nat :: j < 8 ==> r.gpr(3 + j) == gprs[j])
    && (forall j: nat :: 8 <= j < 16 ==> r.mem(r.gpr(1) + 32 + 8 * j) == gprs[j])
    && (forall j: nat :: j < 8 ==> r.fpr(1 + j) == fprs[j])
    && r.mem(sp + 16) == m.lr && r.mem(sp - 16) == m.gpr(2) && r.mem(sp - 8) == m.gpr(6) && r.mem(r.gpr(1)) == sp
    && (forall x: nat :: x == 2 || 14 <= x < 32 ==> r.gpr(x) == m.gpr(x))
    && (forall a: nat :: a >= sp && a != sp + 16 ==> r.mem(a) == m.mem(a))
  }

  /** What the four stretches keep: the stack pointer, the two array bases, and the memory from `sp - 16` up. */
  lemma {:induction false} Kept(m: Machine, e: Machine, f: Machine, s: Machine, r: Machine)
    requires m.gpr(1) >= 4096 && AfterEntry(m, e) && Filled(e, f) && Spilled(f, s, 8) && AllLoaded(s, r)
    ensures var sp := m.gpr(1);
            && e.gpr(5) == m.gpr(5) && s.gpr(4) == f.gpr(4) == m.gpr(4) && f.gpr(1) == r.gpr(1) == sp - 176
            && r.ctr == m.gpr(3) == r.gpr(12) && r.fpr == f.fpr && r.mem == s.mem && f.mem == e.mem
            && (forall x: nat :: x == 2 || 14 <= x < 32 ==> r.gpr(x) == m.gpr(x))
            && (forall a: nat :: a >= sp - 16 ==> s.mem(a) == e.mem(a))
  {
  }

  lemma {:induction false} ArrayKept(m: Machine, e: Machine, f: Machine, s: Machine, r: Machine, gprs: seq<nat>, fprs: seq<nat>, j: nat)
    requires CalledWith(m, gprs, fprs) && j < 16
    requires AfterEntry(m, e) && Filled(e, f) && Spilled(f, s, 8) && AllLoaded(s, r)
    ensures s.mem(m.gpr(4) + 8 * j) == f.mem(m.gpr(4) + 8 * j) == gprs[j]
  {
  }

  lemma {:induction false} Arrived(m: Machine, e: Machine, f: Machine, s: Machine, r: Machine, gprs: seq<nat>, fprs: seq<nat>, j: nat)
    requires CalledWith(m, gprs, fprs) && j < 16
    requires AfterEntry(m, e) && Filled(e, f) && Spilled(f, s, 8) && AllLoaded(s, r)
    ensures j < 8 ==> r.gpr(3 + j) == gprs[j]
    ensures j >= 8 ==> r.mem(r.gpr(1) + 32 + 8 * j) == gprs[j]
  {
    Kept(m, e, f, s, r);
    ArrayKept(m, e, f, s, r, gprs, fprs, j);
    if j < 8 {
      assert r.gpr(3 + j) == s.mem(s.gpr(4) + 8 * j);
    } else {
      assert s.mem(f.gpr(1) + 32 + 8 * j) == f.mem(f.gpr(4) + 8 * j);
    }
  }

  lemma {:induction false} FprArrived(m: Machine, e: Machine, f: Machine, gprs: seq<nat>, fprs: seq<nat>, j: nat)
    requires CalledWith(m, gprs, fprs) && j < 8 && AfterEntry(m, e) && Filled(e, f)
    ensures f.fpr(1 + j) == fprs[j]
  {
  }

  lemma {:induction false} AllReady(m: Machine, e: Machine, f: Machine, s: Machine, r: Machine, gprs: seq<nat>, fprs: seq<nat>)
    requires CalledWith(m, gprs, fprs)
    requires AfterEntry(m, e) && Filled(e, f) && Spilled(f, s, 8) && AllLoaded(s, r)
    ensures Ready(m, r, gprs, fprs)
  {
    forall j: nat | j < 8 ensures r.gpr(3 + j) == gprs[j] { Arrived(m, e, f, s, r, gprs, fprs, j); }
    forall j: nat | 8 <= j < 16 ensures r.mem(r.gpr(1) + 32 + 8 * j) == gprs[j] { Arrived(m, e, f, s, r, gprs, fprs, j); }
    Kept(m, e, f, s, r);
    forall j: nat | j < 8 ensures r.fpr(1 + j) == fprs[j] { FprArrived(m, e, f, gprs, fprs, j); }
  }

  lemma {:induction false} EntryRun(m: Machine)
    requires 4096 <= m.gpr(1) < TWO64 - 4096
    ensures AfterEntry(m, SaveAndMove(MakeFrame(m)))
  {
    var f := MakeFrame(m);
    MakesFrame(m);
    SavesAndMoves(f);
    EntryDone(m, f, SaveAndMove(f));
  }

  lemma {:induction false} LfdsFill(m: Machine)
    requires m.gpr(5) + 64 <= TWO64
    ensures Filled(m, Lfds(m, 8))
  {
    LfdsRun(m, 8);
  }

  /** From the entry on, stretch by stretch. */
  lemma {:induction false} LoadsReady(m: Machine, e: Machine, f: Machine, s: Machine, gprs: seq<nat>, fprs: seq<nat>)
    requires CalledWith(m, gprs, fprs) && AfterEntry(m, e) && Filled(e, f) && Spilled(f, s, 8)
    ensures Ready(m, Loads(s), gprs, fprs)
  {
    LoadsRun(s);
    AllReady(m, e, f, s, Loads(s), gprs, fprs);
  }

  lemma {:induction false} SpillsReady(m: Machine, e: Machine, f: Machine, gprs: seq<nat>, fprs: seq<nat>)
    requires CalledWith(m, gprs, fprs) && AfterEntry(m, e) && Filled(e, f)
    ensures Ready(m, Loads(Spills(f, 8)), gprs, fprs)
  {
    SpillsRun(f, 8);
    LoadsReady(m, e, f, Spills(f, 8), gprs, fprs);
  }

  lemma {:induction false} LfdsReady(m: Machine, e: Machine, gprs: seq<nat>, fprs: seq<nat>)
    requires CalledWith(m, gprs, fprs) && AfterEntry(m, e)
    ensures Ready(m, Loads(Spills(Lfds(e, 8), 8)), gprs, fprs)
  {
    LfdsFill(e);
    SpillsReady(m, e, Lfds(e, 8), gprs, fprs);
  }

  /**
    When the branch is taken the native function finds the GPR array's first
    eight entries in r3 to r10, the rest in its parameter save area, the FPR
    array in f1 to f8, and everything the caller needs afterwards still there.
   */
  lemma {:induction false} RegistersAreLoaded(m: Machine, gprs: seq<nat>, fprs: seq<nat>)
    requires CalledWith(m, gprs, fprs)
    ensures Ready(m, AtCall(m), gprs, fprs)
  {
    EntryRun(m);
    LfdsReady(m, SaveAndMove(MakeFrame(m)), gprs, fprs);
  }

  /** The callee came back with its stack pointer and the caller's three saved words as they were. */
  ghost predicate Intact(m: Machine, r: Machine, back: Machine)
    requires m.gpr(1) >= 4096
  {
    var sp := m.gpr(1);
    && back.gpr(1) == r.gpr(1) && back.mem(sp + 16) == r.mem(sp + 16)
    && back.mem(sp - 16) == r.mem(sp - 16) && back.mem(sp - 8) == r.mem(sp - 8)
  }

  ghost predicate Returned(m: Machine, back: Machine, end: Machine) {
    && end.mem(m.gpr(6)) == back.fpr(1) && (forall a: nat :: a != m.gpr(6) ==> end.mem(a) == back.mem(a))
    && end.gpr(3) == back.gpr(3) && end.gpr(1) == m.gpr(1) && end.gpr(2) == m.gpr(2) && end.lr == m.lr
    && (forall x: nat :: 14 <= x < 32 ==> end.gpr(x) == back.gpr(x))
  }

  /**
    After the call: from any machine on which the native function returns with
    its stack pointer and the caller's saved words intact, f1 is in the result
    cell, r3 is untouched, and the stack, TOC and return address are the caller's.
   */
  lemma {:induction false} ResultsComeBack(m: Machine, gprs: seq<nat>, fprs: seq<nat>, back: Machine)
    requires CalledWith(m, gprs, fprs)
    requires Intact(m, AtCall(m), back)
    ensures Returned(m, back, AfterCall(back))
  {
    RegistersAreLoaded(m, gprs, fprs);
    ReadyReturns(m, AtCall(m), gprs, fprs, back);
  }

  lemma {:induction false} ReadyReturns(m: Machine, r: Machine, gprs: seq<nat>, fprs: seq<nat>, back: Machine)
    requires CalledWith(m, gprs, fprs) && Ready(m, r, gprs, fprs) && Intact(m, r, back)
    ensures Returned(m, back, AfterCall(back))
  {
    var sp := m.gpr(1);
    assert back.gpr(1) == sp - 176 && back.mem(sp + 16) == m.lr && back.mem(sp - 16) == m.gpr(2);
    ExitRuns(back, sp, m.gpr(6));
  }

  lemma {:induction false} ExitRuns(back: Machine, sp: nat, cell: nat)
    requires 4096 <= sp && sp + 32 <= cell < TWO64 - 4096
    requires back.gpr(1) == sp - 176 && back.mem(sp - 8) == cell
    ensures var end := AfterCall(back);
            && end.mem(cell) == back.fpr(1) && (forall a: nat :: a != cell ==> end.mem(a) == back.mem(a))
            && end.gpr(1) == sp && end.gpr(2) == back.mem(sp - 16) && end.lr == back.mem(sp + 16)
            && (forall x: nat :: x !in {0, 1, 2, 11} ==> end.gpr(x) == back.gpr(x))
  {
    StoresResult(back, sp, cell);
    PopsFrame(StoreResult(back), sp);
  }

  lemma {:induction false} StoresResult(back: Machine, sp: nat, cell: nat)
    requires 4096 <= sp && sp + 32 <= cell < TWO64 - 4096
    requires back.gpr(1) == sp - 176 && back.mem(sp - 8) == cell
    ensures var r := StoreResult(back);
            && r.mem(cell) == back.fpr(1) && (forall a: nat :: a != cell ==> r.mem(a) == back.mem(a))
            && r.gpr(2) == back.mem(sp - 16) && (forall x: nat :: x != 2 && x != 11 ==> r.gpr(x) == back.gpr(x))
  {
  }

  lemma {:induction false} PopsFrame(m: Machine, sp: nat)
    requires 4096 <= sp < TWO64 - 4096 && m.gpr(1) == sp - 176
    ensures var r := PopFrame(m);
            && r.mem == m.mem && r.lr == m.mem(sp + 16) && r.gpr(1) == sp
            && (forall x: nat :: x != 0 && x != 1 ==> r.gpr(x) == m.gpr(x))
  {
  }

  // ----- the callee's view, and the whole path -----

  /** How many of the first i parameters are floating point. */
  function FpRank(tys: seq<Type>, i: nat): nat
    requires i <= |tys|
  {
    if i == 0 then 0 else FpRank(tys, i - 1) + if Fp(tys[i - 1]) then 1 else 0
  }

  /**
    Where a function declared with these parameters looks for the i-th: the
    FPRs are taken in order, the GPRs by position, and a parameter past the
    eighth position is in the caller's parameter save area.
   */
  function Parameter(m: Machine, tys: seq<Type>, i: nat): nat
    requires i < |tys|
  {
    if Fp(tys[i]) then m.fpr(1 + FpRank(tys, i))
    else if i < 8 then m.gpr(3 + i)
    else m.mem(m.gpr(1) + 32 + 8 * i)
  }

  /** The value the ABI obliges the caller to pass: extended as the type says, a float as a double. */
  function Promised(ty: Type, arg: nat, widen: nat -> nat): nat {
    if ty.Float? then widen(arg) else if ty.Int? && ty.signed then SignExtend(arg, Range(ty)) else arg
  }

  /** The value that is passed: a 32-bit argument is always zero-extended. */
  function Passed(ty: Type, arg: nat, widen: nat -> nat): nat {
    if ty == Int(4, true) then arg else Promised(ty, arg, widen)
  }

  lemma {:induction false} RankCounts(c: Context, tys: seq<Type>, slots: seq<Slot>, n: nat, widen: nat -> nat)
    requires n <= |tys| == |slots| && forall i :: 0 <= i < |tys| ==> slots[i] == SlotFor(tys[i])
    ensures FpRank(tys, n) == |FpValues(c, slots, n, widen)|
  {
    if n > 0 { RankCounts(c, tys, slots, n - 1, widen); }
  }

  /** The floating-point argument at position i is the one its rank selects. */
  lemma {:induction false} RankSelects(c: Context, tys: seq<Type>, slots: seq<Slot>, i: nat, n: nat, widen: nat -> nat)
    requires i < n <= |tys| == |slots| && forall j :: 0 <= j < |tys| ==> slots[j] == SlotFor(tys[j])
    requires Fp(tys[i])
    ensures FpRank(tys, i) < |FpValues(c, slots, n, widen)|
    ensures FpValues(c, slots, n, widen)[FpRank(tys, i)] == FpValue(c, tys[i].Float?, i, widen)
    decreases n
  {
    RankCounts(c, tys, slots, i, widen);
    if n > i + 1 { RankSelects(c, tys, slots, i, n - 1, widen); }
  }

  lemma {:induction false} SlotsOfPacked(tys: seq<Type>)
    requires Accepted(tys)
    ensures var slots := ReadSlots(Pack(tys));
            |slots| == |tys| && forall i :: 0 <= i < |tys| ==> slots[i] == SlotFor(tys[i])
  {
    forall i | 0 <= i < |tys| ensures ReadSlots(Pack(tys))[i] == SlotFor(tys[i]) {
      PackedWordsSaySlots(tys, i);
    }
  }

  /** What is below the range is its own remainder, so cutting a cut word changes nothing. */
  lemma {:induction false} CutTwice(v: nat, range: nat)
    requires 0 < range <= TWO64
    ensures SignExtend(v % range, range) == SignExtend(v, range)
  {
    SmallIsItself(v % range, range);
  }

  lemma {:induction false} SmallIsItself(v: nat, range: nat)
    requires v < range
    ensures v % range == v
  {
  }

  /** One integer argument through its cut. */
  lemma {:induction false} CutPasses(ty: Type, word: nat, widen: nat -> nat)
    requires !Fp(ty) && Size(ty) in {1, 2, 4, 8} && word < TWO64
    ensures Apply(SlotFor(ty).cut, word) == Passed(ty, word % Range(ty), widen)
  {
    match ty.size {
      case 1 => CutTwice(word, TWO8);
      case 2 => CutTwice(word, TWO16);
      case 4 =>
      case _ => SmallIsItself(word, TWO64);
    }
  }

  /**
    For every signature the generator accepts and every placement of arguments
    by the guest: packing the signature, reading the words back, splitting the
    arguments and loading the registers makes the native function find the
    i-th argument where its own declaration says the i-th parameter is.
   */
  lemma {:induction false} CalleeFindsEveryArgument(g: Caller, tys: seq<Type>, args: seq<nat>, widen: nat -> nat,
                                 m: Machine, fprs: seq<nat>, i: nat)
    requires Accepted(tys) && Placed(g, tys, args) && i < |tys|
    requires var c, slots := AtTrap(g), ReadSlots(Pack(tys));
             CalledWith(m, Gprs(c, slots), fprs) && FpValues(c, slots, |slots|, widen) <= fprs
    ensures Parameter(AtCall(m), tys, i) == Passed(tys[i], args[i], widen)
  {
    var c, slots := AtTrap(g), ReadSlots(Pack(tys));
    SlotsOfPacked(tys);
    RegistersAreLoaded(m, Gprs(c, slots), fprs);
    ReadyArgument(g, tys, args, widen, slots, m, AtCall(m), fprs, i);
  }

  lemma {:induction false} ReadyArgument(g: Caller, tys: seq<Type>, args: seq<nat>, widen: nat -> nat, slots: seq<Slot>,
                                         m: Machine, r: Machine, fprs: seq<nat>, i: nat)
    requires Accepted(tys) && Placed(g, tys, args) && i < |tys| == |slots|
    requires forall j :: 0 <= j < |tys| ==> slots[j] == SlotFor(tys[j])
    requires CalledWith(m, Gprs(AtTrap(g), slots), fprs) && Ready(m, r, Gprs(AtTrap(g), slots), fprs)
    requires FpValues(AtTrap(g), slots, |slots|, widen) <= fprs
    ensures Parameter(r, tys, i) == Passed(tys[i], args[i], widen)
  {
    var c := AtTrap(g);
    assert IntPlace(g, i) < TWO64 && FpPlace(g, i) < TWO64;
    if Fp(tys[i]) {
      RankSelects(c, tys, slots, i, |tys|, widen);
      assert r.fpr(1 + FpRank(tys, i)) == FpValue(c, tys[i].Float?, i, widen);
      FpPasses(g, tys[i], i, widen);
    } else {
      var gprs := Gprs(c, slots);
      assert i < 8 ==> r.gpr(3 + i) == gprs[i];
      assert i >= 8 ==> r.mem(r.gpr(1) + 32 + 8 * i) == gprs[i];
      assert gprs[i] == GprAt(c, slots, i);
      IntPasses(g, tys[i], slots, i, widen);
    }
  }

  lemma {:induction false} FpPasses(g: Caller, ty: Type, i: nat, widen: nat -> nat)
    requires Fp(ty) && FpPlace(g, i) < TWO64
    ensures FpValue(AtTrap(g), ty.Float?, i, widen) == Passed(ty, FpPlace(g, i) % Range(ty), widen)
  {
    WordsAreWhereThePlacesAre(g, i);
  }

  lemma {:induction false} IntPasses(g: Caller, ty: Type, slots: seq<Slot>, i: nat, widen: nat -> nat)
    requires !Fp(ty) && Size(ty) in {1, 2, 4, 8} && IntPlace(g, i) < TWO64 && i < |slots| && slots[i] == SlotFor(ty)
    ensures GprAt(AtTrap(g), slots, i) == Passed(ty, IntPlace(g, i) % Range(ty), widen)
  {
    WordsAreWhereThePlacesAre(g, i);
    CutPasses(ty, IntPlace(g, i), widen);
  }

  /** What is passed is what the ABI promises, except for a negative signed 32-bit argument. */
  lemma {:induction false} PassedIsPromisedIff(ty: Type, arg: nat, widen: nat -> nat)
    requires Size(ty) in {1, 2, 4, 8} && arg < Range(ty)
    ensures Passed(ty, arg, widen) == Promised(ty, arg, widen) <==> !(ty == Int(4, true) && arg >= 0x8000_0000)
  {
  }

  // ----- variadic exports -----

  /** marshal_thunk_va_list: the register arguments spilled to the shadow space the caller reserved for them. */
  function SpillHome(c: Context): nat -> nat {
    Set(Set(Set(Set(c.mem, c.rsp + 8, c.r10), c.rsp + 16, c.rdx), c.rsp + 24, c.r8), c.rsp + 32, c.r9)
  }

  /** The address handed over as va_list. */
  function VaList(c: Context, nfixed: nat): nat { c.rsp + 8 + 8 * nfixed }

  /** The va_list is one flat run of slots: its k-th is the guest's k-th argument after the fixed ones. */
  lemma {:induction false} VaListReadsTheRest(g: Caller, nfixed: nat, k: nat)
    ensures SpillHome(AtTrap(g))(VaList(AtTrap(g), nfixed) + 8 * k) == IntPlace(g, nfixed + k)
    ensures forall a: nat :: a < g.rsp + 8 || a >= g.rsp + 8 + SHADOW ==> SpillHome(AtTrap(g))(a) == g.mem(a)
  {
  }

  // ----- the marshaller this one replaced -----

  /** Integer arguments packed down: the words of the integer positions among the first n, closed up. */
  function PackedDown(tys: seq<Type>, words: seq<nat>, n: nat): (g: seq<nat>)
    requires n <= |tys| == |words|
    ensures |g| + FpRank(tys, n) == n
  {
    if n == 0 then [] else PackedDown(tys, words, n - 1) + if Fp(tys[n - 1]) then [] else [words[n - 1]]
  }

  /** r(3+i) holds the word of position i, for each integer position. */
  predicate PackedRight(tys: seq<Type>, words: seq<nat>)
    requires |tys| == |words|
  {
    var g := PackedDown(tys, words, |tys|);
    forall i :: 0 <= i < |tys| && !Fp(tys[i]) ==> i < |g| && g[i] == words[i]
  }

  predicate NoIntegerAfterFp(tys: seq<Type>) {
    forall i, j :: 0 <= i < j < |tys| && Fp(tys[i]) ==> Fp(tys[j])
  }

  lemma {:induction false} PackedPrefix(tys: seq<Type>, words: seq<nat>, i: nat, n: nat)
    requires i < n <= |tys| == |words| && !Fp(tys[i])
    ensures var g := PackedDown(tys, words, n); var k := i - FpRank(tys, i);
            FpRank(tys, i) <= i && k < |g| && g[k] == words[i]
    decreases n
  {
    var h := PackedDown(tys, words, i);
    assert FpRank(tys, i) <= i;
    if n > i + 1 { PackedPrefix(tys, words, i, n - 1); }
  }

  lemma {:induction false} NoFpBefore(tys: seq<Type>, i: nat)
    requires i <= |tys|
    ensures FpRank(tys, i) == 0 <==> forall j :: 0 <= j < i ==> !Fp(tys[j])
  {
    if i > 0 { NoFpBefore(tys, i - 1); }
  }

  /**
    Packing the integers down delivers every register argument, whatever its
    value, exactly for the signatures in which no integer argument follows a
    floating-point one.
   */
  lemma {:induction false} PackedDownIsRightIff(tys: seq<Type>)
    ensures (forall words: seq<nat> | |words| == |tys| :: PackedRight(tys, words)) <==> NoIntegerAfterFp(tys)
  {
    if NoIntegerAfterFp(tys) {
      forall words: seq<nat> | |words| == |tys| ensures PackedRight(tys, words) {
        forall i | 0 <= i < |tys| && !Fp(tys[i])
          ensures i < |PackedDown(tys, words, |tys|)| && PackedDown(tys, words, |tys|)[i] == words[i]
        {
          NoFpBefore(tys, i);
          PackedPrefix(tys, words, i, |tys|);
        }
      }
    } else {
      var i, j :| 0 <= i < j < |tys| && Fp(tys[i]) && !Fp(tys[j]);
      var words := seq(|tys|, k => k);
      PackedMisplaces(tys, words, i, j);
      assert !PackedRight(tys, words);
    }
  }

  /** The integer at j, after a floating-point argument, lands below position j. */
  lemma {:induction false} PackedMisplaces(tys: seq<Type>, words: seq<nat>, i: nat, j: nat)
    requires i < j < |tys| == |words| && Fp(tys[i]) && !Fp(tys[j])
    requires forall k :: 0 <= k < |tys| ==> words[k] == k
    ensures !PackedRight(tys, words)
  {
    NoFpBefore(tys, j);
    PackedPrefix(tys, words, j, |tys|);
    var g := PackedDown(tys, words, |tys|);
    var k := j - FpRank(tys, j);
    assert g[k] == j && k < j;
    if j < |g| {
      Ascending(tys, words, |tys|, k, j);
      assert g[j] > j;
    }
  }

  lemma {:induction false} Ascending(tys: seq<Type>, words: seq<nat>, n: nat, a: nat, b: nat)
    requires n <= |tys| == |words| && forall k :: 0 <= k < |tys| ==> words[k] == k
    requires a < b < |PackedDown(tys, words, n)|
    ensures PackedDown(tys, words, n)[a] < PackedDown(tys, words, n)[b] < n
    decreases n
  {
    var g := PackedDown(tys, words, n - 1);
    if b < |g| {
      Ascending(tys, words, n - 1, a, b);
    } else {
      BelowBound(tys, words, n - 1, a);
    }
  }

  lemma {:induction false} BelowBound(tys: seq<Type>, words: seq<nat>, n: nat, a: nat)
    requires n <= |tys| == |words| && forall k :: 0 <= k < |tys| ==> words[k] == k
    requires a < |PackedDown(tys, words, n)|
    ensures PackedDown(tys, words, n)[a] < n
    decreases n
  {
    if a < |PackedDown(tys, words, n - 1)| { BelowBound(tys, words, n - 1, a); }
  }

  /** ldexp(double, int) is the least signature that the packing marshaller gets wrong. */
  lemma {:induction false} LdexpIsLeast(tys: seq<Type>)
    ensures !NoIntegerAfterFp([Double, Int(4, true)])
    ensures !NoIntegerAfterFp(tys) ==> |tys| >= 2
  {
    var t := [Double, Int(4, true)];
    assert 0 <= 0 < 1 < |t| && Fp(t[0]) && !Fp(t[1]);
  }
}
